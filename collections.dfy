/**
 * Sequence operations that stand for the data-frame library calls the
 * dashboard relies on: dropping duplicate rows, boolean-mask selection and
 * counting values.
 */
module Collections {

  /** No element occurs twice in `s`. */
  ghost predicate NoDuplicates<T>(s: seq<T>) {
    forall i, j :: 0 <= i < j < |s| ==> s[i] != s[j]
  }

  lemma NoDuplicatesSuffix<T>(s: seq<T>)
    requires s != []
    ensures NoDuplicates(s) ==> NoDuplicates(s[1..])
  {
    if NoDuplicates(s) {
      forall i, j | 0 <= i < j < |s| - 1 ensures s[1..][i] != s[1..][j] {
        assert s[1..][i] == s[i + 1] && s[1..][j] == s[j + 1];
      }
    }
  }

  /** `a` is `b` with some elements deleted and the rest left in their order. */
  ghost predicate Subsequence<T>(a: seq<T>, b: seq<T>)
    decreases |b|
  {
    if b == [] then a == []
    else
      (a != [] && a[|a| - 1] == b[|b| - 1] && Subsequence(a[..|a| - 1], b[..|b| - 1]))
      || Subsequence(a, b[..|b| - 1])
  }

  /** Every element of `s`, kept at its first occurrence only (`drop_duplicates`, keep="first"). */
  function Distinct<T(==,!new)>(s: seq<T>): (r: seq<T>)
    ensures NoDuplicates(r)
    ensures forall x :: x in r <==> x in s
  {
    if s == [] then []
    else
      var d := Distinct(s[..|s| - 1]);
      var y := s[|s| - 1];
      assert s == s[..|s| - 1] + [y];
      if y in d then d else d + [y]
  }

  /** The elements of `s` that satisfy `p`, in their order, with all their copies (a boolean mask). */
  function Filter<T(==,!new)>(s: seq<T>, p: T -> bool): (r: seq<T>)
    ensures forall x :: x in r <==> x in s && p(x)
    ensures forall x :: multiset(r)[x] == if p(x) then multiset(s)[x] else 0
  {
    if s == [] then []
    else
      var f := Filter(s[..|s| - 1], p);
      var y := s[|s| - 1];
      assert s == s[..|s| - 1] + [y];
      if p(y) then f + [y] else f
  }

  /** The first components of a list of pairs. */
  function Firsts<K, V>(c: seq<(K, V)>): seq<K> {
    seq(|c|, i requires 0 <= i < |c| => c[i].0)
  }

  /** The sum of the counts in a tally. */
  function Total<T>(c: seq<(T, nat)>): nat {
    if c == [] then 0 else c[0].1 + Total(c[1..])
  }

  /** The number of times `x` occurs in `s`, counted element by element. */
  function Occurrences<T(==)>(s: seq<T>, x: T): (n: nat)
    ensures n == multiset(s)[x]
    ensures n <= |s|
    ensures n > 0 <==> x in s
  {
    if s == [] then 0
    else
      assert s == s[..|s| - 1] + [s[|s| - 1]];
      Occurrences(s[..|s| - 1], x) + if s[|s| - 1] == x then 1 else 0
  }

  /** Pairs each key with its number of occurrences in `s`. */
  function Tally<T(==)>(keys: seq<T>, s: seq<T>): (r: seq<(T, nat)>)
    ensures |r| == |keys|
    ensures forall i :: 0 <= i < |r| ==> r[i].0 == keys[i]
  {
    if keys == [] then [] else [(keys[0], Occurrences(s, keys[0]))] + Tally(keys[1..], s)
  }

  /**
   * The number of occurrences of each distinct element of `s`
   * (`value_counts`, with the entries in first-occurrence order).
   */
  function ValueCounts<T(==,!new)>(s: seq<T>): (r: seq<(T, nat)>)
    ensures Firsts(r) == Distinct(s)
    ensures forall i :: 0 <= i < |r| ==> r[i].1 == multiset(s)[r[i].0] && r[i].1 >= 1
  {
    var r := Tally(Distinct(s), s);
    TallyCounts(Distinct(s), s);
    r
  }

  lemma {:induction false} TallyCounts<T(!new)>(keys: seq<T>, s: seq<T>)
    requires forall x :: x in keys ==> x in s
    ensures forall i :: 0 <= i < |keys| ==> Tally(keys, s)[i].1 == multiset(s)[keys[i]] >= 1
  {
    if keys != [] {
      assert forall x :: x in keys[1..] ==> x in keys;
      TallyCounts(keys[1..], s);
      assert keys[0] in keys;
    }
  }

  /** Counting one more element `y` adds one to the tally total exactly when `y` is one of the keys. */
  lemma {:induction false} TallySnocElement<T(!new)>(keys: seq<T>, s: seq<T>, y: T)
    requires NoDuplicates(keys)
    ensures Total(Tally(keys, s + [y])) == Total(Tally(keys, s)) + if y in keys then 1 else 0
  {
    if keys != [] {
      NoDuplicatesSuffix(keys);
      TallySnocElement(keys[1..], s, y);
      var t := s + [y];
      assert t[..|t| - 1] == s;
      if keys[0] == y {
        assert y !in keys[1..] by {
          forall j | 0 <= j < |keys| - 1 ensures keys[1..][j] != y {
            assert keys[1..][j] == keys[j + 1] && keys[0] != keys[j + 1];
          }
        }
      }
      assert y in keys <==> y == keys[0] || y in keys[1..];
    }
  }

  /** A new last key adds its own count to the tally total. */
  lemma {:induction false} TallySnocKey<T(!new)>(keys: seq<T>, s: seq<T>, y: T)
    ensures Total(Tally(keys + [y], s)) == Total(Tally(keys, s)) + Occurrences(s, y)
  {
    if keys == [] {
      assert keys + [y] == [y];
    } else {
      assert (keys + [y])[1..] == keys[1..] + [y];
      TallySnocKey(keys[1..], s, y);
    }
  }

  /** The counts of a value tally add up to the length of the tallied sequence. */
  lemma {:induction false} ValueCountsTotal<T(!new)>(s: seq<T>)
    ensures Total(ValueCounts(s)) == |s|
  {
    if s != [] {
      var init := s[..|s| - 1];
      var y := s[|s| - 1];
      assert s == init + [y];
      ValueCountsTotal(init);
      var d := Distinct(init);
      DistinctSnoc(init, y);
      TallySnocElement(d, init, y);
      if y !in init {
        TallySnocKey(d, s, y);
      }
    }
  }

  /** Deduplicating a sequence extended by one element. */
  lemma DistinctSnoc<T(!new)>(s: seq<T>, y: T)
    ensures Distinct(s + [y]) == if y in s then Distinct(s) else Distinct(s) + [y]
  {
    assert (s + [y])[..|s + [y]| - 1] == s;
  }

  /** A sequence without duplicates is left unchanged by `Distinct`. */
  lemma {:induction false} DistinctOfNoDuplicates<T(!new)>(s: seq<T>)
    requires NoDuplicates(s)
    ensures Distinct(s) == s
  {
    if s != [] {
      var init := s[..|s| - 1];
      assert NoDuplicates(init);
      DistinctOfNoDuplicates(init);
      assert s[|s| - 1] !in init;
      assert s == init + [s[|s| - 1]];
    }
  }

  /** Dropping duplicates twice drops nothing more. */
  lemma DistinctIdempotent<T(!new)>(s: seq<T>)
    ensures Distinct(Distinct(s)) == Distinct(s)
  {
    DistinctOfNoDuplicates(Distinct(s));
  }

  /** Appending rows that are already present leaves the deduplicated sequence unchanged. */
  lemma {:induction false} DistinctAbsorbs<T(!new)>(s: seq<T>, t: seq<T>)
    requires forall x :: x in t ==> x in s
    ensures Distinct(s + t) == Distinct(s)
  {
    if t == [] {
      assert s + t == s;
    } else {
      var init := t[..|t| - 1];
      var y := t[|t| - 1];
      assert y in t;
      assert forall x :: x in init ==> x in t;
      DistinctAbsorbs(s, init);
      assert s + t == (s + init) + [y];
      DistinctSnoc(s + init, y);
    }
  }

  /** A sequence followed by a copy of itself deduplicates to the same rows as the sequence alone. */
  lemma DistinctOfDoubled<T(!new)>(s: seq<T>)
    ensures Distinct(s + s) == Distinct(s)
  {
    DistinctAbsorbs(s, s);
  }

  /** A mask that every element passes selects everything. */
  lemma {:induction false} FilterKeepsAll<T(!new)>(s: seq<T>, p: T -> bool)
    requires forall i :: 0 <= i < |s| ==> p(s[i])
    ensures Filter(s, p) == s
  {
    if s != [] {
      var init := s[..|s| - 1];
      FilterKeepsAll(init, p);
      assert p(s[|s| - 1]);
      assert s == init + [s[|s| - 1]];
    }
  }

  /** The mask selects every element exactly when every element satisfies it. */
  lemma {:induction false} FilterAllIff<T(!new)>(s: seq<T>, p: T -> bool)
    ensures |Filter(s, p)| <= |s|
    ensures |Filter(s, p)| == |s| <==> forall x :: x in s ==> p(x)
  {
    if s != [] {
      var init := s[..|s| - 1];
      var y := s[|s| - 1];
      assert s == init + [y];
      FilterAllIff(init, p);
    }
  }

  /** A weaker mask selects at least as many elements. */
  lemma {:induction false} FilterMonotone<T(!new)>(s: seq<T>, p: T -> bool, q: T -> bool)
    requires forall x :: x in s && p(x) ==> q(x)
    ensures |Filter(s, p)| <= |Filter(s, q)|
  {
    if s != [] {
      var init := s[..|s| - 1];
      assert s == init + [s[|s| - 1]];
      FilterMonotone(init, p, q);
    }
  }

  /** Two masks that agree on every element select the same elements. */
  lemma {:induction false} FilterAgree<T(!new)>(s: seq<T>, p: T -> bool, q: T -> bool)
    requires forall x :: x in s ==> (p(x) <==> q(x))
    ensures Filter(s, p) == Filter(s, q)
  {
    if s != [] {
      var init := s[..|s| - 1];
      assert s == init + [s[|s| - 1]];
      FilterAgree(init, p, q);
    }
  }

  /** Dropping duplicates keeps the remaining rows in their original order. */
  lemma {:induction false} DistinctIsSubsequence<T(!new)>(s: seq<T>)
    ensures Subsequence(Distinct(s), s)
  {
    if s != [] {
      var init := s[..|s| - 1];
      var y := s[|s| - 1];
      assert s == init + [y];
      DistinctIsSubsequence(init);
      var d := Distinct(init);
      if y !in d {
        assert (d + [y])[..|d|] == d;
      }
    }
  }

  /** A mask keeps the selected elements in their original order. */
  lemma {:induction false} FilterIsSubsequence<T(!new)>(s: seq<T>, p: T -> bool)
    ensures Subsequence(Filter(s, p), s)
  {
    if s != [] {
      var init := s[..|s| - 1];
      var y := s[|s| - 1];
      assert s == init + [y];
      FilterIsSubsequence(init, p);
      var f := Filter(init, p);
      if p(y) {
        assert (f + [y])[..|f|] == f;
      }
    }
  }
}
