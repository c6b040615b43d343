/**
 * The groupby step: one summary row per distinct (Hostname, OS) pair of the
 * combined table, with its pass count, its number of controls, its status and
 * its "pass/total" ratio.
 */
module Aggregation {
  import opened Wrappers
  import opened Collections
  import opened Text
  import opened Records

  /** The grouping key of a raw row. */
  type Key = (string, string)

  function KeyOf(r: Row): Key {
    (r.hostname, r.os)
  }

  function KeyList(rows: seq<Row>): seq<Key> {
    seq(|rows|, i requires 0 <= i < |rows| => KeyOf(rows[i]))
  }

  /** The mask of the rows whose key is `k`. */
  function KeyIs(k: Key): Row -> bool {
    (r: Row) => KeyOf(r) == k
  }

  /** The rows of one group, in table order. */
  function Group(rows: seq<Row>, k: Key): seq<Row> {
    Filter(rows, KeyIs(k))
  }

  predicate RowPasses(r: Row) {
    IsPass(r.result)
  }

  /** The number of rows whose lower-cased Result is "pass". */
  function PassCount(g: seq<Row>): nat {
    |Filter(g, RowPasses)|
  }

  /** Every row's lower-cased Result is "pass". */
  predicate AllPass(g: seq<Row>) {
    forall i :: 0 <= i < |g| ==> RowPasses(g[i])
  }

  /**
   * The summary row of the group with key `k`: its pass count, its number of
   * controls, the status rule, and a ratio that reads back as the two counts.
   */
  function Summarize(rows: seq<Row>, k: Key): (sr: SummaryRow)
    ensures sr.hostname == k.0 && sr.os == k.1
    ensures sr.totalControls == |Group(rows, k)|
    ensures sr.passCount == |Filter(Group(rows, k), RowPasses)| <= sr.totalControls
    ensures sr.status == Comply <==> sr.passCount == sr.totalControls
    ensures ParseRatio(sr.complianceRatio) == Some((sr.passCount, sr.totalControls))
  {
    var g := Group(rows, k);
    var p := PassCount(g);
    AllPassIffCounted(g);
    SummaryRow(k.0, k.1, p, |g|, if AllPass(g) then Comply else NotComply, Ratio(p, |g|))
  }

  function SummaryKey(sr: SummaryRow): Key {
    (sr.hostname, sr.os)
  }

  function SummaryKeys(summary: seq<SummaryRow>): seq<Key> {
    seq(|summary|, i requires 0 <= i < |summary| => SummaryKey(summary[i]))
  }

  /** The order `groupby` sorts its keys in: by Hostname, then by OS. */
  predicate KeyLess(a: Key, b: Key) {
    StrLess(a.0, b.0) || (a.0 == b.0 && StrLess(a.1, b.1))
  }

  /** Strictly increasing in key order. */
  predicate Increasing(ks: seq<Key>) {
    forall i, j :: 0 <= i < j < |ks| ==> KeyLess(ks[i], ks[j])
  }

  lemma KeyLessIrreflexive(a: Key)
    ensures !KeyLess(a, a)
  {
    StrLessIrreflexive(a.0);
    StrLessIrreflexive(a.1);
  }

  lemma KeyLessTransitive(a: Key, b: Key, c: Key)
    requires KeyLess(a, b) && KeyLess(b, c)
    ensures KeyLess(a, c)
  {
    StrLessIrreflexive(b.0);
    if a.0 == b.0 && b.0 == c.0 {
      StrLessTransitive(a.1, b.1, c.1);
    } else if a.0 != b.0 && b.0 != c.0 {
      StrLessTransitive(a.0, b.0, c.0);
    }
  }

  lemma KeyLessTotal(a: Key, b: Key)
    ensures a == b || KeyLess(a, b) || KeyLess(b, a)
  {
    StrLessTotal(a.0, b.0);
    StrLessTotal(a.1, b.1);
  }

  lemma IncreasingNoDuplicates(ks: seq<Key>)
    requires Increasing(ks)
    ensures NoDuplicates(ks)
  {
    forall i, j | 0 <= i < j < |ks| ensures ks[i] != ks[j] {
      KeyLessIrreflexive(ks[i]);
    }
  }

  /** Puts a new key into an increasing list of keys at its place. */
  function InsertKey(k: Key, ks: seq<Key>): (r: seq<Key>)
    requires Increasing(ks) && k !in ks
    ensures Increasing(r)
    ensures forall x :: x in r <==> x == k || x in ks
    ensures |r| == |ks| + 1
  {
    if ks == [] then [k]
    else if KeyLess(k, ks[0]) then
      assert forall j :: 0 <= j < |ks| ==> KeyLess(k, ks[j]) by {
        forall j | 0 < j < |ks| ensures KeyLess(k, ks[j]) {
          KeyLessTransitive(k, ks[0], ks[j]);
        }
      }
      [k] + ks
    else
      KeyLessTotal(k, ks[0]);
      var rest := InsertKey(k, ks[1..]);
      assert forall x :: x in rest ==> KeyLess(ks[0], x) by {
        forall x | x in rest ensures KeyLess(ks[0], x) {
          if x != k {
            var j :| 0 <= j < |ks[1..]| && ks[1..][j] == x;
            assert ks[j + 1] == x;
          }
        }
      }
      assert forall j :: 0 <= j < |rest| ==> KeyLess(ks[0], rest[j]) by {
        forall j | 0 <= j < |rest| ensures KeyLess(ks[0], rest[j]) {
          assert rest[j] in rest;
        }
      }
      [ks[0]] + rest
  }

  /** The keys in the order `groupby` lists them. */
  function SortKeys(ks: seq<Key>): (r: seq<Key>)
    requires NoDuplicates(ks)
    ensures Increasing(r)
    ensures forall x :: x in r <==> x in ks
    ensures |r| == |ks|
  {
    if ks == [] then []
    else
      var init, last := ks[..|ks| - 1], ks[|ks| - 1];
      assert ks == init + [last];
      assert last !in init by {
        forall j | 0 <= j < |init| ensures init[j] != last {
          assert init[j] == ks[j];
        }
      }
      assert NoDuplicates(init) by {
        forall i, j | 0 <= i < j < |init| ensures init[i] != init[j] {
          assert init[i] == ks[i] && init[j] == ks[j];
        }
      }
      InsertKey(last, SortKeys(init))
  }

  lemma SameElementsEmpty(a: seq<Key>, b: seq<Key>)
    requires forall x :: x in a <==> x in b
    ensures a == [] <==> b == []
  {
    if a != [] {
      assert a[0] in a;
    }
    if b != [] {
      assert b[0] in b;
    }
  }

  /** Two increasing lists with the same keys are the same list: the sorted order is unique. */
  lemma {:induction false} IncreasingUnique(a: seq<Key>, b: seq<Key>)
    requires Increasing(a) && Increasing(b)
    requires forall x :: x in a <==> x in b
    ensures a == b
    decreases |a|
  {
    SameElementsEmpty(a, b);
    if a != [] {
      if a[0] != b[0] {
        assert b[0] in a && a[0] in b;
        var i :| 0 <= i < |a| && a[i] == b[0];
        var j :| 0 <= j < |b| && b[j] == a[0];
        KeyLessTransitive(a[0], b[0], a[0]);
        KeyLessIrreflexive(a[0]);
      }
      IncreasingNoDuplicates(a);
      IncreasingNoDuplicates(b);
      forall x ensures x in a[1..] <==> x in b[1..] {
        if x in a[1..] {
          var i :| 0 <= i < |a[1..]| && a[1..][i] == x;
          assert a[i + 1] == x && x != a[0];
          assert x in b;
          var j :| 0 <= j < |b| && b[j] == x;
          assert j != 0;
          assert b[1..][j - 1] == x;
        }
        if x in b[1..] {
          var j :| 0 <= j < |b[1..]| && b[1..][j] == x;
          assert b[j + 1] == x && x != b[0];
          assert x in a;
          var i :| 0 <= i < |a| && a[i] == x;
          assert i != 0;
          assert a[1..][i - 1] == x;
        }
      }
      IncreasingUnique(a[1..], b[1..]);
      assert a == [a[0]] + a[1..];
      assert b == [b[0]] + b[1..];
    }
  }

  /**
   * `groupby(["Hostname", "OS"])` followed by `reset_index`: one summary row
   * per distinct (Hostname, OS) pair, in increasing key order.
   */
  function Summary(rows: seq<Row>): (r: seq<SummaryRow>)
    ensures Increasing(SummaryKeys(r))
    ensures forall i :: 0 <= i < |r| ==> r[i] == Summarize(rows, SummaryKey(r[i]))
  {
    var ks := SortKeys(Distinct(KeyList(rows)));
    var r := seq(|ks|, i requires 0 <= i < |ks| => Summarize(rows, ks[i]));
    assert SummaryKeys(r) == ks;
    r
  }

  /** A key occurs in the key list exactly when some row carries it. */
  lemma KeyListMembership(rows: seq<Row>, k: Key)
    ensures k in KeyList(rows) <==> exists i :: 0 <= i < |rows| && KeyOf(rows[i]) == k
  {
    if exists i :: 0 <= i < |rows| && KeyOf(rows[i]) == k {
      var i :| 0 <= i < |rows| && KeyOf(rows[i]) == k;
      assert KeyList(rows)[i] == k;
    }
  }

  /** The summary has exactly one row per (Hostname, OS) pair of the table, and no others. */
  lemma SummaryOnePerKey(rows: seq<Row>)
    ensures NoDuplicates(SummaryKeys(Summary(rows)))
    ensures forall k :: k in SummaryKeys(Summary(rows)) <==> exists i :: 0 <= i < |rows| && KeyOf(rows[i]) == k
  {
    var ks := SortKeys(Distinct(KeyList(rows)));
    assert SummaryKeys(Summary(rows)) == ks;
    IncreasingNoDuplicates(ks);
    forall k ensures k in ks <==> exists i :: 0 <= i < |rows| && KeyOf(rows[i]) == k {
      KeyListMembership(rows, k);
    }
  }

  /**
   * The summary lists its keys in the one order `groupby` sorts them in: any
   * increasing list of the table's keys is the summary's list of keys.
   */
  lemma SummaryInGroupbyOrder(rows: seq<Row>, ks: seq<Key>)
    requires Increasing(ks)
    requires forall k :: k in ks <==> exists i :: 0 <= i < |rows| && KeyOf(rows[i]) == k
    ensures SummaryKeys(Summary(rows)) == ks
  {
    SummaryOnePerKey(rows);
    IncreasingUnique(SummaryKeys(Summary(rows)), ks);
  }

  /** Every summary row is the summary of its own group. */
  lemma SummaryRowIsItsGroup(rows: seq<Row>, sr: SummaryRow)
    requires sr in Summary(rows)
    ensures sr == Summarize(rows, SummaryKey(sr))
    ensures SummaryKey(sr) in KeyList(rows)
  {
    var ks := SortKeys(Distinct(KeyList(rows)));
    var i :| 0 <= i < |ks| && Summary(rows)[i] == sr;
    assert sr == Summarize(rows, ks[i]);
  }

  /** The size of a group is the number of rows carrying its key. */
  lemma {:induction false} GroupSize(rows: seq<Row>, k: Key)
    ensures |Group(rows, k)| == multiset(KeyList(rows))[k]
  {
    if rows != [] {
      var init := rows[..|rows| - 1];
      assert rows == init + [rows[|rows| - 1]];
      assert KeyList(rows) == KeyList(init) + [KeyOf(rows[|rows| - 1])];
      GroupSize(init, k);
    }
  }

  /** The status rule: compliant exactly when every passing row was counted. */
  lemma {:induction false} AllPassIffCounted(g: seq<Row>)
    ensures PassCount(g) <= |g|
    ensures AllPass(g) <==> PassCount(g) == |g|
  {
    FilterAllIff(g, RowPasses);
    if !AllPass(g) {
      var i :| 0 <= i < |g| && !RowPasses(g[i]);
      assert g[i] in g;
    }
  }

  /**
   * The counts of one summary row: the number of controls is the number of
   * rows with its (Hostname, OS), at least one; the pass count is the number
   * of those that pass, at most the number of controls; the ratio reads
   * "pass/total".
   */
  lemma SummaryRowCounts(rows: seq<Row>, sr: SummaryRow)
    requires sr in Summary(rows)
    ensures sr.totalControls == multiset(KeyList(rows))[SummaryKey(sr)] >= 1
    ensures sr.passCount == |Filter(Group(rows, SummaryKey(sr)), RowPasses)| <= sr.totalControls
    ensures sr.complianceRatio == NatToString(sr.passCount) + "/" + NatToString(sr.totalControls)
  {
    var k := SummaryKey(sr);
    SummaryRowIsItsGroup(rows, sr);
    GroupSize(rows, k);
    AllPassIffCounted(Group(rows, k));
  }

  /**
   * The status rule of one summary row: the host complies exactly when every
   * row with its (Hostname, OS) passes, which is exactly when the pass count
   * equals the number of controls.
   */
  lemma SummaryRowStatus(rows: seq<Row>, sr: SummaryRow)
    requires sr in Summary(rows)
    ensures sr.status == Comply <==>
      forall i :: 0 <= i < |rows| && KeyOf(rows[i]) == SummaryKey(sr) ==> IsPass(rows[i].result)
    ensures sr.status == Comply <==> sr.passCount == sr.totalControls
  {
    var k := SummaryKey(sr);
    SummaryRowIsItsGroup(rows, sr);
    AllPassIffCounted(Group(rows, k));
    GroupAllPass(rows, k);
  }

  /** A group passes throughout exactly when every row of the table with that key passes. */
  lemma GroupAllPass(rows: seq<Row>, k: Key)
    ensures AllPass(Group(rows, k)) <==>
      forall i :: 0 <= i < |rows| && KeyOf(rows[i]) == k ==> IsPass(rows[i].result)
  {
    var g := Group(rows, k);
    if AllPass(g) {
      forall i | 0 <= i < |rows| && KeyOf(rows[i]) == k ensures IsPass(rows[i].result) {
        assert rows[i] in g;
        var j :| 0 <= j < |g| && g[j] == rows[i];
        assert RowPasses(g[j]);
      }
    }
    if forall i :: 0 <= i < |rows| && KeyOf(rows[i]) == k ==> IsPass(rows[i].result) {
      forall j | 0 <= j < |g| ensures RowPasses(g[j]) {
        assert g[j] in rows;
        var i :| 0 <= i < |rows| && rows[i] == g[j];
      }
    }
  }

  /** The compliance ratio of a summary row reads back as its two counts. */
  lemma SummaryRatioReadsBack(rows: seq<Row>, sr: SummaryRow)
    requires sr in Summary(rows)
    ensures ParseRatio(sr.complianceRatio) == Some((sr.passCount, sr.totalControls))
  {
    SummaryRowIsItsGroup(rows, sr);
  }
}
