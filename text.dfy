/**
 * The string operations of the aggregation step: lower-casing a `Result`
 * value before comparing it with "pass", and rendering counts as decimal
 * text in the "pass/total" compliance ratio.
 */
module Text {
  import opened Wrappers

  predicate IsUpper(c: char) {
    'A' <= c <= 'Z'
  }

  function LowerChar(c: char): char {
    if IsUpper(c) then (c as int + 32) as char else c
  }

  /**
   * Lower-cases the ASCII letters of `s` and leaves every other character
   * alone. For the comparison with "pass" this agrees with Python's
   * `str.lower`: no character outside ASCII lower-cases to 'p', 'a' or 's'.
   */
  function Lower(s: string): (r: string)
    ensures |r| == |s|
    ensures forall i :: 0 <= i < |r| ==> !IsUpper(r[i])
    ensures forall i :: 0 <= i < |s| && !IsUpper(s[i]) ==> r[i] == s[i]
    ensures forall i :: 0 <= i < |s| && IsUpper(s[i]) ==> r[i] as int == s[i] as int + 32
  {
    seq(|s|, i requires 0 <= i < |s| => LowerChar(s[i]))
  }

  /** The lower-case letter `lo` is what exactly `lo` and its upper-case form lower-case to. */
  lemma LowerCharIs(c: char, lo: char)
    requires 'a' <= lo <= 'z'
    ensures LowerChar(c) == lo <==> c == lo || c as int == lo as int - 32
  {
  }

  /**
   * A `Result` value counts as a pass when it lower-cases to "pass": exactly
   * the sixteen spellings of "pass" in any mix of letter cases.
   */
  function IsPass(result: string): (b: bool)
    ensures b <==>
      |result| == 4 &&
      (result[0] == 'p' || result[0] == 'P') &&
      (result[1] == 'a' || result[1] == 'A') &&
      (result[2] == 's' || result[2] == 'S') &&
      (result[3] == 's' || result[3] == 'S')
  {
    var l := Lower(result);
    if |result| == 4 then
      LowerCharIs(result[0], 'p');
      LowerCharIs(result[1], 'a');
      LowerCharIs(result[2], 's');
      LowerCharIs(result[3], 's');
      assert l == [l[0], l[1], l[2], l[3]];
      l == "pass"
    else
      l == "pass"
  }

  predicate IsDigit(c: char) {
    '0' <= c <= '9'
  }

  predicate AllDigits(s: string) {
    forall i :: 0 <= i < |s| ==> IsDigit(s[i])
  }

  function DigitChar(d: nat): (c: char)
    requires d < 10
    ensures IsDigit(c)
  {
    (d + '0' as int) as char
  }

  function DigitValue(c: char): (d: nat)
    requires IsDigit(c)
    ensures d < 10
    ensures DigitChar(d) == c
  {
    c as int - '0' as int
  }

  /** The decimal text of `n`, as `astype(str)` renders an integer count. */
  function NatToString(n: nat): (s: string)
    ensures |s| >= 1 && AllDigits(s)
    ensures s[0] == '0' ==> n == 0 && s == "0"
    decreases n
  {
    if n < 10 then [DigitChar(n)] else NatToString(n / 10) + [DigitChar(n % 10)]
  }

  /** The number a string of decimal digits denotes. */
  function ParseNat(s: string): nat
    requires AllDigits(s)
  {
    if s == [] then 0 else ParseNat(s[..|s| - 1]) * 10 + DigitValue(s[|s| - 1])
  }

  /** Reading back the decimal text of a count gives the count. */
  lemma {:induction false} ParseNatToString(n: nat)
    ensures ParseNat(NatToString(n)) == n
    decreases n
  {
    var s := NatToString(n);
    if n >= 10 {
      ParseNatToString(n / 10);
      assert s[..|s| - 1] == NatToString(n / 10);
    }
  }

  /** The index of the first `c` in `s`, or `|s|` when there is none. */
  function IndexOf(s: string, c: char): (i: nat)
    ensures i <= |s|
    ensures i < |s| ==> s[i] == c
    ensures forall j :: 0 <= j < i ==> s[j] != c
  {
    if s == [] then 0
    else if s[0] == c then 0
    else 1 + IndexOf(s[1..], c)
  }

  /** Reads a ratio "p/t" back into its two counts; anything else is `None`. */
  function ParseRatio(s: string): Option<(nat, nat)> {
    var k := IndexOf(s, '/');
    if k == |s| then None
    else
      var num, den := s[..k], s[k + 1..];
      if num != [] && den != [] && AllDigits(num) && AllDigits(den)
      then Some((ParseNat(num), ParseNat(den)))
      else None
  }

  /**
   * The compliance ratio "pass/total" of one host summary; it determines the
   * two counts it was made from.
   */
  function Ratio(passCount: nat, totalControls: nat): (s: string)
    ensures ParseRatio(s) == Some((passCount, totalControls))
  {
    var a, b := NatToString(passCount), NatToString(totalControls);
    var s := a + "/" + b;
    assert s[|a|] == '/';
    assert forall j :: 0 <= j < |a| ==> s[j] == a[j] && IsDigit(a[j]);
    assert IndexOf(s, '/') == |a|;
    assert s[..|a|] == a;
    assert s[|a| + 1..] == b;
    ParseNatToString(passCount);
    ParseNatToString(totalControls);
    s
  }

  /** Python's `<` on strings: lexicographic by code point, a proper prefix first. */
  predicate StrLess(a: string, b: string) {
    b != [] && (a == [] || a[0] < b[0] || (a[0] == b[0] && StrLess(a[1..], b[1..])))
  }

  lemma {:induction false} StrLessIrreflexive(a: string)
    ensures !StrLess(a, a)
  {
    if a != [] {
      StrLessIrreflexive(a[1..]);
    }
  }

  lemma {:induction false} StrLessTransitive(a: string, b: string, c: string)
    requires StrLess(a, b) && StrLess(b, c)
    ensures StrLess(a, c)
  {
    if a != [] && a[0] == b[0] && b[0] == c[0] {
      StrLessTransitive(a[1..], b[1..], c[1..]);
    }
  }

  /** Any two different strings are ordered one way or the other. */
  lemma {:induction false} StrLessTotal(a: string, b: string)
    ensures a == b || StrLess(a, b) || StrLess(b, a)
  {
    if a != [] && b != [] && a[0] == b[0] {
      StrLessTotal(a[1..], b[1..]);
      assert a == [a[0]] + a[1..];
      assert b == [b[0]] + b[1..];
    }
  }
}
