/**
 * Decimal digit strings: their value, the canonical rendering of a
 * natural number, and the fact that on strings of equal length C's
 * `strcmp` order is numeric order. This is the arithmetic behind the
 * number validator of parse.c.
 */
module Decimal {

  predicate IsDigit(c: char) {
    '0' <= c <= '9'
  }

  predicate AllDigits(s: string) {
    forall i :: 0 <= i < |s| ==> IsDigit(s[i])
  }

  function DigitValue(c: char): int {
    c as int - '0' as int
  }

  function DigitChar(k: int): (c: char)
    requires 0 <= k < 10
    ensures IsDigit(c) && DigitValue(c) == k
  {
    ('0' as int + k) as char
  }

  function Pow10(k: nat): (p: nat)
    ensures p >= 1
  {
    if k == 0 then 1 else 10 * Pow10(k - 1)
  }

  lemma {:induction false} Pow10Monotone(j: nat, k: nat)
    requires j <= k
    ensures Pow10(j) <= Pow10(k)
    decreases k
  {
    if j < k {
      Pow10Monotone(j, k - 1);
    }
  }

  /** The value of a digit string, most significant digit first; 0 for the empty string. */
  function Value(s: string): int {
    if |s| == 0 then 0 else 10 * Value(s[..|s| - 1]) + DigitValue(s[|s| - 1])
  }

  lemma {:induction false} ValueBounds(s: string)
    requires AllDigits(s)
    ensures 0 <= Value(s) < Pow10(|s|)
  {
    if |s| > 0 {
      ValueBounds(s[..|s| - 1]);
    }
  }

  /** Reading the leading digit off: it weighs `10^(|s|-1)`. */
  lemma {:induction false} ValueFront(s: string)
    requires |s| >= 1
    ensures Value(s) == DigitValue(s[0]) * Pow10(|s| - 1) + Value(s[1..])
  {
    if |s| > 1 {
      var t := s[..|s| - 1];
      ValueFront(t);
      assert t[0] == s[0];
      assert t[1..] == s[1..][..|s[1..]| - 1];
      var d, p, v := DigitValue(s[0]), Pow10(|s| - 2), Value(t[1..]);
      assert Value(s[1..]) == 10 * v + DigitValue(s[|s| - 1]);
      assert Pow10(|s| - 1) == 10 * p;
      MulShift(d, p);
    }
  }

  lemma MulShift(d: int, p: int)
    ensures 10 * (d * p) == d * (10 * p)
  {
  }

  /** A digit string without a superfluous leading zero. */
  predicate Canonical(s: string) {
    |s| >= 1 && AllDigits(s) && (|s| > 1 ==> s[0] != '0')
  }

  /** The canonical decimal rendering of `n`. */
  function ToDecimal(n: nat): (s: string)
    ensures |s| >= 1 && AllDigits(s)
  {
    if n < 10 then [DigitChar(n)] else ToDecimal(n / 10) + [DigitChar(n % 10)]
  }

  lemma {:induction false} ToDecimalSpec(n: nat)
    ensures Canonical(ToDecimal(n))
    ensures Value(ToDecimal(n)) == n
  {
    if n >= 10 {
      ToDecimalSpec(n / 10);
      var s := ToDecimal(n);
      assert s[..|s| - 1] == ToDecimal(n / 10);
      assert s[0] == ToDecimal(n / 10)[0];
    }
  }

  /** A canonical string of two or more digits is at least `10^(|s|-1)`. */
  lemma CanonicalLower(s: string)
    requires Canonical(s) && |s| >= 2
    ensures Value(s) >= Pow10(|s| - 1)
  {
    ValueFront(s);
    ValueBounds(s[1..]);
  }

  /** Rendering the value of a canonical string gives the string back. */
  lemma {:induction false} DecimalRoundTrip(s: string)
    requires Canonical(s)
    ensures Value(s) >= 0 && ToDecimal(Value(s)) == s
  {
    ValueBounds(s);
    if |s| >= 2 {
      var t := s[..|s| - 1];
      CanonicalLower(s);
      assert Canonical(t) by { assert t[0] == s[0]; }
      DecimalRoundTrip(t);
      ValueBounds(t);
      var v := Value(s);
      assert v / 10 == Value(t) && v % 10 == DigitValue(s[|s| - 1]);
      assert s == t + [s[|s| - 1]];
    } else {
      assert s == [DigitChar(Value(s))];
    }
  }

  /**
   * `strcmp(a, b) < 0` for strings without a terminator inside: the first
   * differing character decides, and a proper prefix is smaller.
   */
  predicate StrLess(a: string, b: string)
    decreases |a|
  {
    if |b| == 0 then false
    else if |a| == 0 then true
    else if a[0] != b[0] then a[0] < b[0]
    else StrLess(a[1..], b[1..])
  }

  /** On digit strings of equal length, `strcmp` order is numeric order. */
  lemma {:induction false} StrLessIsNumeric(a: string, b: string)
    requires AllDigits(a) && AllDigits(b) && |a| == |b|
    ensures StrLess(a, b) <==> Value(a) < Value(b)
    decreases |a|
  {
    if |a| > 0 {
      ValueFront(a);
      ValueFront(b);
      ValueBounds(a[1..]);
      ValueBounds(b[1..]);
      var p := Pow10(|a| - 1);
      var da, db := DigitValue(a[0]), DigitValue(b[0]);
      if a[0] == b[0] {
        StrLessIsNumeric(a[1..], b[1..]);
      } else if da < db {
        DigitWeighs(da, db, p, Value(a[1..]), Value(b[1..]));
      } else {
        DigitWeighs(db, da, p, Value(b[1..]), Value(a[1..]));
      }
    }
  }

  /** A larger leading digit outweighs any tail of the same length. */
  lemma DigitWeighs(x: int, y: int, p: int, u: int, v: int)
    requires x < y && 0 <= u < p && 0 <= v
    ensures x * p + u < y * p + v
  {
    assert (x + 1) * p <= y * p;
  }
}
