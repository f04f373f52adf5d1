/** Decimal digit strings: the text JavaScript gives a non-negative integer
    (`Number.prototype.toString`), the value a digit string denotes, and the
    lexicographic order in which JavaScript compares strings. */
module Decimal {

  predicate IsDigit(c: char) {
    '0' <= c <= '9'
  }

  predicate AllDigits(s: string) {
    forall i :: 0 <= i < |s| ==> IsDigit(s[i])
  }

  function DigitChar(d: nat): (c: char)
    requires d < 10
    ensures IsDigit(c) && c as int - '0' as int == d
  {
    ('0' as int + d) as char
  }

  function DigitValue(c: char): (d: nat)
    requires IsDigit(c)
    ensures d < 10 && DigitChar(d) == c
  {
    c as int - '0' as int
  }

  function Pow10(n: nat): (p: nat)
    ensures p >= 1
  {
    if n == 0 then 1 else 10 * Pow10(n - 1)
  }

  /** The number a digit string denotes, read left to right; the empty string reads as 0. */
  function Value(s: string): nat
    requires AllDigits(s)
  {
    if s == [] then 0 else Value(s[..|s| - 1]) * 10 + DigitValue(s[|s| - 1])
  }

  /** A digit string as `toString` writes integers: no leading zero except "0" itself. */
  predicate Canonical(s: string) {
    |s| > 0 && AllDigits(s) && (s[0] == '0' ==> |s| == 1)
  }

  /** `n.toString()` for a non-negative integer `n`. */
  function NatToString(n: nat): (s: string)
    ensures Canonical(s)
    ensures n < 10 <==> |s| == 1
  {
    if n < 10 then [DigitChar(n)] else NatToString(n / 10) + [DigitChar(n % 10)]
  }

  lemma {:induction false} NatToStringRoundTrip(n: nat)
    ensures Value(NatToString(n)) == n
  {
    if n >= 10 {
      var s := NatToString(n);
      assert s[..|s| - 1] == NatToString(n / 10);
      NatToStringRoundTrip(n / 10);
    }
  }

  lemma {:induction false} CanonicalRoundTrip(s: string)
    requires Canonical(s)
    ensures NatToString(Value(s)) == s
  {
    if |s| > 1 {
      var p := s[..|s| - 1];
      assert Canonical(p);
      CanonicalRoundTrip(p);
      assert Value(s) / 10 == Value(p);
      assert s == p + [s[|s| - 1]];
    }
  }

  /** Two integers with the same text are equal: `toString` is injective. */
  lemma NatToStringInjective(m: nat, n: nat)
    requires NatToString(m) == NatToString(n)
    ensures m == n
  {
    NatToStringRoundTrip(m);
    NatToStringRoundTrip(n);
  }

  lemma {:induction false} ValueBound(s: string)
    requires AllDigits(s)
    ensures Value(s) < Pow10(|s|)
  {
    if s != [] {
      ValueBound(s[..|s| - 1]);
    }
  }

  /** Reading the leading digit first gives the same value as reading left to right. */
  lemma {:induction false} ValueHead(s: string)
    requires AllDigits(s) && |s| > 0
    ensures Value(s) == DigitValue(s[0]) * Pow10(|s| - 1) + Value(s[1..])
  {
    if |s| > 1 {
      var p, q := s[..|s| - 1], s[1..];
      var last := DigitValue(s[|s| - 1]);
      ValueHead(p);
      assert Value(s) == Value(p) * 10 + last;
      assert Value(q) == Value(p[1..]) * 10 + last by {
        assert q[..|q| - 1] == p[1..] && q[|q| - 1] == s[|s| - 1];
      }
      assert Pow10(|s| - 1) == 10 * Pow10(|s| - 2);
      ShiftDigit(DigitValue(s[0]), Pow10(|s| - 2), Value(p[1..]), last);
    }
  }

  /** Appending a digit to a number whose leading digit is worth `d * w`. */
  lemma ShiftDigit(d: int, w: int, v: int, last: int)
    ensures (d * w + v) * 10 + last == d * (10 * w) + (v * 10 + last)
  {
  }

  /** Strict lexicographic order of strings, as JavaScript's `<` compares them. */
  predicate LexLess(s: string, t: string) {
    |t| > 0 && (|s| == 0 || s[0] < t[0] || (s[0] == t[0] && LexLess(s[1..], t[1..])))
  }

  /** Among digit strings of one length, lexicographic order is numeric order. */
  lemma {:induction false} LexLessIsNumeric(s: string, t: string)
    requires AllDigits(s) && AllDigits(t) && |s| == |t|
    ensures LexLess(s, t) <==> Value(s) < Value(t)
  {
    if |s| > 0 {
      var a, b, p := DigitValue(s[0]), DigitValue(t[0]), Pow10(|s| - 1);
      ValueHead(s);
      ValueHead(t);
      ValueBound(s[1..]);
      ValueBound(t[1..]);
      if a < b {
        HeadDigitDecides(a, b, p, Value(s[1..]), Value(t[1..]));
      } else if b < a {
        HeadDigitDecides(b, a, p, Value(t[1..]), Value(s[1..]));
      } else {
        assert s[0] == t[0];
        LexLessIsNumeric(s[1..], t[1..]);
      }
    }
  }

  /** A smaller leading digit makes a smaller number, whatever follows it. */
  lemma HeadDigitDecides(a: nat, b: nat, p: nat, x: nat, y: nat)
    requires a < b && x < p && y < p
    ensures a * p + x < b * p + y
  {
    MulMonotone(a + 1, b, p);
    assert (a + 1) * p == a * p + p;
  }

  lemma MulMonotone(x: nat, y: nat, p: nat)
    requires x <= y
    ensures x * p <= y * p
  {
  }

  /** Comparing two concatenations whose first parts have equal length compares
      the first parts, and the second parts only when the first parts agree. */
  lemma {:induction false} LexLessAppend(a: string, b: string, c: string, d: string)
    requires |a| == |c|
    ensures LexLess(a + b, c + d) <==> LexLess(a, c) || (a == c && LexLess(b, d))
  {
    if |a| > 0 {
      assert (a + b)[1..] == a[1..] + b;
      assert (c + d)[1..] == c[1..] + d;
      LexLessAppend(a[1..], b, c[1..], d);
      assert a == c <==> a[0] == c[0] && a[1..] == c[1..];
    } else {
      assert a + b == b && c + d == d;
    }
  }
}
