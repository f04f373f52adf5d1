/** The optional value used where the pages read something that may be absent
    (a storage key, an attribute, a page element). */
module Optional {
  datatype Option<+T> = None | Some(value: T) {
    function GetOr(default: T): T {
      if Some? then value else default
    }
  }
}

/** The parts of JavaScript's string and number built-ins that the pages use:
    `toLowerCase` (on ASCII), `includes`, `replace` with a string pattern,
    `replace(/[^0-9]/g, '')`, `parseFloat` and `parseInt`. */
module JsText {
  import opened Optional
  import opened Decimal

  predicate IsUpper(c: char) {
    'A' <= c <= 'Z'
  }

  function LowerChar(c: char): (l: char)
    ensures !IsUpper(l)
    ensures l == c || (IsUpper(c) && l as int == c as int + 32)
  {
    if IsUpper(c) then (c as int + 32) as char else c
  }

  /** `s.toLowerCase()` restricted to ASCII letters. */
  function ToLower(s: string): (r: string)
    ensures |r| == |s|
    ensures forall i :: 0 <= i < |s| ==> r[i] == LowerChar(s[i])
    ensures forall i :: 0 <= i < |r| ==> !IsUpper(r[i])
  {
    if s == [] then [] else [LowerChar(s[0])] + ToLower(s[1..])
  }

  /** `text.includes(term)`: `term` occurs in `text` at some offset. */
  predicate Includes(text: string, term: string) {
    exists i | 0 <= i <= |text| - |term| :: OccursAt(text, term, i)
  }

  predicate OccursAt(text: string, term: string, i: int) {
    0 <= i <= |text| - |term| && text[i..i + |term|] == term
  }

  /** Every string includes the empty string, and itself. */
  lemma IncludesTrivial(text: string)
    ensures Includes(text, "") && Includes(text, text)
  {
    assert OccursAt(text, "", 0);
    assert OccursAt(text, text, 0);
  }

  /** `s.replace(c, '')` with a one-character string pattern: only the first
      occurrence of `c` is removed (see `RemoveFirstAt`). */
  function RemoveFirst(s: string, c: char): (r: string)
    ensures c !in s ==> r == s
    ensures c in s ==> |r| == |s| - 1
  {
    if s == [] then []
    else if s[0] == c then s[1..]
    else [s[0]] + RemoveFirst(s[1..], c)
  }

  /** Removing the first `c` cuts out exactly the position of its first occurrence. */
  lemma {:induction false} RemoveFirstAt(s: string, c: char, k: nat)
    requires k < |s| && s[k] == c && c !in s[..k]
    ensures RemoveFirst(s, c) == s[..k] + s[k + 1..]
  {
    if k > 0 {
      assert s[0] in s[..k];
      assert s[1..][..k - 1] == s[1..k];
      RemoveFirstAt(s[1..], c, k - 1);
      assert s[..k] == [s[0]] + s[1..k];
    }
  }

  /** `s.replace(/[^0-9]/g, '')`: the digits of `s`, in order. */
  function KeepDigits(s: string): (r: string)
    ensures AllDigits(r) && |r| <= |s|
    ensures forall c :: c in r <==> c in s && IsDigit(c)
    ensures AllDigits(s) ==> r == s
  {
    if s == [] then []
    else if IsDigit(s[0]) then [s[0]] + KeepDigits(s[1..])
    else KeepDigits(s[1..])
  }

  lemma {:induction false} KeepDigitsAppend(a: string, b: string)
    ensures KeepDigits(a + b) == KeepDigits(a) + KeepDigits(b)
  {
    if a != [] {
      assert (a + b)[1..] == a[1..] + b;
      KeepDigitsAppend(a[1..], b);
    } else {
      assert a + b == b;
    }
  }

  /** The longest prefix of `s` made of digits. */
  function DigitPrefix(s: string): (p: string)
    ensures AllDigits(p) && |p| <= |s| && p == s[..|p|]
    ensures |p| < |s| ==> !IsDigit(s[|p|])
  {
    if s == [] || !IsDigit(s[0]) then [] else [s[0]] + DigitPrefix(s[1..])
  }

  /** `parseFloat(s)` for text that starts with a plain decimal numeral
      (digits, optionally a point and more digits); `None` stands for NaN. */
  function ParseFloat(s: string): (r: Option<real>)
    ensures r.Some? ==> r.value >= 0.0
    ensures s == [] || !(IsDigit(s[0]) || s[0] == '.') ==> r == None
  {
    var whole := DigitPrefix(s);
    Numeral(whole, FractionDigits(s[|whole|..]))
  }

  /** The digits after a decimal point at the start of `rest`, if any. */
  function FractionDigits(rest: string): (f: string)
    ensures AllDigits(f)
    ensures rest == [] || rest[0] != '.' ==> f == []
  {
    if rest != [] && rest[0] == '.' then DigitPrefix(rest[1..]) else []
  }

  /** The number written by whole digits and fraction digits; NaN when both
      are missing. */
  function Numeral(whole: string, fraction: string): (r: Option<real>)
    requires AllDigits(whole) && AllDigits(fraction)
    ensures r.Some? ==> r.value >= 0.0
  {
    if whole == [] && fraction == [] then None
    else if fraction == [] then Some(Value(whole) as real)
    else Some(Value(whole) as real + Fraction(fraction))
  }

  /** The value of the digits after a decimal point. */
  function Fraction(digits: string): (f: real)
    requires AllDigits(digits)
    ensures f >= 0.0
  {
    Value(digits) as real / Pow10(|digits|) as real
  }

  /** `parseFloat` of digits, a point and more digits. */
  lemma ParseFloatDecimal(whole: string, fraction: string)
    requires AllDigits(whole) && AllDigits(fraction) && fraction != []
    ensures ParseFloat(whole + "." + fraction) == Some(Value(whole) as real + Fraction(fraction))
  {
    ParseFloatParts(whole, fraction);
    NumeralWithFraction(whole, fraction);
  }

  lemma ParseFloatParts(whole: string, fraction: string)
    requires AllDigits(whole) && AllDigits(fraction)
    ensures ParseFloat(whole + "." + fraction) == Numeral(whole, fraction)
  {
    var rest := "." + fraction;
    assert whole + "." + fraction == whole + rest;
    WholePart(whole, rest);
    FractionPart(fraction);
  }

  lemma NumeralWithFraction(whole: string, fraction: string)
    requires AllDigits(whole) && AllDigits(fraction) && fraction != []
    ensures Numeral(whole, fraction) == Some(Value(whole) as real + Fraction(fraction))
  {
  }

  /** `parseFloat` reads the leading digits as the whole part and resumes at
      what follows them. */
  lemma WholePart(whole: string, rest: string)
    requires AllDigits(whole)
    requires rest == [] || !IsDigit(rest[0])
    ensures DigitPrefix(whole + rest) == whole && (whole + rest)[|whole|..] == rest
  {
    DigitPrefixStops(whole, rest);
  }

  /** A point followed by digits gives those digits as the fraction. */
  lemma FractionPart(fraction: string)
    requires AllDigits(fraction)
    ensures FractionDigits("." + fraction) == fraction
  {
    assert ("." + fraction)[1..] == fraction + [];
    DigitPrefixStops(fraction, []);
  }

  /** Text after a leading integer numeral is ignored by `parseFloat`. */
  lemma ParseFloatIgnoresTail(digits: string, tail: string)
    requires AllDigits(digits) && digits != []
    requires tail == [] || (!IsDigit(tail[0]) && tail[0] != '.')
    ensures ParseFloat(digits + tail) == Some(Value(digits) as real)
  {
    DigitPrefixStops(digits, tail);
    assert (digits + tail)[|digits|..] == tail;
    assert FractionDigits(tail) == [];
  }

  lemma {:induction false} DigitPrefixStops(digits: string, tail: string)
    requires AllDigits(digits)
    requires tail == [] || !IsDigit(tail[0])
    ensures DigitPrefix(digits + tail) == digits
  {
    if digits != [] {
      assert (digits + tail)[1..] == digits[1..] + tail;
      DigitPrefixStops(digits[1..], tail);
    } else {
      assert digits + tail == tail;
    }
  }

  /** `parseInt(s)` (decimal) for text that starts with an optional sign and
      digits; `None` stands for NaN. */
  function ParseInt(s: string): (r: Option<int>)
    ensures s == [] ==> r == None
    ensures s != [] && IsDigit(s[0]) ==> r == Some(Value(DigitPrefix(s)))
  {
    var negative := s != [] && s[0] == '-';
    var body := if s != [] && (s[0] == '-' || s[0] == '+') then s[1..] else s;
    var digits := DigitPrefix(body);
    var magnitude: int := Value(digits);
    if digits == [] then None
    else if negative then Some(-magnitude)
    else Some(magnitude)
  }

  /** A '-' before a digit string negates the number; a '-' alone is NaN. */
  lemma ParseIntNegative(digits: string)
    requires AllDigits(digits)
    ensures ParseInt("-" + digits).Some? <==> digits != []
    ensures digits != [] ==> ParseInt("-" + digits).value == -(Value(digits) as int)
  {
    var t := "-" + digits;
    assert t != [] && t[0] == '-' && t[1..] == digits;
    WholeDigitPrefix(digits);
  }

  /** A '+' before a digit string keeps the number; a '+' alone is NaN. */
  lemma ParseIntPositive(digits: string)
    requires AllDigits(digits)
    ensures ParseInt("+" + digits) == (if digits == [] then None else Some(Value(digits)))
  {
    var t := "+" + digits;
    assert t[0] == '+' && t[1..] == digits;
    WholeDigitPrefix(digits);
  }

  /** The digit prefix of a digit string is all of it. */
  lemma WholeDigitPrefix(digits: string)
    requires AllDigits(digits)
    ensures DigitPrefix(digits) == digits
  {
    DigitPrefixStops(digits, []);
    assert digits + [] == digits;
  }

  /** `parseInt` of a non-empty digit string is the number it denotes. */
  lemma ParseIntDigits(s: string)
    requires AllDigits(s) && s != []
    ensures ParseInt(s) == Some(Value(s))
  {
    DigitPrefixStops(s, []);
    assert s + [] == s;
  }
}
