/**
 * Decimal text for integers: Python's `str(i)` for an `int`, and `int(text)`
 * for text that holds a base-10 integer.
 */
module Decimal {
  import opened Wrappers
  import opened Text

  predicate IsDigit(c: char) {
    '0' <= c <= '9'
  }

  predicate AllDigits(s: string) {
    forall i :: 0 <= i < |s| ==> IsDigit(s[i])
  }

  function DigitChar(d: nat): (c: char)
    requires d < 10
    ensures IsDigit(c)
  {
    ('0' as int + d) as char
  }

  function DigitValue(c: char): (d: nat)
    requires IsDigit(c)
    ensures d < 10
  {
    c as int - '0' as int
  }

  /** Python's `str(n)` for a non-negative integer: no leading zero, digits only. */
  function NatToDecimal(n: nat): (r: string)
    ensures |r| >= 1 && AllDigits(r)
    ensures r[0] == '0' ==> n == 0
    decreases n
  {
    if n < 10 then [DigitChar(n)] else NatToDecimal(n / 10) + [DigitChar(n % 10)]
  }

  /** Python's `str(i)`: a minus sign before the digits of a negative integer. */
  function IntToDecimal(i: int): (r: string)
    ensures r != [] && (r[0] == '-' <==> i < 0)
    ensures forall k :: 0 < k < |r| ==> IsDigit(r[k])
  {
    if i < 0 then "-" + NatToDecimal(-i) else NatToDecimal(i)
  }

  /** The value of a run of decimal digits; the empty run is worth 0. */
  function DigitsValue(s: string): nat
    requires AllDigits(s)
  {
    if s == [] then 0 else DigitsValue(s[..|s| - 1]) * 10 + DigitValue(s[|s| - 1])
  }

  /** An optional sign followed by one or more digits, with nothing around them. */
  function ParseSigned(t: string): Option<int> {
    var negative := |t| > 0 && t[0] == '-';
    var digits := if |t| > 0 && (t[0] == '-' || t[0] == '+') then t[1..] else t;
    if digits != [] && AllDigits(digits) then
      var v: int := DigitsValue(digits);
      Some(if negative then -v else v)
    else None
  }

  /**
   * The whitespace `int()` skips around the digits: what `str.isspace()`
   * accepts except the four information separators U+001C to U+001F, which
   * `int()` reads as ordinary characters.
   */
  predicate IsIntSpace(c: char) {
    IsSpace(c) && !('\U{1C}' <= c <= '\U{1F}')
  }

  /** Removes the leading whitespace `int()` skips: a suffix of `s`. */
  function TrimLeft(s: string): (r: string)
    ensures |r| <= |s| && r == s[|s| - |r|..]
    ensures r == [] || !IsIntSpace(r[0])
    ensures forall i :: 0 <= i < |s| - |r| ==> IsIntSpace(s[i])
  {
    if s != [] && IsIntSpace(s[0]) then TrimLeft(s[1..]) else s
  }

  /** Removes the trailing whitespace `int()` skips: a prefix of `s`. */
  function TrimRight(s: string): (r: string)
    ensures |r| <= |s| && r == s[..|r|]
    ensures r == [] || !IsIntSpace(r[|r| - 1])
    ensures forall i :: |r| <= i < |s| ==> IsIntSpace(s[i])
  {
    if s != [] && IsIntSpace(s[|s| - 1]) then TrimRight(s[..|s| - 1]) else s
  }

  /**
   * Python's `int(text)`: surrounding whitespace allowed, then an optional
   * sign, then one or more digits; anything else is `None` (a `ValueError`).
   */
  function ParseInt(text: string): Option<int> {
    ParseSigned(TrimRight(TrimLeft(text)))
  }

  /** Text that starts with an information separator is not an integer for `int()`. */
  lemma SeparatorNotSkipped(text: string)
    requires text != [] && '\U{1C}' <= text[0] <= '\U{1F}'
    ensures ParseInt(text) == None
  {
    assert !IsIntSpace(text[0]);
    assert TrimLeft(text) == text;
    var t := TrimRight(text);
    assert t != [] ==> t[0] == text[0] && !IsDigit(t[0]) && t[0] != '-' && t[0] != '+';
  }

  /** Reading back the digits `str` writes gives the number. */
  lemma {:induction false} NatRoundTrip(n: nat)
    ensures DigitsValue(NatToDecimal(n)) == n
    decreases n
  {
    if n >= 10 {
      NatRoundTrip(n / 10);
      var s := NatToDecimal(n);
      assert s[..|s| - 1] == NatToDecimal(n / 10);
    }
  }

  /** The sign and digits `str` writes read back as the integer. */
  lemma SignedRoundTrip(i: int)
    ensures ParseSigned(IntToDecimal(i)) == Some(i)
  {
    if i < 0 {
      var d := NatToDecimal(-i);
      NatRoundTrip(-i);
      var t := "-" + d;
      assert t[0] == '-' && t[1..] == d;
      assert ParseSigned(t) == Some(0 - DigitsValue(d));
    } else {
      NatRoundTrip(i);
      assert IsDigit(IntToDecimal(i)[0]);
    }
  }

  /** `int(str(i)) == i` for every integer. */
  lemma IntRoundTrip(i: int)
    ensures ParseInt(IntToDecimal(i)) == Some(i)
  {
    var t := IntToDecimal(i);
    assert !IsIntSpace(t[0]) && !IsIntSpace(t[|t| - 1]);
    assert TrimLeft(t) == t;
    assert TrimRight(t) == t;
    SignedRoundTrip(i);
  }

  /** Different integers have different decimal texts. */
  lemma IntToDecimalInjective(a: int, b: int)
    requires IntToDecimal(a) == IntToDecimal(b)
    ensures a == b
  {
    IntRoundTrip(a);
    IntRoundTrip(b);
  }
}
