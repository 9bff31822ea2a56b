/**
 * One-decimal formatting of a temperature, as `String(x, 1)` does it, and
 * the matching parser. A temperature is an integer number of tenths of a
 * degree, so the decimal text is exact: -3 is "-0.3", 215 is "21.5".
 */
module Decimal {
  import opened Wrappers

  predicate IsDigit(ch: char) {
    '0' <= ch <= '9'
  }

  predicate AllDigits(s: string) {
    forall i :: 0 <= i < |s| ==> IsDigit(s[i])
  }

  function DigitChar(d: int): (ch: char)
    requires 0 <= d < 10
    ensures IsDigit(ch)
  {
    ('0' as int + d) as char
  }

  function DigitValue(ch: char): (d: int)
    requires IsDigit(ch)
    ensures 0 <= d < 10 && DigitChar(d) == ch
  {
    ch as int - '0' as int
  }

  /** The decimal digits of a natural number, most significant first, without leading zeros. */
  function NatToString(n: nat): (s: string)
    ensures |s| >= 1 && AllDigits(s)
    ensures n >= 10 ==> s[0] != '0'
  {
    if n < 10 then [DigitChar(n)] else NatToString(n / 10) + [DigitChar(n % 10)]
  }

  /** The value of a string of decimal digits. */
  function ParseNat(s: string): nat
    requires AllDigits(s)
  {
    if |s| == 0 then 0 else ParseNat(s[..|s| - 1]) * 10 + DigitValue(s[|s| - 1])
  }

  lemma {:induction false} ParseNatToString(n: nat)
    ensures ParseNat(NatToString(n)) == n
  {
    var s := NatToString(n);
    if n >= 10 {
      assert s[..|s| - 1] == NatToString(n / 10);
      ParseNatToString(n / 10);
    }
  }

  /** A temperature in tenths formatted to one decimal place: an optional minus sign, the whole degrees, a point and the tenths digit. */
  function Format(t: int): (s: string)
    ensures |s| >= 3 && s[|s| - 2] == '.' && IsDigit(s[|s| - 1])
    ensures IsDigit(s[0]) || s[0] == '-'
    ensures s[0] == '-' <==> t < 0
    ensures forall i :: 0 <= i < |s| ==> s[i] != ','
  {
    var a := if t < 0 then -t else t;
    (if t < 0 then "-" else "") + NatToString(a / 10) + "." + [DigitChar(a % 10)]
  }

  /** Reads the digits-point-digit form without a sign. */
  function ParseUnsigned(s: string): Option<nat> {
    if |s| >= 3 && s[|s| - 2] == '.' && AllDigits(s[..|s| - 2]) && IsDigit(s[|s| - 1]) then
      Some(ParseNat(s[..|s| - 2]) * 10 + DigitValue(s[|s| - 1]))
    else
      None
  }

  /** Reads a one-decimal temperature back into tenths; anything else is None. */
  function Parse(s: string): Option<int> {
    if |s| >= 1 && s[0] == '-' then
      match ParseUnsigned(s[1..])
      case Some(u) => Some(-(u as int))
      case None => None
    else
      ParseUnsigned(s)
  }

  /** Formatting to one decimal place loses nothing for a value in tenths. */
  lemma FormatRoundTrip(t: int)
    ensures Parse(Format(t)) == Some(t)
  {
    var a := if t < 0 then -t else t;
    var body := NatToString(a / 10) + "." + [DigitChar(a % 10)];
    assert body[..|body| - 2] == NatToString(a / 10);
    ParseNatToString(a / 10);
    assert ParseUnsigned(body) == Some(a);
    if t < 0 {
      assert Format(t)[1..] == body;
    } else {
      assert Format(t) == body;
    }
  }

  lemma FormatInjective(t: int, u: int)
    requires Format(t) == Format(u)
    ensures t == u
  {
    FormatRoundTrip(t);
    FormatRoundTrip(u);
  }
}
