/**
 * Decimal text for integers: the formatting of Python's str on an int, and a
 * parser for the canonical subset of what Python's int accepts (an optional
 * minus sign followed by decimal digits).
 */
module Decimal {
  import opened Wrappers

  predicate IsDigit(c: char)
  {
    '0' <= c <= '9'
  }

  predicate AllDigits(s: string)
  {
    forall k :: 0 <= k < |s| ==> IsDigit(s[k])
  }

  function DigitChar(d: nat): (c: char)
    requires d < 10
    ensures IsDigit(c) && c as int - '0' as int == d
  {
    ('0' as int + d) as char
  }

  /** Decimal digits of n, most significant first, without leading zeros. */
  function NatText(n: nat): (s: string)
    ensures |s| >= 1 && AllDigits(s)
    ensures |s| > 1 ==> s[0] != '0'
  {
    if n < 10 then [DigitChar(n)] else NatText(n / 10) + [DigitChar(n % 10)]
  }

  /** The number a string of decimal digits denotes. */
  function DigitsValue(s: string): nat
    requires AllDigits(s)
  {
    if |s| == 0 then 0 else DigitsValue(s[..|s| - 1]) * 10 + (s[|s| - 1] as int - '0' as int)
  }

  /** Reading back the digits of n gives n. */
  lemma {:induction false} NatTextRoundTrip(n: nat)
    ensures DigitsValue(NatText(n)) == n
  {
    if n >= 10 {
      var t := NatText(n / 10);
      var s := t + [DigitChar(n % 10)];
      assert s[..|s| - 1] == t;
      NatTextRoundTrip(n / 10);
    }
  }

  /** Python's str on an integer. */
  function IntText(v: int): (s: string)
    ensures |s| >= 1
    ensures v < 0 <==> s[0] == '-'
    ensures AllDigits(if v < 0 then s[1..] else s)
  {
    if v < 0 then "-" + NatText(-v) else NatText(v)
  }

  /** Parses an optional minus sign followed by at least one decimal digit. */
  function ParseDecimal(s: string): (r: Option<int>)
    ensures r.Some? ==> |s| >= 1
  {
    if |s| > 0 && AllDigits(s) then Some(DigitsValue(s) as int)
    else if |s| > 1 && s[0] == '-' && AllDigits(s[1..]) then Some(0 - DigitsValue(s[1..]) as int)
    else None
  }

  /** Formatting then parsing gives the integer back. */
  lemma IntTextRoundTrip(v: int)
    ensures ParseDecimal(IntText(v)) == Some(v)
  {
    var s := IntText(v);
    if v < 0 {
      var t := NatText(-v);
      assert s == "-" + t && s[1..] == t;
      assert !IsDigit(s[0]);
      NatTextRoundTrip(-v);
      assert ParseDecimal(s) == Some(0 - DigitsValue(t) as int);
    } else {
      assert s == NatText(v);
      NatTextRoundTrip(v);
    }
  }
}
