/** Decimal integer text, as .NET formats and parses it with the invariant number format. */
module Decimal {
  import opened Wrappers

  predicate IsWhiteSpace(c: char) {
    c == ' ' || '\t' <= c <= '\r'
  }

  predicate IsDigit(c: char) {
    '0' as int <= c as int <= '9' as int
  }

  function DigitsValue(ds: string): (n: nat)
    requires forall i :: 0 <= i < |ds| ==> IsDigit(ds[i])
  {
    if ds == [] then 0
    else
      var last := ds[|ds| - 1];
      assert IsDigit(last);
      10 * DigitsValue(ds[..|ds| - 1]) + (last as int - '0' as int)
  }

  function TrimWhiteSpace(s: string): (t: string)
    ensures |t| <= |s|
    decreases |s|
  {
    if s != [] && IsWhiteSpace(s[0]) then TrimWhiteSpace(s[1..])
    else if s != [] && IsWhiteSpace(s[|s| - 1]) then TrimWhiteSpace(s[..|s| - 1])
    else s
  }

  /** Integer text as int.Parse/long.Parse read it: white space, an optional sign, digits. */
  function ParseInteger(s: string): (r: Option<int>)
  {
    var t := TrimWhiteSpace(s);
    var neg := |t| > 0 && t[0] == '-';
    var body := if |t| > 0 && (t[0] == '-' || t[0] == '+') then t[1..] else t;
    if body != [] && forall i :: 0 <= i < |body| ==> IsDigit(body[i]) then
      var n: int := DigitsValue(body);
      Some(if neg then -n else n)
    else None
  }

  function DigitChar(d: nat): (c: char)
    requires d < 10
    ensures IsDigit(c) && c as int - '0' as int == d
  {
    ('0' as int + d) as char
  }

  /** n.ToString() for a natural number: its decimal digits, most significant first. */
  function NatDigits(n: nat): (ds: string)
    ensures |ds| >= 1
    ensures forall i :: 0 <= i < |ds| ==> IsDigit(ds[i])
  {
    if n < 10 then [DigitChar(n)] else NatDigits(n / 10) + [DigitChar(n % 10)]
  }

  /** n.ToString() for any integer: a minus sign before the digits of a negative number. */
  function DecimalText(n: int): (s: string)
    ensures |s| >= 1 && IsDigit(s[|s| - 1])
    ensures n >= 0 ==> IsDigit(s[0])
    ensures n < 0 ==> s[0] == '-'
  {
    if n < 0 then "-" + NatDigits(-n) else NatDigits(n)
  }

  lemma {:induction false} NatDigitsValue(n: nat)
    ensures DigitsValue(NatDigits(n)) == n
  {
    var ds := NatDigits(n);
    if n >= 10 {
      NatDigitsValue(n / 10);
      assert ds[..|ds| - 1] == NatDigits(n / 10);
    }
  }

  /** Parsing the decimal text of a number gives the number back. */
  lemma DecimalRoundTrip(n: int)
    ensures ParseInteger(DecimalText(n)) == Some(n)
  {
    var t := DecimalText(n);
    assert !IsWhiteSpace(t[0]) && !IsWhiteSpace(t[|t| - 1]);
    assert TrimWhiteSpace(t) == t;
    if n < 0 {
      assert t[1..] == NatDigits(-n);
      NatDigitsValue(-n);
    } else {
      NatDigitsValue(n);
    }
  }
}
