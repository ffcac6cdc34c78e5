/**
 * Hexadecimal text as the .reg writers print it: .NET's "x2"/"X2" byte format, the
 * "x8"/"X8" dword format and comma-separated byte lists, each with the parser that
 * reads it back.
 */
module Hex {
  import opened Wrappers
  import opened Numerics

  /** A hexadecimal digit of the requested case (.NET's lower-case "x" or upper-case "X" format). */
  predicate IsHexDigit(c: char, upper: bool) {
    || '0' <= c <= '9'
    || (upper && 'A' <= c <= 'F')
    || (!upper && 'a' <= c <= 'f')
  }

  /** The value of a hexadecimal digit of either case. */
  function DigitValue(c: char): (r: Option<nat>)
    ensures r.Some? ==> r.value < 16
    ensures r.Some? <==> IsHexDigit(c, true) || IsHexDigit(c, false)
  {
    if '0' <= c <= '9' then Some(c as int - '0' as int)
    else if 'a' <= c <= 'f' then Some(c as int - 'a' as int + 10)
    else if 'A' <= c <= 'F' then Some(c as int - 'A' as int + 10)
    else None
  }

  function HexDigit(d: nat, upper: bool): (c: char)
    requires d < 16
    ensures IsHexDigit(c, upper)
    ensures DigitValue(c) == Some(d)
  {
    if d < 10 then ('0' as int + d) as char
    else if upper then ('A' as int + d - 10) as char
    else ('a' as int + d - 10) as char
  }

  /** 16 to the power n: the number of values n hexadecimal digits can write. */
  function HexSpan(n: nat): (r: nat)
    ensures r > 0
  {
    if n == 0 then 1 else 16 * HexSpan(n - 1)
  }

  /** u written with exactly n hexadecimal digits, most significant first, zero-padded. */
  function HexN(u: nat, n: nat, upper: bool): (s: seq<char>)
    ensures |s| == n
    ensures forall i :: 0 <= i < n ==> IsHexDigit(s[i], upper)
  {
    if n == 0 then [] else HexN(u / 16, n - 1, upper) + [HexDigit(u % 16, upper)]
  }

  /** The number a string of hexadecimal digits spells, or None when a character is not a digit. */
  function ParseHex(s: seq<char>): (r: Option<nat>)
    ensures r.Some? ==> r.value < HexSpan(|s|)
  {
    if s == [] then Some(0)
    else
      match (ParseHex(s[..|s| - 1]), DigitValue(s[|s| - 1]))
      case (Some(hi), Some(lo)) => Some(16 * hi + lo)
      case _ => None
  }

  lemma {:induction false} HexNRoundTrip(u: nat, n: nat, upper: bool)
    requires u < HexSpan(n)
    ensures ParseHex(HexN(u, n, upper)) == Some(u)
  {
    if n > 0 {
      DivBelow(u, 16, HexSpan(n - 1));
      HexNRoundTrip(u / 16, n - 1, upper);
      var s := HexN(u, n, upper);
      assert s[..n - 1] == HexN(u / 16, n - 1, upper);
    }
  }

  /** .NET's ToString("x8") / ToString("X8") of an int: eight digits of its two's complement. */
  function Hex8(v: int32, upper: bool): (s: seq<char>)
    ensures |s| == 8
    ensures forall i :: 0 <= i < 8 ==> IsHexDigit(s[i], upper)
    ensures ParseHex(s) == Some(Unsigned32(v))
  {
    assert HexSpan(8) == INT32_RANGE;
    HexNRoundTrip(Unsigned32(v), 8, upper);
    HexN(Unsigned32(v), 8, upper)
  }

  /** Eight hexadecimal digits read back as a 32-bit two's-complement value. */
  lemma Hex8RoundTrip(v: int32, upper: bool)
    ensures ParseHex(Hex8(v, upper)).Some?
    ensures Signed32(ParseHex(Hex8(v, upper)).value) == v
  {
    Signed32Unsigned32(v);
  }

  /** .NET's byte.ToString("x2") / ToString("X2"): always two digits. */
  function Hex2(b: uint8, upper: bool): (s: seq<char>)
    ensures |s| == 2 && IsHexDigit(s[0], upper) && IsHexDigit(s[1], upper)
    ensures ParseHex(s) == Some(b as nat)
  {
    assert HexSpan(2) == 256;
    HexNRoundTrip(b as nat, 2, upper);
    HexN(b as nat, 2, upper)
  }

  /** The bytes joined by commas, each as two hexadecimal digits: "0a,ff,00". */
  function HexList(bs: seq<uint8>, upper: bool): (s: seq<char>)
    ensures bs == [] ==> s == []
    ensures bs != [] ==> |s| == 3 * |bs| - 1
    ensures '\\' !in s && '\r' !in s && '\n' !in s
  {
    if bs == [] then []
    else if |bs| == 1 then Hex2(bs[0], upper)
    else Hex2(bs[0], upper) + [','] + HexList(bs[1..], upper)
  }

  /** Reads a comma-separated list of two-digit hexadecimal bytes; None on any other text. */
  function ParseHexList(s: seq<char>): (r: Option<seq<uint8>>)
    decreases |s|
  {
    if s == [] then Some([])
    else if |s| < 2 then None
    else
      match ParseHex(s[..2])
      case None => None
      case Some(b) =>
        if |s| == 2 then Some([b as uint8])
        else if |s| > 3 && s[2] == ',' then
          match ParseHexList(s[3..])
          case None => None
          case Some(rest) => Some([b as uint8] + rest)
        else None
  }

  /** The byte list the writers print reads back as the bytes it was printed from. */
  lemma {:induction false} HexListRoundTrip(bs: seq<uint8>, upper: bool)
    ensures ParseHexList(HexList(bs, upper)) == Some(bs)
  {
    if |bs| == 1 {
      var s := HexList(bs, upper);
      assert s[..2] == s == Hex2(bs[0], upper);
      assert ParseHex(s[..2]) == Some(bs[0] as nat);
      assert [(bs[0] as nat) as uint8] == bs;
    } else if |bs| > 1 {
      var s := HexList(bs, upper);
      assert s[..2] == Hex2(bs[0], upper);
      assert s[3..] == HexList(bs[1..], upper);
      HexListRoundTrip(bs[1..], upper);
      assert [bs[0]] + bs[1..] == bs;
    }
  }
}
