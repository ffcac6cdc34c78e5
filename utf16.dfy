/**
 * UTF-16 little-endian encoding (.NET's Encoding.Unicode) of strings of Unicode scalar
 * values: surrogate pairs as in section 2.1 of RFC 2781, and the little-endian
 * serialisation of each 16-bit unit as in section 3.1 of RFC 2781 ("UTF-16LE").
 */
module Utf16 {
  import opened Wrappers
  import opened Numerics

  /** The 16-bit code units of one scalar value (RFC 2781, section 2.1). */
  function CodeUnits(c: char): (ws: seq<nat>)
    ensures 1 <= |ws| <= 2
    ensures forall i :: 0 <= i < |ws| ==> ws[i] < 0x1_0000
    ensures |ws| == 1 <==> c as int < 0x1_0000
    ensures |ws| == 1 ==> ws[0] == c as int && !(0xD800 <= ws[0] <= 0xDFFF)
    ensures |ws| == 2 ==> 0xD800 <= ws[0] <= 0xDBFF && 0xDC00 <= ws[1] <= 0xDFFF
  {
    if c as int < 0x1_0000 then [c as int]
    else
      var u := c as int - 0x1_0000;
      [0xD800 + u / 0x400, 0xDC00 + u % 0x400]
  }

  /** One code unit as two bytes, low byte first (RFC 2781, section 3.1). */
  function UnitBytes(w: nat): (bs: seq<uint8>)
    requires w < 0x1_0000
    ensures |bs| == 2 && bs[0] as int + 0x100 * bs[1] as int == w
  {
    [(w % 0x100) as uint8, (w / 0x100) as uint8]
  }

  function CharBytes(c: char): (bs: seq<uint8>)
    ensures |bs| == 2 * |CodeUnits(c)|
  {
    var ws := CodeUnits(c);
    if |ws| == 1 then UnitBytes(ws[0]) else UnitBytes(ws[0]) + UnitBytes(ws[1])
  }

  /** Encoding.Unicode.GetBytes(s): no byte-order mark, no terminator. */
  function EncodeLE(s: string): (bs: seq<uint8>)
    ensures |bs| % 2 == 0 && 2 * |s| <= |bs| <= 4 * |s|
  {
    if s == [] then [] else CharBytes(s[0]) + EncodeLE(s[1..])
  }

  /** Encoding distributes over concatenation, so a string can be encoded piece by piece. */
  lemma {:induction false} EncodeAppend(a: string, b: string)
    ensures EncodeLE(a + b) == EncodeLE(a) + EncodeLE(b)
  {
    if a == [] {
      assert a + b == b;
    } else {
      assert (a + b)[0] == a[0];
      assert (a + b)[1..] == a[1..] + b;
      EncodeAppend(a[1..], b);
    }
  }

  /** Reads UTF-16LE bytes back into scalar values; None on an odd length or a lone surrogate. */
  function DecodeLE(bs: seq<uint8>): (r: Option<string>)
    decreases |bs|
  {
    if bs == [] then Some([])
    else if |bs| < 2 then None
    else
      var w1 := bs[0] as int + 0x100 * bs[1] as int;
      if w1 < 0xD800 || 0xDFFF < w1 then
        match DecodeLE(bs[2..])
        case None => None
        case Some(rest) => Some([w1 as char] + rest)
      else if w1 <= 0xDBFF && |bs| >= 4 then
        var w2 := bs[2] as int + 0x100 * bs[3] as int;
        if 0xDC00 <= w2 <= 0xDFFF then
          var c := 0x1_0000 + (w1 - 0xD800) * 0x400 + (w2 - 0xDC00);
          match DecodeLE(bs[4..])
          case None => None
          case Some(rest) => Some([c as char] + rest)
        else None
      else None
  }

  /** Decoding the encoding of a string gives the string back. */
  lemma {:induction false} DecodeEncode(s: string)
    ensures DecodeLE(EncodeLE(s)) == Some(s)
  {
    if s != [] {
      DecodeEncode(s[1..]);
      DecodeHead(s[0], EncodeLE(s[1..]), s[1..]);
      assert [s[0]] + s[1..] == s;
    }
  }

  /** Decoding one encoded character in front of bytes that decode. */
  lemma DecodeHead(c: char, rest: seq<uint8>, t: string)
    requires DecodeLE(rest) == Some(t)
    ensures DecodeLE(CharBytes(c) + rest) == Some([c] + t)
  {
    if |CodeUnits(c)| == 1 {
      DecodeBmp(c, rest, t);
    } else {
      DecodePair(c, rest, t);
    }
  }

  /** A scalar value below 0x10000 is one unit that decodes as itself. */
  lemma DecodeBmp(c: char, rest: seq<uint8>, t: string)
    requires DecodeLE(rest) == Some(t) && |CodeUnits(c)| == 1
    ensures DecodeLE(CharBytes(c) + rest) == Some([c] + t)
  {
    var bs := CharBytes(c) + rest;
    assert bs[2..] == rest;
    assert (bs[0] as int + 0x100 * bs[1] as int) as char == c;
  }

  /** A scalar value above 0xFFFF is a surrogate pair that decodes as itself. */
  lemma DecodePair(c: char, rest: seq<uint8>, t: string)
    requires DecodeLE(rest) == Some(t) && |CodeUnits(c)| == 2
    ensures DecodeLE(CharBytes(c) + rest) == Some([c] + t)
  {
    var bs := CharBytes(c) + rest;
    assert bs[4..] == rest;
    var u := c as int - 0x1_0000;
    assert bs[0] as int + 0x100 * bs[1] as int == 0xD800 + u / 0x400;
    assert bs[2] as int + 0x100 * bs[3] as int == 0xDC00 + u % 0x400;
    assert (0x1_0000 + (u / 0x400) * 0x400 + u % 0x400) as char == c;
  }
}
