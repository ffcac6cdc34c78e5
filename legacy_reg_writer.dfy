/**
 * The older Registration Entries writer of the RegistryHelper assembly: upper-case hex, no
 * escaping, and binary data broken into continuation lines every BinaryWrapLength bytes.
 */
module LegacyRegWriter {
  import opened Wrappers
  import opened Strings
  import opened Numerics
  import opened Hex
  import opened Utf16
  import opened RegistryValues
  import opened Decimal
  import opened RegText

  /** The default of the BinaryWrapLength property. */
  const DEFAULT_WRAP_LENGTH: int32 := 21

  /** A backslash closing a line that the next line continues. */
  const CONTINUATION: string := "\\\r\n"

  /** TextWriter.Write(object): nothing for null, otherwise the object's ToString(). */
  function ObjectText(p: Payload): (s: string)
    ensures p.Str? ==> s == p.s
    ensures p.Null? ==> s == []
  {
    match p
    case Null => []
    case Str(s) => s
    case Int(i) => DecimalText(i as int)
    case Long(l) => DecimalText(l as int)
    case Bytes(_) => "System.Byte[]"
    case Strings(_) => "System.String[]"
  }

  /** "@=" for the default value, otherwise the name between quotes, unescaped, and '='. */
  function NameText(name: string): (r: string)
    ensures |r| >= 2 && r[|r| - 1] == '='
    ensures name == "" <==> r == "@="
  {
    if name == "" then "@=" else "\"" + name + "\"="
  }

  /** Whether WriteBinary breaks the line after the byte at index i, for wrap length w. */
  predicate WrapsAfter(i: nat, w: int) {
    if w > 0 then i >= w && IsMultiple(i, w)
    else w == 0 && i == 0
  }

  /** What one round of the WriteBinary loop writes for the byte at index i. */
  function BinaryPiece(bs: seq<uint8>, i: nat, w: int): string
    requires i < |bs|
  {
    Hex2(bs[i], true) + (if i != |bs| - 1 then "," else []) + (if WrapsAfter(i, w) then CONTINUATION else [])
  }

  /** What the first n rounds of the WriteBinary loop write. */
  function BinaryPrefix(bs: seq<uint8>, n: nat, w: int): string
    requires n <= |bs|
  {
    if n == 0 then [] else BinaryPrefix(bs, n - 1, w) + BinaryPiece(bs, n - 1, w)
  }

  /** What WriteBinary writes for the whole array. */
  function BinaryText(bs: seq<uint8>, w: int): (s: string)
    ensures Unwrapped(s) == HexList(bs, true)
  {
    if bs == [] then BinaryPrefix(bs, |bs|, w)
    else
      UnwrappedPrefix(bs, |bs|, w);
      assert bs[..|bs|] == bs;
      BinaryPrefix(bs, |bs|, w)
  }

  /** The text with its line continuations joined: every backslash, CR and LF dropped. */
  function Unwrapped(s: string): (r: string)
    ensures |r| <= |s|
  {
    if s == [] then []
    else (if s[0] in CONTINUATION then [] else [s[0]]) + Unwrapped(s[1..])
  }

  lemma {:induction false} UnwrappedAppend(a: string, b: string)
    ensures Unwrapped(a + b) == Unwrapped(a) + Unwrapped(b)
  {
    if a == [] {
      assert a + b == b;
    } else {
      assert (a + b)[0] == a[0];
      assert (a + b)[1..] == a[1..] + b;
      UnwrappedAppend(a[1..], b);
    }
  }

  lemma {:induction false} UnwrappedPlain(s: string)
    requires '\\' !in s && '\r' !in s && '\n' !in s
    ensures Unwrapped(s) == s
  {
    if s != [] {
      assert s[0] in s;
      assert s[0] !in CONTINUATION;
      UnwrappedPlain(s[1..]);
      assert [s[0]] + s[1..] == s;
    }
  }

  /** The comma-joined hex of the first n bytes, with the comma after byte n-1 when more follow. */
  lemma {:induction false} UnwrappedPrefix(bs: seq<uint8>, n: nat, w: int)
    requires 0 < n <= |bs|
    ensures Unwrapped(BinaryPrefix(bs, n, w))
         == HexList(bs[..n], true) + (if n < |bs| then "," else [])
  {
    var piece := BinaryPiece(bs, n - 1, w);
    var hex := Hex2(bs[n - 1], true);
    var comma: string := if n < |bs| then "," else [];
    if n == 1 {
      UnwrappedFirst(bs, w);
    } else {
      calc {
        Unwrapped(BinaryPrefix(bs, n, w));
        Unwrapped(BinaryPrefix(bs, n - 1, w) + piece);
        { UnwrappedAppend(BinaryPrefix(bs, n - 1, w), piece); }
        Unwrapped(BinaryPrefix(bs, n - 1, w)) + Unwrapped(piece);
        { UnwrappedPrefix(bs, n - 1, w); UnwrappedPiece(bs, n - 1, w); }
        HexList(bs[..n - 1], true) + "," + (hex + comma);
        { Append3(HexList(bs[..n - 1], true) + ",", hex, comma); }
        HexList(bs[..n - 1], true) + "," + hex + comma;
        { HexListSnoc(bs[..n - 1], bs[n - 1]);
          TakeSnoc(bs, n - 1); }
        HexList(bs[..n], true) + comma;
      }
    }
  }

  lemma UnwrappedFirst(bs: seq<uint8>, w: int)
    requires 0 < |bs|
    ensures Unwrapped(BinaryPrefix(bs, 1, w)) == HexList(bs[..1], true) + (if 1 < |bs| then "," else [])
  {
    assert BinaryPrefix(bs, 1, w) == BinaryPiece(bs, 0, w) by {
      assert BinaryPrefix(bs, 1, w) == [] + BinaryPiece(bs, 0, w);
    }
    UnwrappedPiece(bs, 0, w);
    assert bs[..1] == [bs[0]];
    assert HexList(bs[..1], true) == Hex2(bs[0], true);
  }

  lemma UnwrappedPiece(bs: seq<uint8>, i: nat, w: int)
    requires i < |bs|
    ensures Unwrapped(BinaryPiece(bs, i, w)) == Hex2(bs[i], true) + (if i != |bs| - 1 then "," else [])
  {
    var comma: string := if i != |bs| - 1 then "," else [];
    var cont: string := if WrapsAfter(i, w) then CONTINUATION else [];
    UnwrappedAppend(Hex2(bs[i], true) + comma, cont);
    HexCommaPlain(bs[i], comma);
    UnwrappedPlain(Hex2(bs[i], true) + comma);
    UnwrappedContinuation();
  }

  /** Two hex digits and an optional comma hold no backslash, CR or LF. */
  lemma HexCommaPlain(b: uint8, comma: string)
    requires comma == "," || comma == []
    ensures var s := Hex2(b, true) + comma; '\\' !in s && '\r' !in s && '\n' !in s
  {
    var s := Hex2(b, true) + comma;
    forall j | 0 <= j < |s|
      ensures s[j] != '\\' && s[j] != '\r' && s[j] != '\n'
    {
      if j >= 2 {
        assert s[j] == comma[j - 2];
      }
    }
  }

  /** A line continuation joins to nothing. */
  lemma UnwrappedContinuation()
    ensures Unwrapped(CONTINUATION) == []
  {
    assert CONTINUATION[1..] == "\r\n";
    assert "\r\n"[1..] == "\n";
    assert "\n"[1..] == [];
  }

  lemma {:induction false} HexListSnoc(bs: seq<uint8>, b: uint8)
    requires bs != []
    ensures HexList(bs + [b], true) == HexList(bs, true) + "," + Hex2(b, true)
  {
    if |bs| == 1 {
      assert (bs + [b])[1..] == [b];
    } else {
      assert (bs + [b])[1..] == bs[1..] + [b];
      HexListSnoc(bs[1..], b);
    }
  }

  /** With a negative wrap length, or one no index reaches, nothing is wrapped. */
  lemma {:induction false} NoWrapPrefix(bs: seq<uint8>, n: nat, w: int)
    requires 0 < n <= |bs|
    requires w < 0 || w >= |bs|
    ensures BinaryPrefix(bs, n, w) == HexList(bs[..n], true) + (if n < |bs| then "," else [])
  {
    if n == 1 {
      NoWrapFirst(bs, w);
    } else {
      NoWrapPrefix(bs, n - 1, w);
      NoWrapStep(bs, n, w);
    }
  }

  /** The first byte, unwrapped. */
  lemma NoWrapFirst(bs: seq<uint8>, w: int)
    requires 0 < |bs|
    requires w < 0 || w >= |bs|
    ensures BinaryPrefix(bs, 1, w) == HexList(bs[..1], true) + (if 1 < |bs| then "," else [])
  {
    assert !WrapsAfter(0, w);
    assert BinaryPrefix(bs, 1, w) == [] + BinaryPiece(bs, 0, w);
    assert bs[..1] == [bs[0]];
  }

  /** One more unwrapped byte after n - 1 unwrapped ones. */
  lemma NoWrapStep(bs: seq<uint8>, n: nat, w: int)
    requires 1 < n <= |bs|
    requires w < 0 || w >= |bs|
    requires BinaryPrefix(bs, n - 1, w) == HexList(bs[..n - 1], true) + ","
    ensures BinaryPrefix(bs, n, w) == HexList(bs[..n], true) + (if n < |bs| then "," else [])
  {
    var hex := Hex2(bs[n - 1], true);
    var comma: string := if n < |bs| then "," else [];
    assert !WrapsAfter(n - 1, w);
    assert BinaryPiece(bs, n - 1, w) == hex + comma + [] == hex + comma;
    Append3(HexList(bs[..n - 1], true) + ",", hex, comma);
    HexListSnoc(bs[..n - 1], bs[n - 1]);
    TakeSnoc(bs, n - 1);
  }

  /** Line breaks only appear once the array is longer than the wrap length. */
  lemma NoWrapWhenShort(bs: seq<uint8>, w: int)
    requires w < 0 || w >= |bs|
    ensures BinaryText(bs, w) == HexList(bs, true)
  {
    if bs != [] {
      NoWrapPrefix(bs, |bs|, w);
      assert bs[..|bs|] == bs;
    }
  }

  /** With the default length, the first break follows byte 21 and the next byte 42. */
  lemma DefaultWrapPoints(i: nat)
    ensures WrapsAfter(i, DEFAULT_WRAP_LENGTH as int) <==> i >= 21 && i % 21 == 0
    ensures WrapsAfter(21, DEFAULT_WRAP_LENGTH as int) && WrapsAfter(42, DEFAULT_WRAP_LENGTH as int)
  {
    MultipleMod(i, 21);
  }

  /** What SetValue writes after the name for a payload of the given kind. */
  function ValueData(p: Payload, kind: RegistryValueKind, w: int): (e: Emitted)
    ensures e.failure.None? ==> |e.text| >= 2 && e.text[|e.text| - 2..] == CRLF
  {
    match kind
    case String => Emitted("\"" + ObjectText(p) + "\"" + CRLF, None)
    case ExpandString =>
      (match p
       case Str(s) => Emitted("hex(2):" + BinaryText(EncodeLE(s), w) + CRLF, None)
       case Null => Emitted("hex(2):", Some(ArgumentNullException))
       case _ => Emitted("hex(2):", Some(InvalidCastException)))
    case Binary =>
      (match p
       case Bytes(bs) => Emitted("hex:" + BinaryText(bs, w) + CRLF, None)
       case Null => Emitted("hex:", Some(NullReferenceException))
       case _ => Emitted("hex:", Some(InvalidCastException)))
    case DWord =>
      (match p
       case Int(i) => Emitted("dword:" + Hex8(i, true) + CRLF, None)
       case Null => Emitted("dword:", Some(NullReferenceException))
       case _ => Emitted("dword:", Some(InvalidCastException)))
    case MultiString =>
      (match p
       case Str(s) => Emitted("hex(7):" + BinaryText(EncodeLE(s), w) + CRLF, None)
       case Null => Emitted("hex(7):", Some(ArgumentNullException))
       case _ => Emitted("hex(7):", Some(InvalidCastException)))
    case QWord =>
      (match p
       case Long(l) => Emitted("hex(b):" + BinaryText(LongBytes(l), w) + CRLF, None)
       case Null => Emitted("hex(b):", Some(NullReferenceException))
       case _ => Emitted("hex(b):", Some(InvalidCastException)))
    case _ => Emitted([], Some(ArgumentException))
  }

  /** What SetValue(name, value, kind) writes with wrap length w. */
  function SetValueOutput(name: string, p: Payload, kind: RegistryValueKind, w: int): (e: Emitted)
    ensures |e.text| >= |NameText(name)| && e.text[..|NameText(name)|] == NameText(name)
    ensures e.failure.None? ==> |e.text| >= 2 && e.text[|e.text| - 2..] == CRLF
  {
    var d := ValueData(p, kind, w);
    Emitted(NameText(name) + d.text, d.failure)
  }

  /** Which calls succeed: the six accepted kinds, each with the one payload type it casts to. */
  lemma SetValueAccepts(name: string, p: Payload, kind: RegistryValueKind, w: int)
    ensures SetValueOutput(name, p, kind, w).failure.None? <==>
      match kind
      case String => true
      case ExpandString | MultiString => p.Str?
      case Binary => p.Bytes?
      case DWord => p.Int?
      case QWord => p.Long?
      case _ => false
  {
  }

  /**
   * Binary data whose last index is a wrap point ends in a continuation backslash followed by
   * SetValue's own line break, so the entry closes with an empty line; any other ends in one.
   */
  lemma BinaryValueEnding(bs: seq<uint8>, w: int)
    requires bs != []
    ensures var t := ValueData(Bytes(bs), Binary, w).text;
      |t| >= 8 && (t[|t| - 5..] == CONTINUATION + CRLF <==> WrapsAfter(|bs| - 1, w))
  {
    var n := |bs| - 1;
    var last := Hex2(bs[n], true);
    var cont: string := if WrapsAfter(n, w) then CONTINUATION else [];
    var prefix := BinaryPrefix(bs, n, w);
    assert BinaryText(bs, w) == prefix + (last + cont);
    assert ValueData(Bytes(bs), Binary, w).text == "hex:" + (prefix + (last + cont)) + CRLF;
    Append3("hex:", prefix, last + cont);
    LineEnding("hex:" + prefix, last, WrapsAfter(n, w));
  }

  /** Two hex digits, an optional continuation and a line break, after at least four characters. */
  lemma LineEnding(pre: string, last: string, wraps: bool)
    requires |pre| >= 4 && |last| == 2 && IsHexDigit(last[1], true)
    ensures var t := pre + (last + (if wraps then CONTINUATION else [])) + CRLF;
      |t| >= 8 && (t[|t| - 5..] == CONTINUATION + CRLF <==> wraps)
  {
    var t := pre + (last + (if wraps then CONTINUATION else [])) + CRLF;
    if wraps {
      assert t == pre + last + (CONTINUATION + CRLF);
    } else {
      assert t[|t| - 3] == last[1];
    }
  }

  /** With the default length, a 22-byte value ends in "\", CRLF and an empty line. */
  lemma DefaultWrapDoubleBreak(bs: seq<uint8>)
    requires |bs| == 22
    ensures var t := ValueData(Bytes(bs), Binary, DEFAULT_WRAP_LENGTH as int).text;
      t[|t| - 5..] == "\\\r\n\r\n"
  {
    DefaultWrapPoints(21);
    BinaryValueEnding(bs, DEFAULT_WRAP_LENGTH as int);
  }

  /** A DWord is written as "dword:" and eight upper-case hex digits of its two's complement. */
  lemma DWordText(name: string, i: int32, w: int)
    ensures SetValueOutput(name, Int(i), DWord, w).text == NameText(name) + "dword:" + Hex8(i, true) + CRLF
    ensures |Hex8(i, true)| == 8 && forall j :: 0 <= j < 8 ==> IsHexDigit(Hex8(i, true)[j], true)
    ensures Signed32(ParseHex(Hex8(i, true)).value) == i
  {
    var n := NameText(name);
    var h := Hex8(i, true);
    assert SetValueOutput(name, Int(i), DWord, w).text == n + ("dword:" + h + CRLF);
    assert n + ("dword:" + h + CRLF) == n + "dword:" + h + CRLF;
    Hex8RoundTrip(i, true);
  }

  /** Names and String payloads go out verbatim between quotes. */
  lemma StringText(name: string, s: string, w: int)
    requires name != ""
    ensures SetValueOutput(name, Str(s), String, w).text == "\"" + name + "\"=" + "\"" + s + "\"" + CRLF
  {
    var n := "\"" + name + "\"=";
    assert SetValueOutput(name, Str(s), String, w).text == n + ("\"" + s + "\"" + CRLF);
  }

  /** What DeleteValue writes. */
  function DeleteValueOutput(name: string): (s: string)
    ensures |s| >= 2 && s[|s| - 2..] == CRLF
    ensures name != "" ==> |s| >= 3 && s[|s| - 3..] == "-" + CRLF
  {
    if name == "" then "@=\"\"" + CRLF else NameText(name) + "-" + CRLF
  }

  /**
   * Deleting the default value writes the very line that sets it to the empty string, so a
   * file that means to delete it sets it instead.
   */
  lemma DeleteDefaultSetsEmpty(w: int)
    ensures DeleteValueOutput("") == SetValueOutput("", Str(""), String, w).text
  {
  }

  /** Deleting any other name writes "name"=- on its own line. */
  lemma DeleteNamedValue(name: string)
    requires name != ""
    ensures DeleteValueOutput(name) == "\"" + name + "\"=-" + CRLF
  {
    var n := NameText(name);
    assert n + "-" == "\"" + name + "\"=-";
  }

  /** x is a whole number of w-long strides: 0, w, 2w, ... */
  predicate IsMultiple(x: int, w: int)
    requires w > 0
    decreases if x < 0 then 0 else x
  {
    x == 0 || (x >= w && IsMultiple(x - w, w))
  }

  lemma MulLeq(a: int, b: int, w: int)
    requires a <= b && w > 0
    ensures a * w <= b * w
  {
  }

  /** The remainder is the one r that writes a as w * q + r with 0 <= r < w. */
  lemma ModUnique(a: int, w: int, q: int, r: int)
    requires w > 0 && a == w * q + r && 0 <= r < w
    ensures a % w == r
  {
    var d := q - a / w;
    assert w * d == a % w - r;
    if d >= 1 {
      MulLeq(1, d, w);
    } else if d <= -1 {
      MulLeq(d, -1, w);
    }
  }

  /** A multiple in the recursive sense is one in the arithmetic sense. */
  lemma {:induction false} MultipleMod(x: int, w: int)
    requires w > 0
    ensures IsMultiple(x, w) <==> x >= 0 && x % w == 0
    decreases if x < 0 then 0 else x
  {
    if x >= w {
      MultipleMod(x - w, w);
      ModUnique(x - w, w, x / w - 1, x % w);
    } else if x > 0 {
      ModUnique(x, w, 0, x);
    }
  }

  /** Two different multiples are at least a stride apart. */
  lemma {:induction false} MultiplesApart(x: int, y: int, w: int)
    requires w > 0 && IsMultiple(x, w) && IsMultiple(y, w) && x < y
    ensures x + w <= y
    decreases if x < 0 then 0 else x
  {
    if x != 0 {
      MultiplesApart(x - w, y - w, w);
    }
  }

  /**
   * The loop's wrapIndex when byte i is next: for a positive length, the first multiple of
   * w at or after i (w itself to begin with); otherwise w itself, never advanced.
   */
  predicate WrapIndexAt(wrapIndex: int, i: nat, w: int) {
    if w > 0 then wrapIndex >= w && IsMultiple(wrapIndex, w) && i <= wrapIndex && (wrapIndex == w || wrapIndex - w < i)
    else wrapIndex == w
  }

  /** The loop's test i == wrapIndex picks exactly the indices WrapsAfter describes. */
  lemma WrapIndexTest(wrapIndex: int, i: nat, w: int)
    requires WrapIndexAt(wrapIndex, i, w)
    ensures i == wrapIndex <==> WrapsAfter(i, w)
  {
    if w > 0 {
      if i != wrapIndex && IsMultiple(i, w) && i >= w {
        MultiplesApart(i, wrapIndex, w);
        if wrapIndex != w {
          MultiplesApart(wrapIndex - w, i, w);
        }
      }
    }
  }

  /** One round of the loop keeps wrapIndex on the next wrapping index. */
  lemma WrapIndexStep(wrapIndex: int, i: nat, w: int)
    requires WrapIndexAt(wrapIndex, i, w)
    ensures WrapIndexAt(if i == wrapIndex then wrapIndex + w else wrapIndex, i + 1, w)
  {
  }

  class RegFileWriter {
    /** Everything written to the stream so far (before its UTF-16 encoding). */
    var text: string

    /** The BinaryWrapLength property. */
    var binaryWrapLength: int32

    /** Writes the version line; the wrap length starts at 21. */
    constructor ()
      ensures text == VER_LINE + CRLF
      ensures binaryWrapLength == DEFAULT_WRAP_LENGTH
    {
      text := VER_LINE + CRLF;
      binaryWrapLength := DEFAULT_WRAP_LENGTH;
    }

    method Write(s: string)
      modifies this
      ensures text == old(text) + s
      ensures binaryWrapLength == old(binaryWrapLength)
    {
      text := text + s;
    }

    method WriteLine(s: string)
      modifies this
      ensures text == old(text) + s + CRLF
      ensures binaryWrapLength == old(binaryWrapLength)
    {
      text := text + s + CRLF;
    }

    /** Ends the file with one more line break (closing the stream is not modelled). */
    method Dispose()
      modifies this
      ensures text == old(text) + CRLF
      ensures binaryWrapLength == old(binaryWrapLength)
    {
      WriteLine([]);
    }

    method DeleteKey(path: string)
      modifies this
      ensures text == old(text) + DeleteKeyText(path)
      ensures binaryWrapLength == old(binaryWrapLength)
    {
      WriteLine([]);
      Write("[-");
      Write(path);
      WriteLine("]");
    }

    method SetKey(path: string)
      modifies this
      ensures text == old(text) + SetKeyText(path)
      ensures binaryWrapLength == old(binaryWrapLength)
    {
      WriteLine([]);
      Write("[");
      Write(path);
      WriteLine("]");
    }

    method DeleteValue(name: string)
      modifies this
      ensures text == old(text) + DeleteValueOutput(name)
      ensures binaryWrapLength == old(binaryWrapLength)
    {
      if name == "" {
        WriteLine("@=\"\"");
        Append3(old(text), "@=\"\"", CRLF);
      } else {
        WriteValueName(name);
        WriteLine("-");
        Append4(old(text), NameText(name), "-", CRLF);
      }
    }

    method WriteValueName(name: string)
      modifies this
      ensures text == old(text) + ("\"" + name + "\"=")
      ensures binaryWrapLength == old(binaryWrapLength)
    {
      Write("\"");
      Write(name);
      Write("\"");
      Write("=");
      Append3(old(text) + "\"" + name, "\"", "=");
      Append4(old(text), "\"", name, "\"=");
    }

    method SetValue(name: string, value: Payload, kind: RegistryValueKind) returns (failure: Option<Failure>)
      modifies this
      ensures text == old(text) + SetValueOutput(name, value, kind, old(binaryWrapLength) as int).text
      ensures failure == SetValueOutput(name, value, kind, old(binaryWrapLength) as int).failure
      ensures binaryWrapLength == old(binaryWrapLength)
    {
      if name == "" {
        Write("@=");
      } else {
        WriteValueName(name);
      }
      ghost var named := text;
      assert named == old(text) + NameText(name);
      ghost var d := ValueData(value, kind, binaryWrapLength as int);
      failure := WriteData(value, kind);
      assert text == named + d.text;
      Append3(old(text), NameText(name), d.text);
    }

    /** The switch on the kind and the closing line break. */
    method WriteData(value: Payload, kind: RegistryValueKind) returns (failure: Option<Failure>)
      modifies this
      ensures text == old(text) + ValueData(value, kind, old(binaryWrapLength) as int).text
      ensures failure == ValueData(value, kind, old(binaryWrapLength) as int).failure
      ensures binaryWrapLength == old(binaryWrapLength)
    {
      match kind {
        case String =>
          Write("\"");
          Write(ObjectText(value));
          Write("\"");
          WriteLine([]);
          Append5(old(text), "\"", ObjectText(value), "\"", CRLF);
          failure := None;
        case ExpandString =>
          failure := WriteEncoded("hex(2):", value);
        case MultiString =>
          failure := WriteEncoded("hex(7):", value);
        case Binary =>
          if value.Bytes? || value.Null? {
            failure := WriteBytes("hex:", value.Null?, if value.Bytes? then value.bytes else []);
          } else {
            Write("hex:");
            failure := Some(InvalidCastException);
          }
        case DWord =>
          Write("dword:");
          if !value.Int? {
            return Some(if value.Null? then NullReferenceException else InvalidCastException);
          }
          WriteLine(Hex8(value.i, true));
          Append4(old(text), "dword:", Hex8(value.i, true), CRLF);
          failure := None;
        case QWord =>
          if value.Long? || value.Null? {
            failure := WriteBytes("hex(b):", value.Null?, if value.Long? then LongBytes(value.l) else []);
          } else {
            Write("hex(b):");
            failure := Some(InvalidCastException);
          }
        case _ =>
          failure := Some(ArgumentException);
      }
    }

    /** The tag, then the array (null when isNull) as WriteBinary lays it out, then a line break. */
    method WriteBytes(tag: string, isNull: bool, bytes: seq<uint8>) returns (failure: Option<Failure>)
      modifies this
      ensures !isNull ==> text == old(text) + (tag + BinaryText(bytes, old(binaryWrapLength) as int) + CRLF)
      ensures isNull ==> text == old(text) + tag
      ensures failure == (if isNull then Some(NullReferenceException) else None)
      ensures binaryWrapLength == old(binaryWrapLength)
    {
      Write(tag);
      if isNull {
        return Some(NullReferenceException);
      }
      WriteBinary(bytes);
      WriteLine([]);
      ghost var b := BinaryText(bytes, binaryWrapLength as int);
      Append3(old(text), tag, b);
      Append3(old(text), tag + b, CRLF);
      failure := None;
    }

    /** (string)value as UTF-16LE bytes after the tag; a null string fails in GetBytes. */
    method WriteEncoded(tag: string, value: Payload) returns (failure: Option<Failure>)
      modifies this
      ensures value.Str? ==> text == old(text) + (tag + BinaryText(EncodeLE(value.s), old(binaryWrapLength) as int) + CRLF)
      ensures !value.Str? ==> text == old(text) + tag
      ensures failure == (if value.Str? then None else if value.Null? then Some(ArgumentNullException) else Some(InvalidCastException))
      ensures binaryWrapLength == old(binaryWrapLength)
    {
      Write(tag);
      if !value.Str? {
        return Some(if value.Null? then ArgumentNullException else InvalidCastException);
      }
      WriteBinary(EncodeLE(value.s));
      WriteLine([]);
      ghost var b := BinaryText(EncodeLE(value.s), binaryWrapLength as int);
      Append3(old(text), tag, b);
      Append3(old(text), tag + b, CRLF);
      failure := None;
    }

    /** One round of the WriteBinary loop: the byte, a comma unless it is the last, and a continuation when wrap. */
    method WriteByte(bytes: seq<uint8>, i: nat, wrap: bool)
      requires i < |bytes|
      modifies this
      ensures text == old(text) + (Hex2(bytes[i], true) + (if i != |bytes| - 1 then "," else []) + (if wrap then CONTINUATION else []))
      ensures binaryWrapLength == old(binaryWrapLength)
    {
      var hex := Hex2(bytes[i], true);
      ghost var comma: string := if i != |bytes| - 1 then "," else [];
      ghost var cont: string := if wrap then CONTINUATION else [];
      Write(hex);
      if i != |bytes| - 1 {
        Write(",");
      }
      assert text == old(text) + hex + comma;
      if wrap {
        WriteLine("\\");
        Append3(old(text) + hex + comma, "\\", CRLF);
        assert "\\" + CRLF == CONTINUATION;
      }
      assert text == old(text) + hex + comma + cont;
      Append3(old(text), hex, comma);
      Append3(old(text), hex + comma, cont);
    }

    /** Upper-case hex bytes, a comma after all but the last, a continuation after each wrap index. */
    method WriteBinary(bytes: seq<uint8>)
      modifies this
      ensures text == old(text) + BinaryText(bytes, binaryWrapLength as int)
      ensures binaryWrapLength == old(binaryWrapLength)
    {
      var w := binaryWrapLength as int;
      var wrapIndex: int := w;
      for i := 0 to |bytes|
        invariant text == old(text) + BinaryPrefix(bytes, i, w)
        invariant WrapIndexAt(wrapIndex, i, w)
        invariant binaryWrapLength == old(binaryWrapLength)
      {
        WrapIndexTest(wrapIndex, i, w);
        WrapIndexStep(wrapIndex, i, w);
        WriteByte(bytes, i, i == wrapIndex);
        if i == wrapIndex {
          wrapIndex := wrapIndex + w;
        }
        Append3(old(text), BinaryPrefix(bytes, i, w), BinaryPiece(bytes, i, w));
      }
    }
  }
}
