/**
 * The current Registration Entries (.reg) writer: lower-case hex, escaped strings, no line
 * wrapping. The StreamWriter it appends to is modelled as the text written so far.
 */
module RegWriter {
  import opened Wrappers
  import opened Numerics
  import opened Hex
  import opened Utf16
  import opened Strings
  import opened RegistryValues
  import opened Decimal
  import opened RegText

  const NUL: char := 0 as char

  // ---------------------------------------------------------------------------
  // Escaping of quoted strings

  /** The characters WriteString escapes. */
  predicate IsEscapable(c: char) {
    c == '"' || c == '\\'
  }

  function CountEscapable(s: string): (n: nat)
    ensures n <= |s|
  {
    if s == [] then 0 else (if IsEscapable(s[0]) then 1 else 0) + CountEscapable(s[1..])
  }

  /** s with one backslash inserted before every quote and every backslash. */
  function Escaped(s: string): (r: string)
    ensures |r| == |s| + CountEscapable(s)
    ensures CountEscapable(s) == 0 ==> r == s
  {
    if s == [] then []
    else (if IsEscapable(s[0]) then ['\\', s[0]] else [s[0]]) + Escaped(s[1..])
  }

  lemma {:induction false} EscapedAppend(a: string, b: string)
    ensures Escaped(a + b) == Escaped(a) + Escaped(b)
  {
    if a == [] {
      assert a + b == b;
    } else {
      assert (a + b)[0] == a[0];
      assert (a + b)[1..] == a[1..] + b;
      EscapedAppend(a[1..], b);
    }
  }

  /** Generic unescaping, as a reader does it: a backslash stands for the character after it. */
  function Unescape(t: string): (s: string)
  {
    if t == [] then []
    else if t[0] == '\\' && |t| >= 2 then [t[1]] + Unescape(t[2..])
    else [t[0]] + Unescape(t[1..])
  }

  /** Removing the inserted backslashes recovers the original string. */
  lemma {:induction false} UnescapeEscaped(s: string)
    ensures Unescape(Escaped(s)) == s
  {
    if s != [] {
      var t := Escaped(s);
      UnescapeEscaped(s[1..]);
      if IsEscapable(s[0]) {
        assert t[2..] == Escaped(s[1..]);
      } else {
        assert t[1..] == Escaped(s[1..]);
      }
      assert [s[0]] + s[1..] == s;
    }
  }

  /** What WriteString writes: the escaped string between double quotes. */
  function Quoted(s: string): string
  {
    ['"'] + Escaped(s) + ['"']
  }

  /** A quoted string is one character longer at each end per quote, and unquotes back. */
  lemma QuotedReadsBack(s: string)
    ensures var r := Quoted(s);
      && |r| == |s| + CountEscapable(s) + 2
      && r[0] == '"' && r[|r| - 1] == '"'
      && Unescape(r[1..|r| - 1]) == s
  {
    var r := Quoted(s);
    assert r[1..|r| - 1] == Escaped(s);
    UnescapeEscaped(s);
  }

  /** value.IndexOfAny(Escape, from): the first escapable position at or after from, or -1. */
  function IndexOfAny(s: string, from: nat): (r: int)
    requires from <= |s|
    ensures r == -1 || (from <= r < |s| && IsEscapable(s[r]))
    ensures forall j :: from <= j < (if r == -1 then |s| else r) ==> !IsEscapable(s[j])
    decreases |s| - from
  {
    if from == |s| then -1
    else if IsEscapable(s[from]) then from
    else IndexOfAny(s, from + 1)
  }

  /** A stretch with nothing to escape is written as it is. */
  lemma EscapedPlain(s: string, from: nat, to: nat)
    requires from <= to <= |s|
    requires forall j :: from <= j < to ==> !IsEscapable(s[j])
    ensures Escaped(s[from..to]) == s[from..to]
  {
    PlainCount(s[from..to]);
  }

  lemma {:induction false} PlainCount(t: string)
    requires forall j :: 0 <= j < |t| ==> !IsEscapable(t[j])
    ensures CountEscapable(t) == 0
  {
    if t != [] {
      PlainCount(t[1..]);
    }
  }

  /**
   * Escaping up to i, a pending backslash before value[i] when it is escapable, then a
   * stretch with nothing to escape, is the escaping of everything up to the stretch's end.
   */
  lemma EscapedStretch(value: string, i: nat, pending: bool, to: nat)
    requires i <= to <= |value|
    requires pending ==> i < to && IsEscapable(value[i])
    requires forall j :: (if pending then i + 1 else i) <= j < to ==> !IsEscapable(value[j])
    ensures Escaped(value[..i]) + (if pending then "\\" else []) + value[i..to] == Escaped(value[..to])
  {
    TakeDrop(value[..to], i);
    assert value[..to][..i] == value[..i] && value[..to][i..] == value[i..to];
    EscapedAppend(value[..i], value[i..to]);
    if pending {
      EscapedPendingStretch(value, i, to);
      Append3(Escaped(value[..i]), "\\", value[i..to]);
    } else {
      EscapedPlain(value, i, to);
    }
  }

  /** An escapable character followed by a stretch with nothing to escape. */
  lemma EscapedPendingStretch(value: string, i: nat, to: nat)
    requires i < to <= |value| && IsEscapable(value[i])
    requires forall j :: i + 1 <= j < to ==> !IsEscapable(value[j])
    ensures Escaped(value[i..to]) == "\\" + value[i..to]
  {
    EscapedPlain(value, i + 1, to);
    assert value[i..to] == [value[i]] + value[i + 1..to];
    EscapedCons(value[i], value[i + 1..to]);
  }

  /** An escapable character before text that escapes to itself gains one backslash. */
  lemma EscapedCons(c: char, rest: string)
    requires IsEscapable(c) && Escaped(rest) == rest
    ensures Escaped([c] + rest) == "\\" + ([c] + rest)
  {
    var s := [c] + rest;
    assert s[0] == c && s[1..] == rest;
    assert Escaped(s) == ['\\', c] + Escaped(rest);
    assert "\\" + [c] == ['\\', c];
    Append3("\\", [c], rest);
  }

  // ---------------------------------------------------------------------------
  // Names and values

  /** The empty (default) value name is written as @, any other name as a quoted string. */
  function NameText(name: string): (r: string)
    ensures name == "" <==> r == "@"
    ensures name != "" ==> r == Quoted(name)
  {
    if name == "" then "@" else Quoted(name)
  }

  /** What WriteBinaryLine writes: the comma-separated lower-case hex bytes and a line break. */
  function BinaryLine(bs: seq<uint8>): (r: string)
    ensures bs == [] ==> r == CRLF
  {
    HexList(bs, false) + CRLF
  }

  /** Each byte followed by a comma: what the loop of WriteBinaryLine has written so far. */
  function HexWithCommas(bs: seq<uint8>): (r: string)
    ensures |r| == 3 * |bs|
  {
    if bs == [] then [] else Hex2(bs[0], false) + [','] + HexWithCommas(bs[1..])
  }

  lemma {:induction false} HexWithCommasSnoc(bs: seq<uint8>, b: uint8)
    ensures HexWithCommas(bs + [b]) == HexWithCommas(bs) + Hex2(b, false) + [',']
  {
    if bs == [] {
      assert bs + [b] == [b];
    } else {
      assert (bs + [b])[1..] == bs[1..] + [b];
      HexWithCommasSnoc(bs[1..], b);
    }
  }

  lemma {:induction false} HexListSplitLast(bs: seq<uint8>)
    requires bs != []
    ensures HexList(bs, false) == HexWithCommas(bs[..|bs| - 1]) + Hex2(bs[|bs| - 1], false)
  {
    if |bs| > 1 {
      HexListSplitLast(bs[1..]);
      assert bs[1..][..|bs| - 2] == bs[..|bs| - 1][1..];
    }
  }

  /** The entries joined by the StringBuilder loop: each non-empty entry followed by NUL. */
  function JoinEntries(items: seq<string>): (r: string)
  {
    if items == [] then []
    else (if items[0] == "" then [] else items[0] + [NUL]) + JoinEntries(items[1..])
  }

  lemma {:induction false} JoinEntriesSnoc(items: seq<string>, item: string)
    ensures JoinEntries(items + [item]) == JoinEntries(items) + (if item == "" then [] else item + [NUL])
  {
    if items == [] {
      assert items + [item] == [item];
    } else {
      assert (items + [item])[1..] == items[1..] + [item];
      JoinEntriesSnoc(items[1..], item);
    }
  }

  /** The text a MultiString value is encoded from: the joined entries and one final NUL. */
  function MultiStringText(items: seq<string>): (r: string)
    ensures |r| >= 1 && r[|r| - 1] == NUL
  {
    JoinEntries(items) + [NUL]
  }

  /** The entries that survive writing: the non-empty ones, in order. */
  function KeptEntries(items: seq<string>): (r: seq<string>)
    ensures |r| <= |items|
    ensures forall i :: 0 <= i < |r| ==> r[i] != ""
  {
    if items == [] then []
    else (if items[0] == "" then [] else [items[0]]) + KeptEntries(items[1..])
  }

  /**
   * Reads a NUL-separated, NUL-terminated entry list back: entries up to the empty one,
   * which must end the text.
   */
  function ReadEntries(s: string): (r: Option<seq<string>>)
    decreases |s|
  {
    var j := IndexOf(s, NUL);
    if j == -1 then None
    else if j == 0 then (if |s| == 1 then Some([]) else None)
    else
      match ReadEntries(s[j + 1..])
      case None => None
      case Some(rest) => Some([s[..j]] + rest)
  }

  /** A MultiString reads back as its non-empty entries, when no entry holds a NUL itself. */
  lemma {:induction false} ReadMultiString(items: seq<string>)
    requires forall i :: 0 <= i < |items| ==> NUL !in items[i]
    ensures ReadEntries(MultiStringText(items)) == Some(KeptEntries(items))
  {
    if items == [] {
      assert MultiStringText(items) == [NUL];
    } else {
      var rest := items[1..];
      ReadMultiString(rest);
      var tail := MultiStringText(rest);
      if items[0] == "" {
        assert JoinEntries(items) == JoinEntries(rest);
        assert KeptEntries(items) == KeptEntries(rest);
      } else {
        var s := MultiStringText(items);
        var e := items[0];
        assert JoinEntries(items) == e + [NUL] + JoinEntries(rest);
        assert KeptEntries(items) == [e] + KeptEntries(rest);
        assert s == e + [NUL] + tail;
        IndexOfSplit(e, NUL, tail);
        assert s[..|e|] == e;
        assert s[|e| + 1..] == tail;
      }
    }
  }

  // ---------------------------------------------------------------------------
  // Payload conversions (Convert.ToInt32 / Convert.ToInt64 on an object)

  /** Convert.ToInt32(object): null is 0, wider values must fit, text is parsed, arrays cannot convert. */
  function ToInt32(p: Payload): (r: Result<int32>)
    ensures p.Int? ==> r == Ok(p.i)
    ensures p.Null? ==> r == Ok(0)
    ensures (p.Bytes? || p.Strings?) ==> r == Err(InvalidCastException)
  {
    match p
    case Null => Ok(0)
    case Int(i) => Ok(i)
    case Long(l) =>
      if -0x8000_0000 <= l as int < 0x8000_0000 then Ok(l as int as int32) else Err(OverflowException)
    case Str(s) =>
      (match ParseInteger(s)
       case None => Err(FormatException)
       case Some(n) => if -0x8000_0000 <= n < 0x8000_0000 then Ok(n as int32) else Err(OverflowException))
    case _ => Err(InvalidCastException)
  }

  /** Convert.ToInt64(object). */
  function ToInt64(p: Payload): (r: Result<int64>)
    ensures p.Long? ==> r == Ok(p.l)
    ensures p.Int? ==> r.Ok? && r.value as int == p.i as int
    ensures p.Null? ==> r == Ok(0)
    ensures (p.Bytes? || p.Strings?) ==> r == Err(InvalidCastException)
  {
    match p
    case Null => Ok(0)
    case Int(i) => Ok(i as int as int64)
    case Long(l) => Ok(l)
    case Str(s) =>
      (match ParseInteger(s)
       case None => Err(FormatException)
       case Some(n) =>
         if -0x8000_0000_0000_0000 <= n < 0x8000_0000_0000_0000 then Ok(n as int64)
         else Err(OverflowException))
    case _ => Err(InvalidCastException)
  }

  // ---------------------------------------------------------------------------
  // What SetValue writes

  /** A byte array payload written after its tag: (byte[])value, then WriteBinaryLine. */
  function BytesData(tag: string, p: Payload): (e: Emitted)
    ensures e.failure.None? <==> p.Bytes?
    ensures e.failure.None? ==> |e.text| >= 2 && e.text[|e.text| - 2..] == CRLF
  {
    match p
    case Bytes(bs) => Emitted(tag + BinaryLine(bs), None)
    case Null => Emitted(tag, Some(NullReferenceException))
    case _ => Emitted(tag, Some(InvalidCastException))
  }

  /** Convert.ToInt32(value).ToString("x8") on a line, after "dword:". */
  function DWordData(p: Payload): (e: Emitted)
    ensures e.failure.None? <==> ToInt32(p).Ok?
    ensures e.failure.None? ==> |e.text| >= 2 && e.text[|e.text| - 2..] == CRLF
  {
    match ToInt32(p)
    case Ok(i) => Emitted("dword:" + (Hex8(i, false) + CRLF), None)
    case Err(x) => Emitted("dword:", Some(x))
  }

  /** (string)value quoted on a line; a null string fails before anything is written. */
  function StringData(p: Payload): (e: Emitted)
    ensures e.failure.None? <==> p.Str?
    ensures e.failure.None? ==> |e.text| >= 2 && e.text[|e.text| - 2..] == CRLF
  {
    match p
    case Str(s) => Emitted(Quoted(s) + CRLF, None)
    case Null => Emitted([], Some(NullReferenceException))
    case _ => Emitted([], Some(InvalidCastException))
  }

  /** (string)value as UTF-16LE bytes after "hex(2):"; a null string fails in GetBytes. */
  function ExpandStringData(p: Payload): (e: Emitted)
    ensures e.failure.None? <==> p.Str?
    ensures e.failure.None? ==> |e.text| >= 2 && e.text[|e.text| - 2..] == CRLF
  {
    match p
    case Str(s) => Emitted("hex(2):" + BinaryLine(EncodeLE(s)), None)
    case Null => Emitted("hex(2):", Some(ArgumentNullException))
    case _ => Emitted("hex(2):", Some(InvalidCastException))
  }

  /** The joined entries as UTF-16LE bytes after "hex(7):"; a null list fails in the loop. */
  function MultiStringData(p: Payload): (e: Emitted)
    ensures e.failure.None? <==> p.Strings?
    ensures e.failure.None? ==> |e.text| >= 2 && e.text[|e.text| - 2..] == CRLF
  {
    match p
    case Strings(items) => Emitted("hex(7):" + BinaryLine(EncodeLE(MultiStringText(items))), None)
    case Null => Emitted("hex(7):", Some(NullReferenceException))
    case _ => Emitted("hex(7):", Some(InvalidCastException))
  }

  /** Convert.ToInt64(value) as its eight little-endian bytes after "hex(b):". */
  function QWordData(p: Payload): (e: Emitted)
    ensures e.failure.None? <==> ToInt64(p).Ok?
    ensures e.failure.None? ==> |e.text| >= 2 && e.text[|e.text| - 2..] == CRLF
  {
    match ToInt64(p)
    case Ok(l) => Emitted("hex(b):" + BinaryLine(LongBytes(l)), None)
    case Err(x) => Emitted("hex(b):", Some(x))
  }

  /** What SetValue writes after "name=" for a payload of the given kind. */
  function ValueData(p: Payload, kind: RegistryValueKind): (e: Emitted)
    ensures kind == Unknown ==> e.failure == Some(ArgumentException)
    ensures ValidPayload(RegistryValue(p, kind)) && kind != Unknown ==> e.failure.None?
    ensures e.failure.None? ==> |e.text| >= 2 && e.text[|e.text| - 2..] == CRLF
  {
    match kind
    case DWord => DWordData(p)
    case String => StringData(p)
    case Binary => BytesData("hex:", p)
    case NoneKind => BytesData("hex(0):", p)
    case ExpandString => ExpandStringData(p)
    case MultiString => MultiStringData(p)
    case QWord => QWordData(p)
    case Unknown => Emitted([], Some(ArgumentException))
  }

  /** What DeleteValue(name) writes: the name and "=-" on a line. */
  function DeleteValueOutput(name: string): (s: string)
    ensures |s| >= 5 && s[|s| - 4..] == "=-" + CRLF
  {
    NameText(name) + "=-" + CRLF
  }

  /** What SetValue(name, value, kind) writes: the name, '=', then the value data. */
  function SetValueOutput(name: string, p: Payload, kind: RegistryValueKind): (e: Emitted)
    ensures |e.text| > |NameText(name)| && e.text[..|NameText(name)| + 1] == NameText(name) + "="
    ensures e.failure.None? ==> |e.text| >= 2 && e.text[|e.text| - 2..] == CRLF
  {
    var d := ValueData(p, kind);
    Emitted(NameText(name) + "=" + d.text, d.failure)
  }

  /** Every well-formed value other than the tombstone is written completely, ending in CRLF. */
  lemma ValidValueWritten(name: string, v: RegistryValue)
    requires ValidPayload(v) && !v.IsDelete()
    ensures SetValueOutput(name, v.value, v.kind).failure.None?
    ensures var t := SetValueOutput(name, v.value, v.kind).text;
      |t| >= 2 && t[|t| - 2..] == CRLF
  {
  }

  /** Any kind the writer does not know fails with ArgumentException after "name=" is out. */
  lemma UnknownKindRejected(name: string, p: Payload)
    ensures SetValueOutput(name, p, Unknown) == Emitted(NameText(name) + "=", Some(ArgumentException))
  {
  }

  /** A value whose data is a tag, a body and a line break follows its name and '='. */
  lemma TaggedOutput(name: string, v: Payload, kind: RegistryValueKind, tag: string, body: string)
    requires ValueData(v, kind).text == tag + (body + CRLF)
    ensures SetValueOutput(name, v, kind).text == NameText(name) + ("=" + tag) + body + CRLF
  {
    var n := NameText(name);
    calc {
      SetValueOutput(name, v, kind).text;
      n + "=" + (tag + (body + CRLF));
      { Regroup(n, "=", tag, body + CRLF); }
      n + ("=" + tag) + (body + CRLF);
      { Append3(n + ("=" + tag), body, CRLF); }
      n + ("=" + tag) + body + CRLF;
    }
  }

  /** A DWord is written as "dword:" and eight lower-case hex digits of its two's complement. */
  lemma DWordText(name: string, i: int32)
    ensures var t := SetValueOutput(name, Int(i), DWord).text;
      && |t| >= |NameText(name)| + 9
      && var digits := t[|NameText(name)| + 7..|t| - 2];
      && t == NameText(name) + "=dword:" + digits + CRLF
      && |digits| == 8
      && (forall j :: 0 <= j < 8 ==> IsHexDigit(digits[j], false))
      && ParseHex(digits).Some? && Signed32(ParseHex(digits).value) == i
  {
    var p := NameText(name) + "=dword:";
    var h := Hex8(i, false);
    assert "=" + "dword:" == "=dword:";
    TaggedOutput(name, Int(i), DWord, "dword:", h);
    Infix(p, h, CRLF);
    Hex8RoundTrip(i, false);
  }

  /**
   * A value written as a seven-character hex tag and a hex list: the list sits between
   * "name=tag" and the final line break.
   */
  lemma HexValueText(name: string, v: Payload, kind: RegistryValueKind, tag: string, bs: seq<uint8>)
    requires |tag| == 7
    requires ValueData(v, kind).text == tag + BinaryLine(bs)
    ensures SetValueOutput(name, v, kind).text == NameText(name) + ("=" + tag) + HexList(bs, false) + CRLF
  {
    TaggedOutput(name, v, kind, tag, HexList(bs, false));
  }

  /** The hex list of an ExpandString decodes back to the string, with no terminator added. */
  lemma ExpandStringReadsBack(name: string, s: string)
    ensures var t := SetValueOutput(name, Str(s), ExpandString).text;
      && |t| >= |NameText(name)| + 10
      && var hex := t[|NameText(name)| + 8..|t| - 2];
      && t == NameText(name) + "=hex(2):" + hex + CRLF
      && ParseHexList(hex).Some?
      && DecodeLE(ParseHexList(hex).value) == Some(s)
  {
    assert "=" + "hex(2):" == "=hex(2):";
    HexValueText(name, Str(s), ExpandString, "hex(2):", EncodeLE(s));
    HexTail(SetValueOutput(name, Str(s), ExpandString).text, NameText(name), "=hex(2):", EncodeLE(s));
    DecodeEncode(s);
  }

  /** The hex list between an eight-character "=tag" and the final line break parses back. */
  lemma HexTail(t: string, n: string, tag: string, bs: seq<uint8>)
    requires |tag| == 8
    requires t == n + tag + HexList(bs, false) + CRLF
    ensures |t| >= |n| + 10
    ensures t[|n| + 8..|t| - 2] == HexList(bs, false)
    ensures t == n + tag + t[|n| + 8..|t| - 2] + CRLF
    ensures ParseHexList(t[|n| + 8..|t| - 2]) == Some(bs)
  {
    Infix(n + tag, HexList(bs, false), CRLF);
    HexListRoundTrip(bs, false);
  }

  /** The hex list of a QWord is its eight little-endian bytes. */
  lemma QWordReadsBack(name: string, l: int64)
    ensures var t := SetValueOutput(name, Long(l), QWord).text;
      && |t| >= |NameText(name)| + 10
      && var hex := t[|NameText(name)| + 8..|t| - 2];
      && t == NameText(name) + "=hex(b):" + hex + CRLF
      && |hex| == 23
      && ParseHexList(hex).Some?
      && |ParseHexList(hex).value| == 8
      && Signed64(FromLittleEndian(ParseHexList(hex).value)) == l
  {
    assert "=" + "hex(b):" == "=hex(b):";
    HexValueText(name, Long(l), QWord, "hex(b):", LongBytes(l));
    HexTail(SetValueOutput(name, Long(l), QWord).text, NameText(name), "=hex(b):", LongBytes(l));
  }

  /** The hex list of a MultiString decodes to its non-empty entries. */
  lemma MultiStringReadsBack(name: string, items: seq<string>)
    requires forall i :: 0 <= i < |items| ==> NUL !in items[i]
    ensures var t := SetValueOutput(name, Strings(items), MultiString).text;
      && |t| >= |NameText(name)| + 10
      && var hex := t[|NameText(name)| + 8..|t| - 2];
      && t == NameText(name) + "=hex(7):" + hex + CRLF
      && ParseHexList(hex).Some?
      && DecodeLE(ParseHexList(hex).value).Some?
      && ReadEntries(DecodeLE(ParseHexList(hex).value).value) == Some(KeptEntries(items))
  {
    MultiStringLine(name, items);
    MultiStringTail(SetValueOutput(name, Strings(items), MultiString).text, NameText(name), items);
  }

  lemma MultiStringLine(name: string, items: seq<string>)
    ensures SetValueOutput(name, Strings(items), MultiString).text
      == NameText(name) + "=hex(7):" + HexList(EncodeLE(MultiStringText(items)), false) + CRLF
  {
    assert "=" + "hex(7):" == "=hex(7):";
    HexValueText(name, Strings(items), MultiString, "hex(7):", EncodeLE(MultiStringText(items)));
  }

  lemma MultiStringTail(t: string, n: string, items: seq<string>)
    requires forall i :: 0 <= i < |items| ==> NUL !in items[i]
    requires t == n + "=hex(7):" + HexList(EncodeLE(MultiStringText(items)), false) + CRLF
    ensures |t| >= |n| + 10
      && var hex := t[|n| + 8..|t| - 2];
      && t == n + "=hex(7):" + hex + CRLF
      && ParseHexList(hex).Some?
      && DecodeLE(ParseHexList(hex).value).Some?
      && ReadEntries(DecodeLE(ParseHexList(hex).value).value) == Some(KeptEntries(items))
  {
    HexTail(t, n, "=hex(7):", EncodeLE(MultiStringText(items)));
    MultiStringHexReadsBack(items);
  }

  lemma MultiStringHexReadsBack(items: seq<string>)
    requires forall i :: 0 <= i < |items| ==> NUL !in items[i]
    ensures var bs := EncodeLE(MultiStringText(items));
      && ParseHexList(HexList(bs, false)) == Some(bs)
      && DecodeLE(bs) == Some(MultiStringText(items))
      && ReadEntries(MultiStringText(items)) == Some(KeptEntries(items))
  {
    HexListRoundTrip(EncodeLE(MultiStringText(items)), false);
    DecodeEncode(MultiStringText(items));
    ReadMultiString(items);
  }

  // ---------------------------------------------------------------------------
  // The writer

  class RegFileWriter {
    /** Everything written to the stream so far (before its UTF-16 encoding). */
    var text: string

    /** Writes the version line. */
    constructor ()
      ensures text == VER_LINE + CRLF
    {
      text := VER_LINE + CRLF;
    }

    method Write(s: string)
      modifies this
      ensures text == old(text) + s
    {
      text := text + s;
    }

    method WriteLine(s: string)
      modifies this
      ensures text == old(text) + s + CRLF
    {
      text := text + s + CRLF;
    }

    method DeleteKey(path: string)
      modifies this
      ensures text == old(text) + DeleteKeyText(path)
    {
      WriteLine([]);
      Write("[-");
      Write(path);
      WriteLine("]");
    }

    method SetKey(path: string)
      modifies this
      ensures text == old(text) + SetKeyText(path)
    {
      WriteLine([]);
      Write("[");
      Write(path);
      WriteLine("]");
    }

    method DeleteValue(name: string)
      modifies this
      ensures text == old(text) + DeleteValueOutput(name)
    {
      WriteName(name);
      WriteLine("=-");
    }

    method SetValue(name: string, value: Payload, kind: RegistryValueKind) returns (failure: Option<Failure>)
      modifies this
      ensures text == old(text) + SetValueOutput(name, value, kind).text
      ensures failure == SetValueOutput(name, value, kind).failure
    {
      WriteName(name);
      Write("=");
      failure := WriteData(value, kind);
      Append3(old(text), NameText(name), "=");
      Append3(old(text), NameText(name) + "=", ValueData(value, kind).text);
    }

    /** The switch on the kind, after "name=". */
    method WriteData(value: Payload, kind: RegistryValueKind) returns (failure: Option<Failure>)
      modifies this
      ensures text == old(text) + ValueData(value, kind).text
      ensures failure == ValueData(value, kind).failure
    {
      match kind {
        case DWord => failure := WriteDWord(value);
        case String => failure := WriteStringValue(value);
        case Binary => failure := WriteBytes("hex:", value);
        case NoneKind => failure := WriteBytes("hex(0):", value);
        case ExpandString => failure := WriteExpandString(value);
        case MultiString => failure := WriteMultiString(value);
        case QWord => failure := WriteQWord(value);
        case Unknown => failure := Some(ArgumentException);
      }
    }

    /** Convert.ToInt32(value), written as eight lower-case hex digits. */
    method WriteDWord(value: Payload) returns (failure: Option<Failure>)
      modifies this
      ensures text == old(text) + DWordData(value).text
      ensures failure == DWordData(value).failure
    {
      Write("dword:");
      var r := ToInt32(value);
      if r.Err? {
        return Some(r.error);
      }
      WriteLine(Hex8(r.value, false));
      Append3(old(text) + "dword:", Hex8(r.value, false), CRLF);
      Append3(old(text), "dword:", Hex8(r.value, false) + CRLF);
      failure := None;
    }

    /** (string)value, quoted and escaped. */
    method WriteStringValue(value: Payload) returns (failure: Option<Failure>)
      modifies this
      ensures text == old(text) + StringData(value).text
      ensures failure == StringData(value).failure
    {
      if !value.Str? {
        return Some(if value.Null? then NullReferenceException else InvalidCastException);
      }
      WriteString(value.s);
      WriteLine([]);
      failure := None;
    }

    /** (string)value as UTF-16LE bytes, with no terminating NUL added. */
    method WriteExpandString(value: Payload) returns (failure: Option<Failure>)
      modifies this
      ensures text == old(text) + ExpandStringData(value).text
      ensures failure == ExpandStringData(value).failure
    {
      Write("hex(2):");
      if !value.Str? {
        return Some(if value.Null? then ArgumentNullException else InvalidCastException);
      }
      WriteBinaryLineString(value.s);
      Append3(old(text), "hex(2):", BinaryLine(EncodeLE(value.s)));
      failure := None;
    }

    /** (IEnumerable<string>)value, joined and encoded as UTF-16LE bytes. */
    method WriteMultiString(value: Payload) returns (failure: Option<Failure>)
      modifies this
      ensures text == old(text) + MultiStringData(value).text
      ensures failure == MultiStringData(value).failure
    {
      Write("hex(7):");
      if !value.Strings? {
        return Some(if value.Null? then NullReferenceException else InvalidCastException);
      }
      ghost var line := BinaryLine(EncodeLE(MultiStringText(value.strings)));
      WriteBinaryLineStrings(value.strings);
      Append3(old(text), "hex(7):", line);
      failure := None;
    }

    /** Convert.ToInt64(value) as its eight little-endian bytes. */
    method WriteQWord(value: Payload) returns (failure: Option<Failure>)
      modifies this
      ensures text == old(text) + QWordData(value).text
      ensures failure == QWordData(value).failure
    {
      Write("hex(b):");
      var r := ToInt64(value);
      if r.Err? {
        return Some(r.error);
      }
      WriteBinaryLine(LongBytes(r.value));
      Append3(old(text), "hex(b):", BinaryLine(LongBytes(r.value)));
      failure := None;
    }

    /** The (byte[])value cast followed by WriteBinaryLine, after the kind's tag. */
    method WriteBytes(tag: string, value: Payload) returns (failure: Option<Failure>)
      modifies this
      ensures text == old(text) + BytesData(tag, value).text
      ensures failure == BytesData(tag, value).failure
    {
      Write(tag);
      if !value.Bytes? {
        return Some(if value.Null? then NullReferenceException else InvalidCastException);
      }
      WriteBinaryLine(value.bytes);
      Append3(old(text), tag, BinaryLine(value.bytes));
      failure := None;
    }

    method WriteName(name: string)
      modifies this
      ensures text == old(text) + NameText(name)
    {
      if name == "" {
        Write("@");
      } else {
        WriteString(name);
      }
    }

    /** Copies the stretches between escapable characters, with a backslash before each. */
    method WriteString(value: string)
      modifies this
      ensures text == old(text) + Quoted(value)
    {
      var i := 0;
      var k := IndexOfAny(value, 0);
      Write("\"");
      ghost var prefix := text;
      ghost var pending := false;
      while k != -1
        invariant 0 <= i <= |value|
        invariant pending ==> i < |value| && IsEscapable(value[i])
        invariant k == IndexOfAny(value, if pending then i + 1 else i)
        invariant text == prefix + (Escaped(value[..i]) + (if pending then "\\" else []))
        decreases |value| - i, if pending then 0 else 1
      {
        ghost var done := Escaped(value[..i]) + (if pending then "\\" else []);
        EscapedStretch(value, i, pending, k);
        Write(value[i..k]);
        Append3(prefix, done, value[i..k]);
        Write("\\");
        Append3(prefix, Escaped(value[..k]), "\\");
        i := k;
        k := IndexOfAny(value, i + 1);
        pending := true;
      }
      ghost var done := Escaped(value[..i]) + (if pending then "\\" else []);
      EscapedStretch(value, i, pending, |value|);
      assert value[..|value|] == value;
      Write(value[i..]);
      Append3(prefix, done, value[i..]);
      Write("\"");
      Append3(old(text), ['"'], Escaped(value));
      Append3(old(text), ['"'] + Escaped(value), ['"']);
    }

    /** The StringBuilder loop: every non-empty entry and a NUL, then one more NUL. */
    method WriteBinaryLineStrings(items: seq<string>)
      modifies this
      ensures text == old(text) + BinaryLine(EncodeLE(MultiStringText(items)))
    {
      var sb: string := [];
      for j := 0 to |items|
        invariant sb == JoinEntries(items[..j])
        invariant text == old(text)
      {
        JoinEntriesSnoc(items[..j], items[j]);
        TakeSnoc(items, j);
        if |items[j]| == 0 {
          continue;
        }
        sb := sb + items[j] + [NUL];
      }
      assert items[..|items|] == items;
      assert sb + [NUL] == MultiStringText(items);
      WriteBinaryLineString(sb + [NUL]);
    }

    method WriteBinaryLineString(value: string)
      modifies this
      ensures text == old(text) + BinaryLine(EncodeLE(value))
    {
      WriteBinaryLine(EncodeLE(value));
    }

    /** One line of comma-separated lower-case hex bytes; never wrapped. */
    method WriteBinaryLine(bytes: seq<uint8>)
      modifies this
      ensures text == old(text) + BinaryLine(bytes)
    {
      if |bytes| == 0 {
        WriteLine([]);
        return;
      }
      var i := 0;
      while i < |bytes| - 1
        invariant 0 <= i <= |bytes| - 1
        invariant text == old(text) + HexWithCommas(bytes[..i])
      {
        HexWithCommasSnoc(bytes[..i], bytes[i]);
        TakeSnoc(bytes, i);
        ghost var done := HexWithCommas(bytes[..i]);
        var hex := Hex2(bytes[i], false);
        Write(hex);
        Write(",");
        Append3(old(text) + done, hex, ",");
        Append3(done, hex, ",");
        Append3(old(text), done, hex + ",");
        i := i + 1;
      }
      HexListSplitLast(bytes);
      ghost var done := HexWithCommas(bytes[..i]);
      var hex := Hex2(bytes[i], false);
      WriteLine(hex);
      Append3(old(text) + done, hex, CRLF);
      Append3(old(text), done, hex);
      Append3(old(text), done + hex, CRLF);
    }
  }
}
