/**
 * RegistryHelper: the root-name table, opening a key by its full path, testing whether a
 * key exists, and checking whether a sequence of .reg directives is already in effect.
 */
module RegistryHelper {
  import opened Wrappers
  import opened Strings
  import opened RegistryValues
  import opened LiveRegistry
  import opened Directives

  /** The short spelling of each predefined key; HKEY_PERFORMANCE_DATA has none. */
  function Abbreviation(r: Root): Option<string> {
    match r
    case CurrentUser => Some("HKCU")
    case LocalMachine => Some("HKLM")
    case ClassesRoot => Some("HKCR")
    case Users => Some("HKU")
    case CurrentConfig => Some("HKCC")
    case PerformanceData => None
  }

  /** The predefined key a root name denotes, in any letter case, or None. */
  function GetBaseKey(name: string): (r: Option<Root>)
    ensures r.Some? ==> UpperAscii(name) == RootName(r.value) || Abbreviation(r.value) == Some(UpperAscii(name))
  {
    var u := UpperAscii(name);
    if u == "HKEY_CURRENT_USER" || u == "HKCU" then Some(CurrentUser)
    else if u == "HKEY_LOCAL_MACHINE" || u == "HKLM" then Some(LocalMachine)
    else if u == "HKEY_CLASSES_ROOT" || u == "HKCR" then Some(ClassesRoot)
    else if u == "HKEY_USERS" || u == "HKU" then Some(Users)
    else if u == "HKEY_CURRENT_CONFIG" || u == "HKCC" then Some(CurrentConfig)
    else if u == "HKEY_PERFORMANCE_DATA" then Some(PerformanceData)
    else None
  }

  /** A name denotes a root exactly when, upper-cased, it is that root's full or short name. */
  lemma BaseKeySpellings(name: string, r: Root)
    ensures GetBaseKey(name) == Some(r) <==>
      UpperAscii(name) == RootName(r) || Abbreviation(r) == Some(UpperAscii(name))
  {
  }

  /** Every name that upper-cases alike denotes the same root (or none). */
  lemma BaseKeyIgnoresCase(a: string, b: string)
    requires UpperAscii(a) == UpperAscii(b)
    ensures GetBaseKey(a) == GetBaseKey(b)
  {
  }

  /** A root's own name denotes it. */
  lemma RootNameIsBaseKey(r: Root)
    ensures GetBaseKey(RootName(r)) == Some(r)
  {
    UpperAsciiFixed(RootName(r));
    match r
    case CurrentUser =>
    case LocalMachine =>
    case ClassesRoot =>
    case Users =>
    case CurrentConfig =>
    case PerformanceData =>
  }

  /**
   * OpenKey(path): the text before the first backslash names the root; the rest, if there
   * is a backslash, is opened below it. None for an unknown root or a missing key.
   */
  function OpenKey(st: Store, path: string): (o: Option<Opened>)
    ensures '\\' !in path ==> (o.Some? <==> GetBaseKey(path).Some?)
    ensures '\\' !in path && o.Some? ==> o.value == Opened(RootName(GetBaseKey(path).value), RootKey(st, GetBaseKey(path).value))
  {
    var i := IndexOf(path, '\\');
    var baseKey := GetBaseKey(if i == -1 then path else path[..i]);
    if baseKey.None? then None
    else if i == -1 then Some(Opened(RootName(baseKey.value), RootKey(st, baseKey.value)))
    else OpenSubKey(st, baseKey.value, path[i + 1..])
  }

  /** KeyExists(path): the root is known and, when a subpath follows, the subkey opens. */
  predicate KeyExists(st: Store, path: string): (b: bool)
    ensures b <==> OpenKey(st, path).Some?
  {
    var i := IndexOf(path, '\\') + 1;
    if i == 0 then GetBaseKey(path).Some?
    else
      var baseKey := GetBaseKey(path[..i - 1]);
      if baseKey.None? then false
      else OpenSubKey(st, baseKey.value, path[i..]).Some?
  }

  /** A path with a backslash opens its remainder below the root its prefix names. */
  lemma OpenKeyAt(st: Store, t: string, i: int)
    requires i == IndexOf(t, '\\') && i != -1
    ensures OpenKey(st, t) == if GetBaseKey(t[..i]).None? then None else OpenSubKey(st, GetBaseKey(t[..i]).value, t[i + 1..])
  {
  }

  /** A child of a predefined key opens under the root's name and a backslash. */
  lemma OpenRootChild(st: Store, path: string, c: string)
    requires '\\' !in path && GetBaseKey(path).Some?
    requires IsSegment(c) && c in RootKey(st, GetBaseKey(path).value).subKeys
    ensures OpenKey(st, path + "\\" + c).Some?
    ensures OpenKey(st, path + "\\" + c).value.key == RootKey(st, GetBaseKey(path).value).subKeys[c]
  {
    var t := path + "\\" + c;
    IndexOfSplit(path, '\\', c);
    assert t[..|path|] == path;
    assert t[|path| + 1..] == c;
    OpenKeyAt(st, t, |path|);
    OpenSubKeyFirst(st, GetBaseKey(path).value, c);
  }

  /** A child of a subkey opens under the subkey's path and a backslash. */
  lemma OpenNestedChild(st: Store, path: string, i: int, c: string)
    requires i == IndexOf(path, '\\') && i != -1
    requires GetBaseKey(path[..i]).Some?
    requires IsSegment(c) && OpenSubKey(st, GetBaseKey(path[..i]).value, path[i + 1..]).Some?
    requires c in OpenSubKey(st, GetBaseKey(path[..i]).value, path[i + 1..]).value.key.subKeys
    ensures OpenKey(st, path + "\\" + c).Some?
    ensures OpenKey(st, path + "\\" + c).value.key ==
      OpenSubKey(st, GetBaseKey(path[..i]).value, path[i + 1..]).value.key.subKeys[c]
  {
    SplitChildPath(path, i, c);
    OpenNestedChildVia(st, path + "\\" + c, i, GetBaseKey(path[..i]).value, path[i + 1..], c);
  }

  /** Appending a backslash and a name keeps the first backslash and what precedes it. */
  lemma SplitChildPath(path: string, i: int, c: string)
    requires i == IndexOf(path, '\\') && i != -1
    ensures var t := path + "\\" + c;
      i == IndexOf(t, '\\') && t[..i] == path[..i] && t[i + 1..] == path[i + 1..] + "\\" + c
  {
    var t := path + "\\" + c;
    assert t == path + ("\\" + c);
    IndexOfPrefix(path, "\\" + c, '\\');
    assert t[..i] == path[..i];
    assert t[i + 1..] == path[i + 1..] + "\\" + c;
  }

  /** The step of OpenNestedChild once the path is split at its first backslash. */
  lemma OpenNestedChildVia(st: Store, t: string, i: int, root: Root, rest: string, c: string)
    requires i == IndexOf(t, '\\') && i != -1
    requires GetBaseKey(t[..i]) == Some(root) && t[i + 1..] == rest + "\\" + c
    requires IsSegment(c) && OpenSubKey(st, root, rest).Some?
    requires c in OpenSubKey(st, root, rest).value.key.subKeys
    ensures OpenKey(st, t).Some?
    ensures OpenKey(st, t).value.key == OpenSubKey(st, root, rest).value.key.subKeys[c]
  {
    OpenKeyAt(st, t, i);
    OpenSubKeySnoc(st, root, rest, c);
  }

  /** A child of an opened key opens under the parent's path and a backslash. */
  lemma OpenChild(st: Store, path: string, c: string)
    requires OpenKey(st, path).Some?
    requires IsSegment(c) && c in OpenKey(st, path).value.key.subKeys
    ensures OpenKey(st, path + "\\" + c).Some?
    ensures OpenKey(st, path + "\\" + c).value.key == OpenKey(st, path).value.key.subKeys[c]
  {
    var i := IndexOf(path, '\\');
    if i == -1 {
      OpenRootChild(st, path, c);
    } else {
      OpenKeyAt(st, path, i);
      OpenNestedChild(st, path, i, c);
    }
  }

  /** The name an opened key reports opens that same key again. */
  lemma ReopenByName(st: Store, path: string)
    requires OpenKey(st, path).Some?
    ensures OpenKey(st, OpenKey(st, path).value.name).Some?
    ensures OpenKey(st, OpenKey(st, path).value.name).value.key == OpenKey(st, path).value.key
  {
    var i := IndexOf(path, '\\');
    if i == -1 {
      RootNameIsBaseKey(GetBaseKey(path).value);
    } else {
      OpenKeyAt(st, path, i);
      ReopenSubKey(st, GetBaseKey(path[..i]).value, path[i + 1..]);
    }
  }

  /** A path spelled with a root's own name opens below that root. */
  lemma OpenKeyUnderRoot(st: Store, r: Root, sub: string)
    ensures OpenKey(st, RootName(r) + "\\" + sub) == OpenSubKey(st, r, sub)
  {
    var t := RootName(r) + "\\" + sub;
    IndexOfSplit(RootName(r), '\\', sub);
    assert t[..|RootName(r)|] == RootName(r);
    assert t[|RootName(r)| + 1..] == sub;
    OpenKeyAt(st, t, |RootName(r)|);
    RootNameIsBaseKey(r);
  }

  /** A subkey opened below a root reopens from the name it reports. */
  lemma ReopenSubKey(st: Store, r: Root, sub: string)
    requires OpenSubKey(st, r, sub).Some?
    ensures OpenKey(st, OpenSubKey(st, r, sub).value.name) == Some(Opened(OpenSubKey(st, r, sub).value.name, OpenSubKey(st, r, sub).value.key))
  {
    var segs := Segments(sub);
    OpenKeyUnderRoot(st, r, Join(segs));
    SegmentsJoin(segs);
  }

  /**
   * Object.Equals of a non-null boxed object with the live one: strings and integers by
   * value and type; an array is equal only to itself, and the array a directive carries
   * is never the array just read from the registry.
   */
  predicate ObjectEquals(expected: Payload, actual: Payload)
    requires !expected.Null?
  {
    match expected
    case Str(_) | Int(_) | Long(_) => expected == actual
    case Bytes(_) | Strings(_) => false
  }

  /**
   * CheckValueInDB(key, name, expected, kind). A key that does not open leaves a null
   * RegistryKey to read from (NullReferenceException). MultiString and Binary compare
   * element by element, and are false when the live object is not an array of that
   * element type; None and Unknown are refused; every other kind uses Equals.
   */
  function CheckValueInDB(st: Store, key: string, name: string, expected: Payload, kind: RegistryValueKind): (r: Result<bool>)
    ensures OpenKey(st, key).None? ==> r == Err(NullReferenceException)
    ensures OpenKey(st, key).Some? && (kind == Unknown || kind == NoneKind) ==> r == Err(GeneralException)
    ensures OpenKey(st, key).Some? && kind == MultiString ==>
      var actual := GetValue(OpenKey(st, key).value.key, name);
      (r == Ok(true) <==> expected.Strings? && actual == expected)
    ensures OpenKey(st, key).Some? && kind == Binary ==>
      var actual := GetValue(OpenKey(st, key).value.key, name);
      (r == Ok(true) <==> expected.Bytes? && actual == expected)
  {
    match OpenKey(st, key)
    case None => Err(NullReferenceException)
    case Some(o) =>
      var actual := GetValue(o.key, name);
      match kind
      case MultiString =>
        if !actual.Strings? then Ok(false)
        else if expected.Null? then Err(ArgumentNullException)
        else if !expected.Strings? then Err(InvalidCastException)
        else Ok(expected.strings == actual.strings)
      case Binary =>
        if !actual.Bytes? then Ok(false)
        else if expected.Null? then Err(ArgumentNullException)
        else if !expected.Bytes? then Err(InvalidCastException)
        else Ok(expected.bytes == actual.bytes)
      case Unknown | NoneKind => Err(GeneralException)
      case _ =>
        if expected.Null? then Err(NullReferenceException)
        else Ok(ObjectEquals(expected, actual))
  }

  /**
   * For a well-formed documented value of a comparable kind under a key that opens, the
   * check succeeds exactly when the live object equals the documented one, except that
   * arrays of other kinds never compare equal.
   */
  lemma CheckValueMeansEqual(st: Store, key: string, name: string, v: RegistryValue)
    requires OpenKey(st, key).Some?
    requires ValidPayload(v) && v.kind != Unknown && v.kind != NoneKind
    ensures CheckValueInDB(st, key, name, v.value, v.kind).Ok?
    ensures CheckValueInDB(st, key, name, v.value, v.kind).value <==>
      GetValue(OpenKey(st, key).value.key, name) == v.value && (v.kind == Binary || !v.value.Bytes?)
  {
  }

  /**
   * Whether one directive is already in effect: a key directive when deleting it and its
   * existence differ; a value deletion when Registry.GetValue reads null; a value when
   * CheckValueInDB says so.
   */
  function DirectiveHolds(st: Store, d: Directive): (r: Result<bool>)
    ensures d.isKey ==> r == Ok(d.isDelete != KeyExists(st, d.key))
    ensures !d.isKey && d.isDelete ==>
      (r == Ok(true) <==> RegistryGetValue(st, d.key, d.name) == Ok(Null))
  {
    if d.isKey then Ok(d.isDelete != KeyExists(st, d.key))
    else if d.isDelete then
      match RegistryGetValue(st, d.key, d.name)
      case Err(e) => Err(e)
      case Ok(p) => Ok(p.Null?)
    else CheckValueInDB(st, d.key, d.name, d.value, d.kind)
  }

  /**
   * What CheckSuitable computes: directives are examined in order until one is not in
   * effect (false) or throws; the empty sequence is suitable.
   */
  function Suitability(st: Store, ds: seq<Directive>): (r: Result<bool>)
    ensures r == Ok(true) ==> forall i :: 0 <= i < |ds| ==> DirectiveHolds(st, ds[i]) == Ok(true)
    decreases |ds|
  {
    if ds == [] then Ok(true)
    else
      assert forall i :: 1 <= i < |ds| ==> ds[i] == ds[1..][i - 1];
      match DirectiveHolds(st, ds[0])
      case Err(e) => Err(e)
      case Ok(b) => if b then Suitability(st, ds[1..]) else Ok(false)
  }

  /** Suitable exactly when every directive is in effect. */
  lemma {:induction false} SuitableIffAllHold(st: Store, ds: seq<Directive>)
    ensures Suitability(st, ds) == Ok(true) <==> forall i :: 0 <= i < |ds| ==> DirectiveHolds(st, ds[i]) == Ok(true)
    decreases |ds|
  {
    if ds != [] {
      SuitableIffAllHold(st, ds[1..]);
      assert forall i :: 1 <= i < |ds| ==> ds[i] == ds[1..][i - 1];
    }
  }

  /**
   * The first directive not in effect decides: the directives after it are never
   * examined, whatever they are.
   */
  lemma {:induction false} StopsAtFirstUnsatisfied(st: Store, before: seq<Directive>, d: Directive, after: seq<Directive>)
    requires forall i :: 0 <= i < |before| ==> DirectiveHolds(st, before[i]) == Ok(true)
    requires DirectiveHolds(st, d) == Ok(false)
    ensures Suitability(st, before + [d] + after) == Ok(false)
    decreases |before|
  {
    var ds := before + [d] + after;
    if before == [] {
      assert ds[0] == d && ds[1..] == after;
    } else {
      assert ds[0] == before[0];
      assert ds[1..] == before[1..] + [d] + after;
      StopsAtFirstUnsatisfied(st, before[1..], d, after);
    }
  }

  /**
   * CheckSuitable(content), over the directives the reader yields: loops while every
   * directive so far is in effect.
   */
  method CheckSuitable(st: Store, ds: seq<Directive>) returns (r: Result<bool>)
    ensures r == Suitability(st, ds)
  {
    var expected := true;
    var i := 0;
    while expected && i < |ds|
      invariant 0 <= i <= |ds|
      invariant Suitability(st, ds) == if expected then Suitability(st, ds[i..]) else Ok(false)
    {
      assert ds[i..][1..] == ds[i + 1..];
      var holds := DirectiveHolds(st, ds[i]);
      if holds.Err? {
        return Err(holds.error);
      }
      expected := holds.value;
      i := i + 1;
    }
    return Ok(expected);
  }
}
