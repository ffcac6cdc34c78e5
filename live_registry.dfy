/**
 * The live registry, as the modelled code sees it through Microsoft.Win32: a snapshot of
 * key trees under the predefined root keys. Opening subkeys, reading values and
 * Registry.GetValue are modelled here as functions of that snapshot.
 */
module LiveRegistry {
  import opened Wrappers
  import opened Strings
  import opened RegistryValues

  /** The predefined keys (Registry.CurrentUser, Registry.LocalMachine, ...). */
  datatype Root = CurrentUser | LocalMachine | ClassesRoot | Users | CurrentConfig | PerformanceData

  /** RegistryKey.Name of a predefined key. */
  function RootName(r: Root): (n: string)
    ensures '\\' !in n
  {
    match r
    case CurrentUser => "HKEY_CURRENT_USER"
    case LocalMachine => "HKEY_LOCAL_MACHINE"
    case ClassesRoot => "HKEY_CLASSES_ROOT"
    case Users => "HKEY_USERS"
    case CurrentConfig => "HKEY_CURRENT_CONFIG"
    case PerformanceData => "HKEY_PERFORMANCE_DATA"
  }

  /** A live key: its values by name and its subkeys by name. */
  datatype LiveKey = LiveKey(values: map<string, RegistryValue>, subKeys: map<string, LiveKey>)

  const EMPTY_KEY := LiveKey(map[], map[])

  /** The whole registry; a predefined key missing from the map reads as an empty key. */
  datatype Store = Store(roots: map<Root, LiveKey>)

  function RootKey(st: Store, r: Root): LiveKey {
    if r in st.roots then st.roots[r] else EMPTY_KEY
  }

  /** A name the registry accepts for one level of a path: non-empty, without a backslash. */
  predicate IsSegment(c: string) {
    c != "" && '\\' !in c
  }

  /** Every subkey, at every depth, has a segment for a name. */
  predicate WfKey(k: LiveKey)
    decreases k
  {
    forall c | c in k.subKeys :: IsSegment(c) && WfKey(k.subKeys[c])
  }

  predicate Wf(st: Store) {
    forall r | r in st.roots :: WfKey(st.roots[r])
  }

  /**
   * The levels a subkey path names. Runs of backslashes and a trailing backslash name no
   * level (RegistryKey.FixupName collapses and trims them).
   */
  function Segments(s: string): (segs: seq<string>)
    ensures forall i :: 0 <= i < |segs| ==> IsSegment(segs[i])
    decreases |s|
  {
    var i := IndexOf(s, '\\');
    if i == -1 then (if s == "" then [] else [s])
    else (if i == 0 then [] else [s[..i]]) + Segments(s[i + 1..])
  }

  /** Levels joined by single backslashes: the path RegistryKey.Name records. */
  function Join(segs: seq<string>): string
    decreases |segs|
  {
    if segs == [] then ""
    else if |segs| == 1 then segs[0]
    else segs[0] + "\\" + Join(segs[1..])
  }

  /** The first c in a + b is the first c in a, when a holds one. */
  lemma IndexOfPrefix(a: string, b: string, c: char)
    requires c in a
    ensures IndexOf(a + b, c) == IndexOf(a, c)
  {
    var i := IndexOf(a, c);
    assert (a + b)[i] == c;
    assert (a + b)[..i] == a[..i];
  }

  /** Splitting a joined path gives back its levels. */
  lemma {:induction false} SegmentsJoin(segs: seq<string>)
    requires forall i :: 0 <= i < |segs| ==> IsSegment(segs[i])
    ensures Segments(Join(segs)) == segs
    decreases |segs|
  {
    if segs == [] {
    } else if |segs| == 1 {
      assert IndexOf(segs[0], '\\') == -1;
    } else {
      var c, rest := segs[0], Join(segs[1..]);
      var s := c + "\\" + rest;
      IndexOfSplit(c, '\\', rest);
      assert s[..|c|] == c;
      assert s[|c| + 1..] == rest;
      SegmentsJoin(segs[1..]);
      assert segs == [c] + segs[1..];
    }
  }

  /** One level after a path without backslashes. */
  lemma SegmentsSnocPlain(s: string, c: string)
    requires IsSegment(c) && '\\' !in s
    ensures Segments(s + "\\" + c) == Segments(s) + [c]
  {
    var t := s + "\\" + c;
    IndexOfSplit(s, '\\', c);
    assert t[..|s|] == s;
    assert t[|s| + 1..] == c;
    assert Segments(c) == [c];
  }

  /** The levels of a path with a backslash: the text before it, if any, then the rest's. */
  lemma SegmentsAt(s: string, i: int)
    requires i == IndexOf(s, '\\') && i != -1
    ensures Segments(s) == (if i == 0 then [] else [s[..i]]) + Segments(s[i + 1..])
  {
  }

  /** A level appended after a path with a backslash leaves its first backslash in place. */
  lemma SnocSplit(s: string, c: string, i: int)
    requires i == IndexOf(s, '\\') && i != -1
    ensures IndexOf(s + "\\" + c, '\\') == i
    ensures (s + "\\" + c)[..i] == s[..i]
    ensures (s + "\\" + c)[i + 1..] == s[i + 1..] + "\\" + c
  {
    var t := s + "\\" + c;
    assert t == s + ("\\" + c);
    IndexOfPrefix(s, "\\" + c, '\\');
    assert t[i + 1..] == s[i + 1..] + ("\\" + c);
    Append3(s[i + 1..], "\\", c);
  }

  /** Appending one more level to a path appends it to the levels. */
  lemma {:induction false} SegmentsSnoc(s: string, c: string)
    requires IsSegment(c)
    ensures Segments(s + "\\" + c) == Segments(s) + [c]
    decreases |s|
  {
    var i := IndexOf(s, '\\');
    if i == -1 {
      SegmentsSnocPlain(s, c);
    } else {
      SegmentsSnoc(s[i + 1..], c);
      SegmentsSnocStep(s, c, i);
    }
  }

  /** The step of SegmentsSnoc past the first backslash. */
  lemma SegmentsSnocStep(s: string, c: string, i: int)
    requires i == IndexOf(s, '\\') && i != -1
    requires Segments(s[i + 1..] + "\\" + c) == Segments(s[i + 1..]) + [c]
    ensures Segments(s + "\\" + c) == Segments(s) + [c]
  {
    var first: seq<string> := if i == 0 then [] else [s[..i]];
    SnocSplit(s, c, i);
    SegmentsAt(s, i);
    SegmentsAt(s + "\\" + c, i);
    SnocAssociative(first, Segments(s[i + 1..]), c);
  }

  lemma SnocAssociative<T>(a: seq<T>, b: seq<T>, x: T)
    ensures a + (b + [x]) == a + b + [x]
  {
  }

  /** The key reached from k by following segs, if every level exists. */
  function Walk(k: LiveKey, segs: seq<string>): Option<LiveKey>
    decreases |segs|
  {
    if segs == [] then Some(k)
    else if segs[0] in k.subKeys then Walk(k.subKeys[segs[0]], segs[1..])
    else None
  }

  /** Following one more level is opening that child of where the walk ended. */
  lemma {:induction false} WalkSnoc(k: LiveKey, segs: seq<string>, c: string)
    ensures Walk(k, segs + [c]) ==
      match Walk(k, segs)
      case None => None
      case Some(m) => if c in m.subKeys then Some(m.subKeys[c]) else None
    decreases |segs|
  {
    if segs == [] {
      assert segs + [c] == [c];
    } else {
      assert (segs + [c])[1..] == segs[1..] + [c];
      if segs[0] in k.subKeys {
        WalkSnoc(k.subKeys[segs[0]], segs[1..], c);
      }
    }
  }

  /** A key opened by name: RegistryKey.Name and the key itself. */
  datatype Opened = Opened(name: string, key: LiveKey)

  /**
   * RegistryKey.OpenSubKey on a predefined key: the key the levels of path name, or None
   * when one is missing. The opened key is named after the root and the fixed-up path
   * (for an empty path, the root's name and a backslash).
   */
  function OpenSubKey(st: Store, r: Root, path: string): (o: Option<Opened>)
    ensures o.Some? <==> Walk(RootKey(st, r), Segments(path)).Some?
    ensures o.Some? ==> o.value.key == Walk(RootKey(st, r), Segments(path)).value
  {
    match Walk(RootKey(st, r), Segments(path))
    case None => None
    case Some(k) => Some(Opened(RootName(r) + "\\" + Join(Segments(path)), k))
  }

  /** A single level below a predefined key opens that child. */
  lemma OpenSubKeyFirst(st: Store, r: Root, c: string)
    requires IsSegment(c) && c in RootKey(st, r).subKeys
    ensures OpenSubKey(st, r, c).Some?
    ensures OpenSubKey(st, r, c).value.key == RootKey(st, r).subKeys[c]
  {
    assert IndexOf(c, '\\') == -1;
    assert Segments(c) == [c];
    assert [c][1..] == [];
    assert Walk(RootKey(st, r), [c]) == Walk(RootKey(st, r).subKeys[c], []);
  }

  /** One more level below an opened subkey opens that child of it. */
  lemma OpenSubKeySnoc(st: Store, r: Root, path: string, c: string)
    requires IsSegment(c) && OpenSubKey(st, r, path).Some?
    requires c in OpenSubKey(st, r, path).value.key.subKeys
    ensures OpenSubKey(st, r, path + "\\" + c).Some?
    ensures OpenSubKey(st, r, path + "\\" + c).value.key == OpenSubKey(st, r, path).value.key.subKeys[c]
  {
    SegmentsSnoc(path, c);
    WalkSnoc(RootKey(st, r), Segments(path), c);
  }

  /** RegistryKey.GetValue(name, null, ...): the stored object, or null when absent. */
  function GetValue(k: LiveKey, name: string): (p: Payload)
    ensures name !in k.values ==> p == Null
  {
    if name in k.values then k.values[name].value else Null
  }

  /**
   * RegistryValue.From(key, name): the live value with its kind, or the tombstone when
   * the key has no value of that name.
   */
  function From(k: LiveKey, name: string): (v: RegistryValue)
    ensures name in k.values ==> v == k.values[name]
    ensures name !in k.values ==> v == DELETED
  {
    if name in k.values then k.values[name] else DELETED
  }

  /** Invariant-culture upper-casing, on ASCII letters. */
  function UpperAscii(s: string): (u: string)
    ensures |u| == |s|
    ensures forall i :: 0 <= i < |s| ==> u[i] == (if 'a' <= s[i] <= 'z' then (s[i] as int - 32) as char else s[i])
  {
    seq(|s|, i requires 0 <= i < |s| => if 'a' <= s[i] <= 'z' then (s[i] as int - 32) as char else s[i])
  }

  /** Upper-casing leaves a string without lower-case letters as it is. */
  lemma UpperAsciiFixed(s: string)
    requires forall i :: 0 <= i < |s| ==> !('a' <= s[i] <= 'z')
    ensures UpperAscii(s) == s
  {
  }

  /** The predefined key an upper-cased full root name denotes, in the order Registry.GetValue tests them. */
  function FullRootName(baseName: string): (r: Option<Root>)
    ensures r.Some? ==> baseName == RootName(r.value)
  {
    if baseName == "HKEY_CURRENT_USER" then Some(CurrentUser)
    else if baseName == "HKEY_LOCAL_MACHINE" then Some(LocalMachine)
    else if baseName == "HKEY_CLASSES_ROOT" then Some(ClassesRoot)
    else if baseName == "HKEY_USERS" then Some(Users)
    else if baseName == "HKEY_PERFORMANCE_DATA" then Some(PerformanceData)
    else if baseName == "HKEY_CURRENT_CONFIG" then Some(CurrentConfig)
    else None
  }

  /** Each root's own name is the one full name that denotes it. */
  lemma FullRootNameOwn(r: Root, baseName: string)
    ensures FullRootName(baseName) == Some(r) <==> baseName == RootName(r)
  {
  }

  /**
   * Registry.GetValue(keyName, valueName, null): the root must be spelled out in full (any
   * case), else ArgumentException; a missing key or value reads as null.
   */
  function RegistryGetValue(st: Store, keyName: string, valueName: string): (r: Result<Payload>)
    ensures r.Err? ==> r.error == ArgumentException
  {
    var i := IndexOf(keyName, '\\');
    var baseName := UpperAscii(if i == -1 then keyName else keyName[..i]);
    var sub := if i == -1 then "" else keyName[i + 1..];
    match FullRootName(baseName)
    case None => Err(ArgumentException)
    case Some(r) => ReadValue(st, r, sub, valueName)
  }

  function ReadValue(st: Store, r: Root, sub: string, valueName: string): (v: Result<Payload>)
    ensures v.Ok?
    ensures OpenSubKey(st, r, sub).None? ==> v.value.Null?
  {
    match OpenSubKey(st, r, sub)
    case None => Ok(Null)
    case Some(o) => Ok(GetValue(o.key, valueName))
  }

  /** A value Registry.GetValue reads is the one stored under the root's full name. */
  lemma GetValueByRootName(st: Store, r: Root, sub: string, valueName: string)
    ensures RegistryGetValue(st, RootName(r) + "\\" + sub, valueName) == ReadValue(st, r, sub, valueName)
  {
    UpperAsciiFixed(RootName(r));
    FullRootNameOwn(r, RootName(r));
    GetValueUnder(st, RootName(r), r, sub, valueName);
  }

  /** A path whose first level spells a root in full reads below that root. */
  lemma GetValueUnder(st: Store, base: string, r: Root, sub: string, valueName: string)
    requires '\\' !in base && FullRootName(UpperAscii(base)) == Some(r)
    ensures RegistryGetValue(st, base + "\\" + sub, valueName) == ReadValue(st, r, sub, valueName)
  {
    var k := base + "\\" + sub;
    IndexOfSplit(base, '\\', sub);
    assert k[..|base|] == base;
    assert k[|base| + 1..] == sub;
  }
}
