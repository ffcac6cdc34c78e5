/**
 * What the operations of a RegDocument do to its two collections, stated as functions:
 * Erased, the key paths whose whole tree is to be deleted, and Created, the value
 * dictionary of every key to be set.
 */
module RegDocumentModel {
  import opened Wrappers
  import opened Strings
  import opened RegistryValues
  import opened LiveRegistry
  import opened Directives
  import opened RegistryHelper

  type ValueDict = map<string, RegistryValue>
  type CreatedMap = map<string, ValueDict>

  /** The contents of a document. */
  datatype Doc = Doc(erased: set<string>, created: CreatedMap)

  const EMPTY_DOC := Doc({}, map[])

  /** The dictionary of key in created, or a new empty one. */
  function Get(created: CreatedMap, key: string): ValueDict {
    if key in created then created[key] else map[]
  }

  /** The entries of m whose keys are in s: what a loop over m has visited so far. */
  function Restrict<V>(m: map<string, V>, s: set<string>): (r: map<string, V>)
    ensures r.Keys == m.Keys * s
    ensures forall k | k in r :: r[k] == m[k]
  {
    m - (m.Keys - s)
  }

  /** Visiting one more key of m. */
  lemma RestrictAdd<V>(m: map<string, V>, s: set<string>, k: string)
    requires k in m
    ensures Restrict(m, s + {k}) == Restrict(m, s)[k := m[k]]
  {
  }

  /** A loop over a set moving one more element x from what is left to what is done. */
  lemma VisitOne<T>(all: set<T>, left: set<T>, x: T)
    requires x in left && left <= all
    ensures (all - left) + {x} == all - (left - {x})
  {
  }

  lemma SetUnionAssociative<T>(a: set<T>, b: set<T>, c: set<T>)
    ensures a + b + c == a + (b + c)
  {
  }

  /** Setting one entry of a union sets it in the right operand. */
  lemma UnionUpdate<V>(a: map<string, V>, b: map<string, V>, k: string, v: V)
    ensures (a + b)[k := v] == a + b[k := v]
  {
  }

  /** The differing values among one more visited name of documented. */
  lemma DifferingAdd(documented: ValueDict, s: set<string>, vn: string, live: LiveKey)
    requires vn in documented && vn !in s
    ensures Differing(Restrict(documented, s + {vn}), live) ==
      if documented[vn] != From(live, vn) then Differing(Restrict(documented, s), live)[vn := From(live, vn)]
      else Differing(Restrict(documented, s), live)
  {
    RestrictAdd(documented, s, vn);
  }

  // ---------------------------------------------------------------- DeleteKey

  /**
   * DeleteKey refuses a path without a backslash, and one whose first backslash is its
   * last character: both name a root key.
   */
  predicate IsRootPath(name: string) {
    var s := IndexOf(name, '\\') + 1;
    s == 0 || s == |name|
  }

  /** key is name itself or lies below it: name is a prefix ending on a segment boundary. */
  predicate Under(key: string, name: string) {
    StartsWith(key, name) && (|key| == |name| || key[|name|] == '\\')
  }

  /** Being under name means being name or starting with name and a backslash. */
  lemma UnderIff(key: string, name: string)
    ensures Under(key, name) <==> key == name || StartsWith(key, name + "\\")
  {
    if StartsWith(key, name + "\\") {
      assert key[..|name|] == (name + "\\")[..|name|];
      assert key[|name|] == (name + "\\")[|name|];
    }
    if Under(key, name) && |key| > |name| {
      assert key[..|name| + 1] == key[..|name|] + [key[|name|]];
    }
  }

  /** A path that continues name without a backslash (name + "Bar", name + "/x") is not under it. */
  lemma SiblingNotUnder(name: string, suffix: string)
    requires suffix != [] && suffix[0] != '\\'
    ensures !Under(name + suffix, name)
  {
    assert (name + suffix)[|name|] == suffix[0];
  }

  /** Created after DeleteKey(name): every key under name removed, all others kept. */
  function Pruned(created: CreatedMap, name: string): (r: CreatedMap)
    ensures r.Keys <= created.Keys
  {
    map k | k in created && !Under(k, name) :: created[k]
  }

  /**
   * Which keys DeleteKey(name) removes: exactly name and the paths beginning with name
   * and a backslash; the others keep their dictionaries.
   */
  lemma PrunedKeys(created: CreatedMap, name: string, k: string)
    ensures k in Pruned(created, name) <==> k in created && k != name && !StartsWith(k, name + "\\")
    ensures k in Pruned(created, name) ==> Pruned(created, name)[k] == created[k]
  {
    UnderIff(k, name);
  }

  /** A child of name goes and a sibling that only continues its text stays. */
  lemma PruneChildKeepSibling(name: string, child: string, sibling: string, d1: ValueDict, d2: ValueDict)
    requires sibling != [] && sibling[0] != '\\'
    ensures var created := map[name + "\\" + child := d1, name + sibling := d2];
      Pruned(created, name) == map[name + sibling := d2]
  {
    var key := name + "\\" + child;
    assert key[..|name|] == name && key[|name|] == '\\';
    assert Under(key, name);
    SiblingNotUnder(name, sibling);
  }

  /** The pruning the document tests expect from DeleteKey. */
  lemma DeleteKeyTestCase()
    ensures var name := "HKEY_CURRENT_USER\\_RH_Test_";
      !IsRootPath(name)
      && Pruned(map[name + "\\foobar" := map[], name + "/foobar" := map[]], name) == map[name + "/foobar" := map[]]
  {
    var name := "HKEY_CURRENT_USER\\_RH_Test_";
    IndexOfSplit("HKEY_CURRENT_USER", '\\', "_RH_Test_");
    PruneChildKeepSibling(name, "foobar", "/foobar", map[], map[]);
  }

  // ---------------------------------------------------------------- CreateKey

  /** Created after CreateKey(name): an empty dictionary is added only if name has none. */
  function WithKey(created: CreatedMap, name: string): (r: CreatedMap)
    ensures name in r && r.Keys == created.Keys + {name}
    ensures forall k | k in created :: r[k] == created[k]
    ensures name !in created ==> r[name] == map[]
  {
    created[name := Get(created, name)]
  }

  /** CreateKey(name) and then setting entries d in the dictionary it returns. */
  lemma WithKeyPut(created: CreatedMap, name: string, d: ValueDict)
    ensures WithKey(created, name)[name := WithKey(created, name)[name] + d] == created[name := Get(created, name) + d]
  {
  }

  /** CreateKey twice is CreateKey once, and Created grows by at most one key. */
  lemma CreateKeyIdempotent(created: CreatedMap, name: string)
    ensures WithKey(WithKey(created, name), name) == WithKey(created, name)
    ensures |WithKey(created, name).Keys| <= |created.Keys| + 1
  {
    assert WithKey(created, name).Keys == created.Keys + {name};
  }

  // ---------------------------------------------------------------- Load

  /**
   * The dictionary Load writes values into: none before the first key directive; the
   * dictionary of key; or a dictionary DeleteKey has since removed from Created, so that
   * what is written to it is lost.
   */
  datatype Context = NoKey | At(key: string) | Orphan

  datatype LoadState = LoadState(doc: Doc, ctx: Context)

  /** The current dictionary, when there is one, is still the one in Created. */
  predicate Consistent(s: LoadState) {
    s.ctx.At? ==> s.ctx.key in s.doc.created
  }

  /** The entry a value directive stores: its value, or the tombstone for a deletion. */
  function Entry(d: Directive): RegistryValue {
    if d.isDelete then DELETED else RegistryValue(d.value, d.kind)
  }

  /** key[name] = v on the current dictionary. */
  function Put(s: LoadState, name: string, v: RegistryValue): (r: Result<LoadState>)
    requires Consistent(s)
    ensures r.Ok? ==> Consistent(r.value) && r.value.ctx == s.ctx && r.value.doc.erased == s.doc.erased
  {
    match s.ctx
    case NoKey => Err(NullReferenceException)
    case Orphan => Ok(s)
    case At(k) =>
      var created := s.doc.created;
      Ok(LoadState(Doc(s.doc.erased, created[k := created[k][name := v]]), s.ctx))
  }

  /** One directive of Load. */
  function LoadStep(s: LoadState, d: Directive): (r: Result<LoadState>)
    requires Consistent(s)
    ensures r.Ok? ==> Consistent(r.value)
    ensures r.Ok? ==> s.doc.erased <= r.value.doc.erased
  {
    if d.isKey && !d.isDelete then
      Ok(LoadState(Doc(s.doc.erased, WithKey(s.doc.created, d.key)), At(d.key)))
    else if d.isKey then
      if IsRootPath(d.key) then Err(ArgumentException)
      else
        var ctx := if s.ctx.At? && Under(s.ctx.key, d.key) then Orphan else s.ctx;
        Ok(LoadState(Doc(s.doc.erased + {d.key}, Pruned(s.doc.created, d.key)), ctx))
    else Put(s, d.name, Entry(d))
  }

  /** Load: the directives replayed in order, up to the first that throws. */
  function LoadAll(s: LoadState, ds: seq<Directive>): (r: (LoadState, Option<Failure>))
    requires Consistent(s)
    ensures Consistent(r.0)
    ensures s.doc.erased <= r.0.doc.erased
    decreases |ds|
  {
    if ds == [] then (s, None)
    else
      match LoadStep(s, ds[0])
      case Err(e) => (s, Some(e))
      case Ok(next) => LoadAll(next, ds[1..])
  }

  /** A value directive writes into the dictionary of the most recent key directive. */
  lemma LoadValueStep(s: LoadState, d: Directive)
    requires Consistent(s) && s.ctx.At? && !d.isKey
    ensures LoadStep(s, d).Ok?
    ensures LoadStep(s, d).value.doc.created[s.ctx.key][d.name] == Entry(d)
    ensures forall n | n in s.doc.created[s.ctx.key] && n != d.name ::
      LoadStep(s, d).value.doc.created[s.ctx.key][n] == s.doc.created[s.ctx.key][n]
    ensures LoadStep(s, d).value.doc.created.Keys == s.doc.created.Keys
  {
  }

  /** A value deletion keeps the name, with the tombstone as its value. */
  lemma LoadDeleteValueStep(s: LoadState, d: Directive)
    requires Consistent(s) && s.ctx.At? && !d.isKey && d.isDelete
    ensures d.name in LoadStep(s, d).value.doc.created[s.ctx.key]
    ensures LoadStep(s, d).value.doc.created[s.ctx.key][d.name].IsDelete()
  {
  }

  /**
   * A key deletion goes through DeleteKey: it is refused for a root path, and otherwise
   * records the path and prunes Created; a current key it prunes no longer receives values.
   */
  lemma LoadDeleteKeyStep(s: LoadState, d: Directive)
    requires Consistent(s) && d.isKey && d.isDelete
    ensures IsRootPath(d.key) ==> LoadStep(s, d) == Err(ArgumentException)
    ensures !IsRootPath(d.key) ==>
      (LoadStep(s, d).Ok? && LoadStep(s, d).value.doc == Doc(s.doc.erased + {d.key}, Pruned(s.doc.created, d.key)))
    ensures !IsRootPath(d.key) && s.ctx.At? && Under(s.ctx.key, d.key) ==> LoadStep(s, d).value.ctx == Orphan
  {
  }

  /** The key paths of the key deletions among ds. */
  function DeletedKeys(ds: seq<Directive>): set<string> {
    set i | 0 <= i < |ds| && ds[i].isKey && ds[i].isDelete :: ds[i].key
  }

  /**
   * A Load that completes adds to Erased exactly the paths of its key deletions; no
   * other directive touches Erased.
   */
  lemma {:induction false} LoadErased(s: LoadState, ds: seq<Directive>)
    requires Consistent(s)
    requires LoadAll(s, ds).1.None?
    ensures LoadAll(s, ds).0.doc.erased == s.doc.erased + DeletedKeys(ds)
    decreases |ds|
  {
    if ds != [] {
      var next := LoadStep(s, ds[0]).value;
      LoadErased(next, ds[1..]);
      assert DeletedKeys(ds) == (if ds[0].isKey && ds[0].isDelete then {ds[0].key} else {}) + DeletedKeys(ds[1..]) by {
        forall x | x in DeletedKeys(ds)
          ensures x in (if ds[0].isKey && ds[0].isDelete then {ds[0].key} else {}) + DeletedKeys(ds[1..])
        {
          var i :| 0 <= i < |ds| && ds[i].isKey && ds[i].isDelete && ds[i].key == x;
          if i > 0 {
            assert ds[1..][i - 1] == ds[i];
          }
        }
        forall x | x in DeletedKeys(ds[1..])
          ensures x in DeletedKeys(ds)
        {
          var i :| 0 <= i < |ds[1..]| && ds[1..][i].isKey && ds[1..][i].isDelete && ds[1..][i].key == x;
          assert ds[i + 1] == ds[1..][i];
        }
      }
    }
  }

  /** A value directive before any key directive dereferences the null dictionary. */
  lemma LoadValueWithoutKey(doc: Doc, d: Directive, rest: seq<Directive>)
    requires !d.isKey
    ensures LoadAll(LoadState(doc, NoKey), [d] + rest) == (LoadState(doc, NoKey), Some(NullReferenceException))
  {
  }

  // ---------------------------------------------------------------- Merge

  /**
   * Created after Merge(other): every key of other gets this document's dictionary (or a
   * new one) overridden name by name by other's; keys only here are untouched.
   */
  function MergeCreated(a: CreatedMap, b: CreatedMap): (r: CreatedMap)
    ensures r.Keys == a.Keys + b.Keys
  {
    map k | k in a.Keys + b.Keys :: if k in b then Get(a, k) + b[k] else a[k]
  }

  /** A key's merged dictionary is the union of its two dictionaries (each empty when absent). */
  lemma MergeCreatedGet(a: CreatedMap, b: CreatedMap, k: string)
    ensures k in MergeCreated(a, b) <==> k in a || k in b
    ensures Get(MergeCreated(a, b), k) == Get(a, k) + Get(b, k)
  {
    if k !in b {
      assert Get(a, k) + map[] == Get(a, k);
    }
  }

  /** Merge's loop over other's keys, one more key visited. */
  lemma MergeCreatedAdd(a: CreatedMap, b: CreatedMap, done: set<string>, k: string)
    requires k in b && k !in done
    ensures var before := MergeCreated(a, Restrict(b, done));
      MergeCreated(a, Restrict(b, done + {k})) == before[k := Get(before, k) + b[k]]
  {
    var rb, rb2 := Restrict(b, done), Restrict(b, done + {k});
    RestrictAdd(b, done, k);
    var before := MergeCreated(a, rb);
    var after := MergeCreated(a, rb2);
    var expected := before[k := Get(before, k) + b[k]];
    MergeCreatedGet(a, rb, k);
    MergeCreatedGet(a, rb2, k);
    assert Get(before, k) == Get(a, k) + map[] == Get(a, k);
    forall j | j in after
      ensures j in expected && after[j] == expected[j]
    {
      MergeCreatedGet(a, rb, j);
      MergeCreatedGet(a, rb2, j);
    }
    forall j | j in expected
      ensures j in after
    {
      MergeCreatedGet(a, rb, j);
      MergeCreatedGet(a, rb2, j);
    }
    assert after == expected;
  }

  /** Merge(other): Erased becomes the union, nothing is pruned; Created as above. */
  function MergeDocs(a: Doc, b: Doc): (r: Doc)
    ensures r.erased == a.erased + b.erased
    ensures r.created.Keys == a.created.Keys + b.created.Keys
  {
    Doc(a.erased + b.erased, MergeCreated(a.created, b.created))
  }

  /** The other document wins on every name it has; everything else stays as it was. */
  lemma MergeOtherWins(a: Doc, b: Doc, k: string, n: string)
    ensures k in b.created && n in b.created[k] ==> MergeDocs(a, b).created[k][n] == b.created[k][n]
    ensures k in a.created && k !in b.created ==> MergeDocs(a, b).created[k] == a.created[k]
    ensures k in a.created && k in b.created && n in a.created[k] && n !in b.created[k] ==>
      MergeDocs(a, b).created[k][n] == a.created[k][n]
    ensures MergeDocs(a, b).erased == a.erased + b.erased
  {
  }

  /** Merging into an empty document copies; merging an empty document changes nothing. */
  lemma MergeIdentity(a: Doc)
    ensures MergeDocs(EMPTY_DOC, a) == a
    ensures MergeDocs(a, EMPTY_DOC) == a
  {
    assert MergeDocs(EMPTY_DOC, a).created == a.created by {
      forall k | k in a.created
        ensures MergeCreated(map[], a.created)[k] == a.created[k]
      {
        assert Get(map[], k) + a.created[k] == a.created[k];
      }
    }
    assert MergeDocs(a, EMPTY_DOC).created == a.created;
  }

  /** Merging a document into itself changes nothing. */
  lemma MergeIdempotent(a: Doc)
    ensures MergeDocs(a, a) == a
  {
    assert MergeDocs(a, a).created == a.created by {
      forall k | k in a.created
        ensures MergeCreated(a.created, a.created)[k] == a.created[k]
      {
        assert a.created[k] + a.created[k] == a.created[k];
      }
    }
  }

  lemma UnionAssociative(x: ValueDict, y: ValueDict, z: ValueDict)
    ensures x + y + z == x + (y + z)
  {
  }

  lemma MergeAssociativeAt(a: CreatedMap, b: CreatedMap, c: CreatedMap, k: string)
    requires k in a.Keys + b.Keys + c.Keys
    ensures MergeCreated(MergeCreated(a, b), c)[k] == MergeCreated(a, MergeCreated(b, c))[k]
  {
    var ab, bc := MergeCreated(a, b), MergeCreated(b, c);
    MergeCreatedGet(a, b, k);
    MergeCreatedGet(ab, c, k);
    MergeCreatedGet(b, c, k);
    MergeCreatedGet(a, bc, k);
    UnionAssociative(Get(a, k), Get(b, k), Get(c, k));
  }

  /** Merging is associative: merging b then c is merging the merge of b and c. */
  lemma MergeAssociative(a: Doc, b: Doc, c: Doc)
    ensures MergeDocs(MergeDocs(a, b), c) == MergeDocs(a, MergeDocs(b, c))
  {
    var l := MergeCreated(MergeCreated(a.created, b.created), c.created);
    var r := MergeCreated(a.created, MergeCreated(b.created, c.created));
    forall k | k in l
      ensures l[k] == r[k]
    {
      MergeAssociativeAt(a.created, b.created, c.created, k);
    }
    assert l == r;
  }

  // ---------------------------------------------------------------- LoadRegistry

  /**
   * The names LoadRegistry gives a live key and every key below it: its own name, and
   * for each subkey, the name followed by a backslash and the subkey's name.
   */
  function Names(name: string, node: LiveKey): set<string>
    decreases node
  {
    {name} + set c, n | c in node.subKeys && n in Names(name + "\\" + c, node.subKeys[c]) :: n
  }

  /** The names given to the subtrees of the subkeys in done. */
  function ChildNames(name: string, node: LiveKey, done: set<string>): set<string> {
    set c, n | c in done && c in node.subKeys && n in Names(name + "\\" + c, node.subKeys[c]) :: n
  }

  lemma ChildNamesAdd(name: string, node: LiveKey, done: set<string>, c: string)
    requires c in node.subKeys
    ensures ChildNames(name, node, done + {c}) == ChildNames(name, node, done) + Names(name + "\\" + c, node.subKeys[c])
  {
  }

  lemma ChildNamesAll(name: string, node: LiveKey)
    ensures Names(name, node) == ChildNames(name, node, node.subKeys.Keys) + {name}
  {
  }

  /** The values of the live key a name opens, or none. */
  function LiveValues(st: Store, k: string): ValueDict {
    match OpenKey(st, k)
    case None => map[]
    case Some(o) => o.key.values
  }

  /**
   * Created after LoadRegistry over the keys named in s: each named key's dictionary
   * (existing or new) overridden by the live values of the key its name opens.
   */
  function Loaded(created: CreatedMap, st: Store, s: set<string>): (r: CreatedMap)
    ensures r.Keys == created.Keys + s
  {
    map k | k in created.Keys + s :: if k in s then Get(created, k) + LiveValues(st, k) else created[k]
  }

  /** Loading a single key is updating its dictionary. */
  lemma LoadedOne(created: CreatedMap, st: Store, name: string)
    ensures Loaded(created, st, {name}) == created[name := Get(created, name) + LiveValues(st, name)]
  {
    var l := Loaded(created, st, {name});
    var r := created[name := Get(created, name) + LiveValues(st, name)];
    assert l.Keys == r.Keys;
    forall k | k in l
      ensures l[k] == r[k]
    {
    }
    assert l == r;
  }

  /** Loading one set of keys and then another is loading both at once. */
  lemma LoadedUnion(created: CreatedMap, st: Store, s1: set<string>, s2: set<string>)
    ensures Loaded(Loaded(created, st, s1), st, s2) == Loaded(created, st, s1 + s2)
  {
    var mid := Loaded(created, st, s1);
    var l := Loaded(mid, st, s2);
    var r := Loaded(created, st, s1 + s2);
    forall k | k in l
      ensures l[k] == r[k]
    {
      LoadedAt(created, st, s1, k);
      LoadedAt(mid, st, s2, k);
      LoadedAt(created, st, s1 + s2, k);
      if k in s1 && k in s2 {
        UnionTwice(Get(created, k), LiveValues(st, k));
      }
    }
    assert l == r;
  }

  /** The dictionary Loaded leaves for one key. */
  lemma LoadedAt(created: CreatedMap, st: Store, s: set<string>, k: string)
    ensures k in Loaded(created, st, s) <==> k in created || k in s
    ensures Get(Loaded(created, st, s), k) == if k in s then Get(created, k) + LiveValues(st, k) else Get(created, k)
  {
  }

  lemma UnionTwice(d: ValueDict, e: ValueDict)
    ensures d + e + e == d + e
  {
  }

  /** Every name LoadRegistry gives opens the live key it was read from. */
  lemma {:induction false} NamesOpen(st: Store, name: string, node: LiveKey)
    requires WfKey(node)
    requires OpenKey(st, name).Some? && OpenKey(st, name).value.key == node
    ensures forall k | k in Names(name, node) :: OpenKey(st, k).Some?
    decreases node
  {
    forall k | k in Names(name, node)
      ensures OpenKey(st, k).Some?
    {
      if k != name {
        var c :| c in node.subKeys && k in Names(name + "\\" + c, node.subKeys[c]);
        OpenChild(st, name, c);
        NamesOpen(st, name + "\\" + c, node.subKeys[c]);
      }
    }
  }

  /** A walk below a well-formed key ends at a well-formed key. */
  lemma {:induction false} WalkWf(k: LiveKey, segs: seq<string>)
    requires WfKey(k)
    ensures Walk(k, segs).Some? ==> WfKey(Walk(k, segs).value)
    decreases |segs|
  {
    if segs != [] && segs[0] in k.subKeys {
      WalkWf(k.subKeys[segs[0]], segs[1..]);
    }
  }

  /** In a well-formed registry every key OpenKey opens is well formed. */
  lemma OpenedWf(st: Store, path: string)
    requires Wf(st) && OpenKey(st, path).Some?
    ensures WfKey(OpenKey(st, path).value.key)
  {
    var i := IndexOf(path, '\\');
    if i != -1 {
      var r := GetBaseKey(path[..i]).value;
      OpenKeyAt(st, path, i);
      WalkWf(RootKey(st, r), Segments(path[i + 1..]));
    }
  }

  // ---------------------------------------------------------------- Revert

  /** The names LoadRegistry visits for the erased paths of the other document. */
  function ErasedNames(st: Store, erased: set<string>): set<string> {
    set n, k | n in erased && OpenKey(st, n).Some? && k in Names(OpenKey(st, n).value.name, OpenKey(st, n).value.key) :: k
  }

  lemma ErasedNamesAdd(st: Store, done: set<string>, n: string)
    requires OpenKey(st, n).Some?
    ensures ErasedNames(st, done + {n}) ==
      ErasedNames(st, done) + Names(OpenKey(st, n).value.name, OpenKey(st, n).value.key)
  {
  }

  /** The values documented under a key that differ from the live ones, with the live values. */
  function Differing(documented: ValueDict, live: LiveKey): (r: ValueDict)
    ensures forall vn :: vn in r <==> vn in documented && documented[vn] != From(live, vn)
    ensures forall vn | vn in r :: r[vn] == From(live, vn)
  {
    map vn | vn in documented && documented[vn] != From(live, vn) :: From(live, vn)
  }

  /**
   * Created after the second loop of Revert: every created key of other that opens gets
   * its dictionary (existing or new) overridden by the differing live values.
   */
  function RevertCreated(created: CreatedMap, st: Store, other: CreatedMap): (r: CreatedMap)
    ensures r.Keys == created.Keys + OpenedKeys(st, other)
  {
    map k | k in created.Keys + OpenedKeys(st, other) :: RevertEntry(created, st, other, k)
  }

  /** The created keys of other that open. */
  function OpenedKeys(st: Store, other: CreatedMap): set<string> {
    set k | k in other && OpenKey(st, k).Some?
  }

  /** The dictionary Revert leaves for key k. */
  function RevertEntry(created: CreatedMap, st: Store, other: CreatedMap, k: string): ValueDict {
    if k in other && OpenKey(st, k).Some? then Get(created, k) + Differing(other[k], OpenKey(st, k).value.key)
    else Get(created, k)
  }

  /** Keys other does not document, or documents alike, are reverted alike. */
  lemma RevertEntrySame(created: CreatedMap, st: Store, o1: CreatedMap, o2: CreatedMap, j: string)
    requires (j in o1) == (j in o2) && (j in o1 ==> o1[j] == o2[j])
    ensures RevertEntry(created, st, o1, j) == RevertEntry(created, st, o2, j)
  {
  }

  /** Revert's second loop, one more key of other visited. */
  lemma RevertCreatedAdd(loaded: CreatedMap, st: Store, other: CreatedMap, done: set<string>, k: string)
    requires k in other && k !in done
    ensures var before := RevertCreated(loaded, st, Restrict(other, done));
      RevertCreated(loaded, st, Restrict(other, done + {k})) ==
        if OpenKey(st, k).None? then before
        else before[k := Get(before, k) + Differing(other[k], OpenKey(st, k).value.key)]
  {
    RestrictAdd(other, done, k);
    if OpenKey(st, k).Some? {
      RevertCreatedAddOpen(loaded, st, other, done, k);
    } else {
      RevertCreatedAddMissing(loaded, st, other, done, k);
    }
  }

  lemma RevertCreatedAddOpen(loaded: CreatedMap, st: Store, other: CreatedMap, done: set<string>, k: string)
    requires k in other && k !in done && OpenKey(st, k).Some?
    requires Restrict(other, done + {k}) == Restrict(other, done)[k := other[k]]
    ensures var before := RevertCreated(loaded, st, Restrict(other, done));
      RevertCreated(loaded, st, Restrict(other, done + {k})) ==
        before[k := Get(before, k) + Differing(other[k], OpenKey(st, k).value.key)]
  {
    var ro, ro2 := Restrict(other, done), Restrict(other, done + {k});
    var before := RevertCreated(loaded, st, ro);
    var after := RevertCreated(loaded, st, ro2);
    assert k !in ro;
    RevertCreatedGet(loaded, st, ro, k);
    RevertCreatedGet(loaded, st, ro2, k);
    RevertCreatedOthers(loaded, st, ro, ro2, k);
    MapUpdateExt(after, before, k);
  }

  /** Reading a key of the reverted map gives the key's reverted entry, present or not. */
  lemma RevertCreatedGet(created: CreatedMap, st: Store, other: CreatedMap, k: string)
    ensures Get(RevertCreated(created, st, other), k) == RevertEntry(created, st, other, k)
  {
  }

  /** A map that agrees with another everywhere but at k is the other updated at k. */
  lemma MapUpdateExt(after: CreatedMap, before: CreatedMap, k: string)
    requires k in after && after.Keys == before.Keys + {k}
    requires forall j | j in after && j != k :: after[j] == before[j]
    ensures after == before[k := after[k]]
  {
  }

  /** Documenting one more key k, that opens, leaves every other entry as it was. */
  lemma RevertCreatedOthers(loaded: CreatedMap, st: Store, ro: CreatedMap, ro2: CreatedMap, k: string)
    requires k in ro2 && OpenKey(st, k).Some? && k !in ro && ro2 == ro[k := ro2[k]]
    ensures RevertCreated(loaded, st, ro2).Keys == RevertCreated(loaded, st, ro).Keys + {k}
    ensures forall j | j in RevertCreated(loaded, st, ro2) && j != k ::
      RevertCreated(loaded, st, ro2)[j] == RevertCreated(loaded, st, ro)[j]
  {
    assert OpenedKeys(st, ro2) == OpenedKeys(st, ro) + {k};
    forall j | j in RevertCreated(loaded, st, ro2) && j != k
      ensures RevertCreated(loaded, st, ro2)[j] == RevertCreated(loaded, st, ro)[j]
    {
      RevertEntrySame(loaded, st, ro, ro2, j);
    }
  }

  lemma RevertCreatedAddMissing(loaded: CreatedMap, st: Store, other: CreatedMap, done: set<string>, k: string)
    requires k in other && k !in done && OpenKey(st, k).None?
    requires Restrict(other, done + {k}) == Restrict(other, done)[k := other[k]]
    ensures RevertCreated(loaded, st, Restrict(other, done + {k})) == RevertCreated(loaded, st, Restrict(other, done))
  {
    var ro, ro2 := Restrict(other, done), Restrict(other, done + {k});
    var before := RevertCreated(loaded, st, ro);
    var after := RevertCreated(loaded, st, ro2);
    assert OpenedKeys(st, ro2) == OpenedKeys(st, ro);
    assert after.Keys == before.Keys;
    forall j | j in after
      ensures after[j] == before[j]
    {
      if j != k {
        RevertEntrySame(loaded, st, ro, ro2, j);
      }
    }
    assert after == before;
  }

  /** The created keys of other that do not open. */
  function Missing(st: Store, other: CreatedMap): set<string> {
    set k | k in other && OpenKey(st, k).None?
  }

  lemma MissingAdd(st: Store, other: CreatedMap, done: set<string>, k: string)
    requires k in other
    ensures Missing(st, Restrict(other, done + {k})) ==
      Missing(st, Restrict(other, done)) + (if OpenKey(st, k).None? then {k} else {})
  {
  }

  /**
   * Revert(other): the live trees of other's erased paths are loaded, then every created
   * key of other is recorded as missing (deleted, without pruning) or with its differing
   * live values.
   */
  function RevertDoc(doc: Doc, st: Store, other: Doc): (r: Doc)
    ensures doc.erased <= r.erased && r.erased - doc.erased <= other.created.Keys
    ensures doc.created.Keys <= r.created.Keys
    ensures forall k | k in other.created :: (k in r.erased || k in r.created)
  {
    var loaded := Loaded(doc.created, st, ErasedNames(st, other.erased));
    Doc(doc.erased + Missing(st, other.created), RevertCreated(loaded, st, other.created))
  }

  /**
   * For a key of other that is missing live, Revert only records its deletion; for one
   * that opens, its entry holds the differing names, mapped to their live values (for a
   * key nothing else loaded, exactly those).
   */
  lemma RevertKeyEntry(doc: Doc, st: Store, other: Doc, k: string)
    requires k in other.created
    ensures OpenKey(st, k).None? ==> k in RevertDoc(doc, st, other).erased
    ensures OpenKey(st, k).Some? ==>
      (k in RevertDoc(doc, st, other).created &&
       forall vn | vn in other.created[k] && other.created[k][vn] != From(OpenKey(st, k).value.key, vn) ::
         vn in RevertDoc(doc, st, other).created[k] &&
         RevertDoc(doc, st, other).created[k][vn] == From(OpenKey(st, k).value.key, vn))
    ensures OpenKey(st, k).Some? && k !in doc.created && k !in ErasedNames(st, other.erased) ==>
      RevertDoc(doc, st, other).created[k] == Differing(other.created[k], OpenKey(st, k).value.key)
  {
  }

  // ---------------------------------------------------------------- IsSuitable

  /**
   * A created key is in effect: it opens, every documented value equals the live one
   * (the tombstone matching an absent name), and, when the key is also erased, the live
   * key has exactly as many values as documented.
   */
  predicate KeyMatches(st: Store, doc: Doc, k: string): (b: bool)
    requires k in doc.created
    ensures b ==> KeyExists(st, k)
  {
    match OpenKey(st, k)
    case None => false
    case Some(o) =>
      (forall n | n in doc.created[k] :: doc.created[k][n] == From(o.key, n))
      && (k in doc.erased ==> |o.key.values| == |doc.created[k]|)
  }

  /**
   * IsSuitable: applying the document would change nothing. Every created key is in
   * effect, and every erased path that is not also created is absent.
   */
  predicate Suitable(st: Store, doc: Doc): (b: bool)
    ensures b ==> forall k | k in doc.created :: KeyExists(st, k)
    ensures doc.created == map[] ==> (b <==> forall e | e in doc.erased :: !KeyExists(st, e))
  {
    (forall k | k in doc.created :: KeyMatches(st, doc, k))
    && (forall e | e in doc.erased && e !in doc.created :: !KeyExists(st, e))
  }

  /** An empty document is always suitable. */
  lemma EmptySuitable(st: Store)
    ensures Suitable(st, EMPTY_DOC)
  {
  }

  /** Every documented key opens, and holds the live value of each of its names. */
  predicate Agrees(st: Store, created: CreatedMap) {
    forall k | k in created ::
      OpenKey(st, k).Some? && forall n | n in created[k] :: created[k][n] == From(OpenKey(st, k).value.key, n)
  }

  lemma LoadedAgrees(created: CreatedMap, st: Store, s: set<string>)
    requires Agrees(st, created)
    requires forall k | k in s :: OpenKey(st, k).Some?
    ensures Agrees(st, Loaded(created, st, s))
  {
  }

  lemma ErasedNamesOpen(st: Store, erased: set<string>)
    requires Wf(st)
    ensures forall k | k in ErasedNames(st, erased) :: OpenKey(st, k).Some?
  {
    forall k | k in ErasedNames(st, erased)
      ensures OpenKey(st, k).Some?
    {
      var n :| n in erased && OpenKey(st, n).Some? && k in Names(OpenKey(st, n).value.name, OpenKey(st, n).value.key);
      var o := OpenKey(st, n).value;
      OpenedWf(st, n);
      ReopenByName(st, n);
      NamesOpen(st, o.name, o.key);
    }
  }

  lemma RevertCreatedAgrees(created: CreatedMap, st: Store, other: CreatedMap)
    requires Agrees(st, created)
    ensures Agrees(st, RevertCreated(created, st, other))
  {
  }

  /** A document whose created keys agree with the registry and are not erased matches key by key. */
  lemma AgreesMatches(st: Store, doc: Doc)
    requires Agrees(st, doc.created)
    requires forall k | k in doc.created :: k !in doc.erased
    ensures forall k | k in doc.created :: KeyMatches(st, doc, k)
  {
  }

  /**
   * A restore point is already in effect: reverting a document into an empty one gives
   * a document IsSuitable accepts against the same registry.
   */
  lemma RestorePointSuitable(st: Store, other: Doc)
    requires Wf(st)
    ensures Suitable(st, RevertDoc(EMPTY_DOC, st, other))
  {
    var loaded := Loaded(map[], st, ErasedNames(st, other.erased));
    ErasedNamesOpen(st, other.erased);
    LoadedAgrees(map[], st, ErasedNames(st, other.erased));
    RevertCreatedAgrees(loaded, st, other.created);
    var r := RevertDoc(EMPTY_DOC, st, other);
    assert r.erased == Missing(st, other.created);
    forall e | e in r.erased
      ensures !KeyExists(st, e) && e !in r.created
    {
      assert OpenKey(st, e).None?;
    }
    AgreesMatches(st, r);
  }
}
