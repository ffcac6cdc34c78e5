/**
 * RegDocument: a patch to the registry. Erased holds key paths whose trees are to be
 * deleted; Created maps key paths to the values to set (the tombstone deleting a value).
 */
module RegDocuments {
  import opened Wrappers
  import opened Strings
  import opened RegistryValues
  import opened LiveRegistry
  import opened Directives
  import opened RegistryHelper
  import opened RegDocumentModel
  import opened RegText
  import opened RegDocumentText
  import RegWriter

  class RegDocument {
    var erased: set<string>
    var created: CreatedMap

    /** The document as a value: the Erased set and the Created map. */
    function Contents(): (d: Doc)
      reads this
      ensures d.erased == erased && d.created == created
    {
      Doc(erased, created)
    }

    constructor ()
      ensures erased == {} && created == map[]
    {
      erased := {};
      created := map[];
    }

    /**
     * DeleteKey(name): refused for a root path; otherwise records name and removes from
     * Created every key at or below it.
     */
    method DeleteKey(name: string) returns (failure: Option<Failure>)
      modifies this
      ensures IsRootPath(name) ==> failure == Some(ArgumentException) && Contents() == old(Contents())
      ensures !IsRootPath(name) ==> failure.None? && erased == old(erased) + {name} && created == Pruned(old(created), name)
    {
      var s := IndexOf(name, '\\') + 1;
      if s == 0 || s == |name| {
        return Some(ArgumentException);
      }
      erased := erased + {name};

      var removed: set<string> := {};
      var keys := created.Keys;
      while keys != {}
        invariant keys <= created.Keys && created == old(created) && erased == old(erased) + {name}
        invariant removed == set k | k in created.Keys - keys && Under(k, name)
        decreases keys
      {
        var existing :| existing in keys;
        if StartsWith(existing, name) {
          if |existing| == |name| || existing[|name|] == '\\' {
            removed := removed + {existing};
          }
        }
        keys := keys - {existing};
      }

      var pending := removed;
      while pending != {}
        invariant pending <= removed && erased == old(erased) + {name}
        invariant created == old(created) - (removed - pending)
        decreases pending
      {
        var v :| v in pending;
        created := created - {v};
        pending := pending - {v};
      }
      assert created == Pruned(old(created), name);
      return None;
    }

    /** DeleteOldTree(name): records name, without touching Created. */
    method DeleteOldTree(name: string)
      modifies this
      ensures erased == old(erased) + {name} && created == old(created)
    {
      erased := erased + {name};
    }

    /** CreateKey(name): the dictionary of name, added empty when there is none. */
    method CreateKey(name: string) returns (dict: ValueDict)
      modifies this
      ensures erased == old(erased) && created == WithKey(old(created), name)
      ensures dict == created[name]
    {
      if name in created {
        return created[name];
      }
      created := created[name := map[]];
      return map[];
    }

    /**
     * Load(content), over the directives the reader yields: replays them in order; the
     * first that throws stops the replay, leaving what was done before.
     */
    method Load(ds: seq<Directive>) returns (failure: Option<Failure>)
      modifies this
      ensures Contents() == LoadAll(LoadState(old(Contents()), NoKey), ds).0.doc
      ensures failure == LoadAll(LoadState(old(Contents()), NoKey), ds).1
    {
      var ctx: Context := NoKey;
      var i := 0;
      while i < |ds|
        invariant 0 <= i <= |ds|
        invariant Consistent(LoadState(Contents(), ctx))
        invariant LoadAll(LoadState(old(Contents()), NoKey), ds) == LoadAll(LoadState(Contents(), ctx), ds[i..])
      {
        var d := ds[i];
        assert ds[i..][0] == d && ds[i..][1..] == ds[i + 1..];
        if d.isKey && !d.isDelete {
          var dict := CreateKey(d.key);
          ctx := At(d.key);
        } else if d.isKey {
          var f := DeleteKey(d.key);
          if f.Some? {
            return f;
          }
          if ctx.At? && Under(ctx.key, d.key) {
            ctx := Orphan;
          }
        } else {
          match ctx
          case NoKey =>
            return Some(NullReferenceException);
          case Orphan =>
          case At(k) =>
            created := created[k := created[k][d.name := Entry(d)]];
        }
        i := i + 1;
      }
      return None;
    }

    /**
     * LoadRegistry(key), for the live key node opened under name: the subtrees first,
     * then the key's own dictionary, overridden by its live values.
     */
    method LoadRegistry(st: Store, name: string, node: LiveKey)
      requires WfKey(node)
      requires OpenKey(st, name).Some? && OpenKey(st, name).value.key == node
      modifies this
      ensures erased == old(erased)
      ensures created == Loaded(old(created), st, Names(name, node))
      decreases node
    {
      ghost var done: set<string> := {};
      var children := node.subKeys.Keys;
      while children != {}
        invariant children <= node.subKeys.Keys && done == node.subKeys.Keys - children
        invariant erased == old(erased)
        invariant created == Loaded(old(created), st, ChildNames(name, node, done))
        decreases children
      {
        var c :| c in children;
        OpenChild(st, name, c);
        ghost var before := created;
        LoadRegistry(st, name + "\\" + c, node.subKeys[c]);
        LoadedUnion(old(created), st, ChildNames(name, node, done), Names(name + "\\" + c, node.subKeys[c]));
        ChildNamesAdd(name, node, done, c);
        VisitOne(node.subKeys.Keys, children, c);
        done := done + {c};
        children := children - {c};
      }

      ghost var loaded := created;
      var dict := CreateKey(name);
      PutAll(name, node.values);
      WithKeyPut(loaded, name, node.values);
      assert LiveValues(st, name) == node.values;
      LoadedOne(loaded, st, name);
      assert created == Loaded(loaded, st, {name});
      assert done == node.subKeys.Keys;
      LoadedUnion(old(created), st, ChildNames(name, node, done), {name});
      ChildNamesAll(name, node);
    }

    /**
     * Merge(other): other's erased paths are added, and each of its dictionaries is
     * copied over this document's, name by name.
     */
    method Merge(other: RegDocument)
      modifies this
      ensures Contents() == MergeDocs(old(Contents()), old(other.Contents()))
    {
      var otherErased, otherCreated := other.erased, other.created;

      var items := otherErased;
      while items != {}
        invariant items <= otherErased
        invariant erased == old(erased) + (otherErased - items) && created == old(created)
        decreases items
      {
        var item :| item in items;
        erased := erased + {item};
        items := items - {item};
      }

      ghost var done: set<string> := {};
      var keys := otherCreated.Keys;
      while keys != {}
        invariant keys <= otherCreated.Keys && done == otherCreated.Keys - keys
        invariant erased == old(erased) + otherErased
        invariant created == MergeCreated(old(created), Restrict(otherCreated, done))
        decreases keys
      {
        var k :| k in keys;
        ghost var before := created;
        var dict := CreateKey(k);
        PutAll(k, otherCreated[k]);
        WithKeyPut(before, k, otherCreated[k]);
        MergeCreatedAdd(old(created), otherCreated, done, k);
        VisitOne(otherCreated.Keys, keys, k);
        done := done + {k};
        keys := keys - {k};
      }
      assert Restrict(otherCreated, done) == otherCreated;
    }

    /**
     * Revert(other): builds the patch that undoes other against the live registry. The
     * live trees of other's erased paths are loaded; each created key of other is then
     * recorded as deleted when it is missing, and otherwise with the live values of the
     * names whose documented value differs.
     */
    method Revert(st: Store, other: RegDocument)
      requires other != this
      requires Wf(st)
      requires forall n | n in other.erased :: OpenKey(st, n).Some?
      modifies this
      ensures Contents() == RevertDoc(old(Contents()), st, other.Contents())
    {
      LoadTrees(st, other.erased);
      RevertKeys(st, other.created);
    }

    /** The first loop of Revert: the live tree of every erased path is loaded. */
    method LoadTrees(st: Store, names: set<string>)
      requires Wf(st)
      requires forall n | n in names :: OpenKey(st, n).Some?
      modifies this
      ensures erased == old(erased)
      ensures created == Loaded(old(created), st, ErasedNames(st, names))
    {
      ghost var done: set<string> := {};
      var pending := names;
      while pending != {}
        invariant pending <= names && done == names - pending
        invariant erased == old(erased)
        invariant created == Loaded(old(created), st, ErasedNames(st, done))
        decreases pending
      {
        var name :| name in pending;
        var key := OpenKey(st, name);
        OpenedWf(st, name);
        ReopenByName(st, name);
        LoadRegistry(st, key.value.name, key.value.key);
        LoadedUnion(old(created), st, ErasedNames(st, done), Names(key.value.name, key.value.key));
        ErasedNamesAdd(st, done, name);
        VisitOne(names, pending, name);
        done := done + {name};
        pending := pending - {name};
      }
      assert done == names;
    }

    /**
     * The second loop of Revert: a created key that is missing live is recorded as
     * deleted; one that opens gets the live values of the names whose value differs.
     */
    method RevertKeys(st: Store, otherCreated: CreatedMap)
      modifies this
      ensures erased == old(erased) + Missing(st, otherCreated)
      ensures created == RevertCreated(old(created), st, otherCreated)
    {
      ghost var visited: set<string> := {};
      var keys := otherCreated.Keys;
      assert Restrict(otherCreated, visited) == map[];
      assert RevertCreated(old(created), st, map[]) == old(created);
      while keys != {}
        invariant keys <= otherCreated.Keys && visited == otherCreated.Keys - keys
        invariant erased == old(erased) + Missing(st, Restrict(otherCreated, visited))
        invariant created == RevertCreated(old(created), st, Restrict(otherCreated, visited))
        decreases keys
      {
        var name :| name in keys;
        var dict := otherCreated[name];
        var key := OpenKey(st, name);
        RevertCreatedAdd(old(created), st, otherCreated, visited, name);
        MissingAdd(st, otherCreated, visited, name);
        if key.None? {
          DeleteOldTree(name);
          SetUnionAssociative(old(erased), Missing(st, Restrict(otherCreated, visited)), {name});
        } else {
          ghost var before := created;
          var valueDict := CreateKey(name);
          RevertValues(name, dict, key.value.key);
          WithKeyPut(before, name, Differing(dict, key.value.key));
        }
        VisitOne(otherCreated.Keys, keys, name);
        visited := visited + {name};
        keys := keys - {name};
      }
      assert Restrict(otherCreated, visited) == otherCreated;
    }

    /**
     * The inner loop of LoadRegistry and of Merge: every entry of d is set in the
     * dictionary of name.
     */
    method PutAll(name: string, d: ValueDict)
      requires name in created
      modifies this
      ensures erased == old(erased)
      ensures created == old(created)[name := old(created)[name] + d]
    {
      ghost var copied: set<string> := {};
      var names := d.Keys;
      assert Restrict(d, copied) == map[];
      assert old(created)[name] + map[] == old(created)[name];
      while names != {}
        invariant names <= d.Keys && copied == d.Keys - names
        invariant erased == old(erased)
        invariant created == old(created)[name := old(created)[name] + Restrict(d, copied)]
        decreases names
      {
        var n :| n in names;
        RestrictAdd(d, copied, n);
        UnionUpdate(old(created)[name], Restrict(d, copied), n, d[n]);
        created := created[name := created[name][n := d[n]]];
        VisitOne(d.Keys, names, n);
        copied := copied + {n};
        names := names - {n};
      }
      assert Restrict(d, copied) == d;
    }

    /** The inner loop of Revert: the values of dict that differ from the live key's are set to the live ones. */
    method RevertValues(name: string, dict: ValueDict, live: LiveKey)
      requires name in created
      modifies this
      ensures erased == old(erased)
      ensures created == old(created)[name := old(created)[name] + Differing(dict, live)]
    {
      ghost var compared: set<string> := {};
      var valueNames := dict.Keys;
      assert Restrict(dict, compared) == map[];
      assert old(created)[name] + map[] == old(created)[name];
      while valueNames != {}
        invariant valueNames <= dict.Keys && compared == dict.Keys - valueNames
        invariant erased == old(erased)
        invariant created == old(created)[name := old(created)[name] + Differing(Restrict(dict, compared), live)]
        decreases valueNames
      {
        var vn :| vn in valueNames;
        var actual := From(live, vn);
        DifferingAdd(dict, compared, vn, live);
        if actual != dict[vn] {
          UnionUpdate(old(created)[name], Differing(Restrict(dict, compared), live), vn, actual);
          created := created[name := created[name][vn := actual]];
        }
        VisitOne(dict.Keys, valueNames, vn);
        compared := compared + {vn};
        valueNames := valueNames - {vn};
      }
      assert Restrict(dict, compared) == dict;
    }

    /** CreateRestorePoint(): a new document reverting this one, which is already in effect. */
    method CreateRestorePoint(st: Store) returns (restoration: RegDocument)
      requires Wf(st)
      requires forall n | n in erased :: OpenKey(st, n).Some?
      ensures fresh(restoration)
      ensures restoration.Contents() == RevertDoc(EMPTY_DOC, st, Contents())
      ensures Suitable(st, restoration.Contents())
    {
      restoration := new RegDocument();
      restoration.Revert(st, this);
      RestorePointSuitable(st, Contents());
    }

    /**
     * IsSuitable(): whether the document is already in effect. Stops at the first created
     * key that is missing or differs, then checks that the erased paths not created are
     * absent.
     */
    method IsSuitable(st: Store) returns (r: bool)
      ensures r == Suitable(st, Contents())
    {
      var erasedLeft := erased;
      var keys := created.Keys;
      while keys != {}
        invariant keys <= created.Keys
        invariant erasedLeft == erased - (created.Keys - keys)
        invariant forall k | k in created.Keys - keys :: KeyMatches(st, Contents(), k)
        decreases keys
      {
        var k :| k in keys;
        var key := OpenKey(st, k);
        if key.None? {
          return false;
        }
        var d := created[k];
        var names := d.Keys;
        while names != {}
          invariant names <= d.Keys
          invariant forall n | n in d.Keys - names :: d[n] == From(key.value.key, n)
          decreases names
        {
          var n :| n in names;
          if d[n] != From(key.value.key, n) {
            return false;
          }
          names := names - {n};
        }
        var removed := k in erasedLeft;
        erasedLeft := erasedLeft - {k};
        if removed && |key.value.key.values| != |d| {
          return false;
        }
        keys := keys - {k};
      }

      var rest := erasedLeft;
      while rest != {}
        invariant rest <= erasedLeft
        invariant forall e | e in erasedLeft - rest :: !KeyExists(st, e)
        decreases rest
      {
        var e :| e in rest;
        if KeyExists(st, e) {
          return false;
        }
        rest := rest - {e};
      }
      return true;
    }

    /**
     * WriteTo(stream): the version line, a deletion header per erased path, then each
     * created key's header and values, a tombstone as "name=-". An exception from a value
     * ends the output there; what was written before it stays written.
     */
    method WriteTo(erasedOrder: seq<string>, keyOrder: seq<string>, nameOrder: map<string, seq<string>>) returns (out: Emitted)
      requires Orders(Contents(), erasedOrder, keyOrder, nameOrder)
      ensures out == DocumentText(Contents(), erasedOrder, keyOrder, nameOrder)
    {
      var writer := new RegWriter.RegFileWriter();
      WriteErased(writer, erasedOrder);
      var failure := WriteKeys(writer, created, keyOrder, nameOrder);
      return Emitted(writer.text, failure);
    }
  }

  /** The first loop of WriteTo: a deletion header per erased path. */
  method WriteErased(writer: RegWriter.RegFileWriter, order: seq<string>)
    modifies writer
    ensures writer.text == old(writer.text) + ErasedText(order)
  {
    var i := 0;
    while i < |order|
      invariant 0 <= i <= |order|
      invariant writer.text == old(writer.text) + ErasedText(order[..i])
    {
      writer.DeleteKey(order[i]);
      assert order[..i + 1][..i] == order[..i];
      Append3(old(writer.text), ErasedText(order[..i]), DeleteKeyText(order[i]));
      i := i + 1;
    }
    assert order[..|order|] == order;
  }

  /** The second loop of WriteTo: each key's header and values, until a value throws. */
  method WriteKeys(writer: RegWriter.RegFileWriter, created: CreatedMap, keyOrder: seq<string>, nameOrder: map<string, seq<string>>)
    returns (failure: Option<Failure>)
    requires Listed(created, keyOrder, nameOrder)
    modifies writer
    ensures writer.text == old(writer.text) + KeysText(created, keyOrder, nameOrder).text
    ensures failure == KeysText(created, keyOrder, nameOrder).failure
  {
    var j := 0;
    while j < |keyOrder|
      invariant 0 <= j <= |keyOrder|
      invariant KeysText(created, keyOrder[..j], nameOrder).failure.None?
      invariant writer.text == old(writer.text) + KeysText(created, keyOrder[..j], nameOrder).text
    {
      var key := keyOrder[j];
      ghost var done := KeysText(created, keyOrder[..j], nameOrder).text;
      writer.SetKey(key);
      failure := WriteValues(writer, created[key], nameOrder[key]);
      KeysTextStep(created, keyOrder, nameOrder, j);
      Append3(old(writer.text), done, SetKeyText(key));
      Append3(old(writer.text), done + SetKeyText(key), ValuesText(created[key], nameOrder[key]).text);
      if failure.Some? {
        KeysTextCut(created, keyOrder, nameOrder, j + 1);
        return;
      }
      j := j + 1;
    }
    assert keyOrder[..|keyOrder|] == keyOrder;
    return None;
  }

  /** The inner loop of WriteTo: each value of one key, until one throws. */
  method WriteValues(writer: RegWriter.RegFileWriter, values: ValueDict, names: seq<string>) returns (failure: Option<Failure>)
    requires forall i :: 0 <= i < |names| ==> names[i] in values
    modifies writer
    ensures writer.text == old(writer.text) + ValuesText(values, names).text
    ensures failure == ValuesText(values, names).failure
  {
    ghost var es := ValueOutputs(values, names);
    var m := 0;
    while m < |names|
      invariant 0 <= m <= |names|
      invariant Concat(es[..m]).failure.None?
      invariant writer.text == old(writer.text) + Concat(es[..m]).text
    {
      failure := WriteValue(writer, names[m], values[names[m]]);
      ConcatStep(es, m);
      Append3(old(writer.text), Concat(es[..m]).text, es[m].text);
      if failure.Some? {
        ConcatCut(es, m + 1);
        return;
      }
      m := m + 1;
    }
    assert es[..|names|] == es;
    return None;
  }

  /** One value of WriteTo's inner loop: a tombstone through DeleteValue, any other through SetValue. */
  method WriteValue(writer: RegWriter.RegFileWriter, name: string, item: RegistryValue) returns (failure: Option<Failure>)
    modifies writer
    ensures writer.text == old(writer.text) + ValueText(name, item).text
    ensures failure == ValueText(name, item).failure
  {
    if item.IsDelete() {
      writer.DeleteValue(name);
      failure := None;
    } else {
      failure := writer.SetValue(name, item.value, item.kind);
    }
  }
}
