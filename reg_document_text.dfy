/**
 * The text RegDocument.WriteTo produces: the version line, one deletion header per erased
 * path, then every created key's header followed by its values. Sets and dictionaries
 * are enumerated in an order the runtime picks; here the orders are given as sequences.
 */
module RegDocumentText {
  import opened Wrappers
  import opened Strings
  import opened RegistryValues
  import opened RegText
  import opened RegWriter
  import opened RegDocumentModel

  /** order lists every element of s exactly once. */
  predicate Enumerates(order: seq<string>, s: set<string>) {
    (forall i, j :: 0 <= i < j < |order| ==> order[i] != order[j])
    && (forall i :: 0 <= i < |order| ==> order[i] in s)
    && (forall x | x in s :: x in order)
  }

  /** Orders for a whole document: its erased paths, its keys, and each key's value names. */
  predicate Orders(doc: Doc, erasedOrder: seq<string>, keyOrder: seq<string>, nameOrder: map<string, seq<string>>) {
    Enumerates(erasedOrder, doc.erased)
    && Enumerates(keyOrder, doc.created.Keys)
    && forall k | k in doc.created :: k in nameOrder && Enumerates(nameOrder[k], doc.created[k].Keys)
  }

  /** The deletion headers of the paths in order. */
  function ErasedText(order: seq<string>): string
    decreases |order|
  {
    if order == [] then [] else ErasedText(order[..|order| - 1]) + DeleteKeyText(order[|order| - 1])
  }

  /** A tombstone is written as "name=-"; any other value through SetValue. */
  function ValueText(name: string, v: RegistryValue): (e: Emitted)
    ensures v.IsDelete() || ValidPayload(v) ==> e.failure.None?
    ensures e.failure.None? ==> |e.text| >= 2 && e.text[|e.text| - 2..] == CRLF
  {
    if v.IsDelete() then Emitted(DeleteValueOutput(name), None)
    else SetValueOutput(name, v.value, v.kind)
  }

  /** Pieces of output written one after another, up to the first that throws. */
  function Concat(es: seq<Emitted>): Emitted
    decreases |es|
  {
    if es == [] then Emitted([], None)
    else
      var prev := Concat(es[..|es| - 1]);
      if prev.failure.Some? then prev
      else Emitted(prev.text + es[|es| - 1].text, es[|es| - 1].failure)
  }

  /** What each value of dict would write, in the order names gives. */
  function ValueOutputs(dict: ValueDict, names: seq<string>): (es: seq<Emitted>)
    requires forall i :: 0 <= i < |names| ==> names[i] in dict
    ensures |es| == |names|
    ensures forall i :: 0 <= i < |names| ==> es[i] == ValueText(names[i], dict[names[i]])
  {
    seq(|names|, i requires 0 <= i < |names| => ValueText(names[i], dict[names[i]]))
  }

  /** The values of dict, in the order names gives, up to the first that throws. */
  function ValuesText(dict: ValueDict, names: seq<string>): Emitted
    requires forall i :: 0 <= i < |names| ==> names[i] in dict
  {
    Concat(ValueOutputs(dict, names))
  }

  /** One more key written after the first j, none of which threw. */
  lemma KeysTextStep(created: CreatedMap, keys: seq<string>, nameOrder: map<string, seq<string>>, j: nat)
    requires j < |keys| && Listed(created, keys, nameOrder)
    requires KeysText(created, keys[..j], nameOrder).failure.None?
    ensures var v := ValuesText(created[keys[j]], nameOrder[keys[j]]);
      KeysText(created, keys[..j + 1], nameOrder) ==
        Emitted(KeysText(created, keys[..j], nameOrder).text + SetKeyText(keys[j]) + v.text, v.failure)
  {
    assert keys[..j + 1][..j] == keys[..j];
  }

  predicate Listed(created: CreatedMap, keys: seq<string>, nameOrder: map<string, seq<string>>) {
    forall i :: 0 <= i < |keys| ==>
      keys[i] in created && keys[i] in nameOrder
      && forall j :: 0 <= j < |nameOrder[keys[i]]| ==> nameOrder[keys[i]][j] in created[keys[i]]
  }

  /** Each key's header and values, in order, up to the first value that throws. */
  function KeysText(created: CreatedMap, keys: seq<string>, nameOrder: map<string, seq<string>>): (e: Emitted)
    requires Listed(created, keys, nameOrder)
    ensures e.failure.None? ==>
      forall i :: 0 <= i < |keys| ==> ValuesText(created[keys[i]], nameOrder[keys[i]]).failure.None?
    decreases |keys|
  {
    if keys == [] then Emitted([], None)
    else
      var prev := KeysText(created, keys[..|keys| - 1], nameOrder);
      if prev.failure.Some? then prev
      else
        var k := keys[|keys| - 1];
        var v := ValuesText(created[k], nameOrder[k]);
        assert forall i :: 0 <= i < |keys| - 1 ==> keys[..|keys| - 1][i] == keys[i];
        Emitted(prev.text + SetKeyText(k) + v.text, v.failure)
  }

  lemma OrdersListed(doc: Doc, erasedOrder: seq<string>, keyOrder: seq<string>, nameOrder: map<string, seq<string>>)
    requires Orders(doc, erasedOrder, keyOrder, nameOrder)
    ensures Listed(doc.created, keyOrder, nameOrder)
  {
  }

  /** The whole output of WriteTo, and the exception that cut it short, if any. */
  function DocumentText(doc: Doc, erasedOrder: seq<string>, keyOrder: seq<string>, nameOrder: map<string, seq<string>>): (e: Emitted)
    requires Listed(doc.created, keyOrder, nameOrder)
    ensures var head := VER_LINE + CRLF + ErasedText(erasedOrder);
      |e.text| >= |head| && e.text[..|head|] == head
  {
    var keys := KeysText(doc.created, keyOrder, nameOrder);
    Emitted(VER_LINE + CRLF + ErasedText(erasedOrder) + keys.text, keys.failure)
  }

  /** The deletion headers of two runs of paths are those of each, one after the other. */
  lemma {:induction false} ErasedTextAppend(a: seq<string>, b: seq<string>)
    ensures ErasedText(a + b) == ErasedText(a) + ErasedText(b)
    decreases |b|
  {
    if b == [] {
      assert a + b == a;
    } else {
      var b' := b[..|b| - 1];
      assert (a + b)[..|a + b| - 1] == a + b';
      assert (a + b)[|a + b| - 1] == b[|b| - 1];
      ErasedTextAppend(a, b');
      Append3(ErasedText(a), ErasedText(b'), DeleteKeyText(b[|b| - 1]));
    }
  }

  /** Once a piece has thrown, nothing more is written. */
  lemma {:induction false} ConcatStops(es: seq<Emitted>, more: seq<Emitted>)
    requires Concat(es).failure.Some?
    ensures Concat(es + more) == Concat(es)
    decreases |more|
  {
    if more == [] {
      assert es + more == es;
    } else {
      var more' := more[..|more| - 1];
      assert (es + more)[..|es + more| - 1] == es + more';
      ConcatStops(es, more');
    }
  }

  /** One more piece written after the first m, none of which threw. */
  lemma ConcatStep(es: seq<Emitted>, m: nat)
    requires m < |es| && Concat(es[..m]).failure.None?
    ensures Concat(es[..m + 1]) == Emitted(Concat(es[..m]).text + es[m].text, es[m].failure)
  {
    assert es[..m + 1][..m] == es[..m];
  }

  /** When the first m pieces threw, the whole output is theirs. */
  lemma ConcatCut(es: seq<Emitted>, m: nat)
    requires m <= |es| && Concat(es[..m]).failure.Some?
    ensures Concat(es) == Concat(es[..m])
  {
    ConcatStops(es[..m], es[m..]);
    TakeDrop(es, m);
  }

  /** Once a key's values have thrown, no further key is written. */
  lemma {:induction false} KeysTextStops(created: CreatedMap, keys: seq<string>, more: seq<string>, nameOrder: map<string, seq<string>>)
    requires Listed(created, keys + more, nameOrder)
    requires Listed(created, keys, nameOrder)
    requires KeysText(created, keys, nameOrder).failure.Some?
    ensures KeysText(created, keys + more, nameOrder) == KeysText(created, keys, nameOrder)
    decreases |more|
  {
    if more == [] {
      assert keys + more == keys;
    } else {
      var more' := more[..|more| - 1];
      assert (keys + more)[..|keys + more| - 1] == keys + more';
      KeysTextStops(created, keys, more', nameOrder);
    }
  }

  /** When the first m keys threw, the whole output is theirs. */
  lemma KeysTextCut(created: CreatedMap, keys: seq<string>, nameOrder: map<string, seq<string>>, m: nat)
    requires m <= |keys| && Listed(created, keys, nameOrder)
    requires KeysText(created, keys[..m], nameOrder).failure.Some?
    ensures KeysText(created, keys, nameOrder) == KeysText(created, keys[..m], nameOrder)
  {
    TakeDrop(keys, m);
    KeysTextStops(created, keys[..m], keys[m..], nameOrder);
  }

  /** The output throws exactly when one of its pieces does. */
  lemma {:induction false} ConcatFails(es: seq<Emitted>)
    ensures Concat(es).failure.Some? <==> exists i :: 0 <= i < |es| && es[i].failure.Some?
    decreases |es|
  {
    if es != [] {
      var init := es[..|es| - 1];
      ConcatFails(init);
      if Concat(init).failure.Some? {
        var i :| 0 <= i < |init| && init[i].failure.Some?;
        assert es[i] == init[i];
      } else {
        forall i | 0 <= i < |es| - 1
          ensures es[i].failure.None?
        {
          assert es[i] == init[i];
        }
      }
    }
  }

  /** Writing the values throws exactly when one of them cannot be written. */
  lemma ValuesTextFails(dict: ValueDict, names: seq<string>)
    requires forall i :: 0 <= i < |names| ==> names[i] in dict
    ensures ValuesText(dict, names).failure.Some? <==>
      exists i :: 0 <= i < |names| && ValueText(names[i], dict[names[i]]).failure.Some?
  {
    var es := ValueOutputs(dict, names);
    ConcatFails(es);
    if ValuesText(dict, names).failure.Some? {
      var i :| 0 <= i < |es| && es[i].failure.Some?;
      assert ValueText(names[i], dict[names[i]]).failure.Some?;
    }
  }

  /** Every value is written when each is a tombstone or well-formed for its kind. */
  lemma ValuesWrittenCleanly(dict: ValueDict, names: seq<string>)
    requires forall i :: 0 <= i < |names| ==> names[i] in dict
    requires forall n | n in dict :: dict[n].IsDelete() || ValidPayload(dict[n])
    ensures ValuesText(dict, names).failure.None?
  {
    var es := ValueOutputs(dict, names);
    forall i | 0 <= i < |names|
      ensures es[i].failure.None?
    {
      if !dict[names[i]].IsDelete() {
        ValidValueWritten(names[i], dict[names[i]]);
      }
    }
    ConcatFails(es);
  }

  /**
   * A document whose every value is a tombstone or well-formed for its kind is written
   * completely, whatever the enumeration orders.
   */
  lemma {:induction false} DocumentWrittenCleanly(created: CreatedMap, keys: seq<string>, nameOrder: map<string, seq<string>>)
    requires Listed(created, keys, nameOrder)
    requires forall k, n | k in created && n in created[k] :: created[k][n].IsDelete() || ValidPayload(created[k][n])
    ensures KeysText(created, keys, nameOrder).failure.None?
    decreases |keys|
  {
    if keys != [] {
      var k := keys[|keys| - 1];
      DocumentWrittenCleanly(created, keys[..|keys| - 1], nameOrder);
      ValuesWrittenCleanly(created[k], nameOrder[k]);
    }
  }
}
