/** InternalUtils: deconstructing a key/value pair, and adding all pairs of one dictionary to another. */
module InternalUtils {
  import opened Wrappers

  /** KeyValuePair.Deconstruct: the pair's key and value, unchanged. */
  method Deconstruct<K, V>(pair: (K, V)) returns (key: K, value: V)
    ensures (key, value) == pair
  {
    key := pair.0;
    value := pair.1;
  }

  /** A dictionary updated in place. */
  class Dictionary<K(==), V> {
    var entries: map<K, V>

    constructor ()
      ensures entries == map[]
    {
      entries := map[];
    }

    /** IDictionary.Add: a key already present throws ArgumentException and changes nothing. */
    method Add(key: K, value: V) returns (failure: Option<Failure>)
      modifies this
      ensures key in old(entries) ==> failure == Some(ArgumentException) && entries == old(entries)
      ensures key !in old(entries) ==> failure.None? && entries == old(entries)[key := value]
    {
      if key in entries {
        return Some(ArgumentException);
      }
      entries := entries[key := value];
      return None;
    }
  }

  /**
   * What AddAll(first, second) leaves in first, and whether it threw: the pairs of second
   * are added in enumeration order, and the first key already present stops it with
   * ArgumentException, keeping the pairs added before.
   */
  function AddAllSpec<K(==), V>(first: map<K, V>, second: seq<(K, V)>): (map<K, V>, Option<Failure>)
    decreases |second|
  {
    if second == [] then (first, None)
    else if second[0].0 in first then (first, Some(ArgumentException))
    else AddAllSpec(first[second[0].0 := second[0].1], second[1..])
  }

  /** The keys of an enumeration, each once. */
  predicate DistinctKeys<K(==), V>(second: seq<(K, V)>) {
    forall i, j :: 0 <= i < j < |second| ==> second[i].0 != second[j].0
  }

  /** Add never overwrites: every entry of first survives AddAll, with its value. */
  lemma {:induction false} AddAllKeepsFirst<K, V>(first: map<K, V>, second: seq<(K, V)>)
    ensures forall k :: k in first ==> k in AddAllSpec(first, second).0 && AddAllSpec(first, second).0[k] == first[k]
    decreases |second|
  {
    if second != [] && second[0].0 !in first {
      AddAllKeepsFirst(first[second[0].0 := second[0].1], second[1..]);
    }
  }

  /**
   * When no key of second is in first, AddAll completes: every pair of second is in the
   * result, and every other entry of first is untouched.
   */
  lemma {:induction false} AddAllDisjoint<K, V>(first: map<K, V>, second: seq<(K, V)>)
    requires DistinctKeys(second)
    requires forall i :: 0 <= i < |second| ==> second[i].0 !in first
    ensures AddAllSpec(first, second).1.None?
    ensures forall i :: 0 <= i < |second| ==> second[i].0 in AddAllSpec(first, second).0 && AddAllSpec(first, second).0[second[i].0] == second[i].1
    ensures forall k :: k in first ==> k in AddAllSpec(first, second).0 && AddAllSpec(first, second).0[k] == first[k]
    ensures forall k :: k in AddAllSpec(first, second).0 ==> k in first || exists i :: 0 <= i < |second| && second[i].0 == k
    decreases |second|
  {
    if second != [] {
      var next := first[second[0].0 := second[0].1];
      var tail := second[1..];
      assert forall i :: 0 <= i < |tail| ==> tail[i] == second[i + 1];
      AddAllDisjoint(next, tail);
      var r := AddAllSpec(next, tail).0;
      assert AddAllSpec(first, second).0 == r;
      forall k | k in r && k !in first
        ensures exists i :: 0 <= i < |second| && second[i].0 == k
      {
        if k != second[0].0 {
          assert k !in next;
          var i :| 0 <= i < |tail| && tail[i].0 == k;
          assert second[i + 1].0 == k;
        }
      }
    }
  }

  /**
   * A key of second already in first makes AddAll throw at that pair: the pairs before it
   * stay inserted, the clashing entry keeps its old value.
   */
  lemma {:induction false} AddAllClash<K, V>(first: map<K, V>, second: seq<(K, V)>, j: nat)
    requires DistinctKeys(second)
    requires j < |second| && second[j].0 in first
    requires forall i :: 0 <= i < j ==> second[i].0 !in first
    ensures AddAllSpec(first, second).1 == Some(ArgumentException)
    ensures AddAllSpec(first, second).0 == AddAllSpec(first, second[..j]).0
    ensures second[j].0 in AddAllSpec(first, second).0 && AddAllSpec(first, second).0[second[j].0] == first[second[j].0]
    decreases j
  {
    AddAllKeepsFirst(first, second);
    if j > 0 {
      var next := first[second[0].0 := second[0].1];
      var tail := second[1..];
      assert forall i :: 0 <= i < |tail| ==> tail[i] == second[i + 1];
      assert tail[j - 1] == second[j];
      AddAllClash(next, tail, j - 1);
      assert second[..j][1..] == tail[..j - 1];
      assert next[second[j].0] == first[second[j].0];
    }
  }

  /**
   * AddAll(first, second), with second's pairs in its enumeration order: each pair is
   * passed to first.Add until one throws.
   */
  method AddAll<K(==), V>(first: Dictionary<K, V>, second: seq<(K, V)>) returns (failure: Option<Failure>)
    modifies first
    ensures (first.entries, failure) == AddAllSpec(old(first.entries), second)
  {
    var i := 0;
    while i < |second|
      invariant 0 <= i <= |second|
      invariant AddAllSpec(old(first.entries), second) == AddAllSpec(first.entries, second[i..])
    {
      assert second[i..][1..] == second[i + 1..];
      failure := first.Add(second[i].0, second[i].1);
      if failure.Some? {
        return;
      }
      i := i + 1;
    }
    return None;
  }
}
