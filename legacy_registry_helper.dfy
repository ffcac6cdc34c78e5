/**
 * The older RegistryHelper. Its root table, OpenKey, KeyExists and CheckValueInDB are the
 * same as the current helper's and are taken from there; what differs is IsTODO, which
 * reads a file and reports whether anything in it still needs applying.
 */
module LegacyRegistryHelper {
  import opened Wrappers
  import opened LiveRegistry
  import opened Directives
  import opened RegistryHelper

  /**
   * IsTODO(file), over the directives read from the file: the same short-circuit loop as
   * CheckSuitable, answering its negation.
   */
  method IsTodo(st: Store, ds: seq<Directive>) returns (r: Result<bool>)
    ensures Suitability(st, ds).Err? ==> r == Suitability(st, ds)
    ensures Suitability(st, ds).Ok? ==> r == Ok(!Suitability(st, ds).value)
  {
    var expected := true;
    var i := 0;
    while expected && i < |ds|
      invariant 0 <= i <= |ds|
      invariant Suitability(st, ds) == if expected then Suitability(st, ds[i..]) else Ok(false)
    {
      assert ds[i..][1..] == ds[i + 1..];
      var holds := DirectiveHolds(st, ds[i]);
      if holds.Err? {
        return Err(holds.error);
      }
      expected := holds.value;
      i := i + 1;
    }
    return Ok(!expected);
  }

  /** Something is left to do exactly when some directive is not in effect (and none throws). */
  lemma TodoIffSomeDirectivePending(st: Store, ds: seq<Directive>)
    requires Suitability(st, ds).Ok?
    ensures !Suitability(st, ds).value <==> exists i :: 0 <= i < |ds| && DirectiveHolds(st, ds[i]) != Ok(true)
  {
    SuitableIffAllHold(st, ds);
  }
}
