/**
 * What the .reg reader hands to its callers, one entry per step: a key (set or delete)
 * or a value (set or delete) under the current key.
 */
module Directives {
  import opened RegistryValues

  /**
   * One step of the reader: IsKey and IsDelete select the kind of directive; Key is the
   * key path (for a value, the key it belongs to), Name, Value and Kind describe a value.
   */
  datatype Directive = Directive(
    isKey: bool,
    isDelete: bool,
    key: string,
    name: string,
    value: Payload,
    kind: RegistryValueKind)
}
