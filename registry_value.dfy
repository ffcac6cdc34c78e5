/**
 * The value tag of a patch: a (payload, kind) pair, where kind Unknown is the tombstone
 * meaning "delete this value name".
 */
module RegistryValues {
  import opened Numerics

  /**
   * Microsoft.Win32.RegistryValueKind. Its member None is called NoneKind here, so that
   * None stays the empty Option.
   */
  datatype RegistryValueKind = Unknown | String | ExpandString | Binary | DWord | MultiString | QWord | NoneKind

  /**
   * The object held by a value. Only the runtime types the registry itself hands out are
   * represented: null, string, int, long, byte[] and string[].
   */
  datatype Payload =
    | Null
    | Str(s: string)
    | Int(i: int32)
    | Long(l: int64)
    | Bytes(bytes: seq<uint8>)
    | Strings(strings: seq<string>)

  /** The positional record (Value, Kind); equality is component-wise. */
  datatype RegistryValue = RegistryValue(value: Payload, kind: RegistryValueKind) {
    /** The tombstone test: a value of kind Unknown means "delete this name". */
    predicate IsDelete(): (b: bool)
      ensures ValidPayload(this) ==> (b <==> this == DELETED)
    {
      kind == Unknown
    }
  }

  /** The tombstone: the record's default value, (null, Unknown). */
  const DELETED := RegistryValue(Null, Unknown)

  /**
   * Whether the payload has the representation its kind calls for. The record itself
   * does not check this; it is stated separately.
   */
  predicate ValidPayload(v: RegistryValue) {
    match v.kind
    case String | ExpandString => v.value.Str?
    case DWord => v.value.Int?
    case QWord => v.value.Long?
    case Binary | NoneKind => v.value.Bytes?
    case MultiString => v.value.Strings?
    case Unknown => v.value.Null?
  }

  /** Values of different kinds are never equal, whatever their payloads. */
  lemma KindsDistinguish(a: RegistryValue, b: RegistryValue)
    requires a.kind != b.kind
    ensures a != b
    ensures !(a.IsDelete() && b.IsDelete())
  {
  }

  /** The values the record's equality tests build: equal when built alike, pairwise different otherwise. */
  const SAMPLES: seq<RegistryValue> := [
    DELETED,
    RegistryValue(Bytes([]), NoneKind),
    RegistryValue(Bytes([]), Binary),
    RegistryValue(Bytes([0]), Binary),
    RegistryValue(Bytes([1]), Binary),
    RegistryValue(Long(0), QWord),
    RegistryValue(Long(1), QWord),
    RegistryValue(Int(0), DWord),
    RegistryValue(Str(""), ExpandString),
    RegistryValue(Str(""), String),
    RegistryValue(Strings([]), MultiString)
  ]

  /** Two samples are equal exactly when they are the same entry, and each is well formed. */
  lemma SamplesDistinct(i: nat, j: nat)
    requires i < |SAMPLES| && j < |SAMPLES|
    ensures SAMPLES[i] == SAMPLES[j] <==> i == j
    ensures ValidPayload(SAMPLES[i])
  {
  }

  /** Payload and kind combinations the record's construction tests expect to be refused. */
  lemma MismatchedPayloadsInvalid()
    ensures !ValidPayload(RegistryValue(Int(123), Unknown))
    ensures !ValidPayload(RegistryValue(Str("foobar"), DWord))
    ensures !ValidPayload(RegistryValue(Str(""), QWord))
    ensures !ValidPayload(RegistryValue(Str(""), NoneKind))
    ensures !ValidPayload(RegistryValue(Null, NoneKind))
    ensures !ValidPayload(RegistryValue(Str(""), MultiString))
    ensures !ValidPayload(RegistryValue(Null, String))
    ensures !ValidPayload(RegistryValue(Bytes([0]), MultiString))
  {
  }
}
