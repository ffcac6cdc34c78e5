/**
 * The fixed-width integers of the source (.NET byte, int and long) and the
 * two's-complement and little-endian views the writers print.
 */
module Numerics {

  const BYTE_RANGE: nat := 0x100
  const INT32_RANGE: nat := 0x1_0000_0000
  const INT64_RANGE: nat := 0x1_0000_0000_0000_0000

  newtype uint8 = x: int | 0 <= x < 0x100
  newtype int32 = x: int | -0x8000_0000 <= x < 0x8000_0000
  newtype int64 = x: int | -0x8000_0000_0000_0000 <= x < 0x8000_0000_0000_0000

  /** 256 to the power n: the number of values n bytes can hold. */
  function ByteSpan(n: nat): (r: nat)
    ensures r > 0
  {
    if n == 0 then 1 else BYTE_RANGE * ByteSpan(n - 1)
  }

  /** The 32-bit two's-complement bit pattern of an int, read as an unsigned number. */
  function Unsigned32(v: int32): (u: nat)
    ensures u < INT32_RANGE
    ensures (u - v as int) % INT32_RANGE == 0
  {
    if v < 0 then v as int + INT32_RANGE else v as int
  }

  /** The int whose two's-complement bit pattern is u. */
  function Signed32(u: nat): (v: int32)
    requires u < INT32_RANGE
  {
    if u < 0x8000_0000 then u as int32 else (u - INT32_RANGE) as int32
  }

  lemma Signed32Unsigned32(v: int32)
    ensures Signed32(Unsigned32(v)) == v
  {
  }

  /** The 64-bit two's-complement bit pattern of a long, read as an unsigned number. */
  function Unsigned64(v: int64): (u: nat)
    ensures u < INT64_RANGE
    ensures (u - v as int) % INT64_RANGE == 0
  {
    if v < 0 then v as int + INT64_RANGE else v as int
  }

  /** The long whose two's-complement bit pattern is u. */
  function Signed64(u: nat): (v: int64)
    requires u < INT64_RANGE
  {
    if u < 0x8000_0000_0000_0000 then u as int64 else (u - INT64_RANGE) as int64
  }

  /** The n low-order bytes of u, least significant first. */
  function LittleEndian(u: nat, n: nat): (bs: seq<uint8>)
    ensures |bs| == n
  {
    if n == 0 then [] else [(u % BYTE_RANGE) as uint8] + LittleEndian(u / BYTE_RANGE, n - 1)
  }

  /** The number whose little-endian bytes are bs. */
  function FromLittleEndian(bs: seq<uint8>): (u: nat)
    ensures u < ByteSpan(|bs|)
  {
    if bs == [] then 0 else bs[0] as nat + BYTE_RANGE * FromLittleEndian(bs[1..])
  }

  /** Reading back n little-endian bytes of a number that fits in them gives the number. */
  lemma {:induction false} LittleEndianRoundTrip(u: nat, n: nat)
    requires u < ByteSpan(n)
    ensures FromLittleEndian(LittleEndian(u, n)) == u
  {
    if n > 0 {
      var q := u / BYTE_RANGE;
      assert u == u % BYTE_RANGE + BYTE_RANGE * q;
      DivBelow(u, BYTE_RANGE, ByteSpan(n - 1));
      LittleEndianRoundTrip(q, n - 1);
      var bs := LittleEndian(u, n);
      assert bs[1..] == LittleEndian(q, n - 1);
    }
  }

  lemma DivBelow(u: nat, d: nat, k: nat)
    requires d > 0 && u < d * k
    ensures u / d < k
  {
  }

  /** BitConverter.GetBytes(long) on a little-endian machine: the 8 bytes of the value. */
  function LongBytes(v: int64): (bs: seq<uint8>)
    ensures |bs| == 8
    ensures Signed64(FromLittleEndian(bs)) == v
  {
    assert ByteSpan(8) == INT64_RANGE;
    LittleEndianRoundTrip(Unsigned64(v), 8);
    LittleEndian(Unsigned64(v), 8)
  }
}
