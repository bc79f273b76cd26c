/**
 * Fixed-width little-endian integers, the encoding the serializer uses for
 * its 4-byte and 8-byte fields, together with the matching decoder.
 */
module ByteOrder {

  newtype byte = x: int | 0 <= x < 256

  /** A non-negative C# `int`: every count and length this core writes. */
  type nat32 = x: int | 0 <= x < 0x8000_0000

  /** A 64-bit quantity. */
  type uint64 = x: int | 0 <= x < 0x1_0000_0000_0000_0000

  /** 256 to the power n: one more than the largest value n bytes hold. */
  function Pow256(n: nat): (r: nat)
    ensures r >= 1
  {
    if n == 0 then 1 else 256 * Pow256(n - 1)
  }

  /** The n-byte little-endian encoding of v: least significant byte first. */
  function LittleEndian(v: nat, n: nat): (r: seq<byte>)
    requires v < Pow256(n)
    ensures |r| == n
  {
    if n == 0 then [] else [(v % 256) as byte] + LittleEndian(v / 256, n - 1)
  }

  /** The value a little-endian byte string stands for. */
  function FromLittleEndian(b: seq<byte>): (r: nat)
    ensures r < Pow256(|b|)
  {
    if b == [] then 0 else b[0] as nat + 256 * FromLittleEndian(b[1..])
  }

  /** Decoding the n-byte encoding of v gives v back. */
  lemma {:induction false} FromLittleEndianInverse(v: nat, n: nat)
    requires v < Pow256(n)
    ensures FromLittleEndian(LittleEndian(v, n)) == v
  {
    if n > 0 {
      var b := LittleEndian(v, n);
      FromLittleEndianInverse(v / 256, n - 1);
      assert b[1..] == LittleEndian(v / 256, n - 1);
    }
  }

  lemma WidthBounds()
    ensures Pow256(4) == 0x1_0000_0000
    ensures Pow256(8) == 0x1_0000_0000_0000_0000
  {
  }

  /** `WriteInt`: a 4-byte field. */
  function Int32Bytes(v: nat32): (r: seq<byte>)
    ensures |r| == 4
    ensures FromLittleEndian(r) == v
  {
    WidthBounds();
    FromLittleEndianInverse(v, 4);
    LittleEndian(v, 4)
  }

  /** `WriteLong`: an 8-byte field. */
  function Int64Bytes(v: uint64): (r: seq<byte>)
    ensures |r| == 8
    ensures FromLittleEndian(r) == v
  {
    WidthBounds();
    FromLittleEndianInverse(v, 8);
    LittleEndian(v, 8)
  }

  /** A count of zero is written as four zero bytes. */
  lemma ZeroInt32()
    ensures Int32Bytes(0) == [0, 0, 0, 0]
  {
    WidthBounds();
  }
}
