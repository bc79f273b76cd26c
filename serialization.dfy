/**
 * The byte writer the encoder appends to, and the truncation applied to its
 * buffer. The writer's storage is the sequence of bytes written so far; the
 * buffer it hands out is larger and zero-filled past that point, which
 * TruncateByteArray reflects by padding with zeros.
 */
module Serialization {
  import opened ByteOrder

  class Serializer {
    var buffer: seq<byte>

    constructor ()
      ensures buffer == []
    {
      buffer := [];
    }

    method WriteInt(v: nat32)
      modifies this
      ensures buffer == old(buffer) + Int32Bytes(v)
    {
      buffer := buffer + Int32Bytes(v);
    }

    method WriteLong(v: uint64)
      modifies this
      ensures buffer == old(buffer) + Int64Bytes(v)
    {
      buffer := buffer + Int64Bytes(v);
    }

    /** Raw text bytes, no terminator and no length prefix. */
    method WriteString(s: seq<byte>)
      modifies this
      ensures buffer == old(buffer) + s
    {
      buffer := buffer + s;
    }

    function GetBytes(): seq<byte>
      reads this
    {
      buffer
    }
  }

  /** n zero bytes: the unwritten tail of the serializer's buffer. */
  function Zeros(n: nat): (r: seq<byte>)
    ensures |r| == n
    ensures forall i :: 0 <= i < n ==> r[i] == 0
  {
    seq(n, _ => 0)
  }

  /**
   * The first n bytes of the serializer's buffer: what was written, cut at n,
   * and zeros for any position past what was written.
   */
  function TruncateByteArray(b: seq<byte>, n: nat): (r: seq<byte>)
    ensures |r| == n
    ensures forall i :: 0 <= i < n && i < |b| ==> r[i] == b[i]
    ensures forall i :: |b| <= i < n ==> r[i] == 0
  {
    if n <= |b| then b[..n] else b + Zeros(n - |b|)
  }

  /** Cutting at exactly the written length drops nothing and adds nothing. */
  lemma TruncateAtWrittenLength(b: seq<byte>)
    ensures TruncateByteArray(b, |b|) == b
  {
  }
}
