/**
 * What the mosaic list encoder writes: a 4-byte entry count followed by each
 * entry in input order, and the byte total it reports beside the bytes.
 * A decoder for the same layout is the encoder's partner: decoding an
 * encoded list gives the list back.
 */
module MosaicEncoding {
  import opened Wrappers
  import opened ByteOrder
  import opened Serialization

  /**
   * One mosaic-transfer entry: namespace id and mosaic name as raw text
   * bytes, the quantity, and the four lengths the entry declares for its
   * own sub-structures.
   */
  datatype Mosaic = Mosaic(
    nameSpaceId: seq<byte>,
    mosaicName: seq<byte>,
    quantity: uint64,
    lengthOfMosaicStructure: nat32,
    lengthOfMosaicIdStructure: nat32,
    lengthOfNameSpaceId: nat32,
    lengthOfMosaicName: nat32)

  /** The declared string lengths are the actual ones. */
  predicate NamesMatchLengths(m: Mosaic)
  {
    m.lengthOfNameSpaceId == |m.nameSpaceId| && m.lengthOfMosaicName == |m.mosaicName|
  }

  /**
   * Every declared length is the actual one: the id structure is two length
   * fields and the two strings, and the mosaic structure (which does not
   * count its own length field) is the id-structure length field, the id
   * structure and the 8-byte quantity.
   */
  predicate WellFormed(m: Mosaic)
  {
    && NamesMatchLengths(m)
    && m.lengthOfMosaicIdStructure == 4 + |m.nameSpaceId| + 4 + |m.mosaicName|
    && m.lengthOfMosaicStructure == 4 + m.lengthOfMosaicIdStructure + 8
  }

  predicate AllWellFormed(ms: seq<Mosaic>)
  {
    forall i :: 0 <= i < |ms| ==> WellFormed(ms[i])
  }

  /** The bytes one entry contributes, field by field. */
  function EncodeMosaic(m: Mosaic): seq<byte>
  {
    Int32Bytes(m.lengthOfMosaicStructure)
    + Int32Bytes(m.lengthOfMosaicIdStructure)
    + Int32Bytes(m.lengthOfNameSpaceId) + m.nameSpaceId
    + Int32Bytes(m.lengthOfMosaicName) + m.mosaicName
    + Int64Bytes(m.quantity)
  }

  /** The entries' encodings, one after the other, in input order. */
  function EncodeMosaics(ms: seq<Mosaic>): seq<byte>
  {
    if ms == [] then [] else EncodeMosaic(ms[0]) + EncodeMosaics(ms[1..])
  }

  /** The whole payload: the entry count, then the entries. */
  function EncodeMosaicList(ms: seq<Mosaic>): seq<byte>
    requires |ms| < 0x8000_0000
  {
    Int32Bytes(|ms|) + EncodeMosaics(ms)
  }

  /** What the entries add to the running total: each declared structure length plus its own 4-byte field. */
  function EntriesLength(ms: seq<Mosaic>): nat
  {
    if ms == [] then 0 else ms[0].lengthOfMosaicStructure + 4 + EntriesLength(ms[1..])
  }

  /** The byte total the encoder reports: the count field plus the entries. */
  function ListLength(ms: seq<Mosaic>): (r: nat)
    ensures r >= 4
    ensures ms == [] ==> r == 4
  {
    4 + EntriesLength(ms)
  }

  // ---- Decoder ----

  /** Reads one entry from the front of b; gives the entry and the bytes after it. */
  function DecodeMosaic(b: seq<byte>): Option<(Mosaic, seq<byte>)>
  {
    if |b| < 12 then None
    else
      var structureLength := FromLittleEndian(b[..4]);
      var idStructureLength := FromLittleEndian(b[4..8]);
      var nameSpaceIdLength := FromLittleEndian(b[8..12]);
      if structureLength >= 0x8000_0000 || idStructureLength >= 0x8000_0000
         || nameSpaceIdLength >= 0x8000_0000 || |b| < 16 + nameSpaceIdLength
      then None
      else
        var nameAt := 16 + nameSpaceIdLength;
        var nameLength := FromLittleEndian(b[12 + nameSpaceIdLength..nameAt]);
        if nameLength >= 0x8000_0000 || |b| < nameAt + nameLength + 8 then None
        else
          var quantityAt := nameAt + nameLength;
          WidthBounds();
          var quantity := FromLittleEndian(b[quantityAt..quantityAt + 8]);
          Some((Mosaic(b[12..12 + nameSpaceIdLength], b[nameAt..quantityAt], quantity,
                       structureLength, idStructureLength, nameSpaceIdLength, nameLength),
                b[quantityAt + 8..]))
  }

  /** Reads exactly count entries and requires that nothing is left over. */
  function DecodeMosaics(b: seq<byte>, count: nat): Option<seq<Mosaic>>
    decreases count
  {
    if count == 0 then
      if b == [] then Some([]) else None
    else
      match DecodeMosaic(b)
      case None => None
      case Some((m, rest)) =>
        match DecodeMosaics(rest, count - 1)
        case None => None
        case Some(ms) => Some([m] + ms)
  }

  /** Reads the entry count, then that many entries. */
  function DecodeMosaicList(b: seq<byte>): Option<seq<Mosaic>>
  {
    if |b| < 4 then None else DecodeMosaics(b[4..], FromLittleEndian(b[..4]))
  }

  // ---- Properties of the encoder ----

  /** Encoding distributes over concatenation of entry lists. */
  lemma {:induction false} EncodeMosaicsConcat(a: seq<Mosaic>, b: seq<Mosaic>)
    ensures EncodeMosaics(a + b) == EncodeMosaics(a) + EncodeMosaics(b)
  {
    if a != [] {
      assert (a + b)[1..] == a[1..] + b;
      EncodeMosaicsConcat(a[1..], b);
    } else {
      assert a + b == b;
    }
  }

  /** The running total distributes over concatenation of entry lists. */
  lemma {:induction false} EntriesLengthConcat(a: seq<Mosaic>, b: seq<Mosaic>)
    ensures EntriesLength(a + b) == EntriesLength(a) + EntriesLength(b)
  {
    if a != [] {
      assert (a + b)[1..] == a[1..] + b;
      EntriesLengthConcat(a[1..], b);
    } else {
      assert a + b == b;
    }
  }

  /** One well-formed entry occupies exactly its declared structure length plus 4 bytes. */
  lemma EncodedMosaicLength(m: Mosaic)
    requires WellFormed(m)
    ensures |EncodeMosaic(m)| == m.lengthOfMosaicStructure + 4
  {
  }

  /** For well-formed entries the reported total is the number of bytes written. */
  lemma {:induction false} EncodedLength(ms: seq<Mosaic>)
    requires AllWellFormed(ms)
    requires |ms| < 0x8000_0000
    ensures |EncodeMosaics(ms)| == EntriesLength(ms)
    ensures |EncodeMosaicList(ms)| == ListLength(ms)
  {
    if ms != [] {
      EncodedMosaicLength(ms[0]);
      EncodedLength(ms[1..]);
    }
  }

  /** An empty list is the count field holding zero and nothing else, and its total is 4. */
  lemma EmptyListEncoding()
    ensures EncodeMosaicList([]) == [0, 0, 0, 0]
    ensures ListLength([]) == 4
  {
    ZeroInt32();
  }

  /**
   * Entries are written in input order: the payload is the count, the
   * entries before i, entry i, then the entries after i.
   */
  lemma EncodingOrder(ms: seq<Mosaic>, i: nat)
    requires |ms| < 0x8000_0000
    requires i < |ms|
    ensures EncodeMosaicList(ms)
         == Int32Bytes(|ms|) + EncodeMosaics(ms[..i]) + EncodeMosaic(ms[i]) + EncodeMosaics(ms[i + 1..])
  {
    assert ms == ms[..i] + ([ms[i]] + ms[i + 1..]);
    EncodeMosaicsConcat(ms[..i], [ms[i]] + ms[i + 1..]);
    assert ([ms[i]] + ms[i + 1..])[1..] == ms[i + 1..];
  }

  /** Cutting the written bytes at the reported total drops nothing: the result is the whole encoding. */
  lemma TruncationKeepsEncoding(ms: seq<Mosaic>)
    requires |ms| < 0x8000_0000
    ensures AllWellFormed(ms) ==> TruncateByteArray(EncodeMosaicList(ms), ListLength(ms)) == EncodeMosaicList(ms)
  {
    if AllWellFormed(ms) {
      EncodedLength(ms);
      TruncateAtWrittenLength(EncodeMosaicList(ms));
    }
  }

  // ---- Round trip ----

  /** The decoder reads back one encoded entry and leaves what follows it untouched. */
  lemma DecodeEncodedMosaic(m: Mosaic, rest: seq<byte>)
    requires NamesMatchLengths(m)
    ensures DecodeMosaic(EncodeMosaic(m) + rest) == Some((m, rest))
  {
    var ns, name := m.nameSpaceId, m.mosaicName;
    var b := EncodeMosaic(m) + rest;
    var nameAt := 16 + |ns|;
    var quantityAt := nameAt + |name|;
    assert b[..4] == Int32Bytes(m.lengthOfMosaicStructure);
    assert b[4..8] == Int32Bytes(m.lengthOfMosaicIdStructure);
    assert b[8..12] == Int32Bytes(m.lengthOfNameSpaceId);
    assert b[12..12 + |ns|] == ns;
    assert b[12 + |ns|..nameAt] == Int32Bytes(m.lengthOfMosaicName);
    assert b[nameAt..quantityAt] == name;
    assert b[quantityAt..quantityAt + 8] == Int64Bytes(m.quantity);
    assert b[quantityAt + 8..] == rest;
  }

  lemma {:induction false} DecodeEncodedMosaics(ms: seq<Mosaic>)
    requires forall i :: 0 <= i < |ms| ==> NamesMatchLengths(ms[i])
    ensures DecodeMosaics(EncodeMosaics(ms), |ms|) == Some(ms)
  {
    if ms != [] {
      DecodeEncodedMosaic(ms[0], EncodeMosaics(ms[1..]));
      DecodeEncodedMosaics(ms[1..]);
      assert [ms[0]] + ms[1..] == ms;
    }
  }

  /** Decoding an encoded list recovers every entry, in the original order. */
  lemma DecodeEncodedList(ms: seq<Mosaic>)
    requires |ms| < 0x8000_0000
    requires forall i :: 0 <= i < |ms| ==> NamesMatchLengths(ms[i])
    ensures DecodeMosaicList(EncodeMosaicList(ms)) == Some(ms)
  {
    var b := EncodeMosaicList(ms);
    assert b[..4] == Int32Bytes(|ms|);
    assert b[4..] == EncodeMosaics(ms);
    DecodeEncodedMosaics(ms);
  }
}
