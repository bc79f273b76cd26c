/**
 * The mosaic list object: built from a list of mosaic-transfer entries, it
 * serializes them, keeps the serialized bytes cut at the running byte
 * total, and accumulates the transfer fee from one definition lookup per
 * entry.
 */
module MosaicLists {
  import opened Wrappers
  import opened ByteOrder
  import opened Serialization
  import opened MosaicEncoding
  import opened MosaicFees

  /** A failing lookup at entry i, after entries that all succeeded, is the first failure of the list. */
  lemma FirstUnavailableAt(ms: seq<Mosaic>, registry: Registry, i: nat)
    requires i < |ms|
    requires Available(ms[..i], registry)
    requires ms[i].nameSpaceId !in registry
    ensures !Available(ms, registry)
    ensures FirstUnavailable(ms, registry) == i
  {
    var k := FirstUnavailable(ms, registry);
    forall j | 0 <= j < i ensures ms[j].nameSpaceId in registry {
      assert ms[..i][j] == ms[j];
    }
    forall j | 0 <= j < k ensures ms[j].nameSpaceId in registry {
      assert ms[..k][j] == ms[j];
    }
  }

  /** The seven writes for one entry append exactly that entry's encoding. */
  lemma EncodeMosaicFields(written: seq<byte>, m: Mosaic)
    ensures written + Int32Bytes(m.lengthOfMosaicStructure) + Int32Bytes(m.lengthOfMosaicIdStructure)
            + Int32Bytes(m.lengthOfNameSpaceId) + m.nameSpaceId + Int32Bytes(m.lengthOfMosaicName)
            + m.mosaicName + Int64Bytes(m.quantity)
         == written + EncodeMosaic(m)
  {
  }

  /** Encoding one more entry of the list appends that entry's bytes and adds its share of the total. */
  lemma EncodeStep(ms: seq<Mosaic>, i: nat)
    requires i < |ms|
    ensures EncodeMosaics(ms[..i + 1]) == EncodeMosaics(ms[..i]) + EncodeMosaic(ms[i])
    ensures EntriesLength(ms[..i + 1]) == EntriesLength(ms[..i]) + ms[i].lengthOfMosaicStructure + 4
  {
    assert ms[..i + 1] == ms[..i] + [ms[i]];
    assert [ms[i]][1..] == [];
    EncodeMosaicsConcat(ms[..i], [ms[i]]);
    EntriesLengthConcat(ms[..i], [ms[i]]);
  }

  /** The serialization loop's invariant survives writing entry i: the buffer and the total move to prefix i + 1. */
  lemma SerializeStep(ms: seq<Mosaic>, i: nat, counted: seq<byte>, buffer: seq<byte>, countedLength: int, length: int)
    requires i < |ms|
    requires buffer == counted + EncodeMosaics(ms[..i])
    requires length == countedLength + EntriesLength(ms[..i])
    ensures buffer + EncodeMosaic(ms[i]) == counted + EncodeMosaics(ms[..i + 1])
    ensures length + ms[i].lengthOfMosaicStructure + 4 == countedLength + EntriesLength(ms[..i + 1])
  {
    EncodeStep(ms, i);
    assert buffer + EncodeMosaic(ms[i]) == counted + (EncodeMosaics(ms[..i]) + EncodeMosaic(ms[i]));
  }

  class MosaicList {
    const listOfMosaics: seq<Mosaic>
    const serializer: Serializer
    var bytes: seq<byte>
    var length: int
    var totalFee: int

    /**
     * The state serialization leaves: the serializer holds the list's
     * encoding, length is the reported byte total, and bytes is the
     * serializer's buffer cut at that total.
     */
    ghost predicate Valid()
      reads this, serializer
    {
      && |listOfMosaics| < 0x8000_0000
      && serializer.buffer == EncodeMosaicList(listOfMosaics)
      && length == ListLength(listOfMosaics)
      && bytes == TruncateByteArray(serializer.buffer, length)
    }

    /** Serializes the list and keeps the buffer cut at the byte total; no fee yet. */
    constructor (mosaicList: seq<Mosaic>)
      requires |mosaicList| < 0x8000_0000
      ensures Valid() && fresh(serializer)
      ensures listOfMosaics == mosaicList
      ensures totalFee == 0
    {
      listOfMosaics := mosaicList;
      serializer := new Serializer();
      bytes := [];
      length := 0;
      totalFee := 0;
      new;
      Serialize();
      bytes := TruncateByteArray(serializer.GetBytes(), length);
    }

    /**
     * Builds the list as `new MosaicList(...)` does: serialize, cut, then
     * compute the fee. A failed lookup escapes construction as an error and
     * no list is produced.
     */
    static method Create(mosaicList: seq<Mosaic>, registry: Registry, pricing: Pricing)
      returns (r: Result<MosaicList, LookupFailure>)
      requires |mosaicList| < 0x8000_0000
      ensures r.Ok? <==> TransferFee(mosaicList, registry, pricing).Ok?
      ensures r.Err? ==> TransferFee(mosaicList, registry, pricing) == Err(r.error)
      ensures r.Ok? ==> && fresh(r.value) && fresh(r.value.serializer) && r.value.Valid()
                        && r.value.listOfMosaics == mosaicList
                        && TransferFee(mosaicList, registry, pricing) == Ok(r.value.totalFee)
    {
      var list := new MosaicList(mosaicList);
      var outcome := list.CalculateMosaicTransferFee(registry, pricing);
      if outcome.Fail? {
        return Err(outcome.error);
      }
      return Ok(list);
    }

    /** The serialized list: exactly its encoding when every entry's declared lengths are its actual ones. */
    function GetMosaicListBytes(): (r: seq<byte>)
      reads this, serializer
      requires Valid()
      ensures |r| == length
      ensures r == TruncateByteArray(serializer.buffer, length)
      ensures AllWellFormed(listOfMosaics) ==> r == EncodeMosaicList(listOfMosaics)
      ensures AllWellFormed(listOfMosaics) ==> DecodeMosaicList(r) == Some(listOfMosaics)
    {
      TruncationKeepsEncoding(listOfMosaics);
      if AllWellFormed(listOfMosaics) then
        DecodeEncodedList(listOfMosaics);
        bytes
      else
        bytes
    }

    /** The fee to charge: the accumulated total, never below the minimum fee. */
    function GetFee(): (r: int)
      reads this
      ensures r >= MinimumFee
      ensures r >= totalFee
      ensures totalFee >= MinimumFee ==> r == totalFee
      ensures totalFee < MinimumFee ==> r == MinimumFee
    {
      Max(totalFee, MinimumFee)
    }

    /**
     * Writes the entry count and then each entry in order, adding each
     * entry's declared structure length plus its own 4-byte field to the
     * running total.
     */
    method Serialize()
      requires |listOfMosaics| < 0x8000_0000
      modifies this, serializer
      ensures serializer.buffer == old(serializer.buffer) + EncodeMosaicList(listOfMosaics)
      ensures length == old(length) + ListLength(listOfMosaics)
      ensures bytes == old(bytes) && totalFee == old(totalFee)
    {
      serializer.WriteInt(|listOfMosaics|);
      length := length + 4;
      ghost var counted := serializer.buffer;
      ghost var countedLength := length;
      for i := 0 to |listOfMosaics|
        invariant serializer.buffer == counted + EncodeMosaics(listOfMosaics[..i])
        invariant length == countedLength + EntriesLength(listOfMosaics[..i])
        invariant bytes == old(bytes) && totalFee == old(totalFee)
      {
        var mosaic := listOfMosaics[i];
        SerializeStep(listOfMosaics, i, counted, serializer.buffer, countedLength, length);
        length := length + mosaic.lengthOfMosaicStructure + 4;
        WriteMosaic(mosaic);
      }
      assert listOfMosaics[..|listOfMosaics|] == listOfMosaics;
      assert EncodeMosaicList(listOfMosaics) == Int32Bytes(|listOfMosaics|) + EncodeMosaics(listOfMosaics);
    }

    /** The body of the serialization loop for one entry: its seven fields, in layout order. */
    method WriteMosaic(mosaic: Mosaic)
      modifies serializer
      ensures serializer.buffer == old(serializer.buffer) + EncodeMosaic(mosaic)
    {
      ghost var written := serializer.buffer;
      serializer.WriteInt(mosaic.lengthOfMosaicStructure);
      serializer.WriteInt(mosaic.lengthOfMosaicIdStructure);
      serializer.WriteInt(mosaic.lengthOfNameSpaceId);
      serializer.WriteString(mosaic.nameSpaceId);
      serializer.WriteInt(mosaic.lengthOfMosaicName);
      serializer.WriteString(mosaic.mosaicName);
      serializer.WriteLong(mosaic.quantity);
      EncodeMosaicFields(written, mosaic);
    }

    /**
     * For each entry, looks up its namespace's definitions, prices the first
     * one with the entry's name and adds the price to the total; an entry
     * with no such definition adds nothing. Stops at the first lookup that
     * fails.
     */
    method CalculateMosaicTransferFee(registry: Registry, pricing: Pricing)
      returns (outcome: Outcome<LookupFailure>)
      modifies this`totalFee
      ensures Available(listOfMosaics, registry) ==>
                outcome == Pass
                && totalFee == old(totalFee) + SumContributions(listOfMosaics, registry, pricing)
      ensures !Available(listOfMosaics, registry) ==>
                var k := FirstUnavailable(listOfMosaics, registry);
                outcome == Fail(NamespaceUnavailable(listOfMosaics[k].nameSpaceId))
                && totalFee == old(totalFee) + SumContributions(listOfMosaics[..k], registry, pricing)
    {
      for i := 0 to |listOfMosaics|
        invariant Available(listOfMosaics[..i], registry)
        invariant totalFee == old(totalFee) + SumContributions(listOfMosaics[..i], registry, pricing)
      {
        var mosaicToBeSent := listOfMosaics[i];
        if mosaicToBeSent.nameSpaceId !in registry {
          FirstUnavailableAt(listOfMosaics, registry, i);
          return Fail(NamespaceUnavailable(mosaicToBeSent.nameSpaceId));
        }
        var mosaicDefinitions := registry[mosaicToBeSent.nameSpaceId];
        ghost var before := totalFee;

        var j := 0;
        while j < |mosaicDefinitions|
          invariant 0 <= j <= |mosaicDefinitions|
          invariant forall k :: 0 <= k < j ==> mosaicDefinitions[k].mosaicName != mosaicToBeSent.mosaicName
          invariant totalFee == before
        {
          var mosaicDefinition := mosaicDefinitions[j];
          if mosaicDefinition.mosaicName != mosaicToBeSent.mosaicName {
            j := j + 1;
            continue;
          }
          var q := mosaicToBeSent.quantity;
          var d := mosaicDefinition.divisibility;
          var s := mosaicDefinition.supply;
          if s <= SmallSupply && d == 0 {
            totalFee := totalFee + FlatFee;
          } else {
            var xemFee := Max(1, Min(pricing.xemUnits(q, d, s), MaxXemUnits)) * FeeUnit;
            var supplyRelatedAdjustment := pricing.supplyAdjustment(d, s);
            var individualMosaicFee := Max(1, xemFee - supplyRelatedAdjustment);
            totalFee := totalFee + individualMosaicFee;
          }
          break;
        }
        assert totalFee == before + Contribution(mosaicToBeSent, mosaicDefinitions, pricing);

        assert listOfMosaics[..i + 1] == listOfMosaics[..i] + [mosaicToBeSent];
        assert [mosaicToBeSent][1..] == [];
        SumContributionsConcat(listOfMosaics[..i], [mosaicToBeSent], registry, pricing);
      }
      assert listOfMosaics[..|listOfMosaics|] == listOfMosaics;
      return Pass;
    }
  }
}
