# MosaicList: mosaic transfer encoding and fee

This project models the `MosaicList` component of a C# client for the NEM
ledger. A mosaic is a named, namespaced asset. `MosaicList` does two jobs
with a list of mosaic-transfer entries:

- **Encoder.** It writes a 4-byte entry count, then for each entry in input
  order: the structure length, the id-structure length, the namespace-id
  length, the namespace-id bytes, the mosaic-name length, the mosaic-name
  bytes and the 8-byte quantity. Beside the buffer it keeps a running byte
  total, `Length`: 4 for the count, plus each entry's declared structure
  length plus 4 for that length's own field. The exposed bytes are the
  serializer's buffer cut at `Length`.
- **Fee accumulator.** For each entry it looks up the definitions registered
  under the entry's namespace. It takes the first definition whose name
  equals the entry's mosaic name and stops scanning there. If no definition
  matches, the entry adds nothing. A matched definition with supply at most
  10,000 and divisibility 0 adds exactly 1,000,000. Any other match adds
  `max(1, xemFee - supplyAdjustment)`, where `xemFee` is the xem-equivalent
  rounded up to whole units, clamped to 1..25 and multiplied by 1,000,000.
  This holds when the supply adjustment is a finite number; for definitions
  the ledger would never return, the source's floating-point adjustment can
  be NaN or infinite, and then the entry's fee is not floored (see
  "## Left out"). `GetFee` returns the total, but never less than 1,000,000.

Modules, one per concern:

- `ByteOrder`: bytes, fixed-width little-endian fields and their decoder.
- `Serialization`: the byte writer (`Serializer`) and `TruncateByteArray`.
- `MosaicEncoding`: the `Mosaic` entry and the layout the encoder
  produces, as functions. It also holds a decoder for that layout, and
  lemmas for the byte total, the entry order, the truncation and the round
  trip.
- `MosaicFees`: mosaic definitions, the lookup (a map from namespace id to
  definitions), the first-match scan, the two fee classes and the sum, with
  lemmas about them.
- `MosaicLists`: the `MosaicList` class. Its `Serialize` and
  `CalculateMosaicTransferFee` methods are loops over the list, proved
  against the functions above. `Create` models `new MosaicList(...)`.

Modelling choices:

- The remote lookup is a `map` from namespace id to the definitions, in the
  order they are returned. A namespace missing from the map is a lookup that
  fails. In the source that failure is an exception out of `.Result`, which
  escapes the constructor. The model's `Create` returns `Err` instead of an
  object. Each entry performs its own lookup.
- Because the lookup is one map, two entries with the same namespace always
  see the same definitions. In the source each entry makes its own remote call
  (line 50), and two calls need not return the same answer. `SumOrderIndependent`
  relies on the map: it holds for one fixed state of the lookup.
- Only the definition's name is compared with the entry's name, as at line 59
  of the source.
- `Serializer` is not part of this model. `WriteInt` and `WriteLong` are
  modelled as appending 4 and 8 bytes, least significant byte first.
  `WriteString` appends the raw text bytes. Names are modelled as byte
  sequences.
- `TruncateByteArray(n)` is modelled as the first `n` bytes of the buffer.
  Past what was written the buffer reads as zero bytes, because the working
  buffer is zero-initialised.
- The `Mosaic` class is not part of this model either. Its four length
  properties are fields of the `Mosaic` datatype, and the encoder writes them
  as given, as the source does. `WellFormed` says that they agree with the
  actual string lengths. The lemmas that need that agreement require it.

## Model

| member | source | states |
|---|---|---|
| Serialization.Serializer.WriteInt | NemApi/Wrapper/Model/Transfer/Mosaics/MosaicList.cs:116 | appends exactly the 4-byte encoding of the value and nothing else |
| Serialization.Serializer.WriteLong | NemApi/Wrapper/Model/Transfer/Mosaics/MosaicList.cs:135 | appends exactly the 8-byte encoding of the value and nothing else |
| Serialization.Serializer.WriteString | NemApi/Wrapper/Model/Transfer/Mosaics/MosaicList.cs:129 | appends the raw text bytes, with no terminator and no length prefix |
| Serialization.TruncateByteArray | NemApi/Wrapper/Model/Transfer/Mosaics/MosaicList.cs:24 | the result has exactly n bytes: the buffer's bytes below n, then zeros past what was written |
| Serialization.TruncateAtWrittenLength | NemApi/Wrapper/Model/Transfer/Mosaics/MosaicList.cs:24 | cutting at the number of bytes written gives the buffer unchanged |
| ByteOrder.FromLittleEndianInverse | NemApi/Wrapper/Model/Transfer/Mosaics/MosaicList.cs:123-135 | decoding an n-byte field gives back the value written |
| ByteOrder.Int32Bytes | NemApi/Wrapper/Model/Transfer/Mosaics/MosaicList.cs:123 | a length field is 4 bytes and decodes to the written length |
| ByteOrder.Int64Bytes | NemApi/Wrapper/Model/Transfer/Mosaics/MosaicList.cs:135 | the quantity field is 8 bytes and decodes to the quantity |
| ByteOrder.ZeroInt32 | NemApi/Wrapper/Model/Transfer/Mosaics/MosaicList.cs:111-116 | a count of zero is written as four zero bytes |
| MosaicEncoding.ListLength | NemApi/Wrapper/Model/Transfer/Mosaics/MosaicList.cs:117-121 | the reported total is at least 4, and exactly 4 for an empty list |
| MosaicEncoding.EncodedMosaicLength | NemApi/Wrapper/Model/Transfer/Mosaics/MosaicList.cs:121-135 | a well-formed entry occupies its declared structure length plus 4 bytes |
| MosaicEncoding.EncodedLength | NemApi/Wrapper/Model/Transfer/Mosaics/MosaicList.cs:116-135 | for well-formed entries, the reported total 4 + sum of (structure length + 4) is exactly the number of bytes written |
| MosaicEncoding.EmptyListEncoding | NemApi/Wrapper/Model/Transfer/Mosaics/MosaicList.cs:111-117 | an empty list encodes as four zero bytes and its total is 4 |
| MosaicEncoding.EncodingOrder | NemApi/Wrapper/Model/Transfer/Mosaics/MosaicList.cs:119-135 | the payload is the count, then the entries before i, entry i, and the entries after i, in input order |
| MosaicEncoding.EncodeMosaicsConcat | NemApi/Wrapper/Model/Transfer/Mosaics/MosaicList.cs:119-137 | encoding two lists one after the other is concatenating their encodings |
| MosaicEncoding.EntriesLengthConcat | NemApi/Wrapper/Model/Transfer/Mosaics/MosaicList.cs:121 | the running total adds up over concatenated lists |
| MosaicEncoding.TruncationKeepsEncoding | NemApi/Wrapper/Model/Transfer/Mosaics/MosaicList.cs:24 | for well-formed entries, cutting the buffer at Length drops nothing: the bytes are the whole encoding |
| MosaicEncoding.DecodeEncodedMosaic | NemApi/Wrapper/Model/Transfer/Mosaics/MosaicList.cs:123-135 | the decoder reads back one encoded entry, all seven fields, and leaves the following bytes untouched |
| MosaicEncoding.DecodeEncodedMosaics | NemApi/Wrapper/Model/Transfer/Mosaics/MosaicList.cs:119-137 | decoding the encoded entries recovers the entries in order with nothing left over |
| MosaicEncoding.DecodeEncodedList | NemApi/Wrapper/Model/Transfer/Mosaics/MosaicList.cs:114-138 | decoding an encoded list recovers the original list, in order |
| MosaicFees.FirstMatch | NemApi/Wrapper/Model/Transfer/Mosaics/MosaicList.cs:56-59 | none exactly when no definition has the name; otherwise the first definition with the name, every earlier one differing |
| MosaicFees.XemFee | NemApi/Wrapper/Model/Transfer/Mosaics/MosaicList.cs:78 | the xem fee lies in [1,000,000, 25,000,000] and is a whole number of units; a unit count in 1..25 is kept, and values outside are clamped to the nearest bound |
| MosaicFees.RegularFee | NemApi/Wrapper/Model/Transfer/Mosaics/MosaicList.cs:90 | the individual fee is at least 1; it equals xemFee - adjustment whenever that is at least 1, and is exactly 1 otherwise |
| MosaicFees.DefinitionFee | NemApi/Wrapper/Model/Transfer/Mosaics/MosaicList.cs:62-94 | a matched definition costs at least 1; a flat-fee definition costs exactly 1,000,000 |
| MosaicFees.Contribution | NemApi/Wrapper/Model/Transfer/Mosaics/MosaicList.cs:56-96 | what one entry adds to the total is never negative |
| MosaicFees.SumContributions | NemApi/Wrapper/Model/Transfer/Mosaics/MosaicList.cs:47-98 | the accumulated total is never negative |
| MosaicFees.FirstUnavailable | NemApi/Wrapper/Model/Transfer/Mosaics/MosaicList.cs:47-50 | names the first entry whose lookup fails; every lookup before it succeeds |
| MosaicFees.ContributesIffMatched | NemApi/Wrapper/Model/Transfer/Mosaics/MosaicList.cs:56-96 | an entry adds something if and only if some definition carries its name; otherwise it adds 0 |
| MosaicFees.OtherNamesSkipped | NemApi/Wrapper/Model/Transfer/Mosaics/MosaicList.cs:59 | a definition with another name is skipped and does not change what the entry adds |
| MosaicFees.LaterDefinitionsIgnored | NemApi/Wrapper/Model/Transfer/Mosaics/MosaicList.cs:95 | scanning stops at the first match: definitions after it, duplicates included, change nothing |
| MosaicFees.FlatFeeIgnoresQuantity | NemApi/Wrapper/Model/Transfer/Mosaics/MosaicList.cs:67-70 | an entry matching a flat-fee definition adds exactly 1,000,000, whatever its quantity |
| MosaicFees.RegularFeeBounds | NemApi/Wrapper/Model/Transfer/Mosaics/MosaicList.cs:72-94 | a regular-class entry adds at least 1, and either exactly 1 or at most 25,000,000 less the supply adjustment |
| MosaicFees.DefinitionFeeMonotone | NemApi/Wrapper/Model/Transfer/Mosaics/MosaicList.cs:72-94 | if the xem-equivalent does not shrink as the quantity grows, neither does the matched definition's fee: the clamp, the subtraction and the floor at 1 preserve the order |
| MosaicFees.TransferFee | NemApi/Wrapper/Model/Transfer/Mosaics/MosaicList.cs:42-100 | the fee computation succeeds exactly when every entry's lookup succeeds; then the total is never negative, and otherwise the failure names a namespace missing from the lookup |
| MosaicFees.SumContributionsConcat | NemApi/Wrapper/Model/Transfer/Mosaics/MosaicList.cs:93 | the total over two lists one after the other is the sum of their totals |
| MosaicFees.AvailablePermutation | NemApi/Wrapper/Model/Transfer/Mosaics/MosaicList.cs:47-50 | if every lookup of a list succeeds, every lookup of any rearrangement of it succeeds |
| MosaicFees.SumWithout | NemApi/Wrapper/Model/Transfer/Mosaics/MosaicList.cs:47-98 | the total is entry j's contribution plus the total of the other entries |
| MosaicFees.SumOrderIndependent | NemApi/Wrapper/Model/Transfer/Mosaics/MosaicList.cs:47-98 | any rearrangement of the entries gives the same total |
| MosaicFees.SumZeroIffNothingMatched | NemApi/Wrapper/Model/Transfer/Mosaics/MosaicList.cs:47-98 | the total is 0 if and only if no entry finds a definition with its name |
| MosaicFees.FlatFeeScenario | NemApi/Wrapper/Model/Transfer/Mosaics/MosaicList.cs:67-70 | one entry of a mosaic with supply 1000 and divisibility 0 gives a total of exactly 1,000,000 |
| MosaicFees.SkippedEntryScenario | NemApi/Wrapper/Model/Transfer/Mosaics/MosaicList.cs:56-59 | an entry whose namespace has only other names adds 0 and raises no error |
| MosaicLists.FirstUnavailableAt | NemApi/Wrapper/Model/Transfer/Mosaics/MosaicList.cs:47-50 | a failed lookup at entry i, after entries whose lookups all succeeded, is the list's first failure |
| MosaicLists.EncodeMosaicFields | NemApi/Wrapper/Model/Transfer/Mosaics/MosaicList.cs:123-135 | the seven writes for one entry append exactly that entry's encoding |
| MosaicLists.EncodeStep | NemApi/Wrapper/Model/Transfer/Mosaics/MosaicList.cs:119-135 | serializing one more entry appends its encoding and adds its structure length plus 4 to the total |
| MosaicLists.SerializeStep | NemApi/Wrapper/Model/Transfer/Mosaics/MosaicList.cs:119-135 | the serialization loop's invariant survives one iteration: after entry i the buffer holds the count and entries 0..i, and the total counts them |
| MosaicLists.MosaicList.constructor | NemApi/Wrapper/Model/Transfer/Mosaics/MosaicList.cs:15-24 | after construction the serializer holds the list's encoding, Length is 4 + sum of (structure length + 4), the bytes are the buffer cut at Length, and the fee total is 0 |
| MosaicLists.MosaicList.Create | NemApi/Wrapper/Model/Transfer/Mosaics/MosaicList.cs:15-27 | yields a list exactly when every lookup succeeds (the conversions that can throw at lines 63-64 and 78 are not modelled, see Left out); its serialized state is as after construction, and its fee total is the sum of contributions; otherwise yields the first lookup failure |
| MosaicLists.MosaicList.GetMosaicListBytes | NemApi/Wrapper/Model/Transfer/Mosaics/MosaicList.cs:37-40 | for every list, the bytes are the serializer's buffer cut or zero-padded to Length, so they are Length long; for well-formed entries they are exactly the encoding and decode back to the list |
| MosaicLists.MosaicList.GetFee | NemApi/Wrapper/Model/Transfer/Mosaics/MosaicList.cs:102-106 | the fee is at least 1,000,000 and at least the total; it equals the total whenever the total is at least 1,000,000, and is exactly 1,000,000 whenever the total is below it |
| MosaicLists.MosaicList.Serialize | NemApi/Wrapper/Model/Transfer/Mosaics/MosaicList.cs:114-138 | the serializer gains exactly the count and the entries' encodings, in order, and Length grows by 4 + sum of (structure length + 4) |
| MosaicLists.MosaicList.WriteMosaic | NemApi/Wrapper/Model/Transfer/Mosaics/MosaicList.cs:123-135 | one entry's fields are appended in layout order and nothing else |
| MosaicLists.MosaicList.CalculateMosaicTransferFee | NemApi/Wrapper/Model/Transfer/Mosaics/MosaicList.cs:42-100 | when every lookup succeeds, the total grows by the sum of the entries' contributions; otherwise the method stops with the first failed lookup, having added the contributions of the entries before it |

## Left out

- The identity and transport parts are not modelled: `Sender`, `Connection` and `UnverifiableAccount`. The remote lookup (lines 44 and 50) is a parameter, a map from namespace id to definitions. The blocking wait, timeouts and the kind of exception are not modelled. A failure is the namespace id it happened for.
- The floating-point parts of the regular class are not computed. These are `Math.Pow`, the `double` division and `Math.Ceiling` (lines 75 and 78), and `Math.Pow`, `Math.Log` and `Math.Floor` (lines 84 and 87). They are two integer-valued inputs in `Pricing`: `xemUnits`, the rounded-up xem-equivalent, and `supplyAdjustment`. Only the clamp (line 78) and the `max(1, ...)` (line 90) around them are modelled, the latter for a finite adjustment only (see the `MosaicFees.RegularFee` line below).
- Line 75 writes `s * 10 ^ d`. In C# this is `(s * 10) XOR d`, not `s` times 10 to the power `d`. That is very likely not what the authors meant. The expression sits inside the abstracted `xemUnits` input, so the model neither reproduces nor corrects it.
- The fee's growth with quantity is proved only relative to `xemUnits`. `DefinitionFeeMonotone` proves that the clamp, the subtraction of the adjustment and the floor at 1 (lines 78 and 90) keep the order of their input. Whether the rounded-up xem-equivalent itself grows with quantity depends on the floating-point expression at line 75, which is an input here.
- Parsing `Properties[0]` and `Properties[1]` with `Convert.ToInt32` and `Convert.ToInt64` (lines 63-64) is not modelled. A definition already carries integer divisibility and supply.
- MosaicFees.RegularFee: the floor at 1 and, through it, `DefinitionFee` at least 1 and `SumContributions` at least 0 hold only for a finite supply adjustment. In the source, line 90 is `double` arithmetic: `Math.Max(1, NaN)` is NaN, and `(long)` of NaN or of an infinity is unspecified in C#. Depending on the runtime it is `long.MinValue` or 0, so the entry can add a value below 1, even a large negative one. Two kinds of definition reach that path. With a negative supply and a non-zero divisibility, for example supply -5, divisibility 1 and quantity 100, line 84 gives a negative total quantity, so the logarithm at line 87 is NaN. With a positive supply and divisibility 309 or more, `Math.Pow(10, d)` at line 84 is infinite, so the adjustment at line 87 is minus infinity and line 90 casts plus infinity. The ledger never returns such definitions, because a supply is never negative and a divisibility is a handful of decimal places, not hundreds. The model's `supplyAdjustment` is an integer, so it covers only the finite case.
- MosaicLists.MosaicList.Create: returns `Ok` in cases where the source throws. The `(decimal)` and `(long)Math.Ceiling` conversions at line 78 throw `OverflowException` on infinity, NaN or values beyond their range. Two examples: supply 1 with divisibility 10 makes the line-75 divisor `(1 * 10) ^ 10` zero, so the division gives infinity or NaN; supply 10,001 with divisibility 0 and a quantity near 2·10^17 gives an xem-equivalent beyond the range of `long`. The parses at lines 63-64 also throw on text that is not a number or is out of range. In the model `xemUnits` is an integer-valued input that cannot fail and definitions carry integers, so `Create` and `TransferFee` report only lookup failures.
- `Serializer` and `TruncateByteArray` are not part of this model. They are modelled as described above. The buffer's fixed capacity, and any failure from exceeding it, are not modelled.
- `WriteInt` and `WriteLong` are modelled for non-negative values only. Every value this core writes is a count, a length or a quantity.
- The 32-bit `Length` and the 64-bit `TotalFee` are unbounded integers in the model. Their overflow is not modelled.
- The `Mosaic` class is not part of this model. It is a datatype whose four length fields are given, not computed.
- MosaicLists.MosaicList.WriteMosaic: the source writes an entry's seven fields inline in the loop body. The model puts them in their own method so the loop's proof stays small. The order of the writes is the same.
- The source does not validate entries, so the model does not either. A malformed entry, one whose declared lengths differ from its actual string lengths, is not rejected. Its declared lengths are written as given, and `Length` counts the declared structure length. `GetMosaicListBytes` states the bytes for every list: the serializer's buffer cut or zero-padded to `Length`. Only the equality with the encoding and the round trip need well-formed entries, because for a malformed entry the cut can drop written bytes or add zeros.
