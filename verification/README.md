# Verification of the m-tsunami core algorithms

This project models, in Dafny, the three places of the repository that carry real logic, and proves
what they promise:

- the nanopb protobuf codec 0.3.9.5 (`pb_encode.c`, `pb_decode.c`, `pb_common.c`): the encoder with its
  sizing and writing passes, the decoder with substreams, packed and unpacked arrays, unions,
  fixed-count arrays and required fields, and the field iterator they share;
- Geo3x3 (`geo3x3.rb`), a hierarchical grid code for positions;
- the detection loop of the seismometer (`m-tsunami-motion.py`).

Check everything with `dafny verify dfyconfig.toml`.

## How it is organised

The codec is modelled twice, and the two models are proved equal.

*Specification.* `Message` has field tables (`Desc`), the structs they describe as typed slots, and the
default state. `EncodeSpec` says what bytes a message is encoded to, `DecodeSpec` what a byte string is
decoded to, for malformed input as well. Every theorem about the codec is about these functions:
`Varint` and `Scalars` (number formats), `Logical` (when two structs hold the same message, omitted
proto3 fields), `RoundTripItems` and `RoundTrip`, `Independence` (what decoding depends on), `Merge` (concatenation, the
last one wins, unknown fields, packed and unpacked arrays), `Append` (repeated fields), `RequiredFields`
(the bitmap), `FixedArrays` (arrays without a count), `SizeBound` and `Reencode` (what can be encoded, and
why whatever was decoded can). So that the specification itself rests on something, `Wire` says in plain
numbers what the bytes of a message are for a reader without its table, `Payloads` exactly which bytes the
decoder takes for a value, and `Omission` exactly which fields are left out.

*Program.* `Iterator`, `OutputStream` and `InputStream` have the classes whose fields the source updates
in place; `Encoder` and `Decoder` have its functions as methods with loops over those classes, each proved
to do exactly what the specification says. Termination of the decoder on arbitrary bytes is part of that:
its measure is the number of bytes left in the stream. The predicate `OutputStream.Wrote` relates an
output stream before and after a write (it succeeds exactly if the data can be encoded and fits, and
appends exactly that data), `InputStream.Read` an input stream before and after a read (it succeeds
exactly if the specification does, then leaves exactly the specified rest, and cursor plus bytes left
stays the same).

`Geo3x3` and `Quake`/`QuakeRuns` follow the same plan: a method or class with the loop of the source, the
function it computes, and theorems about that function. Both are over exact real numbers. In `QuakeRuns`
all runs are described from the readings alone: where the shakes are, which of them form a cluster, when a
report is due; `ShakeOnSomeAxis` says in plain numbers what a shake is.

Results worth knowing:

- The round trip holds exactly when strings are terminated. The encoder accepts a string that fills its
  buffer without a NUL, the decoder refuses what was encoded (`RoundTrip.FullRoundTrip`,
  `RoundTripItems.BlobRoundTrip`).
- The result of pb_decode depends on nothing the struct held before, except items of fixed-count arrays:
  they keep their old content when the array is not received (`Independence.DecodeIgnoresContent`).
- The decoder does not compare the wire type with the field type except for packed arrays, and it takes the
  terminator of an empty table for a bool field with tag 0 (`DecodeSpec.DecStep`,
  `Iterator.FieldIter.Find`). The model does the same.
- A fixed-count array that does not occur at all is accepted, an incomplete one is refused only if it was
  the last one or another one starts (`DecodeSpec.Enter`, `DecodeSpec.FixedDone`).
- Geo3x3 codes are only right for latitudes in [-90, 90) and longitudes in [-180, 180), and there exactly
  (`Geo3x3.CodeCoversPoint`).
- The detection loop ends with an exception exactly when the clock was set back by at least the buffered
  time during a cluster (`QuakeRuns.StepTracks`, `QuakeRuns.WindowEmpty`); the comments of the script do not
  mention it.

## Model

| member | source | states |
|---|---|---|
| `RoundTrip.FullRoundTrip` | iosapp/Pods/nanopb/pb_encode.c:519-541 | decoding exactly the bytes of an encodable message into a struct with any previous content succeeds if and only if every string that is in use has its NUL inside its buffer; it then reads all bytes and the struct holds the same message, at every nesting depth |
| `RoundTrip.NullTerminatedRoundTrip` | iosapp/Pods/nanopb/pb_encode.c:548-556 | decoding a null-terminated message followed by arbitrary bytes succeeds if and only if every string in use is terminated; it then leaves exactly those bytes and the same message |
| `RoundTrip.DelimitedRoundTrip` | iosapp/Pods/nanopb/pb_decode.c:1104-1117 | decoding a delimited message followed by arbitrary bytes succeeds if and only if every string in use is terminated; it then leaves exactly those bytes and the same message |
| `RoundTrip.StreamRoundTrip` | iosapp/Pods/nanopb/pb_decode.c:1104-1117 | any list of messages sent as delimited messages end to end is received one by one, and the bytes that follow are left |
| `RoundTrip.MessageRoundTrip` | iosapp/Pods/nanopb/pb_decode.c:925-1073 | from any default struct, the noinit decoder reads an encoded message up to its end or a zero byte and rebuilds it, or fails when a string in use is unterminated |
| `RoundTrip.FieldRoundTrip` | iosapp/Pods/nanopb/pb_decode.c:406-480 | the record or records that one field encodes to move the decode loop past exactly that field, whatever follows |
| `RoundTrip.ArrayRoundTrip` | iosapp/Pods/nanopb/pb_encode.c:144-233 | what is written for an array, packed or not, counted or fixed-count, is read back into the same items with the same count |
| `RoundTrip.ValueRoundTrip` | iosapp/Pods/nanopb/pb_decode.c:1503-1525 | the payload of one value, submessages included, is read back as the same value and the rest is left |
| `RoundTripItems.BlobRoundTrip` | iosapp/Pods/nanopb/pb_decode.c:1431-1501 | bytes, strings and fixed-length bytes come back; an unterminated full string buffer, which the encoder accepts, is refused |
| `RoundTripItems.ScalarRoundTrip` | iosapp/Pods/nanopb/pb_decode.c:1318-1429 | every in-range integer, bool and fixed-width word comes back for every field width (a bool as 0 or 1) |
| `RoundTripItems.PackedRoundTrip` | iosapp/Pods/nanopb/pb_decode.c:436-445 | a packed record body is read back item by item into consecutive items |
| `Reencode.EncodableExact` | iosapp/Pods/nanopb/pb_encode.c:332-417 | a message can be encoded if and only if every count and every bytes length in use is within its capacity, at every depth |
| `Reencode.DecodedCanBeSentOn` | iosapp/Pods/nanopb/pb_decode.c:1075-1087 | whatever bytes are accepted, into a struct with any previous content, the resulting message can be encoded, and that encoding decodes to the same message; only items of fixed-count arrays have to be clean before |
| `Reencode.MessageClean` | iosapp/Pods/nanopb/pb_decode.c:925-1073 | decoding arbitrary bytes into a clean struct keeps every count and length within capacity and every string terminated, at every depth |
| `Reencode.DefaultsAreClean` | iosapp/Pods/nanopb/pb_decode.c:836-919 | setting the defaults makes a struct with any content clean, but for items of fixed-count arrays |
| `Independence.DecodeIgnoresContent` | iosapp/Pods/nanopb/pb_decode.c:1075-1087 | decoding the same bytes into two structs gives the same verdict, the same rest and the same message, whatever the structs held before, but for items of fixed-count arrays |
| `Independence.LoopAlike` | iosapp/Pods/nanopb/pb_decode.c:943-1021 | from two states that differ only in what is not in use or lies behind the NUL of a string, the loop gives the same verdict, stops at the same place and leaves two such states |
| `Independence.UnionContentUnseen` | iosapp/Pods/nanopb/pb_decode.c:466-475 | whatever the old bytes of a union read as when another member is decoded over them, the loop goes on as if they were zero, but for bytes behind the NUL of a string |
| `Payloads.SameMemberKept` | iosapp/Pods/nanopb/pb_decode.c:466-475 | the current member of a union, received once more, is decoded over its own old value |
| `Merge.ConcatenationMerges` | iosapp/Pods/nanopb/pb_decode.c:925-1073 | without fixed-count arrays, decoding s1 and then s2 into the same struct equals decoding s1 followed by s2; if s1 ends with a zero tag, s2 is left unread |
| `Merge.LoopExtends` | iosapp/Pods/nanopb/pb_decode.c:943-1021 | bytes put behind an accepted input do not change how it is read: the loop goes on with them from the state it reached |
| `Merge.SubmessagesMerge` | iosapp/Pods/nanopb/pb_decode.c:1503-1525 | two records of a required or optional submessage equal one record with both bodies |
| `Merge.OneOfSubmessageResets` | iosapp/Pods/nanopb/pb_decode.c:466-475 | of two records of a union submessage only the last one counts |
| `Merge.LastOneWins` | iosapp/Pods/nanopb/pb_decode.c:406-475 | an earlier record of any field that is not repeated, or of another member of its union, makes no difference to a later one of any kind but a submessage outside a union, whether that can be decoded or not; a string may differ behind its NUL |
| `Append.RepeatedFieldsAppend` | iosapp/Pods/nanopb/pb_decode.c:424-464 | decoding into a struct leaves the items of a counted array in place and puts behind them the items that decoding the same bytes alone gives |
| `Merge.PackedIsUnpacked` | iosapp/Pods/nanopb/pb_decode.c:424-464 | one packed record and the run of single records with the same elements leave the same struct or both fail, whatever follows |
| `Merge.UnknownFieldTransparent` | iosapp/Pods/nanopb/pb_decode.c:957-986 | an unknown field at any top-level field boundary changes neither success nor the resulting struct |
| `Wire.SkipExact` | iosapp/Pods/nanopb/pb_decode.c:321-334 | which bytes an unknown field takes: wire type 0 one terminated varint of any length, 1 eight bytes, 5 four bytes, 2 a length and that many bytes; every other wire type is refused |
| `Wire.RecordSkipped` | iosapp/Pods/nanopb/pb_decode.c:957-986 | whatever is encoded for a field goes past a decoder whose table lacks the tag without a trace |
| `Wire.ForeignMessageSkipped` | iosapp/Pods/nanopb/pb_decode.c:957-986 | a whole encoded message goes past the decoder of another table that shares no tag with its own |
| `Wire.RecordKey` | iosapp/Pods/nanopb/pb_encode.c:666-698 | the key of a record has the tag of the field and wire type 0, 1, 2 or 5 as its type demands, in one byte for tags below 16 |
| `Wire.MessageHasKeys` | iosapp/Pods/nanopb/pb_encode.c:519-541 | read without its table, an encoded message has the keys of its present fields in the order of the table: one record each, one packed record for an array of numbers, one record per item for other arrays |
| `Wire.PayloadNumbers` | iosapp/Pods/nanopb/pb_encode.c:760-841 | the payload of an integer spells it: a bool is 0 or 1, negative numbers are sign-extended to 64 bits, ZigZag numbers alternate, fixed-width words are little-endian |
| `RequiredFields.RequiredCheckExact` | iosapp/Pods/nanopb/pb_decode.c:1023-1070 | decoding succeeds exactly when the fields decode, the last fixed-count array is complete and each of the first 64 required fields occurred on the wire |
| `FixedArrays.FixedArraysComplete` | iosapp/Pods/nanopb/pb_decode.c:988-1028 | the loop gets through with its last fixed-count array complete if and only if every such array came complete in one run of records, as often as it came at all |
| `FixedArrays.SwitchRefused` | iosapp/Pods/nanopb/pb_decode.c:994-1003 | a record of one fixed-count array is refused while another one is incomplete |
| `Payloads.FullArrayRefuses` | iosapp/Pods/nanopb/pb_decode.c:447-463 | a further item for an array that is full is refused |
| `Payloads.EmptyRecordIgnored` | iosapp/Pods/nanopb/pb_decode.c:436-452 | a packed record without items changes nothing, however full the array is |
| `Payloads.TagZero` | iosapp/Pods/nanopb/pb_decode.c:957-986 | tag 0 with a wire type other than 0 is skipped like an unknown tag, but with an empty table it is taken for a bool |
| `Payloads.DelimitedEndsEarly` | iosapp/Pods/nanopb/pb_decode.c:1104-1117 | a delimited message may end early with a zero byte; what follows inside its length is passed over |
| `Logical.OmissionLosesNothing` | iosapp/Pods/nanopb/pb_encode.c:237-328 | when the default test says that all fields may be omitted, the default struct holds the same message, at every depth |
| `Omission.OmittedExactly` | iosapp/Pods/nanopb/pb_encode.c:237-328 | a singular field that is no submessage is left out if and only if its value is that of a zeroed struct (fixed-length bytes only if their length is zero) |
| `Omission.SubmessageOmitted` | iosapp/Pods/nanopb/pb_encode.c:286-305 | a singular submessage is left out if and only if it has no required field, no fixed-count array, and none of its other fields is present |
| `Omission.DefaultsEncodeToNothing` | iosapp/Pods/nanopb/pb_encode.c:519-541 | a default struct encodes to no bytes at all if and only if its table has no required field and nothing of a fixed size that has to be sent, at any depth of singular submessages |
| `Logical.DefaultsAreDefault` | iosapp/Pods/nanopb/pb_decode.c:836-919 | setting defaults brings a struct with any content to its default state, at every depth |
| `Varint.Varint64Exact` | iosapp/Pods/nanopb/pb_decode.c:255-275 | the 64-bit decoder accepts exactly the inputs that start with a terminated varint of at most ten bytes, and returns the sum of its groups mod 2^64 |
| `Varint.Varint64RoundTrip` | iosapp/Pods/nanopb/pb_decode.c:255-275 | decoding the encoding of any 64-bit number returns it and leaves what follows |
| `Varint.Varint32Refines64` | iosapp/Pods/nanopb/pb_decode.c:187-247 | on a terminated varint of at most ten bytes that it accepts, the 32-bit decoder reads the same bytes as the 64-bit one and returns its result mod 2^32 |
| `Varint.Varint32Exact` | iosapp/Pods/nanopb/pb_decode.c:187-247 | exactly which terminated varints of at most ten bytes the 32-bit decoder accepts: a last fifth byte has four bits, and later groups are zero or the sign extension of a result with bit 31 set |
| `Varint.Varint32RoundTrip` | iosapp/Pods/nanopb/pb_decode.c:187-247 | the 32-bit decoder accepts the encoding of every number below 2^32 |
| `Varint.Varint32RefusesWide` | iosapp/Pods/nanopb/pb_decode.c:219-226 | the 32-bit decoder refuses the encoding of every number from 2^32 up to 2^63 |
| `Varint.Varint32AcceptsNegative` | iosapp/Pods/nanopb/pb_decode.c:212-226 | the 32-bit decoder accepts every sign-extended negative 32-bit number and returns its low 32 bits |
| `Varint.EncVarintSpells` | iosapp/Pods/nanopb/pb_encode.c:599-619 | the encoding of a number is one varint whose groups spell it |
| `Varint.EncVarintMinimal` | iosapp/Pods/nanopb/pb_encode.c:599-619 | no varint of the same number is shorter |
| `Varint.EncVarintLength` | iosapp/Pods/nanopb/pb_encode.c:599-619 | a number takes at most n bytes exactly when it fits in 7n bits |
| `Varint.EncVarintAtMostTen` | iosapp/Pods/nanopb/pb_encode.c:601 | ten bytes of buffer are enough for every 64-bit number |
| `Scalars.ZigZagInverse` | iosapp/Pods/nanopb/pb_decode.c:1269-1281 | ZigZag encoding and decoding are inverse bijections on all 64-bit integers, the minimum included |
| `Scalars.LittleInverse` | iosapp/Pods/nanopb/pb_encode.c:632-657 | the little-endian bytes of a number give it back |
| `Scalars.FromLittleInverse` | iosapp/Pods/nanopb/pb_decode.c:1283-1315 | little-endian bytes are the bytes of the number they spell |
| `Scalars.SignedCast` | iosapp/Pods/nanopb/pb_decode.c:1348-1361 | the cast to a narrower signed field changes a value exactly when it is out of the range of the field, which is what the decoder tests |
| `Scalars.UnsignedCast` | iosapp/Pods/nanopb/pb_decode.c:1372-1385 | the cast to a narrower unsigned field changes a value exactly when it is out of range |
| `Payloads.VarIntExact` | iosapp/Pods/nanopb/pb_decode.c:1329-1364 | a signed field gets w from a varint if and only if w is in range and agrees with it on the low 32 bits (on all 64 for eight-byte fields) |
| `Payloads.UnextendedNegative` | iosapp/Pods/nanopb/pb_decode.c:1337-1346 | a negative int32 that was sent without sign extension is accepted as that negative number |
| `Payloads.UVarIntExact` | iosapp/Pods/nanopb/pb_decode.c:1366-1388 | an unsigned field gets w from a varint if and only if it spells w and w is in range |
| `Payloads.SVarIntExact` | iosapp/Pods/nanopb/pb_decode.c:1390-1412 | a ZigZag field gets w if and only if the varint is the ZigZag number of w and w is in range |
| `Payloads.BoolExact` | iosapp/Pods/nanopb/pb_decode.c:1318-1327 | a bool is 0 or 1, for any 32-bit varint that is or is not zero |
| `Payloads.FixedExact` | iosapp/Pods/nanopb/pb_decode.c:1283-1315 | fixed-width words take four or eight bytes, lowest first |
| `Payloads.BytesExact` | iosapp/Pods/nanopb/pb_decode.c:1431-1466 | bytes are accepted if and only if they and their four-byte size fit the field |
| `Payloads.StringExact` | iosapp/Pods/nanopb/pb_decode.c:1468-1501 | a string is accepted if and only if there is room for its NUL, which is written behind it |
| `Payloads.FixedLengthExact` | iosapp/Pods/nanopb/pb_decode.c:1527-1548 | fixed-length bytes are accepted in full, or with length zero for all zeros |
| `Iterator.AddressIsOffset` | iosapp/Pods/nanopb/pb_common.c:39-75 | the addresses the iterator accumulates are the static offsets of the entries |
| `Iterator.SlotAddress` | iosapp/Pods/nanopb/pb_common.c:44-50 | members of one union are at the same address |
| `Iterator.FieldIter.Begin` | iosapp/Pods/nanopb/pb_common.c:8-18 | the iterator is at entry 0 with the addresses and the required index of that position |
| `Iterator.FieldIter.Next` | iosapp/Pods/nanopb/pb_common.c:20-76 | one step on, or from the last entry back to the first; addresses and required index remain functions of the position |
| `Iterator.FieldIter.Find` | iosapp/Pods/nanopb/pb_common.c:78-95 | terminates; finds the tag if and only if the table has it (an empty table also answers to tag 0); on failure the whole iterator is restored |
| `OutputStream.WroteThen` | iosapp/Pods/nanopb/pb_encode.c:103-121 | writes in sequence append the concatenation, or fail |
| `OutputStream.OStream.FromBuffer` | iosapp/Pods/nanopb/pb_encode.c:86-101 | an output stream over a window of a buffer |
| `OutputStream.OStream.Sizing` | iosapp/Pods/nanopb/pb_encode.h:106-110 | a stream that only counts |
| `OutputStream.OStream.Write` | iosapp/Pods/nanopb/pb_encode.c:103-121 | the data is appended exactly when it fits; a sizing stream only counts |
| `OutputStream.OStream.BufWrite` | iosapp/Pods/nanopb/pb_encode.c:74-84 | the bytes at the cursor become the data and no other byte changes |
| `InputStream.IStream.ReadBytes` | iosapp/Pods/nanopb/pb_decode.c:102-139 | the next bytes are returned if there are enough; cursor plus bytes left stays the same |
| `InputStream.IStream.ReadByte` | iosapp/Pods/nanopb/pb_decode.c:141-157 | the next byte, or failure at the end of the stream |
| `InputStream.IStream.DecodeVarint32Eof` | iosapp/Pods/nanopb/pb_decode.c:187-247 | reads exactly what the 32-bit varint specification says; reports the end of the stream exactly when there was nothing to read |
| `InputStream.IStream.DecodeVarint32` | iosapp/Pods/nanopb/pb_decode.c:249-253 | the same without the end-of-stream flag |
| `InputStream.IStream.DecodeVarint` | iosapp/Pods/nanopb/pb_decode.c:255-276 | reads exactly what the 64-bit varint specification says |
| `InputStream.IStream.SkipVarintBytes` | iosapp/Pods/nanopb/pb_decode.c:278-287 | skips through the first byte without continuation bit |
| `InputStream.IStream.SkipString` | iosapp/Pods/nanopb/pb_decode.c:289-296 | skips a length and that many bytes |
| `InputStream.IStream.SkipField` | iosapp/Pods/nanopb/pb_decode.c:321-334 | skips one payload of the given wire type and fails on an unknown one |
| `InputStream.IStream.DecodeTag` | iosapp/Pods/nanopb/pb_decode.c:298-319 | splits the key into tag and wire type; the end of the bytes or a zero key ends the message |
| `InputStream.IStream.MakeSubstream` | iosapp/Pods/nanopb/pb_decode.c:372-385 | splits off a window of the declared length if the parent has it |
| `InputStream.IStream.CloseSubstream` | iosapp/Pods/nanopb/pb_decode.c:387-400 | the parent cursor lands on the end of the window, however much of it was read |
| `InputStream.Rejoin` | iosapp/Pods/nanopb/pb_decode.c:372-400 | after make and close the parent stands exactly behind the record with its window end unchanged |
| `Encoder.EncodeVarint` | iosapp/Pods/nanopb/pb_encode.c:599-619 | appends the minimal varint |
| `Encoder.EncodeSVarint` | iosapp/Pods/nanopb/pb_encode.c:621-630 | appends the varint of the ZigZag form |
| `Encoder.EncodeFixed32` | iosapp/Pods/nanopb/pb_encode.c:632-641 | appends the four little-endian bytes |
| `Encoder.EncodeFixed64` | iosapp/Pods/nanopb/pb_encode.c:644-657 | appends the eight little-endian bytes |
| `Encoder.EncodeTag` | iosapp/Pods/nanopb/pb_encode.c:660-664 | appends the key varint of tag and wire type |
| `Encoder.EncodeTagForField` | iosapp/Pods/nanopb/pb_encode.c:666-698 | appends the key with the wire type of the field |
| `Encoder.EncodeString` | iosapp/Pods/nanopb/pb_encode.c:700-706 | appends the length and the data |
| `Encoder.CheckProto3Default` | iosapp/Pods/nanopb/pb_encode.c:237-328 | answers the recursive default test |
| `Encoder.StringLength` | iosapp/Pods/nanopb/pb_encode.c:877-884 | counts up to the NUL or the end of the buffer |
| `Encoder.EncodeScalar` | iosapp/Pods/nanopb/pb_encode.c:760-841 | appends the payload of an integer field |
| `Encoder.EncodeBlob` | iosapp/Pods/nanopb/pb_encode.c:843-902 | appends the payload of a bytes, string or fixed-length field, or refuses an overlong bytes value |
| `Encoder.PackedLength` | iosapp/Pods/nanopb/pb_encode.c:166-186 | the computed length of a packed array is the length of what will be written |
| `Encoder.EncodePackedArray` | iosapp/Pods/nanopb/pb_encode.c:161-202 | appends one record with all items, whose declared length is right |
| `Encoder.EncodeArray` | iosapp/Pods/nanopb/pb_encode.c:144-233 | appends the array, packed whenever its type can be packed, and refuses a count over the array size |
| `Encoder.EncodeField` | iosapp/Pods/nanopb/pb_encode.c:332-417 | appends the records of one field, nothing for an absent one |
| `Encoder.Encode` | iosapp/Pods/nanopb/pb_encode.c:519-541 | pb_encode appends exactly the encoding of the message if it is encodable and fits, and fails otherwise; nothing outside the window of the stream ever changes |
| `Encoder.EncodeSubmessage` | iosapp/Pods/nanopb/pb_encode.c:708-756 | sizing and then writing appends the delimited message |
| `Encoder.EncodeWindow` | iosapp/Pods/nanopb/pb_encode.c:735-755 | the writing pass fills a window of the size found by the sizing pass exactly, so that the size test never fails |
| `Encoder.EncodeDelimited` | iosapp/Pods/nanopb/pb_encode.c:543-546 | appends the delimited message |
| `Encoder.EncodeNullTerminated` | iosapp/Pods/nanopb/pb_encode.c:548-556 | appends the message and a zero byte |
| `Encoder.GetEncodedSize` | iosapp/Pods/nanopb/pb_encode.c:558-567 | succeeds exactly for encodable messages and returns the length of the encoding, which is within a bound known from the descriptor |
| `Encoder.SizeAndEncode` | iosapp/Pods/nanopb/pb_encode.c:519-567 | after the sizing pass, the writing pass succeeds if and only if the sizing pass did and the size fits; it then appends exactly that many bytes, the encoding, and no other byte changes |
| `SizeBound.MessageBound` | iosapp/Pods/nanopb/pb_encode.c:519-541 | no message encodes to more bytes than a bound computed from its descriptor |
| `RequiredFields.Mark` | iosapp/Pods/nanopb/pb_decode.c:1012-1017 | the bitmap records one more required field and forgets none |
| `RequiredFields.CheckRequired` | iosapp/Pods/nanopb/pb_decode.c:1048-1069 | the test on whole words and remaining bits passes exactly when every required field was recorded, for every count up to 64 |
| `RequiredFields.CountRequired` | iosapp/Pods/nanopb/pb_decode.c:1036-1046 | the count of required fields is right from every position at which decoding can leave the iterator |
| `Decoder.DecodeSVarint` | iosapp/Pods/nanopb/pb_decode.c:1269-1281 | reads a varint and undoes ZigZag |
| `Decoder.DecodeFixed` | iosapp/Pods/nanopb/pb_decode.c:1283-1315 | reads four or eight little-endian bytes |
| `Decoder.DecodeScalar` | iosapp/Pods/nanopb/pb_decode.c:1318-1429 | reads one integer of the field type and refuses one that does not fit the field |
| `Decoder.DecodeBlob` | iosapp/Pods/nanopb/pb_decode.c:1431-1501 | reads bytes, a string (which it terminates) or fixed-length bytes, and refuses overlong data |
| `Decoder.SetFieldToDefault` | iosapp/Pods/nanopb/pb_decode.c:836-906 | the slot becomes the default slot of the field; items of arrays and the content of unions stay |
| `Decoder.SetToDefaults` | iosapp/Pods/nanopb/pb_decode.c:908-919 | the struct becomes the default struct; the loop over the entries reaches each slot |
| `Decoder.DecodeSubmessage` | iosapp/Pods/nanopb/pb_decode.c:1503-1525 | decodes within the declared length into the old content, or into a default struct for an array item, and goes on behind the record |
| `Decoder.DecodePackedItems` | iosapp/Pods/nanopb/pb_decode.c:436-445 | reads items until the record or the room ends |
| `Decoder.DecodePackedField` | iosapp/Pods/nanopb/pb_decode.c:425-453 | stores the items of a packed record and refuses one that does not fit |
| `Decoder.DecodeItem` | iosapp/Pods/nanopb/pb_decode.c:454-464 | stores one more item and refuses one too many |
| `Decoder.DecodeField` | iosapp/Pods/nanopb/pb_decode.c:406-480 | decodes one field as the field specification says, with a union that held another member read as zero (see Independence.UnionContentUnseen) |
| `Decoder.EnterField` | iosapp/Pods/nanopb/pb_decode.c:988-1017 | the bookkeeping for fixed-count arrays and required fields; a new fixed-count array is refused while the last one is incomplete |
| `Decoder.DecodeFields` | iosapp/Pods/nanopb/pb_decode.c:943-1021 | the field loop is the loop specification on every input; it terminates since every round takes a byte and every nested decode works on fewer bytes |
| `Decoder.DecodeNoInit` | iosapp/Pods/nanopb/pb_decode.c:925-1073 | decodes any bytes, malformed ones included, as the specification says: same verdict, same struct, same bytes left |
| `Decoder.Decode` | iosapp/Pods/nanopb/pb_decode.c:1075-1087 | the same after setting the defaults |
| `Decoder.DecodeDelimited` | iosapp/Pods/nanopb/pb_decode.c:1104-1117 | the same within a length-delimited record |
| `Geo3x3.CodeCoversPoint` | assets/geo3x3.rb:4-69 | encode and then decode gives a square that contains the point, so that its centre is within half a unit in both coordinates, if and only if the point is in range; the code has one letter and level - 1 digits 1 to 9, the level is given back and the unit is 180 / 3^(level - 1) |
| `Geo3x3.SquareIsCode` | assets/geo3x3.rb:4-69 | among points in range, those in the square of a code are exactly those that encode to it |
| `Geo3x3.CentreEncodesToCode` | assets/geo3x3.rb:4-69 | for every code, encoding the decoded centre at the decoded level returns the code |
| `Geo3x3.CoarserIsPrefix` | assets/geo3x3.rb:20-27 | the code of a point at a level is a prefix of its code at every finer level |
| `Geo3x3.FinerIsInside` | assets/geo3x3.rb:52-61 | whatever is appended to a code, the square lies inside that of the code |
| `Geo3x3.IntegerIsText` | assets/geo3x3.rb:33-34 | an integer code decodes like its text, negative ones as western codes |
| `Geo3x3.SignIsLetter` | assets/geo3x3.rb:43-45 | a plus sign stands for E, a minus sign for W, and a text with neither sign nor letter is eastern and loses nothing |
| `Geo3x3.DigitsAreEastern` | assets/geo3x3.rb:43-45 | a code of digits alone decodes like the eastern code |
| `Geo3x3.RestIsIgnored` | assets/geo3x3.rb:52-54 | decoding stops in front of the first character that is no digit from 1 to 9 |
| `Geo3x3.IntegerIsDecimal` | assets/geo3x3.rb:33-34 | any integer decodes like its decimal notation behind the letter of its sign |
| `Geo3x3.DecimalReads` | assets/geo3x3.rb:34 | decimal notation spells the number, without leading zeros |
| `Geo3x3.Refused` | assets/geo3x3.rb:5-41 | the argument errors: a level below 1, an empty text, neither integer nor text |
| `Geo3x3.CodesAreCells` | assets/geo3x3.rb:20-27 | within any cell, digits lead to the subcell of a point exactly when they are what encoding the point gives |
| `Geo3x3.RoundIsStep` | assets/geo3x3.rb:20-27 | for a point inside a cell, one round gives a digit 1 to 9 and leaves the offset of the point within the subcell of that digit |
| `Basics.TruncExact` | assets/geo3x3.rb:22-23 | conversion to an integer goes towards zero |
| `Geo3x3.Encode` | assets/geo3x3.rb:4-30 | the loop computes the code of the specification, or the argument error |
| `Geo3x3.Decode` | assets/geo3x3.rb:32-69 | the loop computes the square of the specification, or the argument error |
| `QuakeRuns.ReportsExactly` | raspi/m-tsunami-motion.py:92-105 | a report is due at tick t if and only if there was a shake at t - N + 1 and none since; its time runs from the first shake of the cluster, and its statistics are about the last samples of that time |
| `QuakeRuns.RunTracks` | raspi/m-tsunami-motion.py:79-105 | after every number of ticks the whole state of the loop is a function of the readings: buffers, means, countdown and clock |
| `QuakeRuns.StepTracks` | raspi/m-tsunami-motion.py:80-105 | one tick stays quiet, reports or ends the loop exactly as the readings demand, and keeps the state in step with them |
| `QuakeRuns.ArmedExactly` | raspi/m-tsunami-motion.py:86-105 | each buffer is the last min(t, DATA_MAX) samples, and the clock is kept exactly while 1 <= started < N, which is exactly while there was a shake less than N - 1 ticks ago |
| `QuakeRuns.OnsetStartsCluster` | raspi/m-tsunami-motion.py:92-97 | the clock is read at a shake after a pause of at least N - 1 ticks without a shake, and the cluster has no such pause inside |
| `QuakeRuns.OneReportPerCluster` | raspi/m-tsunami-motion.py:92-105 | there are as many reports as clusters of shakes, but for one that is still going on |
| `QuakeRuns.NeverStops` | raspi/m-tsunami-motion.py:47-60 | with a clock that is never set back the statistics never divide by zero |
| `QuakeRuns.ShakenIsShakeAt` | raspi/m-tsunami-motion.py:85-91 | the shake test on buffers and last means is the jump between the means of two successive windows of samples |
| `QuakeRuns.ShakeOnSomeAxis` | raspi/m-tsunami-motion.py:85-91 | a shake is on x, y or z, where the average of one window was positive and the next one is above or below it by more than the threshold |
| `QuakeRuns.JumpIsSymmetric` | raspi/m-tsunami-motion.py:89 | between positive means the shake test has no direction |
| `QuakeRuns.WindowMoves` | raspi/m-tsunami-motion.py:88 | one tick moves num times the mean by the new sample less the one that leaves the window |
| `QuakeRuns.TotalOfEqual` | raspi/m-tsunami-motion.py:88 | the mean of equal samples is that sample |
| `Quake.DeployedIsSound` | raspi/m-tsunami-motion.py:18-22 | the constants of the script: four samples, 0.3 seconds, 60 seconds |
| `QuakeRuns.WindowEmpty` | raspi/m-tsunami-motion.py:47-53 | the statistics get no samples exactly when the clock was set back by at least as many intervals as there are samples |
| `QuakeRuns.Watch` | raspi/m-tsunami-motion.py:79-116 | the loop over any readings does in every tick what the declarative specification says, until an exception if there is one |
| `Quake.Detector.constructor` | raspi/m-tsunami-motion.py:73-76 | the initial state |
| `Quake.Detector.Absorb` | raspi/m-tsunami-motion.py:80-91 | the sample enters the buffers, the means move on and the shake is found |
| `Quake.Detector.Tick` | raspi/m-tsunami-motion.py:80-105 | one turn of the loop is one step of the state machine |

## Left out

- Callback fields, extensions, and streams with callbacks of their own: they run user code. Without
  extension fields the search for them has no effect, so an unknown tag goes straight to skipping.
- Pointer fields and everything under `PB_ENABLE_MALLOC`, `PB_WITHOUT_64BIT`, `PB_BUFFER_ONLY` and
  `PB_ENCODE_ARRAYS_UNPACKED`: not switched on in this repository.
- Raw struct memory: padding, alignment and the bytes of unused union members. A struct is a sequence of
  typed slots; only addresses of entries are modelled (`Iterator`).
- Nested structs in place: a submessage is decoded in a struct object of its own and copied back, and the
  items of a packed record are stored when the record ends; aliasing between the two is not modelled.
- The struct after a failed decode: its content is not specified.
- Message.DefaultSlot: for a fixed-count array, pb_decode.c:867 also stores a `pb_size_t` zero at the start
  of the array, since it has no count; for items narrower than 4 bytes this reaches past item 0, and for an
  array narrower than 4 bytes past the array into the members that follow. The model leaves the items, and the
  members, as they are. The round trips hold for any content of these items before.
- Decoder.SetFieldToDefault: as for Message.DefaultSlot.
- Decoder.SetToDefaults: as for Message.DefaultSlot.
- DecodeSpec.UnionStart: a union that held another member presents zeroed content to the decoder of the
  new one, while the source decodes over the old bytes. Independence.UnionContentUnseen and
  Independence.LoopAlike prove that this can only be seen behind the NUL of a string.
- Decoder.DecodeField: as for DecodeSpec.UnionStart.
- Descriptors that no generator emits: a submessage entry without table, integer fields of other widths than
  1, 2, 4 and 8 bytes, tags of 2^29 and more, default values on proto3 fields.
- Sizes over 2^64 bytes: encoder methods ask for a descriptor whose largest message is below that. The
  round trips ask for encodings below 2^32 bytes, since lengths are read by the 32-bit decoder.
- InputStream.IStream.DecodeVarint32Eof: `uint_fast8_t` is taken to have 8 bits, so the bit position wraps at
  256. Varint.Varint32Refines64 is about varints of at most ten bytes, where this makes no difference.
- The configuration is the one with `PB_FIELD_32BIT` and 64 required fields.
- Merge.ConcatenationMerges: only for tables without fixed-count arrays at the top level, whose counter
  starts again with each call.
- Reencode.DecodedCanBeSentOn: decoding the encoding again needs it to be below 2^32 bytes, like every round
  trip; default values in the table have to fit their fields, as generated ones do.
- Append.RepeatedFieldsAppend: for arrays with a count whose items hold no fixed-count arrays, when both decodes
  succeed.
- Error messages.
- Floating-point rounding, infinities and NaN in Geo3x3 and in the detection loop.
- The statistics of a report (only the samples they are made of are modelled), LEDs, pauses, printing, HTTP
  and Slack. Samples and clock readings are inputs.
- The iOS application, the Rails application, the conversion scripts and the other vendored libraries.
