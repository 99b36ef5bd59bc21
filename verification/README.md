# Verified model of the C libraries vendored by Foresome

The iOS application Foresome vendors two C libraries whose correctness does not
depend on the platform: nanopb, the Protocol Buffers codec that Firestore uses, and
parts of libuv that come with gRPC. This project models them in Dafny and proves what
they are for.

* **nanopb** (`Pb*.dfy`): a codec that is driven by a descriptor table. `PbWire`,
  `PbVarint32`, `PbTypes`, `PbEncodeSpec` and `PbDecodeSpec` say what encoding and
  decoding mean on values; `PbRoundTrip`, `PbMerge`, `PbRequired`, `PbRuns` and
  `PbBounds` prove the laws of the codec about these functions, and `PbEncodeLaws` and
  `PbDecodeLaws` compare them with the wire format of Protocol Buffers, which
  `PbWireFormat` describes on its own; `PbCommon`, `PbOutput`, `PbEncode`,
  `PbInput` and `PbDecode` are the C functions with their loops, streams and fields,
  each shown to do what the functions say; `PbCodec` puts both ends together. Decoding
  covers descriptors that contain themselves behind pointers; the round trip is about
  static ones. `PbReleaseSpec`, `PbReachable` and `PbRelease` treat the release of
  allocated messages, on a memory of blocks.
* **The heap of libuv** (`HeapOrder`, `HeapInl`): a pointer-linked binary heap that
  relinks nodes. The heap order is proved on the level-order sequence, the links on
  the nodes.
* **IDNA** (`Utf8`, `Utf8Text`, `Punycode`, `Rfc3492`, `Idna`): the domain name encoder,
  against a decoder written from section 6.2 of RFC 3492 and the encoding of RFC 3629.
* **Addresses** (`Inet4`, `Inet6Spec`, `Inet6Grammar`, `Inet6Text`, `Inet6`): the printers
  and parsers of IPv4 and IPv6 addresses, with the exact sets of texts that are accepted
  and the form of those that are written.
* **The file poller** (`FsPollSpec`, `FsPollRuns`, `FsPollNews`, `FsPoll`): a protocol of starts,
  stops, stats, timers and closing, as a state machine over events, and as objects
  whose methods take these steps.

C integers are unbounded integers with explicit reductions (`Word32`, `Word64`,
`Int64`) where C wraps or truncates. A pointer into a struct is a field of an object
or, where the layout matters, an offset.

Two places where the documentation promises more than the code does:

* `pb_decode.h` lines 74-75 offer `pb_decode_noinit` for merging messages.
  Decoding a concatenation is not merging when the first message ends in the
  fixed-count array that is the first one of the second: `PbMerge.MergeFails` is an
  example, and `PbMerge.ConcatenationIsMerge` has the exact condition.
* The asserts in the timer callback of the file poller fail in runs in which the stat
  of a superseded context completes while the poller is active again
  (`FsPollRuns.RestartTooSoon`, `FsPollRuns.BadCompletionAborts`);
  `FsPollSpec.CompletionExact` has the exact condition.

## Model

| member | source | states |
|---|---|---|
| PbRoundTrip.MessageRoundTrip | Foresome/Pods/nanopb/pb_encode.c:528-550 | for every table of static descriptors, which nest to a bounded depth: whatever encoding emits for a message whose absent fields hold their defaults, decoding accepts, consumes entirely, and turns into the same message |
| PbRoundTrip.FieldRoundTrip | Foresome/Pods/nanopb/pb_encode.c:341-426 | the records of one field, decoded into a message that has the fields before it, add exactly that field |
| PbRoundTrip.ValueRoundTrip | Foresome/Pods/nanopb/pb_decode.c:406-483 | one value of any type, scalar or submessage, is read back and the rest of the stream is left alone |
| PbRoundTrip.ScalarRoundTrip | Foresome/Pods/nanopb/pb_decode.c:1334-1570 | the same for each of the scalar types, with the sizes and signs of the C members |
| PbRoundTrip.PackedRoundTrip | Foresome/Pods/nanopb/pb_decode.c:424-453 | the data of a packed array, from any entry on, decodes to the remaining entries |
| PbRoundTrip.DefaultMessageEqual | Foresome/Pods/nanopb/pb_encode.c:240-337 | a message that the proto3 test takes for a default one is the default message, so leaving it out loses nothing |
| PbRoundTrip.ZeroMember | Foresome/Pods/nanopb/pb_encode.c:318-336 | the bytes of a member are all zero exactly when the number or truth value in it is, for every value the member has room for |
| PbCodec.PassThrough | Foresome/Pods/nanopb/pb_encode.c:528-550 | a faithful message written to a buffer by the encoder and read from it by the decoder arrives unchanged, whatever the receiving struct held; it is written if and only if it can be encoded and has room |
| PbEncodeLaws.EncodesRecords | Foresome/Pods/nanopb/pb_encode.c:528-550 | what is emitted for a faithful message is the wire form of its records: fields in order, tags and the wire numbers 0, 1, 2 and 5 as the Protocol Buffers specification gives them, negative `int32` in 64-bit two's complement, `sint` in zigzag form, fixed-width numbers low byte first, packed arrays as one record, and singular fields without has_ member only when they are not zero |
| PbEncodeLaws.FieldWritten | Foresome/Pods/nanopb/pb_encode.c:341-426 | the same for one field, by its rule: required always, optional by its has_ member, arrays entry by entry or packed, and of a union the selected member |
| PbEncodeLaws.ScalarWritten | Foresome/Pods/nanopb/pb_encode.c:769-911 | the payload of each scalar type and the wire number that announces it |
| PbEncodeLaws.MessageDefault | Foresome/Pods/nanopb/pb_encode.c:240-337 | the proto3 test holds of a submessage exactly when it has no record to write and no empty fixed-count array |
| PbEncodeLaws.MessageEncodes | Foresome/Pods/nanopb/pb_encode.c:147-236 | a faithful message is encoded if and only if its arrays have no more entries than their size, its byte strings fit with their length field, and its integers are 1, 2, 4 or 8 bytes wide, in submessages too |
| PbEncodeLaws.StrangerSkips | Foresome/Pods/nanopb/pb_encode.c:675-707 | a receiver whose descriptor has none of the sender's tags reads over the whole encoding and keeps its state, for every static table and every message with bodies below 2^32 bytes |
| PbDecodeLaws.ReadsPayload | Foresome/Pods/nanopb/pb_decode.c:1334-1570 | every payload of the shape of its type is accepted exactly when the value fits the member, as that value, and the rest of the stream is left alone |
| PbDecodeLaws.LastValueWins | Foresome/Pods/nanopb/pb_decode.c:406-421 | a scalar record of a singular field replaces the value and sets has_ or which_, marks one of the first 64 required fields, and changes nothing else; a value that does not fit is an error |
| PbDecodeLaws.SubmessageMerges | Foresome/Pods/nanopb/pb_decode.c:418-421 | a record of a required or optional submessage is decoded into what the field holds |
| PbDecodeLaws.TwiceMerges | Foresome/Pods/nanopb/pb_decode.c:1538-1543 | two records of such a field leave what decoding the second body makes of what decoding the first made of the old contents, and it is an error when either fails |
| PbDecodeLaws.PointerStartsOver | Foresome/Pods/nanopb/pb_decode.c:563-596 | a record of a submessage behind a pointer is decoded on its own, whatever the pointer held |
| PbDecodeLaws.OtherMemberStartsOver | Foresome/Pods/nanopb/pb_decode.c:466-478 | a submessage record of a member that the union does not hold is decoded on its own and selects the member |
| PbDecodeLaws.SameMemberMerges | Foresome/Pods/nanopb/pb_decode.c:466-478 | a submessage record of the member that the union holds is decoded into it |
| PbDecodeLaws.ArrayGrows | Foresome/Pods/nanopb/pb_decode.c:454-464 | a record of an array with a count appends its entry, up to the size of the array, and is an error beyond |
| PbDecodeLaws.FixedArrayFills | Foresome/Pods/nanopb/pb_decode.c:996-1019 | a fixed-count array is filled from its first entry on; an entry too many is an error, and so is another such array that was left unfinished |
| PbDecodeLaws.PackedIsUnpacked | Foresome/Pods/nanopb/pb_decode.c:424-453 | a packed record has the outcome of the same entries in records of their own, errors included |
| PbDecodeLaws.ZeroKeyStops | Foresome/Pods/nanopb/pb_decode.c:298-319 | a zero key ends the message there |
| PbBounds.DecodedFits | Foresome/Pods/nanopb/pb_decode.c:934-1082 | decoding any bytes into a message that fits its struct leaves one that fits: numbers in the range of their member, strings with room for their NUL, arrays within their size, at every depth, provided the default values of the table fit |
| PbBounds.DecodedWhole | Foresome/Pods/nanopb/pb_decode.c:996-1037 | a message that is decoded has no fixed-count array that is filled in part |
| PbBounds.RunKeepsOthers | Foresome/Pods/nanopb/pb_decode.c:952-1030 | a run leaves every cell alone that none of its records belongs to |
| PbBounds.AbsentHasDefault | Foresome/Pods/nanopb/pb_decode.c:845-928 | a field without record is absent in the decoded message and has the default value of its descriptor, or else zero |
| PbMerge.ConcatenationIsMerge | Foresome/Pods/nanopb/pb_decode.c:934-1082 | decoding two messages one after the other into one struct gives the same as decoding their concatenation, except when both meet in one fixed-count array, and then the concatenation is rejected; whether they meet is read off the keys of the two byte strings |
| PbMerge.ScanAgrees | Foresome/Pods/nanopb/pb_decode.c:996-1019 | scanning the keys and lengths of a stream that is decoded finds the fixed-count arrays that the decoder meets, the first and the last one |
| PbMerge.MergeFails | Foresome/Pods/nanopb/pb_decode.c:934-1082 | a message of one flag in a fixed-count array of one entry is decoded, and decoded again into the result, but two copies of it in one stream are rejected |
| PbMerge.RunAfterFixed | Foresome/Pods/nanopb/pb_decode.c:996-1019 | a fixed-count array that was finished before a stream makes no difference to it, unless the stream's first fixed-count array is that one |
| PbMerge.RepeatedFixedFails | Foresome/Pods/nanopb/pb_decode.c:454-464 | a stream that fills an empty fixed-count array makes decoding fail when the array is already full |
| PbMerge.RunIgnoresSeen | Foresome/Pods/nanopb/pb_decode.c:1021-1030 | the required-field marks do not influence what is decoded |
| PbRuns.UnknownFieldIsTransparent | Foresome/Pods/nanopb/pb_decode.c:966-995 | inserting a well-formed record with an unknown tag between two records changes neither message nor outcome |
| PbRuns.UnknownRecordShapes | Foresome/Pods/nanopb/pb_decode.c:278-331 | exactly the wire types 0, 1, 2 and 5 with a complete payload are skippable records |
| PbRuns.RunAppend | Foresome/Pods/nanopb/pb_decode.c:952-1030 | decoding is a run over records: after a first part, the rest is decoded from the state reached |
| PbRuns.TagRead | Foresome/Pods/nanopb/pb_decode.c:298-319 | every key the encoder writes is read back as the same tag and wire type |
| PbRuns.DecodesNested | Foresome/Pods/nanopb/pb_decode.c:1525-1547 | with a descriptor that contains itself behind a pointer, messages nested to any depth are decoded to what they encode |
| PbRequired.RequiredFieldsChecked | Foresome/Pods/nanopb/pb_decode.c:1021-1079 | when the records decode and fixed-count arrays are complete, decoding succeeds if and only if each of the first 64 required fields occurs |
| PbRequired.RunSeen | Foresome/Pods/nanopb/pb_decode.c:1021-1030 | the marks are exactly the numbers of the tracked required fields that occur |
| PbVarint32.Varint32Agrees | Foresome/Pods/nanopb/pb_decode.c:187-247 | whenever the 32-bit varint reader accepts at most ten bytes, the 64-bit reader accepts the same bytes with the same low 32 bits |
| PbVarint32.Varint32Canonical | Foresome/Pods/nanopb/pb_decode.c:187-247 | the exact set of values whose encodings the 32-bit reader accepts, and what it returns for them |
| PbVarint32.Varint32Ranges | Foresome/Pods/nanopb/pb_decode.c:187-252 | 32-bit values and sign-extended negative ones are accepted, values from 2^32 up to 2^63 are rejected |
| PbWire.VarintRoundTrip | Foresome/Pods/nanopb/pb_encode.c:608-628 | every 64-bit value is read back from its one to ten bytes, with the rest untouched |
| PbWire.ZigZagRoundTrip | Foresome/Pods/nanopb/pb_decode.c:1285-1297 | zigzag is inverted for every 64-bit signed value |
| PbWire.FixedRoundTrip | Foresome/Pods/nanopb/pb_decode.c:1299-1331 | fixed-width values are read back from their little-endian bytes |
| PbWireFormat.VarintDigits | Foresome/Pods/nanopb/pb_encode.c:608-628 | byte k of a varint is the k-th digit to the base 128, with 128 added to all but the last, and there are as many as the number needs |
| PbWireFormat.FixedIsLowFirst | Foresome/Pods/nanopb/pb_encode.c:641-666 | byte k of a fixed-width number is its k-th digit to the base 256 |
| PbWireFormat.VarintAccepted | Foresome/Pods/nanopb/pb_decode.c:255-275 | a 64-bit varint is read if and only if one of the first ten bytes is below 128 |
| PbWire.ReadVarintAppend | Foresome/Pods/nanopb/pb_decode.c:255-275 | what follows a varint does not influence how it is read |
| PbWire.SkipFieldAppend | Foresome/Pods/nanopb/pb_decode.c:321-331 | skipping a field consumes exactly its payload |
| PbTypes.DefaultsAt | Foresome/Pods/nanopb/pb_decode.c:845-928 | after initialisation every field holds its default, and a union belongs to no field |
| PbTypes.FindOwnTag | Foresome/Pods/nanopb/pb_common.c:87-104 | searching for the tag of a field finds that field |
| PbCommon.WalkFindsMember | Foresome/Pods/nanopb/pb_common.c:29-85 | the sum of the increments of the walk is the offset of the member: unions do not advance, static arrays multiply |
| PbCommon.CellIsAddress | Foresome/Pods/nanopb/pb_common.c:29-85 | two fields have the same address exactly when they are members of one union |
| PbCommon.FieldIter.constructor | Foresome/Pods/nanopb/pb_common.c:8-27 | the iterator starts at the first field, with the address and the required-field number of the walk |
| PbCommon.FieldIter.Next | Foresome/Pods/nanopb/pb_common.c:29-85 | a step keeps address and required-field number those of the walk from the start, and the last step returns to the first field |
| PbCommon.FieldIter.Find | Foresome/Pods/nanopb/pb_common.c:87-104 | from any position the search ends, succeeds if and only if a field has the tag, stops there with the address of the walk, and otherwise ends where it began |
| PbOutput.OStream.FromBuffer | Foresome/Pods/nanopb/pb_encode.c:86-101 | a stream over a buffer has written nothing |
| PbOutput.OStream.Write | Foresome/Pods/nanopb/pb_encode.c:103-124 | a storing stream takes the data exactly when it fits, and then the data is in the buffer behind what was there; a counting stream counts |
| PbOutput.FillGroups | Foresome/Pods/nanopb/pb_encode.c:617-625 | the loop leaves the varint of the value in the buffer |
| PbOutput.EncodeVarint | Foresome/Pods/nanopb/pb_encode.c:608-628 | the stream takes the canonical varint of the value |
| PbOutput.EncodeSvarint | Foresome/Pods/nanopb/pb_encode.c:630-639 | the stream takes the varint of the zigzag form |
| PbOutput.EncodeFixed32 | Foresome/Pods/nanopb/pb_encode.c:641-650 | the stream takes four little-endian bytes |
| PbOutput.EncodeFixed64 | Foresome/Pods/nanopb/pb_encode.c:653-666 | the stream takes eight little-endian bytes |
| PbOutput.EncodeTagValue | Foresome/Pods/nanopb/pb_encode.c:669-673 | the stream takes the key of the field |
| PbOutput.EncodeString | Foresome/Pods/nanopb/pb_encode.c:709-715 | the stream takes the length and the bytes |
| PbEncode.MeasureString | Foresome/Pods/nanopb/pb_encode.c:873-897 | the length of a string is found without running past its buffer |
| PbEncode.EncScalar | Foresome/Pods/nanopb/pb_encode.c:769-910 | each scalar encoder emits what the wire format asks for its type, or fails for a bad size |
| PbEncode.EncTag | Foresome/Pods/nanopb/pb_encode.c:675-707 | the wire type of the key follows the type of the field; `PbEncodeLaws.ScalarWritten` has the numbers |
| PbEncode.EncSubmessage | Foresome/Pods/nanopb/pb_encode.c:717-765 | a submessage is its length and its body; sizing and writing agree, so the check for a changed size never fails |
| PbEncode.EncBody | Foresome/Pods/nanopb/pb_encode.c:730-765 | behind the announced length the body is counted, refused for lack of room, or written through a substream of exactly that length |
| PbEncode.PackedSize | Foresome/Pods/nanopb/pb_encode.c:169-189 | the size announced for a packed array is the size of its data |
| PbEncode.EncPacked | Foresome/Pods/nanopb/pb_encode.c:163-205 | a packed array is one record with the length and the data of its entries |
| PbEncode.EncUnpacked | Foresome/Pods/nanopb/pb_encode.c:206-233 | an unpacked array is one record for every entry, in order |
| PbEncode.EncArray | Foresome/Pods/nanopb/pb_encode.c:147-236 | an array with too many entries is refused, an empty one emits nothing |
| PbEncode.CheckProto3Default | Foresome/Pods/nanopb/pb_encode.c:240-337 | the test finds out exactly whether the member holds the default of its type, submessages included; numbers are compared byte by byte |
| PbEncode.ZeroMember | Foresome/Pods/nanopb/pb_encode.c:318-336 | the loop over the bytes of a member finds out whether all of them are zero |
| PbEncode.CheckSubmessage | Foresome/Pods/nanopb/pb_encode.c:288-309 | a submessage is a default one when all of its fields are |
| PbEncode.EncField | Foresome/Pods/nanopb/pb_encode.c:341-426 | a field emits a record exactly when it is present according to its rule |
| PbEncode.Encode | Foresome/Pods/nanopb/pb_encode.c:528-550 | the stream takes the encoding of the message, or fails if that does not fit |
| PbEncode.GetEncodedSize | Foresome/Pods/nanopb/pb_encode.c:567-576 | the size is the number of bytes of the encoding |
| PbEncode.SizeThenEncode | Foresome/Pods/nanopb/pb_encode.c:567-576 | encoding into a buffer succeeds exactly when the announced size fits, writes that many bytes and touches no others |
| PbInput.IStream.ReadByte | Foresome/Pods/nanopb/pb_decode.c:141-157 | reading takes the first byte that is left, or fails at the end |
| PbInput.IStream.ReadInto | Foresome/Pods/nanopb/pb_decode.c:102-137 | reading takes exactly the bytes asked for, or none |
| PbInput.IStream.Skip | Foresome/Pods/nanopb/pb_decode.c:102-126 | skipping drops exactly the bytes asked for |
| PbInput.DecodeVarint | Foresome/Pods/nanopb/pb_decode.c:255-275 | an accepted varint has the value of its 7-bit groups modulo 2^64, whatever bytes it has |
| PbInput.DecodeVarint32 | Foresome/Pods/nanopb/pb_decode.c:187-247 | the loop computes the 32-bit reading, and reports the end of the stream exactly when nothing is left |
| PbInput.DecodeTag | Foresome/Pods/nanopb/pb_decode.c:298-319 | a key is split into tag and wire type; a zero key ends the message |
| PbInput.DecodeSvarint | Foresome/Pods/nanopb/pb_decode.c:1285-1297 | the zigzag form is undone |
| PbInput.ReadFixed | Foresome/Pods/nanopb/pb_decode.c:1299-1331 | or-ing the shifted bytes together gives the little-endian value |
| PbInput.SkipOverVarint | Foresome/Pods/nanopb/pb_decode.c:278-287 | skipping drops the bytes of one varint |
| PbInput.SkipString | Foresome/Pods/nanopb/pb_decode.c:289-296 | skipping drops the length and the payload |
| PbInput.SkipOverField | Foresome/Pods/nanopb/pb_decode.c:321-331 | skipping drops exactly the payload of the wire type, and fails for the others |
| PbInput.MakeSubstream | Foresome/Pods/nanopb/pb_decode.c:372-385 | opening a substream splits the remaining bytes exactly, and the substream is strictly shorter than the stream was |
| PbInput.CloseSubstream | Foresome/Pods/nanopb/pb_decode.c:387-400 | however much of the substream was read, the stream goes on right behind the payload |
| PbDecode.FieldSetToDefault | Foresome/Pods/nanopb/pb_decode.c:845-915 | the member gets its default value, and no other member changes |
| PbDecode.MessageSetToDefaults | Foresome/Pods/nanopb/pb_decode.c:917-928 | the struct becomes the default message, whatever it held |
| PbDecode.DecInt | Foresome/Pods/nanopb/pb_decode.c:1345-1428 | integers are accepted exactly when they fit the size of the member |
| PbDecode.DecBytes | Foresome/Pods/nanopb/pb_decode.c:1447-1523 | bytes and strings are accepted exactly when they fit their buffer, with room for the NUL of a string |
| PbDecode.DecScalar | Foresome/Pods/nanopb/pb_decode.c:1334-1570 | each scalar decoder computes the value its type prescribes |
| PbDecode.DecSubmessage | Foresome/Pods/nanopb/pb_decode.c:1525-1547 | a submessage is decoded from its own bytes only, into what is there or, in an array or behind a pointer, into defaults; its descriptor may be the one of the message that contains it |
| PbDecode.DecPackedField | Foresome/Pods/nanopb/pb_decode.c:424-453 | packed data fills the array from its count on, and fails when it overflows it |
| PbDecode.DecArrayEntry | Foresome/Pods/nanopb/pb_decode.c:454-464 | an unpacked entry goes behind the others, if there is room; an array behind a pointer grows up to the largest count |
| PbDecode.DecRepeated | Foresome/Pods/nanopb/pb_decode.c:424-464 | a record of a repeated field appends one entry or the entries of a packed record, and moves the count or the local counter |
| PbDecode.CanAllocate | Foresome/Pods/nanopb/pb_decode.c:490-522 | the overflow check refuses exactly empty blocks and those whose size does not fit in a `size_t` |
| PbDecode.NewContent | Foresome/Pods/nanopb/pb_decode.c:535-594 | a pointer gets a new submessage that holds the defaults |
| PbDecode.OpenContent | Foresome/Pods/nanopb/pb_decode.c:466-478 | what a value is decoded into: defaults for a union member that was not selected and behind a pointer, otherwise what is there |
| PbDecode.DecField | Foresome/Pods/nanopb/pb_decode.c:406-483 | a record changes its field as the rule of the field says: has-flag, count, which-tag and old union content included, in place or behind a pointer |
| PbDecode.DecKnown | Foresome/Pods/nanopb/pb_decode.c:996-1030 | a record of a known field is decoded into it after the bookkeeping of fixed-count arrays and required fields |
| PbDecode.EnterFixedCount | Foresome/Pods/nanopb/pb_decode.c:996-1019 | the local counter stands in for a missing count, and an incomplete array must not be left |
| PbDecode.MarkRequired | Foresome/Pods/nanopb/pb_decode.c:1021-1026 | a bit is set for the required-field number of the field |
| PbDecode.CheckRequired | Foresome/Pods/nanopb/pb_decode.c:1057-1078 | comparing words and a last partial word finds out exactly whether all required fields were seen |
| PbDecode.CountRequired | Foresome/Pods/nanopb/pb_decode.c:1041-1055 | seeking to the end of the descriptor counts its required fields |
| PbDecode.DecRecord | Foresome/Pods/nanopb/pb_decode.c:966-1030 | one record is decoded into its field or skipped, with all bookkeeping |
| PbDecode.DecodeRecords | Foresome/Pods/nanopb/pb_decode.c:952-1030 | the loop ends on every input, since every record takes bytes, also for descriptors that contain themselves, and does what a run over the records does |
| PbDecode.DecodeNoinit | Foresome/Pods/nanopb/pb_decode.c:934-1082 | for every table, recursive ones included: decoding into an existing struct gives the merged message exactly when records, arrays and required fields are in order |
| PbDecode.Decode | Foresome/Pods/nanopb/pb_decode.c:1084-1096 | decoding starts from the defaults, whatever the struct held |
| PbReleaseSpec.FieldStep | Foresome/Pods/nanopb/pb_decode.c:1170-1259 | releasing a field leaves the struct in order, its own blocks gone, and the blocks of the other fields as they were |
| PbReleaseSpec.LiveInside | Foresome/Pods/nanopb/pb_decode.c:1170-1275 | the blocks that can be reached from a struct belong to it and are allocated |
| PbReleaseSpec.FieldsApart | Foresome/Pods/nanopb/pb_decode.c:1170-1275 | different fields reach different blocks |
| PbReleaseSpec.FrameTidy | Foresome/Pods/nanopb/pb_decode.c:1170-1275 | a struct is not affected by what happens outside its region |
| PbReachable.LiveIffReached | Foresome/Pods/nanopb/pb_decode.c:1170-1275 | the blocks that count as live are exactly those that a path of fields and array entries leads to from the struct: selected union members only, arrays up to their count, pointers and the texts behind them |
| PbRelease.Heap.Release | Foresome/Pods/nanopb/pb_decode.c:1261-1275 | every block that can be reached is freed once, no other one is, and afterwards nothing can be reached |
| PbRelease.Heap.ReleaseField | Foresome/Pods/nanopb/pb_decode.c:1170-1259 | the same for one field: submessages first, then texts, then the field's own block; only the current member of a union |
| PbRelease.Heap.ReleaseContents | Foresome/Pods/nanopb/pb_decode.c:1196-1231 | the contents of submessages, in place or allocated, are released, as many as the count says |
| PbRelease.Heap.ReleaseTexts | Foresome/Pods/nanopb/pb_decode.c:1235-1247 | every text of an array is freed once and its pointer set to NULL |
| PbRelease.Heap.ReleasePointer | Foresome/Pods/nanopb/pb_decode.c:1233-1258 | the field's own blocks are freed, its pointer is NULL and its count 0 |
| PbRelease.Heap.ReleaseTwice | Foresome/Pods/nanopb/pb_decode.c:1261-1275 | a second call frees nothing |
| HeapOrder.RootIsLeast | Foresome/Pods/Libuv-gRPC/src/heap-inl.h:67-69 | in heap order nothing comes before the root |
| HeapOrder.SwapUp | Foresome/Pods/Libuv-gRPC/src/heap-inl.h:143-147 | moving an entry up past its parent leaves it the only one that may be out of order |
| HeapOrder.SwapDown | Foresome/Pods/Libuv-gRPC/src/heap-inl.h:216-229 | the same for moving an entry down past its least child |
| HeapOrder.LeastOfThree | Foresome/Pods/Libuv-gRPC/src/heap-inl.h:221-225 | comparing with the left and then with the right child finds an entry that none of the three comes before |
| HeapOrder.ReplaceByLast | Foresome/Pods/Libuv-gRPC/src/heap-inl.h:195-214 | putting the last entry in the place of another one disturbs the order only there |
| HeapOrder.PathStep | Foresome/Pods/Libuv-gRPC/src/heap-inl.h:119-136 | the reversed bits of the node number are the way from the root to the node |
| HeapOrder.PathFits | Foresome/Pods/Libuv-gRPC/src/heap-inl.h:119-124 | the path is smaller than the node number, so it fits in a word |
| HeapInl.TimerLessIsOrder | Foresome/Pods/Libuv-gRPC/src/timer.c:38-55 | the comparison of timers is a strict weak order |
| HeapInl.TimersByDeadline | Foresome/Pods/Libuv-gRPC/src/timer.c:38-55 | a timer that does not come after another is due before it, or at the same time and was started no later |
| HeapInl.Heap.constructor | Foresome/Pods/Libuv-gRPC/src/heap-inl.h:62-65 | the new heap is empty and in order |
| HeapInl.Heap.NodeSwap | Foresome/Pods/Libuv-gRPC/src/heap-inl.h:72-104 | parent and child exchange their links, and all their neighbours follow |
| HeapInl.Heap.SwapLinks | Foresome/Pods/Libuv-gRPC/src/heap-inl.h:72-104 | inside a tree the exchange leaves every node, near or far, with the links of the exchanged tree |
| HeapInl.Heap.SwapAt | Foresome/Pods/Libuv-gRPC/src/heap-inl.h:72-104 | the tree stays complete and consistently linked; in level order just the two nodes trade places |
| HeapInl.FindPath | Foresome/Pods/Libuv-gRPC/src/heap-inl.h:119-124 | the loop computes the path to a node from its number |
| HeapInl.Heap.Walk | Foresome/Pods/Libuv-gRPC/src/heap-inl.h:126-136 | following the path ends at the pointer where the node is or will be |
| HeapInl.Heap.AddLast | Foresome/Pods/Libuv-gRPC/src/heap-inl.h:115-141 | the new node hangs at the left-most free place of the bottom row |
| HeapInl.Heap.TakeLast | Foresome/Pods/Libuv-gRPC/src/heap-inl.h:163-184 | the left-most node of the bottom row is found and cut off |
| HeapInl.Heap.Relink | Foresome/Pods/Libuv-gRPC/src/heap-inl.h:195-214 | the node cut off takes over all links of the node that is removed |
| HeapInl.Heap.SiftUp | Foresome/Pods/Libuv-gRPC/src/heap-inl.h:143-147 | walking up restores the heap order |
| HeapInl.Heap.SiftDown | Foresome/Pods/Libuv-gRPC/src/heap-inl.h:216-229 | walking down restores the order below the node |
| HeapInl.Heap.LeastOf | Foresome/Pods/Libuv-gRPC/src/heap-inl.h:221-225 | of a node and its children the least one is found, the node itself when no child comes before it |
| HeapInl.Heap.Insert | Foresome/Pods/Libuv-gRPC/src/heap-inl.h:106-148 | inserting a fresh node keeps shape, links and order; the nodes are the old ones and the new one |
| HeapInl.Heap.Remove | Foresome/Pods/Libuv-gRPC/src/heap-inl.h:150-237 | removing any member keeps shape, links and order; exactly that node is gone |
| HeapInl.Heap.Min | Foresome/Pods/Libuv-gRPC/src/heap-inl.h:67-69 | the root is a least node, and missing exactly when the heap is empty |
| HeapInl.Heap.Dequeue | Foresome/Pods/Libuv-gRPC/src/heap-inl.h:239-241 | a least node is removed |
| HeapInl.Heap.Drain | Foresome/Pods/Libuv-gRPC/src/heap-inl.h:239-241 | dequeuing until the heap is empty yields every node once, in sorted order |
| HeapInl.Heap.HeightLogarithmic | Foresome/Pods/Libuv-gRPC/src/heap-inl.h:106-148 | no node is farther from the root than the binary logarithm of the number of nodes |
| Utf8.SlowInverts | Foresome/Pods/Libuv-gRPC/src/idna.c:24-86 | every encoded code point above ASCII is decoded |
| Utf8.AcceptedIsEncoded | Foresome/Pods/Libuv-gRPC/src/idna.c:24-86 | of bytes with proper continuation bytes only encodings are accepted: no overlong forms, surrogates or too large values |
| Utf8.AcceptedIsScalar | Foresome/Pods/Libuv-gRPC/src/idna.c:24-86 | of any bytes, what is accepted is a code point that takes as many bytes as were read |
| Utf8.TopBitsOfContinuations | Foresome/Pods/Libuv-gRPC/src/idna.c:68-69 | the combined test by exclusive or lets three continuation bytes pass |
| Utf8.DecodeSlow | Foresome/Pods/Libuv-gRPC/src/idna.c:24-86 | how many bytes are read, past the end of the text too, and the value they have |
| Utf8.Decode1 | Foresome/Pods/Libuv-gRPC/src/idna.c:88-97 | one point is read at the cursor, which moves behind what was read, past the end of the text too |
| Utf8.PointIsScalar | Foresome/Pods/Libuv-gRPC/src/idna.c:24-97 | of any bytes only code points are accepted, as long as what was read; of proper continuation bytes inside the text only the encoding |
| Utf8.PointOfEncoded | Foresome/Pods/Libuv-gRPC/src/idna.c:24-97 | an encoded code point inside the text is read as itself |
| Utf8.EncodeSamples | Foresome/Pods/Libuv-gRPC/src/idna.c:24-97 | the code points of section 7 of RFC 3629 have the bytes given there |
| Utf8Text.TextIsRead | Foresome/Pods/Libuv-gRPC/src/idna.c:99-100 | well-formed text is read as its code points, and nothing is left at its end |
| Utf8Text.PointAt | Foresome/Pods/Libuv-gRPC/src/idna.c:99-100 | reading goes on from every point it reaches as it would from there, and stops at the first read that ends behind the text |
| Utf8Text.Stretch | Foresome/Pods/Libuv-gRPC/src/idna.c:250-291 | between the starts of two points a label is read as exactly the points between them, although the decoder is told another end |
| Punycode.ReadsVarInt | Foresome/Pods/Libuv-gRPC/src/idna.c:192-218 | the variable-length integer is read back by the decoder, scaled by the weight |
| Punycode.RoundsAppend | Foresome/Pods/Libuv-gRPC/src/idna.c:166-243 | a run of the decoder followed by one more integer is a run |
| Punycode.InsertPoint | Foresome/Pods/Libuv-gRPC/src/idna.c:184-239 | from the delta that is emitted the decoder finds the code point and its place among those it has |
| Punycode.NextPass | Foresome/Pods/Libuv-gRPC/src/idna.c:166-181 | skipping to the next code point adds the right number of steps |
| Punycode.EndPass | Foresome/Pods/Libuv-gRPC/src/idna.c:241-243 | the two increments at the end of a pass belong together |
| Rfc3492.AdaptIsStandard | Foresome/Pods/Libuv-gRPC/src/idna.c:222-239 | the bias is adapted as in section 6.1 of RFC 3492 with the parameters of section 5 |
| Rfc3492.ThresholdIsStandard | Foresome/Pods/Libuv-gRPC/src/idna.c:186-193 | the thresholds are those of section 6.2 |
| Rfc3492.DigitsAreStandard | Foresome/Pods/Libuv-gRPC/src/idna.c:104-104 | the digits are those of section 5 |
| Rfc3492.SampleDecodes | Foresome/Pods/Libuv-gRPC/src/idna.c:102-246 | the decoder turns sample (L) of section 7.1 into its code points |
| Idna.Next | Foresome/Pods/Libuv-gRPC/src/idna.c:99-100 | the loop header visits the points of the label one by one and stops behind the last, although it decodes one more |
| Idna.Output.Put | Foresome/Pods/Libuv-gRPC/src/idna.c:134-137 | the output is all that was put, cut to the room there is, and nothing else in the buffer changes |
| Idna.CountPoints | Foresome/Pods/Libuv-gRPC/src/idna.c:120-131 | of any bytes: the label is rejected exactly when the decoder rejects a point of it, and otherwise the counts are those of its ASCII and other code points |
| Idna.CopyAscii | Foresome/Pods/Libuv-gRPC/src/idna.c:140-151 | the ASCII characters are copied in order |
| Idna.Least | Foresome/Pods/Libuv-gRPC/src/idna.c:167-172 | the least code point that is left is found |
| Idna.EmitInt | Foresome/Pods/Libuv-gRPC/src/idna.c:192-218 | the digits of the generalized variable-length integer are put |
| Idna.AdaptBias | Foresome/Pods/Libuv-gRPC/src/idna.c:220-236 | the bias is the one of section 6.1 of RFC 3492, and the addition does not overflow |
| Idna.Advance | Foresome/Pods/Libuv-gRPC/src/idna.c:174-181 | the guard refuses exactly the additions that overflow 32 bits |
| Idna.Pass | Foresome/Pods/Libuv-gRPC/src/idna.c:183-239 | a pass emits every occurrence of a code point and keeps the encoder in step with the decoder |
| Idna.EmitRounds | Foresome/Pods/Libuv-gRPC/src/idna.c:161-243 | the rounds end with the decoder holding the whole label, or with an overflow, which only labels of thousands of code points can cause |
| Idna.DecodesBack | Foresome/Pods/Libuv-gRPC/src/idna.c:133-159 | characters, separator and digits decode to the label, with or without ASCII characters |
| Idna.ToAsciiLabel | Foresome/Pods/Libuv-gRPC/src/idna.c:102-246 | of any bytes: the label is rejected exactly when the decoder rejects a point of it; an ASCII label is copied, any other becomes "xn--" and text that the decoder of RFC 3492 maps back to its code points, in lower case up to the capital letters of the label, unless the label is so long that a delta overflows |
| Idna.ToAscii | Foresome/Pods/Libuv-gRPC/src/idna.c:250-291 | of any bytes: the name is split at the four full stops; each label is encoded, the dots and the final NUL are in place, and the result is the number of bytes written; it fails only for a rejected point or an overflow in a very long label |
| Idna.TextIsName | Foresome/Pods/Libuv-gRPC/src/idna.c:250-291 | of well-formed text the points are the code points, so that only very long labels are refused |
| Idna.LabelsHaveNoStop | Foresome/Pods/Libuv-gRPC/src/idna.c:263-276 | no label contains one of the full stops U+002E, U+3002, U+FF0E and U+FF61 |
| Idna.LabelsAreName | Foresome/Pods/Libuv-gRPC/src/idna.c:263-276 | the labels in order, with one of these four behind each but the last, are the name |
| Idna.DottedIs | Foresome/Pods/Libuv-gRPC/src/idna.c:263-276 | in the output a full stop U+002E is behind each text but the last |
| Inet4.Strscpy | Foresome/Pods/Libuv-gRPC/src/strscpy.c:4-17 | the copy is cut to the room, always terminated unless there is none, and nothing else changes |
| Inet4.CopiedLayout | Foresome/Pods/Libuv-gRPC/src/strscpy.c:4-17 | in the buffer the string with its NUL, or as much of it as fits with a NUL, lies between what was there before |
| Inet4.Ntop4 | Foresome/Pods/Libuv-gRPC/src/inet.c:53-64 | the dotted text is written exactly when it fits |
| Inet4.Pton4 | Foresome/Pods/Libuv-gRPC/src/inet.c:179-215 | the parser accepts what the step function accepts, writes four bytes, and writes nothing when it fails |
| Inet4.Ipv4Bijection | Foresome/Pods/Libuv-gRPC/src/inet.c:179-215 | a text is accepted if and only if it is the text of an address, and printing and parsing are inverse |
| Inet6Text.DecIsDecimal | Foresome/Pods/Libuv-gRPC/src/inet.c:53-64 | an octet is written in decimal digits without a leading zero |
| Inet6Text.DocumentationAddress | Foresome/Pods/Libuv-gRPC/src/inet.c:53-64 | 192.0.2.1 is written as it reads |
| Inet6Grammar.AcceptedTexts | Foresome/Pods/Libuv-gRPC/src/inet.c:218-302 | the texts that are accepted are exactly those of the grammar: groups of one to four digits with colons between them, at most one double colon for at least one group of zeros, perhaps an IPv4 address at the end, and together sixteen bytes; the address is the one that is spelled |
| Inet6Grammar.SpellingParses | Foresome/Pods/Libuv-gRPC/src/inet.c:218-302 | every text of the grammar is accepted, as the address it spells |
| Inet6Grammar.ParsedIsSpelling | Foresome/Pods/Libuv-gRPC/src/inet.c:218-302 | nothing else is accepted |
| Inet6Grammar.TextIsPrinted | Foresome/Pods/Libuv-gRPC/src/inet.c:113-142 | what the printer writes is in the grammar |
| Inet6Grammar.PrintedAddress | Foresome/Pods/Libuv-gRPC/src/inet.c:113-142 | the groups and zeros that it spells are those of the address |
| Inet6Grammar.Ipv6RoundTrip | Foresome/Pods/Libuv-gRPC/src/inet.c:67-147 | for every address the text with its best run shortened is parsed back to the address |
| Inet6Text.TextOfAddress | Foresome/Pods/Libuv-gRPC/src/inet.c:113-142 | the text contains a dot exactly for IPv4-mapped addresses and for IPv4-compatible ones whose bytes 12 and 13 are not both zero; then it is "::ffff:" or "::" with the last four bytes in dotted decimal, and for all others the groups with colons between them, with "::" for the best run; groups have no leading zero and no capital letter |
| Inet6Text.ExampleText | Foresome/Pods/Libuv-gRPC/src/inet.c:67-302 | 2001:db8::1 is written as it reads, and read as that address |
| Inet6Text.HexDigits | Foresome/Pods/Libuv-gRPC/src/inet.c:219-221 | the digits of both cases have their values, and nothing else is a digit |
| Inet6.CopyWords | Foresome/Pods/Libuv-gRPC/src/inet.c:85-87 | or-ing shifted bytes gives the 16-bit groups |
| Inet6.FindRun | Foresome/Pods/Libuv-gRPC/src/inet.c:88-111 | the run found is the leftmost longest run of at least two zero groups, as RFC 5952 asks in sections 4.2.2 and 4.2.3 |
| Inet6.TextFits | Foresome/Pods/Libuv-gRPC/src/inet.c:75-75 | every text fits the buffer of 46 bytes with its NUL |
| Inet6.FormatGroups | Foresome/Pods/Libuv-gRPC/src/inet.c:113-139 | the loop writes the text of the groups |
| Inet6.Ntop6 | Foresome/Pods/Libuv-gRPC/src/inet.c:67-147 | the text with the best run shortened is written, or refused exactly when it does not fit; for size 0 nothing is written and 0 is returned; it has an IPv4 address at the end exactly when the address is IPv4-mapped or IPv4-compatible, and the parser maps it back to the address |
| Inet6.ShiftUp | Foresome/Pods/Libuv-gRPC/src/inet.c:282-297 | the shift in place moves the tail to the end and leaves zeros |
| Inet6.TakeIpv4 | Foresome/Pods/Libuv-gRPC/src/inet.c:265-273 | an IPv4 address at the end takes the room of two groups |
| Inet6.Pton6 | Foresome/Pods/Libuv-gRPC/src/inet.c:218-302 | the parser accepts what the parsing function accepts, writes sixteen bytes, and writes nothing when it fails |
| FsPollSpec.StepKeepsInv | Foresome/Pods/Libuv-gRPC/src/fs-poll.c:66-255 | every event in good order passes all assertions and keeps the invariant: one thing in progress for each context, only the newest armed, no context lost or freed twice |
| FsPollSpec.CompletionExact | Foresome/Pods/Libuv-gRPC/src/fs-poll.c:185-231 | a completed stat keeps the invariant if and only if the poller is inactive, or no newer context exists and none is started by the callback, or the callback stops or closes |
| FsPollSpec.ClosedKeepsInv | Foresome/Pods/Libuv-gRPC/src/fs-poll.c:234-255 | a closed timer takes its context out of the list, wherever it is, and the last one makes a closing poller close-pending |
| FsPollRuns.RunSafe | Foresome/Pods/Libuv-gRPC/src/fs-poll.c:66-255 | in every disciplined run no assertion fails and the invariant holds at the end |
| FsPollRuns.BadCompletionAborts | Foresome/Pods/Libuv-gRPC/src/fs-poll.c:172-182 | after a stat that completes in bad order the timer callback fails its assertion when the stray timer fires |
| FsPollRuns.RestartTooSoon | Foresome/Pods/Libuv-gRPC/src/fs-poll.c:66-135 | stopping and starting while a stat is in flight leads to such a completion |
| FsPollRuns.ClosingStep | Foresome/Pods/Libuv-gRPC/src/fs-poll.c:164-255 | while the poller is closing no timer fires, and every completion is one of finitely many that are left |
| FsPollRuns.ClosingNotStuck | Foresome/Pods/Libuv-gRPC/src/fs-poll.c:164-255 | as long as a closing poller has contexts, something is due to complete |
| FsPollRuns.ClosingEnds | Foresome/Pods/Libuv-gRPC/src/fs-poll.c:164-255 | in whatever order requests and timers complete, the last completion and no earlier one makes the poller close-pending |
| FsPollRuns.PollReports | Foresome/Pods/Libuv-gRPC/src/fs-poll.c:185-231 | what a completed stat reports and remembers, and that other contexts are left alone |
| FsPollRuns.PollArms | Foresome/Pods/Libuv-gRPC/src/fs-poll.c:217-231 | after a completed stat its timer is armed for the next deadline or closed, and no other timer is armed |
| FsPollRuns.OthersSilent | Foresome/Pods/Libuv-gRPC/src/fs-poll.c:66-182 | no other event reports anything |
| FsPollRuns.OthersObserveNothing | Foresome/Pods/Libuv-gRPC/src/fs-poll.c:66-182 | no other event changes what a context has observed, and a new context has observed nothing |
| FsPollRuns.DeadlineOnGrid | Foresome/Pods/Libuv-gRPC/src/fs-poll.c:225-230 | the deadline is the next time on the grid of the start time, after now and at most an interval away, or the largest time when that is beyond it |
| FsPollRuns.NextIsFirst | Foresome/Pods/Libuv-gRPC/src/fs-poll.c:225-227 | no time on the grid lies between now and that one |
| FsPollNews.NewsIsCurrent | Foresome/Pods/Libuv-gRPC/src/fs-poll.c:197-215 | when every outcome that differs from the one before is reported, the last report agrees with the last outcome, or there was none because all outcomes are equal successes |
| FsPollNews.EqualIsWatched | Foresome/Pods/Libuv-gRPC/src/fs-poll.c:258-273 | two stats count as the same if and only if they are equal records once the number of links, the device of a special file, the blocks and the time of the last access are set to zero in both |
| FsPollNews.StepInforms | Foresome/Pods/Libuv-gRPC/src/fs-poll.c:66-255 | every event adds its outcome and its report to the account of each context |
| FsPollNews.UserIsInformed | Foresome/Pods/Libuv-gRPC/src/fs-poll.c:185-215 | in every disciplined run of a new poller, for every context: the reports are exactly the first outcome if it is an error and every outcome that differs from the one before in its error or in what is watched, each with the stat of the last success, and the last report is current |
| FsPollNews.AskedIsKept | Foresome/Pods/Libuv-gRPC/src/fs-poll.c:66-182 | in every disciplined run a context keeps the interval that it was started with, at least one, and the time at which its last stat was started, by the call or by its timer |
| FsPollNews.DeadlinesOnTime | Foresome/Pods/Libuv-gRPC/src/fs-poll.c:225-230 | in every state that such a run reaches an armed timer fires on the grid of the time at which the last stat was started, or at the largest time |
| FsPoll.PollHandle.constructor | Foresome/Pods/Libuv-gRPC/src/fs-poll.c:59-63 | a new poller is in the initial state |
| FsPoll.PollHandle.StartPolling | Foresome/Pods/Libuv-gRPC/src/fs-poll.c:66-113 | starting links a new context in front of the others, unless the poller is active or allocation, timer or stat fail; then their error is returned and nothing changes |
| FsPoll.PollHandle.StopPolling | Foresome/Pods/Libuv-gRPC/src/fs-poll.c:116-135 | stopping closes the timer of the newest context if it is armed |
| FsPoll.PollHandle.CloseHandle | Foresome/Pods/Libuv-gRPC/src/fs-poll.c:164-169 | closing stops the poller and is pending at once when no context is left |
| FsPoll.PollHandle.NoticeStat | Foresome/Pods/Libuv-gRPC/src/fs-poll.c:197-215 | the user is told of an error that differs from the last outcome and of a stat that differs in what is watched, before the outcome is remembered, and may stop, close or restart |
| FsPoll.PollHandle.CallUser | Foresome/Pods/Libuv-gRPC/src/fs-poll.c:199-212 | the callback is told the outcome and the stat before it, and may stop, close or restart the poller |
| FsPoll.PollHandle.PollDone | Foresome/Pods/Libuv-gRPC/src/fs-poll.c:185-231 | the callback of the stat takes the step of the state machine |
| FsPoll.PollHandle.TimerFired | Foresome/Pods/Libuv-gRPC/src/fs-poll.c:172-182 | the callback of the timer fails its assertion exactly when the context is not the newest |
| FsPoll.PollHandle.Before | Foresome/Pods/Libuv-gRPC/src/fs-poll.c:247-251 | the walk over the linked list ends at the context before the one wanted |
| FsPoll.PollHandle.TimerGone | Foresome/Pods/Libuv-gRPC/src/fs-poll.c:234-255 | the context is unlinked and freed, the others stay linked in order |
| FsPoll.PollHandle.OnEvent | Foresome/Pods/Libuv-gRPC/src/fs-poll.c:66-255 | an event in good order passes all assertions and keeps the invariant on the linked objects |

## Left out

- The Swift application: views, Firebase, location and pickers are user interface and input or output.
- IQKeyboardManager, AlignedCollectionViewFlowLayout, the generated tables and the header-only pods: they depend on UIKit or hold no algorithm.
- Extensions, callback fields, custom stream callbacks and the delimited and NUL-terminated variants of nanopb.
- The configurations of nanopb without 64-bit integers, without arrays packed, with buffers only, or with 8- or 16-bit descriptors; `size_t` has 64 bits.
- Pointer fields in the encoder, and pointers to scalars, strings and bytes in the decoder. A pointer to a submessage is decoded on values: it is NULL or holds a message, and allocation succeeds when its size is allowed. What is freed when a second record replaces a message, and `pb_release_union_field`, are not modelled.
- The error message strings of nanopb, and what the struct and the stream hold after a failed call.
- The byte layout of structs: members are cells, and their addresses appear in the iterator only.
- Field number 0 in an empty descriptor, and varints of more than ten bytes in `pb_decode_varint32_eof`, whose bit position may wrap.
- PbDecode.FieldSetToDefault: the entries of a fixed-count array keep their old bytes in C; the model shows such an array as empty until it is filled.
- PbDecodeLaws.ReadsPayload: payloads of another wire type than the field's, which the code reads as if they were of the field's own, and `bool` varints of 2^32 and more; what is made of them is said by `PbDecodeSpec` only.
- PbEncode.Encode: for a storing stream the sum of the bytes written and to be written is required to fit in 64 bits.
- PbEncode.EncSubmessage: the same bound on the number of bytes.
- PbEncode.EncPacked: the same bound on the number of bytes.
- PbEncode.EncUnpacked: the same bound on the number of bytes.
- PbEncode.EncArray: the same bound on the number of bytes.
- PbEncode.EncField: the same bound; and a fixed-count array is emitted with the entries the model has, where C takes the count from `array_size`, so the two agree for a full array.
- HeapInl.Heap.Insert: a heap of 2^32 - 1 nodes is excluded, because the node count is an `unsigned int`.
- `heap_node` is shown with the key of the timer that contains it; `container_of` is not modelled, nor are the functions of timer.c that use the heap.
- Utf8.PointIsScalar: the malformed sequences that the combined test of continuation bytes accepts are not listed.
- Idna.ToAsciiLabel: the label has fewer than 2^31 bytes, because counters and result are 32 bits wide, and the bytes behind it that the decoder looks at are there.
- Idna.ToAscii: the same bounds for the whole name.
- Idna.EmitRounds: the converse, that every overflow of the guard is unavoidable, is not stated; the decoder works with unbounded integers.
- The dispatch of `uv_inet_ntop` and `uv_inet_pton` with the removal of a zone after `%`; `snprintf`, `sprintf`, `strlen` and `strchr` are given by what they compute.
- `uv_fs_poll_getpath`, the event loop, the timer queue and the stat call itself: they are events of the model. A restart inside the callback succeeds.
- Threads, and `loop` reference counts.
