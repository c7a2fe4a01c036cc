# Verified models of the nanopb codec and the AlamofireImage cache and downloader

This project models, in Dafny 4.11, three parts of the ExpressAssist repository and proves
properties of them.

**The nanopb 0.3.9.6 codec** (`pb_encode.c`, `pb_decode.c`, `pb_common.c`), a table-driven
Protocol Buffers encoder and decoder. A message type is a table of field descriptors
(`Schema.Field`), a struct a sequence of typed slots, one for each field and one for each oneof.
The model has two layers:

* *Specifications* are functions on byte sequences: `EncodeSpec` gives the bytes of a struct,
  `DecodeSpec` what becomes of a struct when bytes are decoded into it. They follow the code
  branch by branch: truncations and overflow tests, proto3 elision, packed and unpacked arrays,
  fixed-count runs, oneofs, nested messages, the required-field bitmap, zero keys.
* *Methods* follow the C code step by step on mutable objects: input and output streams with a
  position and a limit (`Streams`), the circular field iterator (`FieldIter`), the wire-level
  loops (`WireReader`, `WireWriter`), the two-pass encoder (`Encoder`) and the decoder with its
  `fields_seen` words and fixed-count locals (`FieldDecoders`, `Decoder`). Each is proved to do
  exactly what its specification says, on every input, in success and in failure.

The specifications are tied to the wire format itself, told by the bytes: what a varint is, what each
wire type and each field type looks like (`WireFormat`, `Meaning`). About them it is then proved: the
message round trip and its exact condition (`RoundTrip`, `Proto3`), the merge law and the irrelevance
of unknown fields (`DecodeLaws`),
exactness of the required-field bitmap and of fixed-count runs (`Occurrences`), equivalence of
packed and unpacked encodings (`Packed`), preservation of types and limits (`Preservation`), exactly
when what is accepted can be encoded again (`Writability`, `Reencoding`), the replacement of oneof
members (`Oneofs`), framing (`Framing`), when equal structs have equal encodings, and that encoding a
decoded struct is a normal form (`WhichFields`, `Canonical`). `Transport` uses the codec as
GoogleDataTransport does.

**AlamofireImage's `AutoPurgingImageCache`** (`ImageCache`). All its blocks are barriers on one
queue, so a run is a sequence of blocks; `Step` says what each may do and the class methods are
proved to be such steps. Conservation, LRU order, which images are cached and which are removed with
a request are proved for all runs.

**AlamofireImage's `ImageDownloader`** (`ImageDownloader`) as a state machine whose steps are the
blocks of its serial queue, task completions, and the pieces of a response closure in between.
The bounds of the counter, the absence of lost wakeups, exactly-once completion, progress, the orders
of starts and of completions and the effect of cancelling are proved for all interleavings.

Where the code and its documentation differ, or the code does what one would not expect, the model
follows the code:

* A proto3 field that equals zero is omitted even if its table gives it another default, so the
  value is lost. `Proto3.RoundTripExact` has the exact condition, `Proto3.NonzeroDefaultLost` an input.
* `pb_decode` leaves the elements of an array without a count as they are, so it can accept an input
  and leave a struct that `pb_encode` refuses: `Preservation.StaleElements` is an input.
  `Reencoding.ReencodesExact` has the exact condition (`Writability.Writable`): for every destination
  that does not meet it an input is constructed that is accepted and makes encoding fail. To be
  well-formed is more than that takes, as `Reencoding.UnterminatedEncodes` shows.
* Which-fields are not checked when encoding: one that names no member makes a proto3 submessage
  present, so structs with the same meaning can have different encodings.
  `Canonical.SameEncodingExact` has the exact condition, `Canonical.UnknownWhichShows` an input.
* A second occurrence of a oneof submessage replaces the first, while an optional submessage is
  merged. `Oneofs.LastMemberWins` and `Oneofs.HoldsLastMember` are the law, `Oneofs.OneofNotMerged`
  is an input that tells the two apart.
* Looking for tag 0 in the table of an empty message finds the terminator, which then decodes like a
  required bool: `DecodeLaws.ZeroTagShows`. Only the first 64 required fields are checked:
  `Occurrences.RequiredExact`.
* `removeImages(matching:)` is documented to remove the images created from the request. It removes
  every image whose key starts with the request's URL, so also those of longer URLs.
  `ImageCache.MatchingExact` has the exact condition over all runs, `ImageCache.MatchingRemovesMore`
  two inputs: a key that no request for the URL has, and one that such a request could have.
* `cancelRequest` is documented to remove the handler so that it is not called. The completion is
  called all the same, with a cancellation error if the cancel still finds it, unless it had been
  before: `ImageDownloader.CancelledStillCalled` and `ImageDownloader.CancelExact` say exactly when.
  The handler stays registered while its request runs, so that later downloads of the URL join it:
  `ImageDownloader.CancelCalls` is an input.

The tables assumed are those the generator makes: distinct tags from 1 to 2^29 - 1, known data
sizes, defaults that fit, and arrays without a count of at least the four bytes that a count takes
(`Schema.ValidSchema`). A struct given to the encoder has the C types of its table (`Schema.Typed`),
and its sizes fit a `size_t` (`Encoder.Sized`); limits such as counts and missing NULs are checked by
the code and modelled as errors. For what is decoded again, the submessages and packed runs have
sizes of 32 bits (`EncodeSpec.PayloadsFit`), which is what the decoder reads; the message around them
may be larger. A destination holds anything of its C types.
Equality of structs (`Schema.SameMsg`) ignores what lies behind a cleared has-flag, past a string's
NUL, past the count of an array and in an inactive oneof member.

`dafny verify dfyconfig.toml` checks everything.

## Model

| member | source | states |
|---|---|---|
| Varint.VarintRoundTrip | ExpressAssist/Pods/nanopb/pb_decode.c:255-275 | decoding what `pb_encode_varint` writes gives back every uint64 and leaves exactly what follows |
| Varint.VarintShortest | ExpressAssist/Pods/nanopb/pb_encode.c:608-628 | no byte sequence that decodes to a value is shorter than the one written for it |
| Varint.EncVarintLength | ExpressAssist/Pods/nanopb/pb_encode.c:608-628 | a value is written in at most n bytes exactly when it is below 2^(7n) |
| Varint.EncVarintAtMost10 | ExpressAssist/Pods/nanopb/pb_encode.c:608-628 | every uint64 takes 1 to 10 bytes, so the local buffer of 10 suffices |
| Varint.Varint32RoundTrip | ExpressAssist/Pods/nanopb/pb_decode.c:187-252 | the 32-bit decoder inverts the encoder on every uint32 |
| Varint.Varint32OfNegative | ExpressAssist/Pods/nanopb/pb_decode.c:213-236 | the ten-byte sign-extended encoding of a negative int32 is accepted by the 32-bit decoder and gives its two's complement |
| Varint.ZigzagInverse | ExpressAssist/Pods/nanopb/pb_encode.c:630-639 | zigzag coding is a bijection between int64 and uint64, in both directions, and maps i to 2i or -2i-1 |
| Varint.FixedRoundTrip | ExpressAssist/Pods/nanopb/pb_encode.c:641-666 | little-endian fixed-width numbers read back as themselves |
| Varint.TakeDelimitedRoundTrip | ExpressAssist/Pods/nanopb/pb_decode.c:372-385 | a length prefix followed by that many bytes is taken apart exactly, whatever follows |
| Varint.SkipFieldPrefix | ExpressAssist/Pods/nanopb/pb_decode.c:321-331 | skipping a field consumes exactly its payload, independent of what follows |
| WireFormat.WrittenVarint | ExpressAssist/Pods/nanopb/pb_encode.c:608-628 | what is written is a varint by its bytes, stands for the number digit by digit, and has no leading zeros |
| WireFormat.DecVarintExact | ExpressAssist/Pods/nanopb/pb_decode.c:255-275 | the 64-bit decoder accepts exactly the varints of up to ten bytes and gives their number modulo 2^64 |
| WireFormat.DecVarint32Exact | ExpressAssist/Pods/nanopb/pb_decode.c:187-247 | the 32-bit decoder gives the number in the first five bytes modulo 2^32, if a five-byte varint has 32 bits and every later byte is padding or sign extension; else it refuses |
| WireFormat.NoVarint | ExpressAssist/Pods/nanopb/pb_decode.c:187-287 | an input in which no varint ends is refused by both decoders and by skipping |
| WireFormat.Fixed32Bytes | ExpressAssist/Pods/nanopb/pb_encode.c:641-650 | the four bytes of a number and the number of four bytes, byte by byte |
| WireFormat.Fixed64Bytes | ExpressAssist/Pods/nanopb/pb_encode.c:653-666 | eight bytes are the four of the low half and the four of the high half, both ways |
| WireFormat.PayloadSkipped | ExpressAssist/Pods/nanopb/pb_decode.c:321-331 | a payload is skipped exactly: up to the first byte without top bit for wire type 0, 8 bytes for 1, a length and that many bytes for 2, 4 bytes for 5 |
| WireFormat.SkipRefuses | ExpressAssist/Pods/nanopb/pb_decode.c:321-331 | other wire types and payloads cut short are refused |
| Meaning.KeyWritten | ExpressAssist/Pods/nanopb/pb_encode.c:669-673 | a key is a varint of eight times the field number plus the wire type |
| Meaning.ScalarWritten | ExpressAssist/Pods/nanopb/pb_encode.c:769-912 | the payload of each type by its bytes: numbers as two's complement, plain or zigzag varints, fixed widths, contents behind their length |
| Meaning.ValueIsPayload | ExpressAssist/Pods/nanopb/pb_encode.c:675-707 | what is written for any value of any field is one payload of the wire type in its key, and is skipped as one |
| Meaning.ForeignTagged | ExpressAssist/Pods/nanopb/pb_decode.c:957-986 | a table without the tag decodes a tagged value and what follows as it decodes what follows |
| Meaning.ForeignSkipped | ExpressAssist/Pods/nanopb/pb_decode.c:957-986 | a receiver with none of the sender's fields skips the encoding of any struct whole |
| Meaning.ArrayWritten | ExpressAssist/Pods/nanopb/pb_encode.c:147-236 | a nonempty array of numbers is one key of wire type 2, a length and the elements; bytes, strings, submessages and fixed-length bytes have one key per element |
| Meaning.VarintRead | ExpressAssist/Pods/nanopb/pb_decode.c:1317-1412 | the value read from a varint, type by type: modulo 2^32 as two's complement in plain fields below 64 bits, refused when it does not fit |
| Meaning.LongVarintRefused | ExpressAssist/Pods/nanopb/pb_decode.c:255-275 | a varint of more than ten bytes is refused as a number |
| Meaning.FiveByteNegative | ExpressAssist/Pods/nanopb/pb_decode.c:1336-1347 | a negative number of up to 32 bits is also read from the five bytes of its 32-bit pattern |
| Meaning.FixedRead | ExpressAssist/Pods/nanopb/pb_decode.c:1414-1429 | fixed-width numbers, byte by byte |
| Meaning.DelimitedRead | ExpressAssist/Pods/nanopb/pb_decode.c:1431-1548 | contents that fit are stored, others refused; a fixed-length field takes its own length, and zeros from nothing |
| Meaning.DefaultsGive | ExpressAssist/Pods/nanopb/pb_decode.c:836-919 | after setting defaults: absent optional fields, empty arrays, unset oneofs, and in singular fields the default of the table or zero |
| Meaning.LeftOutExact | ExpressAssist/Pods/nanopb/pb_encode.c:240-337 | a proto3 field that is no submessage is left out exactly when its value means zero; fixed-length bytes never are |
| Varint.DecVarint32Prefix | ExpressAssist/Pods/nanopb/pb_decode.c:187-247 | the 32-bit decoder looks no further than the bytes it consumes |
| FieldDecoders.CastExact | ExpressAssist/Pods/nanopb/pb_decode.c:1348-1361 | comparing a value with its cast to the field size detects exactly the values that do not fit |
| Streams.IStream.ReadByte | ExpressAssist/Pods/nanopb/pb_decode.c:141-157 | delivers the next byte and advances by one, or fails exactly at the end; the end of the stream does not move |
| Streams.IStream.Read | ExpressAssist/Pods/nanopb/pb_decode.c:102-137 | delivers all `count` bytes or none; the end of the stream does not move |
| Streams.OStream.Write | ExpressAssist/Pods/nanopb/pb_encode.c:103-124 | appends exactly the bytes, fails exactly when they do not fit, and then changes nothing |
| Streams.OStream.BufWrite | ExpressAssist/Pods/nanopb/pb_encode.c:74-84 | the loop replaces exactly the bytes at the write position and leaves the rest of the buffer alone |
| WireWriter.EncodeVarint | ExpressAssist/Pods/nanopb/pb_encode.c:608-628 | the digit loop writes the base-128 form of every uint64 |
| WireWriter.VarintDigits | ExpressAssist/Pods/nanopb/pb_encode.c:619-625 | the local buffer ends up holding the base-128 form, with only the last byte's top bit clear |
| WireWriter.EncodeSVarint | ExpressAssist/Pods/nanopb/pb_encode.c:630-639 | writes the zigzag form of every int64 |
| WireWriter.EncodeFixed32 | ExpressAssist/Pods/nanopb/pb_encode.c:641-650 | writes the four bytes, least significant first |
| WireWriter.EncodeFixed64 | ExpressAssist/Pods/nanopb/pb_encode.c:653-666 | writes the eight bytes, least significant first |
| WireWriter.EncodeTag | ExpressAssist/Pods/nanopb/pb_encode.c:669-673 | writes field number times eight plus wire type as a varint |
| WireWriter.EncodeTagForField | ExpressAssist/Pods/nanopb/pb_encode.c:675-707 | writes the key with the wire type the field's type requires |
| WireWriter.EncodeString | ExpressAssist/Pods/nanopb/pb_encode.c:709-715 | writes the length and then the bytes |
| WireReader.DecodeVarint32Eof | ExpressAssist/Pods/nanopb/pb_decode.c:187-247 | the loop, with its wrapping 8-bit position and its overflow tests, reads what the specification reads; end-of-file is reported exactly on an empty stream |
| WireReader.DecodeVarint | ExpressAssist/Pods/nanopb/pb_decode.c:255-275 | the loop reads a 64-bit varint and fails on the eleventh byte or at the end of the stream |
| WireReader.DecodeSVarint | ExpressAssist/Pods/nanopb/pb_decode.c:1269-1281 | delivers the int64 whose zigzag form was read |
| WireReader.DecodeFixed32 | ExpressAssist/Pods/nanopb/pb_decode.c:1283-1295 | combines four bytes, least significant first |
| WireReader.DecodeFixed64 | ExpressAssist/Pods/nanopb/pb_decode.c:1298-1315 | combines eight bytes, least significant first |
| WireReader.DoSkipVarint | ExpressAssist/Pods/nanopb/pb_decode.c:278-287 | skips up to and including the first byte without continuation bit |
| WireReader.SkipString | ExpressAssist/Pods/nanopb/pb_decode.c:289-296 | skips a length and that many bytes, or fails |
| WireReader.DoSkipField | ExpressAssist/Pods/nanopb/pb_decode.c:321-331 | skips a payload of the given wire type, and fails for the unknown ones |
| WireReader.DecodeTag | ExpressAssist/Pods/nanopb/pb_decode.c:298-319 | splits the key into field number and wire type; a zero key reads as the end of the message |
| WireReader.MakeStringSubstream | ExpressAssist/Pods/nanopb/pb_decode.c:372-385 | the substream holds exactly the announced payload, and the parent is left with exactly what follows it |
| WireReader.CloseStringSubstream | ExpressAssist/Pods/nanopb/pb_decode.c:387-400 | the parent continues right after the payload, however much of it was read |
| FieldIter.SlotAddress | ExpressAssist/Pods/nanopb/pb_common.c:44-50 | all members of a oneof have the data address and the which-field of their union |
| FieldIter.NextAddress | ExpressAssist/Pods/nanopb/pb_common.c:20-76 | the address of every field from that of the one before it: behind all its elements, at the distance in the table; the which-, has- and count-fields at theirs; members of a union at the same place |
| FieldIter.FieldsApart | ExpressAssist/Pods/nanopb/pb_common.c:41-74 | each element of a field that is not in a oneof ends before any later field starts |
| FieldIter.Iter.Next | ExpressAssist/Pods/nanopb/pb_common.c:20-76 | position, addresses and required-field index stay those the table gives; the address moves by all elements and the distance in the table; false exactly when it wraps |
| FieldIter.Iter.Find | ExpressAssist/Pods/nanopb/pb_common.c:78-95 | from any position: terminates, finds a tag exactly when the table has it, ends at that field with addresses and index computed from the table alone, and goes back to its start otherwise |
| Schema.DefaultsConform | ExpressAssist/Pods/nanopb/pb_decode.c:836-919 | setting a struct to its defaults keeps the C types of whatever it held, and keeps it within its limits, at every depth |
| Schema.InitDefaultWellFormed | ExpressAssist/Pods/nanopb/pb_decode.c:836-919 | zeroed memory set to its defaults is a well-formed struct, at every depth |
| Schema.DefaultsTwice | ExpressAssist/Pods/nanopb/pb_decode.c:836-919 | setting defaults a second time changes nothing |
| Schema.SlotShared | ExpressAssist/Pods/nanopb/pb_common.c:44-50 | only members of one oneof share a slot |
| Encoder.EncBool | ExpressAssist/Pods/nanopb/pb_encode.c:769-774 | writes 0 or 1 |
| Encoder.EncVarintField | ExpressAssist/Pods/nanopb/pb_encode.c:776-797 | writes the sign-extended value, or fails on an unknown data size |
| Encoder.EncUVarintField | ExpressAssist/Pods/nanopb/pb_encode.c:799-815 | writes the value, or fails on an unknown data size |
| Encoder.EncSVarintField | ExpressAssist/Pods/nanopb/pb_encode.c:817-833 | writes the zigzag form, or fails on an unknown data size |
| Encoder.EncBytes | ExpressAssist/Pods/nanopb/pb_encode.c:852-873 | writes size and content, or fails when the size does not fit the slot |
| Encoder.EncStringField | ExpressAssist/Pods/nanopb/pb_encode.c:875-899 | writes the characters up to the NUL, or all of the array when there is none |
| Encoder.EncScalar | ExpressAssist/Pods/nanopb/pb_encode.c:769-912 | the encoder table: each type is written as its specification says |
| Encoder.EncodeSubmessage | ExpressAssist/Pods/nanopb/pb_encode.c:717-765 | the sizing pass and the writing pass agree at every depth: the size-changed error is never returned, and the call writes length and message exactly when both fit |
| Encoder.EncTagged | ExpressAssist/Pods/nanopb/pb_encode.c:675-707 | key and value, or failure, as one piece |
| Encoder.PackedSize | ExpressAssist/Pods/nanopb/pb_encode.c:169-189 | the size shortcut of fixed-width arrays equals the size of what is written |
| Encoder.PackedDataSize | ExpressAssist/Pods/nanopb/pb_encode.c:169-189 | the size announced for a packed run is the size of its elements |
| Encoder.EncPacked | ExpressAssist/Pods/nanopb/pb_encode.c:164-206 | key, size, elements; on a sizing stream only the size is counted, with the same total |
| Encoder.EncArray | ExpressAssist/Pods/nanopb/pb_encode.c:147-236 | an array over its maximum is refused, packable types are packed, others are written element by element |
| Encoder.CheckProto3Default | ExpressAssist/Pods/nanopb/pb_encode.c:240-337 | decides whether a field holds its zero value, recursively through submessages |
| Encoder.EncField | ExpressAssist/Pods/nanopb/pb_encode.c:341-426 | required, optional, proto3, repeated and oneof fields are written or omitted as specified |
| Encoder.EncodeMessage | ExpressAssist/Pods/nanopb/pb_encode.c:528-550 | writes exactly the specified encoding, and succeeds exactly when there is one and it fits the room left; otherwise the only error is lack of room or an invalid struct |
| Encoder.EncodeDelimited | ExpressAssist/Pods/nanopb/pb_encode.c:552-555 | a message with its length in front, under the same conditions |
| Encoder.GetEncodedSize | ExpressAssist/Pods/nanopb/pb_encode.c:567-576 | succeeds exactly when the struct has an encoding, with its size |
| EncodeSpec.EncodeMsgSome | ExpressAssist/Pods/nanopb/pb_encode.c:528-550 | every well-formed struct has an encoding, so encoding it can fail only for lack of room |
| FieldDecoders.DecVarintField | ExpressAssist/Pods/nanopb/pb_decode.c:1329-1364 | sign handling of short fields and overflow detection, for all data sizes |
| FieldDecoders.DecUVarintField | ExpressAssist/Pods/nanopb/pb_decode.c:1366-1388 | overflow detection, for all data sizes |
| FieldDecoders.DecSVarintField | ExpressAssist/Pods/nanopb/pb_decode.c:1390-1412 | overflow detection, for all data sizes |
| FieldDecoders.DecBytes | ExpressAssist/Pods/nanopb/pb_decode.c:1431-1466 | refuses content that does not fit the slot |
| FieldDecoders.DecString | ExpressAssist/Pods/nanopb/pb_decode.c:1468-1501 | stores the characters and a NUL and keeps the rest of the array |
| FieldDecoders.DecFixedLengthBytes | ExpressAssist/Pods/nanopb/pb_decode.c:1527-1548 | zeroes the field on an empty payload and refuses any other size than its own |
| FieldDecoders.DecScalar | ExpressAssist/Pods/nanopb/pb_decode.c:68-82 | the decoder table: each type is read as its specification says |
| Decoder.FieldSetToDefault | ExpressAssist/Pods/nanopb/pb_decode.c:836-906 | has-flags, counts and which-fields are cleared, data gets its default, submessages recursively over what they hold; array elements stay |
| Decoder.MessageSetToDefaults | ExpressAssist/Pods/nanopb/pb_decode.c:908-919 | the iterator loop sets every slot to its default over what it holds |
| Decoder.DecSubmessage | ExpressAssist/Pods/nanopb/pb_decode.c:1503-1525 | decodes exactly the payload; an array element is set to its defaults first, other destinations are merged into |
| Decoder.DecPackedItems | ExpressAssist/Pods/nanopb/pb_decode.c:436-445 | the packed loop stores elements from the count on and stops when the array is full or an element fails |
| Decoder.DecPacked | ExpressAssist/Pods/nanopb/pb_decode.c:425-453 | a packed run is delivered completely or refused |
| Decoder.DecodeStaticField | ExpressAssist/Pods/nanopb/pb_decode.c:406-480 | every kind of field changes its own slot as specified and nothing else |
| Decoder.MarkTracks | ExpressAssist/Pods/nanopb/pb_decode.c:1012-1017 | setting a bit of `fields_seen` adds exactly that required field to the set the words stand for |
| Decoder.WordComplete | ExpressAssist/Pods/nanopb/pb_decode.c:1053-1068 | comparing a word with its mask tells exactly whether all fields below the limit were seen |
| Decoder.CheckRequired | ExpressAssist/Pods/nanopb/pb_decode.c:1048-1069 | the word-wise check succeeds exactly when every required field up to the count was seen |
| Decoder.CountRequired | ExpressAssist/Pods/nanopb/pb_decode.c:1032-1046 | running the iterator to the end, with the fix-up, counts all required fields |
| Decoder.DecodeFound | ExpressAssist/Pods/nanopb/pb_decode.c:988-1020 | fixed-count and required bookkeeping and decoding of one found field |
| Decoder.DecodeKeyed | ExpressAssist/Pods/nanopb/pb_decode.c:957-1020 | one field is decoded or skipped from wherever the iterator was left |
| Decoder.DecodeFields | ExpressAssist/Pods/nanopb/pb_decode.c:943-1021 | the loop consumes the input turn by turn and terminates because the stream shrinks |
| Decoder.CheckComplete | ExpressAssist/Pods/nanopb/pb_decode.c:1023-1070 | the final checks: last fixed-count run complete, required fields present |
| Decoder.DecodeNoInit | ExpressAssist/Pods/nanopb/pb_decode.c:925-1073 | on every input the method succeeds exactly when the specification does, with its struct and its unread rest; the stream's end is kept |
| Decoder.DecodeMessage | ExpressAssist/Pods/nanopb/pb_decode.c:1075-1087 | the same after setting whatever the destination holds to its defaults |
| Decoder.DecodeDelimited | ExpressAssist/Pods/nanopb/pb_decode.c:1104-1117 | the same within a frame, of which exactly the announced length is consumed |
| Bits.MaskExact | ExpressAssist/Pods/nanopb/pb_decode.c:1056-1064 | a word equals the mask of n ones exactly when its set bits are those below n |
| RoundTrip.MessageRoundTrip | ExpressAssist/Pods/nanopb/pb_decode.c:925-1087 | decoding the encoding of any well-formed struct, whose submessages and packed runs have 32-bit sizes, into any struct at its defaults succeeds, consumes all of it, and every field arrives |
| Proto3.RoundTripExact | ExpressAssist/Pods/nanopb/pb_decode.c:1075-1087 | into any destination, the decoded struct is semantically equal to the encoded one if and only if no field elided as zero has another default |
| Proto3.RoundTripSafe | ExpressAssist/Pods/nanopb/pb_decode.c:1075-1087 | with zero defaults the round trip holds for every well-formed struct with payloads of 32-bit size, at every depth and into any destination |
| Proto3.NonzeroDefaultLost | ExpressAssist/Pods/nanopb/pb_encode.c:355-359 | a proto3 field with default 7 and value 0 is omitted and comes back as 7, whatever the destination holds |
| Proto3.ElisionSound | ExpressAssist/Pods/nanopb/pb_encode.c:240-337 | a field the check calls default is semantically equal to what the decoder's defaults make of any destination |
| Proto3.ElisionExact | ExpressAssist/Pods/nanopb/pb_encode.c:240-337 | for a field that is not a submessage, omitting default values is sound if and only if its default is zero |
| Proto3.AllDefaultEncodesEmpty | ExpressAssist/Pods/nanopb/pb_encode.c:341-364 | a struct whose fields are all default encodes to no bytes |
| DecodeLaws.LoopConcat | ExpressAssist/Pods/nanopb/pb_decode.c:943-1021 | decoding a concatenation is decoding the first part and going on with the second |
| DecodeLaws.MergeLaw | ExpressAssist/Pods/nanopb/pb_decode.c:943-1021 | without required and fixed-count fields, decoding b1 + b2 equals decoding b1 and then b2 into the same struct, in success and failure |
| DecodeLaws.UnknownFieldSkipped | ExpressAssist/Pods/nanopb/pb_decode.c:957-986 | one unknown field, told by its bytes, is consumed exactly and changes nothing |
| DecodeLaws.UnknownFieldsIgnored | ExpressAssist/Pods/nanopb/pb_decode.c:957-986 | any unknown fields at any field boundaries change neither success nor the result |
| Occurrences.SeenIffOccurs | ExpressAssist/Pods/nanopb/pb_decode.c:1012-1017 | after the loop a required index is marked exactly when a field with that index occurred |
| Occurrences.RequiredExact | ExpressAssist/Pods/nanopb/pb_decode.c:1030-1070 | if all fields decode and runs are complete, decoding succeeds if and only if each of the first 64 required fields occurred |
| Occurrences.RunsAreMaximal | ExpressAssist/Pods/nanopb/pb_decode.c:988-1010 | neighbouring runs of fixed-count events belong to different fields |
| Occurrences.LoopRuns | ExpressAssist/Pods/nanopb/pb_decode.c:988-1010 | each closed run delivered exactly the array size; the open one is what the counter says |
| Occurrences.FixedRunsExact | ExpressAssist/Pods/nanopb/pb_decode.c:1023-1028 | on success every maximal run of one fixed-count field delivered exactly `array_size` elements |
| Preservation.NoInitConforms | ExpressAssist/Pods/nanopb/pb_decode.c:424-464 | decoding any bytes keeps every field's type, and a struct within its limits stays within them (counts at most `array_size`, strings with a NUL) |
| Preservation.CountStaysWithin | ExpressAssist/Pods/nanopb/pb_decode.c:424-464 | each counted array that starts within `array_size` ends within it, whatever the input and the rest of the struct |
| Preservation.DecodedEncodes | ExpressAssist/Pods/nanopb/pb_decode.c:1075-1087 | whatever is accepted can be encoded again, if the destination is within its limits once set to its defaults |
| Writability.EncodableExact | ExpressAssist/Pods/nanopb/pb_encode.c:341-550 | a struct of the C types of its table has an encoding if and only if wherever something is written, at every depth, bytes fit their slot and counts their array |
| Writability.NoInitWritable | ExpressAssist/Pods/nanopb/pb_decode.c:424-475 | decoding any bytes into a struct whose bytes and counts fit, also where it is not written now, leaves such a struct; strings need no NUL |
| Reencoding.LeastDecodes | ExpressAssist/Pods/nanopb/pb_decode.c:943-1070 | every table accepts the input that has just its required fields, into any struct, and that leaves the other fields alone |
| Reencoding.WritableReencodes | ExpressAssist/Pods/nanopb/pb_decode.c:1075-1087 | whatever is accepted into a destination that is writable once set to its defaults can be encoded again |
| Reencoding.ReencodesExact | ExpressAssist/Pods/nanopb/pb_decode.c:836-1087 | for every table and destination: all that is accepted can be encoded again if and only if the destination is writable once set to its defaults |
| Reencoding.UnterminatedEncodes | ExpressAssist/Pods/nanopb/pb_encode.c:875-899 | a string without a NUL is written as it is: all accepted inputs encode again though the struct is not well-formed |
| Reencoding.UnreachedEncodes | ExpressAssist/Pods/nanopb/pb_decode.c:455-464 | a table with an array too long for a 32-bit payload: its hidden elements do not fit, but no input reaches them and all accepted inputs encode again |
| Preservation.StaleElements | ExpressAssist/Pods/nanopb/pb_decode.c:866-869 | the empty input is accepted into an array without a count whose memory holds an oversized element, and encoding the result fails |
| Packed.SplitDecodes | ExpressAssist/Pods/nanopb/pb_decode.c:424-464 | however the elements of an array of numbers, counted or of fixed length, are split into packed runs and tagged elements, all are stored in order, or decoding fails when they do not fit |
| Packed.SplitsAgree | ExpressAssist/Pods/nanopb/pb_decode.c:424-464 | two splits of the same elements decode to the same outcome, for all number types and both kinds of array |
| Framing.FrameRoundTrip | ExpressAssist/Pods/nanopb/pb_decode.c:1104-1117 | one call consumes exactly its own frame and recovers the message, whatever the destination holds |
| Framing.FramesRoundTrip | ExpressAssist/Pods/nanopb/pb_decode.c:1104-1117 | repeated calls recover any list of messages in order and leave what follows the last frame |
| Transport.EncodeRequest | ExpressAssist/Pods/GoogleDataTransport/GoogleDataTransport/GDTCCTLibrary/GDTCCTNanopbHelpers.m:54-75 | a generic caller, for tables of static fields: measuring, then encoding into a buffer of that size never fails on an encodable message; the data decodes to the message again |
| Transport.DecodeResponse | ExpressAssist/Pods/GoogleDataTransport/GoogleDataTransport/GDTCCTLibrary/GDTCCTNanopbHelpers.m:258-271 | the decoded response or the initial default one; either is well-formed |
| Oneofs.LastMemberWins | ExpressAssist/Pods/nanopb/pb_decode.c:466-475 | for all payloads, an occurrence of a oneof member that is followed by one of the same union, with any other fields between them, decodes as if it were not there |
| Oneofs.LoopApart | ExpressAssist/Pods/nanopb/pb_decode.c:943-1021 | decoding fields of other slots neither changes a slot nor depends on it |
| Oneofs.HoldsLastMember | ExpressAssist/Pods/nanopb/pb_decode.c:466-475 | whatever is decoded before it, and whatever other fields after it, a oneof holds the member that occurred last, decoded alone |
| Oneofs.OneofNotMerged | ExpressAssist/Pods/nanopb/pb_decode.c:412-475 | two occurrences of a submessage: as a oneof member only the second counts, as an optional field they are merged |
| DecodeLaws.ZeroKeyStops | ExpressAssist/Pods/nanopb/pb_decode.c:311-315 | a zero key ends the message, and what follows it is left unread |
| DecodeLaws.ZeroTagShows | ExpressAssist/Pods/nanopb/pb_common.c:78-95 | a field with tag 0 and a one-byte payload is accepted for the empty message and for no other |
| Canonical.LeftOutIffEmpty | ExpressAssist/Pods/nanopb/pb_encode.c:240-337 | a proto3 submessage with known which-fields is left out if and only if there is nothing to write for it |
| Canonical.SameEncodingExact | ExpressAssist/Pods/nanopb/pb_encode.c:240-426 | two well-formed structs with the same meaning have the same encoding if and only if at every written level their proto3 submessages are left out of both or of neither |
| Canonical.MsgEncodesSame | ExpressAssist/Pods/nanopb/pb_encode.c:240-426 | structs with the same meaning, their oneofs unset or set to members, have the same encoding byte for byte |
| Canonical.UnknownWhichShows | ExpressAssist/Pods/nanopb/pb_encode.c:258-262 | a which-field that is no member's tag makes a proto3 submessage present: two well-formed structs with the same meaning and different encodings |
| WhichFields.NoInitKnown | ExpressAssist/Pods/nanopb/pb_decode.c:466-475 | decoding any bytes leaves every which-field zero or the tag of a member, if it was before |
| Canonical.ArrivedEncodesSame | ExpressAssist/Pods/nanopb/pb_encode.c:528-550 | a struct with known which-fields, decoded into any destination, encodes to the same bytes again |
| Canonical.NormalForm | ExpressAssist/Pods/nanopb/pb_encode.c:528-550 | whatever bytes are accepted, into a destination that is in order once set to its defaults, encoding the result is a normal form: decoded into any struct it has the same meaning and encodes to the same bytes again |
| ImageCache.StepConserves | ExpressAssist/Pods/AlamofireImage/Source/ImageCache.swift:188-301 | every block keeps: usage equals the sum over the images, keys equal identifiers |
| ImageCache.RunConserves | ExpressAssist/Pods/AlamofireImage/Source/ImageCache.swift:188-301 | over every interleaving of blocks: conservation at each boundary, and usage within capacity whenever no purge is pending |
| ImageCache.PurgeReaches | ExpressAssist/Pods/AlamofireImage/Source/ImageCache.swift:200-226 | a purge reaches its target, ends at or below the preferred usage, and would not have without its last removal |
| ImageCache.DatesAreLastUses | ExpressAssist/Pods/AlamofireImage/Source/ImageCache.swift:96-101 | over every run the access date of an image is the time of its last insertion or access |
| ImageCache.PurgeIsLRU | ExpressAssist/Pods/AlamofireImage/Source/ImageCache.swift:205-223 | over every run no image survives a purge that was last used before a removed one |
| ImageCache.KeysMadeFor | ExpressAssist/Pods/AlamofireImage/Source/ImageCache.swift:341-349 | which keys are made for a URL |
| ImageCache.CachedExact | ExpressAssist/Pods/AlamofireImage/Source/ImageCache.swift:188-301 | over every run there is an image under an identifier if and only if one was put there and has not been taken out since: by its identifier, by a prefix of that, with all others, or by a purge that found the cache over its capacity |
| ImageCache.CachedIsLastInsert | ExpressAssist/Pods/AlamofireImage/Source/ImageCache.swift:179-198 | over every run a cached image is the one that was last added under its key |
| ImageCache.MatchingExact | ExpressAssist/Pods/AlamofireImage/Source/ImageCache.swift:243-263 | over every run, removing for a URL misses no image added for it, and removes exactly those if and only if no cached image added for anything else has a key that starts with the URL |
| ImageCache.LongerRemoved | ExpressAssist/Pods/AlamofireImage/Source/ImageCache.swift:249-263 | an image added for any longer URL is removed too |
| ImageCache.MatchingRemovesMore | ExpressAssist/Pods/AlamofireImage/Source/ImageCache.swift:254 | removing the images of a.png also removes those added for a.png2 and for a.png-large |
| ImageCache.SortByDate | ExpressAssist/Pods/AlamofireImage/Source/ImageCache.swift:204-211 | the images in order of access date, each once |
| ImageCache.CachedImage.AccessImage | ExpressAssist/Pods/AlamofireImage/Source/ImageCache.swift:98-101 | only the access date changes |
| ImageCache.AutoPurgingImageCache.InsertBlock | ExpressAssist/Pods/AlamofireImage/Source/ImageCache.swift:189-198 | replaces an image and adjusts the usage, without underflow |
| ImageCache.AutoPurgingImageCache.InsertBlockFor | ExpressAssist/Pods/AlamofireImage/Source/ImageCache.swift:179-198 | the same under the key made from the URL and the identifier |
| ImageCache.AutoPurgingImageCache.PurgeBlock | ExpressAssist/Pods/AlamofireImage/Source/ImageCache.swift:200-226 | over capacity, evicts a shortest prefix of the access-date order that reaches the target; else nothing |
| ImageCache.AutoPurgingImageCache.PurgeImages | ExpressAssist/Pods/AlamofireImage/Source/ImageCache.swift:213-222 | the loop always reaches its target before it runs out of images |
| ImageCache.AutoPurgingImageCache.RemoveImage | ExpressAssist/Pods/AlamofireImage/Source/ImageCache.swift:271-282 | removes one image and its bytes, and tells whether it was there |
| ImageCache.AutoPurgingImageCache.RemoveImages | ExpressAssist/Pods/AlamofireImage/Source/ImageCache.swift:249-263 | removes every image whose key starts with the request's, with all their bytes |
| ImageCache.AutoPurgingImageCache.RemoveAllImages | ExpressAssist/Pods/AlamofireImage/Source/ImageCache.swift:288-301 | empties the cache and the counter |
| ImageCache.AutoPurgingImageCache.ImageWithIdentifier | ExpressAssist/Pods/AlamofireImage/Source/ImageCache.swift:321-331 | returns the image and moves its access date, or nothing |
| ImageDownloader.InvNext | ExpressAssist/Pods/AlamofireImage/Source/ImageDownloader.swift:279-573 | every atomic step keeps the whole invariant |
| ImageDownloader.LinkedNext | ExpressAssist/Pods/AlamofireImage/Source/ImageDownloader.swift:279-573 | a suspended request stays queued with its handler registered; a closure about to remove a handler removes its own |
| ImageDownloader.NoLostWakeup | ExpressAssist/Pods/AlamofireImage/Source/ImageDownloader.swift:527-553 | in every interleaving the counter is between 0 and the maximum and at most the number of requests in flight, and while a suspended request is queued, counter plus completions between decrement and start-next reach the maximum |
| ImageDownloader.ExactlyOnce | ExpressAssist/Pods/AlamofireImage/Source/ImageDownloader.swift:290-525 | in every interleaving a receipt's completion is scheduled at most once, is either scheduled or pending with its own request, and is delivered only by the closure of the request it was registered with |
| ImageDownloader.NeverStuck | ExpressAssist/Pods/AlamofireImage/Source/ImageDownloader.swift:339-396 | while a completion is outstanding and downloads are allowed, a task can complete or a closure has a step to take |
| ImageDownloader.AllScheduled | ExpressAssist/Pods/AlamofireImage/Source/ImageDownloader.swift:339-396 | when only callers could make a step, exactly the receipts handed out have had their completion scheduled, each once |
| ImageDownloader.RunEnds | ExpressAssist/Pods/AlamofireImage/Source/ImageDownloader.swift:339-396 | until the next download the number of steps of tasks and closures is bounded, whatever is cancelled meanwhile |
| ImageDownloader.DeliveredInOrder | ExpressAssist/Pods/AlamofireImage/Source/ImageDownloader.swift:255-259 | over every run the completions that one request delivers come in the order of the downloads they belong to, whatever is cancelled meanwhile |
| ImageDownloader.DownloadExact | ExpressAssist/Pods/AlamofireImage/Source/ImageDownloader.swift:290-415 | over every run: a download joins the request of a registered handler whatever the cache holds; else the cache answers; else one request is made, started if and only if the limit allows it |
| ImageDownloader.CancelExact | ExpressAssist/Pods/AlamofireImage/Source/ImageDownloader.swift:474-503 | over every run: a cancel schedules the completion of its receipt if and only if that is still an operation of the registered handler of its own request; the handler leaves the table and the request is cancelled if and only if that is suspended and no other operation remains |
| ImageDownloader.CancelledStillCalled | ExpressAssist/Pods/AlamofireImage/Source/ImageDownloader.swift:467-503 | once at rest, the completion of a cancelled receipt has been scheduled after the cancel if and only if it had not been before |
| ImageDownloader.CancelCalls | ExpressAssist/Pods/AlamofireImage/Source/ImageDownloader.swift:467-503 | cancelling a request that was just started schedules the completion with the cancellation; the request runs on and its handler stays registered |
| ImageDownloader.StartFirstStarts | ExpressAssist/Pods/AlamofireImage/Source/ImageDownloader.swift:531-536 | the loop starts the first suspended request of the queue and drops exactly what precedes it, none of which is suspended |
| ImageDownloader.QueueStaysOrdered | ExpressAssist/Pods/AlamofireImage/Source/ImageDownloader.swift:555-573 | over every run the queue is in the order in which the requests were made, with LIFO in the reverse order |
| ImageDownloader.StartOrder | ExpressAssist/Pods/AlamofireImage/Source/ImageDownloader.swift:527-573 | when a waiting request is started, every request left waiting was made after it, with LIFO before it |
| ImageDownloader.ImageDownloader.Download | ExpressAssist/Pods/AlamofireImage/Source/ImageDownloader.swift:290-415 | coalesces, answers from the cache, or registers a new request and starts or queues it |
| ImageDownloader.ImageDownloader.CancelRequest | ExpressAssist/Pods/AlamofireImage/Source/ImageDownloader.swift:474-503 | takes out the receipt's own operation; cancels a request that is still suspended and has none left |
| ImageDownloader.ImageDownloader.FetchesOwnHandler | ExpressAssist/Pods/AlamofireImage/Source/ImageDownloader.swift:350-352 | true exactly when the registered handler is that of the request |
| ImageDownloader.ImageDownloader.SafelyRemoveResponseHandler | ExpressAssist/Pods/AlamofireImage/Source/ImageDownloader.swift:517-525 | takes the handler out of the table and hands it over |
| ImageDownloader.ImageDownloader.SafelyStartNextRequestIfNecessary | ExpressAssist/Pods/AlamofireImage/Source/ImageDownloader.swift:527-538 | below the limit, starts the first suspended request of the queue |
| ImageDownloader.ImageDownloader.SafelyDecrementActiveRequestCount | ExpressAssist/Pods/AlamofireImage/Source/ImageDownloader.swift:540-546 | counts down, but not below zero |
| ImageDownloader.ImageDownloader.Start | ExpressAssist/Pods/AlamofireImage/Source/ImageDownloader.swift:550-553 | resumes the request and counts up |
| ImageDownloader.ImageDownloader.Enqueue | ExpressAssist/Pods/AlamofireImage/Source/ImageDownloader.swift:555-562 | at the back or the front, by prioritization |
| ImageDownloader.ImageDownloader.Dequeue | ExpressAssist/Pods/AlamofireImage/Source/ImageDownloader.swift:565-573 | takes the first request, if any |
| ImageDownloader.FilteredImages | ExpressAssist/Pods/AlamofireImage/Source/ImageDownloader.swift:360-376 | every completion gets the image filtered by the first filter with its identifier, and every such filter runs once |

## Left out

- Callback fields, extensions, pointer fields and everything under `PB_ENABLE_MALLOC`: foreign function pointers and heap allocation. With that option on, a oneof whose which-field holds a number that is not in the table is refused instead of overwritten; static fields are otherwise unaffected.
- Alternate builds (`PB_WITHOUT_64BIT`, `PB_BUFFER_ONLY`, `PB_ENCODE_ARRAYS_UNPACKED`, 16-bit `pb_size_t`) and custom stream callbacks: only buffer streams and the counting stream are modelled.
- Error message strings: a failing decode only fails, a failing encode tells lack of room from an invalid struct.
- What a failing decode leaves in the destination struct, and what a failing encode leaves in the buffer.
- Padding, raw casts and the union memory of a oneof: a oneof slot holds its current member, and setting defaults makes its content a fixed placeholder. The addresses of slots are modelled in `FieldIter` only. A nested struct is decoded in an object of its own that is then stored in its slot, so aliasing between a struct and its parts is not modelled.
- What a oneof member that is no submessage is decoded over: in the model zeros, in C the memory of the union. It shows only behind the NUL of a string.
- Decoder.FieldSetToDefault: keeps all elements of a fixed-count array, where the code also writes a zero count over its first `sizeof(pb_size_t)` bytes. The theorems hold for every content such an array may have, the one with these bytes cleared included; the assumed tables have no array without a count that is shorter than that (`Schema.RoomForCount`), behind which the code would clear other fields.
- Decoder.MessageSetToDefaults: likewise, for the fixed-count arrays of the struct.
- Decoder.DecodeMessage: likewise, for fixed-count arrays that do not occur in the input.
- Decoder.DecodeDelimited: likewise, for fixed-count arrays that do not occur in the frame.
- Reencoding.ReencodesExact: is for tables every part of whose submessages can be reached by a payload of 32-bit size (`Reencoding.Reachable`, a bound computed from the table). To decode over an element of an array without a count, all its elements have to be sent in one payload; where they do not fit in one, no input shows the element (`Reencoding.UnreachedEncodes`). Reencoding.WritableReencodes, the other direction, has no such limit.
- Encoder.EncodeMessage: requires that sizes fit a `size_t`, because the code does not check them.
- WireFormat.DecVarint32Exact: covers varints of up to 37 bytes; on longer ones the 8-bit position of the 32-bit decoder wraps around (`Varint.DecVarint32From` follows it).
- Wire types of known fields: the decoder does not compare them with the table, and neither does the model.
- `pb_encode_nullterminated`, `pb_decode_nullterminated`, `pb_decode_delimited_noinit`, `read_raw_value`: variants of what is modelled.
- Transport.EncodeRequest: is a generic caller over tables of static fields, while the request type of GoogleDataTransport has pointer fields.
- ImageCache: overflow of the 64-bit usage counter, Unicode equivalence of keys, the computation of an image's size from its dimensions, and the memory-warning notification.
- ImageDownloader: networking, authentication, serialization, progress handlers and negative maxima. It is assumed that creating a task succeeds, that receipt IDs are unique, that requests are cancelled only through `cancelRequest`, that each task completes once, and that the downloader outlives its closures.
- ImageDownloader.StartOrder: orders the requests that wait. A download that comes between a decrement and its start-next section starts at once, ahead of them.
- ImageDownloader.NoLostWakeup: does not claim that at most `maximumActiveDownloads` tasks run, because a request cancelled while queued also decrements the counter.
- The ExpressAssist app itself, Alamofire's session layer and the other pods.
