# SonicWS: a verified model

SonicWS is a schema-driven binary protocol over WebSockets. A core in Rust encodes, validates and decodes packets; a
session layer in Rust, TypeScript and Python numbers and replays packets, delivers them one at a time, limits rates,
suppresses repeated values and keeps rooms. This project models that logic in Dafny and proves what it is for. It holds

- the byte codecs and the whole-packet codec, whose three walks over the same bytes (encode, validate, decode) are shown
  to agree with each other on every input (`Varint` to `PacketRoundTrip`, `Batching`),
- the JSON codec that splits one value into three streams (`Json`, `JsonLoops`, `JsonValues`),
- session recovery as a state machine of one client and one server over a transport that delivers in order and loses a
  suffix when it breaks (`Recovery*`),
- the delivery lock, whose steps are what runs between two awaits (`Delivery`),
- arithmetic and caches that live as long as a connection (`Quantization`, `QuantizedTransfer`, `QuantizedShared`, `Rates`,
  `Rereference`, `Rooms`),
- permutation variants (`Permutation*`), the handshake table (`Registry*`), and the JavaScript shortcuts around the
  native core (`FastPaths`).

Code that the program writes as loops and updated fields is written here as methods and classes, each proved against a
function; the theorems are about those functions. What these functions mean is said once more without them, in terms of
values, numbers, bytes and runs alone, in the modules `*Meaning`, `QuantizationLaws` and `RecoveryAdmission`. Where a
promise of the program does not hold for all inputs, the model keeps the program's behaviour, a lemma gives the exact
condition, and another one inputs or runs that break it:

| promise | holds exactly when | otherwise |
|---|---|---|
| delta lists come back (`Integers.DeltasExact`) | every difference, wrapped to 64 bits, fits in 32 | `Integers.LargeStepIsLost` |
| hexadecimal text comes back in lower case (`Hex.EncodeOfDecode`) | it was read without a plus sign | `Hex.PlusSignIsLost` |
| JSON values encode (`Json.EncodableValues`) | nesting is at most 500 and integers fit in 32 bits | `Json.LargeIntegerIsRefused`, `Json.DeepNestingIsRefused` |
| JSON documents come back (`Json.NormalIsIdentity`) | floats survive single precision | `Json.LossyFloatChanges` |
| application values come back from JSON (`JsonMeaning.JsonIsIdentityIff`, `SendMeaning.JsonArrivesIff`) | besides, nothing undefined or in single precision, integers in signed form, no key twice | the values that are not `JsonMeaning.Plain` |
| after a lost transport, the client asks for the session it was counting for (`RecoveryTheorems.NextResumeContinuesIff`, `RecoveryContinuity.AskedAgainIff`) | no recovery was outstanding; otherwise that session is abandoned, with the frames retained for it | `RecoveryContinuity.AbandonedForGood`, `RecoveryContinuity.OrderlyRunGivesUpPacket`, `RecoveryTheorems.DisorderlyRunLosesPacket`, `RecoveryLoss.LossBeforeAnswerLosesFrame` |
| the client has everything sent in its session, once and in order (`RecoveryTheorems.ExactlyOnceInOrderIff`) | nothing was evicted too early, and nothing sent silently (such as through a closed connection, which `isClosed()` shows) without being re-sent | `RecoverySilence.StaleSendIsSkipped`, `RecoverySilence.StaleSendSkipsPacket` |
| a frame numbered by a silent send still reaches the client (`RecoverySilence.SilentIsObtainableIff`) | nothing with a higher number has reached the client before its next RESUME, and the frame is retained | `RecoverySilence.StaleSendSkipsPacket` |
| accepted packets decode (`CodecAgreement.ValidPacketsDecodeIff`) | a vector can hold the boolean maxima of the schema | `CodecAgreement.EmptyCrowdPanics` |
| packets are delivered one at a time (`Delivery.SerialFromStart`) | no batch has two or more results | `Delivery.BatchesInterleave` |
| a quantized send arrives as it was rounded (`QuantizedTransfer.ArrivesIff`) | the integers fit the kind, their multiples are in range, the payload inflates | `QuantizedTransfer.VarintWraps`, `QuantizedTransfer.FeedbackLeavesRange`, `QuantizedTransfer.SaturatedSendDrifts` |
| the packet limit limits (`Rates.LimitsIff`) | it is below the largest 32-bit number | `Rates.LargestLimitIsNone` |
| repeated values arrive as sent (`Rereference.TransparentIff`) | values that go out as repetitions decode as what they repeat | `Rereference.NegativeZeroIsLost` |
| the room index is what a scan finds (`Rooms.IndexIsScanIff`) | all members are registered | `Rooms.TagAfterClose` |
| a registry is written as its table (`RegistryProofs.WritesTheTable`) | all enum text is ASCII | `RegistryProofs.AccentIsMisplaced`, `RegistryProofs.AccentedRegistryIsNotATable` |
| the JavaScript varints are the core's (`FastPaths.ShortcutIsCore`) | clamping and casting to 32 bits agree | `FastPaths.ShortcutDiffers` |
| a batch is decoded (`Batching.BatchComesBack`) | count and inflated size keep to the limits | `Batching.LongBatchIsRefused` |

Assumptions on the environment are the parameters of the model: the Huffman table is prefix-free with non-empty codes and
distinct characters; DEFLATE inflates what it compressed; UTF-8, JSON metadata and the text of numbers are functions with
an inverse; floating-point encodings have their fixed widths. On an error, the model gives the same kind of failure as the
program, without its message; panics are a kind of their own. Sixty-four-bit overflow wraps, as in a release build.

## Model

| member | source | states |
|---|---|---|
| Primitives.Reader.ReadExact | projects/core/src/wire/reader.rs:41-51 | the cursor advances by exactly what was read, or stays where it is and reports what is missing |
| Varint.ReadOfEncode | projects/core/src/primitives/varint.rs:17-42 | every 64-bit value is read back wherever its encoding stands, and the cursor stops right behind it |
| Varint.EncodeReserve | projects/core/src/primitives/varint.rs:17-30 | 64-bit values never take more than ten bytes, and 32-bit values never more than five |
| Varint.EncodeLoop | projects/core/src/primitives/varint.rs:17-30 | the shifting loop writes the groups of seven bits of its input, low groups first |
| Varint.Decode | projects/core/src/primitives/varint.rs:32-42 | the reading loop finds the value that the groups stand for, or the error of the first byte that fails, and moves the reader accordingly |
| Varint.EncodeIsRun | projects/core/src/primitives/varint.rs:17-30 | the bytes of a value are groups of seven bits, low ones first, with the high bit set on all but the last, and hold the value |
| Varint.EncodeIsShortest | projects/core/src/primitives/varint.rs:17-30 | no shorter run of such groups holds the value |
| Varint.ReadIsSum | projects/core/src/primitives/varint.rs:32-42 | for arbitrary bytes, reading takes a run of at most ten groups and gives the low 64 bits of what it holds; it fails exactly when there is no such run |
| Varint.ReadIff | projects/core/src/primitives/varint.rs:32-42 | a value is read if and only if such a run begins here |
| Integers.ZigzagInverse | projects/core/src/primitives/zigzag.rs:14-21 | decoding after encoding keeps exactly the low 32 bits, encoding after decoding is the identity on words, and one- and two-byte ranges correspond |
| Integers.ZigzagOfWord | projects/core/src/primitives/zigzag.rs:14-21 | only the low 32 bits of a word are looked at, of which the last is the sign |
| Integers.DeltasCongruent | projects/core/src/codec/decode.rs:66-82 | every decoded element of a delta list has the low 32 bits of the element sent |
| Integers.DeltasExact | projects/core/src/codec/encode.rs:110-117 | a delta list is recovered as a whole if and only if every consecutive difference, wrapped to 64 bits and starting from 0, fits in 32 bits |
| Integers.LargeStepIsLost | projects/core/src/codec/encode.rs:110-117 | the list of the single value 2^31 comes back as -2^31 |
| Bits.PackIsUnique | projects/core/src/primitives/bools.rs:14-24 | packed bytes are exactly those with every bit at its place and zero padding |
| Bits.ByteIsItsBits | projects/core/src/primitives/bools.rs:14-24 | the first bit of a byte is worth 128, and the last one 1 |
| Bits.UnpackOfPack | projects/core/src/primitives/bools.rs:14-34 | unpacking any number of bits gives the packed ones, cut or padded with false |
| Bits.PackLoop | projects/core/src/primitives/huffman.rs:271-280 | putting bytes together bit by bit, chunk by chunk, gives the packed bytes |
| Huffman.InverseIsExact | projects/core/src/primitives/huffman.rs:300-329 | decoding accepts bytes for a length as a text if and only if the text has that length and encodes to those bytes |
| Huffman.EncodingIsInjective | projects/core/src/primitives/huffman.rs:265-282 | texts of equal length with the same padded bytes are the same text |
| Huffman.EncodeHuffman | projects/core/src/primitives/huffman.rs:265-282 | the loop that collects bits and the loop over chunks of eight produce the concatenated codes with zero padding, or nothing for an unknown character |
| Huffman.DecodeHuffmanExact | projects/core/src/primitives/huffman.rs:300-329 | the bit-by-bit decoder with its buffer is the exact inverse of encoding, on every byte sequence and length |
| Strings.AsciiRoundTrip | projects/core/src/primitives/strings.rs:20-55 | every list of encodable strings that fits in memory comes back with its boundaries |
| Strings.AcceptedAscii | projects/core/src/primitives/strings.rs:32-55 | decoding accepts exactly the headers whose lengths do not wrap in 64 bits and have a text of that length, cut at the lengths |
| Strings.WrappedLengthsPanic | projects/core/src/primitives/strings.rs:39-53 | the lengths 1, 2^64 - 1 and 1 over a text of one character, whose wrapped sum is right, are a panic |
| Strings.HugeCountPanics | projects/core/src/primitives/strings.rs:32-55 | a count of strings for which there is no room is a panic, whatever follows |
| Strings.CodepointsRoundTrip | projects/core/src/primitives/strings.rs:57-84 | every list of strings comes back from its code points |
| Strings.CharFromCodeIff | projects/core/src/primitives/strings.rs:68-84 | a number stands for a character if and only if it has the last 32 bits of it |
| Strings.EncodeAsciiLoop | projects/core/src/primitives/strings.rs:20-30 | count, lengths and one Huffman text for all characters |
| Strings.DecodeAsciiLoop | projects/core/src/primitives/strings.rs:32-55 | reads the header, sums the lengths with wrap-around, decodes the joint text and cuts it, with the error or panic of the step that fails, allocations for the announced count included |
| Strings.EncodeCodepointsLoop | projects/core/src/primitives/strings.rs:57-66 | the nested loops write each length followed by its code points |
| Strings.DecodeCodepointsLoop | projects/core/src/primitives/strings.rs:68-84 | reads strings until the bytes end; surrogates, numbers beyond Unicode and truncation are errors |
| Hex.DecodeOfEncode | projects/core/src/primitives/hex.rs:16-30 | every byte sequence survives the way through text |
| Hex.EncodeOfDecode | projects/core/src/primitives/hex.rs:19-30 | accepted text comes back in lower case if and only if it has no plus sign |
| Hex.PlusSignIsLost | projects/core/src/primitives/hex.rs:25-26 | the text +5 is read as 5 and comes back as 05 |
| Hex.DecodeLoop | projects/core/src/primitives/hex.rs:19-30 | the loop over two bytes at a time decodes as specified: odd lengths and other characters are errors, cutting a character in two is a panic |
| CodecAgreement.SectorAgreement | projects/core/src/codec/validate.rs:32-156 | for arbitrary bytes of any kind, validation accepts, with a maximum of booleans that a vector can hold, if and only if decoding succeeds and the decoded count keeps to the limits |
| CodecAgreement.AsciiAgrees | projects/core/src/codec/validate.rs:107-132 | the separate walk over string lengths accepts exactly what decodes within the limits: no overflow, truncation or mismatch escapes it or is invented by it |
| CodecAgreement.BooleansAreExact | projects/core/src/codec/decode.rs:106-111 | decoded booleans number exactly the maximum if a vector can hold so many values, and decoding is a panic otherwise |
| CodecAgreement.FieldsAgreement | projects/core/src/codec/validate.rs:158-205 | for length-framed objects, validation and decoding stop at the same places and accept the same bytes, field by field, apart from boolean maxima beyond a vector, at which decoding is a panic |
| CodecAgreement.PacketAgreement | projects/core/src/codec/validate.rs:158-205 | for arbitrary bytes and any schema, a packet is accepted and its boolean maxima fit a vector if and only if it decodes and every counted sector holds between minimum and maximum |
| CodecAgreement.ValidPacketsDecodeIff | projects/rust/src/packet.rs:145-149 | what was validated decodes, on which the receiver relies between its two calls, if and only if the boolean maxima fit a vector, and is a panic otherwise |
| CodecAgreement.EmptyCrowdPanics | projects/core/src/codec/decode.rs:106-111 | with a maximum of 2^58 booleans and no minimum, the empty payload is accepted and decoding it is a panic; one boolean less fits |
| CodecRoundTrip.SectorRoundTrip | projects/core/src/codec/encode.rs:43-200 | whatever a kind encodes decodes to its normal form: integers to 32 bits, booleans padded (or a panic, if a vector cannot hold the maximum), everything else as it was |
| CodecRoundTrip.SentSectorAccepted | projects/core/src/codec/validate.rs:32-156 | an encoded sector is accepted if and only if the number of values sent meets the limits |
| CodecRoundTrip.FieldsRoundTrip | projects/core/src/codec/decode.rs:157-184 | the fields of an object decode to their normal forms from inside the concatenated sectors, enum packages in the order of enum fields, unless a boolean maximum is beyond a vector |
| CodecRoundTrip.SentFieldsAreAccepted | projects/core/src/codec/validate.rs:158-205 | encoded fields are accepted if and only if each meets its own limits |
| PacketRoundTrip.RoundTrip | projects/core/src/codec/encode.rs:202-236 | for every schema and every value that encodes, the packet decodes to the normal form of the value, or is a panic where a boolean maximum is beyond a vector, and is valid if and only if the counts sent meet the limits |
| PacketRoundTrip.NormalIsIdentity | projects/core/src/codec/decode.rs:21-141 | what encodes comes back unchanged if and only if the wire carries it in full: 32-bit integers, deltas with 32-bit steps, floats that survive their coding, booleans in the announced number, lower-case text without plus signs, enum values found exactly |
| PacketRoundTrip.PayloadWithinLimit | projects/core/src/compression/gzip.rs:53-68 | a payload of at most the announced number of values is never longer than the computed limit |
| PacketRoundTrip.HonestPayloadInflates | projects/core/src/compression/gzip.rs:72-94 | honest traffic below the global ceiling stays within the inflation limit of its schema |
| PacketRoundTrip.PayloadComesBack | projects/core/src/compression/gzip.rs:72-94 | inflating what a compressed packet carries gives the payload back within its budget |
| CodecMeaning.EncodesIff | projects/core/src/codec/encode.rs:20-200 | a value encodes if and only if its kind takes it: integers in either of their two forms within the range of the kind, floats, booleans, text with codes for all its characters, hexadecimal digits, values of the enum package |
| CodecMeaning.SectorArrives | projects/core/src/codec/decode.rs:21-141 | what is decoded for a value of each kind, item by item: the same number where the kind holds it, otherwise its low 32 bits; single and double precision; booleans padded to the maximum; the same text; lower-case digits; the first enum value that the item names |
| CodecMeaning.ArrivesIsUnique | projects/core/src/codec/decode.rs:21-141 | that statement allows one value only |
| CodecMeaning.DeltasNormal | projects/core/src/codec/decode.rs:66-82 | each delta that arrives has the low 32 bits of the number sent and is a 32-bit step from the one before; all are the numbers sent if and only if every step fits in 32 bits |
| CodecMeaning.AcceptedIff | projects/core/src/codec/validate.rs:32-156 | a sector that was encoded is accepted if and only if the number of values keeps to the limits: bytes and documents are not counted, booleans in whole bytes, text in bytes of two digits |
| CodecMeaning.PacketArrives | projects/core/src/codec/encode.rs:202-236 | the same for a whole packet of one value, through framing and compression |
| CodecMeaning.ObjectArrives | projects/core/src/codec/encode.rs:202-236 | the same for an object, field by field, where the n-th enum field takes the n-th package |
| CodecMeaning.ChunksAreWritten | projects/core/src/codec/encode.rs:59-103 | on the wire, items of one, two, four or eight bytes stand one behind the other: numbers with their sign in the last bit, the high byte first, floats in their encoding |
| CodecMeaning.VarintsAreWritten | projects/core/src/codec/encode.rs:104-117 | on the wire, variable-length numbers stand one behind the other, signed ones with their sign in the last bit, deltas as differences of neighbours |
| SizeMeaning.LimitIsReached | projects/core/src/compression/gzip.rs:53-68 | where a kind has a limit for a number of values, some value of that number needs all of it; signed varints are given as much as unsigned ones |
| SizeMeaning.TextHasNoLimit | projects/core/src/compression/gzip.rs:53-68 | a single text or document can be longer than any number, and their kinds have no limit |
| SizeMeaning.InflatesIff | projects/core/src/compression/gzip.rs:72-94 | a packet inflates if and only if its payload is within the limit of its schema, if there is one, and within 16777216 bytes |
| SizeMeaning.SchemaLimitIs | projects/core/src/compression/gzip.rs:72-94 | a batch is given ten bytes more than the limit for each of the payloads that it may hold |
| CodecLoops.EncodeTypeLoop | projects/core/src/codec/encode.rs:43-200 | the branches with their loops over values produce the specified sector or error |
| CodecLoops.EncodePacketLoop | projects/core/src/codec/encode.rs:202-236 | sectors are framed and collected field by field, single payloads compressed when the schema says so |
| CodecLoops.DecodeTypeLoop | projects/core/src/codec/decode.rs:21-141 | the reader loops with their running sums decode as specified |
| CodecLoops.DecodePacketLoop | projects/core/src/codec/decode.rs:143-185 | fields are read through one cursor and one enum index, and extra bytes are refused |
| CodecLoops.ValidateTypeLoop | projects/core/src/codec/validate.rs:32-156 | the counting loops reach the specified verdict without decoding |
| CodecLoops.ValidatePacketLoop | projects/core/src/codec/validate.rs:158-205 | the loop over sectors validates each against its own limits and refuses extra bytes |
| Batching.DecodeOfEncode | projects/core/src/batching/decode.rs:21-33 | a batch decodes to its payloads if and only if they are no more than the limit, zero being no limit; otherwise it is refused |
| Batching.LongBatchIsRefused | projects/core/src/batching/decode.rs:24-27 | for every limit, as many empty payloads are accepted and one more is refused |
| Batching.DecodedWithin | projects/core/src/batching/decode.rs:21-33 | whatever the bytes, an accepted batch keeps to the limit and its payloads with their frames fit into the bytes |
| Batching.BatchLength | projects/core/src/batching/encode.rs:17-25 | payloads of at most `size` bytes take at most `size + 10` each in a batch, the reserve of the encoder |
| Batching.BatchWithinLimit | projects/core/src/compression/gzip.rs:72-94 | batches that keep to `max_batch_size` and to the payload limit fit the inflation limit |
| Batching.BatchComesBack | projects/core/src/batching/decode.rs:35-47 | for every schema, a batch is decoded if and only if its count keeps to the schema and, compressed, its length to the budget; otherwise it is refused |
| Batching.BatchRoundTrip | projects/core/src/codec/validate.rs:208-220 | for every batched schema and list of values, the receiver gets the payloads sent, each decodes to the normal form of its value (or is a panic where a boolean maximum is beyond a vector), and the batch is valid if and only if every value meets the limits |
| Batching.BatchIsValidIff | projects/core/src/codec/validate.rs:208-220 | a batch is valid if and only if its packet is batched, it decodes, and each payload is valid for the unbatched packet |
| Batching.EncodeBatchesLoop | projects/core/src/batching/encode.rs:17-25 | the loop appends each payload behind its length |
| Batching.DecodeBatchesLoop | projects/core/src/batching/decode.rs:21-33 | the loop over the reader decodes as specified, checking the limit before each payload |
| FastPaths.EncodeIntegerVarints | projects/ts/src/native/wrapper.ts:221-250 | the typed array of five bytes a number always suffices, and holds the encodings of all numbers in order, or the error of the first number that is refused is thrown |
| FastPaths.RejectsIff | projects/ts/src/native/wrapper.ts:221-250 | a number is refused for its type if and only if it is no integer, and for its range if and only if it is unsigned and has not 32 bits |
| FastPaths.ShortcutIsCore | projects/ts/src/native/wrapper.ts:221-250 | the JavaScript bytes are those of the Rust core if and only if casting and clamping to 32 bits agree on every number |
| FastPaths.ShortcutIsCoreOn32Bits | projects/ts/src/native/wrapper.ts:216-220 | on all 32-bit numbers the shortcut writes the bytes of the core |
| FastPaths.ShortcutDiffers | projects/ts/src/native/wrapper.ts:234-239 | for 2^31 the shortcut writes the word of 2^31 - 1, and the core that of -2^31 |
| FastPaths.PutVarint | projects/ts/src/native/wrapper.ts:240-245 | filling at an offset writes exactly one encoding and leaves what stands before it |
| FastPaths.BatchSize | projects/ts/src/native/wrapper.ts:447-456 | counting divisions by 128 gives the length of the batch to be written |
| FastPaths.EncodeNativeBatch | projects/ts/src/native/wrapper.ts:441-475 | the size pass equals what the fill pass writes, and the array holds the batch of the Rust encoder |
| Json.DecodeValue | projects/rust/src/json.rs:184-234 | on all bytes decoding ends, because each call uses up one entry of the type stream whatever counts are announced; no cursor leaves its stream or moves back |
| Json.DecodeOfEncode | projects/rust/src/json.rs:119-234 | decoding inside any larger streams gives the value back and moves the type, boolean and payload cursors by exactly what the value contributed |
| Json.RoundTrip | projects/rust/src/json.rs:14-56 | every value that encodes comes back through the framed and packed streams, with order of entries, and floats in single precision |
| Json.EncodableValues | projects/rust/src/json.rs:119-175 | a value encodes if and only if it is nested at most 500 deep and its integers fit in 32 bits |
| Json.LargeIntegerIsRefused | projects/rust/src/json.rs:137-141 | the integer 2^31 does not encode |
| Json.DeepNestingIsRefused | projects/rust/src/json.rs:126-128 | lists nested 500 times encode, and lists nested once more do not |
| Json.NormalIsIdentity | projects/rust/src/json.rs:119-234 | a value comes back unchanged if and only if its floats survive single precision |
| Json.LossyFloatChanges | projects/rust/src/json.rs:145-152 | a float that single precision maps to another one comes back as that one |
| Json.UnpackOfPackTypes | projects/rust/src/json.rs:253-275 | types packed to three bits are unpacked in order, possibly followed by padding |
| Json.Contributions | projects/rust/src/json.rs:119-175 | the number of each kind of value in the type stream, and what it writes to the other two |
| Json.DecodedEncodes | projects/rust/src/json.rs:184-234 | whatever the streams, what is decoded is nested no deeper than 500 and its integers have 32 bits |
| Json.DecodedKind | projects/rust/src/json.rs:184-234 | whatever the streams, the next type decides the kind of the value, and types above 6 have none |
| JsonLoops.PackTypesLoop | projects/rust/src/json.rs:253-264 | setting bits one by one in a zeroed array gives the packed types |
| JsonLoops.Writer.EncodeValueInto | projects/rust/src/json.rs:119-175 | the recursive writer appends to its three vectors exactly the streams of the value |
| JsonLoops.Decoder.DecodeNext | projects/rust/src/json.rs:184-234 | the recursive reader with its three cursors decodes as specified |
| JsonLoops.EncodeLoop | projects/rust/src/json.rs:14-36 | two lengths, the packed booleans and types, and the payload |
| JsonLoops.DecodeLoop | projects/rust/src/json.rs:38-56 | the frame is taken apart and one value decoded from the streams |
| JsonValues.ToJsonIsUnique | projects/rust/src/json.rs:66-97 | whatever value is converted, no object of its document has a key twice |
| JsonMeaning.ToJsonIff | projects/rust/src/json.rs:66-97 | a value is converted to its document, in which a key that is given twice keeps its first place and its last value, and to nothing else; it has none if and only if it holds bytes or a float that is not a number |
| JsonMeaning.NormalIsReadBack | projects/rust/src/json.rs:99-117 | what is read from a document that passed the coding: the same values, floats in single precision, and null for those beyond it |
| JsonMeaning.JsonIsIdentityIff | projects/rust/src/json.rs:66-117 | a value comes back unchanged from its document if and only if it is built from null, booleans, signed integers, text, lists, objects without a key twice, and floats that survive single precision |
| JsonMeaning.DecodedIsUnique | projects/rust/src/json.rs:184-234 | whatever the streams, no object that is decoded has a key twice |
| SendMeaning.SendsIff | projects/rust/src/packet.rs:884-914 | a packet sends a value if and only if its kind takes it, or JSON has a document for it of depth at most 500 with 32-bit integers, and the number of values keeps to its limits |
| SendMeaning.FullIsDelivered | projects/rust/src/packet.rs:138-149 | what a receiver gets for a value within the limits is what its kind, or JSON, makes of it |
| SendMeaning.JsonArrivesIff | projects/rust/src/packet.rs:138-149 | a JSON packet delivers the list that was sent if and only if every value in it is plain |
| RecoveryProofs.StepKeeps | projects/ts/src/ws/server/SonicWSServer.ts:627-676 | every step of the protocol (connect, deliver, answer RESUME, send, number a frame that goes nowhere, lose the transport, expire) keeps the invariant of sessions, of frames on the way and of the client's count |
| RecoveryProofs.ResentFrames | projects/ts/src/ws/server/SonicWSServer.ts:667-672 | filtering the buffer by the client's number yields the last `min(sent - last, max)` frames sent, and what is missing between is exactly what was evicted |
| RecoveryTheorems.RetainedAndDelivered | projects/ts/src/ws/server/SonicWSServer.ts:627-640 | over every orderly run, the buffer is the last `min(sequence, max)` frames sent, and deliveries are genuine with strictly growing numbers in every session |
| RecoveryTheorems.ResumeResendsExactly | projects/ts/src/ws/server/SonicWSServer.ts:643-676 | over every orderly run, a RESUME in time re-sends exactly the last `min(sequence - L, max)` frames and announces how many |
| RecoveryTheorems.NothingElseIsMissing | projects/py/src/sonic_ws/client.py:283-310 | over every orderly run, once nothing is on the way, the numbers never delivered are exactly those evicted before the client asked for them, each with `max` younger ones, and those sent silently and not re-sent; there are none of the latter if no send was silent for the session that the live connection holds |
| RecoveryTheorems.ExactlyOnceInOrderIff | projects/py/src/sonic_ws/client.py:283-310 | over every orderly run, once nothing is on the way, the client holds 1 to `sequence` of its session once each and in order, with the payloads sent, if and only if nothing was evicted too early and nothing is missing through a silent send |
| RecoveryTheorems.NextResumeContinuesIff | projects/py/src/sonic_ws/client.py:155-185 | after a lost transport the next RESUME names the session that the client was counting for if and only if no recovery was outstanding; its count is right for the session it names if and only if none was outstanding or the count is zero |
| RecoveryContinuity.AskedAgainIff | projects/py/src/sonic_ws/client.py:155-185 | from every state of the invariant, some continuation after the loss asks for the session that the client was counting for if and only if no recovery was outstanding |
| RecoveryContinuity.AbandonedForGood | projects/py/src/sonic_ws/client.py:155-185 | a loss while a recovery is outstanding gives the session up: no continuation asks for it, and what was received of it stays as it is |
| RecoveryContinuity.LossOfAnswerIsRefused | projects/ts/src/ws/server/SonicWSServer.ts:643-660 | if the loss takes RESUMED(true) with it, the client names a session that the server has deleted, and is refused |
| RecoveryContinuity.EverySessionIsAccounted | projects/py/src/sonic_ws/client.py:283-310 | over every run whose losses find no recovery outstanding, once nothing is on the way, every session that the client ever counted for was refused to it, or is the live one and complete up to evicted and silent numbers |
| RecoveryContinuity.OrderlyRunGivesUpPacket | projects/py/src/sonic_ws/client.py:155-185 | a run with a lost transport before the first count in which the client is told that its recovery succeeded while a retained packet of its session is out of reach |
| RecoveryAdmission.RefusedIff | projects/ts/src/ws/server/SonicWSServer.ts:643-660 | a RESUME is answered with RESUMED(false), and changes neither sessions nor attachment, if and only if the session is unknown, expired before now, or not authorized; any other one moves the session with all of its frames and deletes that of the new connection |
| RecoveryAdmission.UnauthorizedGetsNothing | projects/ts/src/ws/server/SonicWSServer.ts:643-676 | over every run, orderly or not, in which each RESUME of a session is unauthorized or too late, frames of the session are delivered only on the connection that opened it |
| RecoveryAdmission.SealedForGood | projects/ts/src/ws/server/SonicWSServer.ts:643-676 | and once that connection is gone, nothing more of the session is received |
| RecoveryAdmission.GraceIff | projects/ts/src/ws/server/SonicWSServer.ts:408-419 | after a loss the session is refused if and only if the grace period has passed or authorization fails |
| RecoveryAdmission.ForgottenIff | projects/ts/src/ws/server/SonicWSServer.ts:408-419 | a session is forgotten, alone, only when no connection holds it and its time has come |
| RecoveryAdmission.SendIff | projects/ts/src/ws/server/SonicWSConnection.ts:466-475 | when the protocol of the model allows a send: on a first connection at once, on a replacement once its RESUME is answered |
| RecoverySilence.SilentIsObtainableIff | projects/ts/src/ws/server/SonicWSConnection.ts:466-475 | on every connection whose recovery is answered, a number sent silently reaches the client in some continuation if and only if nothing with a higher number has reached it and the frame is still retained |
| RecoverySilence.PassedForGood | projects/py/src/sonic_ws/client.py:283-296 | once the client's count is past a silent number, no continuation delivers it, whatever is lost, resumed or sent |
| RecoverySilence.StaleSendIsSkipped | projects/ts/src/ws/server/SonicWSServer.ts:627-640 | from every connection whose recovery is answered, a silent send followed by a live one loses the silent one for good once the live one is delivered |
| RecoverySilence.StaleSendSkipsPacket | projects/ts/src/ws/server/SonicWSConnection.ts:466-475 | a run in which a client resumes its session, a send through the closed connection is numbered, and the next packet makes the client skip it, though nothing was evicted |
| RecoveryTheorems.DisorderlyRunLosesPacket | projects/py/src/sonic_ws/client.py:155-185 | a run in which the transport is lost twice before RESUMED drops a packet that arrives on a healthy connection |
| RecoveryLoss.LossBeforeAnswerLosesFrame | projects/py/src/sonic_ws/client.py:155-185 | from every state of the invariant in which RESUME or its refusal is on the way and the count is not zero, losing the transport has a continuation without further losses or silent sends in which the recovery succeeds and a packet that was never evicted is not delivered |
| RecoveryObjects.Server.ReplayFrame | projects/ts/src/ws/server/SonicWSServer.ts:627-640 | numbering, retaining and trimming in the session's fields is the abstract send; packets without a session go out unwrapped |
| RecoveryObjects.Server.ResumeSession | projects/ts/src/ws/server/SonicWSServer.ts:643-676 | unknown, expired and unauthorized requests change nothing; others move the session, re-send the missed frames in order and report their number |
| RecoveryObjects.Server.Answer | projects/ts/src/ws/server/SonicWSServer.ts:643-676 | the object answers RESUME as the step of the protocol does |
| RecoveryObjects.Server.Close | projects/ts/src/ws/server/SonicWSServer.ts:408-419 | a closed connection's session is kept until the grace period ends, untouched otherwise |
| RecoveryObjects.Connection.Handshake | projects/py/src/sonic_ws/client.py:155-185 | the client takes the new session id at once and asks for the previous one with its count |
| RecoveryObjects.Connection.HandleReplay | projects/py/src/sonic_ws/client.py:283-296 | a frame is looked at if and only if its number exceeds the last one seen, which is recorded first; it is dispatched if and only if it starts with a known packet key, and is an error otherwise |
| RecoveryObjects.Connection.HandleResumed | projects/py/src/sonic_ws/client.py:300-310 | success restores the session asked for, failure resets the count, and either ends the recovery |
| Delivery.SerialDelivery | projects/ts/src/ws/server/SonicWSConnection.ts:311-423 | from any orderly state and for every interleaving at awaits, each lane has at most one handler in progress, an open lock means an empty queue, packets are finished in the order of arrival, and the listeners heard what the finished packets say |
| Delivery.SerialFromStart | projects/ts/src/ws/server/SonicWSConnection.ts:311-423 | over every run from a new connection without batches of several results: what arrived in a lane is finished, in progress or queued, in this order; a finished packet was blocked by middleware, or decoded and, if valid, its value (for a repetition the last one of its tag) handed to the listeners on an open connection; the log of the listeners is exactly these values, once each and in order |
| Delivery.BatchesInterleave | projects/ts/src/ws/server/SonicWSConnection.ts:414-423 | every batch of two or more results lets a waiting packet in after its first result, so two handlers are in progress |
| Delivery.BatchIsHeardInOrder | projects/ts/src/ws/server/SonicWSConnection.ts:408-423 | on an idle lane, the results of a batch that nothing stands in the way of are heard in order, and the lane is open again |
| Delivery.GatesDecide | projects/ts/src/ws/server/SonicWSConnection.ts:337-382 | what the lock and queue fields decide is all that handling and releasing do to a lane |
| Delivery.Receiver.MessageHandler | projects/ts/src/ws/server/SonicWSConnection.ts:353-382 | a packet starts or is queued in its own lane, and no other lane changes |
| Delivery.Receiver.ReleasePacketLock | projects/ts/src/ws/server/SonicWSConnection.ts:337-351 | the packet that waited longest in the lane starts, or its lock opens |
| Permutation.GeneratesEverySelectionOnce | projects/rust/src/variant_permutation.rs:124-164 | the generated variants are the arrangements of all non-empty selections without opposites, each once, strictly ordered by size and then index list |
| Permutation.ResolvesToName | projects/rust/src/variant_permutation.rs:63-77 | flags resolve to the name of their selection, to the parent when none is set, and are refused if and only if they contain opposites |
| Permutation.ResolveAndExpand | projects/rust/src/variant_permutation.rs:63-122 | resolving and expanding are inverse to each other through joining and splitting at commas, from flags and from names |
| Permutation.MapResolvesLikeFlags | projects/rust/src/variant_permutation.rs:79-91 | a map with every known name resolves as the flags it holds |
| Permutation.SplitOfJoin | projects/rust/src/variant_permutation.rs:99-102 | splitting undoes joining for names without commas |
| PermutationMeaning.GeneratesWhatIsShown | projects/rust/src/variant_permutation.rs:124-164 | exactly the selections of at least one value without opposites are generated; in each, members of pairs come first, pair by pair, and the others by index; the list is by size and then by first difference |
| PermutationMeaning.ResolvesToShown | projects/rust/src/variant_permutation.rs:63-77 | flags resolve to their values in that order with commas between them, and are refused if and only if they contain opposites |
| PermutationMeaning.MapResolves | projects/rust/src/variant_permutation.rs:79-91 | a map resolves if and only if its keys are the values, and then as its flags do |
| PermutationMeaning.ShownIsUnique | projects/rust/src/variant_permutation.rs:124-164 | there is one such order |
| PermutationLoops.GroupOrder | projects/rust/src/variant_permutation.rs:125-137 | the order map gives each value the first pair that it belongs to |
| PermutationLoops.GenerateInner | projects/rust/src/variant_permutation.rs:124-164 | the loop over masks and the sort produce the specified list |
| Quantization.RunBalances | projects/rust/src/packet.rs:424-436 | over every run of successful sends, a residual changes by exactly what was sent, scaled, less what it was rounded to, and stays within a half |
| Quantization.BalancesIffUnsaturated | projects/rust/src/packet.rs:424-436 | in a successful send every residual accounts for the 64-bit integer handed to the codec if and only if no rounded number leaves the 64-bit range |
| Quantization.OthersUntouched | projects/rust/src/packet.rs:390-399 | a send on one connection, successful or not, leaves the residuals of all other connections alone |
| Quantization.Packet.TransformForSending | projects/rust/src/packet.rs:378-443 | the loop over values updates the residual vector of its connection as specified, also before an error |
| Quantization.Packet.TransformReceived | projects/rust/src/packet.rs:378-443 | received numbers are divided by the scale and refused out of range |
| Quantization.ReceivingLeavesResiduals | projects/rust/src/packet.rs:390-399 | receiving makes room for residuals but changes none |
| QuantizationLaws.SendRounds | projects/rust/src/packet.rs:378-443 | with and without tracking: a send succeeds if and only if every value is in range; every field goes out as the integer nearest to its steps (halves away from zero, cast to 64 bits) and, with tracking, leaves over what was rounded away; fields before a value out of range have advanced |
| QuantizationLaws.PlainSend | projects/rust/src/packet.rs:378-443 | plain numbers go out as they are if all are in range, and leave no residual |
| QuantizationLaws.ReceiveDivides | projects/rust/src/packet.rs:378-443 | a receipt succeeds if and only if every multiple is in range, and gives the multiples |
| QuantizationLaws.SendSharedRounds | projects/py/src/sonic_ws/packets.py:210-245 | in Python each value is rounded (halves up) with what the value before left over, or with nothing without tracking |
| QuantizedTransfer.CarriedIffFits | projects/core/src/primitives/zigzag.rs:14-21 | cast to 64 bits and through the codec, rounded integers are unchanged if and only if they fit the kind: 32 bits for signed kinds, 64 for unsigned ones, 32-bit steps for deltas |
| QuantizedTransfer.ArrivesIff | projects/rust/src/packet.rs:138-149 | for every successful send, the receiver decodes the integers nearest to what was sent, divided by the scale, if and only if the integers fit the kind, their multiples are in range again, and the payload inflates |
| QuantizedTransfer.TransmitsIff | projects/rust/src/packet.rs:138-162 | a send succeeds if and only if every value is in range, their number keeps to the limits, and the kind takes the integers they round to |
| QuantizedTransfer.StatelessIsClose | projects/rust/src/packet.rs:426-436 | without tracking, over every run of sends that succeed and arrive, every value decoded is within `1/(2 scale)` of the one sent |
| QuantizedTransfer.StatelessKeepsResiduals | projects/rust/src/packet.rs:426-436 | and residuals never change |
| QuantizedTransfer.NoDrift | projects/rust/src/packet.rs:259-346 | over every run of sends that succeed and arrive, the receiver decodes all of them, and on every connection and in every field the sum it decodes is within `1/(2 scale)` of what was sent |
| QuantizedTransfer.VarintWraps | projects/rust/src/packet.rs:824-836 | a quantized VARINT packet at scale 1 sends 2^31 and leaves no residual; the receiver decodes -2^31 |
| QuantizedTransfer.SaturatedSendDrifts | projects/rust/src/packet.rs:432-436 | a quantized UVARINT packet at scale 1 sends 2^64 and leaves no residual; the receiver decodes 2^63 - 1 |
| QuantizedTransfer.FeedbackLeavesRange | projects/rust/src/packet.rs:416-423 | in the range from -1 to 10 at scale 1, sending -0.5 and then 10 succeeds, and the receiver refuses the second |
| QuantizedShared.ArrivesSharedIff | projects/py/src/sonic_ws/packets.py:334-440 | in Python too, integers that encode are decoded as their multiples if and only if they fit the kind, the multiples are in range, and the payload inflates |
| QuantizedShared.EncodesSharedIff | projects/py/src/sonic_ws/packets.py:334-440 | integers encode if and only if their number keeps to the limits and the kind takes each of them |
| QuantizedShared.FailedSendAdvances | projects/py/src/sonic_ws/packets.py:210-245 | a send with a value out of range leaves over what the fields before it did, for its connection only |
| QuantizedShared.StatelessSharedIsClose | projects/py/src/sonic_ws/packets.py:210-245 | without tracking, over every run of sends that succeed and arrive, every value decoded is within `1/(2 scale)` of the one sent |
| QuantizedShared.NoSharedDrift | projects/py/src/sonic_ws/packets.py:210-245 | with one residual for all fields, over every run of sends that succeed and arrive, the sum over all fields that is decoded on a connection is within `1/(2 scale)` of what was sent |
| QuantizedShared.SharedVarintWraps | projects/py/src/sonic_ws/_core.py:112-118 | here too 2^31 is sent without a residual and decoded as -2^31 |
| Rates.SlidingWindowIsSafe | projects/py/src/sonic_ws/connection.py:143-153 | over every run with a monotone clock, accepted calls `i` and `i + limit` are at least a second apart, and a rejection finds `limit` accepted calls in the second before it |
| Rates.SlidingRates.WithinRate | projects/py/src/sonic_ws/connection.py:143-153 | dropping old times and appending decides as specified for its key and leaves all other keys alone; no limit leaves the window alone |
| Rates.FixedWindowIsSafe | projects/rust/src/connection.rs:98-118 | over every run with a monotone clock, no interval of one second holds more than twice the limit in accepted calls, for the connection and for each packet |
| Rates.LimitsIff | projects/rust/src/connection.rs:98-118 | for either counter, no second of any run with a monotone clock holds more than twice the limit if and only if the limit is below the largest 32-bit number |
| Rates.LargestLimitIsNone | projects/rust/src/connection.rs:112-116 | at that limit, for either counter, any number of calls of the largest amount is accepted at one moment |
| Rates.RejectionMeansBusy | projects/rust/src/connection.rs:98-118 | over every run with a monotone clock, a call is rejected only if, with it, more than a limit was asked for within the last second, by the connection or of the packet |
| Rates.WindowReopens | projects/rust/src/connection.rs:98-118 | a second after it began, a window accepts a call if and only if its own amount keeps to both limits |
| Rates.RateState.AllowCall | projects/rust/src/connection.rs:98-118 | resetting and bumping the fields decides as specified |
| Rereference.SectorIsNotEmpty | projects/rust/src/packet.rs:632-636 | a sector that counts at least one value never encodes to no bytes, for every kind, JSON documents included |
| Rereference.EncodingIsNotEmpty | projects/rust/src/packet.rs:884-914 | the packets that may rereference never encode to the empty payload that means a repetition |
| Rereference.TransparentIff | projects/rust/src/connection.rs:441-456 | for every run of encodable values on any keys, the receiver gets for each what its full encoding decodes to, in order, if and only if every value that goes out as a repetition decodes as the value it repeats |
| Rereference.PairIsTransparentIff | projects/rust/src/connection.rs:270-277 | two values in a row that compare equal arrive as sent if and only if their full encodings decode alike |
| Rereference.NegativeZeroIsLost | projects/rust/src/connection.rs:270-277 | in JSON, 0 and then -0 arrive as 0 and 0, though the second would decode as -0 |
| Rereference.TransparentFromStart | projects/rust/src/connection.rs:253-296 | from a new connection every run is transparent if values that compare equal encode alike |
| Rereference.RepeatsIff | projects/rust/src/connection.rs:253-286 | over every run from a new connection, a value goes out as an empty frame if and only if its packet rereferences and it compares equal to the last value of the packet that went out in full; any other goes out in full |
| Rereference.RepetitionIs | projects/rust/src/connection.rs:430-456 | after any frames, an empty frame of a packet that rereferences is the value of the last frame of the packet that was decoded, or an error if there is none; any other frame is decoded itself |
| Rereference.SendableIsTransmissible | projects/rust/src/packet.rs:138-149 | values within the limits of the schema encode, they decode if and only if boolean maxima fit a vector, and what arrives is their normal form, for JSON that of their document |
| Rereference.Connection.SendValue | projects/rust/src/connection.rs:253-286 | batched packets are refused; otherwise the cache is compared and written before encoding |
| Rereference.Connection.ReceiveFrame | projects/rust/src/connection.rs:430-456 | an empty payload repeats what was decoded last, or is an error; anything else is validated, decoded and remembered |
| Rereference.DecodeLoop | projects/rust/src/packet.rs:145-149 | validation, decoding and the JSON document one after the other give the specified value or error |
| Rooms.IndexesAreMembership | projects/ts/src/ws/server/SonicWSServer.ts:828-861 | after every sequence of tag, join, leave and close, both indexes describe exactly the membership that the operations define |
| Rooms.RecipientsAreMembers | projects/ts/src/ws/server/SonicWSServer.ts:686-695 | a tagged broadcast reaches exactly the members of the room, which are those a scan of all connections finds when tags were put on registered connections |
| Rooms.MembersAreRegistered | projects/ts/src/ws/server/SonicWSServer.ts:389-403 | members that were registered when they were tagged are registered still |
| Rooms.TagAfterClose | projects/ts/src/ws/server/SonicWSServer.ts:828-845 | a tag put on a closed connection stays in the index, where no scan finds it |
| Rooms.IndexIsScanIff | projects/ts/src/ws/server/SonicWSServer.ts:686-695 | looking a room up gives what asking every connection would if and only if all its members are registered |
| Rooms.ApplyKeeps | projects/ts/src/ws/server/SonicWSServer.ts:828-861 | each operation keeps the two indexes inverse to each other |
| Rooms.Server.AddTag | projects/ts/src/ws/server/SonicWSServer.ts:828-845 | the connection leaves all rooms when replacing, and joins the new one, in both indexes |
| Rooms.Server.Join | projects/ts/src/ws/server/SonicWSServer.ts:848-851 | joins without leaving; the empty name is refused and changes nothing |
| Rooms.Server.LeaveRoom | projects/ts/src/ws/server/SonicWSServer.ts:854-861 | takes the room out of both indexes, and the room itself when it has no members left |
| Rooms.Server.OnClose | projects/ts/src/ws/server/SonicWSServer.ts:385-403 | forgets the connection in its list and in both indexes, and returns its rooms for recovery |
| Rooms.Server.Recipients | projects/ts/src/ws/server/SonicWSServer.ts:686-695 | the indexed recipients are all that have the tag, and those of the scan if and only if they are registered |
| Rooms.RustServer.Join | projects/rust/src/server.rs:339-367 | an active connection gains the room in both maps, any other is refused without a change |
| Rooms.RustServer.Leave | projects/rust/src/server.rs:369-382 | the connection loses the room in both maps and nothing else changes |
| Rooms.RustServer.Remove | projects/rust/src/server.rs:255-284 | a removed connection is in no room, the others keep theirs, the maps stay inverse, and the rooms of an active connection are kept under its session |
| Rooms.RustServer.BroadcastRoom | projects/rust/src/server.rs:396-416 | the indexed recipients that are still connected are those that a scan of all connections finds |
| RegistryProofs.WritesTheTable | projects/rust/src/registry.rs:134-149 | the bytes written for a registry are its table if and only if all enum text is ASCII, and for ASCII the writer fails exactly where the format has no room |
| RegistryProofs.WrittenValueReadsBackIff | projects/rust/src/registry.rs:279-291 | behind any bytes, a written enum value is read back if and only if its text is ASCII, because the kind byte is inserted by UTF-8 length |
| RegistryProofs.AccentIsMisplaced | projects/rust/src/registry.rs:287-289 | the text U+00E9 is written as 0, 1, E9 instead of 1, 0, E9 |
| RegistryProofs.AccentedRegistryIsNotATable | projects/rust/src/registry.rs:134-140 | every registry of one packet with that enum text is written as something else than its table |
| RegistryProofs.PacketReadsBack | projects/rust/src/registry.rs:152-271 | a packet record is self-delimiting: wherever it stands, it is read back as the packet with defaults for what is not transmitted, and the cursor stops behind it |
| RegistryProofs.RegistryRoundTrip | projects/rust/src/registry.rs:134-149 | for every registry with ASCII enum text, the serialized table is read back as the same packets in the same order: tags, flags, limits, types, enums, metadata |
| RegistryProofs.PackageReadsBack | projects/rust/src/registry.rs:294-315 | a package is read back with its name and all values, numbers through their text |
| RegistryProofs.TailReadsBack | projects/rust/src/registry.rs:185-247 | maxima, minima and types are read back in both shapes |
| RegistryMeaning.SerializesIff | projects/rust/src/registry.rs:134-212 | a registry with ASCII enum text can be written if and only if every packet fits: at most 255 Latin-1 characters in tags, names and enum text, at most 255 packages, values and fields, a delay of one byte, a minimum and a maximum for every field |
| RegistryMeaning.KindsByNumber | projects/core/src/packet_type.rs:16-34 | every kind is written as its number, and a byte is read as the kind with that number, if there is one |
| RegistryMeaning.FlagsByBit | projects/rust/src/registry.rs:152-183 | which bit of the flags stands for which option |
| RegistryMeaning.HeadLayout | projects/rust/src/registry.rs:152-183 | where a record has the tag, the options, the metadata, the delay and the number of packages |
| RegistryMeaning.ShownText | projects/rust/src/registry.rs:279-291 | the text that stands for an enum value |
| RegistryMeaning.RecognizedValue | projects/rust/src/registry.rs:294-315 | for every kind byte and text, the enum value that is read, if there is one |
| RegistryObjects.KeysSurvive | projects/rust/src/registry.rs:53-62 | after a handshake both sides give every tag the same key |
| RegistryObjects.PacketRegistry.Push | projects/rust/src/registry.rs:26-42 | a packet is accepted if and only if there are fewer than 255 and its tag is new; its key is its place from 1 |
| RegistryObjects.PacketRegistry.PushAll | projects/rust/src/registry.rs:18-24 | a list is registered as a whole if and only if it has at most 255 packets with distinct tags |
| RegistryObjects.PacketRegistry.ByTag | projects/rust/src/registry.rs:53-62 | looking up by tag and then by key finds the packet with that tag, if there is one |
| RegistryObjects.PacketRegistry.SerializeTable | projects/rust/src/registry.rs:134-140 | the loop over packets appends each to the output as specified |
| RegistryObjects.PacketRegistry.DeserializeTable | projects/rust/src/registry.rs:142-149 | reads records until the bytes end and registers them, or fails as specified |
| RegistryObjects.WritePacket | projects/rust/src/registry.rs:152-211 | flags, lengths and loops write one packet behind what is there |
| RegistryObjects.ReadPacket | projects/rust/src/registry.rs:213-271 | the cursor reads one packet as specified |
| RegistryObjects.ReadEnum | projects/rust/src/registry.rs:294-315 | the loop over values reads one package as specified |

## Left out

- DEFLATE (RFC 1951) is a pair of functions of which the second undoes the first; its bit format is not modelled.
- The values of floating-point encodings are not modelled, only their widths and, for JSON, which doubles are numbers and which survive single precision. Quantization is in exact real arithmetic, so the rounding of `f64` products, quotients and sums is not covered; nor are quantized float packets, which Rust refuses to encode and Python sends as floats.
- The Huffman table itself is a parameter with the properties it must have; its entries are not listed.
- UTF-8, JSON metadata and number formatting are functions with an inverse, because their formats are those of libraries.
- Error messages, and which of several transport errors closes a connection, are not modelled.
- Strings.AsciiRoundTrip: lists that no vector of strings can hold are excluded, and so are slices of 2^61 bytes and more in the codec theorems, where bit counts would overflow. Running out of memory below the limits of a vector is not modelled; the limits are those of a 64-bit target, with 24 bytes a string and 32 bytes a value.
- Integers.DeltasExact: differences that overflow 64 bits wrap, as in a release build; a debug build panics instead.
- The TypeScript client exists only in minified form, so the Python client is the client of the recovery model. The Python server's resume loop is not modelled, because its awaits let sends interleave.
- RecoveryTheorems.ExactlyOnceInOrderIff: assumes that no replayable packet is sent on a fresh connection before its RESUME is answered (as `examples/3d-world/server.js:219-225` does), that the old transport's close is processed before the resume, and that every transport is lost only while the client's recovery is answered or its count is zero; without the last one `RecoveryTheorems.DisorderlyRunLosesPacket` applies. Sends through a closed connection are covered, and are what the second half of its condition is about.
- RecoveryTheorems.NothingElseIsMissing: same assumptions as above; it speaks of the session in which the client ends, and `RecoveryContinuity.EverySessionIsAccounted` of all that it had.
- RecoveryContinuity.EverySessionIsAccounted: same assumptions, and losses only while no recovery is outstanding; otherwise `RecoveryContinuity.AbandonedForGood` applies.
- RecoverySilence.SilentIsObtainableIff: a silent send on a session whose RESUME is answered. The server keeps a session id on every connection that ever held it, and numbers a frame before it looks whether the connection is closed.
- RecoveryObjects.Server.ResumeSession: the test for expiry and the awaited authorization are one step; the state object and the rooms that are put back, and the listeners told about a recovery, are not modelled.
- RecoveryObjects.Server.Close: the rooms saved for recovery are `Rooms.Server.OnClose`, and the timer that forgets a session is the step `Expire` of the protocol.
- RecoveryProofs.StepKeeps: a lost transport must find the previous recovery answered or a count of zero; without that `RecoveryLoss.LossBeforeAnswerLosesFrame` applies.
- Delivery.SerialFromStart: batches of several results take the lock again for each result and are outside the claim; an ordinary packet whose handler returns early without releasing its lock blocks its lane, and the model keeps this. The content of a packet stands for its bytes, and decoding is a function of it that may fail.
- QuantizedTransfer.NoDrift: quantifies over sends that succeed, since a failed range check leaves earlier residuals advanced, and that arrive, the exact condition for which is `QuantizedTransfer.ArrivesIff`. Mapping values to schema fields, flattening and compression beyond an inverse pair are not modelled.
- QuantizedShared.NoSharedDrift: concerns the sum over all fields, as one residual serves all of them.
- Rates.FixedWindowIsSafe: time is real and monotone, and packets with a limit of zero only count towards the connection.
- The limits of the outbound rate handler of the TypeScript server are not modelled. Dropping a frame closes the socket, so in the recovery model its effect is a silent send, or the loss of what is on the way, before the transport is lost (`RecoverySilence.SilentIsObtainableIff`, `RecoveryTheorems.ExactlyOnceInOrderIff`).
- The hash-based comparison of repeated values is not modelled; hashes can collide.
- Rereference.TransparentIff: covers single unbatched packets without replay, quantization or schema mapping, over a link without loss or reordering, for runs in which every value encodes.
- Rereference.Connection.SendValue: wrapping a frame for replay is part of the recovery model only; object packets never rereference.
- Rereference.Connection.ReceiveFrame: batches, rate limits and disabled packets are not modelled.
- Rereference.TransparentFromStart: whether equal numbers encode alike is a property of the floating-point encodings; it is assumed there, and not in `Rereference.TransparentIff`.
- Rooms.Server.AddTag: calls to adapters are not modelled.
- RegistryProofs.RegistryRoundTrip: batch size, rate limit and activation are not transmitted, so the reader's defaults replace them; numbers in enums must be ones that their text parses back to.
- FastPaths.EncodeIntegerVarints: numbers are integers or not; the precision of JavaScript numbers beyond 2^53 does not arise in the range that is written.
- Sorting is a library routine in the program and an insertion sort here; hash maps are maps, whose iteration order nothing depends on.
- Sockets, HTTP, logging, metrics, heartbeats, RPC, middleware, builders, type generation and adapters are not modelled: input and output, timing, or easy members.
- `permutation_tag` of the Python connection, which rebuilds a permutation without opposites, and the recycling of socket ids in the TypeScript server have no such properties and are not modelled.
