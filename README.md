# bintocol codec model

This project is a Dafny model of a small JavaScript message codec. A message is one header byte and a body:

- **Header byte:** the event id sits in bits 7..2, the compress flag in bit 1 and the json flag in bit 0.
- **Body, json flag set:** JSON text.
- **Body, json flag clear:** the *packed* encoding of the event's registered schema.

The packed encoding is a stream of bits with no tags and no padding between fields:

- **BOOL:** one bit.
- **UINT(size):** `size` bits, most significant first.
- **INT(size):** a sign bit, then the magnitude in `size` bits.
- **STRING(lengthSize):** the UTF-8 byte count in `lengthSize` bits, then eight bits per byte.
- **ARRAY(lengthSize, content):** the element count, then the elements.
- **OBJECT:** its fields in schema order.
- **NOTHING:** no bits.

The stream is packed into bytes, and the last byte is completed with zeros. The body may then be lz4-compressed. In `'auto'` mode the compressed body is kept only when it is strictly shorter.

The model follows the source's own structure.

- **`Bits`:** the JavaScript bitwise operators, modelled on unbounded integers.
  - `>>` is `Shr`, `<<` is `Shl`, `& MASKS[m]` is `Mask` and `|` is `BitOr`.
  - Every width the codec keeps is at most 31 bits, so the 32-bit wrap-around never reaches a kept bit.
  - `BitsOf` is the bit-stream view of a byte buffer.
  - A read past the end of the buffer gives zero bits, as `undefined & mask` does.
- **`Schemas`:** the kind tags of `types`, the schema and value datatypes, and the error conditions.
  - `Encodable` is the shape the encoder accepts. It reads each object field by key, so the properties may come in any order.
  - `Canon` is what the decoder gives back for such a value: each object holds exactly the schema's fields, in schema order.
  - `Conforms` says a value is already in that form, with every number and length within its width.
- **`Registries`:** the `registry` object, as a class whose `events` map `register` updates in place.
- **`Headers`:** `encodeHeader` and `decodeHeader`.
- **`Wire`:** the specification of the packed body.
  - `EncodeValue` gives the bits of a value.
  - `DecodeValue` decodes a schema at a cursor `(bytes, currentByte, currentBit)`.
  - The round trip between the two is proved by mutual induction over the schema.
- **`Envelope`:** the whole message.
  - lz4 and JSON are the function-typed collaborators in `Externals`.
  - It covers the auto-compression rule and the message round trip.
- **`Encoder`:** the encoder as the source runs it.
  - `BitWriter` is a class holding the growing `bytes` array and the cursor.
  - Its methods OR bits into the current byte and start each fresh byte at 0.
  - Each method is proved to append exactly the bits `Wire.EncodeValue` prescribes, while keeping the invariant that the bytes hold the bits written so far followed by zero padding.
  - `EncodeData` and `Encode` are proved equal to the `Envelope` functions.
- **`Decoder`:** the decoder's loops as methods, each proved equal to `Wire.DecodeValue` and to the `Envelope` functions.
- **`Vectors`:** the binary test message of test/decode.test.js, checked bit for bit.
  - The registered schema and the expected payload are constants.
  - The 34 body bytes are shown to be exactly the packed encoding of that payload.
  - Decoding the 35-byte message gives the payload back.
- **`AsWritten`:** `decodeType` as written, whose `case NOTHING` label is an unbound identifier. The rest of the model uses the corrected decoder.

## Model

| member | source | states |
|---|---|---|
| Registries.Registry.constructor | src/registry.js:1-2 | the table starts with no events |
| Registries.Registry.GetSchema | src/registry.js:8-10 | returns the schema registered for the event, and is absent exactly when none was registered |
| Registries.Registry.Register | src/registry.js:4-6 | afterwards the event maps to the new body, replacing any earlier one, and every other event's schema is unchanged |
| Registries.FreshRegistryIsEmpty | src/registry.js:1-10 | a fresh registry has no schema for any event |
| Registries.RegisterTwice | src/registry.js:4-6 | registering an event twice keeps the second body and leaves a different event's body in place |
| Schemas.TagNamesDistinct | src/registry.js:12-21 | the eight kind tags are pairwise distinct |
| Schemas.Lookup | src/encode.js:129 | `data[key]` finds a value exactly when some property has that key |
| Schemas.LookupAt | src/decode.js:121-129 | in an object built field by field under distinct names, looking up the i-th name finds the i-th value |
| Schemas.ConformsEncodable | src/encode.js:48-67 | every value that survives the round trip has the shape the encoder accepts |
| Schemas.CanonOfConforming | src/decode.js:121-129 | a value already in schema order with its NOTHING fields null is its own canonical form |
| Schemas.CanonLookup | src/encode.js:126-130 | under every field name of the schema, the canonical object holds the canonical form of what the original holds under that name, whatever its property order |
| Headers.Flag | src/encode.js:31-32 | `flag & 1` is 1 exactly for true and 0 for false |
| Headers.EncodeHeader | src/encode.js:28-34 | the header byte is 4 * (event mod 64) + 2 * compress + json |
| Headers.DecodeHeader | src/decode.js:12-18 | for a byte, the event is below 64 and event, compress bit and json bit rebuild the byte |
| Headers.HeaderRoundTrip | src/decode.js:12-18 | decoding an encoded header gives the flags back and the event reduced to its low six bits |
| Headers.HeaderRoundTripSmall | src/decode.js:12-18 | an event below 64 survives the header unchanged |
| Headers.HeaderEventReduced | src/encode.js:30 | event ids 64 apart produce the same header |
| Headers.HeaderByteRoundTrip | src/decode.js:12-18 | every byte is the header of the fields decoded from it |
| Headers.HeaderVectors | test/decode.test.js:5 | event 51 gives 0xCC, 0xCD, 0xCE and 0xCF under the four flag combinations, and 0xCC decodes to event 51, uncompressed, binary |
| Bits.PackBitsBits | src/encode.js:43-44 | the packed buffer holds the bit stream followed by zero padding up to the byte boundary |
| Bits.PackedLength | src/encode.js:43-44 | the packed buffer has one byte per started group of eight bits |
| Wire.EncodeValue | src/encode.js:48-67 | encoding fails only with `Unknown type` for FLOAT |
| Wire.EncodeElems | src/encode.js:121-124 | the elements' encoding fails only with `Unknown type` for FLOAT |
| Wire.EncodeFields | src/encode.js:126-130 | the fields' encoding fails only with `Unknown type` for FLOAT |
| Wire.ReadBytes | src/decode.js:101-105 | a string body of n bytes is read as exactly n bytes |
| Wire.DecodeValue | src/decode.js:31-50 | decoding fails only with `Unknown type` for FLOAT, never changes the buffer and never moves the cursor back |
| Wire.DecodeElems | src/decode.js:109-119 | decoding k elements gives an array of exactly k elements, reading forward over the same buffer |
| Wire.DecodeFields | src/decode.js:121-129 | decoding an object gives exactly the schema's field names, in schema order |
| Wire.ReadPacked | src/decode.js:27 | reading a packed buffer from its first bit returns the stream that was packed |
| Wire.RoundTrip | src/decode.js:31-50 | for a well-formed schema and any value the encoder accepts whose numbers and lengths fit their widths, decoding the encoded bits at any cursor gives the value back with its object properties in schema order (`Canon`), the cursor advanced by exactly the number of bits written |
| Wire.RoundTripInt | src/decode.js:91-95 | an INT of magnitude below 2^size decodes back from its sign bit and magnitude, the cursor moving by exactly the bits written |
| Wire.RoundTripString | src/decode.js:97-107 | the length prefix and the bytes decode back to the same bytes |
| Wire.StringRead | src/decode.js:97-107 | at a cursor holding a string's bits, the length prefix reads as the byte count and the bytes that follow read back as the string |
| Wire.RoundTripArray | src/decode.js:109-119 | the count prefix and the elements decode back to the same array, each element with its object properties in schema order |
| Wire.RoundTripElems | src/decode.js:113-117 | k encoded elements decode back to the same k elements, each with its object properties in schema order |
| Wire.RoundTripFields | src/decode.js:121-129 | the fields, each encoded from the value found under its name whatever the property order, decode back field by field to the schema's fields in schema order, holding those values |
| Wire.UIntTruncates | src/encode.js:87-91 | an out-of-range UINT decodes as the value mod 2^size: only the low `size` bits are written |
| Envelope.EncodeBody | src/encode.js:36-46 | the body fails exactly on the packed path, when the event has no schema (`Unregistered event`) or the schema reaches FLOAT; an uncompressed packed body has one byte per started group of eight bits (round trip: Envelope.BodyRoundTrip) |
| Envelope.EncodeMessage | src/encode.js:7-26 | the message fails exactly when the body does, with its error; otherwise its first byte decodes to the event mod 64, the JSON flag and, in fixed mode, the given compress flag (round trip: Envelope.MessageRoundTrip; auto choice: Envelope.AutoIsBestFixed; errors: Envelope.BinaryEncodeErrors) |
| Envelope.DecodeBody | src/decode.js:20-29 | fails with `DecompressFailed` exactly when a flagged body does not decompress (lz4 throws), with `ParseFailed` exactly when the JSON text does not parse (`JSON.parse` throws), and otherwise only with `Unregistered event` or `Unknown type`; packed data is only ever read through a registered schema (Envelope.BinaryDecodeUnregistered) |
| Envelope.DecodeMessage | src/decode.js:7-10 | a decoded payload's event is the low six bits of byte 0, so always below 64 (empty message: Envelope.EmptyMessage) |
| Envelope.ChooseBody | src/encode.js:10-19 | the compressed body is chosen, with flag 1, exactly when it is strictly shorter than the uncompressed one |
| Envelope.PackedRoundTrip | src/decode.js:20-29 | a packed body decoded from its first bit gives the value it was packed from, its object properties in schema order |
| Envelope.BodyRoundTrip | src/decode.js:20-29 | with lossless collaborators, the body encoded under either compress flag decodes back to the data under that flag: as it was on the JSON path, with object properties in schema order on the packed path |
| Envelope.MessageRoundTrip | src/decode.js:7-10 | with lossless lz4 and JSON collaborators, an event below 64 and, in packed mode, a registered schema whose widths the data fits, decoding the encoded message gives the event back, and the data as it was (JSON) or with its object properties in schema order (packed) |
| Envelope.AutoIsBestFixed | src/encode.js:10-20 | auto mode equals fixed mode with the flag set exactly when lz4 is strictly shorter, and the message is never longer than one byte plus the uncompressed body |
| Envelope.DefaultEncode | src/encode.js:7-26 | a call without options takes the JSON path under auto compression: the registry is not consulted, the body is the JSON text or its lz4 form, whichever is strictly shorter, and the header decodes to the event mod 64, that choice and the JSON bit |
| Envelope.ReorderedObject | src/encode.js:126-130 | the object { b: false, a: true } is accepted against the schema { a: BOOL, b: BOOL } though it does not conform, is written as the bits 1, 0, and decodes as { a: true, b: false } |
| Envelope.BinaryEncodeErrors | src/encode.js:41-42 | packed encoding fails with `Unregistered event` when no schema is registered, and otherwise only when the schema reaches FLOAT |
| Envelope.BinaryDecodeUnregistered | src/decode.js:25-26 | a packed header naming an unregistered event fails with `Unregistered event` for that event |
| Envelope.EmptyMessage | src/decode.js:7-10 | an empty message reads as header 0: event 0, packed, uncompressed |
| Encoder.Store | src/encode.js:74 | `bytes[i] = b` sets position i and leaves every other position as it was |
| Encoder.ChunkOfValue | src/encode.js:90-91 | the shifted and masked value is the next chunk of the value's top bits, placed right after the bits already in the byte |
| Encoder.StepFramed | src/encode.js:91-101 | OR-ing a chunk into the frontier byte appends the chunk to the stream, and moves the cursor to a fresh byte exactly when the byte is full |
| Encoder.UIntLoopStep | src/encode.js:89-103 | one iteration of the `encodeUnsignedInt` loop keeps its invariant, with `remaining` down by the chunk width |
| Encoder.EarlierBytesKept | src/encode.js:72-74 | writers only append: every byte the cursor has left keeps its value |
| Encoder.BitWriter.constructor | src/encode.js:43 | the fresh state has no bytes, cursor 0 and an empty stream |
| Encoder.BitWriter.EncodeBool | src/encode.js:69-81 | appends the one bit to the stream and keeps the writer invariant |
| Encoder.BitWriter.EncodeUnsignedInt | src/encode.js:83-105 | appends exactly the low `size` bits of the value, most significant first; the cursor advances by `size` and `currentBit` stays below 8 |
| Encoder.BitWriter.EncodeSignedInt | src/encode.js:107-110 | appends the sign bit `value < 0`, then the magnitude in `size` bits |
| Encoder.BitWriter.EncodeString | src/encode.js:112-119 | appends the byte count in `lengthSize` bits, then every byte in eight bits |
| Encoder.BitWriter.EncodeArray | src/encode.js:121-124 | appends exactly the bits `Wire.EncodeValue` gives the array, or fails with its error |
| Encoder.BitWriter.EncodeObject | src/encode.js:126-130 | appends exactly the bits `Wire.EncodeValue` gives the object, or fails with its error |
| Encoder.BitWriter.EncodeType | src/encode.js:48-67 | succeeds exactly when `Wire.EncodeValue` does, and then appends its bits; otherwise fails with its error |
| Encoder.EncodeData | src/encode.js:36-46 | the body equals `Envelope.EncodeBody`: JSON text, or the packed stream of the registered schema, compressed when flagged |
| Encoder.Encode | src/encode.js:7-26 | the message equals `Envelope.EncodeMessage`, auto choice included |
| Decoder.DecodeBool | src/decode.js:52-63 | reads the bit at the cursor and moves one bit on, as `Wire.DecodeValue` prescribes |
| Decoder.DecodeUnsignedInt | src/decode.js:65-89 | returns the number spelled by the next `size` bits, below 2^size, and moves the cursor exactly `size` bits on |
| Decoder.UIntReadStep | src/decode.js:70-86 | one iteration of the `decodeUnsignedInt` loop keeps its invariant: the value is the bits read so far, shifted to make room for the next chunk |
| Decoder.DecodeSignedInt | src/decode.js:91-95 | returns a value of magnitude below 2^size, the `sign ? -m : m` that `Wire.DecodeValue` prescribes, and moves `1 + size` bits on |
| Decoder.DecodeString | src/decode.js:97-107 | returns fewer than 2^lengthSize bytes, exactly as many as the length prefix gives, as `Wire.DecodeValue` prescribes |
| Decoder.ReadBytesStep | src/decode.js:102-106 | one iteration of the `decodeString` loop appends the byte at the cursor and moves it eight bits on |
| Decoder.DecodeArray | src/decode.js:109-119 | equals `Wire.DecodeValue` for the array schema |
| Decoder.DecodeObject | src/decode.js:121-129 | equals `Wire.DecodeValue` for the object schema |
| Decoder.DecodeType | src/decode.js:31-50 | equals `Wire.DecodeValue` for every well-formed schema |
| Decoder.DecodeData | src/decode.js:20-29 | equals `Envelope.DecodeBody` |
| Decoder.Decode | src/decode.js:7-10 | equals `Envelope.DecodeMessage` |
| Vectors.TestBodyBits | test/decode.test.js:80-87 | the 34 body bytes hold the 271 bits of the expected payload's fields, in schema order, then one zero bit of padding |
| Vectors.TestDataConforms | test/decode.test.js:6-28 | the registered schema is well formed and the expected payload has its shape |
| Vectors.TestDataEncodes | test/decode.test.js:70-77 | the packed encoding of the expected payload is INT -999 in 12 bits, the 17-byte string, { ping: 'pong' }, the four UINT(17) elements, UINT(1) 0 and a set bit |
| Vectors.TestBodyPacked | src/encode.js:43-44 | packing the expected payload's bits gives exactly the 34 body bytes of the test message |
| Vectors.BinaryVectorEncodes | src/encode.js:7-26 | encoding the expected payload for event 51, packed and uncompressed, gives the test message byte for byte: 0xCC then the 34 body bytes |
| Vectors.BinaryVectorDecodes | test/decode.test.js:79-88 | decoding the test message with the test schema registered for event 51 gives event 51 and the expected payload |
| Vectors.NumberPrefix | src/decode.js:91-95 | a body that starts with 0x9F 0x39 reads, under INT(12), as -999, with the cursor 13 bits on |
| AsWritten.DecodeAsWritten | src/decode.js:31-50 | the switch as written fails only with the ReferenceError for `NOTHING` |
| AsWritten.AsWrittenAgrees | src/decode.js:31-50 | away from NOTHING and FLOAT, the switch as written and the corrected decoder agree on every input |
| AsWritten.AsWrittenRejects | src/decode.js:31-50 | the switch as written rejects the object { flag: BOOL, rest: NOTHING } at every cursor |
| AsWritten.FlagSetEncodes | src/encode.js:126-130 | the encoder writes { flag: true, rest: null } against that schema as the single bit 1 |
| AsWritten.NothingCounterexample | src/decode.js:5 | a body the encoder writes for an object with a NOTHING field is rejected by the switch as written and read back by the corrected one |

## Left out

- lz4 compression and decompression are foreign code, modelled as the functions `compress` and `decompress` of `Externals`. The round trip assumes `decompress(compress(b)) == b`.
- JSON text mode is modelled as the functions `stringify` and `parse` of `Externals`. Only the routing and the header flag are modelled, not the JSON format.
- UTF-8 conversion between strings and bytes (`Buffer.from` and `toString`) is not modelled. A string value is its byte sequence.
- Widths of 32 bits or more are not modelled. They depend on 32-bit signed bitwise semantics, and every schema width is taken as at most 31 (`WellFormed`).
- The encoder's default widths are not modelled: every width is an explicit field of `Schema`. The encoder falls back to `size = 32` and `lengthSize = 8` (src/encode.js:83,107,112,121), but the decoder has no such defaults. There an absent width makes `decodeUnsignedInt` read no bits and return 0, so a schema that omits a width does not round trip in the source.
- The `-0` that `decodeSignedInt` produces for a set sign bit with magnitude 0 becomes the integer 0.
- JavaScript coercions are not modelled. These include a value of the wrong type for its schema kind (`Encodable` requires the matching shape), a missing object property, and non-integral numbers.
- `Object.keys` order is not modelled. An object schema is a sequence of fields in declaration order, and an object value is a sequence of entries. The decoder builds its objects in schema order, so the packed round trip gives back `Canon` of the payload: the same properties, compared by key as `toEqual` does, in schema order, with properties the schema does not name dropped.
- The auto path's quirks are not modelled: the implicit globals `uncompressed` and `compressed`, and the write to the caller's `options.compress`. The choice is a function returning the flag and the body.
- Exceptions are modelled as `Err` results. A failed encode leaves the writer in some valid state, which the caller discards.
- src/index.js only re-exports and is not part of this model. src/constants.js is not part of this model either; its `MASKS[k]` is taken as 2^k - 1.
- Envelope.MessageRoundTrip: holds for events below 64 only, because the header keeps the low six bits of the event id (Headers.HeaderEventReduced).
- Of the test file's messages, only the binary uncompressed one (Vectors) and the header bytes are checked. The JSON and compressed messages depend on JSON text and lz4 output, which the model leaves to `Externals`.

## Findings

| source | as written | input that shows it | evidently intended | confidence | as-written member | corrected member |
|---|---|---|---|---|---|---|
| src/decode.js:5 | `NOTHING` is not imported from `types`, so evaluating `case NOTHING` in `decodeType` throws a ReferenceError for every NOTHING, FLOAT or unknown kind; the branch's `return state` is also not a `{ value, state }` pair | the schema OBJECT { flag: BOOL, rest: NOTHING } and the value { flag: true, rest: null }, which encode to the single bit 1 | NOTHING reads no bits and yields no value, and FLOAT reaches the `Unknown type` default | not executed | AsWritten.NothingCounterexample | Wire.RoundTrip |
