/** A whole message: one header byte followed by the body, where the body is JSON text or the
    packed bits of the event's schema, optionally lz4-compressed. */
module Envelope {
  import opened Bits
  import opened Schemas
  import opened Wire
  import opened Headers

  /** The foreign collaborators: the lz4 codec and JSON text with its UTF-8 buffer. Decompressing
      and parsing may fail. */
  datatype Externals = Externals(
    compress: seq<Byte> -> seq<Byte>,
    decompress: seq<Byte> -> Option<seq<Byte>>,
    stringify: Value -> seq<Byte>,
    parse: seq<Byte> -> Option<Value>)

  /** What the round trip takes for granted of the collaborators. */
  ghost predicate Lossless(ext: Externals)
  {
    (forall b :: ext.decompress(ext.compress(b)) == Some(b)) &&
    (forall v :: ext.parse(ext.stringify(v)) == Some(v))
  }

  /** `options.compress` is `'auto'` or a fixed flag. */
  datatype CompressMode = Auto | Fixed(on: bool)

  datatype Options = Options(compress: CompressMode, json: bool)

  /** The options `encode` uses when given none. */
  const DefaultOptions := Options(Auto, true)

  datatype Payload = Payload(event: int, data: Value)

  /** The data can be handed to the encoder: JSON takes anything, the packed path needs a value of
      the registered schema's shape. */
  predicate Admissible(p: Payload, json: bool, schemas: map<int, Schema>)
  {
    !json && p.event in schemas ==> Encodable(p.data, schemas[p.event])
  }

  /** `encodeData`: the body for fixed flags. */
  function EncodeBody(p: Payload, compress: bool, json: bool, schemas: map<int, Schema>, ext: Externals): (r: Result<seq<Byte>>)
    requires Admissible(p, json, schemas)
    ensures r.Err? <==> !json && (p.event !in schemas || EncodeValue(p.data, schemas[p.event]).Err?)
    ensures r.Err? ==> r.error == UnregisteredEvent(p.event) || r.error == UnknownType(FLOAT)
    ensures r.Ok? && !json && !compress ==>
      |r.value| == (|EncodeValue(p.data, schemas[p.event]).value| + 7) / 8
  {
    if json then
      var text := ext.stringify(p.data);
      Ok(if compress then ext.compress(text) else text)
    else if p.event !in schemas then Err(UnregisteredEvent(p.event))
    else
      match EncodeValue(p.data, schemas[p.event])
      case Err(e) => Err(e)
      case Ok(bits) =>
        var packed := PackBits(bits);
        PackedLength(bits);
        Ok(if compress then ext.compress(packed) else packed)
  }

  /** The auto rule: keep the compressed body only when it is strictly shorter. Returns the
      compress flag and the body. */
  function ChooseBody(uncompressed: seq<Byte>, compressed: seq<Byte>): (r: (bool, seq<Byte>))
    ensures r.0 <==> |compressed| < |uncompressed|
    ensures r.1 == (if r.0 then compressed else uncompressed)
  {
    if |uncompressed| > |compressed| then (true, compressed) else (false, uncompressed)
  }

  /** `encode`: the header byte followed by the body. */
  function EncodeMessage(p: Payload, options: Options, schemas: map<int, Schema>, ext: Externals): (r: Result<seq<Byte>>)
    requires Admissible(p, options.json, schemas)
    ensures r.Ok? <==> EncodeBody(p, false, options.json, schemas, ext).Ok?
    ensures r.Err? ==> r.error == EncodeBody(p, false, options.json, schemas, ext).error
    ensures r.Ok? ==> (
      |r.value| >= 1 &&
      DecodeHeader(r.value[0]).event == p.event % 64 && DecodeHeader(r.value[0]).json == options.json &&
      (options.compress.Fixed? ==> DecodeHeader(r.value[0]).compress == options.compress.on))
  {
    HeaderRoundTrip(p.event, false, options.json);
    HeaderRoundTrip(p.event, true, options.json);
    match options.compress
    case Auto =>
      (match EncodeBody(p, false, options.json, schemas, ext)
       case Err(e) => Err(e)
       case Ok(plain) =>
         var choice := ChooseBody(plain, ext.compress(plain));
         Ok([EncodeHeader(p.event, choice.0, options.json)] + choice.1))
    case Fixed(on) =>
      match EncodeBody(p, on, options.json, schemas, ext)
      case Err(e) => Err(e)
      case Ok(body) => Ok([EncodeHeader(p.event, on, options.json)] + body)
  }

  /** `decodeData`: decompress when flagged, then parse JSON or decode the registered schema from
      the first bit of the body. */
  function DecodeBody(event: int, data: seq<Byte>, compress: bool, json: bool, schemas: map<int, Schema>, ext: Externals): (r: Result<Value>)
    ensures r == Err(DecompressFailed) <==> compress && ext.decompress(data).None?
    ensures r == Err(ParseFailed) <==> (
      (!compress || ext.decompress(data).Some?) && json &&
      ext.parse(if compress then ext.decompress(data).value else data).None?)
    ensures r.Err? ==>
      r.error in [DecompressFailed, ParseFailed, UnregisteredEvent(event), UnknownType(FLOAT)]
    ensures r.Ok? && !json ==> event in schemas
  {
    var body := if compress then ext.decompress(data) else Some(data);
    if body.None? then Err(DecompressFailed)
    else if json then
      (match ext.parse(body.value)
       case None => Err(ParseFailed)
       case Some(v) => Ok(v))
    else if event !in schemas then Err(UnregisteredEvent(event))
    else
      match DecodeValue(schemas[event], State(body.value, 0, 0))
      case Err(e) => Err(e)
      case Ok(d) => Ok(d.value)
  }

  /** `decode`: the header from byte 0 (absent reads as 0) and the body from byte 1 on. */
  function DecodeMessage(message: seq<Byte>, schemas: map<int, Schema>, ext: Externals): (r: Result<Payload>)
    ensures r.Ok? ==> r.value.event == DecodeHeader(ByteAt(message, 0)).event && 0 <= r.value.event < 64
  {
    var header := DecodeHeader(ByteAt(message, 0));
    var data := if |message| == 0 then [] else message[1..];
    match DecodeBody(header.event, data, header.compress, header.json, schemas, ext)
    case Err(e) => Err(e)
    case Ok(v) => Ok(Payload(header.event, v))
  }

  /** What decoding a message for `p` gives back as its data: JSON returns the data as it was
      stringified; the packed path returns its canonical form under the event's schema, which is
      the data itself when its properties are already in schema order. */
  function Restored(p: Payload, json: bool, schemas: map<int, Schema>): Value
    requires Admissible(p, json, schemas)
  {
    if json || p.event !in schemas then p.data else Canon(p.data, schemas[p.event])
  }

  /** The payload can make the round trip: JSON takes anything; the packed path needs a registered,
      well-formed schema, and data the encoder accepts whose numbers and lengths fit their widths. */
  predicate Transmissible(p: Payload, json: bool, schemas: map<int, Schema>)
  {
    !json ==>
      p.event in schemas && WellFormed(schemas[p.event]) && Encodable(p.data, schemas[p.event]) &&
      Conforms(Canon(p.data, schemas[p.event]), schemas[p.event])
  }

  /** A packed body read back from its first bit gives the canonical form of the value it was
      packed from. */
  lemma PackedRoundTrip(v: Value, s: Schema)
    requires WellFormed(s) && Encodable(v, s) && Conforms(Canon(v, s), s)
    ensures EncodeValue(v, s).Ok?
    ensures var st := State(PackBits(EncodeValue(v, s).value), 0, 0);
      DecodeValue(s, st).Ok? && DecodeValue(s, st).value.value == Canon(v, s)
  {
    RoundTrip(v, s, State([], 0, 0));
    var bits := EncodeValue(v, s).value;
    var st := State(PackBits(bits), 0, 0);
    ReadPacked(bits);
    RoundTrip(v, s, st);
  }

  /** An object schema of two booleans, a value listing its properties the other way round, and
      the same properties in schema order. */
  const PairSchema := Object([Field("a", Bool), Field("b", Bool)])
  const Swapped := ObjVal([Entry("b", BoolVal(false)), Entry("a", BoolVal(true))])
  const InOrder := ObjVal([Entry("a", BoolVal(true)), Entry("b", BoolVal(false))])

  lemma SwappedEncodes()
    ensures Encodable(Swapped, PairSchema) && EncodeValue(Swapped, PairSchema) == Ok([true, false])
  {
    assert Lookup(Swapped.entries, "a") == Some(BoolVal(true));
    assert Lookup(Swapped.entries, "b") == Some(BoolVal(false));
    assert EncodeFields(Swapped.entries, PairSchema.fields, 1) == Ok([] + [true]) && [] + [true] == [true];
    assert EncodeFields(Swapped.entries, PairSchema.fields, 2) == Ok([true] + [false]);
    assert [true] + [false] == [true, false];
  }

  lemma SwappedCanon()
    ensures Encodable(Swapped, PairSchema) && Canon(Swapped, PairSchema) == InOrder
    ensures WellFormed(PairSchema) && Conforms(InOrder, PairSchema) && !Conforms(Swapped, PairSchema)
  {
    SwappedEncodes();
    assert Lookup(Swapped.entries, "a") == Some(BoolVal(true));
    assert Lookup(Swapped.entries, "b") == Some(BoolVal(false));
    assert CanonFields(Swapped.entries, PairSchema.fields) == InOrder.entries;
  }

  /** Property order is the encoder's own business: { b: false, a: true } against the schema
      { a: BOOL, b: BOOL } is written field by field in schema order, and reads back as
      { a: true, b: false }. */
  lemma ReorderedObject()
    ensures Encodable(Swapped, PairSchema) && !Conforms(Swapped, PairSchema)
    ensures EncodeValue(Swapped, PairSchema) == Ok([true, false])
    ensures var st := State(PackBits([true, false]), 0, 0);
      DecodeValue(PairSchema, st).Ok? && DecodeValue(PairSchema, st).value.value == InOrder
  {
    SwappedEncodes();
    SwappedCanon();
    PackedRoundTrip(Swapped, PairSchema);
  }

  /** The message is decodable back to its payload: for events below 64, with lossless
      collaborators and, on the packed path, data that fits the registered schema, which comes back
      with its properties in schema order. */
  lemma MessageRoundTrip(p: Payload, options: Options, schemas: map<int, Schema>, ext: Externals)
    requires Lossless(ext) && 0 <= p.event < 64 && Transmissible(p, options.json, schemas)
    ensures Admissible(p, options.json, schemas)
    ensures EncodeMessage(p, options, schemas, ext).Ok?
    ensures DecodeMessage(EncodeMessage(p, options, schemas, ext).value, schemas, ext)
      == Ok(Payload(p.event, Restored(p, options.json, schemas)))
  {
    var json := options.json;
    BodyRoundTrip(p, false, json, schemas, ext);
    var flag := match options.compress case Auto => ChooseFlag(p, json, schemas, ext) case Fixed(on) => on;
    BodyRoundTrip(p, flag, json, schemas, ext);
    var body := EncodeBody(p, flag, json, schemas, ext).value;
    var m := [EncodeHeader(p.event, flag, json)] + body;
    assert EncodeMessage(p, options, schemas, ext) == Ok(m);
    HeaderRoundTripSmall(p.event, flag, json);
    assert ByteAt(m, 0) == EncodeHeader(p.event, flag, json) && m[1..] == body;
    assert DecodeBody(p.event, body, flag, json, schemas, ext) == Ok(Restored(p, json, schemas));
  }

  /** The body encoded under either flag decodes back to the data under that flag. */
  lemma BodyRoundTrip(p: Payload, flag: bool, json: bool, schemas: map<int, Schema>, ext: Externals)
    requires Lossless(ext) && Transmissible(p, json, schemas)
    ensures Admissible(p, json, schemas) && EncodeBody(p, flag, json, schemas, ext).Ok?
    ensures DecodeBody(p.event, EncodeBody(p, flag, json, schemas, ext).value, flag, json, schemas, ext)
      == Ok(Restored(p, json, schemas))
  {
    var plain: seq<Byte>;
    if json {
      plain := ext.stringify(p.data);
      assert EncodeBody(p, false, json, schemas, ext) == Ok(plain);
      assert ext.parse(plain) == Some(p.data);
    } else {
      var s := schemas[p.event];
      PackedRoundTrip(p.data, s);
      plain := PackBits(EncodeValue(p.data, s).value);
      assert EncodeBody(p, false, json, schemas, ext) == Ok(plain);
      assert DecodeValue(s, State(plain, 0, 0)).value.value == Canon(p.data, s);
    }
    assert DecodeBody(p.event, plain, false, json, schemas, ext) == Ok(Restored(p, json, schemas));
    if flag {
      var body := EncodeBody(p, flag, json, schemas, ext).value;
      assert body == ext.compress(plain);
      assert ext.decompress(body) == Some(plain);
    }
  }

  /** The compress flag auto mode settles on. */
  function ChooseFlag(p: Payload, json: bool, schemas: map<int, Schema>, ext: Externals): bool
    requires Admissible(p, json, schemas)
  {
    match EncodeBody(p, false, json, schemas, ext)
    case Err(_) => false
    case Ok(plain) => ChooseBody(plain, ext.compress(plain)).0
  }

  /** Auto mode is fixed mode with the flag set exactly when lz4 makes the body strictly shorter,
      and its message is never longer than one header byte plus the uncompressed body. */
  lemma AutoIsBestFixed(p: Payload, json: bool, schemas: map<int, Schema>, ext: Externals)
    requires Admissible(p, json, schemas)
    ensures var plain := EncodeBody(p, false, json, schemas, ext);
      plain.Ok? ==>
        ChooseFlag(p, json, schemas, ext) == (|ext.compress(plain.value)| < |plain.value|) &&
        EncodeMessage(p, Options(Auto, json), schemas, ext)
          == EncodeMessage(p, Options(Fixed(ChooseFlag(p, json, schemas, ext)), json), schemas, ext) &&
        |EncodeMessage(p, Options(Auto, json), schemas, ext).value| <= 1 + |plain.value|
  {
    var plain := EncodeBody(p, false, json, schemas, ext);
    if plain.Ok? {
      var flag := ChooseFlag(p, json, schemas, ext);
      if flag {
        assert EncodeBody(p, true, json, schemas, ext) == Ok(ext.compress(plain.value));
      }
    }
  }

  /** `encode(payload)` with no options: JSON under auto compression. The registry is never
      consulted, the body is the stringified data or its lz4 form, whichever is strictly shorter,
      and the header carries the event (modulo 64), that choice and the JSON bit. */
  lemma DefaultEncode(p: Payload, schemas: map<int, Schema>, ext: Externals)
    ensures Admissible(p, DefaultOptions.json, schemas)
    ensures var text := ext.stringify(p.data);
      var choice := ChooseBody(text, ext.compress(text));
      var r := EncodeMessage(p, DefaultOptions, schemas, ext);
      r.Ok? && |r.value| == 1 + |choice.1| && r.value[1..] == choice.1 &&
      DecodeHeader(r.value[0]) == Header(p.event % 64, |ext.compress(text)| < |text|, true)
  {
    var text := ext.stringify(p.data);
    var choice := ChooseBody(text, ext.compress(text));
    var m := [EncodeHeader(p.event, choice.0, true)] + choice.1;
    assert EncodeMessage(p, DefaultOptions, schemas, ext) == Ok(m);
    HeaderRoundTrip(p.event, choice.0, true);
  }

  /** The packed path fails exactly when the event has no schema (`Unregistered event`) or the
      schema reaches a kind without a branch. */
  lemma BinaryEncodeErrors(p: Payload, on: bool, schemas: map<int, Schema>, ext: Externals)
    requires Admissible(p, false, schemas)
    ensures var r := EncodeMessage(p, Options(Fixed(on), false), schemas, ext);
      (p.event !in schemas ==> r == Err(UnregisteredEvent(p.event))) &&
      (p.event in schemas ==> (r.Err? <==> EncodeValue(p.data, schemas[p.event]).Err?)) &&
      (r.Err? ==> r.error == UnregisteredEvent(p.event) || r.error == UnknownType(FLOAT))
  {
  }

  /** A binary header naming an event without a schema makes decoding fail with
      `Unregistered event`, unless decompression fails first. */
  lemma BinaryDecodeUnregistered(message: seq<Byte>, schemas: map<int, Schema>, ext: Externals)
    requires |message| > 0
    requires var h := DecodeHeader(message[0]); !h.json && h.event !in schemas
    requires !DecodeHeader(message[0]).compress || ext.decompress(message[1..]).Some?
    ensures DecodeMessage(message, schemas, ext) == Err(UnregisteredEvent(message[0] / 4))
  {
    DecodeLayout(message[0]);
  }

  /** An empty message reads as header 0: event 0, uncompressed, packed. */
  lemma EmptyMessage(schemas: map<int, Schema>, ext: Externals)
    ensures DecodeMessage([], schemas, ext)
      == if 0 in schemas then
           (match DecodeValue(schemas[0], State([], 0, 0))
            case Err(e) => Err(e)
            case Ok(d) => Ok(Payload(0, d.value)))
         else Err(UnregisteredEvent(0))
  {
    DecodeLayout(0);
  }
}
