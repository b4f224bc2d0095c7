/** The decoder's steps: each reads from the buffer at a cursor and returns the value with a new
    cursor, leaving the buffer untouched. Every method is proved equal to the bit-stream reading of
    the same schema node. The `Nothing` and `Float` branches of `DecodeType` are the corrected
    ones: in src/decode.js:45 the source names an undefined `NOTHING` and throws a ReferenceError
    for both kinds, which `AsWritten.DecodeAsWritten` models. */
module Decoder {
  import opened Bits
  import opened Schemas
  import opened Wire
  import opened Headers
  import opened Envelope
  import opened Registries

  function Min(a: nat, b: nat): nat
  {
    if a < b then a else b
  }

  /** `(byte >> (8 - b - len)) & MASKS[len]` is the `len` bits of `byte` from bit `b` on, counted
      from the most significant end. */
  lemma ByteField(byte: Byte, b: nat, len: nat)
    requires b + len <= 8
    ensures Mask(Shr(byte, 8 - b - len), len) == FromBits(ToBits(byte, 8)[b..b + len])
  {
    var k := 8 - b - len;
    var x := Shr(byte, k);
    ToBitsSplit(byte, b + len, k);
    ToBitsSplit(x, b, len);
    var top, field, low := ToBits(Shr(x, len), b), ToBits(x, len), ToBits(byte, k);
    assert ToBits(byte, 8) == top + field + low;
    MiddleSlice(top, field, low);
  }

  /** Reading `w` more bits that lie within one byte appends that byte's bits to what was read. */
  lemma ReadChunk(st: State, done: nat, w: nat, i: nat, b: nat)
    requires 8 * i + b == st.Pos() + done && b + w <= 8
    ensures st.Read(done + w) == st.Read(done) + ToBits(ByteAt(st.bytes, i), 8)[b..b + w]
  {
    ReadNAppend(BitsOf(st.bytes), st.Pos(), done, w);
    ReadWithinByte(st.bytes, i, b, w);
  }

  /** The cursor at a position, written as a byte index and a bit index. */
  lemma CursorAt(st: State, n: nat, currentByte: nat, currentBit: nat)
    requires currentBit < 8 && 8 * currentByte + currentBit == st.Pos() + n
    ensures st.Skip(n) == State(st.bytes, currentByte, currentBit)
  {
    DivModUnique(st.Pos() + n, 8, currentByte, currentBit);
  }

  /** `decodeBool`: bit `currentBit` of the current byte (0 past the end), then one bit on. */
  method DecodeBool(state: State) returns (value: bool, next: State)
    requires state.Valid()
    ensures value == state.Read(1)[0] && next == state.Skip(1)
    ensures Ok(Decoded(BoolVal(value), next)) == DecodeValue(Bool, state)
  {
    var byte := ByteAt(state.bytes, state.currentByte);
    value := Mask(Shr(byte, 7 - state.currentBit), 1) != 0;
    var currentBit := (state.currentBit + 1) % 8;
    var currentByte := state.currentByte;
    if currentBit == 0 {
      currentByte := currentByte + 1;
    }
    next := State(state.bytes, currentByte, currentBit);
    ByteField(byte, state.currentBit, 1);
    ReadChunk(state, 0, 1, state.currentByte, state.currentBit);
    assert state.Read(0) == [];
    CursorAt(state, 1, currentByte, currentBit);
  }

  /** One pass of the `decodeUnsignedInt` loop: OR-ing the next `w` bits of the current byte into
      the value shifted so far gives the value of everything read. */
  lemma ReadStep(state: State, done: nat, w: nat, currentByte: nat, currentBit: nat, value: nat, shift: nat)
    requires 8 * currentByte + currentBit == state.Pos() + done && currentBit + w <= 8
    requires value == Shl(FromBits(state.Read(done)), shift)
    requires done > 0 ==> shift == w
    ensures BitOr(value, Mask(Shr(ByteAt(state.bytes, currentByte), 8 - currentBit - w), w))
            == FromBits(state.Read(done + w))
  {
    var byte := ByteAt(state.bytes, currentByte);
    var chunk := Mask(Shr(byte, 8 - currentBit - w), w);
    ByteField(byte, currentBit, w);
    ReadChunk(state, done, w, currentByte, currentBit);
    FromBitsAppend(state.Read(done), ToBits(byte, 8)[currentBit..currentBit + w]);
    assert Shl(FromBits(state.Read(done)), w) == value by {
      if done == 0 {
        assert state.Read(0) == [];
        ShlZero(w);
        ShlZero(shift);
      }
    }
    BitOrDisjoint(FromBits(state.Read(done)), w, chunk);
  }

  /** What the `decodeUnsignedInt` loop keeps: the cursor is `size - remaining` bits on, every
      chunk after the first starts a byte, and `value` holds the bits read so far, shifted left to
      make room for the next chunk. */
  ghost predicate UIntRead(state: State, size: nat, currentByte: nat, currentBit: nat, remaining: nat, value: nat)
  {
    remaining <= size && currentBit < 8 &&
    8 * currentByte + currentBit == state.Pos() + (size - remaining) &&
    (0 < remaining < size ==> currentBit == 0) &&
    value == Shl(FromBits(state.Read(size - remaining)), Min(remaining, 8))
  }

  /** One pass of the loop keeps `UIntRead`, in each of its two branches. */
  lemma UIntReadStep(state: State, size: nat, currentByte: nat, currentBit: nat, remaining: nat, value: nat)
    requires UIntRead(state, size, currentByte, currentBit, remaining, value) && remaining > 0
    ensures var byte, bitsInByte := ByteAt(state.bytes, currentByte), 8 - currentBit;
      if remaining >= bitsInByte then
        UIntRead(state, size, currentByte + 1, 0, remaining - bitsInByte,
                 Shl(BitOr(value, Mask(byte, bitsInByte)), Min(remaining - bitsInByte, 8)))
      else
        UIntRead(state, size, currentByte, currentBit + remaining, 0,
                 BitOr(value, Mask(Shr(byte, bitsInByte - remaining), remaining)))
  {
    var byte, bitsInByte := ByteAt(state.bytes, currentByte), 8 - currentBit;
    var w := if remaining >= bitsInByte then bitsInByte else remaining;
    ReadStep(state, size - remaining, w, currentByte, currentBit, value, Min(remaining, 8));
    if remaining >= bitsInByte {
      assert Shr(byte, 0) == byte;
      assert size - (remaining - bitsInByte) == size - remaining + w;
    } else {
      assert size - 0 == size - remaining + w;
    }
  }

  /** `decodeUnsignedInt`: `size` bits, most significant first, taking the rest of the current
      byte and then whole bytes, and shifting the value left to make room for each next chunk. */
  method DecodeUnsignedInt(size: nat, state: State) returns (value: nat, next: State)
    requires state.Valid() && size <= MaxWidth
    ensures value == FromBits(state.Read(size)) && value < Pow2(size)
    ensures next == state.Skip(size)
  {
    var bytes := state.bytes;
    var currentByte: nat, currentBit: nat := state.currentByte, state.currentBit;
    value := 0;
    var remaining: nat := size;
    ShlZero(Min(remaining, 8));
    assert state.Read(0) == [];
    while remaining > 0
      invariant UIntRead(state, size, currentByte, currentBit, remaining, value)
      decreases remaining
    {
      UIntReadStep(state, size, currentByte, currentBit, remaining, value);
      var byte := ByteAt(bytes, currentByte);
      var bitsInByte := 8 - currentBit;
      if remaining >= bitsInByte {
        value := BitOr(value, Mask(byte, bitsInByte));
        remaining := remaining - bitsInByte;
        value := Shl(value, Min(remaining, 8));
        currentByte := currentByte + 1;
        currentBit := 0;
      } else {
        value := BitOr(value, Mask(Shr(byte, bitsInByte - remaining), remaining));
        currentBit := currentBit + remaining;
        remaining := 0;
      }
    }
    next := State(bytes, currentByte, currentBit);
    CursorAt(state, size, currentByte, currentBit);
  }

  /** `decodeSignedInt`: a sign bit, then the magnitude as a UINT of `size` bits. */
  method DecodeSignedInt(size: nat, state: State) returns (value: int, next: State)
    requires state.Valid() && size <= MaxWidth
    ensures -(Pow2(size) as int) < value < Pow2(size)
    ensures Ok(Decoded(IntVal(value), next)) == DecodeValue(Int(size), state)
  {
    var isNegative, signState := DecodeBool(state);
    SkipPos(state, 1);
    var number, numberState := DecodeUnsignedInt(size, signState);
    value := if isNegative then -(number as int) else number;
    next := numberState;
  }

  /** `decodeString`: the byte count, then that many UINT(8) bytes. */
  method DecodeString(lengthSize: nat, state: State) returns (value: seq<Byte>, next: State)
    requires state.Valid() && lengthSize <= MaxWidth
    ensures |value| < Pow2(lengthSize)
    ensures Ok(Decoded(StrVal(value), next)) == DecodeValue(String(lengthSize), state)
  {
    var length, lengthState := DecodeUnsignedInt(lengthSize, state);
    value := [];
    var st := lengthState;
    SkipPos(state, lengthSize);
    SkipZero(lengthState);
    for i := 0 to length
      invariant value == ReadBytes(lengthState, i)
      invariant st == lengthState.Skip(8 * i) && st.Valid()
    {
      var byte, nextState := DecodeUnsignedInt(8, st);
      ReadBytesStep(lengthState, i, st, byte);
      value := value + [byte];
      st := nextState;
    }
    next := st;
    StringDecoded(lengthSize, state, length, value);
  }

  /** One pass of the `decodeString` loop: the byte read at the cursor extends the bytes read. */
  lemma ReadBytesStep(base: State, i: nat, st: State, byte: nat)
    requires st == base.Skip(8 * i) && byte == FromBits(st.Read(8))
    ensures byte < 256 && ReadBytes(base, i + 1) == ReadBytes(base, i) + [byte]
    ensures st.Skip(8) == base.Skip(8 * (i + 1)) && st.Skip(8).Valid()
  {
    assert Pow2(8) == 256;
    ReadBytesSnoc(base, i);
    SkipSkip(base, 8 * i, 8);
    SkipPos(st, 8);
  }

  lemma ReadBytesSnoc(base: State, i: nat)
    ensures ReadBytes(base, i + 1) == ReadBytes(base, i) + [ByteOf(base.Skip(8 * i).Read(8))]
  {
    var longer, shorter := ReadBytes(base, i + 1), ReadBytes(base, i);
    forall j | 0 <= j < i ensures longer[j] == shorter[j] {
    }
    assert longer == shorter + [longer[i]];
  }

  /** Once a prefix of the elements fails to decode, so do all longer prefixes, with that error. */
  lemma {:induction false} ElemsErrorPersists(c: Schema, st: State, i: nat, k: nat)
    requires i <= k && DecodeElems(c, st, i).Err?
    ensures DecodeElems(c, st, k) == DecodeElems(c, st, i)
    decreases k
  {
    if k > i {
      ElemsErrorPersists(c, st, i, k - 1);
      var front := DecodeElems(c, st, k - 1);
      assert front.Err?;
      assert DecodeElems(c, st, k) == Err(front.error);
    }
  }

  lemma {:induction false} FieldsErrorPersists(fields: seq<Field>, st: State, i: nat, k: nat)
    requires i <= k <= |fields| && DecodeFields(fields, st, i).Err?
    ensures DecodeFields(fields, st, k) == DecodeFields(fields, st, i)
    decreases k
  {
    if k > i {
      FieldsErrorPersists(fields, st, i, k - 1);
      var front := DecodeFields(fields, st, k - 1);
      assert front.Err?;
      assert DecodeFields(fields, st, k) == Err(front.error);
    }
  }

  /** `decodeArray`: the element count, then that many elements of the content schema, in order. */
  method DecodeArray(lengthSize: nat, content: Schema, state: State) returns (r: Result<Decoded>)
    requires state.Valid() && WellFormed(Array(lengthSize, content))
    ensures r == DecodeValue(Array(lengthSize, content), state)
    ensures r.Ok? ==> r.value.state.Valid()
    decreases Array(lengthSize, content), 0
  {
    var length, lengthState := DecodeUnsignedInt(lengthSize, state);
    var result: seq<Value> := [];
    var st := lengthState;
    SkipPos(state, lengthSize);
    for i := 0 to length
      invariant DecodeElems(content, lengthState, i) == Ok(Decoded(ArrVal(result), st))
      invariant st.Valid()
    {
      var x := DecodeType(content, st);
      if x.Err? {
        ElemsErrorPersists(content, lengthState, i + 1, length);
        return Err(x.error);
      }
      result := result + [x.value.value];
      st := x.value.state;
    }
    r := Ok(Decoded(ArrVal(result), st));
  }

  /** `decodeObject`: each field of the schema in order, threading one cursor through them. */
  method DecodeObject(fields: seq<Field>, state: State) returns (r: Result<Decoded>)
    requires state.Valid() && WellFormed(Object(fields))
    ensures r == DecodeValue(Object(fields), state)
    ensures r.Ok? ==> r.value.state.Valid()
    decreases Object(fields), 0
  {
    var result: seq<Entry> := [];
    var st := state;
    for i := 0 to |fields|
      invariant DecodeFields(fields, state, i) == Ok(Decoded(ObjVal(result), st))
      invariant st.Valid()
    {
      var x := DecodeType(fields[i].schema, st);
      if x.Err? {
        FieldsErrorPersists(fields, state, i + 1, |fields|);
        return Err(x.error);
      }
      result := result + [Entry(fields[i].name, x.value.value)];
      st := x.value.state;
    }
    r := Ok(Decoded(ObjVal(result), st));
  }

  /** `decodeType`: the dispatch on the schema's kind. NOTHING yields no value and reads nothing;
      FLOAT has no branch and fails. */
  method DecodeType(s: Schema, state: State) returns (r: Result<Decoded>)
    requires state.Valid() && WellFormed(s)
    ensures r == DecodeValue(s, state)
    ensures r.Ok? ==> r.value.state.Valid()
    decreases s, 1
  {
    match s
    case Bool =>
      var value, next := DecodeBool(state);
      r := Ok(Decoded(BoolVal(value), next));
      SkipPos(state, 1);
    case Int(size) =>
      var value, next := DecodeSignedInt(size, state);
      r := Ok(Decoded(IntVal(value), next));
      SkipPos(state.Skip(1), size);
    case UInt(size) =>
      var value, next := DecodeUnsignedInt(size, state);
      r := Ok(Decoded(IntVal(value), next));
      SkipPos(state, size);
    case String(lengthSize) =>
      var value, next := DecodeString(lengthSize, state);
      r := Ok(Decoded(StrVal(value), next));
      SkipPos(state.Skip(lengthSize), 8 * |value|);
    case Array(lengthSize, content) =>
      r := DecodeArray(lengthSize, content, state);
    case Object(fields) =>
      r := DecodeObject(fields, state);
    case Nothing =>
      r := Ok(Decoded(Null, state));
    case Float =>
      r := Err(UnknownType(FLOAT));
  }

  /** `decodeData`: decompress when flagged, then parse JSON, or decode the event's registered
      schema from the first bit of the body. */
  method DecodeData(event: int, data: seq<Byte>, compress: bool, json: bool, registry: Registry, ext: Externals)
    returns (r: Result<Value>)
    requires AllWellFormed(registry.events)
    ensures r == DecodeBody(event, data, compress, json, registry.events, ext)
  {
    var decompressed := data;
    if compress {
      var d := ext.decompress(data);
      if d.None? {
        return Err(DecompressFailed);
      }
      decompressed := d.value;
    }
    if json {
      var parsed := ext.parse(decompressed);
      if parsed.None? {
        return Err(ParseFailed);
      }
      return Ok(parsed.value);
    }
    var schema := registry.GetSchema(event);
    if schema.None? {
      return Err(UnregisteredEvent(event));
    }
    var x := DecodeType(schema.value, State(decompressed, 0, 0));
    if x.Err? {
      return Err(x.error);
    }
    r := Ok(x.value.value);
  }

  /** `decode`: the header from byte 0, the body from byte 1 on. */
  method Decode(message: seq<Byte>, registry: Registry, ext: Externals) returns (r: Result<Payload>)
    requires AllWellFormed(registry.events)
    ensures r == DecodeMessage(message, registry.events, ext)
  {
    var header := DecodeHeader(ByteAt(message, 0));
    var data := if |message| == 0 then [] else message[1..];
    var v := DecodeData(header.event, data, header.compress, header.json, registry, ext);
    if v.Err? {
      return Err(v.error);
    }
    r := Ok(Payload(header.event, v.value));
  }
}
