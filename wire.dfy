/** The packed body as a bit stream: the bits the encoder writes for a value against its schema,
    what the decoder reads back from a byte buffer, and the round trip between the two. */
module Wire {
  import opened Bits
  import opened Schemas

  /** The decoder's cursor `{ bytes, currentByte, currentBit }`: the next bit to read is bit
      `currentBit` (counted from the most significant end) of byte `currentByte`. */
  datatype State = State(bytes: seq<Byte>, currentByte: nat, currentBit: nat)
  {
    predicate Valid()
    {
      currentBit < 8
    }

    /** The number of bits before the cursor. */
    function Pos(): nat
    {
      8 * currentByte + currentBit
    }

    /** The next `n` bits; bits past the end of the buffer read as 0. */
    function Read(n: nat): seq<bool>
    {
      ReadN(BitsOf(bytes), Pos(), n)
    }

    /** The cursor `n` bits further on. */
    function Skip(n: nat): State
    {
      State(bytes, (Pos() + n) / 8, (Pos() + n) % 8)
    }
  }

  /** A decoded value with the cursor just after it. */
  datatype Decoded = Decoded(value: Value, state: State)

  function Abs(x: int): nat
  {
    if x < 0 then -x else x
  }

  /** The bits `encodeType` appends for `v` against `s`. A number is written as its low `size`
      bits, most significant first; INT writes the sign bit `v < 0` and then `|v|`; a string its
      byte count and then each byte; an array its length and then its elements; an object its
      fields in schema order; NOTHING nothing at all. FLOAT has no branch and throws. */
  function EncodeValue(v: Value, s: Schema): (r: Result<seq<bool>>)
    requires Encodable(v, s)
    ensures r.Err? ==> r.error == UnknownType(FLOAT)
    decreases s, 1, 0
  {
    match s
    case Bool => Ok([v.b])
    case Int(size) => Ok([v.i < 0] + ToBits(Abs(v.i), size))
    case UInt(size) => Ok(ToBits(v.i, size))
    case String(lengthSize) => Ok(ToBits(|v.bytes|, lengthSize) + BitsOf(v.bytes))
    case Array(lengthSize, content) =>
      (match EncodeElems(v.elems, content, |v.elems|)
       case Ok(body) => Ok(ToBits(|v.elems|, lengthSize) + body)
       case Err(e) => Err(e))
    case Object(fields) => EncodeFields(v.entries, fields, |fields|)
    case Nothing => Ok([])
    case Float => Err(UnknownType(FLOAT))
  }

  /** The bits of the first `k` elements, one after another. */
  function EncodeElems(vs: seq<Value>, c: Schema, k: nat): (r: Result<seq<bool>>)
    requires k <= |vs|
    requires forall i :: 0 <= i < |vs| ==> Encodable(vs[i], c)
    ensures r.Err? ==> r.error == UnknownType(FLOAT)
    decreases c, 2, k
  {
    if k == 0 then Ok([])
    else
      match EncodeElems(vs, c, k - 1)
      case Err(e) => Err(e)
      case Ok(front) =>
        match EncodeValue(vs[k - 1], c)
        case Err(e) => Err(e)
        case Ok(last) => Ok(front + last)
  }

  /** The bits of the first `k` fields of an object, each taken from the value under its name. */
  function EncodeFields(entries: seq<Entry>, fields: seq<Field>, k: nat): (r: Result<seq<bool>>)
    requires k <= |fields|
    requires Encodable(ObjVal(entries), Object(fields))
    ensures r.Err? ==> r.error == UnknownType(FLOAT)
    decreases Object(fields), 0, k
  {
    if k == 0 then Ok([])
    else
      match EncodeFields(entries, fields, k - 1)
      case Err(e) => Err(e)
      case Ok(front) =>
        match EncodeValue(Lookup(entries, fields[k - 1].name).value, fields[k - 1].schema)
        case Err(e) => Err(e)
        case Ok(last) => Ok(front + last)
  }

  /** `n` bytes read at the cursor, one UInt(8) after another. */
  function ReadBytes(st: State, n: nat): (r: seq<Byte>)
    ensures |r| == n
  {
    seq(n, i requires 0 <= i < n => ByteOf(st.Skip(8 * i).Read(8)))
  }

  /** `decodeType`, with the NOTHING branch as the encoder implies it: no bits, no value. */
  function DecodeValue(s: Schema, st: State): (r: Result<Decoded>)
    ensures r.Err? ==> r.error == UnknownType(FLOAT)
    ensures r.Ok? ==> r.value.state.bytes == st.bytes && r.value.state.Pos() >= st.Pos()
    decreases s, 1, 0
  {
    match s
    case Bool => Ok(Decoded(BoolVal(st.Read(1)[0]), st.Skip(1)))
    case Int(size) =>
      var magnitude := FromBits(st.Skip(1).Read(size));
      Ok(Decoded(IntVal(if st.Read(1)[0] then -(magnitude as int) else magnitude), st.Skip(1).Skip(size)))
    case UInt(size) => Ok(Decoded(IntVal(FromBits(st.Read(size))), st.Skip(size)))
    case String(lengthSize) =>
      var n := FromBits(st.Read(lengthSize));
      var body := st.Skip(lengthSize);
      Ok(Decoded(StrVal(ReadBytes(body, n)), body.Skip(8 * n)))
    case Array(lengthSize, content) =>
      DecodeElems(content, st.Skip(lengthSize), FromBits(st.Read(lengthSize)))
    case Object(fields) => DecodeFields(fields, st, |fields|)
    case Nothing => Ok(Decoded(Null, st))
    case Float => Err(UnknownType(FLOAT))
  }

  /** `k` elements decoded one after another: an array of exactly `k` elements. */
  function DecodeElems(c: Schema, st: State, k: nat): (r: Result<Decoded>)
    ensures r.Err? ==> r.error == UnknownType(FLOAT)
    ensures r.Ok? ==> r.value.state.bytes == st.bytes && r.value.state.Pos() >= st.Pos()
    ensures r.Ok? ==> r.value.value.ArrVal? && |r.value.value.elems| == k
    decreases c, 2, k
  {
    if k == 0 then Ok(Decoded(ArrVal([]), st))
    else
      match DecodeElems(c, st, k - 1)
      case Err(e) => Err(e)
      case Ok(front) =>
        match DecodeValue(c, front.state)
        case Err(e) => Err(e)
        case Ok(last) => Ok(Decoded(ArrVal(front.value.elems + [last.value]), last.state))
  }

  /** The first `k` fields decoded one after another: an object with exactly the first `k` field
      names of the schema, in schema order. */
  function DecodeFields(fields: seq<Field>, st: State, k: nat): (r: Result<Decoded>)
    requires k <= |fields|
    ensures r.Err? ==> r.error == UnknownType(FLOAT)
    ensures r.Ok? ==> r.value.state.bytes == st.bytes && r.value.state.Pos() >= st.Pos()
    ensures r.Ok? ==> r.value.value.ObjVal? && |r.value.value.entries| == k
    ensures r.Ok? ==> forall i :: 0 <= i < k ==> r.value.value.entries[i].key == fields[i].name
    decreases Object(fields), 0, k
  {
    if k == 0 then Ok(Decoded(ObjVal([]), st))
    else
      match DecodeFields(fields, st, k - 1)
      case Err(e) => Err(e)
      case Ok(front) =>
        match DecodeValue(fields[k - 1].schema, front.state)
        case Err(e) => Err(e)
        case Ok(last) =>
          Ok(Decoded(ObjVal(front.value.entries + [Entry(fields[k - 1].name, last.value)]), last.state))
  }

  // ---- Cursor arithmetic ----

  lemma SkipPos(st: State, n: nat)
    ensures st.Skip(n).Pos() == st.Pos() + n && st.Skip(n).Valid() && st.Skip(n).bytes == st.bytes
  {
  }

  lemma SkipSkip(st: State, a: nat, b: nat)
    ensures st.Skip(a).Skip(b) == st.Skip(a + b)
  {
    SkipPos(st, a);
  }

  lemma SkipZero(st: State)
    requires st.Valid()
    ensures st.Skip(0) == st
  {
    DivModUnique(st.Pos(), 8, st.currentByte, st.currentBit);
  }

  /** Reading `a + b` bits is reading `a` bits and then `b` more. */
  lemma ReadSplit(st: State, a: seq<bool>, b: seq<bool>)
    requires st.Read(|a + b|) == a + b
    ensures st.Read(|a|) == a && st.Skip(|a|).Read(|b|) == b
  {
    SkipPos(st, |a|);
    ReadNAppend(BitsOf(st.bytes), st.Pos(), |a|, |b|);
    assert (a + b)[..|a|] == a && (a + b)[|a|..] == b;
  }

  /** Two stretches read one after the other, and the cursor after both. */
  lemma ReadTwo(st: State, a: seq<bool>, b: seq<bool>)
    requires st.Read(|a + b|) == a + b
    ensures st.Read(|a|) == a && st.Skip(|a|).Read(|b|) == b
    ensures st.Skip(|a|).Skip(|b|) == st.Skip(|a + b|)
  {
    ReadSplit(st, a, b);
    SkipSkip(st, |a|, |b|);
  }

  /** A stretch inside what was read is read again from a cursor placed at its start. */
  lemma ReadSub(st: State, n: nat, a: nat, b: nat)
    requires a + b <= n
    ensures st.Skip(a).Read(b) == st.Read(n)[a..a + b]
  {
    SkipPos(st, a);
  }

  lemma BitsOfChunk(bytes: seq<Byte>, i: nat)
    requires i < |bytes|
    ensures BitsOf(bytes)[8 * i..8 * i + 8] == ToBits(bytes[i], 8)
  {
    forall j | 0 <= j < 8 ensures BitsOf(bytes)[8 * i..8 * i + 8][j] == ToBits(bytes[i], 8)[j] {
      BitsOfAt(bytes, i, j);
    }
  }

  /** Reading the bit stream of `bytes` back a byte at a time gives `bytes`. */
  lemma ReadBytesOf(st: State, bytes: seq<Byte>)
    requires st.Read(8 * |bytes|) == BitsOf(bytes)
    ensures ReadBytes(st, |bytes|) == bytes
  {
    forall i | 0 <= i < |bytes| ensures ReadBytes(st, |bytes|)[i] == bytes[i] {
      ReadByteAt(st, bytes, i);
    }
  }

  lemma ReadByteAt(st: State, bytes: seq<Byte>, i: nat)
    requires i < |bytes| && st.Read(8 * |bytes|) == BitsOf(bytes)
    ensures ByteOf(st.Skip(8 * i).Read(8)) == bytes[i]
  {
    ReadSub(st, 8 * |bytes|, 8 * i, 8);
    assert st.Skip(8 * i).Read(8) == BitsOf(bytes)[8 * i..8 * i + 8];
    BitsOfChunk(bytes, i);
    assert Pow2(8) == 256;
    FromBitsToBits(bytes[i], 8);
  }

  /** The bytes a stream is packed into read back as the stream, from their first bit. */
  lemma ReadPacked(bits: seq<bool>)
    ensures State(PackBits(bits), 0, 0).Read(|bits|) == bits
  {
    var none: seq<bool> := [];
    PackBitsBits(bits);
    ReadNWindow(none, bits, Zeros(Pad(|bits|)));
    assert none + bits == bits;
  }

  // ---- Round trip ----

  /** Every value the encoder accepts for a well-formed schema, with its numbers, string lengths
      and array lengths within their widths, is encoded without error, and decoding its bits at any
      cursor gives back its canonical form (object properties in schema order, whatever order they
      were written in) with the cursor moved past exactly those bits. */
  lemma {:induction false} RoundTrip(v: Value, s: Schema, st: State)
    requires WellFormed(s) && Encodable(v, s) && Conforms(Canon(v, s), s) && st.Valid()
    ensures EncodeValue(v, s).Ok?
    ensures var e := EncodeValue(v, s).value;
      st.Read(|e|) == e ==> DecodeValue(s, st) == Ok(Decoded(Canon(v, s), st.Skip(|e|)))
    decreases s, 1, 0
  {
    match s
    case Bool =>
    case Int(size) =>
      RoundTripInt(v.i, size, st);
    case UInt(size) =>
      FromBitsToBits(v.i, size);
    case String(lengthSize) =>
      RoundTripString(v.bytes, lengthSize, st);
    case Array(lengthSize, content) =>
      RoundTripArray(v.elems, lengthSize, content, st);
    case Object(fields) =>
      RoundTripFields(v.entries, fields, |fields|, st);
      assert CanonFields(v.entries, fields)[..|fields|] == CanonFields(v.entries, fields);
    case Nothing =>
      SkipZero(st);
  }

  lemma RoundTripInt(i: int, size: nat, st: State)
    requires -(Pow2(size) as int) < i < Pow2(size)
    ensures var e := EncodeValue(IntVal(i), Int(size)).value;
      st.Read(|e|) == e ==> DecodeValue(Int(size), st) == Ok(Decoded(IntVal(i), st.Skip(|e|)))
  {
    var sign, magnitude := [i < 0], ToBits(Abs(i), size);
    if st.Read(|sign + magnitude|) == sign + magnitude {
      ReadSplit(st, sign, magnitude);
      FromBitsToBits(Abs(i), size);
      SkipSkip(st, 1, size);
    }
  }

  lemma RoundTripString(bytes: seq<Byte>, lengthSize: nat, st: State)
    requires |bytes| < Pow2(lengthSize)
    ensures var e := EncodeValue(StrVal(bytes), String(lengthSize)).value;
      st.Read(|e|) == e ==> DecodeValue(String(lengthSize), st) == Ok(Decoded(StrVal(bytes), st.Skip(|e|)))
  {
    var count, body := ToBits(|bytes|, lengthSize), BitsOf(bytes);
    assert EncodeValue(StrVal(bytes), String(lengthSize)).value == count + body;
    if st.Read(|count + body|) == count + body {
      StringRead(bytes, lengthSize, st);
      var end := st.Skip(lengthSize).Skip(8 * |bytes|);
      StringDecoded(lengthSize, st, |bytes|, bytes);
      assert end == st.Skip(|count + body|) by {
        SkipSkip(st, lengthSize, 8 * |bytes|);
      }
    }
  }

  /** Where a string's bits lie at the cursor: its count, then its bytes. */
  lemma {:induction false} StringRead(bytes: seq<Byte>, lengthSize: nat, st: State)
    requires |bytes| < Pow2(lengthSize)
    requires st.Read(|ToBits(|bytes|, lengthSize) + BitsOf(bytes)|) == ToBits(|bytes|, lengthSize) + BitsOf(bytes)
    ensures FromBits(st.Read(lengthSize)) == |bytes|
    ensures ReadBytes(st.Skip(lengthSize), |bytes|) == bytes
  {
    var count, body := ToBits(|bytes|, lengthSize), BitsOf(bytes);
    assert |count| == lengthSize && |body| == 8 * |bytes|;
    ReadSplit(st, count, body);
    assert FromBits(st.Read(lengthSize)) == |bytes| by {
      FromBitsToBits(|bytes|, lengthSize);
    }
    assert ReadBytes(st.Skip(lengthSize), |bytes|) == bytes by {
      ReadBytesOf(st.Skip(lengthSize), bytes);
    }

  }

  /** The STRING branch of the decoder, once its length and bytes are known. */
  lemma StringDecoded(lengthSize: nat, st: State, n: nat, bytes: seq<Byte>)
    requires FromBits(st.Read(lengthSize)) == n
    requires ReadBytes(st.Skip(lengthSize), n) == bytes
    ensures DecodeValue(String(lengthSize), st) == Ok(Decoded(StrVal(bytes), st.Skip(lengthSize).Skip(8 * n)))
  {
  }

  /** The count prefix and the elements decode back to the array of the elements' canonical forms. */
  lemma {:induction false} RoundTripArray(vs: seq<Value>, lengthSize: nat, c: Schema, st: State)
    requires WellFormed(Array(lengthSize, c)) && st.Valid()
    requires Encodable(ArrVal(vs), Array(lengthSize, c))
    requires Conforms(Canon(ArrVal(vs), Array(lengthSize, c)), Array(lengthSize, c))
    ensures EncodeValue(ArrVal(vs), Array(lengthSize, c)).Ok?
    ensures var e := EncodeValue(ArrVal(vs), Array(lengthSize, c)).value;
      st.Read(|e|) == e ==>
        DecodeValue(Array(lengthSize, c), st) == Ok(Decoded(ArrVal(CanonElems(vs, c)), st.Skip(|e|)))
    decreases Array(lengthSize, c), 0, 0
  {
    var n := |vs|;
    SkipPos(st, lengthSize);
    RoundTripElems(vs, c, n, st.Skip(lengthSize));
    var count, body := ToBits(n, lengthSize), EncodeElems(vs, c, n).value;
    assert EncodeValue(ArrVal(vs), Array(lengthSize, c)).value == count + body;
    if st.Read(|count + body|) == count + body {
      ReadTwo(st, count, body);
      FromBitsToBits(n, lengthSize);
      assert CanonElems(vs, c)[..n] == CanonElems(vs, c);
      assert DecodeElems(c, st.Skip(lengthSize), n) == Ok(Decoded(ArrVal(CanonElems(vs, c)), st.Skip(|count + body|)));
    }
  }

  /** The first `k` encoded elements decode back to the canonical forms of the first `k` elements. */
  lemma {:induction false} RoundTripElems(vs: seq<Value>, c: Schema, k: nat, st: State)
    requires k <= |vs| && WellFormed(c) && st.Valid()
    requires forall i :: 0 <= i < |vs| ==> Encodable(vs[i], c)
    requires forall i :: 0 <= i < |vs| ==> Conforms(CanonElems(vs, c)[i], c)
    ensures EncodeElems(vs, c, k).Ok?
    ensures var e := EncodeElems(vs, c, k).value;
      st.Read(|e|) == e ==> DecodeElems(c, st, k) == Ok(Decoded(ArrVal(CanonElems(vs, c)[..k]), st.Skip(|e|)))
    decreases c, 2, k
  {
    if k == 0 {
      SkipZero(st);
    } else {
      RoundTripElems(vs, c, k - 1, st);
      var front := EncodeElems(vs, c, k - 1).value;
      SkipPos(st, |front|);
      assert CanonElems(vs, c)[k - 1] == Canon(vs[k - 1], c);
      RoundTrip(vs[k - 1], c, st.Skip(|front|));
      var last := EncodeValue(vs[k - 1], c).value;
      assert EncodeElems(vs, c, k).value == front + last;
      ElemsStep(CanonElems(vs, c), c, k, st, front, last);
    }
  }

  /** One more element decoded after the ones before it. */
  lemma ElemsStep(vs: seq<Value>, c: Schema, k: nat, st: State, front: seq<bool>, last: seq<bool>)
    requires 0 < k <= |vs|
    requires st.Read(|front|) == front ==>
      DecodeElems(c, st, k - 1) == Ok(Decoded(ArrVal(vs[..k - 1]), st.Skip(|front|)))
    requires st.Skip(|front|).Read(|last|) == last ==>
      DecodeValue(c, st.Skip(|front|)) == Ok(Decoded(vs[k - 1], st.Skip(|front|).Skip(|last|)))
    ensures st.Read(|front + last|) == front + last ==>
      DecodeElems(c, st, k) == Ok(Decoded(ArrVal(vs[..k]), st.Skip(|front + last|)))
  {
    if st.Read(|front + last|) == front + last {
      ReadTwo(st, front, last);
      var mid := st.Skip(|front|);
      assert DecodeElems(c, st, k - 1) == Ok(Decoded(ArrVal(vs[..k - 1]), mid));
      assert DecodeValue(c, mid) == Ok(Decoded(vs[k - 1], st.Skip(|front + last|)));
      TakeSnoc(vs, k);
    }
  }

  /** The first `k` encoded fields, each read from the object by its name, decode back to the
      first `k` fields of the canonical object, in schema order. */
  lemma {:induction false} RoundTripFields(entries: seq<Entry>, fields: seq<Field>, k: nat, st: State)
    requires k <= |fields| && WellFormed(Object(fields)) && st.Valid()
    requires Encodable(ObjVal(entries), Object(fields))
    requires Conforms(ObjVal(CanonFields(entries, fields)), Object(fields))
    ensures EncodeFields(entries, fields, k).Ok?
    ensures var e := EncodeFields(entries, fields, k).value;
      st.Read(|e|) == e ==>
        DecodeFields(fields, st, k) == Ok(Decoded(ObjVal(CanonFields(entries, fields)[..k]), st.Skip(|e|)))
    decreases Object(fields), 0, k
  {
    if k == 0 {
      SkipZero(st);
    } else {
      RoundTripFields(entries, fields, k - 1, st);
      var canon := CanonFields(entries, fields);
      var schema, value := fields[k - 1].schema, Lookup(entries, fields[k - 1].name).value;
      assert canon[k - 1].value == Canon(value, schema);
      assert WellFormed(schema) && Encodable(value, schema) && Conforms(Canon(value, schema), schema);
      var front := EncodeFields(entries, fields, k - 1).value;
      var mid := st.Skip(|front|);
      SkipPos(st, |front|);
      RoundTrip(value, schema, mid);
      var last := EncodeValue(value, schema).value;
      EncodeFieldsSnoc(entries, fields, k, value);
      FieldsStep(canon, fields, k, st, front, last);
    }
  }

  /** The bits of one more field follow the bits of the fields before it. */
  lemma EncodeFieldsSnoc(entries: seq<Entry>, fields: seq<Field>, k: nat, value: Value)
    requires 0 < k <= |fields| && Encodable(ObjVal(entries), Object(fields))
    requires Lookup(entries, fields[k - 1].name) == Some(value)
    requires EncodeFields(entries, fields, k - 1).Ok? && EncodeValue(value, fields[k - 1].schema).Ok?
    ensures EncodeFields(entries, fields, k)
      == Ok(EncodeFields(entries, fields, k - 1).value + EncodeValue(value, fields[k - 1].schema).value)
  {
  }

  /** One more field decoded after the ones before it. */
  lemma FieldsStep(entries: seq<Entry>, fields: seq<Field>, k: nat, st: State, front: seq<bool>, last: seq<bool>)
    requires 0 < k <= |fields| && k <= |entries| && entries[k - 1].key == fields[k - 1].name
    requires st.Read(|front|) == front ==>
      DecodeFields(fields, st, k - 1) == Ok(Decoded(ObjVal(entries[..k - 1]), st.Skip(|front|)))
    requires st.Skip(|front|).Read(|last|) == last ==>
      DecodeValue(fields[k - 1].schema, st.Skip(|front|))
        == Ok(Decoded(entries[k - 1].value, st.Skip(|front|).Skip(|last|)))
    ensures st.Read(|front + last|) == front + last ==>
      DecodeFields(fields, st, k) == Ok(Decoded(ObjVal(entries[..k]), st.Skip(|front + last|)))
  {
    if st.Read(|front + last|) == front + last {
      ReadTwo(st, front, last);
      var mid := st.Skip(|front|);
      assert DecodeFields(fields, st, k - 1) == Ok(Decoded(ObjVal(entries[..k - 1]), mid));
      assert DecodeValue(fields[k - 1].schema, mid) == Ok(Decoded(entries[k - 1].value, st.Skip(|front + last|)));
      assert entries[k - 1] == Entry(fields[k - 1].name, entries[k - 1].value);
      TakeSnoc(entries, k);
    }
  }

  /** A UINT field keeps only the low `size` bits of its number: decoding gives `v mod 2^size`. */
  lemma UIntTruncates(v: int, size: nat, st: State)
    requires st.Read(size) == EncodeValue(IntVal(v), UInt(size)).value
    ensures DecodeValue(UInt(size), st) == Ok(Decoded(IntVal(v % Pow2(size)), st.Skip(size)))
  {
    MaskIsMod(v, size);
  }
}
