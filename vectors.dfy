/** The binary message of the codec's test suite: event 51, uncompressed, packed against the test
    schema. Its 271 bits are laid out field by field, and the 34 body bytes that follow the header
    0xCC are exactly those bits completed with one zero bit. */
module Vectors {
  import opened Bits
  import opened Schemas
  import opened Wire
  import opened Headers
  import opened Envelope

  const TestEvent: int := 51

  /** `'test 😀😁test'` as UTF-8: 17 bytes for 11 characters. */
  const TestText: seq<Byte> :=
    [0x74, 0x65, 0x73, 0x74, 0x20, 0xf0, 0x9f, 0x98, 0x80, 0xf0, 0x9f, 0x98, 0x81, 0x74, 0x65, 0x73, 0x74]

  /** `'pong'` as UTF-8. */
  const Pong: seq<Byte> := [0x70, 0x6f, 0x6e, 0x67]

  const PingSchema := Object([Field("ping", String(6))])

  /** The schema registered for the test event, fields in declaration order. */
  const TestSchema := Object([
    Field("number", Int(12)),
    Field("string", String(7)),
    Field("object", PingSchema),
    Field("array", Array(7, UInt(17))),
    Field("nothing", UInt(1)),
    Field("bool", Bool)])

  const TestArray: seq<Value> := [IntVal(1), IntVal(3), IntVal(17), IntVal(1234)]

  /** The payload the test decodes from the binary message. */
  const TestData := ObjVal([
    Entry("number", IntVal(-999)),
    Entry("string", StrVal(TestText)),
    Entry("object", ObjVal([Entry("ping", StrVal(Pong))])),
    Entry("array", ArrVal(TestArray)),
    Entry("nothing", IntVal(0)),
    Entry("bool", BoolVal(true))])

  /** Byte `i` of the body of the test's binary message, which follows its header byte 0xCC. */
  function BodyByte(i: int): Byte
  {
    match i
    case 0 => 0x9f
    case 1 => 0x39
    case 2 => 0x17
    case 3 => 0x46
    case 4 => 0x57
    case 5 => 0x37
    case 6 => 0x42
    case 7 => 0x0f
    case 8 => 0x09
    case 9 => 0xf9
    case 10 => 0x88
    case 11 => 0x0f
    case 12 => 0x09
    case 13 => 0xf9
    case 14 => 0x88
    case 15 => 0x17
    case 16 => 0x46
    case 17 => 0x57
    case 18 => 0x37
    case 19 => 0x41
    case 20 => 0x1c
    case 21 => 0x1b
    case 22 => 0xdb
    case 23 => 0x99
    case 24 => 0xc2
    case 25 => 0x00
    case 26 => 0x00
    case 27 => 0x40
    case 28 => 0x00
    case 29 => 0x60
    case 30 => 0x01
    case 31 => 0x10
    case 32 => 0x26
    case 33 => 0x92
    case _ => 0
  }

  /** The 34 body bytes of the test's binary message. */
  const TestBody: seq<Byte> := seq(34, i => BodyByte(i))

  // ---- The payload's bits, one constant per field ----

  /** Sign bit 1 (negative), then the magnitude 999 in 12 bits. */
  const NumberBits: seq<bool> := [true] + ToBits(999, 12)
  /** The byte count 17 in 7 bits, then the 17 bytes. */
  const StringBits: seq<bool> := ToBits(17, 7) + BitsOf(TestText)
  /** The one field `ping`: the byte count 4 in 6 bits, then the 4 bytes. */
  const ObjectBits: seq<bool> := ToBits(4, 6) + BitsOf(Pong)
  /** The four elements, 17 bits each. */
  const ElemBits: seq<bool> := ToBits(1, 17) + ToBits(3, 17) + ToBits(17, 17) + ToBits(1234, 17)
  /** The element count 4 in 7 bits, then the elements. */
  const ArrayBits: seq<bool> := ToBits(4, 7) + ElemBits
  /** The field `nothing`: UINT(1) holding 0. */
  const NothingBits: seq<bool> := ToBits(0, 1)
  const BoolBits: seq<bool> := [true]

  /** The 271 bits of the payload, fields in schema order with nothing between them. */
  const TestBits: seq<bool> := NumberBits + StringBits + ObjectBits + ArrayBits + NothingBits + BoolBits

  // ---- Reading a buffer's bits through a three-byte window ----

  lemma Pow2Table()
    ensures Pow2(1) == 2 && Pow2(2) == 4 && Pow2(3) == 8 && Pow2(4) == 16 && Pow2(5) == 32 && Pow2(6) == 64 && Pow2(7) == 128 && Pow2(8) == 256 && Pow2(9) == 512 && Pow2(10) == 1024 && Pow2(11) == 2048 && Pow2(12) == 4096 && Pow2(13) == 8192 && Pow2(14) == 16384 && Pow2(15) == 32768 && Pow2(16) == 65536 && Pow2(17) == 131072 && Pow2(18) == 262144 && Pow2(19) == 524288 && Pow2(20) == 1048576 && Pow2(21) == 2097152 && Pow2(22) == 4194304 && Pow2(23) == 8388608 && Pow2(24) == 16777216
  {
    assert Pow2(1) == 2;
    assert Pow2(2) == 4;
    assert Pow2(3) == 8;
    assert Pow2(4) == 16;
    assert Pow2(5) == 32;
    assert Pow2(6) == 64;
    assert Pow2(7) == 128;
    assert Pow2(8) == 256;
    assert Pow2(9) == 512;
    assert Pow2(10) == 1024;
    assert Pow2(11) == 2048;
    assert Pow2(12) == 4096;
    assert Pow2(13) == 8192;
    assert Pow2(14) == 16384;
    assert Pow2(15) == 32768;
    assert Pow2(16) == 65536;
    assert Pow2(17) == 131072;
    assert Pow2(18) == 262144;
    assert Pow2(19) == 524288;
    assert Pow2(20) == 1048576;
    assert Pow2(21) == 2097152;
    assert Pow2(22) == 4194304;
    assert Pow2(23) == 8388608;
    assert Pow2(24) == 16777216;
  }

  /** The three bytes from index `i` on as one 24-bit number, bytes past the end reading as 0. */
  function Window(bytes: seq<Byte>, i: nat): nat
  {
    ByteAt(bytes, i) * 65536 + ByteAt(bytes, i + 1) * 256 + ByteAt(bytes, i + 2)
  }

  /** The eight stream bits of byte `i` (zeros past the end of the buffer). */
  lemma ByteBits(bytes: seq<Byte>, i: nat)
    ensures ReadN(BitsOf(bytes), 8 * i, 8) == ToBits(ByteAt(bytes, i), 8)
  {
    ReadWithinByte(bytes, i, 0, 8);
    assert ToBits(ByteAt(bytes, i), 8)[0..8] == ToBits(ByteAt(bytes, i), 8);
  }

  /** `n` bits spelling `a` followed by the eight bits of `c` spell `a * 256 + c`. */
  lemma AppendByteBits(bits: seq<bool>, p: nat, n: nat, a: nat, c: Byte)
    requires ReadN(bits, p, n) == ToBits(a, n) && ReadN(bits, p + n, 8) == ToBits(c, 8)
    ensures ReadN(bits, p, n + 8) == ToBits(a * 256 + c, n + 8)
  {
    ReadNAppend(bits, p, n, 8);
    ShlIsMul(a, 8);
    assert Pow2(8) == 256;
    ToBitsConcat(a, 8, c, n + 8);
  }

  /** The 24 stream bits from byte `i` on spell the window. */
  lemma WindowBits(bytes: seq<Byte>, i: nat)
    ensures ReadN(BitsOf(bytes), 8 * i, 24) == ToBits(Window(bytes, i), 24)
  {
    var bits := BitsOf(bytes);
    ByteBits(bytes, i);
    ByteBits(bytes, i + 1);
    ByteBits(bytes, i + 2);
    assert 8 * (i + 1) == 8 * i + 8 && 8 * (i + 2) == 8 * i + 16;
    AppendByteBits(bits, 8 * i, 8, ByteAt(bytes, i), ByteAt(bytes, i + 1));
    AppendByteBits(bits, 8 * i, 16, ByteAt(bytes, i) * 256 + ByteAt(bytes, i + 1), ByteAt(bytes, i + 2));
  }

  /** The bits of `x` depend only on `x` modulo 2^w. */
  lemma ToBitsMod(x: int, w: nat)
    ensures ToBits(x, w) == ToBits(x % Pow2(w), w)
  {
    MaskIsMod(x, w);
    ToBitsFromBits(ToBits(x, w));
  }

  /** `w` bits at bit `b` of byte `i` read as the number the window holds there: the window
      shifted right past the bits after them, modulo 2^w. */
  lemma ReadAt(bytes: seq<Byte>, i: nat, b: nat, w: nat, x: nat)
    requires b + w <= 24 && x == Window(bytes, i) / Pow2(24 - b - w) % Pow2(w)
    ensures ReadN(BitsOf(bytes), 8 * i + b, w) == ToBits(x, w)
  {
    var win, k := Window(bytes, i), 24 - b - w;
    WindowBits(bytes, i);
    MiddleBits(BitsOf(bytes), 8 * i, win, b, w, k);
    ShrIsDiv(win, k);
    ToBitsMod(win / Pow2(k), w);
  }

  /** Within a stretch spelling `win`, the `w` bits after the first `b` spell `win` shifted right
      past the last `k`. */
  lemma MiddleBits(bits: seq<bool>, p: nat, win: int, b: nat, w: nat, k: nat)
    requires ReadN(bits, p, b + w + k) == ToBits(win, b + w + k)
    ensures ReadN(bits, p + b, w) == ToBits(Shr(win, k), w)
  {
    ReadNAppend(bits, p, b, w + k);
    ReadNAppend(bits, p + b, w, k);
    ToBitsSplit(win, b + w, k);
    ToBitsSplit(Shr(win, k), b, w);
    ConcatAssoc(ReadN(bits, p, b), ReadN(bits, p + b, w), ReadN(bits, p + b + w, k));
    MiddleSlice(ReadN(bits, p, b), ReadN(bits, p + b, w), ReadN(bits, p + b + w, k));
    MiddleSlice(ToBits(Shr(Shr(win, k), w), b), ToBits(Shr(win, k), w), ToBits(win, k));
  }

  /** Two stretches that lie one after the other read as their concatenation. */
  lemma ReadConcat(bits: seq<bool>, p: nat, a: seq<bool>, b: seq<bool>)
    requires ReadN(bits, p, |a|) == a && ReadN(bits, p + |a|, |b|) == b
    ensures ReadN(bits, p, |a + b|) == a + b
  {
    ReadNAppend(bits, p, |a|, |b|);
  }

  /** The first `k` of some bytes, each read eight bits at a time from `p` on, read as their bit
      stream. */
  lemma {:induction false} ReadBytesBits(bits: seq<bool>, p: nat, bytes: seq<Byte>, k: nat)
    requires k <= |bytes|
    requires forall j :: 0 <= j < |bytes| ==> ReadN(bits, p + 8 * j, 8) == ToBits(bytes[j], 8)
    ensures ReadN(bits, p, 8 * k) == BitsOf(bytes[..k])
    decreases k
  {
    if k == 0 {
      assert ReadN(bits, p, 0) == [];
    } else {
      ReadBytesBits(bits, p, bytes, k - 1);
      assert bytes[..k][..k - 1] == bytes[..k - 1];
      assert BitsOf(bytes[..k]) == BitsOf(bytes[..k - 1]) + ToBits(bytes[k - 1], 8);
      ReadNAppend(bits, p, 8 * (k - 1), 8);
    }
  }

  // ---- The test body, field by field ----

  lemma NumberAt()
    ensures ReadN(BitsOf(TestBody), 0, 13) == NumberBits
  {
    Pow2Table();
    ReadAt(TestBody, 0, 0, 1, 1);
    ReadAt(TestBody, 0, 1, 12, 999);
    assert ToBits(1, 1) == [true];
    ReadConcat(BitsOf(TestBody), 0, [true], ToBits(999, 12));
  }

  /** Eight bits from bit 4 of byte `i`: the low half of byte `i`, then the high half of byte
      `i + 1`. */
  lemma ReadShifted(bytes: seq<Byte>, i: nat, x: nat)
    requires x == ByteAt(bytes, i) % 16 * 16 + ByteAt(bytes, i + 1) / 16
    ensures ReadN(BitsOf(bytes), 8 * i + 4, 8) == ToBits(x, 8)
  {
    var b0: nat, b1: nat, b2: nat := ByteAt(bytes, i), ByteAt(bytes, i + 1), ByteAt(bytes, i + 2);
    var q: nat := b0 * 16 + b1 / 16;
    DivModUnique(Window(bytes, i), 4096, q, b1 % 16 * 256 + b2);
    DivModUnique(q, 256, b0 / 16, x);
    assert Pow2(8) == 256 && Pow2(12) == 4096;
    ReadAt(bytes, i, 4, 8, x);
  }

  /** The string's bytes start at bit 4 of body byte 2, so each straddles two body bytes. */
  lemma TextBytes0(j: nat)
    requires 0 <= j < 4
    ensures ReadN(BitsOf(TestBody), 20 + 8 * j, 8) == ToBits(TestText[j], 8)
  {
    if j == 0 {
      ReadShifted(TestBody, 2, 0x74);
    } else if j == 1 {
      ReadShifted(TestBody, 3, 0x65);
    } else if j == 2 {
      ReadShifted(TestBody, 4, 0x73);
    } else {
      ReadShifted(TestBody, 5, 0x74);
    }
  }

  lemma TextBytes1(j: nat)
    requires 4 <= j < 8
    ensures ReadN(BitsOf(TestBody), 20 + 8 * j, 8) == ToBits(TestText[j], 8)
  {
    if j == 4 {
      ReadShifted(TestBody, 6, 0x20);
    } else if j == 5 {
      ReadShifted(TestBody, 7, 0xf0);
    } else if j == 6 {
      ReadShifted(TestBody, 8, 0x9f);
    } else {
      ReadShifted(TestBody, 9, 0x98);
    }
  }

  lemma TextBytes2(j: nat)
    requires 8 <= j < 12
    ensures ReadN(BitsOf(TestBody), 20 + 8 * j, 8) == ToBits(TestText[j], 8)
  {
    if j == 8 {
      ReadShifted(TestBody, 10, 0x80);
    } else if j == 9 {
      ReadShifted(TestBody, 11, 0xf0);
    } else if j == 10 {
      ReadShifted(TestBody, 12, 0x9f);
    } else {
      ReadShifted(TestBody, 13, 0x98);
    }
  }

  lemma TextBytes3(j: nat)
    requires 12 <= j < 17
    ensures ReadN(BitsOf(TestBody), 20 + 8 * j, 8) == ToBits(TestText[j], 8)
  {
    if j == 12 {
      ReadShifted(TestBody, 14, 0x81);
    } else if j == 13 {
      ReadShifted(TestBody, 15, 0x74);
    } else if j == 14 {
      ReadShifted(TestBody, 16, 0x65);
    } else if j == 15 {
      ReadShifted(TestBody, 17, 0x73);
    } else {
      ReadShifted(TestBody, 18, 0x74);
    }
  }

  lemma TextAt()
    ensures ReadN(BitsOf(TestBody), 20, 136) == BitsOf(TestText)
  {
    forall j | 0 <= j < |TestText| ensures ReadN(BitsOf(TestBody), 20 + 8 * j, 8) == ToBits(TestText[j], 8) {
      if j < 4 {
        TextBytes0(j);
      } else if j < 8 {
        TextBytes1(j);
      } else if j < 12 {
        TextBytes2(j);
      } else {
        TextBytes3(j);
      }
    }
    ReadBytesBits(BitsOf(TestBody), 20, TestText, 17);
    assert TestText[..17] == TestText;
  }

  lemma StringAt()
    ensures ReadN(BitsOf(TestBody), 13, 143) == StringBits
  {
    Pow2Table();
    ReadAt(TestBody, 1, 5, 7, 17);
    TextAt();
    ReadConcat(BitsOf(TestBody), 13, ToBits(17, 7), BitsOf(TestText));
  }

  /** The bytes of `'pong'` start at bit 2 of body byte 20. */
  lemma PongAt()
    ensures ReadN(BitsOf(TestBody), 162, 32) == BitsOf(Pong)
  {
    forall j | 0 <= j < |Pong| ensures ReadN(BitsOf(TestBody), 162 + 8 * j, 8) == ToBits(Pong[j], 8) {
      Pow2Table();
    if j == 0 {
      ReadAt(TestBody, 20, 2, 8, 0x70);
    } else if j == 1 {
      ReadAt(TestBody, 21, 2, 8, 0x6f);
    } else if j == 2 {
      ReadAt(TestBody, 22, 2, 8, 0x6e);
    } else {
      ReadAt(TestBody, 23, 2, 8, 0x67);
    }
    }
    ReadBytesBits(BitsOf(TestBody), 162, Pong, 4);
    assert Pong[..4] == Pong;
  }

  lemma ObjectAt()
    ensures ReadN(BitsOf(TestBody), 156, 38) == ObjectBits
  {
    Pow2Table();
    ReadAt(TestBody, 19, 4, 6, 4);
    PongAt();
    ReadConcat(BitsOf(TestBody), 156, ToBits(4, 6), BitsOf(Pong));
  }

  lemma ArrayAt()
    ensures ReadN(BitsOf(TestBody), 194, 75) == ArrayBits
  {
    Pow2Table();
    var bits := BitsOf(TestBody);
    ReadAt(TestBody, 24, 2, 7, 4);
    ReadAt(TestBody, 25, 1, 17, 1);
    ReadAt(TestBody, 27, 2, 17, 3);
    ReadAt(TestBody, 29, 3, 17, 17);
    ReadAt(TestBody, 31, 4, 17, 1234);
    ReadConcat(bits, 201, ToBits(1, 17), ToBits(3, 17));
    ReadConcat(bits, 201, ToBits(1, 17) + ToBits(3, 17), ToBits(17, 17));
    ReadConcat(bits, 201, ToBits(1, 17) + ToBits(3, 17) + ToBits(17, 17), ToBits(1234, 17));
    ReadConcat(bits, 194, ToBits(4, 7), ElemBits);
  }

  /** The last three bits of the body: `nothing`, `bool` and one bit of zero padding. */
  lemma TailAt()
    ensures ReadN(BitsOf(TestBody), 269, 1) == NothingBits
    ensures ReadN(BitsOf(TestBody), 270, 1) == BoolBits
    ensures ReadN(BitsOf(TestBody), 271, 1) == [false]
  {
    Pow2Table();
    ReadAt(TestBody, 33, 5, 1, 0);
    ReadAt(TestBody, 33, 6, 1, 1);
    ReadAt(TestBody, 33, 7, 1, 0);
    assert ToBits(1, 1) == [true] && ToBits(0, 1) == [false];
  }

  /** The test body is the 271 payload bits followed by one zero bit of padding. */
  lemma TestBodyBits()
    ensures |TestBits| == 271
    ensures ReadN(BitsOf(TestBody), 0, 271) == TestBits
    ensures BitsOf(TestBody) == TestBits + [false]
  {
    var bits := BitsOf(TestBody);
    NumberAt();
    StringAt();
    ObjectAt();
    ArrayAt();
    TailAt();
    ReadConcat(bits, 0, NumberBits, StringBits);
    ReadConcat(bits, 0, NumberBits + StringBits, ObjectBits);
    ReadConcat(bits, 0, NumberBits + StringBits + ObjectBits, ArrayBits);
    ReadConcat(bits, 0, NumberBits + StringBits + ObjectBits + ArrayBits, NothingBits);
    ReadConcat(bits, 0, NumberBits + StringBits + ObjectBits + ArrayBits + NothingBits, BoolBits);
    ReadConcat(bits, 0, TestBits, [false]);
    assert ReadN(bits, 0, |bits|) == bits;
  }

  // ---- The encoder's side ----

  lemma TestNamesDistinct()
    ensures DistinctNames(TestSchema.fields)
  {
  }

  /** The test payload conforms to the test schema. */
  lemma TestDataConforms()
    ensures WellFormed(TestSchema) && Conforms(TestData, TestSchema)
  {
    Pow2Table();
    TestNamesDistinct();
    assert WellFormed(PingSchema) && Conforms(ObjVal([Entry("ping", StrVal(Pong))]), PingSchema);
    assert Conforms(ArrVal(TestArray), Array(7, UInt(17)));
  }

  /** Each field of the test payload is written as its bits above. */
  lemma FieldEncodings()
    ensures EncodeValue(IntVal(-999), Int(12)) == Ok(NumberBits)
    ensures EncodeValue(StrVal(TestText), String(7)) == Ok(StringBits)
    ensures EncodeValue(ArrVal(TestArray), Array(7, UInt(17))) == Ok(ArrayBits)
    ensures EncodeValue(IntVal(0), UInt(1)) == Ok(NothingBits)
    ensures EncodeValue(BoolVal(true), Bool) == Ok(BoolBits)
  {
    assert EncodeElems(TestArray, UInt(17), 1) == Ok([] + ToBits(1, 17));
    assert [] + ToBits(1, 17) == ToBits(1, 17);
    assert EncodeElems(TestArray, UInt(17), 2) == Ok(ToBits(1, 17) + ToBits(3, 17));
    assert EncodeElems(TestArray, UInt(17), 3) == Ok(ToBits(1, 17) + ToBits(3, 17) + ToBits(17, 17));
    assert EncodeElems(TestArray, UInt(17), 4) == Ok(ElemBits);
  }

  /** Each field of the test schema finds its value in the test payload. */
  lemma TestLookups()
    ensures Encodable(TestData, TestSchema)
    ensures Lookup(TestData.entries, "number") == Some(IntVal(-999))
    ensures Lookup(TestData.entries, "string") == Some(StrVal(TestText))
    ensures Lookup(TestData.entries, "object") == Some(ObjVal([Entry("ping", StrVal(Pong))]))
    ensures Lookup(TestData.entries, "array") == Some(ArrVal(TestArray))
    ensures Lookup(TestData.entries, "nothing") == Some(IntVal(0))
    ensures Lookup(TestData.entries, "bool") == Some(BoolVal(true))
  {
    TestDataConforms();
    ConformsEncodable(TestData, TestSchema);
    LookupAt(TestData.entries, TestSchema.fields, 0);
    LookupAt(TestData.entries, TestSchema.fields, 1);
    LookupAt(TestData.entries, TestSchema.fields, 2);
    LookupAt(TestData.entries, TestSchema.fields, 3);
    LookupAt(TestData.entries, TestSchema.fields, 4);
    LookupAt(TestData.entries, TestSchema.fields, 5);
  }

  /** The first two fields: `number` and `string`. */
  /** The nested object { ping: 'pong' } is its one string field. */
  lemma PingEncodes()
    ensures EncodeValue(ObjVal([Entry("ping", StrVal(Pong))]), PingSchema) == Ok(ObjectBits)
  {
    assert [] + ObjectBits == ObjectBits;
  }

  lemma TestFirstEncodes()
    ensures Encodable(TestData, TestSchema)
    ensures EncodeFields(TestData.entries, TestSchema.fields, 2) == Ok(NumberBits + StringBits)
  {
    TestLookups();
    FieldEncodings();
    assert EncodeFields(TestData.entries, TestSchema.fields, 1) == Ok([] + NumberBits);
    assert [] + NumberBits == NumberBits;
  }

  /** The first three fields: `number`, `string` and `object`. */
  lemma TestFrontEncodes()
    ensures Encodable(TestData, TestSchema)
    ensures EncodeFields(TestData.entries, TestSchema.fields, 3) == Ok(NumberBits + StringBits + ObjectBits)
  {
    TestLookups();
    PingEncodes();
    TestFirstEncodes();
  }

  /** The encoder writes the test payload as the bits laid out above, field by field. */
  lemma TestDataEncodes()
    ensures Encodable(TestData, TestSchema) && EncodeValue(TestData, TestSchema) == Ok(TestBits)
  {
    TestLookups();
    FieldEncodings();
    TestFrontEncodes();
    assert EncodeFields(TestData.entries, TestSchema.fields, 4)
      == Ok(NumberBits + StringBits + ObjectBits + ArrayBits);
    assert EncodeFields(TestData.entries, TestSchema.fields, 5)
      == Ok(NumberBits + StringBits + ObjectBits + ArrayBits + NothingBits);
  }

  /** The packed body of the test payload is the test's 34 body bytes. */
  lemma TestBodyPacked()
    ensures PackBits(TestBits) == TestBody
    ensures |TestBody| == (|TestBits| + 7) / 8
  {
    TestBodyBits();
    PackBitsBits(TestBits);
    assert Zeros(Pad(271)) == [false];
    BitsOfInjective(PackBits(TestBits), TestBody);
  }

  // ---- The whole message ----

  /** Encoding the test payload for event 51, packed and uncompressed, gives the header 0xCC and
      then the test body. */
  lemma BinaryVectorEncodes(schemas: map<int, Schema>, ext: Externals)
    requires TestEvent in schemas && schemas[TestEvent] == TestSchema
    ensures Admissible(Payload(TestEvent, TestData), false, schemas)
    ensures EncodeMessage(Payload(TestEvent, TestData), Options(Fixed(false), false), schemas, ext)
      == Ok([0xCC] + TestBody)
  {
    TestDataEncodes();
    TestBodyPacked();
    HeaderVectors();
  }

  /** Decoding the test's binary message gives event 51 and the test payload. */
  lemma BinaryVectorDecodes(schemas: map<int, Schema>, ext: Externals)
    requires TestEvent in schemas && schemas[TestEvent] == TestSchema
    ensures DecodeMessage([0xCC] + TestBody, schemas, ext) == Ok(Payload(TestEvent, TestData))
  {
    TestDataConforms();
    TestDataEncodes();
    TestBodyBits();
    var st := State(TestBody, 0, 0);
    assert st.Read(271) == TestBits;
    CanonOfConforming(TestData, TestSchema);
    RoundTrip(TestData, TestSchema, st);
    HeaderVectors();
    assert ([0xCC] + TestBody)[1..] == TestBody;
  }

  /** The first two body bytes 0x9F 0x39 hold the number field whatever follows: the sign bit 1
      and the magnitude 999 decode to -999, and the cursor stops at bit 5 of byte 1, where the
      string's length 17 starts. */
  lemma NumberPrefix(rest: seq<Byte>)
    ensures var st := State([0x9F, 0x39] + rest, 0, 0);
      DecodeValue(Int(12), st) == Ok(Decoded(IntVal(-999), State(st.bytes, 1, 5)))
  {
    var bytes := [0x9F, 0x39] + rest;
    var st := State(bytes, 0, 0);
    Pow2Table();
    assert Window(bytes, 0) == 0x9F3900 + ByteAt(bytes, 2);
    ReadAt(bytes, 0, 0, 1, 1);
    ReadAt(bytes, 0, 1, 12, 999);
    assert ToBits(1, 1) == [true];
    FromBitsToBits(999, 12);
    assert st.Skip(1).Read(12) == ToBits(999, 12);
  }
}
