/** The encoder as the source runs it: a writer holding the growing byte array and a cursor, whose
    steps OR bits into the current byte and start every fresh byte at 0. Each step is proved to
    append exactly the bits the bit-stream encoding prescribes, and the bytes always hold the bits
    written so far followed by zero padding. */
module Encoder {
  import opened Bits
  import opened Schemas
  import opened Wire
  import opened Headers
  import opened Envelope
  import opened Registries

  /** `bytes[i] = b` on a JavaScript array whose length is `i` or more. */
  function Store(bytes: seq<Byte>, i: nat, b: Byte): (r: seq<Byte>)
    requires i <= |bytes|
    ensures |r| == if i < |bytes| then |bytes| else i + 1
    ensures r[i] == b && forall j :: 0 <= j < |r| && j != i ==> r[j] == bytes[j]
  {
    if i < |bytes| then bytes[i := b] else bytes + [b]
  }

  // ---- The writer's frontier ----

  /** Bytes holding `written` and then zero padding: one byte per started group of eight bits;
      the complete bytes hold the complete groups, and the last started byte holds the rest
      followed by zeros. */
  lemma Frontier(bytes: seq<Byte>, written: seq<bool>)
    requires BitsOf(bytes) == written + Zeros(Pad(|written|))
    ensures |bytes| == |written| / 8 + (if |written| % 8 == 0 then 0 else 1)
    ensures BitsOf(bytes[..|written| / 8]) == written[..8 * (|written| / 8)]
    ensures ToBits(ByteAt(bytes, |written| / 8), 8)
            == written[8 * (|written| / 8)..] + Zeros(8 - |written| % 8)
  {
    var i, b := |written| / 8, |written| % 8;
    if b == 0 {
      FrontierAligned(bytes, written, i);
    } else {
      FrontierPartial(bytes, written, i, b);
    }
  }

  lemma FrontierAligned(bytes: seq<Byte>, written: seq<bool>, i: nat)
    requires |written| == 8 * i && BitsOf(bytes) == written
    ensures |bytes| == i && BitsOf(bytes[..i]) == written[..8 * i]
    ensures ToBits(ByteAt(bytes, i), 8) == written[8 * i..] + Zeros(8)
  {
    assert bytes[..i] == bytes;
    ToBitsZero(8);
  }

  lemma FrontierPartial(bytes: seq<Byte>, written: seq<bool>, i: nat, b: nat)
    requires |written| == 8 * i + b && 0 < b < 8
    requires BitsOf(bytes) == written + Zeros(8 - b)
    ensures |bytes| == i + 1 && BitsOf(bytes[..i]) == written[..8 * i]
    ensures ToBits(ByteAt(bytes, i), 8) == written[8 * i..] + Zeros(8 - b)
  {
    assert |bytes| == i + 1;
    var front, last := BitsOf(bytes[..i]), ToBits(bytes[i], 8);
    assert BitsOf(bytes) == front + last;
    SplitConcat(front, last);
    SliceConcat(written, Zeros(8 - b), 8 * i);
  }

  /** A chunk `C` shifted to end `k` bits before the byte's end occupies bits `b .. b + |C|`. */
  lemma ChunkBits(c: seq<bool>, b: nat)
    requires b + |c| <= 8
    ensures Shl(FromBits(c), 8 - b - |c|) < 256
    ensures ToBits(Shl(FromBits(c), 8 - b - |c|), 8) == Zeros(b) + c + Zeros(8 - b - |c|)
  {
    var k, x := 8 - b - |c|, FromBits(c);
    ChunkBound(c, k);
    ShlZero(|c|);
    calc {
      ToBits(Shl(x, k), 8);
      { ToBitsShl(x, k, 8); }
      ToBits(x, b + |c|) + Zeros(k);
      { assert Shl(0, |c|) + x == x; ToBitsConcat(0, |c|, x, b + |c|); }
      (ToBits(0, b) + ToBits(x, |c|)) + Zeros(k);
      { ToBitsZero(b); ToBitsFromBits(c); }
      Zeros(b) + c + Zeros(k);
    }
  }

  /** A chunk shifted left stays inside the byte when it and the shift fit in eight bits. */
  lemma ChunkBound(c: seq<bool>, k: nat)
    requires |c| + k <= 8
    ensures Shl(FromBits(c), k) < 256
  {
    FromBitsZeros(k);
    FromBitsAppend(c, Zeros(k));
    assert Shl(FromBits(c), k) == FromBits(c + Zeros(k));
    Pow2Mono(|c| + k, 8);
    assert Pow2(8) == 256;
  }

  lemma FromBitsZeros(k: nat)
    ensures FromBits(Zeros(k)) == 0
  {
    ToBitsZero(k);
    FromBitsToBits(0, k);
  }

  lemma {:induction false} Pow2Mono(m: nat, n: nat)
    requires m <= n
    ensures Pow2(m) <= Pow2(n)
    decreases n
  {
    if m < n {
      Pow2Mono(m, n - 1);
    }
  }

  /** OR-ing a chunk into the frontier byte: the byte then holds the earlier bits, the chunk, and
      zeros. */
  lemma OrChunk(previous: Byte, front: seq<bool>, c: seq<bool>)
    requires |front| + |c| <= 8
    requires ToBits(previous, 8) == front + Zeros(8 - |front|)
    ensures BitOr(previous, Shl(FromBits(c), 8 - |front| - |c|)) < 256
    ensures ToBits(BitOr(previous, Shl(FromBits(c), 8 - |front| - |c|)), 8)
            == front + c + Zeros(8 - |front| - |c|)
  {
    var chunk := Shl(FromBits(c), 8 - |front| - |c|);
    ChunkBits(c, |front|);
    assert Pow2(8) == 256;
    BitOrBits(previous, chunk, 8);
    var want := front + c + Zeros(8 - |front| - |c|);
    var got := ToBits(BitOr(previous, chunk), 8);
    forall j | 0 <= j < 8 ensures got[j] == want[j] {
      assert got[j] == (ToBits(previous, 8)[j] || ToBits(chunk, 8)[j]);
      if j < |front| {
        assert ToBits(chunk, 8)[j] == Zeros(|front|)[j];
      } else if j < |front| + |c| {
        assert ToBits(previous, 8)[j] == Zeros(8 - |front|)[j - |front|];
        assert ToBits(chunk, 8)[j] == c[j - |front|];
      } else {
        assert ToBits(previous, 8)[j] == Zeros(8 - |front|)[j - |front|];
        assert ToBits(chunk, 8)[j] == Zeros(8 - |front| - |c|)[j - |front| - |c|];
      }
    }
  }

  /** Writing a chunk that fits in the frontier byte appends it to the stream the bytes hold. */
  lemma WriteChunk(bytes: seq<Byte>, written: seq<bool>, c: seq<bool>)
    requires BitsOf(bytes) == written + Zeros(Pad(|written|))
    requires 0 < |c| && |written| % 8 + |c| <= 8
    ensures |written| / 8 <= |bytes|
    ensures BitOr(ByteAt(bytes, |written| / 8), Shl(FromBits(c), 8 - |written| % 8 - |c|)) < 256
    ensures var nb := BitOr(ByteAt(bytes, |written| / 8), Shl(FromBits(c), 8 - |written| % 8 - |c|));
      BitsOf(Store(bytes, |written| / 8, nb)) == written + c + Zeros(Pad(|written + c|))
  {
    var i, b := |written| / 8, |written| % 8;
    Frontier(bytes, written);
    WriteChunkAt(bytes, written, c, i, b);
    PadAt(i, b + |c|);
    assert |written + c| == 8 * i + (b + |c|);
  }

  lemma WriteChunkAt(bytes: seq<Byte>, written: seq<bool>, c: seq<bool>, i: nat, b: nat)
    requires |written| == 8 * i + b && b + |c| <= 8
    requires i <= |bytes| && (i < |bytes| ==> i == |bytes| - 1)
    requires BitsOf(bytes[..i]) == written[..8 * i]
    requires ToBits(ByteAt(bytes, i), 8) == written[8 * i..] + Zeros(8 - b)
    ensures BitOr(ByteAt(bytes, i), Shl(FromBits(c), 8 - b - |c|)) < 256
    ensures var nb := BitOr(ByteAt(bytes, i), Shl(FromBits(c), 8 - b - |c|));
      BitsOf(Store(bytes, i, nb)) == written + c + Zeros(8 - b - |c|)
  {
    var front, k := written[8 * i..], 8 - b - |c|;
    OrChunk(ByteAt(bytes, i), front, c);
    var nb := BitOr(ByteAt(bytes, i), Shl(FromBits(c), k));
    calc {
      BitsOf(Store(bytes, i, nb));
      { assert Store(bytes, i, nb) == bytes[..i] + [nb]; BitsOfSnoc(bytes[..i], nb); }
      BitsOf(bytes[..i]) + ToBits(nb, 8);
      written[..8 * i] + ((front + c) + Zeros(k));
      { ConcatAssoc(written[..8 * i], front + c, Zeros(k)); ConcatAssoc(written[..8 * i], front, c); }
      ((written[..8 * i] + front) + c) + Zeros(k);
      { TakeDrop(written, 8 * i); }
      written + c + Zeros(k);
    }
  }

  lemma PadAt(i: nat, t: nat)
    requires 0 < t <= 8
    ensures Pad(8 * i + t) == 8 - t
  {
    if t == 8 {
      DivModUnique(8 * i + t, 8, i + 1, 0);
    } else {
      DivModUnique(8 * i + t, 8, i, t);
    }
  }

  /** `(offset >= 0 ? value >> offset : value << -offset) & MASKS[8 - b]`, with `remaining` bits
      left to write and `b` bits of the current byte taken, is the next `w` bits of the value
      placed right after those `b` bits. */
  lemma ChunkOfValue(value: int, remaining: nat, b: nat, offset: int)
    requires b < 8 && 0 < remaining && offset == remaining - (8 - b)
    ensures var w := if remaining >= 8 - b then 8 - b else remaining;
      Mask(if offset >= 0 then Shr(value, offset) else Shl(value, -offset), 8 - b)
        == Shl(FromBits(ToBits(Shr(value, remaining - w), w)), 8 - b - w)
  {
    if offset < 0 {
      var k := -offset;
      assert Shr(value, 0) == value;
      ToBitsShl(value, k, 8 - b);
      FromBitsAppend(ToBits(value, remaining), Zeros(k));
      FromBitsZeros(k);
    }
  }

  /** The bits written so far and the next chunk are the top bits of the value. */
  lemma AppendTopBits(value: int, r: nat, w: nat, size: nat)
    requires w <= r <= size
    ensures ToBits(Shr(value, r), size - r) + ToBits(Shr(value, r - w), w)
            == ToBits(Shr(value, r - w), size - (r - w))
  {
    ToBitsSplit(Shr(value, r - w), size - r, w);
    ShrAdd(value, r - w, w);
  }

  /** One step of `encodeUnsignedInt` at byte `i`, bit `b`: OR-ing a chunk of `c` into the
      frontier byte and storing it appends `c` to the stream, leaves the byte just written as the
      last one, and the byte after it unwritten. */
  lemma WriteStep(bytes: seq<Byte>, written: seq<bool>, c: seq<bool>, i: nat, b: nat)
    requires BitsOf(bytes) == written + Zeros(Pad(|written|))
    requires |written| == 8 * i + b && b < 8
    requires 0 < |c| && b + |c| <= 8
    ensures i <= |bytes|
    ensures BitOr(ByteAt(bytes, i), Shl(FromBits(c), 8 - b - |c|)) < 256
    ensures var nb := Store(bytes, i, BitOr(ByteAt(bytes, i), Shl(FromBits(c), 8 - b - |c|)));
      BitsOf(nb) == written + c + Zeros(Pad(|written + c|)) &&
      |nb| == i + 1 && ByteAt(nb, i) == nb[i] && ByteAt(nb, i + 1) == 0
  {
    DivModUnique(|written|, 8, i, b);
    Frontier(bytes, written);
    WriteChunk(bytes, written, c);
  }

  /** Appending the next chunk of the value to its top bits written so far. */
  lemma TopBitsStep(start: seq<bool>, value: int, r: nat, w: nat, size: nat)
    requires w <= r <= size
    ensures start + ToBits(Shr(value, r), size - r) + ToBits(Shr(value, r - w), w)
            == start + ToBits(Shr(value, r - w), size - (r - w))
  {
    AppendTopBits(value, r, w, size);
    ConcatAssoc(start, ToBits(Shr(value, r), size - r), ToBits(Shr(value, r - w), w));
  }

  /** The writer's invariant on plain values: the cursor points just after `written`, and the
      bytes hold exactly those bits followed by zero padding. */
  ghost predicate Framed(bytes: seq<Byte>, written: seq<bool>, currentByte: nat, currentBit: nat)
  {
    currentBit < 8 &&
    |written| == 8 * currentByte + currentBit &&
    BitsOf(bytes) == written + Zeros(Pad(|written|))
  }

  /** The writer's invariant after one step of `encodeUnsignedInt`: a chunk that completes the
      byte moves the cursor to the start of a fresh byte, a shorter one along the same byte. */
  lemma StepFramed(bytes: seq<Byte>, written: seq<bool>, c: seq<bool>, i: nat, b: nat)
    requires Framed(bytes, written, i, b)
    requires 0 < |c| && b + |c| <= 8
    ensures i <= |bytes| && BitOr(ByteAt(bytes, i), Shl(FromBits(c), 8 - b - |c|)) < 256
    ensures var byte := BitOr(ByteAt(bytes, i), Shl(FromBits(c), 8 - b - |c|));
      var nb := Store(bytes, i, byte);
      if b + |c| == 8 then Framed(nb, written + c, i + 1, 0) && ByteAt(nb, i + 1) == 0
      else Framed(nb, written + c, i, b + |c|) && ByteAt(nb, i) == byte
  {
    WriteStep(bytes, written, c, i, b);
  }

  /** How many bits the next step of `encodeUnsignedInt` writes: the rest of the current byte, or
      the rest of the value when that is shorter. */
  function ChunkWidth(remaining: nat, b: nat): (w: nat)
    requires b < 8
    ensures w <= remaining && b + w <= 8
    ensures 0 < remaining ==> 0 < w
    ensures w == remaining || b + w == 8
  {
    if remaining >= 8 - b then 8 - b else remaining
  }

  /** The loop invariant of `encodeUnsignedInt` over its local state: the writer's invariant holds,
      the top `size - remaining` bits of the value follow the `start` bits, and while bits remain
      `offset` and `byte` are what the next step needs. */
  ghost predicate UIntLoop(value: int, size: nat, start: seq<bool>, bytes: seq<Byte>, written: seq<bool>,
                           currentByte: nat, currentBit: nat, remaining: nat, offset: int, byte: int)
  {
    Framed(bytes, written, currentByte, currentBit) && remaining <= size &&
    written == start + ToBits(Shr(value, remaining), size - remaining) &&
    (remaining > 0 ==> offset == remaining - (8 - currentBit) && byte == ByteAt(bytes, currentByte))
  }

  /** One iteration of `encodeUnsignedInt` keeps its loop invariant. */
  lemma UIntLoopStep(value: int, size: nat, start: seq<bool>, bytes: seq<Byte>, written: seq<bool>,
                     i: nat, b: nat, remaining: nat, offset: int, byte: int)
    requires UIntLoop(value, size, start, bytes, written, i, b, remaining, offset, byte) && remaining > 0
    ensures i <= |bytes|
    ensures var chunk := Mask(if offset >= 0 then Shr(value, offset) else Shl(value, -offset), 8 - b);
      BitOr(byte, chunk) < 256 &&
      var nb := Store(bytes, i, BitOr(byte, chunk));
      var w := ChunkWidth(remaining, b);
      var nw := written + ToBits(Shr(value, remaining - w), w);
      if remaining >= 8 - b then UIntLoop(value, size, start, nb, nw, i + 1, 0, remaining - (8 - b), offset - 8, 0)
      else UIntLoop(value, size, start, nb, nw, i, b + remaining, 0, offset, BitOr(byte, chunk))
  {
    var w := ChunkWidth(remaining, b);
    var c := ToBits(Shr(value, remaining - w), w);
    ChunkOfValue(value, remaining, b, offset);
    StepFramed(bytes, written, c, i, b);
    TopBitsStep(start, value, remaining, w, size);
  }

  /** Writers only append: once the stream `written` has grown into `grown`, every byte the
      cursor had already left is unchanged. */
  lemma EarlierBytesKept(bytes: seq<Byte>, written: seq<bool>, currentByte: nat, currentBit: nat,
                         bytes': seq<Byte>, grown: seq<bool>, currentByte': nat, currentBit': nat)
    requires Framed(bytes, written, currentByte, currentBit)
    requires Framed(bytes', grown, currentByte', currentBit')
    requires |written| <= |grown| && grown[..|written|] == written
    ensures currentByte <= |bytes| && currentByte <= |bytes'|
    ensures bytes'[..currentByte] == bytes[..currentByte]
  {
    var i := currentByte;
    assert bytes[..i] + bytes[i..] == bytes;
    BitsOfAppend(bytes[..i], bytes[i..]);
    assert bytes'[..i] + bytes'[i..] == bytes';
    BitsOfAppend(bytes'[..i], bytes'[i..]);
    assert BitsOf(bytes[..i]) == BitsOf(bytes)[..8 * i];
    assert BitsOf(bytes)[..8 * i] == written[..8 * i];
    assert BitsOf(bytes'[..i]) == BitsOf(bytes')[..8 * i];
    assert BitsOf(bytes')[..8 * i] == grown[..8 * i];
    assert grown[..8 * i] == written[..8 * i];
    BitsOfInjective(bytes[..i], bytes'[..i]);
  }

  class BitWriter {
    /** The bytes written so far; the last one may be partly filled. */
    var bytes: seq<Byte>
    var currentByte: nat
    var currentBit: nat
    /** The bit stream written so far. */
    ghost var written: seq<bool>

    /** The cursor points just after the written bits, and the bytes hold exactly those bits
        followed by zero padding. */
    ghost predicate Valid()
      reads this
    {
      Framed(bytes, written, currentByte, currentBit)
    }

    /** `{ bytes: [], currentByte: 0, currentBit: 0 }` */
    constructor ()
      ensures Valid() && written == [] && bytes == []
    {
      bytes := [];
      currentByte := 0;
      currentBit := 0;
      written := [];
    }

    /** The cursor at the end of `written`, written as a byte index and a bit index. */
    lemma CursorOf()
      requires Valid()
      ensures currentByte == |written| / 8 && currentBit == |written| % 8
    {
      DivModUnique(|written|, 8, currentByte, currentBit);
    }

    /** `encodeBool`: OR `value` into bit `currentBit` of the current byte, then one bit on. */
    method EncodeBool(value: bool)
      requires Valid()
      modifies this
      ensures Valid() && written == old(written) + [value]
    {
      CursorOf();
      ToBitsFromBits([value]);
      assert Flag(value) == FromBits([value]);
      WriteChunk(bytes, written, [value]);
      var byte := ByteAt(bytes, currentByte);
      var b := BitOr(byte, Shl(Flag(value), 7 - currentBit));
      bytes := Store(bytes, currentByte, b);
      currentBit := (currentBit + 1) % 8;
      if currentBit == 0 {
        currentByte := currentByte + 1;
      }
      written := written + [value];
    }
  
    /** `encodeUnsignedInt`: the low `size` bits of `value`, most significant first. The first
        chunk fills the rest of the current byte, the following ones whole bytes; each is OR-ed into
        its byte, and a fresh byte starts at 0. */
    method EncodeUnsignedInt(value: int, size: nat)
      requires Valid() && size <= MaxWidth
      modifies this
      ensures Valid() && written == old(written) + ToBits(value, size)
    {
      var bytes: seq<Byte>, currentByte: nat, currentBit: nat := this.bytes, this.currentByte, this.currentBit;
      ghost var written := this.written;
      var byte: Byte := ByteAt(bytes, currentByte);
      var offset: int := size - (8 - currentBit);
      var remaining: nat := size;
      while remaining > 0
        invariant UIntLoop(value, size, old(this.written), bytes, written, currentByte, currentBit, remaining, offset, byte)
        decreases remaining
      {
        UIntLoopStep(value, size, old(this.written), bytes, written, currentByte, currentBit, remaining, offset, byte);
        written := written + ToBits(Shr(value, remaining - ChunkWidth(remaining, currentBit)), ChunkWidth(remaining, currentBit));
        byte := BitOr(byte, Mask(if offset >= 0 then Shr(value, offset) else Shl(value, -offset), 8 - currentBit));
        bytes := Store(bytes, currentByte, byte);
        if remaining >= 8 - currentBit {
          remaining := remaining - (8 - currentBit);
          currentBit := 0;
          currentByte := currentByte + 1;
          offset := offset - (8 - currentBit);
          byte := 0;
        } else {
          currentBit := currentBit + remaining;
          remaining := 0;
        }
      }
      assert Shr(value, 0) == value;
      this.bytes, this.currentByte, this.currentBit := bytes, currentByte, currentBit;
      this.written := written;
    }

    /** `encodeSignedInt`: a sign bit, set for negatives, then the magnitude in `size` bits. */
    method EncodeSignedInt(value: int, size: nat)
      requires Valid() && size <= MaxWidth
      modifies this
      ensures Valid() && written == old(written) + [value < 0] + ToBits(Abs(value), size)
    {
      EncodeBool(value < 0);
      EncodeUnsignedInt(Abs(value), size);
    }

    /** `encodeString`: the byte count in `lengthSize` bits, then each byte in eight bits. */
    method EncodeString(value: seq<Byte>, lengthSize: nat)
      requires Valid() && lengthSize <= MaxWidth
      modifies this
      ensures Valid() && written == old(written) + ToBits(|value|, lengthSize) + BitsOf(value)
    {
      EncodeUnsignedInt(|value|, lengthSize);
      ghost var prefix := written;
      for i := 0 to |value|
        invariant Valid() && written == prefix + BitsOf(value[..i])
      {
        EncodeUnsignedInt(value[i] as int, 8);
        BitsOfSnoc(value[..i], value[i]);
        assert value[..i + 1] == value[..i] + [value[i]];
        ConcatAssoc(prefix, BitsOf(value[..i]), ToBits(value[i] as int, 8));
      }
      assert value[..|value|] == value;
    }

    /** `encodeArray`: the element count in `lengthSize` bits, then every element under the
        content schema, in order. Fails as soon as an element does. */
    method EncodeArray(elems: seq<Value>, lengthSize: nat, content: Schema) returns (r: Outcome)
      requires Valid() && WellFormed(Array(lengthSize, content))
      requires Encodable(ArrVal(elems), Array(lengthSize, content))
      modifies this
      ensures Valid()
      ensures var e := EncodeValue(ArrVal(elems), Array(lengthSize, content));
        (r.Pass? <==> e.Ok?) &&
        (r.Pass? ==> written == old(written) + e.value) &&
        (r.Fail? ==> r.error == e.error)
      decreases Array(lengthSize, content), 0
    {
      EncodeUnsignedInt(|elems|, lengthSize);
      ghost var prefix := written;
      for i := 0 to |elems|
        invariant Valid()
        invariant EncodeElems(elems, content, i).Ok?
        invariant written == prefix + EncodeElems(elems, content, i).value
      {
        ghost var front := written;
        var x := EncodeType(elems[i], content);
        if x.Fail? {
          EncodeElemsErrorPersists(elems, content, i + 1, |elems|);
          return x;
        }
        ConcatAssoc(prefix, EncodeElems(elems, content, i).value, EncodeValue(elems[i], content).value);
      }
      ConcatAssoc(old(written), ToBits(|elems|, lengthSize), EncodeElems(elems, content, |elems|).value);
      r := Pass;
    }

    /** `encodeObject`: the value under each field name of the schema, in the schema's field
        order. Fails as soon as a field does. */
    method EncodeObject(entries: seq<Entry>, fields: seq<Field>) returns (r: Outcome)
      requires Valid() && WellFormed(Object(fields)) && Encodable(ObjVal(entries), Object(fields))
      modifies this
      ensures Valid()
      ensures var e := EncodeValue(ObjVal(entries), Object(fields));
        (r.Pass? <==> e.Ok?) &&
        (r.Pass? ==> written == old(written) + e.value) &&
        (r.Fail? ==> r.error == e.error)
      decreases Object(fields), 0
    {
      ghost var prefix := written;
      for i := 0 to |fields|
        invariant Valid()
        invariant EncodeFields(entries, fields, i).Ok?
        invariant written == prefix + EncodeFields(entries, fields, i).value
      {
        var field := Lookup(entries, fields[i].name).value;
        var x := EncodeType(field, fields[i].schema);
        if x.Fail? {
          EncodeFieldsErrorPersists(entries, fields, i + 1, |fields|);
          return x;
        }
        ConcatAssoc(prefix, EncodeFields(entries, fields, i).value, EncodeValue(field, fields[i].schema).value);
      }
      r := Pass;
    }

    /** `encodeType`: the dispatch on the schema's kind. NOTHING writes nothing; FLOAT has no
        branch and fails with `Unknown type`. */
    method EncodeType(v: Value, s: Schema) returns (r: Outcome)
      requires Valid() && WellFormed(s) && Encodable(v, s)
      modifies this
      ensures Valid()
      ensures r.Pass? <==> EncodeValue(v, s).Ok?
      ensures r.Pass? ==> written == old(written) + EncodeValue(v, s).value
      ensures r.Fail? ==> r.error == EncodeValue(v, s).error
      decreases s, 1
    {
      match s {
        case Bool =>
          assert EncodeValue(v, s) == Ok([v.b]);
          EncodeBool(v.b);
          r := Pass;
        case Int(size) =>
          assert EncodeValue(v, s) == Ok([v.i < 0] + ToBits(Abs(v.i), size));
          EncodeSignedInt(v.i, size);
          r := Pass;
        case UInt(size) =>
          assert EncodeValue(v, s) == Ok(ToBits(v.i, size));
          EncodeUnsignedInt(v.i, size);
          r := Pass;
        case String(lengthSize) =>
          assert EncodeValue(v, s) == Ok(ToBits(|v.bytes|, lengthSize) + BitsOf(v.bytes));
          EncodeString(v.bytes, lengthSize);
          r := Pass;
        case Array(lengthSize, content) =>
          assert v == ArrVal(v.elems);
          r := EncodeArray(v.elems, lengthSize, content);
        case Object(fields) =>
          assert v == ObjVal(v.entries);
          r := EncodeObject(v.entries, fields);
        case Nothing =>
          assert EncodeValue(v, s) == Ok([]);
          assert written == old(written) + [];
          r := Pass;
        case Float =>
          r := Fail(UnknownType(FLOAT));
      }
    }
  }

  lemma {:induction false} EncodeElemsErrorPersists(vs: seq<Value>, c: Schema, i: nat, k: nat)
    requires i <= k <= |vs| && forall j :: 0 <= j < |vs| ==> Encodable(vs[j], c)
    requires EncodeElems(vs, c, i).Err?
    ensures EncodeElems(vs, c, k) == EncodeElems(vs, c, i)
    decreases k
  {
    if k > i {
      EncodeElemsErrorPersists(vs, c, i, k - 1);
    }
  }

  lemma {:induction false} EncodeFieldsErrorPersists(entries: seq<Entry>, fields: seq<Field>, i: nat, k: nat)
    requires i <= k <= |fields| && Encodable(ObjVal(entries), Object(fields))
    requires EncodeFields(entries, fields, i).Err?
    ensures EncodeFields(entries, fields, k) == EncodeFields(entries, fields, i)
    decreases k
  {
    if k > i {
      EncodeFieldsErrorPersists(entries, fields, i, k - 1);
    }
  }

  /** `encodeData`: JSON text, or the registered schema's bits packed into bytes from a fresh
      writer; lz4-compressed when the flag is set. */
  method EncodeData(p: Payload, compress: bool, json: bool, registry: Registry, ext: Externals)
    returns (r: Result<seq<Byte>>)
    requires AllWellFormed(registry.events) && Admissible(p, json, registry.events)
    ensures r == EncodeBody(p, compress, json, registry.events, ext)
  {
    if json {
      var encoded := ext.stringify(p.data);
      return Ok(if compress then ext.compress(encoded) else encoded);
    }
    var schema := registry.GetSchema(p.event);
    if schema.None? {
      return Err(UnregisteredEvent(p.event));
    }
    var writer := new BitWriter();
    var x := writer.EncodeType(p.data, schema.value);
    if x.Fail? {
      return Err(x.error);
    }
    var encoded := writer.bytes;
    assert writer.written == EncodeValue(p.data, schema.value).value;
    PackBitsBits(writer.written);
    BitsOfInjective(encoded, PackBits(writer.written));
    r := Ok(if compress then ext.compress(encoded) else encoded);
  }

  /** `encode`: in auto mode the body is encoded uncompressed and replaced by its lz4 form only
      when that is strictly shorter; the header records the flag finally used. */
  method Encode(p: Payload, options: Options, registry: Registry, ext: Externals) returns (r: Result<seq<Byte>>)
    requires AllWellFormed(registry.events) && Admissible(p, options.json, registry.events)
    ensures r == EncodeMessage(p, options, registry.events, ext)
  {
    var header: Byte;
    var body: seq<Byte>;
    match options.compress {
      case Auto =>
        var uncompressed := EncodeData(p, false, options.json, registry, ext);
        if uncompressed.Err? {
          return Err(uncompressed.error);
        }
        var compressed := ext.compress(uncompressed.value);
        var flag := false;
        body := uncompressed.value;
        if |uncompressed.value| > |compressed| {
          flag := true;
          body := compressed;
        }
        header := EncodeHeader(p.event, flag, options.json);
      case Fixed(on) =>
        header := EncodeHeader(p.event, on, options.json);
        var data := EncodeData(p, on, options.json, registry, ext);
        if data.Err? {
          return Err(data.error);
        }
        body := data.value;
    }
    r := Ok([header] + body);
  }
}
