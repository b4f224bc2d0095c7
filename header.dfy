/** The one-byte message header: the event id in bits 7..2, the compress flag in bit 1 and the
    json flag in bit 0. */
module Headers {
  import opened Bits

  datatype Header = Header(event: nat, compress: bool, json: bool)

  /** A boolean as `flag & MASK_1` sees it. */
  function Flag(b: bool): (r: nat)
    ensures r < 2 && (r == 1 <==> b)
  {
    if b then 1 else 0
  }

  /** `(event & MASK_6) << 2 | (compress & MASK_1) << 1 | (json & MASK_1)`: only the low six bits
      of the event survive. */
  function EncodeHeader(event: int, compress: bool, json: bool): (h: Byte)
    ensures h == 4 * (event % 64) + 2 * Flag(compress) + Flag(json)
  {
    HeaderLayout(event, compress, json);
    BitOr(BitOr(Shl(Mask(event, 6), 2), Shl(Flag(compress), 1)), Flag(json))
  }

  lemma HeaderLayout(event: int, compress: bool, json: bool)
    ensures BitOr(BitOr(Shl(Mask(event, 6), 2), Shl(Flag(compress), 1)), Flag(json))
            == 4 * (event % 64) + 2 * Flag(compress) + Flag(json)
  {
    var e, c, j := Mask(event, 6), Flag(compress), Flag(json);
    MaskIsMod(event, 6);
    assert Pow2(6) == 64;
    var low := BitOr(Shl(e, 2), Shl(c, 1));
    OrEventCompress(e, c);
    OrLowBit(low, j);
  }

  /** `e << 2 | c << 1` for a one-bit `c` is `4e + 2c`. */
  lemma OrEventCompress(e: nat, c: nat)
    requires c < 2
    ensures BitOr(Shl(e, 2), Shl(c, 1)) == 4 * e + 2 * c
  {
    ShlIsMul(e, 2);
    ShlIsMul(c, 1);
    assert Pow2(2) == 4 && Pow2(1) == 2;
    BitOrDisjoint(e, 2, 2 * c);
  }

  /** OR-ing one bit into an even number adds it. */
  lemma OrLowBit(x: nat, j: nat)
    requires j < 2 && x % 2 == 0
    ensures BitOr(x, j) == x + j
  {
    ShlIsMul(x / 2, 1);
    assert Pow2(1) == 2;
    BitOrDisjoint(x / 2, 1, j);
  }

  /** `decodeHeader`: event = bits 7..2, compress = bit 1, json = bit 0. */
  function DecodeHeader(headerByte: int): (r: Header)
    ensures 0 <= headerByte < 256 ==>
      r.event < 64 && 4 * r.event + 2 * Flag(r.compress) + Flag(r.json) == headerByte
  {
    DecodeLayout(headerByte);
    ByteSplit(headerByte);
    Header(Mask(Shr(headerByte, 2), 6), Mask(Shr(headerByte, 1), 1) != 0, Mask(headerByte, 1) != 0)
  }

  lemma DecodeLayout(h: int)
    ensures Mask(Shr(h, 2), 6) == (h / 4) % 64
    ensures Mask(Shr(h, 1), 1) == (h / 2) % 2
    ensures Mask(h, 1) == h % 2
  {
    ShrIsDiv(h, 2);
    ShrIsDiv(h, 1);
    MaskIsMod(Shr(h, 2), 6);
    MaskIsMod(Shr(h, 1), 1);
    MaskIsMod(h, 1);
    assert Pow2(6) == 64 && Pow2(2) == 4 && Pow2(1) == 2;
  }

  /** A byte is four times its top six bits plus its two low bits. */
  lemma ByteSplit(h: int)
    ensures 0 <= h < 256 ==>
      (h / 4) % 64 == h / 4 < 64 && 4 * (h / 4) + 2 * ((h / 2) % 2) + h % 2 == h
  {
    if 0 <= h < 256 {
      var a, r := h / 4, h % 4;
      DivModUnique(h, 2, 2 * a + r / 2, r % 2);
      DivModUnique(2 * a + r / 2, 2, a, r / 2);
      DivModUnique(a, 64, 0, a);
    }
  }

  /** Decoding an encoded header gives back the flags and the event reduced to its low six bits. */
  lemma HeaderRoundTrip(event: int, compress: bool, json: bool)
    ensures DecodeHeader(EncodeHeader(event, compress, json)) == Header(event % 64, compress, json)
  {
    var h := EncodeHeader(event, compress, json);
    var e, c, j := event % 64, Flag(compress), Flag(json);
    DecodeLayout(h);
    DivModUnique(h, 4, e, 2 * c + j);
    DivModUnique(h, 2, 2 * e + c, j);
    DivModUnique(2 * e + c, 2, e, c);
  }

  /** Below 64 the event survives the header unchanged. */
  lemma HeaderRoundTripSmall(event: int, compress: bool, json: bool)
    requires 0 <= event < 64
    ensures DecodeHeader(EncodeHeader(event, compress, json)) == Header(event, compress, json)
  {
    DivModUnique(event, 64, 0, event);
    HeaderRoundTrip(event, compress, json);
  }

  /** Event ids 64 apart share a header. */
  lemma HeaderEventReduced(event: int, compress: bool, json: bool)
    ensures EncodeHeader(event + 64, compress, json) == EncodeHeader(event, compress, json)
  {
    DivModUnique(event + 64, 64, event / 64 + 1, event % 64);
  }

  /** Every byte is the header of the fields decoded from it. */
  lemma HeaderByteRoundTrip(headerByte: Byte)
    ensures var r := DecodeHeader(headerByte); EncodeHeader(r.event, r.compress, r.json) == headerByte
  {
    var r := DecodeHeader(headerByte);
    DivModUnique(r.event, 64, 0, r.event);
  }

  /** Event 51 (binary 110011) under the four flag combinations. */
  lemma HeaderVectors()
    ensures EncodeHeader(51, false, false) == 0xCC
    ensures EncodeHeader(51, false, true) == 0xCD
    ensures EncodeHeader(51, true, false) == 0xCE
    ensures EncodeHeader(51, true, true) == 0xCF
    ensures DecodeHeader(0xCC) == Header(51, false, false)
  {
    HeaderRoundTripSmall(51, false, false);
  }
}
