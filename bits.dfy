/** Bits: the JavaScript bitwise operators the codec is written with, and the bit-stream view of a
    byte buffer.

    Bits within a byte are numbered most significant first: bit offset 0 is the byte's high bit.
    Every width the codec uses is at most MaxWidth (31), so the 32-bit wrap-around of JavaScript's
    `<<`, `>>`, `&` and `|` never reaches a bit the codec keeps; the operators are therefore
    modelled on unbounded integers. */
module Bits {

  /** One element of the byte buffer. */
  type Byte = x: nat | x < 256

  /** The widest run of bits the source's 32-bit signed shifts can carry losslessly. */
  const MaxWidth: nat := 31

  function Pow2(n: nat): (r: nat)
    ensures r >= 1
  {
    if n == 0 then 1 else 2 * Pow2(n - 1)
  }

  function Zeros(n: nat): (r: seq<bool>)
    ensures |r| == n
  {
    seq(n, _ => false)
  }

  /** The low `n` bits of `v`, most significant first: element `i` is bit n - 1 - i of `v`, that is
      `(v >> (n - 1 - i)) & 1`. For a negative `v` these are the bits of its two's-complement form,
      which is what the source's bitwise operators see. */
  function ToBits(v: int, n: nat): (r: seq<bool>)
    ensures |r| == n
  {
    seq(n, i requires 0 <= i < n => Shr(v, n - 1 - i) % 2 == 1)
  }

  /** The unsigned number a bit string spells, most significant bit first. */
  function FromBits(bs: seq<bool>): (r: nat)
    ensures r < Pow2(|bs|)
  {
    if bs == [] then 0
    else 2 * FromBits(bs[..|bs| - 1]) + (if bs[|bs| - 1] then 1 else 0)
  }

  /** `x << k`: the low bits are filled with zeros. */
  function Shl(x: int, k: nat): (r: int)
    ensures x >= 0 ==> r >= 0
  {
    if k == 0 then x else 2 * Shl(x, k - 1)
  }

  /** `x >> k`: the arithmetic shift, which rounds toward negative infinity. */
  function Shr(x: int, k: nat): int
    decreases k
  {
    if k == 0 then x else Shr(x / 2, k - 1)
  }

  /** `x & MASKS[m]`, where MASKS[m] is 2^m - 1: the low `m` bits of `x`. */
  function Mask(x: int, m: nat): (r: nat)
    ensures r < Pow2(m)
  {
    FromBits(ToBits(x, m))
  }

  /** `a | b` on non-negative integers. */
  function BitOr(a: nat, b: nat): nat
    decreases a + b
  {
    if a == 0 && b == 0 then 0
    else 2 * BitOr(a / 2, b / 2) + (if a % 2 == 1 || b % 2 == 1 then 1 else 0)
  }

  /** The bit stream a byte buffer holds: its bytes' bits in order, each byte high bit first. */
  function BitsOf(bytes: seq<Byte>): (r: seq<bool>)
    ensures |r| == 8 * |bytes|
  {
    if bytes == [] then [] else BitsOf(bytes[..|bytes| - 1]) + ToBits(bytes[|bytes| - 1], 8)
  }

  /** Number of zero bits that complete the last byte of a stream of `n` bits. */
  function Pad(n: nat): nat
  {
    if n % 8 == 0 then 0 else 8 - n % 8
  }

  lemma PadFacts(n: nat)
    ensures Pad(n + 8) == Pad(n)
    ensures 0 < n < 8 ==> Pad(n) == 8 - n
  {
  }

  /** The byte whose eight bits are `bs`. */
  function ByteOf(bs: seq<bool>): (b: Byte)
    requires |bs| == 8
  {
    assert Pow2(8) == 256;
    FromBits(bs)
  }

  /** The byte buffer holding a bit stream, its last byte completed with zero bits. */
  function PackBits(bits: seq<bool>): seq<Byte>
    decreases |bits|
  {
    if |bits| == 0 then []
    else if |bits| < 8 then [ByteOf(bits + Zeros(8 - |bits|))]
    else [ByteOf(bits[..8])] + PackBits(bits[8..])
  }

  /** The byte at index `i`, or 0 past the end: the source reads a missing byte as 0
      (`bytes[i] || 0`, and `undefined & mask` is 0). */
  function ByteAt(bytes: seq<Byte>, i: nat): Byte
  {
    if i < |bytes| then bytes[i] else 0
  }

  /** The bit at position `p` of a stream, false past its end. */
  function Peek(bits: seq<bool>, p: nat): bool
  {
    if p < |bits| then bits[p] else false
  }

  /** The `n` bits of a stream starting at position `p`, false past its end. */
  function ReadN(bits: seq<bool>, p: nat, n: nat): (r: seq<bool>)
    ensures |r| == n
  {
    seq(n, i requires 0 <= i < n => Peek(bits, p + i))
  }

  // ----- bit strings and numbers

  lemma {:induction false} FromBitsAppend(a: seq<bool>, b: seq<bool>)
    ensures FromBits(a + b) == Shl(FromBits(a), |b|) + FromBits(b)
    decreases |b|
  {
    if b != [] {
      var b' := b[..|b| - 1];
      assert (a + b)[..|a + b| - 1] == a + b';
      FromBitsAppend(a, b');
    } else {
      assert a + b == a;
    }
  }

  lemma {:induction false} ToBitsFromBits(bs: seq<bool>)
    ensures ToBits(FromBits(bs), |bs|) == bs
    decreases |bs|
  {
    if bs != [] {
      var init := bs[..|bs| - 1];
      ToBitsFromBits(init);
      ToBitsStep(FromBits(bs), |bs|);
      assert bs == init + [bs[|bs| - 1]];
    }
  }

  /** Reading back the bits of a number that fits returns the number. */
  lemma {:induction false} FromBitsToBits(v: int, n: nat)
    requires 0 <= v < Pow2(n)
    ensures FromBits(ToBits(v, n)) == v
    decreases n
  {
    if n > 0 {
      FromBitsToBits(v / 2, n - 1);
      ToBitsStep(v, n);
      var bs := ToBits(v, n);
      assert bs[..|bs| - 1] == ToBits(v / 2, n - 1);
    }
  }

  lemma {:induction false} ShrZero(k: nat)
    ensures Shr(0, k) == 0
  {
    if k > 0 {
      ShrZero(k - 1);
    }
  }

  lemma ToBitsZero(n: nat)
    ensures ToBits(0, n) == Zeros(n)
  {
    forall i | 0 <= i < n ensures ToBits(0, n)[i] == Zeros(n)[i] {
      ShrZero(n - 1 - i);
    }
  }

  /** The recursive reading of ToBits: the bits of `v / 2`, then the low bit of `v`. */
  lemma ToBitsStep(v: int, n: nat)
    requires n > 0
    ensures ToBits(v, n) == ToBits(v / 2, n - 1) + [v % 2 == 1]
  {
    var r := ToBits(v / 2, n - 1) + [v % 2 == 1];
    forall i | 0 <= i < n ensures ToBits(v, n)[i] == r[i] {
      assert ToBits(v, n)[i] == (Shr(v, n - 1 - i) % 2 == 1);
      if i < n - 1 {
        assert r[i] == ToBits(v / 2, n - 1)[i] == (Shr(v / 2, n - 2 - i) % 2 == 1);
        assert Shr(v, n - 1 - i) == Shr(v / 2, n - 2 - i);
      } else {
        assert Shr(v, 0) == v;
      }
    }
  }

  lemma {:induction false} ShlIsMul(x: int, k: nat)
    ensures Shl(x, k) == x * Pow2(k)
  {
    if k > 0 {
      ShlIsMul(x, k - 1);
    }
  }

  lemma {:induction false} ShlZero(k: nat)
    ensures Shl(0, k) == 0
  {
    if k > 0 {
      ShlZero(k - 1);
    }
  }

  /** A number made of `a` followed by the `k` bits of `c` spells the bits of `a`, then those of `c`. */
  lemma {:induction false} ToBitsConcat(a: int, k: nat, c: int, n: nat)
    requires k <= n && 0 <= c < Pow2(k)
    ensures ToBits(Shl(a, k) + c, n) == ToBits(a, n - k) + ToBits(c, k)
    decreases k
  {
    if k > 0 {
      ToBitsConcat(a, k - 1, c / 2, n - 1);
      var x := Shl(a, k) + c;
      assert x / 2 == Shl(a, k - 1) + c / 2;
      assert x % 2 == c % 2;
      ToBitsStep(x, n);
      ToBitsStep(c, k);
    }
  }

  /** `x << k` keeps the low `m - k` bits of `x` and puts `k` zeros after them. */
  lemma ToBitsShl(x: int, k: nat, m: nat)
    requires k <= m
    ensures ToBits(Shl(x, k), m) == ToBits(x, m - k) + Zeros(k)
  {
    ToBitsConcat(x, k, 0, m);
    ToBitsZero(k);
  }

  /** The bits of `x` split into the bits of `x >> k` and the low `k` bits of `x`. */
  lemma ToBitsSplit(x: int, j: nat, k: nat)
    ensures ToBits(x, j + k) == ToBits(Shr(x, k), j) + ToBits(x, k)
  {
    forall i | 0 <= i < j ensures ToBits(x, j + k)[i] == ToBits(Shr(x, k), j)[i] {
      ShrAdd(x, k, j - 1 - i);
    }
  }

  lemma {:induction false} ShrAdd(x: int, a: nat, b: nat)
    ensures Shr(Shr(x, a), b) == Shr(x, a + b)
    decreases a
  {
    if a > 0 {
      ShrAdd(x / 2, a - 1, b);
    }
  }

  lemma {:induction false} BitOrZero(a: nat)
    ensures BitOr(a, 0) == a && BitOr(0, a) == a
  {
    if a > 0 {
      BitOrZero(a / 2);
    }
  }

  /** Or-ing a value into the zero low bits of a shifted one is addition. */
  lemma {:induction false} BitOrDisjoint(a: nat, k: nat, c: nat)
    requires c < Pow2(k)
    ensures BitOr(Shl(a, k), c) == Shl(a, k) + c
  {
    if k == 0 {
      BitOrZero(a);
    } else {
      var y := Shl(a, k - 1);
      BitOrDisjoint(a, k - 1, c / 2);
      assert (2 * y) / 2 == y && (2 * y) % 2 == 0;
    }
  }

  /** `|` is bitwise: each bit of the result is the disjunction of the operands' bits. */
  lemma {:induction false} BitOrBits(a: nat, b: nat, n: nat)
    requires a < Pow2(n) && b < Pow2(n)
    ensures BitOr(a, b) < Pow2(n)
    ensures forall i :: 0 <= i < n ==> ToBits(BitOr(a, b), n)[i] == (ToBits(a, n)[i] || ToBits(b, n)[i])
  {
    if n == 0 {
    } else if a == 0 && b == 0 {
      ToBitsZero(n);
    } else {
      BitOrBits(a / 2, b / 2, n - 1);
      ToBitsStep(a, n);
      ToBitsStep(b, n);
      ToBitsStep(BitOr(a, b), n);
    }
  }

  // ----- arithmetic: what the masks and shifts compute

  lemma DivModUnique(v: int, d: int, q: int, r: int)
    requires d > 0 && 0 <= r < d && v == d * q + r
    ensures v / d == q && v % d == r
  {
    var q0 := v / d;
    if q0 > q {
      MulAtLeast(d, q0 - q);
      assert false;
    } else if q0 < q {
      MulAtLeast(d, q - q0);
      assert false;
    }
  }

  lemma {:induction false} MulAtLeast(d: int, k: int)
    requires d > 0 && k >= 1
    ensures d * k >= d
    decreases k
  {
    if k > 1 {
      MulAtLeast(d, k - 1);
      assert d * k == d * (k - 1) + d;
    }
  }

  /** Dividing by 2 * p is halving and then dividing by p. */
  lemma DivModHalves(x: int, p: int)
    requires p > 0
    ensures x / (2 * p) == (x / 2) / p
    ensures x % (2 * p) == 2 * ((x / 2) % p) + x % 2
  {
    var q, r := x / 2, x % 2;
    var a, b := q / p, q % p;
    assert x == 2 * q + r;
    assert q == p * a + b;
    assert x == (2 * p) * a + (2 * b + r);
    DivModUnique(x, 2 * p, a, 2 * b + r);
  }

  /** `x & MASKS[n]` is the Euclidean remainder of `x` modulo 2^n, for negative `x` too. */
  lemma {:induction false} MaskIsMod(x: int, n: nat)
    ensures Mask(x, n) == x % Pow2(n)
    decreases n
  {
    if n > 0 {
      MaskIsMod(x / 2, n - 1);
      ToBitsStep(x, n);
      var bs := ToBits(x, n);
      assert bs[..|bs| - 1] == ToBits(x / 2, n - 1);
      assert Mask(x, n) == 2 * Mask(x / 2, n - 1) + x % 2;
      DivModHalves(x, Pow2(n - 1));
    }
  }

  /** `x >> k` is floor division by 2^k. */
  lemma {:induction false} ShrIsDiv(x: int, k: nat)
    ensures Shr(x, k) == x / Pow2(k)
    decreases k
  {
    if k > 0 {
      ShrIsDiv(x / 2, k - 1);
      DivModHalves(x, Pow2(k - 1));
    }
  }

  // ----- the bit stream of a byte buffer

  /** Concatenation is associative. */
  lemma ConcatAssoc<T>(a: seq<T>, b: seq<T>, c: seq<T>)
    ensures (a + b) + c == a + (b + c)
  {
  }

  /** A prefix one longer is the shorter prefix and the next element. */
  lemma TakeSnoc<T>(s: seq<T>, k: nat)
    requires 0 < k <= |s|
    ensures s[..k - 1] + [s[k - 1]] == s[..k]
  {
  }

  /** The two halves of a concatenation are sliced back out at the join. */
  lemma SplitConcat<T>(a: seq<T>, b: seq<T>)
    ensures (a + b)[..|a|] == a && (a + b)[|a|..] == b
  {
  }

  /** The middle part of a three-way concatenation is sliced back out where it lies. */
  lemma MiddleSlice<T>(a: seq<T>, b: seq<T>, c: seq<T>)
    ensures (a + b + c)[|a|..|a| + |b|] == b
  {
  }

  /** A sequence is its prefix followed by the rest. */
  lemma TakeDrop<T>(s: seq<T>, n: nat)
    requires n <= |s|
    ensures s[..n] + s[n..] == s
  {
  }

  /** Slicing a concatenation inside its first half. */
  lemma SliceConcat<T>(a: seq<T>, b: seq<T>, n: nat)
    requires n <= |a|
    ensures (a + b)[..n] == a[..n] && (a + b)[n..] == a[n..] + b
  {
  }

  lemma {:induction false} BitsOfAppend(x: seq<Byte>, y: seq<Byte>)
    ensures BitsOf(x + y) == BitsOf(x) + BitsOf(y)
    decreases |y|
  {
    if y == [] {
      assert x + y == x;
    } else {
      var y', last := y[..|y| - 1], y[|y| - 1];
      assert y == y' + [last];
      assert x + y == (x + y') + [last];
      calc {
        BitsOf(x + y);
        { BitsOfSnoc(x + y', last); }
        BitsOf(x + y') + ToBits(last, 8);
        { BitsOfAppend(x, y'); }
        (BitsOf(x) + BitsOf(y')) + ToBits(last, 8);
        { ConcatAssoc(BitsOf(x), BitsOf(y'), ToBits(last, 8)); }
        BitsOf(x) + (BitsOf(y') + ToBits(last, 8));
        { BitsOfSnoc(y', last); }
        BitsOf(x) + BitsOf(y);
      }
    }
  }

  lemma BitsOfSnoc(s: seq<Byte>, b: Byte)
    ensures BitsOf(s + [b]) == BitsOf(s) + ToBits(b, 8)
  {
    assert (s + [b])[..|s|] == s;
  }

  /** Bit `j` of byte `i` sits at position 8 * i + j of the stream. */
  lemma {:induction false} BitsOfAt(bytes: seq<Byte>, i: nat, j: nat)
    requires i < |bytes| && j < 8
    ensures BitsOf(bytes)[8 * i + j] == ToBits(bytes[i], 8)[j]
    decreases |bytes|
  {
    var init := bytes[..|bytes| - 1];
    if i < |bytes| - 1 {
      BitsOfAt(init, i, j);
    }
  }

  /** The stream bit at position 8 * i + j is bit `j` of byte `i`, or false past the buffer's end. */
  lemma PeekByte(bytes: seq<Byte>, i: nat, j: nat)
    requires j < 8
    ensures Peek(BitsOf(bytes), 8 * i + j) == ToBits(ByteAt(bytes, i), 8)[j]
  {
    if i < |bytes| {
      BitsOfAt(bytes, i, j);
    } else {
      ToBitsZero(8);
    }
  }

  /** The stream bits from offset `b` to `b + len` of byte `i` (0 past the end of the buffer). */
  lemma ReadWithinByte(bytes: seq<Byte>, i: nat, b: nat, len: nat)
    requires b + len <= 8
    ensures ReadN(BitsOf(bytes), 8 * i + b, len) == ToBits(ByteAt(bytes, i), 8)[b..b + len]
  {
    var lhs := ReadN(BitsOf(bytes), 8 * i + b, len);
    var rhs := ToBits(ByteAt(bytes, i), 8)[b..b + len];
    forall t | 0 <= t < len ensures lhs[t] == rhs[t] {
      PeekByte(bytes, i, b + t);
    }
  }

  /** The bit stream of a one-byte buffer is that byte's bits. */
  lemma BitsOfSingle(b: Byte)
    ensures BitsOf([b]) == ToBits(b, 8)
  {
    assert [b][..0] == [];
  }

  /** Packing a stream and reading the buffer's bits back gives the stream and then zero padding. */
  lemma {:induction false} PackBitsBits(bits: seq<bool>)
    ensures BitsOf(PackBits(bits)) == bits + Zeros(Pad(|bits|))
    decreases |bits|
  {
    if |bits| == 0 {
      assert bits + Zeros(0) == bits;
    } else if |bits| < 8 {
      PackBitsShort(bits);
    } else {
      var first, rest := bits[..8], bits[8..];
      var b := ByteOf(first);
      assert BitsOf(PackBits(bits)) == first + BitsOf(PackBits(rest)) by {
        assert PackBits(bits) == [b] + PackBits(rest);
        BitsOfAppend([b], PackBits(rest));
        BitsOfSingle(b);
        ToBitsFromBits(first);
      }
      PackBitsBits(rest);
      PadFacts(|rest|);
      assert first + rest == bits;
    }
  }

  /** A packed stream takes one byte per started group of eight bits. */
  lemma PackedLength(bits: seq<bool>)
    ensures |PackBits(bits)| == (|bits| + 7) / 8
  {
    PackBitsBits(bits);
    var n := |PackBits(bits)|;
    assert 8 * n == |bits| + Pad(|bits|);
    if |bits| % 8 == 0 {
      DivModUnique(|bits|, 8, n, 0);
      DivModUnique(|bits| + 7, 8, n, 7);
    } else {
      DivModUnique(|bits|, 8, |bits| / 8, |bits| % 8);
      DivModUnique(|bits| + 7, 8, n, |bits| % 8 - 1);
    }
  }

  lemma PackBitsShort(bits: seq<bool>)
    requires 0 < |bits| < 8
    ensures BitsOf(PackBits(bits)) == bits + Zeros(Pad(|bits|))
  {
    var first := bits + Zeros(8 - |bits|);
    assert PackBits(bits) == [ByteOf(first)];
    BitsOfSingle(ByteOf(first));
    ToBitsFromBits(first);
    PadFacts(|bits|);
  }

  /** Different buffers hold different bit streams. */
  lemma BitsOfInjective(x: seq<Byte>, y: seq<Byte>)
    requires BitsOf(x) == BitsOf(y)
    ensures x == y
  {
    assert |x| == |y|;
    forall i | 0 <= i < |x| ensures x[i] == y[i] {
      forall j | 0 <= j < 8 ensures ToBits(x[i], 8)[j] == ToBits(y[i], 8)[j] {
        BitsOfAt(x, i, j);
        BitsOfAt(y, i, j);
      }
      assert ToBits(x[i], 8) == ToBits(y[i], 8);
      FromBitsToBits(x[i], 8);
      FromBitsToBits(y[i], 8);
    }
  }

  /** Stretches of a stream read one after the other read as one stretch. */
  lemma ReadNAppend(bits: seq<bool>, p: nat, a: nat, b: nat)
    ensures ReadN(bits, p, a + b) == ReadN(bits, p, a) + ReadN(bits, p + a, b)
  {
  }

  /** Whatever surrounds a stretch of a stream, reading it back returns it. */
  lemma ReadNWindow(front: seq<bool>, mid: seq<bool>, back: seq<bool>)
    ensures ReadN(front + mid + back, |front|, |mid|) == mid
  {
    var bits := front + mid + back;
    var r := ReadN(bits, |front|, |mid|);
    forall t | 0 <= t < |mid| ensures r[t] == mid[t] {
      assert r[t] == Peek(bits, |front| + t);
      assert bits[|front| + t] == mid[t];
    }
  }
}
