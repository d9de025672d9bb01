/**
  The bit writer of HuffmanEncoderDecoder.c (`writeBit`, `flushBuffer`):
  bits are shifted into a one-byte accumulator most significant bit first,
  a full byte is written out as soon as its eighth bit arrives, and a final
  partial byte is padded with zero bits on its low-order end.

  The source keeps the accumulator and its bit count in globals passed by
  pointer and writes bytes to a file; here the whole state, including the
  bytes written so far, is one immutable value.
 */
module BitWriter {
  import opened HuffmanNode

  type Bit = b: nat | b <= 1

  /** The accumulator (`unsigned char buffer`), the number of bits pending
      in it (`int bitCount`), and the bytes written to the file so far. */
  datatype Writer = Writer(buffer: Byte, bitCount: int, out: seq<Byte>)

  /** The writer before any bit: nothing pending, nothing written. */
  const Fresh: Writer := Writer(0, 0, [])

  function Pow2(n: nat): (p: nat)
    ensures p >= 1
  {
    if n == 0 then 1 else 2 * Pow2(n - 1)
  }

  /** The state between calls: at most seven bits pending, and nothing in
      the accumulator above them. */
  predicate Valid(w: Writer)
  {
    0 <= w.bitCount <= 7 && w.buffer < Pow2(w.bitCount)
  }

  /** The low `n` bits of `v`, most significant first. */
  function BitsOf(v: nat, n: nat): (bits: seq<Bit>)
    ensures |bits| == n
  {
    if n == 0 then [] else BitsOf(v / 2, n - 1) + [v % 2]
  }

  /** The bits of a byte sequence, eight per byte, most significant first. */
  function Unpack(bytes: seq<Byte>): (bits: seq<Bit>)
    ensures |bits| == 8 * |bytes|
  {
    if |bytes| == 0 then [] else Unpack(bytes[..|bytes| - 1]) + BitsOf(bytes[|bytes| - 1], 8)
  }

  /** `n` zero bits. */
  function Zeros(n: nat): (bits: seq<Bit>)
    ensures |bits| == n && forall i :: 0 <= i < n ==> bits[i] == 0
  {
    seq(n, _ => 0)
  }

  /** The number whose binary digits, most significant first, are `bits`. */
  function Value(bits: seq<Bit>): nat
  {
    if |bits| == 0 then 0 else 2 * Value(bits[..|bits| - 1]) + bits[|bits| - 1]
  }

  /** Reading back the low `n` bits of a value below 2^n gives the value. */
  lemma {:induction false} ValueOfBits(v: nat, n: nat)
    requires v < Pow2(n)
    ensures Value(BitsOf(v, n)) == v
    decreases n
  {
    if n > 0 {
      var bits := BitsOf(v, n);
      assert bits[..n - 1] == BitsOf(v / 2, n - 1);
      ValueOfBits(v / 2, n - 1);
    }
  }

  /** The defining step of `Unpack`, for use on sequences whose length is
      known. */
  lemma UnpackUnfold(a: seq<Byte>)
    requires |a| > 0
    ensures Unpack(a) == Unpack(a[..|a| - 1]) + BitsOf(a[|a| - 1], 8)
  {
  }

  /** The bits of a non-empty byte sequence: those of all bytes but the
      last, then the eight of the last. */
  lemma UnpackLast(a: seq<Byte>)
    requires |a| > 0
    ensures Unpack(a)[..8 * (|a| - 1)] == Unpack(a[..|a| - 1])
    ensures Unpack(a)[8 * (|a| - 1)..] == BitsOf(a[|a| - 1], 8)
  {
  }

  /** Writing out the value of `n` bits in `n` bits gives them back. */
  lemma {:induction false} BitsOfValue(bits: seq<Bit>)
    ensures BitsOf(Value(bits), |bits|) == bits
    decreases |bits|
  {
    if |bits| > 0 {
      var n := |bits| - 1;
      BitsOfValue(bits[..n]);
      assert bits == bits[..n] + [bits[n]];
    }
  }

  /** The bits of two byte sequences written one after the other. */
  lemma {:induction false} UnpackConcat(a: seq<Byte>, b: seq<Byte>)
    ensures Unpack(a + b) == Unpack(a) + Unpack(b)
    decreases |b|
  {
    if |b| > 0 {
      var n := |b| - 1;
      assert (a + b)[..|a + b| - 1] == a + b[..n];
      UnpackConcat(a, b[..n]);
    } else {
      assert a + b == a;
    }
  }

  /** Distinct byte sequences of one length have distinct bits. */
  lemma {:induction false} UnpackInjective(a: seq<Byte>, b: seq<Byte>)
    requires |a| == |b| && Unpack(a) == Unpack(b)
    ensures a == b
    decreases |a|
  {
    if |a| > 0 {
      var n := |a| - 1;
      UnpackLast(a);
      UnpackLast(b);
      ByteOfBits(a[n], b[n]);
      UnpackInjective(a[..n], b[..n]);
      assert a == a[..n] + [a[n]];
      assert b == b[..n] + [b[n]];
    }
  }

  /** Two bytes with the same eight bits are the same byte. */
  lemma ByteOfBits(x: Byte, y: Byte)
    requires BitsOf(x, 8) == BitsOf(y, 8)
    ensures x == y
  {
    assert Pow2(8) == 256;
    ValueOfBits(x, 8);
    ValueOfBits(y, 8);
  }

  /** Every bit handed to the writer so far: the bits of the bytes already
      written, then the bits pending in the accumulator. */
  function Stream(w: Writer): seq<Bit>
    requires Valid(w)
  {
    Unpack(w.out) + BitsOf(w.buffer, w.bitCount)
  }

  /** `writeBit`: shift the low bit of `bit` into the accumulator (the
      shifted value is truncated to the accumulator's eight bits); on the
      eighth pending bit write the byte and empty the accumulator. `bit & 1`
      is `bit % 2`, which agrees with the two's-complement low bit for
      negative values too. */
  function WriteBit(w: Writer, bit: int): (r: Writer)
    ensures Valid(w) ==> Valid(r) && Stream(r) == Stream(w) + [bit % 2]
    ensures |r.out| == |w.out| + 1 <==> w.bitCount == 7
    ensures w.bitCount != 7 ==> r.out == w.out && r.bitCount == w.bitCount + 1
    ensures w.bitCount == 7 ==> r.out[..|w.out|] == w.out && r.buffer == 0 && r.bitCount == 0
  {
    var buffer := (w.buffer * 2 + bit % 2) % 256;
    var count := w.bitCount + 1;
    if count == 8 then
      var r := Writer(0, 0, w.out + [buffer]);
      assert r.out[..|w.out|] == w.out;
      if Valid(w) then WriteBitFacts(w, bit); r else r
    else
      var r := Writer(buffer, count, w.out);
      if Valid(w) then WriteBitFacts(w, bit); r else r
  }

  /** Shifting a bit into a valid accumulator appends it to the bits handed
      over so far: nothing is truncated, and the byte written on the eighth
      bit carries all eight. */
  lemma WriteBitFacts(w: Writer, bit: int)
    requires Valid(w)
    ensures var v := (w.buffer * 2 + bit % 2) % 256;
      if w.bitCount == 7 then
        && Valid(Writer(0, 0, w.out + [v]))
        && Stream(Writer(0, 0, w.out + [v])) == Stream(w) + [bit % 2]
      else
        && Valid(Writer(v, w.bitCount + 1, w.out))
        && Stream(Writer(v, w.bitCount + 1, w.out)) == Stream(w) + [bit % 2]
  {
    var v := (w.buffer * 2 + bit % 2) % 256;
    ShiftInBit(w, bit);
    if w.bitCount == 7 {
      var out := w.out + [v];
      assert out[..|out| - 1] == w.out;
      assert Unpack(out) == Unpack(w.out) + BitsOf(v, 8);
      assert Stream(Writer(0, 0, out)) == Unpack(out) + [];
    } else {
      assert Stream(Writer(v, w.bitCount + 1, w.out)) == Unpack(w.out) + (BitsOf(w.buffer, w.bitCount) + [bit % 2]);
    }
  }

  /** The shifted accumulator loses nothing to the eight-bit truncation:
      its low `bitCount + 1` bits are the old pending bits and the new one. */
  lemma ShiftInBit(w: Writer, bit: int)
    requires Valid(w)
    ensures var v := (w.buffer * 2 + bit % 2) % 256;
      && v < Pow2(w.bitCount + 1)
      && BitsOf(v, w.bitCount + 1) == BitsOf(w.buffer, w.bitCount) + [bit % 2]
  {
    var b := bit % 2;
    var u := w.buffer * 2 + b;
    assert u < Pow2(w.bitCount + 1) <= 256 by {
      Pow2Monotone(w.bitCount + 1, 8);
    }
    assert u % 256 == u;
    assert u / 2 == w.buffer && u % 2 == b;
  }

  lemma {:induction false} Pow2Monotone(m: nat, n: nat)
    requires m <= n
    ensures Pow2(m) <= Pow2(n)
    decreases n
  {
    if m < n {
      Pow2Monotone(m, n - 1);
    }
  }

  /** `flushBuffer`: when bits are pending, shift them to the top of the
      accumulator, write it, and empty the accumulator; otherwise do
      nothing. The shift amount `8 - bitCount` must not be negative, as a
      negative shift has no meaning in C. */
  function FlushBuffer(w: Writer): (r: Writer)
    requires w.bitCount <= 8
    ensures w.bitCount <= 0 ==> r == w
    ensures w.bitCount > 0 ==>
      && |r.out| == |w.out| + 1 && r.out[..|w.out|] == w.out
      && r.buffer == 0 && r.bitCount == 0
    ensures Valid(w) ==> Valid(r)
    ensures Valid(w) && w.bitCount > 0 ==> Unpack(r.out) == Stream(w) + Zeros(8 - w.bitCount)
  {
    if w.bitCount > 0 then
      var shifted := (w.buffer * Pow2(8 - w.bitCount)) % 256;
      var r := Writer(0, 0, w.out + [shifted]);
      assert r.out[..|w.out|] == w.out;
      if Valid(w) then FlushFacts(w); r else r
    else
      w
  }

  /** Shifting the pending bits of a valid, non-empty accumulator to the
      top of the byte loses none of them and fills the rest with zeros. */
  lemma FlushFacts(w: Writer)
    requires Valid(w) && w.bitCount > 0
    ensures var shifted := (w.buffer * Pow2(8 - w.bitCount)) % 256;
      Unpack(w.out + [shifted]) == Stream(w) + Zeros(8 - w.bitCount)
  {
    var k: nat := 8 - w.bitCount;
    var v := w.buffer * Pow2(k);
    assert v < 256 by {
      Pow2Sum(w.bitCount, k);
      MultiplyStrict(w.buffer, Pow2(w.bitCount), Pow2(k));
    }
    assert v % 256 == v;
    ShiftAppendsZeros(w.buffer, w.bitCount, k);
    assert BitsOf(v, 8) == BitsOf(w.buffer, w.bitCount) + Zeros(k);
    var out := w.out + [v];
    assert out[..|out| - 1] == w.out;
    assert Unpack(out) == Unpack(w.out) + BitsOf(v, 8);
  }

  lemma MultiplyStrict(a: nat, b: nat, c: nat)
    requires a < b && c > 0
    ensures a * c < b * c
  {
  }

  lemma {:induction false} Pow2Sum(a: nat, b: nat)
    ensures Pow2(a) * Pow2(b) == Pow2(a + b)
    decreases a
  {
    if a > 0 {
      Pow2Sum(a - 1, b);
    }
  }

  /** Multiplying by 2^k appends k zero bits to the low end. */
  lemma {:induction false} ShiftAppendsZeros(v: nat, n: nat, k: nat)
    ensures BitsOf(v * Pow2(k), n + k) == BitsOf(v, n) + Zeros(k)
    decreases k
  {
    if k > 0 {
      var u := v * Pow2(k - 1);
      assert v * Pow2(k) == u * 2;
      assert (u * 2) / 2 == u && (u * 2) % 2 == 0;
      ShiftAppendsZeros(v, n, k - 1);
      assert Zeros(k) == Zeros(k - 1) + [0];
    }
  }

  /** The loop in `main`: every bit of the sequence through `writeBit`. */
  function WriteBits(w: Writer, bits: seq<Bit>): (r: Writer)
    ensures Valid(w) ==>
      && Valid(r)
      && Stream(r) == Stream(w) + bits
      && |r.out| == |w.out| + (w.bitCount + |bits|) / 8
      && r.bitCount == (w.bitCount + |bits|) % 8
    decreases |bits|
  {
    if |bits| == 0 then w
    else
      var next := WriteBit(w, bits[0]);
      var r := WriteBits(next, bits[1..]);
      if Valid(w) then
        LowBitOfBit(bits[0]);
        AppendStep(Stream(w), Stream(next), Stream(r), bits);
        CountStep(w.bitCount, |w.out|, next.bitCount, |next.out|, |bits| - 1);
        r
      else
        r
  }

  /** `bit & 1` leaves a bit as it is. */
  lemma LowBitOfBit(b: Bit)
    ensures b % 2 == b
  {
  }

  /** Appending the first bit and then the rest appends them all. */
  lemma AppendStep(before: seq<Bit>, middle: seq<Bit>, after: seq<Bit>, bits: seq<Bit>)
    requires |bits| > 0 && middle == before + [bits[0]] && after == middle + bits[1..]
    ensures after == before + bits
  {
    assert bits == [bits[0]] + bits[1..];
  }

  /** The byte and bit counts after one more bit: either the count goes up
      by one, or the eighth bit empties the accumulator into one more byte. */
  lemma CountStep(count: int, written: nat, count': int, written': nat, m: nat)
    requires 0 <= count <= 7
    requires count == 7 ==> written' == written + 1 && count' == 0
    requires count != 7 ==> written' == written && count' == count + 1
    ensures written' + (count' + m) / 8 == written + (count + 1 + m) / 8
    ensures (count' + m) % 8 == (count + 1 + m) % 8
  {
    if count == 7 {
      ByteBoundary(m);
    }
  }

  /** Eight more bits make one more byte and leave the remainder as it was. */
  lemma ByteBoundary(m: nat)
    ensures m / 8 + 1 == (m + 8) / 8 && m % 8 == (m + 8) % 8
  {
  }

  /** All bits through the writer, then one flush: the bytes written. */
  function Pack(bits: seq<Bit>): seq<Byte>
  {
    FlushBuffer(WriteBits(Fresh, bits)).out
  }

  /** Writing n bits and flushing yields ceil(n / 8) bytes whose bits, most
      significant first, are the n bits followed by zero padding. */
  lemma PackLayout(bits: seq<Bit>)
    ensures |Pack(bits)| == (|bits| + 7) / 8
    ensures Unpack(Pack(bits)) == bits + Zeros(8 * |Pack(bits)| - |bits|)
  {
    var w := WriteBits(Fresh, bits);
    assert Valid(Fresh) && Stream(Fresh) == [];
    assert Stream(w) == bits;
    if w.bitCount == 0 {
      assert Zeros(0) == [];
    }
  }

  /** The written bytes give back the bits: reading the first n bits of the
      output, most significant first, recovers the input. */
  lemma PackRoundTrip(bits: seq<Bit>)
    ensures Unpack(Pack(bits))[..|bits|] == bits
  {
    PackLayout(bits);
  }
}
