/**
  The second half of the fixed scenario that `main` in
  HuffmanEncoderDecoder.c runs: fifty bits pushed through the bit writer
  one at a time, then a flush.
 */
module WriterScenario {
  import opened HuffmanNode
  import opened BitWriter

  /** The bits `main` hands to `writeBit`: its digit string with the
      character '0' subtracted from each digit, so '0' gives 0 and '1' gives 1
      (and the writer's `& 1` keeps them as they are). */
  const MainBits: seq<Bit> :=
    ([1, 0, 1, 1, 0, 0, 1, 0] + [0, 1, 1, 0, 1, 1, 0, 1] + [1, 1, 1, 0, 0, 0, 1, 1])
    + ([0, 1, 0, 1, 1, 0, 0, 1] + [0, 0, 0, 1, 1, 1, 0, 0] + [1, 0, 1, 0, 1, 0, 1, 0])
    + [1, 1]

  /** The bytes `main` leaves in its output file, worked out by hand from
      the digit string read in groups of eight, the last group padded with
      six zeros. */
  const MainBytes: seq<Byte> := [178, 109, 227, 89, 28, 170, 192]

  /** `main`'s fifty bits fill six bytes and leave two pending, which the
      flush pads with six zeros into a seventh. */
  lemma MainPackLayout()
    ensures |MainBits| == 50
    ensures |Pack(MainBits)| == 7
    ensures Unpack(Pack(MainBits)) == MainBits + Zeros(6)
  {
    PackLayout(MainBits);
  }

  /** Three bytes unpack one after the other. */
  lemma UnpackThree(s: seq<Byte>)
    requires |s| == 3
    ensures Unpack(s) == BitsOf(s[0], 8) + BitsOf(s[1], 8) + BitsOf(s[2], 8)
  {
    UnpackUnfold(s);
    UnpackUnfold(s[..2]);
    UnpackUnfold(s[..1]);
    assert s[..2][..1] == s[..1];
    assert s[..1][..0] == [];
  }

  /** The eight bits of a byte, named by place value. */
  lemma ByteBits(x: Byte)
    ensures BitsOf(x, 8) ==
      [x / 128 % 2, x / 64 % 2, x / 32 % 2, x / 16 % 2, x / 8 % 2, x / 4 % 2, x / 2 % 2, x % 2]
  {
    assert x / 2 / 2 == x / 4 && x / 4 / 2 == x / 8 && x / 8 / 2 == x / 16;
    assert x / 16 / 2 == x / 32 && x / 32 / 2 == x / 64 && x / 64 / 2 == x / 128;
    assert BitsOf(x / 128, 1) == [x / 128 % 2];
    assert BitsOf(x / 64, 2) == BitsOf(x / 128, 1) + [x / 64 % 2];
    assert BitsOf(x / 32, 3) == BitsOf(x / 64, 2) + [x / 32 % 2];
    assert BitsOf(x / 16, 4) == BitsOf(x / 32, 3) + [x / 16 % 2];
    assert BitsOf(x / 8, 5) == BitsOf(x / 16, 4) + [x / 8 % 2];
    assert BitsOf(x / 4, 6) == BitsOf(x / 8, 5) + [x / 4 % 2];
    assert BitsOf(x / 2, 7) == BitsOf(x / 4, 6) + [x / 2 % 2];
    assert BitsOf(x, 8) == BitsOf(x / 2, 7) + [x % 2];
  }

  /** A byte written as the sum of its place values has those bits. */
  lemma ByteDigits(x: Byte, d: seq<Bit>)
    requires |d| == 8
    requires x as int == 128 * d[0] as int + 64 * d[1] as int + 32 * d[2] as int + 16 * d[3] as int
      + 8 * d[4] as int + 4 * d[5] as int + 2 * d[6] as int + d[7] as int
    ensures BitsOf(x, 8) == d
  {
    PlaceValues(x, d[0], d[1], d[2], d[3], d[4], d[5], d[6], d[7]);
    ByteBits(x);
  }

  /** Each place value of a byte is recovered by dividing and taking the
      remainder. */
  lemma PlaceValues(x: nat, d0: Bit, d1: Bit, d2: Bit, d3: Bit, d4: Bit, d5: Bit, d6: Bit, d7: Bit)
    requires x == 128 * d0 + 64 * d1 + 32 * d2 + 16 * d3 + 8 * d4 + 4 * d5 + 2 * d6 + d7
    ensures x / 128 % 2 == d0 && x / 64 % 2 == d1 && x / 32 % 2 == d2 && x / 16 % 2 == d3
    ensures x / 8 % 2 == d4 && x / 4 % 2 == d5 && x / 2 % 2 == d6 && x % 2 == d7
  {
    var p1: int := d0;
    var p2 := 2 * p1 + d1;
    var p3 := 2 * p2 + d2;
    var p4 := 2 * p3 + d3;
    var p5 := 2 * p4 + d4;
    var p6 := 2 * p5 + d5;
    var p7 := 2 * p6 + d6;
    assert x / 2 == p7;
    assert x / 4 == p6;
    assert x / 8 == p5;
    assert x / 16 == p4;
    assert x / 32 == p3;
    assert x / 64 == p2;
    assert x / 128 == p1;
  }

  /** The first three hand-worked bytes carry the first three groups of
      eight bits. */
  lemma FrontBytesBits(s: seq<Byte>)
    requires s == [178, 109, 227]
    ensures Unpack(s) == [1, 0, 1, 1, 0, 0, 1, 0] + [0, 1, 1, 0, 1, 1, 0, 1] + [1, 1, 1, 0, 0, 0, 1, 1]
  {
    UnpackThree(s);
    assert BitsOf(s[0], 8) == [1, 0, 1, 1, 0, 0, 1, 0] by { ByteDigits(s[0], [1, 0, 1, 1, 0, 0, 1, 0]); }
    assert BitsOf(s[1], 8) == [0, 1, 1, 0, 1, 1, 0, 1] by { ByteDigits(s[1], [0, 1, 1, 0, 1, 1, 0, 1]); }
    assert BitsOf(s[2], 8) == [1, 1, 1, 0, 0, 0, 1, 1] by { ByteDigits(s[2], [1, 1, 1, 0, 0, 0, 1, 1]); }
  }

  /** The next three carry the next three groups. */
  lemma MiddleBytesBits(s: seq<Byte>)
    requires s == [89, 28, 170]
    ensures Unpack(s) == [0, 1, 0, 1, 1, 0, 0, 1] + [0, 0, 0, 1, 1, 1, 0, 0] + [1, 0, 1, 0, 1, 0, 1, 0]
  {
    UnpackThree(s);
    assert BitsOf(s[0], 8) == [0, 1, 0, 1, 1, 0, 0, 1] by { ByteDigits(s[0], [0, 1, 0, 1, 1, 0, 0, 1]); }
    assert BitsOf(s[1], 8) == [0, 0, 0, 1, 1, 1, 0, 0] by { ByteDigits(s[1], [0, 0, 0, 1, 1, 1, 0, 0]); }
    assert BitsOf(s[2], 8) == [1, 0, 1, 0, 1, 0, 1, 0] by { ByteDigits(s[2], [1, 0, 1, 0, 1, 0, 1, 0]); }
  }

  /** The hand-worked bytes carry exactly `main`'s bits and six zeros. */
  lemma MainBytesBits(s: seq<Byte>)
    requires s == MainBytes
    ensures Unpack(s) == MainBits + Zeros(6)
  {
    var front := [1, 0, 1, 1, 0, 0, 1, 0] + [0, 1, 1, 0, 1, 1, 0, 1] + [1, 1, 1, 0, 0, 0, 1, 1];
    var middle := [0, 1, 0, 1, 1, 0, 0, 1] + [0, 0, 0, 1, 1, 1, 0, 0] + [1, 0, 1, 0, 1, 0, 1, 0];
    assert Unpack(s[..6]) == front + middle by {
      assert s[..6] == s[..3] + s[3..6];
      UnpackConcat(s[..3], s[3..6]);
      FrontBytesBits(s[..3]);
      MiddleBytesBits(s[3..6]);
    }
    assert BitsOf(s[6], 8) == [1, 1] + Zeros(6) by {
      assert Zeros(6) == [0, 0, 0, 0, 0, 0];
      ByteDigits(s[6], [1, 1, 0, 0, 0, 0, 0, 0]);
    }
    UnpackUnfold(s);
    ConcatAssociates(front + middle, [1, 1], Zeros(6));
  }

  lemma ConcatAssociates<T>(x: seq<T>, y: seq<T>, z: seq<T>)
    ensures x + (y + z) == (x + y) + z
  {
  }

  /** The output file of `main` holds the seven hand-worked bytes. */
  lemma MainScenarioBytes()
    ensures Pack(MainBits) == MainBytes
  {
    MainPackLayout();
    MainBytesBits(MainBytes);
    UnpackInjective(Pack(MainBits), MainBytes);
  }
}
