/** The bit-shuffle of the blosc frame: bit k of byte j of every element, gathered together. */
module Bitshuffle {
  import opened ByteBits
  import opened Bytes
  import opened Transpose
  import Seqs

  // ----- one 8x8 bit matrix

  /** `trans_bit_8x8`. */
  function Trans(x: bv64): bv64 {
    var t1 := (x ^ (x >> 7)) & 0x00AA_00AA_00AA_00AA;
    var x1 := x ^ t1 ^ (t1 << 7);
    var t2 := (x1 ^ (x1 >> 14)) & 0x0000_CCCC_0000_CCCC;
    var x2 := x1 ^ t2 ^ (t2 << 14);
    var t3 := (x2 ^ (x2 >> 28)) & 0x0000_0000_F0F0_F0F0;
    x2 ^ t3 ^ (t3 << 28)
  }

  predicate BitOf(x: bv64, i: bv6) {
    (x >> i) & 1 == 1
  }

  /** The word, read as 8 bytes of 8 bits, is transposed. */
  lemma TransTransposes(x: bv64, i: bv6, j: bv6)
    requires i < 8 && j < 8
    ensures BitOf(Trans(x), 8 * i + j) == BitOf(x, 8 * j + i)
  {
  }

  function Join(b0: bv8, b1: bv8, b2: bv8, b3: bv8, b4: bv8, b5: bv8, b6: bv8, b7: bv8): bv64 {
    (b0 as bv64) | ((b1 as bv64) << 8) | ((b2 as bv64) << 16) | ((b3 as bv64) << 24)
    | ((b4 as bv64) << 32) | ((b5 as bv64) << 40) | ((b6 as bv64) << 48) | ((b7 as bv64) << 56)
  }

  function ByteAt(x: bv64, at: bv6): bv8 {
    ((x >> at) & 0xFF) as bv8
  }

  lemma ByteOfJoin(b0: bv8, b1: bv8, b2: bv8, b3: bv8, b4: bv8, b5: bv8, b6: bv8, b7: bv8)
    ensures var x := Join(b0, b1, b2, b3, b4, b5, b6, b7);
            && ByteAt(x, 0) == b0 && ByteAt(x, 8) == b1 && ByteAt(x, 16) == b2 && ByteAt(x, 24) == b3
            && ByteAt(x, 32) == b4 && ByteAt(x, 40) == b5 && ByteAt(x, 48) == b6 && ByteAt(x, 56) == b7
  {
  }

  /** `u64::from_le_bytes`. */
  function Word(w: seq<u8>): bv64
    requires |w| == 8
  {
    Join(ToBits(w[0]), ToBits(w[1]), ToBits(w[2]), ToBits(w[3]), ToBits(w[4]), ToBits(w[5]), ToBits(w[6]), ToBits(w[7]))
  }

  /** `u64::to_le_bytes`. */
  function WordBytes(x: bv64): (w: seq<u8>)
    ensures |w| == 8
  {
    [ToByte(ByteAt(x, 0)), ToByte(ByteAt(x, 8)), ToByte(ByteAt(x, 16)), ToByte(ByteAt(x, 24)),
     ToByte(ByteAt(x, 32)), ToByte(ByteAt(x, 40)), ToByte(ByteAt(x, 48)), ToByte(ByteAt(x, 56))]
  }

  lemma BytesOfWord(w: seq<u8>)
    requires |w| == 8
    ensures WordBytes(Word(w)) == w
  {
    hide Join, ByteAt, ToBits, ToByte;
    ByteOfJoin(ToBits(w[0]), ToBits(w[1]), ToBits(w[2]), ToBits(w[3]), ToBits(w[4]), ToBits(w[5]), ToBits(w[6]), ToBits(w[7]));
    forall k | 0 <= k < 8 ensures ToByte(ToBits(w[k])) == w[k] {
      BitsAsByte(w[k]);
    }
  }

  /** Bit j of all eight bytes, as one byte. */
  function BitColumn(w: seq<u8>, j: nat): u8
    requires |w| == 8
  {
    Value(Flags(Bit(w[0], j), Bit(w[1], j), Bit(w[2], j), Bit(w[3], j), Bit(w[4], j), Bit(w[5], j), Bit(w[6], j), Bit(w[7], j)))
  }

  /** Eight bytes as a bit matrix, transposed. */
  function TransWord(w: seq<u8>): (t: seq<u8>)
    requires |w| == 8
    ensures |t| == 8
  {
    seq(8, j requires 0 <= j < 8 => BitColumn(w, j))
  }

  lemma BitOfColumn(w: seq<u8>, i: nat, j: nat)
    requires |w| == 8 && i < 8
    ensures Bit(BitColumn(w, j), i) == Bit(w[i], j)
  {
    hide Value, FlagsOfValue, Bit;
    FlagsOfWeights(Flags(Bit(w[0], j), Bit(w[1], j), Bit(w[2], j), Bit(w[3], j), Bit(w[4], j), Bit(w[5], j), Bit(w[6], j), Bit(w[7], j)));
    ShiftsOfByte(BitColumn(w, j));
    if {
      case i == 0 =>
      case i == 1 =>
      case i == 2 =>
      case i == 3 =>
      case i == 4 =>
      case i == 5 =>
      case i == 6 =>
      case i == 7 =>
    }
  }

  /** A byte is known by its bits. */
  lemma ColumnByBits(w: seq<u8>, j: nat, v: u8)
    requires |w| == 8
    requires forall i: nat :: i < 8 ==> Bit(v, i) == Bit(w[i], j)
    ensures BitColumn(w, j) == v
  {
    hide Value, FlagsOfValue, Bit;
    ShiftsOfByte(v);
    ValueOfFlags(v);
  }

  /** Bit i of byte j of the transposed word is bit j of byte i. */
  lemma TransWordBits(w: seq<u8>, i: nat, j: nat)
    requires |w| == 8 && i < 8 && j < 8
    ensures Bit(TransWord(w)[j], i) == Bit(w[i], j)
  {
    hide BitColumn, Bit;
    BitOfColumn(w, i, j);
  }

  lemma TransWordTwice(w: seq<u8>)
    requires |w| == 8
    ensures TransWord(TransWord(w)) == w
  {
    hide BitColumn, Bit;
    var t := TransWord(w);
    forall j: nat | j < 8 ensures TransWord(t)[j] == w[j] {
      forall i: nat | i < 8 ensures Bit(w[j], i) == Bit(t[i], j) {
        BitOfColumn(w, j, i);
      }
      ColumnByBits(t, j, w[j]);
    }
  }

  /** The shifts and masks on the 64-bit word transpose the bit matrix. */
  lemma TransIsTransposed(w: seq<u8>)
    requires |w| == 8
    ensures WordBytes(Trans(Word(w))) == TransWord(w)
  {
    hide Trans, Word, WordBytes, BitColumn, Bit;
    var t := WordBytes(Trans(Word(w)));
    forall j: nat | j < 8 ensures t[j] == TransWord(w)[j] {
      forall i: nat | i < 8 ensures Bit(t[j], i) == Bit(w[i], j) {
        ShiftedBits(w, i, j);
      }
      ColumnByBits(w, j, t[j]);
    }
  }

  lemma ShiftedBits(w: seq<u8>, i: nat, j: nat)
    requires |w| == 8 && i < 8 && j < 8
    ensures Bit(WordBytes(Trans(Word(w)))[j], i) == Bit(w[i], j)
  {
    hide Trans, Word, WordBytes, Bit, BitOf, ToBits, ToByte;
    var i', j' := i as bv6, j as bv6;
    SmallIndex(i);
    SmallIndex(j);
    TransTransposes(Word(w), j', i');
    WordBit(Trans(Word(w)), j, i);
    WordBit(Word(w), i, j);
    BytesOfWord(w);
  }

  /** One word of the loops. */
  method TransBytes(w: seq<u8>) returns (t: seq<u8>)
    requires |w| == 8
    ensures t == TransWord(w)
  {
    hide Trans, Word, WordBytes, TransWord;
    TransIsTransposed(w);
    t := WordBytes(Trans(Word(w)));
  }

  lemma SmallIndex(i: nat)
    requires i < 8
    ensures (i as bv6) < 8
  {
  }

  lemma ByteBit(x: bv64, at: bv6, i: nat)
    requires i < 8 && at <= 56
    ensures Bit(ToByte(ByteAt(x, at)), i) == BitOf(x, at + (i as bv6))
  {
    hide ByteAt, BitOf, Bit, BvBit, ToByte;
    SmallIndex(i);
    BitsOfByteAt(x, at, i as bv6);
    BitOfByte(ByteAt(x, at), i);
  }

  lemma BitsOfByteAt(x: bv64, at: bv6, i: bv6)
    requires i < 8 && at <= 56
    ensures BvBit(ByteAt(x, at), i) <==> BitOf(x, at + i)
  {
  }

  lemma WordBit(x: bv64, j: nat, i: nat)
    requires i < 8 && j < 8
    ensures (i as bv6) < 8 && (j as bv6) < 8
    ensures Bit(WordBytes(x)[j], i) == BitOf(x, 8 * (j as bv6) + (i as bv6))
  {
    hide ByteAt, BitOf, Bit, ToByte;
    SmallIndex(i);
    SmallIndex(j);
    var at: bv6 := 8 * (j as bv6);
    ByteBit(x, at, i);
    if {
      case j == 0 =>
      case j == 1 => assert at == 8;
      case j == 2 => assert at == 16;
      case j == 3 => assert at == 24;
      case j == 4 => assert at == 32;
      case j == 5 => assert at == 40;
      case j == 6 => assert at == 48;
      case j == 7 => assert at == 56;
    }
  }
}
