/** A byte as a number and as eight bits. The two are connected bit by bit, so that no proof has to
    relate the arithmetic of numbers to that of bit vectors in one step. */
module ByteBits {
  import opened Bytes

  /** Bits 0 to 7. */
  datatype Flags = Flags(f0: bool, f1: bool, f2: bool, f3: bool, f4: bool, f5: bool, f6: bool, f7: bool)

  function Digit(on: bool): (d: nat)
    ensures d <= 1
  {
    if on then 1 else 0
  }

  function Mask(on: bool, m: bv8): bv8 {
    if on then m else 0
  }

  /** One more digit below a number. */
  function Push(on: bool, high: nat): nat {
    Digit(on) + 2 * high
  }

  function Value(f: Flags): (v: u8) {
    Push(f.f0, Push(f.f1, Push(f.f2, Push(f.f3, Push(f.f4, Push(f.f5, Push(f.f6, Push(f.f7, 0))))))))
  }

  function Bits(f: Flags): bv8 {
    Mask(f.f0, 1) | Mask(f.f1, 2) | Mask(f.f2, 4) | Mask(f.f3, 8)
    | Mask(f.f4, 16) | Mask(f.f5, 32) | Mask(f.f6, 64) | Mask(f.f7, 128)
  }

  predicate Odd(v: nat) {
    v % 2 == 1
  }

  function FlagsOfValue(v: u8): Flags {
    var v1: nat := v / 2;
    var v2: nat := v1 / 2;
    var v3: nat := v2 / 2;
    var v4: nat := v3 / 2;
    var v5: nat := v4 / 2;
    var v6: nat := v5 / 2;
    var v7: nat := v6 / 2;
    Flags(Odd(v), Odd(v1), Odd(v2), Odd(v3), Odd(v4), Odd(v5), Odd(v6), Odd(v7))
  }

  function FlagsOfBits(b: bv8): Flags {
    Flags(b & 1 != 0, b & 2 != 0, b & 4 != 0, b & 8 != 0, b & 16 != 0, b & 32 != 0, b & 64 != 0, b & 128 != 0)
  }

  function ToBits(v: u8): bv8 {
    Bits(FlagsOfValue(v))
  }

  function ToByte(b: bv8): u8 {
    Value(FlagsOfBits(b))
  }

  lemma FlagsOfFlags(f: Flags)
    ensures FlagsOfBits(Bits(f)) == f
  {
  }

  lemma PushHalf(v: nat)
    ensures Push(Odd(v), v / 2) == v
  {
  }

  lemma HalfOfPush(on: bool, high: nat)
    ensures Push(on, high) / 2 == high && Odd(Push(on, high)) == on
  {
  }

  lemma ValueOfFlags(v: u8)
    ensures Value(FlagsOfValue(v)) == v
  {
    hide Push, Odd;
    var v1: nat := v / 2;
    var v2: nat := v1 / 2;
    var v3: nat := v2 / 2;
    var v4: nat := v3 / 2;
    var v5: nat := v4 / 2;
    var v6: nat := v5 / 2;
    var v7: nat := v6 / 2;
    PushHalf(v);
    PushHalf(v1);
    PushHalf(v2);
    PushHalf(v3);
    PushHalf(v4);
    PushHalf(v5);
    PushHalf(v6);
    PushHalf(v7);
  }

  lemma FlagsOfWeights(f: Flags)
    ensures FlagsOfValue(Value(f)) == f
  {
    hide Push, Odd;
    var r7 := Push(f.f7, 0);
    var r6 := Push(f.f6, r7);
    var r5 := Push(f.f5, r6);
    var r4 := Push(f.f4, r5);
    var r3 := Push(f.f3, r4);
    var r2 := Push(f.f2, r3);
    var r1 := Push(f.f1, r2);
    HalfOfPush(f.f0, r1);
    HalfOfPush(f.f1, r2);
    HalfOfPush(f.f2, r3);
    HalfOfPush(f.f3, r4);
    HalfOfPush(f.f4, r5);
    HalfOfPush(f.f5, r6);
    HalfOfPush(f.f6, r7);
    HalfOfPush(f.f7, 0);
  }

  lemma BitsAsByte(v: u8)
    ensures ToByte(ToBits(v)) == v
  {
    hide Bits, Value, FlagsOfBits, FlagsOfValue;
    FlagsOfFlags(FlagsOfValue(v));
    ValueOfFlags(v);
  }

  /** Bit k of a byte. */
  predicate Bit(v: u8, k: nat) {
    Odd(Shr(v, k))
  }

  lemma ShiftsOfByte(v: u8)
    ensures FlagsOfValue(v) == Flags(Bit(v, 0), Bit(v, 1), Bit(v, 2), Bit(v, 3), Bit(v, 4), Bit(v, 5), Bit(v, 6), Bit(v, 7))
  {
    hide Odd;
    assert Shr(v, 1) == v / 2;
    assert Shr(v, 2) == Shr(v, 1) / 2;
    assert Shr(v, 3) == Shr(v, 2) / 2;
    assert Shr(v, 4) == Shr(v, 3) / 2;
    assert Shr(v, 5) == Shr(v, 4) / 2;
    assert Shr(v, 6) == Shr(v, 5) / 2;
    assert Shr(v, 7) == Shr(v, 6) / 2;
  }

  predicate BvBit(b: bv8, k: bv6)
    requires k < 8
  {
    (b >> k) & 1 == 1
  }

  lemma FlagsAreBits(b: bv8)
    ensures FlagsOfBits(b) == Flags(BvBit(b, 0), BvBit(b, 1), BvBit(b, 2), BvBit(b, 3), BvBit(b, 4), BvBit(b, 5), BvBit(b, 6), BvBit(b, 7))
  {
  }

  /** The bits of the number are the bits of the bit vector. */
  lemma BitOfByte(b: bv8, k: nat)
    requires k < 8
    ensures (k as bv6) < 8 && Bit(ToByte(b), k) == BvBit(b, k as bv6)
  {
    hide Bits, Value, FlagsOfBits, FlagsOfValue, Bit, BvBit;
    FlagsOfWeights(FlagsOfBits(b));
    ShiftsOfByte(ToByte(b));
    FlagsAreBits(b);
    if {
      case k == 0 =>
      case k == 1 =>
      case k == 2 =>
      case k == 3 =>
      case k == 4 =>
      case k == 5 =>
      case k == 6 =>
      case k == 7 =>
    }
  }
}
