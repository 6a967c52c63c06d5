/** The packing and unpacking loops of the scale-offset filter. */
module ScaleOffsetCodec {
  import opened Wrappers
  import opened Bytes
  import opened Bits
  import opened ScaleOffset
  import opened ScaleOffsetRoundTrip
  import Seqs

  // ----- splitting and joining bit strings

  lemma {:induction false} ToBitsSplit(v: nat, a: nat, b: nat)
    ensures ToBits(v, a + b) == ToBits(Shr(v, b), a) + ToBits(Low(v, b), b)
  {
    if b > 0 {
      ToBitsSplit(v / 2, a, b - 1);
      ShrOfHalf(v, b - 1);
      Seqs.Assoc(ToBits(Shr(v, b), a), ToBits(Low(v / 2, b - 1), b - 1), [v % 2 == 1]);
    } else {
      Seqs.Empty(ToBits(v, a));
    }
  }

  lemma ToBitsLow(v: nat, n: nat)
    ensures ToBits(Low(v, n), n) == ToBits(v, n)
  {
    ToBitsSplit(v, 0, n);
    Seqs.Empty(ToBits(v, n));
  }

  /** `v << k` without a width. */
  function ShiftLeft(v: nat, k: nat): nat {
    if k == 0 then v else 2 * ShiftLeft(v, k - 1)
  }

  lemma ShiftByNothing(v: nat)
    ensures ShiftLeft(v, 0) == v && Shr(v, 0) == v
  {
  }

  lemma {:induction false} ShiftLeftTwice(v: nat, a: nat, b: nat)
    ensures ShiftLeft(ShiftLeft(v, a), b) == ShiftLeft(v, a + b)
  {
    if b > 0 {
      ShiftLeftTwice(v, a, b - 1);
    }
  }

  lemma {:induction false} ShiftLeftSum(v: nat, w: nat, k: nat)
    ensures ShiftLeft(v + w, k) == ShiftLeft(v, k) + ShiftLeft(w, k)
  {
    if k > 0 {
      ShiftLeftSum(v, w, k - 1);
    }
  }

  lemma {:induction false} ToBitsJoin(hi: nat, a: nat, c: nat, b: nat)
    requires c < Pow2(b)
    ensures ToBits(ShiftLeft(hi, b) + c, a + b) == ToBits(hi, a) + ToBits(c, b)
  {
    if b > 0 {
      ToBitsJoin(hi, a, c / 2, b - 1);
      Seqs.Assoc(ToBits(hi, a), ToBits(c / 2, b - 1), [c % 2 == 1]);
    } else {
      Seqs.Empty(ToBits(hi, a));
    }
  }

  lemma {:induction false} ShiftLeftBound(v: nat, n: nat, k: nat)
    requires v < Pow2(n)
    ensures ShiftLeft(v, k) + Pow2(k) <= Pow2(n + k)
  {
    if k > 0 {
      ShiftLeftBound(v, n, k - 1);
    }
  }

  lemma {:induction false} ShrTwice(v: nat, a: nat, b: nat)
    ensures Shr(Shr(v, a), b) == Shr(v, a + b)
  {
    if b > 0 {
      ShrTwice(v, a, b - 1);
    }
  }

  lemma {:induction false} LowLow(v: nat, a: nat, b: nat)
    requires a <= b
    ensures Low(Low(v, b), a) == Low(v, a)
  {
    if a > 0 {
      LowLow(v / 2, a - 1, b - 1);
      HalfOfLow(v, b);
    }
  }

  lemma HalfOfLow(v: nat, b: nat)
    requires b > 0
    ensures Low(v, b) / 2 == Low(v / 2, b - 1) && Low(v, b) % 2 == v % 2
  {
  }

  lemma {:induction false} ShrBound(v: nat, a: nat, b: nat)
    requires v < Pow2(a + b)
    ensures Shr(v, b) < Pow2(a)
  {
    if b > 0 {
      ShrBound(v / 2, a, b - 1);
      ShrOfHalf(v, b - 1);
    }
  }

  // ----- packing

  /** The packer's variables: finished bytes, the byte under construction and its free low bits. */
  datatype Packer = Packer(out: seq<u8>, cur: u8, bitsFree: nat) {
    /** `hi` is what the used high bits of `cur` hold. */
    ghost predicate Holds(hi: nat, bits: seq<bool>) {
      && 1 <= bitsFree <= 8
      && cur == ShiftLeft(hi, bitsFree) && hi < Pow2(8 - bitsFree)
      && bits == Unpack(out) + ToBits(hi, 8 - bitsFree)
    }
  }

  /** Every bit packed so far. */
  ghost predicate Contains(pk: Packer, bits: seq<bool>) {
    exists hi: nat :: pk.Holds(hi, bits)
  }

  /** The chunk fits into the byte under construction. */
  lemma FitsIn(pk: Packer, hi: nat, bits: seq<bool>, chunk: nat, n: nat)
    requires pk.Holds(hi, bits) && 0 < n <= pk.bitsFree && chunk < Pow2(n)
    ensures var hi' := ShiftLeft(hi, n) + chunk;
            && hi' < Pow2(8 - pk.bitsFree + n)
            && pk.cur + ShiftLeft(chunk, pk.bitsFree - n) == ShiftLeft(hi', pk.bitsFree - n)
            && pk.cur + ShiftLeft(chunk, pk.bitsFree - n) < 0x100
            && Unpack(pk.out) + ToBits(hi', 8 - pk.bitsFree + n) == bits + ToBits(chunk, n)
  {
    Pow2Constants();
    hide ShiftLeft, ToBits, Unpack, Pow2;
    var free := pk.bitsFree;
    var hi' := ShiftLeft(hi, n) + chunk;
    ShiftLeftBound(hi, 8 - free, n);
    ShiftLeftSum(ShiftLeft(hi, n), chunk, free - n);
    ShiftLeftTwice(hi, n, free - n);
    ShiftLeftBound(hi', 8 - free + n, free - n);
    ToBitsJoin(hi, 8 - free, chunk, n);
    Seqs.Assoc(Unpack(pk.out), ToBits(hi, 8 - free), ToBits(chunk, n));
  }

  /** Packs the n low bits of a byte-sized chunk. */
  method PutChunk(pk: Packer, chunk: nat, n: nat, ghost bits: seq<bool>) returns (r: Packer)
    requires Contains(pk, bits) && 0 < n <= 8 && chunk < Pow2(n)
    ensures Contains(r, bits + ToBits(chunk, n))
    decreases n
  {
    hide ShiftLeft, ToBits, Unpack, Pow2, Shr, Low;
    ghost var hi: nat :| pk.Holds(hi, bits);
    var free := pk.bitsFree;
    if n <= free {
      FitsIn(pk, hi, bits, chunk, n);
      r := Close(pk.out, pk.cur + ShiftLeft(chunk, free - n), free - n, ShiftLeft(hi, n) + chunk, bits + ToBits(chunk, n));
    } else {
      var top, low := Shr(chunk, n - free), Low(chunk, n - free);
      ShiftByNothing(top);
      ShiftByNothing(ShiftLeft(hi, free) + top);
      ToBitsSplit(chunk, free, n - free);
      ShrBound(chunk, free, n - free);
      FitsIn(pk, hi, bits, top, free);
      Seqs.Assoc(bits, ToBits(top, free), ToBits(low, n - free));
      r := Close(pk.out, pk.cur + top, 0, ShiftLeft(hi, free) + top, bits + ToBits(top, free));
      r := PutChunk(r, low, n - free, bits + ToBits(top, free));
    }
  }

  /** Emits the byte under construction once it is full. */
  method Close(out: seq<u8>, cur: u8, free: nat, ghost hi: nat, ghost bits: seq<bool>) returns (r: Packer)
    requires free < 8 && hi < Pow2(8 - free) && cur == ShiftLeft(hi, free)
    requires bits == Unpack(out) + ToBits(hi, 8 - free)
    ensures Contains(r, bits) && (free > 0 ==> r.bitsFree == free) && (free == 0 ==> r.bitsFree == 8)
  {
    if free == 0 {
      r := Packer(out + [cur], 0, 8);
      assert (out + [cur])[..|out|] == out;
      Seqs.Empty(bits);
      ZeroShifted(8);
      assert r.Holds(0, bits);
    } else {
      r := Packer(out, cur, free);
      assert r.Holds(hi, bits);
    }
  }

  lemma {:induction false} ZeroShifted(k: nat)
    ensures ShiftLeft(0, k) == 0
  {
    if k > 0 {
      ZeroShifted(k - 1);
    }
  }

  /** Index of the highest byte of a code, and how many of its bits are used. */
  lemma TopByte(size: nat, minbits: nat)
    requires 1 <= size <= 8 && 0 < minbits <= 8 * size
    ensures var begin, top := size - 1 - (8 * size - minbits) / 8, 8 - (8 * size - minbits) % 8;
            0 <= begin < size && 1 <= top <= 8 && minbits == 8 * begin + top
  {
  }

  /** Packs one code, from its highest byte down. */
  method PutCode(pk: Packer, code: nat, size: nat, minbits: nat, ghost bits: seq<bool>) returns (r: Packer)
    requires Contains(pk, bits) && 1 <= size <= 8 && 0 < minbits <= 8 * size
    ensures Contains(r, bits + ToBits(code, minbits))
  {
    hide ToBits, Pow2, Shr, Low, Contains;
    TopByte(size, minbits);
    var begin, top := size - 1 - (8 * size - minbits) / 8, 8 - (8 * size - minbits) % 8;
    ToBitsLow(Shr(code, 8 * begin), top);
    LowLow(Shr(code, 8 * begin), top, 8);
    r := PutChunk(pk, Low(Low(Shr(code, 8 * begin), 8), top), top, bits);
    var k: nat := begin;
    while k > 0
      invariant 0 <= k <= begin
      invariant Contains(r, bits + ToBits(Shr(code, 8 * k), minbits - 8 * k))
    {
      k := k - 1;
      ghost var before := ToBits(Shr(code, 8 * (k + 1)), minbits - 8 * (k + 1));
      ToBitsSplit(Shr(code, 8 * k), minbits - 8 * (k + 1), 8);
      ShrTwice(code, 8 * k, 8);
      Seqs.Assoc(bits, before, ToBits(Low(Shr(code, 8 * k), 8), 8));
      r := PutChunk(r, Low(Shr(code, 8 * k), 8), 8, bits + before);
    }
    ShiftByNothing(code);
  }

  /** Flushes the last byte; its unused bits are zero. */
  method FinishPacking(pk: Packer, ghost bits: seq<bool>) returns (out: seq<u8>)
    requires Contains(pk, bits)
    ensures |out| == CeilDiv(|bits|, 8) && Unpack(out) == bits + Zeros(8 * |out| - |bits|)
  {
    ghost var hi: nat :| pk.Holds(hi, bits);
    out := pk.out;
    if pk.bitsFree < 8 {
      out := pk.out + [pk.cur];
      assert (pk.out + [pk.cur])[..|pk.out|] == pk.out;
      ZeroLow(hi, pk.bitsFree);
      Seqs.Assoc(Unpack(pk.out), ToBits(hi, 8 - pk.bitsFree), Zeros(pk.bitsFree));
    }
  }

  lemma {:induction false} ZeroLow(hi: nat, k: nat)
    requires k <= 8
    ensures ToBits(ShiftLeft(hi, k), 8) == ToBits(hi, 8 - k) + Zeros(k)
  {
    ZeroBits(k);
    ToBitsJoin(hi, 8 - k, 0, k);
  }

  lemma {:induction false} ZeroBits(n: nat)
    ensures ToBits(0, n) == Zeros(n)
  {
    if n > 0 {
      ZeroBits(n - 1);
      assert Zeros(n) == Zeros(n - 1) + [false];
    }
  }
}
