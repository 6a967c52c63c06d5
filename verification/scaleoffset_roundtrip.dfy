/** Exactly which integer chunks the scale-offset filter restores. */
module ScaleOffsetRoundTrip {
  import opened Wrappers
  import opened Bytes
  import opened Bits
  import opened ScaleOffset
  import Seqs

  /** The greatest pattern of a cell: the code that stands for the fill value at full width. */
  function TopPattern(p: Params): nat {
    Pow2(p.Width()) - 1
  }

  /** What a caller can check on the cells before compressing them. At full width the codes are the
      cells themselves, so the minimum added back must be zero, and no cell may look like the fill
      code without being the fill value; the 64-bit count of codes must not have wrapped either. */
  ghost predicate Lossless(raws: seq<nat>, p: Params)
    requires p.Valid()
  {
    || Narrow(raws, p)
    || (&& Codes(raws, p) < TWO_64
        && MinKey(raws, p) == 0
        && (p.hasFill && p.fill != TopPattern(p) ==> TopPattern(p) !in raws))
  }

  ghost predicate AllSurvive(raws: seq<nat>, p: Params)
    requires p.Valid()
  {
    CodesPositive(raws, p);
    MinIsBound(raws, p);
    forall i :: 0 <= i < |raws| ==>
      (p.IsFill(raws[i]) || MinKey(raws, p) <= p.Key(raws[i])) &&
      Survives(raws[i], Minbits(raws, p), MinKey(raws, p), p)
  }

  lemma WideMinbits(raws: seq<nat>, p: Params)
    requires p.Valid() && !Narrow(raws, p) && Codes(raws, p) < TWO_64
    ensures Codes(raws, p) >= 1 && Minbits(raws, p) == p.Width()
  {
    hide Range;
    CodesPositive(raws, p);
    WideLog2(Codes(raws, p), p.Width());
    DivUnique(Codes(raws, p), TWO_64, 0, Codes(raws, p));
  }

  lemma WideLog2(n: nat, w: nat)
    requires w > 0 && n > Pow2(w - 1)
    ensures Log2(n) >= w
  {
    BitLengthBounds(n - 1);
    if Log2(n) < w {
      Pow2Monotone(BitLength(n - 1), w - 1);
    }
  }

  /** One cell at full width. */
  lemma WideCell(raw: nat, min: int, p: Params)
    requires p.Valid() && raw < Pow2(p.Width()) && (p.IsFill(raw) || min <= p.Key(raw))
    requires 0 <= min + Pow2(p.Width() - 1) && min < Pow2(p.Width())
    ensures Survives(raw, p.Width(), min, p) <==>
            if p.hasFill && raw == TopPattern(p) then p.fill == raw else min == 0
  {
    hide Le;
    var m := Pow2(p.Width());
    WidthBound(p);
    SurvivesByModulus(raw, p.Width(), min, p);
    LowOfSmall(raw, p.Width());
    MaskIsTop(p);
    if p.hasFill && raw == TopPattern(p) {
      DivUnique(p.fill, m, 0, p.fill);
    } else {
      ModOfMod(raw + min % TWO_64, p.Width());
      ModOfSum(raw, min, p);
      SmallShift(raw, min, m);
    }
  }

  lemma MaskIsTop(p: Params)
    requires p.Valid()
    ensures Mask(p.Width()) == TopPattern(p)
  {
    Pow2Constants();
  }

  lemma ModOfSum(raw: nat, min: int, p: Params)
    requires p.Valid()
    ensures (raw + min % TWO_64) % Pow2(p.Width()) == (raw + min) % Pow2(p.Width())
  {
    ModOfMod(raw + min % TWO_64, p.Width());
    ModOfMod(raw + min, p.Width());
    DivUnique(raw + min % TWO_64, TWO_64, (raw + min) / TWO_64 - min / TWO_64, (raw + min) % TWO_64);
  }

  /** Adding less than the modulus changes a remainder unless it adds nothing. */
  lemma SmallShift(raw: nat, min: int, m: nat)
    requires 0 <= raw < m && 0 < min + m && min < m
    ensures (raw + min) % m == raw <==> min == 0
  {
    if raw + min < 0 {
      DivUnique(raw + min, m, -1, raw + min + m);
    } else if raw + min >= m {
      DivUnique(raw + min, m, 1, raw + min - m);
    } else {
      DivUnique(raw + min, m, 0, raw + min);
    }
  }

  lemma MinKeyRange(raws: seq<nat>, p: Params)
    requires p.Valid() && Fits(raws, p.size)
    ensures 0 <= MinKey(raws, p) + Pow2(p.Width() - 1) && MinKey(raws, p) < Pow2(p.Width())
  {
    WidthBound(p);
    if Range(raws, p).Some? {
      var lo, hi := RangeAttained(raws, p);
    }
  }

  /** At full width the chunk survives exactly when its minimum is zero and no cell passes for fill. */
  lemma WideExactly(raws: seq<nat>, p: Params)
    requires p.Valid() && Fits(raws, p.size) && !Narrow(raws, p) && Codes(raws, p) < TWO_64
    ensures AllSurvive(raws, p) <==> Lossless(raws, p)
  {
    hide Range, Codes, Survives, Minbits;
    WideMinbits(raws, p);
    MinKeyRange(raws, p);
    MinIsBound(raws, p);
    forall i | 0 <= i < |raws|
      ensures Survives(raws[i], Minbits(raws, p), MinKey(raws, p), p) <==>
              if p.hasFill && raws[i] == TopPattern(p) then p.fill == raws[i] else MinKey(raws, p) == 0
    {
      WideCell(raws[i], MinKey(raws, p), p);
    }
    if AllSurvive(raws, p) {
      WideMinimum(raws, p);
    }
  }

  /** A minimum other than zero shows in the cell that attains it. */
  lemma WideMinimum(raws: seq<nat>, p: Params)
    requires p.Valid() && Fits(raws, p.size) && !Narrow(raws, p) && AllSurvive(raws, p)
    requires Codes(raws, p) < TWO_64
    ensures MinKey(raws, p) == 0
  {
    WideMinbits(raws, p);
    MinKeyRange(raws, p);
    if Range(raws, p).Some? {
      hide Range;
      var lo, hi := RangeAttained(raws, p);
      WideCell(raws[lo], MinKey(raws, p), p);
    }
  }

  /** When the count of codes wraps, nothing is stored and two different cells come back alike. */
  lemma WrappedFails(raws: seq<nat>, p: Params)
    requires p.Valid() && Fits(raws, p.size) && Codes(raws, p) >= TWO_64
    ensures !AllSurvive(raws, p)
  {
    WidthBound(p);
    CodesPositive(raws, p);
    MinIsBound(raws, p);
    var lo, hi := RangeAttained(raws, p);
    WrappedMinbits(raws, p, lo, hi);
    var min := MinKey(raws, p);
    if AllSurvive(raws, p) {
      SurvivesByModulus(raws[lo], 0, min, p);
      SurvivesByModulus(raws[hi], 0, min, p);
    }
  }

  lemma WrappedMinbits(raws: seq<nat>, p: Params, lo: nat, hi: nat)
    requires p.Valid() && Fits(raws, p.size) && Codes(raws, p) >= TWO_64
    requires lo < |raws| && hi < |raws| && Range(raws, p) == Some((p.Key(raws[lo]), p.Key(raws[hi])))
    ensures raws[lo] != raws[hi]
    ensures Codes(raws, p) >= 1 && Minbits(raws, p) == 0
  {
    WidthBound(p);
    var n := Codes(raws, p);
    assert n % TWO_64 == n - TWO_64;
  }

  /** A chunk survives exactly when it is lossless in the caller's terms. */
  lemma SurvivesExactly(raws: seq<nat>, p: Params)
    requires p.Valid() && Fits(raws, p.size)
    ensures AllSurvive(raws, p) <==> Lossless(raws, p)
  {
    if Narrow(raws, p) {
      CodesPositive(raws, p);
      MinIsBound(raws, p);
      forall i | 0 <= i < |raws|
        ensures Survives(raws[i], Minbits(raws, p), MinKey(raws, p), p)
      {
        NarrowCellSurvives(raws, p, i);
      }
    } else if Codes(raws, p) < TWO_64 {
      WideExactly(raws, p);
    } else {
      WrappedFails(raws, p);
    }
  }

  // ----- the stream

  lemma {:induction false} FromBitsOfToBits(v: nat, n: nat)
    ensures FromBits(ToBits(v, n)) == Low(v, n)
  {
    if n > 0 {
      FromBitsOfToBits(v / 2, n - 1);
      assert ToBits(v, n)[..n - 1] == ToBits(v / 2, n - 1);
    }
  }

  lemma BoundedTail(raws: seq<nat>, min: int, p: Params)
    requires raws != [] && Bounded(raws, min, p)
    ensures Bounded(raws[1..], min, p) && (p.IsFill(raws[0]) || min <= p.Key(raws[0]))
  {
    assert forall i :: 0 <= i < |raws| - 1 ==> raws[1..][i] == raws[i + 1];
  }

  function DecodedCells(raws: seq<nat>, minbits: nat, min: int, p: Params): (vs: seq<nat>)
    requires Bounded(raws, min, p)
    ensures |vs| == |raws|
    ensures forall i :: 0 <= i < |raws| ==>
              (p.IsFill(raws[i]) || min <= p.Key(raws[i])) && vs[i] == Decoded(raws[i], minbits, min, p)
  {
    if raws == [] then [] else
      BoundedTail(raws, min, p);
      [Decoded(raws[0], minbits, min, p)] + DecodedCells(raws[1..], minbits, min, p)
  }

  lemma ReadOneCode(code: nat, n: nat, minbits: nat, more: seq<bool>)
    requires n > 0
    ensures ReadCodes(ToBits(code, minbits) + more, n, minbits) ==
            if ReadCodes(more, n - 1, minbits).Failure? then Failure(ReadCodes(more, n - 1, minbits).error)
            else Success([Low(code, minbits)] + ReadCodes(more, n - 1, minbits).value)
  {
    FromBitsOfToBits(code, minbits);
    Seqs.DropAppended(ToBits(code, minbits), more);
  }

  lemma {:induction false} ReadPacked(raws: seq<nat>, minbits: nat, min: int, p: Params, rest: seq<bool>)
    requires Bounded(raws, min, p)
    ensures ReadCodes(Packed(raws, minbits, min, p) + rest, |raws|, minbits).Success?
    ensures RestoreAll(ReadCodes(Packed(raws, minbits, min, p) + rest, |raws|, minbits).value, minbits, min % TWO_64, p)
            == DecodedCells(raws, minbits, min, p)
  {
    if raws != [] {
      BoundedTail(raws, min, p);
      var code := Code(raws[0], minbits, min, p);
      assert code >= 0;
      hide Restore, Low, Code, ToBits;
      ReadPacked(raws[1..], minbits, min, p, rest);
      var more := Packed(raws[1..], minbits, min, p);
      Seqs.Assoc(ToBits(code, minbits), more, rest);
      ReadOneCode(code, |raws|, minbits, more + rest);
      var codes := ReadCodes(more + rest, |raws| - 1, minbits).value;
      Seqs.HeadOf(Low(code, minbits), codes);
    }
  }

  /** Equal bytes mean equal bytes in every cell. */
  lemma {:induction false} CellBytesEqual(a: seq<nat>, b: seq<nat>, size: nat)
    requires |a| == |b|
    ensures CellBytes(a, size) == CellBytes(b, size) <==>
            forall i :: 0 <= i < |a| ==> Le(a[i], size) == Le(b[i], size)
  {
    if a != [] {
      CellBytesEqual(a[1..], b[1..], size);
      Seqs.DropAppended(Le(a[0], size), CellBytes(a[1..], size));
      Seqs.DropAppended(Le(b[0], size), CellBytes(b[1..], size));
      forall i | 0 <= i < |a| - 1
        ensures Le(a[1..][i], size) == Le(a[i + 1], size) && Le(b[1..][i], size) == Le(b[i + 1], size)
      {
      }
    }
  }

  lemma HeaderFields(minbits: nat, minval: nat, c: seq<u8>)
    requires minbits <= 64 && minval < TWO_64 && |c| >= HEADER && c[..HEADER] == Header(minbits, minval)
    ensures FromLe(c[..4]) == minbits && c[4] == 8 && FromLe(c[5..13]) == minval
  {
    var h := Header(minbits, minval);
    Pow2Constants();
    assert c[..4] == h[..4] == Le(minbits, 4);
    assert c[4] == h[4];
    assert c[5..13] == h[5..13] == Le(minval, 8);
    FromLeOfLe(minbits, 4);
    FromLeOfLe(minval, 8);
  }

  ghost predicate IntegerChunk(cdata: seq<u32>, data: seq<u8>) {
    |cdata| >= 8 && cdata[3] == 0 && cdata[6] == 0 && 1 <= cdata[4] <= 8 && |data| >= Times(cdata[2], cdata[4])
  }

  /** What decompression makes of a compressed chunk, whether or not it is lossless. */
  lemma DecompressOfCompressed(cdata: seq<u32>, data: seq<u8>, c: seq<u8>)
    requires IntegerChunk(cdata, data)
    requires var p := ParamsOf(cdata); IsCompressed(c, Cells(data, p.nelmts, p.size), p)
    ensures var p := ParamsOf(cdata);
            var raws := Cells(data, p.nelmts, p.size);
            && Codes(raws, p) >= 1 && Bounded(raws, MinKey(raws, p), p)
            && Decompress(cdata, c) == Success(CellBytes(DecodedCells(raws, Minbits(raws, p), MinKey(raws, p), p), p.size))
  {
    hide Cells, Packed, Header, Minbits, Range, ReadCodes, RestoreAll, CellBytes, DecodedCells;
    var p := ParamsOf(cdata);
    var raws := Cells(data, p.nelmts, p.size);
    CodesPositive(raws, p);
    MinIsBound(raws, p);
    var minbits, min := Minbits(raws, p), MinKey(raws, p);
    var packed := Packed(raws, minbits, min, p);
    HeaderFields(minbits, min % TWO_64, c);
    ReadPacked(raws, minbits, min, p, Zeros(8 - |packed| % 8));
  }

  /** Decompression restores the chunk if and only if it is lossless. */
  lemma RoundTrip(cdata: seq<u32>, data: seq<u8>, c: seq<u8>)
    requires IntegerChunk(cdata, data)
    requires var p := ParamsOf(cdata); IsCompressed(c, Cells(data, p.nelmts, p.size), p)
    ensures var p := ParamsOf(cdata);
            Decompress(cdata, c) == Success(data[..Times(p.nelmts, p.size)]) <==>
            Lossless(Cells(data, p.nelmts, p.size), p)
  {
    hide Cells, Range, Minbits, CellBytes, Decompress, Survives, Lossless, IsCompressed;
    var p := ParamsOf(cdata);
    var raws := Cells(data, p.nelmts, p.size);
    DecompressOfCompressed(cdata, data, c);
    CellBytesOfCells(data, p.nelmts, p.size);
    SurvivesExactly(raws, p);
    var decoded := DecodedCells(raws, Minbits(raws, p), MinKey(raws, p), p);
    CellBytesEqual(decoded, raws, p.size);
    SurvivorsAreEqual(raws, p);
  }

  lemma SurvivorsAreEqual(raws: seq<nat>, p: Params)
    requires p.Valid() && Codes(raws, p) >= 1 && Bounded(raws, MinKey(raws, p), p)
    ensures var decoded := DecodedCells(raws, Minbits(raws, p), MinKey(raws, p), p);
            AllSurvive(raws, p) <==> forall i :: 0 <= i < |raws| ==> Le(decoded[i], p.size) == Le(raws[i], p.size)
  {
    hide Range, Minbits, Decoded, Le;
  }
}
