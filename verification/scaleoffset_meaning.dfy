/** Which chunks the scale-offset filter restores, in terms of its parameter words and the chunk's bytes. */
module ScaleOffsetMeaning {
  import opened Wrappers
  import opened Bytes
  import opened Bits
  import opened ScaleOffset
  import opened ScaleOffsetRoundTrip
  import Seqs

  /** Byte k of cell i of a chunk of cells of `size` bytes. */
  function CellByte(data: seq<u8>, size: nat, i: nat, k: nat): u8
    requires |data| >= Times(i, size) + size && k < size
  {
    data[Times(i, size) + k]
  }

  /** The number in cell i: two's complement when word 5 says that cells are signed. */
  function CellValue(cdata: seq<u32>, data: seq<u8>, i: nat): int
    requires |cdata| >= 8 && cdata[4] >= 1 && |data| >= Times(i, cdata[4]) + cdata[4]
  {
    var size: nat := cdata[4];
    var raw := FromLe(data[Times(i, size)..Times(i, size) + size]);
    if cdata[5] == 1 && raw >= Pow2(8 * size - 1) then raw - Pow2(8 * size) else raw
  }

  /** Byte k of the fill value: four to a word from word 8, least significant first, and zeros where
      words are missing. */
  function FillByte(cdata: seq<u32>, k: nat): u8 {
    Le(if 8 + k / 4 < |cdata| then cdata[8 + k / 4] else 0, 4)[k % 4]
  }

  /** Word 7 says that there is a fill value, and cell i holds it. */
  predicate FillCell(cdata: seq<u32>, data: seq<u8>, i: nat)
    requires |cdata| >= 8 && |data| >= Times(i, cdata[4]) + cdata[4]
  {
    cdata[7] == 1 && forall k :: 0 <= k < cdata[4] ==> CellByte(data, cdata[4], i, k) == FillByte(cdata, k)
  }

  /** Whether the numbers between any two cells that do not hold the fill value, with both ends and a
      code for the fill value, are at most `limit`. */
  ghost predicate Spans(cdata: seq<u32>, data: seq<u8>, limit: int)
    requires IntegerChunk(cdata, data)
  {
    forall i: nat, j: nat :: i < cdata[2] && j < cdata[2] ==> SpansCells(cdata, data, i, j, limit)
  }

  ghost predicate SpansCells(cdata: seq<u32>, data: seq<u8>, i: nat, j: nat, limit: int)
    requires IntegerChunk(cdata, data) && i < cdata[2] && j < cdata[2]
  {
    CellWithin(cdata, data, i);
    CellWithin(cdata, data, j);
    !FillCell(cdata, data, i) && !FillCell(cdata, data, j) ==>
      CellValue(cdata, data, i) - CellValue(cdata, data, j) + 1 + (if cdata[7] == 1 then 1 else 0) <= limit
  }

  lemma CellWithin(cdata: seq<u32>, data: seq<u8>, i: nat)
    requires IntegerChunk(cdata, data) && i < cdata[2]
    ensures |data| >= Times(i, cdata[4]) + cdata[4]
  {
    TimesMonotone(i, cdata[2], cdata[4]);
  }

  /** The least number among the cells that do not hold the fill value is zero. */
  ghost predicate LeastIsZero(cdata: seq<u32>, data: seq<u8>)
    requires IntegerChunk(cdata, data)
  {
    && (forall i: nat :: i < cdata[2] ==> NotNegative(cdata, data, i))
    && exists i: nat :: i < cdata[2] && ZeroCell(cdata, data, i)
  }

  ghost predicate NotNegative(cdata: seq<u32>, data: seq<u8>, i: nat)
    requires IntegerChunk(cdata, data) && i < cdata[2]
  {
    CellWithin(cdata, data, i);
    !FillCell(cdata, data, i) ==> CellValue(cdata, data, i) >= 0
  }

  ghost predicate ZeroCell(cdata: seq<u32>, data: seq<u8>, i: nat)
    requires IntegerChunk(cdata, data) && i < cdata[2]
  {
    CellWithin(cdata, data, i);
    !FillCell(cdata, data, i) && CellValue(cdata, data, i) == 0
  }

  /** With a fill value, no cell of ones only, but for cells that hold the fill value. */
  ghost predicate NoFalseFill(cdata: seq<u32>, data: seq<u8>)
    requires IntegerChunk(cdata, data)
  {
    forall i: nat :: i < cdata[2] ==> NotFalseFill(cdata, data, i)
  }

  ghost predicate NotFalseFill(cdata: seq<u32>, data: seq<u8>, i: nat)
    requires IntegerChunk(cdata, data) && i < cdata[2]
  {
    CellWithin(cdata, data, i);
    cdata[7] == 1 && (forall k :: 0 <= k < cdata[4] ==> CellByte(data, cdata[4], i, k) == 0xff) ==> FillCell(cdata, data, i)
  }

  /** What a caller can check on the words and the bytes before compressing them. Either the cells
      need one bit less than they have, or they are stored as they are: then their least number must
      be zero, none may pass for the fill value, and their codes must be counted in 64 bits. */
  ghost predicate Restorable(cdata: seq<u32>, data: seq<u8>)
    requires IntegerChunk(cdata, data)
  {
    || Spans(cdata, data, Pow2(8 * cdata[4] - 1))
    || (Spans(cdata, data, TWO_64 - 1) && LeastIsZero(cdata, data) && NoFalseFill(cdata, data))
  }

  // ----- the parameters

  lemma {:induction false} LeAt(v: nat, n: nat, j: nat)
    requires j < n
    ensures Le(v, n)[j] == Low(Shr(v, j * 8), 8)
  {
    if j == 0 {
      LowByte(v);
    } else {
      LeAt(v / 0x100, n - 1, j - 1);
      ShrByte(v, (j - 1) * 8);
    }
  }

  lemma LowByte(v: nat)
    ensures Low(v, 8) == v % 0x100
  {
    LowIsRemainder(v, 8);
    DivUnique(v, 0x100, Shr(v, 8), Low(v, 8));
  }

  lemma {:induction false} ShrByte(v: nat, i: nat)
    ensures Shr(v / 0x100, i) == Shr(v, i + 8)
  {
    if i == 0 {
      ShrIsDivision(v, 8);
      assert Pow2(8) == 0x100;
    } else {
      ShrByte(v, i - 1);
    }
  }

  lemma FillWord(cdata: seq<u32>, size: nat, k: nat)
    requires k < size
    ensures FillBytes(cdata, size)[k] == FillByte(cdata, k)
  {
    LeAt(if 8 + k / 4 < |cdata| then cdata[8 + k / 4] else 0, 4, k % 4);
  }

  lemma {:induction false} CellAt(d: seq<u8>, n: nat, size: nat, i: nat)
    requires |d| >= Times(n, size) && i < n
    ensures |d| >= Times(i, size) + size
    ensures Cells(d, n, size)[i] == FromLe(d[Times(i, size)..Times(i, size) + size])
    decreases n
  {
    hide FromLe;
    TimesMonotone(i, n, size);
    TimesMonotone(1, n, size);
    if i > 0 {
      CellAt(d[size..], n - 1, size, i - 1);
      SliceBehind(d, size, Times(i - 1, size), size);
    }
  }

  lemma SliceBehind(d: seq<u8>, skip: nat, at: nat, n: nat)
    requires skip + at + n <= |d|
    ensures d[skip..][at..at + n] == d[at + skip..at + skip + n]
  {
  }

  lemma SameNumber(a: seq<u8>, b: seq<u8>)
    requires |a| == |b|
    ensures FromLe(a) == FromLe(b) <==> a == b
  {
    LeOfFromLe(a);
    LeOfFromLe(b);
  }

  /** A cell has the bytes of the fill value exactly when it is the same number. */
  lemma SameAsFill(cdata: seq<u32>, data: seq<u8>, size: nat, i: nat)
    requires |data| >= Times(i, size) + size
    ensures FromLe(data[Times(i, size)..Times(i, size) + size]) == FromLe(FillBytes(cdata, size)) <==>
            forall k :: 0 <= k < size ==> CellByte(data, size, i, k) == FillByte(cdata, k)
  {
    hide FromLe, FillByte, FillBytes;
    var cell := data[Times(i, size)..Times(i, size) + size];
    SameNumber(cell, FillBytes(cdata, size));
    forall k | 0 <= k < size ensures FillBytes(cdata, size)[k] == FillByte(cdata, k) && cell[k] == CellByte(data, size, i, k) {
      FillWord(cdata, size, k);
    }
    assert cell == FillBytes(cdata, size) <==> forall k :: 0 <= k < size ==> cell[k] == FillBytes(cdata, size)[k];
  }

  /** What the parameters make of a cell. */
  lemma CellMeans(cdata: seq<u32>, data: seq<u8>, i: nat)
    requires IntegerChunk(cdata, data) && i < cdata[2]
    ensures |data| >= Times(i, cdata[4]) + cdata[4]
    ensures var p := ParamsOf(cdata);
            var raw := Cells(data, cdata[2], cdata[4])[i];
            && raw < Pow2(8 * cdata[4])
            && p.Key(raw) == CellValue(cdata, data, i)
            && (p.IsFill(raw) <==> FillCell(cdata, data, i))
  {
    hide Pow2, FromLe, Cells, FillBytes, FillByte, CellByte;
    var p, size: nat := ParamsOf(cdata), cdata[4];
    CellAt(data, cdata[2], size, i);
    var raw := FromLe(data[Times(i, size)..Times(i, size) + size]);
    FromLeBound(data[Times(i, size)..Times(i, size) + size]);
    SameAsFill(cdata, data, size, i);
    if p.Key(raw) == p.Key(p.fill) {
      KeyIsInjective(raw, p.fill, p);
    }
  }

  // ----- the two conditions are one

  function Raws(cdata: seq<u32>, data: seq<u8>): (raws: seq<nat>)
    requires IntegerChunk(cdata, data)
    ensures |raws| == cdata[2]
  {
    Cells(data, cdata[2], cdata[4])
  }

  lemma SpansIsCodes(cdata: seq<u32>, data: seq<u8>, limit: int)
    requires IntegerChunk(cdata, data) && limit >= 2
    ensures Spans(cdata, data, limit) <==> Codes(Raws(cdata, data), ParamsOf(cdata)) <= limit
  {
    hide Raws, CellValue, FillCell, Range, ParamsOf;
    var p, raws := ParamsOf(cdata), Raws(cdata, data);
    ParamFacts(cdata);
    if Codes(raws, p) <= limit {
      forall i: nat, j: nat | i < cdata[2] && j < cdata[2] ensures SpansCells(cdata, data, i, j, limit) {
        RawMeans(cdata, data, i);
        RawMeans(cdata, data, j);
        if !FillCell(cdata, data, i) && !FillCell(cdata, data, j) {
          RangeCovers(raws, p, i);
          RangeCovers(raws, p, j);
        }
      }
    }
    if Spans(cdata, data, limit) && Range(raws, p).Some? {
      var lo, hi := RangeAttained(raws, p);
      RawMeans(cdata, data, lo);
      RawMeans(cdata, data, hi);
      assert SpansCells(cdata, data, hi, lo, limit);
    }
  }

  lemma ParamFacts(cdata: seq<u32>)
    requires |cdata| >= 8 && 1 <= cdata[4] <= 8
    ensures var p := ParamsOf(cdata);
            && p.Valid() && p.nelmts == cdata[2] && p.size == cdata[4] && p.Width() == 8 * cdata[4]
            && p.hasFill == (cdata[7] == 1)
  {
  }

  lemma RawMeans(cdata: seq<u32>, data: seq<u8>, i: nat)
    requires IntegerChunk(cdata, data) && i < cdata[2]
    ensures |data| >= Times(i, cdata[4]) + cdata[4]
    ensures var p, raw := ParamsOf(cdata), Raws(cdata, data)[i];
            && raw < Pow2(8 * cdata[4])
            && p.Key(raw) == CellValue(cdata, data, i)
            && (p.IsFill(raw) <==> FillCell(cdata, data, i))
  {
    hide ParamsOf, CellValue, FillCell;
    CellMeans(cdata, data, i);
  }

  lemma LeastIsMin(cdata: seq<u32>, data: seq<u8>)
    requires IntegerChunk(cdata, data)
    requires Range(Raws(cdata, data), ParamsOf(cdata)).Some?
    ensures LeastIsZero(cdata, data) <==> MinKey(Raws(cdata, data), ParamsOf(cdata)) == 0
  {
    hide Raws, CellValue, FillCell, Range, ParamsOf;
    var p, raws := ParamsOf(cdata), Raws(cdata, data);
    var lo, hi := RangeAttained(raws, p);
    RawMeans(cdata, data, lo);
    forall i: nat | i < cdata[2]
      ensures !p.IsFill(raws[i]) ==> MinKey(raws, p) <= p.Key(raws[i])
      ensures ZeroCell(cdata, data, i) <==> !p.IsFill(raws[i]) && p.Key(raws[i]) == 0
      ensures NotNegative(cdata, data, i) <==> (!p.IsFill(raws[i]) ==> p.Key(raws[i]) >= 0)
    {
      RawMeans(cdata, data, i);
      if !p.IsFill(raws[i]) {
        RangeCovers(raws, p, i);
      }
    }
    if MinKey(raws, p) == 0 {
      assert ZeroCell(cdata, data, lo);
    }
    if LeastIsZero(cdata, data) {
      assert NotNegative(cdata, data, lo);
    }
  }

  lemma {:induction false} AllOnes(s: seq<u8>)
    ensures FromLe(s) == Pow2(8 * |s|) - 1 <==> forall k :: 0 <= k < |s| ==> s[k] == 0xff
  {
    if s != [] {
      AllOnes(s[1..]);
      FromLeBound(s[1..]);
      Pow2Times256(|s| - 1);
      assert forall k :: 0 < k < |s| ==> s[k] == s[1..][k - 1];
    }
  }

  lemma TopCell(cdata: seq<u32>, data: seq<u8>, i: nat)
    requires IntegerChunk(cdata, data) && i < cdata[2]
    ensures |data| >= Times(i, cdata[4]) + cdata[4]
    ensures Raws(cdata, data)[i] == Pow2(8 * cdata[4]) - 1 <==>
            forall k :: 0 <= k < cdata[4] ==> CellByte(data, cdata[4], i, k) == 0xff
  {
    hide FromLe, Cells, Pow2;
    CellAt(data, cdata[2], cdata[4], i);
    var cell := data[Times(i, cdata[4])..Times(i, cdata[4]) + cdata[4]];
    AllOnes(cell);
    assert forall k :: 0 <= k < |cell| ==> cell[k] == CellByte(data, cdata[4], i, k);
  }

  lemma FalseFills(cdata: seq<u32>, data: seq<u8>)
    requires IntegerChunk(cdata, data) && ParamsOf(cdata).Valid()
    ensures var p := ParamsOf(cdata);
            NoFalseFill(cdata, data) <==> (p.hasFill && p.fill != TopPattern(p) ==> TopPattern(p) !in Raws(cdata, data))
  {
    hide Raws, CellByte, FillCell, ParamsOf, Pow2;
    var p, raws := ParamsOf(cdata), Raws(cdata, data);
    ParamFacts(cdata);
    forall i: nat | i < cdata[2]
      ensures NotFalseFill(cdata, data, i) <==> (p.hasFill && raws[i] == TopPattern(p) ==> raws[i] == p.fill)
    {
      RawMeans(cdata, data, i);
      TopCell(cdata, data, i);
      if p.Key(raws[i]) == p.Key(p.fill) {
        KeyIsInjective(raws[i], p.fill, p);
      }
    }
    if TopPattern(p) in raws {
      var i: nat :| i < cdata[2] && raws[i] == TopPattern(p);
      assert NotFalseFill(cdata, data, i) <==> (p.hasFill ==> TopPattern(p) == p.fill);
    }
  }

  /** What is lossless in terms of the parameters is restorable in terms of the words. */
  lemma RestorableIsLossless(cdata: seq<u32>, data: seq<u8>)
    requires IntegerChunk(cdata, data)
    ensures ParamsOf(cdata).Valid()
    ensures Restorable(cdata, data) <==> Lossless(Raws(cdata, data), ParamsOf(cdata))
  {
    hide Raws, Spans, LeastIsZero, NoFalseFill, Range, ParamsOf;
    var p, raws := ParamsOf(cdata), Raws(cdata, data);
    ParamFacts(cdata);
    WidthBound(p);
    SpansIsCodes(cdata, data, Pow2(8 * cdata[4] - 1));
    SpansIsCodes(cdata, data, TWO_64 - 1);
    FalseFills(cdata, data);
    if Range(raws, p).Some? {
      LeastIsMin(cdata, data);
    }
  }

  /** A chunk comes back if and only if it is restorable. */
  lemma RestoresExactly(cdata: seq<u32>, data: seq<u8>, c: seq<u8>)
    requires IntegerChunk(cdata, data)
    requires IsCompressed(c, Cells(data, cdata[2], cdata[4]), ParamsOf(cdata))
    ensures Decompress(cdata, c) == Success(data[..Times(cdata[2], cdata[4])]) <==> Restorable(cdata, data)
  {
    hide Decompress, Restorable, Cells, IsCompressed, Lossless, FillBytes;
    RoundTrip(cdata, data, c);
    RestorableIsLossless(cdata, data);
  }

  // ----- chunks of any writer

  function PrintCodes(codes: seq<nat>, minbits: nat): seq<bool> {
    if codes == [] then [] else ToBits(codes[0], minbits) + PrintCodes(codes[1..], minbits)
  }

  lemma {:induction false} ReadCodesOf(codes: seq<nat>, minbits: nat, rest: seq<bool>)
    requires forall i :: 0 <= i < |codes| ==> codes[i] < Pow2(minbits)
    ensures ReadCodes(PrintCodes(codes, minbits) + rest, |codes|, minbits) == Success(codes)
  {
    hide ToBits, Pow2, Low;
    if codes != [] {
      ReadCodesOf(codes[1..], minbits, rest);
      Seqs.Assoc(ToBits(codes[0], minbits), PrintCodes(codes[1..], minbits), rest);
      ReadOneCode(codes[0], |codes|, minbits, PrintCodes(codes[1..], minbits) + rest);
      LowOfSmall(codes[0], minbits);
      Seqs.HeadAndTail(codes);
    }
  }

  lemma {:induction false} RestoredAt(codes: seq<nat>, minbits: nat, minval: nat, p: Params, i: nat)
    requires i < |codes|
    ensures RestoreAll(codes, minbits, minval, p)[i] == Restore(codes[i], minbits, minval, p)
  {
    hide Restore;
    if i > 0 {
      RestoredAt(codes[1..], minbits, minval, p, i - 1);
    }
  }

  lemma {:induction false} CellBytesAt(raws: seq<nat>, size: nat, i: nat)
    requires i < |raws|
    ensures Times(i, size) + size <= |CellBytes(raws, size)|
    ensures CellBytes(raws, size)[Times(i, size)..Times(i, size) + size] == Le(raws[i], size)
  {
    hide Le;
    TimesMonotone(i, |raws|, size);
    var head, tail := Le(raws[0], size), CellBytes(raws[1..], size);
    if i > 0 {
      CellBytesAt(raws[1..], size, i - 1);
      SliceBehind(head + tail, size, Times(i - 1, size), size);
      Seqs.DropAppended(head, tail);
    } else {
      Seqs.DropAppended(head, tail);
    }
  }

  /** The bytes of a cell: the fill value for the code of ones, if there is one, else code and minimum
      added up and cut to the cell. */
  function RestoredCell(cdata: seq<u32>, code: nat, minbits: nat, minval: nat): (b: seq<u8>)
    requires |cdata| >= 8
    ensures |b| == cdata[4]
  {
    if cdata[7] == 1 && code == Pow2(minbits) - 1 then seq(cdata[4], k requires 0 <= k < cdata[4] => FillByte(cdata, k))
    else Le(code + minval, cdata[4])
  }

  lemma RestoredBytes(cdata: seq<u32>, code: nat, minbits: nat, minval: nat)
    requires |cdata| >= 8 && 1 <= cdata[4] <= 8 && minbits <= 64
    ensures Le(Restore(code, minbits, minval, ParamsOf(cdata)), cdata[4]) == RestoredCell(cdata, code, minbits, minval)
  {
    hide Le, FromLe, FillByte;
    Pow2Constants();
    var size := cdata[4];
    if cdata[7] == 1 && code == Pow2(minbits) - 1 {
      LeOfFromLe(FillBytes(cdata, size));
      forall k | 0 <= k < size ensures FillBytes(cdata, size)[k] == FillByte(cdata, k) {
        FillWord(cdata, size, k);
      }
    } else {
      ModOfMod(code + minval, 8 * size);
      LeModulo((code + minval) % TWO_64, code + minval, size);
    }
  }

  /** Whatever writer made it: the header gives the bits of a code and, in up to eight bytes, the minimum;
      the codes follow without gaps, and every cell comes out of its code. */
  lemma AnyChunkDecompresses(cdata: seq<u32>, c: seq<u8>, minbits: nat, codes: seq<nat>, rest: seq<bool>)
    requires |cdata| >= 8 && cdata[3] == 0 && cdata[6] == 0 && 1 <= cdata[4] <= 8
    requires |c| >= 21 && c[..4] == Le(minbits, 4) && minbits <= 8 * cdata[4]
    requires |codes| == cdata[2] && forall i :: 0 <= i < |codes| ==> codes[i] < Pow2(minbits)
    requires Unpack(c[21..]) == PrintCodes(codes, minbits) + rest
    ensures var minval := FromLe(c[5..if c[4] <= 8 then 5 + c[4] as int else 13]);
            var r := Decompress(cdata, c);
            && r.Success? && |r.value| == Times(|codes|, cdata[4])
            && forall i: nat :: i < |codes| ==> CellIs(r.value, cdata, i, codes[i], minbits, minval)
  {
    hide Le, FromLe, Unpack, Pow2, ReadCodes, PrintCodes, CellBytes, RestoreAll, Restore, FillBytes, RestoredCell;
    var p, minval := ParamsOf(cdata), FromLe(c[5..if c[4] <= 8 then 5 + c[4] as int else 13]);
    FourBytes(minbits);
    ReadCodesOf(codes, minbits, rest);
    var vs := RestoreAll(codes, minbits, minval, p);
    var out := CellBytes(vs, p.size);
    forall i: nat | i < |codes| ensures CellIs(out, cdata, i, codes[i], minbits, minval) {
      RestoredAt(codes, minbits, minval, p, i);
      CellBytesAt(vs, p.size, i);
      RestoredBytes(cdata, codes[i], minbits, minval);
    }
  }

  ghost predicate CellIs(out: seq<u8>, cdata: seq<u32>, i: nat, code: nat, minbits: nat, minval: nat)
    requires |cdata| >= 8
  {
    && Times(i, cdata[4]) + cdata[4] <= |out|
    && out[Times(i, cdata[4])..Times(i, cdata[4]) + cdata[4]] == RestoredCell(cdata, code, minbits, minval)
  }
}
