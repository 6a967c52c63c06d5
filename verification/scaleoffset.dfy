/** The integer scale-offset filter, and exactly when it is lossless. */
module ScaleOffset {
  import opened Wrappers
  import opened Bytes
  import opened Bits
  import Seqs

  datatype SoError = MissingParameters | ShortInput | UnsupportedScale | BigEndian | BadSize | TooShort | BadMinbits

  /** What the filter parameters say about one chunk. */
  datatype Params = Params(nelmts: nat, size: nat, signed: bool, hasFill: bool, fill: nat) {
    ghost predicate Valid() {
      1 <= size <= 8 && fill < Pow2(8 * size)
    }

    function Width(): nat {
      8 * size
    }

    /** The number a stored pattern stands for. */
    function Key(raw: nat): int {
      if signed && 8 * size > 0 && raw >= Pow2(8 * size - 1) then raw - Pow2(8 * size) else raw
    }

    predicate IsFill(raw: nat) {
      hasFill && Key(raw) == Key(fill)
    }
  }

  function FillBytes(cdata: seq<u32>, size: nat): (b: seq<u8>)
    ensures |b| == size
  {
    seq(size, i requires 0 <= i < size =>
      Low(Shr(if 8 + i / 4 < |cdata| then cdata[8 + i / 4] else 0, i % 4 * 8), 8))
  }

  function ParamsOf(cdata: seq<u32>): (p: Params)
    requires |cdata| >= 8
    ensures 1 <= cdata[4] <= 8 ==> p.Valid()
  {
    FromLeBound(FillBytes(cdata, cdata[4]));
    Params(cdata[2], cdata[4], cdata[5] == 1, cdata[7] == 1, FromLe(FillBytes(cdata, cdata[4])))
  }

  // ----- cells

  function Cells(d: seq<u8>, n: nat, size: nat): (raws: seq<nat>)
    requires |d| >= Times(n, size)
    ensures |raws| == n
    decreases n
  {
    if n == 0 then [] else
      TimesMonotone(1, n, size);
      [FromLe(d[..size])] + Cells(d[size..], n - 1, size)
  }

  function CellBytes(raws: seq<nat>, size: nat): (d: seq<u8>)
    ensures |d| == Times(|raws|, size)
  {
    if raws == [] then [] else Le(raws[0], size) + CellBytes(raws[1..], size)
  }

  predicate Fits(raws: seq<nat>, size: nat) {
    forall i :: 0 <= i < |raws| ==> raws[i] < Pow2(8 * size)
  }

  lemma FirstCell(d: seq<u8>, n: nat, size: nat)
    requires n > 0 && |d| >= Times(n, size)
    ensures |d| - size >= Times(n - 1, size) && d[..Times(n, size)] == d[..size] + d[size..][..Times(n - 1, size)]
  {
  }

  lemma {:induction false} CellBytesOfCells(d: seq<u8>, n: nat, size: nat)
    requires |d| >= Times(n, size)
    ensures CellBytes(Cells(d, n, size), size) == d[..Times(n, size)]
    ensures Fits(Cells(d, n, size), size)
    decreases n
  {
    if n > 0 {
      hide Le, FromLe, Pow2;
      TimesMonotone(1, n, size);
      CellBytesOfCells(d[size..], n - 1, size);
      LeOfFromLe(d[..size]);
      FromLeBound(d[..size]);
      FirstCell(d, n, size);
    }
  }

  // ----- encoder

  /** Least and greatest key among the cells that are not the fill value. */
  function Range(raws: seq<nat>, p: Params): Option<(int, int)> {
    if raws == [] then None else
      var r, k := Range(raws[..|raws| - 1], p), p.Key(raws[|raws| - 1]);
      if p.IsFill(raws[|raws| - 1]) then r
      else if r.None? then Some((k, k))
      else Some((Min(r.value.0, k), Max(r.value.1, k)))
  }

  function MinKey(raws: seq<nat>, p: Params): int {
    if Range(raws, p).None? then 0 else Range(raws, p).value.0
  }

  /** The number of codes the cells need, before any reduction to 64 bits. */
  function Codes(raws: seq<nat>, p: Params): int {
    (if Range(raws, p).None? then 1 else Range(raws, p).value.1 - Range(raws, p).value.0 + 1)
      + if p.hasFill then 1 else 0
  }

  function BitLength(v: nat): nat {
    if v == 0 then 0 else 1 + BitLength(v / 2)
  }

  /** `H5Z__scaleoffset_log2` on the 64-bit reduction of `num`. */
  function Log2(num: nat): nat {
    if num <= 1 then 0 else BitLength(num - 1)
  }

  /** Span and fill code are added in 64 bits. */
  function Minbits(raws: seq<nat>, p: Params): (m: nat)
    requires Codes(raws, p) >= 1
    ensures m <= p.Width()
  {
    Min(Log2(Codes(raws, p) % TWO_64), p.Width())
  }

  function Code(raw: nat, minbits: nat, min: int, p: Params): int {
    if minbits == p.Width() then raw
    else if p.IsFill(raw) then Pow2(minbits) - 1
    else p.Key(raw) - min
  }

  /** The least key is no greater than the keys of the cells it was computed from. */
  ghost predicate Bounded(raws: seq<nat>, min: int, p: Params) {
    forall i :: 0 <= i < |raws| ==> p.IsFill(raws[i]) || min <= p.Key(raws[i])
  }

  /** The codes of all cells, most significant bit first and without gaps. */
  function Packed(raws: seq<nat>, minbits: nat, min: int, p: Params): (s: seq<bool>)
    requires Bounded(raws, min, p)
    ensures |s| == Times(|raws|, minbits)
  {
    if raws == [] then [] else
      assert Bounded(raws[..1], min, p) && raws[0] in raws;
      assert p.IsFill(raws[0]) || min <= p.Key(raws[0]);
      ToBits(Code(raws[0], minbits, min, p), minbits) + Packed(raws[1..], minbits, min, p)
  }

  const HEADER: nat := 21

  function Header(minbits: nat, minval: nat): (h: seq<u8>)
    ensures |h| == HEADER
  {
    Le(minbits, 4) + [8] + Le(minval, 8) + [0, 0, 0, 0, 0, 0, 0, 0]
  }

  /** What the compressor writes for a chunk of integer cells. */
  ghost predicate IsCompressed(c: seq<u8>, raws: seq<nat>, p: Params)
    requires p.Valid()
  {
    CodesPositive(raws, p);
    MinIsBound(raws, p);
    var minbits, min := Minbits(raws, p), MinKey(raws, p);
    var packed := Packed(raws, minbits, min, p);
    && |c| == HEADER + |packed| / 8 + 1
    && c[..HEADER] == Header(minbits, min % TWO_64)
    && Unpack(c[HEADER..]) == packed + Zeros(8 - |packed| % 8)
  }

  // ----- decoder

  function Mask(minbits: nat): nat {
    if minbits >= 64 then TWO_64 - 1 else Pow2(minbits) - 1
  }

  /** The value restored from one code, before it is cut to the cell size. */
  function Restore(code: nat, minbits: nat, minval: nat, p: Params): nat {
    if p.hasFill && code == Mask(minbits) then p.fill else (code + minval) % TWO_64
  }

  /** The value a cell has after encoding and decoding: only `minbits` bits of its code are kept. */
  function Decoded(raw: nat, minbits: nat, min: int, p: Params): nat
    requires p.IsFill(raw) || min <= p.Key(raw)
  {
    Restore(Low(Code(raw, minbits, min, p), minbits), minbits, min % TWO_64, p)
  }

  ghost predicate Survives(raw: nat, minbits: nat, min: int, p: Params)
    requires p.IsFill(raw) || min <= p.Key(raw)
  {
    Le(Decoded(raw, minbits, min, p), p.size) == Le(raw, p.size)
  }

  function ReadCodes(s: seq<bool>, n: nat, minbits: nat): Result<seq<nat>, SoError> {
    if n == 0 then Success([])
    else if |s| < minbits then Failure(TooShort)
    else match ReadCodes(s[minbits..], n - 1, minbits)
      case Failure(e) => Failure(e)
      case Success(codes) => Success([FromBits(s[..minbits])] + codes)
  }

  function RestoreAll(codes: seq<nat>, minbits: nat, minval: nat, p: Params): (vs: seq<nat>)
    ensures |vs| == |codes|
  {
    if codes == [] then [] else [Restore(codes[0], minbits, minval, p)] + RestoreAll(codes[1..], minbits, minval, p)
  }

  /** Integer chunks only: class 0. */
  function Decompress(cdata: seq<u32>, data: seq<u8>): Result<seq<u8>, SoError>
  {
    if |cdata| < 8 then Failure(SoError.MissingParameters)
    else if cdata[6] != 0 then Failure(BigEndian)
    else if !(1 <= cdata[4] <= 8) then Failure(BadSize)
    else if |data| < HEADER then Failure(TooShort)
    else
      var p, minbits := ParamsOf(cdata), FromLe(data[..4]);
      var minval := FromLe(data[5..5 + Min(data[4], 8)]);
      if minbits > p.Width() then Failure(BadMinbits)
      else
        var codes :- ReadCodes(Unpack(data[HEADER..]), p.nelmts, minbits);
        if cdata[3] != 0 then Failure(UnsupportedScale)
        else Success(CellBytes(RestoreAll(codes, minbits, minval, p), p.size))
  }

  // ----- facts about keys and ranges

  lemma WidthBound(p: Params)
    requires p.Valid()
    ensures 0x100 <= Pow2(p.Width()) <= TWO_64 && Pow2(p.Width()) == 2 * Pow2(p.Width() - 1)
    ensures p.size < 8 ==> Pow2(p.Width()) < TWO_64
  {
    Pow2Constants();
    Pow2Monotone(p.Width(), 64);
    Pow2Monotone(8, p.Width());
    if p.size < 8 {
      Pow2Monotone(p.Width() + 1, 64);
    }
  }

  lemma KeyIsInjective(a: nat, b: nat, p: Params)
    requires p.Valid() && a < Pow2(p.Width()) && b < Pow2(p.Width()) && p.Key(a) == p.Key(b)
    ensures a == b
  {
    WidthBound(p);
  }

  lemma {:induction false} RangeCovers(raws: seq<nat>, p: Params, i: nat)
    requires i < |raws| && !p.IsFill(raws[i])
    ensures Range(raws, p).Some? && Range(raws, p).value.0 <= p.Key(raws[i]) <= Range(raws, p).value.1
  {
    if i < |raws| - 1 {
      RangeCovers(raws[..|raws| - 1], p, i);
    }
  }

  /** The ends of the range are keys of cells that are not fill values. */
  lemma {:induction false} RangeAttained(raws: seq<nat>, p: Params) returns (lo: nat, hi: nat)
    requires Range(raws, p).Some?
    ensures lo < |raws| && !p.IsFill(raws[lo]) && p.Key(raws[lo]) == Range(raws, p).value.0
    ensures hi < |raws| && !p.IsFill(raws[hi]) && p.Key(raws[hi]) == Range(raws, p).value.1
  {
    var last := |raws| - 1;
    if Range(raws[..last], p).None? {
      lo, hi := last, last;
    } else {
      lo, hi := RangeAttained(raws[..last], p);
      if !p.IsFill(raws[last]) {
        if p.Key(raws[last]) < p.Key(raws[lo]) {
          lo := last;
        }
        if p.Key(raws[last]) > p.Key(raws[hi]) {
          hi := last;
        }
      }
    }
  }

  lemma MinIsBound(raws: seq<nat>, p: Params)
    ensures Bounded(raws, MinKey(raws, p), p)
  {
    forall i | 0 <= i < |raws|
      ensures p.IsFill(raws[i]) || MinKey(raws, p) <= p.Key(raws[i])
    {
      if !p.IsFill(raws[i]) {
        RangeCovers(raws, p, i);
      }
    }
  }

  lemma CodesPositive(raws: seq<nat>, p: Params)
    ensures Codes(raws, p) >= 1
  {
    if Range(raws, p).Some? {
      var lo, hi := RangeAttained(raws, p);
      RangeCovers(raws, p, hi);
    }
  }

  lemma {:induction false} BitLengthBounds(v: nat)
    ensures v < Pow2(BitLength(v))
    ensures v > 0 ==> BitLength(v) > 0 && Pow2(BitLength(v) - 1) <= v
  {
    if v > 1 {
      BitLengthBounds(v / 2);
    }
  }

  lemma {:induction false} BitLengthAtMost(v: nat, n: nat)
    requires v < Pow2(n)
    ensures BitLength(v) <= n
  {
    if v > 0 {
      BitLengthAtMost(v / 2, n - 1);
    }
  }

  lemma Log2Bounds(num: nat)
    requires num >= 1
    ensures num <= Pow2(Log2(num))
    ensures forall n: nat :: num <= Pow2(n) ==> Log2(num) <= n
  {
    BitLengthBounds(num - 1);
    forall n: nat | num <= Pow2(n) ensures Log2(num) <= n {
      BitLengthAtMost(num - 1, n);
    }
  }

  // ----- the two regimes

  /** All codes fit in fewer bits than the cells have. */
  predicate Narrow(raws: seq<nat>, p: Params)
    requires p.size >= 1
  {
    Codes(raws, p) <= Pow2(p.Width() - 1)
  }

  lemma NarrowMinbits(raws: seq<nat>, p: Params)
    requires p.Valid() && Narrow(raws, p)
    ensures Codes(raws, p) >= 1
    ensures Minbits(raws, p) < p.Width() && Codes(raws, p) <= Pow2(Minbits(raws, p)) && Minbits(raws, p) < 64
  {
    hide Log2, Pow2, Codes, BitLength;
    CodesPositive(raws, p);
    WidthBound(p);
    Log2Bounds(Codes(raws, p));
    SmallRemainder(Codes(raws, p));
  }

  lemma LeModulo(a: nat, b: nat, n: nat)
    requires a % Pow2(8 * n) == b % Pow2(8 * n)
    ensures Le(a, n) == Le(b, n)
  {
    FromLeOfLe(a, n);
    FromLeOfLe(b, n);
    LeOfFromLe(Le(a, n));
    LeOfFromLe(Le(b, n));
  }

  lemma {:induction false} Pow2Divides(a: nat, b: nat)
    requires a <= b
    ensures Pow2(b) % Pow2(a) == 0 && Pow2(b) == Pow2(b - a) * Pow2(a)
  {
    Pow2Add(b - a, a);
    DivUnique(Pow2(b), Pow2(a), Pow2(b - a), 0);
  }

  /** Reducing by a multiple of m first does not change the remainder by m. */
  lemma ModOfMultiple(x: int, k: nat, m: nat)
    requires k > 0 && m > 0
    ensures k * m > 0 && x % (k * m) % m == x % m
  {
    MulMonotone(m, 1, k);
    var q, r := x / (k * m), x % (k * m);
    var t, u := r / m, r % m;
    MulAssociative(m, k, q);
    Distribute(m, k * q, t);
    DivUnique(x, m, k * q + t, u);
  }

  /** Reducing to 64 bits first does not change the low bits. */
  lemma ModOfMod(x: int, n: nat)
    requires n <= 64
    ensures x % TWO_64 % Pow2(n) == x % Pow2(n)
  {
    Pow2Constants();
    Pow2Divides(n, 64);
    ModOfMultiple(x, Pow2(64 - n), Pow2(n));
  }

  // ----- one cell

  lemma SurvivesByModulus(raw: nat, minbits: nat, min: int, p: Params)
    requires p.Valid() && raw < Pow2(p.Width()) && (p.IsFill(raw) || min <= p.Key(raw))
    ensures Survives(raw, minbits, min, p) <==> Decoded(raw, minbits, min, p) % Pow2(p.Width()) == raw
  {
    var v := Decoded(raw, minbits, min, p);
    DivUnique(raw, Pow2(p.Width()), 0, raw);
    FromLeOfLe(v, p.size);
    FromLeOfLe(raw, p.size);
    if v % Pow2(p.Width()) == raw {
      LeModulo(v, raw, p.size);
    }
  }

  lemma KeyModulo(raw: nat, p: Params)
    requires p.Valid() && raw < Pow2(p.Width())
    ensures p.Key(raw) % Pow2(p.Width()) == raw
  {
    if p.Key(raw) == raw {
      DivUnique(raw, Pow2(p.Width()), 0, raw);
    } else {
      DivUnique(p.Key(raw), Pow2(p.Width()), -1, raw);
    }
  }

  /** Offset and minimum, added in 64 bits, give the key back modulo the cell size. */
  lemma OffsetPlusMin(key: int, min: int, p: Params)
    requires p.Valid()
    ensures (key - min + min % TWO_64) % TWO_64 % Pow2(p.Width()) == key % Pow2(p.Width())
  {
    ModOfMod(key - min + min % TWO_64, p.Width());
    ModOfMod(key, p.Width());
    assert (key - min + min % TWO_64) % TWO_64 == key % TWO_64 by {
      DivUnique(key - min + min % TWO_64, TWO_64, key / TWO_64 - min / TWO_64, key % TWO_64);
    }
  }

  /** A narrow chunk loses nothing. */
  lemma NarrowCellSurvives(raws: seq<nat>, p: Params, i: nat)
    requires p.Valid() && Fits(raws, p.size) && i < |raws| && Narrow(raws, p)
    ensures Codes(raws, p) >= 1 && Bounded(raws, MinKey(raws, p), p)
    ensures Survives(raws[i], Minbits(raws, p), MinKey(raws, p), p)
  {
    hide Range, Low, Le;
    NarrowMinbits(raws, p);
    MinIsBound(raws, p);
    var m, min, raw := Minbits(raws, p), MinKey(raws, p), raws[i];
    SurvivesByModulus(raw, m, min, p);
    KeyModulo(raw, p);
    if p.IsFill(raw) {
      KeyIsInjective(raw, p.fill, p);
      LowOfSmall(Pow2(m) - 1, m);
      DivUnique(raw, Pow2(p.Width()), 0, raw);
    } else {
      RangeCovers(raws, p, i);
      LowOfSmall(p.Key(raw) - min, m);
      OffsetPlusMin(p.Key(raw), min, p);
    }
  }
}
