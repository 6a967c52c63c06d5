/** `scaleoffset_compress` and `scaleoffset_decompress` for integer chunks. */
module ScaleOffsetFilter {
  import opened Wrappers
  import opened Bytes
  import opened Continuing
  import opened Bits
  import opened ScaleOffset
  import opened ScaleOffsetRoundTrip
  import opened ScaleOffsetMeaning
  import opened ScaleOffsetCodec
  import Seqs

  // ----- compression

  method ReadCells(data: seq<u8>, n: nat, size: nat) returns (raws: seq<nat>)
    requires |data| >= Times(n, size)
    ensures raws == Cells(data, n, size)
  {
    raws := [];
    ghost var at := 0;
    Seqs.Empty(Cells(data, n, size));
    var rest := data;
    for i := 0 to n
      invariant |rest| >= Times(n - i, size)
      invariant raws + Cells(rest, n - i, size) == Cells(data, n, size)
    {
      TimesMonotone(1, n - i, size);
      Seqs.MoveHead(raws, Cells(rest, n - i, size));
      raws := raws + [FromLe(rest[..size])];
      rest := rest[size..];
    }
    Seqs.Empty(raws);
  }

  method FindRange(raws: seq<nat>, p: Params) returns (r: Option<(int, int)>)
    ensures r == Range(raws, p)
  {
    r := None;
    for i := 0 to |raws|
      invariant r == Range(raws[..i], p)
    {
      Seqs.TakeTake(raws, i + 1, i);
      if !p.IsFill(raws[i]) {
        var k := p.Key(raws[i]);
        r := if r.None? then Some((k, k)) else Some((Min(r.value.0, k), Max(r.value.1, k)));
      }
    }
    Seqs.TakeAll(raws, |raws|);
  }

  lemma {:induction false} PackedAppend(raws: seq<nat>, i: nat, minbits: nat, min: int, p: Params)
    requires i < |raws| && Bounded(raws, min, p)
    ensures Bounded(raws[..i], min, p) && Bounded(raws[..i + 1], min, p)
    ensures (p.IsFill(raws[i]) || min <= p.Key(raws[i])) && Code(raws[i], minbits, min, p) >= 0
    ensures Packed(raws[..i + 1], minbits, min, p) ==
            Packed(raws[..i], minbits, min, p) + ToBits(Code(raws[i], minbits, min, p), minbits)
    decreases i
  {
    if i == 0 {
      Seqs.Empty(ToBits(Code(raws[0], minbits, min, p), minbits));
      assert raws[..1][1..] == [] && raws[..0] == [];
    } else {
      BoundedTail(raws, min, p);
      PackedAppend(raws[1..], i - 1, minbits, min, p);
      assert raws[..i + 1][1..] == raws[1..][..i] && raws[..i][1..] == raws[1..][..i - 1];
      Seqs.Assoc(ToBits(Code(raws[0], minbits, min, p), minbits), Packed(raws[1..][..i - 1], minbits, min, p),
                 ToBits(Code(raws[i], minbits, min, p), minbits));
    }
  }

  method PackAll(raws: seq<nat>, minbits: nat, min: int, p: Params) returns (out: seq<u8>)
    requires p.Valid() && Bounded(raws, min, p) && minbits <= p.Width()
    ensures |out| == CeilDiv(Times(|raws|, minbits), 8)
    ensures Unpack(out) == Packed(raws, minbits, min, p) + Zeros(8 * |out| - Times(|raws|, minbits))
  {
    hide Packed, Code, Unpack, ToBits;
    var pk := Packer([], 0, 8);
    NothingPacked(raws, minbits, min, p);
    if minbits > 0 {
      for i := 0 to |raws|
        invariant Bounded(raws[..i], min, p) && Contains(pk, Packed(raws[..i], minbits, min, p))
      {
        PackedAppend(raws, i, minbits, min, p);
        pk := PutCode(pk, Code(raws[i], minbits, min, p), p.size, minbits, Packed(raws[..i], minbits, min, p));
      }
      Seqs.TakeAll(raws, |raws|);
      out := FinishPacking(pk, Packed(raws, minbits, min, p));
    } else {
      TimesIsProduct(|raws|, 0);
      out := [];
    }
  }

  lemma NothingPacked(raws: seq<nat>, minbits: nat, min: int, p: Params)
    requires Bounded(raws, min, p)
    ensures Bounded(raws[..0], min, p) && Contains(Packer([], 0, 8), Packed(raws[..0], minbits, min, p))
    ensures minbits == 0 ==> Times(|raws|, minbits) == 0 && Packed(raws, minbits, min, p) == [] && Unpack([]) == []
  {
    ZeroShifted(8);
    assert Packer([], 0, 8).Holds(0, []);
    TimesIsProduct(|raws|, 0);
  }

  lemma {:induction false} UnpackZeros(out: seq<u8>, n: nat)
    ensures Unpack(out + seq(n, _ => 0)) == Unpack(out) + Zeros(8 * n)
  {
    if n == 0 {
      assert out + seq(0, _ => 0) == out;
    } else {
      UnpackZeros(out, n - 1);
      var s := out + seq(n, _ => 0);
      assert s[..|s| - 1] == out + seq(n - 1, _ => 0);
      ZeroBits(8);
      assert Zeros(8 * (n - 1)) + Zeros(8) == Zeros(8 * n);
    }
  }

  lemma PaddedPacked(out: seq<u8>, packed: seq<bool>)
    requires |out| == CeilDiv(|packed|, 8) && Unpack(out) == packed + Zeros(8 * |out| - |packed|)
    ensures |out| <= |packed| / 8 + 1
    ensures Unpack(out + seq(|packed| / 8 + 1 - |out|, _ => 0)) == packed + Zeros(8 - |packed| % 8)
  {
    var n := |packed| / 8 + 1 - |out|;
    UnpackZeros(out, n);
    Seqs.Assoc(packed, Zeros(8 * |out| - |packed|), Zeros(8 * n));
    assert Zeros(8 * |out| - |packed|) + Zeros(8 * n) == Zeros(8 - |packed| % 8);
  }

  /** Parameters under which the filter, once it has enough data, neither panics on the size of a cell
      nor takes the floating-point path. */
  ghost predicate Compressible(cdata: seq<u32>, data: seq<u8>) {
    |cdata| >= 8 && |data| >= Times(cdata[2], cdata[4]) ==>
      cdata[4] <= 8 && (cdata[3] == 0 ==> cdata[4] >= 1) && !(cdata[3] == 1 && cdata[0] == 0)
  }

  method Compress(cdata: seq<u32>, data: seq<u8>) returns (r: Result<seq<u8>, SoError>)
    requires Compressible(cdata, data)
    ensures |cdata| < 8 ==> r == Failure(SoError.MissingParameters)
    ensures |cdata| >= 8 && |data| < Times(cdata[2], cdata[4]) ==> r == Failure(ShortInput)
    ensures |cdata| >= 8 && |data| >= Times(cdata[2], cdata[4]) ==>
              var p := ParamsOf(cdata);
              if cdata[3] != 0 then r == Failure(UnsupportedScale)
              else r.Success? && IsCompressed(r.value, Cells(data, p.nelmts, p.size), p)
  {
    if |cdata| < 8 {
      return Failure(SoError.MissingParameters);
    }
    var p := ParamsOf(cdata);
    if |data| < Times(p.nelmts, p.size) {
      return Failure(ShortInput);
    }
    if cdata[3] != 0 {
      return Failure(UnsupportedScale);
    }
    var raws := ReadCells(data, p.nelmts, p.size);
    var out := EncodeChunk(raws, p);
    return Success(out);
  }

  method EncodeChunk(raws: seq<nat>, p: Params) returns (out: seq<u8>)
    requires p.Valid()
    ensures IsCompressed(out, raws, p)
  {
    hide Range, Unpack, Packed, Log2;
    CodesPositive(raws, p);
    MinIsBound(raws, p);
    var range := FindRange(raws, p);
    var min := if range.None? then 0 else range.value.0;
    var codes := (if range.None? then 1 else range.value.1 - range.value.0 + 1) + if p.hasFill then 1 else 0;
    var minbits := Min(Log2(codes % TWO_64), p.Width());
    ghost var packed := Packed(raws, minbits, min, p);
    var body := PackAll(raws, minbits, min, p);
    PaddedPacked(body, packed);
    body := body + seq(Times(|raws|, minbits) / 8 + 1 - |body|, _ => 0);
    var header := Header(minbits, min % TWO_64);
    out := header + body;
    Seqs.DropAppended(header, body);
  }

  // ----- decompression

  lemma {:induction false} FromBitsJoin(a: seq<bool>, b: seq<bool>)
    ensures FromBits(a + b) == ShiftLeft(FromBits(a), |b|) + FromBits(b)
  {
    if b == [] {
      Seqs.Empty(a);
    } else {
      var init := b[..|b| - 1];
      FromBitsJoin(a, init);
      assert (a + b)[..|a + b| - 1] == a + init;
    }
  }

  /** n bits in the middle of a byte. */
  lemma BitsOfByte(v: u8, a: nat, n: nat)
    requires a + n <= 8
    ensures FromBits(ToBits(v, 8)[a..a + n]) == Low(Shr(v, 8 - a - n), n)
  {
    hide ToBits, FromBits, Shr, Low;
    var c := 8 - a - n;
    var w := Shr(v, c);
    ToBitsSplit(v, a + n, c);
    assert ToBits(v, 8) == ToBits(w, a + n) + ToBits(Low(v, c), c);
    ToBitsSplit(w, a, n);
    Seqs.SliceInto(ToBits(w, a + n), ToBits(Low(v, c), c), a, a + n);
    Seqs.DropAppended(ToBits(Shr(w, n), a), ToBits(Low(w, n), n));
    Seqs.TakeAll(ToBits(w, a + n), a + n);
    FromBitsOfLow(w, n);
  }

  lemma FromBitsOfLow(w: nat, n: nat)
    ensures FromBits(ToBits(Low(w, n), n)) == Low(w, n)
  {
    FromBitsOfToBits(Low(w, n), n);
    LowLow(w, n, n);
  }

  lemma {:induction false} UnpackSlice(packed: seq<u8>, j: nat)
    requires j < |packed|
    ensures Unpack(packed)[8 * j..8 * j + 8] == ToBits(packed[j], 8)
  {
    var last := |packed| - 1;
    if j < last {
      UnpackSlice(packed[..last], j);
      Seqs.SliceInto(Unpack(packed[..last]), ToBits(packed[last], 8), 8 * j, 8 * j + 8);
    } else {
      Seqs.DropAppended(Unpack(packed[..last]), ToBits(packed[last], 8));
    }
  }

  /** n bits of byte j, after its first a. */
  lemma BitsAt(packed: seq<u8>, j: nat, a: nat, n: nat)
    requires j < |packed| && a + n <= 8
    ensures FromBits(Unpack(packed)[8 * j + a..8 * j + a + n]) == Low(Shr(packed[j], 8 - a - n), n)
  {
    UnpackSlice(packed, j);
    BitsOfByte(packed[j], a, n);
    Seqs.SliceOfSlice(Unpack(packed), 8 * j, 8 * j + 8, a, a + n);
  }

  /** Reads n bits into a byte, from byte j on, of which `fill` bits are unread. */
  method UnpackBits(packed: seq<u8>, j: nat, fill: nat, n: nat) returns (r: Result<nat, SoError>, j': nat, fill': nat)
    requires 1 <= fill <= 8 && 1 <= n <= 8
    ensures var at := 8 * j + 8 - fill;
            if at + n > 8 * |packed| then r == Failure(TooShort)
            else r == Success(FromBits(Unpack(packed)[at..at + n])) && 1 <= fill' <= 8 && 8 * j' + 8 - fill' == at + n
  {
    hide Unpack, FromBits;
    j', fill' := j, fill;
    if j >= |packed| {
      return Failure(TooShort), j, fill;
    }
    if fill > n {
      BitsAt(packed, j, 8 - fill, n);
      r := Success(Low(Shr(packed[j], fill - n), n));
      fill' := fill - n;
    } else {
      var m := n - fill;
      BitsAt(packed, j, 8 - fill, fill);
      ShiftByNothing(packed[j]);
      var high := Low(packed[j], fill);
      j', fill' := j + 1, 8;
      if m == 0 {
        r := Success(high);
        return;
      }
      if j' >= |packed| {
        return Failure(TooShort), j', fill';
      }
      BitsAt(packed, j', 0, m);
      ghost var at := 8 * j + 8 - fill;
      Seqs.SliceJoin(Unpack(packed), at, at + fill, at + n);
      FromBitsJoin(Unpack(packed)[at..at + fill], Unpack(packed)[at + fill..at + n]);
      r := Success(ShiftLeft(high, m) + Low(Shr(packed[j'], 8 - m), m));
      fill' := 8 - m;
    }
  }

  lemma {:induction false} FromLeZeros(n: nat)
    ensures FromLe(seq(n, _ => 0)) == 0
  {
    if n > 0 {
      FromLeZeros(n - 1);
      assert seq(n, _ => 0)[1..] == seq(n - 1, _ => 0);
    }
  }

  lemma ShiftByTwo(v: nat)
    ensures ShiftLeft(v, 2) == 4 * v
  {
    assert ShiftLeft(v, 1) == 2 * v;
  }

  lemma ShiftByByte(v: nat)
    ensures ShiftLeft(v, 8) == 0x100 * v
  {
    ShiftByTwo(v);
    ShiftByTwo(4 * v);
    ShiftByTwo(16 * v);
    ShiftByTwo(64 * v);
    ShiftLeftTwice(v, 2, 2);
    ShiftLeftTwice(v, 4, 2);
    ShiftLeftTwice(v, 6, 2);
  }

  /** Reads one code into the bytes of a cell, highest used byte first. */
  method ReadCell(packed: seq<u8>, j: nat, fill: nat, size: nat, minbits: nat)
    returns (r: Result<nat, SoError>, j': nat, fill': nat)
    requires 1 <= fill <= 8 && 1 <= size <= 8 && 0 < minbits <= 8 * size
    ensures var at := 8 * j + 8 - fill;
            if at + minbits > 8 * |packed| then r == Failure(TooShort)
            else r == Success(FromBits(Unpack(packed)[at..at + minbits])) && 1 <= fill' <= 8 && 8 * j' + 8 - fill' == at + minbits
  {
    hide Unpack, FromBits, Pow2;
    TopByte(size, minbits);
    var begin, top := size - 1 - (8 * size - minbits) / 8, 8 - (8 * size - minbits) % 8;
    ghost var at, bits := 8 * j + 8 - fill, Unpack(packed);
    // `cell` holds the bytes from k on; those above `begin` stay zero
    var cell: seq<u8> := seq(size - 1 - begin, _ => 0);
    FromLeZeros(size - 1 - begin);
    var k, n := begin + 1, top;
    j', fill' := j, fill;
    while k > 0
      invariant 0 <= k <= begin + 1 && |cell| == size - k
      invariant n == if k == begin + 1 then top else 8
      invariant 1 <= fill' <= 8 && 8 * j' + 8 - fill' == at + minbits - 8 * k + (if k == begin + 1 then 8 - top else 0)
      invariant k <= begin ==> at + minbits - 8 * k <= |bits| && FromLe(cell) == FromBits(bits[at..at + minbits - 8 * k])
      invariant k == begin + 1 ==> FromLe(cell) == 0
    {
      var b, j1, fill1 := UnpackBits(packed, j', fill', n);
      if b.Failure? {
        return b, j1, fill1;
      }
      ghost var from := 8 * j' + 8 - fill';
      FromBitsFits(bits[from..from + n]);
      if k <= begin {
        Seqs.SliceJoin(bits, at, from, from + 8);
        FromBitsJoin(bits[at..from], bits[from..from + 8]);
        ShiftByByte(FromBits(bits[at..from]));
      }
      Seqs.HeadOf(b.value as u8, cell);
      cell := [b.value as u8] + cell;
      k, n, j', fill' := k - 1, 8, j1, fill1;
    }
    r := Success(FromLe(cell));
  }

  lemma FromBitsFits(s: seq<bool>)
    requires |s| <= 8
    ensures FromBits(s) < 0x100
  {
    FromBitsBound(s);
    Pow2Monotone(|s|, 8);
    Pow2Constants();
  }

  lemma ReadNext(total: Result<seq<nat>, SoError>, done: seq<nat>, bits: seq<bool>, at: nat, n: nat, minbits: nat)
    requires n > 0 && at <= |bits| && Continues(total, done, ReadCodes(bits[at..], n, minbits))
    ensures at + minbits > |bits| ==> total == Failure(TooShort)
    ensures at + minbits <= |bits| ==>
              Continues(total, done + [FromBits(bits[at..at + minbits])], ReadCodes(bits[at + minbits..], n - 1, minbits))
  {
    if at + minbits <= |bits| {
      Seqs.SliceOfDrop(bits, at, minbits);
      var rest := ReadCodes(bits[at + minbits..], n - 1, minbits);
      if rest.Success? {
        Seqs.Assoc(done, [FromBits(bits[at..at + minbits])], rest.value);
      }
    }
  }

  lemma ReadDone(total: Result<seq<nat>, SoError>, done: seq<nat>, bits: seq<bool>, minbits: nat)
    ensures Continues(total, done, ReadCodes(bits, 0, minbits)) ==> total == Success(done)
  {
    Seqs.Empty(done);
  }

  /** With no bits per code every code is zero. */
  lemma {:induction false} ReadNoBits(bits: seq<bool>, n: nat)
    ensures ReadCodes(bits, n, 0) == Success(seq(n, _ => 0))
  {
    if n == 0 {
      assert seq(0, _ => 0) == [];
    } else {
      assert bits[0..] == bits && FromBits(bits[..0]) == 0;
      ReadNoBits(bits, n - 1);
      assert ReadCodes(bits, n, 0) == Success([0] + ReadCodes(bits, n - 1, 0).value);
      assert seq(n, _ => 0) == [0] + seq(n - 1, _ => 0);
    }
  }

  method ReadAll(packed: seq<u8>, n: nat, size: nat, minbits: nat) returns (r: Result<seq<nat>, SoError>)
    requires 1 <= size <= 8 && minbits <= 8 * size
    ensures r == ReadCodes(Unpack(packed), n, minbits)
  {
    hide Unpack, FromBits, ReadCodes, Continues;
    if minbits == 0 {
      ReadNoBits(Unpack(packed), n);
      return Success(seq(n, _ => 0));
    }
    ghost var bits := Unpack(packed);
    ghost var total := ReadCodes(bits, n, minbits);
    var codes: seq<nat>, j: nat, fill: nat := [], 0, 8;
    ContinuesFirst(total);
    assert bits[0..] == bits;
    for i := 0 to n
      invariant 1 <= fill <= 8 && 8 * j + 8 - fill <= |bits|
      invariant Continues(total, codes, ReadCodes(bits[8 * j + 8 - fill..], n - i, minbits))
    {
      ReadNext(total, codes, bits, 8 * j + 8 - fill, n - i, minbits);
      var c, j', fill' := ReadCell(packed, j, fill, size, minbits);
      if c.Failure? {
        return Failure(TooShort);
      }
      codes, j, fill := codes + [c.value], j', fill';
    }
    ReadDone(total, codes, bits[8 * j + 8 - fill..], minbits);
    r := Success(codes);
  }

  /** Restores every cell from its code. */
  method WriteCells(codes: seq<nat>, minbits: nat, minval: nat, p: Params) returns (out: seq<u8>)
    ensures out == CellBytes(RestoreAll(codes, minbits, minval, p), p.size)
  {
    hide Restore, Le;
    out := [];
    ghost var goal := CellBytes(RestoreAll(codes, minbits, minval, p), p.size);
    Seqs.Empty(goal);
    var rest := codes;
    while rest != []
      invariant out + CellBytes(RestoreAll(rest, minbits, minval, p), p.size) == goal
      decreases |rest|
    {
      var cell := Le(Restore(rest[0], minbits, minval, p), p.size);
      NextCell(out, rest, minbits, minval, p);
      out, rest := out + cell, rest[1..];
    }
    Seqs.Empty(out);
  }

  lemma NextCell(out: seq<u8>, rest: seq<nat>, minbits: nat, minval: nat, p: Params)
    requires rest != []
    ensures out + Le(Restore(rest[0], minbits, minval, p), p.size) + CellBytes(RestoreAll(rest[1..], minbits, minval, p), p.size)
            == out + CellBytes(RestoreAll(rest, minbits, minval, p), p.size)
  {
    hide Restore, Le;
    var head, tail := Restore(rest[0], minbits, minval, p), RestoreAll(rest[1..], minbits, minval, p);
    Seqs.HeadOf(head, tail);
    Seqs.Assoc(out, Le(head, p.size), CellBytes(tail, p.size));
  }

  /** Parameters that do not select the floating-point path. */
  predicate Integral(cdata: seq<u32>) {
    |cdata| >= 8 ==> !(cdata[3] == 1 && cdata[0] == 0)
  }

  method DecompressChunk(cdata: seq<u32>, data: seq<u8>) returns (r: Result<seq<u8>, SoError>)
    requires Integral(cdata)
    ensures r == Decompress(cdata, data)
  {
    hide FillBytes, ReadCodes, Unpack, CellBytes, RestoreAll;
    if |cdata| < 8 {
      return Failure(SoError.MissingParameters);
    }
    if cdata[6] != 0 {
      return Failure(BigEndian);
    }
    if !(1 <= cdata[4] <= 8) {
      return Failure(BadSize);
    }
    if |data| < HEADER {
      return Failure(TooShort);
    }
    var p, minbits := ParamsOf(cdata), FromLe(data[..4]);
    var minval := FromLe(data[5..5 + Min(data[4], 8)]);
    if minbits > p.Width() {
      return Failure(BadMinbits);
    }
    var codes := ReadAll(data[HEADER..], p.nelmts, p.size, minbits);
    if codes.Failure? {
      return Failure(codes.error);
    }
    if cdata[3] != 0 {
      return Failure(UnsupportedScale);
    }
    var out := WriteCells(codes.value, minbits, minval, p);
    r := Success(out);
  }

  /** The two loops together: a chunk comes back exactly when it is restorable, as the words and the
      bytes say. */
  method CompressThenDecompress(cdata: seq<u32>, data: seq<u8>) returns (c: seq<u8>, r: Result<seq<u8>, SoError>)
    requires IntegerChunk(cdata, data)
    ensures r == Success(data[..Times(cdata[2], cdata[4])]) <==> Restorable(cdata, data)
  {
    hide IsCompressed, Cells, Decompress, Restorable;
    var z := Compress(cdata, data);
    c := z.value;
    r := DecompressChunk(cdata, c);
    RestoresExactly(cdata, data, c);
  }
}
