/** The coder's loops over the stateful bit reader and writer. */
module AecCodec {
  import opened Wrappers
  import opened Bytes
  import opened Bits
  import opened Predictor
  import opened Aec
  import Seqs

  // ----- encoder

  method PreprocessRsi(xs: seq<u32>, p: Params) returns (coded: seq<u32>)
    requires p.Valid() && xs != [] && Encodable(xs, p)
    ensures coded == Preprocess(xs, p)
  {
    if p.pp {
      var prev := xs[0];
      coded := [xs[0]];
      ghost var all := [xs[0]] + MapFrom(xs[0], xs[1..], p.bps);
      for i := 1 to |xs|
        invariant prev == xs[i - 1] && Sample(prev, p.bps) && Samples(xs[i..], p.bps)
        invariant coded + MapFrom(prev, xs[i..], p.bps) == all
      {
        ghost var ms := MapFrom(prev, xs[i..], p.bps);
        Seqs.SliceOfDrop(xs, i, 1);
        assert ms[0] == Residual(prev, xs[i], p.bps) && ms[1..] == MapFrom(xs[i], xs[i + 1..], p.bps);
        Seqs.MoveHead(coded, ms);
        coded := coded + [Residual(prev, xs[i], p.bps)];
        prev := xs[i];
      }
      Seqs.Empty(coded);
    } else {
      coded := xs;
    }
    coded := coded + ZeroSamples(Times(BlocksFor(|xs|, p.blockSize), p.blockSize) - |xs|);
  }

  /** Prices the split at k, giving up once it reaches `limit`, the best price so far. */
  method PriceSplit(vals: seq<u32>, k: nat, limit: Option<nat>) returns (cost: nat)
    ensures if limit.Some? && limit.value <= Cost(vals, k) then cost >= limit.value else cost == Cost(vals, k)
  {
    cost := Times(|vals|, k + 1);
    for i := 0 to |vals|
      invariant cost == Cost(vals[..i], k) + Times(|vals| - i, k + 1)
    {
      assert vals[..i + 1][..i] == vals[..i];
      cost := cost + Shr(vals[i], k);
      if limit.Some? && cost >= limit.value {
        CostMonotone(vals, k, i + 1);
        return;
      }
    }
    Seqs.TakeAll(vals, |vals|);
  }

  method FindBestSplit(vals: seq<u32>, kmax: nat) returns (bestK: nat, bestCost: nat)
    ensures bestK == BestSplit(vals, kmax) && bestCost == Cost(vals, bestK)
  {
    bestK := 0;
    bestCost := PriceSplit(vals, 0, None);
    for k := 1 to kmax + 1
      invariant bestK == BestSplit(vals, k - 1) && bestCost == Cost(vals, bestK)
    {
      var cost := PriceSplit(vals, k, Some(bestCost));
      if cost < bestCost {
        bestCost, bestK := cost, k;
      }
    }
  }

  /** What is left of a candidate costs at least its bits per value. */
  lemma {:induction false} CostMonotone(vals: seq<u32>, k: nat, i: nat)
    requires i <= |vals|
    ensures Cost(vals, k) >= Cost(vals[..i], k) + Times(|vals| - i, k + 1)
  {
    if i < |vals| {
      var most := vals[..|vals| - 1];
      assert most[..i] == vals[..i];
      CostMonotone(most, k, i);
    } else {
      Seqs.TakeAll(vals, i);
    }
  }

  method PutWords(w: BitWriter, vals: seq<u32>, n: nat)
    requires w.Valid()
    modifies w
    ensures w.Valid() && w.Contents() == old(w.Contents()) + Words(vals, n)
  {
    ghost var goal := w.Contents() + Words(vals, n);
    for i := 0 to |vals|
      invariant w.Valid() && w.Contents() + Words(vals[i..], n) == goal
    {
      Seqs.SliceOfDrop(vals, i, 1);
      Seqs.Assoc(w.Contents(), ToBits(vals[i], n), Words(vals[i + 1..], n));
      w.Put(vals[i], n);
    }
    Seqs.Empty(w.Contents());
  }

  method PutHighs(w: BitWriter, vals: seq<u32>, k: nat)
    requires w.Valid()
    modifies w
    ensures w.Valid() && w.Contents() == old(w.Contents()) + Highs(vals, k)
  {
    ghost var goal := w.Contents() + Highs(vals, k);
    for i := 0 to |vals|
      invariant w.Valid() && w.Contents() + Highs(vals[i..], k) == goal
    {
      Seqs.SliceOfDrop(vals, i, 1);
      Seqs.Assoc(w.Contents(), Unary(Shr(vals[i], k)), Highs(vals[i + 1..], k));
      w.Fs(Shr(vals[i], k));
    }
    Seqs.Empty(w.Contents());
  }

  method PutLows(w: BitWriter, vals: seq<u32>, k: nat)
    requires w.Valid()
    modifies w
    ensures w.Valid() && w.Contents() == old(w.Contents()) + Lows(vals, k)
  {
    ghost var goal := w.Contents() + Lows(vals, k);
    for i := 0 to |vals|
      invariant w.Valid() && w.Contents() + Lows(vals[i..], k) == goal
    {
      Seqs.SliceOfDrop(vals, i, 1);
      Seqs.Assoc(w.Contents(), ToBits(Low(vals[i], k), k), Lows(vals[i + 1..], k));
      w.Put(Low(vals[i], k), k);
    }
    Seqs.Empty(w.Contents());
  }

  method PutSplit(w: BitWriter, ref: seq<u32>, vals: seq<u32>, k: nat, p: Params)
    requires w.Valid()
    modifies w
    ensures w.Valid()
    ensures w.Contents() == old(w.Contents()) +
      (ToBits(k + 1, p.IdLen()) + Words(ref, p.bps) + Highs(vals, k) + Lows(vals, k))
  {
    hide ToBits, Words, Highs, Lows;
    ghost var before := w.Contents();
    ghost var id, ws, hs, ls := ToBits(k + 1, p.IdLen()), Words(ref, p.bps), Highs(vals, k), Lows(vals, k);
    w.Put(k + 1, p.IdLen());
    PutWords(w, ref, p.bps);
    Seqs.Assoc(before, id, ws);
    PutHighs(w, vals, k);
    Seqs.Assoc(before, id + ws, hs);
    PutLows(w, vals, k);
    Seqs.Assoc(before, id + ws + hs, ls);
  }

  method PutBlock(w: BitWriter, block: seq<u32>, refFlag: bool, p: Params)
    requires p.Valid() && w.Valid() && block != []
    modifies w
    ensures w.Valid() && w.Contents() == old(w.Contents()) + EncodeBlock(block, refFlag, p)
  {
    hide ToBits, Words, Highs, Lows, Cost, BestSplit;
    ghost var before := w.Contents();
    var vals := if refFlag then block[1..] else block;
    var k, cost := FindBestSplit(vals, p.Modi() - 3);
    if cost >= Times(|vals|, p.bps) {
      w.Put(p.Modi() - 1, p.IdLen());
      PutWords(w, block, p.bps);
      Seqs.Assoc(before, ToBits(p.Modi() - 1, p.IdLen()), Words(block, p.bps));
    } else {
      PutSplit(w, if refFlag then block[..1] else [], vals, k, p);
    }
  }

  method PutBlocks(w: BitWriter, coded: seq<u32>, p: Params)
    requires p.Valid() && w.Valid()
    modifies w
    ensures w.Valid() && w.Contents() == old(w.Contents()) + EncodeBlocks(coded, p.pp, p)
  {
    hide EncodeBlock;
    ghost var goal := w.Contents() + EncodeBlocks(coded, p.pp, p);
    var at := 0;
    while at < |coded|
      invariant 0 <= at <= |coded| && w.Valid()
      invariant w.Contents() + EncodeBlocks(coded[at..], p.pp && at == 0, p) == goal
      decreases |coded| - at
    {
      var next := Min(at + p.blockSize, |coded|);
      Seqs.SliceOfDrop(coded, at, next - at);
      var refFlag := p.pp && at == 0;
      Seqs.Assoc(w.Contents(), EncodeBlock(coded[at..next], refFlag, p), EncodeBlocks(coded[next..], false, p));
      Seqs.Empty(EncodeBlock(coded[at..next], refFlag, p));
      Seqs.TakeAll(coded[at..], |coded| - at);
      PutBlock(w, coded[at..next], refFlag, p);
      at := next;
    }
    Seqs.Empty(w.Contents());
  }

  /** The code of the samples from `at` on starts with the code of one interval. */
  lemma NextInterval(samples: seq<u32>, at: nat, next: nat, p: Params)
    requires p.Valid() && Encodable(samples, p) && at < |samples|
    requires p.RsiSamples() > 0 && next == Min(at + p.RsiSamples(), |samples|)
    ensures Encode(samples[at..], p) ==
            EncodeBlocks(Preprocess(samples[at..next], p), p.pp, p) + Encode(samples[next..], p)
  {
    hide EncodeBlocks, Preprocess;
    Seqs.SliceOfDrop(samples, at, next - at);
    Seqs.TakeAll(samples[at..], |samples| - at);
    Seqs.Empty(Encode(samples[at..], p));
  }

  method AecEncode(samples: seq<u32>, p: Params) returns (out: seq<u8>)
    requires p.Valid() && Encodable(samples, p)
    ensures exists pad: nat :: pad < 8 && Unpack(out) == Encode(samples, p) + Zeros(pad)
  {
    hide EncodeBlocks, Preprocess, Encode, Unpack, ToBits;
    TimesMonotone(1, p.rsi, p.blockSize);
    var w := new BitWriter();
    var at := 0;
    Seqs.Empty(Encode(samples, p));
    while at < |samples|
      invariant 0 <= at <= |samples| && w.Valid() && fresh(w)
      invariant w.Contents() + Encode(samples[at..], p) == Encode(samples, p)
      decreases |samples| - at
    {
      var next := Min(at + p.RsiSamples(), |samples|);
      NextInterval(samples, at, next, p);
      var coded := PreprocessRsi(samples[at..next], p);
      Seqs.Assoc(w.Contents(), EncodeBlocks(coded, p.pp, p), Encode(samples[next..], p));
      PutBlocks(w, coded, p);
      at := next;
    }
    EmptyCode(samples[at..], p);
    Seqs.Empty(w.Contents());
    out := w.Finish();
  }

  lemma EmptyCode(samples: seq<u32>, p: Params)
    requires p.Valid() && samples == []
    ensures Encode(samples, p) == []
  {
  }

  // ----- decoder

  method GetWords(r: BitReader, n: nat, bps: nat, raw: seq<u32>) returns (res: Result<seq<u32>, SzipError>)
    requires r.Valid() && bps <= 32
    modifies r
    ensures r.Valid() && Agrees(res, r.Rest(), ReadWords(old(r.Rest()), n, bps, raw))
  {
    var samples: seq<u32> := raw;
    BpsBound(bps);
    for i := 0 to n
      invariant r.Valid()
      invariant ReadWords(r.Rest(), n - i, bps, samples) == ReadWords(old(r.Rest()), n, bps, raw)
    {
      var v := r.Bits(bps);
      if v.Failure? {
        return Failure(v.error);
      }
      samples := samples + [v.value];
    }
    return Success(samples);
  }

  method GetHighs(r: BitReader, n: nat, k: nat, raw: seq<u32>) returns (res: Result<seq<u32>, SzipError>)
    requires r.Valid()
    modifies r
    ensures r.Valid() && Agrees(res, r.Rest(), ReadHighs(old(r.Rest()), n, k, raw))
  {
    hide Shl;
    var samples: seq<u32> := raw;
    for i := 0 to n
      invariant r.Valid()
      invariant ReadHighs(r.Rest(), n - i, k, samples) == ReadHighs(old(r.Rest()), n, k, raw)
    {
      var v := r.Fs();
      if v.Failure? {
        return Failure(v.error);
      }
      samples := samples + [Shl(v.value, k)];
    }
    return Success(samples);
  }

  method GetLows(r: BitReader, base: nat, k: nat, raw: seq<u32>) returns (res: Result<seq<u32>, SzipError>)
    requires r.Valid() && base <= |raw|
    modifies r
    ensures r.Valid() && Agrees(res, r.Rest(), ReadLows(old(r.Rest()), base, k, raw))
  {
    hide ReadBits;
    var samples: seq<u32> := raw;
    for i := base to |raw|
      invariant r.Valid() && |samples| == |raw|
      invariant ReadLows(r.Rest(), i, k, samples) == ReadLows(old(r.Rest()), base, k, raw)
    {
      var v := r.Bits(k);
      if v.Failure? {
        return Failure(v.error);
      }
      samples := samples[i := (samples[i] + v.value) % TWO_32];
    }
    return Success(samples);
  }

  method GetPairs(r: BitReader, start: nat, p: Params, raw: seq<u32>) returns (res: Result<seq<u32>, SzipError>)
    requires r.Valid()
    modifies r
    ensures r.Valid() && Agrees(res, r.Rest(), ReadPairs(old(r.Rest()), start, p.blockSize, raw))
  {
    var samples: seq<u32>, count := raw, start;
    while count < p.blockSize
      invariant r.Valid()
      invariant ReadPairs(r.Rest(), count, p.blockSize, samples) == ReadPairs(old(r.Rest()), start, p.blockSize, raw)
    {
      var m := r.Fs();
      if m.Failure? {
        return Failure(m.error);
      }
      if m.value >= 91 {
        return Failure(BadGamma);
      }
      var (g, d) := SePair(m.value, 0, 0);
      if count % 2 == 0 {
        samples := samples + [g - d];
        count := count + 1;
      }
      samples := samples + [d];
      count := count + 1;
    }
    return Success(samples);
  }

  method GetBlock(r: BitReader, raw: seq<u32>, p: Params) returns (res: Result<seq<u32>, SzipError>)
    requires p.Valid() && r.Valid() && |raw| < p.RsiSamples()
    modifies r
    ensures r.Valid() && Agrees(res, r.Rest(), DecodeBlock(old(r.Rest()), raw, p))
  {
    hide ReadWords, ReadHighs, ReadLows, ReadPairs, ReadUnary, ZeroBlocks;
    var refFlag := p.pp && raw == [];
    var id := r.Bits(p.IdLen());
    if id.Failure? {
      return Failure(id.error);
    }
    if id.value == 0 {
      var id2 := r.Bits(1);
      if id2.Failure? {
        return Failure(id2.error);
      }
      var raw1 := GetWords(r, if refFlag then 1 else 0, p.bps, raw);
      if raw1.Failure? {
        return Failure(raw1.error);
      }
      if id2.value == 1 {
        res := GetPairs(r, if refFlag then 1 else 0, p, raw1.value);
      } else {
        var fs := r.Fs();
        if fs.Failure? {
          return Failure(fs.error);
        }
        var blocks := ZeroBlocks(fs.value, |raw|, refFlag, p);
        TimesMonotone(1, blocks, p.blockSize);
        res := Success(raw1.value + ZeroSamples(Times(blocks, p.blockSize) - if refFlag then 1 else 0));
      }
    } else if id.value == p.Modi() - 1 {
      res := GetWords(r, p.blockSize, p.bps, raw);
    } else {
      var raw1 := GetWords(r, if refFlag then 1 else 0, p.bps, raw);
      if raw1.Failure? {
        return Failure(raw1.error);
      }
      var raw2 := GetHighs(r, p.blockSize - if refFlag then 1 else 0, id.value - 1, raw1.value);
      if raw2.Failure? {
        return Failure(raw2.error);
      }
      res := GetLows(r, |raw1.value|, id.value - 1, raw2.value);
    }
  }

  method UndoPrediction(raw: seq<u32>, p: Params) returns (xs: seq<u32>)
    requires p.Valid() && raw != []
    ensures xs == UnmapRsi(raw, p)
  {
    if !p.pp {
      return raw;
    }
    var data := raw[0];
    xs := [data];
    ghost var all := [raw[0]] + UnmapFrom(raw[0], raw[1..], p.bps);
    for i := 1 to |raw|
      invariant xs + UnmapFrom(data, raw[i..], p.bps) == all
    {
      ghost var rest := UnmapFrom(data, raw[i..], p.bps);
      Seqs.SliceOfDrop(raw, i, 1);
      Seqs.MoveHead(xs, rest);
      data := Unmap(data, raw[i], p.bps);
      xs := xs + [data];
    }
    Seqs.Empty(xs);
  }

  method AecDecode(src: seq<u8>, p: Params, n: nat) returns (res: Result<seq<u32>, SzipError>)
    requires p.Valid()
    ensures res == Decode(Unpack(src), n, p)
  {
    hide DecodeBlock, UnmapRsi;
    TimesMonotone(1, p.rsi, p.blockSize);
    var r := new BitReader(src);
    var raw: seq<u32>, out: seq<u32> := [], [];
    while |out| < n
      invariant r.Valid() && fresh(r) && |raw| < p.RsiSamples()
      invariant DecodeLoop(r.Rest(), raw, out, n, p) == Decode(Unpack(src), n, p)
      decreases |r.Rest()|
    {
      var next := GetBlock(r, raw, p);
      if next.Failure? {
        return Failure(next.error);
      }
      raw := next.value;
      if |raw| >= p.RsiSamples() {
        var xs := UndoPrediction(raw, p);
        out, raw := out + xs, [];
      }
    }
    if raw != [] {
      var xs := UndoPrediction(raw, p);
      out := out + xs;
    }
    return Success(out[..n]);
  }
}
