/** Exactly when decoding an encoded sample stream gives the samples back. */
module AecRoundTrip {
  import opened Wrappers
  import opened Bytes
  import opened Bits
  import Seqs
  import opened Predictor
  import opened Aec

  lemma {:induction false} ReadWordsOfWords(vals: seq<u32>, n: nat, raw: seq<u32>, rest: seq<bool>)
    requires n <= 32 && Samples(vals, n)
    ensures ReadWords(Words(vals, n) + rest, |vals|, n, raw) == Success((raw + vals, rest))
    decreases |vals|
  {
    if vals == [] {
      Seqs.Empty(rest);
      Seqs.Empty(raw);
    } else {
      var more := Words(vals[1..], n) + rest;
      Seqs.Assoc(ToBits(vals[0], n), Words(vals[1..], n), rest);
      ReadBitsOfToBits(vals[0], n, more);
      ReadWordsOfWords(vals[1..], n, raw + [vals[0]], rest);
      Seqs.MoveHead(raw, vals);
    }
  }

  function HighParts(vals: seq<u32>, k: nat): (h: seq<u32>)
    ensures |h| == |vals|
  {
    if vals == [] then [] else [Shl(Shr(vals[0], k), k)] + HighParts(vals[1..], k)
  }

  predicate ShortRuns(vals: seq<u32>, k: nat) {
    forall i :: 0 <= i < |vals| ==> Shr(vals[i], k) <= MAX_FS
  }

  lemma ReadOneHigh(h: nat, n: nat, k: nat, raw: seq<u32>, more: seq<bool>)
    requires h <= MAX_FS && n > 0
    ensures ReadHighs(Unary(h) + more, n, k, raw) == ReadHighs(more, n - 1, k, raw + [Shl(h, k)])
  {
    ReadUnaryOfUnary(h, 0, more);
  }

  lemma {:induction false} ReadHighsOfHighs(vals: seq<u32>, k: nat, raw: seq<u32>, rest: seq<bool>)
    requires ShortRuns(vals, k)
    ensures ReadHighs(Highs(vals, k) + rest, |vals|, k, raw) == Success((raw + HighParts(vals, k), rest))
    decreases |vals|
  {
    if vals == [] {
      Seqs.Empty(rest);
      Seqs.Empty(raw);
    } else {
      var more, high := Highs(vals[1..], k) + rest, [Shl(Shr(vals[0], k), k)];
      Seqs.Assoc(Unary(Shr(vals[0], k)), Highs(vals[1..], k), rest);
      ReadOneHigh(Shr(vals[0], k), |vals|, k, raw, more);
      ReadHighsOfHighs(vals[1..], k, raw + high, rest);
      Seqs.Assoc(raw, high, HighParts(vals[1..], k));
    }
  }

  lemma ReadOneLow(low: nat, i: nat, k: nat, raw: seq<u32>, more: seq<bool>)
    requires low < Pow2(k) && i < |raw| && raw[i] + low < TWO_32
    ensures ReadLows(ToBits(low, k) + more, i, k, raw) == ReadLows(more, i + 1, k, raw[i := raw[i] + low])
  {
    hide ToBits, Low;
    ReadBitsOfToBits(low, k, more);
    DivUnique(raw[i] + low, TWO_32, 0, raw[i] + low);
  }

  lemma {:induction false} ReadLowsOfLows(vals: seq<u32>, k: nat, pre: seq<u32>, rest: seq<bool>)
    ensures ReadLows(Lows(vals, k) + rest, |pre|, k, pre + HighParts(vals, k)) == Success((pre + vals, rest))
    decreases |vals|
  {
    if vals == [] {
      Seqs.Empty(rest);
      Seqs.Empty(pre);
    } else {
      var low, more := Low(vals[0], k), Lows(vals[1..], k) + rest;
      Seqs.Assoc(ToBits(low, k), Lows(vals[1..], k), rest);
      HighAndLow(vals[0], k);
      Seqs.UpdateMiddle(pre, Shl(Shr(vals[0], k), k), vals[0], HighParts(vals[1..], k));
      ReadOneLow(low, |pre|, k, pre + HighParts(vals, k), more);
      ReadLowsOfLows(vals[1..], k, pre + [vals[0]], rest);
      Seqs.MoveHead(pre, vals);
    }
  }

  /** The parameters for which no coded sample needs a longer fundamental sequence than the reader
      accepts; AecLimits shows that there is no other. */
  predicate RunsFit(p: Params) {
    p.bps <= 28 || p.blockSize <= 0x800_0000
  }

  lemma BlockRoundTrip(block: seq<u32>, raw: seq<u32>, rest: seq<bool>, p: Params)
    requires p.Valid() && RunsFit(p) && |raw| < p.RsiSamples()
    requires |block| == p.blockSize && Samples(block, p.bps)
    ensures DecodeBlock(EncodeBlock(block, p.pp && raw == [], p) + rest, raw, p) == Success((raw + block, rest))
  {
    hide DecodeBlock, EncodeBlock, SplitCode, RawCode;
    var split, ref, vals, k := CodeOfBlock(block, p.pp && raw == [], p);
    if split {
      SplitBlockRoundTrip(ref, vals, k, raw, rest, p);
    } else {
      RawBlockRoundTrip(block, raw, rest, p);
    }
  }

  lemma CodeOfBlock(block: seq<u32>, refFlag: bool, p: Params) returns (split: bool, ref: seq<u32>, vals: seq<u32>, k: nat)
    requires p.Valid() && RunsFit(p) && |block| == p.blockSize && Samples(block, p.bps)
    ensures split ==>
              && ref + vals == block && |ref| == (if refFlag then 1 else 0)
              && Samples(ref, p.bps) && ShortRuns(vals, k) && k <= p.Modi() - 3
              && EncodeBlock(block, refFlag, p) == SplitCode(ref, vals, k, p)
    ensures !split ==> EncodeBlock(block, refFlag, p) == RawCode(block, p)
  {
    hide Cost, BestSplit, Highs, Lows, Words, ToBits;
    ref, vals := if refFlag then block[..1] else [], if refFlag then block[1..] else block;
    k := BestSplit(vals, p.Modi() - 3);
    split := Cost(vals, k) < Times(|vals|, p.bps);
    Seqs.SplitAt(block, |ref|);
    if split {
      SplitRunsFit(vals, k, p);
    }
  }

  function RawCode(block: seq<u32>, p: Params): seq<bool> {
    ToBits(p.Modi() - 1, p.IdLen()) + Words(block, p.bps)
  }

  function SplitCode(ref: seq<u32>, vals: seq<u32>, k: nat, p: Params): seq<bool> {
    ToBits(k + 1, p.IdLen()) + Words(ref, p.bps) + Highs(vals, k) + Lows(vals, k)
  }

  lemma RawBlockRoundTrip(block: seq<u32>, raw: seq<u32>, rest: seq<bool>, p: Params)
    requires p.Valid() && |raw| < p.RsiSamples()
    requires |block| == p.blockSize && Samples(block, p.bps)
    ensures DecodeBlock(RawCode(block, p) + rest, raw, p) == Success((raw + block, rest))
  {
    var id, body := ToBits(p.Modi() - 1, p.IdLen()), Words(block, p.bps);
    Seqs.Assoc(id, body, rest);
    ReadBitsOfToBits(p.Modi() - 1, p.IdLen(), body + rest);
    ReadWordsOfWords(block, p.bps, raw, rest);
  }

  lemma SplitBlockRoundTrip(ref: seq<u32>, vals: seq<u32>, k: nat, raw: seq<u32>, rest: seq<bool>, p: Params)
    requires p.Valid() && |raw| < p.RsiSamples() && k <= p.Modi() - 3
    requires |ref| + |vals| == p.blockSize && |ref| == (if p.pp && raw == [] then 1 else 0)
    requires Samples(ref, p.bps) && ShortRuns(vals, k)
    ensures DecodeBlock(SplitCode(ref, vals, k, p) + rest, raw, p) == Success((raw + (ref + vals), rest))
  {
    hide ToBits, ReadHighs, ReadLows, Highs, Lows, Words;
    var id, ws, hs, ls := ToBits(k + 1, p.IdLen()), Words(ref, p.bps), Highs(vals, k), Lows(vals, k);
    Seqs.Assoc(id + ws + hs, ls, rest);
    Seqs.Assoc(id + ws, hs, ls + rest);
    Seqs.Assoc(id, ws, hs + (ls + rest));
    ReadBitsOfToBits(k + 1, p.IdLen(), ws + (hs + (ls + rest)));
    ReadWordsOfWords(ref, p.bps, raw, hs + (ls + rest));
    ReadHighsOfHighs(vals, k, raw + ref, ls + rest);
    ReadLowsOfLows(vals, k, raw + ref, rest);
    Seqs.Assoc(raw, ref, vals);
  }

  lemma {:induction false} ShrDecreases(v: nat, a: nat, b: nat)
    requires a <= b
    ensures Shr(v, b) <= Shr(v, a)
  {
    if a < b {
      ShrDecreases(v, a, b - 1);
    }
  }

  /** Splitting one bit higher costs a bit more per sample, and saves half of every run. */
  lemma {:induction false} CostDrops(vals: seq<u32>, k: nat)
    ensures Cost(vals, k) + |vals| >= Cost(vals, k + 1)
    ensures forall i :: 0 <= i < |vals| ==> Cost(vals, k) + |vals| >= Cost(vals, k + 1) + (Shr(vals[i], k) + 1) / 2
  {
    if vals != [] {
      CostDrops(vals[..|vals| - 1], k);
    }
  }

  lemma SplitRunsFit(vals: seq<u32>, k: nat, p: Params)
    requires p.Valid() && RunsFit(p) && |vals| <= p.blockSize && Samples(vals, p.bps) && k == BestSplit(vals, p.Modi() - 3)
    ensures ShortRuns(vals, k)
  {
    hide Cost, BestSplit, Shr;
    forall i | 0 <= i < |vals| ensures Shr(vals[i], k) <= MAX_FS {
      if p.bps <= 28 {
        ShrDecreases(vals[i], 0, k);
        Pow2Monotone(p.bps, 28);
        Pow2Constants();
        NoShift(vals[i]);
      } else if k < 29 {
        CostDrops(vals, k);
      } else {
        ShrDecreases(vals[i], 4, k);
        FourShifts(vals[i]);
      }
    }
  }

  lemma NoShift(v: u32)
    ensures Shr(v, 0) == v
  {
  }

  lemma FourShifts(v: u32)
    ensures Shr(v, 4) < MAX_FS
  {
    hide Shr;
    NoShift(v);
    OneShift(v, 0);
    OneShift(v, 1);
    OneShift(v, 2);
    OneShift(v, 3);
  }

  lemma OneShift(v: u32, k: nat)
    ensures Shr(v, k + 1) == Shr(v, k) / 2
  {
  }

  /** The decoder consumes the c blocks of an interval one by one, and flushes a full interval. */
  lemma {:induction false} BlocksRoundTrip(c: nat, coded: seq<u32>, raw: seq<u32>, out: seq<u32>, rest: seq<bool>, n: nat, p: Params)
    requires p.Valid() && RunsFit(p) && |out| < n
    requires c > 0 && |coded| == Times(c, p.blockSize) && |raw| + |coded| <= p.RsiSamples()
    requires Samples(coded, p.bps)
    ensures DecodeLoop(EncodeBlocks(coded, p.pp && raw == [], p) + rest, raw, out, n, p) ==
            if |raw| + |coded| < p.RsiSamples() then DecodeLoop(rest, raw + coded, out, n, p)
            else DecodeLoop(rest, [], out + UnmapRsi(raw + coded, p), n, p)
  {
    hide DecodeLoop, EncodeBlocks, UnmapRsi;
    if c == 1 {
      TimesIsProduct(1, p.blockSize);
      LastBlock(coded, raw, out, rest, n, p);
    } else {
      var b := p.blockSize;
      TimesMonotone(1, c - 1, b);
      BlocksStep(coded, raw, out, rest, n, p);
      BlocksRoundTrip(c - 1, coded[b..], raw + coded[..b], out, rest, n, p);
      Seqs.MovePrefix(raw, coded, b);
    }
  }

  lemma LastBlock(coded: seq<u32>, raw: seq<u32>, out: seq<u32>, rest: seq<bool>, n: nat, p: Params)
    requires p.Valid() && RunsFit(p) && |out| < n && Samples(coded, p.bps)
    requires |coded| == p.blockSize && |raw| + |coded| <= p.RsiSamples()
    ensures DecodeLoop(EncodeBlocks(coded, p.pp && raw == [], p) + rest, raw, out, n, p) ==
            if |raw| + |coded| < p.RsiSamples() then DecodeLoop(rest, raw + coded, out, n, p)
            else DecodeLoop(rest, [], out + UnmapRsi(raw + coded, p), n, p)
  {
    hide EncodeBlock, DecodeBlock, UnmapRsi, Samples, RunsFit;
    BlockRoundTrip(coded, raw, rest, p);
  }

  lemma BlocksStep(coded: seq<u32>, raw: seq<u32>, out: seq<u32>, rest: seq<bool>, n: nat, p: Params)
    requires p.Valid() && RunsFit(p) && |out| < n && Samples(coded, p.bps)
    requires p.blockSize < |coded| && |raw| + |coded| <= p.RsiSamples()
    ensures DecodeLoop(EncodeBlocks(coded, p.pp && raw == [], p) + rest, raw, out, n, p) ==
            DecodeLoop(EncodeBlocks(coded[p.blockSize..], false, p) + rest, raw + coded[..p.blockSize], out, n, p)
  {
    var refFlag, b := p.pp && raw == [], p.blockSize;
    var more := EncodeBlocks(coded[b..], false, p) + rest;
    BlockRoundTrip(coded[..b], raw, more, p);
    Seqs.Assoc(EncodeBlock(coded[..b], refFlag, p), EncodeBlocks(coded[b..], false, p), rest);
  }

  /** The padding residuals after the samples do not disturb them. */
  lemma UnmapOfPreprocess(xs: seq<u32>, p: Params)
    requires p.Valid() && xs != [] && Samples(xs, p.bps)
    ensures var coded := Preprocess(xs, p); coded != [] && UnmapRsi(coded, p)[..|xs|] == xs
    ensures Samples(Preprocess(xs, p), p.bps)
  {
    var coded := Preprocess(xs, p);
    var pad := ZeroSamples(|coded| - |xs|);
    if p.pp {
      UnmapFromMapFrom(xs[0], xs[1..], pad, p.bps);
      assert coded[1..] == MapFrom(xs[0], xs[1..], p.bps) + pad;
      assert UnmapRsi(coded, p)[..|xs|] == [xs[0]] + UnmapFrom(xs[0], coded[1..], p.bps)[..|xs| - 1];
      assert xs == [xs[0]] + xs[1..];
    }
  }

  /** The number of samples in the last interval when there are n > 0 in all. */
  function LastInterval(n: nat, m: nat): (last: nat)
    requires m > 0
    ensures last <= m && (n > 0 ==> last > 0)
  {
    if n <= m then n else LastInterval(n - m, m)
  }

  /** The blocks of the last interval fill it. */
  predicate FillsLastInterval(n: nat, p: Params)
    requires p.RsiSamples() > 0
  {
    n == 0 || LastInterval(n, p.RsiSamples()) > p.RsiSamples() - p.blockSize
  }

  lemma {:induction false} FullByBlocks(n: nat, b: nat, c: nat)
    requires b > 0 && 0 < n <= Times(c, b)
    ensures 0 < BlocksFor(n, b) <= c
    ensures Times(BlocksFor(n, b), b) <= Times(c, b)
    ensures (n > Times(c, b) - b) == (Times(BlocksFor(n, b), b) == Times(c, b))
  {
    if n > b {
      FullByBlocks(n - b, b, c - 1);
    } else {
      assert Times(1, b) == b;
      TimesMonotone(1, c, b);
    }
  }

  /** Fewer than eight padding zeros never decode as a block. */
  lemma PaddingIsNoBlock(pad: nat, raw: seq<u32>, p: Params)
    requires p.Valid() && pad < 8 && 0 < |raw| < p.RsiSamples()
    ensures DecodeBlock(Zeros(pad), raw, p).Failure?
  {
    if pad >= p.IdLen() {
      ZeroBitsRead(pad, p.IdLen());
      if pad - p.IdLen() >= 1 {
        ZeroBitsRead(pad - p.IdLen(), 1);
        ReadUnaryOfZeros(pad - p.IdLen() - 1, 0);
      }
    }
  }

  lemma ZeroBitsRead(n: nat, k: nat)
    requires k <= n
    ensures ReadBits(Zeros(n), k) == Success((0, Zeros(n - k)))
  {
    ToBitsShifted(0, 0, k);
    assert Zeros(n) == ToBits(0, k) + Zeros(n - k);
    ReadBitsOfToBits(0, k, Zeros(n - k));
  }

  lemma LoopEnds(s: seq<bool>, out: seq<u32>, n: nat, p: Params)
    requires p.Valid() && p.RsiSamples() > 0 && |out| >= n
    ensures DecodeLoop(s, [], out, n, p) == Success(out[..n])
  {
  }

  lemma LoopFails(s: seq<bool>, raw: seq<u32>, out: seq<u32>, n: nat, p: Params)
    requires p.Valid() && |raw| < p.RsiSamples() && |out| < n
    requires DecodeBlock(s, raw, p).Failure?
    ensures DecodeLoop(s, raw, out, n, p).Failure?
  {
  }

  /** One interval of the stream, whole or not. */
  lemma IntervalRoundTrip(xs: seq<u32>, out: seq<u32>, rest: seq<bool>, n: nat, p: Params)
    requires p.Valid() && RunsFit(p) && Samples(xs, p.bps) && 0 < |xs| <= p.RsiSamples() && |out| < n
    ensures var coded := Preprocess(xs, p);
            |coded| > 0 && UnmapRsi(coded, p)[..|xs|] == xs && p.RsiSamples() > 0 &&
            DecodeLoop(EncodeBlocks(coded, p.pp, p) + rest, [], out, n, p) ==
              if FillsLastInterval(|xs|, p) then DecodeLoop(rest, [], out + UnmapRsi(coded, p), n, p)
              else DecodeLoop(rest, coded, out, n, p)
    ensures |Preprocess(xs, p)| <= p.RsiSamples()
    ensures !FillsLastInterval(|xs|, p) ==> |Preprocess(xs, p)| < p.RsiSamples()
  {
    var coded := Preprocess(xs, p);
    UnmapOfPreprocess(xs, p);
    FullByBlocks(|xs|, p.blockSize, p.rsi);
    BlocksRoundTrip(BlocksFor(|xs|, p.blockSize), coded, [], out, rest, n, p);
    Seqs.Empty(coded);
  }

  lemma LastFullInterval(xs: seq<u32>, out: seq<u32>, pad: nat, p: Params)
    requires p.Valid() && RunsFit(p) && Samples(xs, p.bps) && 0 < |xs| <= p.RsiSamples()
    requires FillsLastInterval(|xs|, p)
    ensures DecodeLoop(Encode(xs, p) + Zeros(pad), [], out, |out| + |xs|, p) == Success(out + xs)
  {
    hide DecodeLoop, Preprocess, UnmapRsi, EncodeBlocks, FillsLastInterval, DecodeBlock;
    var coded := Preprocess(xs, p);
    IntervalRoundTrip(xs, out, Zeros(pad), |out| + |xs|, p);
    LoopEnds(Zeros(pad), out + UnmapRsi(coded, p), |out| + |xs|, p);
    Seqs.TakeAppended(out, UnmapRsi(coded, p), |xs|);
  }

  lemma LastPartialInterval(xs: seq<u32>, out: seq<u32>, pad: nat, p: Params)
    requires p.Valid() && RunsFit(p) && Samples(xs, p.bps) && pad < 8 && 0 < |xs| <= p.RsiSamples()
    requires !FillsLastInterval(|xs|, p)
    ensures DecodeLoop(Encode(xs, p) + Zeros(pad), [], out, |out| + |xs|, p).Failure?
  {
    hide Preprocess, UnmapRsi, EncodeBlocks, FillsLastInterval, DecodeBlock;
    var coded := Preprocess(xs, p);
    IntervalRoundTrip(xs, out, Zeros(pad), |out| + |xs|, p);
    PaddingIsNoBlock(pad, coded, p);
    LoopFails(Zeros(pad), coded, out, |out| + |xs|, p);
  }

  lemma FirstIntervalRoundTrip(xs: seq<u32>, out: seq<u32>, rest: seq<bool>, n: nat, p: Params)
    requires p.Valid() && RunsFit(p) && Samples(xs, p.bps) && |xs| > p.RsiSamples() && |out| < n
    ensures DecodeLoop(Encode(xs, p) + rest, [], out, n, p) ==
            DecodeLoop(Encode(xs[p.RsiSamples()..], p) + rest, [], out + xs[..p.RsiSamples()], n, p)
  {
    hide Preprocess, UnmapRsi, EncodeBlocks, DecodeBlock;
    var m := p.RsiSamples();
    TimesMonotone(1, p.rsi, p.blockSize);
    var head, more := xs[..m], Encode(xs[m..], p) + rest;
    var coded := Preprocess(head, p);
    IntervalRoundTrip(head, out, more, n, p);
    Seqs.TakeAll(UnmapRsi(coded, p), m);
    Seqs.Assoc(EncodeBlocks(coded, p.pp, p), Encode(xs[m..], p), rest);
  }

  lemma {:induction false} StreamRoundTrip(xs: seq<u32>, out: seq<u32>, pad: nat, p: Params)
    requires p.Valid() && RunsFit(p) && Samples(xs, p.bps) && pad < 8 && p.RsiSamples() > 0
    ensures var r := DecodeLoop(Encode(xs, p) + Zeros(pad), [], out, |out| + |xs|, p);
            if FillsLastInterval(|xs|, p) then r == Success(out + xs) else r.Failure?
    decreases |xs|
  {
    var m := p.RsiSamples();
    hide DecodeLoop, Encode;
    if xs == [] {
      LoopEnds(Encode(xs, p) + Zeros(pad), out, |out|, p);
      Seqs.Empty(out);
    } else if |xs| <= m {
      if FillsLastInterval(|xs|, p) {
        LastFullInterval(xs, out, pad, p);
      } else {
        LastPartialInterval(xs, out, pad, p);
      }
    } else {
      FirstIntervalRoundTrip(xs, out, Zeros(pad), |out| + |xs|, p);
      StreamRoundTrip(xs[m..], out + xs[..m], pad, p);
      Seqs.MovePrefix(out, xs, m);
    }
  }

  /** The round trip holds exactly when the blocks of the last interval fill it; otherwise
      the decoder reports an error. */
  lemma AecRoundTrip(xs: seq<u32>, pad: nat, p: Params)
    requires p.Valid() && RunsFit(p) && Samples(xs, p.bps) && pad < 8
    ensures p.RsiSamples() > 0
    ensures var r := Decode(Encode(xs, p) + Zeros(pad), |xs|, p);
            if FillsLastInterval(|xs|, p) then r == Success(xs) else r.Failure?
  {
    hide DecodeLoop, Encode, FillsLastInterval;
    TimesMonotone(1, p.rsi, p.blockSize);
    StreamRoundTrip(xs, [], pad, p);
    Seqs.Empty(xs);
  }
}
