/** Beyond which parameters the coder writes runs that its own reader refuses. */
module AecLimits {
  import opened Wrappers
  import opened Bytes
  import opened Bits
  import opened Predictor
  import opened Aec
  import opened AecRoundTrip
  import Seqs

  /** One more than the reader's longest run. */
  const LONG: u32 := 0x1000_0001

  /** One large value, then n zeros. */
  function Spike(n: nat): (vals: seq<u32>)
    ensures |vals| == n + 1
  {
    [LONG] + ZeroSamples(n)
  }

  lemma {:induction false} ZeroShifted(k: nat)
    ensures Shr(0, k) == 0
  {
    if k > 0 {
      ZeroShifted(k - 1);
    }
  }

  lemma {:induction false} SpikeCost(n: nat, k: nat)
    ensures Cost(Spike(n), k) == Times(n + 1, k + 1) + Shr(LONG, k)
  {
    hide Shr;
    var vals := Spike(n);
    if n == 0 {
      assert vals[..|vals| - 1] == [];
      assert Times(1, k + 1) == k + 1;
    } else {
      SpikeCost(n - 1, k);
      assert vals[..|vals| - 1] == Spike(n - 1);
      ZeroShifted(k);
    }
  }

  /** Splitting at 0 is cheapest: every further bit costs one bit per sample, and there are at least
      half as many samples as the run is long. */
  lemma SpikeSplit(n: nat, kmax: nat)
    requires n >= 0x800_0000
    ensures BestSplit(Spike(n), kmax) == 0
    ensures Cost(Spike(n), 0) < Times(n + 1, 29)
  {
    hide Times, Cost;
    var vals := Spike(n);
    SpikeCost(n, 0);
    SmallShifts();
    TimesIsProduct(n + 1, 1);
    TimesIsProduct(n + 1, 29);
    forall j | 0 < j <= kmax ensures Cost(vals, 0) <= Cost(vals, j) {
      SpikeCost(n, j);
      TimesIsProduct(n + 1, j + 1);
      if j == 1 {
      } else {
        MulMonotone(n + 1, 3, j + 1);
      }
    }
    FirstIsBest(vals, kmax);
  }

  lemma SmallShifts()
    ensures Shr(LONG, 0) == LONG && Shr(LONG, 1) == 0x800_0000
  {
  }

  lemma {:induction false} FirstIsBest(vals: seq<u32>, kmax: nat)
    requires forall j :: 0 < j <= kmax ==> Cost(vals, 0) <= Cost(vals, j)
    ensures BestSplit(vals, kmax) == 0
  {
    hide Cost;
    if kmax > 0 {
      FirstIsBest(vals, kmax - 1);
    }
  }

  lemma {:induction false} LongRunRefused(v: nat, seen: nat, rest: seq<bool>)
    requires seen <= MAX_FS < seen + v
    ensures ReadUnary(Unary(v) + rest, seen).Failure?
    decreases v
  {
    var s := Unary(v) + rest;
    assert s[1..] == Unary(v - 1) + rest;
    if seen < MAX_FS {
      LongRunRefused(v - 1, seen + 1, rest);
    }
  }

  lemma SpikeHighs(n: nat, rest: seq<bool>, count: nat, raw: seq<u32>)
    requires count > 0
    ensures ReadHighs(Highs(Spike(n), 0) + rest, count, 0, raw).Failure?
  {
    hide Unary;
    SmallShifts();
    Seqs.Assoc(Unary(LONG), Highs(Spike(n)[1..], 0), rest);
    LongRunRefused(LONG, 0, Highs(Spike(n)[1..], 0) + rest);
  }

  /** A block that is coded but cannot be decoded. */
  function BadBlock(refFlag: bool, p: Params): (block: seq<u32>)
    requires p.blockSize >= 2
    ensures |block| == p.blockSize
  {
    if refFlag then [0] + Spike(p.blockSize - 2) else Spike(p.blockSize - 1)
  }

  lemma BadSamples(refFlag: bool, p: Params)
    requires p.Valid() && p.bps > 28
    ensures Samples(BadBlock(refFlag, p), p.bps)
  {
    hide Pow2;
    LongFits(p.bps);
  }

  lemma LongFits(bps: nat)
    requires bps > 28
    ensures LONG < Pow2(bps)
  {
    Pow2Monotone(29, bps);
    Pow2Constants();
    assert Pow2(29) == 2 * Pow2(28);
  }

  lemma BadBlockFails(raw: seq<u32>, rest: seq<bool>, p: Params)
    requires p.Valid() && !RunsFit(p) && |raw| < p.RsiSamples()
    ensures DecodeBlock(EncodeBlock(BadBlock(p.pp && raw == [], p), p.pp && raw == [], p) + rest, raw, p).Failure?
  {
    hide Times, BestSplit, Cost, ToBits, ReadHighs, ReadLows, Highs, Lows, Words;
    var refFlag := p.pp && raw == [];
    var block := BadBlock(refFlag, p);
    var vals, ref := if refFlag then block[1..] else block, if refFlag then block[..1] else [];
    var n := |vals| - 1;
    assert vals == Spike(n);
    SpikeSplit(n, p.Modi() - 3);
    TimesIsProduct(n + 1, 29);
    TimesIsProduct(n + 1, p.bps);
    MulMonotone(n + 1, 29, p.bps);
    SpikeCodeFails(ref, n, raw, rest, p);
  }

  lemma SpikeCodeFails(ref: seq<u32>, n: nat, raw: seq<u32>, rest: seq<bool>, p: Params)
    requires p.Valid() && p.bps > 28 && |raw| < p.RsiSamples()
    requires |ref| == (if p.pp && raw == [] then 1 else 0) && |ref| + n + 1 == p.blockSize && (ref == [] || ref == [0])
    ensures DecodeBlock(SplitCode(ref, Spike(n), 0, p) + rest, raw, p).Failure?
  {
    hide ToBits, ReadHighs, ReadLows, Highs, Lows, Words;
    var id, ws, hs, ls := ToBits(1, p.IdLen()), Words(ref, p.bps), Highs(Spike(n), 0), Lows(Spike(n), 0);
    Seqs.Assoc(id + ws + hs, ls, rest);
    Seqs.Assoc(id + ws, hs, ls + rest);
    Seqs.Assoc(id, ws, hs + (ls + rest));
    ReadBitsOfToBits(1, p.IdLen(), ws + (hs + (ls + rest)));
    ReadWordsOfWords(ref, p.bps, raw, hs + (ls + rest));
    SpikeHighs(n, ls + rest, n + 1, raw + ref);
  }

  ghost predicate BlockComesBack(block: seq<u32>, rest: seq<bool>, raw: seq<u32>, p: Params)
    requires p.Valid() && |raw| < p.RsiSamples() && block != []
  {
    DecodeBlock(EncodeBlock(block, p.pp && raw == [], p) + rest, raw, p) == Success((raw + block, rest))
  }

  /** Every block of samples can be decoded if and only if the parameters are among those. */
  lemma BlocksDecodeExactly(raw: seq<u32>, p: Params)
    requires p.Valid() && |raw| < p.RsiSamples()
    ensures RunsFit(p) <==>
            forall block: seq<u32>, rest: seq<bool> :: |block| == p.blockSize && Samples(block, p.bps) ==> BlockComesBack(block, rest, raw, p)
  {
    hide DecodeBlock, EncodeBlock, Samples, RunsFit;
    if RunsFit(p) {
      forall block: seq<u32>, rest: seq<bool> | |block| == p.blockSize && Samples(block, p.bps) ensures BlockComesBack(block, rest, raw, p) {
        BlockRoundTrip(block, raw, rest, p);
      }
    } else {
      WideSamples(p);
      BadSamples(p.pp && raw == [], p);
      BadBlockFails(raw, [], p);
      assert !BlockComesBack(BadBlock(p.pp && raw == [], p), [], raw, p);
    }
  }

  lemma WideSamples(p: Params)
    requires !RunsFit(p)
    ensures p.bps > 28
  {
  }

  // ----- whole streams

  function Constant(v: u32, n: nat): (s: seq<u32>)
    ensures |s| == n
  {
    seq(n, _ => v)
  }

  /** Samples whose residuals start with a bad block, one interval long. */
  function BadStream(p: Params): (xs: seq<u32>)
    requires p.RsiSamples() >= 2
    ensures |xs| == p.RsiSamples()
  {
    if p.pp then [0] + Constant(LONG, p.RsiSamples() - 1) else Spike(p.RsiSamples() - 1)
  }

  lemma ConstantSamples(p: Params)
    requires p.Valid() && p.bps > 28 && p.RsiSamples() >= 2
    ensures LONG < Pow2(p.bps) && Samples(BadStream(p), p.bps)
  {
    hide Pow2;
    LongFits(p.bps);
  }

  lemma {:induction false} ConstantMaps(n: nat, bps: nat)
    requires 1 <= bps <= 32 && LONG < Pow2(bps)
    ensures Samples(Constant(LONG, n), bps) && MapFrom(LONG, Constant(LONG, n), bps) == ZeroSamples(n)
  {
    if n > 0 {
      ConstantMaps(n - 1, bps);
      assert Constant(LONG, n)[1..] == Constant(LONG, n - 1);
      NoChange(bps);
      assert [0] + ZeroSamples(n - 1) == ZeroSamples(n);
    }
  }

  lemma NoChange(bps: nat)
    requires 1 <= bps <= 32 && LONG < Pow2(bps)
    ensures Residual(LONG, LONG, bps) == 0 && Residual(0, LONG, bps) == LONG
  {
    UnmapOfMap(LONG, LONG, bps);
    UnmapOfMap(0, LONG, bps);
  }

  lemma BadResiduals(p: Params)
    requires p.Valid() && p.bps > 28 && p.RsiSamples() >= 2
    ensures Encodable(BadStream(p), p)
    ensures Preprocess(BadStream(p), p) == if p.pp then [0] + Spike(p.RsiSamples() - 2) else Spike(p.RsiSamples() - 1)
  {
    var m, xs := p.RsiSamples(), BadStream(p);
    ConstantSamples(p);
    FullByBlocks(m, p.blockSize, p.rsi);
    assert ZeroSamples(0) == [];
    if p.pp {
      ConstantMaps(m - 2, p.bps);
      NoChange(p.bps);
      assert xs[1..] == Constant(LONG, m - 1) && Constant(LONG, m - 1)[1..] == Constant(LONG, m - 2);
      Seqs.Empty([0] + Spike(m - 2));
    } else {
      Seqs.Empty(Spike(m - 1));
    }
  }

  lemma BadStart(p: Params)
    requires p.Valid() && p.RsiSamples() >= p.blockSize
    ensures (if p.pp then [0] + Spike(p.RsiSamples() - 2) else Spike(p.RsiSamples() - 1))[..p.blockSize] == BadBlock(p.pp, p)
  {
  }

  lemma BadStreamFails(pad: nat, p: Params)
    requires p.Valid() && !RunsFit(p)
    ensures p.RsiSamples() >= 2
    ensures Samples(BadStream(p), p.bps) && FillsLastInterval(|BadStream(p)|, p)
    ensures Decode(Encode(BadStream(p), p) + Zeros(pad), |BadStream(p)|, p).Failure?
  {
    hide DecodeBlock, EncodeBlock, Preprocess, Spike, BadBlock, BadStream;
    TimesMonotone(1, p.rsi, p.blockSize);
    assert Times(1, p.blockSize) == p.blockSize;
    ConstantSamples(p);
    BadResiduals(p);
    BadStart(p);
    var b := p.blockSize;
    var coded := Preprocess(BadStream(p), p);
    var more := if |coded| <= b then [] else EncodeBlocks(coded[b..], false, p);
    FirstBlockOf(coded, p);
    Seqs.Assoc(EncodeBlock(coded[..b], p.pp, p), more, Zeros(pad));
    BadBlockFails([], more + Zeros(pad), p);
    LoopFails(Encode(BadStream(p), p) + Zeros(pad), [], [], |BadStream(p)|, p);
  }

  lemma FirstBlockOf(coded: seq<u32>, p: Params)
    requires p.Valid() && |coded| >= p.blockSize
    ensures EncodeBlocks(coded, p.pp, p) ==
            EncodeBlock(coded[..p.blockSize], p.pp, p) + (if |coded| <= p.blockSize then [] else EncodeBlocks(coded[p.blockSize..], false, p))
  {
    hide EncodeBlock;
    if |coded| == p.blockSize {
      Seqs.TakeAll(coded, p.blockSize);
      Seqs.Empty(EncodeBlock(coded, p.pp, p));
    }
  }

  ghost predicate StreamComesBack(xs: seq<u32>, pad: nat, p: Params)
    requires p.Valid() && Samples(xs, p.bps)
  {
    Decode(Encode(xs, p) + Zeros(pad), |xs|, p) == Success(xs)
  }

  /** With these parameters, and with no others, every stream whose last interval is filled comes back. */
  lemma StreamsDecodeExactly(p: Params)
    requires p.Valid()
    ensures p.RsiSamples() > 0
    ensures RunsFit(p) <==>
            forall xs: seq<u32>, pad: nat :: pad < 8 && Samples(xs, p.bps) && FillsLastInterval(|xs|, p) ==> StreamComesBack(xs, pad, p)
  {
    hide Decode, Encode, Samples, RunsFit, FillsLastInterval, BadStream;
    TimesMonotone(1, p.rsi, p.blockSize);
    if RunsFit(p) {
      forall xs: seq<u32>, pad: nat | pad < 8 && Samples(xs, p.bps) && FillsLastInterval(|xs|, p) ensures StreamComesBack(xs, pad, p) {
        AecRoundTrip.AecRoundTrip(xs, pad, p);
      }
    } else {
      BadStreamFails(0, p);
      assert !StreamComesBack(BadStream(p), 0, p);
    }
  }
}
