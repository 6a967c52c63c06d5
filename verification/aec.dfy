/** The adaptive entropy coder of szip (CCSDS 121.0-B section 3): block options, block streams. */
module Aec {
  import opened Wrappers
  import opened Bytes
  import opened Bits
  import opened Predictor

  datatype Params = Params(bps: nat, blockSize: nat, rsi: nat, pp: bool) {
    /** What `sz_compress` and `sz_decompress` establish before they call the coder. */
    ghost predicate Valid() {
      1 <= bps <= 32 && 2 <= blockSize < TWO_32 && blockSize % 2 == 0 && rsi >= 1
    }

    function RsiSamples(): nat {
      Times(rsi, blockSize)
    }

    function IdLen(): (n: nat)
      ensures 3 <= n <= 5
    {
      if bps > 16 then 5 else if bps > 8 then 4 else 3
    }

    function Modi(): (n: nat)
      ensures 8 <= n <= 32 && n == Pow2(IdLen())
    {
      Pow2Constants();
      Pow2(IdLen())
    }
  }

  // ----- the decoder, on the bits that remain

  function ReadWords(s: seq<bool>, n: nat, bps: nat, raw: seq<u32>): (r: Parse<seq<u32>>)
    requires bps <= 32
    ensures r.Success? ==> |r.value.1| <= |s| && |r.value.0| == |raw| + n
    decreases n
  {
    if n == 0 then Success((raw, s)) else
      var (v, rest) :- ReadBits(s, bps);
      BpsBound(bps);
      ReadWords(rest, n - 1, bps, raw + [v])
  }

  function ReadHighs(s: seq<bool>, n: nat, k: nat, raw: seq<u32>): (r: Parse<seq<u32>>)
    ensures r.Success? ==> |r.value.1| <= |s| && |r.value.0| == |raw| + n
    decreases n
  {
    if n == 0 then Success((raw, s)) else
      var (v, rest) :- ReadUnary(s, 0);
      ReadHighs(rest, n - 1, k, raw + [Shl(v, k)])
  }

  /** Adds k low bits to every sample from position i on. */
  function ReadLows(s: seq<bool>, i: nat, k: nat, raw: seq<u32>): (r: Parse<seq<u32>>)
    requires i <= |raw|
    ensures r.Success? ==> |r.value.1| <= |s| && |r.value.0| == |raw|
    decreases |raw| - i
  {
    if i == |raw| then Success((raw, s)) else
      var (v, rest) :- ReadBits(s, k);
      ReadLows(rest, i + 1, k, raw[i := (raw[i] + v) % TWO_32])
  }

  /** Second-extension values are listed in groups: group i holds i + 1 of them, from `first` on. */
  function SePair(m: nat, i: nat, first: nat): (pair: (nat, nat))
    requires first <= m
    ensures pair.1 <= pair.0 && pair.0 <= i + m - first
    decreases m - first
  {
    if m <= first + i then (i, m - first) else SePair(m, i + 1, first + i + 1)
  }

  function ReadPairs(s: seq<bool>, count: nat, blockSize: nat, raw: seq<u32>): (r: Parse<seq<u32>>)
    ensures r.Success? ==> |r.value.1| <= |s| && |r.value.0| >= |raw|
    decreases blockSize - count
  {
    if count >= blockSize then Success((raw, s)) else
      var (m, rest) :- ReadUnary(s, 0);
      if m >= 91 then Failure(BadGamma) else
        var (g, d) := SePair(m, 0, 0);
        if count % 2 == 0 then ReadPairs(rest, count + 2, blockSize, raw + [g - d] + [d])
        else ReadPairs(rest, count + 1, blockSize, raw + [d])
  }

  const ROS: nat := 5

  /** n / b, counted. */
  function WholeBlocks(n: nat, b: nat): nat
    requires b > 0
  {
    if n < b then 0 else 1 + WholeBlocks(n - b, b)
  }

  lemma {:induction false} WholeBlocksBound(n: nat, b: nat, c: nat)
    requires b > 0 && n < Times(c, b)
    ensures WholeBlocks(n, b) < c
  {
    if n >= b {
      WholeBlocksBound(n - b, b, c - 1);
    }
  }

  /** How many all-zero blocks a fundamental sequence announces after `inRsi` samples. */
  function ZeroBlocks(fs: nat, inRsi: nat, refFlag: bool, p: Params): (n: nat)
    requires p.Valid() && inRsi < p.RsiSamples() && (refFlag ==> inRsi == 0)
    ensures n >= 1
  {
    if fs + 1 == ROS then
      WholeBlocksBound(inRsi, p.blockSize, p.rsi);
      var b := WholeBlocks(inRsi + if refFlag then 1 else 0, p.blockSize);
      Min(p.rsi - b, 64 - b % 64)
    else if fs + 1 > ROS then fs
    else fs + 1
  }

  /** Decodes one coded block and appends its samples to `raw`, the current interval. */
  function DecodeBlock(s: seq<bool>, raw: seq<u32>, p: Params): (r: Parse<seq<u32>>)
    requires p.Valid() && |raw| < p.RsiSamples()
    ensures r.Success? ==> |r.value.1| < |s| && |r.value.0| > |raw|
  {
    var refFlag := p.pp && raw == [];
    var (id, s1) :- ReadBits(s, p.IdLen());
    if id == 0 then
      var (id2, s2) :- ReadBits(s1, 1);
      var (raw1, s3) :- ReadWords(s2, if refFlag then 1 else 0, p.bps, raw);
      if id2 == 1 then
        ReadPairs(s3, if refFlag then 1 else 0, p.blockSize, raw1)
      else
        var (fs, s4) :- ReadUnary(s3, 0);
        var blocks := ZeroBlocks(fs, |raw|, refFlag, p);
        TimesMonotone(1, blocks, p.blockSize);
        Success((raw1 + ZeroSamples(Times(blocks, p.blockSize) - if refFlag then 1 else 0), s4))
    else if id == p.Modi() - 1 then
      ReadWords(s1, p.blockSize, p.bps, raw)
    else
      var (raw1, s2) :- ReadWords(s1, if refFlag then 1 else 0, p.bps, raw);
      var (raw2, s3) :- ReadHighs(s2, p.blockSize - |raw1| + |raw|, id - 1, raw1);
      ReadLows(s3, |raw1|, id - 1, raw2)
  }

  function ZeroSamples(n: nat): (z: seq<u32>)
    ensures |z| == n
  {
    seq(n, _ => 0)
  }

  /** Undoes the prediction of one finished interval. */
  function UnmapRsi(raw: seq<u32>, p: Params): (xs: seq<u32>)
    requires p.Valid() && raw != []
    ensures |xs| == |raw|
  {
    if p.pp then [raw[0]] + UnmapFrom(raw[0], raw[1..], p.bps) else raw
  }

  /** The decoder's main loop: it stops once whole intervals hold n samples. */
  function DecodeLoop(s: seq<bool>, raw: seq<u32>, out: seq<u32>, n: nat, p: Params): (r: Result<seq<u32>, SzipError>)
    requires p.Valid() && |raw| < p.RsiSamples()
    decreases |s|
  {
    if |out| >= n then
      Success((if raw == [] then out else out + UnmapRsi(raw, p))[..n])
    else
      var (raw', rest) :- DecodeBlock(s, raw, p);
      if |raw'| >= p.RsiSamples() then DecodeLoop(rest, [], out + UnmapRsi(raw', p), n, p)
      else DecodeLoop(rest, raw', out, n, p)
  }

  function Decode(s: seq<bool>, n: nat, p: Params): (r: Result<seq<u32>, SzipError>)
    requires p.Valid()
  {
    TimesMonotone(1, p.rsi, p.blockSize);
    DecodeLoop(s, [], [], n, p)
  }

  // ----- the encoder

  /** The bits a split at k takes, without the block's id. */
  function Cost(vals: seq<u32>, k: nat): nat {
    if vals == [] then 0 else Cost(vals[..|vals| - 1], k) + k + 1 + Shr(vals[|vals| - 1], k)
  }

  /** The least k in 0..kmax of least cost. */
  function BestSplit(vals: seq<u32>, kmax: nat): (k: nat)
    ensures k <= kmax
    ensures forall j :: 0 <= j <= kmax ==> Cost(vals, k) <= Cost(vals, j)
  {
    if kmax == 0 then 0 else
      var k := BestSplit(vals, kmax - 1);
      if Cost(vals, kmax) < Cost(vals, k) then kmax else k
  }

  function Words(vals: seq<u32>, n: nat): seq<bool> {
    if vals == [] then [] else ToBits(vals[0], n) + Words(vals[1..], n)
  }

  function Highs(vals: seq<u32>, k: nat): seq<bool> {
    if vals == [] then [] else Unary(Shr(vals[0], k)) + Highs(vals[1..], k)
  }

  function Lows(vals: seq<u32>, k: nat): seq<bool> {
    if vals == [] then [] else ToBits(Low(vals[0], k), k) + Lows(vals[1..], k)
  }

  /** One block: the cheapest split, or the samples themselves when no split is shorter. */
  function EncodeBlock(block: seq<u32>, refFlag: bool, p: Params): seq<bool>
    requires p.Valid() && block != []
  {
    var vals := if refFlag then block[1..] else block;
    var k := BestSplit(vals, p.Modi() - 3);
    if Cost(vals, k) >= Times(|vals|, p.bps) then
      ToBits(p.Modi() - 1, p.IdLen()) + Words(block, p.bps)
    else
      ToBits(k + 1, p.IdLen()) + Words(if refFlag then block[..1] else [], p.bps)
        + Highs(vals, k) + Lows(vals, k)
  }

  /** All blocks of one interval; only its first block carries the reference sample. */
  function EncodeBlocks(coded: seq<u32>, refFlag: bool, p: Params): seq<bool>
    requires p.Valid()
    decreases |coded|
  {
    if coded == [] then []
    else if |coded| <= p.blockSize then EncodeBlock(coded, refFlag, p)
    else EncodeBlock(coded[..p.blockSize], refFlag, p) + EncodeBlocks(coded[p.blockSize..], false, p)
  }

  predicate Encodable(xs: seq<u32>, p: Params) {
    p.pp ==> Samples(xs, p.bps)
  }

  /** Reference sample and residuals of one interval, padded to whole blocks. */
  function Preprocess(xs: seq<u32>, p: Params): (coded: seq<u32>)
    requires p.Valid() && xs != [] && Encodable(xs, p)
    ensures |coded| == Times(BlocksFor(|xs|, p.blockSize), p.blockSize)
  {
    (if p.pp then [xs[0]] + MapFrom(xs[0], xs[1..], p.bps) else xs)
      + ZeroSamples(Times(BlocksFor(|xs|, p.blockSize), p.blockSize) - |xs|)
  }

  function Encode(xs: seq<u32>, p: Params): seq<bool>
    requires p.Valid() && Encodable(xs, p)
    decreases |xs|
  {
    TimesMonotone(1, p.rsi, p.blockSize);
    if xs == [] then []
    else if |xs| <= p.RsiSamples() then EncodeBlocks(Preprocess(xs, p), p.pp, p)
    else EncodeBlocks(Preprocess(xs[..p.RsiSamples()], p), p.pp, p) + Encode(xs[p.RsiSamples()..], p)
  }
}
