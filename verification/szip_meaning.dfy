/** Szip buffers of any coder, in terms of the parameter words and the bytes of the pixels. */
module SzipMeaning {
  import opened Wrappers
  import opened Bytes
  import opened Bits
  import opened Predictor
  import opened Szip
  import opened AecOptions
  import Aec
  import Seqs
  import Transpose

  // ----- what the words say

  /** Word 0 holds options: bit 4 for the order of bytes, bit 5 for the predictor, bit 7 for raw coding.
      Then bits per pixel, pixels per block and pixels per scanline. */
  predicate Supported(cdata: seq<u32>)
    requires |cdata| >= 4
  {
    && (1 <= cdata[1] <= 32 || cdata[1] == 64) && cdata[2] >= 2 && cdata[2] % 2 == 0 && 1 <= cdata[3] <= 4096
    && cdata[0] / 128 % 2 == 0
  }

  /** Pixels of 32 and 64 bits are coded byte by byte, all first bytes first. */
  predicate ByPlanes(cdata: seq<u32>)
    requires |cdata| >= 4
  {
    cdata[1] == 32 || cdata[1] == 64
  }

  function SampleBits(cdata: seq<u32>): nat
    requires |cdata| >= 4
  {
    if ByPlanes(cdata) then 8 else cdata[1]
  }

  /** Bytes of a sample in memory. */
  function SampleWidth(cdata: seq<u32>): (w: nat)
    requires |cdata| >= 4
    ensures w >= 1
  {
    if SampleBits(cdata) <= 8 then 1 else if SampleBits(cdata) <= 16 then 2 else 4
  }

  /** The coder: samples, samples of a block, blocks of an interval, which is a scanline, and prediction. */
  function CoderOf(cdata: seq<u32>): Aec.Params
    requires |cdata| >= 4 && cdata[2] > 0
  {
    Aec.Params(SampleBits(cdata), cdata[2], BlocksFor(cdata[3], cdata[2]), cdata[0] / 32 % 2 == 1)
  }

  /** The number that bytes spell, the most significant first. */
  function BigEndian(s: seq<u8>): nat {
    if s == [] then 0 else BigEndian(s[..|s| - 1]) * 0x100 + s[|s| - 1] as int
  }

  predicate Whole(cdata: seq<u32>, data: seq<u8>)
    requires |cdata| >= 4
  {
    |data| % (if ByPlanes(cdata) then cdata[1] / 8 else SampleWidth(cdata)) == 0
  }

  /** How many samples a buffer holds. */
  function Count(cdata: seq<u32>, data: seq<u8>): (n: nat)
    requires |cdata| >= 4
  {
    DivNonNegative(|data|, SampleWidth(cdata));
    |data| / SampleWidth(cdata)
  }

  lemma PlaneIndex(ws: nat, len: nat, t: nat)
    requires ws > 0 && len % ws == 0 && t < len
    ensures len / ws > 0 && 0 <= t / (len / ws) < ws && 0 <= t % (len / ws) < len / ws
    ensures 0 <= Transpose.Cell(t % (len / ws), t / (len / ws), ws) < len
  {
    DivisionFacts(len, ws);
    DivisionFacts(t, len / ws);
    Transpose.PositionBounds(ws, len / ws, t);
    Transpose.CellBounds(len / ws, ws, t % (len / ws), t / (len / ws));
  }

  lemma CountTimes(cdata: seq<u32>, data: seq<u8>, t: nat)
    requires |cdata| >= 4 && t < Count(cdata, data)
    ensures Times(t, SampleWidth(cdata)) + SampleWidth(cdata) <= |data|
  {
    var w := SampleWidth(cdata);
    DivisionFacts(|data|, w);
    TimesMonotone(t, |data| / w, w);
    TimesIsProduct(|data| / w, w);
  }

  /** Sample t of a buffer: byte t / words of word t % words, or the bytes of a pixel in their order. */
  function SampleAt(cdata: seq<u32>, data: seq<u8>, t: nat): nat
    requires |cdata| >= 4 && cdata[1] > 0 && Whole(cdata, data) && t < Count(cdata, data)
  {
    if ByPlanes(cdata) then
      var ws := cdata[1] as int / 8;
      PlaneIndex(ws, |data|, t);
      data[Transpose.Cell(t % (|data| / ws), t / (|data| / ws), ws)] as int
    else
      CountTimes(cdata, data, t);
      var w := SampleWidth(cdata);
      var bytes := data[Times(t, w)..Times(t, w) + w];
      if cdata[0] / 16 % 2 == 1 then BigEndian(bytes) else FromLe(bytes)
  }

  // ----- the parameters and samples of the codec

  lemma ParamsMean(cdata: seq<u32>)
    ensures ParseParams(cdata).Success? <==> |cdata| >= 4 && Supported(cdata)
    ensures ParseParams(cdata).Success? ==>
              var p := ParseParams(cdata).value;
              && p.Valid() && p.Coder() == CoderOf(cdata) && p.Coder().Valid() && p.pps == cdata[3] && p.bpp == cdata[1]
              && p.Width() == SampleWidth(cdata) && (p.HasOption(SZ_MSB) <==> cdata[0] / 16 % 2 == 1)
              && (p.Interleaves() <==> ByPlanes(cdata))
  {
  }

  lemma {:induction false} BigEndianIsReversed(s: seq<u8>)
    ensures BigEndian(s) == FromLe(Reversed(s))
  {
    if s != [] {
      var last := |s| - 1;
      BigEndianIsReversed(s[..last]);
      ReversedAppend(s[..last], s[last]);
      assert s == s[..last] + [s[last]];
      assert ([s[last]] + Reversed(s[..last]))[1..] == Reversed(s[..last]);
    }
  }

  lemma {:induction false} ToSamplesAt(s: seq<u8>, w: nat, msb: bool, n: nat, t: nat)
    requires 0 < w <= 4 && |s| == Times(n, w) && t < n
    ensures Times(t, w) + w <= |s| && |ToSamples(s, w, msb)| == n
    ensures ToSamples(s, w, msb)[t] == SampleOf(s[Times(t, w)..Times(t, w) + w], msb)
    decreases n
  {
    hide SampleOf, ToSamples;
    TimesMonotone(t, n, w);
    TimesMonotone(1, n, w);
    SampleCount(s, w, msb, n);
    SamplesStep(s, w, msb);
    if t > 0 {
      ToSamplesAt(s[w..], w, msb, n - 1, t - 1);
      Behind(s, w, Times(t - 1, w), w);
    }
  }

  lemma SamplesStep(s: seq<u8>, w: nat, msb: bool)
    requires 0 < w <= 4 && |s| >= w
    ensures |ToSamples(s, w, msb)| > 0 && ToSamples(s, w, msb)[0] == SampleOf(s[..w], msb)
    ensures ToSamples(s, w, msb)[1..] == ToSamples(s[w..], w, msb)
  {
    hide SampleOf;
  }

  lemma {:induction false} SampleCount(s: seq<u8>, w: nat, msb: bool, n: nat)
    requires 0 < w <= 4 && |s| == Times(n, w)
    ensures |ToSamples(s, w, msb)| == n
    decreases n
  {
    hide SampleOf;
    if n > 0 {
      TimesMonotone(1, n, w);
      SampleCount(s[w..], w, msb, n - 1);
    }
  }

  lemma Behind(s: seq<u8>, skip: nat, at: nat, n: nat)
    requires skip + at + n <= |s|
    ensures s[skip..][at..at + n] == s[at + skip..at + skip + n]
  {
  }

  lemma WholeCount(cdata: seq<u32>, data: seq<u8>)
    requires |cdata| >= 4 && Supported(cdata) && Whole(cdata, data)
    ensures |data| == Times(Count(cdata, data), SampleWidth(cdata))
  {
    var w := SampleWidth(cdata);
    TimesIsProduct(|data| / w, w);
  }

  lemma PlaneByte(data: seq<u8>, ws: nat, t: nat)
    requires ws > 0 && |data| % ws == 0 && t < |data|
    ensures |data| / ws > 0 && 0 <= Transpose.Cell(t % (|data| / ws), t / (|data| / ws), ws) < |data|
    ensures Interleaved(data, ws)[t] == data[Transpose.Cell(t % (|data| / ws), t / (|data| / ws), ws)]
  {
    PlaneIndex(ws, |data|, t);
    DivisionFacts(|data|, ws);
    Seqs.TakeAll(data, |data|);
  }

  lemma SamplesMean(cdata: seq<u32>, data: seq<u8>, t: nat)
    requires |cdata| >= 4 && Supported(cdata) && Whole(cdata, data) && t < Count(cdata, data)
    ensures ParseParams(cdata).Success?
    ensures var p := ParseParams(cdata).value;
            var ss := ToSamples(CompressSource(data, p), p.Width(), p.HasOption(SZ_MSB));
            |ss| == Count(cdata, data) && ss[t] == SampleAt(cdata, data, t)
  {
    hide ToSamples, Interleaved, ParseParams, BigEndian;
    ParamsMean(cdata);
    WholeCount(cdata, data);
    var p := ParseParams(cdata).value;
    var w, msb := p.Width(), p.HasOption(SZ_MSB);
    ToSamplesAt(CompressSource(data, p), w, msb, Count(cdata, data), t);
    if ByPlanes(cdata) {
      PlaneByte(data, cdata[1] as int / 8, t);
      TimesIsProduct(t, 1);
      OneByte(CompressSource(data, p), t, msb);
    } else {
      BigEndianIsReversed(data[Times(t, w)..Times(t, w) + w]);
    }
  }

  lemma OneByte(s: seq<u8>, t: nat, msb: bool)
    requires t < |s|
    ensures SampleOf(s[t..t + 1], msb) == s[t] as int
  {
    var c := s[t..t + 1];
    assert c == [s[t]] && c[1..] == [];
    assert Reversed(c) == c by { assert Reversed(c[1..]) == []; }
    assert FromLe(c) == c[0] as int + 0x100 * FromLe(c[1..]);
  }

  // ----- scanlines

  /** The samples of the scanlines without their padding. */
  function FirstParts(stream: seq<Interval>, pps: nat): seq<u32> {
    if stream == [] then []
    else stream[0].samples[..Min(pps, |stream[0].samples|)] + FirstParts(stream[1..], pps)
  }

  ghost predicate Lines(stream: seq<Interval>, m: nat) {
    forall l :: 0 <= l < |stream| ==> |stream[l].samples| == m
  }

  lemma LinesRest(stream: seq<Interval>, m: nat)
    requires stream != [] && Lines(stream, m)
    ensures |stream[0].samples| == m && Lines(stream[1..], m)
  {
    assert forall l :: 0 <= l < |stream| - 1 ==> stream[1..][l] == stream[l + 1];
  }

  lemma {:induction false} LengthOfAll(stream: seq<Interval>, m: nat)
    requires Lines(stream, m)
    ensures |AllSamples(stream)| == Times(|stream|, m)
  {
    if stream != [] {
      LinesRest(stream, m);
      LengthOfAll(stream[1..], m);
    }
  }

  lemma {:induction false} UnpaddedStream(stream: seq<Interval>, m: nat, pps: nat)
    requires Lines(stream, m) && 0 < pps <= m
    ensures UnpadLines(AllSamples(stream), m, pps) == FirstParts(stream, pps)
    ensures m == pps ==> AllSamples(stream) == FirstParts(stream, pps)
  {
    if stream != [] {
      LinesRest(stream, m);
      UnpaddedStream(stream[1..], m, pps);
      UnpadFirst(AllSamples(stream), m, pps);
      Seqs.DropAppended(stream[0].samples, AllSamples(stream[1..]));
      Seqs.TakeTake(AllSamples(stream), m, pps);
    }
  }

  /** Sample q of scanline l. */
  ghost predicate Matches(stream: seq<Interval>, ss: seq<u32>, pps: nat, l: nat, q: nat)
    requires l < |stream|
  {
    q < pps && Times(l, pps) + q < |ss| ==> q < |stream[l].samples| && stream[l].samples[q] == ss[Times(l, pps) + q]
  }

  lemma {:induction false} PartsJoin(stream: seq<Interval>, ss: seq<u32>, m: nat, pps: nat)
    requires Lines(stream, m) && 0 < pps <= m && |stream| == BlocksFor(|ss|, pps)
    requires forall l: nat, q: nat :: l < |stream| ==> Matches(stream, ss, pps, l, q)
    ensures |FirstParts(stream, pps)| >= |ss| && FirstParts(stream, pps)[..|ss|] == ss
  {
    if ss != [] {
      var k := Min(|ss|, pps);
      var head, rest := stream[0].samples[..pps], ss[k..];
      LinesRest(stream, m);
      forall l: nat, q: nat | l < |stream[1..]| ensures Matches(stream[1..], rest, pps, l, q) {
        assert Matches(stream, ss, pps, l + 1, q);
      }
      PartsJoin(stream[1..], rest, m, pps);
      forall q: nat | q < k ensures head[q] == ss[q] {
        assert Matches(stream, ss, pps, 0, q);
      }
      JoinTakes(head, FirstParts(stream[1..], pps), |ss|, k);
      assert head[..k] == ss[..k];
      Seqs.SplitAt(ss, k);
    }
  }

  // ----- the buffer

  /** The stream carries the samples of the buffer: as many intervals as scanlines, each beginning with the
      samples of its scanline. */
  ghost predicate Carries(stream: seq<Interval>, cdata: seq<u32>, data: seq<u8>)
    requires |cdata| >= 4 && Supported(cdata) && Whole(cdata, data)
  {
    && |stream| == BlocksFor(Count(cdata, data), cdata[3])
    && forall l: nat, q: nat :: l < |stream| ==> CarriesAt(stream, cdata, data, l, q)
  }

  ghost predicate CarriesAt(stream: seq<Interval>, cdata: seq<u32>, data: seq<u8>, l: nat, q: nat)
    requires |cdata| >= 4 && Supported(cdata) && Whole(cdata, data) && l < |stream|
  {
    var t := Times(l, cdata[3]) + q;
    q < cdata[3] && t < Count(cdata, data) ==>
      q < |stream[l].samples| && stream[l].samples[q] == SampleAt(cdata, data, t)
  }

  lemma RestoreOfSamples(data: seq<u8>, xs: seq<u32>, p: SzParams)
    requires p.Valid() && WholeSamples(data, p)
    requires p.Coder().RsiSamples() > 0
    requires var ys := if p.PadsScanlines() then UnpadLines(xs, p.Coder().RsiSamples(), p.pps) else xs;
             var ss := ToSamples(CompressSource(data, p), p.Width(), p.HasOption(SZ_MSB));
             |ys| >= |ss| && ys[..|ss|] == ss
    ensures RestoreBytes(xs, |data|, p) == data
  {
    hide ToSamples, FromSamples, UnpadLines, Interleaved, Deinterleaved;
    var src, w, msb, m := CompressSource(data, p), p.Width(), p.HasOption(SZ_MSB), p.Coder().RsiSamples();
    var c := |data| / w;
    Szip.SampleCount(data, p);
    LineBounds(p);
    FromSamplesOfToSamples(c, src, w, msb);
    var ys := if p.PadsScanlines() then UnpadLines(xs, m, p.pps) else xs;
    Seqs.SplitAt(ys, c);
    FromSamplesAppend(ys[..c], ys[c..], w, msb);
    Seqs.DropAppended(src, FromSamples(ys[c..], w, msb));
    if p.Interleaves() {
      DeinterleavedOfInterleaved(data, p.bpp / 8);
    }
  }

  lemma LinesOf(stream: seq<Interval>, p: Aec.Params)
    requires p.Valid() && AllCode(stream, p)
    ensures Lines(stream, p.RsiSamples())
  {
    forall l | 0 <= l < |stream| ensures |stream[l].samples| == p.RsiSamples() {
      assert Codes(stream[l], p);
      CodedLength(stream[l], p);
    }
  }

  lemma SamplesInPlace(stream: seq<Interval>, cdata: seq<u32>, data: seq<u8>)
    requires |cdata| >= 4 && Supported(cdata) && Whole(cdata, data) && Carries(stream, cdata, data)
    ensures ParseParams(cdata).Success?
    ensures var p := ParseParams(cdata).value;
            var ss := ToSamples(CompressSource(data, p), p.Width(), p.HasOption(SZ_MSB));
            && |ss| == Count(cdata, data)
            && forall l: nat, q: nat :: l < |stream| ==> Matches(stream, ss, cdata[3], l, q)
  {
    hide ToSamples, ParseParams, SampleAt, CompressSource, Count;
    ParamsMean(cdata);
    var p := ParseParams(cdata).value;
    var ss := ToSamples(CompressSource(data, p), p.Width(), p.HasOption(SZ_MSB));
    SamplesCounted(cdata, data);
    forall l: nat, q: nat | l < |stream| ensures Matches(stream, ss, cdata[3], l, q) {
      assert CarriesAt(stream, cdata, data, l, q);
      if q < cdata[3] && Times(l, cdata[3]) + q < |ss| {
        SamplesMean(cdata, data, Times(l, cdata[3]) + q);
      }
    }
  }

  lemma SamplesCounted(cdata: seq<u32>, data: seq<u8>)
    requires |cdata| >= 4 && Supported(cdata) && Whole(cdata, data)
    ensures ParseParams(cdata).Success?
    ensures var p := ParseParams(cdata).value;
            |ToSamples(CompressSource(data, p), p.Width(), p.HasOption(SZ_MSB))| == Count(cdata, data)
  {
    hide ToSamples, ParseParams;
    ParamsMean(cdata);
    WholeCount(cdata, data);
    var p := ParseParams(cdata).value;
    SampleCount(CompressSource(data, p), p.Width(), p.HasOption(SZ_MSB), Count(cdata, data));
  }

  /** How many samples the decoder asks for: they end in the last interval. */
  lemma Asked(cdata: seq<u32>, data: seq<u8>, lines: nat)
    requires |cdata| >= 4 && Supported(cdata) && Whole(cdata, data) && lines == BlocksFor(Count(cdata, data), cdata[3])
    ensures ParseParams(cdata).Success?
    ensures var p := ParseParams(cdata).value; var n, m := DecodedCount(|data|, p), p.Coder().RsiSamples();
            && 0 < p.pps <= m
            && (p.PadsScanlines() ==> n == Times(lines, m))
            && (!p.PadsScanlines() ==> n == Count(cdata, data) && m == p.pps)
            && n <= Times(lines, m) && (lines > 0 ==> n > Times(lines - 1, m))
  {
    hide ParseParams;
    ParamsMean(cdata);
    var p := ParseParams(cdata).value;
    LineBounds(p);
    if !p.PadsScanlines() {
      BlocksForExact(p.pps, p.ppb);
      EnoughLines(Count(cdata, data), p.pps);
    }
  }

  lemma {:induction false} EnoughLines(n: nat, b: nat)
    requires b > 0
    ensures n <= Times(BlocksFor(n, b), b) && (n > 0 ==> BlocksFor(n, b) > 0 && Times(BlocksFor(n, b) - 1, b) < n)
    ensures n == 0 ==> BlocksFor(n, b) == 0
  {
  }

  /** Whatever coder made it: a stream that carries the samples of a buffer decompresses to the buffer. */
  lemma AnyBufferDecompresses(cdata: seq<u32>, data: seq<u8>, stream: seq<Interval>, rest: seq<bool>)
    requires |cdata| >= 4 && Supported(cdata) && Whole(cdata, data) && CoderOf(cdata).Valid()
    requires AllCode(stream, CoderOf(cdata)) && Carries(stream, cdata, data)
    ensures Decompress(cdata, PrintStream(stream, CoderOf(cdata)) + rest, |data|) == Success(data)
  {
    hide ParseParams, ToSamples, PrintStream, Aec.Decode, AllCode, Carries, Matches, RestoreBytes, DecodedCount, UnpadLines, CompressSource;
    ParamsMean(cdata);
    var p := ParseParams(cdata).value;
    var m, n := p.Coder().RsiSamples(), DecodedCount(|data|, p);
    var ss := ToSamples(CompressSource(data, p), p.Width(), p.HasOption(SZ_MSB));
    LinesOf(stream, p.Coder());
    SamplesInPlace(stream, cdata, data);
    assert |stream| == BlocksFor(Count(cdata, data), cdata[3]) by { StreamLength(stream, cdata, data); }
    Asked(cdata, data, |stream|);
    AnyCoderDecodes(stream, rest, n, p.Coder());
    LengthOfAll(stream, m);
    UnpaddedStream(stream, m, p.pps);
    PartsJoin(stream, ss, m, p.pps);
    var xs := AllSamples(stream)[..n];
    if p.PadsScanlines() {
      Seqs.TakeAll(AllSamples(stream), n);
    }
    RestoreOfSamples(data, xs, p);
  }

  lemma StreamLength(stream: seq<Interval>, cdata: seq<u32>, data: seq<u8>)
    requires |cdata| >= 4 && Supported(cdata) && Whole(cdata, data) && Carries(stream, cdata, data)
    ensures |stream| == BlocksFor(Count(cdata, data), cdata[3])
  {
  }
}
