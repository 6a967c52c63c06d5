/** The buffer-to-buffer layer of szip: sample order, interleaving and scanline padding. */
module Szip {
  import opened Wrappers
  import opened Bytes
  import opened Bits
  import opened Predictor
  import opened Transpose
  import Aec
  import AecCodec
  import AecRoundTrip
  import Seqs

  const SZ_MSB: nat := 16
  const SZ_NN: nat := 32
  const SZ_RAW: nat := 128

  datatype SzParams = SzParams(mask: u32, bpp: u32, ppb: u32, pps: u32) {
    predicate HasOption(bit: nat)
      requires bit > 0
    {
      mask / bit % 2 == 1
    }

    predicate Interleaves() {
      bpp == 32 || bpp == 64
    }

    function Bps(): nat {
      if Interleaves() then 8 else bpp
    }

    /** Bytes per sample. */
    function Width(): (w: nat)
      ensures w == 1 || w == 2 || w == 4
    {
      if Bps() > 16 then 4 else if Bps() > 8 then 2 else 1
    }

    predicate PadsScanlines()
      requires ppb > 0
    {
      pps % ppb != 0
    }

    function Coder(): Aec.Params
      requires ppb > 0
    {
      Aec.Params(Bps(), ppb, BlocksFor(pps, ppb), HasOption(SZ_NN))
    }

    ghost predicate Valid() {
      1 <= pps <= 4096 && ppb > 0 && ppb % 2 == 0 && (1 <= bpp <= 32 || bpp == 64)
    }
  }

  function ParseParams(cdata: seq<u32>): (r: Result<SzParams, SzipError>)
    ensures r.Success? ==> r.value.Valid() && r.value.Coder().Valid()
  {
    if |cdata| < 4 then Failure(MissingParameters) else
      var p := SzParams(cdata[0], cdata[1], cdata[2], cdata[3]);
      if p.pps == 0 || p.pps > 4096 || p.ppb == 0 || p.ppb % 2 == 1 || p.bpp == 0 || (p.bpp > 32 && p.bpp != 64)
      then Failure(InvalidParameters)
      else if p.HasOption(SZ_RAW) then Failure(RawUnsupported)
      else Success(p)
  }

  // ----- samples in bytes

  function SampleOf(c: seq<u8>, msb: bool): nat {
    FromLe(if msb then Reversed(c) else c)
  }

  function SampleBytes(x: nat, w: nat, msb: bool): (c: seq<u8>)
    ensures |c| == w
  {
    if msb then Reversed(Le(x, w)) else Le(x, w)
  }

  lemma SampleOfBound(c: seq<u8>, msb: bool)
    requires |c| <= 4
    ensures SampleOf(c, msb) < Pow2(8 * |c|) <= TWO_32
  {
    FromLeBound(if msb then Reversed(c) else c);
    Pow2Monotone(8 * |c|, 32);
    Pow2Constants();
  }

  lemma SampleBytesOfSample(c: seq<u8>, msb: bool)
    ensures SampleBytes(SampleOf(c, msb), |c|, msb) == c
  {
    if msb {
      LeOfFromLe(Reversed(c));
      ReversedTwice(c);
    } else {
      LeOfFromLe(c);
    }
  }

  /** Whole words only; trailing bytes are dropped. */
  function ToSamples(s: seq<u8>, w: nat, msb: bool): (xs: seq<u32>)
    requires 0 < w <= 4
    decreases |s|
  {
    if |s| < w then [] else
      SampleOfBound(s[..w], msb);
      [SampleOf(s[..w], msb)] + ToSamples(s[w..], w, msb)
  }

  function FromSamples(xs: seq<u32>, w: nat, msb: bool): (s: seq<u8>)
    ensures |s| == Times(|xs|, w)
    decreases |xs|
  {
    if xs == [] then [] else SampleBytes(xs[0], w, msb) + FromSamples(xs[1..], w, msb)
  }

  lemma {:induction false} FromSamplesOfToSamples(c: nat, s: seq<u8>, w: nat, msb: bool)
    requires 0 < w <= 4 && |s| == Times(c, w)
    ensures |ToSamples(s, w, msb)| == c && FromSamples(ToSamples(s, w, msb), w, msb) == s
  {
    if c > 0 {
      FromSamplesOfToSamples(c - 1, s[w..], w, msb);
      SampleBytesOfSample(s[..w], msb);
      Seqs.SplitAt(s, w);
    }
  }

  lemma {:induction false} ToSamplesAppend(c: nat, a: seq<u8>, b: seq<u8>, w: nat, msb: bool)
    requires 0 < w <= 4 && |a| == Times(c, w)
    ensures ToSamples(a + b, w, msb) == ToSamples(a, w, msb) + ToSamples(b, w, msb)
    ensures |ToSamples(a, w, msb)| == c
  {
    if c == 0 {
      assert a + b == b;
    } else {
      assert (a + b)[..w] == a[..w] && (a + b)[w..] == a[w..] + b;
      ToSamplesAppend(c - 1, a[w..], b, w, msb);
    }
  }

  lemma {:induction false} FromSamplesAppend(xs: seq<u32>, ys: seq<u32>, w: nat, msb: bool)
    ensures FromSamples(xs + ys, w, msb) == FromSamples(xs, w, msb) + FromSamples(ys, w, msb)
    decreases |xs|
  {
    if xs == [] {
      Seqs.Empty(ys);
    } else {
      assert (xs + ys)[1..] == xs[1..] + ys;
      FromSamplesAppend(xs[1..], ys, w, msb);
      Seqs.Assoc(SampleBytes(xs[0], w, msb), FromSamples(xs[1..], w, msb), FromSamples(ys, w, msb));
    }
  }

  // ----- scanline padding

  function Repeated(c: seq<u8>, n: nat): (s: seq<u8>)
    ensures |s| == Times(n, |c|)
  {
    if n == 0 then [] else Repeated(c, n - 1) + c
  }

  /** What follows the bytes of one scanline: its last pixel again (NN), or zeros. */
  function Fill(line: seq<u8>, pad: nat, w: nat, nn: bool): seq<u8>
    requires w > 0
  {
    if nn && |line| >= w then Repeated(line[|line| - w..], pad / w) else seq(pad, _ => 0)
  }

  /** Every byte of the padding: that of the last pixel in the same place, or zero. */
  lemma FillBytes(line: seq<u8>, n: nat, w: nat, nn: bool, i: nat, k: nat)
    requires w > 0 && i < n && k < w
    ensures Times(i, w) + k < |Fill(line, Times(n, w), w, nn)|
    ensures Fill(line, Times(n, w), w, nn)[Times(i, w) + k] == if nn && |line| >= w then line[|line| - w + k] else 0
  {
    TimesMonotone(i, n, w);
    TimesIsProduct(n, w);
    if nn && |line| >= w {
      DivUnique(Times(n, w), w, n, 0);
      RepeatedAt(line[|line| - w..], n, i, k);
    }
  }

  lemma {:induction false} RepeatedAt(c: seq<u8>, n: nat, i: nat, k: nat)
    requires i < n && k < |c|
    ensures Times(i, |c|) + k < |Repeated(c, n)| && Repeated(c, n)[Times(i, |c|) + k] == c[k]
  {
    TimesMonotone(i, n - 1, |c|);
    if i < n - 1 {
      RepeatedAt(c, n - 1, i, k);
    }
  }

  function PadLines(s: seq<u8>, line: nat, padded: nat, w: nat, nn: bool): seq<u8>
    requires 0 < line <= padded && w > 0
    decreases |s|
  {
    if s == [] then [] else
      var l := Min(line, |s|);
      s[..l] + Fill(s[..l], padded - l, w, nn) + PadLines(s[l..], line, padded, w, nn)
  }

  function UnpadLines(xs: seq<u32>, padded: nat, line: nat): seq<u32>
    requires padded > 0
    decreases |xs|
  {
    if xs == [] then [] else
      xs[..Min(line, Min(padded, |xs|))] + UnpadLines(xs[Min(padded, |xs|)..], padded, line)
  }

  lemma NoLines(xs: seq<u32>, padded: nat, line: nat)
    requires padded > 0 && xs == []
    ensures UnpadLines(xs, padded, line) == []
  {
  }

  lemma NextLine(xs: seq<u32>, i: nat, n: nat, padded: nat, line: nat)
    requires padded > 0 && i < |xs| && n == Min(padded, |xs| - i)
    ensures UnpadLines(xs[i..], padded, line) == xs[i..i + Min(line, n)] + UnpadLines(xs[i + n..], padded, line)
  {
    var t := xs[i..];
    assert UnpadLines(t, padded, line) == t[..Min(line, n)] + UnpadLines(t[n..], padded, line);
    Seqs.SliceOfDrop(xs, i, n);
    Seqs.SliceOfDrop(xs, i, Min(line, n));
  }

  lemma FillIsWholeSamples(line: seq<u8>, pad: nat, n: nat, w: nat, nn: bool)
    requires w == 1 || w == 2 || w == 4
    requires pad == Times(n, w)
    ensures |Fill(line, pad, w, nn)| == pad
  {
    TimesIsProduct(n, w);
    assert pad / w == n;
  }

  lemma {:induction false} TimesSub(a: nat, b: nat, w: nat)
    requires b <= a
    ensures Times(a, w) - Times(b, w) == Times(a - b, w)
  {
    if b < a {
      TimesSub(a - 1, b, w);
    }
  }

  lemma UnpadFirst(xs: seq<u32>, m: nat, pps: nat)
    requires 0 < pps <= m <= |xs|
    ensures UnpadLines(xs, m, pps) == xs[..pps] + UnpadLines(xs[m..], m, pps)
  {
  }

  /** Bytes and samples of the first scanline, of k samples. */
  lemma FirstLine(c: nat, k: nat, pps: nat, m: nat, w: nat)
    requires 0 < pps <= m && w > 0 && 0 < c && k == Min(c, pps)
    ensures 0 < Times(pps, w) <= Times(m, w)
    ensures 0 < Times(k, w) == Min(Times(pps, w), Times(c, w)) && Times(k, w) <= Times(m, w)
    ensures Times(c, w) - Times(k, w) == Times(c - k, w)
  {
    TimesMonotone(1, k, w);
    TimesMonotone(1, pps, w);
    TimesMonotone(pps, m, w);
    TimesMonotone(k, m, w);
    TimesMonotone(if c <= pps then c else pps, if c <= pps then pps else c, w);
    TimesSub(c, k, w);
  }

  /** Dropping the padding samples of every line leaves the samples of the unpadded bytes. */
  lemma {:induction false} LinesRoundTrip(c: nat, s: seq<u8>, pps: nat, m: nat, w: nat, nn: bool, msb: bool)
    requires w == 1 || w == 2 || w == 4
    requires |s| == Times(c, w) && 0 < pps <= m
    ensures 0 < Times(pps, w) <= Times(m, w)
    ensures var xs := ToSamples(PadLines(s, Times(pps, w), Times(m, w), w, nn), w, msb);
            && |xs| == Times(BlocksFor(c, pps), m)
            && |UnpadLines(xs, m, pps)| >= c
            && UnpadLines(xs, m, pps)[..c] == ToSamples(s, w, msb)
    decreases c
  {
    hide ToSamples, PadLines, UnpadLines;
    if c > 0 {
      var k := Min(c, pps);
      FirstLine(c, k, pps, m, w);
      var l := Times(k, w);
      LinesRoundTrip(c - k, s[l..], pps, m, w, nn, msb);
      OneLine(k, s, pps, m, w, nn, msb);
      JoinLines(c, k, s, pps, m, w, nn, msb);
      assert BlocksFor(c, pps) == 1 + BlocksFor(c - k, pps);
    } else {
      TimesMonotone(1, pps, w);
      TimesMonotone(pps, m, w);
      NoSamples(s, pps, m, w, nn, msb);
    }
  }

  lemma NoSamples(s: seq<u8>, pps: nat, m: nat, w: nat, nn: bool, msb: bool)
    requires 0 < w <= 4 && s == [] && 0 < pps <= m && 0 < Times(pps, w) <= Times(m, w)
    ensures ToSamples(PadLines(s, Times(pps, w), Times(m, w), w, nn), w, msb) == []
    ensures UnpadLines([], m, pps) == [] == ToSamples(s, w, msb)
  {
  }

  lemma JoinLines(c: nat, k: nat, s: seq<u8>, pps: nat, m: nat, w: nat, nn: bool, msb: bool)
    requires w == 1 || w == 2 || w == 4
    requires |s| == Times(c, w) && 0 < pps <= m && 0 < c && k == Min(c, pps)
    requires 0 < Times(pps, w) <= Times(m, w) && Times(k, w) <= |s|
    requires var line, padded := Times(pps, w), Times(m, w);
             var xs := ToSamples(PadLines(s, line, padded, w, nn), w, msb);
             var rest := ToSamples(PadLines(s[Times(k, w)..], line, padded, w, nn), w, msb);
             var head := ToSamples(s[..Times(k, w)], w, msb);
             && |xs| == m + |rest| && |head| == k && xs[m..] == rest && xs[..k] == head
             && ToSamples(s, w, msb) == head + ToSamples(s[Times(k, w)..], w, msb)
             && |UnpadLines(rest, m, pps)| >= c - k
             && UnpadLines(rest, m, pps)[..c - k] == ToSamples(s[Times(k, w)..], w, msb)
    ensures var xs := ToSamples(PadLines(s, Times(pps, w), Times(m, w), w, nn), w, msb);
            && |UnpadLines(xs, m, pps)| >= c
            && UnpadLines(xs, m, pps)[..c] == ToSamples(s, w, msb)
  {
    hide ToSamples, PadLines, UnpadLines, Times;
    var xs := ToSamples(PadLines(s, Times(pps, w), Times(m, w), w, nn), w, msb);
    UnpadFirst(xs, m, pps);
    JoinTakes(xs[..pps], UnpadLines(xs[m..], m, pps), c, k);
    Seqs.TakeTake(xs, pps, k);
  }

  lemma JoinTakes<T>(a: seq<T>, b: seq<T>, c: nat, k: nat)
    requires k == Min(c, |a|) && |b| >= c - k
    ensures (a + b)[..c] == a[..k] + b[..c - k]
  {
  }

  lemma OneLine(k: nat, s: seq<u8>, pps: nat, m: nat, w: nat, nn: bool, msb: bool)
    requires w == 1 || w == 2 || w == 4
    requires 0 < k <= pps <= m
    requires |s| >= Times(k, w) > 0 && 0 < Times(pps, w) <= Times(m, w)
    requires Times(k, w) == Min(Times(pps, w), |s|) && Times(k, w) <= Times(m, w)
    ensures var line, padded := Times(pps, w), Times(m, w);
            var xs := ToSamples(PadLines(s, line, padded, w, nn), w, msb);
            var rest := ToSamples(PadLines(s[Times(k, w)..], line, padded, w, nn), w, msb);
            var head := ToSamples(s[..Times(k, w)], w, msb);
            && |xs| == m + |rest| && |head| == k && xs[m..] == rest
            && ToSamples(s, w, msb) == head + ToSamples(s[Times(k, w)..], w, msb)
            && |xs| >= m && xs[..k] == head
  {
    var l, line, padded := Times(k, w), Times(pps, w), Times(m, w);
    TimesSub(m, k, w);
    var fill, more := Fill(s[..l], padded - l, w, nn), PadLines(s[l..], line, padded, w, nn);
    FillIsWholeSamples(s[..l], padded - l, m - k, w, nn);
    ToSamplesAppend(k, s[..l], s[l..], w, msb);
    Seqs.SplitAt(s, l);
    ThreeParts(k, m, s[..l], fill, more, w, msb);
  }

  lemma ThreeParts(k: nat, m: nat, a: seq<u8>, b: seq<u8>, c: seq<u8>, w: nat, msb: bool)
    requires 0 < w <= 4 && |a| == Times(k, w) && |a + b| == Times(m, w)
    ensures var xs, head := ToSamples(a + b + c, w, msb), ToSamples(a, w, msb);
            && |xs| == m + |ToSamples(c, w, msb)| && |head| == k <= m
            && xs[m..] == ToSamples(c, w, msb) && xs[..k] == head
  {
    ToSamplesAppend(k, a, b, w, msb);
    ToSamplesAppend(m, a + b, c, w, msb);
    Seqs.DropAppended(ToSamples(a + b, w, msb), ToSamples(c, w, msb));
    Seqs.DropAppended(ToSamples(a, w, msb), ToSamples(b, w, msb));
    Seqs.TakeTake(ToSamples(a + b + c, w, msb), m, k);
  }

  // ----- the whole transformation

  lemma WholeWords(n: nat, ws: nat)
    requires ws > 0
    ensures 0 <= n / ws && 0 <= n / ws * ws <= n
  {
    DivisionFacts(n, ws);
  }

  /** Byte j of every word, for j = 0, 1, ...; bytes after the last whole word become zero. */
  function Interleaved(s: seq<u8>, ws: nat): (t: seq<u8>)
    requires ws > 0
    ensures |t| == |s|
  {
    WholeWords(|s|, ws);
    Transposed(s[..|s| / ws * ws], |s| / ws, ws) + Zeroed(|s| - |s| / ws * ws)
  }

  function Deinterleaved(s: seq<u8>, ws: nat): (t: seq<u8>)
    requires ws > 0
    ensures |t| == |s|
  {
    WholeWords(|s|, ws);
    assert ws * (|s| / ws) == |s| / ws * ws;
    Transposed(s[..|s| / ws * ws], ws, |s| / ws) + Zeroed(|s| - |s| / ws * ws)
  }

  lemma DeinterleavedOfInterleaved(s: seq<u8>, ws: nat)
    requires ws > 0 && |s| % ws == 0
    ensures Deinterleaved(Interleaved(s, ws), ws) == s
  {
    DivisionFacts(|s|, ws);
    var words := |s| / ws;
    Seqs.TakeAll(s, |s|);
    Seqs.TakeAll(Interleaved(s, ws), |s|);
    Seqs.Empty(Transposed(s, words, ws));
    Seqs.Empty(s);
    TransposedTwice(s, words, ws);
  }

  function CompressSource(data: seq<u8>, p: SzParams): (s: seq<u8>)
    requires p.Valid()
    ensures |s| == |data|
  {
    if p.Interleaves() then Interleaved(data, p.bpp / 8) else data
  }

  lemma LineBounds(p: SzParams)
    requires p.Valid()
    ensures 0 < p.pps <= p.Coder().RsiSamples()
    ensures 0 < Times(p.pps, p.Width()) <= Times(p.Coder().RsiSamples(), p.Width())
  {
    TimesMonotone(1, p.pps, p.Width());
    TimesMonotone(p.pps, p.Coder().RsiSamples(), p.Width());
  }

  /** The samples that `sz_compress` hands to the coder. */
  function CompressSamples(data: seq<u8>, p: SzParams): seq<u32>
    requires p.Valid()
  {
    var src := CompressSource(data, p);
    LineBounds(p);
    ToSamples(
      if p.PadsScanlines()
      then PadLines(src, Times(p.pps, p.Width()), Times(p.Coder().RsiSamples(), p.Width()), p.Width(), p.HasOption(SZ_NN))
      else src,
      p.Width(), p.HasOption(SZ_MSB))
  }

  function DecodedCount(outLen: nat, p: SzParams): nat
    requires p.Valid()
  {
    if p.PadsScanlines() then Times(BlocksFor(outLen / p.Width(), p.pps), p.Coder().RsiSamples())
    else outLen / p.Width()
  }

  /** From decoded samples back to `outLen` bytes. */
  function RestoreBytes(samples: seq<u32>, outLen: nat, p: SzParams): seq<u8>
    requires p.Valid()
  {
    LineBounds(p);
    var xs := if p.PadsScanlines() then UnpadLines(samples, p.Coder().RsiSamples(), p.pps) else samples;
    var bytes := FromSamples(xs, p.Width(), p.HasOption(SZ_MSB));
    var cut := bytes[..Min(outLen, |bytes|)];
    if p.Interleaves() then Deinterleaved(cut, p.bpp / 8) else cut
  }

  function Decompress(cdata: seq<u32>, bits: seq<bool>, outLen: nat): Result<seq<u8>, SzipError>
  {
    var p :- ParseParams(cdata);
    var samples :- Aec.Decode(bits, DecodedCount(outLen, p), p.Coder());
    Success(RestoreBytes(samples, outLen, p))
  }

  // ----- the round trip

  predicate WholeSamples(data: seq<u8>, p: SzParams) {
    |data| % (if p.Interleaves() then p.bpp / 8 else p.Width()) == 0
  }

  lemma {:induction false} BlocksForExact(n: nat, b: nat)
    requires b > 0 && n % b == 0
    ensures Times(BlocksFor(n, b), b) == n
  {
    if n > b {
      OneLess(n, b);
      BlocksForExact(n - b, b);
    } else if 0 < n < b {
      DivUnique(n, b, 0, n);
    } else if n == b {
      assert Times(1, b) == b;
    }
  }

  lemma OneLess(n: nat, b: nat)
    requires b > 0 && n >= b
    ensures (n - b) % b == n % b
  {
    DivisionFacts(n, b);
    Distribute(b, n / b, -1);
    DivUnique(n - b, b, n / b - 1, n % b);
  }

  lemma {:induction false} LastIsRemainder(n: nat, m: nat)
    requires n > 0 && m > 0
    ensures AecRoundTrip.LastInterval(n, m) == if n % m == 0 then m else n % m
  {
    if n < m {
      DivUnique(n, m, 0, n);
    } else if n == m {
      DivUnique(n, m, 1, 0);
    } else {
      OneLess(n, m);
      LastIsRemainder(n - m, m);
    }
  }

  lemma {:induction false} LastOfWhole(c: nat, m: nat)
    requires c > 0 && m > 0
    ensures Times(c, m) > 0 && AecRoundTrip.LastInterval(Times(c, m), m) == m
  {
    if c > 1 {
      LastOfWhole(c - 1, m);
    } else {
      assert Times(1, m) == m;
    }
  }

  /** Exactly when the decoder can finish: every scanline is padded to a whole interval, or the
      samples after the last whole scanline reach into that scanline's last block. */
  predicate Decodable(len: nat, p: SzParams)
    requires p.ppb > 0 && p.pps > 0
  {
    p.PadsScanlines() || len / p.Width() % p.pps == 0 || len / p.Width() % p.pps > p.pps - p.ppb
  }

  lemma SampleCount(data: seq<u8>, p: SzParams)
    requires p.Valid() && WholeSamples(data, p)
    ensures |data| == Times(|data| / p.Width(), p.Width())
  {
    TimesIsProduct(|data| / p.Width(), p.Width());
  }

  lemma FillsWhenPadded(c: nat, p: SzParams)
    requires p.Valid() && p.Coder().RsiSamples() > 0
    ensures AecRoundTrip.FillsLastInterval(Times(c, p.Coder().RsiSamples()), p.Coder())
  {
    if c > 0 {
      LastOfWhole(c, p.Coder().RsiSamples());
    }
  }

  lemma FillsWhenUnpadded(n: nat, p: SzParams)
    requires p.Valid() && !p.PadsScanlines()
    ensures p.Coder().RsiSamples() == p.pps
    ensures AecRoundTrip.FillsLastInterval(n, p.Coder()) == (n % p.pps == 0 || n % p.pps > p.pps - p.ppb)
  {
    hide AecRoundTrip.LastInterval;
    BlocksForExact(p.pps, p.ppb);
    if n > 0 {
      LastIsRemainder(n, p.pps);
      DivisionFacts(n, p.pps);
    } else {
      DivUnique(0, p.pps, 0, 0);
    }
  }

  /** The samples the coder gets restore the bytes, and the decoder knows how many they are. */
  lemma RestoreOfCompress(data: seq<u8>, p: SzParams)
    requires p.Valid() && WholeSamples(data, p)
    ensures |CompressSamples(data, p)| == DecodedCount(|data|, p)
    ensures RestoreBytes(CompressSamples(data, p), |data|, p) == data
  {
    var src, w, msb, m := CompressSource(data, p), p.Width(), p.HasOption(SZ_MSB), p.Coder().RsiSamples();
    var c := |data| / w;
    var xs := CompressSamples(data, p);
    SampleCount(data, p);
    LineBounds(p);
    FromSamplesOfToSamples(c, src, w, msb);
    var ys := if p.PadsScanlines() then UnpadLines(xs, m, p.pps) else xs;
    if p.PadsScanlines() {
      LinesRoundTrip(c, src, p.pps, m, w, p.HasOption(SZ_NN), msb);
    } else {
      Seqs.TakeAll(xs, c);
    }
    Seqs.SplitAt(ys, c);
    FromSamplesAppend(ys[..c], ys[c..], w, msb);
    Seqs.DropAppended(src, FromSamples(ys[c..], w, msb));
    if p.Interleaves() {
      DeinterleavedOfInterleaved(data, p.bpp / 8);
    }
  }

  /** Decompressing a compressed buffer gives the buffer back exactly when it is Decodable;
      otherwise decompression fails. `pad` zero bits follow the code, as `sz_compress` leaves them. */
  lemma SzRoundTrip(cdata: seq<u32>, data: seq<u8>, pad: nat)
    requires ParseParams(cdata).Success? && pad < 8
    requires var p := ParseParams(cdata).value;
             && WholeSamples(data, p) && AecRoundTrip.RunsFit(p.Coder())
             && Samples(CompressSamples(data, p), p.Bps())
    ensures var p := ParseParams(cdata).value;
            var bits := Aec.Encode(CompressSamples(data, p), p.Coder()) + Zeros(pad);
            if Decodable(|data|, p) then Decompress(cdata, bits, |data|) == Success(data)
            else Decompress(cdata, bits, |data|).Failure?
  {
    hide ParseParams, CompressSamples, RestoreBytes, Aec.Encode, Aec.Decode, AecRoundTrip.FillsLastInterval, WholeSamples;
    var p := ParseParams(cdata).value;
    RestoreOfCompress(data, p);
    AecRoundTrip.AecRoundTrip(CompressSamples(data, p), pad, p.Coder());
    if p.PadsScanlines() {
      FillsWhenPadded(BlocksFor(|data| / p.Width(), p.pps), p);
    } else {
      FillsWhenUnpadded(|data| / p.Width(), p);
    }
  }

  /** For 8, 16, 32 and 64 bits per pixel every buffer of whole pixels qualifies. */
  lemma BytePixelsAreSamples(data: seq<u8>, p: SzParams)
    requires p.Valid() && (p.bpp == 8 || p.bpp == 16 || p.bpp == 32 || p.bpp == 64)
    ensures Samples(CompressSamples(data, p), p.Bps())
  {
    LineBounds(p);
    var src := CompressSource(data, p);
    var padded := if p.PadsScanlines()
      then PadLines(src, Times(p.pps, p.Width()), Times(p.Coder().RsiSamples(), p.Width()), p.Width(), p.HasOption(SZ_NN))
      else src;
    ToSamplesBound(padded, p.Width(), p.HasOption(SZ_MSB));
  }

  lemma {:induction false} ToSamplesBound(s: seq<u8>, w: nat, msb: bool)
    requires 0 < w <= 4
    ensures Samples(ToSamples(s, w, msb), 8 * w)
    decreases |s|
  {
    if |s| >= w {
      ToSamplesBound(s[w..], w, msb);
      SampleOfBound(s[..w], msb);
    }
  }
}
