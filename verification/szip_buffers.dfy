/** The loops of `sz_compress` and `sz_decompress`. */
module SzipBuffers {
  import opened Wrappers
  import opened Bytes
  import opened Bits
  import opened Predictor
  import opened Transpose
  import opened Szip
  import Aec
  import AecCodec
  import AecRoundTrip
  import Seqs

  method Interleave(src: seq<u8>, ws: nat) returns (t: seq<u8>)
    requires ws > 0
    ensures t == Interleaved(src, ws)
  {
    WholeWords(|src|, ws);
    var out := new u8[|src|](_ => 0);
    assert out[|src| / ws * ws..] == Zeroed(|src| - |src| / ws * ws);
    ReadInOrder(src, |src| / ws, ws, out);
    Seqs.SplitAt(out[..], |src| / ws * ws);
    t := out[..];
  }

  method Deinterleave(src: seq<u8>, ws: nat) returns (t: seq<u8>)
    requires ws > 0
    ensures t == Deinterleaved(src, ws)
  {
    WholeWords(|src|, ws);
    assert ws * (|src| / ws) == |src| / ws * ws;
    var out := new u8[|src|](_ => 0);
    assert out[|src| / ws * ws..] == Zeroed(|src| - |src| / ws * ws);
    WriteInOrder(src, ws, |src| / ws, out);
    Seqs.SplitAt(out[..], |src| / ws * ws);
    t := out[..];
  }

  method ReadSamples(data: seq<u8>, w: nat, msb: bool) returns (xs: seq<u32>)
    requires 0 < w <= 4
    ensures xs == ToSamples(data, w, msb)
  {
    xs := [];
    var i := 0;
    Seqs.Empty(ToSamples(data, w, msb));
    while i + w <= |data|
      invariant 0 <= i <= |data|
      invariant xs + ToSamples(data[i..], w, msb) == ToSamples(data, w, msb)
    {
      Seqs.SliceOfDrop(data, i, w);
      SampleOfBound(data[i..i + w], msb);
      Seqs.MoveHead(xs, ToSamples(data[i..], w, msb));
      xs := xs + [SampleOf(data[i..i + w], msb)];
      i := i + w;
    }
    Seqs.Empty(xs);
  }

  method WriteSamples(xs: seq<u32>, w: nat, msb: bool) returns (out: seq<u8>)
    ensures out == FromSamples(xs, w, msb)
  {
    out := [];
    Seqs.Empty(FromSamples(xs, w, msb));
    for i := 0 to |xs|
      invariant out + FromSamples(xs[i..], w, msb) == FromSamples(xs, w, msb)
    {
      Seqs.SliceOfDrop(xs, i, 1);
      Seqs.Assoc(out, SampleBytes(xs[i], w, msb), FromSamples(xs[i + 1..], w, msb));
      out := out + SampleBytes(xs[i], w, msb);
    }
    Seqs.Empty(out);
  }

  method FillLine(line: seq<u8>, pad: nat, w: nat, nn: bool) returns (f: seq<u8>)
    requires w > 0
    ensures f == Fill(line, pad, w, nn)
  {
    if nn && |line| >= w {
      f := [];
      var last := line[|line| - w..];
      for i := 0 to pad / w
        invariant f == Repeated(last, i)
      {
        f := f + last;
      }
    } else {
      f := Zeroed(pad);
    }
  }

  method PadScanlines(src: seq<u8>, line: nat, padded: nat, w: nat, nn: bool) returns (v: seq<u8>)
    requires 0 < line <= padded && w > 0
    ensures v == PadLines(src, line, padded, w, nn)
  {
    hide Fill;
    v := [];
    var i := 0;
    Seqs.Empty(PadLines(src, line, padded, w, nn));
    while i < |src|
      invariant 0 <= i <= |src|
      invariant v + PadLines(src[i..], line, padded, w, nn) == PadLines(src, line, padded, w, nn)
    {
      var ls := Min(line, |src| - i);
      Seqs.SliceOfDrop(src, i, ls);
      var head := src[i..i + ls];
      var fill := FillLine(head, padded - ls, w, nn);
      Seqs.Assoc(v, head + fill, PadLines(src[i + ls..], line, padded, w, nn));
      Seqs.Assoc(v, head, fill);
      v := v + head + fill;
      i := i + ls;
    }
    Seqs.Empty(v);
  }

  method DropPadding(xs: seq<u32>, padded: nat, line: nat) returns (out: seq<u32>)
    requires padded > 0
    ensures out == UnpadLines(xs, padded, line)
  {
    hide UnpadLines;
    out := [];
    var i := 0;
    Seqs.Empty(UnpadLines(xs, padded, line));
    while i < |xs|
      invariant 0 <= i <= |xs|
      invariant out + UnpadLines(xs[i..], padded, line) == UnpadLines(xs, padded, line)
    {
      var n := Min(padded, |xs| - i);
      NextLine(xs, i, n, padded, line);
      var head := xs[i..i + Min(line, n)];
      Seqs.Assoc(out, head, UnpadLines(xs[i + n..], padded, line));
      out := out + head;
      i := i + n;
    }
    NoLines(xs[i..], padded, line);
    Seqs.Empty(out);
  }

  /** Residual coding needs samples of the declared width; plain coding takes any. */
  ghost predicate Compressible(data: seq<u8>, p: SzParams)
    requires p.Valid()
  {
    p.HasOption(SZ_NN) ==> Samples(CompressSamples(data, p), p.Bps())
  }

  /** The code, filled up with zero bits to whole bytes. */
  ghost predicate HoldsCode(out: seq<u8>, code: seq<bool>) {
    exists pad: nat :: pad < 8 && Unpack(out) == code + Zeros(pad)
  }

  method SzCompress(cdata: seq<u32>, data: seq<u8>) returns (r: Result<seq<u8>, SzipError>)
    requires ParseParams(cdata).Success? ==> Compressible(data, ParseParams(cdata).value)
    ensures match ParseParams(cdata)
            case Failure(e) => r == Failure(e)
            case Success(p) => r.Success? && HoldsCode(r.value, Aec.Encode(CompressSamples(data, p), p.Coder()))
  {
    var parsed := ParseParams(cdata);
    if parsed.Failure? {
      return Failure(parsed.error);
    }
    var p := parsed.value;
    LineBounds(p);
    var src := data;
    if p.Interleaves() {
      src := Interleave(data, p.bpp / 8);
    }
    if p.PadsScanlines() {
      src := PadScanlines(src, Times(p.pps, p.Width()), Times(p.Coder().RsiSamples(), p.Width()),
                          p.Width(), p.HasOption(SZ_NN));
    }
    var samples := ReadSamples(src, p.Width(), p.HasOption(SZ_MSB));
    var out := AecCodec.AecEncode(samples, p.Coder());
    return Success(out);
  }

  method SzDecompress(cdata: seq<u32>, data: seq<u8>, outLen: nat) returns (r: Result<seq<u8>, SzipError>)
    ensures r == Decompress(cdata, Unpack(data), outLen)
  {
    var parsed := ParseParams(cdata);
    if parsed.Failure? {
      return Failure(parsed.error);
    }
    var p := parsed.value;
    LineBounds(p);
    var decoded := AecCodec.AecDecode(data, p.Coder(), DecodedCount(outLen, p));
    if decoded.Failure? {
      return Failure(decoded.error);
    }
    var samples := decoded.value;
    if p.PadsScanlines() {
      samples := DropPadding(samples, p.Coder().RsiSamples(), p.pps);
    }
    var bytes := WriteSamples(samples, p.Width(), p.HasOption(SZ_MSB));
    bytes := bytes[..Min(outLen, |bytes|)];
    if p.Interleaves() {
      bytes := Deinterleave(bytes, p.bpp / 8);
    }
    return Success(bytes);
  }

  /** The methods together: for 8, 16, 32 or 64 bits per pixel and whole pixels, decompressing what
      was compressed returns the input, or fails when the last scanline stops short of its last block. */
  method CompressThenDecompress(cdata: seq<u32>, data: seq<u8>) returns (r: Result<seq<u8>, SzipError>)
    requires ParseParams(cdata).Success?
    requires var p := ParseParams(cdata).value;
             && (p.bpp == 8 || p.bpp == 16 || p.bpp == 32 || p.bpp == 64)
             && WholeSamples(data, p)
    ensures if Decodable(|data|, ParseParams(cdata).value) then r == Success(data) else r.Failure?
  {
    BytePixelsAreSamples(data, ParseParams(cdata).value);
    var c := SzCompress(cdata, data);
    ghost var p := ParseParams(cdata).value;
    ghost var pad: nat :| pad < 8 && Unpack(c.value) == Aec.Encode(CompressSamples(data, p), p.Coder()) + Zeros(pad);
    SzRoundTrip(cdata, data, pad);
    r := SzDecompress(cdata, c.value, |data|);
  }
}
