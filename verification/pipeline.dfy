/** The filter pipeline: applied in order on write, reversed in the opposite order on read. */
module Pipeline {
  import opened Wrappers
  import opened Bytes
  import Aec
  import AecRoundTrip
  import Bits
  import BloscCodec
  import BloscFrame
  import Fletcher
  import Lzf
  import ScaleOffset
  import ScaleOffsetFilter
  import ScaleOffsetMeaning
  import ScaleOffsetRoundTrip
  import Seqs
  import Shuffle
  import Szip
  import SzipBuffers

  datatype Filter = Filter(id: nat, cdata: seq<u32>)

  datatype FilterError = NotSupported | TooShort | ChecksumMismatch | MissingParameters | Corrupt

  const DEFLATE: nat := 1
  const SHUFFLE: nat := 2
  const FLETCHER32: nat := 3
  const SZIP: nat := 4
  const NBIT: nat := 5
  const SCALEOFFSET: nat := 6
  const LZF: nat := 32000
  const BLOSC: nat := 32001

  type Buffer = Result<seq<u8>, FilterError>

  /** The filters that are not spelled out here, and the codecs inside the blosc frame. */
  datatype Env = Env(apply: (Filter, seq<u8>) -> Option<seq<u8>>, reverse: (Filter, seq<u8>) -> Option<seq<u8>>,
                     enc: BloscCodec.Encoder, ext: BloscFrame.Decoder)

  /** Szip on pixels of whole bytes; shorter parameters are refused. */
  predicate BytePixels(cdata: seq<u32>) {
    |cdata| >= 4 ==> cdata[1] == 8 || cdata[1] == 16 || cdata[1] == 32 || cdata[1] == 64
  }

  /** Scale-offset on integers; shorter parameters are refused. */
  predicate IntegerCells(cdata: seq<u32>) {
    |cdata| >= 8 ==> 1 <= cdata[4] <= 8 && !(cdata[3] == 1 && cdata[0] == 0)
  }

  /** DEFLATE, szip on other pixels, scale-offset on floating-point numbers, and n-bit data that
      really is packed. */
  predicate Foreign(f: Filter) {
    || f.id == DEFLATE
    || (f.id == SZIP && !BytePixels(f.cdata))
    || (f.id == SCALEOFFSET && !IntegerCells(f.cdata))
    || (f.id == NBIT && |f.cdata| >= 3 && f.cdata[1] == 0)
  }

  function Word(f: Filter, i: nat, default: nat): nat {
    if i < |f.cdata| then f.cdata[i] else default
  }

  function ElementSize(f: Filter, esize: nat): (n: nat)
    ensures n >= 1
  {
    Max(Word(f, 0, esize), 1)
  }

  function FromForeign(r: Option<seq<u8>>): Buffer {
    if r.Some? then Success(r.value) else Failure(Corrupt)
  }

  /** Reversing one filter. */
  function ReverseOne(f: Filter, esize: nat, data: seq<u8>, env: Env): Buffer {
    if Foreign(f) then FromForeign(env.reverse(f, data))
    else if f.id == SHUFFLE then Success(Shuffle.Unshuffled(ElementSize(f, esize), data))
    else if f.id == FLETCHER32 then
      if |data| < 4 then Failure(TooShort)
      else if FromLe(data[|data| - 4..]) != Fletcher.Checksum(data[..|data| - 4]) then Failure(ChecksumMismatch)
      else Success(data[..|data| - 4])
    else if f.id == LZF then
      match Lzf.Decode(data, [])
      case Failure(_) => Failure(Corrupt)
      case Success(d) => Success(d)
    else if f.id == NBIT then if |f.cdata| < 3 then Failure(MissingParameters) else Success(data)
    else if f.id == BLOSC then
      match BloscFrame.Decompress(data, env.ext)
      case Failure(_) => Failure(Corrupt)
      case Success(d) => Success(d)
    else if f.id == SZIP then
      if |data| < 4 then Failure(TooShort)
      else
        match Szip.Decompress(f.cdata, Bits.Unpack(data[4..]), FromLe(data[..4]))
        case Failure(_) => Failure(Corrupt)
        case Success(d) => Success(d)
    else if f.id == SCALEOFFSET then
      match ScaleOffset.Decompress(f.cdata, data)
      case Failure(_) => Failure(Corrupt)
      case Success(d) => Success(d)
    else Failure(NotSupported)
  }

  predicate Skipped(mask: u32, i: nat) {
    Shr(mask, i) % 2 == 1
  }

  /** The last n filters undone, those with their bit set in the mask left out. */
  function ReverseFrom(filters: seq<Filter>, n: nat, esize: nat, data: seq<u8>, mask: u32, env: Env): Buffer
    requires n <= |filters|
    decreases n
  {
    if n == 0 then Success(data)
    else if Skipped(mask, n - 1) then ReverseFrom(filters, n - 1, esize, data, mask, env)
    else
      var d :- ReverseOne(filters[n - 1], esize, data, env);
      ReverseFrom(filters, n - 1, esize, d, mask, env)
  }

  /** `reverse_masked`. */
  function ReverseMasked(filters: seq<Filter>, esize: nat, data: seq<u8>, mask: u32, env: Env): Buffer {
    ReverseFrom(filters, |filters|, esize, data, mask, env)
  }

  function Unmasked(filters: seq<Filter>, n: nat, mask: u32): seq<Filter>
    requires n <= |filters|
  {
    if n == 0 then [] else Unmasked(filters, n - 1, mask) + if Skipped(mask, n - 1) then [] else [filters[n - 1]]
  }

  lemma {:induction false} NothingSkipped(i: nat)
    ensures Shr(0, i) == 0 && !Skipped(0, i)
  {
    if i > 0 {
      NothingSkipped(i - 1);
    }
  }

  lemma {:induction false} ReversePrefix(filters: seq<Filter>, more: seq<Filter>, n: nat, esize: nat, data: seq<u8>, mask: u32, env: Env)
    requires n <= |filters|
    ensures ReverseFrom(filters + more, n, esize, data, mask, env) == ReverseFrom(filters, n, esize, data, mask, env)
    decreases n
  {
    hide ReverseOne;
    if n > 0 {
      var d := if Skipped(mask, n - 1) then Success(data) else ReverseOne(filters[n - 1], esize, data, env);
      if d.Success? {
        ReversePrefix(filters, more, n - 1, esize, d.value, mask, env);
      }
    }
  }

  /** Reversing with a mask is reversing the pipeline without the masked filters. */
  lemma {:induction false} MaskLeavesOut(filters: seq<Filter>, n: nat, esize: nat, data: seq<u8>, mask: u32, env: Env)
    requires n <= |filters|
    ensures ReverseFrom(filters, n, esize, data, mask, env)
            == ReverseMasked(Unmasked(filters, n, mask), esize, data, 0, env)
    decreases n
  {
    hide ReverseOne;
    if n > 0 {
      var kept := Unmasked(filters, n - 1, mask);
      if Skipped(mask, n - 1) {
        Seqs.Empty(kept);
        MaskLeavesOut(filters, n - 1, esize, data, mask, env);
      } else {
        NothingSkipped(|kept|);
        var d := ReverseOne(filters[n - 1], esize, data, env);
        if d.Success? {
          MaskLeavesOut(filters, n - 1, esize, d.value, mask, env);
          ReversePrefix(kept, [filters[n - 1]], |kept|, esize, d.value, 0, env);
        }
      }
    }
  }

  // ----- one filter, forward

  /** What a stage needs so that it can be undone: shuffle, checksum and LZF need nothing. */
  ghost predicate StageOk(f: Filter, esize: nat, before: seq<u8>, after: seq<u8>, env: Env) {
    && (f.id == NBIT ==> |f.cdata| >= 3)
    && (f.id == BLOSC ==> BloscFrame.FitsFrame(BloscSettings(f, esize), |before|))
    && (Foreign(f) ==> env.reverse(f, after) == Some(before))
    && (f.id == SZIP && !Foreign(f) ==> SzipOk(f.cdata, before))
    && (f.id == SCALEOFFSET && !Foreign(f) ==> ScaleOk(f.cdata, before))
  }

  /** Whole pixels, and a last scanline that reaches its last block. */
  ghost predicate SzipOk(cdata: seq<u32>, data: seq<u8>) {
    var p := Szip.ParseParams(cdata);
    p.Success? && |data| < TWO_32 && Szip.WholeSamples(data, p.value) && Szip.Decodable(|data|, p.value)
  }

  /** As many cells as announced, and nothing lost by packing them. */
  ghost predicate ScaleOk(cdata: seq<u32>, data: seq<u8>) {
    && ScaleOffsetRoundTrip.IntegerChunk(cdata, data)
    && |data| == Times(cdata[2], cdata[4]) && ScaleOffsetMeaning.Restorable(cdata, data)
  }

  /** Filters that accept every buffer. */
  predicate Total(f: Filter) {
    Writable(f) && !Foreign(f) && f.id != SZIP && f.id != SCALEOFFSET
  }

  predicate Writable(f: Filter) {
    f.id in {DEFLATE, SHUFFLE, FLETCHER32, SZIP, NBIT, SCALEOFFSET, LZF, BLOSC}
  }

  /** The codec stored in the frame for a compressor code. */
  function FormatOf(code: nat): u8 {
    if code == 1 || code == 2 then 1 else if code == 3 then 2 else if code == 4 then 3 else if code == 5 then 4 else 0
  }

  function BloscSettings(f: Filter, esize: nat): BloscFrame.Settings {
    BloscFrame.Settings(FormatOf(Word(f, 6, 0)), Word(f, 5, 1) % 0x100, Max(Word(f, 2, esize % TWO_32), 1))
  }

  /** What applying one filter makes of a buffer. */
  ghost predicate Applied(f: Filter, esize: nat, before: seq<u8>, after: seq<u8>, env: Env) {
    && Writable(f)
    && if f.id == NBIT then after == before
       else if Foreign(f) then env.apply(f, before) == Some(after)
       else if f.id == SHUFFLE then after == Shuffle.Shuffled(ElementSize(f, esize), before)
       else if f.id == FLETCHER32 then after == before + Le(Fletcher.Checksum(before), 4)
       else if f.id == LZF then Lzf.Decode(after, []) == Success(before) && |after| <= |before| + CeilDiv(|before|, 32)
       else if f.id == SZIP then SzipApplied(f.cdata, before, after)
       else if f.id == SCALEOFFSET then ScaleApplied(f.cdata, before, after)
       else BloscApplied(BloscSettings(f, esize), before, after, env)
  }

  /** The length, then the code of the padded samples. */
  ghost predicate SzipApplied(cdata: seq<u32>, before: seq<u8>, after: seq<u8>) {
    var p := Szip.ParseParams(cdata);
    && p.Success? && |after| >= 4 && after[..4] == Le(|before|, 4)
    && Aec.Encodable(Szip.CompressSamples(before, p.value), p.value.Coder())
    && SzipBuffers.HoldsCode(after[4..], Aec.Encode(Szip.CompressSamples(before, p.value), p.value.Coder()))
  }

  ghost predicate ScaleApplied(cdata: seq<u32>, before: seq<u8>, after: seq<u8>) {
    && |cdata| >= 8 && cdata[3] == 0 && 1 <= cdata[4] <= 8 && |before| >= Times(cdata[2], cdata[4])
    && var p := ScaleOffset.ParamsOf(cdata);
       ScaleOffset.IsCompressed(after, ScaleOffset.Cells(before, p.nelmts, p.size), p)
  }

  ghost predicate BloscApplied(s: BloscFrame.Settings, before: seq<u8>, after: seq<u8>, env: Env) {
    && BloscFrame.HasHeader(after, s, before)
    && (BloscFrame.FitsFrame(s, |before|) ==> BloscFrame.Decompress(after, env.ext) == Success(before))
  }

  /** The words of the two filters that take settings from them: word 0 is the element size of a shuffle;
      words 2, 5 and 6 are element size, shuffle and compressor of a blosc frame, which says so in its header. */
  lemma AppliedByWords(f: Filter, esize: nat, before: seq<u8>, after: seq<u8>, env: Env)
    requires Applied(f, esize, before, after, env)
    ensures f.id == 2 && |f.cdata| > 0 && f.cdata[0] > 0 ==> after == Shuffle.Shuffled(f.cdata[0], before)
    ensures f.id == 2 && f.cdata == [] && esize > 0 ==> after == Shuffle.Shuffled(esize, before)
    ensures f.id == 32001 && |f.cdata| >= 7 ==>
              && |after| >= 4 && after[3] as int == (if 1 <= f.cdata[2] <= 0xff then f.cdata[2] else 1)
              && after[2] as int / 32 == (match f.cdata[6] case 1 => 1 case 2 => 1 case 3 => 2 case 4 => 3 case 5 => 4 case _ => 0)
              && (after[2] as int % 2 == 1 <==> f.cdata[5] % 0x100 == 1 && after[3] > 1)
              && (after[2] as int / 4 % 2 == 1 <==> f.cdata[5] % 0x100 == 2)
  {
    hide Shuffle.Shuffled, BloscFrame.Decompress, BloscFrame.FitsFrame, Le;
    if f.id == BLOSC && |f.cdata| >= 7 {
      var s := BloscSettings(f, esize);
      BloscFrame.FlagBits(s);
      assert after[2] == after[0..4][2] && after[3] == after[0..4][3];
    }
  }

  /** How long a buffer of n bytes can get in a filter whose size depends on nothing else. */
  function Grown(f: Filter, n: nat): (m: nat)
    ensures m >= n
  {
    if f.id == LZF then n + CeilDiv(n, 32) else if f.id == FLETCHER32 then n + 4 else n
  }

  /** The same after the first k filters. */
  function StoredBound(filters: seq<Filter>, k: nat, n: nat): (m: nat)
    requires k <= |filters|
    ensures m >= n
  {
    if k == 0 then n else Grown(filters[k - 1], StoredBound(filters, k - 1, n))
  }

  /** Filters that keep to that size. */
  predicate Sized(f: Filter) {
    f.id == SHUFFLE || f.id == FLETCHER32 || f.id == LZF || f.id == NBIT
  }

  lemma GrownMonotone(f: Filter, n: nat, m: nat)
    requires n <= m
    ensures Grown(f, n) <= Grown(f, m)
  {
  }

  lemma AppliedSize(f: Filter, esize: nat, before: seq<u8>, after: seq<u8>, env: Env)
    requires Applied(f, esize, before, after, env) && Sized(f)
    ensures |after| <= Grown(f, |before|)
  {
    hide Shuffle.Shuffled, Fletcher.Checksum, Le, Lzf.Decode;
  }

  /** An applied filter is undone where its stage is. */
  lemma AppliedUndone(f: Filter, esize: nat, before: seq<u8>, after: seq<u8>, env: Env)
    requires Applied(f, esize, before, after, env) && StageOk(f, esize, before, after, env)
    ensures ReverseOne(f, esize, after, env) == Success(before)
  {
    hide BloscFrame.Decompress, BloscFrame.LastStart, BloscFrame.HasHeader, Lzf.Decode, Fletcher.Checksum, Shuffle.Shuffled,
         Shuffle.Unshuffled, Szip.Decompress, ScaleOffset.Decompress, SzipOk, ScaleOk, Le, FromLe, Bits.Unpack, SzipApplied, ScaleApplied;
    if !Foreign(f) {
      if f.id == SHUFFLE {
        Shuffle.UnshuffleOfShuffle(ElementSize(f, esize), before);
      } else if f.id == FLETCHER32 {
        ChecksumUndone(before);
      } else if f.id == SZIP {
        SzipUndone(f.cdata, before, after);
      } else if f.id == SCALEOFFSET {
        ScaleUndone(f.cdata, before, after);
      }
    }
  }

  lemma ChecksumUndone(data: seq<u8>)
    ensures var sum := Fletcher.Checksum(data); var out := data + Le(sum, 4);
            out[..|out| - 4] == data && FromLe(out[|out| - 4..]) == sum
  {
    hide Fletcher.Checksum;
    Pow2Constants();
    FromLeOfLe(Fletcher.Checksum(data), 4);
    Seqs.DropAppended(data, Le(Fletcher.Checksum(data), 4));
  }

  lemma SzipUndone(cdata: seq<u32>, before: seq<u8>, after: seq<u8>)
    requires BytePixels(cdata) && SzipApplied(cdata, before, after) && SzipOk(cdata, before)
    ensures |after| >= 4 && Szip.Decompress(cdata, Bits.Unpack(after[4..]), FromLe(after[..4])) == Success(before)
  {
    hide Szip.Decompress, Bits.Unpack, Le, FromLe, Szip.WholeSamples, Szip.Decodable;
    FourBytes(|before|);
    SzipRestores(cdata, before, after[4..]);
  }

  lemma ScaleUndone(cdata: seq<u32>, before: seq<u8>, after: seq<u8>)
    requires IntegerCells(cdata) && ScaleApplied(cdata, before, after) && ScaleOk(cdata, before)
    ensures ScaleOffset.Decompress(cdata, after) == Success(before)
  {
    hide ScaleOffset.Decompress, ScaleOffset.Cells, ScaleOffset.IsCompressed, ScaleOffsetMeaning.Restorable;
    ScaleOffsetMeaning.RestoresExactly(cdata, before, after);
    Seqs.TakeAll(before, |before|);
  }

  method AppendChecksum(data: seq<u8>) returns (out: seq<u8>)
    ensures out == data + Le(Fletcher.Checksum(data), 4)
  {
    var sum := Fletcher.Fletcher32(data);
    out := data + Le(sum, 4);
  }

  /** The length in front of the code. */
  method ApplySzip(cdata: seq<u32>, data: seq<u8>) returns (r: Buffer)
    requires BytePixels(cdata)
    ensures r.Success? <==> Szip.ParseParams(cdata).Success?
    ensures r.Success? ==> SzipApplied(cdata, data, r.value)
  {
    hide Bits.Unpack, Le, Szip.WholeSamples, SzipBuffers.HoldsCode;
    var p := Szip.ParseParams(cdata);
    if p.Failure? {
      return Failure(Corrupt);
    }
    Szip.BytePixelsAreSamples(data, p.value);
    var c := SzipBuffers.SzCompress(cdata, data);
    r := Success(Le(|data|, 4) + c.value);
    Seqs.DropAppended(Le(|data|, 4), c.value);
  }

  lemma SzipRestores(cdata: seq<u32>, data: seq<u8>, c: seq<u8>)
    requires BytePixels(cdata) && SzipOk(cdata, data)
    requires Aec.Encodable(Szip.CompressSamples(data, Szip.ParseParams(cdata).value), Szip.ParseParams(cdata).value.Coder())
    requires SzipBuffers.HoldsCode(c, Aec.Encode(Szip.CompressSamples(data, Szip.ParseParams(cdata).value), Szip.ParseParams(cdata).value.Coder()))
    ensures Szip.Decompress(cdata, Bits.Unpack(c), |data|) == Success(data)
  {
    var p := Szip.ParseParams(cdata).value;
    Szip.BytePixelsAreSamples(data, p);
    var pad: nat :| pad < 8 && Bits.Unpack(c) == Aec.Encode(Szip.CompressSamples(data, p), p.Coder()) + Bits.Zeros(pad);
    hide Szip.Decompress, Bits.Unpack, Szip.WholeSamples, Szip.Decodable, Aec.Encode, Szip.CompressSamples;
    Szip.SzRoundTrip(cdata, data, pad);
  }

  method ApplyScale(cdata: seq<u32>, data: seq<u8>) returns (r: Buffer)
    requires IntegerCells(cdata)
    ensures r.Success? <==> |cdata| >= 8 && |data| >= Times(cdata[2], cdata[4]) && cdata[3] == 0
    ensures r.Success? ==> ScaleApplied(cdata, data, r.value)
  {
    hide ScaleOffset.Cells, ScaleOffset.IsCompressed;
    var c := ScaleOffsetFilter.Compress(cdata, data);
    if c.Failure? {
      return Failure(Corrupt);
    }
    r := Success(c.value);
  }

  method ApplyOne(f: Filter, esize: nat, data: seq<u8>, env: Env) returns (r: Buffer)
    requires BloscCodec.Inverse(env.enc, env.ext)
    ensures !Writable(f) ==> r == Failure(NotSupported)
    ensures Total(f) ==> r.Success?
    ensures f.id == SZIP && !Foreign(f) ==> (r.Success? <==> Szip.ParseParams(f.cdata).Success?)
    ensures r.Success? ==> Applied(f, esize, data, r.value, env)
  {
    hide BloscCodec.Inverse, BloscFrame.Decompress, BloscFrame.LastStart, BloscFrame.HasHeader, Lzf.Decode, Fletcher.Checksum,
         Shuffle.Shuffled, SzipApplied, ScaleApplied, Szip.ParseParams, Le;
    if f.id != NBIT && Foreign(f) {
      return FromForeign(env.apply(f, data));
    } else if f.id == SZIP {
      r := ApplySzip(f.cdata, data);
      return;
    } else if f.id == SCALEOFFSET {
      r := ApplyScale(f.cdata, data);
      return;
    } else if f.id == SHUFFLE {
      var s := Shuffle.FilterShuffle(ElementSize(f, esize), data);
      return Success(s);
    } else if f.id == FLETCHER32 {
      var s := AppendChecksum(data);
      return Success(s);
    } else if f.id == LZF {
      var c := Lzf.Compress(data);
      return Success(c);
    } else if f.id == BLOSC {
      var c := BloscCodec.Compress(BloscSettings(f, esize), data, env.enc, env.ext);
      return Success(c);
    } else if f.id == NBIT {
      return Success(data);
    }
    r := Failure(NotSupported);
  }

  // ----- the whole pipeline

  ghost predicate StagesOk(filters: seq<Filter>, esize: nat, stages: seq<seq<u8>>, n: nat, env: Env) {
    n <= |filters| && n < |stages| && forall i :: 0 <= i < n ==> StageOk(filters[i], esize, stages[i], stages[i + 1], env)
  }

  /** Every filter applied to the buffer before it. */
  ghost predicate Chain(filters: seq<Filter>, esize: nat, stages: seq<seq<u8>>, n: nat, env: Env) {
    n <= |filters| && n < |stages| && forall i :: 0 <= i < n ==> Applied(filters[i], esize, stages[i], stages[i + 1], env)
  }

  lemma ChainGrows(filters: seq<Filter>, esize: nat, stages: seq<seq<u8>>, next: seq<u8>, n: nat, env: Env)
    requires n < |filters| && |stages| == n + 1 && Chain(filters, esize, stages, n, env)
    requires Applied(filters[n], esize, stages[n], next, env)
    ensures Chain(filters, esize, stages + [next], n + 1, env)
  {
    hide Applied;
    var more := stages + [next];
    forall i | 0 <= i < n + 1 ensures Applied(filters[i], esize, more[i], more[i + 1], env) {
      if i < n {
        assert Applied(filters[i], esize, stages[i], stages[i + 1], env);
      }
    }
  }

  /** If every stage can be undone, reversing undoes the chain. */
  lemma {:induction false} ChainUndone(filters: seq<Filter>, esize: nat, stages: seq<seq<u8>>, n: nat, env: Env)
    requires Chain(filters, esize, stages, n, env) && StagesOk(filters, esize, stages, n, env)
    ensures ReverseFrom(filters, n, esize, stages[n], 0, env) == Success(stages[0])
    decreases n
  {
    hide Applied, StageOk, ReverseOne;
    if n > 0 {
      assert Applied(filters[n - 1], esize, stages[n - 1], stages[n - 1 + 1], env);
      assert StageOk(filters[n - 1], esize, stages[n - 1], stages[n - 1 + 1], env);
      AppliedUndone(filters[n - 1], esize, stages[n - 1], stages[n], env);
      OneMoreFilter(filters, n - 1, esize, stages[n], env);
      ChainUndone(filters, esize, stages, n - 1, env);
    }
  }

  lemma {:induction false} ChainSize(filters: seq<Filter>, esize: nat, stages: seq<seq<u8>>, n: nat, env: Env)
    requires Chain(filters, esize, stages, n, env) && forall i :: 0 <= i < n ==> Sized(filters[i])
    ensures |stages[n]| <= StoredBound(filters, n, |stages[0]|)
    decreases n
  {
    hide Applied;
    if n > 0 {
      ChainSize(filters, esize, stages, n - 1, env);
      assert Applied(filters[n - 1], esize, stages[n - 1], stages[n - 1 + 1], env);
      AppliedSize(filters[n - 1], esize, stages[n - 1], stages[n], env);
      GrownMonotone(filters[n - 1], |stages[n - 1]|, StoredBound(filters, n - 1, |stages[0]|));
    }
  }

  /** Applies every filter; `stages` are the buffers between them. */
  method Apply(filters: seq<Filter>, esize: nat, data: seq<u8>, env: Env) returns (r: Buffer, ghost stages: seq<seq<u8>>)
    requires BloscCodec.Inverse(env.enc, env.ext)
    ensures (exists f :: f in filters && !Writable(f)) ==> r.Failure?
    ensures (forall f :: f in filters ==> Total(f)) ==> r.Success?
    ensures r.Success? ==>
              && |stages| == |filters| + 1 && stages[0] == data && stages[|filters|] == r.value
              && Chain(filters, esize, stages, |filters|, env)
              && (StagesOk(filters, esize, stages, |filters|, env) ==>
                    ReverseMasked(filters, esize, r.value, 0, env) == Success(data))
    ensures r.Success? && (forall f :: f in filters ==> Sized(f)) ==> |r.value| <= StoredBound(filters, |filters|, |data|)
  {
    hide BloscCodec.Inverse, StagesOk, StageOk, ReverseOne, ReverseFrom, Writable, Applied, StoredBound;
    var buf := data;
    stages := [data];
    for i := 0 to |filters|
      invariant |stages| == i + 1 && stages[0] == data && stages[i] == buf
      invariant forall k :: 0 <= k < i ==> Writable(filters[k])
      invariant Chain(filters, esize, stages, i, env)
    {
      var next := ApplyOne(filters[i], esize, buf, env);
      if next.Failure? {
        return next, stages;
      }
      ChainGrows(filters, esize, stages, next.value, i, env);
      buf := next.value;
      stages := stages + [buf];
    }
    if StagesOk(filters, esize, stages, |filters|, env) {
      ChainUndone(filters, esize, stages, |filters|, env);
    }
    if forall f :: f in filters ==> Sized(f) {
      ChainSize(filters, esize, stages, |filters|, env);
    }
    r := Success(buf);
  }

  lemma OneMoreFilter(filters: seq<Filter>, i: nat, esize: nat, data: seq<u8>, env: Env)
    requires i < |filters|
    ensures var d := ReverseOne(filters[i], esize, data, env);
            d.Success? ==> ReverseFrom(filters, i + 1, esize, data, 0, env) == ReverseFrom(filters, i, esize, d.value, 0, env)
  {
    hide ReverseOne;
    NothingSkipped(i);
  }

  method Reverse(filters: seq<Filter>, esize: nat, data: seq<u8>, mask: u32, env: Env) returns (r: Buffer)
    requires |filters| <= 32
    ensures r == ReverseMasked(filters, esize, data, mask, env)
  {
    hide ReverseOne;
    var buf := data;
    var i := |filters|;
    while i > 0
      invariant 0 <= i <= |filters|
      invariant ReverseFrom(filters, i, esize, buf, mask, env) == ReverseMasked(filters, esize, data, mask, env)
    {
      i := i - 1;
      if Skipped(mask, i) {
        continue;
      }
      var d := UndoOne(filters[i], esize, buf, env);
      if d.Failure? {
        return d;
      }
      buf := d.value;
    }
    r := Success(buf);
  }

  method UndoOne(f: Filter, esize: nat, data: seq<u8>, env: Env) returns (r: Buffer)
    ensures r == ReverseOne(f, esize, data, env)
  {
    hide BloscFrame.Decompress, Lzf.Decode, Fletcher.Checksum, Shuffle.Unshuffled, Szip.Decompress, ScaleOffset.Decompress;
    if Foreign(f) {
      return FromForeign(env.reverse(f, data));
    } else if f.id == SHUFFLE {
      var s := Shuffle.FilterUnshuffle(ElementSize(f, esize), data);
      return Success(s);
    } else if f.id == FLETCHER32 {
      if |data| < 4 {
        return Failure(TooShort);
      }
      var sum := Fletcher.Fletcher32(data[..|data| - 4]);
      return if FromLe(data[|data| - 4..]) != sum then Failure(ChecksumMismatch) else Success(data[..|data| - 4]);
    } else if f.id == LZF {
      var d := Lzf.Decompress(data);
      return if d.Success? then Success(d.value) else Failure(Corrupt);
    } else if f.id == NBIT {
      return if |f.cdata| < 3 then Failure(MissingParameters) else Success(data);
    } else if f.id == BLOSC {
      var d := BloscCodec.DecompressFrame(data, env.ext);
      return if d.Success? then Success(d.value) else Failure(Corrupt);
    } else if f.id == SZIP {
      if |data| < 4 {
        return Failure(TooShort);
      }
      var d := SzipBuffers.SzDecompress(f.cdata, data[4..], FromLe(data[..4]));
      return if d.Success? then Success(d.value) else Failure(Corrupt);
    } else if f.id == SCALEOFFSET {
      var d := ScaleOffsetFilter.DecompressChunk(f.cdata, data);
      return if d.Success? then Success(d.value) else Failure(Corrupt);
    }
    r := Failure(NotSupported);
  }
}
