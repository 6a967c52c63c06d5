/** Writing an array as filtered chunks and reading it back. */
module ChunkIo {
  import opened Wrappers
  import opened Bytes
  import opened NdIndex
  import opened ChunkGrid
  import opened ChunkCopy
  import opened ChunkCut
  import BloscCodec
  import FileBuf
  import Pipeline
  import Seqs

  /** A chunk's place in the array and in the file. */
  datatype ChunkEntry = ChunkEntry(offsets: seq<nat>, size: u32, mask: u32, addr: nat)

  datatype ReadError = ChunkTooLarge | OutOfBounds | BadFilter(error: Pipeline.FilterError)

  const MAX_CHUNK: nat := 0x2_0000_0000

  /** The array's shape, how it is cut, and how chunks are filtered. */
  datatype Layout = Layout(dims: seq<nat>, cdims: seq<nat>, es: nat, filters: seq<Pipeline.Filter>) {
    ghost predicate Valid() {
      |dims| == |cdims| && Positive(cdims) && |filters| <= 32
    }

    function ChunkBytes(): nat {
      Times(Product(cdims), es)
    }

    function ArrayBytes(): nat {
      Times(Product(dims), es)
    }

    /** How long a stored chunk can be, if all filters are of the kind that has a bound. */
    function StoredBytes(): nat {
      Pipeline.StoredBound(filters, |filters|, ChunkBytes())
    }
  }

  // ----- what an entry stands for

  /** Reading a stored chunk back, before it is scattered. */
  function Unfiltered(l: Layout, bytes: seq<u8>, mask: u32, env: Pipeline.Env): Pipeline.Buffer {
    if l.filters == [] then Success(bytes) else Pipeline.ReverseMasked(l.filters, l.es, bytes, mask, env)
  }

  ghost predicate Decodes(l: Layout, bytes: seq<u8>, mask: u32, data: seq<u8>, base: seq<nat>, env: Pipeline.Env)
    requires l.Valid() && |base| == |l.dims|
  {
    var chunk := Unfiltered(l, bytes, mask, env);
    chunk.Success? && Gathered(chunk.value, data, base, l.dims, l.cdims, l.es)
  }

  /** The same once the chunk has been brought to its size. */
  ghost predicate Fills(l: Layout, bytes: seq<u8>, mask: u32, data: seq<u8>, base: seq<nat>, env: Pipeline.Env)
    requires l.Valid() && |base| == |l.dims|
  {
    var chunk := Unfiltered(l, bytes, mask, env);
    chunk.Success? && Gathered(Resized(chunk.value, l.ChunkBytes()), data, base, l.dims, l.cdims, l.es)
  }

  /** Entry e leads to a chunk of `data`, in a file whose addresses start at `at`. */
  ghost predicate Readable(l: Layout, file: seq<u8>, at: nat, e: ChunkEntry, data: seq<u8>, env: Pipeline.Env)
    requires l.Valid()
  {
    && |e.offsets| >= |l.dims| && at + e.addr + e.size <= |file|
    && Fills(l, file[at + e.addr..at + e.addr + e.size], e.mask, data, e.offsets[..|l.dims|], env)
  }

  // ----- writing

  /** Shuffle, checksum, LZF and verbatim n-bit, in any order and number. */
  predicate Plain(filters: seq<Pipeline.Filter>) {
    forall f :: f in filters ==>
      && f.id in {Pipeline.SHUFFLE, Pipeline.FLETCHER32, Pipeline.LZF, Pipeline.NBIT}
      && (f.id == Pipeline.NBIT ==> |f.cdata| >= 3 && f.cdata[1] != 0)
  }

  method FilterChunk(l: Layout, chunk: seq<u8>, env: Pipeline.Env) returns (r: Pipeline.Buffer)
    requires BloscCodec.Inverse(env.enc, env.ext)
    ensures Plain(l.filters) ==> r.Success? && Unfiltered(l, r.value, 0, env) == Success(chunk)
    ensures Plain(l.filters) ==> |r.value| <= Pipeline.StoredBound(l.filters, |l.filters|, |chunk|)
    ensures l.filters == [] ==> r == Success(chunk)
  {
    hide Pipeline.ReverseMasked, BloscCodec.Inverse, Pipeline.Applied;
    if l.filters == [] {
      return Success(chunk);
    }
    ghost var stages;
    r, stages := Pipeline.Apply(l.filters, l.es, chunk, env);
    if Plain(l.filters) {
      assert forall f :: f in l.filters ==> Pipeline.Total(f);
      assert forall f :: f in l.filters ==> Pipeline.Sized(f);
      assert Pipeline.StagesOk(l.filters, l.es, stages, |l.filters|, env);
    }
  }

  lemma GatheredByPicking(l: Layout, chunk: seq<u8>, data: seq<u8>, base: seq<nat>, before: seq<u8>)
    requires l.Valid() && |base| == |l.dims| && |chunk| == |before| == l.ChunkBytes()
    requires |data| == Times(Product(l.dims), l.es)
    requires |l.dims| == 0 ==> var n := Min(l.es, Min(|data|, |chunk|)); chunk[..n] == data[..n]
    requires |l.dims| > 0 ==> forall f :: 0 <= f < Product(l.cdims) ==>
               Has(chunk, f, l.es) && Elem(chunk, f, l.es) == Picked(data, base, l.dims, l.cdims, l.es, f, Elem(before, f, l.es))
    ensures Gathered(chunk, data, base, l.dims, l.cdims, l.es)
  {
    hide Elem, Position, Coord;
    if |l.dims| == 0 {
      TimesIsProduct(1, l.es);
      Seqs.TakeAll(data, |data|);
    }
  }

  /** One chunk: gathered into a zeroed buffer, filtered and appended. */
  method WriteChunk(buf: seq<u8>, l: Layout, data: seq<u8>, base: seq<nat>, env: Pipeline.Env)
    returns (r: Result<(seq<u8>, ChunkEntry), Pipeline.FilterError>, ghost stored: seq<u8>)
    requires l.Valid() && |base| == |l.dims| && BloscCodec.Inverse(env.enc, env.ext)
    ensures Plain(l.filters) ==> r.Success?
    ensures r.Success? ==>
              var (file, e) := r.value;
              && |file| >= |buf| && file[..|buf|] == buf && |buf| <= e.addr
              && e.offsets == base + [0] && e.mask == 0 && e.size == |stored| % TWO_32
              && e.addr + |stored| == |file| <= |buf| + 7 + |stored| && file[e.addr..] == stored
              && (Plain(l.filters) ==> |stored| <= l.StoredBytes())
              && (Plain(l.filters) && |data| == l.ArrayBytes() ==> Decodes(l, stored, 0, data, base, env))
  {
    hide Product, Picked, Elem, Plain, Gathered, Unfiltered, BloscCodec.Inverse, Pipeline.StoredBound;
    var chunk := new u8[l.ChunkBytes()](_ => 0);
    ghost var before := chunk[..];
    GatherChunk(data, l.dims, l.cdims, base, l.es, chunk);
    if |data| == Times(Product(l.dims), l.es) {
      GatheredByPicking(l, chunk[..], data, base, before);
    }
    var filtered := FilterChunk(l, chunk[..], env);
    if filtered.Failure? {
      return Failure(filtered.error), [];
    }
    var file, addr := FileBuf.Append(buf, filtered.value);
    r, stored := Success((file, ChunkEntry(base + [0], |filtered.value| % TWO_32, 0, addr))), filtered.value;
  }

  /** What has been written: the entries in grid order, each with its bytes in the file. */
  ghost predicate Written(l: Layout, file: seq<u8>, entries: seq<ChunkEntry>, stored: seq<seq<u8>>)
    requires l.Valid()
  {
    && |stored| == |entries|
    && forall j :: 0 <= j < |entries| ==> EntryWritten(l, file, entries[j], stored[j], j)
  }

  ghost predicate EntryWritten(l: Layout, file: seq<u8>, e: ChunkEntry, stored: seq<u8>, j: nat)
    requires l.Valid()
  {
    && e.offsets == Base(j, l.dims, l.cdims) + [0] && e.mask == 0 && e.size == |stored| % TWO_32
    && e.addr + |stored| <= |file| && file[e.addr..e.addr + |stored|] == stored
  }

  ghost predicate AllDecode(l: Layout, stored: seq<seq<u8>>, data: seq<u8>, env: Pipeline.Env)
    requires l.Valid()
  {
    forall j :: 0 <= j < |stored| ==> Decodes(l, stored[j], 0, data, Base(j, l.dims, l.cdims), env)
  }

  lemma WrittenExtends(l: Layout, file: seq<u8>, file': seq<u8>, entries: seq<ChunkEntry>, stored: seq<seq<u8>>)
    requires l.Valid() && Written(l, file, entries, stored) && |file'| >= |file| && file'[..|file|] == file
    ensures Written(l, file', entries, stored)
  {
    hide Base;
    forall j | 0 <= j < |entries| ensures EntryWritten(l, file', entries[j], stored[j], j) {
      assert EntryWritten(l, file, entries[j], stored[j], j);
      Seqs.SliceOfTake(file', |file|, entries[j].addr, entries[j].addr + |stored[j]|);
    }
  }

  lemma WrittenStays(l: Layout, file: seq<u8>, file': seq<u8>, entries: seq<ChunkEntry>, stored: seq<seq<u8>>, e: ChunkEntry, s: seq<u8>)
    requires l.Valid() && Written(l, file, entries, stored)
    requires |file'| >= |file| && file'[..|file|] == file && EntryWritten(l, file', e, s, |entries|)
    ensures Written(l, file', entries + [e], stored + [s])
  {
    hide EntryWritten;
    WrittenExtends(l, file, file', entries, stored);
  }

  ghost predicate AllWithin(stored: seq<seq<u8>>, n: nat) {
    forall j :: 0 <= j < |stored| ==> |stored[j]| <= n
  }

  method WriteChunks(buf: seq<u8>, l: Layout, data: seq<u8>, env: Pipeline.Env)
    returns (r: Result<(seq<u8>, seq<ChunkEntry>), Pipeline.FilterError>, ghost stored: seq<seq<u8>>)
    requires l.Valid() && BloscCodec.Inverse(env.enc, env.ext)
    ensures Plain(l.filters) ==> r.Success?
    ensures r.Success? ==>
              var (file, entries) := r.value;
              && |file| >= |buf| && file[..|buf|] == buf
              && |entries| == Product(NChunks(l.dims, l.cdims)) && Written(l, file, entries, stored)
              && (Plain(l.filters) ==> AllWithin(stored, l.StoredBytes()) && |file| <= |buf| + Times(|entries|, l.StoredBytes() + 7))
              && (Plain(l.filters) && |data| == l.ArrayBytes() ==> AllDecode(l, stored, data, env))
  {
    hide Product, Coord, Scaled, Decodes, EntryWritten, Plain, NChunks, BloscCodec.Inverse, Pipeline.StoredBound;
    var n := CountChunks(l.dims, l.cdims);
    var total := Product(n);
    var file, entries, idx := buf, [], seq(|l.dims|, _ => 0);
    stored := [];
    FirstCoord(n);
    for j := 0 to total
      invariant |file| >= |buf| && file[..|buf|] == buf
      invariant |entries| == j && Written(l, file, entries, stored)
      invariant Plain(l.filters) ==> AllWithin(stored, l.StoredBytes()) && |file| <= |buf| + Times(j, l.StoredBytes() + 7)
      invariant Plain(l.filters) && |data| == l.ArrayBytes() ==> AllDecode(l, stored, data, env)
      invariant |idx| == |l.dims| && (j < total ==> idx == Coord(j, n))
    {
      var base := Scaled(idx, l.cdims);
      var w, s := WriteChunk(file, l, data, base, env);
      if w.Failure? {
        return Failure(w.error), stored;
      }
      var (file', e) := w.value;
      NewEntry(l, file', e, s, j, base);
      WrittenStays(l, file, file', entries, stored, e, s);
      Seqs.TakeTake(file', |file|, |buf|);
      file, entries, stored := file', entries + [e], stored + [s];
      OdometerStep(j, n);
      idx := Turn(idx, n);
    }
    r := Success((file, entries));
  }

  lemma NewEntry(l: Layout, file: seq<u8>, e: ChunkEntry, stored: seq<u8>, j: nat, base: seq<nat>)
    requires l.Valid() && base == Base(j, l.dims, l.cdims)
    requires e.offsets == base + [0] && e.mask == 0 && e.size == |stored| % TWO_32
    requires e.addr + |stored| == |file| && file[e.addr..] == stored
    ensures EntryWritten(l, file, e, stored, j)
  {
    hide Base;
    assert file[e.addr..|file|] == file[e.addr..];
  }

  // ----- reading

  /** Element e of the array is in the box of one of the chunks. */
  ghost predicate Covered(l: Layout, chunks: seq<ChunkEntry>, n: nat, e: nat)
    requires l.Valid() && n <= |chunks| && forall i :: 0 <= i < |chunks| ==> |chunks[i].offsets| >= |l.dims|
  {
    exists i :: 0 <= i < n && Source(e, chunks[i].offsets[..|l.dims|], l.dims, l.cdims).Some?
  }

  /** What the first n chunks have made of the array. */
  ghost predicate RestoredBy(l: Layout, chunks: seq<ChunkEntry>, n: nat, before: seq<u8>, out: seq<u8>, data: seq<u8>)
    requires l.Valid() && n <= |chunks| && forall i :: 0 <= i < |chunks| ==> |chunks[i].offsets| >= |l.dims|
  {
    && |before| == |out| == |data|
    && (|l.dims| == 0 && n > 0 ==> out == data)
    && (|l.dims| > 0 ==> forall e: nat :: Has(out, e, l.es) ==>
          Elem(out, e, l.es) == if Covered(l, chunks, n, e) then Elem(data, e, l.es) else Elem(before, e, l.es))
  }

  method ReadChunk(l: Layout, stored: seq<u8>, mask: u32, env: Pipeline.Env) returns (r: Pipeline.Buffer)
    requires l.Valid()
    ensures r == Unfiltered(l, stored, mask, env)
  {
    if l.filters == [] {
      return Success(stored);
    }
    r := Pipeline.Reverse(l.filters, l.es, stored, mask, env);
  }

  method Materialize(file: seq<u8>, at: nat, chunks: seq<ChunkEntry>, l: Layout, env: Pipeline.Env, out: array<u8>, ghost data: seq<u8>)
    returns (failed: Option<ReadError>)
    requires l.Valid() && forall i :: 0 <= i < |chunks| ==> |chunks[i].offsets| >= |l.dims|
    modifies out
    ensures l.ChunkBytes() > MAX_CHUNK ==> failed == Some(ChunkTooLarge) && out[..] == old(out[..])
    ensures && l.ChunkBytes() <= MAX_CHUNK && |data| == out.Length == Times(Product(l.dims), l.es)
            && (forall i :: 0 <= i < |chunks| ==> Readable(l, file, at, chunks[i], data, env))
            ==> failed == None && RestoredBy(l, chunks, |chunks|, old(out[..]), out[..], data)
  {
    hide Product, RestoredBy, Gathered, Unfiltered;
    var bytes := l.ChunkBytes();
    if bytes > MAX_CHUNK {
      return Some(ChunkTooLarge);
    }
    ghost var before := out[..];
    ghost var ok := |data| == out.Length == Times(Product(l.dims), l.es) && forall i :: 0 <= i < |chunks| ==> Readable(l, file, at, chunks[i], data, env);
    if ok {
      NothingRestored(l, chunks, before, data);
    }
    for i := 0 to |chunks|
      invariant ok ==> RestoredBy(l, chunks, i, before, out[..], data)
    {
      var start := at + chunks[i].addr;
      if start + chunks[i].size > |file| {
        return Some(OutOfBounds);
      }
      var plain := ReadChunk(l, file[start..start + chunks[i].size], chunks[i].mask, env);
      if plain.Failure? {
        return Some(BadFilter(plain.error));
      }
      var chunk := Resized(plain.value, bytes);
      ghost var now := out[..];
      var base := chunks[i].offsets[..|l.dims|];
      ScatterChunk(chunk, l.dims, l.cdims, base, l.es, out);
      if ok {
        OneMoreChunk(l, chunks, i, before, now, out[..], data, chunk);
      }
    }
    failed := None;
  }

  lemma NothingRestored(l: Layout, chunks: seq<ChunkEntry>, before: seq<u8>, data: seq<u8>)
    requires l.Valid() && forall i :: 0 <= i < |chunks| ==> |chunks[i].offsets| >= |l.dims|
    requires |before| == |data|
    ensures RestoredBy(l, chunks, 0, before, before, data)
  {
  }

  lemma CoveredNext(l: Layout, chunks: seq<ChunkEntry>, i: nat, e: nat)
    requires l.Valid() && i < |chunks| && forall k :: 0 <= k < |chunks| ==> |chunks[k].offsets| >= |l.dims|
    ensures Covered(l, chunks, i + 1, e) <==>
            Covered(l, chunks, i, e) || Source(e, chunks[i].offsets[..|l.dims|], l.dims, l.cdims).Some?
  {
    hide Source;
  }

  lemma OneMoreChunk(l: Layout, chunks: seq<ChunkEntry>, i: nat, before: seq<u8>, now: seq<u8>, out: seq<u8>, data: seq<u8>, chunk: seq<u8>)
    requires l.Valid() && i < |chunks| && forall k :: 0 <= k < |chunks| ==> |chunks[k].offsets| >= |l.dims|
    requires RestoredBy(l, chunks, i, before, now, data) && |out| == |now| == Times(Product(l.dims), l.es)
    requires Gathered(chunk, data, chunks[i].offsets[..|l.dims|], l.dims, l.cdims, l.es)
    requires |l.dims| == 0 ==> var n := Min(l.es, Min(|chunk|, |out|)); out[..n] == chunk[..n] && out[n..] == now[n..]
    requires |l.dims| > 0 ==> forall e: nat :: Has(out, e, l.es) ==>
               Elem(out, e, l.es) == Merged(chunk, chunks[i].offsets[..|l.dims|], l.dims, l.cdims, l.es, e, Product(l.cdims), Elem(now, e, l.es))
    ensures RestoredBy(l, chunks, i + 1, before, out, data)
  {
    hide Product, Source, Elem, Merged, Covered, Gathered;
    if |l.dims| == 0 {
      ScalarRestored(l, chunk, out, data, chunks[i].offsets[..0]);
    } else {
      forall e: nat | Has(out, e, l.es)
        ensures Elem(out, e, l.es) == if Covered(l, chunks, i + 1, e) then Elem(data, e, l.es) else Elem(before, e, l.es)
      {
        MergedOfGathered(chunk, data, chunks[i].offsets[..|l.dims|], l.dims, l.cdims, l.es, e, Elem(now, e, l.es));
        CoveredNext(l, chunks, i, e);
      }
    }
  }

  lemma ScalarRestored(l: Layout, chunk: seq<u8>, out: seq<u8>, data: seq<u8>, base: seq<nat>)
    requires l.Valid() && |l.dims| == 0 && |out| == |data| == Times(Product(l.dims), l.es) && base == []
    requires Gathered(chunk, data, base, l.dims, l.cdims, l.es)
    requires var n := Min(l.es, Min(|chunk|, |out|)); out[..n] == chunk[..n]
    ensures out == data
  {
    TimesIsProduct(1, l.es);
    Seqs.TakeAll(out, |data|);
  }

  // ----- the whole trip

  /** Entries in any order, with any repetitions, as long as none is missing. */
  ghost predicate Complete(order: seq<nat>, n: nat) {
    (forall i :: 0 <= i < |order| ==> order[i] < n) && forall j :: 0 <= j < n ==> j in order
  }

  function Ordered(entries: seq<ChunkEntry>, order: seq<nat>): (chunks: seq<ChunkEntry>)
    requires forall i :: 0 <= i < |order| ==> order[i] < |entries|
    ensures |chunks| == |order|
  {
    seq(|order|, i requires 0 <= i < |order| => entries[order[i]])
  }

  /** What is read back: the size of a stored chunk is kept in 32 bits, and what does not fit is lost. */
  ghost function ReadBack(l: Layout, data: seq<u8>): (r: seq<u8>)
    requires l.Valid() && |data| == l.ArrayBytes()
    ensures |r| == |data|
  {
    if l.filters == [] then Returned(data, l.dims, l.cdims, l.es, l.ChunkBytes() % TWO_32, Product(l.dims)) else data
  }

  lemma ReadBackWhole(l: Layout, data: seq<u8>)
    requires l.Valid() && |data| == l.ArrayBytes() && l.StoredBytes() < TWO_32
    ensures ReadBack(l, data) == data
  {
    hide Returned, Product;
    if l.filters == [] {
      DivUnique(l.ChunkBytes(), TWO_32, 0, l.ChunkBytes());
      WholeChunks(l.dims, l.cdims, l.es);
      ReturnedWhole(data, l.dims, l.cdims, l.es, l.ChunkBytes());
    }
  }

  lemma CutStored(l: Layout, stored: seq<u8>, data: seq<u8>, j: nat, env: Pipeline.Env)
    requires l.Valid() && |data| == l.ArrayBytes() && Decodes(l, stored, 0, data, Base(j, l.dims, l.cdims), env)
    requires l.filters != [] ==> |stored| < TWO_32
    ensures Fills(l, stored[..|stored| % TWO_32], 0, ReadBack(l, data), Base(j, l.dims, l.cdims), env)
  {
    hide Returned, Product, Base, Gathered, Pipeline.ReverseMasked;
    GatheredLength(Unfiltered(l, stored, 0, env).value, data, j, l);
    if l.filters == [] {
      CutGathered(stored, data, j, l.dims, l.cdims, l.es, |stored| % TWO_32);
      CutIsResized(stored, |stored| % TWO_32);
    } else {
      DivUnique(|stored|, TWO_32, 0, |stored|);
      Seqs.TakeAll(stored, |stored|);
    }
  }

  lemma CutIsResized(s: seq<u8>, m: nat)
    requires m <= |s|
    ensures Cut(s, m) == Resized(s[..m], |s|)
  {
  }

  lemma GatheredLength(chunk: seq<u8>, data: seq<u8>, j: nat, l: Layout)
    requires l.Valid() && Gathered(chunk, data, Base(j, l.dims, l.cdims), l.dims, l.cdims, l.es)
    ensures |chunk| == l.ChunkBytes()
  {
  }

  lemma EntryReadable(l: Layout, user: seq<u8>, file: seq<u8>, entries: seq<ChunkEntry>, stored: seq<seq<u8>>, data: seq<u8>, env: Pipeline.Env, j: nat)
    requires l.Valid() && |data| == l.ArrayBytes() && Written(l, file, entries, stored) && AllDecode(l, stored, data, env)
    requires j < |entries| && (l.filters != [] ==> |stored[j]| < TWO_32)
    ensures Readable(l, user + file, |user|, entries[j], ReadBack(l, data), env)
    ensures entries[j].offsets == Base(j, l.dims, l.cdims) + [0]
  {
    hide Decodes, Fills, Base, ReadBack, Product;
    var e := entries[j];
    assert EntryWritten(l, file, e, stored[j], j);
    CutStored(l, stored[j], data, j, env);
    Seqs.DropAppended(user, file);
    Seqs.SliceSlice(user + file, |user|, e.addr, e.addr + e.size);
    Shortened(|stored[j]|);
    PrefixOfSlice(file, e.addr, |stored[j]|, e.size);
    Seqs.DropAppended(Base(j, l.dims, l.cdims), [0 as nat]);
  }

  lemma Shortened(n: nat)
    ensures n % TWO_32 <= n
  {
  }

  lemma PrefixOfSlice(s: seq<u8>, at: nat, n: nat, k: nat)
    requires k <= n && at + n <= |s|
    ensures s[at..at + n][..k] == s[at..at + k]
  {
  }

  /** Every element is in the box of one of the chunks. */
  lemma AllCovered(l: Layout, entries: seq<ChunkEntry>, order: seq<nat>, e: nat)
    requires l.Valid() && Complete(order, |entries|) && |entries| == Product(NChunks(l.dims, l.cdims))
    requires forall j :: 0 <= j < |entries| ==> entries[j].offsets == Base(j, l.dims, l.cdims) + [0]
    requires forall j :: 0 <= j < |entries| ==> |entries[j].offsets| >= |l.dims|
    requires e < Product(l.dims)
    ensures Covered(l, Ordered(entries, order), |order|, e)
  {
    hide Coord, Product, Linear, NChunks, Base;
    PositiveProduct(l.dims);
    LinearOfCoord(e, l.dims);
    var j := ChunkOfElement(Coord(e, l.dims), l.dims, l.cdims);
    assert j in order;
    var i :| 0 <= i < |order| && order[i] == j;
    Seqs.DropAppended(Base(j, l.dims, l.cdims), [0 as nat]);
    assert Source(e, Ordered(entries, order)[i].offsets[..|l.dims|], l.dims, l.cdims).Some?;
  }

  lemma EverythingRestored(l: Layout, chunks: seq<ChunkEntry>, before: seq<u8>, out: seq<u8>, data: seq<u8>)
    requires l.Valid() && forall i :: 0 <= i < |chunks| ==> |chunks[i].offsets| >= |l.dims|
    requires |out| == Times(Product(l.dims), l.es) && RestoredBy(l, chunks, |chunks|, before, out, data)
    requires |l.dims| == 0 ==> chunks != []
    requires |l.dims| > 0 ==> forall e: nat :: e < Product(l.dims) ==> Covered(l, chunks, |chunks|, e)
    ensures out == data
  {
    hide Elem, Covered, Product;
    if |l.dims| > 0 {
      SameElems(out, data, Product(l.dims), l.es);
    }
  }

  /** Writing an array as chunks and reading the chunks back in any order, whatever the output held
      before. Chunks over the size limit are refused; with room for their sizes the array is restored,
      and without filters it is always read back as far as chunk sizes are kept. */
  method WriteThenRead(user: seq<u8>, l: Layout, data: seq<u8>, order: seq<nat>, env: Pipeline.Env, out: array<u8>)
    returns (failed: Option<ReadError>)
    requires l.Valid() && Plain(l.filters) && BloscCodec.Inverse(env.enc, env.ext)
    requires |data| == out.Length == l.ArrayBytes() && Complete(order, Product(NChunks(l.dims, l.cdims)))
    modifies out
    ensures l.ChunkBytes() > MAX_CHUNK ==> failed == Some(ChunkTooLarge) && out[..] == old(out[..])
    ensures l.ChunkBytes() <= MAX_CHUNK && (l.filters == [] || l.StoredBytes() < TWO_32) ==> failed == None && out[..] == ReadBack(l, data)
    ensures l.ChunkBytes() <= MAX_CHUNK && l.StoredBytes() < TWO_32 ==> failed == None && out[..] == data
  {
    hide Product, NChunks, RestoredBy, Covered, Readable, AllDecode, Plain, BloscCodec.Inverse, ReadBack, Pipeline.StoredBound;
    var w;
    ghost var stored;
    w, stored := WriteChunks([], l, data, env);
    var (file, entries) := w.value;
    var chunks := Ordered(entries, order);
    OffsetsAreBases(l, file, entries, stored);
    ghost var before := out[..];
    failed := Materialize(user + file, |user|, chunks, l, env, out, ReadBack(l, data));
    if l.ChunkBytes() <= MAX_CHUNK && (l.filters == [] || l.StoredBytes() < TWO_32) {
      OrderedReadable(l, user, file, entries, stored, order, data, env);
      OrderedCovers(l, entries, order);
      EverythingRestored(l, chunks, before, out[..], ReadBack(l, data));
      if l.StoredBytes() < TWO_32 {
        ReadBackWhole(l, data);
      }
    }
  }

  lemma OffsetsAreBases(l: Layout, file: seq<u8>, entries: seq<ChunkEntry>, stored: seq<seq<u8>>)
    requires l.Valid() && Written(l, file, entries, stored)
    ensures forall j :: 0 <= j < |entries| ==> entries[j].offsets == Base(j, l.dims, l.cdims) + [0]
    ensures forall j :: 0 <= j < |entries| ==> |entries[j].offsets| == |l.dims| + 1
  {
    hide Base;
    forall j | 0 <= j < |entries|
      ensures entries[j].offsets == Base(j, l.dims, l.cdims) + [0] && |entries[j].offsets| == |l.dims| + 1
    {
      assert EntryWritten(l, file, entries[j], stored[j], j);
    }
  }

  lemma OrderedReadable(l: Layout, user: seq<u8>, file: seq<u8>, entries: seq<ChunkEntry>, stored: seq<seq<u8>>,
                        order: seq<nat>, data: seq<u8>, env: Pipeline.Env)
    requires l.Valid() && |data| == l.ArrayBytes() && Written(l, file, entries, stored) && AllDecode(l, stored, data, env)
    requires Complete(order, |entries|) && (l.filters != [] ==> AllWithin(stored, TWO_32 - 1))
    ensures forall i :: 0 <= i < |order| ==> Readable(l, user + file, |user|, Ordered(entries, order)[i], ReadBack(l, data), env)
  {
    hide Readable, AllDecode, ReadBack, Product;
    forall i | 0 <= i < |order| ensures Readable(l, user + file, |user|, Ordered(entries, order)[i], ReadBack(l, data), env) {
      EntryReadable(l, user, file, entries, stored, data, env, order[i]);
    }
  }

  lemma OrderedCovers(l: Layout, entries: seq<ChunkEntry>, order: seq<nat>)
    requires l.Valid() && Complete(order, |entries|) && |entries| == Product(NChunks(l.dims, l.cdims))
    requires forall j :: 0 <= j < |entries| ==> entries[j].offsets == Base(j, l.dims, l.cdims) + [0]
    requires forall j :: 0 <= j < |entries| ==> |entries[j].offsets| >= |l.dims|
    ensures |l.dims| == 0 ==> order != []
    ensures forall e: nat :: e < Product(l.dims) ==> Covered(l, Ordered(entries, order), |order|, e)
  {
    hide Covered, Base;
    if |l.dims| == 0 {
      assert 0 in order;
    }
    forall e: nat | e < Product(l.dims) ensures Covered(l, Ordered(entries, order), |order|, e) {
      AllCovered(l, entries, order, e);
    }
  }
}
