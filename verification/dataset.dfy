/** A chunked dataset in a file: its chunks, the tree over them, and the way back. */
module Dataset {
  import opened Wrappers
  import opened Bytes
  import opened BTree
  import opened BTreeBuild
  import opened ChunkGrid
  import opened ChunkIo
  import opened FileWriter
  import opened NdIndex
  import opened TreeBytes
  import opened TreeWriters
  import BloscCodec
  import Pipeline
  import Seqs

  /** What a written dataset leaves in the file, for the proofs. */
  datatype Witness = Witness(entries: seq<ChunkEntry>, stored: seq<seq<u8>>, from: nat, store: Store, t: Tree, height: nat, levels: seq<seq<nat>>)

  function KeysAndAddrs(entries: seq<ChunkEntry>): (s: seq<(ChunkKey, nat)>)
    ensures |s| == |entries|
  {
    seq(|entries|, i requires 0 <= i < |entries| => (ChunkKey(entries[i].size, entries[i].mask, entries[i].offsets), entries[i].addr))
  }

  ghost predicate HasEntries(l: Layout, entries: seq<ChunkEntry>) {
    forall i :: 0 <= i < |entries| ==> |entries[i].offsets| == |l.dims| + 1
  }

  ghost predicate DatasetWritten(l: Layout, buf: seq<u8>, root: nat, x: Witness)
    requires l.Valid()
  {
    && |x.entries| == Product(NChunks(l.dims, l.cdims)) && Written(l, buf, x.entries, x.stored) && HasEntries(l, x.entries)
    && TreeWritten(buf, x.from, root, x.store, x.t, x.height, x.levels,
                   ChunkItems(KeysAndAddrs(x.entries), EndKey(KeysAndAddrs(x.entries), l.cdims, l.es)), ChunkKind(|l.dims|))
  }

  /** Room enough for the chunks and the tree over them. */
  function DatasetRoom(l: Layout): nat
    requires l.Valid()
  {
    var n := Product(NChunks(l.dims, l.cdims));
    Times(n, l.StoredBytes() + 7) + TreeRoom(n, ChunkKind(|l.dims|))
  }

  /** `write_chunks`: every chunk, then the tree; the address of its root. */
  method WriteDataset(w: Writer, l: Layout, data: seq<u8>, env: Pipeline.Env) returns (r: Result<nat, Pipeline.FilterError>, ghost x: Witness)
    requires l.Valid() && BloscCodec.Inverse(env.enc, env.ext)
    modifies w
    ensures |w.buf| >= |old(w.buf)| && w.buf[..|old(w.buf)|] == old(w.buf)
    ensures Plain(l.filters) ==> r.Success?
    ensures r.Success? ==> DatasetWritten(l, w.buf, r.value, x)
    ensures r.Success? && Plain(l.filters) && |data| == l.ArrayBytes() ==> AllDecode(l, x.stored, data, env)
    ensures r.Success? && Plain(l.filters) ==> AllWithin(x.stored, l.StoredBytes()) && |w.buf| <= |old(w.buf)| + DatasetRoom(l)
  {
    hide Product, NChunks, Plain, AllDecode, AllWithin, Written, TreeWritten, BloscCodec.Inverse, TreeRoom, Pipeline.StoredBound;
    var chunks, stored := WriteChunks(w.buf, l, data, env);
    x := Witness([], stored, 0, map[], Tree(0, 0, 0, []), 0, []);
    if chunks.Failure? {
      return Failure(chunks.error), x;
    }
    var (file, entries) := chunks.value;
    w.buf := file;
    EntriesInside(l, file, entries, stored);
    var root, store, t, height, levels := WriteChunkTree(w, KeysAndAddrs(entries), l.cdims, l.es);
    Seqs.TakeTake(w.buf, |file|, |old(w.buf)|);
    WrittenExtends(l, file, w.buf, entries, stored);
    r, x := Success(root), Witness(entries, stored, |file|, store, t, height, levels);
  }

  lemma EntriesInside(l: Layout, file: seq<u8>, entries: seq<ChunkEntry>, stored: seq<seq<u8>>)
    requires l.Valid() && Written(l, file, entries, stored)
    ensures HasEntries(l, entries) && forall i :: 0 <= i < |entries| ==> entries[i].addr <= |file|
  {
    hide Base;
    forall i | 0 <= i < |entries| ensures |entries[i].offsets| == |l.dims| + 1 && entries[i].addr <= |file| {
      assert EntryWritten(l, file, entries[i], stored[i], i);
    }
  }

  // ----- reading

  datatype DatasetError = BadTree | Unreadable(error: ReadError)

  lemma ParsedFieldsFit(s: seq<u8>, rank: nat)
    requires |s| == ChunkKind(rank).keyLen
    ensures ParseKey(s, rank).size < TWO_32 && ParseKey(s, rank).mask < TWO_32
  {
    hide FromLe, ParseOffsets;
    FromLeBound(s[..4]);
    FromLeBound(s[4..8]);
    Pow2Constants();
  }

  /** The entries a walk yields, and how deep the walk may go. */
  method ReadEntryList(file: seq<u8>, base: nat, root: nat, rank: nat, depth: nat) returns (r: Option<seq<ChunkEntry>>)
    ensures r.Some? ==> forall i :: 0 <= i < |r.value| ==> |r.value[i].offsets| == rank + 1
    ensures r.Some? <==> ReadTree(file, base, root, ChunkKind(rank), depth).Some?
    ensures r.Some? ==>
              var raw := ReadTree(file, base, root, ChunkKind(rank), depth).value;
              |r.value| == |raw| && forall i :: 0 <= i < |raw| ==> ParsedFrom(KeysAndAddrs(r.value)[i], raw[i], rank)
  {
    hide ReadTree, ParseKey;
    var list := ReadChunkTree(file, base, root, rank, depth);
    if list.None? {
      return None;
    }
    ghost var raw := ReadTree(file, base, root, ChunkKind(rank), depth).value;
    var entries: seq<ChunkEntry> := [];
    for i := 0 to |list.value|
      invariant |entries| == i && KeysAndAddrs(entries) == list.value[..i]
      invariant forall k :: 0 <= k < i ==> |entries[k].offsets| == rank + 1
    {
      var (key, addr) := list.value[i];
      assert ParsedFrom(list.value[i], raw[i], rank);
      ParsedFieldsFit(raw[i].0, rank);
      entries := entries + [ChunkEntry(key.offsets, key.size, key.mask, addr)];
    }
    Seqs.TakeAll(list.value, |list.value|);
    r := Some(entries);
  }

  method ReadDataset(file: seq<u8>, base: nat, root: nat, l: Layout, depth: nat, env: Pipeline.Env, out: array<u8>, ghost data: seq<u8>, ghost x: Witness)
    returns (failed: Option<DatasetError>)
    requires l.Valid()
    modifies out
    ensures ReadsBack(file, base, root, l, depth, x) && l.ChunkBytes() <= MAX_CHUNK && |data| == out.Length == Times(Product(l.dims), l.es)
            && |x.entries| == Product(NChunks(l.dims, l.cdims)) && BasesOf(l, x.entries)
            && (forall i :: 0 <= i < |x.entries| ==> Readable(l, file, base, x.entries[i], data, env))
            ==> failed == None && out[..] == data
    ensures l.ChunkBytes() > MAX_CHUNK ==> failed.Some? && out[..] == old(out[..])
  {
    hide Product, NChunks, Base, ReadTree, ParseKey, Readable, RestoredBy, Covered, BasesOf;
    var entries := ReadEntryList(file, base, root, |l.dims|, depth);
    if entries.None? {
      return Some(BadTree);
    }
    ghost var before := out[..];
    var error := Materialize(file, base, entries.value, l, env, out, data);
    if error.Some? {
      failed := Some(Unreadable(error.value));
    } else {
      failed := None;
    }
    if ReadsBack(file, base, root, l, depth, x) && |x.entries| == Product(NChunks(l.dims, l.cdims)) && BasesOf(l, x.entries) {
      assert entries.value == x.entries by { SameEntries(entries.value, x.entries); }
      EverythingCovered(l, x.entries);
      if error.None? && RestoredBy(l, x.entries, |x.entries|, before, out[..], data) && |out[..]| == Times(Product(l.dims), l.es) {
        EverythingRestored(l, x.entries, before, out[..], data);
      }
    }
  }

  lemma SameEntries(a: seq<ChunkEntry>, b: seq<ChunkEntry>)
    requires KeysAndAddrs(a) == KeysAndAddrs(b)
    ensures a == b
  {
    forall i | 0 <= i < |a| ensures a[i] == b[i] {
      assert KeysAndAddrs(a)[i] == KeysAndAddrs(b)[i];
    }
  }

  ghost predicate BasesOf(l: Layout, entries: seq<ChunkEntry>)
    requires l.Valid()
  {
    forall j :: 0 <= j < |entries| ==> entries[j].offsets == Base(j, l.dims, l.cdims) + [0] && |entries[j].offsets| == |l.dims| + 1
  }

  /** Whatever parses like the walk's result is the list of entries. */
  ghost predicate ReadsBack(file: seq<u8>, base: nat, root: nat, l: Layout, depth: nat, x: Witness) {
    var raw := ReadTree(file, base, root, ChunkKind(|l.dims|), depth);
    raw.Some? && forall e: seq<ChunkEntry> ::
      |e| == |raw.value| && (forall i :: 0 <= i < |e| ==> ParsedFrom(KeysAndAddrs(e)[i], raw.value[i], |l.dims|)) ==>
        KeysAndAddrs(e) == KeysAndAddrs(x.entries)
  }

  lemma EverythingCovered(l: Layout, entries: seq<ChunkEntry>)
    requires l.Valid() && |entries| == Product(NChunks(l.dims, l.cdims)) && BasesOf(l, entries)
    ensures forall i :: 0 <= i < |entries| ==> |entries[i].offsets| >= |l.dims|
    ensures |l.dims| == 0 ==> entries != []
    ensures forall e: nat :: e < Product(l.dims) ==> Covered(l, entries, |entries|, e)
  {
    hide Product, NChunks, Base, Covered;
    var order: seq<nat> := seq(|entries|, i => i);
    assert Complete(order, |entries|) by {
      forall j | 0 <= j < |entries| ensures j in order {
        assert order[j] == j;
      }
    }
    assert Ordered(entries, order) == entries;
    OrderedCovers(l, entries, order);
  }

  // ----- the whole trip

  lemma {:induction false} BaseBelow(l: Layout, j: nat, i: nat)
    requires l.Valid() && i < |l.dims| && j < Product(NChunks(l.dims, l.cdims))
    ensures Base(j, l.dims, l.cdims)[i] <= l.dims[i]
  {
    hide Product, Coord, NChunks;
    var n := NChunks(l.dims, l.cdims);
    LinearOfCoord(j, n);
    var idx := Coord(j, n)[i];
    assert n[i] == AxisChunks(l.dims[i], l.cdims[i]) by { AxisOf(l, i); }
    LastChunkInside(idx, l.dims[i], l.cdims[i]);
  }

  lemma AxisOf(l: Layout, i: nat)
    requires l.Valid() && i < |l.dims|
    ensures NChunks(l.dims, l.cdims)[i] == AxisChunks(l.dims[i], l.cdims[i])
  {
  }

  lemma LastChunkInside(idx: nat, dim: nat, c: nat)
    requires c > 0 && idx < AxisChunks(dim, c)
    ensures idx * c <= dim
  {
    DivisionFacts(dim + c - 1, c);
    var q := (dim + c - 1) / c;
    if idx > 0 {
      MulMonotone(c, idx, q - 1);
      Distribute(c, q, -1);
    }
    assert idx * c == c * idx;
  }

  lemma OffsetsFit(l: Layout, entries: seq<ChunkEntry>)
    requires l.Valid() && |entries| == Product(NChunks(l.dims, l.cdims)) && BasesOf(l, entries)
    requires forall i :: 0 <= i < |l.dims| ==> l.dims[i] < TWO_64
    ensures EntriesFit(KeysAndAddrs(entries))
  {
    hide Product, NChunks, Base;
    var keys := KeysAndAddrs(entries);
    forall j | 0 <= j < |keys| ensures KeyFits(keys[j].0) {
      forall i | 0 <= i < |entries[j].offsets| ensures entries[j].offsets[i] < TWO_64 {
        if i < |l.dims| {
          BaseBelow(l, j, i);
        }
      }
    }
  }

  /** A written dataset, in a file with anything in front and behind, is read back as its entries. */
  lemma WrittenReadsBack(pre: seq<u8>, buf: seq<u8>, more: seq<u8>, root: nat, l: Layout, x: Witness, depth: nat)
    requires l.Valid() && DatasetWritten(l, buf, root, x) && BasesOf(l, x.entries) && depth > x.height && |buf| < UNDEF
    requires forall i :: 0 <= i < |l.dims| ==> l.dims[i] < TWO_64
    ensures ReadsBack(pre + buf + more, |pre|, root, l, depth, x)
  {
    hide Product, NChunks, Written, TreeWritten, BasesOf, ReadTree, EndKey, EntriesFit, ParsedFrom;
    OffsetsFit(l, x.entries);
    var keys, rank := KeysAndAddrs(x.entries), |l.dims|;
    var end := EndKey(keys, l.cdims, l.es);
    ChunkTreeReads(pre, buf, more, x.from, root, x.store, x.t, x.height, x.levels, keys, end, rank, depth, []);
    var raw := ReadTree(pre + buf + more, |pre|, root, ChunkKind(rank), depth).value;
    forall e: seq<ChunkEntry> | |e| == |raw| && forall i :: 0 <= i < |e| ==> ParsedFrom(KeysAndAddrs(e)[i], raw[i], rank)
      ensures KeysAndAddrs(e) == keys
    {
      ChunkTreeReads(pre, buf, more, x.from, root, x.store, x.t, x.height, x.levels, keys, end, rank, depth, KeysAndAddrs(e));
    }
  }

  lemma WrittenBases(l: Layout, buf: seq<u8>, root: nat, x: Witness)
    requires l.Valid() && DatasetWritten(l, buf, root, x)
    ensures BasesOf(l, x.entries) && (|buf| < UNDEF ==> x.height <= 64)
  {
    hide Base, Product, NChunks, Image, LevelsLinked, FieldsBelow, Holds;
    OffsetsAreBases(l, buf, x.entries, x.stored);
  }

  lemma WrittenReadable(pre: seq<u8>, buf: seq<u8>, more: seq<u8>, l: Layout, x: Witness, data: seq<u8>, env: Pipeline.Env)
    requires l.Valid() && |data| == l.ArrayBytes() && Written(l, buf, x.entries, x.stored) && AllDecode(l, x.stored, data, env)
    requires l.filters != [] ==> AllWithin(x.stored, TWO_32 - 1)
    ensures forall i :: 0 <= i < |x.entries| ==> Readable(l, pre + buf + more, |pre|, x.entries[i], ReadBack(l, data), env)
  {
    hide Readable, AllDecode, ReadBack, Product;
    Seqs.DropAppended(buf, more);
    Seqs.Assoc(pre, buf, more);
    WrittenExtends(l, buf, buf + more, x.entries, x.stored);
    forall i | 0 <= i < |x.entries| ensures Readable(l, pre + buf + more, |pre|, x.entries[i], ReadBack(l, data), env) {
      EntryReadable(l, pre, buf + more, x.entries, x.stored, data, env, i);
    }
  }

  /** Any array, cut and filtered in any of these ways, written behind anything that is in the file and
      read from the root address alone: whatever the output held before, whatever is in front of the
      file's data, and whatever is appended to it later. Chunks over the size limit are refused; with
      room for their sizes the array is restored, and without filters it is always read back as far as
      chunk sizes are kept. */
  method WriteThenReadDataset(w: Writer, l: Layout, data: seq<u8>, pre: seq<u8>, more: seq<u8>, env: Pipeline.Env, out: array<u8>)
    returns (failed: Option<DatasetError>)
    requires l.Valid() && Plain(l.filters) && BloscCodec.Inverse(env.enc, env.ext)
    requires |data| == out.Length == l.ArrayBytes() && forall i :: 0 <= i < |l.dims| ==> l.dims[i] < TWO_64
    modifies w, out
    ensures |old(w.buf)| <= |w.buf| <= |old(w.buf)| + DatasetRoom(l) && w.buf[..|old(w.buf)|] == old(w.buf)
    ensures l.ChunkBytes() > MAX_CHUNK ==> failed.Some? && out[..] == old(out[..])
    ensures l.ChunkBytes() <= MAX_CHUNK && |old(w.buf)| + DatasetRoom(l) < UNDEF && (l.filters == [] || l.StoredBytes() < TWO_32)
            ==> failed == None && out[..] == ReadBack(l, data)
    ensures l.ChunkBytes() <= MAX_CHUNK && |old(w.buf)| + DatasetRoom(l) < UNDEF && l.StoredBytes() < TWO_32
            ==> failed == None && out[..] == data
  {
    hide Product, NChunks, Plain, AllDecode, Written, TreeWritten, BloscCodec.Inverse, ReadsBack, BasesOf, Readable, ReadBack,
         DatasetRoom, Pipeline.StoredBound;
    var root;
    ghost var x;
    ghost var room := |w.buf| + DatasetRoom(l);
    root, x := WriteDataset(w, l, data, env);
    WrittenBases(l, w.buf, root.value, x);
    if room < UNDEF && (l.filters == [] || l.StoredBytes() < TWO_32) {
      WrittenReadsBack(pre, w.buf, more, root.value, l, x, 65);
      WrittenReadable(pre, w.buf, more, l, x, data, env);
      if l.StoredBytes() < TWO_32 {
        ReadBackWhole(l, data);
      }
    }
    failed := ReadDataset(pre + w.buf + more, |pre|, root.value, l, 65, env, out, ReadBack(l, data), x);
  }
}
