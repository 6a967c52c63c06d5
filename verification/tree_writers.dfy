/** The two B-trees of a file: over the chunks of a dataset, and over the symbol nodes of a group. */
module TreeWriters {
  import opened Wrappers
  import opened Bytes
  import opened BTree
  import opened BTreeBuild
  import opened FileWriter
  import opened TreeBytes
  import opened NdIndex
  import opened ChunkGrid
  import Seqs

  const CHUNK_CAP: nat := 64
  const GROUP_CAP: nat := 32

  /** The key of a chunk: stored size, filter mask, and offsets with a 0 for the element. */
  datatype ChunkKey = ChunkKey(size: nat, mask: nat, offsets: seq<nat>)

  function ChunkKind(rank: nat): Kind {
    Kind(1, 8 + (rank + 1) * 8, CHUNK_CAP)
  }

  const GROUP_KIND := Kind(0, 8, GROUP_CAP)

  // ----- keys as bytes

  function OffsetBytes(offsets: seq<nat>): (s: seq<u8>)
    ensures |s| == 8 * |offsets|
  {
    if offsets == [] then [] else Le(offsets[0], 8) + OffsetBytes(offsets[1..])
  }

  function KeyBytes(k: ChunkKey): (s: seq<u8>)
    ensures |s| == 8 + 8 * |k.offsets|
  {
    Le(k.size, 4) + Le(k.mask, 4) + OffsetBytes(k.offsets)
  }

  method EncodeKey(k: ChunkKey) returns (b: seq<u8>)
    ensures b == KeyBytes(k)
  {
    b := Le(k.size, 4) + Le(k.mask, 4);
    ghost var head := b;
    assert k.offsets[0..] == k.offsets;
    for i := 0 to |k.offsets|
      invariant b + OffsetBytes(k.offsets[i..]) == head + OffsetBytes(k.offsets)
    {
      assert k.offsets[i..][1..] == k.offsets[i + 1..];
      Seqs.Assoc(b, Le(k.offsets[i], 8), OffsetBytes(k.offsets[i + 1..]));
      b := b + Le(k.offsets[i], 8);
    }
    Seqs.Empty(b);
  }

  function ParseOffsets(s: seq<u8>, n: nat): (offsets: seq<nat>)
    requires |s| == 8 * n
    ensures |offsets| == n
  {
    if n == 0 then [] else [FromLe(s[..8])] + ParseOffsets(s[8..], n - 1)
  }

  function ParseKey(s: seq<u8>, rank: nat): (k: ChunkKey)
    requires |s| == ChunkKind(rank).keyLen
    ensures |k.offsets| == rank + 1
  {
    ChunkKey(FromLe(s[..4]), FromLe(s[4..8]), ParseOffsets(s[8..], rank + 1))
  }

  /** All fields of the key fit their width. */
  ghost predicate KeyFits(k: ChunkKey) {
    k.size < TWO_32 && k.mask < TWO_32 && forall i :: 0 <= i < |k.offsets| ==> k.offsets[i] < TWO_64
  }

  lemma {:induction false} ParseOfOffsets(offsets: seq<nat>)
    requires forall i :: 0 <= i < |offsets| ==> offsets[i] < TWO_64
    ensures ParseOffsets(OffsetBytes(offsets), |offsets|) == offsets
  {
    hide FromLe, Le;
    if offsets != [] {
      Seqs.DropAppended(Le(offsets[0], 8), OffsetBytes(offsets[1..]));
      EightBytes(offsets[0]);
      ParseOfOffsets(offsets[1..]);
      Seqs.HeadAndTail(offsets);
    }
  }

  lemma ParseOfKey(k: ChunkKey, rank: nat)
    requires KeyFits(k) && |k.offsets| == rank + 1
    ensures ParseKey(KeyBytes(k), rank) == k
  {
    hide Le, FromLe, OffsetBytes, ParseOffsets;
    var size, mask, rest := Le(k.size, 4), Le(k.mask, 4), OffsetBytes(k.offsets);
    Seqs.DropAppended(size + mask, rest);
    Seqs.DropAppended(size, mask);
    KeyParts(size, mask, rest);
    FromLeOfLe(k.size, 4);
    FromLeOfLe(k.mask, 4);
    Pow2Constants();
    ParseOfOffsets(k.offsets);
  }

  lemma KeyParts(size: seq<u8>, mask: seq<u8>, rest: seq<u8>)
    requires |size| == |mask| == 4
    ensures (size + mask + rest)[..4] == size && (size + mask + rest)[4..8] == mask && (size + mask + rest)[8..] == rest
  {
  }

  // ----- a written tree

  /** The nodes of a tree over `items` are in the file, from `from` on. */
  ghost predicate TreeWritten(buf: seq<u8>, from: nat, root: nat, store: Store, t: Tree, height: nat, levels: seq<seq<nat>>,
                              items: seq<Item<Key>>, kind: Kind) {
    && Image(buf, from, store, kind) && LevelsLinked(store, levels) && |levels| == height + 1
    && FieldsBelow(store, height, kind.cap, Max(TWO_64, |buf|)) && (|buf| < TWO_64 ==> height <= 64)
    && root in store
    && if items == [] then store[root].level == 0 && store[root].children == [] && |store[root].keys| == 1
       else t.addr == root && t.lo == 0 && t.hi == |items| && Holds(store, t, height, items, kind.cap)
  }

  /** As long as addresses fit, walking the file from the root gives the list back, whatever is in
      front of the buffer and whatever is appended to it later. */
  lemma TreeReads(pre: seq<u8>, buf: seq<u8>, more: seq<u8>, from: nat, root: nat, store: Store, t: Tree, height: nat, levels: seq<seq<nat>>,
                  items: seq<Item<Key>>, kind: Kind, depth: nat)
    requires TreeWritten(buf, from, root, store, t, height, levels, items, kind)
    requires |buf| < UNDEF && kind.cap < 0x1_0000 && depth > height
    ensures ReadTree(pre + buf + more, |pre|, root, kind, depth) == Some(Entries(items))
  {
    hide Image, Holds, LevelsLinked, ReadTree, Walk;
    AllFieldsFit(store, height, kind.cap);
    if items == [] {
      EmptyWalk(store, root, depth);
    } else {
      WalkHolds(store, t, height, items, kind.cap, depth);
      assert items[0..|items|] == items;
    }
    ReadOfImage(pre, buf, more, from, store, kind, root, depth);
  }

  lemma EmptyWalk(store: Store, root: nat, depth: nat)
    requires root in store && store[root].children == [] && |store[root].keys| == 1 && depth > 0
    ensures Walk(store, root, depth) == Some([])
  {
  }

  lemma AllFieldsFit(store: Store, height: nat, cap: nat)
    requires FieldsBelow(store, height, cap, TWO_64) && height <= 64 && cap < 0x1_0000
    ensures forall a :: a in store ==> FieldsFit(store[a])
  {
    forall a | a in store ensures FieldsFit(store[a]) {
      assert NodeBelow(store[a], height, cap, TWO_64);
    }
  }

  /** An empty list is written as one node without children. */
  method WriteEmpty(w: Writer, key: Key, kind: Kind) returns (root: nat, ghost store: Store)
    requires |key| == kind.keyLen
    modifies w
    ensures |w.buf| >= |old(w.buf)| && w.buf[..|old(w.buf)|] == old(w.buf)
    ensures TreeWritten(w.buf, |old(w.buf)|, root, store, Tree(root, 0, 0, []), 0, [[root]], [], kind)
    ensures |w.buf| <= |old(w.buf)| + TreeRoom(0, kind)
  {
    hide NodeBytes, Kind.Size, KeysOf;
    OneNode(kind);
    ghost var before := w.buf;
    EmptyOk(key, kind);
    root := WriteNode(w, 0, [], key, kind);
    ImageGrows(before, w.buf, |before|, map[], kind, root, NodeOver(0, [], key));
    store := map[][root := NodeOver(0, [], key)];
    EmptyLevels(store, root, key);
  }

  lemma OneNode(kind: Kind)
    ensures kind.Size() + 7 <= TreeRoom(0, kind)
  {
    TimesMonotone(1, 3, kind.Size() + 7);
  }

  lemma EmptyOk(key: Key, kind: Kind)
    requires |key| == kind.keyLen
    ensures NodeOk(NodeOver(0, [], key), kind)
  {
  }

  lemma EmptyLevels(store: Store, root: nat, key: Key)
    requires store == map[root := NodeOver(0, [], key)]
    ensures LevelsLinked(store, [[root]])
  {
    assert LinkedAt(store, [root], 0);
    assert LevelLinked(store, [[root]], 0);
  }

  method WriteTree(w: Writer, items: seq<Item<Key>>, end: Key, kind: Kind)
    returns (root: nat, ghost store: Store, ghost t: Tree, ghost height: nat, ghost levels: seq<seq<nat>>)
    requires Chained(items) && KeysFit(items, kind.keyLen) && |end| == kind.keyLen && kind.cap > 1
    requires forall i :: 0 <= i < |items| ==> items[i].addr <= Max(TWO_64 - 1, |w.buf|)
    modifies w
    ensures |w.buf| >= |old(w.buf)| && w.buf[..|old(w.buf)|] == old(w.buf)
    ensures TreeWritten(w.buf, |old(w.buf)|, root, store, t, height, levels, items, kind)
    ensures |w.buf| <= |old(w.buf)| + TreeRoom(|items|, kind)
  {
    hide TreeRoom, Image, Holds, LevelsLinked, FieldsBelow, KeysFit;
    if items == [] {
      root, store := WriteEmpty(w, end, kind);
      t, height, levels := Tree(root, 0, 0, []), 0, [[root]];
    } else {
      ghost var from, limit := |w.buf|, Max(TWO_64, |w.buf| + 1);
      root, store, t, height, levels := Build(w, items, kind, limit);
      RootStored(store, t, height, items, kind.cap);
      RootBehind(w.buf, from, store, kind, root);
      assert Max(limit, |w.buf|) == Max(TWO_64, |w.buf|);
    }
  }

  lemma RootBehind(buf: seq<u8>, from: nat, store: Store, kind: Kind, root: nat)
    requires Image(buf, from, store, kind) && root in store
    ensures |buf| > from
  {
    hide NodeBytes, NodeOk;
    assert NodeAt(buf, root, store[root], kind);
  }

  lemma {:induction false} RootStored(store: Store, t: Tree, level: nat, items: seq<Item<Key>>, cap: nat)
    requires Holds(store, t, level, items, cap)
    ensures t.addr in store
  {
  }

  // ----- chunk trees

  /** Greater than every chunk: the last chunk's offsets, one chunk further along the first axis. */
  function EndKey(entries: seq<(ChunkKey, nat)>, cdims: seq<nat>, es: nat): (k: ChunkKey)
    requires forall i :: 0 <= i < |entries| ==> |entries[i].0.offsets| == |cdims| + 1
    ensures |k.offsets| == |cdims| + 1
  {
    var last: seq<nat> := if entries == [] then seq(|cdims| + 1, _ => 0) else entries[|entries| - 1].0.offsets;
    var moved := if cdims == [] then last else last[0 := last[0] + cdims[0]];
    ChunkKey(0, 0, moved[|cdims| := es])
  }

  function ChunkItems(entries: seq<(ChunkKey, nat)>, end: ChunkKey): (items: seq<Item<Key>>)
    ensures |items| == |entries| && Chained(items)
  {
    seq(|entries|, i requires 0 <= i < |entries| =>
      Item(KeyBytes(entries[i].0), entries[i].1, KeyBytes(if i + 1 < |entries| then entries[i + 1].0 else end)))
  }

  lemma ChunkItemsFit(entries: seq<(ChunkKey, nat)>, end: ChunkKey, rank: nat)
    requires |end.offsets| == rank + 1 && forall i :: 0 <= i < |entries| ==> |entries[i].0.offsets| == rank + 1
    ensures KeysFit(ChunkItems(entries, end), ChunkKind(rank).keyLen)
  {
    hide KeyBytes;
    var items := ChunkItems(entries, end);
    forall i | 0 <= i < |items| ensures |items[i].first| == ChunkKind(rank).keyLen && |items[i].last| == ChunkKind(rank).keyLen {
    }
  }

  ghost predicate EntriesFit(entries: seq<(ChunkKey, nat)>) {
    forall i :: 0 <= i < |entries| ==> KeyFits(entries[i].0)
  }

  /** Builds the tree over a chunk list. */
  method WriteChunkTree(w: Writer, entries: seq<(ChunkKey, nat)>, cdims: seq<nat>, es: nat)
    returns (root: nat, ghost store: Store, ghost t: Tree, ghost height: nat, ghost levels: seq<seq<nat>>)
    requires forall i :: 0 <= i < |entries| ==> |entries[i].0.offsets| == |cdims| + 1 && entries[i].1 <= Max(TWO_64 - 1, |w.buf|)
    modifies w
    ensures |w.buf| >= |old(w.buf)| && w.buf[..|old(w.buf)|] == old(w.buf)
    ensures TreeWritten(w.buf, |old(w.buf)|, root, store, t, height, levels, ChunkItems(entries, EndKey(entries, cdims, es)), ChunkKind(|cdims|))
    ensures |w.buf| <= |old(w.buf)| + TreeRoom(|entries|, ChunkKind(|cdims|))
  {
    hide KeyBytes, TreeWritten, Chained, TreeRoom;
    var end := EndKey(entries, cdims, es);
    var items: seq<Item<Key>> := [];
    for i := 0 to |entries|
      invariant items == ChunkItems(entries, end)[..i] && w.buf == old(w.buf)
    {
      var first := EncodeKey(entries[i].0);
      var last := EncodeKey(if i + 1 < |entries| then entries[i + 1].0 else end);
      items := items + [Item(first, entries[i].1, last)];
    }
    Seqs.TakeAll(ChunkItems(entries, end), |entries|);
    ChunkItemsFit(entries, end, |cdims|);
    var endKey := EncodeKey(end);
    root, store, t, height, levels := WriteTree(w, items, endKey, ChunkKind(|cdims|));
  }

  /** `walk_chunk_btree`: keys and addresses of the chunks. */
  method ReadChunkTree(data: seq<u8>, base: nat, addr: nat, rank: nat, depth: nat) returns (r: Option<seq<(ChunkKey, nat)>>)
    ensures r.Some? <==> ReadTree(data, base, addr, ChunkKind(rank), depth).Some?
    ensures r.Some? ==>
              var raw := ReadTree(data, base, addr, ChunkKind(rank), depth).value;
              |r.value| == |raw| && forall i :: 0 <= i < |raw| ==> ParsedFrom(r.value[i], raw[i], rank)
  {
    hide ReadTree, ParseKey;
    var raw := WalkTree(data, base, addr, ChunkKind(rank), depth, []);
    if raw.None? {
      return None;
    }
    Seqs.Empty(ReadTree(data, base, addr, ChunkKind(rank), depth).value);
    ReadKeyLengths(data, base, addr, ChunkKind(rank), depth);
    var out := [];
    for i := 0 to |raw.value|
      invariant |out| == i && forall k :: 0 <= k < i ==> ParsedFrom(out[k], raw.value[k], rank)
    {
      out := out + [(ParseKey(raw.value[i].0, rank), raw.value[i].1)];
    }
    r := Some(out);
  }

  ghost predicate ParsedFrom(e: (ChunkKey, nat), raw: (Key, nat), rank: nat) {
    |raw.0| == ChunkKind(rank).keyLen && e == (ParseKey(raw.0, rank), raw.1)
  }

  lemma {:induction false} ReadKeyLengths(data: seq<u8>, base: nat, addr: nat, kind: Kind, depth: nat)
    requires ReadTree(data, base, addr, kind, depth).Some?
    ensures forall i :: 0 <= i < |ReadTree(data, base, addr, kind, depth).value| ==> |ReadTree(data, base, addr, kind, depth).value[i].0| == kind.keyLen
    decreases depth, 1
  {
    hide FromLe, ReadEntries;
    if addr != UNDEF {
      var at := base + addr;
      EntryKeyLengths(data, base, at + 24, kind, FromLe(data[at + 5..at + 6]), FromLe(data[at + 6..at + 8]), depth);
    }
  }

  lemma {:induction false} EntryKeyLengths(data: seq<u8>, base: nat, at: nat, kind: Kind, level: nat, n: nat, depth: nat)
    requires depth > 0 && ReadEntries(data, base, at, kind, level, n, depth).Some?
    ensures forall i :: 0 <= i < |ReadEntries(data, base, at, kind, level, n, depth).value| ==>
              |ReadEntries(data, base, at, kind, level, n, depth).value[i].0| == kind.keyLen
    decreases depth, 0, n
  {
    hide FromLe, ReadTree;
    if n > 0 {
      EntryKeyLengths(data, base, at, kind, level, n - 1, depth);
      var p := at + Times(n - 1, kind.Step());
      if level > 0 {
        ReadKeyLengths(data, base, FromLe(data[p + kind.keyLen..p + kind.Step()]), kind, depth - 1);
      }
    }
  }

  /** Reading a written chunk tree gives the chunk list back. */
  lemma ChunkTreeReads(pre: seq<u8>, buf: seq<u8>, more: seq<u8>, from: nat, root: nat, store: Store, t: Tree, height: nat, levels: seq<seq<nat>>,
                       entries: seq<(ChunkKey, nat)>, end: ChunkKey, rank: nat, depth: nat, e: seq<(ChunkKey, nat)>)
    requires TreeWritten(buf, from, root, store, t, height, levels, ChunkItems(entries, end), ChunkKind(rank))
    requires |buf| < UNDEF && depth > height && EntriesFit(entries)
    requires forall i :: 0 <= i < |entries| ==> |entries[i].0.offsets| == rank + 1
    ensures ReadTree(pre + buf + more, |pre|, root, ChunkKind(rank), depth).Some?
    ensures var raw := ReadTree(pre + buf + more, |pre|, root, ChunkKind(rank), depth).value;
            |e| == |raw| && (forall i :: 0 <= i < |raw| ==> ParsedFrom(e[i], raw[i], rank)) ==> e == entries
  {
    hide KeyBytes, ParseKey, ReadTree, TreeWritten, KeyFits;
    var items := ChunkItems(entries, end);
    TreeReads(pre, buf, more, from, root, store, t, height, levels, items, ChunkKind(rank), depth);
    var raw := Entries(items);
    if |e| == |raw| && forall i :: 0 <= i < |raw| ==> ParsedFrom(e[i], raw[i], rank) {
      forall i | 0 <= i < |e| ensures e[i] == entries[i] {
        assert ParsedFrom(e[i], raw[i], rank);
        ParseOfKey(entries[i].0, rank);
      }
    }
  }

  // ----- order of the keys

  lemma {:induction false} ScaledKeepsOrder(a: seq<nat>, b: seq<nat>, cdims: seq<nat>, x: nat, y: nat)
    requires |a| == |b| == |cdims| && Positive(cdims) && LexLess(a, b)
    ensures LexLess(Scaled(a, cdims) + [x], Scaled(b, cdims) + [y])
  {
    var sa, sb := Scaled(a, cdims) + [x], Scaled(b, cdims) + [y];
    assert sa[0] == a[0] * cdims[0] && sb[0] == b[0] * cdims[0];
    if a[0] < b[0] {
      MulMonotone(cdims[0], a[0] + 1, b[0]);
      Distribute(cdims[0], a[0], 1);
    } else {
      ScaledKeepsOrder(a[1..], b[1..], cdims[1..], x, y);
      ScaledTail(a, cdims, x);
      ScaledTail(b, cdims, y);
    }
  }

  lemma ScaledTail(a: seq<nat>, cdims: seq<nat>, x: nat)
    requires |a| == |cdims| > 0
    ensures (Scaled(a, cdims) + [x])[1..] == Scaled(a[1..], cdims[1..]) + [x]
  {
  }

  /** The entries of a dataset's chunks, as they are written. */
  ghost predicate GridEntries(entries: seq<(ChunkKey, nat)>, dims: seq<nat>, cdims: seq<nat>) {
    && |dims| == |cdims| && Positive(cdims) && |entries| == Product(NChunks(dims, cdims))
    && forall j :: 0 <= j < |entries| ==> entries[j].0.offsets == Base(j, dims, cdims) + [0]
  }

  lemma OffsetsIncrease(entries: seq<(ChunkKey, nat)>, dims: seq<nat>, cdims: seq<nat>, i: nat, j: nat)
    requires GridEntries(entries, dims, cdims) && i < j < |entries|
    ensures LexLess(entries[i].0.offsets, entries[j].0.offsets)
  {
    hide Product, Coord, Linear, NChunks, LexLess, Scaled;
    var n := NChunks(dims, cdims);
    LinearOfCoord(i, n);
    LinearOfCoord(j, n);
    LinearIsLexicographic(Coord(i, n), Coord(j, n), n);
    ScaledKeepsOrder(Coord(i, n), Coord(j, n), cdims, 0, 0);
  }

  /** The first axis of the chunk index is greatest for the last chunk. */
  lemma LastChunkFurthest(i: nat, last: nat, n: seq<nat>)
    requires Positive(n) && n != [] && i <= last < Product(n)
    ensures Coord(i, n)[0] <= Coord(last, n)[0]
  {
    LinearOfCoord(i, n);
    LinearOfCoord(last, n);
    if i < last {
      LinearIsLexicographic(Coord(i, n), Coord(last, n), n);
    }
  }

  lemma EndIsGreatest(entries: seq<(ChunkKey, nat)>, dims: seq<nat>, cdims: seq<nat>, es: nat, i: nat)
    requires GridEntries(entries, dims, cdims) && i < |entries| && es > 0
    ensures forall j :: 0 <= j < |entries| ==> |entries[j].0.offsets| == |cdims| + 1
    ensures LexLess(entries[i].0.offsets, EndKey(entries, cdims, es).offsets)
  {
    hide Product, Coord, NChunks;
    var n, last := NChunks(dims, cdims), |entries| - 1;
    forall j | 0 <= j < |entries| ensures |entries[j].0.offsets| == |cdims| + 1 {
      assert entries[j].0.offsets == Base(j, dims, cdims) + [0];
    }
    if cdims != [] {
      LastChunkFurthest(i, last, n);
      MulMonotone(cdims[0], Coord(i, n)[0], Coord(last, n)[0]);
      assert entries[i].0.offsets[0] == Coord(i, n)[0] * cdims[0];
      assert entries[last].0.offsets[0] == Coord(last, n)[0] * cdims[0];
    }
  }

  /** The list elements under child i of a node. */
  function ChildRange(t: Tree, level: nat, i: nat): (r: (nat, nat))
    requires if level == 0 then t.lo + i < t.hi else i < |t.kids|
  {
    if level == 0 then (t.lo + i, t.lo + i + 1) else (t.kids[i].lo, t.kids[i].hi)
  }

  lemma {:induction false} ChildKeys(store: Store, t: Tree, level: nat, items: seq<Item<Key>>, cap: nat, i: nat)
    requires Holds(store, t, level, items, cap) && i < |store[t.addr].children|
    ensures if level == 0 then t.lo + i < t.hi else i < |t.kids|
    ensures t.addr in store && |store[t.addr].children| <= cap
    ensures var (lo, hi) := ChildRange(t, level, i);
            && lo < hi <= |items| && |store[t.addr].keys| == |store[t.addr].children| + 1
            && (Chained(items) ==> store[t.addr].keys[i] == items[lo].first && store[t.addr].keys[i + 1] == items[hi - 1].last)
  {
    if level > 0 {
      assert KidHolds(store, t, i, level, items, cap);
    } else {
      var grp := items[t.lo..t.hi];
      if Chained(items) {
        assert Chained(grp);
        assert i + 1 < |grp| ==> grp[i].last == grp[i + 1].first;
      }
    }
  }

  /** In every node of a chunk tree, the chunks under child i lie between key i and key i + 1. */
  lemma {:induction false} KeysBracketChunks(store: Store, t: Tree, level: nat, entries: seq<(ChunkKey, nat)>, dims: seq<nat>, cdims: seq<nat>, es: nat, i: nat, m: nat)
    requires GridEntries(entries, dims, cdims) && es > 0 && EntriesFit(entries)
    requires forall j :: 0 <= j < |entries| ==> |entries[j].0.offsets| == |cdims| + 1
    requires KeyFits(EndKey(entries, cdims, es))
    requires Holds(store, t, level, ChunkItems(entries, EndKey(entries, cdims, es)), CHUNK_CAP) && i < |store[t.addr].children|
    requires if level == 0 then t.lo + i < t.hi else i < |t.kids|
    requires ChildRange(t, level, i).0 <= m < ChildRange(t, level, i).1
    ensures |store[t.addr].children| <= CHUNK_CAP && m < |entries| && i + 1 < |store[t.addr].keys|
    ensures var (low, high) := (store[t.addr].keys[i], store[t.addr].keys[i + 1]);
            && |low| == |high| == ChunkKind(|cdims|).keyLen
            && (ParseKey(low, |cdims|).offsets == entries[m].0.offsets || LexLess(ParseKey(low, |cdims|).offsets, entries[m].0.offsets))
            && LexLess(entries[m].0.offsets, ParseKey(high, |cdims|).offsets)
  {
    hide LexLess, EndKey, GridEntries, KeyBytes, ParseKey, KeyFits, Holds, ChildRange, ChunkItems;
    var end := EndKey(entries, cdims, es);
    var items := ChunkItems(entries, end);
    ChildKeys(store, t, level, items, CHUNK_CAP, i);
    var (lo, hi) := ChildRange(t, level, i);
    ItemKeys(entries, end, |cdims|, lo);
    ItemKeys(entries, end, |cdims|, hi - 1);
    if lo < m {
      OffsetsIncrease(entries, dims, cdims, lo, m);
    }
    if hi < |entries| {
      OffsetsIncrease(entries, dims, cdims, m, hi);
    } else {
      EndIsGreatest(entries, dims, cdims, es, m);
    }
  }

  lemma ItemKeys(entries: seq<(ChunkKey, nat)>, end: ChunkKey, rank: nat, i: nat)
    requires EntriesFit(entries) && KeyFits(end) && i < |entries| && |end.offsets| == rank + 1
    requires forall j :: 0 <= j < |entries| ==> |entries[j].0.offsets| == rank + 1
    ensures |ChunkItems(entries, end)[i].first| == |ChunkItems(entries, end)[i].last| == ChunkKind(rank).keyLen
    ensures ParseKey(ChunkItems(entries, end)[i].first, rank) == entries[i].0
    ensures ParseKey(ChunkItems(entries, end)[i].last, rank) == if i + 1 < |entries| then entries[i + 1].0 else end
  {
    hide KeyBytes, ParseKey, KeyFits;
    ParseOfKey(entries[i].0, rank);
    ParseOfKey(if i + 1 < |entries| then entries[i + 1].0 else end, rank);
  }

  // ----- group trees

  /** Symbol nodes in order, each with the heap offset of its greatest name. */
  function GroupItems(snods: seq<(nat, nat)>): (items: seq<Item<Key>>)
    ensures |items| == |snods| && Chained(items)
  {
    seq(|snods|, i requires 0 <= i < |snods| => Item(Le(if i == 0 then 0 else snods[i - 1].0, 8), snods[i].1, Le(snods[i].0, 8)))
  }

  /** Builds the tree over the symbol nodes of a group. */
  method WriteGroupTree(w: Writer, snods: seq<(nat, nat)>)
    returns (root: nat, ghost store: Store, ghost t: Tree, ghost height: nat, ghost levels: seq<seq<nat>>)
    requires forall i :: 0 <= i < |snods| ==> snods[i].1 <= Max(TWO_64 - 1, |w.buf|)
    modifies w
    ensures |w.buf| >= |old(w.buf)| && w.buf[..|old(w.buf)|] == old(w.buf)
    ensures TreeWritten(w.buf, |old(w.buf)|, root, store, t, height, levels, GroupItems(snods), GROUP_KIND)
    ensures |w.buf| <= |old(w.buf)| + TreeRoom(|snods|, GROUP_KIND)
  {
    hide TreeWritten, Le, Chained;
    var items: seq<Item<Key>> := [];
    var prev := Le(0, 8);
    for i := 0 to |snods|
      invariant items == GroupItems(snods)[..i] && prev == Le(if i == 0 then 0 else snods[i - 1].0, 8)
    {
      items := items + [Item(prev, snods[i].1, Le(snods[i].0, 8))];
      prev := Le(snods[i].0, 8);
    }
    Seqs.TakeAll(GroupItems(snods), |snods|);
    GroupItemsFit(snods);
    root, store, t, height, levels := WriteTree(w, items, Le(0, 8), GROUP_KIND);
  }

  lemma GroupItemsFit(snods: seq<(nat, nat)>)
    ensures KeysFit(GroupItems(snods), 8)
  {
    hide Le;
    var items := GroupItems(snods);
    forall i | 0 <= i < |items| ensures |items[i].first| == 8 && |items[i].last| == 8 {
    }
  }

  function Children(entries: seq<(Key, nat)>): (s: seq<nat>)
    ensures |s| == |entries|
  {
    seq(|entries|, i requires 0 <= i < |entries| => entries[i].1)
  }

  function Second(pairs: seq<(nat, nat)>): (s: seq<nat>)
    ensures |s| == |pairs|
  {
    seq(|pairs|, i requires 0 <= i < |pairs| => pairs[i].1)
  }

  /** `walk_group_btree`: the symbol nodes. */
  method ReadGroupTree(data: seq<u8>, base: nat, addr: nat, depth: nat) returns (r: Option<seq<nat>>)
    ensures r == match ReadTree(data, base, addr, GROUP_KIND, depth) case None => None case Some(raw) => Some(Children(raw))
  {
    hide ReadTree;
    var raw := WalkTree(data, base, addr, GROUP_KIND, depth, []);
    if raw.None? {
      return None;
    }
    Seqs.Empty(ReadTree(data, base, addr, GROUP_KIND, depth).value);
    r := Some(Children(raw.value));
  }

  /** Reading a written group tree gives the symbol nodes back, in order. */
  lemma GroupTreeReads(pre: seq<u8>, buf: seq<u8>, more: seq<u8>, from: nat, root: nat, store: Store, t: Tree, height: nat, levels: seq<seq<nat>>,
                       snods: seq<(nat, nat)>, depth: nat)
    requires TreeWritten(buf, from, root, store, t, height, levels, GroupItems(snods), GROUP_KIND)
    requires |buf| < UNDEF && depth > height
    ensures ReadTree(pre + buf + more, |pre|, root, GROUP_KIND, depth).Some?
    ensures Children(ReadTree(pre + buf + more, |pre|, root, GROUP_KIND, depth).value) == Second(snods)
  {
    hide ReadTree, TreeWritten, Le;
    TreeReads(pre, buf, more, from, root, store, t, height, levels, GroupItems(snods), GROUP_KIND, depth);
    assert Children(Entries(GroupItems(snods))) == Second(snods);
  }
}
