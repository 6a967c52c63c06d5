/** `write_fractal_heap`: filling direct blocks, and writing them with their index. */
module HeapWriter {
  import opened Wrappers
  import opened Bytes
  import opened DTable
  import opened FractalHeap
  import opened HeapAlloc
  import opened HeapHeader
  import opened HeapLayout
  import FileBuf
  import Seqs
  import V2Tree

  // ----- filling blocks

  function BumpOf(dblocks: seq<DBlock>): Bump {
    Bump(|dblocks|, if dblocks == [] then 0 else |dblocks[|dblocks| - 1].data|)
  }

  /** Managed object i lies where the allocator puts it, and its identifier says so. */
  ghost predicate ObjectPlaced(objects: seq<seq<u8>>, i: nat, dblocks: seq<DBlock>, id: seq<u8>, offSize: nat, idLen: nat)
    requires i < |objects| && 3 + offSize <= idLen
  {
    var (k, p) := PlaceOf(objects, i, 13 + offSize);
    && 13 + offSize <= p && OffsetOf(objects, i, 13 + offSize) >= 0 && Stored(dblocks, objects[i], k, p)
    && id == ManagedId(OffsetOf(objects, i, 13 + offSize), |objects[i]|, offSize, idLen)
  }

  ghost predicate ObjectsPlaced(objects: seq<seq<u8>>, n: nat, dblocks: seq<DBlock>, ids: seq<seq<u8>>, offSize: nat, idLen: nat)
    requires 3 + offSize <= idLen && n <= |objects|
  {
    |ids| == |objects| && forall i :: 0 <= i < n && |objects[i]| <= MAX_MANAGED ==> ObjectPlaced(objects, i, dblocks, ids[i], offSize, idLen)
  }

  /** Later blocks, and more data at the end of blocks, leave what is stored in place. */
  ghost predicate Extends(before: seq<DBlock>, after: seq<DBlock>) {
    |before| <= |after| && forall k :: 0 <= k < |before| ==>
      |before[k].data| <= |after[k].data| && after[k].data[..|before[k].data|] == before[k].data
  }

  lemma StoredStays(before: seq<DBlock>, after: seq<DBlock>, obj: seq<u8>, k: nat, p: nat)
    requires Extends(before, after) && Stored(before, obj, k, p)
    ensures Stored(after, obj, k, p)
  {
    Seqs.SliceOfTake(after[k].data, |before[k].data|, p, p + |obj|);
  }

  lemma PlacedStay(objects: seq<seq<u8>>, n: nat, before: seq<DBlock>, after: seq<DBlock>, ids: seq<seq<u8>>, offSize: nat, idLen: nat)
    requires 3 + offSize <= idLen && n <= |objects|
    requires ObjectsPlaced(objects, n, before, ids, offSize, idLen) && Extends(before, after)
    ensures ObjectsPlaced(objects, n, after, ids, offSize, idLen)
  {
    hide PlaceOf, OffsetOf, Stored, Extends, ManagedId;
    forall i | 0 <= i < n && |objects[i]| <= MAX_MANAGED
      ensures ObjectPlaced(objects, i, after, ids[i], offSize, idLen)
    {
      assert ObjectPlaced(objects, i, before, ids[i], offSize, idLen);
      StoredStays(before, after, objects[i], PlaceOf(objects, i, 13 + offSize).0, PlaceOf(objects, i, 13 + offSize).1);
    }
  }

  /** Adds blocks until the object fits the last one. */
  method MakeRoom(dblocks: seq<DBlock>, len: nat, prefix: nat) returns (r: Option<seq<DBlock>>)
    requires BlocksOk(dblocks, prefix) && prefix <= 1024
    ensures r.None? <==> Fit(BumpOf(dblocks), len, prefix).None?
    ensures r.Some? ==> BlocksOk(r.value, prefix) && Extends(dblocks, r.value) && Fit(BumpOf(dblocks), len, prefix) == Some(BumpOf(r.value))
    ensures r.Some? ==> r.value != [] && |r.value[|r.value| - 1].data| + len <= r.value[|r.value| - 1].size
  {
    hide BlocksOk, Extends, Fit, BumpOf;
    var blocks := dblocks;
    ExtendsItself(dblocks, prefix);
    while !(blocks != [] && |blocks[|blocks| - 1].data| + len <= blocks[|blocks| - 1].size)
      invariant BlocksOk(blocks, prefix) && Extends(dblocks, blocks) && |blocks| <= MAX_SLOTS
      invariant Fit(BumpOf(blocks), len, prefix) == Fit(BumpOf(dblocks), len, prefix)
      decreases MAX_SLOTS - |blocks|
    {
      var b := NewBlock(|blocks|, prefix);
      FitStep(blocks, len, prefix);
      if b.None? {
        return None;
      }
      BlockAdded(dblocks, blocks, b.value, prefix);
      blocks := blocks + [b.value];
    }
    FitDone(blocks, len, prefix);
    r := Some(blocks);
  }

  /** The block of the next slot, unless it would be larger than a direct block may be. */
  method NewBlock(slot: nat, prefix: nat) returns (b: Option<DBlock>)
    ensures b == if SlotSize(slot) > MAX_DIRECT then None else Some(DBlock(SlotOff(slot), SlotSize(slot), Zeroed(prefix)))
  {
    var off := RowColOffset(TABLE, slot / WIDTH, slot % WIDTH);
    var size := TABLE.RowSize(slot / WIDTH);
    SlotDefinition(slot);
    b := if size > MAX_DIRECT then None else Some(DBlock(off, size, Zeroed(prefix)));
  }

  lemma FitStep(blocks: seq<DBlock>, len: nat, prefix: nat)
    requires BlocksOk(blocks, prefix) && !(blocks != [] && |blocks[|blocks| - 1].data| + len <= blocks[|blocks| - 1].size)
    ensures |blocks| < MAX_SLOTS <==> SlotSize(|blocks|) <= MAX_DIRECT
    ensures Fit(BumpOf(blocks), len, prefix) ==
            if SlotSize(|blocks|) > MAX_DIRECT then None else Fit(Bump(|blocks| + 1, prefix), len, prefix)
  {
    hide SlotOff, SlotSize;
    SlotSizes(|blocks|);
  }

  lemma FitDone(blocks: seq<DBlock>, len: nat, prefix: nat)
    requires BlocksOk(blocks, prefix) && blocks != [] && |blocks[|blocks| - 1].data| + len <= blocks[|blocks| - 1].size
    ensures Fit(BumpOf(blocks), len, prefix) == Some(BumpOf(blocks))
  {
    hide SlotOff, SlotSize;
  }

  lemma ExtendsItself(dblocks: seq<DBlock>, prefix: nat)
    requires BlocksOk(dblocks, prefix)
    ensures Extends(dblocks, dblocks) && |dblocks| <= MAX_SLOTS
  {
  }

  lemma BlockAdded(start: seq<DBlock>, blocks: seq<DBlock>, b: DBlock, prefix: nat)
    requires BlocksOk(blocks, prefix) && Extends(start, blocks) && |blocks| < MAX_SLOTS && prefix <= 1024
    requires b == DBlock(SlotOff(|blocks|), SlotSize(|blocks|), Zeroed(prefix))
    ensures BlocksOk(blocks + [b], prefix) && Extends(start, blocks + [b]) && BumpOf(blocks + [b]) == Bump(|blocks| + 1, prefix)
  {
    hide SlotOff, SlotSize;
    SlotSizes(|blocks|);
  }

  lemma SlotDefinition(s: nat)
    ensures SlotOff(s) == TABLE.Offset(s / WIDTH, s % WIDTH) && SlotSize(s) == TABLE.RowSize(s / WIDTH)
  {
  }

  /** Puts an object at the end of the last block. */
  method PutObject(dblocks: seq<DBlock>, obj: seq<u8>, prefix: nat) returns (r: seq<DBlock>)
    requires BlocksOk(dblocks, prefix) && dblocks != []
    requires |dblocks[|dblocks| - 1].data| + |obj| <= dblocks[|dblocks| - 1].size
    ensures BlocksOk(r, prefix) && Extends(dblocks, r) && |r| == |dblocks|
    ensures BumpOf(r) == Bump(|dblocks|, BumpOf(dblocks).used + |obj|)
    ensures Stored(r, obj, |dblocks| - 1, BumpOf(dblocks).used)
  {
    hide SlotOff, SlotSize;
    var last := |dblocks| - 1;
    var b := dblocks[last];
    Seqs.DropAppended(b.data, obj);
    r := dblocks[last := b.(data := b.data + obj)];
    assert (b.data + obj)[|b.data|..|b.data| + |obj|] == obj;
  }

  /** One managed object: room, data, identifier. */
  method AddObject(objects: seq<seq<u8>>, i: nat, dblocks: seq<DBlock>, ghost ids: seq<seq<u8>>, offSize: nat, idLen: nat)
    returns (r: Option<(seq<DBlock>, seq<u8>)>)
    requires i < |objects| && |objects[i]| <= MAX_MANAGED && 3 <= offSize <= 8 && 3 + offSize <= idLen
    requires BlocksOk(dblocks, 13 + offSize) && Alloc(objects[..i], 13 + offSize) == Some(BumpOf(dblocks))
    ensures r.None? <==> Alloc(objects[..i + 1], 13 + offSize).None?
    ensures r.Some? ==>
              var (after, id) := r.value;
              && BlocksOk(after, 13 + offSize) && Extends(dblocks, after)
              && Alloc(objects[..i + 1], 13 + offSize) == Some(BumpOf(after))
              && ObjectPlaced(objects, i, after, id, offSize, idLen)
  {
    hide SlotOff, SlotSize, Fit, BlocksOk, Extends;
    var prefix := 13 + offSize;
    NextAlloc(objects, i, prefix);
    var room := MakeRoom(dblocks, |objects[i]|, prefix);
    if room.None? {
      return None;
    }
    var b := room.value[|room.value| - 1];
    LastBlock(room.value, prefix);
    var heapOff := b.off + |b.data|;
    var after := PutObject(room.value, objects[i], prefix);
    ExtendsTwice(dblocks, room.value, after);
    r := Some((after, ManagedId(heapOff, |objects[i]|, offSize, idLen)));
  }

  lemma LastBlock(dblocks: seq<DBlock>, prefix: nat)
    requires BlocksOk(dblocks, prefix) && dblocks != []
    ensures dblocks[|dblocks| - 1].off == SlotOff(|dblocks| - 1) && |dblocks[|dblocks| - 1].data| >= prefix
  {
    hide SlotOff, SlotSize;
  }

  lemma ExtendsTwice(a: seq<DBlock>, b: seq<DBlock>, c: seq<DBlock>)
    requires Extends(a, b) && Extends(b, c)
    ensures Extends(a, c)
  {
    forall k | 0 <= k < |a|
      ensures |a[k].data| <= |c[k].data| && c[k].data[..|a[k].data|] == a[k].data
    {
      Seqs.TakeTake(c[k].data, |b[k].data|, |a[k].data|);
    }
  }

  lemma NextAlloc(objects: seq<seq<u8>>, i: nat, prefix: nat)
    requires i < |objects| && Alloc(objects[..i], prefix).Some?
    ensures var b, len := Alloc(objects[..i], prefix).value, |objects[i]|;
            Alloc(objects[..i + 1], prefix) ==
            if len > MAX_MANAGED then Some(b)
            else match Fit(b, len, prefix) case None => None case Some(f) => Some(Bump(f.slots, f.used + len))
  {
    hide Fit;
    var upto := objects[..i + 1];
    assert upto[..|upto| - 1] == objects[..i] && upto[|upto| - 1] == objects[i];
  }

  lemma NextHuge(objects: seq<seq<u8>>, i: nat)
    requires i < |objects|
    ensures HugeIndices(objects[..i + 1]) == if |objects[i]| > MAX_MANAGED then HugeIndices(objects[..i]) + [i] else HugeIndices(objects[..i])
  {
    var upto := objects[..i + 1];
    assert upto[..|upto| - 1] == objects[..i] && upto[|upto| - 1] == objects[i];
  }

  lemma {:induction false} AllocPrefixFails(objects: seq<seq<u8>>, i: nat, prefix: nat)
    requires i <= |objects| && Alloc(objects[..i], prefix).None?
    ensures Alloc(objects, prefix).None?
  {
    if i == |objects| {
      Seqs.TakeAll(objects, i);
    } else {
      var init := objects[..|objects| - 1];
      Seqs.TakeTake(objects, |objects| - 1, i);
      AllocPrefixFails(init, i, prefix);
    }
  }

  method Allocate(objects: seq<seq<u8>>, offSize: nat, idLen: nat)
    returns (r: Option<(seq<DBlock>, seq<seq<u8>>, seq<nat>)>)
    requires 3 <= offSize <= 8 && 3 + offSize <= idLen
    ensures r.None? <==> Alloc(objects, 13 + offSize).None?
    ensures r.Some? ==>
              var (dblocks, ids, huge) := r.value;
              && BlocksOk(dblocks, 13 + offSize) && Alloc(objects, 13 + offSize) == Some(BumpOf(dblocks))
              && ObjectsPlaced(objects, |objects|, dblocks, ids, offSize, idLen) && huge == HugeIndices(objects)
  {
    hide Fit, BlocksOk, Extends, ObjectPlaced, ObjectsPlaced, HugeIndices, Alloc, BumpOf;
    var dblocks: seq<DBlock>, huge: seq<nat> := [], [];
    var ids := seq(|objects|, _ => Zeroed(idLen));
    NothingAllocated(13 + offSize);
    NothingPlaced(objects, ids, offSize, idLen);
    assert objects[..0] == [];
    for i := 0 to |objects|
      invariant BlocksOk(dblocks, 13 + offSize) && Alloc(objects[..i], 13 + offSize) == Some(BumpOf(dblocks))
      invariant ObjectsPlaced(objects, i, dblocks, ids, offSize, idLen)
      invariant huge == HugeIndices(objects[..i])
    {
      NextHuge(objects, i);
      if |objects[i]| > MAX_MANAGED {
        NextAlloc(objects, i, 13 + offSize);
        HugeNotPlaced(objects, i, dblocks, ids, offSize, idLen);
        huge := huge + [i];
      } else {
        var added := AddObject(objects, i, dblocks, ids, offSize, idLen);
        if added.None? {
          AllocPrefixFails(objects, i + 1, 13 + offSize);
          return None;
        }
        PlacedStay(objects, i, dblocks, added.value.0, ids, offSize, idLen);
        OneMorePlaced(objects, i, added.value.0, ids, added.value.1, offSize, idLen);
        dblocks := added.value.0;
        ids := ids[i := added.value.1];
      }
    }
    Seqs.TakeAll(objects, |objects|);
    r := Some((dblocks, ids, huge));
  }

  lemma NothingPlaced(objects: seq<seq<u8>>, ids: seq<seq<u8>>, offSize: nat, idLen: nat)
    requires 3 + offSize <= idLen && |ids| == |objects|
    ensures ObjectsPlaced(objects, 0, [], ids, offSize, idLen)
  {
  }

  lemma HugeNotPlaced(objects: seq<seq<u8>>, i: nat, dblocks: seq<DBlock>, ids: seq<seq<u8>>, offSize: nat, idLen: nat)
    requires 3 + offSize <= idLen && i < |objects| && |objects[i]| > MAX_MANAGED
    requires ObjectsPlaced(objects, i, dblocks, ids, offSize, idLen)
    ensures ObjectsPlaced(objects, i + 1, dblocks, ids, offSize, idLen)
  {
    hide ObjectPlaced;
  }

  lemma OneMorePlaced(objects: seq<seq<u8>>, i: nat, dblocks: seq<DBlock>, ids: seq<seq<u8>>, id: seq<u8>, offSize: nat, idLen: nat)
    requires 3 + offSize <= idLen && i < |objects| && ObjectsPlaced(objects, i, dblocks, ids, offSize, idLen)
    requires ObjectPlaced(objects, i, dblocks, id, offSize, idLen)
    ensures |ids| == |objects| && ObjectsPlaced(objects, i + 1, dblocks, ids[i := id], offSize, idLen)
  {
    hide ObjectPlaced;
  }

  lemma NothingAllocated(prefix: nat)
    ensures BlocksOk([], prefix) && Alloc([], prefix) == Some(BumpOf([])) && HugeIndices([]) == []
  {
  }

  // ----- writing the blocks

  method WriteBlocks(buf: seq<u8>, dblocks: seq<DBlock>, heapAddr: nat, offSize: nat) returns (file: seq<u8>, addrs: seq<nat>)
    requires BlocksOk(dblocks, 13 + offSize)
    ensures |file| >= |buf| && file[..|buf|] == buf
    ensures BlocksLaid(file, 0, addrs, dblocks, heapAddr, offSize)
    ensures forall k :: 0 <= k < |addrs| ==> |buf| <= addrs[k] < |file|
    ensures |file| <= |buf| + 0x1_0007 * |dblocks|
  {
    hide BlockImage, SlotOff, SlotSize;
    file, addrs := buf, [];
    for k := 0 to |dblocks|
      invariant |buf| <= |file| <= |buf| + 0x1_0007 * k && file[..|buf|] == buf
      invariant |addrs| == k && forall i :: 0 <= i < k ==> |buf| <= addrs[i] < |file| && BlockLaid(file, 0, addrs[i], dblocks[i], heapAddr, offSize)
    {
      ghost var before := file;
      var image := BlockImage(dblocks[k], heapAddr, offSize);
      var addr;
      file, addr := FileBuf.Append(file, image);
      assert file[addr..addr + |image|] == file[addr..];
      SlotSizes(k);
      forall i | 0 <= i < k ensures BlockLaid(file, 0, addrs[i], dblocks[i], heapAddr, offSize) {
        Seqs.SliceOfTake(file, |before|, addrs[i], addrs[i] + dblocks[i].size);
      }
      Seqs.TakeTake(file, |before|, |buf|);
      addrs := addrs + [addr];
    }
  }

  /** The slots of an indirect block: addresses, then empty slots. */
  function SlotBytes(addrs: seq<nat>, n: nat): (s: seq<u8>)
    ensures |s| == 8 * n
  {
    if n == 0 then [] else SlotBytes(addrs, n - 1) + Le(if n - 1 < |addrs| then addrs[n - 1] else UNDEF, 8)
  }

  lemma {:induction false} SlotBytesAt(addrs: seq<nat>, n: nat, s: nat)
    requires s < n
    ensures SlotBytes(addrs, n)[8 * s..8 * s + 8] == Le(if s < |addrs| then addrs[s] else UNDEF, 8)
  {
    hide Le;
    var init, last := SlotBytes(addrs, n - 1), Le(if n - 1 < |addrs| then addrs[n - 1] else UNDEF, 8);
    if s < n - 1 {
      SlotBytesAt(addrs, n - 1, s);
      Seqs.SliceInto(init, last, 8 * s, 8 * s + 8);
    } else {
      EndOf(init, last);
    }
  }

  lemma EndOf(a: seq<u8>, b: seq<u8>)
    ensures (a + b)[|a|..|a| + |b|] == b
  {
  }

  method WriteIndirect(buf: seq<u8>, addrs: seq<nat>, heapAddr: nat, offSize: nat, checksum: seq<u8> -> u32)
    returns (file: seq<u8>, root: nat, ghost h: seq<u8>)
    ensures |file| >= |buf| && file[..|buf|] == buf && |buf| <= root < |file|
    ensures (forall k :: 0 <= k < |addrs| ==> addrs[k] < UNDEF) ==> SlotsRead(file, root, addrs, offSize)
    ensures |file| <= |buf| + offSize + 8 * |addrs| + 48
  {
    hide BlockOffAt, SlotAt, Entries, Le;
    var nrows := (|addrs| + 3) / WIDTH;
    var ib := FHIB + [0] + Le(heapAddr, 8) + Zeroed(offSize);
    for slot := 0 to WIDTH * nrows
      invariant ib == FHIB + [0] + Le(heapAddr, 8) + Zeroed(offSize) + SlotBytes(addrs, slot)
    {
      Seqs.Assoc(FHIB + [0] + Le(heapAddr, 8) + Zeroed(offSize), SlotBytes(addrs, slot), Le(if slot < |addrs| then addrs[slot] else UNDEF, 8));
      ib := ib + Le(if slot < |addrs| then addrs[slot] else UNDEF, 8);
    }
    h := ib;
    ib := ib + Le(checksum(ib), 4);
    file, root := FileBuf.Append(buf, ib);
    if forall k :: 0 <= k < |addrs| ==> addrs[k] < UNDEF {
      IndirectReads(file, root, h, Le(checksum(h), 4), addrs, heapAddr, offSize, WIDTH * nrows);
    }
  }

  /** The indirect block at `root` reads back as the slots of the direct blocks. */
  ghost predicate SlotsRead(file: seq<u8>, root: nat, addrs: seq<nat>, offSize: nat) {
    && BlockOffAt(file, root, offSize) == Some(0)
    && forall s :: 0 <= s < WIDTH * ((|addrs| + 3) / WIDTH) ==>
         SlotAt(file, Entries(root, offSize), s) == Some(if s < |addrs| then Some(addrs[s]) else None)
  }

  lemma IndirectReads(file: seq<u8>, root: nat, h: seq<u8>, sum: seq<u8>, addrs: seq<nat>, heapAddr: nat, offSize: nat, n: nat)
    requires h == FHIB + [0] + Le(heapAddr, 8) + Zeroed(offSize) + SlotBytes(addrs, n)
    requires root <= |file| && file[root..] == h + sum
    requires forall k :: 0 <= k < |addrs| ==> addrs[k] < UNDEF
    ensures BlockOffAt(file, root, offSize) == Some(0)
    ensures forall s :: 0 <= s < n ==> SlotAt(file, Entries(root, offSize), s) == Some(if s < |addrs| then Some(addrs[s]) else None)
  {
    hide Le, FromLe, SlotBytes;
    IndirectParts(FHIB, [0 as u8], Le(heapAddr, 8), Zeroed(offSize), SlotBytes(addrs, n), sum, file, root);
    ZeroValue(offSize);
    forall s | 0 <= s < n
      ensures SlotAt(file, Entries(root, offSize), s) == Some(if s < |addrs| then Some(addrs[s]) else None)
    {
      SlotBytesAt(addrs, n, s);
      Seqs.SliceOfSlice(file, root + 13 + offSize, root + 13 + offSize + 8 * n, 8 * s, 8 * s + 8);
      var a := if s < |addrs| then addrs[s] else UNDEF;
      Pow2Constants();
      FromLeOfLe(a, 8);
    }
  }

  lemma IndirectParts(a: seq<u8>, b: seq<u8>, c: seq<u8>, d: seq<u8>, e: seq<u8>, f: seq<u8>, file: seq<u8>, at: nat)
    requires at <= |file| && file[at..] == a + b + c + d + e + f
    ensures var n := |a| + |b| + |c|;
            && at + n + |d| + |e| <= |file| && file[at..at + |a|] == a
            && file[at + n..at + n + |d|] == d && file[at + n + |d|..at + n + |d| + |e|] == e
  {
    var t := a + b + c + d + e + f;
    var n := |a| + |b| + |c|;
    assert t[0..|a|] == a && t[n..n + |d|] == d && t[n + |d|..n + |d| + |e|] == e;
    Seqs.SliceSlice(file, at, 0, |a|);
    Seqs.SliceSlice(file, at, n, n + |d|);
    Seqs.SliceSlice(file, at, n + |d|, n + |d| + |e|);
  }

  lemma {:induction false} ZeroValue(n: nat)
    ensures FromLe(Zeroed(n)) == 0
  {
    if n > 0 {
      ZeroValue(n - 1);
      assert Zeroed(n)[1..] == Zeroed(n - 1);
    }
  }

  // ----- huge objects

  /** Huge object m is in the file, and its identifier carries its number. */
  ghost predicate HugeWritten(file: seq<u8>, obj: seq<u8>, id: seq<u8>, r: HugeRecord, m: nat, idSize: nat, idLen: nat)
    requires 1 + idSize <= idLen
  {
    && r.len == |obj| && r.addr + r.len <= |file| && file[r.addr..r.addr + r.len] == obj
    && r.id == m + 1 && id == HugeId(m + 1, idSize, idLen)
  }

  ghost predicate HugesWritten(file: seq<u8>, objects: seq<seq<u8>>, huge: seq<nat>, n: nat, ids: seq<seq<u8>>,
                               records: seq<HugeRecord>, idSize: nat, idLen: nat)
    requires 1 + idSize <= idLen && n <= |huge| && forall m :: 0 <= m < |huge| ==> huge[m] < |objects|
  {
    && |records| == n && |ids| == |objects|
    && forall m :: 0 <= m < n ==> HugeWritten(file, objects[huge[m]], ids[huge[m]], records[m], m, idSize, idLen)
  }

  /** Room for the huge objects, each on a multiple of eight. */
  function HugeLength(objects: seq<seq<u8>>, huge: seq<nat>): nat
    requires forall m :: 0 <= m < |huge| ==> huge[m] < |objects|
  {
    if huge == [] then 0 else
      assert forall m :: 0 <= m < |huge| - 1 ==> huge[..|huge| - 1][m] == huge[m];
      HugeLength(objects, huge[..|huge| - 1]) + |objects[huge[|huge| - 1]]| + 7
  }

  method WriteHuge(buf: seq<u8>, objects: seq<seq<u8>>, huge: seq<nat>, ids: seq<seq<u8>>, idSize: nat, idLen: nat)
    returns (file: seq<u8>, records: seq<HugeRecord>, ids': seq<seq<u8>>)
    requires 1 + idSize <= idLen && |ids| == |objects|
    requires forall m :: 0 <= m < |huge| ==> huge[m] < |objects|
    requires forall a, b :: 0 <= a < b < |huge| ==> huge[a] != huge[b]
    ensures |file| >= |buf| && file[..|buf|] == buf
    ensures HugesWritten(file, objects, huge, |huge|, ids', records, idSize, idLen)
    ensures |ids'| == |ids| && forall i :: 0 <= i < |ids| && i !in huge ==> ids'[i] == ids[i]
    ensures forall m :: 0 <= m < |records| ==> records[m].addr >= |buf|
    ensures |file| <= |buf| + HugeLength(objects, huge)
  {
    hide HugeId;
    file, records, ids' := buf, [], ids;
    for m := 0 to |huge|
      invariant |file| >= |buf| && file[..|buf|] == buf
      invariant HugesWritten(file, objects, huge, m, ids', records, idSize, idLen)
      invariant forall k :: 0 <= k < m ==> records[k].addr >= |buf|
      invariant |file| <= |buf| + HugeLength(objects, huge[..m])
      invariant forall i :: 0 <= i < |ids| && i !in huge ==> ids'[i] == ids[i]
    {
      ghost var before := file;
      assert huge[..m + 1][..m] == huge[..m];
      var obj := objects[huge[m]];
      var addr;
      file, addr := FileBuf.Append(file, obj);
      assert file[addr..addr + |obj|] == file[addr..];
      forall k | 0 <= k < m
        ensures HugeWritten(file, objects[huge[k]], ids'[huge[k]], records[k], k, idSize, idLen)
      {
        Seqs.SliceOfTake(file, |before|, records[k].addr, records[k].addr + records[k].len);
      }
      Seqs.TakeTake(file, |before|, |buf|);
      records := records + [HugeRecord(addr, |obj|, m + 1)];
      ids' := ids'[huge[m] := HugeId(m + 1, idSize, idLen)];
    }
    Seqs.TakeAll(huge, |huge|);
  }

  // ----- the tree of huge objects

  ghost predicate TreeOk(file: seq<u8>, h: Heap, w: Witness) {
    if w.records == [] then h.hugeAddr == UNDEF
    else h.hugeAddr < UNDEF && V2Tree.Stored(file, h.hugeAddr, w.leaf, w.nodeSize, 1, 24, RawRecords(w.records))
  }

  method WriteHugeTree(buf: seq<u8>, records: seq<HugeRecord>, checksum: seq<u8> -> u32)
    returns (file: seq<u8>, addr: nat, ghost leaf: nat, ghost nodeSize: nat)
    ensures |file| >= |buf| && file[..|buf|] == buf
    ensures records == [] ==> file == buf && addr == UNDEF
    ensures records != [] ==> addr >= |buf| && leaf >= |buf|
    ensures records != [] && |file| < UNDEF ==> addr < UNDEF && V2Tree.Stored(file, addr, leaf, nodeSize, 1, 24, RawRecords(records))
    ensures |file| <= |buf| + 24 * |records| + 564
  {
    hide RecordBytes, V2Tree.Stored;
    TimesIsProduct(|records|, 24);
    leaf, nodeSize := 0, 0;
    if records == [] {
      return buf, UNDEF, leaf, nodeSize;
    }
    file, addr, leaf, nodeSize := V2Tree.WriteLeaf(buf, 1, 24, RawRecords(records), checksum);
  }

  // ----- the whole heap

  ghost predicate AllHugeWritten(file: seq<u8>, h: Heap, objects: seq<seq<u8>>, ids: seq<seq<u8>>, records: seq<HugeRecord>)
    requires h.idLen >= 1
  {
    HugesWritten(file, objects, HugeIndices(objects), |HugeIndices(objects)|, ids, records, h.HugeIdSize(), h.idLen)
  }

  ghost predicate HeaderOk(file: seq<u8>, h: Heap, w: Witness) {
    && w.bits < 0x1_0000 && h.offSize == (w.bits + 7) / 8 && h.root < TWO_64 && h.curRows < 0x1_0000 && h.hugeAddr < TWO_64
    && Seqs.At(file, w.heapAddr, HeaderBytes(h.idLen, w.bits, h.hugeAddr, h.root, h.curRows, w.counters))
  }

  /** A heap in `file` that holds `objects` under `ids`. */
  ghost predicate HeapWritten(file: seq<u8>, h: Heap, objects: seq<seq<u8>>, ids: seq<seq<u8>>, w: Witness) {
    && |file| < UNDEF && 3 <= h.offSize <= 8 && 3 + h.offSize <= h.idLen <= 16
    && BlocksOk(w.dblocks, 13 + h.offSize) && Alloc(objects, 13 + h.offSize) == Some(BumpOf(w.dblocks))
    && ObjectsPlaced(objects, |objects|, w.dblocks, ids, h.offSize, h.idLen)
    && BlocksLaid(file, 0, w.addrs, w.dblocks, w.heapAddr, h.offSize) && RootOk(file, 0, h, w.addrs)
    && AllHugeWritten(file, h, objects, ids, w.records) && TreeOk(file, h, w) && HeaderOk(file, h, w)
  }

  /** What is behind a written heap. */
  datatype Witness = Witness(dblocks: seq<DBlock>, addrs: seq<nat>, heapAddr: nat, records: seq<HugeRecord>, leaf: nat, nodeSize: nat,
                             bits: nat, counters: Counters)

  method WriteRoot(buf: seq<u8>, addrs: seq<nat>, heapAddr: nat, offSize: nat, checksum: seq<u8> -> u32)
    returns (file: seq<u8>, root: nat, rows: nat)
    ensures |file| >= |buf| && file[..|buf|] == buf
    ensures |addrs| == 0 ==> rows == 0 && root == UNDEF
    ensures |addrs| == 1 ==> rows == 0 && root == addrs[0]
    ensures |addrs| >= 2 ==> |buf| <= root < |file| && rows == (|addrs| + 3) / WIDTH
    ensures |addrs| >= 2 && (forall k :: 0 <= k < |addrs| ==> addrs[k] < UNDEF) ==> SlotsRead(file, root, addrs, offSize)
    ensures |file| <= |buf| + offSize + 8 * |addrs| + 48
  {
    if |addrs| == 0 {
      return buf, UNDEF, 0;
    }
    if |addrs| == 1 {
      return buf, addrs[0], 0;
    }
    ghost var image;
    file, root, image := WriteIndirect(buf, addrs, heapAddr, offSize, checksum);
    rows := (|addrs| + 3) / WIDTH;
  }

  function ManagedSize(dblocks: seq<DBlock>): nat {
    if dblocks == [] then 0 else ManagedSize(dblocks[..|dblocks| - 1]) + dblocks[|dblocks| - 1].size
  }

  function HugeSize(records: seq<HugeRecord>): nat {
    if records == [] then 0 else HugeSize(records[..|records| - 1]) + records[|records| - 1].len
  }

  /** Room for the huge objects and their records. */
  function HugeRoom(objects: seq<seq<u8>>): nat {
    if objects == [] then 0 else
      var last := objects[|objects| - 1];
      HugeRoom(objects[..|objects| - 1]) + if |last| > MAX_MANAGED then |last| + 31 else 0
  }

  /** Room enough for a heap: what is not huge takes at most 32 blocks. */
  function HeapRoom(objects: seq<seq<u8>>): nat {
    HugeRoom(objects) + 0x20_1000
  }

  lemma {:induction false} HugeLengthPrefix(objects: seq<seq<u8>>, n: nat, huge: seq<nat>)
    requires n <= |objects| && forall m :: 0 <= m < |huge| ==> huge[m] < n
    ensures HugeLength(objects[..n], huge) == HugeLength(objects, huge)
  {
    if huge != [] {
      var init := huge[..|huge| - 1];
      assert forall m :: 0 <= m < |init| ==> init[m] == huge[m];
      HugeLengthPrefix(objects, n, init);
    }
  }

  lemma {:induction false} HugeFits(objects: seq<seq<u8>>)
    ensures HugeLength(objects, HugeIndices(objects)) + 24 * |HugeIndices(objects)| == HugeRoom(objects)
  {
    if objects != [] {
      var n := |objects| - 1;
      var s := HugeIndices(objects[..n]);
      HugeFits(objects[..n]);
      HugeLengthPrefix(objects, n, s);
      if |objects[n]| > MAX_MANAGED {
        Seqs.DropAppended(s, [n]);
        LastHuge(objects, s, n);
      }
    }
  }

  lemma LastHuge(objects: seq<seq<u8>>, s: seq<nat>, n: nat)
    requires n < |objects| && forall m :: 0 <= m < |s| ==> s[m] < |objects|
    ensures HugeLength(objects, s + [n]) == HugeLength(objects, s) + |objects[n]| + 7
  {
    assert (s + [n])[..|s|] == s;
  }

  /** Everything behind the header: blocks, root, huge objects and their tree. */
  method WriteBody(buf: seq<u8>, objects: seq<seq<u8>>, dblocks: seq<DBlock>, ids: seq<seq<u8>>, huge: seq<nat>, heapAddr: nat,
                   idLen: nat, offSize: nat, checksum: seq<u8> -> u32)
    returns (file: seq<u8>, h: Heap, ids': seq<seq<u8>>, addrs: seq<nat>, records: seq<HugeRecord>, ghost leaf: nat, ghost nodeSize: nat)
    requires 3 <= offSize <= 8 && 3 + offSize <= idLen <= 16
    requires BlocksOk(dblocks, 13 + offSize) && huge == HugeIndices(objects)
    requires ObjectsPlaced(objects, |objects|, dblocks, ids, offSize, idLen)
    ensures |file| >= |buf| && file[..|buf|] == buf && h.offSize == offSize && h.idLen == idLen
    ensures ObjectsPlaced(objects, |objects|, dblocks, ids', offSize, idLen)
    ensures |file| + 200 <= |buf| + HeapRoom(objects)
    ensures |file| < UNDEF ==> BodyOk(file, |buf|, h, objects, ids', Witness(dblocks, addrs, heapAddr, records, leaf, nodeSize, 0, Counters(0, 0, 0, 0)))
  {
    hide ObjectsPlaced, BlocksOk, BlockLaid, BlocksLaid, Alloc, HugesWritten, SlotsRead, SlotAt, V2Tree.Stored, RootOk, HugeRoom, HugeLength,
         BodyOk, HugeIndices;
    var root, rows, tree;
    ghost var withBlocks, withHuge;
    file, addrs, root, rows, withBlocks := WriteManaged(buf, dblocks, heapAddr, offSize, checksum);
    ghost var withRoot := file;
    PlacedLength(objects, dblocks, ids, offSize, idLen);
    file, records, ids', tree, leaf, nodeSize, withHuge := WriteOutside(file, objects, huge, ids, idLen, checksum);
    Seqs.TakeTake(file, |withRoot|, |buf|);
    h := Heap(TABLE, idLen, offSize, 2, root, rows, tree);
    IdsKept(objects, dblocks, ids, ids', offSize, idLen);
    if |file| < UNDEF {
      ghost var w := Witness(dblocks, addrs, heapAddr, records, leaf, nodeSize, 0, Counters(0, 0, 0, 0));
      StagesCollected(withBlocks, withRoot, withHuge, file, |buf|, h, objects, huge, ids', w);
    }
  }

  /** Blocks and root. */
  method WriteManaged(buf: seq<u8>, dblocks: seq<DBlock>, heapAddr: nat, offSize: nat, checksum: seq<u8> -> u32)
    returns (file: seq<u8>, addrs: seq<nat>, root: nat, rows: nat, ghost withBlocks: seq<u8>)
    requires BlocksOk(dblocks, 13 + offSize) && offSize <= 8
    ensures |buf| <= |withBlocks| <= |file| <= |buf| + 0x20_0400
    ensures file[..|buf|] == buf && file[..|withBlocks|] == withBlocks
    ensures BlocksLaid(withBlocks, 0, addrs, dblocks, heapAddr, offSize) && forall k :: 0 <= k < |addrs| ==> |buf| <= addrs[k] < |withBlocks|
    ensures |addrs| == 0 ==> rows == 0 && root == UNDEF
    ensures |addrs| == 1 ==> rows == 0 && root == addrs[0]
    ensures |addrs| >= 2 ==> |withBlocks| <= root < |file| && rows == (|addrs| + 3) / WIDTH
    ensures |addrs| >= 2 && (forall k :: 0 <= k < |addrs| ==> addrs[k] < UNDEF) ==> SlotsRead(file, root, addrs, offSize)
  {
    hide BlocksOk, BlockLaid, BlocksLaid, SlotsRead;
    BlockCount(dblocks, 13 + offSize);
    file, addrs := WriteBlocks(buf, dblocks, heapAddr, offSize);
    withBlocks := file;
    AddrCount(file, addrs, dblocks, heapAddr, offSize);
    file, root, rows := WriteRoot(file, addrs, heapAddr, offSize, checksum);
    Seqs.TakeTake(file, |withBlocks|, |buf|);
  }

  /** Huge objects and their tree. */
  method WriteOutside(buf: seq<u8>, objects: seq<seq<u8>>, huge: seq<nat>, ids: seq<seq<u8>>, idLen: nat, checksum: seq<u8> -> u32)
    returns (file: seq<u8>, records: seq<HugeRecord>, ids': seq<seq<u8>>, tree: nat, ghost leaf: nat, ghost nodeSize: nat, ghost withHuge: seq<u8>)
    requires 6 <= idLen <= 16 && huge == HugeIndices(objects) && |ids| == |objects|
    ensures |buf| <= |withHuge| <= |file| <= |buf| + HugeRoom(objects) + 564 && file[..|buf|] == buf
    ensures file[..|withHuge|] == withHuge && withHuge[..|buf|] == buf
    ensures HugesWritten(withHuge, objects, huge, |huge|, ids', records, Min(idLen - 1, 8), idLen)
    ensures |ids'| == |ids| && forall i :: 0 <= i < |ids| && i !in huge ==> ids'[i] == ids[i]
    ensures forall m :: 0 <= m < |records| ==> records[m].addr >= |buf|
    ensures records == [] ==> tree == UNDEF
    ensures records != [] ==> tree >= |withHuge| && leaf >= |withHuge|
    ensures records != [] && |file| < UNDEF ==> tree < UNDEF && V2Tree.Stored(file, tree, leaf, nodeSize, 1, 24, RawRecords(records))
  {
    hide HugesWritten, V2Tree.Stored, HugeRoom, HugeLength, HugeIndices, RawRecords;
    HugeFits(objects);
    forall a, b | 0 <= a < b < |huge| ensures huge[a] != huge[b] {
      HugeIndicesOnce(objects, a, b);
    }
    file, records, ids' := WriteHuge(buf, objects, huge, ids, Min(idLen - 1, 8), idLen);
    withHuge := file;
    RecordCount(file, objects, huge, ids', records, Min(idLen - 1, 8), idLen);
    file, tree, leaf, nodeSize := WriteHugeTree(file, records, checksum);
    Seqs.TakeTake(file, |withHuge|, |buf|);
  }

  /** The files after the blocks, the root, the huge objects and their tree, each in front of the next. */
  lemma StagesCollected(withBlocks: seq<u8>, withRoot: seq<u8>, withHuge: seq<u8>, file: seq<u8>, from: nat, h: Heap,
                        objects: seq<seq<u8>>, huge: seq<nat>, ids: seq<seq<u8>>, w: Witness)
    requires from <= |withBlocks| <= |withRoot| <= |withHuge| <= |file| < UNDEF && huge == HugeIndices(objects)
    requires file[..|withHuge|] == withHuge && withHuge[..|withRoot|] == withRoot && withRoot[..|withBlocks|] == withBlocks
    requires 3 <= h.offSize <= 8 && 3 + h.offSize <= h.idLen <= 16 && h == Heap(TABLE, h.idLen, h.offSize, 2, h.root, h.curRows, h.hugeAddr)
    requires BlocksOk(w.dblocks, 13 + h.offSize) && BlocksLaid(withBlocks, 0, w.addrs, w.dblocks, w.heapAddr, h.offSize)
    requires forall k :: 0 <= k < |w.addrs| ==> from <= w.addrs[k] < |withBlocks|
    requires |w.addrs| == 0 ==> h.curRows == 0 && h.root == UNDEF
    requires |w.addrs| == 1 ==> h.curRows == 0 && h.root == w.addrs[0]
    requires |w.addrs| >= 2 ==> |withBlocks| <= h.root < |withRoot| && h.curRows == (|w.addrs| + 3) / WIDTH
    requires |w.addrs| >= 2 ==> SlotsRead(withRoot, h.root, w.addrs, h.offSize)
    requires HugesWritten(withHuge, objects, huge, |huge|, ids, w.records, Min(h.idLen - 1, 8), h.idLen)
    requires forall m :: 0 <= m < |w.records| ==> w.records[m].addr >= |withRoot|
    requires w.records == [] ==> h.hugeAddr == UNDEF
    requires w.records != [] ==> |withHuge| <= h.hugeAddr < UNDEF && w.leaf >= |withHuge|
                                 && V2Tree.Stored(file, h.hugeAddr, w.leaf, w.nodeSize, 1, 24, RawRecords(w.records))
    ensures BodyOk(file, from, h, objects, ids, w)
  {
    hide BlocksOk, BlockLaid, BlocksLaid, HugesWritten, SlotsRead, SlotAt, V2Tree.Stored, RootOk;
    Seqs.TakeTake(file, |withHuge|, |withRoot|);
    Seqs.TakeTake(file, |withHuge|, |withBlocks|);
    Seqs.TakeTake(withHuge, |withRoot|, |withBlocks|);
    FileBuf.AppendKeeps(withBlocks, file, from);
    FileBuf.AppendKeeps(withRoot, file, from);
    FileBuf.AppendKeeps(withHuge, file, from);
    BlocksKept(withBlocks, file, from, w.addrs, w.dblocks, w.heapAddr, h.offSize);
    RootKept(withRoot, file, from, h, w.addrs);
    HugesKept(withHuge, file, from, objects, huge, ids, w.records, h.HugeIdSize(), h.idLen);
    FewBlocks(withBlocks, w.addrs, w.dblocks, w.heapAddr, h.offSize);
    BodyCollected(file, from, h, objects, ids, w);
  }

  lemma BlockCount(dblocks: seq<DBlock>, prefix: nat)
    requires BlocksOk(dblocks, prefix)
    ensures |dblocks| <= MAX_SLOTS
  {
  }

  lemma AddrCount(file: seq<u8>, addrs: seq<nat>, dblocks: seq<DBlock>, heapAddr: nat, offSize: nat)
    requires BlocksLaid(file, 0, addrs, dblocks, heapAddr, offSize)
    ensures |addrs| == |dblocks|
  {
  }

  lemma RecordCount(file: seq<u8>, objects: seq<seq<u8>>, huge: seq<nat>, ids: seq<seq<u8>>, records: seq<HugeRecord>, idSize: nat, idLen: nat)
    requires 1 + idSize <= idLen && forall m :: 0 <= m < |huge| ==> huge[m] < |objects|
    requires HugesWritten(file, objects, huge, |huge|, ids, records, idSize, idLen)
    ensures |records| == |huge|
  {
  }

  ghost predicate BodyOk(file: seq<u8>, from: nat, h: Heap, objects: seq<seq<u8>>, ids: seq<seq<u8>>, w: Witness)
    requires h.idLen >= 1
  {
    && BlocksLaid(file, 0, w.addrs, w.dblocks, w.heapAddr, h.offSize) && RootOk(file, 0, h, w.addrs)
    && AllHugeWritten(file, h, objects, ids, w.records) && TreeOk(file, h, w)
    && (forall k :: 0 <= k < |w.addrs| ==> w.addrs[k] >= from) && (|w.addrs| >= 2 ==> h.root >= from)
    && (forall m :: 0 <= m < |w.records| ==> w.records[m].addr >= from) && (w.records != [] ==> h.hugeAddr >= from && w.leaf >= from)
    && h.root < TWO_64 && h.curRows < 0x1_0000 && h.hugeAddr < TWO_64
  }

  lemma FewBlocks(file: seq<u8>, addrs: seq<nat>, dblocks: seq<DBlock>, heapAddr: nat, offSize: nat)
    requires BlocksOk(dblocks, 13 + offSize) && BlocksLaid(file, 0, addrs, dblocks, heapAddr, offSize)
    ensures |addrs| <= MAX_SLOTS
  {
  }

  lemma BodyCollected(file: seq<u8>, from: nat, h: Heap, objects: seq<seq<u8>>, ids: seq<seq<u8>>, w: Witness)
    requires h.idLen >= 1 && BlocksLaid(file, 0, w.addrs, w.dblocks, w.heapAddr, h.offSize) && RootOk(file, 0, h, w.addrs)
    requires AllHugeWritten(file, h, objects, ids, w.records) && TreeOk(file, h, w) && |w.addrs| <= MAX_SLOTS && |file| < UNDEF
    requires (forall k :: 0 <= k < |w.addrs| ==> from <= w.addrs[k] < |file|) && (|w.addrs| >= 2 ==> from <= h.root < |file|)
    requires (forall m :: 0 <= m < |w.records| ==> w.records[m].addr >= from) && (w.records != [] ==> h.hugeAddr >= from && w.leaf >= from)
    requires w.addrs == [] ==> h.root == UNDEF && h.curRows == 0
    ensures BodyOk(file, from, h, objects, ids, w)
  {
    hide BlocksLaid, AllHugeWritten, V2Tree.Stored, RootSlot, BlockOffAt;
  }

  /** The header is reserved first and filled in last. */
  method WriteFractalHeap(buf: seq<u8>, objects: seq<seq<u8>>, idLen: nat, maxHeapBits: nat, checksum: seq<u8> -> u32)
    returns (r: Option<(seq<u8>, nat, seq<seq<u8>>)>, ghost h: Heap, ghost w: Witness)
    requires 17 <= maxHeapBits <= 64 && 3 + (maxHeapBits + 7) / 8 <= idLen <= 16
    ensures r.None? <==> Alloc(objects, 13 + (maxHeapBits + 7) / 8).None?
    ensures r.Some? ==>
              var (file, addr, ids) := r.value;
              && |file| >= |buf| && file[..|buf|] == buf && h.offSize == (maxHeapBits + 7) / 8 && h.idLen == idLen && w.heapAddr == addr
              && |file| <= |buf| + HeapRoom(objects) && (|file| < UNDEF ==> HeapWritten(file, h, objects, ids, w))
  {
    hide ObjectsPlaced, BlocksOk, BodyOk, Alloc, HeaderBytes, HeapRoom;
    var offSize := (maxHeapBits + 7) / 8;
    w := Witness([], [], 0, [], 0, 0, 0, Counters(0, 0, 0, 0));
    h := Heap(TABLE, 0, 0, 0, 0, 0, 0);
    var heapAddr := |FileBuf.Padded(buf)|;
    var file := FileBuf.Padded(buf) + Zeroed(HEADER_SIZE);
    Seqs.SliceInto(FileBuf.Padded(buf), Zeroed(HEADER_SIZE), 0, |buf|);
    assert file[..|buf|] == buf;
    var filled := Allocate(objects, offSize, idLen);
    if filled.None? {
      return None, h, w;
    }
    var (dblocks, ids, huge) := filled.value;
    ghost var start := file;
    var heap, addrs, records;
    ghost var leaf, nodeSize;
    file, heap, ids, addrs, records, leaf, nodeSize := WriteBody(file, objects, dblocks, ids, huge, heapAddr, idLen, offSize, checksum);
    Seqs.TakeTake(file, |start|, |buf|);
    var counters := Counters(ManagedSize(dblocks), |objects| - |huge|, HugeSize(records), |huge|);
    var header := HeaderBytes(idLen, maxHeapBits, heap.hugeAddr, heap.root, heap.curRows, counters);
    var image := header + Le(checksum(header), 4);
    ghost var body := file;
    FileBuf.PatchKeeps(file, heapAddr, image);
    file := file[..heapAddr] + image + file[heapAddr + |image|..];
    Seqs.TakeTake(file, heapAddr, |buf|);
    Seqs.TakeTake(body, heapAddr, |buf|);
    h := heap;
    ghost var before := Witness(dblocks, addrs, heapAddr, records, leaf, nodeSize, 0, Counters(0, 0, 0, 0));
    w := before.(bits := maxHeapBits, counters := counters);
    if |file| < UNDEF {
      HeaderInPlace(file, heapAddr, header, Le(checksum(header), 4));
      BodyKept(body, file, heapAddr + HEADER_SIZE, h, objects, ids, before, w);
      HeapCollected(file, heapAddr + HEADER_SIZE, h, objects, ids, w);
    }
    r := Some((file, heapAddr, ids));
  }

  lemma HeapCollected(file: seq<u8>, from: nat, h: Heap, objects: seq<seq<u8>>, ids: seq<seq<u8>>, w: Witness)
    requires |file| < UNDEF && 3 <= h.offSize <= 8 && 3 + h.offSize <= h.idLen <= 16
    requires BlocksOk(w.dblocks, 13 + h.offSize) && Alloc(objects, 13 + h.offSize) == Some(BumpOf(w.dblocks))
    requires ObjectsPlaced(objects, |objects|, w.dblocks, ids, h.offSize, h.idLen) && BodyOk(file, from, h, objects, ids, w)
    requires w.bits < 0x1_0000 && h.offSize == (w.bits + 7) / 8
    requires Seqs.At(file, w.heapAddr, HeaderBytes(h.idLen, w.bits, h.hugeAddr, h.root, h.curRows, w.counters))
    ensures HeapWritten(file, h, objects, ids, w)
  {
    hide ObjectsPlaced, BlocksOk, Alloc, BlocksLaid, RootOk, AllHugeWritten, TreeOk, HeaderBytes, Seqs.At, BumpOf;
  }

  lemma HeaderInPlace(file: seq<u8>, at: nat, header: seq<u8>, sum: seq<u8>)
    requires at + |header + sum| <= |file| && file[at..at + |header + sum|] == header + sum
    ensures Seqs.At(file, at, header)
  {
    assert Seqs.At(file, at, header + sum);
    Seqs.AtSplit(file, at, header, sum);
  }

  lemma BodyKept(file: seq<u8>, file': seq<u8>, from: nat, h: Heap, objects: seq<seq<u8>>, ids: seq<seq<u8>>, w: Witness, w': Witness)
    requires FileBuf.Keeps(file, file', from) && |file'| == |file| && h.idLen >= 1 && BodyOk(file, from, h, objects, ids, w)
    requires w' == w.(bits := w'.bits, counters := w'.counters)
    ensures BodyOk(file', from, h, objects, ids, w')
  {
    hide V2Tree.Stored, HugesWritten, BlocksLaid, RootOk;
    BlocksKept(file, file', from, w.addrs, w.dblocks, w.heapAddr, h.offSize);
    RootStays(file, file', from, h, w.addrs);
    HugesKept(file, file', from, objects, HugeIndices(objects), ids, w.records, h.HugeIdSize(), h.idLen);
    if w.records != [] {
      TreeKept(file, file', from, h, w);
    }
  }

  lemma TreeKept(file: seq<u8>, file': seq<u8>, from: nat, h: Heap, w: Witness)
    requires FileBuf.Keeps(file, file', from) && h.hugeAddr >= from && w.leaf >= from
    requires V2Tree.Stored(file, h.hugeAddr, w.leaf, w.nodeSize, 1, 24, RawRecords(w.records))
    ensures V2Tree.Stored(file', h.hugeAddr, w.leaf, w.nodeSize, 1, 24, RawRecords(w.records))
  {
    hide V2Tree.HeaderFront, V2Tree.HeaderBack, V2Tree.LeafHead;
    KeptAt(file, file', from, h.hugeAddr, V2Tree.HeaderFront(1, w.nodeSize, 24) + V2Tree.HeaderBack(w.leaf, |w.records|));
    KeptAt(file, file', from, w.leaf, V2Tree.LeafHead(1, RawRecords(w.records)));
  }

  lemma KeptAt(file: seq<u8>, file': seq<u8>, from: nat, at: nat, s: seq<u8>)
    requires FileBuf.Keeps(file, file', from) && at >= from && Seqs.At(file, at, s)
    ensures Seqs.At(file', at, s)
  {
    FileBuf.KeptSlice(file, file', from, at, at + |s|);
  }

  lemma HugesKept(file: seq<u8>, file': seq<u8>, from: nat, objects: seq<seq<u8>>, huge: seq<nat>, ids: seq<seq<u8>>, records: seq<HugeRecord>, idSize: nat, idLen: nat)
    requires FileBuf.Keeps(file, file', from) && 1 + idSize <= idLen && (forall m :: 0 <= m < |huge| ==> huge[m] < |objects|)
    requires HugesWritten(file, objects, huge, |huge|, ids, records, idSize, idLen) && forall m :: 0 <= m < |records| ==> records[m].addr >= from
    ensures HugesWritten(file', objects, huge, |huge|, ids, records, idSize, idLen)
  {
    hide HugeId;
    forall m | 0 <= m < |huge| ensures HugeWritten(file', objects[huge[m]], ids[huge[m]], records[m], m, idSize, idLen) {
      assert HugeWritten(file, objects[huge[m]], ids[huge[m]], records[m], m, idSize, idLen);
      FileBuf.KeptSlice(file, file', from, records[m].addr, records[m].addr + records[m].len);
    }
  }

  lemma PlacedLength(objects: seq<seq<u8>>, dblocks: seq<DBlock>, ids: seq<seq<u8>>, offSize: nat, idLen: nat)
    requires 3 + offSize <= idLen && ObjectsPlaced(objects, |objects|, dblocks, ids, offSize, idLen)
    ensures |ids| == |objects|
  {
  }

  lemma IdsKept(objects: seq<seq<u8>>, dblocks: seq<DBlock>, ids: seq<seq<u8>>, ids': seq<seq<u8>>, offSize: nat, idLen: nat)
    requires 3 + offSize <= idLen && ObjectsPlaced(objects, |objects|, dblocks, ids, offSize, idLen)
    requires |ids'| == |ids| && forall i :: 0 <= i < |ids| && i !in HugeIndices(objects) ==> ids'[i] == ids[i]
    ensures ObjectsPlaced(objects, |objects|, dblocks, ids', offSize, idLen)
  {
    hide ObjectPlaced, HugeIndices;
    forall i | 0 <= i < |objects| && |objects[i]| <= MAX_MANAGED
      ensures ObjectPlaced(objects, i, dblocks, ids'[i], offSize, idLen)
    {
      assert i !in HugeIndices(objects);
      assert ObjectPlaced(objects, i, dblocks, ids[i], offSize, idLen);
    }
  }

  lemma BlocksKept(file: seq<u8>, file': seq<u8>, from: nat, addrs: seq<nat>, dblocks: seq<DBlock>, heapAddr: nat, offSize: nat)
    requires BlocksLaid(file, 0, addrs, dblocks, heapAddr, offSize) && FileBuf.Keeps(file, file', from)
    requires forall k :: 0 <= k < |addrs| ==> addrs[k] >= from
    ensures BlocksLaid(file', 0, addrs, dblocks, heapAddr, offSize)
  {
    hide BlockImage;
    forall k | 0 <= k < |addrs| ensures BlockLaid(file', 0, addrs[k], dblocks[k], heapAddr, offSize) {
      assert BlockLaid(file, 0, addrs[k], dblocks[k], heapAddr, offSize);
      FileBuf.KeptSlice(file, file', from, addrs[k], addrs[k] + dblocks[k].size);
    }
  }

  lemma RootKept(file: seq<u8>, file': seq<u8>, from: nat, h: Heap, addrs: seq<nat>)
    requires h.table == TABLE && h.lenSize == 2 && 3 + h.offSize <= h.idLen <= 16
    requires |addrs| == 1 ==> h.curRows == 0 && h.root == addrs[0]
    requires |addrs| >= 2 ==> h.root >= from && h.curRows == (|addrs| + 3) / WIDTH && SlotsRead(file, h.root, addrs, h.offSize)
    requires FileBuf.Keeps(file, file', from)
    ensures RootOk(file', 0, h, addrs)
  {
    hide FromLe;
    if |addrs| >= 2 {
      FileBuf.KeptSlice(file, file', from, h.root, h.root + 4);
      FileBuf.KeptSlice(file, file', from, h.root + 13, h.root + 13 + h.offSize);
      forall s | 0 <= s < WIDTH * h.curRows ensures RootSlot(file', 0, h, addrs, s) {
        var e := Entries(h.root, h.offSize);
        assert SlotAt(file, e, s).Some?;
        FileBuf.KeptSlice(file, file', from, e + 8 * s, e + 8 * s + 8);
      }
    }
  }

  lemma RootStays(file: seq<u8>, file': seq<u8>, from: nat, h: Heap, addrs: seq<nat>)
    requires RootOk(file, 0, h, addrs) && FileBuf.Keeps(file, file', from) && (|addrs| >= 2 ==> h.root >= from)
    ensures RootOk(file', 0, h, addrs)
  {
    hide SlotAt, BlockOffAt;
    if |addrs| >= 2 {
      forall s | 0 <= s < WIDTH * ((|addrs| + 3) / WIDTH)
        ensures SlotAt(file, Entries(h.root, h.offSize), s) == Some(if s < |addrs| then Some(addrs[s]) else None)
      {
        assert RootSlot(file, 0, h, addrs, s);
      }
    }
    RootKept(file, file', from, h, addrs);
  }
}
