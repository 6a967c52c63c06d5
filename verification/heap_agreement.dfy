/** A written heap agrees with the list of objects it was given. */
module HeapAgreement {
  import opened Wrappers
  import opened Bytes
  import opened DTable
  import opened FileWriter
  import opened FractalHeap
  import opened HeapAlloc
  import opened HeapLayout
  import opened HeapWriter
  import Seqs
  import V2Tree
  import HeapHeader

  /** An object was put at the very end of the last of several blocks: only an empty one can be. */
  predicate AtVeryEnd(objects: seq<seq<u8>>, i: nat, prefix: nat)
    requires i < |objects|
  {
    match Alloc(objects, prefix)
    case None => false
    case Some(b) => b.slots >= 2 && PlaceOf(objects, i, prefix) == (b.slots - 1, SlotSize(b.slots - 1))
  }

  /** The number of huge objects before object i. */
  function HugeRank(objects: seq<seq<u8>>, i: nat): nat
    requires i <= |objects|
  {
    |HugeIndices(objects[..i])|
  }

  /** Whether object i can be fetched, told from the lengths of the objects alone: the record count
      of the tree of huge objects has 16 bits. */
  predicate Retrievable(objects: seq<seq<u8>>, i: nat, prefix: nat)
    requires i < |objects|
  {
    if |objects[i]| <= MAX_MANAGED then !AtVeryEnd(objects, i, prefix)
    else HugeRank(objects, i) < |HugeIndices(objects)| % 0x1_0000
  }

  lemma {:induction false} HugeAtRank(objects: seq<seq<u8>>, i: nat)
    requires i < |objects| && |objects[i]| > MAX_MANAGED
    ensures HugeRank(objects, i) < |HugeIndices(objects)| && HugeIndices(objects)[HugeRank(objects, i)] == i
  {
    var n := |objects| - 1;
    if i < n {
      HugeAtRank(objects[..n], i);
      Seqs.TakeTake(objects, n, i);
    }
  }

  /** Non-empty objects are never at the very end. */
  lemma NonEmptyRetrievable(objects: seq<seq<u8>>, i: nat, prefix: nat)
    requires i < |objects| && 0 < |objects[i]| <= MAX_MANAGED && prefix <= 1024 && Alloc(objects, prefix).Some?
    ensures Retrievable(objects, i, prefix)
  {
    hide SlotSize, SlotOff, Fit;
    Seqs.TakeAll(objects, |objects|);
    EndsInOrder(objects, i + 1, |objects|, prefix);
    PlaceBounds(objects, i, prefix);
  }

  /** With fewer than 65536 huge objects all of them can be fetched. */
  lemma FewHugeRetrievable(objects: seq<seq<u8>>, i: nat, prefix: nat)
    requires i < |objects| && |objects[i]| > MAX_MANAGED && |HugeIndices(objects)| < 0x1_0000
    ensures Retrievable(objects, i, prefix)
  {
    hide HugeIndices, HugeRank, AtVeryEnd;
    HugeAtRank(objects, i);
    DivUnique(|HugeIndices(objects)|, 0x1_0000, 0, |HugeIndices(objects)|);
  }

  lemma RecordOf(file: seq<u8>, h: Heap, objects: seq<seq<u8>>, ids: seq<seq<u8>>, w: Witness, m: nat)
    requires HeapWritten(file, h, objects, ids, w) && m < |HugeIndices(objects)| && |objects| < 0x1_0000_0000_0000
    ensures |w.records| == |HugeIndices(objects)| && RecordFits(w.records[m]) && w.records[m].id == m + 1
    ensures HugeWritten(file, objects[HugeIndices(objects)[m]], ids[HugeIndices(objects)[m]], w.records[m], m, h.HugeIdSize(), h.idLen)
  {
    hide ObjectsPlaced, BlocksOk, BlocksLaid, RootOk, Alloc, HugeIndices, HugeId, TreeOk, HeaderOk;
    HugeCount(objects);
    assert HugeWritten(file, objects[HugeIndices(objects)[m]], ids[HugeIndices(objects)[m]], w.records[m], m, h.HugeIdSize(), h.idLen);
  }

  lemma {:induction false} HugeCount(objects: seq<seq<u8>>)
    ensures |HugeIndices(objects)| <= |objects|
  {
    if objects != [] {
      HugeCount(objects[..|objects| - 1]);
    }
  }

  lemma HugeTreeReads(user: seq<u8>, file: seq<u8>, more: seq<u8>, h: Heap, objects: seq<seq<u8>>, ids: seq<seq<u8>>, w: Witness)
    requires HeapWritten(file, h, objects, ids, w) && w.records != []
    ensures h.hugeAddr != UNDEF
    ensures V2Tree.Read(user + file + more, |user|, h.hugeAddr)
            == Some(V2Tree.Tree(1, RawRecords(V2Tree.Counted(w.records))))
  {
    hide HeapWritten, V2Tree.Stored, V2Tree.Read, RecordBytes, RawRecords;
    HugeTreeParts(file, h, objects, ids, w);
    V2Tree.ReadOfWritten(user, file, more, h.hugeAddr, w.leaf, w.nodeSize, 1, 24, RawRecords(w.records));
    RawCounted(w.records);
  }

  lemma HugeTreeParts(file: seq<u8>, h: Heap, objects: seq<seq<u8>>, ids: seq<seq<u8>>, w: Witness)
    requires HeapWritten(file, h, objects, ids, w) && w.records != []
    ensures h.hugeAddr < UNDEF && V2Tree.Stored(file, h.hugeAddr, w.leaf, w.nodeSize, 1, 24, RawRecords(w.records))
  {
    hide ObjectsPlaced, BlocksOk, BlocksLaid, RootOk, Alloc, AllHugeWritten, HeaderOk, V2Tree.Stored;
  }

  lemma RawCounted(records: seq<HugeRecord>)
    ensures RawRecords(V2Tree.Counted(records)) == V2Tree.Counted(RawRecords(records))
  {
    hide RecordBytes;
  }

  lemma GetHugeObject(user: seq<u8>, file: seq<u8>, more: seq<u8>, h: Heap, objects: seq<seq<u8>>, ids: seq<seq<u8>>, w: Witness, i: nat)
    requires HeapWritten(file, h, objects, ids, w) && i < |objects| && |objects[i]| > MAX_MANAGED
    requires |objects| < 0x1_0000_0000_0000 && h.idLen >= 7
    ensures Get(user + file + more, |user|, h, ids[i]) == Success(objects[i])
            <==> HugeRank(objects, i) < |HugeIndices(objects)| % 0x1_0000
  {
    hide HeapWritten, HugeIndices, HugeId, Get, Slice, V2Tree.Read, RawRecords, FindHuge;
    HugeAtRank(objects, i);
    var m, all := HugeRank(objects, i), user + file + more;
    RecordOf(file, h, objects, ids, w, m);
    HugeTreeReads(user, file, more, h, objects, ids, w);
    SmallIds(file, h, objects, ids, w, i, m);
    GetOfHugeId(all, |user|, h, m + 1);
    forall k | 0 <= k < |w.records| ensures w.records[k].id == k + 1 && RecordFits(w.records[k]) {
      RecordOf(file, h, objects, ids, w, k);
    }
    FindNumbered(V2Tree.Counted(w.records), 1, m + 1);
    Embedded(user, file, more, w.records[m].addr, w.records[m].addr + w.records[m].len);
    SliceOfAll(all, |user| + w.records[m].addr, w.records[m].len);
  }

  lemma SmallIds(file: seq<u8>, h: Heap, objects: seq<seq<u8>>, ids: seq<seq<u8>>, w: Witness, i: nat, m: nat)
    requires HeapWritten(file, h, objects, ids, w) && h.idLen >= 7 && m < |HugeIndices(objects)| && |objects| < 0x1_0000_0000_0000
    ensures h.idLen <= 16 && m + 1 < Pow2(8 * h.HugeIdSize())
  {
    hide ObjectsPlaced, BlocksOk, BlocksLaid, RootOk, Alloc, AllHugeWritten, HeaderOk, TreeOk, HugeIndices;
    HugeCount(objects);
    IdFits(m + 1, h.HugeIdSize());
  }

  lemma SliceOfAll(all: seq<u8>, at: nat, len: nat)
    requires at + len <= |all|
    ensures Slice(all, at, len) == Success(all[at..at + len])
  {
  }

  lemma IdFits(n: nat, idSize: nat)
    requires n <= 0x1_0000_0000_0000 - 1 && idSize >= 6
    ensures n < Pow2(8 * idSize)
  {
    Pow2Constants();
    Pow2Add(16, 32);
    Pow2Square(8, 0x100);
    Pow2Monotone(48, 8 * idSize);
  }

  lemma GetManagedObject(user: seq<u8>, file: seq<u8>, more: seq<u8>, h: Heap, objects: seq<seq<u8>>, ids: seq<seq<u8>>, w: Witness, i: nat)
    requires HeapWritten(file, h, objects, ids, w) && i < |objects| && |objects[i]| <= MAX_MANAGED
    ensures Get(user + file + more, |user|, h, ids[i]) == Success(objects[i]) <==> !AtVeryEnd(objects, i, 13 + h.offSize)
  {
    hide HeapWritten, BlocksLaid, BlocksOk, RootOk, Alloc, ManagedId, Get, GetManaged, SlotOff, SlotSize, Stored, PlaceOf, AtVeryEnd;
    var prefix := 13 + h.offSize;
    ManagedParts(file, h, objects, ids, w, i);
    var (k, p) := PlaceOf(objects, i, prefix);
    LayoutStays(user, file, more, h, w.addrs, w.dblocks, w.heapAddr);
    OffsetFits(w.dblocks, objects[i], k, p, prefix, h.offSize);
    GetOfManagedId(user + file + more, |user|, h, SlotOff(k) + p, |objects[i]|);
    GetPlaced(user + file + more, |user|, h, w.addrs, w.dblocks, w.heapAddr, objects[i], k, p);
    EndMeans(objects, i, prefix, w.dblocks, k, p);
  }

  lemma ManagedParts(file: seq<u8>, h: Heap, objects: seq<seq<u8>>, ids: seq<seq<u8>>, w: Witness, i: nat)
    requires HeapWritten(file, h, objects, ids, w) && i < |objects| && |objects[i]| <= MAX_MANAGED
    ensures 3 <= h.offSize <= 8 && 3 + h.offSize <= h.idLen && h.lenSize == 2
    ensures BlocksOk(w.dblocks, 13 + h.offSize) && RootOk(file, 0, h, w.addrs) && Alloc(objects, 13 + h.offSize) == Some(BumpOf(w.dblocks))
    ensures BlocksLaid(file, 0, w.addrs, w.dblocks, w.heapAddr, h.offSize) && |w.addrs| == |w.dblocks| && |ids| == |objects|
    ensures var (k, p) := PlaceOf(objects, i, 13 + h.offSize);
            && 13 + h.offSize <= p && Stored(w.dblocks, objects[i], k, p)
            && ids[i] == ManagedId(SlotOff(k) + p, |objects[i]|, h.offSize, h.idLen)
  {
    hide BlocksOk, Alloc, AllHugeWritten, TreeOk, HeaderOk, ManagedId, SlotOff, SlotSize, Stored, PlaceOf, RootSlot, BlockLaid, BlockOffAt;
    assert ObjectPlaced(objects, i, w.dblocks, ids[i], h.offSize, h.idLen);
  }

  lemma EndMeans(objects: seq<seq<u8>>, i: nat, prefix: nat, dblocks: seq<DBlock>, k: nat, p: nat)
    requires i < |objects| && Alloc(objects, prefix) == Some(BumpOf(dblocks)) && PlaceOf(objects, i, prefix) == (k, p)
    ensures AtVeryEnd(objects, i, prefix) <==> |dblocks| >= 2 && k + 1 == |dblocks| && p == SlotSize(k)
  {
    hide Alloc, PlaceOf, SlotSize;
  }

  lemma OffsetFits(dblocks: seq<DBlock>, obj: seq<u8>, k: nat, p: nat, prefix: nat, offSize: nat)
    requires BlocksOk(dblocks, prefix) && Stored(dblocks, obj, k, p) && offSize >= 3
    ensures SlotOff(k) + p < Pow2(8 * offSize)
  {
    hide SlotOff, SlotSize;
    SlotNext(k);
    SlotBound(k + 1);
    Pow2Square(8, 0x100) by { assert Pow2(8) == 0x100; }
    Pow2Add(16, 8);
    assert Pow2(8) == 0x100;
    Pow2Monotone(24, 8 * offSize);
  }

  /** Parsing the header at the heap's address and following the identifier of object i, in a file
      with anything before the heap and anything appended after it, gives object i back exactly
      when its length and place allow it. */
  lemma HeapAgreesWithList(user: seq<u8>, file: seq<u8>, more: seq<u8>, h: Heap, objects: seq<seq<u8>>, ids: seq<seq<u8>>, w: Witness, i: nat)
    requires HeapWritten(file, h, objects, ids, w) && i < |objects| == |ids|
    requires |objects| < 0x1_0000_0000_0000 && h.idLen >= 7
    ensures HeapHeader.Parse(user + file + more, |user|, w.heapAddr) == Some(h)
    ensures Get(user + file + more, |user|, h, ids[i]) == Success(objects[i]) <==> Retrievable(objects, i, 13 + h.offSize)
  {
    hide HeapWritten, AtVeryEnd, HugeRank, Get, HeapHeader.Parse;
    TableOfHeap(file, h, objects, ids, w);
    HeaderReads(user, file, more, h, objects, ids, w);
    if |objects[i]| <= MAX_MANAGED {
      GetManagedObject(user, file, more, h, objects, ids, w, i);
    } else {
      GetHugeObject(user, file, more, h, objects, ids, w, i);
    }
  }

  lemma HeaderReads(user: seq<u8>, file: seq<u8>, more: seq<u8>, h: Heap, objects: seq<seq<u8>>, ids: seq<seq<u8>>, w: Witness)
    requires HeapWritten(file, h, objects, ids, w)
    ensures HeapHeader.Parse(user + file + more, |user|, w.heapAddr) == Some(h)
  {
    hide ObjectsPlaced, BlocksOk, BlocksLaid, Alloc, AllHugeWritten, TreeOk, HeapHeader.Parse, HeapHeader.HeaderBytes, RootSlot, BlockOffAt;
    HeapHeader.ParseOfHeader(user, file, more, w.heapAddr, h.idLen, w.bits, h.hugeAddr, h.root, h.curRows, w.counters);
  }

  /** Writes a heap behind whatever is in the file, and fetches one of its objects from the heap's
      address alone. */
  method StoreAndFetch(w: Writer, objects: seq<seq<u8>>, i: nat, idLen: nat, maxHeapBits: nat, checksum: seq<u8> -> u32,
                       user: seq<u8>, more: seq<u8>) returns (r: Option<Result<seq<u8>, HeapError>>)
    requires i < |objects| < 0x1_0000_0000_0000
    requires 17 <= maxHeapBits <= 64 && 3 + (maxHeapBits + 7) / 8 <= idLen <= 16 && idLen >= 7
    modifies w
    ensures Alloc(objects, 13 + (maxHeapBits + 7) / 8).None? ==> r.None?
    ensures Alloc(objects, 13 + (maxHeapBits + 7) / 8).Some? ==>
              |old(w.buf)| <= |w.buf| <= |old(w.buf)| + HeapRoom(objects) && w.buf[..|old(w.buf)|] == old(w.buf)
    ensures Alloc(objects, 13 + (maxHeapBits + 7) / 8).Some? && |old(w.buf)| + HeapRoom(objects) < UNDEF ==>
              r.Some? && (r.value == Success(objects[i]) <==> Retrievable(objects, i, 13 + (maxHeapBits + 7) / 8))
  {
    hide HeapWritten, Retrievable, Get, HeapHeader.Parse, Alloc, HeapRoom;
    var written;
    ghost var h, x;
    written, h, x := WriteFractalHeap(w.buf, objects, idLen, maxHeapBits, checksum);
    if written.None? {
      return None;
    }
    var (file, addr, ids) := written.value;
    w.buf := file;
    if |file| < UNDEF {
      IdsOfAll(file, h, objects, ids, x);
      HeapAgreesWithList(user, file, more, h, objects, ids, x, i);
    }
    var parsed := HeapHeader.Parse(user + w.buf + more, |user|, addr);
    if parsed.None? || i >= |ids| {
      return None;
    }
    r := Some(Get(user + w.buf + more, |user|, parsed.value, ids[i]));
  }

  lemma IdsOfAll(file: seq<u8>, h: Heap, objects: seq<seq<u8>>, ids: seq<seq<u8>>, w: Witness)
    requires HeapWritten(file, h, objects, ids, w)
    ensures |ids| == |objects|
  {
    hide ObjectPlaced, BlocksOk, BlocksLaid, RootOk, Alloc, AllHugeWritten, TreeOk, HeaderOk;
  }

  lemma TableOfHeap(file: seq<u8>, h: Heap, objects: seq<seq<u8>>, ids: seq<seq<u8>>, w: Witness)
    requires HeapWritten(file, h, objects, ids, w)
    ensures h.table == TABLE
  {
    TableFacts();
  }

  /** Two objects that fill a block each, then an empty one: the empty one cannot be fetched. */
  lemma EmptyObjectLost()
    ensures var full := Zeroed(1007); !Retrievable([full, full, []], 2, 17)
  {
    hide SlotOff, SlotSize, Fit, Alloc;
    var full := Zeroed(1007);
    var objects: seq<seq<u8>> := [full, full, []];
    FirstSlots();
    FirstFits();
    NothingAllocated(17);
    assert objects[..0] == [];
    NextAlloc(objects, 0, 17);
    NextAlloc(objects, 1, 17);
    NextAlloc(objects, 2, 17);
    Seqs.TakeAll(objects, 3);
  }

  lemma FirstFits()
    ensures Fit(Bump(0, 0), 1007, 17) == Some(Bump(1, 17)) && Fit(Bump(1, 1024), 1007, 17) == Some(Bump(2, 17))
    ensures Fit(Bump(2, 1024), 0, 17) == Some(Bump(2, 1024))
  {
    hide SlotOff, SlotSize;
    FirstSlots();
  }

  lemma FirstSlots()
    ensures SlotSize(0) == 1024 && SlotSize(1) == 1024
  {
    TableFacts();
  }
}
