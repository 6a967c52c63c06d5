/** A fractal heap in the file, and what following an identifier finds there. */
module HeapLayout {
  import opened Wrappers
  import opened Bytes
  import opened DTable
  import opened FractalHeap
  import Seqs

  /** A direct block while it is filled: its heap offset and size, and its bytes up to the last object. */
  datatype DBlock = DBlock(off: nat, size: nat, data: seq<u8>)

  const FHDB: seq<u8> := [0x46, 0x48, 0x44, 0x42]

  /** A block's bytes in the file: its prefix, then its objects, then zeros. */
  function BlockImage(b: DBlock, heapAddr: nat, offSize: nat): (s: seq<u8>)
    requires 13 + offSize <= |b.data| <= b.size
    ensures |s| == b.size
  {
    FHDB + [0] + Le(heapAddr, 8) + Le(b.off, offSize) + b.data[13 + offSize..] + Zeroed(b.size - |b.data|)
  }

  lemma ImageSlice(b: DBlock, heapAddr: nat, offSize: nat, i: nat, j: nat)
    requires 13 + offSize <= |b.data| <= b.size && 13 + offSize <= i <= j <= |b.data|
    ensures BlockImage(b, heapAddr, offSize)[i..j] == b.data[i..j]
  {
    var head := FHDB + [0] + Le(heapAddr, 8) + Le(b.off, offSize);
    BehindPrefix(head, b.data, Zeroed(b.size - |b.data|), i, j);
  }

  lemma BehindPrefix(head: seq<u8>, data: seq<u8>, rest: seq<u8>, i: nat, j: nat)
    requires |head| <= i <= j <= |data|
    ensures (head + data[|head|..] + rest)[i..j] == data[i..j]
  {
  }

  ghost predicate BlocksOk(dblocks: seq<DBlock>, prefix: nat) {
    && |dblocks| <= MAX_SLOTS
    && forall k :: 0 <= k < |dblocks| ==>
         dblocks[k].off == SlotOff(k) && dblocks[k].size == SlotSize(k) && prefix <= |dblocks[k].data| <= dblocks[k].size
  }

  /** An object lies at position p of block k. */
  ghost predicate Stored(dblocks: seq<DBlock>, obj: seq<u8>, k: nat, p: nat) {
    k < |dblocks| && p + |obj| <= |dblocks[k].data| && dblocks[k].data[p..p + |obj|] == obj
  }

  ghost predicate BlockLaid(file: seq<u8>, base: nat, addr: nat, b: DBlock, heapAddr: nat, offSize: nat) {
    && 13 + offSize <= |b.data| <= b.size && base + addr + b.size <= |file|
    && file[base + addr..base + addr + b.size] == BlockImage(b, heapAddr, offSize)
  }

  ghost predicate BlocksLaid(file: seq<u8>, base: nat, addrs: seq<nat>, dblocks: seq<DBlock>, heapAddr: nat, offSize: nat) {
    |addrs| == |dblocks| && forall k :: 0 <= k < |addrs| ==> BlockLaid(file, base, addrs[k], dblocks[k], heapAddr, offSize)
  }

  /** The root leads to the blocks: directly to a single one, else through an indirect block. */
  ghost predicate RootOk(file: seq<u8>, base: nat, h: Heap, addrs: seq<nat>) {
    && h.table == TABLE && h.lenSize == 2 && 3 + h.offSize <= h.idLen <= 16
    && (|addrs| == 1 ==> h.curRows == 0 && h.root == addrs[0])
    && (|addrs| >= 2 ==>
          && h.curRows == (|addrs| + 3) / WIDTH && BlockOffAt(file, base + h.root, h.offSize) == Some(0)
          && forall s :: 0 <= s < WIDTH * h.curRows ==> RootSlot(file, base, h, addrs, s))
  }

  ghost predicate RootSlot(file: seq<u8>, base: nat, h: Heap, addrs: seq<nat>, s: nat) {
    SlotAt(file, Entries(base + h.root, h.offSize), s) == Some(if s < |addrs| then Some(addrs[s]) else None)
  }

  /** Looking up an offset in slot s of an indirect root. */
  lemma LocateSlot(file: seq<u8>, base: nat, h: Heap, addrs: seq<nat>, s: nat, off: nat)
    requires RootOk(file, base, h, addrs) && 2 <= |addrs| <= MAX_SLOTS && s <= |addrs|
    requires SlotOff(s) <= off < SlotOff(s) + SlotSize(s)
    ensures s < |addrs| ==> LocateBlock(file, base, h, off) == Success((addrs[s], SlotOff(s)))
    ensures s == |addrs| ==> LocateBlock(file, base, h, off).Failure?
  {
    hide SlotAt, BlockOffAt, Locate, Slot;
    TableFacts();
    LookupSlot(s, off);
    var row, col := s / WIDTH, s % WIDTH;
    var img := FileImage(file, base, h.offSize);
    if row < h.curRows {
      assert RootSlot(file, base, h, addrs, s);
      assert img.entry(h.root, s) == SlotAt(file, Entries(base + h.root, h.offSize), s);
    }
    LocateDirect(TABLE, img, h.root, h.curRows, 0, off, row, col);
  }

  /** Following a managed object's place finds the object, with one exception: an empty object at the
      very end of the last of several blocks. */
  lemma GetPlaced(file: seq<u8>, base: nat, h: Heap, addrs: seq<nat>, dblocks: seq<DBlock>, heapAddr: nat, obj: seq<u8>, k: nat, p: nat)
    requires RootOk(file, base, h, addrs) && BlocksLaid(file, base, addrs, dblocks, heapAddr, h.offSize)
    requires BlocksOk(dblocks, 13 + h.offSize) && Stored(dblocks, obj, k, p) && 13 + h.offSize <= p
    ensures GetManaged(file, base, h, SlotOff(k) + p, |obj|) == Success(obj)
            <==> !(|addrs| >= 2 && k + 1 == |addrs| && p == SlotSize(k))
  {
    hide SlotOff, SlotSize, LocateBlock, BlockImage, SlotAt, BlockOffAt;
    TableFacts();
    SlotNext(k);
    SlotSizes(k + 1);
    var b, off := dblocks[k], SlotOff(k) + p;
    assert BlockLaid(file, base, addrs[k], b, heapAddr, h.offSize);
    ImageSlice(b, heapAddr, h.offSize, p, p + |obj|);
    Seqs.SliceOfSlice(file, base + addrs[k], base + addrs[k] + b.size, p, p + |obj|);
    if |addrs| == 1 {
      SingleBlock(file, base, h, off);
    } else if p < SlotSize(k) {
      LocateSlot(file, base, h, addrs, k, off);
    } else {
      LocateSlot(file, base, h, addrs, k + 1, off);
      assert obj == [];
      if k + 1 < |addrs| {
        assert BlockLaid(file, base, addrs[k + 1], dblocks[k + 1], heapAddr, h.offSize);
        NothingThere(file, base + addrs[k + 1]);
        assert off == SlotOff(k + 1);
      }
    }
  }

  lemma NothingThere(file: seq<u8>, at: nat)
    requires at <= |file|
    ensures Slice(file, at, 0) == Success([])
  {
    assert file[at..at] == [];
  }

  lemma SingleBlock(file: seq<u8>, base: nat, h: Heap, off: nat)
    requires Nests(h.table) && h.curRows == 0
    ensures LocateBlock(file, base, h, off) == Success((h.root, 0))
  {
  }

  // ----- the heap inside a larger file

  lemma Embedded(user: seq<u8>, file: seq<u8>, more: seq<u8>, i: nat, j: nat)
    requires i <= j <= |file|
    ensures (user + file + more)[|user| + i..|user| + j] == file[i..j]
  {
  }

  /** Bytes before the heap's file and appends after it change nothing of the heap. */
  lemma LayoutStays(user: seq<u8>, file: seq<u8>, more: seq<u8>, h: Heap, addrs: seq<nat>, dblocks: seq<DBlock>, heapAddr: nat)
    requires RootOk(file, 0, h, addrs) && BlocksLaid(file, 0, addrs, dblocks, heapAddr, h.offSize)
    ensures RootOk(user + file + more, |user|, h, addrs)
    ensures BlocksLaid(user + file + more, |user|, addrs, dblocks, heapAddr, h.offSize)
  {
    hide BlockImage, FromLe;
    var all := user + file + more;
    forall k | 0 <= k < |addrs|
      ensures BlockLaid(all, |user|, addrs[k], dblocks[k], heapAddr, h.offSize)
    {
      assert BlockLaid(file, 0, addrs[k], dblocks[k], heapAddr, h.offSize);
      Embedded(user, file, more, addrs[k], addrs[k] + dblocks[k].size);
    }
    if |addrs| >= 2 {
      Embedded(user, file, more, h.root, h.root + 4);
      Embedded(user, file, more, h.root + 13, h.root + 13 + h.offSize);
      forall s | 0 <= s < WIDTH * h.curRows ensures RootSlot(all, |user|, h, addrs, s) {
        assert RootSlot(file, 0, h, addrs, s);
        var e := Entries(h.root, h.offSize);
        Embedded(user, file, more, e + 8 * s, e + 8 * s + 8);
      }
    }
  }

  // ----- huge objects

  /** Records name objects 1, 2, ... in order. */
  ghost predicate Numbered(records: seq<HugeRecord>, first: nat) {
    forall m :: 0 <= m < |records| ==> records[m].id == first + m
  }

  function RecordBytes(r: HugeRecord): (s: seq<u8>)
    ensures |s| == 24
  {
    Le(r.addr, 8) + Le(r.len, 8) + Le(r.id, 8)
  }

  function RawRecords(records: seq<HugeRecord>): (s: seq<seq<u8>>)
    ensures |s| == |records| && forall i :: 0 <= i < |s| ==> |s[i]| == 24
  {
    seq(|records|, i requires 0 <= i < |records| => RecordBytes(records[i]))
  }

  ghost predicate RecordFits(r: HugeRecord) {
    r.addr < TWO_64 && r.len < TWO_64 && r.id < TWO_64
  }

  lemma RecordFields(r: HugeRecord)
    requires RecordFits(r)
    ensures var s := RecordBytes(r); FromLe(s[..8]) == r.addr && FromLe(s[8..16]) == r.len && FromLe(s[16..24]) == r.id
  {
    hide Le, FromLe;
    var a, b, c := Le(r.addr, 8), Le(r.len, 8), Le(r.id, 8);
    assert (a + b + c)[..8] == a && (a + b + c)[8..16] == b && (a + b + c)[16..24] == c;
    EightBytes(r.addr);
    EightBytes(r.len);
    EightBytes(r.id);
  }

  lemma {:induction false} FindNumbered(records: seq<HugeRecord>, first: nat, id: nat)
    requires Numbered(records, first) && id >= first && forall m :: 0 <= m < |records| ==> RecordFits(records[m])
    ensures FindHuge(RawRecords(records), id) ==
            if id < first + |records| then Success((records[id - first].addr, records[id - first].len)) else Failure(NoSuchHuge)
    decreases |records|
  {
    hide FromLe, RecordBytes;
    if records != [] {
      RecordFields(records[0]);
      assert RawRecords(records)[1..] == RawRecords(records[1..]);
      if id > first {
        FindNumbered(records[1..], first + 1, id);
      }
    }
  }
}
