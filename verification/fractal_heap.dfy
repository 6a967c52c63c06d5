/** Objects in a fractal heap: their identifiers, and how an identifier is followed. */
module FractalHeap {
  import opened Wrappers
  import opened Bytes
  import opened DTable
  import Seqs
  import Transpose
  import V2Tree

  // ----- the heaps written here: blocks of 1 KiB to 64 KiB, four to a row

  const TABLE: Table := Table(10, 2, 16)
  const WIDTH: nat := 4
  const MAX_DIRECT: nat := 0x1_0000
  const MAX_SLOTS: nat := 32
  const MAX_MANAGED: nat := 4096

  function SlotOff(s: nat): nat {
    TABLE.Offset(s / WIDTH, s % WIDTH)
  }

  function SlotSize(s: nat): (n: nat)
    ensures n > 0
  {
    TABLE.RowSize(s / WIDTH)
  }

  lemma TableFacts()
    ensures TABLE.Width() == WIDTH && TABLE.MaxDirectRows() == 8 && Nests(TABLE) && Pow2(10) == 1024 && Pow2(16) == MAX_DIRECT
  {
    assert Pow2(2) == 4;
    assert Pow2(5) == 32;
    Pow2Square(5, 32);
    assert Pow2(8) == 0x100;
    Pow2Square(8, 0x100);
  }

  /** Slots are numbered along the rows; 32 of them hold direct blocks. */
  lemma SlotSizes(s: nat)
    ensures SlotSize(s) >= 1024
    ensures SlotSize(s) <= MAX_DIRECT <==> s < MAX_SLOTS
  {
    hide Pow2;
    TableFacts();
    var row := s / WIDTH;
    RowSizes(row);
  }

  lemma RowSizes(row: nat)
    ensures TABLE.RowSize(row) >= 1024
    ensures TABLE.RowSize(row) <= MAX_DIRECT <==> row < 8
  {
    hide Pow2;
    TableFacts();
    var bits := TABLE.RowBits(row);
    Pow2Monotone(10, bits);
    if row < 8 {
      Pow2Monotone(bits, 16);
    } else {
      Pow2Monotone(17, bits);
      Pow2Step(16);
    }
  }

  lemma Pow2Step(n: nat)
    ensures Pow2(n + 1) == 2 * Pow2(n)
  {
  }

  /** Slots follow each other without gaps. */
  lemma SlotNext(s: nat)
    ensures SlotOff(s) + SlotSize(s) == SlotOff(s + 1) && SlotOff(0) == 0
  {
    hide Pow2;
    TableFacts();
    var row, col := s / WIDTH, s % WIDTH;
    Distribute(TABLE.RowSize(row), col, 1);
    if col + 1 == WIDTH {
      assert (s + 1) / WIDTH == row + 1 && (s + 1) % WIDTH == 0;
    } else {
      assert (s + 1) / WIDTH == row && (s + 1) % WIDTH == col + 1;
    }
  }

  lemma {:induction false} SlotsInOrder(a: nat, b: nat)
    requires a < b
    ensures SlotOff(a) + SlotSize(a) <= SlotOff(b)
  {
    hide SlotOff, SlotSize;
    SlotNext(b - 1);
    if a < b - 1 {
      SlotsInOrder(a, b - 1);
    }
  }

  lemma SlotBound(s: nat)
    requires s <= MAX_SLOTS
    ensures SlotOff(s) <= 0x8_0000
  {
    if s < MAX_SLOTS {
      SlotsInOrder(s, MAX_SLOTS);
    }
    assert SlotOff(MAX_SLOTS) == TABLE.RowStart(8);
    RowStartIsPow2(TABLE, 8);
    assert Pow2(3) == 8;
    TableFacts();
    Pow2Add(3, 16);
  }

  lemma LookupSlot(s: nat, off: nat)
    requires SlotOff(s) <= off < SlotOff(s) + SlotSize(s)
    ensures TABLE.Lookup(off) == (s / WIDTH, s % WIDTH) && Slot(TABLE, s / WIDTH, s % WIDTH) == s
  {
    TableFacts();
    LookupUnique(TABLE, off, s / WIDTH, s % WIDTH);
  }

  // ----- reading

  datatype HeapError = EmptyId | TruncatedId | NotFound(error: LocateError) | OutOfBounds
                     | NoHugeTree | BadHugeTree | TruncatedRecord | NoSuchHuge | UnknownType

  /** A record of the tree of huge objects. */
  datatype HugeRecord = HugeRecord(addr: nat, len: nat, id: nat)

  /** A parsed heap header without filters; `hugeAddr` leads to the tree of huge objects. */
  datatype Heap = Heap(table: Table, idLen: nat, offSize: nat, lenSize: nat, root: nat, curRows: nat, hugeAddr: nat) {
    function HugeIdSize(): nat {
      Min(if idLen >= 1 then idLen - 1 else 0, 8)
    }

    predicate HugeDirect() {
      16 < idLen
    }
  }

  const FHIB: seq<u8> := [0x46, 0x48, 0x49, 0x42]

  /** Where the slots of an indirect block begin. */
  function Entries(addr: nat, offSize: nat): nat {
    addr + 13 + offSize
  }

  /** An indirect block in the file: signature, version, heap address, own offset, slots. */
  function BlockOffAt(file: seq<u8>, at: nat, offSize: nat): Option<nat> {
    if at + 13 + offSize > |file| || file[at..at + 4] != FHIB then None
    else Some(FromLe(file[at + 13..at + 13 + offSize]))
  }

  function SlotAt(file: seq<u8>, entries: nat, i: nat): Option<Option<nat>> {
    if entries + 8 * i + 8 > |file| then None
    else
      var a := FromLe(file[entries + 8 * i..entries + 8 * i + 8]);
      Some(if a == UNDEF then None else Some(a))
  }

  function FileImage(file: seq<u8>, base: nat, offSize: nat): Image {
    Image(addr => BlockOffAt(file, base + addr, offSize), (addr, i) => SlotAt(file, Entries(base + addr, offSize), i))
  }

  /** `locate_dblock`. */
  function LocateBlock(file: seq<u8>, base: nat, h: Heap, off: nat): Result<(nat, nat), LocateError>
  {
    if h.curRows == 0 then Success((h.root, 0))
    else Locate(h.table, FileImage(file, base, h.offSize), h.root, h.curRows, off)
  }

  function Slice(file: seq<u8>, start: int, len: nat): Result<seq<u8>, HeapError> {
    if start < 0 || start + len > |file| then Failure(OutOfBounds) else Success(file[start..start + len])
  }

  /** The first record with the wanted number: address and length. */
  function FindHuge(records: seq<seq<u8>>, id: nat): Result<(nat, nat), HeapError> {
    if records == [] then Failure(NoSuchHuge)
    else if |records[0]| < 24 then Failure(TruncatedRecord)
    else if FromLe(records[0][16..24]) == id then Success((FromLe(records[0][..8]), FromLe(records[0][8..16])))
    else FindHuge(records[1..], id)
  }

  function GetManaged(file: seq<u8>, base: nat, h: Heap, off: nat, len: nat): Result<seq<u8>, HeapError>
  {
    match LocateBlock(file, base, h, off)
    case Failure(e) => Failure(NotFound(e))
    case Success((addr, blockOff)) => Slice(file, base + addr + (off - blockOff), len)
  }

  function GetHuge(file: seq<u8>, base: nat, h: Heap, want: nat): Result<seq<u8>, HeapError> {
    if h.hugeAddr == UNDEF then Failure(NoHugeTree)
    else
      match V2Tree.Read(file, base, h.hugeAddr)
      case None => Failure(BadHugeTree)
      case Some(tree) =>
        if tree.kind != 1 then Failure(BadHugeTree)
        else
          match FindHuge(tree.records, want)
          case Failure(e) => Failure(e)
          case Success((addr, len)) => Slice(file, base + addr, len)
  }

  /** `FractalHeap::get`, for heaps without filters. */
  function Get(file: seq<u8>, base: nat, h: Heap, id: seq<u8>): Result<seq<u8>, HeapError>
  {
    if id == [] then Failure(EmptyId)
    else
      var kind := id[0] as int / 16 % 4;
      if kind == 0 then
        if |id| < 1 + h.offSize + h.lenSize then Failure(TruncatedId)
        else GetManaged(file, base, h, FromLe(id[1..1 + h.offSize]), FromLe(id[1 + h.offSize..1 + h.offSize + h.lenSize]))
      else if kind == 2 then
        var len: nat := id[0] as int % 16 + 1;
        if 1 + len > |id| then Failure(TruncatedId) else Success(id[1..1 + len])
      else if kind == 1 then
        if h.HugeDirect() then
          if |id| < 17 then Failure(TruncatedId) else Slice(file, base + FromLe(id[1..9]), FromLe(id[9..17]))
        else if |id| < 1 + h.HugeIdSize() then Failure(TruncatedId)
        else GetHuge(file, base, h, FromLe(id[1..1 + h.HugeIdSize()]))
      else Failure(UnknownType)
  }

  // ----- identifiers

  function ManagedId(off: nat, len: nat, offSize: nat, idLen: nat): (id: seq<u8>)
    requires 3 + offSize <= idLen
    ensures |id| == idLen
  {
    [0] + Le(off, offSize) + Le(len, 2) + Zeroed(idLen - offSize - 3)
  }

  function HugeId(n: nat, idSize: nat, idLen: nat): (id: seq<u8>)
    requires 1 + idSize <= idLen
    ensures |id| == idLen
  {
    [0x10] + Le(n, idSize) + Zeroed(idLen - idSize - 1)
  }

  lemma IdFields(kind: u8, a: seq<u8>, b: seq<u8>, rest: seq<u8>)
    ensures var id := [kind] + a + b + rest;
            id[0] == kind && id[1..1 + |a|] == a && id[1 + |a|..1 + |a| + |b|] == b
  {
    assert ([kind] + a + b + rest)[1..1 + |a|] == a;
    assert ([kind] + a + b + rest)[1 + |a|..1 + |a| + |b|] == b;
  }

  /** Following a managed identifier is looking up its offset. */
  lemma GetOfManagedId(file: seq<u8>, base: nat, h: Heap, off: nat, len: nat)
    requires h.lenSize == 2 && 3 + h.offSize <= h.idLen
    requires off < Pow2(8 * h.offSize) && len <= MAX_MANAGED
    ensures Get(file, base, h, ManagedId(off, len, h.offSize, h.idLen)) == GetManaged(file, base, h, off, len)
  {
    hide GetManaged, Le, FromLe;
    IdFields(0, Le(off, h.offSize), Le(len, 2), Zeroed(h.idLen - h.offSize - 3));
    FromLeOfLe(off, h.offSize);
    FromLeOfLe(len, 2);
    TableFacts();
  }

  lemma GetOfHugeId(file: seq<u8>, base: nat, h: Heap, n: nat)
    requires 1 <= h.idLen <= 16 && n < Pow2(8 * h.HugeIdSize())
    ensures Get(file, base, h, HugeId(n, h.HugeIdSize(), h.idLen)) == GetHuge(file, base, h, n)
  {
    hide GetHuge, Le, FromLe;
    var rest := Zeroed(h.idLen - h.HugeIdSize() - 1);
    IdFields(0x10, Le(n, h.HugeIdSize()), [], rest);
    Seqs.Empty([0x10] + Le(n, h.HugeIdSize()));
    FromLeOfLe(n, h.HugeIdSize());
  }
}
