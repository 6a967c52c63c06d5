/** The header of a fractal heap: what the writer puts there and what the reader takes from it. */
module HeapHeader {
  import opened Wrappers
  import opened Bytes
  import opened DTable
  import opened FractalHeap
  import Seqs

  const FRHP: seq<u8> := [0x46, 0x52, 0x48, 0x50]
  const HEADER_SIZE: nat := 146

  /** Counters that the reader skips. */
  datatype Counters = Counters(managedSize: nat, managed: nat, hugeSize: nat, huge: nat)

  /** Signature, version, identifier length, no filters, no flags, largest managed object. */
  function Start(idLen: nat): (s: seq<u8>)
    ensures |s| == 14
  {
    FRHP + [0] + Le(idLen, 2) + (Le(0, 2) + [0] + Le(MAX_MANAGED, 4))
  }

  /** The next huge identifier, the tree of huge objects, then free space and statistics. */
  function Middle(hugeAddr: nat, c: Counters): (s: seq<u8>)
    ensures |s| == 96
  {
    Le(c.huge + 1, 8) + Le(hugeAddr, 8) + (Le(0, 8) + Le(UNDEF, 8) + Le(c.managedSize, 8) + Le(c.managedSize, 8) + Le(c.managedSize, 8)
    + Le(c.managed, 8) + Le(c.hugeSize, 8) + Le(c.huge, 8) + Le(0, 8) + Le(0, 8))
  }

  /** The doubling table: width, sizes, bits of an offset, starting rows, root, rows. */
  function TableBytes(bits: nat, root: nat, rows: nat): (s: seq<u8>)
    ensures |s| == 32
  {
    Le(WIDTH, 2) + Le(1024, 8) + (Le(MAX_DIRECT, 8) + Le(bits, 2) + (Le(1, 2) + Le(root, 8) + Le(rows, 2)))
  }

  function HeaderBytes(idLen: nat, bits: nat, hugeAddr: nat, root: nat, rows: nat, c: Counters): (s: seq<u8>)
    ensures |s| == 142
  {
    Start(idLen) + Middle(hugeAddr, c) + TableBytes(bits, root, rows)
  }

  // ----- reading

  /** Bytes needed for values up to `limit`. */
  function LimitSize(limit: nat): nat {
    Log2Gen(Max(limit, 1)) / 8 + 1
  }

  function IsPow2(v: nat): bool {
    v > 0 && Pow2(Log2Gen(v)) == v
  }

  /** `FractalHeap::parse`, for heaps without filters whose sizes are powers of two. */
  function Parse(data: seq<u8>, base: nat, addr: nat): Option<Heap> {
    var at := base + addr;
    if at + 142 > |data| || data[at..at + 4] != FRHP || data[at + 4] != 0 then None
    else
      var idLen, filterLen, maxManaged := FromLe(data[at + 5..at + 7]), FromLe(data[at + 7..at + 9]), FromLe(data[at + 10..at + 14]);
      var hugeAddr := FromLe(data[at + 22..at + 30]);
      var width, start, maxDirect := FromLe(data[at + 110..at + 112]), FromLe(data[at + 112..at + 120]), FromLe(data[at + 120..at + 128]);
      var bits, root, rows := FromLe(data[at + 128..at + 130]), FromLe(data[at + 132..at + 140]), FromLe(data[at + 140..at + 142]);
      if filterLen > 0 || !IsPow2(width) || !IsPow2(start) || !IsPow2(maxDirect) then None
      else
        Some(Heap(Table(Log2Gen(start), Log2Gen(width), Log2Gen(maxDirect)), idLen, (bits + 7) / 8,
                  Min(LimitSize(maxDirect), LimitSize(maxManaged)), root, rows, hugeAddr))
  }

  lemma StartFields(data: seq<u8>, at: nat, idLen: nat)
    requires Seqs.At(data, at, Start(idLen)) && idLen < 0x1_0000
    ensures at + 14 <= |data| && data[at..at + 4] == FRHP && data[at + 4] == 0
    ensures FromLe(data[at + 5..at + 7]) == idLen && FromLe(data[at + 7..at + 9]) == 0 && FromLe(data[at + 10..at + 14]) == MAX_MANAGED
  {
    hide Le, FromLe;
    var version, limits: seq<u8> := [0], Le(0, 2) + [0] + Le(MAX_MANAGED, 4);
    Seqs.AtSplit(data, at, FRHP + version + Le(idLen, 2), limits);
    Seqs.AtSplit(data, at, FRHP + version, Le(idLen, 2));
    Seqs.AtSplit(data, at, FRHP, version);
    Seqs.AtElement(data, at + 4, version, 0);
    Seqs.AtSplit(data, at + 7, Le(0, 2) + [0], Le(MAX_MANAGED, 4));
    Seqs.AtSplit(data, at + 7, Le(0, 2), [0]);
    TwoBytes(idLen);
    TwoBytes(0);
    FourBytes(MAX_MANAGED);
  }

  lemma MiddleFields(data: seq<u8>, at: nat, hugeAddr: nat, c: Counters)
    requires Seqs.At(data, at, Middle(hugeAddr, c)) && hugeAddr < TWO_64
    ensures at + 96 <= |data| && FromLe(data[at + 8..at + 16]) == hugeAddr
  {
    hide Le, FromLe;
    var rest := Le(0, 8) + Le(UNDEF, 8) + Le(c.managedSize, 8) + Le(c.managedSize, 8) + Le(c.managedSize, 8)
                + Le(c.managed, 8) + Le(c.hugeSize, 8) + Le(c.huge, 8) + Le(0, 8) + Le(0, 8);
    Seqs.AtSplit(data, at, Le(c.huge + 1, 8) + Le(hugeAddr, 8), rest);
    Seqs.AtSplit(data, at, Le(c.huge + 1, 8), Le(hugeAddr, 8));
    EightBytes(hugeAddr);
  }

  lemma TableFields(data: seq<u8>, at: nat, bits: nat, root: nat, rows: nat)
    requires Seqs.At(data, at, TableBytes(bits, root, rows)) && bits < 0x1_0000 && root < TWO_64 && rows < 0x1_0000
    ensures at + 32 <= |data|
    ensures FromLe(data[at..at + 2]) == WIDTH && FromLe(data[at + 2..at + 10]) == 1024 && FromLe(data[at + 10..at + 18]) == MAX_DIRECT
    ensures FromLe(data[at + 18..at + 20]) == bits && FromLe(data[at + 22..at + 30]) == root && FromLe(data[at + 30..at + 32]) == rows
  {
    hide Le, FromLe;
    var tail := Le(1, 2) + Le(root, 8) + Le(rows, 2);
    var back := Le(MAX_DIRECT, 8) + Le(bits, 2) + tail;
    Seqs.AtSplit(data, at, Le(WIDTH, 2) + Le(1024, 8), back);
    Seqs.AtSplit(data, at, Le(WIDTH, 2), Le(1024, 8));
    Seqs.AtSplit(data, at + 10, Le(MAX_DIRECT, 8) + Le(bits, 2), tail);
    Seqs.AtSplit(data, at + 10, Le(MAX_DIRECT, 8), Le(bits, 2));
    Seqs.AtSplit(data, at + 20, Le(1, 2) + Le(root, 8), Le(rows, 2));
    Seqs.AtSplit(data, at + 20, Le(1, 2), Le(root, 8));
    TwoBytes(WIDTH);
    TwoBytes(bits);
    TwoBytes(rows);
    EightBytes(1024);
    EightBytes(MAX_DIRECT);
    EightBytes(root);
  }

  lemma SizesOfHeap()
    ensures Log2Gen(WIDTH) == 2 && Log2Gen(1024) == 10 && Log2Gen(MAX_DIRECT) == 16
    ensures IsPow2(WIDTH) && IsPow2(1024) && IsPow2(MAX_DIRECT)
    ensures Min(LimitSize(MAX_DIRECT), LimitSize(MAX_MANAGED)) == 2
  {
    TableFacts();
    assert Pow2(2) == 4 && Pow2(12) == 4096;
    Log2GenUnique(WIDTH, 2);
    Log2GenUnique(1024, 10);
    Log2GenUnique(MAX_MANAGED, 12);
    Log2GenUnique(MAX_DIRECT, 16);
  }

  /** The reader gets from a written header what the writer put there, in a file with anything in
      front and behind. */
  lemma ParseOfHeader(pre: seq<u8>, file: seq<u8>, more: seq<u8>, addr: nat, idLen: nat, bits: nat, hugeAddr: nat, root: nat, rows: nat, c: Counters)
    requires Seqs.At(file, addr, HeaderBytes(idLen, bits, hugeAddr, root, rows, c))
    requires idLen < 0x1_0000 && bits < 0x1_0000 && hugeAddr < TWO_64 && root < TWO_64 && rows < 0x1_0000
    ensures Parse(pre + file + more, |pre|, addr) == Some(Heap(TABLE, idLen, (bits + 7) / 8, 2, root, rows, hugeAddr))
  {
    hide Le, FromLe, Start, Middle, TableBytes, Log2Gen, IsPow2, LimitSize, Seqs.At;
    var data, at := pre + file + more, |pre| + addr;
    Seqs.AtInside(pre, file, more, addr, HeaderBytes(idLen, bits, hugeAddr, root, rows, c));
    Seqs.AtSplit(data, at, Start(idLen) + Middle(hugeAddr, c), TableBytes(bits, root, rows));
    Seqs.AtSplit(data, at, Start(idLen), Middle(hugeAddr, c));
    StartFields(data, at, idLen);
    MiddleFields(data, at + 14, hugeAddr, c);
    TableFields(data, at + 110, bits, root, rows);
    SizesOfHeap();
  }
}
