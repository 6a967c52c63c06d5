/** Fractal heaps of any writer: every kind of object identifier, and headers of any geometry. */
module HeapIdentifiers {
  import opened Wrappers
  import opened Bytes
  import opened DTable
  import opened FractalHeap
  import opened HeapHeader
  import Seqs

  // ----- identifiers

  /** What an identifier says: place and length, the bytes themselves, an address, or a number. */
  datatype Object = Managed(off: nat, len: nat) | Tiny(bytes: seq<u8>) | Direct(addr: nat, len: nat) | Numbered(n: nat)

  /** The fields fit the heap: long identifiers hold the address of a huge object, short ones its number. */
  predicate ObjectFits(o: Object, h: Heap) {
    match o
    case Managed(off, len) => off < Pow2(8 * h.offSize) && len < Pow2(8 * h.lenSize)
    case Tiny(bytes) => 1 <= |bytes| <= 16
    case Direct(addr, len) => h.idLen >= 17 && addr < TWO_64 && len < TWO_64
    case Numbered(n) => h.idLen <= 16 && n < Pow2(8 * NumberSize(h))
  }

  function NumberSize(h: Heap): nat {
    if h.idLen == 0 then 0 else if h.idLen <= 9 then h.idLen - 1 else 8
  }

  function Fields(o: Object, h: Heap): seq<u8> {
    match o
    case Managed(off, len) => Le(off, h.offSize) + Le(len, h.lenSize)
    case Tiny(bytes) => bytes
    case Direct(addr, len) => Le(addr, 8) + Le(len, 8)
    case Numbered(n) => Le(n, NumberSize(h))
  }

  /** Version in the top two bits, the kind in the next two, and the length of a tiny object below. */
  function FirstByte(o: Object, version: nat, low: nat): (b: u8)
    requires version < 4 && low < 16 && (o.Tiny? ==> 1 <= |o.bytes| <= 16)
  {
    match o
    case Managed(_, _) => version * 64 + low
    case Direct(_, _) => version * 64 + 16 + low
    case Numbered(_) => version * 64 + 16 + low
    case Tiny(bytes) => version * 64 + 32 + (|bytes| - 1)
  }

  lemma KindOf(o: Object, version: nat, low: nat)
    requires version < 4 && low < 16 && (o.Tiny? ==> 1 <= |o.bytes| <= 16)
    ensures var b := FirstByte(o, version, low) as int;
            && b / 16 % 4 == (if o.Managed? then 0 else if o.Tiny? then 2 else 1)
            && (o.Tiny? ==> b % 16 == |o.bytes| - 1)
  {
    var kind := if o.Managed? then 0 else if o.Tiny? then 2 else 1;
    var rest := if o.Tiny? then |o.bytes| - 1 else low;
    DivUnique(FirstByte(o, version, low) as int, 16, 4 * version + kind, rest);
    DivUnique(4 * version + kind, 4, version, kind);
  }

  /** What following an identifier gives. */
  function Followed(file: seq<u8>, base: nat, h: Heap, o: Object): Result<seq<u8>, HeapError> {
    match o
    case Managed(off, len) => GetManaged(file, base, h, off, len)
    case Tiny(bytes) => Success(bytes)
    case Direct(addr, len) =>
      if base + addr + len <= |file| then Success(file[base + addr..base + addr + len]) else Failure(OutOfBounds)
    case Numbered(n) => GetHuge(file, base, h, n)
  }

  /** Every kind of identifier leads to its object, whatever its unused bits and bytes. */
  lemma GetFollows(file: seq<u8>, base: nat, h: Heap, o: Object, version: nat, low: nat, unused: seq<u8>)
    requires version < 4 && low < 16 && ObjectFits(o, h)
    ensures Get(file, base, h, [FirstByte(o, version, low)] + (Fields(o, h) + unused)) == Followed(file, base, h, o)
  {
    hide Le, FromLe, GetManaged, GetHuge, FirstByte, Pow2;
    var id := [FirstByte(o, version, low)] + (Fields(o, h) + unused);
    KindOf(o, version, low);
    match o {
      case Managed(off, len) =>
        TwoFields(id[0], Le(off, h.offSize), Le(len, h.lenSize), unused);
        FromLeOfLe(off, h.offSize);
        FromLeOfLe(len, h.lenSize);
      case Tiny(bytes) =>
        TwoFields(id[0], bytes, [], unused);
        Seqs.Empty(bytes);
      case Direct(addr, len) =>
        TwoFields(id[0], Le(addr, 8), Le(len, 8), unused);
        EightBytes(addr);
        EightBytes(len);
      case Numbered(n) =>
        TwoFields(id[0], Le(n, NumberSize(h)), [], unused);
        Seqs.Empty(Le(n, NumberSize(h)));
        FromLeOfLe(n, NumberSize(h));
    }
  }

  lemma TwoFields(first: u8, a: seq<u8>, b: seq<u8>, unused: seq<u8>)
    ensures var id := [first] + (a + b + unused);
            id[0] == first && |id| >= 1 + |a| + |b| && id[1..1 + |a|] == a && id[1 + |a|..1 + |a| + |b|] == b
  {
    var id := [first] + (a + b + unused);
    assert id[1..1 + |a|] == a && id[1 + |a|..1 + |a| + |b|] == b;
  }

  // ----- headers

  /** A header with the table's sizes as powers of two; counters, flags and free space are skipped. */
  datatype Header = Header(idLen: nat, flags: u8, maxManaged: nat, skipped: seq<u8>, hugeAddr: nat, counters: seq<u8>,
                           width: nat, start: nat, maxDirect: nat, bits: nat, startRows: nat, root: nat, rows: nat)

  ghost predicate HeaderFits(f: Header) {
    && f.idLen < 0x1_0000 && f.maxManaged < TWO_32 && |f.skipped| == 8 && f.hugeAddr < TWO_64 && |f.counters| == 80
    && f.width < 16 && f.start < 64 && f.maxDirect < 64 && f.bits < 0x1_0000 && f.root < TWO_64 && f.rows < 0x1_0000
  }

  function PrintFront(f: Header): (s: seq<u8>)
    ensures |s| == 14
  {
    [0x46, 0x52, 0x48, 0x50, 0] + (Le(f.idLen, 2) + (Le(0, 2) + ([f.flags] + Le(f.maxManaged, 4))))
  }

  function PrintTable(f: Header): (s: seq<u8>)
    ensures |s| == 32
  {
    Le(Pow2(f.width), 2) + (Le(Pow2(f.start), 8) + (Le(Pow2(f.maxDirect), 8)
    + (Le(f.bits, 2) + (Le(f.startRows, 2) + (Le(f.root, 8) + Le(f.rows, 2))))))
  }

  function PrintHeader(f: Header): seq<u8> {
    PrintFront(f) + (f.skipped + (Le(f.hugeAddr, 8) + (f.counters + PrintTable(f))))
  }

  /** n bytes are just enough for numbers up to `limit`. */
  ghost predicate JustHolds(n: nat, limit: nat) {
    n >= 1 && limit < Pow2(8 * n) && (n > 1 ==> limit >= Pow2(8 * (n - 1)))
  }

  lemma LimitIsJust(n: nat, limit: nat)
    requires JustHolds(n, limit)
    ensures LimitSize(limit) == n
  {
    hide Pow2;
    var v := Max(limit, 1);
    var k := Log2Gen(v);
    Log2GenBounds(v);
    NoBits();
    Pow2Monotone(0, 8 * n - 1);
    if k >= 8 * n {
      Pow2Monotone(8 * n, k);
    }
    if n > 1 && k < 8 * (n - 1) {
      Pow2Monotone(k + 1, 8 * (n - 1));
      Pow2Step(k);
    }
    Pow2Step(8 * n - 1);
    DivUnique(k, 8, n - 1, k - 8 * (n - 1));
  }

  lemma NoBits()
    ensures Pow2(0) == 1
  {
  }

  lemma Power(k: nat)
    ensures IsPow2(Pow2(k)) && Log2Gen(Pow2(k)) == k
  {
    Log2GenUnique(Pow2(k), k);
  }

  lemma FrontFields(data: seq<u8>, at: nat, f: Header)
    requires Seqs.At(data, at, PrintFront(f)) && HeaderFits(f)
    ensures at + 14 <= |data| && data[at..at + 4] == FRHP && data[at + 4] == 0
    ensures FromLe(data[at + 5..at + 7]) == f.idLen && FromLe(data[at + 7..at + 9]) == 0 && FromLe(data[at + 10..at + 14]) == f.maxManaged
  {
    hide Le, FromLe, Pow2;
    var tail := [f.flags] + Le(f.maxManaged, 4);
    var first: seq<u8> := [0x46, 0x52, 0x48, 0x50, 0];
    Seqs.AtSplit(data, at, first, Le(f.idLen, 2) + (Le(0, 2) + tail));
    Seqs.AtSplit(data, at + 5, Le(f.idLen, 2), Le(0, 2) + tail);
    Seqs.AtSplit(data, at + 7, Le(0, 2), tail);
    Seqs.AtSplit(data, at + 9, [f.flags], Le(f.maxManaged, 4));
    Seqs.AtElement(data, at, first, 4);
    assert first == FRHP + [0];
    Seqs.AtSplit(data, at, FRHP, [0]);
    TwoBytes(f.idLen);
    TwoBytes(0);
    FourBytes(f.maxManaged);
  }

  lemma PowersFit(f: Header)
    requires HeaderFits(f)
    ensures Pow2(f.width) < 0x1_0000 && Pow2(f.start) < TWO_64 && Pow2(f.maxDirect) < TWO_64
  {
    hide Pow2;
    TableFacts();
    Pow2Constants();
    Pow2Step(f.width);
    Pow2Step(f.start);
    Pow2Step(f.maxDirect);
    Pow2Monotone(f.width + 1, 16);
    Pow2Monotone(f.start + 1, 64);
    Pow2Monotone(f.maxDirect + 1, 64);
  }

  lemma TableFieldsAt(data: seq<u8>, at: nat, f: Header)
    requires Seqs.At(data, at, PrintTable(f)) && HeaderFits(f)
    ensures at + 32 <= |data|
    ensures FromLe(data[at..at + 2]) == Pow2(f.width) && FromLe(data[at + 2..at + 10]) == Pow2(f.start)
    ensures FromLe(data[at + 10..at + 18]) == Pow2(f.maxDirect)
    ensures FromLe(data[at + 18..at + 20]) == f.bits && FromLe(data[at + 22..at + 30]) == f.root && FromLe(data[at + 30..at + 32]) == f.rows
  {
    hide Le, FromLe, Pow2;
    var t4 := Le(f.root, 8) + Le(f.rows, 2);
    var t3 := Le(f.startRows, 2) + t4;
    var t2 := Le(f.bits, 2) + t3;
    var t1 := Le(Pow2(f.maxDirect), 8) + t2;
    Seqs.AtSplit(data, at, Le(Pow2(f.width), 2), Le(Pow2(f.start), 8) + t1);
    Seqs.AtSplit(data, at + 2, Le(Pow2(f.start), 8), t1);
    Seqs.AtSplit(data, at + 10, Le(Pow2(f.maxDirect), 8), t2);
    Seqs.AtSplit(data, at + 18, Le(f.bits, 2), t3);
    Seqs.AtSplit(data, at + 20, Le(f.startRows, 2), t4);
    Seqs.AtSplit(data, at + 22, Le(f.root, 8), Le(f.rows, 2));
    PowersFit(f);
    TwoBytes(Pow2(f.width));
    EightBytes(Pow2(f.start));
    EightBytes(Pow2(f.maxDirect));
    TwoBytes(f.bits);
    EightBytes(f.root);
    TwoBytes(f.rows);
  }

  /** Reading any header gives its geometry: `offSize` and the smaller of two length sizes are just
      enough bytes for offsets of `bits` bits and for the objects a direct block can hold. */
  lemma ParseOfAnyHeader(data: seq<u8>, base: nat, addr: nat, f: Header, offSize: nat, forBlock: nat, forObject: nat)
    requires HeaderFits(f) && Seqs.At(data, base + addr, PrintHeader(f))
    requires 8 * offSize >= f.bits && (offSize > 0 ==> 8 * (offSize - 1) < f.bits)
    requires JustHolds(forBlock, Pow2(f.maxDirect)) && JustHolds(forObject, f.maxManaged)
    ensures Parse(data, base, addr) == Some(Heap(Table(f.start, f.width, f.maxDirect), f.idLen, offSize,
                                                 Min(forBlock, forObject), f.root, f.rows, f.hugeAddr))
  {
    hide Le, FromLe, Pow2, Log2Gen, IsPow2, LimitSize, PrintFront, PrintTable, Seqs.At;
    var at := base + addr;
    var t2 := f.counters + PrintTable(f);
    var t1 := Le(f.hugeAddr, 8) + t2;
    Seqs.AtSplit(data, at, PrintFront(f), f.skipped + t1);
    Seqs.AtSplit(data, at + 14, f.skipped, t1);
    Seqs.AtSplit(data, at + 22, Le(f.hugeAddr, 8), t2);
    Seqs.AtSplit(data, at + 30, f.counters, PrintTable(f));
    FrontFields(data, at, f);
    TableFieldsAt(data, at + 110, f);
    AddressAt(data, at + 22, f.hugeAddr);
    Power(f.width);
    Power(f.start);
    Power(f.maxDirect);
    LimitIsJust(forBlock, Pow2(f.maxDirect));
    LimitIsJust(forObject, f.maxManaged);
  }

  lemma AddressAt(data: seq<u8>, at: nat, v: nat)
    requires Seqs.At(data, at, Le(v, 8)) && v < TWO_64
    ensures at + 8 <= |data| && FromLe(data[at..at + 8]) == v
  {
    EightBytes(v);
  }
}
