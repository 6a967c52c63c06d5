/** The doubling table of a fractal heap: rows of blocks whose sizes double from row 1 on. */
module DTable {
  import opened Wrappers
  import opened Bytes
  import Transpose

  // ----- logarithms

  /** floor(log2 n), and 0 for 0. */
  function Log2Gen(n: nat): nat {
    if n <= 1 then 0 else 1 + Log2Gen(n / 2)
  }

  lemma {:induction false} Log2GenBounds(n: nat)
    requires n > 0
    ensures Pow2(Log2Gen(n)) <= n < 2 * Pow2(Log2Gen(n))
  {
    if n > 1 {
      Log2GenBounds(n / 2);
    }
  }

  lemma {:induction false} Log2GenUnique(n: nat, k: nat)
    requires Pow2(k) <= n < 2 * Pow2(k)
    ensures Log2Gen(n) == k
  {
    if k > 0 {
      Log2GenUnique(n / 2, k - 1);
    }
  }

  /** The number of trailing zero bits. */
  function Log2Of2(n: nat): nat
    requires n > 0
  {
    if n % 2 == 1 then 0 else 1 + Log2Of2(n / 2)
  }

  lemma {:induction false} Log2Of2OfPow2(k: nat)
    ensures Log2Of2(Pow2(k)) == k
  {
    if k > 0 {
      Log2Of2OfPow2(k - 1);
    }
  }

  // ----- geometry

  /** Start size, width and largest direct size, as powers of two. */
  datatype Table = Table(startBits: nat, widthBits: nat, maxBits: nat) {
    function Start(): nat {
      Pow2(startBits)
    }

    function Width(): (w: nat)
      ensures w > 0
    {
      Pow2(widthBits)
    }

    function RowBits(row: nat): nat {
      if row == 0 then startBits else startBits + row - 1
    }

    /** `row_block_size`. */
    function RowSize(row: nat): (s: nat)
      ensures s > 0
    {
      Pow2(RowBits(row))
    }

    function FirstRowBits(): nat {
      startBits + widthBits
    }

    function MaxDirectRows(): int {
      maxBits - startBits + 2
    }

    /** Offset of a row, adding up the rows before it. */
    function RowStart(row: nat): (o: nat)
    {
      if row == 0 then 0 else
        MulMonotone(RowSize(row - 1), 0, Width());
        RowStart(row - 1) + RowSize(row - 1) * Width()
    }

    /** `row_col_offset`. */
    function Offset(row: nat, col: nat): (o: nat)
    {
      MulMonotone(RowSize(row), 0, col);
      RowStart(row) + RowSize(row) * col
    }

    /** `dtable_lookup`. */
    function Lookup(off: nat): (int, nat) {
      if off < Start() * Width() then
        DivNonNegative(off, Start());
        (0, off / Start())
      else
        MulMonotone(Start(), 1, Width());
        Log2GenBounds(off);
        var bit := Log2Gen(off);
        var row := bit - FirstRowBits() + 1;
        var size := RowSize(if row >= 0 then row else 0);
        DivNonNegative(off - Pow2(bit), size);
        (row, (off - Pow2(bit)) / size)
    }
  }

  /** `row_col_offset`, adding up row by row. */
  method RowColOffset(t: Table, row: nat, col: nat) returns (off: nat)
    ensures off == t.Offset(row, col)
  {
    off := 0;
    for r := 0 to row
      invariant off == t.RowStart(r)
    {
      MulMonotone(t.RowSize(r), 0, t.Width());
      off := off + t.RowSize(r) * t.Width();
    }
    MulMonotone(t.RowSize(row), 0, col);
    off := off + t.RowSize(row) * col;
  }

  /** Rows start at powers of two. */
  lemma {:induction false} RowStartIsPow2(t: Table, row: nat)
    requires row > 0
    ensures t.RowStart(row) == Pow2(t.FirstRowBits() + row - 1) && t.RowSize(row) * t.Width() == t.RowStart(row)
  {
    Pow2Add(t.startBits, t.widthBits);
    if row == 1 {
      assert t.RowStart(0) == 0;
    } else {
      RowStartIsPow2(t, row - 1);
      Pow2Add(t.startBits + row - 1, t.widthBits);
      Pow2Add(t.startBits + row - 2, t.widthBits);
    }
    Pow2Add(t.startBits + row - 1, t.widthBits);
  }

  lemma FirstRow(t: Table)
    ensures t.Start() * t.Width() == Pow2(t.FirstRowBits()) == t.RowStart(1)
  {
    Pow2Add(t.startBits, t.widthBits);
    RowStartIsPow2(t, 1);
  }

  /** Heap offset `off` lies in block (row, col). */
  predicate InBlock(t: Table, off: nat, row: nat, col: nat) {
    col < t.Width() && t.Offset(row, col) <= off < t.Offset(row, col) + t.RowSize(row)
  }

  lemma LookupLaterRow(t: Table, off: nat)
    requires off >= t.Start() * t.Width()
    ensures var row := Log2Gen(off) - t.FirstRowBits() + 1;
            && row >= 1 && t.RowStart(row) == Pow2(Log2Gen(off))
            && t.RowStart(row) <= off < t.RowStart(row) + t.RowSize(row) * t.Width()
  {
    FirstRow(t);
    Log2GenBounds(off);
    var bit := Log2Gen(off);
    if bit < t.FirstRowBits() {
      Pow2Monotone(bit + 1, t.FirstRowBits());
    }
    RowStartIsPow2(t, bit - t.FirstRowBits() + 1);
  }

  lemma BlockInRow(size: nat, width: nat, o: nat)
    requires size > 0 && o < size * width
    ensures 0 <= o / size < width && 0 <= size * (o / size) <= o < size * (o / size) + size
  {
    assert size * width == width * size && o / size * size == size * (o / size);
    Transpose.PositionBounds(width, size, o);
  }

  /** The lookup finds the block that contains the offset. */
  lemma LookupContains(t: Table, off: nat)
    ensures var (row, col) := t.Lookup(off); row >= 0 && InBlock(t, off, row, col)
  {
    if off < t.Start() * t.Width() {
      BlockInRow(t.Start(), t.Width(), off);
    } else {
      LookupLaterRow(t, off);
      var row := Log2Gen(off) - t.FirstRowBits() + 1;
      BlockInRow(t.RowSize(row), t.Width(), off - t.RowStart(row));
    }
  }

  lemma {:induction false} RowStartGrows(t: Table, a: nat, b: nat)
    requires a < b
    ensures t.RowStart(a) + t.RowSize(a) * t.Width() <= t.RowStart(b)
  {
    if a + 1 < b {
      RowStartGrows(t, a, b - 1);
      MulMonotone(t.RowSize(b - 1), 0, t.Width());
    }
  }

  /** Blocks that come later in the table start behind those before them. */
  lemma BlocksInOrder(t: Table, row: nat, col: nat, row': nat, col': nat)
    requires col < t.Width() && (row < row' || (row == row' && col < col'))
    ensures t.Offset(row, col) + t.RowSize(row) <= t.Offset(row', col')
  {
    Distribute(t.RowSize(row), col, 1);
    if row < row' {
      RowStartGrows(t, row, row');
      MulMonotone(t.RowSize(row), col + 1, t.Width());
      MulMonotone(t.RowSize(row'), 0, col');
    } else {
      MulMonotone(t.RowSize(row), col + 1, col');
    }
  }

  /** No other block contains the offset. */
  lemma LookupUnique(t: Table, off: nat, row: nat, col: nat)
    requires InBlock(t, off, row, col)
    ensures t.Lookup(off) == (row, col)
  {
    LookupContains(t, off);
    var (r, c) := t.Lookup(off);
    if r < row || (r == row && c < col) {
      BlocksInOrder(t, r, c, row, col);
    } else if row < r || (row == r && col < c) {
      BlocksInOrder(t, row, col, r, c);
    }
  }

  // ----- nested indirect blocks

  /** Rows of the child indirect block at a row of its parent. */
  function ChildRows(t: Table, row: nat): int {
    t.RowBits(row) - t.FirstRowBits() + 1
  }

  /** The largest direct block is no smaller than half the first row. */
  predicate Nests(t: Table) {
    t.maxBits + 1 >= t.startBits + t.widthBits && t.maxBits >= t.startBits
  }

  /** A child indirect block has fewer rows than its parent and covers its slot exactly. */
  lemma ChildFillsSlot(t: Table, row: nat)
    requires Nests(t) && row >= t.MaxDirectRows()
    ensures 0 < ChildRows(t, row) <= row && t.RowStart(ChildRows(t, row)) == t.RowSize(row)
  {
    RowStartIsPow2(t, ChildRows(t, row));
  }

  /** For no other table does every child have rows: where the largest direct block is smaller, the
      row count of some child is computed from a negative difference. */
  lemma NestsExactly(t: Table)
    requires t.maxBits >= t.startBits
    ensures Nests(t) <==> forall row: nat :: row >= t.MaxDirectRows() ==> 0 < ChildRows(t, row)
  {
    var first: nat := t.maxBits - t.startBits + 2;
    assert first >= t.MaxDirectRows();
    if Nests(t) {
      forall row: nat | row >= t.MaxDirectRows() ensures 0 < ChildRows(t, row) {
        ChildFillsSlot(t, row);
      }
    } else {
      assert ChildRows(t, first) <= 0;
    }
  }

  datatype LocateError = BadIndirectBlock | BeyondRows | NotAllocated | NegativeRows

  /** What can be read of the indirect blocks: the heap offset stored in the one at an address, and
      its slots. The outer option is None where nothing can be read, the inner where a slot is empty. */
  datatype Image = Image(off: nat -> Option<nat>, entry: (nat, nat) -> Option<Option<nat>>)

  function Slot(t: Table, row: nat, col: nat): nat {
    MulMonotone(t.Width(), 0, row);
    row * t.Width() + col
  }

  /** `locate_in_iblock`: address and heap offset of the direct block that holds `off`. */
  function Locate(t: Table, img: Image, addr: nat, nrows: nat, off: nat): Result<(nat, nat), LocateError>
    decreases nrows
  {
    var at := img.off(addr);
    if at.None? || off < at.value then Failure(BadIndirectBlock)
    else
      LookupContains(t, off - at.value);
      var (row, col) := t.Lookup(off - at.value);
      if row >= nrows then Failure(BeyondRows)
      else if t.maxBits < t.startBits then Failure(NegativeRows)
      else
        var e := img.entry(addr, Slot(t, row, col));
        if e.None? then Failure(BadIndirectBlock)
        else if e.value.None? then Failure(NotAllocated)
        else if row < t.MaxDirectRows() then Success((e.value.value, at.value + t.Offset(row, col)))
        else if ChildRows(t, row) <= 0 then Failure(NegativeRows)
        else Locate(t, img, e.value.value, ChildRows(t, row), off)
  }

  /** A lookup that ends in the indirect block it starts from. */
  lemma LocateDirect(t: Table, img: Image, addr: nat, nrows: nat, at: nat, off: nat, row: nat, col: nat)
    requires Nests(t) && img.off(addr) == Some(at) && at <= off && t.Lookup(off - at) == (row, col)
    requires row < nrows ==> row < t.MaxDirectRows() && img.entry(addr, Slot(t, row, col)).Some?
    ensures Locate(t, img, addr, nrows, off) ==
            if row >= nrows then Failure(BeyondRows)
            else match img.entry(addr, Slot(t, row, col)).value
              case None => Failure(NotAllocated)
              case Some(child) => Success((child, at + t.Offset(row, col)))
  {
    hide InBlock, ChildRows;
  }

  /** The indirect block at `addr` and everything below it sit where the table puts them. */
  ghost predicate Placed(t: Table, img: Image, addr: nat, nrows: nat, at: nat)
    requires Nests(t)
    decreases nrows, 1
  {
    && img.off(addr) == Some(at)
    && forall row: nat, col: nat :: row < nrows && col < t.Width() ==> SlotPlaced(t, img, addr, nrows, at, row, col)
  }

  ghost predicate SlotPlaced(t: Table, img: Image, addr: nat, nrows: nat, at: nat, row: nat, col: nat)
    requires Nests(t) && row < nrows && col < t.Width()
    decreases nrows, 0
  {
    var e := img.entry(addr, Slot(t, row, col));
    if e.Some? && e.value.Some? && row >= t.MaxDirectRows() then
      ChildFillsSlot(t, row);
      Placed(t, img, e.value.value, ChildRows(t, row), at + t.Offset(row, col))
    else e.Some?
  }

  /** In a heap laid out by the table, at any depth of nesting, an offset within the heap is looked
      up in range, and what is found is a direct block that contains it. */
  lemma {:induction false} LocateContains(t: Table, img: Image, addr: nat, nrows: nat, at: nat, off: nat)
    requires Nests(t) && Placed(t, img, addr, nrows, at) && at <= off < at + t.RowStart(nrows)
    ensures var r := Locate(t, img, addr, nrows, off);
            && (r.Failure? ==> r.error == NotAllocated)
            && (r.Success? ==> Contains(t, r.value.1, off))
    decreases nrows
  {
    LookupContains(t, off - at);
    var (row, col) := t.Lookup(off - at);
    if row >= nrows {
      OutsideRows(t, nrows, row, col, off - at);
    }
    assert SlotPlaced(t, img, addr, nrows, at, row, col);
    var e := img.entry(addr, Slot(t, row, col)).value;
    if e.Some? {
      if row >= t.MaxDirectRows() {
        ChildFillsSlot(t, row);
        LocateContains(t, img, e.value, ChildRows(t, row), at + t.Offset(row, col), off);
      } else {
        assert Contains(t, at + t.Offset(row, col), off);
      }
    }
  }

  /** `off` lies in a direct block that starts at `start`. */
  ghost predicate Contains(t: Table, start: nat, off: nat) {
    exists row: nat :: row < t.MaxDirectRows() && start <= off < start + t.RowSize(row)
  }

  lemma OutsideRows(t: Table, nrows: nat, row: nat, col: nat, off: nat)
    requires InBlock(t, off, row, col) && row >= nrows
    ensures off >= t.RowStart(nrows)
  {
    MulMonotone(t.RowSize(row), 0, col);
    if row > nrows {
      RowStartGrows(t, nrows, row);
      MulMonotone(t.RowSize(nrows), 0, t.Width());
    }
  }
}
