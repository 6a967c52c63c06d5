/** Byte transposition of whole elements, shared by the shuffle filters and szip interleaving. */
module Transpose {
  import opened Bytes
  import Seqs

  /** Position of entry (row, col) in a row-major matrix of `cols` columns. */
  lemma CellBounds(rows: nat, cols: nat, row: nat, col: nat)
    requires row < rows && col < cols
    ensures 0 <= row * cols + col < rows * cols
    ensures (row * cols + col) / cols == row && (row * cols + col) % cols == col
  {
    LastCell(rows, cols, row);
    DivUnique(row * cols + col, cols, row, col);
  }

  lemma LastCell(rows: nat, cols: nat, row: nat)
    requires row < rows
    ensures 0 <= row * cols && row * cols + cols <= rows * cols
  {
    MulMonotone(cols, row + 1, rows);
    MulMonotone(cols, 0, row);
    Distribute(cols, row, 1);
  }

  /** A position of the matrix, as row and column. */
  lemma PositionBounds(rows: nat, cols: nat, p: nat)
    requires p < rows * cols
    ensures cols > 0 && 0 <= p / cols < rows && 0 <= p % cols < cols
    ensures p == p / cols * cols + p % cols
  {
    if cols == 0 {
      MulMonotone(rows, 0, cols);
    }
    DivNonNegative(p, cols);
    DivisionFacts(p, cols);
    if p / cols >= rows {
      MulMonotone(cols, rows, p / cols);
    }
  }

  lemma TransposedIndex(rows: nat, cols: nat, p: nat)
    requires p < rows * cols
    ensures rows > 0 && 0 <= p % rows * cols + p / rows < rows * cols
  {
    assert rows * cols == cols * rows;
    PositionBounds(cols, rows, p);
    CellBounds(rows, cols, p % rows, p / rows);
  }

  /** The rows x cols matrix stored in `s`, read column by column. */
  function Transposed<T>(s: seq<T>, rows: nat, cols: nat): (t: seq<T>)
    requires |s| == rows * cols
    ensures |t| == |s|
  {
    seq(|s|, p requires 0 <= p < rows * cols =>
      TransposedIndex(rows, cols, p);
      s[p % rows * cols + p / rows])
  }

  /** Entry (row, col) of the matrix moves to (col, row). */
  lemma TransposedAt<T>(s: seq<T>, rows: nat, cols: nat, row: nat, col: nat)
    requires |s| == rows * cols && row < rows && col < cols
    ensures 0 <= col * rows + row < |s| && 0 <= row * cols + col < |s|
    ensures Transposed(s, rows, cols)[col * rows + row] == s[row * cols + col]
  {
    assert rows * cols == cols * rows;
    CellBounds(cols, rows, col, row);
    CellBounds(rows, cols, row, col);
  }

  /** Transposing back restores the bytes. */
  lemma TransposedTwice<T>(s: seq<T>, rows: nat, cols: nat)
    requires |s| == rows * cols
    ensures cols * rows == |s| && Transposed(Transposed(s, rows, cols), cols, rows) == s
  {
    assert rows * cols == cols * rows;
    var t := Transposed(s, rows, cols);
    forall p | 0 <= p < |s|
      ensures Transposed(t, cols, rows)[p] == s[p]
    {
      PositionBounds(rows, cols, p);
      TransposedAt(t, cols, rows, p % cols, p / cols);
      TransposedAt(s, rows, cols, p / cols, p % cols);
    }
  }

  /** Offset of entry (row, col) in a row-major matrix `width` columns wide. */
  function Cell(row: nat, col: nat, width: nat): int {
    row * width + col
  }

  /** Entry (i, j) of the source goes to entry (j, i) of the transposed matrix. */
  lemma TransposedCell<T>(src: seq<T>, rows: nat, cols: nat, i: nat, j: nat)
    requires i < rows && j < cols && 0 <= rows * cols <= |src|
    ensures 0 <= Cell(j, i, rows) < rows * cols && 0 <= Cell(i, j, cols) < rows * cols
    ensures Transposed(src[..rows * cols], rows, cols)[Cell(j, i, rows)] == src[Cell(i, j, cols)]
  {
    hide Transposed;
    TransposedAt(src[..rows * cols], rows, cols, i, j);
  }

  /** The same for a matrix that fills its buffer. */
  lemma MovedCell<T>(s: seq<T>, rows: nat, cols: nat, i: nat, j: nat)
    requires i < rows && j < cols && |s| == rows * cols
    ensures 0 <= Cell(j, i, rows) < |s| && 0 <= Cell(i, j, cols) < |s|
    ensures Transposed(s, rows, cols)[Cell(j, i, rows)] == s[Cell(i, j, cols)]
  {
    hide Transposed;
    TransposedAt(s, rows, cols, i, j);
  }

  lemma NextRow(row: nat, width: nat)
    ensures Cell(row, width, width) == Cell(row + 1, 0, width)
  {
    Distribute(width, row, 1);
  }

  /** Writes the transposed matrix front to back. */
  method WriteInOrder<T>(src: seq<T>, rows: nat, cols: nat, out: array<T>)
    requires 0 <= rows * cols <= |src| && out.Length >= rows * cols
    modifies out
    ensures out[..rows * cols] == Transposed(src[..rows * cols], rows, cols)
    ensures out[rows * cols..] == old(out[rows * cols..])
  {
    hide Cell, Transposed;
    ghost var n, goal := rows * cols, Transposed(src[..rows * cols], rows, cols);
    FirstCell(rows);
    for j := 0 to cols
      invariant Filled(out[..n], goal, Cell(j, 0, rows))
      invariant out[n..] == old(out[n..])
    {
      for i := 0 to rows
        invariant Filled(out[..n], goal, Cell(j, i, rows))
        invariant out[n..] == old(out[n..])
      {
        TransposedCell(src, rows, cols, i, j);
        ghost var before := out[..n];
        out[Cell(j, i, rows)] := src[Cell(i, j, cols)];
        assert out[..n] == before[Cell(j, i, rows) := goal[Cell(j, i, rows)]];
        assert out[n..] == old(out[n..]);
        FillOne(before, goal, Cell(j, i, rows));
        NextColumn(j, i, rows);
      }
      NextRow(j, rows);
    }
    LastFilled(out[..n], goal, rows, cols);
  }

  lemma FirstCell(width: nat)
    ensures Cell(0, 0, width) == 0
  {
  }

  lemma NextColumn(row: nat, col: nat, width: nat)
    ensures Cell(row, col + 1, width) == Cell(row, col, width) + 1
  {
  }

  /** The first k bytes are in place. */
  ghost predicate Filled<T>(t: seq<T>, goal: seq<T>, k: int) {
    |t| == |goal| && 0 <= k <= |t| && t[..k] == goal[..k]
  }

  lemma FillOne<T>(t: seq<T>, goal: seq<T>, k: nat)
    requires k < |goal| && Filled(t, goal, k)
    ensures Filled(t[k := goal[k]], goal, k + 1)
  {
  }

  lemma LastFilled<T>(t: seq<T>, goal: seq<T>, rows: nat, cols: nat)
    requires |goal| == rows * cols && Filled(t, goal, Cell(cols, 0, rows))
    ensures t == goal
  {
    assert Cell(cols, 0, rows) == |goal|;
    Seqs.TakeAll(t, |goal|);
    Seqs.TakeAll(goal, |goal|);
  }

  /** Reads the matrix front to back and scatters it into transposed position. */
  method ReadInOrder<T>(src: seq<T>, rows: nat, cols: nat, out: array<T>)
    requires 0 <= rows * cols <= |src| && out.Length >= rows * cols
    modifies out
    ensures out[..rows * cols] == Transposed(src[..rows * cols], rows, cols)
    ensures out[rows * cols..] == old(out[rows * cols..])
  {
    hide Cell, Transposed;
    ghost var n, goal := rows * cols, Transposed(src[..rows * cols], rows, cols);
    for i := 0 to rows
      invariant Scattered(out[..n], goal, rows, cols, i, 0)
      invariant out[n..] == old(out[n..])
    {
      for j := 0 to cols
        invariant Scattered(out[..n], goal, rows, cols, i, j)
        invariant out[n..] == old(out[n..])
      {
        TransposedCell(src, rows, cols, i, j);
        ghost var before := out[..n];
        out[Cell(j, i, rows)] := src[Cell(i, j, cols)];
        assert out[..n] == before[Cell(j, i, rows) := goal[Cell(j, i, rows)]];
        assert out[n..] == old(out[n..]);
        ScatterOne(before, goal, rows, cols, i, j);
      }
    }
    AllScattered(out[..n], goal, rows, cols);
  }

  /** Rows before i, and row i up to column j, have reached their place. */
  ghost predicate Scattered<T>(t: seq<T>, goal: seq<T>, rows: nat, cols: nat, i: nat, j: nat) {
    |t| == |goal| &&
    forall a, b :: 0 <= a < rows && 0 <= b < cols && (a < i || (a == i && b < j)) ==>
      0 <= Cell(b, a, rows) < |t| && t[Cell(b, a, rows)] == goal[Cell(b, a, rows)]
  }

  lemma ScatterOne<T>(t: seq<T>, goal: seq<T>, rows: nat, cols: nat, i: nat, j: nat)
    requires i < rows && j < cols && Scattered(t, goal, rows, cols, i, j)
    requires 0 <= Cell(j, i, rows) < |t|
    ensures Scattered(t[Cell(j, i, rows) := goal[Cell(j, i, rows)]], goal, rows, cols, i, j + 1)
    ensures j + 1 == cols ==> Scattered(t[Cell(j, i, rows) := goal[Cell(j, i, rows)]], goal, rows, cols, i + 1, 0)
  {
  }

  lemma AllScattered<T>(t: seq<T>, goal: seq<T>, rows: nat, cols: nat)
    requires |goal| == rows * cols && Scattered(t, goal, rows, cols, rows, 0)
    ensures t == goal
  {
    forall p | 0 <= p < |t| ensures t[p] == goal[p] {
      assert rows * cols == cols * rows;
      PositionBounds(cols, rows, p);
      assert p == Cell(p / rows, p % rows, rows);
    }
  }
}
