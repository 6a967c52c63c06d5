/** Splitting a row-major array into chunks: which chunk holds which element. */
module ChunkGrid {
  import opened Wrappers
  import opened Bytes
  import opened NdIndex
  import Seqs
  import Transpose

  /** Chunks along one axis: at least one, even for an empty axis. */
  function AxisChunks(dim: nat, c: nat): (n: nat)
    requires c > 0
    ensures n > 0
  {
    DivNonNegative(dim + c - 1, c);
    Max(CeilDiv(dim, c), 1)
  }

  function NChunks(dims: seq<nat>, cdims: seq<nat>): (n: seq<nat>)
    requires |dims| == |cdims| && Positive(cdims)
    ensures |n| == |dims| && Positive(n)
  {
    seq(|dims|, i requires 0 <= i < |dims| => AxisChunks(dims[i], cdims[i]))
  }

  /** The offset of the chunk with the given index along every axis. */
  function Scaled(idx: seq<nat>, cdims: seq<nat>): (base: seq<nat>)
    requires |idx| == |cdims|
    ensures |base| == |idx|
  {
    seq(|idx|, i requires 0 <= i < |idx| =>
      MulMonotone(cdims[i], 0, idx[i]);
      idx[i] * cdims[i])
  }

  /** Offset of chunk j in row-major order. */
  function Base(j: nat, dims: seq<nat>, cdims: seq<nat>): (base: seq<nat>)
    requires |dims| == |cdims| && Positive(cdims)
    ensures |base| == |dims|
  {
    Scaled(Coord(j, NChunks(dims, cdims)), cdims)
  }

  function Sum(a: seq<nat>, b: seq<nat>): (c: seq<nat>)
    requires |a| == |b|
    ensures |c| == |a|
  {
    seq(|a|, i requires 0 <= i < |a| => a[i] + b[i])
  }

  predicate InBox(c: seq<nat>, base: seq<nat>, cdims: seq<nat>)
    requires |c| == |base| == |cdims|
  {
    forall i :: 0 <= i < |c| ==> base[i] <= c[i] < base[i] + cdims[i]
  }

  function Offset(c: seq<nat>, base: seq<nat>, cdims: seq<nat>): (o: seq<nat>)
    requires |c| == |base| == |cdims| && InBox(c, base, cdims)
    ensures InRange(o, cdims)
  {
    seq(|c|, i requires 0 <= i < |c| => c[i] - base[i])
  }

  lemma OffsetOfSum(base: seq<nat>, o: seq<nat>, cdims: seq<nat>)
    requires |base| == |cdims| && InRange(o, cdims)
    ensures InBox(Sum(base, o), base, cdims) && Offset(Sum(base, o), base, cdims) == o
  {
  }

  lemma SumOfOffset(c: seq<nat>, base: seq<nat>, cdims: seq<nat>)
    requires |c| == |base| == |cdims| && InBox(c, base, cdims)
    ensures Sum(base, Offset(c, base, cdims)) == c
  {
  }

  /** Every element of the array lies in the box of some chunk. */
  lemma ChunkOfElement(c: seq<nat>, dims: seq<nat>, cdims: seq<nat>) returns (j: nat)
    requires |dims| == |cdims| && Positive(cdims) && InRange(c, dims)
    ensures j < Product(NChunks(dims, cdims)) && InBox(c, Base(j, dims, cdims), cdims)
  {
    var n := NChunks(dims, cdims);
    var idx: seq<nat> := seq(|c|, i requires 0 <= i < |c| => AxisChunk(c, cdims, i));
    forall i | 0 <= i < |c|
      ensures idx[i] < n[i] && 0 <= idx[i] * cdims[i] <= c[i] < idx[i] * cdims[i] + cdims[i]
    {
      ChunkOnAxis(c[i], dims[i], cdims[i]);
    }
    j := Linear(idx, n);
    LinearBound(idx, n);
    CoordOfLinear(idx, n);
  }

  function AxisChunk(c: seq<nat>, cdims: seq<nat>, i: nat): nat
    requires i < |c| == |cdims| && Positive(cdims)
  {
    DivNonNegative(c[i], cdims[i]);
    c[i] / cdims[i]
  }

  lemma ChunkOnAxis(g: nat, dim: nat, c: nat)
    requires c > 0 && g < dim
    ensures g / c < AxisChunks(dim, c) && 0 <= g / c * c <= g < g / c * c + c
  {
    DivisionFacts(g, c);
    DivisionFacts(dim + c - 1, c);
    var q := (dim + c - 1) / c;
    assert c * (g / c) == g / c * c;
    if q <= g / c {
      MulMonotone(c, q, g / c);
    }
  }

  // ----- the two ways to enumerate chunks

  method CountChunks(dims: seq<nat>, cdims: seq<nat>) returns (n: seq<nat>)
    requires |dims| == |cdims| && Positive(cdims)
    ensures n == NChunks(dims, cdims)
  {
    n := seq(|dims|, i requires 0 <= i < |dims| => AxisChunks(dims[i], cdims[i]));
  }

  /** All chunk offsets, by turning an odometer. */
  method Grid(dims: seq<nat>, cdims: seq<nat>) returns (out: seq<seq<nat>>)
    requires |dims| == |cdims| && Positive(cdims)
    ensures |out| == Product(NChunks(dims, cdims))
    ensures forall j :: 0 <= j < |out| ==> out[j] == Base(j, dims, cdims)
  {
    hide Product, Coord, NChunks, Scaled;
    var n := CountChunks(dims, cdims);
    if |dims| == 0 {
      NoAxes(dims, cdims);
      return [[]];
    }
    var total := Product(n);
    out := [];
    var idx: seq<nat> := seq(|dims|, _ => 0);
    FirstCoord(n);
    for j := 0 to total
      invariant |out| == j && forall i :: 0 <= i < j ==> out[i] == Base(i, dims, cdims)
      invariant |idx| == |dims| && (j < total ==> idx == Coord(j, n))
    {
      out := out + [Scaled(idx, cdims)];
      OdometerStep(j, n);
      idx := Turn(idx, n);
    }
  }

  lemma NoAxes(dims: seq<nat>, cdims: seq<nat>)
    requires |dims| == |cdims| == 0
    ensures Product(NChunks(dims, cdims)) == 1 && Base(0, dims, cdims) == []
  {
  }

  /** The offset of one chunk, by division. */
  method OffsetOfIndex(index: nat, dims: seq<nat>, cdims: seq<nat>) returns (r: Option<seq<nat>>)
    requires |dims| == |cdims| && Positive(cdims)
    ensures r == if index < Product(NChunks(dims, cdims)) then Some(Base(index, dims, cdims)) else None
  {
    hide Product, Coord, NChunks;
    var n := CountChunks(dims, cdims);
    if index >= Product(n) {
      return None;
    }
    var strides := Strides(n);
    var idx := Decompose(index, n, strides);
    r := Some(Scaled(idx, cdims));
  }

  /** Chunks have different offsets. */
  lemma BasesDiffer(i: nat, j: nat, dims: seq<nat>, cdims: seq<nat>)
    requires |dims| == |cdims| && Positive(cdims)
    requires i < j < Product(NChunks(dims, cdims))
    ensures Base(i, dims, cdims) != Base(j, dims, cdims)
  {
    hide Product, Coord, Linear;
    var n := NChunks(dims, cdims);
    LinearOfCoord(i, n);
    LinearOfCoord(j, n);
    var a, b := Coord(i, n), Coord(j, n);
    if Base(i, dims, cdims) == Base(j, dims, cdims) {
      SameIndex(a, b, cdims);
    }
  }

  lemma SameIndex(a: seq<nat>, b: seq<nat>, cdims: seq<nat>)
    requires |a| == |b| == |cdims| && Positive(cdims) && Scaled(a, cdims) == Scaled(b, cdims)
    ensures a == b
  {
    forall k | 0 <= k < |a| ensures a[k] == b[k] {
      assert Scaled(a, cdims)[k] == Scaled(b, cdims)[k];
      DivUnique(a[k] * cdims[k], cdims[k], a[k], 0);
      DivUnique(b[k] * cdims[k], cdims[k], b[k], 0);
    }
  }
}
