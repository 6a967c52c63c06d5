/** `gather_chunk` and `scatter_chunk`: copying elements between an array and one of its chunks. */
module ChunkCopy {
  import opened Wrappers
  import opened Bytes
  import opened NdIndex
  import opened ChunkGrid
  import Seqs

  /** Element e of a buffer of es-byte elements. */
  function Elem(s: seq<u8>, e: nat, es: nat): (b: seq<u8>)
    requires Times(e, es) + es <= |s|
    ensures |b| == es
  {
    s[Times(e, es)..Times(e, es) + es]
  }

  predicate Has(s: seq<u8>, e: nat, es: nat) {
    Times(e, es) + es <= |s|
  }

  /** Elements that end before another do not meet it. */
  lemma Apart(e: nat, f: nat, es: nat)
    requires e != f
    ensures Times(e, es) + es <= Times(f, es) || Times(f, es) + es <= Times(e, es)
  {
    if e < f {
      TimesMonotone(e, f, es);
    } else {
      TimesMonotone(f, e, es);
    }
  }

  /** dst with element i of src as its element j. */
  ghost predicate Copied(before: seq<u8>, after: seq<u8>, j: nat, b: seq<u8>) {
    && |after| == |before| && Has(after, j, |b|) && Elem(after, j, |b|) == b
    && forall f :: f != j && Has(after, f, |b|) ==> Elem(after, f, |b|) == Elem(before, f, |b|)
  }

  method CopyElem(src: seq<u8>, i: nat, dst: array<u8>, j: nat, es: nat)
    requires Has(src, i, es) && Has(dst[..], j, es)
    modifies dst
    ensures Copied(old(dst[..]), dst[..], j, Elem(src, i, es))
  {
    var from, at := Times(i, es), Times(j, es);
    ghost var before := dst[..];
    for k := 0 to es
      invariant dst[..at] == before[..at] && dst[at + es..] == before[at + es..]
      invariant dst[at..at + k] == src[from..from + k]
    {
      dst[at + k] := src[from + k];
      assert dst[at..at + k + 1] == dst[at..at + k] + [dst[at + k]];
    }
    ElemReplaced(before, dst[..], j, Elem(src, i, es));
  }

  lemma ElemReplaced(before: seq<u8>, after: seq<u8>, j: nat, b: seq<u8>)
    requires |before| == |after| && Has(after, j, |b|) && Elem(after, j, |b|) == b
    requires after[..Times(j, |b|)] == before[..Times(j, |b|)]
    requires after[Times(j, |b|) + |b|..] == before[Times(j, |b|) + |b|..]
    ensures Copied(before, after, j, b)
  {
    forall f | f != j && Has(after, f, |b|)
      ensures Elem(after, f, |b|) == Elem(before, f, |b|)
    {
      Apart(f, j, |b|);
      SameOutside(before, after, Times(j, |b|), |b|, Times(f, |b|));
    }
  }

  lemma SameOutside(before: seq<u8>, after: seq<u8>, at: nat, es: nat, lo: nat)
    requires |before| == |after| && at + es <= |after| && lo + es <= |after| && (lo + es <= at || at + es <= lo)
    requires after[..at] == before[..at] && after[at + es..] == before[at + es..]
    ensures after[lo..lo + es] == before[lo..lo + es]
  {
    if lo + es <= at {
      Seqs.SliceOfTake(after, at, lo, lo + es);
      Seqs.SliceOfTake(before, at, lo, lo + es);
    } else {
      var from := at + es;
      Seqs.SliceSlice(after, from, lo - from, lo + es - from);
      Seqs.SliceSlice(before, from, lo - from, lo + es - from);
    }
  }

  // ----- positions in the array and in the chunk

  /** Where element `o` of the chunk at `base` lies in the array, if it does. */
  function Position(base: seq<nat>, o: seq<nat>, dims: seq<nat>): Option<nat>
    requires |base| == |o| == |dims|
  {
    if InRange(Sum(base, o), dims) then Some(Linear(Sum(base, o), dims)) else None
  }

  /** Which element of the chunk at `base` is element e of the array, if any. */
  function Source(e: nat, base: seq<nat>, dims: seq<nat>, cdims: seq<nat>): Option<nat>
    requires |base| == |dims| == |cdims|
  {
    if Positive(dims) && e < Product(dims) && InBox(Coord(e, dims), base, cdims)
    then Some(Linear(Offset(Coord(e, dims), base, cdims), cdims))
    else None
  }

  /** The two maps undo each other. */
  lemma SourceOfPosition(lin: nat, e: nat, base: seq<nat>, dims: seq<nat>, cdims: seq<nat>)
    requires |base| == |dims| == |cdims| && Positive(cdims) && lin < Product(cdims)
    ensures Position(base, Coord(lin, cdims), dims) == Some(e) <==> Source(e, base, dims, cdims) == Some(lin)
  {
    hide Linear, Coord, Product;
    LinearOfCoord(lin, cdims);
    var o := Coord(lin, cdims);
    OffsetOfSum(base, o, cdims);
    if Position(base, o, dims) == Some(e) {
      LinearBound(Sum(base, o), dims);
      CoordOfLinear(Sum(base, o), dims);
    }
    if Source(e, base, dims, cdims) == Some(lin) {
      var c := Coord(e, dims);
      LinearOfCoord(e, dims);
      CoordOfLinear(Offset(c, base, cdims), cdims);
      SumOfOffset(c, base, cdims);
    }
  }

  lemma SourceBound(e: nat, base: seq<nat>, dims: seq<nat>, cdims: seq<nat>)
    requires |base| == |dims| == |cdims|
    ensures var s := Source(e, base, dims, cdims); s.Some? ==> s.value < Product(cdims)
  {
    hide Linear, Coord, Product;
    if Source(e, base, dims, cdims).Some? {
      LinearBound(Offset(Coord(e, dims), base, cdims), cdims);
    }
  }

  /** Adds up the position axis by axis, and gives up at the first axis out of range. */
  method Locate(base: seq<nat>, o: seq<nat>, dims: seq<nat>, strides: seq<nat>) returns (r: Option<nat>)
    requires |base| == |o| == |dims| && strides == StridesOf(dims)
    ensures r == Position(base, o, dims)
  {
    hide Linear, Product, StridesOf;
    ghost var g := Sum(base, o);
    var pos: nat := 0;
    assert g[0..] == g && dims[0..] == dims;
    for i := 0 to |dims|
      invariant forall k :: 0 <= k < i ==> g[k] < dims[k]
      invariant pos + Linear(g[i..], dims[i..]) == Linear(g, dims)
    {
      if base[i] + o[i] >= dims[i] {
        return None;
      }
      NextTerm(g, dims, i);
      pos := pos + (base[i] + o[i]) * strides[i];
    }
    NoTerms(g, dims);
    r := Some(pos);
  }

  lemma NextTerm(g: seq<nat>, dims: seq<nat>, i: nat)
    requires i < |g| == |dims|
    ensures i < |StridesOf(dims)| && 0 <= g[i] * StridesOf(dims)[i]
    ensures Linear(g[i..], dims[i..]) == g[i] * StridesOf(dims)[i] + Linear(g[i + 1..], dims[i + 1..])
  {
    hide Linear, Product;
    StrideAt(dims, i);
    LinearStep(g[i..], dims[i..]);
    assert g[i..][1..] == g[i + 1..] && dims[i..][1..] == dims[i + 1..];
    MulMonotone(StridesOf(dims)[i], 0, g[i]);
  }

  lemma NoTerms(g: seq<nat>, dims: seq<nat>)
    requires |g| == |dims|
    ensures Linear(g[|dims|..], dims[|dims|..]) == 0
  {
  }

  // ----- gathering

  /** Element lin of the chunk, after gathering over `old`. */
  function Picked(data: seq<u8>, base: seq<nat>, dims: seq<nat>, cdims: seq<nat>, es: nat, lin: nat, old': seq<u8>): seq<u8>
    requires |base| == |dims| == |cdims| && Positive(cdims)
  {
    var p := Position(base, Coord(lin, cdims), dims);
    if p.Some? && Has(data, p.value, es) then Elem(data, p.value, es) else old'
  }

  method CopyScalar(src: seq<u8>, es: nat, dst: array<u8>)
    modifies dst
    ensures var n := Min(es, Min(|src|, dst.Length)); dst[..n] == src[..n] && dst[n..] == old(dst[n..])
  {
    var n := Min(es, Min(|src|, dst.Length));
    for k := 0 to n
      invariant dst[..k] == src[..k] && dst[n..] == old(dst[n..])
    {
      dst[k] := src[k];
      assert dst[..k + 1] == dst[..k] + [dst[k]];
    }
  }

  method GatherChunk(data: seq<u8>, dims: seq<nat>, cdims: seq<nat>, base: seq<nat>, es: nat, out: array<u8>)
    requires |base| == |dims| == |cdims| && Positive(cdims) && out.Length == Times(Product(cdims), es)
    modifies out
    ensures |dims| == 0 ==> var n := Min(es, Min(|data|, out.Length)); out[..n] == data[..n] && out[n..] == old(out[n..])
    ensures |dims| > 0 ==> forall f :: 0 <= f < Product(cdims) ==>
              Has(out[..], f, es) && Elem(out[..], f, es) == Picked(data, base, dims, cdims, es, f, Elem(old(out[..]), f, es))
  {
    hide Product, Picked, Coord, Elem;
    if |dims| == 0 {
      CopyScalar(data, es, out);
      return;
    }
    ghost var before := out[..];
    var strides := Strides(dims);
    var cstrides := Strides(cdims);
    var total := Product(cdims);
    AllInside(total, es);
    for lin := 0 to total
      invariant forall f :: 0 <= f < lin ==> Elem(out[..], f, es) == Picked(data, base, dims, cdims, es, f, Elem(before, f, es))
      invariant forall f :: lin <= f < total ==> Elem(out[..], f, es) == Elem(before, f, es)
    {
      var o := Decompose(lin, cdims, cstrides);
      var p := Locate(base, o, dims, strides);
      PickedIs(data, base, dims, cdims, es, lin, Elem(before, lin, es));
      if p.Some? {
        if Times(p.value, es) + es <= |data| {
          CopyElem(data, p.value, out, lin, es);
        }
      }
    }
  }

  lemma PickedIs(data: seq<u8>, base: seq<nat>, dims: seq<nat>, cdims: seq<nat>, es: nat, lin: nat, old': seq<u8>)
    requires |base| == |dims| == |cdims| && Positive(cdims)
    ensures Picked(data, base, dims, cdims, es, lin, old') ==
            var p := Position(base, Coord(lin, cdims), dims);
            if p.Some? && Has(data, p.value, es) then Elem(data, p.value, es) else old'
  {
  }

  lemma AllInside(total: nat, es: nat)
    ensures forall f :: 0 <= f < total ==> Times(f, es) + es <= Times(total, es)
  {
    forall f | 0 <= f < total ensures Times(f, es) + es <= Times(total, es) {
      TimesMonotone(f, total, es);
    }
  }

  // ----- scattering

  /** Element e of the array, after scattering the elements of the chunk before `done` over `old`. */
  function Merged(chunk: seq<u8>, base: seq<nat>, dims: seq<nat>, cdims: seq<nat>, es: nat, e: nat, done: nat, old': seq<u8>): seq<u8>
    requires |base| == |dims| == |cdims|
  {
    var s := Source(e, base, dims, cdims);
    if s.Some? && s.value < done && Has(chunk, s.value, es) then Elem(chunk, s.value, es) else old'
  }

  method ScatterChunk(chunk: seq<u8>, dims: seq<nat>, cdims: seq<nat>, base: seq<nat>, es: nat, out: array<u8>)
    requires |base| == |dims| == |cdims| && Positive(cdims)
    modifies out
    ensures |dims| == 0 ==> var n := Min(es, Min(|chunk|, out.Length)); out[..n] == chunk[..n] && out[n..] == old(out[n..])
    ensures |dims| > 0 ==> forall e: nat :: Has(out[..], e, es) ==>
              Elem(out[..], e, es) == Merged(chunk, base, dims, cdims, es, e, Product(cdims), Elem(old(out[..]), e, es))
  {
    hide Product, Merged, Coord, Elem;
    if |dims| == 0 {
      CopyScalar(chunk, es, out);
      return;
    }
    ghost var before := out[..];
    var strides := Strides(dims);
    var cstrides := Strides(cdims);
    var total := Product(cdims);
    NothingMerged(chunk, before, base, dims, cdims, es);
    for lin := 0 to total
      invariant forall e: nat :: Has(out[..], e, es) ==>
                  Elem(out[..], e, es) == Merged(chunk, base, dims, cdims, es, e, lin, Elem(before, e, es))
    {
      var o := Decompose(lin, cdims, cstrides);
      var p := Locate(base, o, dims, strides);
      ghost var now := out[..];
      if p.Some? {
        if Times(lin, es) + es <= |chunk| && Times(p.value, es) + es <= out.Length {
          CopyElem(chunk, lin, out, p.value, es);
        }
      }
      forall e: nat | Has(out[..], e, es)
        ensures Elem(out[..], e, es) == Merged(chunk, base, dims, cdims, es, e, lin + 1, Elem(before, e, es))
      {
        MergeOne(chunk, base, dims, cdims, es, e, lin, Elem(before, e, es));
      }
    }
  }

  lemma NothingMerged(chunk: seq<u8>, before: seq<u8>, base: seq<nat>, dims: seq<nat>, cdims: seq<nat>, es: nat)
    requires |base| == |dims| == |cdims|
    ensures forall e: nat :: Has(before, e, es) ==>
              Merged(chunk, base, dims, cdims, es, e, 0, Elem(before, e, es)) == Elem(before, e, es)
  {
    hide Product, Coord, Elem;
  }

  lemma MergeOne(chunk: seq<u8>, base: seq<nat>, dims: seq<nat>, cdims: seq<nat>, es: nat, e: nat, lin: nat, old': seq<u8>)
    requires |base| == |dims| == |cdims| && Positive(cdims) && lin < Product(cdims)
    ensures Merged(chunk, base, dims, cdims, es, e, lin + 1, old') ==
            if Position(base, Coord(lin, cdims), dims) == Some(e) && Has(chunk, lin, es) then Elem(chunk, lin, es)
            else Merged(chunk, base, dims, cdims, es, e, lin, old')
  {
    hide Product, Coord, Elem, Source, Position;
    SourceOfPosition(lin, e, base, dims, cdims);
  }

  // ----- restoring an array from its chunks

  /** The chunk holds the array's elements wherever it meets the array. */
  ghost predicate Gathered(chunk: seq<u8>, data: seq<u8>, base: seq<nat>, dims: seq<nat>, cdims: seq<nat>, es: nat)
    requires |base| == |dims| == |cdims| && Positive(cdims)
  {
    && |chunk| == Times(Product(cdims), es)
    && (|dims| == 0 ==> |data| <= |chunk| && chunk[..|data|] == data)
    && (|dims| > 0 ==> forall f :: 0 <= f < Product(cdims) ==> GatheredAt(chunk, data, base, dims, cdims, es, f))
  }

  ghost predicate GatheredAt(chunk: seq<u8>, data: seq<u8>, base: seq<nat>, dims: seq<nat>, cdims: seq<nat>, es: nat, f: nat)
    requires |base| == |dims| == |cdims| && Positive(cdims)
  {
    var p := Position(base, Coord(f, cdims), dims);
    Has(chunk, f, es) && (p.Some? && Has(data, p.value, es) ==> Elem(chunk, f, es) == Elem(data, p.value, es))
  }

  /** Scattering a gathered chunk restores its elements and spoils no other. */
  lemma MergedOfGathered(chunk: seq<u8>, data: seq<u8>, base: seq<nat>, dims: seq<nat>, cdims: seq<nat>, es: nat, e: nat, old': seq<u8>)
    requires |base| == |dims| == |cdims| && Positive(cdims) && |dims| > 0
    requires Gathered(chunk, data, base, dims, cdims, es) && Has(data, e, es) && |old'| == es
    ensures Merged(chunk, base, dims, cdims, es, e, Product(cdims), old') ==
            if Source(e, base, dims, cdims).Some? then Elem(data, e, es) else old'
  {
    hide Product, Coord, Elem, Source, Position;
    var s := Source(e, base, dims, cdims);
    if s.Some? {
      SourceBound(e, base, dims, cdims);
      SourceOfPosition(s.value, e, base, dims, cdims);
      assert GatheredAt(chunk, data, base, dims, cdims, es, s.value);
    }
  }

  /** Buffers of n elements with the same elements are the same. */
  lemma {:induction false} SameElems(a: seq<u8>, b: seq<u8>, n: nat, es: nat)
    requires |a| == |b| == Times(n, es)
    requires forall e :: 0 <= e < n && Has(a, e, es) ==> Elem(a, e, es) == Elem(b, e, es)
    ensures a == b
    decreases n
  {
    if n > 0 {
      var at := Times(n - 1, es);
      var a', b' := a[..at], b[..at];
      forall e | 0 <= e < n - 1 && Has(a', e, es) ensures Elem(a', e, es) == Elem(b', e, es) {
        var lo := Times(e, es);
        Seqs.SliceOfTake(a, at, lo, lo + es);
        Seqs.SliceOfTake(b, at, lo, lo + es);
        assert Elem(a, e, es) == Elem(b, e, es);
      }
      SameElems(a', b', n - 1, es);
      assert Elem(a, n - 1, es) == Elem(b, n - 1, es);
      Seqs.SplitAt(a, at);
      Seqs.SplitAt(b, at);
      assert a[at..] == Elem(a, n - 1, es) && b[at..] == Elem(b, n - 1, es);
    }
  }
}
