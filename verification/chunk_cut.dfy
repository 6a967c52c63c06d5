/** What is left of an array when only the first bytes of every chunk are stored. */
module ChunkCut {
  import opened Wrappers
  import opened Bytes
  import opened NdIndex
  import opened ChunkGrid
  import opened ChunkCopy
  import Seqs

  // ----- cutting a buffer

  /** The first n bytes, with zeros behind them if there are fewer. */
  function Resized(s: seq<u8>, n: nat): (r: seq<u8>)
    ensures |r| == n && (|s| == n ==> r == s)
  {
    if |s| >= n then s[..n] else s + seq(n - |s|, _ => 0)
  }

  /** A buffer of which the bytes from m on have been lost. */
  function Cut(s: seq<u8>, m: nat): (r: seq<u8>)
    ensures |r| == |s|
  {
    Resized(s[..Min(m, |s|)], |s|)
  }

  /** A piece of such a buffer that begins at `at`. */
  function Kept(b: seq<u8>, at: nat, m: nat): (r: seq<u8>)
    ensures |r| == |b|
  {
    seq(|b|, k requires 0 <= k < |b| => if at + k < m then b[k] else 0)
  }

  lemma CutElem(s: seq<u8>, m: nat, f: nat, es: nat)
    requires Has(s, f, es)
    ensures Elem(Cut(s, m), f, es) == Kept(Elem(s, f, es), Times(f, es), m)
  {
    var at := Times(f, es);
    forall k | 0 <= k < es ensures Elem(Cut(s, m), f, es)[k] == Kept(Elem(s, f, es), at, m)[k] {
      assert Cut(s, m)[at + k] == if at + k < m then s[at + k] else 0;
    }
  }

  // ----- the array that is read back

  /** Where element e of the array lies in its chunk. */
  function InChunk(e: nat, dims: seq<nat>, cdims: seq<nat>): nat
    requires |dims| == |cdims| && Positive(cdims) && e < Product(dims)
  {
    PositiveProduct(dims);
    LinearOfCoord(e, dims);
    Linear(Rests(Coord(e, dims), cdims), cdims)
  }

  function Rests(c: seq<nat>, cdims: seq<nat>): (o: seq<nat>)
    requires |c| == |cdims| && Positive(cdims)
    ensures InRange(o, cdims)
  {
    seq(|c|, i requires 0 <= i < |c| => c[i] % cdims[i])
  }

  /** The first n elements: each is kept as far as its chunk is. */
  function Returned(data: seq<u8>, dims: seq<nat>, cdims: seq<nat>, es: nat, m: nat, n: nat): (r: seq<u8>)
    requires |dims| == |cdims| && Positive(cdims) && n <= Product(dims) && |data| == Times(Product(dims), es)
    ensures |r| == Times(n, es)
  {
    if n == 0 then []
    else
      TimesMonotone(n - 1, Product(dims), es);
      Returned(data, dims, cdims, es, m, n - 1) + Kept(Elem(data, n - 1, es), Times(InChunk(n - 1, dims, cdims), es), m)
  }

  lemma {:induction false} ReturnedAt(data: seq<u8>, dims: seq<nat>, cdims: seq<nat>, es: nat, m: nat, n: nat, e: nat)
    requires |dims| == |cdims| && Positive(cdims) && e < n <= Product(dims) && |data| == Times(Product(dims), es)
    ensures Has(data, e, es) && Has(Returned(data, dims, cdims, es, m, n), e, es)
    ensures Elem(Returned(data, dims, cdims, es, m, n), e, es) == Kept(Elem(data, e, es), Times(InChunk(e, dims, cdims), es), m)
  {
    hide Kept, InChunk, Product, Elem;
    TimesMonotone(n - 1, Product(dims), es);
    TimesMonotone(e, Product(dims), es);
    var init := Returned(data, dims, cdims, es, m, n - 1);
    var last := Kept(Elem(data, n - 1, es), Times(InChunk(n - 1, dims, cdims), es), m);
    if e < n - 1 {
      ReturnedAt(data, dims, cdims, es, m, n - 1, e);
      ElemInFront(init, last, e, es);
    } else {
      ElemAtEnd(init, last, n - 1, es);
    }
  }

  lemma ElemInFront(a: seq<u8>, b: seq<u8>, e: nat, es: nat)
    requires Has(a, e, es)
    ensures Has(a + b, e, es) && Elem(a + b, e, es) == Elem(a, e, es)
  {
    Seqs.SliceInto(a, b, Times(e, es), Times(e, es) + es);
  }

  lemma ElemAtEnd(a: seq<u8>, b: seq<u8>, n: nat, es: nat)
    requires |a| == Times(n, es) && |b| == es
    ensures Has(a + b, n, es) && Elem(a + b, n, es) == b
  {
    Seqs.DropAppended(a, b);
  }

  /** On the grid, an element has the same place in whatever chunk it is found in. */
  lemma SourceInGrid(e: nat, idx: seq<nat>, dims: seq<nat>, cdims: seq<nat>, f: nat)
    requires |idx| == |dims| == |cdims| && Positive(cdims) && Source(e, Scaled(idx, cdims), dims, cdims) == Some(f)
    ensures e < Product(dims) && f == InChunk(e, dims, cdims)
  {
    hide Product, Linear, Coord;
    var c, base := Coord(e, dims), Scaled(idx, cdims);
    LinearOfCoord(e, dims);
    forall i | 0 <= i < |c| ensures Offset(c, base, cdims)[i] == c[i] % cdims[i] {
      DivUnique(c[i], cdims[i], idx[i], c[i] - base[i]);
    }
    assert Offset(c, base, cdims) == Rests(c, cdims);
  }

  /** A chunk of the array, cut, is a chunk of what is read back. */
  lemma CutGathered(chunk: seq<u8>, data: seq<u8>, j: nat, dims: seq<nat>, cdims: seq<nat>, es: nat, m: nat)
    requires |dims| == |cdims| && Positive(cdims) && |data| == Times(Product(dims), es)
    requires Gathered(chunk, data, Base(j, dims, cdims), dims, cdims, es)
    ensures Gathered(Cut(chunk, m), Returned(data, dims, cdims, es, m, Product(dims)), Base(j, dims, cdims), dims, cdims, es)
  {
    hide Cut, Returned, InChunk, Kept, Coord, Position, Source, Elem, NChunks, Scaled, Linear, Product;
    var base, out := Base(j, dims, cdims), Returned(data, dims, cdims, es, m, Product(dims));
    if |dims| == 0 {
      ScalarCut(chunk, data, dims, cdims, es, m);
    } else {
      forall f | 0 <= f < Product(cdims) ensures GatheredAt(Cut(chunk, m), out, base, dims, cdims, es, f) {
        assert GatheredAt(chunk, data, base, dims, cdims, es, f);
        CutElem(chunk, m, f, es);
        var p := Position(base, Coord(f, cdims), dims);
        if p.Some? {
          SourceOfPosition(f, p.value, base, dims, cdims);
          SourceInGrid(p.value, Coord(j, NChunks(dims, cdims)), dims, cdims, f);
          ReturnedAt(data, dims, cdims, es, m, Product(dims), p.value);
        }
      }
    }
  }

  lemma ScalarCut(chunk: seq<u8>, data: seq<u8>, dims: seq<nat>, cdims: seq<nat>, es: nat, m: nat)
    requires |dims| == |cdims| == 0 && |data| == Times(Product(dims), es) == |chunk| && chunk == data
    ensures Cut(chunk, m) == Returned(data, dims, cdims, es, m, Product(dims))
  {
    hide Kept;
    assert Product(dims) == 1 && Times(1, es) == es;
    CutElem(data, m, 0, es);
    ReturnedAt(data, dims, cdims, es, m, 1, 0);
    WholeElem(Cut(chunk, m), es);
    WholeElem(Returned(data, dims, cdims, es, m, 1), es);
    assert InChunk(0, dims, cdims) == 0;
  }

  lemma WholeElem(s: seq<u8>, es: nat)
    requires |s| == es
    ensures Has(s, 0, es) && Elem(s, 0, es) == s
  {
    assert Times(0, es) == 0;
  }

  lemma {:induction false} PositiveProduct(dims: seq<nat>)
    ensures Product(dims) > 0 ==> Positive(dims)
  {
    if dims != [] && Product(dims) > 0 {
      MulMonotone(dims[0], 0, Product(dims[1..]));
      PositiveProduct(dims[1..]);
      assert forall i :: 0 < i < |dims| ==> dims[i] == dims[1..][i - 1];
    }
  }

  // ----- when nothing is lost

  lemma KeptWhole(b: seq<u8>, at: nat, m: nat)
    ensures Kept(b, at, m) == b <==> forall k :: 0 <= k < |b| && at + k >= m ==> b[k] == 0
  {
    if Kept(b, at, m) == b {
      assert forall k :: 0 <= k < |b| ==> b[k] == Kept(b, at, m)[k];
    }
  }

  lemma {:induction false} LinearMonotone(a: seq<nat>, b: seq<nat>, dims: seq<nat>)
    requires |a| == |b| == |dims| && forall i :: 0 <= i < |a| ==> a[i] <= b[i]
    ensures Linear(a, dims) <= Linear(b, dims)
  {
    if dims != [] {
      LinearMonotone(a[1..], b[1..], dims[1..]);
      MulMonotone(Product(dims[1..]), a[0], b[0]);
    }
  }

  /** The last coordinate of the array's part of its first chunk. */
  function Corner(dims: seq<nat>, cdims: seq<nat>): (c: seq<nat>)
    requires |dims| == |cdims| && Positive(dims) && Positive(cdims)
    ensures InRange(c, dims) && InRange(c, cdims)
  {
    seq(|dims|, i requires 0 <= i < |dims| => Min(dims[i], cdims[i]) - 1)
  }

  /** The array is empty, or its part of the first chunk ends in the first m bytes. */
  predicate Survives(dims: seq<nat>, cdims: seq<nat>, es: nat, m: nat)
    requires |dims| == |cdims| && Positive(cdims)
  {
    Product(dims) == 0 || es == 0 || (PositiveProduct(dims); Times(Linear(Corner(dims, cdims), cdims) + 1, es) <= m)
  }

  /** No element lies behind the corner of its chunk. */
  lemma BeforeCorner(e: nat, dims: seq<nat>, cdims: seq<nat>)
    requires |dims| == |cdims| && Positive(cdims) && e < Product(dims)
    ensures Positive(dims) && InChunk(e, dims, cdims) <= Linear(Corner(dims, cdims), cdims)
  {
    hide Linear, Coord, Product;
    PositiveProduct(dims);
    LinearOfCoord(e, dims);
    var o, corner := Rests(Coord(e, dims), cdims), Corner(dims, cdims);
    forall i | 0 <= i < |o| ensures o[i] <= corner[i] {
      RestBound(Coord(e, dims)[i], dims[i], cdims[i]);
    }
    LinearMonotone(o, corner, cdims);
  }

  lemma RestBound(g: nat, dim: nat, c: nat)
    requires g < dim && c > 0
    ensures g % c <= Min(dim, c) - 1
  {
    DivisionFacts(g, c);
    MulMonotone(c, 0, g / c);
  }

  lemma CornerElement(dims: seq<nat>, cdims: seq<nat>) returns (e: nat)
    requires |dims| == |cdims| && Positive(cdims) && Product(dims) > 0
    ensures e < Product(dims) && Positive(dims) && InChunk(e, dims, cdims) == Linear(Corner(dims, cdims), cdims)
  {
    hide Linear, Coord, Product;
    PositiveProduct(dims);
    var c := Corner(dims, cdims);
    e := Linear(c, dims);
    LinearBound(c, dims);
    CoordOfLinear(c, dims);
    forall i | 0 <= i < |c| ensures c[i] % cdims[i] == c[i] {
      DivUnique(c[i], cdims[i], 0, c[i]);
    }
    assert Rests(c, cdims) == c;
  }

  lemma ReturnedWhole(data: seq<u8>, dims: seq<nat>, cdims: seq<nat>, es: nat, m: nat)
    requires |dims| == |cdims| && Positive(cdims) && |data| == Times(Product(dims), es) && Survives(dims, cdims, es, m)
    ensures Returned(data, dims, cdims, es, m, Product(dims)) == data
  {
    hide Linear, Coord, Product, Kept, Returned, InChunk, Corner, Elem;
    var out := Returned(data, dims, cdims, es, m, Product(dims));
    forall e: nat | e < Product(dims) && Has(out, e, es) ensures Elem(out, e, es) == Elem(data, e, es) {
      ReturnedAt(data, dims, cdims, es, m, Product(dims), e);
      BeforeCorner(e, dims, cdims);
      if es > 0 {
        TimesMonotone(InChunk(e, dims, cdims) + 1, Linear(Corner(dims, cdims), cdims) + 1, es);
        assert Times(InChunk(e, dims, cdims) + 1, es) == Times(InChunk(e, dims, cdims), es) + es;
      }
      KeptWhole(Elem(data, e, es), Times(InChunk(e, dims, cdims), es), m);
    }
    SameElems(out, data, Product(dims), es);
  }

  /** All arrays come back whole if and only if they survive the cut. */
  lemma AllReturnedExactly(dims: seq<nat>, cdims: seq<nat>, es: nat, m: nat)
    requires |dims| == |cdims| && Positive(cdims)
    ensures Survives(dims, cdims, es, m) <==>
            forall data: seq<u8> :: |data| == Times(Product(dims), es) ==> Returned(data, dims, cdims, es, m, Product(dims)) == data
  {
    hide Returned, Survives, Product;
    if Survives(dims, cdims, es, m) {
      forall data: seq<u8> | |data| == Times(Product(dims), es)
        ensures Returned(data, dims, cdims, es, m, Product(dims)) == data
      {
        ReturnedWhole(data, dims, cdims, es, m);
      }
    } else {
      var data := LostData(dims, cdims, es, m);
    }
  }

  lemma LostData(dims: seq<nat>, cdims: seq<nat>, es: nat, m: nat) returns (data: seq<u8>)
    requires |dims| == |cdims| && Positive(cdims) && !Survives(dims, cdims, es, m)
    ensures |data| == Times(Product(dims), es) && Returned(data, dims, cdims, es, m, Product(dims)) != data
  {
    hide Linear, Coord, Product, Kept, Returned, InChunk, Corner;
    data := seq(Times(Product(dims), es), _ => 255);
    var e := CornerElement(dims, cdims);
    ReturnedAt(data, dims, cdims, es, m, Product(dims), e);
    var b, at := Elem(data, e, es), Times(InChunk(e, dims, cdims), es);
    KeptWhole(b, at, m);
    assert Times(InChunk(e, dims, cdims) + 1, es) == at + es;
    assert at + (es - 1) >= m && b[es - 1] == 255;
  }

  /** When chunks stay within the array, everything must be stored. */
  lemma FullChunks(dims: seq<nat>, cdims: seq<nat>, es: nat, m: nat)
    requires |dims| == |cdims| && Positive(cdims) && Product(dims) > 0 && es > 0
    requires forall i :: 0 <= i < |dims| ==> cdims[i] <= dims[i]
    ensures Survives(dims, cdims, es, m) <==> Times(Product(cdims), es) <= m
  {
    PositiveProduct(dims);
    LastLinear(cdims, Corner(dims, cdims));
  }

  lemma {:induction false} LastLinear(cdims: seq<nat>, c: seq<nat>)
    requires |c| == |cdims| && Positive(cdims) && forall i :: 0 <= i < |c| ==> c[i] == cdims[i] - 1
    ensures Linear(c, cdims) + 1 == Product(cdims)
  {
    hide Product, Linear;
    if cdims == [] {
      NoAxis(c, cdims);
    } else {
      forall i | 0 <= i < |cdims| - 1 ensures cdims[1..][i] > 0 && c[1..][i] == cdims[1..][i] - 1 {
        assert cdims[1..][i] == cdims[i + 1] && c[1..][i] == c[i + 1];
      }
      LastLinear(cdims[1..], c[1..]);
      ProductStep(cdims);
      LinearStep(c, cdims);
      Distribute(Product(cdims[1..]), cdims[0], -1);
    }
  }

  lemma NoAxis(c: seq<nat>, dims: seq<nat>)
    requires c == [] && dims == []
    ensures Linear(c, dims) == 0 && Product(dims) == 1
  {
  }

  /** When the whole chunk is stored nothing is lost. */
  lemma WholeChunks(dims: seq<nat>, cdims: seq<nat>, es: nat)
    requires |dims| == |cdims| && Positive(cdims)
    ensures Survives(dims, cdims, es, Times(Product(cdims), es))
  {
    hide Product, Linear, Corner;
    if Product(dims) > 0 && es > 0 {
      PositiveProduct(dims);
      LinearBound(Corner(dims, cdims), cdims);
      TimesMonotone(Linear(Corner(dims, cdims), cdims) + 1, Product(cdims), es);
    }
  }
}
