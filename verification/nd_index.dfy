/** Row-major positions of any rank: strides, decomposition of a position, and the odometer. */
module NdIndex {
  import opened Bytes
  import Seqs
  import Transpose

  function Product(dims: seq<nat>): (p: nat)
    ensures (forall i :: 0 <= i < |dims| ==> dims[i] > 0) ==> p > 0
  {
    if dims == [] then 1 else
      var rest := Product(dims[1..]);
      MulMonotone(rest, 0, dims[0]);
      if forall i :: 0 <= i < |dims| ==> dims[i] > 0 then
        MulMonotone(rest, 1, dims[0]);
        dims[0] * rest
      else dims[0] * rest
  }

  predicate InRange(coord: seq<nat>, dims: seq<nat>) {
    |coord| == |dims| && forall i :: 0 <= i < |dims| ==> coord[i] < dims[i]
  }

  /** Position of a coordinate; it need not be in range. */
  function Linear(coord: seq<nat>, dims: seq<nat>): (l: nat)
    requires |coord| == |dims|
  {
    if dims == [] then 0 else
      MulMonotone(Product(dims[1..]), 0, coord[0]);
      coord[0] * Product(dims[1..]) + Linear(coord[1..], dims[1..])
  }

  predicate Positive(dims: seq<nat>) {
    forall i :: 0 <= i < |dims| ==> dims[i] > 0
  }

  /** Coordinate of a position. */
  function Coord(l: nat, dims: seq<nat>): (c: seq<nat>)
    requires Positive(dims)
    ensures |c| == |dims|
  {
    if dims == [] then [] else
      assert dims[0] > 0 && Positive(dims[1..]);
      DivisionFacts(l, Product(dims[1..]));
      [l / Product(dims[1..])] + Coord(l % Product(dims[1..]), dims[1..])
  }

  lemma {:induction false} LinearBound(coord: seq<nat>, dims: seq<nat>)
    requires InRange(coord, dims)
    ensures Linear(coord, dims) < Product(dims)
  {
    if dims != [] {
      LinearBound(coord[1..], dims[1..]);
      Transpose.CellBounds(dims[0], Product(dims[1..]), coord[0], Linear(coord[1..], dims[1..]));
    }
  }

  lemma {:induction false} CoordOfLinear(coord: seq<nat>, dims: seq<nat>)
    requires InRange(coord, dims)
    ensures Positive(dims) && Coord(Linear(coord, dims), dims) == coord
  {
    if dims != [] {
      LinearBound(coord[1..], dims[1..]);
      CoordOfLinear(coord[1..], dims[1..]);
      Transpose.CellBounds(dims[0], Product(dims[1..]), coord[0], Linear(coord[1..], dims[1..]));
      Seqs.HeadAndTail(coord);
    }
  }

  lemma {:induction false} LinearOfCoord(l: nat, dims: seq<nat>)
    requires Positive(dims) && l < Product(dims)
    ensures InRange(Coord(l, dims), dims) && Linear(Coord(l, dims), dims) == l
  {
    if dims != [] {
      var rest := Product(dims[1..]);
      DivisionFacts(l, rest);
      Transpose.PositionBounds(dims[0], rest, l);
      LinearOfCoord(l % rest, dims[1..]);
      Seqs.HeadOf(l / rest, Coord(l % rest, dims[1..]));
    }
  }

  /** Different coordinates in range have different positions. */
  lemma LinearInjective(a: seq<nat>, b: seq<nat>, dims: seq<nat>)
    requires InRange(a, dims) && InRange(b, dims) && Linear(a, dims) == Linear(b, dims)
    ensures a == b
  {
    CoordOfLinear(a, dims);
    CoordOfLinear(b, dims);
  }

  // ----- strides

  function StridesOf(dims: seq<nat>): (s: seq<nat>)
    ensures |s| == |dims|
  {
    if dims == [] then [] else [Product(dims[1..])] + StridesOf(dims[1..])
  }

  lemma {:induction false} StrideAt(dims: seq<nat>, i: nat)
    requires i < |dims|
    ensures StridesOf(dims)[i] == Product(dims[i + 1..])
    ensures StridesOf(dims)[i..] == StridesOf(dims[i..])
  {
    if i > 0 {
      StrideAt(dims[1..], i - 1);
      assert dims[1..][i..] == dims[i + 1..] && dims[1..][i - 1..] == dims[i..];
      assert StridesOf(dims)[i..] == StridesOf(dims[1..])[i - 1..];
    }
  }

  /** The stride of every axis: the product of the dimensions after it. */
  method Strides(dims: seq<nat>) returns (strides: seq<nat>)
    ensures strides == StridesOf(dims)
  {
    strides := seq(|dims|, _ => 1);
    var n := |dims|;
    if n == 0 {
      return;
    }
    StrideAt(dims, n - 1);
    assert dims[n..] == [];
    var i: nat := n - 1;
    while i > 0
      invariant 0 <= i < n && |strides| == n
      invariant strides[i..] == StridesOf(dims)[i..]
    {
      StrideAt(dims, i);
      StrideAt(dims, i - 1);
      assert dims[i..][1..] == dims[i + 1..];
      ghost var before := strides;
      assert strides[i] == strides[i..][0] == StridesOf(dims)[i];
      MulMonotone(strides[i], 0, dims[i]);
      strides := strides[i - 1 := dims[i] * strides[i]];
      i := i - 1;
      StrideStep(before, strides, StridesOf(dims), i);
    }
  }

  lemma StrideStep(before: seq<nat>, after: seq<nat>, goal: seq<nat>, i: nat)
    requires i + 1 <= |before| == |after| == |goal| && before[i + 1..] == goal[i + 1..]
    requires after == before[i := goal[i]]
    ensures after[i..] == goal[i..]
  {
    assert after[i..] == [goal[i]] + before[i + 1..];
  }

  /** Splits a position into coordinates, most significant axis first. */
  method Decompose(lin: nat, dims: seq<nat>, strides: seq<nat>) returns (coord: seq<nat>)
    requires Positive(dims) && strides == StridesOf(dims)
    ensures coord == Coord(lin, dims)
  {
    var rem := lin;
    coord := [];
    Seqs.Empty(Coord(lin, dims));
    for i := 0 to |dims|
      invariant |coord| == i
      invariant coord + Coord(rem, dims[i..]) == Coord(lin, dims)
    {
      StrideAt(dims, i);
      DivisionFacts(rem, Product(dims[i + 1..]));
      Seqs.SliceOfDrop(dims, i, 1);
      NextAxis(coord, rem, dims[i..]);
      coord := coord + [rem / strides[i]];
      rem := rem % strides[i];
    }
    assert dims[|dims|..] == [];
    Seqs.Empty(coord);
  }

  lemma NextAxis(coord: seq<nat>, rem: nat, dims: seq<nat>)
    requires Positive(dims) && dims != []
    ensures Product(dims[1..]) > 0 && rem / Product(dims[1..]) >= 0 && rem % Product(dims[1..]) >= 0
    ensures coord + [rem / Product(dims[1..])] + Coord(rem % Product(dims[1..]), dims[1..]) == coord + Coord(rem, dims)
  {
    DivisionFacts(rem, Product(dims[1..]));
    Seqs.Assoc(coord, [rem / Product(dims[1..])], Coord(rem % Product(dims[1..]), dims[1..]));
  }

  // ----- the odometer

  /** The coordinate after `idx`, and whether it wrapped round to the first. */
  function Advance(idx: seq<nat>, dims: seq<nat>): (r: (bool, seq<nat>))
    requires |idx| == |dims|
    ensures |r.1| == |idx|
  {
    if idx == [] then (true, [])
    else
      var (carry, tail) := Advance(idx[1..], dims[1..]);
      if !carry then (false, [idx[0]] + tail)
      else if idx[0] + 1 < dims[0] then (false, [idx[0] + 1] + tail)
      else (true, [0] + tail)
  }

  /** Advancing adds one to the position, unless it wraps round. */
  lemma {:induction false} AdvanceIsSuccessor(idx: seq<nat>, dims: seq<nat>)
    requires InRange(idx, dims)
    ensures var (carry, next) := Advance(idx, dims);
            && InRange(next, dims)
            && Linear(idx, dims) + 1 == Linear(next, dims) + (if carry then Product(dims) else 0)
            && (carry ==> Linear(next, dims) == 0)
  {
    hide Linear, Product;
    if idx == [] {
      LinearOfNothing(dims);
    } else {
      AdvanceIsSuccessor(idx[1..], dims[1..]);
      var (carry, tail) := Advance(idx[1..], dims[1..]);
      Seqs.HeadAndTail(idx);
      LinearOfHead(idx[0], idx[1..], dims);
      LinearOfHead(idx[0], tail, dims);
      LinearOfHead(idx[0] + 1, tail, dims);
      LinearOfHead(0, tail, dims);
      Distribute(Product(dims[1..]), idx[0], 1);
    }
  }

  lemma LinearOfNothing(dims: seq<nat>)
    requires dims == []
    ensures Linear([], dims) == 0 && Product(dims) == 1
  {
  }

  lemma LinearOfHead(h: nat, tail: seq<nat>, dims: seq<nat>)
    requires |tail| + 1 == |dims|
    ensures Linear([h] + tail, dims) == Product(dims[1..]) * h + Linear(tail, dims[1..])
    ensures Product(dims) == Product(dims[1..]) * dims[0]
  {
    hide Product;
    Seqs.HeadOf(h, tail);
    LinearStep([h] + tail, dims);
    ProductStep(dims);
  }

  lemma LinearStep(coord: seq<nat>, dims: seq<nat>)
    requires |coord| == |dims| > 0
    ensures Linear(coord, dims) == coord[0] * Product(dims[1..]) + Linear(coord[1..], dims[1..])
  {
    hide Product;
  }

  lemma ProductStep(dims: seq<nat>)
    requires dims != []
    ensures Product(dims) == dims[0] * Product(dims[1..])
  {
  }

  /** One turn of the odometer: the last axis first, carrying to the left. */
  method Turn(idx: seq<nat>, dims: seq<nat>) returns (next: seq<nat>)
    requires |idx| == |dims|
    ensures next == Advance(idx, dims).1
  {
    next := idx;
    var k := |idx|;
    assert idx[k..] == [];
    while k > 0
      invariant 0 <= k <= |idx| && |next| == |idx|
      invariant next[..k] == idx[..k]
      invariant Advance(idx[k..], dims[k..]) == (true, next[k..])
    {
      ghost var before := next;
      k := k - 1;
      var up := next[k] + 1;
      assert next[k] == before[..k + 1][k] == idx[k];
      AdvanceAxis(idx, dims, k);
      if up < dims[k] {
        next := next[k := up];
        UpdatedTail(before, k, up);
        SettledHead(idx, dims, next, k);
        return;
      }
      next := next[k := 0];
      UpdatedTail(before, k, 0);
    }
    assert next[0..] == next && idx[0..] == idx && dims[0..] == dims;
  }

  lemma UpdatedTail(s: seq<nat>, k: nat, v: nat)
    requires k < |s|
    ensures s[k := v][k..] == [v] + s[k + 1..] && s[k := v][..k] == s[..k]
  {
  }

  lemma AdvanceAxis(idx: seq<nat>, dims: seq<nat>, k: nat)
    requires |idx| == |dims| && k < |idx| && Advance(idx[k + 1..], dims[k + 1..]).0
    ensures Advance(idx[k..], dims[k..]) ==
            var tail := Advance(idx[k + 1..], dims[k + 1..]).1;
            if idx[k] + 1 < dims[k] then (false, [idx[k] + 1] + tail) else (true, [0] + tail)
  {
    assert idx[k..][1..] == idx[k + 1..] && dims[k..][1..] == dims[k + 1..];
  }

  /** Once an axis has not carried, the axes before it stay. */
  lemma {:induction false} SettledHead(idx: seq<nat>, dims: seq<nat>, next: seq<nat>, k: nat)
    requires |idx| == |dims| == |next| && k <= |idx| && next[..k] == idx[..k]
    requires Advance(idx[k..], dims[k..]) == (false, next[k..])
    ensures Advance(idx, dims) == (false, next)
    decreases k
  {
    if k == 0 {
      assert idx[0..] == idx && dims[0..] == dims && next[0..] == next;
    } else {
      var j := k - 1;
      assert idx[j..][1..] == idx[k..] && dims[j..][1..] == dims[k..];
      assert next[j] == next[..k][j] == idx[j];
      assert next[j..] == [idx[j]] + next[k..];
      assert next[..j] == next[..k][..j] && idx[..j] == idx[..k][..j];
      SettledHead(idx, dims, next, j);
    }
  }

  /** The odometer at step j shows the coordinate of position j. */
  lemma OdometerStep(j: nat, dims: seq<nat>)
    requires Positive(dims) && j < Product(dims)
    ensures j + 1 < Product(dims) ==> Advance(Coord(j, dims), dims) == (false, Coord(j + 1, dims))
  {
    LinearOfCoord(j, dims);
    AdvanceIsSuccessor(Coord(j, dims), dims);
    if j + 1 < Product(dims) {
      LinearOfCoord(j + 1, dims);
      LinearInjective(Advance(Coord(j, dims), dims).1, Coord(j + 1, dims), dims);
    }
  }

  lemma {:induction false} FirstCoord(dims: seq<nat>)
    requires Positive(dims)
    ensures Coord(0, dims) == seq(|dims|, _ => 0)
  {
    if dims != [] {
      FirstCoord(dims[1..]);
      DivUnique(0, Product(dims[1..]), 0, 0);
    }
  }

  // ----- order

  predicate LexLess(a: seq<nat>, b: seq<nat>) {
    a != [] && b != [] && (a[0] < b[0] || (a[0] == b[0] && LexLess(a[1..], b[1..])))
  }

  lemma {:induction false} LexIrreflexive(a: seq<nat>, b: seq<nat>)
    requires LexLess(a, b)
    ensures a != b && !LexLess(b, a)
  {
    if a[0] == b[0] {
      LexIrreflexive(a[1..], b[1..]);
    }
  }

  /** Row-major order of positions is the lexicographic order of coordinates. */
  lemma {:induction false} LinearIsLexicographic(a: seq<nat>, b: seq<nat>, dims: seq<nat>)
    requires InRange(a, dims) && InRange(b, dims) && Linear(a, dims) < Linear(b, dims)
    ensures LexLess(a, b)
  {
    hide Product;
    if dims == [] {
      LinearOfNothing(dims);
    } else {
      var p := Product(dims[1..]);
      LinearStep(a, dims);
      LinearStep(b, dims);
      LinearBound(a[1..], dims[1..]);
      LinearBound(b[1..], dims[1..]);
      if b[0] < a[0] {
        MulMonotone(p, b[0] + 1, a[0]);
        Distribute(p, b[0], 1);
      } else if a[0] == b[0] {
        LinearIsLexicographic(a[1..], b[1..], dims[1..]);
      }
    }
  }

  lemma LexicographicIsLinear(a: seq<nat>, b: seq<nat>, dims: seq<nat>)
    requires InRange(a, dims) && InRange(b, dims) && LexLess(a, b)
    ensures Linear(a, dims) < Linear(b, dims)
  {
    hide Linear, LexLess;
    LexIrreflexive(a, b);
    if Linear(b, dims) < Linear(a, dims) {
      LinearIsLexicographic(b, a, dims);
    } else if Linear(a, dims) == Linear(b, dims) {
      LinearInjective(a, b, dims);
    }
  }
}
