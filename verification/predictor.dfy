/** The szip preprocessor: unit-delay prediction and the residual mapper. */
module Predictor {
  import opened Bytes

  /** Folds the residual of x against prev into a non-negative number. */
  function MapResidual(prev: u32, x: u32, xmax: u32): (m: int) {
    var d := x - prev;
    var theta := Min(prev, xmax - prev);
    if d >= 0 && d <= theta then 2 * d
    else if d < 0 && -d <= theta then -2 * d - 1
    else theta + (if d < 0 then -d else d)
  }

  /** `v xor (2^bps - 1)`: the low bps bits of v complemented. */
  function ComplementLow(v: u32, bps: nat): (r: u32)
    requires 1 <= bps <= 32
  {
    ComplementBound(v, bps);
    v - Low(v, bps) + (Pow2(bps) - 1 - Low(v, bps))
  }

  lemma ComplementBound(v: u32, bps: nat)
    requires bps <= 32
    ensures 0 <= v - Low(v, bps) + (Pow2(bps) - 1 - Low(v, bps)) < TWO_32
  {
    Pow2Add(bps, 32 - bps);
    Pow2Constants();
    LowIsRemainder(v, bps);
    LastBlockFits(Pow2(bps), Pow2(32 - bps), Shr(v, bps), Low(v, bps));
  }

  lemma LastBlockFits(m: nat, k: nat, hi: nat, lo: nat)
    requires lo < m && m * hi + lo < m * k
    ensures 0 <= m * hi && m * hi + m <= m * k
  {
    MulMonotone(m, 0, hi);
    if hi >= k {
      MulMonotone(m, k, hi);
    }
    MulMonotone(m, hi, k - 1);
  }

  /** Whether a prediction lies in the upper half of the range (the bit `xmax / 2 + 1`). */
  predicate InUpperHalf(prev: u32, bps: nat)
    requires 1 <= bps <= 32
  {
    Shr(prev, bps - 1) % 2 == 1
  }

  /** Recovers the sample that follows `prev` from its mapped residual. */
  function Unmap(prev: u32, d: u32, bps: nat): (x: u32)
    requires 1 <= bps <= 32
  {
    if InUpperHalf(prev, bps)
    then UnmapWithin(prev, d, ComplementLow(prev, bps), ComplementLow(d, bps))
    else UnmapWithin(prev, d, prev, d)
  }

  function UnmapWithin(prev: u32, d: u32, bound: u32, far: u32): u32 {
    if d / 2 + d % 2 <= bound then
      if d % 2 == 1 then (prev - (d / 2 + 1)) % TWO_32 else (prev + d / 2) % TWO_32
    else far
  }

  /** On samples of bps bits the mask picks the distance to the nearer end of the range. */
  lemma UnmapInRange(prev: u32, d: u32, bps: nat)
    requires 1 <= bps <= 32 && prev < Pow2(bps) && d < Pow2(bps)
    ensures var half := Pow2(bps) - 1 - prev;
            0 <= half < TWO_32 && Pow2(bps) - 1 - d < TWO_32 &&
            Unmap(prev, d, bps) ==
              if half < prev
              then UnmapWithin(prev, d, half, Pow2(bps) - 1 - d)
              else UnmapWithin(prev, d, prev, d)
  {
    BpsBound(bps);
    UpperHalf(prev, bps);
    Complement(prev, bps);
    Complement(d, bps);
  }

  lemma UpperHalf(prev: u32, bps: nat)
    requires 1 <= bps <= 32 && prev < Pow2(bps)
    ensures InUpperHalf(prev, bps) == (Pow2(bps) - 1 - prev < prev)
  {
    TopBit(prev, bps - 1);
  }

  lemma Complement(v: u32, bps: nat)
    requires 1 <= bps <= 32 && v < Pow2(bps)
    ensures ComplementLow(v, bps) == Pow2(bps) - 1 - v
  {
    LowOfSmall(v, bps);
  }

  lemma BpsBound(bps: nat)
    requires bps <= 32
    ensures Pow2(bps) <= TWO_32
  {
    Pow2Monotone(bps, 32);
    Pow2Constants();
  }

  predicate Sample(x: u32, bps: nat) {
    x < Pow2(bps)
  }

  /** The mapper's arithmetic, for an arbitrary top sample `max`. */
  lemma UnmapWithinOfMap(prev: u32, x: u32, max: u32)
    requires prev <= max && x <= max
    ensures var m := MapResidual(prev, x, max);
            0 <= m <= max &&
            x == if max - prev < prev
                 then UnmapWithin(prev, m, max - prev, max - m)
                 else UnmapWithin(prev, m, prev, m)
  {
  }

  lemma MapOfUnmapWithin(prev: u32, m: u32, max: u32)
    requires prev <= max && m <= max
    ensures var x := if max - prev < prev
                     then UnmapWithin(prev, m, max - prev, max - m)
                     else UnmapWithin(prev, m, prev, m);
            x <= max && MapResidual(prev, x, max) == m
  {
    var theta := Min(prev, max - prev);
    if m / 2 + m % 2 > theta {
    } else if m % 2 == 1 {
      assert (prev - (m / 2 + 1)) % TWO_32 == prev - (m / 2 + 1);
    } else {
      assert (prev + m / 2) % TWO_32 == prev + m / 2;
    }
  }

  /** The mapper's residual is a sample, and unmapping it gives the sample back. */
  lemma UnmapOfMap(prev: u32, x: u32, bps: nat)
    requires 1 <= bps <= 32 && Sample(prev, bps) && Sample(x, bps)
    ensures Pow2(bps) <= TWO_32
    ensures 0 <= MapResidual(prev, x, Pow2(bps) - 1) < Pow2(bps)
    ensures Unmap(prev, MapResidual(prev, x, Pow2(bps) - 1), bps) == x
  {
    BpsBound(bps);
    UnmapWithinOfMap(prev, x, Pow2(bps) - 1);
    UnmapInRange(prev, MapResidual(prev, x, Pow2(bps) - 1), bps);
  }

  /** Every sample-sized residual is the residual of the sample it unmaps to. */
  lemma MapOfUnmap(prev: u32, m: u32, bps: nat)
    requires 1 <= bps <= 32 && Sample(prev, bps) && Sample(m, bps)
    ensures Pow2(bps) <= TWO_32
    ensures Sample(Unmap(prev, m, bps), bps)
    ensures MapResidual(prev, Unmap(prev, m, bps), Pow2(bps) - 1) == m
  {
    BpsBound(bps);
    MapOfUnmapWithin(prev, m, Pow2(bps) - 1);
    UnmapInRange(prev, m, bps);
  }

  /** For every prediction the mapper is a bijection of [0, 2^bps). */
  lemma MapperBijection(prev: u32, bps: nat)
    requires 1 <= bps <= 32 && Sample(prev, bps)
    ensures Pow2(bps) <= TWO_32
    ensures forall x, y :: Sample(x, bps) && Sample(y, bps) && x != y ==>
              MapResidual(prev, x, Pow2(bps) - 1) != MapResidual(prev, y, Pow2(bps) - 1)
    ensures forall m :: Sample(m, bps) ==>
              exists x :: Sample(x, bps) && MapResidual(prev, x, Pow2(bps) - 1) == m
  {
    hide MapResidual, Unmap, Pow2;
    BpsBound(bps);
    forall x, y | Sample(x, bps) && Sample(y, bps) && x != y
      ensures MapResidual(prev, x, Pow2(bps) - 1) != MapResidual(prev, y, Pow2(bps) - 1)
    {
      UnmapOfMap(prev, x, bps);
      UnmapOfMap(prev, y, bps);
    }
    forall m | Sample(m, bps)
      ensures exists x :: Sample(x, bps) && MapResidual(prev, x, Pow2(bps) - 1) == m
    {
      MapOfUnmap(prev, m, bps);
      assert Sample(Unmap(prev, m, bps), bps);
    }
  }

  predicate Samples(xs: seq<u32>, bps: nat) {
    forall i :: 0 <= i < |xs| ==> Sample(xs[i], bps)
  }

  function Residual(prev: u32, x: u32, bps: nat): (m: u32)
    requires 1 <= bps <= 32 && Sample(prev, bps) && Sample(x, bps)
    ensures Sample(m, bps) && Unmap(prev, m, bps) == x
  {
    UnmapOfMap(prev, x, bps);
    MapResidual(prev, x, Pow2(bps) - 1)
  }

  /** The residuals of `xs` when `prev` precedes them. */
  function MapFrom(prev: u32, xs: seq<u32>, bps: nat): (ms: seq<u32>)
    requires 1 <= bps <= 32 && Sample(prev, bps) && Samples(xs, bps)
    ensures |ms| == |xs| && Samples(ms, bps)
    decreases |xs|
  {
    if xs == [] then [] else [Residual(prev, xs[0], bps)] + MapFrom(xs[0], xs[1..], bps)
  }

  function UnmapFrom(prev: u32, ds: seq<u32>, bps: nat): (xs: seq<u32>)
    requires 1 <= bps <= 32
    ensures |xs| == |ds|
    decreases |ds|
  {
    if ds == [] then [] else
      [Unmap(prev, ds[0], bps)] + UnmapFrom(Unmap(prev, ds[0], bps), ds[1..], bps)
  }

  /** Undoing the prediction restores the samples, whatever residuals follow them. */
  lemma {:induction false} UnmapFromMapFrom(prev: u32, xs: seq<u32>, more: seq<u32>, bps: nat)
    requires 1 <= bps <= 32 && Sample(prev, bps) && Samples(xs, bps)
    ensures UnmapFrom(prev, MapFrom(prev, xs, bps) + more, bps)[..|xs|] == xs
    decreases |xs|
  {
    if xs != [] {
      var ms := MapFrom(prev, xs, bps);
      UnmapFromMapFrom(xs[0], xs[1..], more, bps);
      assert (ms + more)[1..] == ms[1..] + more;
      assert xs == [xs[0]] + xs[1..];
    }
  }
}
