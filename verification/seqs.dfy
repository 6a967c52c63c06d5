/** Sequence identities, kept apart so that the proofs using them stay small. */
module Seqs {

  lemma Assoc<T>(a: seq<T>, b: seq<T>, c: seq<T>)
    ensures a + b + c == a + (b + c)
  {
  }

  /** Moving the head of `s` to the end of what precedes it. */
  lemma MoveHead<T>(pre: seq<T>, s: seq<T>)
    requires s != []
    ensures pre + [s[0]] + s[1..] == pre + s
  {
  }

  lemma MovePrefix<T>(pre: seq<T>, s: seq<T>, n: nat)
    requires n <= |s|
    ensures pre + s[..n] + s[n..] == pre + s
  {
  }

  lemma Empty<T>(s: seq<T>)
    ensures s + [] == s && [] + s == s
  {
  }

  /** Replacing the element between a prefix and a suffix. */
  lemma UpdateMiddle<T>(pre: seq<T>, x: T, y: T, post: seq<T>)
    ensures (pre + ([x] + post))[|pre|] == x
    ensures (pre + ([x] + post))[|pre| := y] == pre + [y] + post
  {
  }

  lemma TakeAppended<T>(a: seq<T>, b: seq<T>, n: nat)
    requires n <= |b|
    ensures (a + b)[..|a| + n] == a + b[..n]
  {
  }

  lemma DropAppended<T>(a: seq<T>, b: seq<T>)
    ensures (a + b)[..|a|] == a && (a + b)[|a|..] == b
  {
  }

  lemma TakeAll<T>(s: seq<T>, n: nat)
    requires n == |s|
    ensures s[..n] == s
  {
  }

  lemma SplitAt<T>(s: seq<T>, n: nat)
    requires n <= |s|
    ensures s[..n] + s[n..] == s
  {
  }

  lemma SliceOfDrop<T>(s: seq<T>, i: nat, n: nat)
    requires i + n <= |s|
    ensures s[i..][..n] == s[i..i + n] && s[i..][n..] == s[i + n..]
  {
  }

  lemma TakeTake<T>(s: seq<T>, i: nat, j: nat)
    requires j <= i <= |s|
    ensures s[..i][..j] == s[..j]
  {
  }

  lemma DropInto<T>(a: seq<T>, b: seq<T>, n: nat)
    requires n <= |a|
    ensures (a + b)[n..] == a[n..] + b
  {
  }

  lemma SliceInto<T>(a: seq<T>, b: seq<T>, i: nat, j: nat)
    requires i <= j <= |a|
    ensures (a + b)[i..j] == a[i..j]
  {
  }

  lemma JoinSlices<T>(s: seq<T>, i: nat, j: nat)
    requires i <= j <= |s|
    ensures s[..i] + s[i..j] == s[..j]
  {
  }

  lemma SliceSlice<T>(s: seq<T>, at: nat, i: nat, j: nat)
    requires i <= j && at + j <= |s|
    ensures s[at..][i..j] == s[at + i..at + j]
  {
  }

  lemma HeadAndTail<T>(s: seq<T>)
    requires s != []
    ensures [s[0]] + s[1..] == s
  {
  }

  lemma HeadOf<T>(x: T, s: seq<T>)
    ensures ([x] + s)[0] == x && ([x] + s)[1..] == s
  {
  }

  lemma ConsSlices<T>(x: T, s: seq<T>, at: nat, n: nat)
    requires at + n <= |s|
    ensures ([x] + s[at..])[1..n + 1] == s[at..at + n] && ([x] + s[at..])[n + 1..] == s[at + n..]
  {
  }

  lemma SliceOfSlice<T>(s: seq<T>, lo: nat, hi: nat, i: nat, j: nat)
    requires i <= j && lo + j <= hi <= |s|
    ensures s[lo..hi][i..j] == s[lo + i..lo + j]
  {
    forall k | 0 <= k < j - i
      ensures s[lo..hi][i..j][k] == s[lo + i..lo + j][k]
    {
    }
  }

  lemma SliceJoin<T>(s: seq<T>, i: nat, j: nat, k: nat)
    requires i <= j <= k <= |s|
    ensures s[i..j] + s[j..k] == s[i..k]
  {
  }

  lemma SliceOfTake<T>(s: seq<T>, at: nat, lo: nat, hi: nat)
    requires lo <= hi <= at <= |s|
    ensures s[..at][lo..hi] == s[lo..hi]
  {
  }

  // ----- a piece at a position of something longer

  ghost predicate At<T(!new)>(data: seq<T>, pos: nat, s: seq<T>) {
    pos + |s| <= |data| && data[pos..pos + |s|] == s
  }

  lemma AtSplit<T(!new)>(data: seq<T>, pos: nat, a: seq<T>, b: seq<T>)
    requires At(data, pos, a + b)
    ensures At(data, pos, a) && At(data, pos + |a|, b)
  {
    SliceOfSlice(data, pos, pos + |a + b|, 0, |a|);
    SliceOfSlice(data, pos, pos + |a + b|, |a|, |a + b|);
    assert (a + b)[0..|a|] == a && (a + b)[|a|..|a + b|] == b;
  }

  lemma AtElement<T(!new)>(data: seq<T>, pos: nat, s: seq<T>, i: nat)
    requires At(data, pos, s) && i < |s|
    ensures data[pos + i] == s[i]
  {
    assert data[pos..pos + |s|][i] == data[pos + i];
  }

  /** Where a piece is in `buf`, it is in anything around `buf`. */
  lemma AtInside<T(!new)>(pre: seq<T>, buf: seq<T>, more: seq<T>, pos: nat, s: seq<T>)
    requires At(buf, pos, s)
    ensures At(pre + buf + more, |pre| + pos, s)
  {
    var all := pre + buf + more;
    forall k | 0 <= k < |s| ensures all[|pre| + pos + k] == s[k] {
      AtElement(buf, pos, s, k);
    }
  }
}
