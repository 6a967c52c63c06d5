/** Byte shuffling of whole elements, as the shuffle filter and the blosc frame do it. */
module Shuffle {
  import opened Bytes
  import opened Transpose
  import Seqs

  lemma WholeElements(len: nat, size: nat)
    requires size > 0
    ensures 0 <= len / size && 0 <= len / size * size <= len && size * (len / size) == len / size * size
  {
    DivisionFacts(len, size);
  }

  /** Byte j of element i moves to position j * n + i; bytes past the last whole element stay. */
  function Shuffled(size: nat, data: seq<u8>): (s: seq<u8>)
    requires size > 0
    ensures |s| == |data|
  {
    WholeElements(|data|, size);
    var n: nat := |data| / size;
    Transposed(data[..n * size], n, size) + data[n * size..]
  }

  function Unshuffled(size: nat, data: seq<u8>): (s: seq<u8>)
    requires size > 0
    ensures |s| == |data|
  {
    WholeElements(|data|, size);
    var n: nat := |data| / size;
    Transposed(data[..n * size], size, n) + data[n * size..]
  }

  lemma ShuffledAt(size: nat, data: seq<u8>, i: nat, j: nat)
    requires size > 0 && j < size && i < |data| / size
    ensures 0 <= j * (|data| / size) + i < |data| && 0 <= i * size + j < |data|
    ensures Shuffled(size, data)[j * (|data| / size) + i] == data[i * size + j]
  {
    WholeElements(|data|, size);
    var n: nat := |data| / size;
    TransposedAt(data[..n * size], n, size, i, j);
  }

  /** Unshuffling gives the bytes back, whatever the element size. */
  lemma UnshuffleOfShuffle(size: nat, data: seq<u8>)
    requires size > 0
    ensures Unshuffled(size, Shuffled(size, data)) == data
  {
    hide Transposed;
    WholeElements(|data|, size);
    var n: nat := |data| / size;
    TransposedTwice(data[..n * size], n, size);
    Seqs.DropAppended(Transposed(data[..n * size], n, size), data[n * size..]);
    Seqs.SplitAt(data, n * size);
  }

  /** And shuffling undoes unshuffling: every buffer is a shuffled one. */
  lemma ShuffleOfUnshuffle(size: nat, data: seq<u8>)
    requires size > 0
    ensures Shuffled(size, Unshuffled(size, data)) == data
  {
    hide Transposed;
    WholeElements(|data|, size);
    var n: nat := |data| / size;
    TransposedTwice(data[..n * size], size, n);
    Seqs.DropAppended(Transposed(data[..n * size], size, n), data[n * size..]);
    Seqs.SplitAt(data, n * size);
  }

  /** Elements of one byte stay where they are. */
  lemma SingleBytes(data: seq<u8>)
    ensures Shuffled(1, data) == data && Unshuffled(1, data) == data
  {
    assert data[..|data| * 1] == data;
    forall p | 0 <= p < |data|
      ensures Shuffled(1, data)[p] == data[p] && Unshuffled(1, data)[p] == data[p]
    {
      TransposedAt(data, |data|, 1, p, 0);
      TransposedAt(data, 1, |data|, 0, p);
    }
  }

  method ShuffleBytes(size: nat, data: seq<u8>) returns (s: seq<u8>)
    requires size > 0
    ensures s == Shuffled(size, data)
  {
    WholeElements(|data|, size);
    var n: nat := |data| / size;
    var out := new u8[|data|];
    WriteInOrder(data, n, size, out);
    CopyTail(data, out, n * size);
    Seqs.SplitAt(out[..], n * size);
    s := out[..];
  }

  method UnshuffleBytes(size: nat, data: seq<u8>) returns (s: seq<u8>)
    requires size > 0
    ensures s == Unshuffled(size, data)
  {
    WholeElements(|data|, size);
    var n: nat := |data| / size;
    var out := new u8[|data|];
    ReadInOrder(data, size, n, out);
    CopyTail(data, out, n * size);
    Seqs.SplitAt(out[..], n * size);
    s := out[..];
  }

  /** Trailing bytes that do not form a whole element are copied as they are. */
  method CopyTail(data: seq<u8>, out: array<u8>, tail: nat)
    requires tail <= |data| == out.Length
    modifies out
    ensures out[..tail] == old(out[..tail]) && out[tail..] == data[tail..]
  {
    for i := tail to |data|
      invariant out[..tail] == old(out[..tail]) && out[tail..i] == data[tail..i]
    {
      out[i] := data[i];
      assert out[tail..i] == data[tail..i];
    }
  }

  /** The shuffle filter leaves single-byte elements alone. */
  method FilterShuffle(size: nat, data: seq<u8>) returns (s: seq<u8>)
    ensures s == Shuffled(Max(size, 1), data)
  {
    if size <= 1 {
      SingleBytes(data);
      return data;
    }
    s := ShuffleBytes(size, data);
  }

  method FilterUnshuffle(size: nat, data: seq<u8>) returns (s: seq<u8>)
    ensures s == Unshuffled(Max(size, 1), data)
  {
    if size <= 1 {
      SingleBytes(data);
      return data;
    }
    s := UnshuffleBytes(size, data);
  }
}
