/** Length-prefixed parts: how a gathered set travels in one message. */
module Frames {
  import opened Wrappers
  import opened Bytes
  import Seqs

  /** Every part behind its length, as 8 little-endian bytes. */
  function Blob(parts: seq<seq<u8>>): seq<u8> {
    if parts == [] then [] else Le(|parts[0]|, 8) + parts[0] + Blob(parts[1..])
  }

  /** Slicing past the end stops the reader, so it has no result here. */
  function DecodeBlob(c: seq<u8>, n: nat): Option<seq<seq<u8>>> {
    if n == 0 then Some([])
    else if |c| < 8 then None
    else
      var len := FromLe(c[..8]);
      if |c| < 8 + len then None
      else match DecodeBlob(c[8 + len..], n - 1)
        case None => None
        case Some(parts) => Some([c[8..8 + len]] + parts)
  }

  predicate Sized(parts: seq<seq<u8>>) {
    forall i :: 0 <= i < |parts| ==> |parts[i]| < TWO_64
  }

  lemma {:induction false} BlobAppend(parts: seq<seq<u8>>, p: seq<u8>)
    ensures Blob(parts + [p]) == Blob(parts) + (Le(|p|, 8) + p)
  {
    if parts == [] {
      assert parts + [p] == [p] && [p][1..] == [];
      Seqs.Empty(Le(|p|, 8) + p);
    } else {
      BlobAppend(parts[1..], p);
      assert (parts + [p])[1..] == parts[1..] + [p];
      Seqs.Assoc(Le(|parts[0]|, 8) + parts[0], Blob(parts[1..]), Le(|p|, 8) + p);
    }
  }

  /** A blob unpacks to the parts it was made of, whatever follows it. */
  lemma {:induction false} BlobRoundTrip(parts: seq<seq<u8>>, rest: seq<u8>)
    requires Sized(parts)
    ensures DecodeBlob(Blob(parts) + rest, |parts|) == Some(parts)
  {
    if parts != [] {
      var p := parts[0];
      var c, tail := Blob(parts) + rest, Blob(parts[1..]) + rest;
      BlobRoundTrip(parts[1..], rest);
      Pow2Constants();
      FromLeOfLe(|p|, 8);
      PrefixedPart(Le(|p|, 8), p, Blob(parts[1..]), rest);
      Seqs.HeadAndTail(parts);
    }
  }

  lemma PrefixedPart(len: seq<u8>, p: seq<u8>, more: seq<u8>, rest: seq<u8>)
    requires |len| == 8
    ensures var c := len + p + more + rest;
            c[..8] == len && c[8..8 + |p|] == p && c[8 + |p|..] == more + rest
  {
  }

  method EncodeParts(parts: seq<seq<u8>>) returns (blob: seq<u8>)
    ensures blob == Blob(parts)
  {
    blob := [];
    for i := 0 to |parts|
      invariant blob == Blob(parts[..i])
    {
      BlobAppend(parts[..i], parts[i]);
      assert parts[..i] + [parts[i]] == parts[..i + 1];
      Seqs.Assoc(blob, Le(|parts[i]|, 8), parts[i]);
      blob := blob + Le(|parts[i]|, 8) + parts[i];
    }
    Seqs.TakeAll(parts, |parts|);
  }

  /** What decoding gives once `done` parts are read and `rest` is left. */
  lemma DecodeNext(total: Option<seq<seq<u8>>>, done: seq<seq<u8>>, c: seq<u8>, n: nat)
    requires Continues(total, done, DecodeBlob(c, n)) && n > 0
    ensures |c| < 8 ==> total.None?
    ensures |c| >= 8 && |c| < 8 + FromLe(c[..8]) ==> total.None?
    ensures |c| >= 8 && |c| >= 8 + FromLe(c[..8]) ==>
              var len := FromLe(c[..8]);
              Continues(total, done + [c[8..8 + len]], DecodeBlob(c[8 + len..], n - 1))
  {
    if |c| >= 8 && |c| >= 8 + FromLe(c[..8]) {
      var len := FromLe(c[..8]);
      var rest := DecodeBlob(c[8 + len..], n - 1);
      if rest.Some? {
        Seqs.Assoc(done, [c[8..8 + len]], rest.value);
      }
    }
  }

  predicate Continues(total: Option<seq<seq<u8>>>, done: seq<seq<u8>>, rest: Option<seq<seq<u8>>>) {
    if rest.None? then total.None? else total == Some(done + rest.value)
  }

  method DecodeParts(blob: seq<u8>, n: nat) returns (r: Option<seq<seq<u8>>>)
    ensures r == DecodeBlob(blob, n)
  {
    hide DecodeBlob;
    var parts, c := [], blob;
    ghost var total := DecodeBlob(blob, n);
    if total.Some? {
      Seqs.Empty(total.value);
    }
    for i := 0 to n
      invariant Continues(total, parts, DecodeBlob(c, n - i))
    {
      DecodeNext(total, parts, c, n - i);
      if |c| < 8 || |c| < 8 + FromLe(c[..8]) {
        return None;
      }
      var len := FromLe(c[..8]);
      parts, c := parts + [c[8..8 + len]], c[8 + len..];
    }
    DecodeNothing(c);
    Seqs.Empty(parts);
    r := Some(parts);
  }

  lemma DecodeNothing(c: seq<u8>)
    ensures DecodeBlob(c, 0) == Some([])
  {
  }
}
