/** The loops that write and read a write log. */
module WriteLogCodec {
  import opened Wrappers
  import opened Bytes
  import opened WriteLog
  import Seqs

  method WriteRanges(b: seq<u8>, ranges: seq<Range>) returns (out: seq<u8>)
    ensures out == b + EncodeRanges(ranges)
  {
    hide Le;
    out := b;
    for i := 0 to |ranges|
      invariant out + EncodeRanges(ranges[i..]) == b + EncodeRanges(ranges)
    {
      NextRange(out, ranges, i);
      out := out + Le(ranges[i].0, 8) + Le(ranges[i].1, 8);
    }
    Seqs.Empty(out);
  }

  lemma NextRange(out: seq<u8>, ranges: seq<Range>, i: nat)
    requires i < |ranges|
    ensures out + Le(ranges[i].0, 8) + Le(ranges[i].1, 8) + EncodeRanges(ranges[i + 1..]) ==
            out + EncodeRanges(ranges[i..])
  {
    var o, l, more := Le(ranges[i].0, 8), Le(ranges[i].1, 8), EncodeRanges(ranges[i + 1..]);
    assert ranges[i..][1..] == ranges[i + 1..];
    Seqs.Assoc(out + o, l, more);
    Seqs.Assoc(out, o, l + more);
  }

  method WriteLogBytes(log: seq<Entry>) returns (b: seq<u8>)
    ensures b == EncodeLog(log)
  {
    hide Le, EncodeEntry;
    b := Le(|log|, 8);
    for i := 0 to |log|
      invariant b + EncodeEntries(log[i..]) == EncodeLog(log)
    {
      var e := log[i];
      assert log[i..][1..] == log[i + 1..];
      Seqs.Assoc(b, EncodeEntry(e), EncodeEntries(log[i + 1..]));
      b := WriteEntry(b, e);
    }
    Seqs.Empty(b);
  }

  method WriteEntry(b: seq<u8>, e: Entry) returns (out: seq<u8>)
    ensures out == b + EncodeEntry(e)
  {
    hide Le, EncodeRanges;
    out := b + Le(|e.path|, 4) + e.path + Le(|e.ranges|, 8);
    out := WriteRanges(out, e.ranges);
    out := out + Le(|e.bytes|, 8) + e.bytes;
    SixParts(b, Le(|e.path|, 4), e.path, Le(|e.ranges|, 8), EncodeRanges(e.ranges), Le(|e.bytes|, 8), e.bytes);
  }

  lemma SixParts(b: seq<u8>, p: seq<u8>, q: seq<u8>, r: seq<u8>, s: seq<u8>, t: seq<u8>, u: seq<u8>)
    ensures b + p + q + r + s + t + u == b + (p + (q + (r + (s + (t + u)))))
  {
  }

  // ----- reading

  /** Reading on after `done` ranges gives `rest`, so reading from the start gives `total`. */
  predicate Continues(total: Parsed<seq<Range>>, done: seq<Range>, rest: Parsed<seq<Range>>) {
    if rest.Failure? then total == rest else total == Success((done + rest.value.0, rest.value.1))
  }

  lemma NextRead(total: Parsed<seq<Range>>, done: seq<Range>, c: seq<u8>, n: nat)
    requires n > 0 && Continues(total, done, DecodeRanges(c, n))
    ensures |c| < 16 ==> total == Failure(Truncated)
    ensures |c| >= 16 ==>
              && FromLe(c[..8]) < TWO_64 && FromLe(c[8..16]) < TWO_64
              && Continues(total, done + [(FromLe(c[..8]), FromLe(c[8..16]))], DecodeRanges(c[16..], n - 1))
  {
    Pow2Constants();
    if |c| >= 16 {
      FromLeBound(c[..8]);
      FromLeBound(c[8..16]);
      Seqs.SliceOfDrop(c, 8, 8);
      var rest := DecodeRanges(c[16..], n - 1);
      if rest.Success? {
        Seqs.Assoc(done, [(FromLe(c[..8]), FromLe(c[8..16]))], rest.value.0);
      }
    }
  }

  method ReadRanges(c: seq<u8>, n: nat) returns (r: Parsed<seq<Range>>)
    ensures r == DecodeRanges(c, n)
  {
    hide DecodeRanges, FromLe;
    var ranges: seq<Range>, rest := [], c;
    ghost var total := DecodeRanges(c, n);
    if total.Success? {
      Seqs.Empty(total.value.0);
    }
    for i := 0 to n
      invariant Continues(total, ranges, DecodeRanges(rest, n - i))
    {
      NextRead(total, ranges, rest, n - i);
      if |rest| < 16 {
        return Failure(Truncated);
      }
      ranges, rest := ranges + [(FromLe(rest[..8]), FromLe(rest[8..16]))], rest[16..];
    }
    NoRanges(rest);
    Seqs.Empty(ranges);
    r := Success((ranges, rest));
  }

  lemma NoRanges(c: seq<u8>)
    ensures DecodeRanges(c, 0) == Success(([], c))
  {
  }

  method ReadEntry(c: seq<u8>) returns (r: Parsed<Entry>)
    ensures r == DecodeEntry(c)
  {
    hide TakeInt, Take, DecodeRanges;
    var pl := TakeInt(c, 4);
    if pl.Failure? {
      return Failure(pl.error);
    }
    var path := Take(pl.value.1, pl.value.0);
    if path.Failure? {
      return Failure(path.error);
    }
    var nr := TakeInt(path.value.1, 8);
    if nr.Failure? {
      return Failure(nr.error);
    }
    var ranges := ReadRanges(nr.value.1, nr.value.0);
    if ranges.Failure? {
      return Failure(ranges.error);
    }
    var bl := TakeInt(ranges.value.1, 8);
    if bl.Failure? {
      return Failure(bl.error);
    }
    var bytes := Take(bl.value.1, bl.value.0);
    if bytes.Failure? {
      return Failure(bytes.error);
    }
    r := Success((Entry(path.value.0, ranges.value.0, bytes.value.0), bytes.value.1));
  }

  predicate LogContinues(total: Result<seq<Entry>, LogError>, done: seq<Entry>, rest: Result<seq<Entry>, LogError>) {
    if rest.Failure? then total == rest else total == Success(done + rest.value)
  }

  lemma NextEntry(total: Result<seq<Entry>, LogError>, done: seq<Entry>, c: seq<u8>, n: nat)
    requires n > 0 && LogContinues(total, done, DecodeEntries(c, n))
    ensures DecodeEntry(c).Failure? ==> total == Failure(DecodeEntry(c).error)
    ensures DecodeEntry(c).Success? ==>
              LogContinues(total, done + [DecodeEntry(c).value.0], DecodeEntries(DecodeEntry(c).value.1, n - 1))
  {
    hide DecodeEntry;
    if DecodeEntry(c).Success? {
      var rest := DecodeEntries(DecodeEntry(c).value.1, n - 1);
      if rest.Success? {
        Seqs.Assoc(done, [DecodeEntry(c).value.0], rest.value);
      }
    }
  }

  method ReadLogBytes(c: seq<u8>) returns (r: Result<seq<Entry>, LogError>)
    ensures r == DecodeLog(c)
  {
    hide TakeInt, DecodeEntry, DecodeEntries;
    var n := TakeInt(c, 8);
    if n.Failure? {
      return Failure(n.error);
    }
    var log, rest := [], n.value.1;
    ghost var total := DecodeEntries(rest, n.value.0);
    if total.Success? {
      Seqs.Empty(total.value);
    }
    for i := 0 to n.value.0
      invariant LogContinues(total, log, DecodeEntries(rest, n.value.0 - i))
    {
      NextEntry(total, log, rest, n.value.0 - i);
      var e := ReadEntry(rest);
      if e.Failure? {
        return Failure(e.error);
      }
      log, rest := log + [e.value.0], e.value.1;
    }
    NoEntries(rest);
    Seqs.Empty(log);
    r := Success(log);
  }

  lemma NoEntries(c: seq<u8>)
    ensures DecodeEntries(c, 0) == Success([])
  {
  }
}
