/** What the two LZ77 coders of the engine share: literal runs, match search and overlapping copies. */
module Lz {
  import opened Wrappers
  import opened Bytes
  import Seqs

  const HASH_SLOTS: nat := 0x4000
  const MAX_LITERALS: nat := 32

  /** Appends `len` bytes, each a copy of the byte `dist` places back; source and copy may overlap. */
  function CopyBack(out: seq<u8>, dist: nat, len: nat): (r: seq<u8>)
    requires 0 < dist <= |out|
    ensures |r| == |out| + len
    decreases len
  {
    if len == 0 then out else CopyBack(out + [out[|out| - dist]], dist, len - 1)
  }

  /** The bytes at `pos` repeat those at `cand`, for `len` bytes. */
  predicate Repeats(input: seq<u8>, cand: nat, pos: nat, len: nat)
    requires cand <= pos && pos + len <= |input|
  {
    input[cand..cand + len] == input[pos..pos + len]
  }

  /** The test both compressors make before they extend a match. */
  predicate SameTriple(input: seq<u8>, cand: nat, pos: nat)
    requires cand <= pos && pos + 3 <= |input|
  {
    input[cand] == input[pos] && input[cand + 1] == input[pos + 1] && input[cand + 2] == input[pos + 2]
  }

  lemma TripleRepeats(input: seq<u8>, cand: nat, pos: nat)
    requires cand <= pos && pos + 3 <= |input| && SameTriple(input, cand, pos)
    ensures Repeats(input, cand, pos, 3)
  {
    assert input[cand..cand + 3] == [input[cand], input[cand + 1], input[cand + 2]];
    assert input[pos..pos + 3] == [input[pos], input[pos + 1], input[pos + 2]];
  }

  /** Copying back over a repetition extends the known prefix of the input. */
  lemma {:induction false} CopyOfRepetition(input: seq<u8>, cand: nat, pos: nat, len: nat)
    requires cand < pos && pos + len <= |input| && Repeats(input, cand, pos, len)
    ensures CopyBack(input[..pos], pos - cand, len) == input[..pos + len]
    decreases len
  {
    if len > 0 {
      NextByte(input, pos);
      SplitRepetition(input, cand, pos, 1, len);
      CopyOfRepetition(input, cand + 1, pos + 1, len - 1);
    }
  }

  /** A repetition of `len` bytes is one of i bytes followed by one of the rest. */
  lemma SplitRepetition(input: seq<u8>, cand: nat, pos: nat, i: nat, len: nat)
    requires cand <= pos && pos + len <= |input| && i <= len
    ensures Repeats(input, cand, pos, len) <==>
            Repeats(input, cand, pos, i) && Repeats(input, cand + i, pos + i, len - i)
    ensures i == 1 && Repeats(input, cand, pos, len) ==> input[cand] == input[pos]
  {
    SplitSlice(input, cand, i, len);
    SplitSlice(input, pos, i, len);
    Seqs.DropAppended(input[cand..cand + i], input[cand + i..cand + len]);
    Seqs.DropAppended(input[pos..pos + i], input[pos + i..pos + len]);
    if i == 1 && Repeats(input, cand, pos, len) {
      assert input[cand..cand + len][0] == input[pos..pos + len][0];
    }
  }

  lemma SplitSlice(s: seq<u8>, at: nat, i: nat, len: nat)
    requires i <= len && at + len <= |s|
    ensures s[at..at + len] == s[at..at + i] + s[at + i..at + len]
  {
  }

  lemma NextByte(input: seq<u8>, pos: nat)
    requires pos < |input|
    ensures input[..pos] + [input[pos]] == input[..pos + 1]
  {
  }

  /** Runs of at most 32 literal bytes, each after its length less one. */
  function LiteralRuns(s: seq<u8>): (r: seq<u8>)
    ensures |r| == |s| + CeilDiv(|s|, MAX_LITERALS)
  {
    if s == [] then [] else
      var run := Min(|s|, MAX_LITERALS);
      [run - 1] + s[..run] + LiteralRuns(s[run..])
  }

  method EmitLiterals(out: seq<u8>, input: seq<u8>, from: nat, to: nat) returns (r: seq<u8>)
    requires from <= to <= |input|
    ensures r == out + LiteralRuns(input[from..to])
  {
    hide LiteralRuns;
    r := out;
    var s := from;
    while s < to
      invariant from <= s <= to
      invariant r + LiteralRuns(input[s..to]) == out + LiteralRuns(input[from..to])
    {
      var run := Min(to - s, MAX_LITERALS);
      NextRun(input, s, to, run);
      Seqs.Assoc(r, [run - 1] + input[s..s + run], LiteralRuns(input[s + run..to]));
      Seqs.Assoc(r, [run - 1], input[s..s + run]);
      r := r + [run - 1] + input[s..s + run];
      s := s + run;
    }
    NoRuns(input[s..to]);
    Seqs.Empty(r);
  }

  lemma NoRuns(s: seq<u8>)
    requires s == []
    ensures LiteralRuns(s) == []
  {
  }

  lemma NextRun(input: seq<u8>, s: nat, to: nat, run: nat)
    requires s < to <= |input| && run == Min(to - s, MAX_LITERALS)
    ensures LiteralRuns(input[s..to]) == [run - 1] + input[s..s + run] + LiteralRuns(input[s + run..to])
  {
    assert input[s..to][..run] == input[s..s + run];
    assert input[s..to][run..] == input[s + run..to];
  }

  /** The multiplicative hash of three bytes. */
  function Hash(a: u8, b: u8, c: u8): (h: nat)
    ensures h < HASH_SLOTS
  {
    (a * 0x1_0000 + b * 0x100 + c) * 2654435761 % TWO_32 / 0x4_0000
  }

  /** Every position in the table lies before `pos`. */
  ghost predicate Below(table: seq<Option<nat>>, pos: nat) {
    forall h :: 0 <= h < |table| && table[h].Some? ==> table[h].value < pos
  }

  method NewTable() returns (table: array<Option<nat>>)
    ensures fresh(table) && table.Length == HASH_SLOTS && Below(table[..], 0)
  {
    table := new Option<nat>[HASH_SLOTS](_ => None);
  }

  /** Looks up the last position whose three bytes had the same hash, and records `pos` instead. */
  method Probe(table: array<Option<nat>>, input: seq<u8>, pos: nat) returns (slot: Option<nat>)
    requires table.Length == HASH_SLOTS && pos + 3 <= |input| && Below(table[..], pos)
    modifies table
    ensures slot.Some? ==> slot.value < pos
    ensures Below(table[..], pos + 1)
    ensures var h := Hash(input[pos], input[pos + 1], input[pos + 2]);
            slot == old(table[h]) && table[..] == old(table[..])[h := Some(pos)]
  {
    var h := Hash(input[pos], input[pos + 1], input[pos + 2]);
    slot := table[h];
    table[h] := Some(pos);
  }

  lemma BelowLater(table: seq<Option<nat>>, pos: nat, later: nat)
    requires Below(table, pos) && pos <= later
    ensures Below(table, later)
  {
  }

  /** Extends a match of three bytes as far as `maxLen` allows. */
  method ExtendMatch(input: seq<u8>, cand: nat, pos: nat, maxLen: nat) returns (len: nat)
    requires cand < pos && 3 <= maxLen && pos + maxLen <= |input| && Repeats(input, cand, pos, 3)
    ensures 3 <= len <= maxLen && Repeats(input, cand, pos, len)
    ensures len < maxLen ==> input[cand + len] != input[pos + len]
  {
    len := 3;
    while len < maxLen && input[cand + len] == input[pos + len]
      invariant 3 <= len <= maxLen && Repeats(input, cand, pos, len)
    {
      SplitRepetition(input, cand, pos, len, len + 1);
      len := len + 1;
    }
  }

  /** The decoders' copy loop. */
  method CopyLoop(out: seq<u8>, dist: nat, len: nat) returns (r: seq<u8>)
    requires 0 < dist <= |out|
    ensures r == CopyBack(out, dist, len)
  {
    r := out;
    var rpos := |out| - dist;
    for i := 0 to len
      invariant |r| == |out| + i && rpos == |r| - dist
      invariant CopyBack(r, dist, len - i) == CopyBack(out, dist, len)
    {
      r := r + [r[rpos]];
      rpos := rpos + 1;
    }
  }
}
