/** The blosclz codec. Its decoder masks the first control byte and drops a match that ends the
    stream; `Strict` is the interpretation without those two quirks. */
module Blosclz {
  import opened Wrappers
  import opened Bytes
  import opened Lz
  import Seqs

  datatype BlzError =
    | TruncatedLength | TruncatedMatch | TruncatedFarMatch | ReferenceBeforeStart
    | TruncatedLiterals | OutputOverrun | SizeMismatch

  const MAX_DISTANCE: nat := 8191

  /** A match token without its control byte: length, distance and the bytes after it. */
  datatype Match = Match(len: nat, dist: nat, rest: seq<u8>)

  /** The sum of length bytes up to the first that is not 255. */
  function ReadExtension(s: seq<u8>): (r: Option<(nat, seq<u8>)>)
    ensures r.Some? ==> |r.value.1| < |s|
  {
    if s == [] then None
    else if s[0] != 255 then Some((s[0], s[1..]))
    else match ReadExtension(s[1..])
      case None => None
      case Some((n, rest)) => Some((n + 255, rest))
  }

  function ReadDistance(s: seq<u8>, len: nat, high: nat): (r: Result<Match, BlzError>)
    ensures r.Success? ==> |r.value.rest| < |s| && r.value.dist > 0
  {
    if s == [] then Failure(TruncatedMatch)
    else if s[0] == 255 && high == 31 then
      if |s| < 3 then Failure(TruncatedFarMatch)
      else Success(Match(len, s[1] as int * 0x100 + s[2] as int + MAX_DISTANCE + 1, s[3..]))
    else Success(Match(len, high * 0x100 + s[0] as int + 1, s[1..]))
  }

  /** The match announced by control byte `ctrl`. */
  function ReadMatch(ctrl: u8, s: seq<u8>): (r: Result<Match, BlzError>)
    requires ctrl >= 32
    ensures r.Success? ==> |r.value.rest| < |s| && r.value.dist > 0
  {
    if ctrl / 32 == 7 then
      match ReadExtension(s)
      case None => Failure(TruncatedLength)
      case Some((n, rest)) => ReadDistance(rest, n + 9, ctrl % 32)
    else ReadDistance(s, ctrl as int / 32 + 2, ctrl % 32)
  }

  function Finish(out: seq<u8>, outLen: nat): Result<seq<u8>, BlzError> {
    if |out| != outLen then Failure(SizeMismatch) else Success(out)
  }

  /** The decoder from a control byte on. */
  function DecodeLoop(s: seq<u8>, out: seq<u8>, outLen: nat): Result<seq<u8>, BlzError>
    requires s != []
    decreases |s|, 0
  {
    if s[0] >= 32 then
      var m :- ReadMatch(s[0], s[1..]);
      AfterMatch(m, out, outLen)
    else if |s| < s[0] + 2 then Failure(TruncatedLiterals)
    else if |s| == s[0] + 2 then Finish(out + s[1..s[0] + 2], outLen)
    else Continue(s[s[0] + 2..], out + s[1..s[0] + 2], outLen)
  }

  function AfterMatch(m: Match, out: seq<u8>, outLen: nat): Result<seq<u8>, BlzError>
    requires m.dist > 0
    decreases |m.rest|, 2
  {
    if m.dist > |out| then Failure(ReferenceBeforeStart)
    else if m.rest == [] then Finish(out, outLen) // the final match is not copied
    else Continue(m.rest, CopyBack(out, m.dist, m.len), outLen)
  }

  function Continue(s: seq<u8>, out: seq<u8>, outLen: nat): Result<seq<u8>, BlzError>
    requires s != []
    decreases |s|, 1
  {
    if |out| > outLen then Failure(OutputOverrun) else DecodeLoop(s, out, outLen)
  }

  function Decode(input: seq<u8>, outLen: nat): Result<seq<u8>, BlzError> {
    if input == [] then Success([]) else DecodeLoop([input[0] % 32] + input[1..], [], outLen)
  }

  // ----- the strict interpretation

  datatype State = State(out: seq<u8>, afterMatch: bool)

  /** Executes every token; refuses a match at the start or right after another match. */
  function Strict(s: seq<u8>, st: State): (r: Option<State>)
    decreases |s|
  {
    if s == [] then Some(st)
    else if s[0] >= 32 then
      match ReadMatch(s[0], s[1..])
      case Failure(_) => None
      case Success(m) =>
        if st.afterMatch || m.dist > |st.out| then None
        else Strict(m.rest, State(CopyBack(st.out, m.dist, m.len), true))
    else if |s| < s[0] + 2 then None
    else Strict(s[s[0] + 2..], State(st.out + s[1..s[0] + 2], false))
  }

  lemma {:induction false} StrictGrows(s: seq<u8>, st: State)
    requires Strict(s, st).Some?
    ensures |Strict(s, st).value.out| >= |st.out|
    decreases |s|
  {
    if s != [] {
      if s[0] >= 32 {
        var m := ReadMatch(s[0], s[1..]).value;
        StrictGrows(m.rest, State(CopyBack(st.out, m.dist, m.len), true));
      } else {
        StrictGrows(s[s[0] + 2..], State(st.out + s[1..s[0] + 2], false));
      }
    }
  }

  /** The decoder agrees with the strict interpretation of a stream that ends in literals. */
  lemma {:induction false} DecodeOfStrict(s: seq<u8>, st: State, x: seq<u8>)
    requires s != [] && Strict(s, st) == Some(State(x, false))
    ensures DecodeLoop(s, st.out, |x|) == Success(x)
    decreases |s|
  {
    hide CopyBack;
    StrictGrows(s, st);
    if s[0] >= 32 {
      var m := ReadMatch(s[0], s[1..]).value;
      var next := State(CopyBack(st.out, m.dist, m.len), true);
      StrictGrows(m.rest, next);
      DecodeOfStrict(m.rest, next, x);
      assert Continue(m.rest, next.out, |x|) == Success(x);
      assert AfterMatch(m, st.out, |x|) == Success(x);
    } else {
      var n := s[0] + 2;
      var next := State(st.out + s[1..n], false);
      StrictGrows(s[n..], next);
      if |s| > n {
        DecodeOfStrict(s[n..], next, x);
      }
    }
  }

  /** A stream that starts with literals and ends with literals decodes as it reads. */
  lemma DecodeOfStream(s: seq<u8>, x: seq<u8>)
    requires s != [] && Strict(s, State([], true)) == Some(State(x, false))
    ensures Decode(s, |x|) == Success(x)
  {
    Seqs.HeadAndTail(s);
    DecodeOfStrict(s, State([], true), x);
  }

  lemma {:induction false} ReadExtensionAppend(a: seq<u8>, b: seq<u8>)
    requires ReadExtension(a).Some?
    ensures ReadExtension(a + b) == Some((ReadExtension(a).value.0, ReadExtension(a).value.1 + b))
  {
    Seqs.DropInto(a, b, 1);
    if a[0] == 255 {
      ReadExtensionAppend(a[1..], b);
    }
  }

  lemma ReadMatchAppend(ctrl: u8, a: seq<u8>, b: seq<u8>)
    requires ctrl >= 32 && ReadMatch(ctrl, a).Success?
    ensures var m := ReadMatch(ctrl, a).value; ReadMatch(ctrl, a + b) == Success(m.(rest := m.rest + b))
  {
    if ctrl / 32 == 7 {
      ReadExtensionAppend(a, b);
      ReadDistanceAppend(ReadExtension(a).value.1, b, ReadExtension(a).value.0 + 9, ctrl % 32);
    } else {
      ReadDistanceAppend(a, b, ctrl as int / 32 + 2, ctrl % 32);
    }
  }

  lemma ReadDistanceAppend(a: seq<u8>, b: seq<u8>, len: nat, high: nat)
    requires ReadDistance(a, len, high).Success?
    ensures var m := ReadDistance(a, len, high).value; ReadDistance(a + b, len, high) == Success(m.(rest := m.rest + b))
  {
    Seqs.DropInto(a, b, 1);
    if a[0] == 255 && high == 31 {
      Seqs.DropInto(a, b, 3);
    }
  }

  lemma {:induction false} StrictAppend(a: seq<u8>, b: seq<u8>, st: State)
    requires Strict(a, st).Some?
    ensures Strict(a + b, st) == Strict(b, Strict(a, st).value)
    decreases |a|
  {
    hide CopyBack, ReadMatch;
    if a == [] {
      Seqs.Empty(b);
    } else if a[0] >= 32 {
      Seqs.DropInto(a, b, 1);
      ReadMatchAppend(a[0], a[1..], b);
      var m := ReadMatch(a[0], a[1..]).value;
      StrictAppend(m.rest, b, State(CopyBack(st.out, m.dist, m.len), true));
    } else {
      var n := a[0] + 2;
      Seqs.DropInto(a, b, n);
      Seqs.SliceInto(a, b, 1, n);
      StrictAppend(a[n..], b, State(st.out + a[1..n], false));
    }
  }

  lemma {:induction false} StrictLiterals(s: seq<u8>, st: State)
    ensures Strict(LiteralRuns(s), st) == Some(if s == [] then st else State(st.out + s, false))
    decreases |s|
  {
    if s != [] {
      var run := Min(|s|, MAX_LITERALS);
      var more := LiteralRuns(s[run..]);
      Seqs.DropAppended([run - 1] + s[..run], more);
      Seqs.SliceInto([run - 1] + s[..run], more, 1, run + 1);
      Seqs.DropAppended([run - 1 as u8], s[..run]);
      StrictLiterals(s[run..], State(st.out + s[..run], false));
      Seqs.MovePrefix(st.out, s, run);
      if |s| == run {
        Seqs.TakeAll(s, run);
      }
    }
  }

  // ----- the compressor

  /** `rest` in bytes of at most 255, ended by the first that is less. */
  function Extension(rest: nat): (t: seq<u8>)
    ensures |t| > 0
  {
    if rest < 255 then [rest] else [255] + Extension(rest - 255)
  }

  lemma {:induction false} ReadOfExtension(n: nat, rest: seq<u8>)
    ensures ReadExtension(Extension(n) + rest) == Some((n, rest))
  {
    var s := Extension(n) + rest;
    if n < 255 {
      assert s[1..] == rest;
    } else {
      assert s[1..] == Extension(n - 255) + rest;
      ReadOfExtension(n - 255, rest);
    }
  }

  /** The token for a match of `len` bytes at distance d1 + 1. */
  function MatchToken(d1: nat, len: nat): (t: seq<u8>)
    requires d1 < MAX_DISTANCE && len >= 3
    ensures |t| >= 2
  {
    if len - 3 < 6 then [(len - 2) * 32 + d1 / 0x100, d1 % 0x100]
    else [7 * 32 + d1 / 0x100] + Extension(len - 9) + [d1 % 0x100]
  }

  lemma ReadOfMatchToken(d1: nat, len: nat)
    requires d1 < MAX_DISTANCE && len >= 3
    ensures var t := MatchToken(d1, len);
            t[0] >= 32 && ReadMatch(t[0], t[1..]) == Success(Match(len, d1 + 1, []))
  {
    var high, low := d1 / 0x100, d1 % 0x100;
    var t := MatchToken(d1, len);
    ReadOfLowByte(low, len, high);
    if len - 3 < 6 {
      assert t[0] as int / 32 == len - 2 && t[0] % 32 == high;
      assert t[1..] == [low];
    } else {
      assert t[0] as int / 32 == 7 && t[0] % 32 == high;
      assert t[1..] == Extension(len - 9) + [low];
      ReadOfExtension(len - 9, [low]);
    }
  }

  lemma ReadOfLowByte(low: u8, len: nat, high: nat)
    requires !(low == 255 && high == 31)
    ensures ReadDistance([low], len, high) == Success(Match(len, high * 0x100 + low as int + 1, []))
  {
    assert [low][1..] == [];
  }

  /** The stream so far restores the input up to `done`, and literals must follow. */
  ghost predicate Emitted(out: seq<u8>, input: seq<u8>, done: nat) {
    done <= |input| && Strict(out, State([], true)) == Some(State(input[..done], true))
  }

  /** Literals up to `pos`, then a match of `len` bytes. */
  lemma EmitMatch(out: seq<u8>, input: seq<u8>, done: nat, pos: nat, cand: nat, len: nat)
    requires Emitted(out, input, done) && done < pos && pos + len <= |input|
    requires cand < pos && pos - cand <= MAX_DISTANCE && 3 <= len && Repeats(input, cand, pos, len)
    ensures Emitted(out + LiteralRuns(input[done..pos]) + MatchToken(pos - cand - 1, len), input, pos + len)
  {
    hide Strict, LiteralRuns, MatchToken;
    var lits, t := LiteralRuns(input[done..pos]), MatchToken(pos - cand - 1, len);
    EmitTail(out, input, done, pos);
    StrictAppend(out + lits, t, State([], true));
    StrictMatch(pos - cand - 1, len, input[..pos]);
    CopyOfRepetition(input, cand, pos, len);
  }

  lemma StrictMatch(d1: nat, len: nat, out: seq<u8>)
    requires d1 < MAX_DISTANCE && len >= 3 && d1 < |out|
    ensures Strict(MatchToken(d1, len), State(out, false)) == Some(State(CopyBack(out, d1 + 1, len), true))
  {
    hide CopyBack, ReadMatch;
    ReadOfMatchToken(d1, len);
  }

  lemma EmitTail(out: seq<u8>, input: seq<u8>, done: nat, pos: nat)
    requires Emitted(out, input, done) && done < pos <= |input|
    ensures Strict(out + LiteralRuns(input[done..pos]), State([], true)) == Some(State(input[..pos], false))
  {
    hide Strict;
    StrictAppend(out, LiteralRuns(input[done..pos]), State([], true));
    StrictLiterals(input[done..pos], State(input[..done], true));
    Seqs.JoinSlices(input, done, pos);
  }

  method EmitExtension(out: seq<u8>, n: nat) returns (r: seq<u8>)
    ensures r == out + Extension(n)
  {
    r := out;
    var rest := n;
    while rest >= 255
      invariant r + Extension(rest) == out + Extension(n)
    {
      Seqs.Assoc(r, [255], Extension(rest - 255));
      r := r + [255];
      rest := rest - 255;
    }
    r := r + [rest];
  }

  method EmitToken(out: seq<u8>, d1: nat, len: nat) returns (r: seq<u8>)
    requires d1 < MAX_DISTANCE && len >= 3
    ensures r == out + MatchToken(d1, len)
  {
    var high, low := d1 / 0x100, d1 % 0x100;
    if len - 3 < 6 {
      r := out + [(len - 2) * 32 + high, low];
    } else {
      r := out + [7 * 32 + high];
      r := EmitExtension(r, len - 9);
      Seqs.Assoc(out, [7 * 32 + high], Extension(len - 9));
      Seqs.Assoc(out, [7 * 32 + high] + Extension(len - 9), [low]);
      r := r + [low];
    }
  }

  /** Extends a match as far as it may go and writes the literals before it and the match. */
  method WriteMatch(out: seq<u8>, input: seq<u8>, litStart: nat, pos: nat, cand: nat, maxLen: nat)
    returns (r: seq<u8>, len: nat)
    requires Emitted(out, input, litStart) && litStart < pos && pos + maxLen <= |input| && 3 <= maxLen
    requires cand < pos && pos - cand <= MAX_DISTANCE && SameTriple(input, cand, pos)
    ensures 3 <= len <= maxLen && Emitted(r, input, pos + len)
  {
    hide Emitted, LiteralRuns, MatchToken;
    TripleRepeats(input, cand, pos);
    len := ExtendMatch(input, cand, pos, maxLen);
    EmitMatch(out, input, litStart, pos, cand, len);
    r := EmitLiterals(out, input, litStart, pos);
    r := EmitToken(r, pos - cand - 1, len);
  }

  /** No three bytes in a row occur twice. */
  ghost predicate Unrepeating(s: seq<u8>) {
    forall i, j :: 0 <= i < j && j + 3 <= |s| ==> !SameTriple(s, i, j)
  }

  /** The whole stream, before its size is compared with the input's. */
  method EncodeStream(input: seq<u8>) returns (out: seq<u8>)
    requires |input| > 0
    ensures Strict(out, State([], true)) == Some(State(input, false))
    ensures Unrepeating(input) ==> |out| >= |input|
  {
    Seqs.TakeAll(input[..0], 0);
    assert Emitted([], input, 0);
    hide Emitted, Strict, LiteralRuns, Hash, SameTriple, Below;
    var n := |input|;
    var table := NewTable();
    var litStart, pos := 0, 0;
    out := [];
    while pos + 2 < n
      invariant 0 <= litStart <= pos <= n && litStart < n && Emitted(out, input, litStart)
      invariant Below(table[..], pos)
      invariant Unrepeating(input) ==> litStart == 0 && out == []
    {
      var slot := Probe(table, input, pos);
      // distances this short never encode as the far-match marker
      if slot.Some? && pos - slot.value <= MAX_DISTANCE && pos != litStart && SameTriple(input, slot.value, pos) {
        var maxLen := n - pos - 1; // a match never reaches the end of the input
        if maxLen < 3 {
          pos := pos + 1;
          continue;
        }
        var len;
        out, len := WriteMatch(out, input, litStart, pos, slot.value, maxLen);
        BelowLater(table[..], pos + 1, pos + len);
        pos := pos + len;
        litStart := pos;
      } else {
        pos := pos + 1;
      }
    }
    EmitTail(out, input, litStart, n);
    Seqs.TakeAll(input, n);
    out := EmitLiterals(out, input, litStart, n);
  }

  /** None when the input is short or does not shrink; otherwise a shorter stream of literals and
      matches, never starting or ending with a match, that decodes to the input. */
  method Compress(input: seq<u8>) returns (r: Option<seq<u8>>)
    ensures |input| < 16 || Unrepeating(input) ==> r.None?
    ensures r.Some? ==> 0 < |r.value| < |input|
    ensures r.Some? ==> Strict(r.value, State([], true)) == Some(State(input, false))
    ensures r.Some? ==> Decode(r.value, |input|) == Success(input)
  {
    if |input| < 16 {
      return None;
    }
    var out := EncodeStream(input);
    if |out| < |input| {
      DecodeOfStream(out, input);
      return Some(out);
    }
    return None;
  }

  // ----- the decoder's loops

  method ReadExtensionLoop(input: seq<u8>, start: nat) returns (r: Option<(nat, nat)>)
    requires start <= |input|
    ensures match r
            case None => ReadExtension(input[start..]) == None
            case Some((n, ip)) => start <= ip <= |input| && ReadExtension(input[start..]) == Some((n, input[ip..]))
  {
    var len, ip := 0, start;
    while true
      invariant start <= ip <= |input|
      invariant ReadExtension(input[start..]) ==
                match ReadExtension(input[ip..]) { case None => None case Some((n, rest)) => Some((n + len, rest)) }
      decreases |input| - ip
    {
      if ip >= |input| {
        return None;
      }
      Seqs.SliceOfDrop(input, ip, 1);
      var code: int := input[ip];
      ip := ip + 1;
      len := len + code;
      if code != 255 {
        return Some((len, ip));
      }
    }
  }

  /** Length, distance and next position of the match whose control byte precedes `start`. */
  method ReadMatchAt(ctrl: u8, input: seq<u8>, start: nat) returns (r: Result<(nat, nat, nat), BlzError>)
    requires ctrl >= 32 && start <= |input|
    ensures match r
            case Failure(e) => ReadMatch(ctrl, input[start..]) == Failure(e)
            case Success((len, dist, ip)) =>
              start < ip <= |input| && ReadMatch(ctrl, input[start..]) == Success(Match(len, dist, input[ip..]))
  {
    hide ReadExtension, ReadDistance;
    var len: int, high: int, ip := ctrl as int / 32 - 1, ctrl % 32, start;
    if len == 6 {
      var ext := ReadExtensionLoop(input, ip);
      if ext.None? {
        return Failure(TruncatedLength);
      }
      len, ip := len + ext.value.0, ext.value.1;
    }
    r := ReadDistanceAt(input, ip, len + 3, high);
  }

  method ReadDistanceAt(input: seq<u8>, ip: nat, len: nat, high: nat) returns (r: Result<(nat, nat, nat), BlzError>)
    requires ip <= |input|
    ensures match r
            case Failure(e) => ReadDistance(input[ip..], len, high) == Failure(e)
            case Success((len', dist, next)) =>
              ip < next <= |input| && ReadDistance(input[ip..], len, high) == Success(Match(len', dist, input[next..]))
  {
    if ip >= |input| {
      return Failure(TruncatedMatch);
    }
    var code: int := input[ip];
    if code == 255 && high == 31 {
      if ip + 2 >= |input| {
        return Failure(TruncatedFarMatch);
      }
      Seqs.SliceOfDrop(input, ip, 3);
      return Success((len, input[ip + 1] as int * 0x100 + input[ip + 2] as int + MAX_DISTANCE + 1, ip + 3));
    }
    Seqs.SliceOfDrop(input, ip, 1);
    return Success((len, high * 0x100 + code + 1, ip + 1));
  }

  /** What the decoder does with control byte `ctrl` when position ip comes next. */
  lemma ControlByte(ctrl: u8, input: seq<u8>, ip: nat, out: seq<u8>, outLen: nat)
    requires ip <= |input|
    ensures var n: int := ctrl as int + 1;
            DecodeLoop([ctrl] + input[ip..], out, outLen) ==
              if ctrl >= 32 then
                if ReadMatch(ctrl, input[ip..]).Failure? then Failure(ReadMatch(ctrl, input[ip..]).error)
                else AfterMatch(ReadMatch(ctrl, input[ip..]).value, out, outLen)
              else if ip + n > |input| then Failure(TruncatedLiterals)
              else if ip + n == |input| then Finish(out + input[ip..ip + n], outLen)
              else Continue(input[ip + n..], out + input[ip..ip + n], outLen)
  {
    hide ReadMatch, AfterMatch, Continue, Finish;
    Seqs.HeadOf(ctrl, input[ip..]);
    if ctrl < 32 && ip + ctrl as int + 1 <= |input| {
      Seqs.ConsSlices(ctrl, input, ip, ctrl as int + 1);
    }
  }

  /** One match or literal run: the output after it and the position behind it. The final match
      is not copied. */
  method Item(ctrl: u8, input: seq<u8>, ip: nat, out: seq<u8>, outLen: nat) returns (r: Result<(seq<u8>, nat), BlzError>)
    requires ip <= |input|
    ensures r.Failure? ==> DecodeLoop([ctrl] + input[ip..], out, outLen) == Failure(r.error)
    ensures r.Success? ==>
              var (o, n) := r.value;
              && ip <= n <= |input|
              && DecodeLoop([ctrl] + input[ip..], out, outLen) ==
                 if n == |input| then Finish(o, outLen) else Continue(input[n..], o, outLen)
  {
    hide ReadMatch, CopyBack, DecodeLoop, Continue, Finish;
    ControlByte(ctrl, input, ip, out, outLen);
    if ctrl >= 32 {
      var m := ReadMatchAt(ctrl, input, ip);
      if m.Failure? {
        return Failure(m.error);
      }
      var (len, dist, next) := m.value;
      if dist > |out| {
        return Failure(ReferenceBeforeStart);
      }
      if next >= |input| {
        return Success((out, next));
      }
      var copied := CopyLoop(out, dist, len);
      return Success((copied, next));
    }
    var run := ctrl as int + 1;
    if ip + run > |input| {
      return Failure(TruncatedLiterals);
    }
    r := Success((out + input[ip..ip + run], ip + run));
  }

  lemma NextControl(input: seq<u8>, n: nat, out: seq<u8>, outLen: nat)
    requires n < |input|
    ensures Continue(input[n..], out, outLen) ==
            if |out| > outLen then Failure(OutputOverrun) else DecodeLoop([input[n]] + input[n + 1..], out, outLen)
  {
    hide DecodeLoop;
    Seqs.HeadAndTail(input[n..]);
    Seqs.SliceOfDrop(input, n, 1);
  }

  method Decompress(input: seq<u8>, outLen: nat) returns (r: Result<seq<u8>, BlzError>)
    ensures r == Decode(input, outLen)
  {
    hide DecodeLoop, Continue;
    if input == [] {
      return Success([]);
    }
    var out: seq<u8>, ctrl: u8, ip := [], input[0] % 32, 1;
    while true
      invariant 1 <= ip <= |input|
      invariant DecodeLoop([ctrl] + input[ip..], out, outLen) == Decode(input, outLen)
      decreases |input| - ip
    {
      var item := Item(ctrl, input, ip, out, outLen);
      if item.Failure? {
        return Failure(item.error);
      }
      out, ip := item.value.0, item.value.1;
      if ip >= |input| {
        break;
      }
      NextControl(input, ip, out, outLen);
      if |out| > outLen {
        return Failure(OutputOverrun);
      }
      ctrl := input[ip];
      ip := ip + 1;
    }
    r := if |out| != outLen then Failure(SizeMismatch) else Success(out);
  }
}
