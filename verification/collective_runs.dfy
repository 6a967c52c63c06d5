/** What every interleaving of the collectives keeps, and how every run ends. */
module CollectiveRuns {
  import opened Wrappers
  import opened Bytes
  import opened Collectives

  // ----- the invariant holds along every run

  lemma InitKeeps(w: World)
    requires w.Valid()
    ensures Inv(w, Init(w))
  {
  }

  lemma RootReceiveKeeps(w: World, s: State)
    requires w.Valid() && Inv(w, s) && s.root.call < |w.script| && s.root.pos < w.n
    ensures RootReceive(w, s).Some? ==> Inv(w, RootReceive(w, s).value)
  {
    hide Stream, Meaning, LinkOk, LeafOk;
    var k, p := s.root.call, s.root.pos;
    assert RankOk(w, s, p);
    if SendsUp(w.script[k], p) {
      if s.up[p] != [] {
        LinkReceive(w, true, p, k, LeafSent(s.leaves[p]), s.up[p]);
      }
    } else {
      LinkSkip(w, true, p, k, LeafSent(s.leaves[p]), s.up[p]);
    }
    if RootReceive(w, s).Some? {
      var t := RootReceive(w, s).value;
      forall r | 1 <= r < w.n ensures RankOk(w, t, r) {
        assert RankOk(w, s, r);
      }
    }
  }

  lemma RootSendKeeps(w: World, s: State)
    requires w.Valid() && Inv(w, s) && s.root.call < |w.script| && w.n <= s.root.pos < 2 * w.n - 1
    ensures Inv(w, RootSend(w, s))
  {
    hide Stream, Meaning, LinkOk, LeafOk, Collected, Payload;
    var k, p, t := s.root.call, s.root.pos - w.n + 1, RootSend(w, s);
    assert RankOk(w, s, p);
    RootComplete(w, k);
    LinkSend(w, false, p, LeafGot(s.leaves[p]), k, s.down[p]);
    assert s.down[p] + [] == s.down[p];
    forall r | 1 <= r < w.n ensures RankOk(w, t, r) {
      assert RankOk(w, s, r);
    }
  }

  lemma RootReturnKeeps(w: World, s: State)
    requires w.Valid() && Inv(w, s) && s.root.call < |w.script| && s.root.pos == 2 * w.n - 1
    ensures Inv(w, RootReturn(w, s))
  {
    hide Stream, Meaning, LinkOk, LeafOk, Payload, RootOutcome;
    var t := RootReturn(w, s);
    RootComplete(w, s.root.call);
    forall r | 1 <= r < w.n ensures RankOk(w, t, r) {
      assert RankOk(w, s, r);
    }
  }

  lemma LeafKeeps(w: World, s: State, p: nat)
    requires w.Valid() && Inv(w, s) && 0 < p < w.n && LeafStep(w, s, p).Some?
    ensures Inv(w, LeafStep(w, s, p).value)
  {
    hide Stream, Meaning, LinkOk, LeafOutcome, Collected, RootOk;
    var l, t := s.leaves[p], LeafStep(w, s, p).value;
    assert RankOk(w, s, p);
    if l.pos == 0 {
      LinkSend(w, true, p, RootGot(s, p), l.call, s.up[p]);
      assert s.up[p] + [] == s.up[p];
    } else if l.pos == 1 {
      if SendsDown(w.script[l.call], p) {
        LinkReceive(w, false, p, l.call, RootSent(w, s, p), s.down[p]);
      } else {
        LinkSkip(w, false, p, l.call, RootSent(w, s, p), s.down[p]);
      }
    } else {
      LeafComplete(w, l.call, p, l.got);
    }
    forall r | 1 <= r < w.n ensures RankOk(w, t, r) {
      assert RankOk(w, s, r);
    }
  }

  lemma StepKeeps(w: World, s: State, r: nat)
    requires w.Valid() && Inv(w, s) && r < w.n && Step(w, s, r).Some?
    ensures Inv(w, Step(w, s, r).value)
  {
    hide Inv;
    assert Inv(w, s) && RootOk(w, s.root) by { InvParts(w, s); }
    if r > 0 {
      LeafKeeps(w, s, r);
    } else if s.root.pos < w.n {
      RootReceiveKeeps(w, s);
    } else if s.root.pos < 2 * w.n - 1 {
      RootSendKeeps(w, s);
    } else {
      RootReturnKeeps(w, s);
    }
  }

  lemma InvParts(w: World, s: State)
    requires w.Valid() && Inv(w, s)
    ensures RootOk(w, s.root)
  {
  }

  lemma {:induction false} RunKeeps(w: World, run: seq<State>, i: nat)
    requires w.Valid() && Run(w, run) && i < |run|
    ensures Inv(w, run[i])
  {
    hide Inv, Step;
    if i == 0 {
      InitKeeps(w);
    } else {
      RunKeeps(w, run, i - 1);
      assert Next(w, run[i - 1], run[i - 1 + 1]);
      var r :| 0 <= r < w.n && Step(w, run[i - 1], r) == Some(run[i]);
      StepKeeps(w, run[i - 1], r);
    }
  }

  // ----- what a run guarantees

  /** Every receive, in every run, takes the message its peer sent in the same call. */
  lemma ReceivesOwnCall(w: World, run: seq<State>, i: nat, r: nat)
    requires w.Valid() && Run(w, run) && i < |run| && 0 < r < w.n
    ensures Shaped(w, run[i])
    ensures var s := run[i];
            s.root.call < |w.script| && s.root.pos == r && s.up[r] != [] && SendsUp(w.script[s.root.call], r) ==>
              s.up[r][0] == Message(s.root.call, UpBytes(w.script[s.root.call], w.input[s.root.call][r]))
    ensures var s := run[i]; var l := s.leaves[r];
            l.call < |w.script| && l.pos == 1 && s.down[r] != [] && SendsDown(w.script[l.call], r) ==>
              s.down[r][0] == Message(l.call, DownBytes(w, l.call))
  {
    hide Run, Stream, LinkOk, LeafOk, RootOk;
    RunKeeps(w, run, i);
    var s := run[i];
    var l := s.leaves[r];
    assert RankOk(w, s, r);
    if s.root.call < |w.script| && s.root.pos == r && s.up[r] != [] && SendsUp(w.script[s.root.call], r) {
      LinkReceive(w, true, r, s.root.call, LeafSent(l), s.up[r]);
    }
    if l.call < |w.script| && l.pos == 1 && s.down[r] != [] && SendsDown(w.script[l.call], r) {
      LinkReceive(w, false, r, l.call, RootSent(w, s, r), s.down[r]);
    }
  }

  /** Rank r has begun call k: it is past its first step there. Rank 0 begins a barrier by being in it. */
  predicate Entered(s: State, r: nat, k: nat)
    requires r < |s.leaves|
  {
    if r == 0 then s.root.call >= k else LeafSent(s.leaves[r]) > k
  }

  predicate Left(s: State, r: nat, k: nat)
    requires r < |s.leaves|
  {
    if r == 0 then s.root.call > k else s.leaves[r].call > k
  }

  /** No rank leaves barrier k before every rank has entered it. */
  lemma BarrierSafety(w: World, run: seq<State>, i: nat, k: nat, r: nat, q: nat)
    requires w.Valid() && Run(w, run) && i < |run| && r < w.n && q < w.n
    requires k < |w.script| && w.script[k] == Barrier && |run[i].leaves| == w.n && Left(run[i], r, k)
    ensures Entered(run[i], q, k)
  {
    hide Run, Stream, LinkOk, LeafOk, RootOk;
    RunKeeps(w, run, i);
    var s := run[i];
    if r > 0 {
      assert RankOk(w, s, r);
      LinkOrder(w, false, r, LeafGot(s.leaves[r]), RootSent(w, s, r), s.down[r], k);
    }
    if q > 0 {
      assert RankOk(w, s, q);
      LinkOrder(w, true, q, RootGot(s, q), LeafSent(s.leaves[q]), s.up[q], k);
    }
  }

  function ResultsOf(s: State, r: nat): seq<Outcome>
    requires r < |s.leaves|
  {
    if r == 0 then s.root.results else s.leaves[r].results
  }

  /** Whatever the interleaving, call k returned on rank r exactly what it means. */
  lemma ResultsAreMeaning(w: World, run: seq<State>, i: nat, r: nat, k: nat)
    requires w.Valid() && Run(w, run) && i < |run| && r < w.n
    ensures |run[i].leaves| == w.n
    ensures k < |ResultsOf(run[i], r)| ==> k < |w.script| && ResultsOf(run[i], r)[k] == Meaning(w, k, r)
  {
    hide Run, LinkOk;
    RunKeeps(w, run, i);
    if r > 0 {
      assert RankOk(w, run[i], r);
    }
  }

  /** Broadcasts and all-gathers return the same bytes on every rank that has returned. */
  lemma RanksAgree(w: World, run: seq<State>, i: nat, r: nat, q: nat, k: nat)
    requires w.Valid() && Run(w, run) && i < |run| && r < w.n && q < w.n
    requires k < |w.script| && !w.script[k].Gather?
    ensures |run[i].leaves| == w.n
    ensures k < |ResultsOf(run[i], r)| && k < |ResultsOf(run[i], q)| ==>
              ResultsOf(run[i], r)[k] == ResultsOf(run[i], q)[k]
  {
    hide Run;
    ResultsAreMeaning(w, run, i, r, k);
    ResultsAreMeaning(w, run, i, q, k);
  }

  // ----- progress

  ghost predicate Finished(w: World, s: State)
    requires w.Valid() && Shaped(w, s)
  {
    s.root.call == |w.script| && forall r :: 1 <= r < w.n ==> s.leaves[r].call == |w.script|
  }

  /** A leaf is held up only by rank 0, in a call that rank 0 has not got past sending. */
  lemma LeafBlocked(w: World, s: State, r: nat)
    requires w.Valid() && Inv(w, s) && 0 < r < w.n && LeafStep(w, s, r).None? && s.leaves[r].call < |w.script|
    ensures RootSent(w, s, r) <= s.leaves[r].call && s.leaves[r].pos == 1
  {
    hide LinkOk, LeafOk, RootOk;
    assert RankOk(w, s, r);
    LinkOrder(w, false, r, LeafGot(s.leaves[r]), RootSent(w, s, r), s.down[r], s.leaves[r].call);
  }

  /** No deadlock: until all ranks have finished, some rank can step. */
  lemma SomeRankCanStep(w: World, s: State) returns (r: nat)
    requires w.Valid() && Inv(w, s) && !Finished(w, s)
    ensures r < w.n && Step(w, s, r).Some?
  {
    hide LinkOk;
    r := 0;
    if RootStep(w, s).None? {
      var k := s.root.call;
      if k == |w.script| {
        r :| 1 <= r < w.n && s.leaves[r].call != |w.script|;
        assert RankOk(w, s, r);
        LeafBehind(w, s, r);
      } else {
        r := s.root.pos;
        assert RankOk(w, s, r);
        LinkOrder(w, true, r, k, LeafSent(s.leaves[r]), s.up[r], k);
        LeafBehind(w, s, r);
      }
    }
  }

  /** A leaf that rank 0 is waiting for, or has overtaken, can step. */
  lemma LeafBehind(w: World, s: State, r: nat)
    requires w.Valid() && Inv(w, s) && 0 < r < w.n && s.leaves[r].call < |w.script|
    requires LeafSent(s.leaves[r]) <= s.root.call
    ensures LeafStep(w, s, r).Some?
  {
    hide LinkOk, LeafOk, RootOk;
    if LeafStep(w, s, r).None? {
      LeafBlocked(w, s, r);
    }
  }

  // ----- every run ends, and always in the same way

  /** Steps rank 0 has left: each call takes 2n - 1. */
  function RootLeft(w: World, x: RootState): int {
    Times(if x.call <= |w.script| then |w.script| - x.call else 0, if w.n > 0 then 2 * w.n - 1 else 0) - x.pos
  }

  /** Steps the leaves from rank r on have left: each call takes 3. */
  function LeavesLeft(w: World, leaves: seq<LeafState>, r: nat): int
    requires r <= |leaves|
    decreases |leaves| - r
  {
    if r == |leaves| then 0 else 3 * (|w.script| - leaves[r].call) - leaves[r].pos + LeavesLeft(w, leaves, r + 1)
  }

  function StepsLeft(w: World, s: State): int
    requires |s.leaves| >= 1
  {
    RootLeft(w, s.root) + 1 + LeavesLeft(w, s.leaves, 1)
  }

  lemma {:induction false} LeafMoves(w: World, leaves: seq<LeafState>, p: nat, l: LeafState, r: nat)
    requires p < |leaves| && r <= |leaves|
    requires 3 * l.call + l.pos == 3 * leaves[p].call + leaves[p].pos + 1
    ensures LeavesLeft(w, leaves[p := l], r) == LeavesLeft(w, leaves, r) - if r <= p then 1 else 0
    decreases |leaves| - r
  {
    if r < |leaves| {
      LeafMoves(w, leaves, p, l, r + 1);
    }
  }

  lemma StepCounts(w: World, s: State, r: nat)
    requires w.Valid() && Inv(w, s) && r < w.n && Step(w, s, r).Some?
    ensures StepsLeft(w, Step(w, s, r).value) == StepsLeft(w, s) - 1
  {
    hide LinkOk;
    if r > 0 {
      assert RankOk(w, s, r);
      var l := LeafStep(w, s, r).value.leaves[r];
      LeafMoves(w, s.leaves, r, l, 1);
    }
  }

  lemma {:induction false} LeavesLeftBound(w: World, leaves: seq<LeafState>, r: nat)
    requires w.Valid() && |leaves| == w.n && r <= w.n
    requires forall q :: r <= q < w.n ==> LeafOk(w, leaves[q], q)
    ensures LeavesLeft(w, leaves, r) >= 0
    decreases w.n - r
  {
    if r < w.n {
      assert LeafOk(w, leaves[r], r);
      LeavesLeftBound(w, leaves, r + 1);
    }
  }

  lemma StepsLeftBound(w: World, s: State)
    requires w.Valid() && Inv(w, s)
    ensures StepsLeft(w, s) >= 0
  {
    hide LinkOk;
    forall r | 1 <= r < w.n ensures LeafOk(w, s.leaves[r], r) {
      assert RankOk(w, s, r);
    }
    LeavesLeftBound(w, s.leaves, 1);
    if s.root.call < |w.script| {
      TimesMonotone(1, |w.script| - s.root.call, 2 * w.n - 1);
    }
  }

  lemma {:induction false} RunCounts(w: World, run: seq<State>, i: nat)
    requires w.Valid() && Run(w, run) && i < |run|
    ensures Inv(w, run[i]) && StepsLeft(w, run[i]) == StepsLeft(w, Init(w)) - i
  {
    hide Inv, Step, StepsLeft;
    RunKeeps(w, run, i);
    if i > 0 {
      RunCounts(w, run, i - 1);
      assert Next(w, run[i - 1], run[i - 1 + 1]);
      var r :| 0 <= r < w.n && Step(w, run[i - 1], r) == Some(run[i]);
      StepCounts(w, run[i - 1], r);
    }
  }

  /** No run is longer than the steps of the script. */
  lemma RunsAreFinite(w: World, run: seq<State>)
    requires w.Valid() && Run(w, run)
    ensures |run| - 1 <= StepsLeft(w, Init(w))
  {
    RunCounts(w, run, |run| - 1);
    StepsLeftBound(w, run[|run| - 1]);
  }

  /** A run that cannot go on has finished everywhere: every rank returned what each call means,
      and no message is left on any link. */
  lemma RunsComplete(w: World, run: seq<State>, r: nat, k: nat)
    requires w.Valid() && Run(w, run) && r < w.n && k < |w.script|
    requires var s := run[|run| - 1];
             Shaped(w, s) ==> forall q :: 0 <= q < w.n ==> Step(w, s, q).None?
    ensures var s := run[|run| - 1];
            && Shaped(w, s) && Finished(w, s)
            && |ResultsOf(s, r)| == |w.script| && ResultsOf(s, r)[k] == Meaning(w, k, r)
            && (r > 0 ==> s.up[r] == [] && s.down[r] == [])
  {
    hide Step;
    var s := run[|run| - 1];
    RunKeeps(w, run, |run| - 1);
    if !Finished(w, s) {
      var q := SomeRankCanStep(w, s);
    }
    ResultsAreMeaning(w, run, |run| - 1, r, k);
    if r > 0 {
      assert RankOk(w, s, r);
    }
  }
}
