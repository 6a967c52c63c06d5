/** Star-topology collectives: n ranks run one script of calls over FIFO links through rank 0.
    Every step is one iteration of a send or receive loop, or the return from a call. */
module Collectives {
  import opened Wrappers
  import opened Bytes
  import opened Frames

  datatype Call = Barrier | Bcast(root: nat) | Gather(root: nat) | Allgather

  /** What a call returns on one rank. */
  datatype Outcome = Done | Received(bytes: seq<u8>) | Gathered(parts: Option<seq<seq<u8>>>) | NotRoot

  /** `call` records the sender's position in its script; no step looks at it. */
  datatype Message = Message(call: nat, bytes: seq<u8>)

  /** The script all ranks run, and the bytes rank r passes to call k. */
  datatype World = World(n: nat, script: seq<Call>, input: seq<seq<seq<u8>>>) {
    ghost predicate Valid() {
      && n >= 1 && |input| == |script|
      && (forall k :: 0 <= k < |script| ==> |input[k]| == n && Sized(input[k]))
      && (forall k :: 0 <= k < |script| ==> script[k].Bcast? || script[k].Gather? ==> script[k].root < n)
    }
  }

  /** Rank 0: `pos` counts the iterations of the receive loop (1..n) and of the send loop (n..2n-1). */
  datatype RootState = RootState(call: nat, pos: nat, parts: seq<seq<u8>>, results: seq<Outcome>)

  /** Another rank: before its send (0), before its receive (1), before its return (2). */
  datatype LeafState = LeafState(call: nat, pos: nat, got: seq<u8>, results: seq<Outcome>)

  /** Entry 0 of `leaves`, `up` and `down` is unused. */
  datatype State = State(root: RootState, leaves: seq<LeafState>, up: seq<seq<Message>>, down: seq<seq<Message>>)

  // ----- the calls, rank by rank

  predicate SendsUp(c: Call, r: nat) {
    match c
    case Bcast(root) => r == root
    case _ => true
  }

  predicate SendsDown(c: Call, r: nat) {
    match c
    case Gather(root) => r == root
    case _ => true
  }

  function UpBytes(c: Call, data: seq<u8>): seq<u8> {
    if c.Barrier? then [] else data
  }

  /** What rank 0 sends down, from its own data and the parts it received. */
  function Payload(c: Call, own: seq<u8>, parts: seq<seq<u8>>): seq<u8> {
    match c
    case Barrier => []
    case Bcast(root) => if root == 0 || parts == [] then own else parts[0]
    case Gather(_) => Blob([own] + parts)
    case Allgather => Blob([own] + parts)
  }

  function RootOutcome(c: Call, own: seq<u8>, parts: seq<seq<u8>>): Outcome {
    match c
    case Barrier => Done
    case Bcast(_) => Received(Payload(c, own, parts))
    case Gather(root) => if root == 0 then Gathered(Some([own] + parts)) else NotRoot
    case Allgather => Gathered(DecodeBlob(Payload(c, own, parts), |parts| + 1))
  }

  function LeafOutcome(c: Call, r: nat, n: nat, got: seq<u8>): Outcome {
    match c
    case Barrier => Done
    case Bcast(_) => Received(got)
    case Gather(root) => if r == root then Gathered(DecodeBlob(got, n)) else NotRoot
    case Allgather => Gathered(DecodeBlob(got, n))
  }

  // ----- steps

  function Init(w: World): State {
    State(RootState(0, 1, [], []), seq(w.n, _ => LeafState(0, 0, [], [])), seq(w.n, _ => []), seq(w.n, _ => []))
  }

  predicate Shaped(w: World, s: State) {
    |s.leaves| == w.n && |s.up| == w.n && |s.down| == w.n
  }

  function RootReceive(w: World, s: State): (t: Option<State>)
    requires w.Valid() && Shaped(w, s) && s.root.call < |w.script| && 0 < s.root.pos < w.n
    ensures t.Some? ==> Shaped(w, t.value)
  {
    var r := s.root.pos;
    if !SendsUp(w.script[s.root.call], r) then Some(s.(root := s.root.(pos := r + 1)))
    else if s.up[r] == [] then None
    else Some(s.(root := s.root.(pos := r + 1, parts := s.root.parts + [s.up[r][0].bytes]),
                 up := s.up[r := s.up[r][1..]]))
  }

  function RootSend(w: World, s: State): (t: State)
    requires w.Valid() && Shaped(w, s) && s.root.call < |w.script| && w.n <= s.root.pos < 2 * w.n - 1
    ensures Shaped(w, t)
  {
    var k, r := s.root.call, s.root.pos - w.n + 1;
    var next := s.(root := s.root.(pos := s.root.pos + 1));
    if !SendsDown(w.script[k], r) then next
    else next.(down := s.down[r := s.down[r] + [Message(k, Payload(w.script[k], w.input[k][0], s.root.parts))]])
  }

  function RootReturn(w: World, s: State): (t: State)
    requires w.Valid() && Shaped(w, s) && s.root.call < |w.script|
    ensures Shaped(w, t)
  {
    var k := s.root.call;
    s.(root := RootState(k + 1, 1, [], s.root.results + [RootOutcome(w.script[k], w.input[k][0], s.root.parts)]))
  }

  function RootStep(w: World, s: State): (t: Option<State>)
    requires w.Valid() && Shaped(w, s)
    ensures t.Some? ==> Shaped(w, t.value)
  {
    if s.root.call >= |w.script| || s.root.pos == 0 then None
    else if s.root.pos < w.n then RootReceive(w, s)
    else if s.root.pos < 2 * w.n - 1 then Some(RootSend(w, s))
    else Some(RootReturn(w, s))
  }

  function LeafStep(w: World, s: State, r: nat): (t: Option<State>)
    requires w.Valid() && Shaped(w, s) && 0 < r < w.n
    ensures t.Some? ==> Shaped(w, t.value)
  {
    var l := s.leaves[r];
    if l.call >= |w.script| then None
    else
      var c := w.script[l.call];
      if l.pos == 0 then
        var next := s.(leaves := s.leaves[r := l.(pos := 1)]);
        if !SendsUp(c, r) then Some(next)
        else Some(next.(up := s.up[r := s.up[r] + [Message(l.call, UpBytes(c, w.input[l.call][r]))]]))
      else if l.pos == 1 then
        if !SendsDown(c, r) then Some(s.(leaves := s.leaves[r := l.(pos := 2)]))
        else if s.down[r] == [] then None
        else Some(s.(leaves := s.leaves[r := l.(pos := 2, got := s.down[r][0].bytes)],
                     down := s.down[r := s.down[r][1..]]))
      else
        var next := LeafState(l.call + 1, 0, [], l.results + [LeafOutcome(c, r, w.n, l.got)]);
        Some(s.(leaves := s.leaves[r := next]))
  }

  /** One step of rank r, or None when r is blocked or finished. */
  function Step(w: World, s: State, r: nat): (t: Option<State>)
    requires w.Valid() && Shaped(w, s) && r < w.n
    ensures t.Some? ==> Shaped(w, t.value)
  {
    if r == 0 then RootStep(w, s) else LeafStep(w, s, r)
  }

  ghost predicate Next(w: World, s: State, t: State)
    requires w.Valid()
  {
    Shaped(w, s) && exists r :: 0 <= r < w.n && Step(w, s, r) == Some(t)
  }

  /** Any interleaving of the ranks' steps, from the start. */
  ghost predicate Run(w: World, run: seq<State>)
    requires w.Valid()
  {
    && run != [] && run[0] == Init(w)
    && forall i :: 0 <= i < |run| - 1 ==> Next(w, run[i], run[i + 1])
  }

  // ----- what each call is for

  /** The result of call k on rank r, straight from the data all ranks passed to it. */
  function Meaning(w: World, k: nat, r: nat): Outcome
    requires w.Valid() && k < |w.script|
  {
    match w.script[k]
    case Barrier => Done
    case Bcast(root) => Received(w.input[k][root])
    case Gather(root) => if r == root then Gathered(Some(w.input[k])) else NotRoot
    case Allgather => Gathered(Some(w.input[k]))
  }

  function DownBytes(w: World, k: nat): seq<u8>
    requires w.Valid() && k < |w.script|
  {
    match w.script[k]
    case Barrier => []
    case Bcast(root) => w.input[k][root]
    case Gather(_) => Blob(w.input[k])
    case Allgather => Blob(w.input[k])
  }

  // ----- the invariant

  /** The message of call k on rank r's link, if the call uses that link in that direction. */
  function Piece(w: World, up: bool, k: nat, r: nat): (p: seq<Message>)
    requires w.Valid() && k < |w.script| && r < w.n
  {
    var c := w.script[k];
    if up then (if SendsUp(c, r) then [Message(k, UpBytes(c, w.input[k][r]))] else [])
    else if SendsDown(c, r) then [Message(k, DownBytes(w, k))] else []
  }

  /** The messages of calls lo..hi, in order. */
  function Stream(w: World, up: bool, r: nat, lo: nat, hi: nat): seq<Message>
    requires w.Valid() && lo <= hi <= |w.script| && r < w.n
    decreases hi - lo
  {
    if lo == hi then [] else Piece(w, up, lo, r) + Stream(w, up, r, lo + 1, hi)
  }

  /** What rank 0 has collected in call k before receive iteration i. */
  function Collected(w: World, k: nat, i: nat): seq<seq<u8>>
    requires w.Valid() && k < |w.script| && i <= w.n
  {
    if i <= 1 then []
    else
      Collected(w, k, i - 1)
      + if SendsUp(w.script[k], i - 1) then [UpBytes(w.script[k], w.input[k][i - 1])] else []
  }

  // how many calls' messages each end of rank r's link has dealt with
  function RootGot(s: State, r: nat): nat {
    s.root.call + if s.root.pos > r then 1 else 0
  }

  function RootSent(w: World, s: State, r: nat): nat {
    s.root.call + if s.root.pos > w.n - 1 + r then 1 else 0
  }

  function LeafSent(l: LeafState): nat {
    l.call + if l.pos > 0 then 1 else 0
  }

  function LeafGot(l: LeafState): nat {
    l.call + if l.pos > 1 then 1 else 0
  }

  ghost predicate Results(w: World, r: nat, results: seq<Outcome>)
    requires w.Valid()
  {
    |results| <= |w.script| && forall k :: 0 <= k < |results| ==> results[k] == Meaning(w, k, r)
  }

  ghost predicate RootOk(w: World, x: RootState)
    requires w.Valid()
  {
    && 1 <= x.pos <= 2 * w.n - 1 && x.call <= |w.script| && |x.results| == x.call && Results(w, 0, x.results)
    && (x.call == |w.script| ==> x.pos == 1 && x.parts == [])
    && (x.call < |w.script| ==> x.parts == Collected(w, x.call, Min(x.pos, w.n)))
  }

  ghost predicate LeafOk(w: World, l: LeafState, r: nat)
    requires w.Valid() && r < w.n
  {
    && l.pos <= 2 && l.call <= |w.script| && |l.results| == l.call && Results(w, r, l.results)
    && (l.call == |w.script| ==> l.pos == 0)
    && (l.pos < 2 ==> l.got == [])
    && (l.pos == 2 && SendsDown(w.script[l.call], r) ==> l.got == DownBytes(w, l.call))
  }

  /** A link holds exactly the messages sent and not yet received. The receiver runs ahead of the
      sender only through calls that do not use the link. */
  ghost predicate LinkOk(w: World, up: bool, r: nat, received: nat, sent: nat, link: seq<Message>)
    requires w.Valid() && r < w.n
  {
    && received <= |w.script| && sent <= |w.script|
    && if received <= sent then link == Stream(w, up, r, received, sent)
       else link == [] && Stream(w, up, r, sent, received) == []
  }

  ghost predicate RankOk(w: World, s: State, r: nat)
    requires w.Valid() && Shaped(w, s) && r < w.n
  {
    && LeafOk(w, s.leaves[r], r)
    && LinkOk(w, true, r, RootGot(s, r), LeafSent(s.leaves[r]), s.up[r])
    && LinkOk(w, false, r, LeafGot(s.leaves[r]), RootSent(w, s, r), s.down[r])
  }

  ghost predicate Inv(w: World, s: State)
    requires w.Valid()
  {
    && Shaped(w, s) && RootOk(w, s.root)
    && forall r :: 1 <= r < w.n ==> RankOk(w, s, r)
  }

  // ----- facts about streams and collected parts

  lemma {:induction false} StreamAppend(w: World, up: bool, r: nat, lo: nat, hi: nat)
    requires w.Valid() && lo <= hi < |w.script| && r < w.n
    ensures Stream(w, up, r, lo, hi + 1) == Stream(w, up, r, lo, hi) + Piece(w, up, hi, r)
    decreases hi - lo
  {
    hide Piece;
    if lo < hi {
      StreamAppend(w, up, r, lo + 1, hi);
      assert Piece(w, up, lo, r) + (Stream(w, up, r, lo + 1, hi) + Piece(w, up, hi, r))
          == Piece(w, up, lo, r) + Stream(w, up, r, lo + 1, hi) + Piece(w, up, hi, r);
    } else {
      assert Stream(w, up, r, hi + 1, hi + 1) == [];
      assert Piece(w, up, hi, r) + [] == [] + Piece(w, up, hi, r);
    }
  }

  lemma {:induction false} StreamContains(w: World, up: bool, r: nat, lo: nat, hi: nat, k: nat)
    requires w.Valid() && lo <= k < hi <= |w.script| && r < w.n && Piece(w, up, k, r) != []
    ensures Stream(w, up, r, lo, hi) != []
    decreases k - lo
  {
    if lo < k {
      StreamContains(w, up, r, lo + 1, hi, k);
    }
  }

  // ----- the four things that happen to a link

  /** The sender passes call `sent`, whether or not the call uses the link. */
  lemma LinkSend(w: World, up: bool, r: nat, received: nat, sent: nat, link: seq<Message>)
    requires w.Valid() && r < w.n && LinkOk(w, up, r, received, sent, link) && sent < |w.script|
    ensures LinkOk(w, up, r, received, sent + 1, link + Piece(w, up, sent, r))
  {
    if received <= sent {
      StreamAppend(w, up, r, received, sent);
    } else if Piece(w, up, sent, r) != [] {
      StreamContains(w, up, r, sent, received, sent);
    }
  }

  /** A receive takes the message of the receiver's own call. */
  lemma LinkReceive(w: World, up: bool, r: nat, received: nat, sent: nat, link: seq<Message>)
    requires w.Valid() && r < w.n && LinkOk(w, up, r, received, sent, link) && received < |w.script|
    requires Piece(w, up, received, r) != [] && link != []
    ensures [link[0]] == Piece(w, up, received, r)
    ensures LinkOk(w, up, r, received + 1, sent, link[1..])
  {
  }

  lemma LinkSkip(w: World, up: bool, r: nat, received: nat, sent: nat, link: seq<Message>)
    requires w.Valid() && r < w.n && LinkOk(w, up, r, received, sent, link) && received < |w.script|
    requires Piece(w, up, received, r) == []
    ensures LinkOk(w, up, r, received + 1, sent, link)
  {
    if received >= sent {
      StreamAppend(w, up, r, sent, received);
    }
  }

  /** Whoever has received call k's message got it from a sender past call k; an empty link means
      that the sender is not past the call being received. */
  lemma LinkOrder(w: World, up: bool, r: nat, received: nat, sent: nat, link: seq<Message>, k: nat)
    requires w.Valid() && r < w.n && LinkOk(w, up, r, received, sent, link)
    requires k < |w.script| && Piece(w, up, k, r) != []
    ensures k < received ==> k < sent
    ensures link == [] && k >= received ==> sent <= k
  {
    if sent <= k < received {
      StreamContains(w, up, r, sent, received, k);
    }
    if received <= k < sent {
      StreamContains(w, up, r, received, sent, k);
    }
  }

  lemma {:induction false} CollectedAll(w: World, k: nat, i: nat)
    requires w.Valid() && k < |w.script| && 1 <= i <= w.n
    ensures w.script[k].Gather? || w.script[k].Allgather? ==> [w.input[k][0]] + Collected(w, k, i) == w.input[k][..i]
    ensures w.script[k].Bcast? ==>
              Collected(w, k, i) == if 0 < w.script[k].root < i then [w.input[k][w.script[k].root]] else []
  {
    if i == 1 {
      assert w.input[k][..1] == [w.input[k][0]];
    } else {
      CollectedAll(w, k, i - 1);
      assert w.input[k][..i] == w.input[k][..i - 1] + [w.input[k][i - 1]];
      var more := [w.input[k][i - 1]];
      assert [w.input[k][0]] + (Collected(w, k, i - 1) + more) == [w.input[k][0]] + Collected(w, k, i - 1) + more;
    }
  }

  /** With everything collected, rank 0 sends and returns what the call means. */
  lemma RootComplete(w: World, k: nat)
    requires w.Valid() && k < |w.script|
    ensures Payload(w.script[k], w.input[k][0], Collected(w, k, w.n)) == DownBytes(w, k)
    ensures RootOutcome(w.script[k], w.input[k][0], Collected(w, k, w.n)) == Meaning(w, k, 0)
  {
    var c, parts := w.script[k], Collected(w, k, w.n);
    CollectedAll(w, k, w.n);
    assert w.input[k][..w.n] == w.input[k];
    if c.Gather? || c.Allgather? {
      BlobRoundTrip(w.input[k], []);
      assert Blob(w.input[k]) + [] == Blob(w.input[k]);
      assert |parts| + 1 == |w.input[k]|;
    }
  }

  lemma LeafComplete(w: World, k: nat, r: nat, got: seq<u8>)
    requires w.Valid() && k < |w.script| && 0 < r < w.n
    requires SendsDown(w.script[k], r) ==> got == DownBytes(w, k)
    ensures LeafOutcome(w.script[k], r, w.n, got) == Meaning(w, k, r)
  {
    if w.script[k].Gather? || w.script[k].Allgather? {
      BlobRoundTrip(w.input[k], []);
      assert Blob(w.input[k]) + [] == Blob(w.input[k]);
    }
  }
}
