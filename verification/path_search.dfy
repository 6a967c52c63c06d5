/** `path_of`: a breadth-first search over hard links. */
module PathSearch {
  import opened Wrappers
  import opened Paths
  import Seqs

  /** A queued object with the names and objects that lead to it. */
  datatype Found = Found(id: nat, names: seq<string>, ns: seq<nat>)

  /** What the queue holds, by the paths it carries. */
  ghost predicate Queued(s: FileState, queue: seq<(nat, string)>, found: seq<Found>) {
    && |queue| == |found|
    && forall k :: 0 <= k < |found| ==> QueuedAt(s, queue[k], found[k])
  }

  ghost predicate QueuedAt(s: FileState, q: (nat, string), f: Found) {
    q == (f.id, Join(f.names)) && Leads(s, f.names, f.ns, f.id)
  }

  /** Depths in the queue start at d, never fall, and span at most two levels. */
  ghost predicate Layered(found: seq<Found>, d: nat) {
    && (forall k :: 0 <= k < |found| ==> d <= |found[k].names| <= d + 1)
    && forall i, k :: 0 <= i < k < |found| ==> |found[i].names| <= |found[k].names|
  }

  /** The links of u before the i-th lead to groups that are known, and not to the target. */
  ghost predicate Explored(s: FileState, target: nat, u: nat, i: nat, depth: map<nat, nat>) {
    && u in depth
    && (s.IsGroup(u) ==> forall k :: 0 <= k < i && k < |s.Links(u)| && s.Links(u)[k].target.Hard? ==>
          LinkKnown(s, target, u, s.Links(u)[k].target.id, depth))
  }

  ghost predicate LinkKnown(s: FileState, target: nat, u: nat, v: nat, depth: map<nat, nat>)
    requires u in depth
  {
    v != target && (s.IsGroup(v) ==> v in depth && depth[v] <= depth[u] + 1)
  }

  ghost predicate AllExplored(s: FileState, target: nat, done: set<nat>, depth: map<nat, nat>) {
    forall u :: u in done ==> u in depth && (s.IsGroup(u) ==> Explored(s, target, u, |s.Links(u)|, depth))
  }

  /** Objects not explored yet lie at depth d or deeper. */
  ghost predicate Frontier(done: set<nat>, depth: map<nat, nat>, d: nat) {
    forall u :: u in depth && u !in done ==> depth[u] >= d
  }

  ghost predicate DoneAbove(done: set<nat>, depth: map<nat, nat>, d: nat) {
    forall u :: u in done ==> u in depth && depth[u] <= d
  }

  ghost predicate Rooted(s: FileState, depth: map<nat, nat>) {
    s.root in depth && depth[s.root] == 0
  }

  /** Along any path of hard links, the objects before depth d have been explored. */
  lemma {:induction false} PathExplored(s: FileState, target: nat, done: set<nat>, depth: map<nat, nat>, d: nat, ns: seq<nat>, j: nat)
    requires AllExplored(s, target, done, depth) && Frontier(done, depth, d) && Rooted(s, depth)
    requires HardPath(s, ns) && j < |ns| && j <= d
    ensures j < |ns| - 1 || j == 0 ==> ns[j] in depth && depth[ns[j]] <= j
    ensures j > 0 ==> ns[j] != target
  {
    if j > 0 {
      PathExplored(s, target, done, depth, d, ns, j - 1);
      var u, v := ns[j - 1], ns[j];
      assert Hop(s, ns[j - 1], ns[j - 1 + 1]);
      assert u in done;
      var i :| 0 <= i < |s.Links(u)| && s.Links(u)[i].target == Hard(v);
      assert Explored(s, target, u, |s.Links(u)|, depth);
      assert LinkKnown(s, target, u, v, depth);
      if j < |ns| - 1 {
        assert Hop(s, ns[j], ns[j + 1]);
      }
    }
  }

  /** No path of hard links to the target is shorter than d + 1 hops. */
  lemma NoShorter(s: FileState, target: nat, done: set<nat>, depth: map<nat, nat>, d: nat, ns: seq<nat>)
    requires AllExplored(s, target, done, depth) && Frontier(done, depth, d) && Rooted(s, depth)
    requires HardPath(s, ns) && ns[|ns| - 1] == target && target != s.root
    ensures |ns| >= d + 2
  {
    if |ns| - 1 <= d {
      PathExplored(s, target, done, depth, d, ns, |ns| - 1);
    }
  }

  /** When everything known has been explored, the target cannot be reached. */
  lemma Unreachable(s: FileState, target: nat, done: set<nat>, depth: map<nat, nat>)
    requires AllExplored(s, target, done, depth) && Rooted(s, depth) && target != s.root
    requires forall u :: u in depth ==> u in done
    ensures !Reachable(s, target)
  {
    forall ns | HardPath(s, ns) ensures ns[|ns| - 1] != target {
      PathExplored(s, target, done, depth, |ns|, ns, |ns| - 1);
    }
  }

  /** A found path is one of the shortest, and names the target. */
  ghost predicate Answer(s: FileState, target: nat, path: string, f: Found) {
    && f.id == target && path == Join(f.names) && Leads(s, f.names, f.ns, target)
    && forall ns :: HardPath(s, ns) && ns[|ns| - 1] == target ==> |ns| >= |f.ns|
  }

  lemma AnswerResolves(s: FileState, target: nat, path: string, f: Found)
    requires Answer(s, target, path, f) && target != s.root
    ensures Reachable(s, target) && forall depth: nat :: Resolved(s, s.root, path, depth) == Some(target)
  {
    hide Follow;
    ComponentsOfJoin(f.names);
  }

  /** Everything the search knows between two objects of the queue. */
  ghost predicate Searching(s: FileState, target: nat, queue: seq<(nat, string)>, found: seq<Found>, seen: set<nat>,
                            done: set<nat>, depth: map<nat, nat>, d: nat) {
    && Queued(s, queue, found) && Layered(found, d) && depth.Keys == seen && Rooted(s, depth)
    && AllExplored(s, target, done, depth) && Frontier(done, depth, d) && DoneAbove(done, depth, d)
    && (forall k :: 0 <= k < |found| ==> found[k].id in depth && depth[found[k].id] == |found[k].names|)
    && forall u :: u in seen && u !in done ==> exists k :: 0 <= k < |found| && found[k].id == u
  }

  /** The same while the links of `was` are gone through, before the i-th. */
  ghost predicate Expanding(s: FileState, target: nat, queue: seq<(nat, string)>, found: seq<Found>, seen: set<nat>,
                            done: set<nat>, depth: map<nat, nat>, was: Found, i: nat) {
    var d := |was.names|;
    && Queued(s, queue, found) && Layered(found, d) && depth.Keys == seen && Rooted(s, depth)
    && AllExplored(s, target, done, depth) && Frontier(done, depth, d) && DoneAbove(done, depth, d)
    && (forall k :: 0 <= k < |found| ==> found[k].id in depth && depth[found[k].id] == |found[k].names|)
    && Leads(s, was.names, was.ns, was.id) && was.id in depth && depth[was.id] == d
    && Explored(s, target, was.id, i, depth)
    && forall u :: u in seen && u !in done && u != was.id ==> exists k :: 0 <= k < |found| && found[k].id == u
  }

  lemma SearchStarts(s: FileState, target: nat)
    ensures Searching(s, target, [(s.root, "")], [Found(s.root, [], [s.root])], {s.root}, {}, map[s.root := 0], 0)
  {
    RootLeads(s);
    assert [Found(s.root, [], [s.root])][0].id == s.root;
  }

  lemma RootLeads(s: FileState)
    ensures Leads(s, [], [s.root], s.root) && Join([]) == ""
  {
  }

  lemma RootPath(s: FileState)
    ensures Reachable(s, s.root) && forall depth: nat :: Resolved(s, s.root, "/", depth) == Some(s.root)
  {
    RootLeads(s);
    assert HardPath(s, [s.root]) && [s.root][|[s.root]| - 1] == s.root;
    assert "/"[1..] == "";
    assert Split("/") == [""] + Split("");
    assert Split("/")[1..] == [""] && Split("/")[1..][1..] == [];
    assert Components("/") == [];
  }

  /** Taking the first object off the queue. */
  lemma StartExpanding(s: FileState, target: nat, queue: seq<(nat, string)>, found: seq<Found>, seen: set<nat>,
                       done: set<nat>, depth: map<nat, nat>, d: nat)
    requires Searching(s, target, queue, found, seen, done, depth, d) && queue != []
    ensures |found| == |queue| && queue[0] == (found[0].id, Join(found[0].names))
    ensures Expanding(s, target, queue[1..], found[1..], seen, done, depth, found[0], 0)
  {
    hide Leads, AllExplored, HardPath;
    var was, rest := found[0], found[1..];
    assert QueuedAt(s, queue[0], found[0]);
    forall k | 0 <= k < |rest| ensures QueuedAt(s, queue[1..][k], rest[k]) {
      assert QueuedAt(s, queue[k + 1], found[k + 1]);
    }
    forall u | u in seen && u !in done && u != was.id ensures exists k :: 0 <= k < |rest| && rest[k].id == u {
      var k :| 0 <= k < |found| && found[k].id == u;
      assert rest[k - 1].id == u;
    }
    assert Frontier(done, depth, |was.names|) by {
      forall u | u in depth && u !in done ensures depth[u] >= |was.names| {
        var k :| 0 <= k < |found| && found[k].id == u;
      }
    }
  }

  /** A link that needs nothing: not hard, or to something known that is not the target. */
  lemma SkipLink(s: FileState, target: nat, queue: seq<(nat, string)>, found: seq<Found>, seen: set<nat>,
                 done: set<nat>, depth: map<nat, nat>, was: Found, i: nat)
    requires Expanding(s, target, queue, found, seen, done, depth, was, i) && s.IsGroup(was.id) && i < |s.Links(was.id)|
    requires var t := s.Links(was.id)[i].target;
             t.Hard? ==> t.id != target && (s.IsGroup(t.id) ==> t.id in seen)
    ensures Expanding(s, target, queue, found, seen, done, depth, was, i + 1)
  {
    hide Leads, AllExplored, HardPath, Queued;
    var t := s.Links(was.id)[i].target;
    if t.Hard? && s.IsGroup(t.id) {
      KnownDepth(s, target, queue, found, seen, done, depth, was, i, t.id);
    }
  }

  /** Nothing known lies deeper than one level below the object being expanded. */
  lemma KnownDepth(s: FileState, target: nat, queue: seq<(nat, string)>, found: seq<Found>, seen: set<nat>,
                   done: set<nat>, depth: map<nat, nat>, was: Found, i: nat, v: nat)
    requires Expanding(s, target, queue, found, seen, done, depth, was, i) && v in seen
    ensures depth[v] <= |was.names| + 1
  {
    hide Leads, AllExplored, HardPath, Queued;
  }

  /** A link to an unknown group puts it at the end of the queue. */
  lemma PushLink(s: FileState, target: nat, queue: seq<(nat, string)>, found: seq<Found>, seen: set<nat>,
                 done: set<nat>, depth: map<nat, nat>, was: Found, i: nat)
    requires WellNamed(s) && Expanding(s, target, queue, found, seen, done, depth, was, i)
    requires s.IsGroup(was.id) && i < |s.Links(was.id)| && s.Links(was.id)[i].target.Hard?
    requires var v := s.Links(was.id)[i].target.id; v != target && s.IsGroup(v) && v !in seen
    ensures var link := s.Links(was.id)[i]; var v := link.target.id;
            var f := Found(v, was.names + [link.name], was.ns + [v]);
            Expanding(s, target, queue + [(v, Join(was.names) + "/" + link.name)], found + [f], seen + {v}, done,
                      depth[v := |was.names| + 1], was, i + 1)
  {
    hide Leads, AllExplored, HardPath, WellNamed, Layered;
    var link := s.Links(was.id)[i];
    var v, d := link.target.id, |was.names|;
    var f, depth' := Found(v, was.names + [link.name], was.ns + [v]), depth[v := d + 1];
    LeadsOn(s, was.names, was.ns, was.id, i);
    JoinStep(was.names, link.name);
    QueueGrows(s, queue, found, (v, Join(was.names) + "/" + link.name), f);
    LayersGrow(found, f, d);
    StillExplored(s, target, done, depth, v, d + 1);
    StillKnown(s, target, was.id, i, depth, v, d + 1);
    var longer := found + [f];
    forall u | u in seen + {v} && u !in done && u != was.id
      ensures exists k :: 0 <= k < |longer| && longer[k].id == u
    {
      if u == v {
        assert longer[|found|].id == u;
      } else {
        var k :| 0 <= k < |found| && found[k].id == u;
        assert longer[k].id == u;
      }
    }
  }

  lemma JoinStep(names: seq<string>, name: string)
    ensures Join(names + [name]) == Join(names) + "/" + name
  {
    assert (names + [name])[..|names|] == names;
  }

  lemma QueueGrows(s: FileState, queue: seq<(nat, string)>, found: seq<Found>, q: (nat, string), f: Found)
    requires Queued(s, queue, found) && QueuedAt(s, q, f)
    ensures Queued(s, queue + [q], found + [f])
  {
    hide QueuedAt;
    forall k | 0 <= k < |found| + 1 ensures QueuedAt(s, (queue + [q])[k], (found + [f])[k]) {
      if k < |found| {
        assert QueuedAt(s, queue[k], found[k]);
      }
    }
  }

  lemma LayersGrow(found: seq<Found>, f: Found, d: nat)
    requires Layered(found, d) && |f.names| == d + 1
    ensures Layered(found + [f], d)
  {
  }

  lemma StillExplored(s: FileState, target: nat, done: set<nat>, depth: map<nat, nat>, v: nat, d: nat)
    requires AllExplored(s, target, done, depth) && v !in depth
    ensures AllExplored(s, target, done, depth[v := d])
  {
    forall u | u in done && s.IsGroup(u) ensures Explored(s, target, u, |s.Links(u)|, depth[v := d]) {
      assert Explored(s, target, u, |s.Links(u)|, depth);
      KnownStays(s, target, u, |s.Links(u)|, depth, v, d);
    }
  }

  lemma KnownStays(s: FileState, target: nat, u: nat, i: nat, depth: map<nat, nat>, v: nat, d: nat)
    requires Explored(s, target, u, i, depth) && v !in depth
    ensures Explored(s, target, u, i, depth[v := d])
  {
    if s.IsGroup(u) {
      forall k | 0 <= k < i && k < |s.Links(u)| && s.Links(u)[k].target.Hard?
        ensures LinkKnown(s, target, u, s.Links(u)[k].target.id, depth[v := d])
      {
        assert LinkKnown(s, target, u, s.Links(u)[k].target.id, depth);
      }
    }
  }

  lemma StillKnown(s: FileState, target: nat, u: nat, i: nat, depth: map<nat, nat>, v: nat, d: nat)
    requires Explored(s, target, u, i, depth) && v !in depth && v != target && d <= depth[u] + 1
    requires s.IsGroup(u) && i < |s.Links(u)| && s.Links(u)[i].target == Hard(v)
    ensures Explored(s, target, u, i + 1, depth[v := d])
  {
    KnownStays(s, target, u, i, depth, v, d);
  }

  /** A link to the target ends the search: the path it makes is one of the shortest. */
  lemma HitIsAnswer(s: FileState, target: nat, queue: seq<(nat, string)>, found: seq<Found>, seen: set<nat>,
                    done: set<nat>, depth: map<nat, nat>, was: Found, i: nat)
    requires WellNamed(s) && Expanding(s, target, queue, found, seen, done, depth, was, i) && target != s.root
    requires s.IsGroup(was.id) && i < |s.Links(was.id)| && s.Links(was.id)[i].target == Hard(target)
    ensures var link := s.Links(was.id)[i];
            Answer(s, target, Join(was.names) + "/" + link.name, Found(target, was.names + [link.name], was.ns + [target]))
  {
    hide AllExplored, WellNamed, Layered, Queued, Explored, Follow;
    var link := s.Links(was.id)[i];
    LeadsOn(s, was.names, was.ns, was.id, i);
    JoinStep(was.names, link.name);
    forall ns | HardPath(s, ns) && ns[|ns| - 1] == target ensures |ns| >= |was.ns| + 1 {
      NoShorter(s, target, done, depth, |was.names|, ns);
    }
  }

  /** After all links of an object it counts as explored. */
  lemma DoneExpanding(s: FileState, target: nat, queue: seq<(nat, string)>, found: seq<Found>, seen: set<nat>,
                      done: set<nat>, depth: map<nat, nat>, was: Found, i: nat)
    requires Expanding(s, target, queue, found, seen, done, depth, was, i)
    requires s.IsGroup(was.id) ==> i == |s.Links(was.id)|
    ensures Searching(s, target, queue, found, seen, done + {was.id}, depth, |was.names|)
  {
    hide Leads, HardPath, Queued, Layered;
    forall u | u in done + {was.id}
      ensures u in depth && (s.IsGroup(u) ==> Explored(s, target, u, |s.Links(u)|, depth))
    {
    }
  }

  // ----- the search

  /** The objects that can be queued: the root, and slots of the arena. */
  ghost function Ids(s: FileState): set<nat> {
    Below(|s.objects|) + {s.root}
  }

  ghost function Below(n: nat): (ids: set<nat>)
    ensures forall i: nat :: i in ids <==> i < n
  {
    if n == 0 then {} else Below(n - 1) + {n - 1}
  }

  lemma {:induction false} SubsetSize(a: set<nat>, b: set<nat>)
    requires a <= b
    ensures |a| <= |b|
    decreases |a|
  {
    if a != {} {
      var x :| x in a;
      SubsetSize(a - {x}, b - {x});
    }
  }

  /** Goes through the links of one object: stops at the target, and queues the groups not seen yet. */
  method Expand(s: FileState, target: nat, queue: seq<(nat, string)>, seen: set<nat>, prefix: string,
                ghost found: seq<Found>, ghost done: set<nat>, ghost depth: map<nat, nat>, ghost was: Found, cur: nat)
    returns (hit: Option<string>, queue': seq<(nat, string)>, seen': set<nat>,
             ghost found': seq<Found>, ghost depth': map<nat, nat>, ghost answer: Found)
    requires WellNamed(s) && target != s.root && cur == was.id && prefix == Join(was.names) && s.IsGroup(cur) && seen <= Ids(s)
    requires Expanding(s, target, queue, found, seen, done, depth, was, 0)
    ensures hit.Some? ==> Answer(s, target, hit.value, answer)
    ensures hit.None? ==> Expanding(s, target, queue', found', seen', done, depth', was, |s.Links(cur)|)
    ensures seen <= seen' <= Ids(s) && (seen' == seen ==> queue' == queue)
  {
    hide Expanding, WellNamed, Answer;
    var links := s.Links(cur);
    hit, queue', seen', found', depth', answer := None, queue, seen, found, depth, was;
    for i := 0 to |links|
      invariant hit.None? && Expanding(s, target, queue', found', seen', done, depth', was, i)
      invariant seen <= seen' <= Ids(s) && (seen' == seen ==> queue' == queue)
    {
      var link := links[i];
      if link.target.Hard? {
        var id, path := link.target.id, prefix + "/" + link.name;
        if id == target {
          HitIsAnswer(s, target, queue', found', seen', done, depth', was, i);
          answer := Found(target, was.names + [link.name], was.ns + [target]);
          hit := Some(path);
          return;
        }
        if s.IsGroup(id) && id !in seen' {
          PushLink(s, target, queue', found', seen', done, depth', was, i);
          assert id in seen' + {id} && id !in seen;
          queue', seen' := queue' + [(id, path)], seen' + {id};
          found', depth' := found' + [Found(id, was.names + [link.name], was.ns + [id])], depth'[id := |was.names| + 1];
        } else {
          SkipLink(s, target, queue', found', seen', done, depth', was, i);
        }
      } else {
        SkipLink(s, target, queue', found', seen', done, depth', was, i);
      }
    }
  }

  /** The path of an object: none if hard links do not reach it, else one with fewest components. */
  method PathOf(s: FileState, target: nat) returns (r: Option<string>, ghost answer: Found)
    requires WellNamed(s)
    ensures r.Some? <==> Reachable(s, target)
    ensures r.Some? ==> forall depth: nat :: Resolved(s, s.root, r.value, depth) == Some(target)
    ensures r.Some? ==> if target == s.root then r.value == "/" else Answer(s, target, r.value, answer)
  {
    hide WellNamed, Follow, Searching, Expanding, Answer, Reachable, Resolved;
    answer := Found(s.root, [], [s.root]);
    if target == s.root {
      RootPath(s);
      return Some("/"), answer;
    }
    var queue, seen := [(s.root, "")], {s.root};
    ghost var found, done: set<nat>, depth: map<nat, nat>, d: nat := [answer], {}, map[s.root := 0], 0;
    SearchStarts(s, target);
    while queue != []
      invariant Searching(s, target, queue, found, seen, done, depth, d)
      invariant seen <= Ids(s)
      decreases |Ids(s) - seen|, |queue|
    {
      var (cur, prefix) := queue[0];
      StartExpanding(s, target, queue, found, seen, done, depth, d);
      ghost var was, before := found[0], seen;
      queue, found := queue[1..], found[1..];
      ghost var n := 0;
      if s.IsGroup(cur) {
        var hit;
        ghost var a;
        hit, queue, seen, found, depth, a := Expand(s, target, queue, seen, prefix, found, done, depth, was, cur);
        if hit.Some? {
          AnswerResolves(s, target, hit.value, a);
          return hit, a;
        }
        n := |s.Links(cur)|;
      }
      DoneExpanding(s, target, queue, found, seen, done, depth, was, n);
      done, d := done + {cur}, |was.names|;
      FewerUnseen(s, before, seen);
    }
    NothingLeft(s, target, found, seen, done, depth, d);
    r := None;
  }

  lemma FewerUnseen(s: FileState, before: set<nat>, after: set<nat>)
    requires before <= after <= Ids(s)
    ensures before == after || |Ids(s) - after| < |Ids(s) - before|
  {
    if before != after {
      var x :| x in after && x !in before;
      SubsetSize(Ids(s) - after, Ids(s) - before - {x});
    }
  }

  lemma NothingLeft(s: FileState, target: nat, found: seq<Found>, seen: set<nat>, done: set<nat>, depth: map<nat, nat>, d: nat)
    requires Searching(s, target, [], found, seen, done, depth, d) && target != s.root
    ensures !Reachable(s, target)
  {
    hide Reachable, AllExplored;
    Unreachable(s, target, done, depth);
  }
}
