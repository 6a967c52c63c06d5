/** Names of objects: resolving a path, and finding a shortest path to an object. */
module Paths {
  import opened Wrappers
  import Seqs

  datatype Target = Hard(id: nat) | Soft(path: string) | External

  datatype Link = Link(name: string, target: Target)

  datatype Object = Group(links: seq<Link>) | Other

  /** The objects of a file; freed slots are None. */
  datatype FileState = FileState(objects: seq<Option<Object>>, root: nat) {
    predicate IsGroup(id: nat) {
      id < |objects| && objects[id].Some? && objects[id].value.Group?
    }

    function Links(id: nat): seq<Link>
      requires IsGroup(id)
    {
      objects[id].value.links
    }
  }

  // ----- splitting paths

  /** `path.split('/')`. */
  function Split(path: string): (parts: seq<string>)
    ensures parts != []
  {
    if path == [] then [[]]
    else
      var rest := Split(path[1..]);
      if path[0] == '/' then [[]] + rest else [[path[0]] + rest[0]] + rest[1..]
  }

  predicate Kept(part: string) {
    part != [] && part != "."
  }

  function Filtered(parts: seq<string>): seq<string> {
    if parts == [] then [] else (if Kept(parts[0]) then [parts[0]] else []) + Filtered(parts[1..])
  }

  function Components(path: string): seq<string> {
    Filtered(Split(path))
  }

  function Join(names: seq<string>): string {
    if names == [] then [] else Join(names[..|names| - 1]) + "/" + names[|names| - 1]
  }

  predicate GoodName(name: string) {
    Kept(name) && '/' !in name
  }

  lemma {:induction false} SplitName(name: string)
    requires '/' !in name
    ensures Split(name) == [name]
  {
    if name != [] {
      SplitName(name[1..]);
      Seqs.HeadAndTail(name);
    }
  }

  /** Splitting at a slash. */
  lemma {:induction false} SplitAppend(a: string, name: string)
    requires '/' !in name
    ensures Split(a + "/" + name) == Split(a) + [name]
  {
    var s := a + "/" + name;
    if a == [] {
      assert s[0] == '/' && s[1..] == name;
      SplitName(name);
    } else {
      assert s[0] == a[0] && s[1..] == a[1..] + "/" + name;
      SplitAppend(a[1..], name);
      var rest := Split(a[1..]);
      assert (rest + [name])[0] == rest[0] && (rest + [name])[1..] == rest[1..] + [name];
    }
  }

  lemma {:induction false} FilteredAppend(parts: seq<string>, name: string)
    requires Kept(name)
    ensures Filtered(parts + [name]) == Filtered(parts) + [name]
  {
    if parts == [] {
      assert parts + [name] == [name] && [name][1..] == [];
    } else {
      FilteredAppend(parts[1..], name);
      assert (parts + [name])[1..] == parts[1..] + [name];
    }
  }

  /** A path put together from good names comes apart into them. */
  lemma {:induction false} ComponentsOfJoin(names: seq<string>)
    requires forall i :: 0 <= i < |names| ==> GoodName(names[i])
    ensures Components(Join(names)) == names
    ensures names != [] ==> Join(names) != [] && Join(names)[0] == '/'
  {
    if names == [] {
      assert Split([])[1..] == [];
    } else {
      var init, last := names[..|names| - 1], names[|names| - 1];
      ComponentsOfJoin(init);
      SplitAppend(Join(init), last);
      FilteredAppend(Split(Join(init)), last);
      Seqs.SplitAt(names, |names| - 1);
    }
  }

  // ----- resolving

  /** The first link with the name. */
  function Find(links: seq<Link>, name: string): Option<Link> {
    if links == [] then None else if links[0].name == name then Some(links[0]) else Find(links[1..], name)
  }

  /** Follows components from `cur`; `depth` bounds how deep soft links may lead into each other. */
  function Follow(s: FileState, cur: nat, comps: seq<string>, depth: nat): Option<nat>
    decreases depth, |comps|
  {
    if comps == [] then Some(cur)
    else if !s.IsGroup(cur) then None
    else
      match Find(s.Links(cur), comps[0])
      case None => None
      case Some(link) =>
        match link.target
        case Hard(id) => Follow(s, id, comps[1..], depth)
        case Soft(path) =>
          if depth == 0 then None
          else
            (match Follow(s, s.root, Components(path), depth - 1)
             case None => None
             case Some(id) => Follow(s, id, comps[1..], depth))
        case External => None
  }

  function Resolved(s: FileState, start: nat, path: string, depth: nat): Option<nat> {
    Follow(s, if path != [] && path[0] == '/' then s.root else start, Components(path), depth)
  }

  /** `resolve`. */
  method Resolve(s: FileState, start: nat, path: string, depth: nat) returns (r: Option<nat>)
    ensures r == Resolved(s, start, path, depth)
    ensures forall id: nat :: r == Some(id) <==> Means(s, start, path, id, depth)
    decreases depth
  {
    hide Means;
    forall id: nat ensures Resolved(s, start, path, depth) == Some(id) <==> Means(s, start, path, id, depth) {
      MeansExactly(s, start, path, id, depth);
    }
    var cur: nat := if path != [] && path[0] == '/' then s.root else start;
    var comps := Components(path);
    while comps != []
      invariant Follow(s, cur, comps, depth) == Resolved(s, start, path, depth)
      decreases |comps|
    {
      if !s.IsGroup(cur) {
        return None;
      }
      var link := Find(s.Links(cur), comps[0]);
      if link.None? {
        return None;
      }
      match link.value.target {
        case Hard(id) => cur := id;
        case Soft(target) =>
          if depth == 0 {
            return None;
          }
          var id := Resolve(s, s.root, target, depth - 1);
          RootedAtRoot(s, target, depth - 1);
          if id.None? {
            return None;
          }
          cur := id.value;
        case External => return None;
      }
      comps := comps[1..];
    }
    r := Some(cur);
  }

  lemma RootedAtRoot(s: FileState, path: string, depth: nat)
    ensures Resolved(s, s.root, path, depth) == Follow(s, s.root, Components(path), depth)
  {
  }

  // ----- what a path means, on its text and on links

  /** Parts written one after the other, with slashes between them. */
  function Glued(parts: seq<string>): string
    requires parts != []
  {
    if |parts| == 1 then parts[0] else parts[0] + "/" + Glued(parts[1..])
  }

  predicate SlashFree(parts: seq<string>) {
    parts != [] && forall i :: 0 <= i < |parts| ==> '/' !in parts[i]
  }

  lemma {:induction false} SplitFront(name: string, rest: string)
    requires '/' !in name
    ensures Split(name + "/" + rest) == [name] + Split(rest)
  {
    var s := name + "/" + rest;
    if name == [] {
      assert s[0] == '/' && s[1..] == rest;
    } else {
      assert s[0] == name[0] && s[1..] == name[1..] + "/" + rest;
      SplitFront(name[1..], rest);
      Seqs.HeadAndTail(name);
    }
  }

  /** Every text is made of parts, in one way. */
  lemma {:induction false} SplitOfGlued(parts: seq<string>)
    requires SlashFree(parts)
    ensures Split(Glued(parts)) == parts
  {
    if |parts| == 1 {
      SplitName(parts[0]);
    } else {
      assert forall i :: 0 <= i < |parts[1..]| ==> parts[1..][i] == parts[i + 1];
      SplitOfGlued(parts[1..]);
      SplitFront(parts[0], Glued(parts[1..]));
      Seqs.HeadAndTail(parts);
    }
  }

  lemma {:induction false} GluedOfSplit(path: string)
    ensures SlashFree(Split(path)) && Glued(Split(path)) == path
  {
    if path != [] {
      var rest := Split(path[1..]);
      GluedOfSplit(path[1..]);
      Seqs.HeadAndTail(path);
      if path[0] == '/' {
        assert ([[]] + rest)[1..] == rest;
      } else {
        var parts := [[path[0]] + rest[0]] + rest[1..];
        assert parts[1..] == rest[1..];
        if |rest| > 1 {
          Seqs.Assoc([path[0]], rest[0], "/");
          Seqs.Assoc([path[0]], rest[0] + "/", Glued(rest[1..]));
        }
      }
    }
  }

  /** The first link of group u with this name is a hard link to v, or a soft link whose text means v from
      the root; at most `depth` soft links lead into each other. */
  ghost predicate Moves(s: FileState, u: nat, name: string, v: nat, depth: nat)
    decreases depth, 0
  {
    && s.IsGroup(u)
    && exists i :: 0 <= i < |s.Links(u)| && s.Links(u)[i].name == name && (forall j :: 0 <= j < i ==> s.Links(u)[j].name != name)
                   && (s.Links(u)[i].target == Hard(v)
                       || (s.Links(u)[i].target.Soft? && depth > 0 && Means(s, s.root, s.Links(u)[i].target.path, v, depth - 1)))
  }

  predicate Spells(parts: seq<string>, path: string) {
    SlashFree(parts) && path == Glued(parts)
  }

  predicate Between(ns: seq<nat>, from: nat, id: nat) {
    ns != [] && ns[0] == from && ns[|ns| - 1] == id
  }

  /** Text with a slash in front starts from the root. */
  function Origin(s: FileState, start: nat, path: string): nat {
    if path != [] && path[0] == '/' then s.root else start
  }

  /** Objects one after the other, one for every part: empty parts and dots stay, other parts are names. */
  ghost predicate Visits(s: FileState, ns: seq<nat>, parts: seq<string>, depth: nat)
    decreases depth, 1
  {
    && |ns| == |parts| + 1
    && forall k :: 0 <= k < |parts| ==>
         if parts[k] == "" || parts[k] == "." then ns[k + 1] == ns[k] else Moves(s, ns[k], parts[k], ns[k + 1], depth)
  }

  /** The text leads from `start` to `id`; with a slash in front it leads there from the root. */
  ghost predicate Means(s: FileState, start: nat, path: string, id: nat, depth: nat)
    decreases depth, 2
  {
    exists parts: seq<string>, ns: seq<nat> {:trigger Spells(parts, path), Between(ns, Origin(s, start, path), id)} ::
      Spells(parts, path) && Between(ns, Origin(s, start, path), id) && Visits(s, ns, parts, depth)
  }

  lemma {:induction false} FindFirst(links: seq<Link>, name: string)
    ensures match Find(links, name)
            case None => forall i :: 0 <= i < |links| ==> links[i].name != name
            case Some(link) =>
              exists i :: 0 <= i < |links| && links[i] == link && link.name == name && forall j :: 0 <= j < i ==> links[j].name != name
  {
    if links != [] && links[0].name != name {
      var rest := links[1..];
      FindFirst(rest, name);
      assert forall i :: 0 < i < |links| ==> links[i] == rest[i - 1];
      if Find(rest, name).Some? {
        var i :| 0 <= i < |rest| && rest[i] == Find(rest, name).value && (forall j :: 0 <= j < i ==> rest[j].name != name);
        assert links[i + 1] == rest[i];
      }
    }
  }

  lemma {:induction false} MovesExactly(s: FileState, u: nat, name: string, v: nat, depth: nat)
    requires Kept(name)
    ensures Follow(s, u, [name], depth) == Some(v) <==> Moves(s, u, name, v, depth)
    decreases depth, 0
  {
    hide Means;
    if s.IsGroup(u) {
      var links := s.Links(u);
      FindFirst(links, name);
      assert [name][1..] == [];
      var link := Find(links, name);
      if link.Some? && link.value.target.Soft? && depth > 0 {
        MeansExactly(s, s.root, link.value.target.path, v, depth - 1);
        RootedAtRoot(s, link.value.target.path, depth - 1);
      }
    }
  }

  lemma {:induction false} FollowFirst(s: FileState, cur: nat, names: seq<string>, depth: nat)
    requires names != []
    ensures Follow(s, cur, names, depth) ==
            match Follow(s, cur, [names[0]], depth) { case None => None case Some(id) => Follow(s, id, names[1..], depth) }
  {
    assert [names[0]][1..] == [];
  }

  lemma {:induction false} VisitsExactly(s: FileState, cur: nat, parts: seq<string>, id: nat, depth: nat)
    ensures Follow(s, cur, Filtered(parts), depth) == Some(id) <==> exists ns :: Between(ns, cur, id) && Visits(s, ns, parts, depth)
    decreases depth, 1, |parts|
  {
    hide Follow, Moves;
    if parts == [] {
      FollowNothing(s, cur, depth);
      assert Follow(s, cur, Filtered(parts), depth) == Some(id) ==> Between([cur], cur, id) && Visits(s, [cur], parts, depth);
    } else {
      var rest, name := parts[1..], parts[0];
      FilteredStep(parts);
      if Kept(name) {
        FollowFirst(s, cur, Filtered(parts), depth);
        var v := Follow(s, cur, [name], depth);
        if v.Some? {
          MovesExactly(s, cur, name, v.value, depth);
          VisitsExactly(s, v.value, rest, id, depth);
        }
        VisitsThrough(s, cur, parts, id, depth, v);
      } else {
        VisitsExactly(s, cur, rest, id, depth);
        VisitsStaying(s, cur, parts, id, depth);
      }
    }
  }

  lemma FollowNothing(s: FileState, cur: nat, depth: nat)
    ensures Follow(s, cur, [], depth) == Some(cur)
  {
  }

  lemma FilteredStep(parts: seq<string>)
    requires parts != []
    ensures Kept(parts[0]) ==> Filtered(parts) != [] && Filtered(parts)[0] == parts[0] && Filtered(parts)[1..] == Filtered(parts[1..])
    ensures !Kept(parts[0]) ==> Filtered(parts) == Filtered(parts[1..])
  {
  }

  lemma VisitsStaying(s: FileState, cur: nat, parts: seq<string>, id: nat, depth: nat)
    requires parts != [] && !Kept(parts[0])
    ensures (exists ns :: Between(ns, cur, id) && Visits(s, ns, parts[1..], depth)) <==> exists ns :: Between(ns, cur, id) && Visits(s, ns, parts, depth)
  {
    hide Moves;
    if ns :| Between(ns, cur, id) && Visits(s, ns, parts[1..], depth) {
      VisitsPrepend(s, ns, cur, cur, parts, id, depth);
    }
    if ns :| Between(ns, cur, id) && Visits(s, ns, parts, depth) {
      VisitsRest(s, ns, cur, parts, id, depth);
    }
  }

  lemma VisitsThrough(s: FileState, cur: nat, parts: seq<string>, id: nat, depth: nat, v: Option<nat>)
    requires parts != [] && Kept(parts[0]) && v == Follow(s, cur, [parts[0]], depth)
    requires v.Some? ==> Moves(s, cur, parts[0], v.value, depth)
    ensures (v.Some? && exists ns :: Between(ns, v.value, id) && Visits(s, ns, parts[1..], depth)) <==> exists ns :: Between(ns, cur, id) && Visits(s, ns, parts, depth)
    decreases depth, 1, 0
  {
    hide Moves, Follow;
    if v.Some? {
      if ns :| Between(ns, v.value, id) && Visits(s, ns, parts[1..], depth) {
        VisitsPrepend(s, ns, cur, v.value, parts, id, depth);
      }
    }
    if ns :| Between(ns, cur, id) && Visits(s, ns, parts, depth) {
      VisitsRest(s, ns, cur, parts, id, depth);
      MovesExactly(s, cur, parts[0], ns[1], depth);
    }
  }

  lemma VisitsPrepend(s: FileState, ns: seq<nat>, cur: nat, next: nat, parts: seq<string>, id: nat, depth: nat)
    requires parts != [] && Between(ns, next, id) && Visits(s, ns, parts[1..], depth)
    requires if parts[0] == "" || parts[0] == "." then next == cur else Moves(s, cur, parts[0], next, depth)
    ensures Between([cur] + ns, cur, id) && Visits(s, [cur] + ns, parts, depth)
  {
    hide Moves;
    var all := [cur] + ns;
    forall k | 0 <= k < |parts|
      ensures if parts[k] == "" || parts[k] == "." then all[k + 1] == all[k] else Moves(s, all[k], parts[k], all[k + 1], depth)
    {
      if k > 0 {
        assert parts[k] == parts[1..][k - 1] && all[k] == ns[k - 1] && all[k + 1] == ns[k - 1 + 1];
      }
    }
  }

  lemma VisitsRest(s: FileState, ns: seq<nat>, cur: nat, parts: seq<string>, id: nat, depth: nat)
    requires parts != [] && Between(ns, cur, id) && Visits(s, ns, parts, depth)
    ensures |ns| > 1 && Between(ns[1..], ns[1], id) && Visits(s, ns[1..], parts[1..], depth)
    ensures if parts[0] == "" || parts[0] == "." then ns[1] == cur else Moves(s, cur, parts[0], ns[1], depth)
  {
    hide Moves;
    var rest, tail := parts[1..], ns[1..];
    assert if parts[0] == "" || parts[0] == "." then ns[0 + 1] == ns[0] else Moves(s, ns[0], parts[0], ns[0 + 1], depth);
    forall k | 0 <= k < |rest|
      ensures if rest[k] == "" || rest[k] == "." then tail[k + 1] == tail[k] else Moves(s, tail[k], rest[k], tail[k + 1], depth)
    {
      assert rest[k] == parts[k + 1] && tail[k] == ns[k + 1] && tail[k + 1] == ns[k + 1 + 1];
    }
  }

  /** Resolving a path from any object finds what the path means there, and nothing else. */
  lemma {:induction false} MeansExactly(s: FileState, start: nat, path: string, id: nat, depth: nat)
    ensures Resolved(s, start, path, depth) == Some(id) <==> Means(s, start, path, id, depth)
    decreases depth, 2
  {
    hide Follow, Moves;
    var cur := Origin(s, start, path);
    GluedOfSplit(path);
    assert Spells(Split(path), path);
    VisitsExactly(s, cur, Split(path), id, depth);
    if Means(s, start, path, id, depth) {
      var parts: seq<string>, ns: seq<nat> :| Spells(parts, path) && Between(ns, cur, id) && Visits(s, ns, parts, depth);
      SplitOfGlued(parts);
    }
  }

  // ----- hard links as a graph

  /** Link names are good, and unique within each group. */
  ghost predicate WellNamed(s: FileState) {
    forall id: nat :: s.IsGroup(id) ==> WellNamedGroup(s.Links(id))
  }

  ghost predicate WellNamedGroup(links: seq<Link>) {
    && (forall i :: 0 <= i < |links| ==> GoodName(links[i].name))
    && forall i, j :: 0 <= i < j < |links| ==> links[i].name != links[j].name
  }

  /** A hard link of group u leads to v. */
  ghost predicate Hop(s: FileState, u: nat, v: nat) {
    s.IsGroup(u) && exists i :: 0 <= i < |s.Links(u)| && s.Links(u)[i].target == Hard(v)
  }

  /** Objects from the root on, each one hop from the one before. */
  ghost predicate HardPath(s: FileState, ns: seq<nat>) {
    ns != [] && ns[0] == s.root && forall k :: 0 <= k < |ns| - 1 ==> Hop(s, ns[k], ns[k + 1])
  }

  ghost predicate Reachable(s: FileState, id: nat) {
    exists ns :: HardPath(s, ns) && ns[|ns| - 1] == id
  }

  /** Hard links with these names lead from each object to the next. */
  ghost predicate HardChain(s: FileState, ns: seq<nat>, names: seq<string>) {
    && |ns| == |names| + 1
    && forall k :: 0 <= k < |names| ==> s.IsGroup(ns[k]) && WellNamedGroup(s.Links(ns[k])) && Link(names[k], Hard(ns[k + 1])) in s.Links(ns[k])
  }

  lemma ChainMoves(s: FileState, ns: seq<nat>, names: seq<string>, k: nat, depth: nat)
    requires HardChain(s, ns, names) && k < |names|
    ensures GoodName(names[k]) && Moves(s, ns[k], names[k], ns[k + 1], depth)
  {
    hide Means;
    var links := s.Links(ns[k]);
    var i :| 0 <= i < |links| && links[i] == Link(names[k], Hard(ns[k + 1]));
    assert forall j :: 0 <= j < i ==> links[j].name != links[i].name;
  }

  /** Names with slashes between them lead along hard links from the group where the search starts; with a
      slash in front as well they lead along hard links from the root, wherever it starts. */
  lemma PathsFromGroups(s: FileState, ns: seq<nat>, names: seq<string>, start: nat, depth: nat)
    requires HardChain(s, ns, names) && names != []
    ensures ns[0] == start ==> Resolved(s, start, Glued(names), depth) == Some(ns[|names|])
    ensures ns[0] == s.root ==> Resolved(s, start, "/" + Glued(names), depth) == Some(ns[|names|])
  {
    hide Moves, Follow, Means, Resolved, Spells, Between, Visits;
    ChainVisits(s, ns, names, depth);
    NamesSpell(names);
    if ns[0] == start {
      VisitsMean(s, start, Glued(names), names, ns, ns[|names|], depth);
    }
    if ns[0] == s.root {
      FromRoot(s, ns, names, depth);
      VisitsMean(s, start, "/" + Glued(names), [""] + names, [s.root] + ns, ns[|names|], depth);
    }
  }

  lemma ChainVisits(s: FileState, ns: seq<nat>, names: seq<string>, depth: nat)
    requires HardChain(s, ns, names)
    ensures Visits(s, ns, names, depth) && Between(ns, ns[0], ns[|names|]) && forall k :: 0 <= k < |names| ==> GoodName(names[k])
  {
    hide Moves;
    forall k: nat | k < |names| ensures GoodName(names[k]) && Moves(s, ns[k], names[k], ns[k + 1], depth) {
      ChainMoves(s, ns, names, k, depth);
    }
  }

  lemma {:induction false} NamesSpell(names: seq<string>)
    requires names != [] && forall k :: 0 <= k < |names| ==> GoodName(names[k])
    ensures Spells(names, Glued(names)) && Spells([""] + names, "/" + Glued(names))
    ensures Glued(names) != [] && Glued(names)[0] != '/'
  {
    GluedFront(names);
    assert names[0][0] in names[0];
    var parts := [""] + names;
    assert parts[1..] == names && parts[0] == "";
    EmptyFront(parts);
    forall i | 0 <= i < |parts| ensures '/' !in parts[i] {
    }
  }

  lemma {:induction false} GluedFront(parts: seq<string>)
    requires parts != []
    ensures parts[0] <= Glued(parts)
  {
  }

  lemma {:induction false} EmptyFront(parts: seq<string>)
    requires |parts| > 1 && parts[0] == ""
    ensures Glued(parts) == "/" + Glued(parts[1..])
  {
    assert "" + "/" == "/";
  }

  lemma FromRoot(s: FileState, ns: seq<nat>, names: seq<string>, depth: nat)
    requires |ns| == |names| + 1 && ns[0] == s.root && Visits(s, ns, names, depth)
    ensures Visits(s, [s.root] + ns, [""] + names, depth) && Between([s.root] + ns, s.root, ns[|names|])
  {
    hide Moves;
    var parts := [""] + names;
    assert parts[1..] == names;
    VisitsPrepend(s, ns, s.root, s.root, parts, ns[|names|], depth);
  }

  lemma VisitsMean(s: FileState, start: nat, path: string, parts: seq<string>, ns: seq<nat>, id: nat, depth: nat)
    requires Spells(parts, path) && Between(ns, Origin(s, start, path), id) && Visits(s, ns, parts, depth)
    ensures Resolved(s, start, path, depth) == Some(id)
  {
    hide Resolved, Spells, Between;
    MeansExactly(s, start, path, id, depth);
  }

  lemma {:induction false} FindUnique(links: seq<Link>, i: nat)
    requires WellNamedGroup(links) && i < |links|
    ensures Find(links, links[i].name) == Some(links[i])
  {
    if i > 0 {
      var rest := links[1..];
      assert forall j :: 0 <= j < |rest| ==> rest[j] == links[j + 1];
      FindUnique(rest, i - 1);
      assert links[0].name != links[i].name;
    }
  }

  lemma {:induction false} FollowAppend(s: FileState, cur: nat, names: seq<string>, name: string, depth: nat)
    requires Follow(s, cur, names, depth).Some?
    ensures Follow(s, cur, names + [name], depth) == Follow(s, Follow(s, cur, names, depth).value, [name], depth)
    decreases |names|
  {
    if names == [] {
      assert names + [name] == [name];
    } else {
      assert (names + [name])[0] == names[0] && (names + [name])[1..] == names[1..] + [name];
      var link := Find(s.Links(cur), names[0]).value;
      match link.target {
        case Hard(id) => FollowAppend(s, id, names[1..], name, depth);
        case Soft(path) =>
          var id := Follow(s, s.root, Components(path), depth - 1).value;
          FollowAppend(s, id, names[1..], name, depth);
        case External =>
      }
    }
  }

  /** Good names that lead from the root to `id` by hard links, through `hops` groups. */
  ghost predicate Leads(s: FileState, names: seq<string>, ns: seq<nat>, id: nat) {
    && HardPath(s, ns) && |ns| == |names| + 1 && ns[|ns| - 1] == id
    && (forall i :: 0 <= i < |names| ==> GoodName(names[i]))
    && forall depth: nat :: Follow(s, s.root, names, depth) == Some(id)
  }

  lemma LeadsOn(s: FileState, names: seq<string>, ns: seq<nat>, cur: nat, i: nat)
    requires WellNamed(s) && Leads(s, names, ns, cur) && s.IsGroup(cur) && i < |s.Links(cur)| && s.Links(cur)[i].target.Hard?
    ensures var link := s.Links(cur)[i];
            Leads(s, names + [link.name], ns + [link.target.id], link.target.id)
  {
    var link := s.Links(cur)[i];
    assert WellNamedGroup(s.Links(cur));
    FindUnique(s.Links(cur), i);
    forall depth: nat ensures Follow(s, s.root, names + [link.name], depth) == Some(link.target.id) {
      FollowAppend(s, s.root, names, link.name, depth);
      assert [link.name][1..] == [];
    }
    var longer := ns + [link.target.id];
    forall k | 0 <= k < |longer| - 1 ensures Hop(s, longer[k], longer[k + 1]) {
      if k < |ns| - 1 {
        assert Hop(s, ns[k], ns[k + 1]);
      }
    }
  }
}
