/** `typed_reach` of bench/wikidata_h2h.py: a FIFO breadth-first search with a depth cap. */
module TypedSearch {
  import opened Collections
  import opened Wrappers
  import opened Reachability

  /** src -> [(property, dst)]. */
  type TypedAdjacency = map<int, seq<(int, int)>>

  /** `adj.get(u, ())`. */
  function OutEdges(adj: TypedAdjacency, u: int): seq<(int, int)> {
    if u in adj then adj[u] else []
  }

  /** `None` allows every property; any concrete property, 0 included, filters. */
  predicate Allowed(p: Option<int>, pe: int) {
    p.None? || pe == p.value
  }

  function Matching(p: Option<int>, es: seq<(int, int)>): (r: set<int>)
    ensures forall v :: v in r <==> exists i :: 0 <= i < |es| && Allowed(p, es[i].0) && es[i].1 == v
  {
    if es == [] then {}
    else
      var init, e := es[..|es| - 1], es[|es| - 1];
      var rest := Matching(p, init);
      var r := if Allowed(p, e.0) then rest + {e.1} else rest;
      assert forall i :: 0 <= i < |init| ==> init[i] == es[i];
      r
  }

  /** The p-typed successors. */
  function TypedSuccessors(adj: TypedAdjacency, p: Option<int>): Successors {
    u => Matching(p, OutEdges(adj, u))
  }

  /** `adj` lists an edge from `u` to `v` that the property allows: any edge if none is asked for, else one of that property. */
  ghost predicate TypedStep(adj: TypedAdjacency, p: Option<int>, u: int, v: int) {
    u in adj && exists i :: 0 <= i < |adj[u]| && adj[u][i].1 == v && (p == None || p == Some(adj[u][i].0))
  }

  /** Some sequence of `steps` such edges leads from `src` to `v`. */
  ghost predicate TypedWalk(adj: TypedAdjacency, p: Option<int>, src: int, v: int, steps: nat) {
    exists w: seq<int> :: |w| == steps + 1 && w[0] == src && w[steps] == v
                          && forall i :: 0 <= i < steps ==> TypedStep(adj, p, w[i], w[i + 1])
  }

  lemma SuccessorIsStep(adj: TypedAdjacency, p: Option<int>, u: int, v: int)
    ensures v in TypedSuccessors(adj, p)(u) <==> TypedStep(adj, p, u, v)
  {
    var es := OutEdges(adj, u);
    if i :| 0 <= i < |es| && es[i].1 == v && (p == None || p == Some(es[i].0)) {
      assert Allowed(p, es[i].0) && es[i].1 == v;
    }
  }

  lemma WalkIsTyped(adj: TypedAdjacency, p: Option<int>, src: int, v: int, steps: nat)
    ensures Reaches(TypedSuccessors(adj, p), {src}, v, steps) <==> TypedWalk(adj, p, src, v, steps)
  {
    var succ := TypedSuccessors(adj, p);
    forall a, b ensures b in succ(a) <==> TypedStep(adj, p, a, b) {
      SuccessorIsStep(adj, p, a, b);
    }
    hide TypedStep, TypedSuccessors;
    if Reaches(succ, {src}, v, steps) {
      var w :| IsWalk(succ, w) && |w| == steps + 1 && w[0] in {src} && w[steps] == v;
      assert forall i :: 0 <= i < steps ==> TypedStep(adj, p, w[i], w[i + 1]);
    }
    if TypedWalk(adj, p, src, v, steps) {
      var w: seq<int> :| |w| == steps + 1 && w[0] == src && w[steps] == v
                         && forall i :: 0 <= i < steps ==> TypedStep(adj, p, w[i], w[i + 1]);
      assert IsWalk(succ, w);
    }
  }

  /** The documented reach, on the edges themselves: another node at the end of 1..hops of them. */
  ghost predicate TypedReaches(adj: TypedAdjacency, p: Option<int>, src: int, hops: int, v: int) {
    v != src && exists steps: nat :: 1 <= steps <= hops && TypedWalk(adj, p, src, v, steps)
  }

  lemma ReachIsTyped(adj: TypedAdjacency, p: Option<int>, src: int, hops: int, v: int)
    ensures v in Ball(TypedSuccessors(adj, p), {src}, Hops(hops)) - {src} <==> TypedReaches(adj, p, src, hops, v)
  {
    hide Ball, TypedWalk, Reaches, TypedSuccessors;
    ReachIsWalks(TypedSuccessors(adj, p), src, v, Hops(hops));
    forall steps: nat ensures Reaches(TypedSuccessors(adj, p), {src}, v, steps) <==> TypedWalk(adj, p, src, v, steps) {
      WalkIsTyped(adj, p, src, v, steps);
    }
  }

  function Tagged(s: seq<int>, d: int): (r: seq<(int, int)>)
    ensures |r| == |s| && forall i :: 0 <= i < |s| ==> r[i] == (s[i], d)
  {
    seq(|s|, i requires 0 <= i < |s| => (s[i], d))
  }

  /** The targets of the listed edges that were not visited before, in order of discovery. */
  method Discover(es: seq<(int, int)>, p: Option<int>, src: int, seen: set<int>, visited: set<int>)
    returns (seen': set<int>, visited': set<int>, found: seq<int>)
    requires seen == visited - {src} && src in visited
    ensures visited' == visited + Matching(p, es) && seen' == visited' - {src}
    ensures Elements(found) == visited' - visited
  {
    seen', visited', found := seen, visited, [];
    for i := 0 to |es|
      invariant visited' == visited + Matching(p, es[..i]) && seen' == visited' - {src}
      invariant Elements(found) == visited' - visited
    {
      var (pe, dst) := es[i];
      assert es[..i + 1][..i] == es[..i];
      if !Allowed(p, pe) {
        continue;
      }
      if dst != src && dst !in seen' {
        seen' := seen' + {dst};
      }
      if dst !in visited' {
        visited' := visited' + {dst};
        found := found + [dst];
      }
    }
    assert es[..|es|] == es;
  }

  /** Every node the search can ever visit. */
  ghost function Universe(adj: TypedAdjacency, p: Option<int>, src: int): set<int> {
    {src} + set u, v | u in adj && v in Matching(p, adj[u]) :: v
  }

  lemma UniverseClosed(adj: TypedAdjacency, p: Option<int>, src: int, u: int)
    ensures Matching(p, OutEdges(adj, u)) <= Universe(adj, p, src)
  {
  }

  /**
   The queue invariant.  `near` are the queued nodes at depth `d`, `far` those at depth d + 1 behind
   them; `done` are the nodes whose edges have been scanned.  Together they say which ball `visited` is.
   */
  ghost predicate Queue(succ: Successors, src: int, hops: nat, d: nat, near: seq<int>, far: seq<int>,
                        done: set<int>, visited: set<int>)
  {
    && d <= hops
    && visited == Ball(succ, {src}, d) + Elements(far)
    && if d == hops then far == []
       else done + Elements(near) == Ball(succ, {src}, d) && visited == Ball(succ, {src}, d) + Step(succ, done)
  }

  lemma QueueStarts(succ: Successors, src: int, hops: nat)
    ensures Queue(succ, src, hops, 0, [src], [], {}, {src})
  {
  }

  /** When depth `d` is used up, the nodes behind it are exactly the rest of the next ball. */
  lemma QueueAdvances(succ: Successors, src: int, hops: nat, d: nat, far: seq<int>, done: set<int>, visited: set<int>)
    requires Queue(succ, src, hops, d, [], far, done, visited) && far != []
    ensures Queue(succ, src, hops, d + 1, far, [], done, visited)
  {
  }

  /** Scanning the edges of the first queued node. */
  lemma QueueScans(succ: Successors, src: int, hops: nat, d: nat, near: seq<int>, far: seq<int>, done: set<int>,
                   visited: set<int>, found: seq<int>)
    requires near != [] && d < hops && Queue(succ, src, hops, d, near, far, done, visited)
    requires Elements(found) == succ(near[0]) - visited
    ensures Queue(succ, src, hops, d, near[1..], far + found, done + {near[0]}, visited + succ(near[0]))
  {
    hide Step, Ball;
    StepUnion(succ, done, near[0]);
    assert near == [near[0]] + near[1..];
    assert Elements(near) == {near[0]} + Elements(near[1..]);
    assert Elements(far + found) == Elements(far) + Elements(found);
  }

  /** At the depth cap a node is dropped unscanned. */
  lemma QueueDrops(succ: Successors, src: int, hops: nat, near: seq<int>, done: set<int>, visited: set<int>)
    requires near != [] && Queue(succ, src, hops, hops, near, [], done, visited)
    ensures Queue(succ, src, hops, hops, near[1..], [], done, visited)
  {
  }

  /** With the queue empty, everything within `hops` has been visited. */
  lemma QueueEmpty(succ: Successors, src: int, hops: nat, d: nat, done: set<int>, visited: set<int>)
    requires Queue(succ, src, hops, d, [], [], done, visited)
    ensures visited == Ball(succ, {src}, hops)
  {
  }

  /** The deque: nodes tagged with their depth, the shallower ones first. */
  ghost function Frontier(near: seq<int>, far: seq<int>, d: nat): seq<(int, int)> {
    Tagged(near, d) + Tagged(far, d + 1)
  }

  lemma FrontierPops(near: seq<int>, far: seq<int>, d: nat)
    requires near != []
    ensures Frontier(near, far, d)[0] == (near[0], d) && Frontier(near, far, d)[1..] == Frontier(near[1..], far, d)
    ensures |Frontier(near, far, d)| == |near| + |far|
  {
  }

  lemma FrontierPushes(near: seq<int>, far: seq<int>, found: seq<int>, d: nat)
    ensures Frontier(near, far, d) + Tagged(found, d + 1) == Frontier(near, far + found, d)
  {
  }

  lemma FrontierAdvances(far: seq<int>, d: nat)
    ensures Frontier([], far, d) == Frontier(far, [], d + 1)
  {
  }

  /** Although a node is queued on its first visit only, the result is exactly the typed reach. */
  method TypedReach(adj: TypedAdjacency, src: int, p: Option<int>, hops: int) returns (seen: set<int>)
    ensures seen == Ball(TypedSuccessors(adj, p), {src}, Hops(hops)) - {src}
    ensures forall v :: v in seen <==> TypedReaches(adj, p, src, hops, v)
  {
    hide Queue, Ball, Step, Frontier, Matching, Universe, TypedSuccessors, TypedReaches;
    ghost var succ, cap := TypedSuccessors(adj, p), Hops(hops);
    ghost var d: nat := 0;
    ghost var near, far, done: set<int> := [src], [], {};
    ghost var universe := Universe(adj, p, src);
    var frontier: seq<(int, int)> := [(src, 0)];
    var visited := {src};
    seen := {};
    QueueStarts(succ, src, cap);
    FrontierStarts(adj, p, src);
    while frontier != []
      invariant Queue(succ, src, cap, d, near, far, done, visited)
      invariant frontier == Frontier(near, far, d)
      invariant src in visited && seen == visited - {src} && visited <= universe
      decreases |universe - visited|, |frontier|
    {
      if near == [] {
        FrontierNonEmpty(far, d);
        QueueAdvances(succ, src, cap, d, far, done, visited);
        FrontierAdvances(far, d);
        near, far, d := far, [], d + 1;
      }
      FrontierPops(near, far, d);
      QueueDepth(succ, src, cap, d, near, far, done, visited);
      var (cur, depth) := frontier[0];
      frontier := frontier[1..];
      if depth >= hops {
        QueueDrops(succ, src, cap, near, done, visited);
        near := near[1..];
        continue;
      }
      ghost var before := visited;
      var found;
      seen, visited, found := Discover(OutEdges(adj, cur), p, src, seen, visited);
      NodeScanned(adj, p, src, cap, d, near, far, done, before, visited, found);
      frontier := frontier + Tagged(found, depth + 1);
      near, far, done := near[1..], far + found, done + {cur};
    }
    FrontierEmpty(near, far, d);
    QueueEmpty(succ, src, cap, d, done, visited);
    forall v ensures v in seen <==> TypedReaches(adj, p, src, hops, v) {
      ReachIsTyped(adj, p, src, hops, v);
    }
  }

  /** Everything that holds again once a node's edges have been scanned. */
  lemma NodeScanned(adj: TypedAdjacency, p: Option<int>, src: int, cap: nat, d: nat, near: seq<int>, far: seq<int>,
                    done: set<int>, before: set<int>, visited: set<int>, found: seq<int>)
    requires near != [] && d < cap && Queue(TypedSuccessors(adj, p), src, cap, d, near, far, done, before)
    requires visited == before + Matching(p, OutEdges(adj, near[0])) && Elements(found) == visited - before
    requires before <= Universe(adj, p, src)
    ensures Queue(TypedSuccessors(adj, p), src, cap, d, near[1..], far + found, done + {near[0]}, visited)
    ensures Frontier(near[1..], far, d) + Tagged(found, d + 1) == Frontier(near[1..], far + found, d)
    ensures visited <= Universe(adj, p, src)
    ensures |Universe(adj, p, src) - visited| <= |Universe(adj, p, src) - before|
    ensures found != [] ==> |Universe(adj, p, src) - visited| < |Universe(adj, p, src) - before|
  {
    hide Queue, Ball, Step, Matching, Universe;
    UniverseClosed(adj, p, src, near[0]);
    assert visited == before + TypedSuccessors(adj, p)(near[0]);
    QueueScans(TypedSuccessors(adj, p), src, cap, d, near, far, done, before, found);
    FrontierPushes(near[1..], far, found, d);
    Shrinks(Universe(adj, p, src), before, visited, found);
  }

  lemma FrontierStarts(adj: TypedAdjacency, p: Option<int>, src: int)
    ensures Frontier([src], [], 0) == [(src, 0)] && src in Universe(adj, p, src)
  {
  }

  lemma FrontierNonEmpty(far: seq<int>, d: nat)
    requires Frontier([], far, d) != []
    ensures far != []
  {
  }

  lemma FrontierEmpty(near: seq<int>, far: seq<int>, d: nat)
    requires Frontier(near, far, d) == []
    ensures near == [] && far == []
  {
  }

  lemma QueueDepth(succ: Successors, src: int, hops: nat, d: nat, near: seq<int>, far: seq<int>,
                   done: set<int>, visited: set<int>)
    requires Queue(succ, src, hops, d, near, far, done, visited)
    ensures d <= hops && (d == hops ==> far == [])
  {
  }

  lemma Shrinks(universe: set<int>, before: set<int>, after: set<int>, found: seq<int>)
    requires before <= after <= universe && Elements(found) == after - before
    ensures |universe - after| <= |universe - before|
    ensures found != [] ==> |universe - after| < |universe - before|
  {
    assert universe - before == (universe - after) + (after - before);
    if found != [] {
      assert found[0] in after - before;
    }
  }
}
