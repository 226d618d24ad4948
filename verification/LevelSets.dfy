/**
 The three level-by-level traversals: `expand` (bench/wiki_h2h.py), `reachable_within_hops`
 (bench/wiki_ppr_gate.py) and `_reachable` (bench/graphrag_report.py).
 */
module LevelSets {
  import opened Collections
  import opened Graph
  import opened Reachability
  import opened Sorting
  import TypedSearch
  import Wrappers

  function Plain(adj: Adjacency): Successors {
    u => set v | v in Neighbours(adj, u)
  }

  /** The union of the frontier's neighbour lists. */
  method NextLevel(adj: Adjacency, frontier: set<int>) returns (nxt: set<int>)
    ensures nxt == Step(Plain(adj), frontier)
  {
    nxt := {};
    var rest := frontier;
    while rest != {}
      invariant rest <= frontier && nxt == Step(Plain(adj), frontier - rest)
      decreases rest
    {
      var s := PopAny(rest);
      StepUnion(Plain(adj), frontier - rest, s);
      assert frontier - (rest - {s}) == (frontier - rest) + {s};
      nxt := nxt + Elements(Neighbours(adj, s));
      rest := rest - {s};
    }
    assert frontier - {} == frontier;
  }

  /** Expanding only the newest level is enough: older levels lead nowhere new. */
  lemma FrontierSuffices(succ: Successors, from: set<int>, d: nat, frontier: set<int>)
    requires Ball(succ, from, d) == (if d == 0 then {} else Ball(succ, from, d - 1)) + frontier
    ensures Ball(succ, from, d + 1) == Ball(succ, from, d) + Step(succ, frontier)
  {
  }

  /** `expand`: the seeds and everything within `hops` of them. */
  method Expand(adj: Adjacency, seeds: seq<int>, hops: int) returns (seen: set<int>)
    ensures seen == Ball(Plain(adj), Elements(seeds), Hops(hops))
  {
    hide Step, Plain;
    ghost var succ, from := Plain(adj), Elements(seeds);
    var frontier := Elements(seeds);
    seen := Elements(seeds);
    var d: nat := 0;
    while d < hops
      invariant d <= Hops(hops) && seen == Ball(succ, from, d)
      invariant seen == (if d == 0 then {} else Ball(succ, from, d - 1)) + frontier
    {
      var level := NextLevel(adj, frontier);
      FrontierSuffices(succ, from, d, frontier);
      var nxt := level - seen;
      if nxt == {} {
        assert forall v :: v in level ==> v in seen || v in nxt;
        BallNext(succ, from, d);
        BallFixpoint(succ, from, d, Hops(hops));
        return;
      }
      seen := seen + nxt;
      frontier := nxt;
      d := d + 1;
    }
  }

  /** `reachable_within_hops`: the same from one node, that node left out. */
  method ReachableWithinHops(adj: Adjacency, src: int, hops: int) returns (seen: set<int>)
    ensures seen == Ball(Plain(adj), {src}, Hops(hops)) - {src}
  {
    seen := Expand(adj, [src], hops);
    assert Elements([src]) == {src};
    seen := seen - {src};
  }

  /** The nodes of one level's lists that are new, in order of discovery. */
  method Discover(adj: Adjacency, frontier: seq<int>, seen: set<int>) returns (seen': set<int>, nxt: seq<int>)
    ensures seen' == seen + Step(Plain(adj), Elements(frontier))
    ensures Distinct(nxt) && Elements(nxt) == seen' - seen
  {
    hide Step;
    ghost var succ := Plain(adj);
    seen', nxt := seen, [];
    NoStep(succ);
    for i := 0 to |frontier|
      invariant seen' == seen + Step(succ, Elements(frontier[..i]))
      invariant Distinct(nxt) && Elements(nxt) == seen' - seen
    {
      var ds := Neighbours(adj, frontier[i]);
      ghost var before := seen';
      for j := 0 to |ds|
        invariant seen' == before + Elements(ds[..j])
        invariant Distinct(nxt) && Elements(nxt) == seen' - seen && seen <= seen'
      {
        var d := ds[j];
        assert Elements(ds[..j + 1]) == Elements(ds[..j]) + {d} by { assert ds[..j + 1] == ds[..j] + [d]; }
        if d !in seen' {
          assert d !in Elements(nxt);
          assert Elements(nxt + [d]) == Elements(nxt) + {d};
          seen' := seen' + {d};
          nxt := nxt + [d];
        }
      }
      assert ds[..|ds|] == ds;
      StepUnion(succ, Elements(frontier[..i]), frontier[i]);
      assert Elements(frontier[..i + 1]) == Elements(frontier[..i]) + {frontier[i]} by {
        assert frontier[..i + 1] == frontier[..i] + [frontier[i]];
      }
    }
    assert frontier[..|frontier|] == frontier;
  }

  lemma NoStep(succ: Successors)
    ensures Step(succ, Elements([])) == {}
  {
  }

  /** Nearer nodes come first: whatever is within `l` hops is preceded only by nodes within `l` hops. */
  ghost predicate ByDistance(succ: Successors, from: set<int>, order: seq<int>) {
    forall i, j, l: nat :: 0 <= i < j < |order| && order[j] in Ball(succ, from, l) ==> order[i] in Ball(succ, from, l)
  }

  lemma ByDistanceExtends(succ: Successors, from: set<int>, d: nat, order: seq<int>, nxt: seq<int>)
    requires ByDistance(succ, from, order) && Elements(order) == Ball(succ, from, d)
    requires Elements(nxt) == Ball(succ, from, d + 1) - Ball(succ, from, d)
    ensures ByDistance(succ, from, order + nxt)
  {
    hide Ball;
    var all := order + nxt;
    forall i, j, l: nat | 0 <= i < j < |all| && all[j] in Ball(succ, from, l) ensures all[i] in Ball(succ, from, l) {
      if j >= |order| {
        assert all[j] in nxt;
        if l <= d {
          BallMonotone(succ, from, l, d);
          assert false;
        } else {
          BallMonotone(succ, from, d + 1, l);
          BallGrows(succ, from, d);
          if i < |order| {
            assert all[i] in order;
          } else {
            assert all[i] in nxt;
          }
        }
      }
    }
  }

  lemma BallGrows(succ: Successors, from: set<int>, d: nat)
    ensures Ball(succ, from, d) <= Ball(succ, from, d + 1)
  {
  }

  /** `_reachable`: the same nodes as a list, seeds first, then by distance, new nodes without repetition. */
  method ReachableOrder(adj: Adjacency, seeds: seq<int>, hops: int) returns (order: seq<int>)
    ensures Elements(order) == Ball(Plain(adj), Elements(seeds), Hops(hops))
    ensures seeds <= order && Distinct(order[|seeds|..])
    ensures Distinct(seeds) ==> Distinct(order)
    ensures ByDistance(Plain(adj), Elements(seeds), order)
  {
    hide Step, Plain, ByDistance;
    ghost var succ, from := Plain(adj), Elements(seeds);
    order := seeds;
    var frontier, seen := seeds, Elements(seeds);
    var d: nat := 0;
    SeedsByDistance(succ, seeds);
    while d < hops
      invariant d <= Hops(hops) && seen == Ball(succ, from, d) == Elements(order)
      invariant seen == (if d == 0 then {} else Ball(succ, from, d - 1)) + Elements(frontier)
      invariant seeds <= order && Distinct(order[|seeds|..]) && (Distinct(seeds) ==> Distinct(order))
      invariant ByDistance(succ, from, order)
    {
      var seen', nxt := Discover(adj, frontier, seen);
      FrontierSuffices(succ, from, d, Elements(frontier));
      ByDistanceExtends(succ, from, d, order, nxt);
      AppendNew(order, nxt, |seeds|);
      order := order + nxt;
      seen, frontier := seen', nxt;
      d := d + 1;
      if frontier == [] {
        assert Elements(order) == Ball(succ, from, d);
        BallNext(succ, from, d - 1);
        BallFixpoint(succ, from, d - 1, Hops(hops));
        return;
      }
    }
  }

  lemma SeedsByDistance(succ: Successors, seeds: seq<int>)
    ensures ByDistance(succ, Elements(seeds), seeds)
  {
    forall l: nat ensures Elements(seeds) <= Ball(succ, Elements(seeds), l) {
      BallMonotone(succ, Elements(seeds), 0, l);
    }
    assert forall i :: 0 <= i < |seeds| ==> seeds[i] in Elements(seeds);
  }

  lemma AppendNew(order: seq<int>, nxt: seq<int>, k: nat)
    requires k <= |order| && Distinct(nxt) && forall x :: x in nxt ==> x !in order
    ensures (order + nxt)[k..] == order[k..] + nxt && Elements(order + nxt) == Elements(order) + Elements(nxt)
    ensures Distinct(order[k..]) ==> Distinct((order + nxt)[k..])
    ensures Distinct(order) ==> Distinct(order + nxt)
  {
    assert forall i :: 0 <= i < |nxt| ==> nxt[i] in nxt;
    assert forall i :: 0 <= i < |order| ==> order[i] in order;
  }

  // ----- against the typed search -----

  lemma {:induction false} BallSame(a: Successors, b: Successors, from: set<int>, hops: nat)
    requires forall u :: a(u) == b(u)
    ensures Ball(a, from, hops) == Ball(b, from, hops)
  {
    hide Step;
    if hops > 0 {
      BallSame(a, b, from, hops - 1);
      StepSame(a, b, Ball(a, from, hops - 1));
    } else {
    }
  }

  lemma StepSame(a: Successors, b: Successors, s: set<int>)
    requires forall u :: a(u) == b(u)
    ensures Step(a, s) == Step(b, s)
  {
  }

  /** The plain graph under a typed one: the same edges, properties dropped. */
  ghost predicate Underlies(plain: Adjacency, typed: TypedSearch.TypedAdjacency) {
    forall u :: Plain(plain)(u) == TypedSearch.TypedSuccessors(typed, Wrappers.None)(u)
  }

  /**
   Without a property filter the four traversals agree: the typed search, `reachable_within_hops`,
   and, up to the start node, `expand` and the set of `_reachable`.
   */
  method FourWays(plain: Adjacency, typed: TypedSearch.TypedAdjacency, src: int, hops: int)
    returns (viaQueue: set<int>, viaLevels: set<int>, viaExpand: set<int>, viaOrder: seq<int>)
    requires Underlies(plain, typed)
    ensures viaQueue == viaLevels == viaExpand - {src} == Elements(viaOrder) - {src}
    ensures src in viaExpand && src in viaOrder && Distinct(viaOrder)
  {
    hide Ball, Plain;
    BallSame(Plain(plain), TypedSearch.TypedSuccessors(typed, Wrappers.None), {src}, Hops(hops));
    BallMonotone(Plain(plain), {src}, 0, Hops(hops));
    BallStart(Plain(plain), src);
    viaQueue := TypedSearch.TypedReach(typed, src, Wrappers.None, hops);
    viaLevels := ReachableWithinHops(plain, src, hops);
    viaExpand := Expand(plain, [src], hops);
    viaOrder := ReachableOrder(plain, [src], hops);
    assert Elements([src]) == {src};
    assert src in Elements(viaOrder);
  }

  lemma BallStart(succ: Successors, src: int)
    ensures Ball(succ, {src}, 0) == {src}
  {
  }
}
