/**
 The loaded graph of bench/wiki_ppr_gate.py: symmetrised hyperlinks without the held-out pairs, and what
 can still be reached in it.
 */
module HeldOutGraph {
  import opened Collections
  import opened AscendingIds
  import opened Reachability
  import opened Graph
  import opened LevelSets

  type Link = (int, int)

  /** A held-out question and its gold targets. */
  type Sample = (int, seq<int>)

  predicate Linked(adj: Adjacency, s: int, d: int) {
    d in Neighbours(adj, s)
  }

  function Flip(e: Link): Link {
    (e.1, e.0)
  }

  /** Every link in both directions. */
  method BuildLoadEdges(adj: Adjacency) returns (edges: set<Link>)
    ensures forall e :: e in edges <==> Linked(adj, e.0, e.1) || Linked(adj, e.1, e.0)
  {
    edges := {};
    var rest := adj.Keys;
    while rest != {}
      invariant rest <= adj.Keys
      invariant forall e :: e in edges <==> (e.0 !in rest && Linked(adj, e.0, e.1)) || (e.1 !in rest && Linked(adj, e.1, e.0))
      decreases rest
    {
      var s := PopAny(rest);
      var ds := adj[s];
      ghost var before := edges;
      for i := 0 to |ds|
        invariant forall e :: e in edges <==> e in before || (e.0 == s && e.1 in ds[..i]) || (e.1 == s && e.0 in ds[..i])
      {
        assert ds[..i + 1] == ds[..i] + [ds[i]];
        edges := edges + {(s, ds[i]), (ds[i], s)};
      }
      assert ds[..|ds|] == ds;
      rest := rest - {s};
    }
  }

  predicate HeldOut(samples: seq<Sample>, e: Link) {
    exists i :: 0 <= i < |samples| && ((samples[i].0 == e.0 && e.1 in samples[i].1) || (samples[i].0 == e.1 && e.0 in samples[i].1))
  }

  /** Both directions of every held-out pair are removed, nothing else. */
  method ExcludeHoldouts(edges: set<Link>, samples: seq<Sample>) returns (kept: set<Link>)
    ensures forall e :: e in kept <==> e in edges && !HeldOut(samples, e)
  {
    var remove: set<Link> := {};
    for i := 0 to |samples|
      invariant forall e :: e in remove <==> HeldOut(samples[..i], e)
    {
      var (q, gold) := samples[i];
      ghost var before := remove;
      for j := 0 to |gold|
        invariant forall e :: e in remove <==> e in before || (e.0 == q && e.1 in gold[..j]) || (e.1 == q && e.0 in gold[..j])
      {
        assert gold[..j + 1] == gold[..j] + [gold[j]];
        remove := remove + {(q, gold[j]), (gold[j], q)};
      }
      assert gold[..|gold|] == gold;
      forall e ensures HeldOut(samples[..i + 1], e) <==>
                       HeldOut(samples[..i], e) || (e.0 == q && e.1 in gold) || (e.1 == q && e.0 in gold)
      {
        HeldOutNext(samples, i, e);
      }
    }
    assert samples[..|samples|] == samples;
    kept := edges - remove;
  }

  lemma HeldOutNext(samples: seq<Sample>, i: nat, e: Link)
    requires i < |samples|
    ensures var (q, gold) := samples[i];
            HeldOut(samples[..i + 1], e) <==>
            HeldOut(samples[..i], e) || (e.0 == q && e.1 in gold) || (e.1 == q && e.0 in gold)
  {
  }

  function TargetsOf(edges: set<Link>, s: int): set<int> {
    set e | e in edges && e.0 == s :: e.1
  }

  /** Ascending lists of targets, for the nodes that have any. */
  method AdjacencyFromEdges(edges: set<Link>) returns (adj: Adjacency)
    ensures forall s :: s in adj ==> IsAscending(adj[s], TargetsOf(edges, s)) && adj[s] != []
    ensures forall s, d :: Linked(adj, s, d) <==> (s, d) in edges
  {
    adj := map[];
    var rest := set e | e in edges :: e.0;
    while rest != {}
      invariant rest <= set e | e in edges :: e.0
      invariant adj.Keys == (set e | e in edges :: e.0) - rest
      invariant forall s :: s in adj ==> IsAscending(adj[s], TargetsOf(edges, s)) && adj[s] != []
      decreases rest
    {
      var s := PopAny(rest);
      var targets := TargetsOf(edges, s);
      var ds := SortedIds(targets);
      NoIdsNoElements(ds, targets);
      assert targets != {} by {
        var e :| e in edges && e.0 == s;
        assert e.1 in targets;
      }
      adj := adj[s := ds];
      rest := rest - {s};
    }
    forall s, d ensures Linked(adj, s, d) <==> (s, d) in edges {
      if (s, d) in edges {
        assert (s, d).0 in adj.Keys;
      }
    }
  }

  ghost predicate Symmetric(succ: Successors) {
    forall u, v :: v in succ(u) <==> u in succ(v)
  }

  /** The graph both modes of the gate search: symmetric, and free of every held-out pair. */
  method LoadGraph(adj: Adjacency, samples: seq<Sample>) returns (loaded: Adjacency)
    ensures forall s, d :: Linked(loaded, s, d) <==>
              (Linked(adj, s, d) || Linked(adj, d, s)) && !HeldOut(samples, (s, d))
    ensures Symmetric(Plain(loaded))
  {
    var edges := BuildLoadEdges(adj);
    var kept := ExcludeHoldouts(edges, samples);
    loaded := AdjacencyFromEdges(kept);
    forall s, d ensures d in Plain(loaded)(s) <==> s in Plain(loaded)(d) {
      assert Linked(loaded, s, d) <==> (s, d) in kept;
      assert Linked(loaded, d, s) <==> (d, s) in kept;
      HeldOutFlips(samples, (s, d));
    }
  }

  lemma HeldOutFlips(samples: seq<Sample>, e: Link)
    ensures HeldOut(samples, e) <==> HeldOut(samples, Flip(e))
  {
  }

  /** A walk read backwards is a walk. */
  lemma WalkBack(succ: Successors, u: int, v: int, steps: nat)
    requires Symmetric(succ) && Reaches(succ, {u}, v, steps)
    ensures Reaches(succ, {v}, u, steps)
  {
    var w :| IsWalk(succ, w) && |w| == steps + 1 && w[0] in {u} && w[steps] == v;
    var back := seq(steps + 1, i requires 0 <= i <= steps => w[steps - i]);
    forall i | 0 <= i < |back| - 1 ensures back[i + 1] in succ(back[i]) {
      var m := steps - i - 1;
      assert w[m + 1] in succ(w[m]) && back[i] == w[m + 1] && back[i + 1] == w[m];
    }
    assert IsWalk(succ, back) && |back| == steps + 1 && back[0] in {v} && back[steps] == u;
  }

  /** In an undirected graph a bridge is reachable from either endpoint, in as many hops. */
  lemma ReachIsSymmetric(succ: Successors, u: int, v: int, hops: nat)
    requires Symmetric(succ)
    ensures v in Ball(succ, {u}, hops) <==> u in Ball(succ, {v}, hops)
  {
    if v in Ball(succ, {u}, hops) {
      OneWay(succ, u, v, hops);
    }
    if u in Ball(succ, {v}, hops) {
      OneWay(succ, v, u, hops);
    }
  }

  lemma OneWay(succ: Successors, u: int, v: int, hops: nat)
    requires Symmetric(succ) && v in Ball(succ, {u}, hops)
    ensures u in Ball(succ, {v}, hops)
  {
    BallIsWalks(succ, {u}, v, hops);
    var j: nat :| j <= hops && Reaches(succ, {u}, v, j);
    WalkBack(succ, u, v, j);
    BallIsWalks(succ, {v}, u, hops);
  }
}
