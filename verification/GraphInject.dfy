/**
 `retrieve_graph_inject` of bench/graphrag_report.py: what the best vector hits reach goes first, the
 vector ranking fills the rest.  Which reachable nodes are sure to get in.
 */
module GraphInject {
  import opened Collections
  import opened Sorting
  import opened Reachability
  import opened Graph
  import opened LevelSets

  /** First occurrences, cut off at `k`. */
  method FillUpTo(xs: seq<int>, k: nat) returns (out: seq<int>)
    ensures out == Take(Dedup(xs), k)
  {
    hide Dedup;
    out := [];
    DedupNone();
    assert xs[..0] == [];
    for i := 0 to |xs|
      invariant out == Dedup(xs[..i]) && (i == 0 || |out| < k)
    {
      DedupNext(xs, i);
      if xs[i] !in out {
        out := out + [xs[i]];
      }
      if |out| >= k {
        DedupPrefix(xs, i + 1);
        out := out[..k];
        return;
      }
    }
    assert xs[..|xs|] == xs;
  }

  /** `order` lists what `from` reaches within `hops`, nearest first. */
  ghost predicate IsReachOrder(succ: Successors, from: set<int>, hops: nat, order: seq<int>) {
    Elements(order) == Ball(succ, from, hops) && Distinct(order) && ByDistance(succ, from, order)
  }

  /** `out`: what `from` reaches, nearest first, then the vector ranking; first occurrences, k of them. */
  ghost predicate IsInjection(succ: Successors, from: set<int>, hops: nat, vecOrder: seq<int>, k: nat, out: seq<int>) {
    exists order :: IsReachOrder(succ, from, hops, order) && out == Take(Dedup(order + vecOrder), k)
  }

  method RetrieveGraphInject(adj: Adjacency, vecOrder: seq<int>, k: nat, seeds: nat, hops: int) returns (out: seq<int>)
    requires Distinct(vecOrder)
    ensures IsInjection(Plain(adj), Elements(Take(vecOrder, seeds)), Hops(hops), vecOrder, k, out)
  {
    hide Plain, Ball, ByDistance, Dedup;
    var injected := ReachableOrder(adj, Take(vecOrder, seeds), hops);
    out := FillUpTo(injected + vecOrder, k);
  }

  /** A set that takes up the front of a list takes up its first so many places. */
  lemma {:induction false} FrontPart(order: seq<int>, front: set<int>)
    requires Distinct(order) && front <= Elements(order)
    requires forall i, j :: 0 <= i < j < |order| && order[j] in front ==> order[i] in front
    ensures |front| <= |order| && Elements(order[..|front|]) == front
  {
    if order == [] {
      assert front == {};
    } else {
      var init, last := order[..|order| - 1], order[|order| - 1];
      assert order == init + [last];
      if last in front {
        assert Elements(order) == front;
        DistinctCard(order, front);
        assert order[..|order|] == order;
      } else {
        assert front <= Elements(init);
        FrontPart(init, front);
        assert init[..|front|] == order[..|front|];
      }
    }
  }

  /** The injected nodes come before everything the vector ranking adds. */
  lemma InjectedFirst(order: seq<int>, vecOrder: seq<int>)
    requires Distinct(order)
    ensures order <= Dedup(order + vecOrder)
  {
    var all := order + vecOrder;
    DedupPrefix(all, |order|);
    assert all[..|order|] == order;
    DedupNothing(order);
  }

  /**
   Everything within `d` hops of the seeds is in the answer exactly when there are at most k such
   nodes: the bridges are not sure to get in when more than k nodes are reachable.
   */
  lemma BridgesFitIff(succ: Successors, from: set<int>, hops: nat, vecOrder: seq<int>, k: nat, out: seq<int>, d: nat)
    requires IsInjection(succ, from, hops, vecOrder, k, out) && d <= hops
    ensures Ball(succ, from, d) <= Elements(out) <==> |Ball(succ, from, d)| <= k
  {
    var order :| IsReachOrder(succ, from, hops, order) && out == Take(Dedup(order + vecOrder), k);
    hide Ball, Dedup;
    var near := Ball(succ, from, d);
    BallMonotone(succ, from, d, hops);
    FrontPart(order, near);
    InjectedFirst(order, vecOrder);
    if |near| <= k {
      assert order[..|near|] <= out;
      assert forall v :: v in order[..|near|] ==> v in out;
    }
    if near <= Elements(out) {
      DedupDistinct(order + vecOrder);
      DistinctCard(out, Elements(out));
      SubsetCard(near, Elements(out));
    }
  }

  /** When they do not all fit, no reachable node is passed over for one that is farther away. */
  lemma NearestBridgesFirst(succ: Successors, from: set<int>, hops: nat, vecOrder: seq<int>, k: nat, out: seq<int>,
                            d: nat, kept: int, missed: int)
    requires IsInjection(succ, from, hops, vecOrder, k, out) && d <= hops
    requires kept in out && missed !in out && missed in Ball(succ, from, d)
    ensures kept in Ball(succ, from, d)
  {
    var order :| IsReachOrder(succ, from, hops, order) && out == Take(Dedup(order + vecOrder), k);
    hide Ball, Dedup;
    InjectedFirst(order, vecOrder);
    BallMonotone(succ, from, d, hops);
    assert missed in Elements(order);
    assert forall m :: 0 <= m < |order| && m < k ==> out[m] == order[m];
    var j :| 0 <= j < |order| && order[j] == missed;
    var i :| 0 <= i < |out| && out[i] == kept;
    assert order[i] == kept;
  }

  /** One seed with one bridge and room for one id: the bridge is lost. */
  lemma BridgeLost(vecOrder: seq<int>, out: seq<int>)
    requires IsInjection(Plain(map[0 := [1]]), {0}, 1, vecOrder, 1, out)
    ensures !(Ball(Plain(map[0 := [1]]), {0}, 1) <= Elements(out))
  {
    var succ := Plain(map[0 := [1]]);
    BridgesFitIff(succ, {0}, 1, vecOrder, 1, out, 1);
    StepMember(succ, {0}, 0, 1);
    assert Ball(succ, {0}, 0) == {0};
    SubsetCard({0, 1}, Ball(succ, {0}, 1));
  }
}
