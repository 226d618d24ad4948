/**
 What the push algorithm promises, for every graph, every nonnegative
 personalization vector and every threshold.
 */
module PushTheorems {
  import opened Sums
  import opened Graph
  import opened PowerModel
  import opened PushModel

  ghost predicate Parameters(alpha: real, rMax: real) {
    0.0 < alpha <= 1.0 && 0.0 < rMax
  }

  /** The nodes a push of `u` can touch for the first time: its distinct neighbours, itself left out. */
  ghost function Others(adj: Adjacency, u: int): set<int> {
    (set v | v in Neighbours(adj, u)) - {u}
  }

  ghost predicate FanOut(adj: Adjacency, d: nat) {
    forall u :: |Others(adj, u)| <= d
  }

  /** The reserve that `n` pushes build up at the least. */
  ghost function LeastWork(n: nat, alpha: real, rMax: real): real {
    n as real * (alpha * rMax)
  }

  /** What holds before the first push and after every push, whatever node is chosen. */
  ghost predicate PushInvariant(adj: Adjacency, alpha: real, rMax: real, p: Vector, nodes: set<int>, st: PushState) {
    && ResidualIdentity(adj, alpha, p, st, nodes)
    && NonNegative(st.reserve) && NonNegative(st.residue) && st.lost >= 0.0
    && st.reserve.Keys <= st.residue.Keys <= nodes
    // no mass appears or disappears, except what `lost` accounts for
    && Sum(st.reserve, nodes) + Sum(st.residue, nodes) + st.lost == Sum(p, nodes)
    // every push has added at least alpha * rMax to the reserve
    && LeastWork(st.pushes, alpha, rMax) <= Sum(st.reserve, nodes)
  }

  lemma InitialInvariant(adj: Adjacency, alpha: real, rMax: real, p: Vector, nodes: set<int>)
    requires Parameters(alpha, rMax) && NonNegative(p) && p.Keys <= nodes
    ensures PushInvariant(adj, alpha, rMax, p, nodes, InitialState(p))
  {
    hide ResidualIdentity, LeastWork;
    InitialResidualIdentity(adj, alpha, p, nodes);
    SumZero(map[], nodes);
    NoWork(alpha, rMax);
  }

  lemma NoWork(alpha: real, rMax: real)
    ensures LeastWork(0, alpha, rMax) == 0.0
  {
  }

  lemma OneMorePush(n: nat, alpha: real, rMax: real, ru: real)
    requires 0.0 < alpha && rMax <= ru
    ensures LeastWork(n + 1, alpha, rMax) <= LeastWork(n, alpha, rMax) + Kept(alpha, ru)
  {
  }

  lemma PushKeepsInvariant(adj: Adjacency, alpha: real, rMax: real, p: Vector, nodes: set<int>, st: PushState, u: int)
    requires Parameters(alpha, rMax) && Closed(adj, nodes) && PushInvariant(adj, alpha, rMax, p, nodes, st)
    requires Get(st.residue, u) >= rMax
    ensures PushInvariant(adj, alpha, rMax, p, nodes, Push(adj, alpha, st, u))
  {
    hide ResidualIdentity, Push, Kept, PassedOn, LeastWork;
    assert u in st.residue.Keys;
    PushKeepsIdentity(adj, alpha, p, st, nodes, u);
    PushNonNegative(adj, alpha, st, u);
    PushKeys(adj, alpha, st, u);
    PushMass(adj, alpha, st, u, nodes);
    PushCounts(adj, alpha, st, u);
    OneMorePush(st.pushes, alpha, rMax, Get(st.residue, u));
  }

  lemma PushCounts(adj: Adjacency, alpha: real, st: PushState, u: int)
    ensures Push(adj, alpha, st, u).pushes == st.pushes + 1
  {
  }

  lemma {:induction false} RunKeepsInvariant(adj: Adjacency, alpha: real, rMax: real, p: Vector, nodes: set<int>,
                                             st: PushState)
    requires Parameters(alpha, rMax) && Closed(adj, nodes) && PushInvariant(adj, alpha, rMax, p, nodes, st)
    ensures PushInvariant(adj, alpha, rMax, p, nodes, GreedyRun(adj, alpha, rMax, st))
    decreases Budget(st.residue, alpha, rMax)
  {
    if !Settled(st.residue, rMax) {
      var u := Top(st.residue);
      PushKeepsInvariant(adj, alpha, rMax, p, nodes, st, u);
      PushSpendsBudget(adj, alpha, rMax, st, u);
      hide PushInvariant;
      RunKeepsInvariant(adj, alpha, rMax, p, nodes, Push(adj, alpha, st, u));
    } else {
    }
  }

  lemma {:induction false} RunSettles(adj: Adjacency, alpha: real, rMax: real, st: PushState)
    requires Parameters(alpha, rMax) && NonNegative(st.reserve) && NonNegative(st.residue)
    ensures Settled(GreedyRun(adj, alpha, rMax, st).residue, rMax)
    decreases Budget(st.residue, alpha, rMax)
  {
    if !Settled(st.residue, rMax) {
      var u := Top(st.residue);
      PushSpendsBudget(adj, alpha, rMax, st, u);
      hide Push;
      RunSettles(adj, alpha, rMax, Push(adj, alpha, st, u));
    } else {
    }
  }

  // ----- distance to the oracle -----

  /** One oracle step moves the reserve by `alpha` times the residue, summed up. */
  lemma StepMovesByResidue(adj: Adjacency, alpha: real, p: Vector, nodes: set<int>, st: PushState)
    requires 0.0 < alpha <= 1.0 && ResidualIdentity(adj, alpha, p, st, nodes) && NonNegative(st.residue)
    ensures L1(Step(adj, alpha, p, st.reserve, nodes), st.reserve, nodes) == Times(alpha, Sum(st.residue, nodes))
  {
    hide Times, Share, Column, Dot, Blend, Flow;
    var next := Step(adj, alpha, p, st.reserve, nodes);
    var gap := Gap(next, st.reserve, nodes);
    forall v | v in nodes
      ensures Get(gap, v) == Times(alpha, Get(st.residue, v)) + Times(0.0, Get(st.residue, v))
    {
      assert BalancedAt(adj, alpha, p, st, nodes, v);
      KeptIsTimes(alpha, Get(st.residue, v));
      TimesZero(Get(st.residue, v));
    }
    SumLinear(alpha, st.residue, 0.0, st.residue, gap, nodes);
    TimesZero(Sum(st.residue, nodes));
  }

  lemma KeptIsTimes(alpha: real, r: real)
    requires 0.0 < alpha && r >= 0.0
    ensures Kept(alpha, r) == Times(alpha, r) >= 0.0
  {
  }

  /** `e` solves the equation of the error `pi - reserve`; it cannot be negative anywhere. */
  lemma ErrorNonNegative(adj: Adjacency, alpha: real, nodes: set<int>, e: Vector)
    requires 0.0 < alpha <= 1.0 && Closed(adj, nodes)
    requires forall v :: v in nodes ==> Get(e, v) >= Times(1.0 - alpha, Flow(adj, e, nodes, v))
    ensures forall v :: v in nodes ==> Get(e, v) >= 0.0
  {
    hide Times, Share, Column, Dot, Closed;
    var neg := map v | v in nodes :: if Get(e, v) < 0.0 then -Get(e, v) else 0.0;
    var spread := FlowVector(adj, neg, nodes, nodes);
    var left := map v | v in nodes :: Times(1.0 - alpha, Get(spread, v));
    forall v | v in nodes ensures Get(neg, v) <= Get(left, v) {
      NegativePartFlows(adj, nodes, e, neg, v);
      TimesNegates(1.0 - alpha, Flow(adj, e, nodes, v), Flow(adj, neg, nodes, v));
    }
    SumLe(neg, left, nodes);
    forall v | v in nodes ensures Get(left, v) == Times(1.0 - alpha, Get(spread, v)) + Times(0.0, Get(spread, v)) {
      TimesZero(Get(spread, v));
    }
    SumLinear(1.0 - alpha, spread, 0.0, spread, left, nodes);
    TimesZero(Sum(spread, nodes));
    FlowMass(adj, neg, nodes, nodes);
    TimesMonotone(Sum(spread, nodes), Sum(neg, nodes), 1.0 - alpha);
    OnlyZeroShrinksToItself(alpha, Sum(neg, nodes));
    forall v | v in nodes ensures Get(e, v) >= 0.0 {
      SumBoundsTerm(neg, nodes, v);
    }
  }

  lemma NegativePartFlows(adj: Adjacency, nodes: set<int>, e: Vector, neg: Vector, v: int)
    requires forall u :: u in nodes ==> Get(neg, u) >= 0.0 && Get(e, u) + Get(neg, u) >= 0.0
    ensures Flow(adj, e, nodes, v) + Flow(adj, neg, nodes, v) >= 0.0
    ensures Flow(adj, neg, nodes, v) >= 0.0
  {
    hide Times, Share;
    DotSumLe(map[], e, neg, Column(adj, nodes, v), nodes);
    DotZero(Column(adj, nodes, v), nodes);
    FlowNonNegative(adj, neg, nodes, v);
  }

  lemma TimesNegates(c: real, x: real, y: real)
    requires c >= 0.0 && x + y >= 0.0 && y >= 0.0
    ensures -Times(c, x) <= Times(c, y) && 0.0 <= Times(c, y)
  {
  }

  lemma OnlyZeroShrinksToItself(alpha: real, x: real)
    requires 0.0 < alpha && x <= Times(1.0 - alpha, x)
    ensures x <= 0.0
  {
  }

  /**
   For any fixed point `pi` of the oracle's step, the reserve never overshoots it and
   misses at most the residue still waiting to be pushed.
   */
  lemma ReserveBelowFixedPoint(adj: Adjacency, alpha: real, p: Vector, nodes: set<int>, st: PushState, pi: Vector)
    requires 0.0 < alpha <= 1.0 && Closed(adj, nodes)
    requires ResidualIdentity(adj, alpha, p, st, nodes) && NonNegative(st.reserve) && NonNegative(st.residue)
    requires FixedPoint(adj, alpha, p, pi, nodes)
    ensures forall v :: v in nodes ==> 0.0 <= Get(st.reserve, v) <= Get(pi, v)
    ensures L1(st.reserve, pi, nodes) <= Sum(st.residue, nodes)
  {
    hide Times, Share, Column, Dot, Closed, Blend;
    var e := map v | v in nodes :: Get(pi, v) - Get(st.reserve, v);
    forall v | v in nodes ensures Get(e, v) >= Times(1.0 - alpha, Flow(adj, e, nodes, v)) {
      ErrorEquation(adj, alpha, p, nodes, st, pi, e, v);
    }
    ErrorNonNegative(adj, alpha, nodes, e);
    forall v | v in nodes ensures 0.0 <= Get(st.reserve, v) <= Get(pi, v) {
      assert Get(e, v) >= 0.0;
    }
    FixedPointDistance(adj, alpha, p, nodes, st, pi);
  }

  lemma ErrorEquation(adj: Adjacency, alpha: real, p: Vector, nodes: set<int>, st: PushState, pi: Vector, e: Vector, v: int)
    requires v in nodes && 0.0 < alpha <= 1.0 && NonNegative(st.residue)
    requires BalancedAt(adj, alpha, p, st, nodes, v)
    requires Get(pi, v) == Blend(alpha, Get(p, v), Flow(adj, pi, nodes, v))
    requires forall u :: u in nodes ==> Get(e, u) == Get(pi, u) - Get(st.reserve, u)
    ensures Get(e, v) >= Times(1.0 - alpha, Flow(adj, e, nodes, v))
  {
    FlowDifference(adj, nodes, pi, st.reserve, e, v);
    hide Share, Flow;
    KeptIsTimes(alpha, Get(st.residue, v));
    hide Kept;
    BlendDifference(alpha, Get(p, v), Flow(adj, pi, nodes, v), Flow(adj, st.reserve, nodes, v));
  }

  lemma FlowDifference(adj: Adjacency, nodes: set<int>, x: Vector, y: Vector, e: Vector, v: int)
    requires forall u :: u in nodes ==> Get(e, u) == Get(x, u) - Get(y, u)
    ensures Flow(adj, e, nodes, v) == Flow(adj, x, nodes, v) - Flow(adj, y, nodes, v)
  {
    hide Share;
    DotLinear(1.0, x, -1.0, y, e, Column(adj, nodes, v), nodes);
  }

  lemma BlendDifference(alpha: real, p: real, x: real, y: real)
    ensures Blend(alpha, p, x) - Blend(alpha, p, y) == Times(1.0 - alpha, x - y)
  {
  }

  lemma FixedPointDistance(adj: Adjacency, alpha: real, p: Vector, nodes: set<int>, st: PushState, pi: Vector)
    requires 0.0 < alpha <= 1.0 && Closed(adj, nodes)
    requires ResidualIdentity(adj, alpha, p, st, nodes) && NonNegative(st.residue)
    requires FixedPoint(adj, alpha, p, pi, nodes)
    ensures L1(st.reserve, pi, nodes) <= Sum(st.residue, nodes)
  {
    hide Times, Closed, Step, L1;
    var here, there := Step(adj, alpha, p, st.reserve, nodes), Step(adj, alpha, p, pi, nodes);
    StepMovesByResidue(adj, alpha, p, nodes, st);
    StepContracts(adj, alpha, p, st.reserve, pi, nodes);
    L1Cong(here, there, pi, nodes);
    L1Symmetric(here, st.reserve, nodes);
    L1Triangle(st.reserve, here, pi, nodes);
    CancelAlpha(alpha, L1(st.reserve, pi, nodes), Sum(st.residue, nodes));
  }

  lemma CancelAlpha(alpha: real, d: real, r: real)
    requires 0.0 < alpha && d <= Times(1.0 - alpha, d) + Times(alpha, r)
    ensures d <= r
  {
  }
}
