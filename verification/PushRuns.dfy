/**
 Whole runs of the push algorithm: how long they are, what they touch, how a
 smaller threshold continues a larger one, and how close they come to the oracle.
 */
module PushRuns {
  import opened Collections
  import opened Sums
  import opened Graph
  import opened PowerModel
  import opened PushModel
  import opened PushTheorems

  /** The state in which the run on personalization vector `p` ends. */
  ghost function Run(adj: Adjacency, alpha: real, rMax: real, p: Vector): PushState
    requires Parameters(alpha, rMax) && NonNegative(p)
  {
    GreedyRun(adj, alpha, rMax, InitialState(p))
  }

  /** Some closed set of nodes always exists: the keys, everything listed, and the seeds. */
  lemma ClosedSetExists(adj: Adjacency, p: Vector)
    ensures exists nodes: set<int> :: Closed(adj, nodes) && p.Keys <= nodes
  {
    var nodes := p.Keys + adj.Keys + set u, v | u in adj && v in adj[u] :: v;
    assert Closed(adj, nodes) && p.Keys <= nodes;
  }

  /**
   When the loop ends: every residue is below the threshold, no mass is unaccounted
   for, and the number of pushes is at most the starting mass over alpha * rMax.
   */
  lemma RunBounds(adj: Adjacency, alpha: real, rMax: real, p: Vector, nodes: set<int>)
    requires Parameters(alpha, rMax) && NonNegative(p) && Closed(adj, nodes) && p.Keys <= nodes
    ensures var fin := Run(adj, alpha, rMax, p);
            && PushInvariant(adj, alpha, rMax, p, nodes, fin)
            && Settled(fin.residue, rMax)
            && LeastWork(fin.pushes, alpha, rMax) <= Sum(p, nodes)
            && Sum(fin.residue, nodes) <= Times(rMax, |fin.residue.Keys| as real)
  {
    hide Times, LeastWork, ResidualIdentity, Settled;
    RunEndsInvariant(adj, alpha, rMax, p, nodes);
    RunSettles(adj, alpha, rMax, InitialState(p));
    LeftoverResidue(rMax, Run(adj, alpha, rMax, p).residue, nodes);
    SumNonNegative(Run(adj, alpha, rMax, p).residue, nodes);
  }

  lemma LeftoverResidue(rMax: real, residue: Vector, nodes: set<int>)
    requires Settled(residue, rMax) && residue.Keys <= nodes
    ensures Sum(residue, nodes) <= Times(rMax, |residue.Keys| as real)
  {
    hide Times;
    SumExtend(residue, residue.Keys, nodes);
    SumUpTo(residue, residue.Keys, rMax);
  }

  lemma RunEndsInvariant(adj: Adjacency, alpha: real, rMax: real, p: Vector, nodes: set<int>)
    requires Parameters(alpha, rMax) && NonNegative(p) && Closed(adj, nodes) && p.Keys <= nodes
    ensures PushInvariant(adj, alpha, rMax, p, nodes, Run(adj, alpha, rMax, p))
  {
    InitialInvariant(adj, alpha, rMax, p, nodes);
    hide PushInvariant;
    RunKeepsInvariant(adj, alpha, rMax, p, nodes, InitialState(p));
  }

  // ----- the reserve against the oracle -----

  /** For any fixed point of the oracle's step: never above it, and at most rMax per examined node below it. */
  lemma RunNearFixedPoint(adj: Adjacency, alpha: real, rMax: real, p: Vector, nodes: set<int>, pi: Vector)
    requires Parameters(alpha, rMax) && NonNegative(p) && Closed(adj, nodes) && p.Keys <= nodes
    requires FixedPoint(adj, alpha, p, pi, nodes)
    ensures var fin := Run(adj, alpha, rMax, p);
            && (forall v :: v in nodes ==> 0.0 <= Get(fin.reserve, v) <= Get(pi, v))
            && L1(fin.reserve, pi, nodes) <= Times(rMax, |fin.residue.Keys| as real)
  {
    var fin := Run(adj, alpha, rMax, p);
    RunBounds(adj, alpha, rMax, p, nodes);
    hide Run, ResidualIdentity, LeastWork, Times, FixedPoint, L1;
    ReserveBelowFixedPoint(adj, alpha, p, nodes, fin, pi);
  }

  /** A state that satisfies the residual identity, against the oracle after any number of rounds. */
  lemma StateNearIterate(adj: Adjacency, alpha: real, p: Vector, nodes: set<int>, st: PushState, r: real, t: nat)
    requires 0.0 < alpha <= 1.0 && Closed(adj, nodes) && ResidualIdentity(adj, alpha, p, st, nodes)
    requires NonNegative(st.residue) && Sum(st.residue, nodes) <= r
    ensures L1(Iterate(adj, alpha, p, nodes, t), st.reserve, nodes) <= Shrunk(alpha, t, L1(p, st.reserve, nodes), r)
  {
    hide Times, Step, L1, Closed, Iterate;
    StepMovesByResidue(adj, alpha, p, nodes, st);
    IterateApproaches(adj, alpha, p, st.reserve, nodes, Sum(st.residue, nodes), t);
  }

  /** After any number of rounds, oracle and push differ by at most the two error terms. */
  lemma PushNearIterate(adj: Adjacency, alpha: real, rMax: real, p: Vector, nodes: set<int>, t: nat)
    requires Parameters(alpha, rMax) && NonNegative(p) && Closed(adj, nodes) && p.Keys <= nodes
    ensures var fin := Run(adj, alpha, rMax, p);
            L1(Iterate(adj, alpha, p, nodes, t), fin.reserve, nodes)
              <= Shrunk(alpha, t, L1(p, fin.reserve, nodes), Times(rMax, |fin.residue.Keys| as real))
  {
    RunBounds(adj, alpha, rMax, p, nodes);
    hide Run, ResidualIdentity, LeastWork, Times, L1, Closed, Iterate, Shrunk;
    var fin := Run(adj, alpha, rMax, p);
    StateNearIterate(adj, alpha, p, nodes, fin, Times(rMax, |fin.residue.Keys| as real), t);
  }

  /** How far from its limit an oracle can be that has just moved by less than `tol`. */
  ghost function Settling(alpha: real, tol: real): real
    requires alpha > 0.0
  {
    tol * ((1.0 - alpha) / alpha)
  }

  lemma StateNearConverged(adj: Adjacency, alpha: real, p: Vector, nodes: set<int>, st: PushState, r: real, x: Vector,
                           tol: real)
    requires 0.0 < alpha <= 1.0 && Closed(adj, nodes) && ResidualIdentity(adj, alpha, p, st, nodes)
    requires NonNegative(st.residue) && Sum(st.residue, nodes) <= r
    requires L1(Step(adj, alpha, p, x, nodes), x, nodes) < tol
    ensures L1(Step(adj, alpha, p, x, nodes), st.reserve, nodes) <= Settling(alpha, tol) + r
  {
    hide Times, Step, L1, Closed, Settling;
    StepMovesByResidue(adj, alpha, p, nodes, st);
    SmallStepIsClose(adj, alpha, p, st.reserve, x, nodes, Sum(st.residue, nodes), tol);
    DivideByAlpha(alpha, tol, L1(Step(adj, alpha, p, x, nodes), st.reserve, nodes), Sum(st.residue, nodes));
  }

  /** After a round that moved less than `tol`, only the tolerance and the leftover residue separate them. */
  lemma PushNearConverged(adj: Adjacency, alpha: real, rMax: real, p: Vector, nodes: set<int>, x: Vector, tol: real)
    requires Parameters(alpha, rMax) && NonNegative(p) && Closed(adj, nodes) && p.Keys <= nodes
    requires L1(Step(adj, alpha, p, x, nodes), x, nodes) < tol
    ensures var fin := Run(adj, alpha, rMax, p);
            L1(Step(adj, alpha, p, x, nodes), fin.reserve, nodes)
              <= Settling(alpha, tol) + Times(rMax, |fin.residue.Keys| as real)
  {
    RunBounds(adj, alpha, rMax, p, nodes);
    hide Run, ResidualIdentity, LeastWork, Times, Step, L1, Closed, Settling;
    var fin := Run(adj, alpha, rMax, p);
    StateNearConverged(adj, alpha, p, nodes, fin, Times(rMax, |fin.residue.Keys| as real), x, tol);
  }

  lemma DivideByAlpha(alpha: real, tol: real, d: real, r: real)
    requires 0.0 < alpha <= 1.0
    requires Times(alpha, d) <= Times(1.0 - alpha, tol) + Times(alpha, r)
    ensures d <= Settling(alpha, tol) + r
  {
  }

  /** Two nodes further apart in the oracle than the error bound come out of the push in the same order. */
  lemma OrderRecovered(oracle: Vector, reserve: Vector, nodes: set<int>, bound: real, u: int, v: int)
    requires u in nodes && v in nodes
    requires L1(oracle, reserve, nodes) <= bound && Get(oracle, u) - Get(oracle, v) > bound
    ensures Get(reserve, u) > Get(reserve, v)
  {
    if u != v {
      SumBoundsTwoTerms(Gap(oracle, reserve, nodes), nodes, u, v);
    } else {
      SumNonNegative(Gap(oracle, reserve, nodes), nodes);
      assert false;
    }
  }

  // ----- how much of the graph a run touches -----

  /** A run that goes on from a state keeps everything touched and everything reserved. */
  lemma {:induction false} RunGrows(adj: Adjacency, alpha: real, rMax: real, st: PushState)
    requires Parameters(alpha, rMax) && NonNegative(st.reserve) && NonNegative(st.residue)
    ensures st.residue.Keys <= GreedyRun(adj, alpha, rMax, st).residue.Keys
    ensures forall v :: Get(st.reserve, v) <= Get(GreedyRun(adj, alpha, rMax, st).reserve, v)
    decreases Budget(st.residue, alpha, rMax)
  {
    if !Settled(st.residue, rMax) {
      var u := Top(st.residue);
      PushSpendsBudget(adj, alpha, rMax, st, u);
      PushNonNegative(adj, alpha, st, u);
      PushKeys(adj, alpha, st, u);
      forall v ensures Get(st.reserve, v) <= Get(Push(adj, alpha, st, u).reserve, v) {
        PushReserve(adj, alpha, st, u, v);
      }
      hide Push, Kept, PassedOn;
      RunGrows(adj, alpha, rMax, Push(adj, alpha, st, u));
    } else {
    }
  }

  /** Because the largest residue goes first, the run for a smaller threshold first does the whole run for the larger. */
  lemma {:induction false} SmallerThresholdContinues(adj: Adjacency, alpha: real, high: real, low: real, st: PushState)
    requires Parameters(alpha, low) && low <= high && NonNegative(st.reserve) && NonNegative(st.residue)
    ensures var mid := GreedyRun(adj, alpha, high, st);
            && NonNegative(mid.reserve) && NonNegative(mid.residue)
            && GreedyRun(adj, alpha, low, st) == GreedyRun(adj, alpha, low, mid)
    decreases Budget(st.residue, alpha, high)
  {
    if !Settled(st.residue, high) {
      var u := Top(st.residue);
      PushSpendsBudget(adj, alpha, high, st, u);
      hide Push;
      SmallerThresholdContinues(adj, alpha, high, low, Push(adj, alpha, st, u));
    } else {
    }
  }

  /** `nodes_examined` never falls when the threshold is lowered, and no reserve falls either. */
  lemma LowerThresholdExaminesMore(adj: Adjacency, alpha: real, high: real, low: real, p: Vector)
    requires Parameters(alpha, low) && low <= high && NonNegative(p)
    ensures Run(adj, alpha, high, p).residue.Keys <= Run(adj, alpha, low, p).residue.Keys
    ensures |Run(adj, alpha, high, p).residue.Keys| <= |Run(adj, alpha, low, p).residue.Keys|
    ensures forall v :: Get(Run(adj, alpha, high, p).reserve, v) <= Get(Run(adj, alpha, low, p).reserve, v)
  {
    SmallerThresholdContinues(adj, alpha, high, low, InitialState(p));
    var mid := Run(adj, alpha, high, p);
    RunGrows(adj, alpha, low, mid);
    SubsetCard(mid.residue.Keys, Run(adj, alpha, low, p).residue.Keys);
  }

  lemma PushTouches(adj: Adjacency, alpha: real, st: PushState, u: int, d: nat)
    requires u in st.residue && FanOut(adj, d)
    ensures |Push(adj, alpha, st, u).residue.Keys| <= |st.residue.Keys| + d
  {
    hide Push;
    PushKeys(adj, alpha, st, u);
    assert Push(adj, alpha, st, u).residue.Keys == st.residue.Keys + Others(adj, u);
    assert |Others(adj, u)| <= d;
    UnionCard(st.residue.Keys, Others(adj, u));
  }

  /** When no node has more than `d` other neighbours, a run examines at most the seeds plus `d` nodes per push. */
  lemma {:induction false} NodesExaminedPerPush(adj: Adjacency, alpha: real, rMax: real, st: PushState, d: nat)
    requires Parameters(alpha, rMax) && NonNegative(st.reserve) && NonNegative(st.residue) && FanOut(adj, d)
    ensures var fin := GreedyRun(adj, alpha, rMax, st);
            fin.pushes >= st.pushes && |fin.residue.Keys| <= |st.residue.Keys| + d * (fin.pushes - st.pushes)
    decreases Budget(st.residue, alpha, rMax)
  {
    hide Push, Budget, FanOut;
    if !Settled(st.residue, rMax) {
      var u := Top(st.residue);
      var st' := Push(adj, alpha, st, u);
      PushSpendsBudget(adj, alpha, rMax, st, u);
      PushTouches(adj, alpha, st, u, d);
      PushCounts(adj, alpha, st, u);
      NodesExaminedPerPush(adj, alpha, rMax, st', d);
      OneMore(d, GreedyRun(adj, alpha, rMax, st').pushes, st.pushes);
    } else {
    }
  }

  lemma OneMore(d: nat, end: nat, start: nat)
    ensures d * (end - start) == d * (end - (start + 1)) + d
  {
  }

  lemma UnionCard<T>(a: set<T>, b: set<T>)
    ensures |a + b| <= |a| + |b|
  {
  }

  /** So the nodes a run adds to the seeds are at most the out-degree times the bound on the pushes. */
  lemma NodesExaminedBound(adj: Adjacency, alpha: real, rMax: real, p: Vector, nodes: set<int>, d: nat)
    requires Parameters(alpha, rMax) && NonNegative(p) && Closed(adj, nodes) && p.Keys <= nodes && FanOut(adj, d)
    ensures var fin := Run(adj, alpha, rMax, p);
            Times((|fin.residue.Keys| - |p.Keys|) as real, alpha * rMax) <= Times(d as real, Sum(p, nodes))
  {
    hide GreedyRun, Times, LeastWork, PushInvariant, Settled, Closed, FanOut;
    NodesExaminedPerPush(adj, alpha, rMax, InitialState(p), d);
    RunBounds(adj, alpha, rMax, p, nodes);
    var fin := Run(adj, alpha, rMax, p);
    WorkTimesDegree(|fin.residue.Keys| - |p.Keys|, d, fin.pushes, alpha, rMax, Sum(p, nodes));
  }

  lemma WorkTimesDegree(x: int, d: nat, n: nat, alpha: real, rMax: real, mass: real)
    requires x <= d * n && Parameters(alpha, rMax) && LeastWork(n, alpha, rMax) <= mass
    ensures Times(x as real, alpha * rMax) <= Times(d as real, mass)
  {
  }

  // ----- the number of nodes is not bounded by 1 / (alpha * rMax) alone -----

  /** Pushing a single seed with alpha and rMax both 1.0 is one push; it touches the seed and all its neighbours. */
  lemma OnePushRun(adj: Adjacency, u: int)
    ensures var fin := Run(adj, 1.0, 1.0, map[u := 1.0]);
            fin.pushes == 1 && fin.residue.Keys == {u} + Others(adj, u)
  {
    var st := InitialState(map[u := 1.0]);
    var st' := Push(adj, 1.0, st, u);
    assert IsTop(st.residue, u);
    TopUnique(st.residue, u);
    assert !Settled(st.residue, 1.0) by { assert st.residue[u] >= 1.0; }
    PushSpendsBudget(adj, 1.0, 1.0, st, u);
    PushKeys(adj, 1.0, st, u);
    forall v | v in st'.residue ensures st'.residue[v] < 1.0 {
      PushResidue(adj, 1.0, st, u, v);
      TimesZero(Share(adj, u, v));
    }
    assert Settled(st'.residue, 1.0);
    assert st'.residue.Keys == {u} + Others(adj, u);
    PushCounts(adj, 1.0, st, u);
    hide Push, Settled, Budget;
    assert GreedyRun(adj, 1.0, 1.0, st') == st';
    assert GreedyRun(adj, 1.0, 1.0, st) == GreedyRun(adj, 1.0, 1.0, st');
  }

  /** On this graph, `d` nodes per unit of 1 / (alpha * rMax) cover what any run adds to its seeds. */
  ghost predicate NodesPerUnitWork(adj: Adjacency, nodes: set<int>, d: nat) {
    forall alpha: real, rMax: real, p: Vector :: Parameters(alpha, rMax) && NonNegative(p) && p.Keys <= nodes ==>
      Times((|Run(adj, alpha, rMax, p).residue.Keys| - |p.Keys|) as real, alpha * rMax) <= Times(d as real, Sum(p, nodes))
  }

  /**
   The number of examined nodes is bounded by a constant times 1 / (alpha * rMax), for every call on
   the graph, if and only if no node has more other neighbours than that constant.
   */
  lemma NodesExaminedIff(adj: Adjacency, nodes: set<int>, d: nat)
    requires Closed(adj, nodes) && adj.Keys <= nodes
    ensures NodesPerUnitWork(adj, nodes, d) <==> FanOut(adj, d)
  {
    hide Run, Times, Others, Closed, Sum;
    if FanOut(adj, d) {
      forall alpha: real, rMax: real, p: Vector | Parameters(alpha, rMax) && NonNegative(p) && p.Keys <= nodes
        ensures Times((|Run(adj, alpha, rMax, p).residue.Keys| - |p.Keys|) as real, alpha * rMax)
             <= Times(d as real, Sum(p, nodes))
      {
        NodesExaminedBound(adj, alpha, rMax, p, nodes, d);
      }
    }
    if NodesPerUnitWork(adj, nodes, d) {
      forall u ensures |Others(adj, u)| <= d {
        SingleSeed(adj, nodes, d, u);
      }
    }
  }

  lemma SingleSeed(adj: Adjacency, nodes: set<int>, d: nat, u: int)
    requires Closed(adj, nodes) && adj.Keys <= nodes && NodesPerUnitWork(adj, nodes, d)
    ensures |Others(adj, u)| <= d
  {
    if u in adj {
      hide Run, GreedyRun, Closed, Others, Times, Sum;
      var p: Vector := map[u := 1.0];
      OnePushRun(adj, u);
      OneSeedMass(p, nodes, u);
      SeedLeftOut(adj, u);
      var touched := |Run(adj, 1.0, 1.0, p).residue.Keys|;
      assert Times((touched - |p.Keys|) as real, 1.0 * 1.0) <= Times(d as real, Sum(p, nodes));
      TimesOne((touched - |p.Keys|) as real, d as real);
      TimesOne(d as real, d as real);
    } else {
      assert Others(adj, u) == {};
    }
  }

  lemma SeedLeftOut(adj: Adjacency, u: int)
    ensures |{u} + Others(adj, u)| == 1 + |Others(adj, u)|
  {
  }

  lemma OneSeedMass(p: Vector, nodes: set<int>, u: int)
    requires p == map[u := 1.0] && u in nodes
    ensures Sum(p, nodes) == 1.0 && |p.Keys| == 1
  {
    SumExtend(p, {u}, nodes);
    SumPick(p, {u}, u);
    SumZero(p, {u} - {u});
    assert p.Keys == {u};
  }

  /** Node 0 with `d` out-neighbours. */
  function Star(d: nat): Adjacency {
    map[0 := seq(d, i => i + 1)]
  }

  /** One push, as the bound on the pushes says, and d + 1 examined nodes. */
  lemma StarExaminesEveryNeighbour(d: nat)
    ensures var fin := Run(Star(d), 1.0, 1.0, map[0 := 1.0]);
            fin.pushes == 1 && |fin.residue.Keys| == d + 1
  {
    OnePushRun(Star(d), 0);
    StarKeys(d);
  }

  lemma StarKeys(d: nat)
    ensures {0} + Others(Star(d), 0) == UpTo(d + 1)
  {
    var ns := Neighbours(Star(d), 0);
    forall v | v in UpTo(d + 1) ensures v == 0 || v in ns {
      if v > 0 {
        assert ns[v - 1] == v;
      }
    }
  }
}
