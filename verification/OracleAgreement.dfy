/**
 The bounded push against the blocking oracle: how far apart their results can be, for seeds inside the graph
 and for seeds outside it.
 */
module OracleAgreement {
  import opened Collections
  import opened Sums
  import opened Graph
  import opened PowerModel
  import opened PushModel
  import opened PushTheorems
  import opened PushRuns
  import opened PersonalizedPageRank
  import opened PowerIteration
  import LevelSets
  import Reachability

  /** Two nonnegative vectors are never further apart than their masses together. */
  lemma L1AtMostMasses(a: Vector, b: Vector, nodes: set<int>)
    requires NonNegative(a) && NonNegative(b)
    ensures L1(a, b, nodes) <= Sum(a, nodes) + Sum(b, nodes)
  {
    L1Triangle(a, map[], b, nodes);
    L1Symmetric(map[], b, nodes);
    L1FromZero(a, nodes);
    L1FromZero(b, nodes);
  }

  lemma L1FromZero(a: Vector, nodes: set<int>)
    requires NonNegative(a)
    ensures L1(a, map[], nodes) == Sum(a, nodes)
  {
    SumCong(Gap(a, map[], nodes), a, nodes);
  }

  lemma ShrunkMonotone(alpha: real, t: nat, a: real, b: real, r: real)
    requires 0.0 < alpha <= 1.0 && a <= b
    ensures Shrunk(alpha, t, a, r) <= Shrunk(alpha, t, b, r)
  {
    PowNonNegative(1.0 - alpha, t);
    TimesMonotone(a, b, Pow(1.0 - alpha, t));
  }

  lemma {:induction false} PowNonNegative(x: real, n: nat)
    requires x >= 0.0
    ensures Pow(x, n) >= 0.0
  {
    if n > 0 {
      PowNonNegative(x, n - 1);
      TimesMonotone(0.0, Pow(x, n - 1), x);
    } else {
    }
  }

  /** How far the two may be apart, in terms of what the caller chose and `nodes_examined`. */
  ghost function ErrorBound(alpha: real, rMax: real, iters: nat, tol: real, nodesExamined: nat): real
    requires 0.0 < alpha
  {
    var converged := Settling(alpha, tol) + Times(rMax, nodesExamined as real);
    var exhausted := Shrunk(alpha, iters, 2.0, Times(rMax, nodesExamined as real));
    if converged > exhausted then converged else exhausted
  }

  /** No walk that starts at a seed outside the graph 0 .. n-1 enters it. */
  ghost predicate StaysOutside(adj: Adjacency, seeds: set<int>, n: nat) {
    forall v, steps: nat :: Reachability.Reaches(LevelSets.Plain(adj), seeds - UpTo(n), v, steps) ==> v !in UpTo(n)
  }

  /** Then the nodes those seeds reach form a closed set of their own. */
  lemma OutsideSet(adj: Adjacency, seeds: set<int>, n: nat) returns (outside: set<int>)
    requires StaysOutside(adj, seeds, n)
    ensures outside !! UpTo(n) && seeds <= UpTo(n) + outside && Closed(adj, outside)
  {
    var all := seeds + adj.Keys + set u, v | u in adj && v in adj[u] :: v;
    var start := seeds - UpTo(n);
    outside := set v | v in all && exists steps: nat :: Reachability.Reaches(LevelSets.Plain(adj), start, v, steps);
    forall s | s in start ensures s in outside {
      assert Reachability.IsWalk(LevelSets.Plain(adj), [s]);
      assert Reachability.Reaches(LevelSets.Plain(adj), start, s, 0);
    }
    forall u, v | u in outside && v in Neighbours(adj, u) ensures v in outside {
      var steps: nat :| Reachability.Reaches(LevelSets.Plain(adj), start, u, steps);
      WalkOn(LevelSets.Plain(adj), start, u, v, steps);
    }
  }

  lemma WalkOn(succ: Reachability.Successors, from: set<int>, u: int, v: int, steps: nat)
    requires Reachability.Reaches(succ, from, u, steps) && v in succ(u)
    ensures Reachability.Reaches(succ, from, v, steps + 1)
  {
    var w :| Reachability.IsWalk(succ, w) && |w| == steps + 1 && w[0] in from && w[steps] == u;
    assert Reachability.IsWalk(succ, w + [v]) && (w + [v])[0] == w[0] && (w + [v])[steps + 1] == v;
  }

  /** Nodes that list none of the graph's nodes send it nothing. */
  lemma NothingFromOutside(adj: Adjacency, x: Vector, inside: set<int>, outside: set<int>, v: int)
    requires Closed(adj, outside) && v in inside && inside !! outside
    ensures Flow(adj, x, inside + outside, v) == Flow(adj, x, inside, v)
  {
    hide Times, Sum;
    var all := inside + outside;
    var sent := Products(x, Column(adj, all, v), all);
    forall u | u in all - inside ensures Get(sent, u) == 0.0 {
      assert v !in Neighbours(adj, u);
      NotListedNoShare(adj, u, v);
      TimesZero(Get(x, u));
    }
    SumExtend(sent, inside, all);
    SumCong(sent, Products(x, Column(adj, inside, v), inside), inside);
  }

  lemma NotListedNoShare(adj: Adjacency, u: int, v: int)
    requires v !in Neighbours(adj, u)
    ensures Share(adj, u, v) == 0.0
  {
    NotCounted(Neighbours(adj, u), v);
  }

  lemma {:induction false} NotCounted(ns: seq<int>, v: int)
    requires v !in ns
    ensures Count(ns, v) == 0
  {
    if ns != [] {
      NotCounted(ns[..|ns| - 1], v);
    } else {
    }
  }

  lemma IdentityInside(adj: Adjacency, alpha: real, p: Vector, st: PushState, n: nat, outside: set<int>)
    requires Closed(adj, outside) && UpTo(n) !! outside
    requires ResidualIdentity(adj, alpha, p, st, UpTo(n) + outside)
    ensures ResidualIdentity(adj, alpha, SeedVector(p, n), st, UpTo(n))
  {
    hide Flow, Blend, Kept, Closed;
    forall v | v in UpTo(n) ensures BalancedAt(adj, alpha, SeedVector(p, n), st, UpTo(n), v) {
      assert BalancedAt(adj, alpha, p, st, UpTo(n) + outside, v);
      NothingFromOutside(adj, st.reserve, UpTo(n), outside, v);
    }
  }

  /** The end of a run, seen from inside the graph. */
  lemma RunInside(adj: Adjacency, alpha: real, rMax: real, p: Vector, n: nat)
    requires Parameters(alpha, rMax) && NonNegative(p) && Total(p) <= 1.0
    requires Closed(adj, UpTo(n)) && StaysOutside(adj, p.Keys, n)
    ensures var fin := Run(adj, alpha, rMax, p);
            && ResidualIdentity(adj, alpha, SeedVector(p, n), fin, UpTo(n)) && NonNegative(fin.residue)
            && Sum(fin.residue, UpTo(n)) <= Times(rMax, |fin.residue.Keys| as real)
            && L1(SeedVector(p, n), fin.reserve, UpTo(n)) <= 2.0
  {
    var outside := OutsideSet(adj, p.Keys, n);
    var nodes := UpTo(n) + outside;
    assert Closed(adj, nodes);
    RunBounds(adj, alpha, rMax, p, nodes);
    hide Run, LeastWork, ResidualIdentity, L1, Times, Settled, StaysOutside, Closed, Total;
    var fin := Run(adj, alpha, rMax, p);
    IdentityInside(adj, alpha, p, fin, n, outside);
    SumSubset(fin.residue, UpTo(n), nodes);
    MassesInside(p, fin, n, nodes);
  }

  lemma MassesInside(p: Vector, fin: PushState, n: nat, nodes: set<int>)
    requires NonNegative(p) && Total(p) <= 1.0 && p.Keys <= nodes && UpTo(n) <= nodes
    requires NonNegative(fin.reserve) && NonNegative(fin.residue) && fin.lost >= 0.0
    requires Sum(fin.reserve, nodes) + Sum(fin.residue, nodes) + fin.lost == Sum(p, nodes)
    ensures L1(SeedVector(p, n), fin.reserve, UpTo(n)) <= 2.0
  {
    hide L1, Sum;
    SumSubset(fin.reserve, UpTo(n), nodes);
    SumSubset(p, UpTo(n), nodes);
    SumNonNegative(fin.residue, nodes);
    SumExtend(p, p.Keys, nodes);
    SumCong(p, SeedVector(p, n), UpTo(n));
    L1AtMostMasses(SeedVector(p, n), fin.reserve, UpTo(n));
  }

  /**
   The bounded push and the blocking oracle, run on the same seeds: on the nodes of the graph their results
   are within the error bound of each other in L1 distance, whatever happens to seeds that stay outside.
   */
  lemma PushAgreesWithOracle(adj: Adjacency, alpha: real, rMax: real, weights: Vector, n: nat, iters: nat, tol: real,
                             rounds: nat)
    requires Parameters(alpha, rMax) && NonNegative(weights)
    requires Closed(adj, UpTo(n)) && StaysOutside(adj, weights.Keys, n)
    requires Stopped(adj, alpha, SeedVector(Personalization(weights), n), n, iters, tol, rounds)
    ensures NonNegative(Personalization(weights))
    ensures var p := Personalization(weights);
            var fin := Run(adj, alpha, rMax, p);
            L1(Iterate(adj, alpha, SeedVector(p, n), UpTo(n), rounds), fin.reserve, UpTo(n))
              <= ErrorBound(alpha, rMax, iters, tol, |fin.residue.Keys|)
  {
    hide Personalization, Step, Iterate, Run, Times, L1, Closed, Shrunk, Settling, StaysOutside, ResidualIdentity;
    PersonalizationMass(weights);
    PersonalizationKeys(weights);
    var p := Personalization(weights);
    var q, fin := SeedVector(p, n), Run(adj, alpha, rMax, p);
    var r := Times(rMax, |fin.residue.Keys| as real);
    RunInside(adj, alpha, rMax, p, n);
    if 0 < rounds && SmallMove(adj, alpha, q, n, tol, rounds) {
      IterateOnce(adj, alpha, q, UpTo(n), rounds);
      StateNearConverged(adj, alpha, q, UpTo(n), fin, r, Iterate(adj, alpha, q, UpTo(n), rounds - 1), tol);
    } else {
      StateNearIterate(adj, alpha, q, UpTo(n), fin, r, iters);
      ShrunkMonotone(alpha, iters, L1(q, fin.reserve, UpTo(n)), 2.0, r);
    }
  }

  lemma PersonalizationKeys(weights: Vector)
    ensures Personalization(weights).Keys == weights.Keys
  {
  }

  lemma IterateOnce(adj: Adjacency, alpha: real, p: Vector, nodes: set<int>, t: nat)
    requires t > 0
    ensures Iterate(adj, alpha, p, nodes, t) == Step(adj, alpha, p, Iterate(adj, alpha, p, nodes, t - 1), nodes)
  {
  }

  // ----- and only for seeds that stay outside -----

  /** Half of what a walk of `i` edges passes on when every node on it has at most `d` neighbours. */
  ghost function WalkMass(d: nat, i: nat): real
    requires d > 0
  {
    Pow(0.5 / d as real, i) * 0.5
  }

  lemma ShareAtLeast(adj: Adjacency, u: int, v: int, d: nat)
    requires v in Neighbours(adj, u) && |Neighbours(adj, u)| <= d
    ensures Share(adj, u, v) >= 1.0 / d as real
  {
    Counted(Neighbours(adj, u), v);
    Fraction(Count(Neighbours(adj, u), v), |Neighbours(adj, u)|, d);
  }

  lemma {:induction false} Counted(ns: seq<int>, v: int)
    requires v in ns
    ensures Count(ns, v) >= 1
  {
    if ns[|ns| - 1] != v {
      assert ns == ns[..|ns| - 1] + [ns[|ns| - 1]];
      Counted(ns[..|ns| - 1], v);
    } else {
    }
  }

  lemma Fraction(c: nat, n: nat, d: nat)
    requires c >= 1 && 0 < n <= d
    ensures c as real / n as real >= 1.0 / d as real
  {
  }

  /** The inflow of a node is at least what one of its predecessors sends. */
  lemma FlowAtLeast(adj: Adjacency, x: Vector, nodes: set<int>, u: int, v: int)
    requires NonNegative(x) && u in nodes
    ensures Flow(adj, x, nodes, v) >= Times(Get(x, u), Share(adj, u, v))
  {
    hide Times, Share, Sum;
    var sent := Products(x, Column(adj, nodes, v), nodes);
    forall w | w in nodes ensures Get(sent, w) >= 0.0 {
      TimesMonotone(0.0, Get(x, w), Share(adj, w, v));
      TimesZero(Share(adj, w, v));
    }
    SumBoundsTerm(sent, nodes, u);
  }

  /** Once no residue exceeds `rMax`, a walk from the seed has left this much at its end. */
  lemma {:induction false} WalkReserve(adj: Adjacency, p: Vector, st: PushState, nodes: set<int>, rMax: real,
                                       w: seq<int>, d: nat, i: nat)
    requires ResidualIdentity(adj, 0.5, p, st, nodes) && NonNegative(p) && NonNegative(st.reserve)
    requires NonNegative(st.residue) && (forall v :: Get(st.residue, v) <= rMax)
    requires i < |w| && Reachability.IsWalk(LevelSets.Plain(adj), w) && Get(p, w[0]) == 1.0
    requires d > 0 && forall j :: 0 <= j <= i ==> w[j] in nodes && |Neighbours(adj, w[j])| <= d
    ensures Get(st.reserve, w[i]) >= WalkMass(d, i) - rMax
  {
    hide Flow, Share, WalkMass;
    var v := w[i];
    assert BalancedAt(adj, 0.5, p, st, nodes, v);
    if i == 0 {
      FlowNonNegative(adj, st.reserve, nodes, v);
      WalkMassStart(d);
    } else {
      var u := w[i - 1];
      WalkReserve(adj, p, st, nodes, rMax, w, d, i - 1);
      assert w[i - 1 + 1] in LevelSets.Plain(adj)(w[i - 1]);
      ShareAtLeast(adj, u, v, d);
      FlowAtLeast(adj, st.reserve, nodes, u, v);
      PassedAlong(d, i, Get(st.reserve, u), Share(adj, u, v), rMax);
    }
  }

  lemma WalkMassStart(d: nat)
    requires d > 0
    ensures WalkMass(d, 0) == 0.5
  {
  }

  lemma PassedAlong(d: nat, i: nat, before: real, share: real, rMax: real)
    requires d > 0 && i > 0 && before >= 0.0 && rMax >= 0.0 && share >= 1.0 / d as real
    requires before >= WalkMass(d, i - 1) - rMax
    ensures 0.5 * Times(before, share) >= WalkMass(d, i) - 0.5 * rMax
  {
    var unit := 1.0 / d as real;
    assert unit <= 1.0 && unit > 0.0 && 0.5 / d as real == 0.5 * unit;
    TimesMonotone(unit, share, before);
    TimesMonotone(WalkMass(d, i - 1) - rMax, before, unit);
    TimesMonotone(unit, 1.0, rMax);
    assert Pow(0.5 * unit, i) == 0.5 * unit * Pow(0.5 * unit, i - 1);
    assert WalkMass(d, i) == 0.5 * (unit * WalkMass(d, i - 1));
  }

  lemma {:induction false} HalfPower(n: nat)
    ensures Pow(0.5, n) * (n + 1) as real <= 1.0 && Pow(0.5, n) > 0.0
  {
    if n > 0 {
      HalfPower(n - 1);
      var x := Pow(0.5, n - 1);
      assert x * (n + 1) as real <= 2.0 * (x * n as real);
    } else {
    }
  }

  lemma SmallPower(c: real) returns (n: nat)
    requires c > 0.0
    ensures n > 0 && Pow(0.5, n) <= c
  {
    n := (1.0 / c).Floor + 1;
    HalfPower(n);
    var x := Pow(0.5, n);
    assert (n + 1) as real >= 1.0 / c && (1.0 / c) * c == 1.0;
    if x > c {
      SignOfProduct(x - c, (n + 1) as real);
      TimesMonotone(1.0 / c, (n + 1) as real, c);
      assert false;
    }
  }

  lemma {:induction false} PowPositive(x: real, n: nat)
    requires x > 0.0
    ensures Pow(x, n) > 0.0
  {
    if n > 0 {
      PowPositive(x, n - 1);
      TimesPositive(x, Pow(x, n - 1));
    } else {
    }
  }

  lemma {:induction false} WalkInside(adj: Adjacency, nodes: set<int>, w: seq<int>, i: nat)
    requires Closed(adj, nodes) && Reachability.IsWalk(LevelSets.Plain(adj), w) && i < |w| && w[0] in nodes
    ensures w[i] in nodes
  {
    if i > 0 {
      WalkInside(adj, nodes, w, i - 1);
      var u, v := w[i - 1], w[i - 1 + 1];
      assert v in LevelSets.Plain(adj)(u);
      assert u in nodes && v in Neighbours(adj, u);
      assert v in nodes && v == w[i];
    } else {
    }
  }

  lemma {:induction false} DegreeOnWalk(adj: Adjacency, w: seq<int>) returns (d: nat)
    ensures d > 0 && forall j :: 0 <= j < |w| ==> |Neighbours(adj, w[j])| <= d
  {
    if w == [] {
      d := 1;
    } else {
      d := DegreeOnWalk(adj, w[..|w| - 1]);
      var last := |Neighbours(adj, w[|w| - 1])|;
      d := if d >= last then d else last;
    }
  }

  /** All the weight on one seed. */
  ghost function OneSeed(seeds: set<int>, s: int): Vector {
    map x | x in seeds :: if x == s then 1.0 else 0.0
  }

  lemma OneSeedIsPersonal(seeds: set<int>, s: int)
    requires s in seeds
    ensures NonNegative(OneSeed(seeds, s)) && Personalization(OneSeed(seeds, s)) == OneSeed(seeds, s)
    ensures OneSeed(seeds, s).Keys == seeds && Get(OneSeed(seeds, s), s) == 1.0
    ensures forall v :: v != s ==> Get(OneSeed(seeds, s), v) == 0.0
  {
    var p := OneSeed(seeds, s);
    assert p.Keys == seeds;
    SumPick(p, seeds, s);
    SumZero(p, seeds - {s});
    assert forall x :: x in p ==> p[x] / 1.0 == p[x];
  }

  /** From a seed vector that is zero inside the graph the oracle stays at zero. */
  lemma {:induction false} ZeroIterates(adj: Adjacency, alpha: real, q: Vector, n: nat, t: nat)
    requires forall v :: v in UpTo(n) ==> Get(q, v) == 0.0
    ensures forall v :: v in UpTo(n) ==> Get(Iterate(adj, alpha, q, UpTo(n), t), v) == 0.0
  {
    hide Times, Share, Sum, Dot, Column;
    if t == 0 {
    } else {
      var nodes, x := UpTo(n), Iterate(adj, alpha, q, UpTo(n), t - 1);
      ZeroIterates(adj, alpha, q, n, t - 1);
      forall v | v in nodes ensures Get(Step(adj, alpha, q, x, nodes), v) == 0.0 {
        DotCong(x, Column(adj, nodes, v), map[], Column(adj, nodes, v), nodes);
        DotZero(Column(adj, nodes, v), nodes);
        assert Flow(adj, x, nodes, v) == 0.0;
      }
    }
  }

  /** And it stops after one round. */
  lemma OracleStaysZero(adj: Adjacency, alpha: real, p: Vector, n: nat, iters: nat, tol: real)
    requires iters > 0 && tol > 0.0 && forall v :: v in UpTo(n) ==> Get(p, v) == 0.0
    ensures Stopped(adj, alpha, SeedVector(p, n), n, iters, tol, 1)
    ensures forall v :: v in UpTo(n) ==> Get(Iterate(adj, alpha, SeedVector(p, n), UpTo(n), 1), v) == 0.0
  {
    hide Iterate, Sum;
    var q, nodes := SeedVector(p, n), UpTo(n);
    ZeroIterates(adj, alpha, q, n, 0);
    ZeroIterates(adj, alpha, q, n, 1);
    SumZero(Gap(Iterate(adj, alpha, q, nodes, 1), Iterate(adj, alpha, q, nodes, 0), nodes), nodes);
    assert SmallMove(adj, alpha, q, n, tol, 1);
  }

  /** The two results are within the error bound of each other. */
  ghost predicate Near(adj: Adjacency, alpha: real, rMax: real, weights: Vector, n: nat, iters: nat, tol: real, rounds: nat)
    requires Parameters(alpha, rMax) && NonNegative(Personalization(weights))
  {
    var p := Personalization(weights);
    var fin := Run(adj, alpha, rMax, p);
    L1(Iterate(adj, alpha, SeedVector(p, n), UpTo(n), rounds), fin.reserve, UpTo(n))
      <= ErrorBound(alpha, rMax, iters, tol, |fin.residue.Keys|)
  }

  /** They are for every choice of the other arguments, whatever the weights of these seeds. */
  ghost predicate AlwaysNear(adj: Adjacency, seeds: set<int>, n: nat) {
    forall alpha: real, rMax: real, weights: Vector, iters: nat, tol: real, rounds: nat ::
      Parameters(alpha, rMax) && NonNegative(weights) && weights.Keys == seeds && NonNegative(Personalization(weights))
      && Stopped(adj, alpha, SeedVector(Personalization(weights), n), n, iters, tol, rounds) ==>
        Near(adj, alpha, rMax, weights, n, iters, tol, rounds)
  }

  lemma EnteringSeedDisagrees(adj: Adjacency, seeds: set<int>, n: nat, w: seq<int>)
    requires Reachability.IsWalk(LevelSets.Plain(adj), w) && w[0] in seeds - UpTo(n) && w[|w| - 1] in UpTo(n)
    ensures !AlwaysNear(adj, seeds, n)
  {
    var s, i := w[0], |w| - 1;
    var weights := OneSeed(seeds, s);
    OneSeedIsPersonal(seeds, s);
    ClosedSetExists(adj, weights);
    var nodes :| Closed(adj, nodes) && weights.Keys <= nodes;
    assert s in weights.Keys;
    forall j | 0 <= j < |w| ensures w[j] in nodes {
      WalkInside(adj, nodes, w, j);
    }
    var d := DegreeOnWalk(adj, w);
    PowPositive(0.5 / d as real, i);
    var c := WalkMass(d, i) / 4.0;
    var iters := SmallPower(c / 2.0);
    hide WalkMass, Reachability.IsWalk, Closed;
    assert nodes != {};
    Threshold(c, |nodes|);
    TinyThreshold(adj, seeds, n, w, nodes, d, c, c / |nodes| as real, iters);
  }

  lemma TinyThreshold(adj: Adjacency, seeds: set<int>, n: nat, w: seq<int>, nodes: set<int>, d: nat, c: real, rMax: real,
                      iters: nat)
    requires Reachability.IsWalk(LevelSets.Plain(adj), w) && w[0] in seeds - UpTo(n) && w[|w| - 1] in UpTo(n)
    requires Closed(adj, nodes) && seeds <= nodes && forall j :: 0 <= j < |w| ==> w[j] in nodes
    requires d > 0 && forall j :: 0 <= j < |w| ==> |Neighbours(adj, w[j])| <= d
    requires c > 0.0 && WalkMass(d, |w| - 1) == 4.0 * c && iters > 0 && Pow(0.5, iters) <= c / 2.0
    requires 0.0 < rMax <= c && Times(rMax, |nodes| as real) == c
    ensures !AlwaysNear(adj, seeds, n)
  {
    var s, i := w[0], |w| - 1;
    hide WalkMass, Reachability.IsWalk, Closed, Run, Iterate, Stopped, ErrorBound, Personalization, L1, Sum, Times, Pow;
    hide OneSeed, NonNegative, SeedVector, AlwaysNear;
    var p := OneSeed(seeds, s);
    OneSeedIsPersonal(seeds, s);
    ReserveEnters(adj, p, nodes, rMax, w, d, c);
    var fin := Run(adj, 0.5, rMax, p);
    OracleStaysZero(adj, 0.5, p, n, iters, c);
    ApartAt(Iterate(adj, 0.5, SeedVector(p, n), UpTo(n), 1), fin.reserve, UpTo(n), w[i]);
    SubsetCard(fin.residue.Keys, nodes);
    TinyBound(c, rMax, |nodes|, iters, |fin.residue.Keys|);
    Refuted(adj, seeds, n, rMax, p, iters, c);
  }

  lemma Refuted(adj: Adjacency, seeds: set<int>, n: nat, rMax: real, p: Vector, iters: nat, tol: real)
    requires Parameters(0.5, rMax) && NonNegative(p) && p.Keys == seeds && Personalization(p) == p
    requires Stopped(adj, 0.5, SeedVector(p, n), n, iters, tol, 1)
    requires var fin := Run(adj, 0.5, rMax, p);
             L1(Iterate(adj, 0.5, SeedVector(p, n), UpTo(n), 1), fin.reserve, UpTo(n))
               > ErrorBound(0.5, rMax, iters, tol, |fin.residue.Keys|)
    ensures !AlwaysNear(adj, seeds, n)
  {
    hide Stopped, Run, L1, ErrorBound, Iterate, Personalization, NonNegative;
    assert !Near(adj, 0.5, rMax, p, n, iters, tol, 1);
  }

  lemma ReserveEnters(adj: Adjacency, p: Vector, nodes: set<int>, rMax: real, w: seq<int>, d: nat, c: real)
    requires Parameters(0.5, rMax) && NonNegative(p) && Closed(adj, nodes) && p.Keys <= nodes
    requires Reachability.IsWalk(LevelSets.Plain(adj), w) && |w| > 0 && Get(p, w[0]) == 1.0 && forall j :: 0 <= j < |w| ==> w[j] in nodes
    requires d > 0 && (forall j :: 0 <= j < |w| ==> |Neighbours(adj, w[j])| <= d) && WalkMass(d, |w| - 1) == 4.0 * c
    ensures var fin := Run(adj, 0.5, rMax, p);
            Get(fin.reserve, w[|w| - 1]) >= 4.0 * c - rMax && fin.residue.Keys <= nodes
  {
    hide WalkMass, Closed, Run, LeastWork, Sum, Times, ResidualIdentity, Reachability.IsWalk;
    RunBounds(adj, 0.5, rMax, p, nodes);
    WalkReserve(adj, p, Run(adj, 0.5, rMax, p), nodes, rMax, w, d, |w| - 1);
  }

  lemma Threshold(c: real, m: nat)
    requires c > 0.0 && m > 0
    ensures 0.0 < c / m as real <= c && Times(c / m as real, m as real) == c
  {
    TimesMonotone(1.0, m as real, c / m as real);
  }

  lemma ApartAt(a: Vector, b: Vector, nodes: set<int>, v: int)
    requires v in nodes
    ensures L1(a, b, nodes) >= Get(b, v) - Get(a, v)
  {
    SumBoundsTerm(Gap(a, b, nodes), nodes, v);
  }

  lemma TinyBound(c: real, rMax: real, m: nat, iters: nat, examined: nat)
    requires c > 0.0 && rMax > 0.0 && Times(rMax, m as real) == c && examined <= m && Pow(0.5, iters) <= c / 2.0
    ensures ErrorBound(0.5, rMax, iters, c, examined) <= 2.0 * c
  {
  }

  /**
   Push and oracle agree within the error bound, on the nodes of the graph and for every choice of the other
   arguments, if and only if no seed from outside can enter the graph.
   */
  lemma AlwaysNearIff(adj: Adjacency, seeds: set<int>, n: nat)
    requires Closed(adj, UpTo(n))
    ensures AlwaysNear(adj, seeds, n) <==> StaysOutside(adj, seeds, n)
  {
    hide Closed, Stopped, Personalization, Reachability.IsWalk;
    if StaysOutside(adj, seeds, n) {
      forall alpha: real, rMax: real, weights: Vector, iters: nat, tol: real, rounds: nat |
        Parameters(alpha, rMax) && NonNegative(weights) && weights.Keys == seeds && NonNegative(Personalization(weights))
        && Stopped(adj, alpha, SeedVector(Personalization(weights), n), n, iters, tol, rounds)
        ensures Near(adj, alpha, rMax, weights, n, iters, tol, rounds)
      {
        hide StaysOutside;
        PushAgreesWithOracle(adj, alpha, rMax, weights, n, iters, tol, rounds);
      }
    } else {
      var v, steps: nat :| Reachability.Reaches(LevelSets.Plain(adj), seeds - UpTo(n), v, steps) && v in UpTo(n);
      var w :| Reachability.IsWalk(LevelSets.Plain(adj), w) && |w| == steps + 1 && w[0] in seeds - UpTo(n) && w[steps] == v;
      EnteringSeedDisagrees(adj, seeds, n, w);
    }
  }

  /** A seed outside a graph of one node, with an edge into it. */
  lemma OutsideSeedDisagrees()
    ensures var adj := map[5 := [0], 0 := []];
            Closed(adj, UpTo(1)) && !AlwaysNear(adj, {5}, 1)
  {
    var adj: Adjacency := map[5 := [0], 0 := []];
    assert 0 in LevelSets.Plain(adj)(5) && 5 in {5} - UpTo(1);
    EnteringSeedDisagrees(adj, {5}, 1, [5, 0]);
  }
}
