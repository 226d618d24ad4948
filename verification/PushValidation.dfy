/**
 The comparison tests/test_tjs_open_ref.py makes: the same seeds through the bounded push and
 through the oracle, and the k best ids of both.
 */
module PushValidation {
  import opened Collections
  import opened Wrappers
  import opened Sums
  import opened Sorting
  import opened AscendingIds
  import opened Graph
  import opened PowerModel
  import opened PushModel
  import opened PushTheorems
  import opened PushRuns
  import opened PersonalizedPageRank
  import opened PowerIteration
  import opened OracleAgreement
  import NraMerge

  /** `top` lists the k best ids of `scores`, best first, equal scores by id; a node without a score is never listed. */
  ghost predicate IsTopIds(top: seq<int>, scores: Vector, k: nat) {
    && Distinct(top) && SortedBy(top, NraMerge.HigherThenId(scores))
    && (forall i, j :: 0 <= i < j < |top| ==>
          Get(scores, top[i]) > Get(scores, top[j]) || (Get(scores, top[i]) == Get(scores, top[j]) && top[i] < top[j]))
    && (forall c :: c in top ==> c in scores)
    && |top| == (if k <= |scores.Keys| then k else |scores.Keys|)
    && forall c, d :: c in top && d in scores && d !in top ==> NraMerge.HigherThenId(scores)(c, d)
  }

  /** `topk_ids`. */
  method TopkIds(scores: Vector, k: nat) returns (top: seq<int>)
    ensures IsTopIds(top, scores, k)
  {
    var le := NraMerge.HigherThenId(scores);
    var ids := SortedIds(scores.Keys);
    ghost var all := Sort(ids, le);
    SortContents(ids, le);
    SortSorted(ids, le);
    PermutationDistinct(ids, all);
    SameMembers(ids, all);
    DistinctCard(ids, scores.Keys);
    top := Take(Sort(ids, le), k);
    forall c, d | c in top && d in scores && d !in top ensures le(c, d) {
      var i :| 0 <= i < |top| && top[i] == c;
      assert d in all;
      if k <= |all| {
        var j := PastPrefix(all, k, d);
        assert le(all[i], all[j]);
      }
    }
  }

  /** Every listed node scores above `bound`, and above every node that is not listed by more than `bound`. */
  ghost predicate Separated(scores: Vector, top: seq<int>, nodes: set<int>, bound: real) {
    forall u :: u in top ==> Get(scores, u) > bound
                             && forall v :: v in nodes && v !in top ==> Get(scores, u) - Get(scores, v) > bound
  }

  lemma WithinBound(oracle: Vector, reserve: Vector, nodes: set<int>, bound: real, u: int)
    requires u in nodes && L1(oracle, reserve, nodes) <= bound
    ensures Get(reserve, u) >= Get(oracle, u) - bound
  {
    SumBoundsTerm(Gap(oracle, reserve, nodes), nodes, u);
  }

  /** The push finds the oracle's k best nodes whenever the oracle separates them by more than the error bound. */
  lemma TopKRecovered(oracle: Vector, reserve: Vector, nodes: set<int>, bound: real, k: nat, best: seq<int>, found: seq<int>)
    requires L1(oracle, reserve, nodes) <= bound && oracle.Keys <= nodes && reserve.Keys <= nodes
    requires IsTopIds(best, oracle, k) && IsTopIds(found, reserve, k)
    requires |best| == k && Separated(oracle, best, nodes, bound)
    ensures Elements(found) == Elements(best)
  {
    hide L1;
    forall u | u in best ensures u in reserve.Keys {
      WithinBound(oracle, reserve, nodes, bound, u);
    }
    DistinctCard(best, reserve.Keys);
    forall d | d in found ensures d in best {
      if d !in best {
        var c := Unlisted(best, found, d);
        assert NraMerge.HigherThenId(reserve)(d, c);
        OrderRecovered(oracle, reserve, nodes, bound, c, d);
        assert false;
      }
    }
    DistinctCard(found, Elements(best));
    DistinctCard(best, Elements(best));
    DistinctCard(found, Elements(found));
    SubsetCard(Elements(found), Elements(best));
  }

  /** Of two lists of the same length, one with a stranger leaves out a member of the other. */
  lemma Unlisted(best: seq<int>, found: seq<int>, d: int) returns (c: int)
    requires Distinct(best) && Distinct(found) && |best| == |found| && d in found && d !in best
    ensures c in best && c !in found
  {
    if forall c :: c in best ==> c in found {
      assert forall x :: x in best ==> x in Elements(found) - {d};
      DistinctCard(best, Elements(found) - {d});
      DistinctCard(found, Elements(found));
      assert false;
    }
    c :| c in best && c !in found;
  }

  /** What the oracle returns for these weights after `rounds` rounds. */
  ghost function OracleResult(adj: Adjacency, alpha: real, weights: Vector, n: nat, rounds: nat): Vector {
    Positive(Iterate(adj, alpha, SeedVector(Personalization(weights), n), UpTo(n), rounds), UpTo(n))
  }

  /** If `best` is the oracle's separated top k and `found` is the top k of the push, they hold the same nodes. */
  ghost predicate SameTop(adj: Adjacency, alpha: real, rMax: real, weights: Vector, n: nat, iters: nat, tol: real,
                          rounds: nat, k: nat, found: seq<int>, best: seq<int>)
    requires Parameters(alpha, rMax) && NonNegative(Personalization(weights))
  {
    var fin := Run(adj, alpha, rMax, Personalization(weights));
    var oracle := OracleResult(adj, alpha, weights, n, rounds);
    IsTopIds(found, fin.reserve, k) && IsTopIds(best, oracle, k) && |best| == k
    && Separated(oracle, best, UpTo(n), ErrorBound(alpha, rMax, iters, tol, |fin.residue.Keys|)) ==>
      Elements(found) == Elements(best)
  }

  lemma SameTopInside(adj: Adjacency, alpha: real, rMax: real, weights: Vector, n: nat, iters: nat, tol: real,
                      rounds: nat, k: nat, found: seq<int>, best: seq<int>)
    requires Parameters(alpha, rMax) && NonNegative(weights) && NonNegative(Personalization(weights))
    requires Closed(adj, UpTo(n)) && weights.Keys <= UpTo(n)
    requires Stopped(adj, alpha, SeedVector(Personalization(weights), n), n, iters, tol, rounds)
    ensures SameTop(adj, alpha, rMax, weights, n, iters, tol, rounds, k, found, best)
  {
    hide Personalization, Run, L1, Iterate, ErrorBound, Separated, IsTopIds, Stopped;
    var p := Personalization(weights);
    var fin := Run(adj, alpha, rMax, p);
    var exact, oracle := Iterate(adj, alpha, SeedVector(p, n), UpTo(n), rounds), OracleResult(adj, alpha, weights, n, rounds);
    var bound := ErrorBound(alpha, rMax, iters, tol, |fin.residue.Keys|);
    assert StaysOutside(adj, weights.Keys, n) by {
      NoneOutside(adj, weights.Keys, n);
    }
    hide Closed, StaysOutside;
    PushAgreesWithOracle(adj, alpha, rMax, weights, n, iters, tol, rounds);
    IterateNonNegative(adj, alpha, p, n, rounds);
    hide NonNegative, SeedVector;
    L1Symmetric(exact, fin.reserve, UpTo(n));
    L1Cong(fin.reserve, exact, oracle, UpTo(n));
    L1Symmetric(oracle, fin.reserve, UpTo(n));
    if IsTopIds(found, fin.reserve, k) && IsTopIds(best, oracle, k) && |best| == k && Separated(oracle, best, UpTo(n), bound) {
      ReserveInside(adj, alpha, rMax, weights, n);
      TopKRecovered(oracle, fin.reserve, UpTo(n), bound, k, best, found);
    }
  }

  /** Without a seed outside, no walk starts there. */
  lemma NoneOutside(adj: Adjacency, seeds: set<int>, n: nat)
    requires seeds <= UpTo(n)
    ensures StaysOutside(adj, seeds, n)
  {
    assert seeds - UpTo(n) == {};
  }

  lemma ReserveInside(adj: Adjacency, alpha: real, rMax: real, weights: Vector, n: nat)
    requires Parameters(alpha, rMax) && Closed(adj, UpTo(n)) && NonNegative(weights) && weights.Keys <= UpTo(n)
    ensures NonNegative(Personalization(weights))
    ensures Run(adj, alpha, rMax, Personalization(weights)).reserve.Keys <= UpTo(n)
  {
    PersonalizationMass(weights);
    PersonalizationKeys(weights);
    hide Run, Personalization;
    RunBounds(adj, alpha, rMax, Personalization(weights), UpTo(n));
  }

  /** With every seed outside, the oracle has nothing to list. */
  lemma SameTopOutside(adj: Adjacency, alpha: real, rMax: real, weights: Vector, n: nat, iters: nat, tol: real,
                       rounds: nat, k: nat, found: seq<int>, best: seq<int>)
    requires Parameters(alpha, rMax) && NonNegative(Personalization(weights)) && weights.Keys !! UpTo(n)
    ensures SameTop(adj, alpha, rMax, weights, n, iters, tol, rounds, k, found, best)
  {
    var p := Personalization(weights);
    PersonalizationKeys(weights);
    assert forall v :: v in UpTo(n) ==> Get(p, v) == 0.0;
    ZeroIterates(adj, alpha, SeedVector(p, n), n, rounds);
    hide Iterate, Personalization, Run, SeedVector, Separated, SortedBy, ErrorBound;
    var oracle := OracleResult(adj, alpha, weights, n, rounds);
    assert oracle.Keys == {};
    if IsTopIds(found, Run(adj, alpha, rMax, p).reserve, k) && IsTopIds(best, oracle, k) && |best| == k {
      assert found == [] && best == [];
    }
  }

  // ----- seeds on both sides -----

  /** Three quarters of the weight on `s`, one on `u`. */
  ghost function TwoSeeds(seeds: set<int>, s: int, u: int): Vector {
    map x | x in seeds :: if x == s then 0.75 else if x == u then 0.25 else 0.0
  }

  lemma TwoSeedsPersonal(seeds: set<int>, s: int, u: int)
    requires s in seeds && u in seeds && s != u
    ensures NonNegative(TwoSeeds(seeds, s, u)) && Personalization(TwoSeeds(seeds, s, u)) == TwoSeeds(seeds, s, u)
    ensures TwoSeeds(seeds, s, u).Keys == seeds
  {
    var p := TwoSeeds(seeds, s, u);
    assert p.Keys == seeds;
    SumPick(p, seeds, s);
    SumPick(p, seeds - {s}, u);
    SumZero(p, seeds - {s} - {u});
    assert forall x :: x in p ==> p[x] / 1.0 == p[x];
  }

  /** With alpha = 1 nothing is passed on: the reserve falls short of the seed vector by the residue. */
  lemma NothingPassedOn(adj: Adjacency, rMax: real, p: Vector, nodes: set<int>, v: int)
    requires Parameters(1.0, rMax) && NonNegative(p) && Closed(adj, nodes) && p.Keys <= nodes && v in nodes
    ensures var fin := Run(adj, 1.0, rMax, p);
            fin.reserve.Keys <= nodes && fin.residue.Keys <= nodes && Get(p, v) - rMax <= Get(fin.reserve, v) <= Get(p, v)
  {
    RunBounds(adj, 1.0, rMax, p, nodes);
    hide Run, LeastWork, Closed, Flow, Times;
    var fin := Run(adj, 1.0, rMax, p);
    assert BalancedAt(adj, 1.0, p, fin, nodes, v);
    assert 0.0 <= Get(fin.residue, v) <= rMax;
  }

  lemma ReserveTop(adj: Adjacency, rMax: real, seeds: set<int>, nodes: set<int>, s: int, u: int)
    requires 0.0 < rMax < 0.25 && Closed(adj, nodes) && seeds <= nodes && s in seeds && u in seeds && s != u
    ensures NonNegative(TwoSeeds(seeds, s, u))
    ensures var fin := Run(adj, 1.0, rMax, TwoSeeds(seeds, s, u));
            IsTopIds([s], fin.reserve, 1) && fin.residue.Keys <= nodes
  {
    TwoSeedsPersonal(seeds, s, u);
    var p := TwoSeeds(seeds, s, u);
    var fin := Run(adj, 1.0, rMax, p);
    hide Run, Closed, NonNegative;
    forall v | v in nodes
      ensures fin.reserve.Keys <= nodes && fin.residue.Keys <= nodes && Get(p, v) - rMax <= Get(fin.reserve, v) <= Get(p, v)
    {
      NothingPassedOn(adj, rMax, p, nodes, v);
    }
    assert s in nodes && Get(fin.reserve, s) > 0.25;
    assert s in fin.reserve.Keys;
    assert fin.reserve.Keys != {} && |fin.reserve.Keys| >= 1;
  }

  lemma OracleTop(adj: Adjacency, seeds: set<int>, n: nat, s: int, u: int)
    requires s in seeds && u in seeds && s !in UpTo(n) && u in UpTo(n)
    ensures var p, nodes := TwoSeeds(seeds, s, u), UpTo(n);
            var oracle := Positive(Iterate(adj, 1.0, SeedVector(p, n), nodes, 1), nodes);
            oracle == map[u := 0.25] && IsTopIds([u], oracle, 1)
  {
    hide Flow, Iterate, Step, IsTopIds, Positive;
    var p, nodes := TwoSeeds(seeds, s, u), UpTo(n);
    var q := SeedVector(p, n);
    var exact := Iterate(adj, 1.0, q, nodes, 1);
    forall v | v in nodes ensures Get(exact, v) == if v == u then 0.25 else 0.0 {
      OneStep(adj, q, nodes, v);
    }
    OnePositive(exact, nodes, u);
  }

  lemma OneStep(adj: Adjacency, q: Vector, nodes: set<int>, v: int)
    requires v in nodes
    ensures Get(Iterate(adj, 1.0, q, nodes, 1), v) == Get(q, v)
  {
    hide Flow;
    IterateOnce(adj, 1.0, q, nodes, 1);
    assert Blend(1.0, Get(q, v), Flow(adj, Iterate(adj, 1.0, q, nodes, 0), nodes, v)) == Get(q, v);
  }

  lemma OnePositive(x: Vector, nodes: set<int>, u: int)
    requires u in nodes && forall v :: v in nodes ==> Get(x, v) == if v == u then 0.25 else 0.0
    ensures Positive(x, nodes) == map[u := 0.25] && IsTopIds([u], map[u := 0.25], 1)
  {
    assert map[u := 0.25].Keys == {u};
  }

  /** The push lists the seed outside, the oracle the seed inside. */
  lemma MixedSeedsDiffer(adj: Adjacency, seeds: set<int>, n: nat, nodes: set<int>, s: int, u: int, rMax: real)
    requires Closed(adj, nodes) && seeds <= nodes && s in seeds && u in seeds && s !in UpTo(n) && u in UpTo(n)
    requires 0.0 < rMax && Times(rMax, |nodes| as real) < 0.25
    ensures var weights := TwoSeeds(seeds, s, u);
            && Parameters(1.0, rMax) && NonNegative(weights) && NonNegative(Personalization(weights))
            && Stopped(adj, 1.0, SeedVector(Personalization(weights), n), n, 1, 1.0, 1)
            && !SameTop(adj, 1.0, rMax, weights, n, 1, 1.0, 1, 1, [s], [u])
  {
    hide Run, Iterate, TwoSeeds, NonNegative, Personalization, SeedVector, Closed, IsTopIds, L1, ErrorBound, Positive, Times;
    hide SmallMove, Separated, Stopped;
    TwoSeedsPersonal(seeds, s, u);
    var p := TwoSeeds(seeds, s, u);
    assert s in nodes && nodes != {};
    SmallShare(rMax, |nodes|, 1);
    ReserveTop(adj, rMax, seeds, nodes, s, u);
    OracleTop(adj, seeds, n, s, u);
    var fin := Run(adj, 1.0, rMax, p);
    SubsetCard(fin.residue.Keys, nodes);
    SmallShare(rMax, |nodes|, |fin.residue.Keys|);
    OneRound(adj, SeedVector(p, n), n);
    QuarterSeparated(u, UpTo(n), ErrorBound(1.0, rMax, 1, 1.0, |fin.residue.Keys|));
    assert s in Elements([s]) && s !in Elements([u]);
  }

  lemma OneRound(adj: Adjacency, q: Vector, n: nat)
    ensures Stopped(adj, 1.0, q, n, 1, 1.0, 1)
  {
  }

  lemma QuarterSeparated(u: int, nodes: set<int>, bound: real)
    requires u in nodes && bound < 0.25
    ensures Separated(map[u := 0.25], [u], nodes, bound)
  {
    assert [u][0] in [u];
  }

  lemma SmallShare(rMax: real, m: nat, examined: nat)
    requires 0.0 < rMax && Times(rMax, m as real) < 0.25 && examined <= m
    ensures ErrorBound(1.0, rMax, 1, 1.0, examined) < 0.25
    ensures examined == 1 ==> rMax < 0.25
  {
    TimesMonotone(examined as real, m as real, rMax);
    assert Pow(0.0, 1) == 0.0 * Pow(0.0, 0) == 0.0;
  }

  /** A separated top k is found for every choice of the other arguments, whatever the weights of these seeds. */
  ghost predicate AlwaysSameTop(adj: Adjacency, seeds: set<int>, n: nat) {
    forall alpha: real, rMax: real, weights: Vector, iters: nat, tol: real, rounds: nat, k: nat, found: seq<int>,
           best: seq<int> ::
      Parameters(alpha, rMax) && NonNegative(weights) && weights.Keys == seeds && NonNegative(Personalization(weights))
      && Stopped(adj, alpha, SeedVector(Personalization(weights), n), n, iters, tol, rounds) ==>
        SameTop(adj, alpha, rMax, weights, n, iters, tol, rounds, k, found, best)
  }

  /** That is so if and only if the seeds are all in the graph, or all outside it. */
  lemma AlwaysSameTopIff(adj: Adjacency, seeds: set<int>, n: nat)
    requires Closed(adj, UpTo(n))
    ensures AlwaysSameTop(adj, seeds, n) <==> seeds <= UpTo(n) || seeds !! UpTo(n)
  {
    hide Closed, Stopped, Personalization, SameTop, NonNegative;
    if seeds <= UpTo(n) || seeds !! UpTo(n) {
      forall alpha: real, rMax: real, weights: Vector, iters: nat, tol: real, rounds: nat, k: nat, found: seq<int>,
             best: seq<int> |
        Parameters(alpha, rMax) && NonNegative(weights) && weights.Keys == seeds && NonNegative(Personalization(weights))
        && Stopped(adj, alpha, SeedVector(Personalization(weights), n), n, iters, tol, rounds)
        ensures SameTop(adj, alpha, rMax, weights, n, iters, tol, rounds, k, found, best)
      {
        if seeds <= UpTo(n) {
          SameTopInside(adj, alpha, rMax, weights, n, iters, tol, rounds, k, found, best);
        } else {
          SameTopOutside(adj, alpha, rMax, weights, n, iters, tol, rounds, k, found, best);
        }
      }
    } else {
      var s :| s in seeds && s !in UpTo(n);
      var u :| u in seeds && u in UpTo(n);
      ClosedSetExists(adj, TwoSeeds(seeds, s, u));
      var nodes :| Closed(adj, nodes) && TwoSeeds(seeds, s, u).Keys <= nodes;
      MixedDiffers(adj, seeds, n, nodes, s, u);
    }
  }

  lemma MixedDiffers(adj: Adjacency, seeds: set<int>, n: nat, nodes: set<int>, s: int, u: int)
    requires Closed(adj, nodes) && TwoSeeds(seeds, s, u).Keys <= nodes
    requires s in seeds && u in seeds && s !in UpTo(n) && u in UpTo(n)
    ensures !AlwaysSameTop(adj, seeds, n)
  {
    TwoSeedsPersonal(seeds, s, u);
    hide Closed, Stopped, Personalization, SameTop, NonNegative, TwoSeeds;
    var rMax := Tiny(|nodes|);
    MixedSeedsDiffer(adj, seeds, n, nodes, s, u, rMax);
    assert TwoSeeds(seeds, s, u).Keys == seeds;
  }

  lemma Tiny(m: nat) returns (rMax: real)
    ensures 0.0 < rMax && Times(rMax, m as real) < 0.25
  {
    rMax := 0.125 / (m + 1) as real;
    TimesMonotone(m as real, (m + 1) as real, rMax);
  }

  /** One node, no edges, and a second seed that is no node. */
  lemma SeedOutsideListed()
    ensures var weights := TwoSeeds({0, 5}, 5, 0);
            && weights == map[0 := 0.25, 5 := 0.75] && Closed(map[], UpTo(1)) && NonNegative(Personalization(weights))
            && !SameTop(map[], 1.0, 0.1, weights, 1, 1, 1.0, 1, 1, [5], [0])
  {
    assert TwoSeeds({0, 5}, 5, 0) == map[0 := 0.25, 5 := 0.75];
    MixedSeedsDiffer(map[], {0, 5}, 1, {0, 5}, 5, 0, 0.1);
  }

  /**
   On the same seeds the two results differ by at most the error bound if no walk enters the graph from a seed
   outside; and the push finds a separated top k of the oracle if the seeds are all in the graph or all outside.
   */
  method CompareOnSeeds(adj: Adjacency, seeds: seq<int>, n: nat, alpha: real, rMax: real, iters: nat, tol: real,
                        seedWeights: Option<Vector>, k: nat)
    returns (reserve: Vector, oracle: Vector, nodesExamined: nat, found: seq<int>, best: seq<int>)
    requires Parameters(alpha, rMax) && Closed(adj, UpTo(n)) && NonNegative(SeedWeights(seeds, seedWeights))
    ensures var bound := ErrorBound(alpha, rMax, iters, tol, nodesExamined);
            var seedIds := SeedWeights(seeds, seedWeights).Keys;
            && (StaysOutside(adj, seedIds, n) ==> L1(oracle, reserve, UpTo(n)) <= bound)
            && ((seedIds <= UpTo(n) || seedIds !! UpTo(n)) && |best| == k && Separated(oracle, best, UpTo(n), bound)
                ==> Elements(found) == Elements(best))
    ensures IsTopIds(found, reserve, k) && IsTopIds(best, oracle, k)
  {
    hide Closed, SeedWeights, StaysOutside, NonNegative, Personalization, Run, L1, Iterate, ErrorBound, Separated, IsTopIds, Stopped;
    var rounds;
    reserve, nodesExamined := BoundedPushPpr(adj, seeds, alpha, rMax, seedWeights);
    oracle, rounds := PowerIterationPpr(adj, seeds, n, alpha, iters, tol, seedWeights);
    found := TopkIds(reserve, k);
    best := TopkIds(oracle, k);
    ghost var weights := SeedWeights(seeds, seedWeights);
    ghost var exact := Iterate(adj, alpha, SeedVector(Personalization(weights), n), UpTo(n), rounds);
    if StaysOutside(adj, weights.Keys, n) {
      PushAgreesWithOracle(adj, alpha, rMax, weights, n, iters, tol, rounds);
      L1Symmetric(exact, reserve, UpTo(n));
      L1Cong(reserve, exact, oracle, UpTo(n));
      L1Symmetric(oracle, reserve, UpTo(n));
    }
    assert oracle == OracleResult(adj, alpha, weights, n, rounds);
    if weights.Keys <= UpTo(n) {
      SameTopInside(adj, alpha, rMax, weights, n, iters, tol, rounds, k, found, best);
    } else if weights.Keys !! UpTo(n) {
      SameTopOutside(adj, alpha, rMax, weights, n, iters, tol, rounds, k, found, best);
    }
  }
}
