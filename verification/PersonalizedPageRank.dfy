/**
 `bounded_push_ppr` of bench/tjs_open_ref.py as it runs: two dictionaries and a heap with
 stale entries, updated step by step.
 */
module PersonalizedPageRank {
  import opened Collections
  import opened Wrappers
  import opened Sums
  import opened Sorting
  import opened Graph
  import opened Heapq
  import opened PowerModel
  import opened PushModel
  import opened PushTheorems
  import opened PushRuns

  /** Uniform weights when the caller gives none. */
  function SeedWeights(seeds: seq<int>, given: Option<Vector>): Vector {
    match given
    case Some(w) => w
    case None => map s | s in seeds :: 1.0 / (if |seeds| > 1 then |seeds| else 1) as real
  }

  /** The weights scaled to sum 1; weights that sum to 0 are left as they are. */
  ghost function Personalization(weights: Vector): Vector {
    var total := Total(weights);
    map s | s in weights :: weights[s] / (if total == 0.0 then 1.0 else total)
  }

  lemma PersonalizationMass(weights: Vector)
    requires NonNegative(weights)
    ensures NonNegative(Personalization(weights))
    ensures Total(Personalization(weights)) == if Total(weights) == 0.0 then 0.0 else 1.0
  {
    var p, total := Personalization(weights), Total(weights);
    SumNonNegative(weights, weights.Keys);
    var d := if total == 0.0 then 1.0 else total;
    forall s | s in weights
      ensures Get(p, s) == Times(1.0 / d, Get(weights, s)) + Times(0.0, Get(weights, s)) >= 0.0
    {
      assert Get(weights, s) >= 0.0;
      ScaleBy(Get(weights, s), d);
    }
    assert p.Keys == weights.Keys;
    SumLinear(1.0 / d, weights, 0.0, weights, p, weights.Keys);
    TimesZero(Total(weights));
    ScaleBy(total, d);
    if total != 0.0 {
      assert total / total == 1.0;
    }
  }

  lemma ScaleBy(x: real, d: real)
    requires d > 0.0 && x >= 0.0
    ensures x / d == Times(1.0 / d, x) + Times(0.0, x) >= 0.0
  {
  }

  /**
   What both programs start from: without weights every seed has the same share of 1, given weights are scaled
   to sum 1, and given weights that sum to 0 are taken as they are.
   */
  ghost predicate IsStart(p: Vector, seeds: seq<int>, given: Option<Vector>) {
    match given
    case None =>
      p.Keys == Elements(seeds) && forall s :: s in p ==> p[s] * |Elements(seeds)| as real == 1.0
    case Some(w) =>
      var total := Sum(w, w.Keys);
      p.Keys == w.Keys && forall s :: s in p ==> if total == 0.0 then p[s] == w[s] else p[s] * total == w[s]
  }

  lemma StartVector(seeds: seq<int>, given: Option<Vector>)
    ensures IsStart(Personalization(SeedWeights(seeds, given)), seeds, given)
    ensures given.None? && Distinct(seeds) ==>
              forall s :: s in seeds ==> Get(Personalization(SeedWeights(seeds, given)), s) == 1.0 / |seeds| as real
  {
    match given
    case None => UniformStart(seeds);
    case Some(w) => GivenStart(w);
  }

  lemma GivenStart(w: Vector)
    ensures Personalization(w).Keys == w.Keys
    ensures var total := Sum(w, w.Keys);
            forall s :: s in w ==> if total == 0.0 then Personalization(w)[s] == w[s] else Personalization(w)[s] * total == w[s]
  {
    hide Sum;
    var total := Sum(w, w.Keys);
    if total != 0.0 {
      forall s | s in w ensures Personalization(w)[s] * total == w[s] {
        TimesQuotient(w[s], total);
      }
    }
  }

  lemma TimesQuotient(x: real, y: real)
    requires y != 0.0
    ensures (x / y) * y == x
  {
  }

  lemma UniformStart(seeds: seq<int>)
    ensures IsStart(Personalization(SeedWeights(seeds, None)), seeds, None)
    ensures Distinct(seeds) ==>
              forall s :: s in seeds ==> Get(Personalization(SeedWeights(seeds, None)), s) == 1.0 / |seeds| as real
  {
    hide Sum;
    var weights, n := SeedWeights(seeds, None), |Elements(seeds)|;
    assert weights.Keys == Elements(seeds);
    if seeds != [] {
      assert seeds[0] in Elements(seeds) && n > 0;
      var unit := 1.0 / |seeds| as real;
      ConstantStart(weights, unit);
      if Distinct(seeds) {
        DistinctCard(seeds, Elements(seeds));
      }
    }
  }

  /** Equal weights, scaled to sum 1. */
  lemma ConstantStart(weights: Vector, unit: real)
    requires weights.Keys != {} && unit > 0.0 && forall s :: s in weights ==> weights[s] == unit
    ensures Personalization(weights).Keys == weights.Keys
    ensures forall s :: s in weights ==>
              Personalization(weights)[s] * |weights.Keys| as real == 1.0
              && Personalization(weights)[s] == 1.0 / |weights.Keys| as real
  {
    var n := |weights.Keys|;
    SumConstant(weights, weights.Keys, unit);
    EqualShare(unit, n);
    forall s | s in weights ensures Personalization(weights)[s] == unit / (n as real * unit) {
      Scaled(weights, n as real * unit, s);
    }
    hide Personalization;
  }

  lemma Scaled(weights: Vector, total: real, s: int)
    requires s in weights && Total(weights) == total != 0.0
    ensures Personalization(weights)[s] == weights[s] / total
  {
  }

  lemma EqualShare(unit: real, n: nat)
    requires unit > 0.0 && n > 0
    ensures n as real * unit > 0.0
    ensures (unit / (n as real * unit)) * n as real == 1.0
    ensures unit / (n as real * unit) == 1.0 / n as real
  {
    var x, y := n as real * unit, 1.0 / n as real;
    assert y * n as real == 1.0 && y * x == unit;
    assert (y * x) / x == y;
  }

  /** Every node whose residue has reached the threshold has an entry with its current residue. */
  ghost predicate HeapComplete(heap: seq<Entry>, residue: Vector, rMax: real) {
    forall v :: v in residue && residue[v] >= rMax ==> (-residue[v], v) in heap
  }

  /** `sum(seed_weights.values())`. */
  method SumValues(m: Vector) returns (total: real)
    ensures total == Total(m)
  {
    total := 0.0;
    var rest := m.Keys;
    while rest != {}
      invariant rest <= m.Keys && total + Sum(m, rest) == Total(m)
      decreases rest
    {
      var s := PopAny(rest);
      SumPick(m, rest, s);
      total := total + m[s];
      rest := rest - {s};
    }
  }

  method Normalised(weights: Vector) returns (p: Vector)
    ensures p == Personalization(weights)
  {
    var total := SumValues(weights);
    if total == 0.0 {
      total := 1.0;
    }
    p := map s | s in weights :: weights[s] / total;
  }

  /** `heapify` of the seeds' entries. */
  method SeedHeap(residue: Vector) returns (heap: seq<Entry>)
    ensures IsHeap(heap) && forall v :: v in residue ==> (-residue[v], v) in heap
  {
    heap := [];
    var rest := residue.Keys;
    while rest != {}
      invariant rest <= residue.Keys && IsHeap(heap)
      invariant forall v :: v in residue && v !in rest ==> (-residue[v], v) in heap
      decreases rest
    {
      var s := PopAny(rest);
      HeapMembers(heap, (-residue[s], s));
      heap := HeapPush(heap, (-residue[s], s));
      rest := rest - {s};
    }
  }

  /**
   The heap with lazily deleted entries makes exactly the pushes of the textbook form, in
   which every push takes the node of largest residue.
   */
  method BoundedPushPpr(adj: Adjacency, seeds: seq<int>, alpha: real, rMax: real, seedWeights: Option<Vector>)
    returns (reserve: Vector, nodesExamined: nat)
    requires Parameters(alpha, rMax) && NonNegative(SeedWeights(seeds, seedWeights))
    ensures NonNegative(Personalization(SeedWeights(seeds, seedWeights)))
    ensures IsStart(Personalization(SeedWeights(seeds, seedWeights)), seeds, seedWeights)
    ensures var fin := Run(adj, alpha, rMax, Personalization(SeedWeights(seeds, seedWeights)));
            reserve == fin.reserve && nodesExamined == |fin.residue.Keys|
  {
    hide Push, GreedyRun, Run, Budget, NonNegative, SeedWeights, Personalization, IsStart;
    StartVector(seeds, seedWeights);
    var residue := Normalised(SeedWeights(seeds, seedWeights));
    ghost var p := residue;
    PersonalizationMass(SeedWeights(seeds, seedWeights));
    RunStarts(adj, alpha, rMax, p);
    reserve := map[];
    var touched := residue.Keys;
    var heap := SeedHeap(residue);
    ghost var st := InitialState(p);
    while heap != []
      invariant NonNegative(st.reserve) && NonNegative(st.residue)
      invariant reserve == st.reserve && residue == st.residue && touched == residue.Keys
      invariant GreedyRun(adj, alpha, rMax, st) == Run(adj, alpha, rMax, p)
      invariant IsHeap(heap) && HeapComplete(heap, residue, rMax)
      decreases Budget(st.residue, alpha, rMax), |heap|
    {
      var top := heap[0];
      HeapTop(heap);
      assert [top] + heap[1..] == heap;
      heap := heap[1..];
      var u := top.1;
      var ru := Get(residue, u);
      if -top.0 != ru || ru < rMax {
        continue;
      }
      LiveEntryIsTop(residue, rMax, top, heap);
      GreedyStep(adj, alpha, rMax, st, u);
      reserve, residue, touched, heap := PushNode(adj, alpha, rMax, u, ru, reserve, residue, touched, heap, st);
      st := Push(adj, alpha, st, u);
    }
    NothingLeft(adj, alpha, rMax, st);
    nodesExamined := |touched|;
  }

  lemma RunStarts(adj: Adjacency, alpha: real, rMax: real, p: Vector)
    requires Parameters(alpha, rMax) && NonNegative(p)
    ensures NonNegative(map[]) && Run(adj, alpha, rMax, p) == GreedyRun(adj, alpha, rMax, InitialState(p))
  {
  }

  lemma NothingLeft(adj: Adjacency, alpha: real, rMax: real, st: PushState)
    requires Parameters(alpha, rMax) && NonNegative(st.reserve) && NonNegative(st.residue)
    requires HeapComplete([], st.residue, rMax)
    ensures GreedyRun(adj, alpha, rMax, st) == st
  {
  }

  lemma GreedyStep(adj: Adjacency, alpha: real, rMax: real, st: PushState, u: int)
    requires Parameters(alpha, rMax) && NonNegative(st.reserve) && NonNegative(st.residue)
    requires IsTop(st.residue, u) && st.residue[u] >= rMax
    ensures var st' := Push(adj, alpha, st, u);
            && NonNegative(st'.reserve) && NonNegative(st'.residue)
            && Budget(st'.residue, alpha, rMax) < Budget(st.residue, alpha, rMax)
            && GreedyRun(adj, alpha, rMax, st') == GreedyRun(adj, alpha, rMax, st)
  {
    TopUnique(st.residue, u);
    PushSpendsBudget(adj, alpha, rMax, st, u);
  }

  /** The body of the loop for a live entry. */
  method PushNode(adj: Adjacency, alpha: real, rMax: real, u: int, ru: real, reserve: Vector, residue: Vector,
                  touched: set<int>, heap: seq<Entry>, ghost st: PushState)
    returns (reserve': Vector, residue': Vector, touched': set<int>, heap': seq<Entry>)
    requires 0.0 < rMax && u in residue && ru == residue[u]
    requires reserve == st.reserve && residue == st.residue && touched == residue.Keys
    requires IsHeap(heap) && HeapComplete(heap, residue[u := 0.0], rMax)
    ensures reserve' == Push(adj, alpha, st, u).reserve && residue' == Push(adj, alpha, st, u).residue
    ensures touched' == residue'.Keys && IsHeap(heap') && HeapComplete(heap', residue', rMax)
  {
    var ns := Neighbours(adj, u);
    reserve' := reserve[u := Get(reserve, u) + Kept(alpha, ru)];
    residue' := residue[u := 0.0];
    touched', heap' := touched, heap;
    if |ns| == 0 {
      return;
    }
    var spread := PassedOn(alpha, ru) / |ns| as real;
    residue', touched', heap' := SpreadOut(residue', touched', heap', ns, spread, rMax);
  }

  /** A live entry at the top of a complete heap belongs to the node of largest residue. */
  lemma LiveEntryIsTop(residue: Vector, rMax: real, top: Entry, rest: seq<Entry>)
    requires 0.0 < rMax && top.1 in residue && -top.0 == residue[top.1] >= rMax
    requires HeapComplete([top] + rest, residue, rMax) && forall e :: e in [top] + rest ==> Le(top, e)
    ensures IsTop(residue, top.1)
    ensures HeapComplete(rest, residue[top.1 := 0.0], rMax)
  {
  }

  /** The inner loop: every listed neighbour gets its share, and a heap entry if it reaches the threshold. */
  method SpreadOut(residue: Vector, touched: set<int>, heap: seq<Entry>, ns: seq<int>, spread: real, rMax: real)
    returns (residue': Vector, touched': set<int>, heap': seq<Entry>)
    requires 0.0 < rMax && touched == residue.Keys && IsHeap(heap) && HeapComplete(heap, residue, rMax)
    ensures residue' == Spread(residue, ns, spread) && touched' == residue'.Keys
    ensures IsHeap(heap') && HeapComplete(heap', residue', rMax)
  {
    residue', touched', heap' := residue, touched, heap;
    for i := 0 to |ns|
      invariant residue' == Spread(residue, ns[..i], spread) && touched' == residue'.Keys
      invariant IsHeap(heap') && HeapComplete(heap', residue', rMax)
    {
      var v := ns[i];
      assert ns[..i + 1][..i] == ns[..i];
      var nv := Get(residue', v) + spread;
      residue' := residue'[v := nv];
      touched' := touched' + {v};
      if nv >= rMax {
        HeapMembers(heap', (-nv, v));
        heap' := HeapPush(heap', (-nv, v));
      }
    }
    assert ns[..|ns|] == ns;
  }
}
