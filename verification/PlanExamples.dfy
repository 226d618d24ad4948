/** Corpora with pairwise distinct chunks on which the plans give different answers. */
module PlanExamples {
  import opened Collections
  import opened Sums
  import opened Sorting
  import opened Corpora
  import opened FusedPlan
  import opened MergePlan
  import opened PlanEquivalence
  import opened AnswerSets
  import opened AnnPrunedMerge

  /** A chunk text for every number. */
  function Text(i: nat): (r: string)
    ensures |r| == i
  {
    seq(i, _ => 'c')
  }

  /** The entities 0 .. n-1, all of one timestamp and equally far from every question, each with a chunk of its own. */
  function Plain(n: nat): map<int, Entity> {
    map i | 0 <= i < n :: Entity(0, Text(i), [])
  }

  const QUESTION: Query := Query(0, [], {0})

  function AllTied(n: nat): map<int, real> {
    Distances(Plain(n), QUESTION)
  }

  lemma PlainChunks(n: nat)
    ensures DistinctChunks(Plain(n))
    ensures forall i: nat :: i < n ==> Plain(n)[i].chunk == Text(i)
    ensures forall i :: Get(AllTied(n), i) == 0.0
    ensures forall i :: Qualifies(Plain(n), {0}, i) <==> 0 <= i < n
  {
    forall i, j | 0 <= i < n && 0 <= j < n && i != j ensures Plain(n)[i].chunk != Plain(n)[j].chunk {
      assert |Text(i)| != |Text(j)|;
    }
  }

  lemma {:induction false} TiedSort<T(!new)>(xs: seq<T>, le: (T, T) -> bool)
    requires forall a, b :: le(a, b)
    ensures Sort(xs, le) == xs
  {
    if xs == [] {
    } else {
      var init, last := xs[..|xs| - 1], xs[|xs| - 1];
      TiedSort(init, le);
      assert xs == init + [last];
    }
  }

  lemma TiedSources(n: nat, ids: seq<int>)
    ensures RankedSources(ids, AllTied(n)) == ids
  {
    PlainChunks(n);
    TiedSort(ids, Nearer(AllTied(n)));
  }

  /** With everything tied, the merge keeps edge order. */
  lemma TiedMerge(n: nat, edges: seq<Edge>, hits: seq<int>)
    ensures Merged(Plain(n), {0}, edges, AllTied(n), hits) == Dedup(Dsts(KeptEdges(Plain(n), {0}, edges, hits)))
  {
    PlainChunks(n);
    TiedSort(KeptEdges(Plain(n), {0}, edges, hits), BySource(AllTied(n)));
  }

  lemma {:induction false} AllKept(n: nat, edges: seq<Edge>, hits: seq<int>)
    requires forall e :: e in edges ==> e.0 in hits && 0 <= e.1 < n
    ensures KeptEdges(Plain(n), {0}, edges, hits) == edges
  {
    if edges == [] {
    } else {
      var init, last := edges[..|edges| - 1], edges[|edges| - 1];
      assert edges == init + [last];
      AllKept(n, init, hits);
      PlainChunks(n);
    }
  }

  /** Over a source whose targets all qualify and are new, the walk emits them as they are listed. */
  lemma {:induction false} AllWorking(n: nat, targets: seq<int>, known: set<int>)
    requires forall d :: d in targets ==> 0 <= d < n && d !in known
    ensures Working(Plain(n), {0}, targets, known) == targets
  {
    if targets == [] {
    } else {
      var init, last := targets[..|targets| - 1], targets[|targets| - 1];
      assert targets == init + [last];
      assert forall d :: d in init ==> d in targets;
      AllWorking(n, init, known);
      PlainChunks(n);
    }
  }

  lemma WalkOn(n: nat, edges: seq<Edge>, srcs: seq<int>, m: nat, before: seq<int>)
    requires m < |srcs| && Emitted(Plain(n), {0}, edges, srcs[..m]) == before
    requires forall d :: d in Targets(edges, srcs[m]) ==> 0 <= d < n && d !in before
    ensures Emitted(Plain(n), {0}, edges, srcs[..m + 1]) == before + Targets(edges, srcs[m])
  {
    hide Emitted, Fresh, Targets;
    var ts := Targets(edges, srcs[m]);
    EmittedNext(Plain(n), {0}, edges, srcs, m);
    FreshIsWorking(Plain(n), {0}, edges, srcs, m, ts);
    AllWorking(n, ts, Elements(before));
  }

  /** Sources without targets emit nothing. */
  lemma {:induction false} SilentSources(n: nat, edges: seq<Edge>, srcs: seq<int>, m: nat, before: seq<int>, to: nat)
    requires m <= to <= |srcs| && Emitted(Plain(n), {0}, edges, srcs[..m]) == before
    requires forall i :: m <= i < to ==> Targets(edges, srcs[i]) == []
    ensures Emitted(Plain(n), {0}, edges, srcs[..to]) == before
  {
    hide Emitted, Targets;
    if m == to {
    } else {
      SilentSources(n, edges, srcs, m, before, to - 1);
      WalkOn(n, edges, srcs, to - 1, before);
    }
  }

  // ----- the walk spends a row on a parallel edge -----

  const PARALLEL: seq<Edge> := [(0, 1), (0, 1), (0, 2)]

  /** A target listed twice takes two of the two rows of the walk; the merge has room for the third listing. */
  lemma ParallelEdgesDiffer()
    ensures MergedRows(Positions(3), Plain(3), {0}, PARALLEL, AllTied(3), 2) == [1, 2]
    ensures FusedRows(Positions(3), Plain(3), {0}, PARALLEL, AllTied(3), 2) == [1, 1]
    ensures ChunkSet(Plain(3), [1, 2]) != ChunkSet(Plain(3), [1, 1])
  {
    hide Emitted, Merged, Plain, AllTied, RankedSources, ChunkSet;
    TiedSources(3, Positions(3));
    ParallelMerge();
    ParallelWalk();
    RowsTell(3, [1, 2], [1, 1], 2);
  }

  lemma ParallelMerge()
    ensures Merged(Plain(3), {0}, PARALLEL, AllTied(3), Positions(3)) == [1, 2]
  {
    hide Merged, KeptEdges, Plain, AllTied, Dedup;
    TiedMerge(3, PARALLEL, Positions(3));
    AllKept(3, PARALLEL, Positions(3));
    assert Dsts(PARALLEL) == [1, 1, 2];
    DedupTriple();
  }

  lemma ParallelWalk()
    ensures Emitted(Plain(3), {0}, PARALLEL, Positions(3)) == [1, 1, 2]
  {
    hide Emitted, Targets, Plain;
    var ids := Positions(3);
    ParallelTargets();
    WalkStarts(Plain(3), {0}, PARALLEL, ids);
    WalkOn(3, PARALLEL, ids, 0, []);
    SilentSources(3, PARALLEL, ids, 1, [1, 1, 2], 3);
    assert ids[..3] == ids;
  }

  lemma ParallelTargets()
    ensures Targets(PARALLEL, 0) == [1, 1, 2] && forall s :: s != 0 ==> Targets(PARALLEL, s) == []
  {
    assert PARALLEL[..2] == [(0, 1), (0, 1)] && PARALLEL[..2][..1] == [(0, 1)];
    forall s ensures Targets(PARALLEL, s) == if s == 0 then [1, 1, 2] else [] {
      assert Targets([(0, 1)], s) == if s == 0 then [1] else [];
      assert Targets([(0, 1), (0, 1)], s) == if s == 0 then [1, 1] else [];
    }
  }

  lemma DedupTriple()
    ensures Dedup([1, 1, 2]) == [1, 2]
  {
    assert [1, 1, 2][..2] == [1, 1] && [1, 1][..1] == [1];
    assert Dedup([1, 1]) == [1];
  }

  /** A row of one list that the other lacks shows in the chunks. */
  lemma RowsTell(n: nat, a: seq<int>, b: seq<int>, d: int)
    requires (forall x :: x in a + b ==> 0 <= x < n) && d in a && d !in b
    ensures ChunkSet(Plain(n), a) != ChunkSet(Plain(n), b)
  {
    PlainChunks(n);
    assert forall x :: (x in a ==> x in a + b) && (x in b ==> x in a + b);
    ChunksTellRows(Plain(n), a, b);
    assert d in Elements(a) && d !in Elements(b);
  }

  // ----- equally near sources whose edges are listed the other way round -----

  const CROSSED: seq<Edge> := [(1, 2), (0, 3)]

  lemma InconsistentTiesDiffer()
    ensures MergedRows(Positions(4), Plain(4), {0}, CROSSED, AllTied(4), 1) == [2]
    ensures FusedRows(Positions(4), Plain(4), {0}, CROSSED, AllTied(4), 1) == [3]
    ensures ChunkSet(Plain(4), [2]) != ChunkSet(Plain(4), [3])
  {
    hide Emitted, Merged, Plain, AllTied, RankedSources, ChunkSet;
    TiedSources(4, Positions(4));
    CrossedMerge();
    CrossedWalk();
    RowsTell(4, [2], [3], 2);
  }

  lemma CrossedMerge()
    ensures Merged(Plain(4), {0}, CROSSED, AllTied(4), Positions(4)) == [2, 3]
  {
    hide Merged, KeptEdges, Plain, AllTied, Dedup;
    TiedMerge(4, CROSSED, Positions(4));
    AllKept(4, CROSSED, Positions(4));
    assert Dsts(CROSSED) == [2, 3];
    DedupPair(2, 3);
  }

  lemma CrossedWalk()
    ensures Emitted(Plain(4), {0}, CROSSED, Positions(4)) == [3, 2]
  {
    hide Emitted, Targets, Plain;
    var ids := Positions(4);
    CrossedTargets();
    WalkStarts(Plain(4), {0}, CROSSED, ids);
    WalkOn(4, CROSSED, ids, 0, []);
    WalkOn(4, CROSSED, ids, 1, [3]);
    SilentSources(4, CROSSED, ids, 2, [3, 2], 4);
    assert ids[..4] == ids;
  }

  lemma CrossedTargets()
    ensures Targets(CROSSED, 0) == [3] && Targets(CROSSED, 1) == [2]
    ensures forall s :: s != 0 && s != 1 ==> Targets(CROSSED, s) == []
  {
    assert CROSSED[..1] == [(1, 2)];
    forall s ensures Targets([(1, 2)], s) == if s == 1 then [2] else [] {
    }
  }

  lemma DedupPair(a: int, b: int)
    ensures Dedup([a, b]) == if a == b then [a] else [a, b]
  {
  }

  // ----- a row that only a source beyond the over-fetch reaches -----

  const FAR: seq<Edge> := [(ANN_FANOUT, 0)]

  /** The only edge starts at entity 32, equally near but last: the over-fetch of k * 32 sources misses it. */
  lemma OverFetchMisses()
    ensures MergedRows(Positions(33), Plain(33), {0}, FAR, AllTied(33), 1) == []
    ensures FusedRows(Positions(33), Plain(33), {0}, FAR, AllTied(33), 1) == [0]
    ensures SameEarlyRows(Plain(33), {0}, FAR, AllTied(33), Hits(Positions(33), 1), 1)
    ensures ChunkSet(Plain(33), []) != ChunkSet(Plain(33), [0])
  {
    hide Emitted, Merged, Plain, AllTied, RankedSources, ChunkSet, SameEarlyRows;
    TiedSources(33, Positions(33));
    FarMerge();
    FarWalk();
    RowsTell(33, [0], [], 0);
    NothingEarly(Hits(Positions(33), 1));
  }

  lemma FarWalk()
    ensures Emitted(Plain(33), {0}, FAR, Positions(33)) == [0]
  {
    hide Emitted, Targets, Plain;
    var ids := Positions(33);
    FarTargets();
    WalkStarts(Plain(33), {0}, FAR, ids);
    SilentSources(33, FAR, ids, 0, [], 32);
    WalkOn(33, FAR, ids, 32, []);
    assert ids[..33] == ids;
  }

  lemma FarTargets()
    ensures Targets(FAR, 32) == [0] && forall s :: s != 32 ==> Targets(FAR, s) == []
  {
  }

  lemma FarMerge()
    ensures Merged(Plain(33), {0}, FAR, AllTied(33), Hits(Positions(33), 1)) == []
  {
    var hits := Hits(Positions(33), 1);
    TiedMerge(33, FAR, hits);
    assert 32 !in hits;
    assert KeptEdges(Plain(33), {0}, FAR, hits) == [] by {
      assert FAR[..0] == [];
    }
    assert Dsts([]) == [];
  }

  lemma NothingEarly(hits: seq<int>)
    requires 32 !in hits
    ensures SameEarlyRows(Plain(33), {0}, FAR, AllTied(33), hits, 1)
  {
    FarTargets();
    assert forall s :: s in hits ==> Targets(FAR, s) == [];
  }

  // ----- the two pruned merges -----

  const TIED_EDGES: seq<Edge> := [(0, 2), (0, 1)]

  /** Two equally far targets: one implementation meets them in edge order, the other in row order. */
  lemma TiedIdsDiffer()
    ensures var targets := KeptTargets(Plain(3), {0}, TIED_EDGES, 0);
            && targets == [2, 1] && Elements([1, 2]) == Elements(targets)
            && Take(PrunedRanking(targets, {1, 2}, AllTied(3)), 1) == [2]
            && Take(PrunedRanking([1, 2], {1, 2}, AllTied(3)), 1) == [1]
            && ChunkSet(Plain(3), [2]) != ChunkSet(Plain(3), [1])
  {
    hide PrunedRanking, KeptTargets, Plain, AllTied, ChunkSet;
    TiedTargets();
    TiedRanking(1, 2);
    TiedRanking(2, 1);
    assert {2, 1} == {1, 2};
    RowsTell(3, [2], [1], 2);
  }

  lemma TiedRanking(a: int, b: int)
    ensures Take(PrunedRanking([a, b], {a, b}, AllTied(3)), 1) == [a]
  {
    FilterAll([a, b], {a, b});
    PlainChunks(3);
    SortPair(a, b, Nearer(AllTied(3)));
  }

  lemma TiedTargets()
    ensures KeptTargets(Plain(3), {0}, TIED_EDGES, 0) == [2, 1]
  {
    assert TIED_EDGES[..1] == [(0, 2)] && [2, 1][..1] == [2];
    assert Targets([(0, 2)], 0) == [2] && Targets(TIED_EDGES, 0) == [2, 1];
    PlainChunks(3);
    hide Plain;
    assert QualifyingTargets(Plain(3), {0}, [2]) == [2];
    assert QualifyingTargets(Plain(3), {0}, [2, 1]) == [2, 1];
    DedupPair(2, 1);
  }
}
