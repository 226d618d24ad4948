/**
 The ANN-pruned merge, in its two implementations: `merge_canonical` of baseline/sm2.py and
 `baseline_query_canonical` of bench/live_report.py, against each other and against the exact, unpruned
 answer.
 */
module AnnPrunedMerge {
  import opened Collections
  import opened Sums
  import opened Sorting
  import opened RowOrder
  import opened Corpora
  import opened FusedPlan
  import opened MergePlan
  import opened PlanEquivalence

  /** Kept ids that the vector search surfaced, by distance; equally far ones in the order of `kept`. */
  function PrunedRanking(kept: seq<int>, found: set<int>, dist: map<int, real>): seq<int> {
    Sort(Filter(kept, found), Nearer(dist))
  }

  /** `x` is ranked before `y`. */
  ghost predicate RankedBefore(kept: seq<int>, dist: map<int, real>, x: int, y: int) {
    Get(dist, x) < Get(dist, y) || (Get(dist, x) == Get(dist, y) && Before(kept, x, y))
  }

  ghost function RankedAhead(kept: seq<int>, dist: map<int, real>, s: set<int>, y: int): set<int> {
    set x | x in s && RankedBefore(kept, dist, x, y)
  }

  lemma SortForward(xs: seq<int>, dist: map<int, real>, x: int, y: int)
    requires Distinct(xs) && x in xs && y in xs && x != y && RankedBefore(xs, dist, x, y)
    ensures Distinct(Sort(xs, Nearer(dist))) && Before(Sort(xs, Nearer(dist)), x, y)
  {
    var sorted := Sort(xs, Nearer(dist));
    NearerIsPreorder(dist);
    SortSorted(xs, Nearer(dist));
    SortContents(xs, Nearer(dist));
    PermutationDistinct(xs, sorted);
    SameMembers(xs, sorted);
    hide Sort, TotalPreorder;
    if Get(dist, x) == Get(dist, y) {
      var p, q :| 0 <= p < q < |xs| && xs[p] == x && xs[q] == y;
      SortStable(xs, Nearer(dist), p, q);
    } else {
      var r := PlaceOf(sorted, x);
      var t := PlaceOf(sorted, y);
      assert forall i, j :: 0 <= i < j < |sorted| ==> Nearer(dist)(sorted[i], sorted[j]);
    }
  }

  lemma SortBefore(xs: seq<int>, dist: map<int, real>, x: int, y: int)
    requires Distinct(xs) && x in xs && y in xs && x != y
    ensures Before(Sort(xs, Nearer(dist)), x, y) <==> RankedBefore(xs, dist, x, y)
  {
    hide Sort;
    if RankedBefore(xs, dist, x, y) {
      SortForward(xs, dist, x, y);
    } else {
      var p := PlaceOf(xs, x);
      var q := PlaceOf(xs, y);
      BeforeByPlace(xs, p, q);
      BeforeByPlace(xs, q, p);
      SortForward(xs, dist, y, x);
      DistinctBefore(Sort(xs, Nearer(dist)), y, x);
    }
  }

  lemma RankingMembers(kept: seq<int>, found: set<int>, dist: map<int, real>)
    requires Distinct(kept)
    ensures var ranking := PrunedRanking(kept, found, dist);
            Distinct(ranking) && forall x :: x in ranking <==> x in kept && x in found
  {
    hide Sort, Filter;
    FilterDistinct(kept, found);
    SortContents(Filter(kept, found), Nearer(dist));
    PermutationDistinct(Filter(kept, found), PrunedRanking(kept, found, dist));
    SameMembers(Filter(kept, found), PrunedRanking(kept, found, dist));
  }

  lemma RankingOrder(kept: seq<int>, found: set<int>, dist: map<int, real>, x: int, y: int)
    requires Distinct(kept) && x in kept && y in kept && x in found && y in found && x != y
    ensures Before(PrunedRanking(kept, found, dist), x, y) <==> RankedBefore(kept, dist, x, y)
  {
    hide Sort, Filter;
    FilterDistinct(kept, found);
    SortBefore(Filter(kept, found), dist, x, y);
    FilterBefore(kept, found, x, y);
  }

  lemma RankingAhead(kept: seq<int>, found: set<int>, dist: map<int, real>, y: int)
    requires Distinct(kept) && y in kept && y in found
    ensures Ahead(PrunedRanking(kept, found, dist), y) == RankedAhead(kept, dist, Elements(kept) * found, y)
  {
    hide PrunedRanking, Before;
    var ranking := PrunedRanking(kept, found, dist);
    RankingMembers(kept, found, dist);
    var p := PlaceOf(kept, y);
    BeforeByPlace(kept, p, p);
    var r := PlaceOf(ranking, y);
    BeforeByPlace(ranking, r, r);
    forall x | x in ranking && x != y ensures Before(ranking, x, y) <==> RankedBefore(kept, dist, x, y) {
      RankingOrder(kept, found, dist, x, y);
    }
    assert !Before(ranking, y, y) && !RankedBefore(kept, dist, y, y);
    forall x ensures x in Ahead(ranking, y) <==> x in RankedAhead(kept, dist, Elements(kept) * found, y) {
    }
  }

  // ----- the two programs -----

  /** `merge_canonical`; `kept` are the keys of the filtered dictionary. */
  method MergeCanonical(reachedDst: seq<int>, vectorDist: map<int, real>, kept: seq<int>, k: nat)
    returns (ids: seq<int>, merged: nat)
    requires Distinct(kept)
    ensures ids == Take(PrunedRanking(kept, Elements(reachedDst) * vectorDist.Keys, vectorDist), k)
    ensures merged == |Elements(kept) * Elements(reachedDst) * vectorDist.Keys|
  {
    var reached := Elements(reachedDst);
    var survivors: seq<int> := [];
    for i := 0 to |kept|
      invariant survivors == Filter(kept[..i], reached * vectorDist.Keys)
    {
      var dst := kept[i];
      assert kept[..i + 1] == kept[..i] + [dst];
      FilterNext(kept[..i], reached * vectorDist.Keys, dst);
      if dst in reached && dst in vectorDist {
        survivors := survivors + [dst];
      }
    }
    assert kept[..|kept|] == kept;
    merged := |survivors|;
    FilterDistinct(kept, reached * vectorDist.Keys);
    DistinctCard(survivors, Elements(kept) * Elements(reachedDst) * vectorDist.Keys);
    ids := Take(Sort(survivors, Nearer(vectorDist)), k);
  }

  /** The keys of the dictionary of qualifying targets of `src`, in the order of their first edge. */
  function KeptTargets(ents: map<int, Entity>, tr: set<int>, edges: seq<Edge>, src: int): (r: seq<int>)
    ensures Elements(r) == QualifyingOf(ents, tr, Targets(edges, src))
  {
    QualifyingMembers(ents, tr, Targets(edges, src));
    Dedup(QualifyingTargets(ents, tr, Targets(edges, src)))
  }

  lemma {:induction false} QualifyingMembers(ents: map<int, Entity>, tr: set<int>, targets: seq<int>)
    ensures Elements(QualifyingTargets(ents, tr, targets)) == QualifyingOf(ents, tr, targets)
  {
    if targets == [] {
    } else {
      assert targets == targets[..|targets| - 1] + [targets[|targets| - 1]];
      QualifyingMembers(ents, tr, targets[..|targets| - 1]);
    }
  }

  /** `vector_hits`: the k * 32 nearest entities with their distances, equally near ones in dictionary order. */
  function OverFetch(ids: seq<int>, dist: map<int, real>, k: nat): map<int, real> {
    map e | e in Elements(Hits(RankedSources(ids, dist), k)) :: Get(dist, e)
  }

  lemma OverFetchCount(ids: seq<int>, dist: map<int, real>, k: nat)
    requires Distinct(ids)
    ensures var srcs, found := RankedSources(ids, dist), OverFetch(ids, dist, k).Keys;
            |found| == (if 32 * k <= |ids| then 32 * k else |ids|) && found == Elements(srcs[..|found|])
    ensures forall e :: e in OverFetch(ids, dist, k) ==> OverFetch(ids, dist, k)[e] == Get(dist, e)
  {
    RankedOrder(ids, dist);
    hide RankedSources;
    var srcs := RankedSources(ids, dist);
    OverFetchKeys(ids, dist, k);
    HitsPrefix(srcs, k);
    DistinctCard(Hits(srcs, k), Elements(Hits(srcs, k)));
  }

  /** The answer: targets of `src` in the time range that were found, and with fewer than k of them all of those. */
  lemma CanonicalAnswers(ents: map<int, Entity>, tr: set<int>, edges: seq<Edge>, src: int, found: set<int>,
                         dist: map<int, real>, k: nat)
    ensures var ids := Take(PrunedRanking(KeptTargets(ents, tr, edges, src), found, dist), k);
            && Distinct(ids) && (forall d :: d in ids ==> IsOffered(ents, tr, edges, [src], d) && d in found)
            && (|ids| < k ==> forall d :: IsOffered(ents, tr, edges, [src], d) && d in found ==> d in ids)
  {
    var kept := KeptTargets(ents, tr, edges, src);
    DedupDistinct(QualifyingTargets(ents, tr, Targets(edges, src)));
    RankingMembers(kept, found, dist);
    hide PrunedRanking, KeptTargets, IsOffered, Targets, Qualifies;
    var all := PrunedRanking(kept, found, dist);
    forall d ensures d in all <==> IsOffered(ents, tr, edges, [src], d) && d in found {
      OfferedBy(ents, tr, edges, [src], d);
      assert d in kept <==> d in Elements(kept);
      assert src in [src];
    }
  }

  /** `baseline_query_canonical`, from the corpus to the answer. */
  method QueryCanonical(corpus: Corpus, q: Query, k: nat, src: int) returns (sample: QuerySample, ghost ids: seq<int>)
    requires corpus.Valid() && 0 < k
    ensures var ents, dist := corpus.entities, Distances(corpus.entities, q);
            var kept, hits := KeptTargets(ents, q.timeRange, corpus.edges, src), OverFetch(corpus.ids, dist, k);
            && ids == Take(PrunedRanking(kept, hits.Keys, dist), k)
            && sample.peakIntermediateRows == Largest(|hits|, Largest(|Targets(corpus.edges, src)|, |kept|))
    ensures var srcs, dist := RankedSources(corpus.ids, Distances(corpus.entities, q)), Distances(corpus.entities, q);
            var found := OverFetch(corpus.ids, dist, k).Keys;
            && |found| == (if 32 * k <= |corpus.ids| then 32 * k else |corpus.ids|) && Distinct(ids)
            && IsDistanceOrder(srcs, corpus.ids, corpus.entities, q.embedding) && found == Elements(srcs[..|found|])
            && (forall d :: d in ids ==>
                  IsOffered(corpus.entities, q.timeRange, corpus.edges, [src], d) && d in found)
            && (|ids| < k ==>
                  forall d :: IsOffered(corpus.entities, q.timeRange, corpus.edges, [src], d) && d in found ==> d in ids)
    ensures forall i :: 0 <= i < |ids| ==> ids[i] in corpus.entities
    ensures sample.resultChunks == ChunksOf(corpus.entities, ids)
    ensures sample.qid == q.qid && sample.k == k && sample.txnAtomic
    ensures sample.corpusExamined == sample.corpusSize == |corpus.ids|
  {
    hide Sort, Dedup, Filter, Qualifies, IsOffered, IsDistanceOrder, RankedSources, Distances, OverFetch;
    var ents, dist := corpus.entities, Distances(corpus.entities, q);
    RankedByDistance(corpus.ids, ents, q);
    OverFetchCount(corpus.ids, dist, k);
    var hits := OverFetch(corpus.ids, dist, k);
    var pairs := Targets(corpus.edges, src);
    var kept := KeptTargets(ents, q.timeRange, corpus.edges, src);
    var ranked := PrunedRanking(kept, hits.Keys, dist);
    CanonicalAnswers(ents, q.timeRange, corpus.edges, src, hits.Keys, dist, k);
    var found := DedupUpTo(ranked, k);
    RankedAreEntities(ents, q.timeRange, corpus.edges, src, hits.Keys, dist);
    DedupNothing(ranked);
    assert forall i :: 0 <= i < |found| ==> found[i] == ranked[i] && ranked[i] in ranked;
    ids := found;
    sample := QuerySample(q.qid, k, Largest(|hits|, Largest(|pairs|, |kept|)), |corpus.ids|, |corpus.ids|,
                          ChunksOf(ents, found), true);
  }

  lemma RankedAreEntities(ents: map<int, Entity>, tr: set<int>, edges: seq<Edge>, src: int, found: set<int>,
                          dist: map<int, real>)
    ensures var ranked := PrunedRanking(KeptTargets(ents, tr, edges, src), found, dist);
            Distinct(ranked) && forall x :: x in ranked ==> x in ents
  {
    hide Sort, Dedup, Filter;
    var kept := KeptTargets(ents, tr, edges, src);
    DedupDistinct(QualifyingTargets(ents, tr, Targets(edges, src)));
    RankingMembers(kept, found, dist);
    forall x | x in PrunedRanking(kept, found, dist) ensures x in ents {
      assert x in Elements(kept);
    }
  }

  // ----- against each other -----

  /**
   Two equally far ids come in the same order in both dictionaries, unless k others are ranked before the
   first of them.
   */
  ghost predicate TiesAgree(a: seq<int>, b: seq<int>, found: set<int>, dist: map<int, real>, k: nat) {
    var survivors := Elements(b) * found;
    forall x, y :: x in survivors && y in survivors && x != y && Get(dist, x) == Get(dist, y) ==>
      |RankedAhead(b, dist, survivors, x)| < k ==> (Before(a, x, y) <==> Before(b, x, y))
  }

  /** Two dictionaries with the same keys give the same answer if and only if their ties agree. */
  lemma SameAnswerIff(a: seq<int>, b: seq<int>, found: set<int>, dist: map<int, real>, k: nat)
    requires Distinct(a) && Distinct(b) && Elements(a) == Elements(b)
    ensures Take(PrunedRanking(a, found, dist), k) == Take(PrunedRanking(b, found, dist), k)
       <==> TiesAgree(a, b, found, dist, k)
  {
    hide PrunedRanking, Before, Ahead, RankedAhead;
    var ra, rb := PrunedRanking(a, found, dist), PrunedRanking(b, found, dist);
    RankingMembers(a, found, dist);
    RankingMembers(b, found, dist);
    assert forall x :: x in a <==> x in Elements(b);
    TakeSameIff(ra, rb, k);
    forall x | x in rb ensures Ahead(rb, x) == RankedAhead(b, dist, Elements(b) * found, x) {
      RankingAhead(b, found, dist, x);
    }
    forall x, y | x in rb && y in rb && x != y
      ensures Before(ra, x, y) <==> RankedBefore(a, dist, x, y)
      ensures Before(rb, x, y) <==> RankedBefore(b, dist, x, y)
    {
      RankingOrder(a, found, dist, x, y);
      RankingOrder(b, found, dist, x, y);
    }
  }

  /** The survivors that fewer than k others are ranked before. */
  ghost function EarlySurvivors(kept: seq<int>, found: set<int>, dist: map<int, real>, k: nat): set<int> {
    var survivors := Elements(kept) * found;
    set x | x in survivors && |RankedAhead(kept, dist, survivors, x)| < k
  }

  /** Both sides have the same early survivors, and equally far ones come in the same order in both dictionaries. */
  ghost predicate EarlyAgree(a: seq<int>, foundA: set<int>, b: seq<int>, foundB: set<int>, dist: map<int, real>, k: nat) {
    var early := EarlySurvivors(b, foundB, dist, k);
    && EarlySurvivors(a, foundA, dist, k) == early
    && (forall x, y :: x in early && y in early && x != y && Get(dist, x) == Get(dist, y) ==>
          (Before(a, x, y) <==> Before(b, x, y)))
  }

  lemma EarlyRanked(kept: seq<int>, found: set<int>, dist: map<int, real>, k: nat, x: int)
    requires Distinct(kept)
    ensures Early(PrunedRanking(kept, found, dist), k, x) <==> x in EarlySurvivors(kept, found, dist, k)
  {
    hide PrunedRanking, RankedAhead, Ahead;
    RankingMembers(kept, found, dist);
    if x in kept && x in found {
      RankingAhead(kept, found, dist, x);
    }
  }

  /** Two dictionaries and two over-fetches, whatever they hold, give the same answer if and only if that holds. */
  lemma TwoOverFetchesIff(a: seq<int>, foundA: set<int>, b: seq<int>, foundB: set<int>, dist: map<int, real>, k: nat)
    requires Distinct(a) && Distinct(b)
    ensures Take(PrunedRanking(a, foundA, dist), k) == Take(PrunedRanking(b, foundB, dist), k)
       <==> EarlyAgree(a, foundA, b, foundB, dist, k)
  {
    hide PrunedRanking, Before, Ahead, RankedAhead;
    var ra, rb := PrunedRanking(a, foundA, dist), PrunedRanking(b, foundB, dist);
    RankingMembers(a, foundA, dist);
    RankingMembers(b, foundB, dist);
    TakeSameEarlyIff(ra, rb, k);
    forall x ensures Early(ra, k, x) <==> x in EarlySurvivors(a, foundA, dist, k)
             ensures Early(rb, k, x) <==> x in EarlySurvivors(b, foundB, dist, k)
    {
      EarlyRanked(a, foundA, dist, k, x);
      EarlyRanked(b, foundB, dist, k, x);
    }
    forall x, y | x in ra && y in ra && x != y ensures Before(ra, x, y) <==> RankedBefore(a, dist, x, y) {
      RankingOrder(a, foundA, dist, x, y);
    }
    forall x, y | x in rb && y in rb && x != y ensures Before(rb, x, y) <==> RankedBefore(b, dist, x, y) {
      RankingOrder(b, foundB, dist, x, y);
    }
    assert forall x :: (Early(ra, k, x) ==> x in ra) && (Early(rb, k, x) ==> x in rb);
  }

  /** No element of `s` is farther than any other of `all`. */
  ghost predicate AreNearest(s: set<int>, all: set<int>, dist: map<int, real>) {
    s <= all && forall x, y :: x in s && y in all - s ==> Get(dist, x) <= Get(dist, y)
  }

  /** No two elements of `s` are equally far. */
  ghost predicate DistinctDistances(s: set<int>, dist: map<int, real>) {
    forall x, y :: x in s && y in s && x != y ==> Get(dist, x) != Get(dist, y)
  }

  lemma HitsAreNearest(ids: seq<int>, dist: map<int, real>, k: nat)
    requires Distinct(ids)
    ensures var found := OverFetch(ids, dist, k).Keys;
            AreNearest(found, Elements(ids), dist) && |found| == |Hits(ids, k)|
  {
    hide Sort, AreNearest, IsRanking, Distinct;
    var srcs := RankedSources(ids, dist);
    HitsDistinct(ids, dist, k);
    RankedIsRanking(ids, dist);
    SortContents(ids, Nearer(dist));
    SameMembers(ids, srcs);
    OverFetchKeys(ids, dist, k);
    PrefixIsNearest(srcs, |Hits(srcs, k)|, Elements(ids), dist);
  }

  lemma OverFetchKeys(ids: seq<int>, dist: map<int, real>, k: nat)
    ensures OverFetch(ids, dist, k).Keys == Elements(Hits(RankedSources(ids, dist), k))
  {
  }

  lemma PrefixIsNearest(srcs: seq<int>, m: nat, all: set<int>, dist: map<int, real>)
    requires IsRanking(srcs, dist) && m <= |srcs| && forall x :: x in srcs <==> x in all
    ensures AreNearest(Elements(srcs[..m]), all, dist) && |Elements(srcs[..m])| == m
  {
    var hits := srcs[..m];
    DistinctCard(hits, Elements(hits));
    assert forall i :: 0 <= i < m ==> hits[i] == srcs[i] && srcs[i] in srcs && srcs[i] in Elements(hits);
    forall x, y | x in Elements(hits) && y in all - Elements(hits) ensures Get(dist, x) <= Get(dist, y) {
      var i :| 0 <= i < m && hits[i] == x;
      var j :| 0 <= j < |srcs| && srcs[j] == y;
    }
  }

  /** With distinct distances there is one set of nearest entities of a size. */
  lemma NearestUnique(a: set<int>, b: set<int>, all: set<int>, dist: map<int, real>)
    requires AreNearest(a, all, dist) && AreNearest(b, all, dist) && |a| == |b| && DistinctDistances(all, dist)
    ensures a == b
  {
    assert forall x :: x in a ==> x in b || x in a - b;
    assert forall x :: x in b ==> x in a || x in b - a;
    if a - b == {} {
      SubsetCard(a, b);
    } else if b - a == {} {
      SubsetCard(b, a);
    } else {
      var x, y := Choose(a - b), Choose(b - a);
      assert false;
    }
  }

  /**
   What the three stores return for a question: the entities `src` points to, the entities nearest to the
   question with their distances, and the ids that pass the time filter in the order of the rows.
   */
  ghost predicate AreLegs(ids: seq<int>, ents: map<int, Entity>, tr: set<int>, edges: seq<Edge>, dist: map<int, real>,
                          k: nat, src: int, reachedDst: seq<int>, vectorDist: map<int, real>, kept: seq<int>)
  {
    && (forall d :: d in ents ==> (d in reachedDst <==> d in Targets(edges, src)))
    && AreNearest(vectorDist.Keys, Elements(ids), dist) && |vectorDist| == |Hits(ids, k)|
    && (forall e :: e in vectorDist ==> vectorDist[e] == Get(dist, e))
    && Distinct(kept) && Elements(kept) == QualifyingOf(ents, tr, reachedDst)
  }

  lemma LegsKeepTargets(ents: map<int, Entity>, tr: set<int>, reachedDst: seq<int>, targets: seq<int>)
    requires forall d :: d in ents ==> (d in reachedDst <==> d in targets)
    ensures QualifyingOf(ents, tr, reachedDst) == QualifyingOf(ents, tr, targets)
  {
  }

  lemma SameDistances(kept: seq<int>, reached: set<int>, vectorDist: map<int, real>, dist: map<int, real>)
    requires Elements(kept) <= reached && forall e :: e in vectorDist ==> vectorDist[e] == Get(dist, e)
    ensures PrunedRanking(kept, reached * vectorDist.Keys, vectorDist) == PrunedRanking(kept, vectorDist.Keys, dist)
  {
    hide Sort, Filter;
    FilterSame(kept, reached * vectorDist.Keys, vectorDist.Keys);
    SortSameOrder(Filter(kept, vectorDist.Keys), Nearer(vectorDist), Nearer(dist));
  }

  /**
   The two implementations, on the same question: they give the same ids if and only if the same survivors are
   early on both sides, equally far ones in the same order; with the same over-fetched entities, if and only if
   early ties agree.  With distinct distances the over-fetch is the same and the ids are.
   */
  lemma ImplementationsAgree(ids: seq<int>, ents: map<int, Entity>, tr: set<int>, edges: seq<Edge>,
                             dist: map<int, real>, k: nat, src: int, reachedDst: seq<int>,
                             vectorDist: map<int, real>, kept: seq<int>)
    requires Distinct(ids) && AreLegs(ids, ents, tr, edges, dist, k, src, reachedDst, vectorDist, kept)
    ensures var targets, found := KeptTargets(ents, tr, edges, src), OverFetch(ids, dist, k).Keys;
            var canonical := Take(PrunedRanking(targets, found, dist), k);
            var merged := Take(PrunedRanking(kept, Elements(reachedDst) * vectorDist.Keys, vectorDist), k);
            && (merged == canonical <==> EarlyAgree(kept, vectorDist.Keys, targets, found, dist, k))
            && (vectorDist.Keys == found ==> (merged == canonical <==> TiesAgree(kept, targets, found, dist, k)))
            && (DistinctDistances(Elements(ids), dist) ==> merged == canonical)
  {
    hide PrunedRanking, TiesAgree, EarlyAgree, OverFetch, Dedup, Targets;
    var targets, found := KeptTargets(ents, tr, edges, src), OverFetch(ids, dist, k).Keys;
    LegsKeepTargets(ents, tr, reachedDst, Targets(edges, src));
    DedupDistinct(QualifyingTargets(ents, tr, Targets(edges, src)));
    SameDistances(kept, Elements(reachedDst), vectorDist, dist);
    SameAnswerIff(kept, targets, found, dist, k);
    TwoOverFetchesIff(kept, vectorDist.Keys, targets, found, dist, k);
    HitsAreNearest(ids, dist, k);
    if DistinctDistances(Elements(ids), dist) {
      NearestUnique(vectorDist.Keys, found, Elements(ids), dist);
      NoTies(kept, targets, found, Elements(ids), dist, k);
    }
  }

  lemma NoTies(a: seq<int>, b: seq<int>, found: set<int>, all: set<int>, dist: map<int, real>, k: nat)
    requires found <= all && DistinctDistances(all, dist)
    ensures TiesAgree(a, b, found, dist, k)
  {
  }

  // ----- against the exact answer -----

  lemma TakeFilterIff(xs: seq<int>, s: set<int>, k: nat)
    ensures Take(Filter(xs, s), k) == Take(xs, k) <==> forall p :: 0 <= p < |xs| && p < k ==> xs[p] in s
  {
    hide Filter;
    var m := |Take(xs, k)|;
    if forall p :: 0 <= p < |xs| && p < k ==> xs[p] in s {
      FilterAll(xs[..m], s);
      FilterPrefix(xs, s, m);
      assert xs[..|xs|] == xs;
    }
    if Take(Filter(xs, s), k) == Take(xs, k) {
      forall p | 0 <= p < |xs| && p < k ensures xs[p] in s {
        assert xs[p] == Take(xs, k)[p] == Take(Filter(xs, s), k)[p] == Filter(xs, s)[p];
        assert Filter(xs, s)[p] in Filter(xs, s);
      }
    }
  }

  lemma PrunedIsFiltered(kept: seq<int>, found: set<int>, dist: map<int, real>)
    ensures PrunedRanking(kept, found, dist) == Filter(PrunedRanking(kept, Elements(kept), dist), found)
  {
    hide Filter, Sort;
    FilterAll(kept, Elements(kept));
    NearerIsPreorder(dist);
    SortFilter(kept, Nearer(dist), found);
  }

  /**
   Without any condition on the over-fetch, the pruned answer is the exact one if and only if every qualifying
   id the over-fetch missed has k qualifying ids ranked before it.
   */
  lemma PrunedAgainstExact(kept: seq<int>, found: set<int>, dist: map<int, real>, k: nat)
    requires Distinct(kept)
    ensures Take(PrunedRanking(kept, found, dist), k) == Take(PrunedRanking(kept, Elements(kept), dist), k)
       <==> forall y :: y in kept && y !in found ==> |RankedAhead(kept, dist, Elements(kept), y)| >= k
  {
    var exact := PrunedRanking(kept, Elements(kept), dist);
    PrunedIsFiltered(kept, found, dist);
    RankingMembers(kept, Elements(kept), dist);
    hide PrunedRanking, RankedAhead, Ahead, Filter;
    TakeFilterIff(exact, found, k);
    assert Elements(kept) * Elements(kept) == Elements(kept);
    forall p | 0 <= p < |exact| ensures exact[p] in kept && |RankedAhead(kept, dist, Elements(kept), exact[p])| == p {
      assert exact[p] in exact;
      RankingAhead(kept, Elements(kept), dist, exact[p]);
      AheadOfPlace(exact, p);
    }
    forall y | y in kept ensures exists p :: 0 <= p < |exact| && exact[p] == y {
      assert y in exact;
    }
  }

  /** A missed id comes after every equally far one that was found. */
  ghost predicate MissedListedLater(kept: seq<int>, found: set<int>, dist: map<int, real>) {
    forall x, y :: x in kept && y in kept && x in found && y !in found && Get(dist, x) == Get(dist, y) ==>
      Before(kept, x, y)
  }

  /**
   When what the over-fetch missed is nowhere nearer than what it found, the pruned ranking is a prefix of the
   exact one if and only if no missed id is listed before an equally far found one; and then the answers are
   equal if and only if k ids, or all of them, were found.
   */
  lemma PrunedPrefixIff(kept: seq<int>, found: set<int>, dist: map<int, real>, k: nat)
    requires Distinct(kept)
    requires forall x, y :: x in kept && y in kept && x in found && y !in found ==> Get(dist, x) <= Get(dist, y)
    ensures var pruned, exact := PrunedRanking(kept, found, dist), PrunedRanking(kept, Elements(kept), dist);
            && (pruned <= exact <==> MissedListedLater(kept, found, dist))
            && (pruned <= exact ==>
                  (Take(pruned, k) == Take(exact, k) <==> |pruned| >= k || Elements(kept) <= found))
  {
    var pruned, exact := PrunedRanking(kept, found, dist), PrunedRanking(kept, Elements(kept), dist);
    PrunedIsFiltered(kept, found, dist);
    RankingMembers(kept, Elements(kept), dist);
    RankingMembers(kept, found, dist);
    hide PrunedRanking, Filter, Before;
    forall x, y | x in kept && y in kept && x in found && y !in found
      ensures Before(exact, x, y) <==> Get(dist, x) < Get(dist, y) || Before(kept, x, y)
    {
      RankingOrder(kept, Elements(kept), dist, x, y);
    }
    FrontIff(exact, found);
    assert pruned == exact <==> Elements(kept) <= found by {
      if Elements(kept) <= found {
        FilterAll(exact, found);
      }
      if pruned == exact {
        assert forall x :: x in kept ==> x in exact && x in pruned;
      }
    }
    if pruned <= exact && pruned != exact && Take(pruned, k) == Take(exact, k) {
      assert |pruned| < |exact|;
    }
  }

  lemma FrontIff(xs: seq<int>, s: set<int>)
    requires Distinct(xs)
    ensures Filter(xs, s) <= xs <==> forall x, y :: x in xs && y in xs && x in s && y !in s ==> Before(xs, x, y)
  {
    var f := Filter(xs, s);
    if f <= xs {
      forall x, y | x in xs && y in xs && x in s && y !in s ensures Before(xs, x, y) {
        assert forall p :: 0 <= p < |f| ==> xs[p] == f[p] && f[p] in f;
        assert x in f;
        var i :| 0 <= i < |f| && f[i] == x;
        var j := PlaceOf(xs, y);
      }
    }
    if forall x, y :: x in xs && y in xs && x in s && y !in s ==> Before(xs, x, y) {
      forall p, q | 0 <= p < q < |xs| && xs[q] in s ensures xs[p] in s {
        if xs[p] !in s {
          BeforeByPlace(xs, q, p);
          assert false;
        }
      }
      FilterFront(xs, s);
    }
  }

  lemma {:induction false} FilterFront(xs: seq<int>, s: set<int>)
    requires forall p, q :: 0 <= p < q < |xs| && xs[q] in s ==> xs[p] in s
    ensures Filter(xs, s) <= xs
  {
    if xs == [] {
    } else {
      var init, last := xs[..|xs| - 1], xs[|xs| - 1];
      if last in s {
        FilterAll(init, s);
        assert xs == init + [last];
      } else {
        FilterFront(init, s);
      }
    }
  }
}
