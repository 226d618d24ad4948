/**
 `baseline_query_inprocess` of bench/harness.py: over-fetch the nearest sources, join,
 filter, sort by source distance, dedup, take k.
 */
module MergePlan {
  import opened Collections
  import opened Sums
  import opened Sorting
  import opened Corpora
  import opened FusedPlan

  /** `BASELINE_ANN_FANOUT`. */
  const ANN_FANOUT: nat := 32

  function Hits(srcs: seq<int>, k: nat): seq<int> {
    Take(srcs, k * ANN_FANOUT)
  }

  /** The edges that survive join and filter: source among the hits, target qualifying. */
  function KeptEdges(ents: map<int, Entity>, tr: set<int>, edges: seq<Edge>, hits: seq<int>): (r: seq<Edge>)
    ensures |r| <= |edges|
    ensures forall e :: e in r <==> e in edges && e.0 in hits && Qualifies(ents, tr, e.1)
  {
    if edges == [] then []
    else
      var e := edges[|edges| - 1];
      var rest := KeptEdges(ents, tr, edges[..|edges| - 1], hits);
      assert edges == edges[..|edges| - 1] + [e];
      if e.0 in hits && Qualifies(ents, tr, e.1) then rest + [e] else rest
  }

  /** `candidates.sort(key=lambda x: x[0])`: by source distance, stable. */
  function BySource(dist: map<int, real>): (Edge, Edge) -> bool {
    (a: Edge, b: Edge) => Get(dist, a.0) <= Get(dist, b.0)
  }

  function Dsts(es: seq<Edge>): (r: seq<int>)
    ensures |r| == |es| && forall i :: 0 <= i < |es| ==> r[i] == es[i].1
  {
    seq(|es|, i requires 0 <= i < |es| => es[i].1)
  }

  /** All rows of the materialised plan over the given hits, in answer order. */
  function Merged(ents: map<int, Entity>, tr: set<int>, edges: seq<Edge>, dist: map<int, real>, hits: seq<int>): seq<int> {
    Dedup(Dsts(Sort(KeptEdges(ents, tr, edges, hits), BySource(dist))))
  }

  /** The joined pairs, before the filter. */
  function Joined(edges: seq<Edge>, hits: seq<int>): (r: seq<Edge>)
    ensures forall e :: e in r <==> e in edges && e.0 in hits
  {
    if edges == [] then []
    else
      var e := edges[|edges| - 1];
      var rest := Joined(edges[..|edges| - 1], hits);
      assert edges == edges[..|edges| - 1] + [e];
      if e.0 in hits then rest + [e] else rest
  }

  function Filtered(ents: map<int, Entity>, tr: set<int>, pairs: seq<Edge>): (r: seq<Edge>)
    ensures |r| <= |pairs|
    ensures forall e :: e in r ==> Qualifies(ents, tr, e.1)
  {
    if pairs == [] then []
    else
      var e := pairs[|pairs| - 1];
      var rest := Filtered(ents, tr, pairs[..|pairs| - 1]);
      if Qualifies(ents, tr, e.1) then rest + [e] else rest
  }

  lemma {:induction false} JoinThenFilter(ents: map<int, Entity>, tr: set<int>, edges: seq<Edge>, hits: seq<int>)
    ensures Filtered(ents, tr, Joined(edges, hits)) == KeptEdges(ents, tr, edges, hits)
  {
    if edges != [] {
      JoinThenFilter(ents, tr, edges[..|edges| - 1], hits);
    } else {
    }
  }

  function Largest(a: nat, b: nat): (r: nat)
    ensures r >= a && r >= b && (r == a || r == b)
  {
    if a >= b then a else b
  }

  lemma HitsPrefix(srcs: seq<int>, k: nat)
    ensures |Hits(srcs, k)| == (if 32 * k <= |srcs| then 32 * k else |srcs|) && Hits(srcs, k) == srcs[..|Hits(srcs, k)|]
  {
  }

  lemma DstsMember(es: seq<Edge>, d: int)
    ensures d in Dsts(es) <==> exists e :: e in es && e.1 == d
  {
    if d in Dsts(es) {
      var i :| 0 <= i < |es| && Dsts(es)[i] == d;
      assert es[i] in es;
    }
    if e :| e in es && e.1 == d {
      var i :| 0 <= i < |es| && es[i] == e;
      assert Dsts(es)[i] == d;
    }
  }

  /** The merge lists what an edge from one of the hits offers, and all of that. */
  lemma MergedOffered(ents: map<int, Entity>, tr: set<int>, edges: seq<Edge>, dist: map<int, real>, hits: seq<int>, d: int)
    ensures d in Merged(ents, tr, edges, dist, hits) <==> IsOffered(ents, tr, edges, hits, d)
  {
    hide Sort, Dedup, KeptEdges;
    var kept := KeptEdges(ents, tr, edges, hits);
    var sorted := Sort(kept, BySource(dist));
    SortContents(kept, BySource(dist));
    SameMembers(kept, sorted);
    DstsMember(sorted, d);
    if e :| e in edges && e.0 in hits && e.1 == d && Qualifies(ents, tr, d) {
      assert e in kept;
      assert e in sorted;
    }
    if e :| e in sorted && e.1 == d {
      assert e in kept;
    }
  }

  /** The rows of the merge, and with fewer than k of them what is not left out. */
  lemma MergeAnswers(ents: map<int, Entity>, tr: set<int>, edges: seq<Edge>, dist: map<int, real>, hits: seq<int>, k: nat)
    ensures var rows := Take(Merged(ents, tr, edges, dist, hits), k);
            && Distinct(rows) && (forall d :: d in rows ==> IsOffered(ents, tr, edges, hits, d))
            && (|rows| < k ==> forall d :: IsOffered(ents, tr, edges, hits, d) ==> d in rows)
  {
    DedupDistinct(Dsts(Sort(KeptEdges(ents, tr, edges, hits), BySource(dist))));
    assert Distinct(Merged(ents, tr, edges, dist, hits));
    hide Merged, IsOffered;
    var all := Merged(ents, tr, edges, dist, hits);
    forall d ensures d in all <==> IsOffered(ents, tr, edges, hits, d) {
      MergedOffered(ents, tr, edges, dist, hits, d);
    }
  }

  /** The app-side loop: keep first occurrences, stop at k. */
  method DedupUpTo(ds: seq<int>, k: nat) returns (rows: seq<int>)
    requires 0 < k
    ensures rows == Take(Dedup(ds), k)
  {
    hide Dedup;
    rows := [];
    var seen: set<int> := {};
    DedupNone();
    for i := 0 to |ds|
      invariant ds[..0] == [] && rows == Dedup(ds[..i]) && |rows| < k && seen == Elements(rows)
    {
      var d := ds[i];
      DedupNext(ds, i);
      if d !in seen {
        seen := seen + {d};
        rows := rows + [d];
      }
      if |rows| >= k {
        DedupPrefix(ds, i + 1);
        return;
      }
    }
    assert ds[..|ds|] == ds;
  }

  /** The materialise-and-merge plan answers with the first k merged rows. */
  method BaselineQuery(corpus: Corpus, q: Query, k: nat) returns (sample: QuerySample, ghost rows: seq<int>)
    requires corpus.Valid() && 0 < k
    ensures var dist := Distances(corpus.entities, q);
            var hits := Hits(RankedSources(corpus.ids, dist), k);
            && rows == Take(Merged(corpus.entities, q.timeRange, corpus.edges, dist, hits), k)
            && sample.peakIntermediateRows == Largest(|hits|, |Joined(corpus.edges, hits)|)
    ensures var srcs := RankedSources(corpus.ids, Distances(corpus.entities, q));
            var hits := Hits(srcs, k);
            && IsDistanceOrder(srcs, corpus.ids, corpus.entities, q.embedding) && hits == srcs[..|hits|]
            && |hits| == (if 32 * k <= |corpus.ids| then 32 * k else |corpus.ids|)
            && Distinct(rows) && (forall d :: d in rows ==> IsOffered(corpus.entities, q.timeRange, corpus.edges, hits, d))
            && (|rows| < k ==>
                  forall d :: IsOffered(corpus.entities, q.timeRange, corpus.edges, hits, d) ==> d in rows)
    ensures forall i :: 0 <= i < |rows| ==> rows[i] in corpus.entities
    ensures sample.resultChunks == ChunksOf(corpus.entities, rows)
    ensures sample.qid == q.qid && sample.k == k && sample.txnAtomic
    ensures sample.corpusExamined == sample.corpusSize == |corpus.ids|
  {
    hide IsOffered, IsDistanceOrder, Dedup, Sort, RankedSources, Distances, KeptEdges;
    var ents, tr, edges := corpus.entities, q.timeRange, corpus.edges;
    var dist := Distances(ents, q);
    var hits := Hits(RankedSources(corpus.ids, dist), k);
    var pairs := Joined(edges, hits);
    JoinThenFilter(ents, tr, edges, hits);
    var candidates := Filtered(ents, tr, pairs);
    var ordered := Sort(candidates, BySource(dist));
    var found := DedupUpTo(Dsts(ordered), k);
    forall i | 0 <= i < |found| ensures found[i] in ents {
      SortContents(candidates, BySource(dist));
      SameMembers(candidates, ordered);
      assert found[i] in Dedup(Dsts(ordered));
      var j :| 0 <= j < |ordered| && Dsts(ordered)[j] == found[i];
      assert ordered[j] in candidates;
    }
    RankedByDistance(corpus.ids, ents, q);
    HitsPrefix(RankedSources(corpus.ids, dist), k);
    MergeAnswers(ents, tr, edges, dist, hits, k);
    var peak := Largest(Largest(|hits|, |pairs|), |candidates|);
    rows := found;
    sample := QuerySample(q.qid, k, peak, |corpus.ids|, |corpus.ids|, ChunksOf(ents, found), true);
  }
}
