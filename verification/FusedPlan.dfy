/**
 `StubDriver.run_query` of bench/driver.py: the fused plan that walks sources by
 similarity, expands and filters each in place, and stops at k rows.
 */
module FusedPlan {
  import opened Collections
  import opened Sums
  import opened Sorting
  import opened Corpora

  function Nearer(dist: map<int, real>): (int, int) -> bool {
    (a, b) => Get(dist, a) <= Get(dist, b)
  }

  lemma NearerIsPreorder(dist: map<int, real>)
    ensures TotalPreorder(Nearer(dist))
  {
  }

  /** All entities by distance to the question; equally near ones in dictionary order. */
  function RankedSources(ids: seq<int>, dist: map<int, real>): (r: seq<int>)
    ensures |r| == |ids|
  {
    Sort(ids, Nearer(dist))
  }

  lemma RankedOrder(ids: seq<int>, dist: map<int, real>)
    requires Distinct(ids)
    ensures var srcs := RankedSources(ids, dist);
            && multiset(srcs) == multiset(ids) && Distinct(srcs) && (forall s :: s in srcs <==> s in ids)
            && forall i, j :: 0 <= i < j < |srcs| ==>
                 Get(dist, srcs[i]) < Get(dist, srcs[j])
                 || (Get(dist, srcs[i]) == Get(dist, srcs[j]) && Before(ids, srcs[i], srcs[j]))
  {
    var le, srcs := Nearer(dist), RankedSources(ids, dist);
    NearerIsPreorder(dist);
    SortContents(ids, le);
    SortSorted(ids, le);
    PermutationDistinct(ids, srcs);
    SameMembers(ids, srcs);
    hide Sort, TotalPreorder;
    forall i, j | 0 <= i < j < |srcs| && Get(dist, srcs[i]) == Get(dist, srcs[j]) ensures Before(ids, srcs[i], srcs[j]) {
      assert srcs[i] in ids && srcs[j] in ids;
      var p :| 0 <= p < |ids| && ids[p] == srcs[i];
      var q :| 0 <= q < |ids| && ids[q] == srcs[j];
      assert !Before(srcs, srcs[j], srcs[i]);
      if q < p {
        SortStable(ids, le, q, p);
      }
    }
    assert forall i, j :: 0 <= i < j < |srcs| ==> le(srcs[i], srcs[j]);
  }

  /** All of `ids` by squared distance to the question, equally near ones in dictionary order. */
  ghost predicate IsDistanceOrder(srcs: seq<int>, ids: seq<int>, entities: map<int, Entity>, question: seq<real>) {
    && multiset(srcs) == multiset(ids) && (forall i :: 0 <= i < |srcs| ==> srcs[i] in entities)
    && forall i, j :: 0 <= i < j < |srcs| ==>
         var d, e := L2Sq(entities[srcs[i]].embedding, question), L2Sq(entities[srcs[j]].embedding, question);
         d < e || (d == e && Before(ids, srcs[i], srcs[j]))
  }

  lemma RankedByDistance(ids: seq<int>, entities: map<int, Entity>, q: Query)
    requires Distinct(ids) && forall i :: i in ids <==> i in entities
    ensures IsDistanceOrder(RankedSources(ids, Distances(entities, q)), ids, entities, q.embedding)
  {
    RankedOrder(ids, Distances(entities, q));
    hide L2Sq, RankedSources, Before;
    var dist, srcs := Distances(entities, q), RankedSources(ids, Distances(entities, q));
    forall i | 0 <= i < |srcs|
      ensures srcs[i] in entities && Get(dist, srcs[i]) == L2Sq(entities[srcs[i]].embedding, q.embedding)
    {
      var s := srcs[i];
      assert s in srcs && s in ids;
      assert Get(dist, s) == L2Sq(entities[s].embedding, q.embedding);
    }
  }

  /** The qualifying targets that no earlier source has produced; repeats within the list stay. */
  function Working(ents: map<int, Entity>, tr: set<int>, targets: seq<int>, seen: set<int>): (r: seq<int>)
    ensures |r| <= |targets|
    ensures forall d :: d in r <==> d in targets && d !in seen && Qualifies(ents, tr, d)
  {
    if targets == [] then []
    else
      var d := targets[|targets| - 1];
      var rest := Working(ents, tr, targets[..|targets| - 1], seen);
      assert targets == targets[..|targets| - 1] + [d];
      if d !in seen && Qualifies(ents, tr, d) then rest + [d] else rest
  }

  /** Everything the walk over `srcs` would emit if it never stopped. */
  ghost function Emitted(ents: map<int, Entity>, tr: set<int>, edges: seq<Edge>, srcs: seq<int>): seq<int>
    decreases |srcs|, 0
  {
    if srcs == [] then []
    else Emitted(ents, tr, edges, srcs[..|srcs| - 1]) + Fresh(ents, tr, edges, srcs, |srcs| - 1)
  }

  /** What source number `m` adds to what the sources before it have emitted. */
  ghost function Fresh(ents: map<int, Entity>, tr: set<int>, edges: seq<Edge>, srcs: seq<int>, m: nat): seq<int>
    requires m < |srcs|
    decreases m, 1
  {
    Working(ents, tr, Targets(edges, srcs[m]), Elements(Emitted(ents, tr, edges, srcs[..m])))
  }

  lemma {:induction false} EmittedQualify(ents: map<int, Entity>, tr: set<int>, edges: seq<Edge>, srcs: seq<int>)
    ensures forall d :: d in Emitted(ents, tr, edges, srcs) ==> Qualifies(ents, tr, d)
  {
    if srcs == [] {
    } else {
      EmittedQualify(ents, tr, edges, srcs[..|srcs| - 1]);
    }
  }

  /** The walk emits what an edge from one of its sources offers, and all of that. */
  lemma {:induction false} EmittedOffered(ents: map<int, Entity>, tr: set<int>, edges: seq<Edge>, srcs: seq<int>, d: int)
    ensures d in Emitted(ents, tr, edges, srcs) <==> IsOffered(ents, tr, edges, srcs, d)
  {
    hide Qualifies, Targets, IsOffered;
    OfferedBy(ents, tr, edges, srcs, d);
    if srcs == [] {
    } else {
      var init, last := srcs[..|srcs| - 1], srcs[|srcs| - 1];
      assert srcs == init + [last];
      EmittedOffered(ents, tr, edges, init, d);
      OfferedBy(ents, tr, edges, init, d);
      FreshIsWorking(ents, tr, edges, srcs, |srcs| - 1, Targets(edges, last));
      assert d in Emitted(ents, tr, edges, srcs)
             <==> d in Emitted(ents, tr, edges, init) || d in Fresh(ents, tr, edges, srcs, |srcs| - 1);
      assert (exists s :: s in srcs && d in Targets(edges, s))
             <==> (exists s :: s in init && d in Targets(edges, s)) || d in Targets(edges, last);
    }
  }

  /** The rows of the walk, and with fewer than k of them what is not left out. */
  lemma RowsOffered(ents: map<int, Entity>, tr: set<int>, edges: seq<Edge>, srcs: seq<int>, k: nat, m: nat, rows: seq<int>)
    requires rows == Take(Emitted(ents, tr, edges, srcs), k) && LeastFilling(ents, tr, edges, srcs, k, m)
    ensures forall d :: d in rows ==> IsOffered(ents, tr, edges, srcs[..m], d)
    ensures |rows| < k ==> forall d :: IsOffered(ents, tr, edges, srcs, d) ==> d in rows
  {
    hide Emitted, IsOffered;
    WalkEnds(ents, tr, edges, srcs, k, m, Take(Emitted(ents, tr, edges, srcs[..m]), k));
    forall d | d in rows ensures IsOffered(ents, tr, edges, srcs[..m], d) {
      EmittedOffered(ents, tr, edges, srcs[..m], d);
    }
    if |rows| < k {
      forall d | IsOffered(ents, tr, edges, srcs, d) ensures d in rows {
        EmittedOffered(ents, tr, edges, srcs, d);
      }
    }
  }

  lemma {:induction false} EmittedPrefix(ents: map<int, Entity>, tr: set<int>, edges: seq<Edge>, srcs: seq<int>, m: nat)
    requires m <= |srcs|
    ensures Emitted(ents, tr, edges, srcs[..m]) <= Emitted(ents, tr, edges, srcs)
  {
    if m == |srcs| {
      assert srcs[..m] == srcs;
    } else {
      EmittedPrefix(ents, tr, edges, srcs[..|srcs| - 1], m);
      assert srcs[..|srcs| - 1][..m] == srcs[..m];
    }
  }

  lemma EmittedNext(ents: map<int, Entity>, tr: set<int>, edges: seq<Edge>, srcs: seq<int>, m: nat)
    requires m < |srcs|
    ensures Emitted(ents, tr, edges, srcs[..m + 1])
         == Emitted(ents, tr, edges, srcs[..m]) + Fresh(ents, tr, edges, srcs, m)
  {
    assert srcs[..m + 1][..m] == srcs[..m];
  }

  /** No source has more than `d` listed targets. */
  ghost predicate OutDegreeAtMost(edges: seq<Edge>, d: nat) {
    forall s :: |Targets(edges, s)| <= d
  }

  /** `m` is the least number of nearest sources whose emission fills k rows; all of them if none does. */
  ghost predicate LeastFilling(ents: map<int, Entity>, tr: set<int>, edges: seq<Edge>, srcs: seq<int>, k: nat, m: nat) {
    && m <= |srcs|
    && (forall j :: 0 <= j < m ==> |Emitted(ents, tr, edges, srcs[..j])| < k)
    && (|Emitted(ents, tr, edges, srcs[..m])| >= k || m == |srcs|)
  }

  /** The rows in flight while source `m` is expanded: its working set and the answer so far. */
  ghost function InFlight(ents: map<int, Entity>, tr: set<int>, edges: seq<Edge>, srcs: seq<int>, m: nat): nat
    requires m < |srcs|
  {
    |Fresh(ents, tr, edges, srcs, m)| + |Emitted(ents, tr, edges, srcs[..m])|
  }

  /** `peak` is the largest number of rows in flight over the sources examined. */
  ghost predicate IsPeak(ents: map<int, Entity>, tr: set<int>, edges: seq<Edge>, srcs: seq<int>, examined: nat, peak: nat)
    requires examined <= |srcs|
  {
    && (forall m :: 0 <= m < examined ==> InFlight(ents, tr, edges, srcs, m) <= peak)
    && (peak == 0 || exists m :: 0 <= m < examined && InFlight(ents, tr, edges, srcs, m) == peak)
  }

  /** The working set of the walk is bounded by the answer and one source's fan-out. */
  lemma PeakBound(ents: map<int, Entity>, tr: set<int>, edges: seq<Edge>, srcs: seq<int>, k: nat, examined: nat,
                  peak: nat, d: nat)
    requires 0 < k && LeastFilling(ents, tr, edges, srcs, k, examined)
    requires IsPeak(ents, tr, edges, srcs, examined, peak) && OutDegreeAtMost(edges, d)
    ensures peak <= k - 1 + d
  {
  }

  /** The inline filter of one source. */
  method WorkingSet(ents: map<int, Entity>, tr: set<int>, targets: seq<int>, seen: set<int>) returns (working: seq<int>)
    ensures working == Working(ents, tr, targets, seen)
  {
    working := [];
    for i := 0 to |targets|
      invariant working == Working(ents, tr, targets[..i], seen)
    {
      var dst := targets[i];
      assert targets[..i + 1][..i] == targets[..i];
      if dst in seen {
        continue;
      }
      if dst in ents && ents[dst].timestamp in tr {
        working := working + [dst];
      }
    }
    assert targets[..|targets|] == targets;
  }

  /** Appends the working set to the answer until it has k rows. */
  method AppendUpTo(ents: map<int, Entity>, working: seq<int>, k: nat, emitted: seq<int>, seen: set<int>)
    returns (emitted': seq<int>, seen': set<int>)
    requires |emitted| < k && seen == Elements(emitted)
    requires forall d :: d in working ==> d in ents
    ensures emitted' == Take(emitted + working, k) && seen' == Elements(emitted')
  {
    emitted', seen' := emitted, seen;
    for i := 0 to |working|
      invariant emitted' == emitted + working[..i] && |emitted'| < k && seen' == Elements(emitted')
    {
      var dst := working[i];
      seen' := seen' + {dst};
      emitted' := emitted' + [dst];
      assert emitted + working[..i + 1] == emitted + working[..i] + [dst];
      if |emitted'| >= k {
        assert emitted' == (emitted + working)[..k];
        return;
      }
    }
    assert emitted + working[..|working|] == emitted + working;
  }

  /**
   The walk answers with the first k rows of the full emission, having examined the least number
   of sources that can fill them.  `rows` are the targets whose chunks are returned.
   */
  method RunQuery(corpus: Corpus, q: Query, k: nat) returns (sample: QuerySample, ghost rows: seq<int>)
    requires corpus.Valid() && 0 < k
    modifies corpus
    ensures corpus.Valid()
    ensures var srcs := RankedSources(corpus.ids, Distances(corpus.entities, q));
            && rows == Take(Emitted(corpus.entities, q.timeRange, corpus.edges, srcs), k)
            && LeastFilling(corpus.entities, q.timeRange, corpus.edges, srcs, k, sample.corpusExamined)
            && IsPeak(corpus.entities, q.timeRange, corpus.edges, srcs, sample.corpusExamined, sample.peakIntermediateRows)
    ensures var srcs := RankedSources(corpus.ids, Distances(corpus.entities, q));
            && IsDistanceOrder(srcs, corpus.ids, corpus.entities, q.embedding)
            && (forall d :: d in rows ==>
                  IsOffered(corpus.entities, q.timeRange, corpus.edges, srcs[..sample.corpusExamined], d))
            && (|rows| < k ==>
                  forall d :: IsOffered(corpus.entities, q.timeRange, corpus.edges, corpus.ids, d) ==> d in rows)
    ensures forall i :: 0 <= i < |rows| ==> rows[i] in corpus.entities
    ensures sample.resultChunks == ChunksOf(corpus.entities, rows)
    ensures sample.qid == q.qid && sample.k == k && sample.corpusSize == |corpus.ids| && sample.txnAtomic
  {
    hide Emitted, Fresh, Qualifies, RankedSources, LeastFilling, IsPeak, Elements, IsDistanceOrder, IsOffered, Distances;
    var ents, tr, edges := corpus.entities, q.timeRange, corpus.edges;
    var adj := corpus.Adjacency();
    var srcs := RankedSources(corpus.ids, Distances(ents, q));
    var emitted: seq<int> := [];
    var seen: set<int> := {};
    var examined: nat := 0;
    var peak: nat := 0;
    WalkStarts(ents, tr, edges, srcs);
    while examined < |srcs|
      invariant corpus.Valid() && examined <= |srcs| && |emitted| < k
      invariant emitted == Emitted(ents, tr, edges, srcs[..examined]) && seen == Elements(emitted)
      invariant Unfilled(ents, tr, edges, srcs, k, examined)
      invariant IsPeak(ents, tr, edges, srcs, examined, peak)
    {
      hide Unfilled;
      var src := srcs[examined];
      var targets := if src in adj then adj[src] else [];
      var working := WorkingSet(ents, tr, targets, seen);
      FreshIsWorking(ents, tr, edges, srcs, examined, targets);
      EmittedNext(ents, tr, edges, srcs, examined);
      PeakNext(ents, tr, edges, srcs, examined, peak);
      if |working| + |emitted| > peak {
        peak := |working| + |emitted|;
      }
      examined := examined + 1;
      emitted, seen := AppendUpTo(ents, working, k, emitted, seen);
      WalkNext(ents, tr, edges, srcs, k, examined);
      if |emitted| >= k {
        break;
      }
    }
    WalkEnds(ents, tr, edges, srcs, k, examined, emitted);
    rows := emitted;
    RowsAreEntities(ents, tr, edges, srcs, k, rows);
    WalkAnswers(ents, tr, edges, corpus.ids, q, k, examined, rows);
    sample := QuerySample(q.qid, k, peak, examined, |corpus.ids|, ChunksOf(ents, emitted), true);
  }

  lemma WalkAnswers(ents: map<int, Entity>, tr: set<int>, edges: seq<Edge>, ids: seq<int>, q: Query, k: nat, m: nat,
                    rows: seq<int>)
    requires Distinct(ids) && forall i :: i in ids <==> i in ents
    requires var srcs := RankedSources(ids, Distances(ents, q));
             rows == Take(Emitted(ents, tr, edges, srcs), k) && LeastFilling(ents, tr, edges, srcs, k, m)
    ensures var srcs := RankedSources(ids, Distances(ents, q));
            && IsDistanceOrder(srcs, ids, ents, q.embedding)
            && (forall d :: d in rows ==> IsOffered(ents, tr, edges, srcs[..m], d))
            && (|rows| < k ==> forall d :: IsOffered(ents, tr, edges, ids, d) ==> d in rows)
  {
    hide Emitted, RankedSources, Distances, IsDistanceOrder, LeastFilling;
    var srcs := RankedSources(ids, Distances(ents, q));
    RankedByDistance(ids, ents, q);
    RankedOrder(ids, Distances(ents, q));
    RowsOffered(ents, tr, edges, srcs, k, m, rows);
    forall d | IsOffered(ents, tr, edges, ids, d) ensures IsOffered(ents, tr, edges, srcs, d) {
      var e :| e in edges && e.0 in ids && e.1 == d;
      var s := e.0;
      assert s in ids;
      assert s in srcs;
    }
  }

  /** None of the first `m` prefixes of the sources, nor the first `m` together, fill k rows. */
  ghost predicate Unfilled(ents: map<int, Entity>, tr: set<int>, edges: seq<Edge>, srcs: seq<int>, k: nat, m: nat)
    requires m <= |srcs|
  {
    forall j :: 0 <= j <= m ==> |Emitted(ents, tr, edges, srcs[..j])| < k
  }

  lemma PeakNext(ents: map<int, Entity>, tr: set<int>, edges: seq<Edge>, srcs: seq<int>, m: nat, peak: nat)
    requires m < |srcs| && IsPeak(ents, tr, edges, srcs, m, peak)
    ensures var here := InFlight(ents, tr, edges, srcs, m);
            IsPeak(ents, tr, edges, srcs, m + 1, if here > peak then here else peak)
  {
    hide Fresh, Emitted, InFlight;
  }

  lemma WalkNext(ents: map<int, Entity>, tr: set<int>, edges: seq<Edge>, srcs: seq<int>, k: nat, m: nat)
    requires 0 < m <= |srcs| && Unfilled(ents, tr, edges, srcs, k, m - 1)
    ensures if |Emitted(ents, tr, edges, srcs[..m])| < k then Unfilled(ents, tr, edges, srcs, k, m)
            else LeastFilling(ents, tr, edges, srcs, k, m)
  {
  }

  /** The walk has stopped: k rows, or no source left. */
  lemma WalkEnds(ents: map<int, Entity>, tr: set<int>, edges: seq<Edge>, srcs: seq<int>, k: nat, m: nat, emitted: seq<int>)
    requires m <= |srcs| && emitted == Take(Emitted(ents, tr, edges, srcs[..m]), k)
    requires LeastFilling(ents, tr, edges, srcs, k, m) || (m == |srcs| && Unfilled(ents, tr, edges, srcs, k, m))
    ensures LeastFilling(ents, tr, edges, srcs, k, m) && emitted == Take(Emitted(ents, tr, edges, srcs), k)
  {
    hide Emitted;
    EmittedPrefix(ents, tr, edges, srcs, m);
    assert srcs[..|srcs|] == srcs;
  }

  lemma WalkStarts(ents: map<int, Entity>, tr: set<int>, edges: seq<Edge>, srcs: seq<int>)
    ensures Emitted(ents, tr, edges, srcs[..0]) == [] && Elements([]) == {}
    ensures IsPeak(ents, tr, edges, srcs, 0, 0)
    ensures forall k: nat :: k > 0 ==> Unfilled(ents, tr, edges, srcs, k, 0)
  {
  }

  lemma FreshIsWorking(ents: map<int, Entity>, tr: set<int>, edges: seq<Edge>, srcs: seq<int>, m: nat, targets: seq<int>)
    requires m < |srcs| && targets == Targets(edges, srcs[m])
    ensures Fresh(ents, tr, edges, srcs, m) == Working(ents, tr, targets, Elements(Emitted(ents, tr, edges, srcs[..m])))
    ensures forall d :: d in Fresh(ents, tr, edges, srcs, m) ==> d in ents
  {
  }

  lemma RowsAreEntities(ents: map<int, Entity>, tr: set<int>, edges: seq<Edge>, srcs: seq<int>, k: nat, rows: seq<int>)
    requires rows == Take(Emitted(ents, tr, edges, srcs), k)
    ensures forall i :: 0 <= i < |rows| ==> rows[i] in ents
  {
    EmittedQualify(ents, tr, edges, srcs);
    forall i | 0 <= i < |rows| ensures rows[i] in ents {
      var d := rows[i];
      assert d == Emitted(ents, tr, edges, srcs)[i];
      assert Qualifies(ents, tr, d);
    }
  }
}
