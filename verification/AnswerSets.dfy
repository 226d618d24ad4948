/**
 The fused walk against the materialised merge as answer sets: exactly when the two plans return the same set
 of rows, and the same set of chunks.
 */
module AnswerSets {
  import opened Collections
  import opened Sorting
  import opened Corpora
  import opened FusedPlan
  import opened MergePlan
  import opened RowOrder
  import opened EdgeOrder
  import opened PlanEquivalence

  /** The rows of the materialised plan. */
  function MergedRows(ids: seq<int>, ents: map<int, Entity>, tr: set<int>, edges: seq<Edge>, dist: map<int, real>,
                      k: nat): seq<int> {
    Take(Merged(ents, tr, edges, dist, Hits(RankedSources(ids, dist), k)), k)
  }

  /** The rows of the fused plan. */
  ghost function FusedRows(ids: seq<int>, ents: map<int, Entity>, tr: set<int>, edges: seq<Edge>, dist: map<int, real>,
                           k: nat): seq<int> {
    Take(Emitted(ents, tr, edges, RankedSources(ids, dist)), k)
  }

  // ----- how many rows the walk has emitted, counted on the edges -----

  /** The listings of qualifying targets that are not in `known`, repetitions included. */
  function NewListings(ents: map<int, Entity>, tr: set<int>, targets: seq<int>, known: set<int>): nat {
    if targets == [] then 0
    else
      var d := targets[|targets| - 1];
      NewListings(ents, tr, targets[..|targets| - 1], known) + if d !in known && Qualifies(ents, tr, d) then 1 else 0
  }

  lemma {:induction false} WorkingCounted(ents: map<int, Entity>, tr: set<int>, targets: seq<int>, known: set<int>)
    ensures |Working(ents, tr, targets, known)| == NewListings(ents, tr, targets, known)
  {
    if targets != [] {
      WorkingCounted(ents, tr, targets[..|targets| - 1], known);
    } else {
    }
  }

  /** Every source adds the listings of targets that no nearer source reaches. */
  function RowsFrom(ents: map<int, Entity>, tr: set<int>, edges: seq<Edge>, srcs: seq<int>): nat {
    if srcs == [] then 0
    else
      var nearer, s := srcs[..|srcs| - 1], srcs[|srcs| - 1];
      RowsFrom(ents, tr, edges, nearer) + NewListings(ents, tr, Targets(edges, s), Reached(ents, tr, edges, nearer))
  }

  lemma {:induction false} RowsCounted(ents: map<int, Entity>, tr: set<int>, edges: seq<Edge>, srcs: seq<int>, m: nat)
    requires m <= |srcs|
    ensures |Emitted(ents, tr, edges, srcs[..m])| == RowsFrom(ents, tr, edges, srcs[..m])
  {
    hide Emitted, Fresh, Reached, NewListings, Targets;
    if m == 0 {
      WalkStarts(ents, tr, edges, srcs);
    } else {
      RowsCounted(ents, tr, edges, srcs, m - 1);
      EmittedNext(ents, tr, edges, srcs, m - 1);
      EmittedReached(ents, tr, edges, srcs, m - 1);
      var ts := Targets(edges, srcs[m - 1]);
      FreshIsWorking(ents, tr, edges, srcs, m - 1, ts);
      WorkingCounted(ents, tr, ts, Reached(ents, tr, edges, srcs[..m - 1]));
      assert srcs[..m][..m - 1] == srcs[..m - 1];
    }
  }

  /** Listing `j` of source `m` is new, and fewer than k rows come before it. */
  ghost predicate EarlyListing(ents: map<int, Entity>, tr: set<int>, edges: seq<Edge>, srcs: seq<int>, k: nat,
                               m: int, j: int)
    requires 0 <= m < |srcs| && 0 <= j < |Targets(edges, srcs[m])|
  {
    var ts, known := Targets(edges, srcs[m]), Reached(ents, tr, edges, srcs[..m]);
    && Qualifies(ents, tr, ts[j]) && ts[j] !in known
    && RowsFrom(ents, tr, edges, srcs[..m]) + NewListings(ents, tr, ts[..j], known) < k
  }

  /** Some source lists `d` before k rows are filled. */
  ghost predicate ListedEarly(ents: map<int, Entity>, tr: set<int>, edges: seq<Edge>, srcs: seq<int>, k: nat, d: int) {
    exists m, j :: 0 <= m < |srcs| && 0 <= j < |Targets(edges, srcs[m])| && Targets(edges, srcs[m])[j] == d
                   && EarlyListing(ents, tr, edges, srcs, k, m, j)
  }

  lemma EarlyIsEmitted(ents: map<int, Entity>, tr: set<int>, edges: seq<Edge>, srcs: seq<int>, k: nat, m: nat, j: nat)
    requires m < |srcs| && j < |Targets(edges, srcs[m])| && EarlyListing(ents, tr, edges, srcs, k, m, j)
    ensures Targets(edges, srcs[m])[j] in Take(Emitted(ents, tr, edges, srcs), k)
  {
    hide Emitted, Reached, NewListings, RowsFrom, Targets, Working, Qualifies;
    var ts, before := Targets(edges, srcs[m]), Emitted(ents, tr, edges, srcs[..m]);
    EmittedReached(ents, tr, edges, srcs, m);
    RowsCounted(ents, tr, edges, srcs, m);
    WorkingCounted(ents, tr, ts[..j], Elements(before));
    RowsOfSource(ents, tr, edges, srcs, m, j);
    var long := before + Working(ents, tr, ts[..j], Elements(before)) + [ts[j]];
    assert Take(Emitted(ents, tr, edges, srcs), k)[|long| - 1] == long[|long| - 1];
  }

  /** Which listing an element of the working set comes from. */
  lemma {:induction false} WorkingSource(ents: map<int, Entity>, tr: set<int>, targets: seq<int>, known: set<int>, q: nat)
    returns (j: nat)
    requires q < |Working(ents, tr, targets, known)|
    ensures j < |targets| && targets[j] == Working(ents, tr, targets, known)[q]
    ensures Qualifies(ents, tr, targets[j]) && targets[j] !in known && NewListings(ents, tr, targets[..j], known) == q
  {
    hide Qualifies;
    var init := targets[..|targets| - 1];
    if q < |Working(ents, tr, init, known)| {
      j := WorkingSource(ents, tr, init, known, q);
      assert init[..j] == targets[..j];
    } else {
      j := |targets| - 1;
      WorkingCounted(ents, tr, init, known);
    }
  }

  lemma {:induction false} EmittedIsEarly(ents: map<int, Entity>, tr: set<int>, edges: seq<Edge>, srcs: seq<int>, k: nat,
                                          h: nat, p: nat)
    requires h <= |srcs| && p < |Emitted(ents, tr, edges, srcs[..h])| && p < k
    ensures ListedEarly(ents, tr, edges, srcs, k, Emitted(ents, tr, edges, srcs[..h])[p])
  {
    hide Emitted, Fresh, Reached, NewListings, RowsFrom, Targets, Working, Qualifies;
    if h == 0 {
      WalkStarts(ents, tr, edges, srcs);
      assert false;
    } else {
      var m := h - 1;
      EmittedNext(ents, tr, edges, srcs, m);
      var before := Emitted(ents, tr, edges, srcs[..m]);
      if p < |before| {
        EmittedIsEarly(ents, tr, edges, srcs, k, m, p);
      } else {
        var ts := Targets(edges, srcs[m]);
        FreshIsWorking(ents, tr, edges, srcs, m, ts);
        var j := WorkingSource(ents, tr, ts, Elements(before), p - |before|);
        EmittedReached(ents, tr, edges, srcs, m);
        RowsCounted(ents, tr, edges, srcs, m);
        assert EarlyListing(ents, tr, edges, srcs, k, m, j);
      }
    }
  }

  /** A row is among the first k of the walk if and only if it is listed early. */
  lemma WalkedIff(ents: map<int, Entity>, tr: set<int>, edges: seq<Edge>, srcs: seq<int>, k: nat, d: int)
    ensures d in Take(Emitted(ents, tr, edges, srcs), k) <==> ListedEarly(ents, tr, edges, srcs, k, d)
  {
    hide Emitted, EarlyListing;
    if d in Take(Emitted(ents, tr, edges, srcs), k) {
      var p :| 0 <= p < |Take(Emitted(ents, tr, edges, srcs), k)| && Take(Emitted(ents, tr, edges, srcs), k)[p] == d;
      assert srcs[..|srcs|] == srcs;
      EmittedIsEarly(ents, tr, edges, srcs, k, |srcs|, p);
    }
    if ListedEarly(ents, tr, edges, srcs, k, d) {
      var m, j :| 0 <= m < |srcs| && 0 <= j < |Targets(edges, srcs[m])| && Targets(edges, srcs[m])[j] == d
                  && EarlyListing(ents, tr, edges, srcs, k, m, j);
      EarlyIsEmitted(ents, tr, edges, srcs, k, m, j);
    }
  }

  // ----- which rows the merge returns -----

  lemma KeptReached(ents: map<int, Entity>, tr: set<int>, edges: seq<Edge>, hits: seq<int>, d: int)
    ensures d in Dsts(KeptEdges(ents, tr, edges, hits)) <==> d in Reached(ents, tr, edges, hits)
  {
    hide KeptEdges, Qualifies;
    var kept := KeptEdges(ents, tr, edges, hits);
    if d in Dsts(kept) {
      var p :| 0 <= p < |kept| && Dsts(kept)[p] == d;
      assert kept[p] in kept;
      TargetsMembers(edges, kept[p].0, d);
      assert d in QualifyingOf(ents, tr, Targets(edges, kept[p].0));
    }
    if d in Reached(ents, tr, edges, hits) {
      var s :| s in hits && d in QualifyingOf(ents, tr, Targets(edges, s));
      TargetsMembers(edges, s, d);
      assert (s, d) in kept;
      var p :| 0 <= p < |kept| && kept[p] == (s, d);
      assert Dsts(kept)[p] == d;
    }
  }

  /** Fewer than k targets have their first listing, by (distance, position), before that of `d`. */
  ghost predicate RankedEarly(ents: map<int, Entity>, tr: set<int>, edges: seq<Edge>, dist: map<int, real>, hits: seq<int>,
                              k: nat, d: int) {
    d in Reached(ents, tr, edges, hits) && |AheadOf(KeptEdges(ents, tr, edges, hits), dist, d)| < k
  }

  lemma MergedIff(ents: map<int, Entity>, tr: set<int>, edges: seq<Edge>, dist: map<int, real>, hits: seq<int>, k: nat,
                  d: int)
    ensures d in Take(Merged(ents, tr, edges, dist, hits), k) <==> RankedEarly(ents, tr, edges, dist, hits, k, d)
  {
    hide KeptEdges, Reached, AheadOf, Ahead, Sort, Dedup;
    var kept := KeptEdges(ents, tr, edges, hits);
    RowsMembers(kept, dist);
    KeptReached(ents, tr, edges, hits, d);
    TakeByAhead(RowsBy(kept, dist), k, d);
    if d in Dsts(kept) {
      RowsAhead(kept, dist, d);
    }
  }

  // ----- the two answer sets -----

  /** Each target of the over-fetched sources is early in both plans or in neither. */
  ghost predicate SameEarlyRows(ents: map<int, Entity>, tr: set<int>, edges: seq<Edge>, dist: map<int, real>,
                                hits: seq<int>, k: nat) {
    forall d :: d in Reached(ents, tr, edges, hits) ==>
      (RankedEarly(ents, tr, edges, dist, hits, k, d) <==> ListedEarly(ents, tr, edges, hits, k, d))
  }

  /** The over-fetched sources give the walk k rows, or reach everything there is. */
  ghost predicate Accounted(ents: map<int, Entity>, tr: set<int>, edges: seq<Edge>, srcs: seq<int>, hits: seq<int>, k: nat) {
    RowsFrom(ents, tr, edges, hits) >= k || Reached(ents, tr, edges, srcs) <= Reached(ents, tr, edges, hits)
  }

  /** The answers hold the same rows if and only if early rows are the same and the over-fetch accounts for the walk. */
  lemma RowSetsIff(ids: seq<int>, ents: map<int, Entity>, tr: set<int>, edges: seq<Edge>, dist: map<int, real>, k: nat)
    requires Distinct(ids)
    ensures var srcs := RankedSources(ids, dist);
            Elements(MergedRows(ids, ents, tr, edges, dist, k)) == Elements(FusedRows(ids, ents, tr, edges, dist, k))
            <==> SameEarlyRows(ents, tr, edges, dist, Hits(srcs, k), k) && Accounted(ents, tr, edges, srcs, Hits(srcs, k), k)
  {
    hide Emitted, Merged, RankedSources, Reached, RowsFrom, RankedEarly, ListedEarly;
    var srcs := RankedSources(ids, dist);
    var hits := Hits(srcs, k);
    HitsDistinct(ids, dist, k);
    forall d ensures d in Take(Merged(ents, tr, edges, dist, hits), k) <==> RankedEarly(ents, tr, edges, dist, hits, k, d)
             ensures d in Take(Emitted(ents, tr, edges, hits), k) <==> ListedEarly(ents, tr, edges, hits, k, d)
    {
      MergedIff(ents, tr, edges, dist, hits, k, d);
      WalkedIff(ents, tr, edges, hits, k, d);
    }
    EarlyInsideReached(ents, tr, edges, dist, hits, k);
    assert hits == srcs[..|hits|];
    WalkSplits(ents, tr, edges, srcs, |hits|, k);
    var merged, walked, rows := Take(Merged(ents, tr, edges, dist, hits), k), Take(Emitted(ents, tr, edges, hits), k),
                                Take(Emitted(ents, tr, edges, srcs), k);
    assert Elements(merged) == Elements(walked) <==> SameEarlyRows(ents, tr, edges, dist, hits, k) by {
      SameElementsIff(merged, walked);
    }
    if !Accounted(ents, tr, edges, srcs, hits, k) {
      var d :| d in rows && d !in Reached(ents, tr, edges, hits);
      assert d in Elements(rows) && d !in Elements(merged);
    }
  }

  lemma SameElementsIff(a: seq<int>, b: seq<int>)
    ensures Elements(a) == Elements(b) <==> forall d :: d in a <==> d in b
  {
    assert forall d :: (d in a <==> d in Elements(a)) && (d in b <==> d in Elements(b));
    if forall d :: d in a <==> d in b {
      assert forall d :: d in Elements(a) <==> d in Elements(b);
    }
  }

  lemma EarlyInsideReached(ents: map<int, Entity>, tr: set<int>, edges: seq<Edge>, dist: map<int, real>, hits: seq<int>,
                           k: nat)
    ensures forall d :: d in Take(Merged(ents, tr, edges, dist, hits), k) ==> d in Reached(ents, tr, edges, hits)
    ensures forall d :: d in Take(Emitted(ents, tr, edges, hits), k) ==> d in Reached(ents, tr, edges, hits)
  {
    hide Emitted, Merged, Reached;
    EmittedReached(ents, tr, edges, hits, |hits|);
    assert hits[..|hits|] == hits;
    forall d | d in Take(Merged(ents, tr, edges, dist, hits), k) ensures d in Reached(ents, tr, edges, hits) {
      MergedIff(ents, tr, edges, dist, hits, k, d);
    }
    forall d | d in Take(Emitted(ents, tr, edges, hits), k) ensures d in Reached(ents, tr, edges, hits) {
      assert d in Emitted(ents, tr, edges, hits);
    }
  }

  /** The first k rows of the walk are those over the first `h` sources, or they hold a target that these do not reach. */
  lemma WalkSplits(ents: map<int, Entity>, tr: set<int>, edges: seq<Edge>, srcs: seq<int>, h: nat, k: nat)
    requires h <= |srcs|
    ensures var hits := srcs[..h];
            var rows := Take(Emitted(ents, tr, edges, srcs), k);
            if Accounted(ents, tr, edges, srcs, hits, k) then rows == Take(Emitted(ents, tr, edges, hits), k)
            else exists d :: d in rows && d !in Reached(ents, tr, edges, hits)
  {
    hide Emitted, Reached, RowsFrom;
    var hits := srcs[..h];
    var here, all := Emitted(ents, tr, edges, hits), Emitted(ents, tr, edges, srcs);
    EmittedPrefix(ents, tr, edges, srcs, h);
    RowsCounted(ents, tr, edges, srcs, h);
    assert srcs[..|srcs|] == srcs;
    EmittedReached(ents, tr, edges, srcs, |srcs|);
    EmittedReached(ents, tr, edges, srcs, h);
    if Reached(ents, tr, edges, srcs) <= Reached(ents, tr, edges, hits) {
      NothingNew(ents, tr, edges, srcs, h, |srcs|);
    } else if |here| < k {
      assert all != here;
      NextIsNew(ents, tr, edges, srcs, h, |srcs|);
      assert Take(all, k)[|here|] == all[|here|];
    }
  }

  lemma WorkingIsNew(ents: map<int, Entity>, tr: set<int>, targets: seq<int>, known: set<int>, p: nat)
    requires p < |Working(ents, tr, targets, known)|
    ensures Working(ents, tr, targets, known)[p] !in known
  {
    assert Working(ents, tr, targets, known)[p] in Working(ents, tr, targets, known);
  }

  /** What the walk emits right after the rows of the first `h` sources is a target none of them reaches. */
  lemma {:induction false} NextIsNew(ents: map<int, Entity>, tr: set<int>, edges: seq<Edge>, srcs: seq<int>, h: nat, m: nat)
    requires h <= m <= |srcs| && Emitted(ents, tr, edges, srcs[..m]) != Emitted(ents, tr, edges, srcs[..h])
    ensures var here, next := Emitted(ents, tr, edges, srcs[..h]), Emitted(ents, tr, edges, srcs[..m]);
            |here| < |next| && next[|here|] !in Reached(ents, tr, edges, srcs[..h])
  {
    hide Emitted, Fresh, Reached, Qualifies;
    EmittedNext(ents, tr, edges, srcs, m - 1);
    var here, before := Emitted(ents, tr, edges, srcs[..h]), Emitted(ents, tr, edges, srcs[..m - 1]);
    if before != here {
      NextIsNew(ents, tr, edges, srcs, h, m - 1);
    } else {
      EmittedReached(ents, tr, edges, srcs, h);
      var ts := Targets(edges, srcs[m - 1]);
      FreshIsWorking(ents, tr, edges, srcs, m - 1, ts);
      var w := Working(ents, tr, ts, Elements(before));
      var next := Emitted(ents, tr, edges, srcs[..m]);
      assert next == here + w && w != [];
      WorkingIsNew(ents, tr, ts, Elements(before), 0);
      assert next[|here|] == w[0];
    }
  }

  // ----- the chunks -----

  /** The answer as `result_chunks` is compared: the set of its chunks. */
  function ChunkSet(ents: map<int, Entity>, rows: seq<int>): set<string> {
    set d | d in rows && d in ents :: ents[d].chunk
  }

  lemma ChunkSetOfList(ents: map<int, Entity>, rows: seq<int>)
    requires forall i :: 0 <= i < |rows| ==> rows[i] in ents
    ensures ChunkSet(ents, rows) == set c | c in ChunksOf(ents, rows)
  {
    var chunks := ChunksOf(ents, rows);
    forall d | d in rows ensures ents[d].chunk in chunks {
      var i :| 0 <= i < |rows| && rows[i] == d;
      assert chunks[i] == ents[d].chunk;
    }
    forall c | c in chunks ensures c in ChunkSet(ents, rows) {
      var i :| 0 <= i < |chunks| && chunks[i] == c;
      var d := rows[i];
      assert d in rows && d in ents && ents[d].chunk == chunks[i];
    }
  }

  /** As the seeded corpus writes them: no two entities share a chunk. */
  ghost predicate DistinctChunks(ents: map<int, Entity>) {
    forall d, e :: d in ents && e in ents && d != e ==> ents[d].chunk != ents[e].chunk
  }

  lemma ChunksTellRows(ents: map<int, Entity>, a: seq<int>, b: seq<int>)
    requires DistinctChunks(ents) && (forall d :: d in a ==> d in ents) && (forall d :: d in b ==> d in ents)
    ensures ChunkSet(ents, a) == ChunkSet(ents, b) <==> Elements(a) == Elements(b)
  {
    if ChunkSet(ents, a) == ChunkSet(ents, b) {
      SameChunksSameRows(ents, a, b);
      SameChunksSameRows(ents, b, a);
    }
    if Elements(a) == Elements(b) {
      assert forall d :: d in a <==> d in Elements(b);
    }
  }

  lemma SameChunksSameRows(ents: map<int, Entity>, a: seq<int>, b: seq<int>)
    requires DistinctChunks(ents) && (forall d :: d in a ==> d in ents) && (forall d :: d in b ==> d in ents)
    requires ChunkSet(ents, a) <= ChunkSet(ents, b)
    ensures Elements(a) <= Elements(b)
  {
    forall d | d in a ensures d in b {
      assert ents[d].chunk in ChunkSet(ents, b);
      var e :| e in b && ents[e].chunk == ents[d].chunk;
    }
  }

  /** Both plans offer the same chunk texts early. */
  ghost predicate SameEarlyChunks(ents: map<int, Entity>, tr: set<int>, edges: seq<Edge>, dist: map<int, real>,
                                  srcs: seq<int>, hits: seq<int>, k: nat) {
    && (forall d :: d in ents && RankedEarly(ents, tr, edges, dist, hits, k, d) ==>
          exists e :: e in ents && ListedEarly(ents, tr, edges, srcs, k, e) && ents[e].chunk == ents[d].chunk)
    && (forall e :: e in ents && ListedEarly(ents, tr, edges, srcs, k, e) ==>
          exists d :: d in ents && RankedEarly(ents, tr, edges, dist, hits, k, d) && ents[d].chunk == ents[e].chunk)
  }

  lemma RowsInEntities(ids: seq<int>, ents: map<int, Entity>, tr: set<int>, edges: seq<Edge>, dist: map<int, real>, k: nat)
    ensures forall d :: d in MergedRows(ids, ents, tr, edges, dist, k) ==> d in ents
    ensures forall d :: d in FusedRows(ids, ents, tr, edges, dist, k) ==> d in ents
  {
    hide Emitted, Merged, RankedSources;
    var srcs := RankedSources(ids, dist);
    forall d | d in MergedRows(ids, ents, tr, edges, dist, k) ensures d in ents {
      MergedIff(ents, tr, edges, dist, Hits(srcs, k), k, d);
    }
    EmittedQualify(ents, tr, edges, srcs);
    forall d | d in FusedRows(ids, ents, tr, edges, dist, k) ensures d in ents {
      assert d in Emitted(ents, tr, edges, srcs) && Qualifies(ents, tr, d);
    }
  }

  /**
   The harness's claim, exactly: the two answers are the same set of chunks if and only if both plans offer the
   same chunks early; when no two entities share a chunk, that is if and only if the rows are the same set.
   */
  lemma AnswerSetsAgree(ids: seq<int>, ents: map<int, Entity>, tr: set<int>, edges: seq<Edge>, dist: map<int, real>, k: nat)
    requires Distinct(ids)
    ensures var srcs := RankedSources(ids, dist);
            var hits := Hits(srcs, k);
            var same := ChunkSet(ents, MergedRows(ids, ents, tr, edges, dist, k))
                     == ChunkSet(ents, FusedRows(ids, ents, tr, edges, dist, k));
            && (same <==> SameEarlyChunks(ents, tr, edges, dist, srcs, hits, k))
            && (DistinctChunks(ents) ==>
                  (same <==> SameEarlyRows(ents, tr, edges, dist, hits, k) && Accounted(ents, tr, edges, srcs, hits, k)))
  {
    hide RankedSources, RankedEarly, ListedEarly, SameEarlyRows, Accounted, Emitted, Merged;
    var srcs := RankedSources(ids, dist);
    var hits := Hits(srcs, k);
    var a, b := MergedRows(ids, ents, tr, edges, dist, k), FusedRows(ids, ents, tr, edges, dist, k);
    RowsInEntities(ids, ents, tr, edges, dist, k);
    RowSetsIff(ids, ents, tr, edges, dist, k);
    if DistinctChunks(ents) {
      ChunksTellRows(ents, a, b);
    }
    forall d ensures d in a <==> RankedEarly(ents, tr, edges, dist, hits, k, d)
             ensures d in b <==> ListedEarly(ents, tr, edges, srcs, k, d)
    {
      MergedIff(ents, tr, edges, dist, hits, k, d);
      WalkedIff(ents, tr, edges, srcs, k, d);
    }
    hide MergedRows, FusedRows, DistinctChunks;
    ChunkSetsByRows(ents, a, b);
  }

  lemma ChunkSetsByRows(ents: map<int, Entity>, a: seq<int>, b: seq<int>)
    ensures ChunkSet(ents, a) == ChunkSet(ents, b)
       <==> (forall d :: d in ents && d in a ==> exists e :: e in ents && e in b && ents[e].chunk == ents[d].chunk)
            && (forall e :: e in ents && e in b ==> exists d :: d in ents && d in a && ents[d].chunk == ents[e].chunk)
  {
    if ChunkSet(ents, a) == ChunkSet(ents, b) {
      forall d | d in ents && d in a ensures exists e :: e in ents && e in b && ents[e].chunk == ents[d].chunk {
        assert ents[d].chunk in ChunkSet(ents, b);
      }
      forall e | e in ents && e in b ensures exists d :: d in ents && d in a && ents[d].chunk == ents[e].chunk {
        assert ents[e].chunk in ChunkSet(ents, a);
      }
    }
  }

  lemma PrefixSameElements(a: seq<int>, b: seq<int>)
    requires a <= b && Distinct(b)
    ensures Elements(a) == Elements(b) <==> a == b
  {
    if |a| < |b| {
      assert b[|a|] in Elements(b) && forall i :: 0 <= i < |a| ==> a[i] == b[i] != b[|a|];
    }
  }

  /** For a corpus as the seeding tool writes it, the sets of chunks are equal exactly if the over-fetch surfaces enough. */
  lemma SeededAnswerSets(ids: seq<int>, ents: map<int, Entity>, tr: set<int>, edges: seq<Edge>, dist: map<int, real>, k: nat)
    requires 0 < k && Distinct(ids) && Distinct(edges) && GroupedInEntityOrder(ids, edges) && DistinctChunks(ents)
    ensures ChunkSet(ents, MergedRows(ids, ents, tr, edges, dist, k))
            == ChunkSet(ents, FusedRows(ids, ents, tr, edges, dist, k))
            <==> Surfaced(ents, tr, edges, RankedSources(ids, dist), k)
  {
    hide RankedSources, Emitted, Merged, Surfaced, ChunkSet, DistinctChunks, NoEarlyRepeat;
    var srcs := RankedSources(ids, dist);
    SeededPlansAgree(ids, ents, tr, edges, dist, k);
    RankedIsRanking(ids, dist);
    DistinctEdgesSuffice(ents, tr, edges, srcs, k);
    WalkDistinctIff(ents, tr, edges, srcs, k);
    RowsInEntities(ids, ents, tr, edges, dist, k);
    ChunksTellRows(ents, MergedRows(ids, ents, tr, edges, dist, k), FusedRows(ids, ents, tr, edges, dist, k));
    PrefixSameElements(MergedRows(ids, ents, tr, edges, dist, k), FusedRows(ids, ents, tr, edges, dist, k));
  }

  /** Both programs on the same question, compared as the harness compares them. */
  method CompareAnswers(corpus: Corpus, q: Query, k: nat) returns (fused: QuerySample, merged: QuerySample)
    requires corpus.Valid() && 0 < k
    modifies corpus
    ensures corpus.Valid()
    ensures var ents, tr, edges, dist := corpus.entities, q.timeRange, corpus.edges, Distances(corpus.entities, q);
            var srcs := RankedSources(corpus.ids, dist);
            var hits := Hits(srcs, k);
            var same := (set c | c in merged.resultChunks) == (set c | c in fused.resultChunks);
            && (same <==> SameEarlyChunks(ents, tr, edges, dist, srcs, hits, k))
            && (DistinctChunks(ents) ==>
                  (same <==> SameEarlyRows(ents, tr, edges, dist, hits, k) && Accounted(ents, tr, edges, srcs, hits, k)))
  {
    hide Emitted, Merged, RankedSources, LeastFilling, IsPeak, SameEarlyChunks, SameEarlyRows, Accounted;
    hide DistinctChunks, ChunkSet;
    ghost var rows, found;
    fused, rows := RunQuery(corpus, q, k);
    merged, found := BaselineQuery(corpus, q, k);
    ChunkSetOfList(corpus.entities, rows);
    ChunkSetOfList(corpus.entities, found);
    AnswerSetsAgree(corpus.ids, corpus.entities, q.timeRange, corpus.edges, Distances(corpus.entities, q), k);
  }
}
