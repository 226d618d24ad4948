/**
 The fused walk against the materialised merge, row by row: exactly when the two plans give the same rows
 in the same order, as a condition on the edges, the distances and k.
 */
module PlanEquivalence {
  import opened Collections
  import opened Sums
  import opened Sorting
  import opened Corpora
  import opened FusedPlan
  import opened MergePlan
  import opened EdgeOrder

  function EdgesFrom(es: seq<Edge>, s: int): (r: seq<Edge>)
    ensures forall e :: e in r ==> e in es && e.0 == s
  {
    if es == [] then []
    else
      var e := es[|es| - 1];
      var rest := EdgesFrom(es[..|es| - 1], s);
      if e.0 == s then rest + [e] else rest
  }

  /** The edges source by source: the order in which the walk meets them. */
  function Grouped(srcs: seq<int>, es: seq<Edge>): seq<Edge> {
    if srcs == [] then [] else Grouped(srcs[..|srcs| - 1], es) + EdgesFrom(es, srcs[|srcs| - 1])
  }

  /** Sources in ranking order, each once. */
  ghost predicate IsRanking(srcs: seq<int>, dist: map<int, real>) {
    Distinct(srcs) && forall a, b :: 0 <= a < b < |srcs| ==> Get(dist, srcs[a]) <= Get(dist, srcs[b])
  }

  /** No edge of a source comes before an edge of an equally near source ranked ahead of it. */
  ghost predicate TieConsistent(srcs: seq<int>, dist: map<int, real>, es: seq<Edge>) {
    forall i, j, a, b :: 0 <= i < j < |es| && 0 <= a < b < |srcs| && es[i].0 == srcs[b] && es[j].0 == srcs[a] ==>
      Get(dist, srcs[a]) < Get(dist, srcs[b])
  }

  // ----- sorting by source distance is grouping by source -----

  lemma {:induction false} GroupedSources(srcs: seq<int>, es: seq<Edge>)
    ensures forall e :: e in Grouped(srcs, es) ==> e in es && e.0 in srcs
  {
    if srcs == [] {
    } else {
      GroupedSources(srcs[..|srcs| - 1], es);
    }
  }

  lemma {:induction false} GroupedOtherSource(srcs: seq<int>, es: seq<Edge>, e: Edge)
    requires e.0 !in srcs
    ensures Grouped(srcs, es + [e]) == Grouped(srcs, es)
  {
    if srcs != [] {
      GroupedOtherSource(srcs[..|srcs| - 1], es, e);
      assert (es + [e])[..|es|] == es;
    } else {
    }
  }

  lemma {:induction false} InsertBefore<T>(a: seq<T>, b: seq<T>, x: T, le: (T, T) -> bool)
    requires forall y :: y in b ==> !le(y, x)
    ensures Insert(a + b, x, le) == Insert(a, x, le) + b
  {
    if b == [] {
      assert a + b == a;
    } else {
      var init, last := b[..|b| - 1], b[|b| - 1];
      assert (a + b)[..|a + b| - 1] == a + init;
      InsertBefore(a, init, x, le);
      assert Insert(a, x, le) + b == (Insert(a, x, le) + init) + [last];
    }
  }

  lemma GroupedInsertLast(srcs: seq<int>, dist: map<int, real>, es: seq<Edge>, e: Edge)
    requires IsRanking(srcs, dist) && srcs != [] && e.0 == srcs[|srcs| - 1]
    ensures Grouped(srcs, es + [e]) == Insert(Grouped(srcs, es), e, BySource(dist))
  {
    var init := srcs[..|srcs| - 1];
    var g := Grouped(srcs, es);
    GroupedOtherSource(init, es, e);
    assert (es + [e])[..|es|] == es;
    assert Grouped(srcs, es + [e]) == g + [e];
    GroupedSources(srcs, es);
    if g != [] {
      assert g[|g| - 1] in g;
      var a :| 0 <= a < |srcs| && srcs[a] == g[|g| - 1].0;
      assert BySource(dist)(g[|g| - 1], e);
    }
  }

  /** A new last edge goes to the end of its source's group, which is where the stable sort inserts it. */
  lemma {:induction false} GroupedInsert(srcs: seq<int>, dist: map<int, real>, es: seq<Edge>, e: Edge)
    requires IsRanking(srcs, dist) && TieConsistent(srcs, dist, es + [e]) && e.0 in srcs
    ensures Grouped(srcs, es + [e]) == Insert(Grouped(srcs, es), e, BySource(dist))
  {
    hide TieConsistent;
    var init, last := srcs[..|srcs| - 1], srcs[|srcs| - 1];
    assert srcs == init + [last];
    if last == e.0 {
      GroupedInsertLast(srcs, dist, es, e);
    } else {
      TiesOnPrefix(srcs, dist, es + [e]);
      GroupedInsert(init, dist, es, e);
      forall y | y in EdgesFrom(es, last) ensures !BySource(dist)(y, e) {
        LaterGroupIsFarther(srcs, dist, es, e, y);
      }
      InsertBefore(Grouped(init, es), EdgesFrom(es, last), e, BySource(dist));
      assert (es + [e])[..|es|] == es;
    }
  }

  lemma TiesOnPrefix(srcs: seq<int>, dist: map<int, real>, es: seq<Edge>)
    requires srcs != [] && TieConsistent(srcs, dist, es)
    ensures TieConsistent(srcs[..|srcs| - 1], dist, es)
  {
  }

  lemma LaterGroupIsFarther(srcs: seq<int>, dist: map<int, real>, es: seq<Edge>, e: Edge, y: Edge)
    requires srcs != [] && TieConsistent(srcs, dist, es + [e]) && e.0 in srcs[..|srcs| - 1]
    requires y in es && y.0 == srcs[|srcs| - 1]
    ensures Get(dist, e.0) < Get(dist, y.0)
  {
    var all := es + [e];
    var i :| 0 <= i < |es| && es[i] == y;
    var a :| 0 <= a < |srcs| - 1 && srcs[a] == e.0;
    assert all[i] == y && all[|es|] == e;
  }

  lemma {:induction false} GroupedEmpty(srcs: seq<int>)
    ensures Grouped(srcs, []) == []
  {
    if srcs != [] {
      GroupedEmpty(srcs[..|srcs| - 1]);
    } else {
    }
  }

  lemma {:induction false} SortIsGrouping(srcs: seq<int>, dist: map<int, real>, es: seq<Edge>)
    requires IsRanking(srcs, dist) && TieConsistent(srcs, dist, es) && forall e :: e in es ==> e.0 in srcs
    ensures Sort(es, BySource(dist)) == Grouped(srcs, es)
  {
    if es == [] {
      GroupedEmpty(srcs);
    } else {
      var init, last := es[..|es| - 1], es[|es| - 1];
      assert es == init + [last];
      SortIsGrouping(srcs, dist, init);
      GroupedInsert(srcs, dist, init, last);
    }
  }

  // ----- and only then -----

  lemma {:induction false} EdgesFromMembers(es: seq<Edge>, e: Edge)
    ensures e in EdgesFrom(es, e.0) <==> e in es
  {
    if es == [] {
    } else {
      assert es == es[..|es| - 1] + [es[|es| - 1]];
      EdgesFromMembers(es[..|es| - 1], e);
    }
  }

  lemma {:induction false} GroupedContains(srcs: seq<int>, es: seq<Edge>, e: Edge)
    requires e in es && e.0 in srcs
    ensures e in Grouped(srcs, es)
  {
    EdgesFromMembers(es, e);
    if srcs[|srcs| - 1] != e.0 {
      assert srcs == srcs[..|srcs| - 1] + [srcs[|srcs| - 1]];
      GroupedContains(srcs[..|srcs| - 1], es, e);
    } else {
    }
  }

  lemma {:induction false} GroupedBefore(srcs: seq<int>, es: seq<Edge>, a: nat, b: nat, e: Edge, f: Edge)
    requires a < b < |srcs| && e in es && f in es && e.0 == srcs[a] && f.0 == srcs[b]
    ensures Before(Grouped(srcs, es), e, f)
  {
    var init, last := srcs[..|srcs| - 1], srcs[|srcs| - 1];
    if b < |init| {
      GroupedBefore(init, es, a, b, e, f);
    } else {
      assert init[a] == e.0;
      GroupedContains(init, es, e);
      EdgesFromMembers(es, f);
    }
    BeforeExtends(Grouped(init, es), EdgesFrom(es, last), e, f);
  }

  lemma BySourceIsPreorder(dist: map<int, real>)
    ensures TotalPreorder(BySource(dist))
  {
  }

  /**
   With distinct edges, the materialised plan enumerates its pairs in the order of the walk
   if and only if ties between equally near sources are consistent.
   */
  lemma SameOrderIffTiesConsistent(srcs: seq<int>, dist: map<int, real>, es: seq<Edge>)
    requires IsRanking(srcs, dist) && Distinct(es) && forall e :: e in es ==> e.0 in srcs
    ensures Sort(es, BySource(dist)) == Grouped(srcs, es) <==> TieConsistent(srcs, dist, es)
  {
    if TieConsistent(srcs, dist, es) {
      SortIsGrouping(srcs, dist, es);
    } else {
      var i, j, a, b :| 0 <= i < j < |es| && 0 <= a < b < |srcs| && es[i].0 == srcs[b] && es[j].0 == srcs[a]
                        && Get(dist, srcs[a]) >= Get(dist, srcs[b]);
      TieBreaksOrder(srcs, dist, es, i, j, a, b);
    }
  }

  lemma TieBreaksOrder(srcs: seq<int>, dist: map<int, real>, es: seq<Edge>, i: nat, j: nat, a: nat, b: nat)
    requires Distinct(es) && i < j < |es| && a < b < |srcs| && es[i].0 == srcs[b] && es[j].0 == srcs[a]
    requires Get(dist, srcs[a]) >= Get(dist, srcs[b])
    ensures Sort(es, BySource(dist)) != Grouped(srcs, es)
  {
    hide Grouped, Sort;
    var sorted := Sort(es, BySource(dist));
    BySourceIsPreorder(dist);
    assert BySource(dist)(es[i], es[j]);
    SortStable(es, BySource(dist), i, j);
    SortContents(es, BySource(dist));
    PermutationDistinct(es, sorted);
    GroupedBefore(srcs, es, a, b, es[j], es[i]);
    hide Before;
    DistinctBefore(sorted, es[i], es[j]);
  }

  // ----- what the walk emits -----

  /** The qualifying targets of a source among the kept edges. */
  function QualifyingTargets(ents: map<int, Entity>, tr: set<int>, targets: seq<int>): seq<int> {
    if targets == [] then []
    else
      var d := targets[|targets| - 1];
      QualifyingTargets(ents, tr, targets[..|targets| - 1]) + if Qualifies(ents, tr, d) then [d] else []
  }

  lemma {:induction false} GroupTargets(ents: map<int, Entity>, tr: set<int>, edges: seq<Edge>, hits: seq<int>, s: int)
    requires s in hits
    ensures Dsts(EdgesFrom(KeptEdges(ents, tr, edges, hits), s)) == QualifyingTargets(ents, tr, Targets(edges, s))
  {
    if edges == [] {
    } else {
      var init, e := edges[..|edges| - 1], edges[|edges| - 1];
      GroupTargets(ents, tr, init, hits, s);
      var kept, ts := KeptEdges(ents, tr, init, hits), Targets(init, s);
      assert (kept + [e])[..|kept|] == kept && (ts + [e.1])[..|ts|] == ts;
      if e.0 == s {
        assert QualifyingTargets(ents, tr, ts + [e.1])
            == QualifyingTargets(ents, tr, ts) + if Qualifies(ents, tr, e.1) then [e.1] else [];
        DstsSplit(EdgesFrom(kept, s), [e]);
      } else {
        assert Targets(edges, s) == ts;
      }
    }
  }

  lemma DstsSplit(a: seq<Edge>, b: seq<Edge>)
    ensures Dsts(a + b) == Dsts(a) + Dsts(b)
  {
  }

  lemma DedupAppend(q: seq<int>, d: int)
    ensures Dedup(q + [d]) == if d in Dedup(q) then Dedup(q) else Dedup(q) + [d]
  {
  }

  lemma {:induction false} DedupSame(a: seq<int>, b: seq<int>, q: seq<int>)
    requires Dedup(a) == Dedup(b)
    ensures Dedup(a + q) == Dedup(b + q)
  {
    hide Dedup;
    if q == [] {
      assert a + q == a && b + q == b;
    } else {
      var init, d := q[..|q| - 1], q[|q| - 1];
      DedupSame(a, b, init);
      assert a + q == (a + init) + [d] && b + q == (b + init) + [d];
      DedupAppend(a + init, d);
      DedupAppend(b + init, d);
    }
  }

  /** One source: up to first occurrences, its working set stands for all its qualifying targets. */
  lemma {:induction false} DedupOneSource(ents: map<int, Entity>, tr: set<int>, before: seq<int>, targets: seq<int>)
    ensures Dedup(before + Working(ents, tr, targets, Elements(before)))
         == Dedup(before + QualifyingTargets(ents, tr, targets))
  {
    hide Dedup, Qualifies, Elements;
    if targets == [] {
    } else {
      var init, d := targets[..|targets| - 1], targets[|targets| - 1];
      DedupOneSource(ents, tr, before, init);
      var w, q := Working(ents, tr, init, Elements(before)), QualifyingTargets(ents, tr, init);
      assert before + (w + [d]) == (before + w) + [d] && before + (q + [d]) == (before + q) + [d];
      assert q + [] == q;
      DedupAppend(before + w, d);
      DedupAppend(before + q, d);
    }
  }

  lemma {:induction false} DedupGroups(ents: map<int, Entity>, tr: set<int>, edges: seq<Edge>, hits: seq<int>, m: nat)
    requires m <= |hits|
    ensures Dedup(Dsts(Grouped(hits[..m], KeptEdges(ents, tr, edges, hits)))) == Dedup(Emitted(ents, tr, edges, hits[..m]))
  {
    hide KeptEdges, Fresh, Emitted, Working, Dedup;
    var kept := KeptEdges(ents, tr, edges, hits);
    if m == 0 {
      WalkStarts(ents, tr, edges, hits);
    } else {
      DedupGroups(ents, tr, edges, hits, m - 1);
      EmittedNext(ents, tr, edges, hits, m - 1);
      var s := hits[m - 1];
      var groups, emitted := Dsts(Grouped(hits[..m - 1], kept)), Emitted(ents, tr, edges, hits[..m - 1]);
      assert hits[..m][..m - 1] == hits[..m - 1];
      DstsSplit(Grouped(hits[..m - 1], kept), EdgesFrom(kept, s));
      GroupTargets(ents, tr, edges, hits, s);
      FreshIsWorking(ents, tr, edges, hits, m - 1, Targets(edges, s));
      DedupOneSource(ents, tr, emitted, Targets(edges, s));
      DedupSame(groups, emitted, QualifyingTargets(ents, tr, Targets(edges, s)));
    }
  }

  /** The qualifying targets in a list. */
  function QualifyingOf(ents: map<int, Entity>, tr: set<int>, targets: seq<int>): set<int> {
    set d | d in targets && Qualifies(ents, tr, d)
  }

  /** The qualifying targets that some source lists. */
  function Reached(ents: map<int, Entity>, tr: set<int>, edges: seq<Edge>, srcs: seq<int>): set<int> {
    set s, d | s in srcs && d in QualifyingOf(ents, tr, Targets(edges, s)) :: d
  }

  lemma ReachedNext(ents: map<int, Entity>, tr: set<int>, edges: seq<Edge>, srcs: seq<int>, m: nat)
    requires m < |srcs|
    ensures Reached(ents, tr, edges, srcs[..m + 1])
         == Reached(ents, tr, edges, srcs[..m]) + QualifyingOf(ents, tr, Targets(edges, srcs[m]))
  {
  }

  lemma {:induction false} EmittedReached(ents: map<int, Entity>, tr: set<int>, edges: seq<Edge>, srcs: seq<int>, m: nat)
    requires m <= |srcs|
    ensures Elements(Emitted(ents, tr, edges, srcs[..m])) == Reached(ents, tr, edges, srcs[..m])
  {
    hide Emitted, Fresh, Reached, Qualifies;
    if m == 0 {
      WalkStarts(ents, tr, edges, srcs);
      NothingReached(ents, tr, edges);
    } else {
      EmittedReached(ents, tr, edges, srcs, m - 1);
      EmittedNext(ents, tr, edges, srcs, m - 1);
      ReachedNext(ents, tr, edges, srcs, m - 1);
      FreshIsWorking(ents, tr, edges, srcs, m - 1, Targets(edges, srcs[m - 1]));
      WorkingElements(ents, tr, Targets(edges, srcs[m - 1]), Emitted(ents, tr, edges, srcs[..m - 1]));
    }
  }

  lemma NothingReached(ents: map<int, Entity>, tr: set<int>, edges: seq<Edge>)
    ensures Reached(ents, tr, edges, []) == {}
  {
  }

  // ----- when the walk repeats a row among the first k -----

  /**
   A source lists a qualifying target twice only if a nearer one lists it too, or if k other targets are
   reached before the second listing.
   */
  ghost predicate NoEarlyRepeat(ents: map<int, Entity>, tr: set<int>, edges: seq<Edge>, srcs: seq<int>, k: nat) {
    forall m, i, j :: 0 <= m < |srcs| && 0 <= i < j < |Targets(edges, srcs[m])| ==>
      var ts := Targets(edges, srcs[m]);
      ts[i] == ts[j] && Qualifies(ents, tr, ts[j]) && ts[j] !in Reached(ents, tr, edges, srcs[..m]) ==>
        |Reached(ents, tr, edges, srcs[..m]) + QualifyingOf(ents, tr, ts[..j])| >= k
  }

  lemma FewElements(xs: seq<int>, k: nat)
    requires k <= |xs| && |Elements(xs)| < k
    ensures !Distinct(Take(xs, k))
  {
    if Distinct(xs[..k]) {
      DistinctCard(xs[..k], Elements(xs[..k]));
      SubsetCard(Elements(xs[..k]), Elements(xs));
    }
  }

  /** A row that is there already, among fewer than k different ones. */
  lemma RowAgain(rows: seq<int>, d: int, k: nat)
    requires d in rows && |Elements(rows)| < k
    ensures !Distinct(Take(rows + [d], k))
  {
    var long := rows + [d];
    if |rows| >= k {
      FewElements(rows, k);
      RepeatStays(rows, long, k);
    } else {
      var p :| 0 <= p < |rows| && rows[p] == d;
      assert long[p] == long[|rows|] && Take(long, k) == long;
    }
  }

  lemma RepeatStays(a: seq<int>, b: seq<int>, k: nat)
    requires a <= b && !Distinct(Take(a, k))
    ensures !Distinct(Take(b, k))
  {
  }

  lemma WorkingElements(ents: map<int, Entity>, tr: set<int>, targets: seq<int>, before: seq<int>)
    ensures Elements(before + Working(ents, tr, targets, Elements(before)))
         == Elements(before) + QualifyingOf(ents, tr, targets)
  {
    hide Qualifies;
    var w := Working(ents, tr, targets, Elements(before));
    forall d ensures d in Elements(before + w) <==> d in Elements(before) + QualifyingOf(ents, tr, targets) {
    }
  }

  lemma WorkingNext(ents: map<int, Entity>, tr: set<int>, targets: seq<int>, seen: set<int>, j: nat)
    requires j < |targets|
    ensures Working(ents, tr, targets[..j + 1], seen)
         == Working(ents, tr, targets[..j], seen)
            + if targets[j] !in seen && Qualifies(ents, tr, targets[j]) then [targets[j]] else []
  {
    assert targets[..j + 1][..j] == targets[..j];
  }

  lemma {:induction false} WorkingPrefix(ents: map<int, Entity>, tr: set<int>, targets: seq<int>, seen: set<int>, j: nat)
    requires j <= |targets|
    ensures Working(ents, tr, targets[..j], seen) <= Working(ents, tr, targets, seen)
    decreases |targets| - j
  {
    if j == |targets| {
      assert targets[..j] == targets;
    } else {
      WorkingNext(ents, tr, targets, seen, j);
      WorkingPrefix(ents, tr, targets, seen, j + 1);
    }
  }

  lemma EarlyRepeatShows(ents: map<int, Entity>, tr: set<int>, edges: seq<Edge>, srcs: seq<int>, k: nat, m: nat,
                         i: nat, j: nat)
    requires m < |srcs| && i < j < |Targets(edges, srcs[m])|
    requires var ts := Targets(edges, srcs[m]);
             && ts[i] == ts[j] && Qualifies(ents, tr, ts[j]) && ts[j] !in Reached(ents, tr, edges, srcs[..m])
             && |Reached(ents, tr, edges, srcs[..m]) + QualifyingOf(ents, tr, ts[..j])| < k
    ensures !Distinct(Take(Emitted(ents, tr, edges, srcs), k))
  {
    hide Emitted, Fresh, Reached, QualifyingOf, Qualifies, Working, Targets, Elements, Distinct;
    var ts, before := Targets(edges, srcs[m]), Emitted(ents, tr, edges, srcs[..m]);
    EmittedReached(ents, tr, edges, srcs, m);
    var w := Working(ents, tr, ts[..j], Elements(before));
    WorkingElements(ents, tr, ts[..j], before);
    RowsOfSource(ents, tr, edges, srcs, m, j);
    assert ts[..j][i] == ts[j] && ts[j] in w;
    RowAgain(before + w, ts[j], k);
    RepeatStays(before + w + [ts[j]], Emitted(ents, tr, edges, srcs), k);
  }

  /** The walk emits a new qualifying target right after what its source has contributed before it. */
  lemma RowsOfSource(ents: map<int, Entity>, tr: set<int>, edges: seq<Edge>, srcs: seq<int>, m: nat, j: nat)
    requires m < |srcs| && j < |Targets(edges, srcs[m])|
    requires var ts := Targets(edges, srcs[m]);
             Qualifies(ents, tr, ts[j]) && ts[j] !in Elements(Emitted(ents, tr, edges, srcs[..m]))
    ensures var ts, before := Targets(edges, srcs[m]), Emitted(ents, tr, edges, srcs[..m]);
            before + Working(ents, tr, ts[..j], Elements(before)) + [ts[j]] <= Emitted(ents, tr, edges, srcs)
  {
    hide Emitted, Fresh, Qualifies, Working, Targets, Elements;
    var ts, before := Targets(edges, srcs[m]), Emitted(ents, tr, edges, srcs[..m]);
    WorkingNext(ents, tr, ts, Elements(before), j);
    WorkingPrefix(ents, tr, ts, Elements(before), j + 1);
    FreshIsWorking(ents, tr, edges, srcs, m, ts);
    EmittedNext(ents, tr, edges, srcs, m);
    EmittedPrefix(ents, tr, edges, srcs, m + 1);
  }

  /** One source after another, one listed target after another: nothing is repeated among the first k. */
  lemma {:induction false} SourceRepeatsNothing(ents: map<int, Entity>, tr: set<int>, edges: seq<Edge>, srcs: seq<int>,
                                                k: nat, m: nat, j: nat)
    requires m < |srcs| && j <= |Targets(edges, srcs[m])| && NoEarlyRepeat(ents, tr, edges, srcs, k)
    requires Distinct(Take(Emitted(ents, tr, edges, srcs[..m]), k))
    ensures var before := Emitted(ents, tr, edges, srcs[..m]);
            Distinct(Take(before + Working(ents, tr, Targets(edges, srcs[m])[..j], Elements(before)), k))
  {
    hide Emitted, Reached, QualifyingOf, Qualifies, NoEarlyRepeat, Working, Elements, Distinct;
    var ts, before := Targets(edges, srcs[m]), Emitted(ents, tr, edges, srcs[..m]);
    var seen := Elements(before);
    if j == 0 {
      NothingWorking(ents, tr, ts, seen);
      assert before + [] == before;
    } else {
      SourceRepeatsNothing(ents, tr, edges, srcs, k, m, j - 1);
      WorkingNext(ents, tr, ts, seen, j - 1);
      var w, d := Working(ents, tr, ts[..j - 1], seen), ts[j - 1];
      assert before + (w + [d]) == (before + w) + [d];
      assert w + [] == w;
      if d !in seen && Qualifies(ents, tr, d) {
        WorkingElements(ents, tr, ts[..j - 1], before);
        EmittedReached(ents, tr, edges, srcs, m);
        RepeatsLate(ents, tr, edges, srcs, k, m, j - 1);
        OneMoreRow(before + w, d, k);
      }
    }
  }

  lemma NothingWorking(ents: map<int, Entity>, tr: set<int>, targets: seq<int>, seen: set<int>)
    ensures Working(ents, tr, targets[..0], seen) == []
  {
  }

  /** A target listed before by the same source, and by no nearer one, comes after k other targets. */
  lemma RepeatsLate(ents: map<int, Entity>, tr: set<int>, edges: seq<Edge>, srcs: seq<int>, k: nat, m: nat, j: nat)
    requires m < |srcs| && j < |Targets(edges, srcs[m])| && NoEarlyRepeat(ents, tr, edges, srcs, k)
    ensures var ts, reached := Targets(edges, srcs[m]), Reached(ents, tr, edges, srcs[..m]);
            ts[j] in Working(ents, tr, ts[..j], reached) && Qualifies(ents, tr, ts[j]) && ts[j] !in reached
            ==> |reached + QualifyingOf(ents, tr, ts[..j])| >= k
  {
  }

  lemma OneMoreRow(rows: seq<int>, d: int, k: nat)
    requires Distinct(Take(rows, k)) && (d in Elements(rows) ==> |Elements(rows)| >= k)
    ensures Distinct(Take(rows + [d], k))
  {
    if |rows| >= k {
      assert Take(rows + [d], k) == Take(rows, k);
    } else {
      assert Take(rows, k) == rows && Take(rows + [d], k) == rows + [d];
      DistinctCard(rows, Elements(rows));
    }
  }

  lemma {:induction false} WalkRepeatsNothing(ents: map<int, Entity>, tr: set<int>, edges: seq<Edge>, srcs: seq<int>,
                                              k: nat, m: nat)
    requires m <= |srcs| && NoEarlyRepeat(ents, tr, edges, srcs, k)
    ensures Distinct(Take(Emitted(ents, tr, edges, srcs[..m]), k))
  {
    hide Emitted, Fresh, NoEarlyRepeat;
    if m == 0 {
      WalkStarts(ents, tr, edges, srcs);
    } else {
      WalkRepeatsNothing(ents, tr, edges, srcs, k, m - 1);
      var ts := Targets(edges, srcs[m - 1]);
      SourceRepeatsNothing(ents, tr, edges, srcs, k, m - 1, |ts|);
      assert ts[..|ts|] == ts;
      FreshIsWorking(ents, tr, edges, srcs, m - 1, ts);
      EmittedNext(ents, tr, edges, srcs, m - 1);
    }
  }

  /** The first k rows of the walk are free of repetition if and only if the edges repeat nothing early. */
  lemma WalkDistinctIff(ents: map<int, Entity>, tr: set<int>, edges: seq<Edge>, srcs: seq<int>, k: nat)
    ensures Distinct(Take(Emitted(ents, tr, edges, srcs), k)) <==> NoEarlyRepeat(ents, tr, edges, srcs, k)
  {
    hide Emitted, Reached, QualifyingOf, Qualifies;
    if NoEarlyRepeat(ents, tr, edges, srcs, k) {
      WalkRepeatsNothing(ents, tr, edges, srcs, k, |srcs|);
      assert srcs[..|srcs|] == srcs;
    } else {
      var m, i, j :| 0 <= m < |srcs| && 0 <= i < j < |Targets(edges, srcs[m])|
        && (var ts := Targets(edges, srcs[m]);
            ts[i] == ts[j] && Qualifies(ents, tr, ts[j]) && ts[j] !in Reached(ents, tr, edges, srcs[..m])
            && |Reached(ents, tr, edges, srcs[..m]) + QualifyingOf(ents, tr, ts[..j])| < k);
      EarlyRepeatShows(ents, tr, edges, srcs, k, m, i, j);
    }
  }

  // ----- the same rows over the same sources -----

  /** The place of every source in the ranking. */
  function Places(srcs: seq<int>): map<int, real>
    requires Distinct(srcs)
  {
    map a: int | 0 <= a < |srcs| :: srcs[a] := a as real
  }

  lemma GroupedIsSort(srcs: seq<int>, es: seq<Edge>)
    requires Distinct(srcs) && forall e :: e in es ==> e.0 in srcs
    ensures Sort(es, BySource(Places(srcs))) == Grouped(srcs, es)
  {
    var place := Places(srcs);
    assert forall a :: 0 <= a < |srcs| ==> Get(place, srcs[a]) == a as real;
    SortIsGrouping(srcs, place, es);
  }

  lemma TakeDistinct(xs: seq<int>, k: nat)
    requires Distinct(Take(xs, k))
    ensures Take(Dedup(xs), k) == Take(xs, k)
  {
    DedupNothing(Take(xs, k));
    if k <= |xs| {
      DedupPrefix(xs, k);
    }
  }

  /**
   Over the same sources, in any order, both plans answer with the same first k rows if and only if no row
   is repeated early and every early row is listed first, by distance and position as by place and position,
   against every other row.
   */
  lemma MergedIsEmitted(ents: map<int, Entity>, tr: set<int>, edges: seq<Edge>, dist: map<int, real>, hits: seq<int>,
                        k: nat)
    requires Distinct(hits)
    ensures Take(Merged(ents, tr, edges, dist, hits), k) == Take(Emitted(ents, tr, edges, hits), k)
       <==> NoEarlyRepeat(ents, tr, edges, hits, k)
            && SameFirstListings(KeptEdges(ents, tr, edges, hits), dist, Places(hits), k)
  {
    hide Fresh, Emitted, KeptEdges, Dedup, Sort, NoEarlyRepeat, SameFirstListings;
    var kept, place := KeptEdges(ents, tr, edges, hits), Places(hits);
    var walk := Emitted(ents, tr, edges, hits);
    assert forall e :: e in kept ==> e.0 in hits;
    GroupedIsSort(hits, kept);
    DedupGroups(ents, tr, edges, hits, |hits|);
    assert hits[..|hits|] == hits;
    assert Dedup(walk) == RowsBy(kept, place) && Merged(ents, tr, edges, dist, hits) == RowsBy(kept, dist);
    SameRowsIff(kept, dist, place, k);
    WalkDistinctIff(ents, tr, edges, hits, k);
    RowsMembers(kept, dist);
    if NoEarlyRepeat(ents, tr, edges, hits, k) {
      TakeDistinct(walk, k);
    }
  }

  lemma RankedIsRanking(ids: seq<int>, dist: map<int, real>)
    requires Distinct(ids)
    ensures IsRanking(RankedSources(ids, dist), dist)
  {
    hide Sort;
    NearerIsPreorder(dist);
    SortSorted(ids, Nearer(dist));
    SortContents(ids, Nearer(dist));
    var srcs := RankedSources(ids, dist);
    PermutationDistinct(ids, srcs);
    forall a, b | 0 <= a < b < |srcs| ensures Get(dist, srcs[a]) <= Get(dist, srcs[b]) {
      assert Nearer(dist)(srcs[a], srcs[b]);
    }
  }

  /** The over-fetched sources reach k targets, or all there are. */
  ghost predicate Surfaced(ents: map<int, Entity>, tr: set<int>, edges: seq<Edge>, srcs: seq<int>, k: nat) {
    var hits := Hits(srcs, k);
    |Reached(ents, tr, edges, hits)| >= k || Reached(ents, tr, edges, srcs) <= Reached(ents, tr, edges, hits)
  }

  /** The conditions on the over-fetched sources, their edges and distances. */
  ghost predicate SameOverHits(ents: map<int, Entity>, tr: set<int>, edges: seq<Edge>, dist: map<int, real>,
                               hits: seq<int>, k: nat)
    requires Distinct(hits)
  {
    NoEarlyRepeat(ents, tr, edges, hits, k) && SameFirstListings(KeptEdges(ents, tr, edges, hits), dist, Places(hits), k)
  }

  lemma HitsDistinct(ids: seq<int>, dist: map<int, real>, k: nat)
    requires Distinct(ids)
    ensures var srcs := RankedSources(ids, dist);
            Distinct(Hits(srcs, k)) && Hits(srcs, k) == srcs[..|Hits(srcs, k)|]
  {
    RankedIsRanking(ids, dist);
  }

  /** Sources that reach nothing new emit nothing. */
  lemma {:induction false} NothingNew(ents: map<int, Entity>, tr: set<int>, edges: seq<Edge>, srcs: seq<int>, h: nat, m: nat)
    requires h <= m <= |srcs| && Reached(ents, tr, edges, srcs) <= Reached(ents, tr, edges, srcs[..h])
    ensures Emitted(ents, tr, edges, srcs[..m]) == Emitted(ents, tr, edges, srcs[..h])
  {
    hide Emitted, Fresh, Reached, Qualifies;
    if m > h {
      NothingNew(ents, tr, edges, srcs, h, m - 1);
      EmittedNext(ents, tr, edges, srcs, m - 1);
      EmittedReached(ents, tr, edges, srcs, h);
      FreshIsWorking(ents, tr, edges, srcs, m - 1, Targets(edges, srcs[m - 1]));
      var fresh' := Fresh(ents, tr, edges, srcs, m - 1);
      if fresh' != [] {
        assert fresh'[0] in fresh';
        ListedIsReached(ents, tr, edges, srcs, m - 1, fresh'[0]);
        assert false;
      }
    } else {
    }
  }

  lemma ListedIsReached(ents: map<int, Entity>, tr: set<int>, edges: seq<Edge>, srcs: seq<int>, m: nat, d: int)
    requires m < |srcs| && d in Targets(edges, srcs[m]) && Qualifies(ents, tr, d)
    ensures d in Reached(ents, tr, edges, srcs)
  {
    assert srcs[m] in srcs && d in QualifyingOf(ents, tr, Targets(edges, srcs[m]));
  }

  lemma FewerRowsMerged(ents: map<int, Entity>, tr: set<int>, edges: seq<Edge>, dist: map<int, real>, hits: seq<int>)
    requires Distinct(hits)
    ensures |Merged(ents, tr, edges, dist, hits)| <= |Emitted(ents, tr, edges, hits)|
    ensures Distinct(Merged(ents, tr, edges, dist, hits))
  {
    hide Emitted, KeptEdges, Dedup, Sort;
    var kept, place := KeptEdges(ents, tr, edges, hits), Places(hits);
    assert forall e :: e in kept ==> e.0 in hits;
    GroupedIsSort(hits, kept);
    DedupGroups(ents, tr, edges, hits, |hits|);
    assert hits[..|hits|] == hits;
    RowsMembers(kept, dist);
    RowsMembers(kept, place);
    DistinctCard(RowsBy(kept, dist), Elements(RowsBy(kept, place)));
    DistinctCard(RowsBy(kept, place), Elements(RowsBy(kept, place)));
    assert RowsBy(kept, place) == Dedup(Emitted(ents, tr, edges, hits));
  }

  /**
   The two answers are equal if and only if both plans agree over the over-fetched sources and these surface
   enough; without the latter, the materialised answer is still a prefix of the fused one.
   */
  lemma PlansAgree(ids: seq<int>, ents: map<int, Entity>, tr: set<int>, edges: seq<Edge>, dist: map<int, real>, k: nat)
    requires 0 < k && Distinct(ids)
    ensures Distinct(Hits(RankedSources(ids, dist), k))
    ensures var srcs := RankedSources(ids, dist);
            var merged := Take(Merged(ents, tr, edges, dist, Hits(srcs, k)), k);
            var fused := Take(Emitted(ents, tr, edges, srcs), k);
            var same := SameOverHits(ents, tr, edges, dist, Hits(srcs, k), k);
            (merged == fused <==> same && Surfaced(ents, tr, edges, srcs, k)) && (same ==> merged <= fused)
  {
    hide Emitted, Merged, RankedSources, NoEarlyRepeat, SameFirstListings, Reached, KeptEdges;
    var srcs := RankedSources(ids, dist);
    var hits := Hits(srcs, k);
    HitsDistinct(ids, dist, k);
    MergedIsEmitted(ents, tr, edges, dist, hits, k);
    FewerRowsMerged(ents, tr, edges, dist, hits);
    EmittedPrefix(ents, tr, edges, srcs, |hits|);
    EmittedReached(ents, tr, edges, srcs, |hits|);
    EmittedReached(ents, tr, edges, srcs, |srcs|);
    assert srcs[..|srcs|] == srcs;
    var here, all := Emitted(ents, tr, edges, hits), Emitted(ents, tr, edges, srcs);
    var merged := Merged(ents, tr, edges, dist, hits);
    ElementsCard(here);
    if Reached(ents, tr, edges, srcs) <= Reached(ents, tr, edges, hits) {
      NothingNew(ents, tr, edges, srcs, |hits|, |srcs|);
    }
    if Take(merged, k) == Take(all, k) {
      if |here| >= k {
        assert Take(here, k) == Take(all, k);
        DistinctCard(Take(here, k), Elements(here));
      } else {
        assert |Take(all, k)| <= |here|;
        assert all == here;
      }
    }
  }

  lemma ElementsCard(xs: seq<int>)
    ensures |Elements(xs)| <= |xs|
  {
    DedupDistinct(xs);
    DistinctCard(Dedup(xs), Elements(xs));
  }

  /** They do surface enough whenever the walk stopped within them without an early repeat, or they are the whole corpus. */
  lemma SurfacedWhenWalkIsShort(ents: map<int, Entity>, tr: set<int>, edges: seq<Edge>, srcs: seq<int>, k: nat, examined: nat)
    requires LeastFilling(ents, tr, edges, srcs, k, examined) && NoEarlyRepeat(ents, tr, edges, Hits(srcs, k), k)
    requires examined <= k * ANN_FANOUT || |srcs| <= k * ANN_FANOUT
    ensures Surfaced(ents, tr, edges, srcs, k)
  {
    hide Emitted, NoEarlyRepeat, Reached;
    var hits := Hits(srcs, k);
    if |srcs| <= k * ANN_FANOUT {
      assert hits == srcs;
    } else {
      assert hits[..examined] == srcs[..examined] && hits[..|hits|] == hits;
      EmittedPrefix(ents, tr, edges, hits, examined);
      EmittedReached(ents, tr, edges, hits, |hits|);
      WalkDistinctIff(ents, tr, edges, hits, k);
      assert srcs[..|srcs|] == srcs;
      var here := Emitted(ents, tr, edges, hits);
      if |here| >= k {
        DistinctCard(Take(here, k), Elements(here));
      }
    }
  }

  // ----- side conditions a caller can check on the input -----

  lemma LastIsNew<T>(w: seq<T>, d: T)
    requires Distinct(w + [d])
    ensures d !in w
  {
    assert forall i :: 0 <= i < |w| ==> w[i] == (w + [d])[i] != (w + [d])[|w|];
  }

  lemma {:induction false} DistinctTargets(edges: seq<Edge>, s: int)
    requires Distinct(edges)
    ensures Distinct(Targets(edges, s)) && forall d :: d in Targets(edges, s) <==> (s, d) in edges
  {
    if edges == [] {
    } else {
      var init, e := edges[..|edges| - 1], edges[|edges| - 1];
      assert edges == init + [e];
      DistinctTargets(init, s);
      LastIsNew(init, e);
    }
  }

  /** Edges without repetition leave no source anything to repeat. */
  lemma DistinctEdgesSuffice(ents: map<int, Entity>, tr: set<int>, edges: seq<Edge>, srcs: seq<int>, k: nat)
    requires Distinct(edges)
    ensures NoEarlyRepeat(ents, tr, edges, srcs, k)
  {
    hide Qualifies, Reached, QualifyingOf;
    forall m | 0 <= m < |srcs| ensures Distinct(Targets(edges, srcs[m])) {
      DistinctTargets(edges, srcs[m]);
    }
  }

  /** Consistent ties put every target first alike. */
  lemma ConsistentTiesSuffice(srcs: seq<int>, dist: map<int, real>, es: seq<Edge>, k: nat)
    requires IsRanking(srcs, dist) && TieConsistent(srcs, dist, es) && forall e :: e in es ==> e.0 in srcs
    ensures SameFirstListings(es, dist, Places(srcs), k)
  {
    hide Sort, TieConsistent, SameFirstListings;
    SortIsGrouping(srcs, dist, es);
    GroupedIsSort(srcs, es);
    SameRowsIff(es, dist, Places(srcs), k);
  }

  /** The edge list goes through the sources in dictionary order. */
  ghost predicate GroupedInEntityOrder(ids: seq<int>, edges: seq<Edge>) {
    forall i, j, p, q :: 0 <= i < j < |edges| && 0 <= p < q < |ids| ==> !(edges[i].0 == ids[q] && edges[j].0 == ids[p])
  }

  lemma {:induction false} KeptInOrder(ents: map<int, Entity>, tr: set<int>, edges: seq<Edge>, hits: seq<int>, i: nat, j: nat)
    requires i < j < |KeptEdges(ents, tr, edges, hits)|
    ensures var kept := KeptEdges(ents, tr, edges, hits); Before(edges, kept[i], kept[j])
  {
    var init, e := edges[..|edges| - 1], edges[|edges| - 1];
    var kept, before := KeptEdges(ents, tr, edges, hits), KeptEdges(ents, tr, init, hits);
    assert edges == init + [e];
    if j < |before| {
      KeptInOrder(ents, tr, init, hits, i, j);
    } else {
      assert kept[i] == before[i] && before[i] in before;
    }
    BeforeExtends(init, [e], kept[i], kept[j]);
  }

  /** Such an edge list has consistent ties for every question. */
  lemma EntityOrderSuffices(ids: seq<int>, ents: map<int, Entity>, tr: set<int>, edges: seq<Edge>,
                            dist: map<int, real>, k: nat)
    requires Distinct(ids) && GroupedInEntityOrder(ids, edges)
    ensures var hits := Hits(RankedSources(ids, dist), k);
            TieConsistent(hits, dist, KeptEdges(ents, tr, edges, hits))
  {
    var srcs := RankedSources(ids, dist);
    var hits := Hits(srcs, k);
    var kept := KeptEdges(ents, tr, edges, hits);
    RankedIsRanking(ids, dist);
    hide KeptEdges, RankedSources;
    forall i, j, a, b | 0 <= i < j < |kept| && 0 <= a < b < |hits| && kept[i].0 == hits[b] && kept[j].0 == hits[a]
      ensures Get(dist, hits[a]) < Get(dist, hits[b])
    {
      assert hits[a] == srcs[a] && hits[b] == srcs[b];
      KeptInOrder(ents, tr, edges, hits, i, j);
      if Get(dist, srcs[b]) <= Get(dist, srcs[a]) {
        EdgeOrderIsEntityOrder(ids, edges, kept[i], kept[j], srcs[b], srcs[a]) by { SortedMembers(ids, dist, a, b); }
        TieKeepsEntityOrder(ids, dist, a, b);
        assert false;
      }
    }
  }

  /** For a corpus written source by source with distinct edges, nothing but the over-fetch decides. */
  lemma SeededPlansAgree(ids: seq<int>, ents: map<int, Entity>, tr: set<int>, edges: seq<Edge>, dist: map<int, real>, k: nat)
    requires 0 < k && Distinct(ids) && Distinct(edges) && GroupedInEntityOrder(ids, edges)
    ensures var srcs := RankedSources(ids, dist);
            var merged := Take(Merged(ents, tr, edges, dist, Hits(srcs, k)), k);
            var fused := Take(Emitted(ents, tr, edges, srcs), k);
            merged <= fused && (merged == fused <==> Surfaced(ents, tr, edges, srcs, k))
  {
    hide Emitted, Merged, NoEarlyRepeat, SameFirstListings, Surfaced, KeptEdges, TieConsistent, RankedSources;
    var hits := Hits(RankedSources(ids, dist), k);
    RankedIsRanking(ids, dist);
    HitsDistinct(ids, dist, k);
    PlansAgree(ids, ents, tr, edges, dist, k);
    DistinctEdgesSuffice(ents, tr, edges, hits, k);
    EntityOrderSuffices(ids, ents, tr, edges, dist, k);
    ConsistentTiesSuffice(hits, dist, KeptEdges(ents, tr, edges, hits), k);
  }

  lemma SortedMembers(ids: seq<int>, dist: map<int, real>, a: nat, b: nat)
    requires a < |ids| && b < |ids|
    ensures RankedSources(ids, dist)[a] in ids && RankedSources(ids, dist)[b] in ids
  {
    SortContents(ids, Nearer(dist));
    SameMembers(ids, RankedSources(ids, dist));
  }

  lemma EdgeOrderIsEntityOrder(ids: seq<int>, edges: seq<Edge>, e: Edge, f: Edge, x: int, y: int)
    requires GroupedInEntityOrder(ids, edges) && Before(edges, e, f) && e.0 == x && f.0 == y && x in ids && y in ids
    requires x != y
    ensures Before(ids, x, y)
  {
  }

  lemma TieKeepsEntityOrder(ids: seq<int>, dist: map<int, real>, a: nat, b: nat)
    requires Distinct(ids) && a < b < |ids|
    requires var srcs := RankedSources(ids, dist); Get(dist, srcs[b]) <= Get(dist, srcs[a])
    ensures var srcs := RankedSources(ids, dist); !Before(ids, srcs[b], srcs[a])
  {
    var srcs := RankedSources(ids, dist);
    NearerIsPreorder(dist);
    SortContents(ids, Nearer(dist));
    PermutationDistinct(ids, srcs);
    assert Before(srcs, srcs[a], srcs[b]);
    DistinctBefore(srcs, srcs[a], srcs[b]);
    if Before(ids, srcs[b], srcs[a]) {
      var p, q :| 0 <= p < q < |ids| && ids[p] == srcs[b] && ids[q] == srcs[a];
      SortStable(ids, Nearer(dist), p, q);
      assert false;
    }
  }
}
