/**
 The filter-first KBQA query two ways: `candidates` and `compute_oracle` of
 bench/wikidata_h2h.py, and the plain-SQL statement of bench/wd_allpg_baseline.py.
 */
module KbqaRanking {
  import opened Collections
  import opened Wrappers
  import opened Sums
  import opened Sorting
  import opened AscendingIds
  import opened Reachability
  import opened TypedSearch
  import RecursiveCte
  import Corpora

  type Types = map<int, set<int>>

  /** `None` skips the type filter; any concrete type, 0 included, filters. */
  predicate HasType(types: Types, t: Option<int>, e: int) {
    t.None? || (e in types && t.value in types[e])
  }

  /** The typed reach of `x`, filtered to entities of type `t`. */
  ghost function CandidateSet(adj: TypedAdjacency, types: Types, x: int, p: Option<int>, t: Option<int>, hops: int): set<int> {
    set e | e in Ball(TypedSuccessors(adj, p), {x}, Hops(hops)) - {x} && HasType(types, t, e)
  }

  /** `e` is of type `t`, if a type is asked for. */
  ghost predicate OfType(types: Types, t: Option<int>, e: int) {
    t.Some? ==> e in types && t.value in types[e]
  }

  lemma CandidateMeans(adj: TypedAdjacency, types: Types, x: int, p: Option<int>, t: Option<int>, hops: int, e: int)
    ensures e in CandidateSet(adj, types, x, p, t, hops) <==> TypedReaches(adj, p, x, hops, e) && OfType(types, t, e)
  {
    hide Ball, TypedReaches, TypedSuccessors;
    ReachIsTyped(adj, p, x, hops, e);
  }

  // ----- ranking -----

  /** `top` ranks the elements of `s` by `le`, equal ones by ascending id, and keeps k. */
  ghost predicate IsTop(top: seq<int>, s: set<int>, le: (int, int) -> bool, k: nat) {
    exists ids :: IsAscending(ids, s) && top == Take(Sort(ids, le), k)
  }

  lemma SameTop(a: seq<int>, b: seq<int>, s: set<int>, le: (int, int) -> bool, le': (int, int) -> bool, k: nat)
    requires IsTop(a, s, le, k) && IsTop(b, s, le', k)
    requires forall u, v :: u in s && v in s ==> le(u, v) == le'(u, v)
    ensures a == b
  {
    var ids :| IsAscending(ids, s) && a == Take(Sort(ids, le), k);
    var ids' :| IsAscending(ids', s) && b == Take(Sort(ids', le'), k);
    AscendingUnique(ids, ids', s);
    SortSameOrder(ids, le, le');
  }

  /** `a` is ranked strictly before `b`, equal ones by id. */
  predicate Ahead(le: (int, int) -> bool, a: int, b: int) {
    le(a, b) && (le(b, a) ==> a < b)
  }

  /** The list is in that order, and nothing of `s` that it leaves out is ahead of anything it lists. */
  lemma TopMeans(top: seq<int>, s: set<int>, le: (int, int) -> bool, k: nat)
    requires IsTop(top, s, le, k) && TotalPreorder(le)
    ensures |top| == (if k <= |s| then k else |s|) && (forall e :: e in top ==> e in s) && Distinct(top)
    ensures forall i, j :: 0 <= i < j < |top| ==> Ahead(le, top[i], top[j])
    ensures forall i, e :: 0 <= i < |top| && e in s && e !in top ==> Ahead(le, top[i], e)
  {
    var ids :| IsAscending(ids, s) && top == Take(Sort(ids, le), k);
    var all := Sort(ids, le);
    SortContents(ids, le);
    SameMembers(ids, all);
    PermutationDistinct(ids, all);
    DistinctCard(all, s);
    forall i, j | 0 <= i < j < |all| ensures Ahead(le, all[i], all[j]) {
      SortedAhead(ids, s, le, i, j);
    }
    hide Sort, Ahead, TotalPreorder;
    assert forall i :: 0 <= i < |top| ==> top[i] == all[i] && all[i] in all;
    forall i, e | 0 <= i < |top| && e in s && e !in top ensures Ahead(le, top[i], e) {
      assert e in ids;
      assert e in all;
      var j :| 0 <= j < |all| && all[j] == e;
      assert j >= |top|;
    }
  }

  lemma SortedAhead(ids: seq<int>, s: set<int>, le: (int, int) -> bool, i: nat, j: nat)
    requires IsAscending(ids, s) && TotalPreorder(le) && i < j < |Sort(ids, le)|
    ensures Ahead(le, Sort(ids, le)[i], Sort(ids, le)[j])
  {
    var all := Sort(ids, le);
    SortContents(ids, le);
    SortSorted(ids, le);
    SameMembers(ids, all);
    PermutationDistinct(ids, all);
    hide Sort, TotalPreorder;
    var a, b := all[i], all[j];
    assert a in all && b in all;
    assert a in ids && b in ids;
    var p :| 0 <= p < |ids| && ids[p] == a;
    var q :| 0 <= q < |ids| && ids[q] == b;
    assert !Before(all, b, a);
    if le(b, a) && q < p {
      SortStable(ids, le, q, p);
    }
  }

  // ----- similarity and distance -----

  function Inner(a: seq<real>, b: seq<real>): real {
    if a == [] || b == [] then 0.0 else a[0] * b[0] + Inner(a[1..], b[1..])
  }

  lemma {:induction false} DistanceFromInner(a: seq<real>, b: seq<real>)
    requires |a| == |b|
    ensures Corpora.L2Sq(a, b) == Inner(a, a) - 2.0 * Inner(a, b) + Inner(b, b)
  {
    if a != [] {
      DistanceFromInner(a[1..], b[1..]);
    } else {
    }
  }

  ghost predicate UnitVectors(emb: seq<seq<real>>) {
    forall i, j :: 0 <= i < |emb| && 0 <= j < |emb| ==> |emb[i]| == |emb[j]| && Inner(emb[i], emb[i]) == 1.0
  }

  function Similarities(emb: seq<seq<real>>, q: seq<real>): map<int, real> {
    map e: int | 0 <= e < |emb| :: Inner(emb[e], q)
  }

  function SquaredDistances(emb: seq<seq<real>>, q: seq<real>): map<int, real> {
    map e: int | 0 <= e < |emb| :: Corpora.L2Sq(emb[e], q)
  }

  /** Descending similarity, as `lexsort` ranks with -sims as its primary key. */
  function MoreSimilar(emb: seq<seq<real>>, q: seq<real>): (int, int) -> bool {
    var sims := Similarities(emb, q);
    (a, b) => Get(sims, a) >= Get(sims, b)
  }

  /** Ascending distance, as ORDER BY embedding <-> q ranks. */
  function Closer(emb: seq<seq<real>>, q: seq<real>): (int, int) -> bool {
    var dist := SquaredDistances(emb, q);
    (a, b) => Get(dist, a) <= Get(dist, b)
  }

  /** On unit vectors the two orders are the same. */
  lemma SimilarityIsCloseness(emb: seq<seq<real>>, x: nat, a: int, b: int)
    requires UnitVectors(emb) && x < |emb| && 0 <= a < |emb| && 0 <= b < |emb|
    ensures MoreSimilar(emb, emb[x])(a, b) == Closer(emb, emb[x])(a, b)
  {
    DistanceFromInner(emb[a], emb[x]);
    DistanceFromInner(emb[b], emb[x]);
  }

  // ----- the programs -----

  /** `candidates`. */
  method Candidates(adj: TypedAdjacency, types: Types, x: int, p: Option<int>, t: Option<int>, hops: int)
    returns (ids: seq<int>)
    ensures IsAscending(ids, CandidateSet(adj, types, x, p, t, hops))
    ensures forall i, j :: 0 <= i < j < |ids| ==> ids[i] < ids[j]
    ensures forall e :: e in ids <==> TypedReaches(adj, p, x, hops, e) && OfType(types, t, e)
  {
    hide TypedReaches;
    forall e ensures e in CandidateSet(adj, types, x, p, t, hops)
                <==> TypedReaches(adj, p, x, hops, e) && OfType(types, t, e) {
      CandidateMeans(adj, types, x, p, t, hops, e);
    }
    var reach := TypedReach(adj, x, p, hops);
    ids := SortedIds(set e | e in reach && HasType(types, t, e));
  }

  datatype KbqaQuery = KbqaQuery(x: int, p: Option<int>, t: Option<int>)

  /** The exact answer of one query: its candidates by similarity to the anchor, k of them. */
  ghost predicate IsOracleAnswer(emb: seq<seq<real>>, adj: TypedAdjacency, types: Types, q: KbqaQuery, k: nat,
                                 hops: int, top: seq<int>)
    requires 0 <= q.x < |emb|
  {
    IsTop(top, CandidateSet(adj, types, q.x, q.p, q.t, hops), MoreSimilar(emb, emb[q.x]), k)
  }

  /** Every listed target has a row of embeddings; without one the ranking cannot be indexed. */
  predicate TargetsHaveRows(adj: TypedAdjacency, rows: nat) {
    forall u :: u in adj ==> forall i :: 0 <= i < |adj[u]| ==> 0 <= adj[u][i].1 < rows
  }

  /** `compute_oracle`: query number -> answer. */
  method ComputeOracle(emb: seq<seq<real>>, adj: TypedAdjacency, types: Types, queries: seq<KbqaQuery>, k: nat, hops: int)
    returns (oracle: map<int, seq<int>>)
    requires forall i :: 0 <= i < |queries| ==> 0 <= queries[i].x < |emb|
    requires TargetsHaveRows(adj, |emb|)
    ensures forall i :: i in oracle <==> 0 <= i < |queries|
    ensures forall i :: 0 <= i < |queries| ==> IsOracleAnswer(emb, adj, types, queries[i], k, hops, oracle[i])
    ensures forall i :: 0 <= i < |queries| ==> AreMostSimilar(oracle[i], emb, adj, types, queries[i], k, hops)
  {
    hide AreMostSimilar;
    oracle := map[];
    for i := 0 to |queries|
      invariant forall j :: j in oracle <==> 0 <= j < i
      invariant forall j :: 0 <= j < i ==> IsOracleAnswer(emb, adj, types, queries[j], k, hops, oracle[j])
    {
      var q := queries[i];
      var cand := Candidates(adj, types, q.x, q.p, q.t, hops);
      var top := if cand == [] then [] else Take(Sort(cand, MoreSimilar(emb, emb[q.x])), k);
      oracle := oracle[i := top];
    }
    forall i | 0 <= i < |queries| ensures AreMostSimilar(oracle[i], emb, adj, types, queries[i], k, hops) {
      OracleAnswerMeans(emb, adj, types, queries[i], k, hops, oracle[i]);
    }
  }

  /** `a` is more similar to `x` than `b`, or as similar with the smaller id. */
  ghost predicate MoreAlike(emb: seq<seq<real>>, x: int, a: int, b: int) {
    && 0 <= x < |emb| && 0 <= a < |emb| && 0 <= b < |emb|
    && (Inner(emb[a], emb[x]) > Inner(emb[b], emb[x]) || (Inner(emb[a], emb[x]) == Inner(emb[b], emb[x]) && a < b))
  }

  /** `top` are the `k` most similar of the candidates, or all of them, most similar first. */
  ghost predicate AreMostSimilar(top: seq<int>, emb: seq<seq<real>>, adj: TypedAdjacency, types: Types, q: KbqaQuery, k: nat,
                                 hops: int)
  {
    && (forall e :: e in top ==> TypedReaches(adj, q.p, q.x, hops, e) && OfType(types, q.t, e))
    && |top| <= k && (forall i, j :: 0 <= i < j < |top| ==> MoreAlike(emb, q.x, top[i], top[j]))
    && forall e :: TypedReaches(adj, q.p, q.x, hops, e) && OfType(types, q.t, e) && e !in top ==>
         |top| == k && forall i :: 0 <= i < |top| ==> MoreAlike(emb, q.x, top[i], e)
  }

  lemma OracleAnswerMeans(emb: seq<seq<real>>, adj: TypedAdjacency, types: Types, q: KbqaQuery, k: nat, hops: int, top: seq<int>)
    requires 0 <= q.x < |emb| && TargetsHaveRows(adj, |emb|) && IsOracleAnswer(emb, adj, types, q, k, hops, top)
    ensures AreMostSimilar(top, emb, adj, types, q, k, hops)
  {
    hide Inner, TypedReaches, CandidateSet, OfType, IsTop, TargetsHaveRows;
    var le, s := MoreSimilar(emb, emb[q.x]), CandidateSet(adj, types, q.x, q.p, q.t, hops);
    TopMeans(top, s, le, k);
    forall e ensures e in s <==> TypedReaches(adj, q.p, q.x, hops, e) && OfType(types, q.t, e)
             ensures e in s ==> 0 <= e < |emb|
    {
      CandidateMeans(adj, types, q.x, q.p, q.t, hops, e);
      if TypedReaches(adj, q.p, q.x, hops, e) {
        ReachedHasRow(adj, q.p, q.x, hops, e, |emb|);
      }
    }
    forall a, b | a in s && b in s && Ahead(le, a, b) ensures MoreAlike(emb, q.x, a, b) {
    }
    hide Ahead, MoreAlike;
    TopInSet(top, s, k);
  }

  /** A top k in its order: of the set, without repetition, and everything if it is shorter than k. */
  lemma TopInSet(top: seq<int>, s: set<int>, k: nat)
    requires |top| == (if k <= |s| then k else |s|) && (forall e :: e in top ==> e in s) && Distinct(top)
    ensures |top| < k ==> forall e :: e in s ==> e in top
    ensures forall i :: 0 <= i < |top| ==> top[i] in s
  {
    forall i | 0 <= i < |top| ensures top[i] in s {
      var e := top[i];
      assert e in top;
    }
    if |top| == |s| {
      AllListed(top, s);
    }
  }

  lemma AllListed(top: seq<int>, s: set<int>)
    requires Distinct(top) && (forall e :: e in top ==> e in s) && |top| == |s|
    ensures forall e :: e in s ==> e in top
  {
    DistinctCard(top, Elements(top));
    SubsetCard(Elements(top), s);
  }

  lemma ReachedHasRow(adj: TypedAdjacency, p: Option<int>, x: int, hops: int, e: int, rows: nat)
    requires TargetsHaveRows(adj, rows) && TypedReaches(adj, p, x, hops, e)
    ensures 0 <= e < rows
  {
    var steps: nat :| 1 <= steps <= hops && TypedWalk(adj, p, x, e, steps);
    var w: seq<int> :| |w| == steps + 1 && w[0] == x && w[steps] == e
                       && forall i :: 0 <= i < steps ==> TypedStep(adj, p, w[i], w[i + 1]);
    assert TypedStep(adj, p, w[steps - 1], w[steps - 1 + 1]);
  }

  /** What the SQL statement keeps: entities of the table, reached, of the type, not the anchor. */
  ghost function SqlSet(table: set<int>, links: TypedAdjacency, types: Types, x: int, typeId: int, t: int, hops: int): set<int> {
    set e | e in table && e in RecursiveCte.Dsts(RecursiveCte.Rows(TypedSuccessors(links, Some(typeId)), x, RecursiveCte.DepthCap(hops))) - {x}
            && HasType(types, Some(t), e)
  }

  /** `a` is nearer to `x` than `b`, or as near with the smaller id. */
  ghost predicate NearerTo(emb: seq<seq<real>>, x: int, a: int, b: int) {
    && 0 <= x < |emb| && 0 <= a < |emb| && 0 <= b < |emb|
    && var d, e := Corpora.L2Sq(emb[a], emb[x]), Corpora.L2Sq(emb[b], emb[x]); d < e || (d == e && a < b)
  }

  /** `answer` are the `k` nearest entities of the table among those the recursion reaches, of the type and not the anchor. */
  ghost predicate AreNearestEntities(answer: seq<int>, table: set<int>, emb: seq<seq<real>>, links: TypedAdjacency, types: Types,
                                     x: int, typeId: int, t: int, hops: int, k: nat)
  {
    && (forall e :: e in answer ==> IsKept(table, links, types, x, typeId, t, hops, e))
    && |answer| <= k && (forall i, j :: 0 <= i < j < |answer| ==> NearerTo(emb, x, answer[i], answer[j]))
    && forall e :: IsKept(table, links, types, x, typeId, t, hops, e) && e !in answer ==>
         |answer| == k && forall i :: 0 <= i < |answer| ==> NearerTo(emb, x, answer[i], e)
  }

  /** The statement's conditions on one entity, on tables and edges themselves. */
  ghost predicate IsKept(table: set<int>, links: TypedAdjacency, types: Types, x: int, typeId: int, t: int, hops: int, e: int) {
    && e in table && e != x && e in types && t in types[e]
    && exists steps: nat :: 1 <= steps && (steps <= hops || steps == 1) && TypedWalk(links, Some(typeId), x, e, steps)
  }

  lemma SqlSetMeans(table: set<int>, links: TypedAdjacency, types: Types, x: int, typeId: int, t: int, hops: int, e: int)
    ensures e in SqlSet(table, links, types, x, typeId, t, hops) <==> IsKept(table, links, types, x, typeId, t, hops, e)
  {
    hide TypedWalk, RecursiveCte.Rows;
    var rows := RecursiveCte.Rows(TypedSuccessors(links, Some(typeId)), x, RecursiveCte.DepthCap(hops));
    forall r ensures r in rows <==> RecursiveCte.IsTypedRow(links, x, typeId, hops, r) {
      RecursiveCte.RowIsTyped(links, x, typeId, hops, r);
    }
    if steps: nat :| 1 <= steps && (steps <= hops || steps == 1) && TypedWalk(links, Some(typeId), x, e, steps) {
      var r: RecursiveCte.Row := (e, steps);
      assert RecursiveCte.IsTypedRow(links, x, typeId, hops, r);
      assert r in rows && r.0 == e;
    }
  }

  lemma SqlAnswerMeans(answer: seq<int>, table: set<int>, emb: seq<seq<real>>, links: TypedAdjacency, types: Types, x: int,
                       typeId: int, t: int, hops: int, k: nat)
    requires 0 <= x < |emb| && forall e :: e in table ==> 0 <= e < |emb|
    requires IsTop(answer, SqlSet(table, links, types, x, typeId, t, hops), Closer(emb, emb[x]), k)
    ensures AreNearestEntities(answer, table, emb, links, types, x, typeId, t, hops, k)
  {
    hide Corpora.L2Sq, IsTop, IsKept;
    var le, s := Closer(emb, emb[x]), SqlSet(table, links, types, x, typeId, t, hops);
    assert forall e :: e in s ==> 0 <= e < |emb|;
    hide SqlSet;
    TopMeans(answer, s, le, k);
    forall e ensures e in s <==> IsKept(table, links, types, x, typeId, t, hops, e) {
      SqlSetMeans(table, links, types, x, typeId, t, hops, e);
    }
    forall a, b | a in s && b in s && Ahead(le, a, b) ensures NearerTo(emb, x, a, b) {
    }
    hide Ahead, NearerTo;
    TopInSet(answer, s, k);
  }

  /** The all-SQL statement: recursive reach, type filter, ORDER BY distance, id LIMIT k. */
  method SqlAllPg(table: set<int>, emb: seq<seq<real>>, links: TypedAdjacency, types: Types, x: int, typeId: int, t: int,
                  hops: int, k: nat)
    returns (answer: seq<int>)
    requires 0 <= x < |emb| && forall e :: e in table ==> 0 <= e < |emb|
    ensures IsTop(answer, SqlSet(table, links, types, x, typeId, t, hops), Closer(emb, emb[x]), k)
    ensures AreNearestEntities(answer, table, emb, links, types, x, typeId, t, hops, k)
  {
    hide AreNearestEntities, RecursiveCte.IsTypedRow;
    var rows := RecursiveCte.Evaluate(links, x, typeId, hops);
    var reached := set r | r in rows && r.0 != x :: r.0;
    assert reached == RecursiveCte.Dsts(rows) - {x};
    var ids := SortedIds(set e | e in table && e in reached && HasType(types, Some(t), e));
    assert SqlSet(table, links, types, x, typeId, t, hops) == set e | e in table && e in reached && HasType(types, Some(t), e);
    answer := Take(Sort(ids, Closer(emb, emb[x])), k);
    SqlAnswerMeans(answer, table, emb, links, types, x, typeId, t, hops, k);
  }

  /**
   For at least one hop, on unit vectors and with every reached node in the entity table, the SQL
   statement and the oracle give the same list.
   */
  lemma SqlAgreesWithOracle(table: set<int>, emb: seq<seq<real>>, adj: TypedAdjacency, types: Types, x: int, typeId: int,
                            t: int, hops: int, k: nat, sql: seq<int>, oracle: seq<int>)
    requires hops >= 1 && UnitVectors(emb) && 0 <= x < |emb|
    requires Ball(TypedSuccessors(adj, Some(typeId)), {x}, hops) <= table
    requires forall e :: e in table ==> 0 <= e < |emb|
    requires IsTop(sql, SqlSet(table, adj, types, x, typeId, t, hops), Closer(emb, emb[x]), k)
    requires IsOracleAnswer(emb, adj, types, KbqaQuery(x, Some(typeId), Some(t)), k, hops, oracle)
    ensures sql == oracle
  {
    hide Ball, RecursiveCte.Rows, RecursiveCte.Dsts, IsTop, MoreSimilar, Closer;
    var succ := TypedSuccessors(adj, Some(typeId));
    RecursiveCte.CteIsReach(succ, x, hops);
    var s := CandidateSet(adj, types, x, Some(typeId), Some(t), hops);
    assert SqlSet(table, adj, types, x, typeId, t, hops) == s;
    forall a, b | a in s && b in s ensures Closer(emb, emb[x])(a, b) == MoreSimilar(emb, emb[x])(a, b) {
      SimilarityIsCloseness(emb, x, a, b);
    }
    SameTop(sql, oracle, s, Closer(emb, emb[x]), MoreSimilar(emb, emb[x]), k);
  }
}
