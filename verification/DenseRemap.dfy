/**
 The dense renaming of a slice in bench/wikidata_h2h.py: `load_dense_map`, `load_typed_adj` and
 `load_types`, and why a query on the renamed slice answers the query on the original ids.
 */
module DenseRemap {
  import opened Collections
  import opened Wrappers
  import opened Reachability
  import opened TypedSearch
  import opened KbqaRanking

  /** An edge row: source, property, target, in original ids. */
  type EdgeRow = (int, int, int)

  /** A claims row: entity and its P31 list, in original ids. */
  type ClaimRow = (int, seq<int>)

  /** The two maps undo each other, and dense ids are 0 .. |back|-1. */
  ghost predicate Inverse(qmap: map<int, int>, back: seq<int>) {
    && (forall q :: q in qmap ==> 0 <= qmap[q] < |back| && back[qmap[q]] == q)
    && (forall i :: 0 <= i < |back| ==> back[i] in qmap && qmap[back[i]] == i)
  }

  /** `load_dense_map`: every id gets the ordinal of its first occurrence. */
  method LoadDenseMap(ids: seq<int>) returns (qmap: map<int, int>, back: seq<int>)
    ensures Inverse(qmap, back) && back == Dedup(ids)
    ensures forall q :: q in qmap <==> q in ids
  {
    qmap, back := map[], [];
    for n := 0 to |ids|
      invariant Inverse(qmap, back) && back == Dedup(ids[..n])
      invariant forall q :: q in qmap <==> q in ids[..n]
    {
      var q := ids[n];
      assert ids[..n + 1][..n] == ids[..n];
      assert ids[..n + 1] == ids[..n] + [q];
      if q !in qmap {
        qmap := qmap[q := |back|];
        back := back + [q];
      }
    }
    assert ids[..|ids|] == ids;
  }

  /** The renamed out-edges of dense node `s`, in row order, edges leaving the slice dropped. */
  function Renamed(rows: seq<EdgeRow>, qmap: map<int, int>, s: int): seq<(int, int)> {
    if rows == [] then []
    else
      var r := rows[|rows| - 1];
      Renamed(rows[..|rows| - 1], qmap, s)
        + if r.0 in qmap && r.2 in qmap && qmap[r.0] == s then [(r.1, qmap[r.2])] else []
  }

  /** `load_typed_adj`. */
  method LoadTypedAdj(rows: seq<EdgeRow>, qmap: map<int, int>) returns (adj: TypedAdjacency)
    ensures forall s :: OutEdges(adj, s) == Renamed(rows, qmap, s)
  {
    adj := map[];
    for n := 0 to |rows|
      invariant forall s :: OutEdges(adj, s) == Renamed(rows[..n], qmap, s)
    {
      var (src, p, dst) := rows[n];
      assert rows[..n + 1][..n] == rows[..n];
      if src in qmap && dst in qmap {
        adj := adj[qmap[src] := OutEdges(adj, qmap[src]) + [(p, qmap[dst])]];
      }
    }
    assert rows[..|rows|] == rows;
  }

  function InSlice(ts: seq<int>, qmap: map<int, int>): set<int> {
    set t | t in ts && t in qmap
  }

  /** The types of the slice in original ids: the last claims row of an entity that names a type of the slice. */
  function SparseTypes(rows: seq<ClaimRow>, qmap: map<int, int>): Types {
    if rows == [] then map[]
    else
      var r := rows[|rows| - 1];
      var before := SparseTypes(rows[..|rows| - 1], qmap);
      if r.0 in qmap && InSlice(r.1, qmap) != {} then before[r.0 := InSlice(r.1, qmap)] else before
  }

  /** Claims row `n` is about `q` and names a type of the slice. */
  ghost predicate IsTypeRow(rows: seq<ClaimRow>, qmap: map<int, int>, q: int, n: int) {
    0 <= n < |rows| && rows[n].0 == q && q in qmap && exists t :: t in rows[n].1 && t in qmap
  }

  ghost predicate IsLastTypeRow(rows: seq<ClaimRow>, qmap: map<int, int>, q: int, n: int) {
    IsTypeRow(rows, qmap, q, n) && forall m :: n < m < |rows| ==> !IsTypeRow(rows, qmap, q, m)
  }

  /** The last such row of an entity wins, and what it names outside the slice is dropped. */
  lemma {:induction false} LastRowWins(rows: seq<ClaimRow>, qmap: map<int, int>, q: int)
    ensures q in SparseTypes(rows, qmap) <==> exists n :: IsLastTypeRow(rows, qmap, q, n)
    ensures forall n :: IsLastTypeRow(rows, qmap, q, n) ==>
              q in SparseTypes(rows, qmap) && SparseTypes(rows, qmap)[q] == set t | t in rows[n].1 && t in qmap
  {
    if rows != [] {
      var init, last := rows[..|rows| - 1], |rows| - 1;
      LastRowWins(init, qmap, q);
      forall n | 0 <= n < last ensures IsTypeRow(rows, qmap, q, n) <==> IsTypeRow(init, qmap, q, n) {
        assert rows[n] == init[n];
      }
      NamesSome(rows, qmap, q, last);
      hide IsTypeRow;
      if IsTypeRow(rows, qmap, q, last) {
        assert IsLastTypeRow(rows, qmap, q, last);
      } else {
        forall n ensures IsLastTypeRow(rows, qmap, q, n) <==> IsLastTypeRow(init, qmap, q, n) {
          TypeRowInRange(rows, qmap, q, n);
          TypeRowInRange(init, qmap, q, n);
        }
      }
    } else {
    }
  }

  lemma TypeRowInRange(rows: seq<ClaimRow>, qmap: map<int, int>, q: int, n: int)
    ensures IsTypeRow(rows, qmap, q, n) ==> 0 <= n < |rows|
  {
  }

  lemma NamesSome(rows: seq<ClaimRow>, qmap: map<int, int>, q: int, n: nat)
    requires n < |rows|
    ensures IsTypeRow(rows, qmap, q, n) <==> rows[n].0 == q && rows[n].0 in qmap && InSlice(rows[n].1, qmap) != {}
  {
    if InSlice(rows[n].1, qmap) != {} {
      var t := Choose(InSlice(rows[n].1, qmap));
    }
    if t :| t in rows[n].1 && t in qmap {
      assert t in InSlice(rows[n].1, qmap);
    }
  }

  function RenamedSet(s: set<int>, qmap: map<int, int>): set<int>
    requires forall t :: t in s ==> t in qmap
  {
    set t | t in s :: qmap[t]
  }

  /** `dense` holds the types of `sparse` under the renaming. */
  ghost predicate TypesRenamed(dense: Types, sparse: Types, qmap: map<int, int>, back: seq<int>) {
    && (forall q :: q in sparse ==> q in qmap && forall t :: t in sparse[q] ==> t in qmap)
    && (forall q :: q in qmap ==> (q in sparse <==> qmap[q] in dense))
    && (forall q :: q in sparse ==> dense[qmap[q]] == RenamedSet(sparse[q], qmap))
    && (forall e :: e in dense ==> 0 <= e < |back|)
  }

  /** `load_types`. */
  method LoadTypes(rows: seq<ClaimRow>, qmap: map<int, int>, ghost back: seq<int>) returns (types: Types)
    requires Inverse(qmap, back)
    ensures TypesRenamed(types, SparseTypes(rows, qmap), qmap, back)
    ensures forall q :: q in qmap ==> (qmap[q] in types <==> exists n :: IsLastTypeRow(rows, qmap, q, n))
    ensures forall q, n :: q in qmap && IsLastTypeRow(rows, qmap, q, n) ==>
              types[qmap[q]] == set t | t in rows[n].1 && t in qmap :: qmap[t]
  {
    hide IsLastTypeRow;
    types := map[];
    for n := 0 to |rows|
      invariant TypesRenamed(types, SparseTypes(rows[..n], qmap), qmap, back)
    {
      var (id, p31) := rows[n];
      assert rows[..n + 1][..n] == rows[..n];
      if id in qmap {
        var ts := set t | t in p31 && t in qmap :: qmap[t];
        assert ts == RenamedSet(InSlice(p31, qmap), qmap);
        SomeRenamed(InSlice(p31, qmap), qmap);
        if ts != {} {
          types := types[qmap[id] := ts];
        }
      }
    }
    assert rows[..|rows|] == rows;
    TypesOfRows(rows, qmap, back, types);
  }

  lemma TypesOfRows(rows: seq<ClaimRow>, qmap: map<int, int>, back: seq<int>, types: Types)
    requires TypesRenamed(types, SparseTypes(rows, qmap), qmap, back)
    ensures forall q :: q in qmap ==> (qmap[q] in types <==> exists n :: IsLastTypeRow(rows, qmap, q, n))
    ensures forall q, n :: q in qmap && IsLastTypeRow(rows, qmap, q, n) ==>
              types[qmap[q]] == set t | t in rows[n].1 && t in qmap :: qmap[t]
  {
    hide SparseTypes, IsLastTypeRow;
    forall q | q in qmap ensures qmap[q] in types <==> exists n :: IsLastTypeRow(rows, qmap, q, n) {
      LastRowWins(rows, qmap, q);
    }
    forall q, n | IsLastTypeRow(rows, qmap, q, n) ensures 0 <= n < |rows| {
      LastRowInRange(rows, qmap, q);
    }
    forall q, n | q in qmap && 0 <= n < |rows| && IsLastTypeRow(rows, qmap, q, n)
      ensures types[qmap[q]] == set t | t in rows[n].1 && t in qmap :: qmap[t]
    {
      LastRowWins(rows, qmap, q);
      assert types[qmap[q]] == RenamedSet(SparseTypes(rows, qmap)[q], qmap);
    }
  }

  lemma SomeRenamed(s: set<int>, qmap: map<int, int>)
    requires forall t :: t in s ==> t in qmap
    ensures RenamedSet(s, qmap) == {} <==> s == {}
  {
    if s != {} {
      var t := Choose(s);
      assert qmap[t] in RenamedSet(s, qmap);
    }
  }

  // ----- transport -----

  /** The p-typed successors within the slice, in original ids. */
  function SparseSuccessors(rows: seq<EdgeRow>, p: Option<int>, qmap: map<int, int>): Successors {
    u => set r | r in rows && r.0 == u && r.0 in qmap && r.2 in qmap && Allowed(p, r.1) :: r.2
  }

  /** A row of the slice leads from `u` to `v` and has the property, if one is asked for. */
  ghost predicate RowStep(rows: seq<EdgeRow>, p: Option<int>, qmap: map<int, int>, u: int, v: int) {
    exists r :: r in rows && r.0 == u && r.2 == v && u in qmap && v in qmap && (p == None || p == Some(r.1))
  }

  ghost predicate RowWalk(rows: seq<EdgeRow>, p: Option<int>, qmap: map<int, int>, x: int, v: int, steps: nat) {
    exists w: seq<int> :: |w| == steps + 1 && w[0] == x && w[steps] == v
                          && forall i :: 0 <= i < steps ==> RowStep(rows, p, qmap, w[i], w[i + 1])
  }

  /** Another entity at the end of 1..hops rows of the slice. */
  ghost predicate RowReaches(rows: seq<EdgeRow>, p: Option<int>, qmap: map<int, int>, x: int, hops: int, v: int) {
    v != x && exists steps: nat :: 1 <= steps <= hops && RowWalk(rows, p, qmap, x, v, steps)
  }

  lemma SparseStep(rows: seq<EdgeRow>, p: Option<int>, qmap: map<int, int>, u: int, v: int)
    ensures v in SparseSuccessors(rows, p, qmap)(u) <==> RowStep(rows, p, qmap, u, v)
  {
    if r :| r in rows && r.0 == u && r.2 == v && u in qmap && v in qmap && (p == None || p == Some(r.1)) {
      assert Allowed(p, r.1) && r.2 in SparseSuccessors(rows, p, qmap)(u);
    }
    if v in SparseSuccessors(rows, p, qmap)(u) {
      var r :| r in rows && r.0 == u && r.0 in qmap && r.2 in qmap && Allowed(p, r.1) && r.2 == v;
      assert r in rows && r.0 == u && r.2 == v;
      assert u in qmap;
      assert v in qmap;
      assert Allowed(p, r.1);
      assert p.None? || r.1 == p.value;
      assert p == None || p == Some(r.1);
    }
  }

  lemma WalkIsOnRows(rows: seq<EdgeRow>, p: Option<int>, qmap: map<int, int>, x: int, v: int, steps: nat)
    ensures Reaches(SparseSuccessors(rows, p, qmap), {x}, v, steps) <==> RowWalk(rows, p, qmap, x, v, steps)
  {
    var succ := SparseSuccessors(rows, p, qmap);
    forall a, b ensures b in succ(a) <==> RowStep(rows, p, qmap, a, b) {
      SparseStep(rows, p, qmap, a, b);
    }
    hide RowStep, SparseSuccessors;
    if Reaches(succ, {x}, v, steps) {
      var w :| IsWalk(succ, w) && |w| == steps + 1 && w[0] in {x} && w[steps] == v;
      assert forall i :: 0 <= i < steps ==> RowStep(rows, p, qmap, w[i], w[i + 1]);
    }
    if RowWalk(rows, p, qmap, x, v, steps) {
      var w: seq<int> :| |w| == steps + 1 && w[0] == x && w[steps] == v
                         && forall i :: 0 <= i < steps ==> RowStep(rows, p, qmap, w[i], w[i + 1]);
      assert IsWalk(succ, w);
    }
  }

  lemma ReachIsOnRows(rows: seq<EdgeRow>, p: Option<int>, qmap: map<int, int>, x: int, hops: int, v: int)
    ensures v in Ball(SparseSuccessors(rows, p, qmap), {x}, Hops(hops)) - {x} <==> RowReaches(rows, p, qmap, x, hops, v)
  {
    hide Ball, RowWalk, Reaches, SparseSuccessors;
    ReachIsWalks(SparseSuccessors(rows, p, qmap), x, v, Hops(hops));
    forall steps: nat ensures Reaches(SparseSuccessors(rows, p, qmap), {x}, v, steps) <==> RowWalk(rows, p, qmap, x, v, steps) {
      WalkIsOnRows(rows, p, qmap, x, v, steps);
    }
  }

  lemma {:induction false} RenamedMember(rows: seq<EdgeRow>, qmap: map<int, int>, s: int, e: (int, int))
    ensures e in Renamed(rows, qmap, s)
       <==> exists r :: r in rows && r.0 in qmap && r.2 in qmap && qmap[r.0] == s && e == (r.1, qmap[r.2])
  {
    if rows == [] {
    } else {
      var init, last := rows[..|rows| - 1], rows[|rows| - 1];
      assert rows == init + [last];
      RenamedMember(init, qmap, s, e);
    }
  }

  /** The renaming maps the edges of the slice one to one. */
  lemma SuccessorsRenamed(rows: seq<EdgeRow>, qmap: map<int, int>, back: seq<int>, adj: TypedAdjacency, p: Option<int>,
                          q: int, v: int)
    requires Inverse(qmap, back) && q in qmap && forall s :: OutEdges(adj, s) == Renamed(rows, qmap, s)
    ensures v in TypedSuccessors(adj, p)(qmap[q])
       <==> 0 <= v < |back| && back[v] in SparseSuccessors(rows, p, qmap)(q)
  {
    var es := OutEdges(adj, qmap[q]);
    if v in Matching(p, es) {
      var i :| 0 <= i < |es| && Allowed(p, es[i].0) && es[i].1 == v;
      RenamedMember(rows, qmap, qmap[q], es[i]);
      var r :| r in rows && r.0 in qmap && r.2 in qmap && qmap[r.0] == qmap[q] && es[i] == (r.1, qmap[r.2]);
      var (src, dst) := (r.0, r.2);
      assert src in qmap && back[qmap[src]] == src && dst in qmap && back[qmap[dst]] == dst;
      assert src == q && v == qmap[dst];
      assert r.2 in SparseSuccessors(rows, p, qmap)(q);
    }
    if 0 <= v < |back| && back[v] in SparseSuccessors(rows, p, qmap)(q) {
      var r :| r in rows && r.0 == q && r.0 in qmap && r.2 in qmap && Allowed(p, r.1) && r.2 == back[v];
      RenamedMember(rows, qmap, qmap[q], (r.1, qmap[r.2]));
      var i :| 0 <= i < |es| && es[i] == (r.1, qmap[r.2]);
      assert Allowed(p, es[i].0) && es[i].1 == v;
    }
  }

  /** The successors of both graphs correspond. */
  ghost predicate Corresponds(dense: Successors, sparse: Successors, qmap: map<int, int>, back: seq<int>) {
    forall q, v :: q in qmap ==> (v in dense(qmap[q]) <==> 0 <= v < |back| && back[v] in sparse(q))
  }

  lemma {:induction false} BallRenamed(dense: Successors, sparse: Successors, qmap: map<int, int>, back: seq<int>,
                                       x: int, hops: nat)
    requires Inverse(qmap, back) && Corresponds(dense, sparse, qmap, back) && x in qmap
    requires forall q :: sparse(q) <= qmap.Keys
    ensures forall v :: v in Ball(dense, {qmap[x]}, hops) <==> 0 <= v < |back| && back[v] in Ball(sparse, {x}, hops)
    ensures Ball(sparse, {x}, hops) <= qmap.Keys
  {
    hide Step;
    if hops == 0 {
    } else {
      BallRenamed(dense, sparse, qmap, back, x, hops - 1);
      StepRenamed(dense, sparse, qmap, back, Ball(dense, {qmap[x]}, hops - 1), Ball(sparse, {x}, hops - 1));
    }
  }

  lemma StepRenamed(dense: Successors, sparse: Successors, qmap: map<int, int>, back: seq<int>, d: set<int>, s: set<int>)
    requires Inverse(qmap, back) && Corresponds(dense, sparse, qmap, back) && s <= qmap.Keys
    requires forall q :: sparse(q) <= qmap.Keys
    requires forall v :: v in d <==> 0 <= v < |back| && back[v] in s
    ensures forall v :: v in Step(dense, d) <==> 0 <= v < |back| && back[v] in Step(sparse, s)
    ensures Step(sparse, s) <= qmap.Keys
  {
    forall v | v in Step(dense, d) ensures 0 <= v < |back| && back[v] in Step(sparse, s) {
      var u := StepSource(dense, d, v);
      var q := back[u];
      assert q in qmap && qmap[q] == u;
      assert v in dense(qmap[q]) <==> 0 <= v < |back| && back[v] in sparse(q);
      StepMember(sparse, s, back[u], back[v]);
    }
    forall v | 0 <= v < |back| && back[v] in Step(sparse, s) ensures v in Step(dense, d) {
      var q := StepSource(sparse, s, back[v]);
      StepMember(dense, d, qmap[q], v);
    }
    forall v | v in Step(sparse, s) ensures v in qmap {
      var q := StepSource(sparse, s, v);
    }
  }

  /** The answer set of a query on the slice in original ids. */
  ghost function SparseCandidates(edges: seq<EdgeRow>, claims: seq<ClaimRow>, qmap: map<int, int>, x: int, p: Option<int>,
                                  t: Option<int>, hops: int): set<int>
  {
    set e | e in Ball(SparseSuccessors(edges, p, qmap), {x}, Hops(hops)) - {x} && HasType(SparseTypes(claims, qmap), t, e)
  }

  /** The last claims row of `e` names the type, if one is asked for. */
  ghost predicate RowType(claims: seq<ClaimRow>, qmap: map<int, int>, t: Option<int>, e: int) {
    t.Some? ==> t.value in qmap && exists n :: IsLastTypeRow(claims, qmap, e, n) && t.value in claims[n].1
  }

  /** The candidates of the slice, on its rows. */
  lemma SparseCandidateMeans(edges: seq<EdgeRow>, claims: seq<ClaimRow>, qmap: map<int, int>, x: int, p: Option<int>,
                             t: Option<int>, hops: int, e: int)
    ensures e in SparseCandidates(edges, claims, qmap, x, p, t, hops)
       <==> RowReaches(edges, p, qmap, x, hops, e) && RowType(claims, qmap, t, e)
  {
    hide Ball, RowReaches, SparseSuccessors, SparseTypes, IsLastTypeRow;
    ReachIsOnRows(edges, p, qmap, x, hops, e);
    LastRowWins(claims, qmap, e);
    LastRowInRange(claims, qmap, e);
  }

  lemma LastRowInRange(claims: seq<ClaimRow>, qmap: map<int, int>, e: int)
    ensures forall n :: IsLastTypeRow(claims, qmap, e, n) ==> 0 <= n < |claims|
  {
  }

  function RenamedType(t: Option<int>, qmap: map<int, int>): Option<int>
    requires t.Some? ==> t.value in qmap
  {
    match t
    case Some(v) => Some(qmap[v])
    case None => None
  }

  lemma TypeRenamed(dense: Types, sparse: Types, qmap: map<int, int>, back: seq<int>, t: Option<int>, e: int)
    requires Inverse(qmap, back) && TypesRenamed(dense, sparse, qmap, back)
    requires 0 <= e < |back| && (t.Some? ==> t.value in qmap)
    ensures HasType(dense, RenamedType(t, qmap), e) <==> HasType(sparse, t, back[e])
  {
  }

  lemma SliceCorresponds(edges: seq<EdgeRow>, qmap: map<int, int>, back: seq<int>, adj: TypedAdjacency, p: Option<int>)
    requires Inverse(qmap, back) && forall s :: OutEdges(adj, s) == Renamed(edges, qmap, s)
    ensures Corresponds(TypedSuccessors(adj, p), SparseSuccessors(edges, p, qmap), qmap, back)
    ensures forall q :: SparseSuccessors(edges, p, qmap)(q) <= qmap.Keys
  {
    assert forall q :: SparseSuccessors(edges, p, qmap)(q) <= qmap.Keys;
    hide TypedSuccessors, SparseSuccessors, Renamed, OutEdges;
    forall q, v | q in qmap
      ensures v in TypedSuccessors(adj, p)(qmap[q]) <==> 0 <= v < |back| && back[v] in SparseSuccessors(edges, p, qmap)(q)
    {
      SuccessorsRenamed(edges, qmap, back, adj, p, q, v);
    }
  }

  /** The candidates of the renamed slice, mapped back, are those of the slice. */
  lemma CandidatesTransported(edges: seq<EdgeRow>, claims: seq<ClaimRow>, qmap: map<int, int>, back: seq<int>,
                              adj: TypedAdjacency, types: Types, x: int, p: Option<int>, t: Option<int>, hops: int)
    requires Inverse(qmap, back) && x in qmap && (t.Some? ==> t.value in qmap)
    requires forall s :: OutEdges(adj, s) == Renamed(edges, qmap, s)
    requires TypesRenamed(types, SparseTypes(claims, qmap), qmap, back)
    ensures forall e :: e in CandidateSet(adj, types, qmap[x], p, RenamedType(t, qmap), hops)
                  <==> 0 <= e < |back| && back[e] in SparseCandidates(edges, claims, qmap, x, p, t, hops)
    ensures SparseCandidates(edges, claims, qmap, x, p, t, hops) <= qmap.Keys
  {
    hide Ball, SparseTypes, HasType, TypesRenamed, SparseSuccessors, TypedSuccessors, Corresponds, Renamed, OutEdges;
    var dense, sparse := TypedSuccessors(adj, p), SparseSuccessors(edges, p, qmap);
    SliceCorresponds(edges, qmap, back, adj, p);
    BallRenamed(dense, sparse, qmap, back, x, Hops(hops));
    forall e ensures e in CandidateSet(adj, types, qmap[x], p, RenamedType(t, qmap), hops)
                <==> 0 <= e < |back| && back[e] in SparseCandidates(edges, claims, qmap, x, p, t, hops)
    {
      if 0 <= e < |back| {
        TypeRenamed(types, SparseTypes(claims, qmap), qmap, back, t, e);
      }
    }
  }

  /**
   The candidates computed on the renamed slice, mapped back, are the candidates of the slice
   in original ids, for every anchor, property and type.
   */
  lemma CandidatesRenamed(edges: seq<EdgeRow>, claims: seq<ClaimRow>, qmap: map<int, int>, back: seq<int>,
                          adj: TypedAdjacency, types: Types, x: int, p: Option<int>, t: Option<int>, hops: int)
    requires Inverse(qmap, back) && x in qmap && (t.Some? ==> t.value in qmap)
    requires forall s :: OutEdges(adj, s) == Renamed(edges, qmap, s)
    requires TypesRenamed(types, SparseTypes(claims, qmap), qmap, back)
    ensures forall e :: e in CandidateSet(adj, types, qmap[x], p, RenamedType(t, qmap), hops)
                  <==> 0 <= e < |back| && back[e] in SparseCandidates(edges, claims, qmap, x, p, t, hops)
    ensures SparseCandidates(edges, claims, qmap, x, p, t, hops) <= qmap.Keys
    ensures forall e :: e in CandidateSet(adj, types, qmap[x], p, RenamedType(t, qmap), hops)
                  <==> 0 <= e < |back| && RowReaches(edges, p, qmap, x, hops, back[e]) && RowType(claims, qmap, t, back[e])
  {
    hide SparseCandidates, CandidateSet, RowReaches, RowType, Renamed, SparseTypes, TypesRenamed, OutEdges, Inverse;
    CandidatesTransported(edges, claims, qmap, back, adj, types, x, p, t, hops);
    forall e ensures e in SparseCandidates(edges, claims, qmap, x, p, t, hops)
                <==> RowReaches(edges, p, qmap, x, hops, e) && RowType(claims, qmap, t, e)
    {
      SparseCandidateMeans(edges, claims, qmap, x, p, t, hops, e);
    }
  }
}
