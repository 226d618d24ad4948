/**
 The recursive query of bench/wd_allpg_baseline.py, evaluated the way PostgreSQL evaluates
 WITH RECURSIVE ... UNION: rows (dst, depth) are added until a round adds none.
 */
module RecursiveCte {
  import opened Collections
  import opened Wrappers
  import opened Reachability
  import opened TypedSearch

  type Row = (int, int)

  /** The rows the query denotes: dst at the end of a walk of exactly `depth` edges, 1 <= depth <= cap. */
  ghost function Rows(succ: Successors, x: int, cap: nat): set<Row> {
    if cap == 0 then {} else Rows(succ, x, cap - 1) + DepthRows(succ, x, cap)
  }

  ghost function DepthRows(succ: Successors, x: int, depth: nat): set<Row> {
    AtDepth(Layer(succ, {x}, depth), depth)
  }

  function AtDepth(s: set<int>, depth: int): set<Row> {
    set v | v in s :: (v, depth)
  }

  lemma {:induction false} RowsMember(succ: Successors, x: int, cap: nat, r: Row)
    ensures r in Rows(succ, x, cap) <==> 1 <= r.1 <= cap && r.0 in Layer(succ, {x}, r.1)
  {
    if cap > 0 {
      RowsMember(succ, x, cap - 1, r);
    } else {
    }
  }

  /** The non-recursive term always runs, so the depth is at least 1 whatever `hops` says. */
  function DepthCap(hops: int): nat {
    if hops < 1 then 1 else hops
  }

  /** One application of the recursive term to the working table. */
  function Join(succ: Successors, hops: int, working: set<Row>): set<Row> {
    set r, v | r in working && r.1 < hops && v in succ(r.0) :: (v, r.1 + 1)
  }

  lemma JoinDepth(succ: Successors, x: int, hops: int, depth: nat)
    ensures Join(succ, hops, DepthRows(succ, x, depth))
         == if depth < hops then DepthRows(succ, x, depth + 1) else {}
  {
    var joined := Join(succ, hops, DepthRows(succ, x, depth));
    if depth < hops {
      forall r | r in DepthRows(succ, x, depth + 1) ensures r in joined {
        var u := StepSource(succ, Layer(succ, {x}, depth), r.0);
        assert (u, depth as int) in DepthRows(succ, x, depth);
      }
      forall r | r in joined ensures r in DepthRows(succ, x, depth + 1) {
        var w, v :| w in DepthRows(succ, x, depth) && v in succ(w.0) && r == (v, w.1 + 1);
        StepMember(succ, Layer(succ, {x}, depth), w.0, v);
      }
    }
  }

  lemma NewDepthIsNew(succ: Successors, x: int, depth: nat)
    ensures Rows(succ, x, depth) !! DepthRows(succ, x, depth + 1)
  {
    forall r | r in DepthRows(succ, x, depth + 1) ensures r !in Rows(succ, x, depth) {
      RowsMember(succ, x, depth, r);
    }
  }

  /** Once a depth is empty, so are all deeper ones. */
  lemma {:induction false} NothingDeeper(succ: Successors, x: int, depth: nat, cap: nat)
    requires depth <= cap && DepthRows(succ, x, depth + 1) == {}
    ensures Rows(succ, x, cap) == Rows(succ, x, depth) && Layer(succ, {x}, cap + 1) == {}
    decreases cap
  {
    if depth == cap {
      TagCard(Layer(succ, {x}, depth + 1), depth + 1);
    } else {
      NothingDeeper(succ, x, depth, cap - 1);
      assert DepthRows(succ, x, cap) == {};
      assert Step(succ, {}) == {};
    }
  }

  /** The working table of each round holds one depth; the query stops when it is empty. */
  method Evaluate(links: TypedAdjacency, x: int, typeId: int, hops: int) returns (rows: set<Row>)
    ensures rows == Rows(TypedSuccessors(links, Some(typeId)), x, DepthCap(hops))
    ensures forall r :: r in rows <==> IsTypedRow(links, x, typeId, hops, r)
  {
    hide Join, Rows, DepthRows, TypedSuccessors, IsTypedRow;
    var succ := TypedSuccessors(links, Some(typeId));
    ghost var cap := DepthCap(hops);
    ghost var depth: nat := 1;
    rows := AtDepth(succ(x), 1);
    var working := rows;
    FirstRows(succ, x);
    while working != {}
      invariant 1 <= depth <= cap && rows == Rows(succ, x, depth)
      invariant working == DepthRows(succ, x, depth) || (working == {} && depth == cap)
      decreases if working == {} then 0 else 1 + cap - depth
    {
      JoinDepth(succ, x, hops, depth);
      NewDepthIsNew(succ, x, depth);
      RowsNext(succ, x, depth);
      var added := Join(succ, hops, working) - rows;
      rows := rows + added;
      working := added;
      if depth < hops {
        depth := depth + 1;
      }
    }
    if depth < cap || DepthRows(succ, x, depth) == {} {
      RowsNext(succ, x, depth - 1);
      NothingDeeper(succ, x, depth - 1, cap);
    }
    forall r ensures r in rows <==> IsTypedRow(links, x, typeId, hops, r) {
      RowIsTyped(links, x, typeId, hops, r);
    }
  }

  /** A row on the edges themselves: a walk of that many edges of the property; one edge, or up to `hops`. */
  ghost predicate IsTypedRow(links: TypedAdjacency, x: int, typeId: int, hops: int, r: Row) {
    r.1 >= 1 && (r.1 <= hops || r.1 == 1) && TypedWalk(links, Some(typeId), x, r.0, r.1)
  }

  lemma RowIsTyped(links: TypedAdjacency, x: int, typeId: int, hops: int, r: Row)
    ensures r in Rows(TypedSuccessors(links, Some(typeId)), x, DepthCap(hops)) <==> IsTypedRow(links, x, typeId, hops, r)
  {
    hide Rows, Layer, TypedWalk, Reaches, TypedSuccessors;
    var succ := TypedSuccessors(links, Some(typeId));
    RowsMember(succ, x, DepthCap(hops), r);
    if r.1 >= 1 {
      LayerIsWalks(succ, {x}, r.0, r.1);
      WalkIsTyped(links, Some(typeId), x, r.0, r.1);
    }
  }

  lemma FirstRows(succ: Successors, x: int)
    ensures AtDepth(succ(x), 1) == Rows(succ, x, 1) == DepthRows(succ, x, 1)
  {
    OneStep(succ, x);
    assert Layer(succ, {x}, 0) == {x} && Layer(succ, {x}, 1) == succ(x);
    assert Rows(succ, x, 0) == {};
  }

  lemma RowsNext(succ: Successors, x: int, depth: nat)
    ensures Rows(succ, x, depth + 1) == Rows(succ, x, depth) + DepthRows(succ, x, depth + 1)
  {
  }

  // ----- size -----

  lemma {:induction false} LayersStayInside(succ: Successors, x: int, nodes: set<int>, steps: nat)
    requires x in nodes && forall u :: u in nodes ==> succ(u) <= nodes
    ensures Layer(succ, {x}, steps) <= nodes
  {
    if steps > 0 {
      LayersStayInside(succ, x, nodes, steps - 1);
      forall v | v in Layer(succ, {x}, steps) ensures v in nodes {
        var u := StepSource(succ, Layer(succ, {x}, steps - 1), v);
      }
    } else {
    }
  }

  lemma {:induction false} TagCard(s: set<int>, depth: int)
    ensures |AtDepth(s, depth)| == |s|
    decreases s
  {
    var tagged := AtDepth(s, depth);
    if s == {} {
      assert tagged == {};
    } else {
      var x := Choose(s);
      TagCard(s - {x}, depth);
      assert tagged == AtDepth(s - {x}, depth) + {(x, depth)};
    }
  }

  lemma DisjointCard<T>(a: set<T>, b: set<T>)
    requires a !! b
    ensures |a + b| == |a| + |b|
  {
  }

  /** Although nodes may be revisited at other depths, the fixpoint has at most hops * |V| rows. */
  lemma {:induction false} RowsBound(succ: Successors, x: int, nodes: set<int>, cap: nat)
    requires x in nodes && forall u :: u in nodes ==> succ(u) <= nodes
    ensures |Rows(succ, x, cap)| <= cap * |nodes|
  {
    hide DepthRows, Layer, Step;
    if cap > 0 {
      RowsBound(succ, x, nodes, cap - 1);
      DepthBound(succ, x, nodes, cap);
      NewDepthIsNew(succ, x, cap - 1);
      RowsNext(succ, x, cap - 1);
      DisjointCard(Rows(succ, x, cap - 1), DepthRows(succ, x, cap));
      OneMore(cap, |nodes|);
    } else {
    }
  }

  lemma DepthBound(succ: Successors, x: int, nodes: set<int>, depth: nat)
    requires x in nodes && forall u :: u in nodes ==> succ(u) <= nodes
    ensures |DepthRows(succ, x, depth)| <= |nodes|
  {
    LayersStayInside(succ, x, nodes, depth);
    TagCard(Layer(succ, {x}, depth), depth);
    SubsetCard(Layer(succ, {x}, depth), nodes);
  }

  lemma OneMore(cap: nat, n: nat)
    requires cap > 0
    ensures cap * n == (cap - 1) * n + n
  {
  }

  // ----- against the breadth-first search -----

  ghost function Dsts(rows: set<Row>): set<int> {
    set r | r in rows :: r.0
  }

  lemma DstMember(succ: Successors, x: int, cap: nat, v: int)
    ensures v in Dsts(Rows(succ, x, cap)) <==> exists j: nat :: 1 <= j <= cap && v in Layer(succ, {x}, j)
  {
    if v in Dsts(Rows(succ, x, cap)) {
      var r :| r in Rows(succ, x, cap) && r.0 == v;
      RowsMember(succ, x, cap, r);
    }
    if j: nat :| 1 <= j <= cap && v in Layer(succ, {x}, j) {
      RowsMember(succ, x, cap, (v, j as int));
      assert (v, j as int) in Rows(succ, x, cap);
    }
  }

  lemma DstsOfBall(succ: Successors, x: int, cap: nat)
    ensures Dsts(Rows(succ, x, cap)) - {x} == Ball(succ, {x}, cap) - {x}
  {
    hide Dsts, Rows, Ball, Layer;
    forall v | v != x ensures v in Dsts(Rows(succ, x, cap)) <==> v in Ball(succ, {x}, cap) {
      DstMember(succ, x, cap, v);
      if v in Ball(succ, {x}, cap) {
        var j := BallInLayers(succ, {x}, v, cap);
        StartLayer(succ, x);
      }
      if j: nat :| 1 <= j <= cap && v in Layer(succ, {x}, j) {
        LayerInBall(succ, {x}, j, cap);
      }
    }
  }

  lemma StartLayer(succ: Successors, x: int)
    ensures Layer(succ, {x}, 0) == {x} && Ball(succ, {x}, 0) == {x}
  {
  }

  /**
   The projection of the query, anchor removed, is the typed reach if and only if at least one
   hop is asked for, or the anchor has no typed successor but itself.
   */
  lemma CteIsReach(succ: Successors, x: int, hops: int)
    ensures Dsts(Rows(succ, x, DepthCap(hops))) - {x} == Ball(succ, {x}, Hops(hops)) - {x}
       <==> hops >= 1 || succ(x) <= {x}
  {
    hide Dsts, Rows, Ball;
    DstsOfBall(succ, x, DepthCap(hops));
    if hops < 1 {
      StartLayer(succ, x);
      BallNext(succ, {x}, 0);
      OneStep(succ, x);
      assert Ball(succ, {x}, 1) == {x} + succ(x);
      assert Dsts(Rows(succ, x, 1)) - {x} == succ(x) - {x};
      assert Ball(succ, {x}, 0) - {x} == {};
      assert forall v :: v in succ(x) ==> v == x || v in succ(x) - {x};
    }
  }

  lemma OneStep(succ: Successors, x: int)
    ensures Step(succ, {x}) == succ(x)
  {
    forall v | v in Step(succ, {x}) ensures v in succ(x) {
      var u := StepSource(succ, {x}, v);
    }
    forall v | v in succ(x) ensures v in Step(succ, {x}) {
      StepMember(succ, {x}, x, v);
    }
  }

  /** Zero hops and a successor: the base rows of the CTE are there anyway, and the search finds nothing. */
  lemma ZeroHopsDiffer()
    ensures var succ: Successors := u => if u == 0 then {1} else {};
            Dsts(Rows(succ, 0, DepthCap(0))) - {0} != Ball(succ, {0}, Hops(0)) - {0}
  {
    var succ: Successors := u => if u == 0 then {1} else {};
    assert 1 in succ(0) && 1 !in {0};
    CteIsReach(succ, 0, 0);
  }
}
