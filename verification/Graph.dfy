/**
 The adjacency dictionary of bench/tjs_open_ref.py and the one-step random walk on it.

 `adj.get(u, ())` may list a neighbour more than once; each listing carries its own
 share of the mass, so transition weights count occurrences.
 */
module Graph {
  import opened Collections
  import opened Sums

  type Adjacency = map<int, seq<int>>
  type Vector = map<int, real>

  /** `adj.get(u, ())`. */
  function Neighbours(adj: Adjacency, u: int): seq<int> {
    if u in adj then adj[u] else []
  }

  function Count(ns: seq<int>, v: int): nat {
    if ns == [] then 0
    else Count(ns[..|ns| - 1], v) + if ns[|ns| - 1] == v then 1 else 0
  }

  /** `nodes` is a set of nodes no edge leaves. */
  ghost predicate Closed(adj: Adjacency, nodes: set<int>) {
    forall u, v :: u in nodes && v in Neighbours(adj, u) ==> v in nodes
  }

  /** The share of its mass that `u` sends to `v`; a dangling node sends nothing. */
  ghost function Share(adj: Adjacency, u: int, v: int): (r: real)
    ensures r >= 0.0
  {
    var ns := Neighbours(adj, u);
    if ns == [] then 0.0 else Count(ns, v) as real / |ns| as real
  }

  ghost function ShareRow(adj: Adjacency, u: int, nodes: set<int>): Vector {
    map v | v in nodes :: Share(adj, u, v)
  }

  ghost function CountRow(ns: seq<int>, nodes: set<int>): Vector {
    map v | v in nodes :: Count(ns, v) as real
  }

  lemma {:induction false} CountsAddUp(ns: seq<int>, nodes: set<int>)
    requires forall v :: v in ns ==> v in nodes
    ensures Sum(CountRow(ns, nodes), nodes) == |ns| as real
  {
    if ns == [] {
      SumZero(CountRow(ns, nodes), nodes);
    } else {
      var init, last := ns[..|ns| - 1], ns[|ns| - 1];
      CountsAddUp(init, nodes);
      SumUpdate(CountRow(init, nodes), CountRow(ns, nodes), nodes, last);
    }
  }

  lemma Quotient(n: nat, d: nat)
    requires d > 0
    ensures n as real / d as real == Times(1.0 / d as real, n as real) + Times(0.0, n as real)
    ensures d as real / d as real == 1.0
  {
  }

  /** A node with out-edges inside `nodes` sends out all its mass, a dangling one none. */
  lemma SharesAddUp(adj: Adjacency, u: int, nodes: set<int>)
    requires forall v :: v in Neighbours(adj, u) ==> v in nodes
    ensures Sum(ShareRow(adj, u, nodes), nodes) == if Neighbours(adj, u) == [] then 0.0 else 1.0
  {
    var ns := Neighbours(adj, u);
    var row, counts := ShareRow(adj, u, nodes), CountRow(ns, nodes);
    if ns == [] {
      SumZero(row, nodes);
    } else {
      CountsAddUp(ns, nodes);
      forall v | v in nodes
        ensures Get(row, v) == Times(1.0 / |ns| as real, Get(counts, v)) + Times(0.0, Get(counts, v))
      {
        Quotient(Count(ns, v), |ns|);
      }
      SumLinear(1.0 / |ns| as real, counts, 0.0, counts, row, nodes);
      Quotient(|ns|, |ns|);
    }
  }

  /** What `v` is sent by each node of `nodes`, per unit of mass. */
  ghost function Column(adj: Adjacency, nodes: set<int>, v: int): Vector {
    map u | u in nodes :: Share(adj, u, v)
  }

  /** The mass that reaches `v` when every node `u` spreads `Get(x, u)` over its neighbours. */
  ghost function Flow(adj: Adjacency, x: Vector, nodes: set<int>, v: int): real {
    Dot(x, Column(adj, nodes, v), nodes)
  }

  /** The part of that mass sent by `from`, for every receiver. */
  ghost function FlowVector(adj: Adjacency, x: Vector, from: set<int>, nodes: set<int>): Vector {
    map v | v in nodes :: Dot(x, Column(adj, nodes, v), from)
  }

  lemma FlowNonNegative(adj: Adjacency, x: Vector, nodes: set<int>, v: int)
    requires forall u :: u in nodes ==> Get(x, u) >= 0.0
    ensures Flow(adj, x, nodes, v) >= 0.0
  {
    hide Times, Share;
    DotZero(Column(adj, nodes, v), nodes);
    DotLe(map[], x, Column(adj, nodes, v), nodes);
  }

  lemma NoFlow(adj: Adjacency, x: Vector, nodes: set<int>)
    ensures Sum(FlowVector(adj, x, {}, nodes), nodes) <= 0.0
  {
    hide Times, Share, Column;
    SumZero(FlowVector(adj, x, {}, nodes), nodes);
  }

  /** Splitting one sender off. */
  lemma FlowSplit(adj: Adjacency, x: Vector, from: set<int>, nodes: set<int>, u: int)
    requires u in from && from <= nodes
    ensures Sum(FlowVector(adj, x, from, nodes), nodes)
         == Times(Get(x, u), Sum(ShareRow(adj, u, nodes), nodes)) + Sum(FlowVector(adj, x, from - {u}, nodes), nodes)
  {
    hide Times, Share, Dot, Neighbours;
    var whole, rest := FlowVector(adj, x, from, nodes), FlowVector(adj, x, from - {u}, nodes);
    var row := ShareRow(adj, u, nodes);
    forall v | v in nodes
      ensures Get(whole, v) == Times(Get(x, u), Get(row, v)) + Times(1.0, Get(rest, v))
    {
      DotPick(x, Column(adj, nodes, v), from, u);
      TimesOne(Get(rest, v), 0.0);
    }
    SumLinear(Get(x, u), row, 1.0, rest, whole, nodes);
    TimesOne(Sum(rest, nodes), 0.0);
  }

  /**
   The exchange of the two summations: what all nodes receive together is what
   the senders send out, and no sender sends more than it holds.
   */
  lemma {:induction false} FlowMass(adj: Adjacency, x: Vector, from: set<int>, nodes: set<int>)
    requires Closed(adj, nodes) && from <= nodes
    requires forall u :: u in from ==> Get(x, u) >= 0.0
    ensures Sum(FlowVector(adj, x, from, nodes), nodes) <= Sum(x, from)
    decreases from
  {
    hide Times, Share;
    if from == {} {
      NoFlow(adj, x, nodes);
    } else {
      var u := Choose(from);
      FlowMass(adj, x, from - {u}, nodes);
      FlowSplit(adj, x, from, nodes, u);
      SumPick(x, from, u);
      SharesAddUp(adj, u, nodes);
      TimesMonotone(Sum(ShareRow(adj, u, nodes), nodes), 1.0, Get(x, u));
      TimesOne(Get(x, u), 0.0);
    }
  }

  lemma GapAt(adj: Adjacency, x: Vector, y: Vector, nodes: set<int>, v: int)
    ensures Abs(Flow(adj, x, nodes, v) - Flow(adj, y, nodes, v)) <= Flow(adj, Gap(x, y, nodes), nodes, v)
  {
    DotGap(x, y, Column(adj, nodes, v), nodes);
  }

  /** One random-walk step never moves two vectors further apart. */
  lemma FlowGap(adj: Adjacency, x: Vector, y: Vector, nodes: set<int>)
    requires Closed(adj, nodes)
    ensures L1(FlowVector(adj, x, nodes, nodes), FlowVector(adj, y, nodes, nodes), nodes) <= L1(x, y, nodes)
  {
    hide Times, Share, Column, Dot, Closed;
    var gap := Gap(x, y, nodes);
    var fx, fy := FlowVector(adj, x, nodes, nodes), FlowVector(adj, y, nodes, nodes);
    var fg := FlowVector(adj, gap, nodes, nodes);
    forall v | v in nodes ensures Get(Gap(fx, fy, nodes), v) <= Get(fg, v) {
      GapAt(adj, x, y, nodes, v);
    }
    SumLe(Gap(fx, fy, nodes), fg, nodes);
    FlowMass(adj, gap, nodes, nodes);
  }
}
