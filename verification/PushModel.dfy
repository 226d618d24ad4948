/**
 The forward push of `bounded_push_ppr` as a state machine: what a single push
 does to `reserve` and `residue`, what every push keeps, and the run that always
 pushes the node of largest residue.
 */
module PushModel {
  import opened Collections
  import opened Sums
  import opened Graph
  import opened PowerModel

  /**
   `pushes` counts the pushes done and `lost` adds up the mass dropped at nodes
   without out-edges; the program keeps neither, they exist to state its bounds.
   */
  datatype PushState = PushState(reserve: Vector, residue: Vector, pushes: nat, lost: real)

  function InitialState(p: Vector): PushState {
    PushState(map[], p, 0, 0.0)
  }

  /** The inner loop of a push: `amount` goes to every listed neighbour. */
  function Spread(residue: Vector, ns: seq<int>, amount: real): Vector {
    if ns == [] then residue
    else
      var r := Spread(residue, ns[..|ns| - 1], amount);
      var v := ns[|ns| - 1];
      r[v := Get(r, v) + amount]
  }

  /** The two parts a pushed residue is split into. */
  function Kept(alpha: real, ru: real): real {
    alpha * ru
  }

  function PassedOn(alpha: real, ru: real): real {
    (1.0 - alpha) * ru
  }

  /** One push of `u`: `alpha` of its residue is kept, the rest goes to its neighbours. */
  function Push(adj: Adjacency, alpha: real, st: PushState, u: int): PushState {
    var ru := Get(st.residue, u);
    var ns := Neighbours(adj, u);
    var reserve := st.reserve[u := Get(st.reserve, u) + Kept(alpha, ru)];
    var residue := st.residue[u := 0.0];
    if ns == [] then
      PushState(reserve, residue, st.pushes + 1, st.lost + PassedOn(alpha, ru))
    else
      PushState(reserve, Spread(residue, ns, PassedOn(alpha, ru) / |ns| as real), st.pushes + 1, st.lost)
  }

  lemma {:induction false} SpreadAdds(residue: Vector, ns: seq<int>, amount: real, v: int)
    ensures Get(Spread(residue, ns, amount), v) == Get(residue, v) + Times(amount, Count(ns, v) as real)
  {
    if ns != [] {
      SpreadAdds(residue, ns[..|ns| - 1], amount, v);
    } else {
    }
  }

  lemma {:induction false} SpreadKeys(residue: Vector, ns: seq<int>, amount: real)
    ensures Spread(residue, ns, amount).Keys == residue.Keys + set v | v in ns
  {
    if ns != [] {
      var init, last := ns[..|ns| - 1], ns[|ns| - 1];
      SpreadKeys(residue, init, amount);
      assert ns == init + [last];
    } else {
    }
  }

  /** What a push leaves as residue: nothing of the old residue of `u`, plus the shares `u` sends. */
  lemma PushResidue(adj: Adjacency, alpha: real, st: PushState, u: int, v: int)
    ensures Get(Push(adj, alpha, st, u).residue, v)
         == (if v == u then 0.0 else Get(st.residue, v)) + Times(PassedOn(alpha, Get(st.residue, u)), Share(adj, u, v))
  {
    hide Times, PassedOn;
    var ns := Neighbours(adj, u);
    var amount := PassedOn(alpha, Get(st.residue, u));
    if ns != [] {
      SpreadAdds(st.residue[u := 0.0], ns, amount / |ns| as real, v);
      MoveDivision(amount, Count(ns, v) as real, |ns| as real);
    } else {
      TimesDistributes(amount, 0.0, 0.0);
    }
  }

  lemma PushReserve(adj: Adjacency, alpha: real, st: PushState, u: int, v: int)
    ensures Get(Push(adj, alpha, st, u).reserve, v)
         == Get(st.reserve, v) + if u == v then Kept(alpha, Get(st.residue, u)) else 0.0
  {
  }

  lemma MoveDivision(x: real, c: real, n: real)
    requires n != 0.0
    ensures Times(x / n, c) == Times(x, c / n)
  {
  }

  /** One oracle step applied to the reserve overshoots it by exactly `alpha` times the residue. */
  ghost predicate BalancedAt(adj: Adjacency, alpha: real, p: Vector, st: PushState, nodes: set<int>, v: int) {
    Blend(alpha, Get(p, v), Flow(adj, st.reserve, nodes, v)) - Get(st.reserve, v) == Kept(alpha, Get(st.residue, v))
  }

  ghost predicate ResidualIdentity(adj: Adjacency, alpha: real, p: Vector, st: PushState, nodes: set<int>) {
    forall v :: v in nodes ==> BalancedAt(adj, alpha, p, st, nodes, v)
  }

  lemma InitialResidualIdentity(adj: Adjacency, alpha: real, p: Vector, nodes: set<int>)
    ensures ResidualIdentity(adj, alpha, p, InitialState(p), nodes)
  {
    hide Times, Share, Dot, Column;
    forall v | v in nodes ensures BalancedAt(adj, alpha, p, InitialState(p), nodes, v) {
      DotZero(Column(adj, nodes, v), nodes);
    }
  }

  lemma PushAlgebra(alpha: real, p: real, f: real, s: real, r: real, ru: real, h: real, same: bool,
                    f': real, s': real, r': real)
    requires Blend(alpha, p, f) - s == Kept(alpha, r)
    requires same ==> r == ru
    requires f' == f + Times(Kept(alpha, ru), h)
    requires s' == s + if same then Kept(alpha, ru) else 0.0
    requires r' == (if same then 0.0 else r) + Times(PassedOn(alpha, ru), h)
    ensures Blend(alpha, p, f') - s' == Kept(alpha, r')
  {
  }

  lemma PushKeepsBalance(adj: Adjacency, alpha: real, p: Vector, st: PushState, nodes: set<int>, u: int, v: int)
    requires u in nodes && BalancedAt(adj, alpha, p, st, nodes, v)
    ensures BalancedAt(adj, alpha, p, Push(adj, alpha, st, u), nodes, v)
  {
    hide Times, Share, Blend, Column, Kept, PassedOn, Push;
    var st' := Push(adj, alpha, st, u);
    var ru := Get(st.residue, u);
    var h := Get(Column(adj, nodes, v), u);
    ColumnAt(adj, nodes, v, u);
    forall w | w in nodes
      ensures Get(st'.reserve, w) == Get(st.reserve, w) + if u == w then Kept(alpha, ru) else 0.0
    {
      PushReserve(adj, alpha, st, u, w);
    }
    DotUpdate(st.reserve, st'.reserve, Column(adj, nodes, v), nodes, u, Kept(alpha, ru));
    PushReserve(adj, alpha, st, u, v);
    PushResidue(adj, alpha, st, u, v);
    PushAlgebra(alpha, Get(p, v), Flow(adj, st.reserve, nodes, v), Get(st.reserve, v), Get(st.residue, v), ru,
                h, u == v, Flow(adj, st'.reserve, nodes, v), Get(st'.reserve, v), Get(st'.residue, v));
  }

  lemma ColumnAt(adj: Adjacency, nodes: set<int>, v: int, u: int)
    requires u in nodes
    ensures Get(Column(adj, nodes, v), u) == Share(adj, u, v)
  {
  }

  lemma PushKeepsIdentity(adj: Adjacency, alpha: real, p: Vector, st: PushState, nodes: set<int>, u: int)
    requires u in nodes && ResidualIdentity(adj, alpha, p, st, nodes)
    ensures ResidualIdentity(adj, alpha, p, Push(adj, alpha, st, u), nodes)
  {
    hide BalancedAt, Push;
    forall v | v in nodes ensures BalancedAt(adj, alpha, p, Push(adj, alpha, st, u), nodes, v) {
      PushKeepsBalance(adj, alpha, p, st, nodes, u, v);
    }
  }

  // ----- mass -----

  lemma PushKeys(adj: Adjacency, alpha: real, st: PushState, u: int)
    ensures Push(adj, alpha, st, u).residue.Keys == st.residue.Keys + {u} + set v | v in Neighbours(adj, u)
    ensures Push(adj, alpha, st, u).reserve.Keys == st.reserve.Keys + {u}
  {
    hide PassedOn, Kept;
    var ns := Neighbours(adj, u);
    if ns != [] {
      SpreadKeys(st.residue[u := 0.0], ns, PassedOn(alpha, Get(st.residue, u)) / |ns| as real);
    }
  }

  lemma PushNonNegative(adj: Adjacency, alpha: real, st: PushState, u: int)
    requires 0.0 < alpha <= 1.0 && NonNegative(st.reserve) && NonNegative(st.residue)
    ensures NonNegative(Push(adj, alpha, st, u).reserve) && NonNegative(Push(adj, alpha, st, u).residue)
    ensures Kept(alpha, Get(st.residue, u)) >= 0.0 && PassedOn(alpha, Get(st.residue, u)) >= 0.0
  {
    hide Push, Share;
    var ru := Get(st.residue, u);
    PartsNonNegative(alpha, ru);
    hide Kept, PassedOn, Times;
    forall v ensures Get(Push(adj, alpha, st, u).reserve, v) >= 0.0 {
      PushReserve(adj, alpha, st, u, v);
    }
    forall v ensures Get(Push(adj, alpha, st, u).residue, v) >= 0.0 {
      PushResidue(adj, alpha, st, u, v);
      TimesMonotone(0.0, PassedOn(alpha, ru), Share(adj, u, v));
      TimesDistributes(Share(adj, u, v), 0.0, 0.0);
      TimesCommutes(Share(adj, u, v), 0.0);
    }
  }

  lemma PartsNonNegative(alpha: real, ru: real)
    requires 0.0 < alpha <= 1.0 && ru >= 0.0
    ensures Kept(alpha, ru) >= 0.0 && PassedOn(alpha, ru) >= 0.0
  {
  }

  lemma PartsAddUp(alpha: real, ru: real)
    ensures Kept(alpha, ru) + PassedOn(alpha, ru) == ru
  {
  }

  /** A push keeps `Kept` as reserve and takes it, and what is lost, out of the residue. */
  lemma PushMass(adj: Adjacency, alpha: real, st: PushState, u: int, nodes: set<int>)
    requires u in nodes && forall v :: v in Neighbours(adj, u) ==> v in nodes
    ensures var st' := Push(adj, alpha, st, u);
            var ru := Get(st.residue, u);
            && Sum(st'.reserve, nodes) == Sum(st.reserve, nodes) + Kept(alpha, ru)
            && Sum(st'.residue, nodes) + (st'.lost - st.lost) == Sum(st.residue, nodes) - Kept(alpha, ru)
            && st'.lost - st.lost == (if Neighbours(adj, u) == [] then PassedOn(alpha, ru) else 0.0)
  {
    PushReserveMass(adj, alpha, st, u, nodes);
    PushResidueMass(adj, alpha, st, u, nodes);
    PartsAddUp(alpha, Get(st.residue, u));
  }

  lemma PushReserveMass(adj: Adjacency, alpha: real, st: PushState, u: int, nodes: set<int>)
    requires u in nodes
    ensures Sum(Push(adj, alpha, st, u).reserve, nodes) == Sum(st.reserve, nodes) + Kept(alpha, Get(st.residue, u))
  {
    hide Push, Kept;
    var st' := Push(adj, alpha, st, u);
    forall v | v in nodes
      ensures Get(st'.reserve, v) == Get(st.reserve, v) + if u == v then Kept(alpha, Get(st.residue, u)) else 0.0
    {
      PushReserve(adj, alpha, st, u, v);
    }
    SumUpdate(st.reserve, st'.reserve, nodes, u);
  }

  lemma PushResidueMass(adj: Adjacency, alpha: real, st: PushState, u: int, nodes: set<int>)
    requires u in nodes && forall v :: v in Neighbours(adj, u) ==> v in nodes
    ensures Sum(Push(adj, alpha, st, u).residue, nodes)
         == Sum(st.residue, nodes) - Get(st.residue, u)
            + if Neighbours(adj, u) == [] then 0.0 else PassedOn(alpha, Get(st.residue, u))
  {
    hide Push, Kept, PassedOn, Times, Share;
    var st' := Push(adj, alpha, st, u);
    var amount := PassedOn(alpha, Get(st.residue, u));
    var zeroed, row := st.residue[u := 0.0], ShareRow(adj, u, nodes);
    SumUpdate(st.residue, zeroed, nodes, u);
    forall v | v in nodes
      ensures Get(st'.residue, v) == Times(1.0, Get(zeroed, v)) + Times(amount, Get(row, v))
    {
      PushResidue(adj, alpha, st, u, v);
      TimesOne(Get(zeroed, v), 0.0);
    }
    SumLinear(1.0, zeroed, amount, row, st'.residue, nodes);
    TimesOne(Sum(zeroed, nodes), 0.0);
    SharesAddUp(adj, u, nodes);
    TimesOne(amount, 0.0);
    TimesDistributes(amount, 0.0, 0.0);
  }

  // ----- the run that always pushes the node of largest residue -----

  ghost function Total(x: Vector): real {
    Sum(x, x.Keys)
  }

  /** `u` holds the largest residue; among equals it has the smallest id. */
  ghost predicate IsTop(residue: Vector, u: int) {
    u in residue && forall v :: v in residue ==>
      residue[v] < residue[u] || (residue[v] == residue[u] && u <= v)
  }

  lemma {:induction false} TopExists(residue: Vector)
    requires residue.Keys != {}
    ensures exists u :: IsTop(residue, u)
    decreases residue.Keys
  {
    var w := Choose(residue.Keys);
    var rest := residue - {w};
    assert rest.Keys == residue.Keys - {w};
    if rest.Keys == {} {
      assert forall v :: v in residue ==> v == w || v in rest.Keys;
      assert IsTop(residue, w);
    } else {
      TopExists(rest);
      var u :| IsTop(rest, u);
      assert forall v :: v in residue ==> v == w || v in rest;
      assert IsTop(residue, u) || IsTop(residue, w);
    }
  }

  ghost function Top(residue: Vector): (u: int)
    requires residue.Keys != {}
    ensures IsTop(residue, u)
  {
    TopExists(residue);
    var u :| IsTop(residue, u);
    u
  }

  lemma TopUnique(residue: Vector, u: int)
    requires IsTop(residue, u)
    ensures residue.Keys != {} && Top(residue) == u
  {
  }

  /** No residue has reached the push threshold. */
  ghost predicate Settled(residue: Vector, rMax: real) {
    forall v :: v in residue ==> residue[v] < rMax
  }

  /** An upper bound on the pushes left. */
  ghost function Budget(residue: Vector, alpha: real, rMax: real): nat
    requires 0.0 < alpha && 0.0 < rMax && NonNegative(residue)
  {
    SumNonNegative(residue, residue.Keys);
    DivideNonNegative(Total(residue), alpha * rMax);
    (Total(residue) / (alpha * rMax)).Floor
  }

  lemma DivideNonNegative(x: real, y: real)
    requires x >= 0.0 && y > 0.0
    ensures x / y >= 0.0
  {
  }

  lemma FloorDrops(x: real, x': real, y: real)
    requires y > 0.0 && x' <= x - y
    ensures (x' / y).Floor < (x / y).Floor
  {
    assert x' / y <= (x - y) / y by { DivideMonotone(x', x - y, y); }
    DivideMinusOne(x, y);
  }

  lemma DivideMinusOne(x: real, y: real)
    requires y > 0.0
    ensures (x - y) / y == x / y - 1.0
  {
    var q, d := x / y, (x - y) / y;
    assert (d - (q - 1.0)) * y == 0.0;
    SignOfProduct(d - (q - 1.0), y);
  }

  lemma DivideMonotone(a: real, b: real, c: real)
    requires a <= b && c > 0.0
    ensures a / c <= b / c
  {
  }

  lemma KeptAtLeast(alpha: real, ru: real, rMax: real)
    requires 0.0 < alpha && rMax <= ru
    ensures Kept(alpha, ru) >= alpha * rMax
  {
  }

  lemma PushSpendsBudget(adj: Adjacency, alpha: real, rMax: real, st: PushState, u: int)
    requires 0.0 < alpha <= 1.0 && 0.0 < rMax && NonNegative(st.reserve) && NonNegative(st.residue)
    requires Get(st.residue, u) >= rMax
    ensures var st' := Push(adj, alpha, st, u);
            && NonNegative(st'.reserve) && NonNegative(st'.residue)
            && Budget(st'.residue, alpha, rMax) < Budget(st.residue, alpha, rMax)
  {
    hide Push, Kept, PassedOn;
    var st' := Push(adj, alpha, st, u);
    var nodes := st'.residue.Keys;
    PushNonNegative(adj, alpha, st, u);
    PushKeys(adj, alpha, st, u);
    PushMass(adj, alpha, st, u, nodes);
    SumExtend(st.residue, st.residue.Keys, nodes);
    KeptAtLeast(alpha, Get(st.residue, u), rMax);
    FloorDrops(Total(st.residue), Total(st'.residue), alpha * rMax);
  }

  /**
   The textbook form of the algorithm: while some residue has reached `rMax`,
   push the node of largest residue.
   */
  ghost function GreedyRun(adj: Adjacency, alpha: real, rMax: real, st: PushState): PushState
    requires 0.0 < alpha <= 1.0 && 0.0 < rMax && NonNegative(st.reserve) && NonNegative(st.residue)
    decreases Budget(st.residue, alpha, rMax)
  {
    if Settled(st.residue, rMax) then st
    else
      var u := Top(st.residue);
      PushSpendsBudget(adj, alpha, rMax, st, u);
      GreedyRun(adj, alpha, rMax, Push(adj, alpha, st, u))
  }
}
