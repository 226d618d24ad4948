/**
 The step of `power_iteration_ppr` as an operator on vectors.  It contracts the L1
 distance by 1 - alpha, so its iterates close in on every vector it nearly fixes.
 */
module PowerModel {
  import opened Sums
  import opened Graph

  ghost predicate NonNegative(x: Vector) {
    forall v :: Get(x, v) >= 0.0
  }

  /** One step of the power iteration: restart with probability `alpha`, else walk. */
  ghost function Blend(alpha: real, a: real, b: real): real {
    alpha * a + (1.0 - alpha) * b
  }

  ghost function Step(adj: Adjacency, alpha: real, p: Vector, x: Vector, nodes: set<int>): Vector {
    map v | v in nodes :: Blend(alpha, Get(p, v), Flow(adj, x, nodes, v))
  }

  ghost predicate FixedPoint(adj: Adjacency, alpha: real, p: Vector, x: Vector, nodes: set<int>) {
    forall v :: v in nodes ==> Get(Step(adj, alpha, p, x, nodes), v) == Get(x, v)
  }

  /** The vector after `t` rounds of the loop, which starts from `p`. */
  ghost function Iterate(adj: Adjacency, alpha: real, p: Vector, nodes: set<int>, t: nat): Vector {
    if t == 0 then p else Step(adj, alpha, p, Iterate(adj, alpha, p, nodes, t - 1), nodes)
  }

  lemma BlendGap(alpha: real, a: real, b: real, c: real)
    requires alpha <= 1.0
    ensures Abs(Blend(alpha, a, b) - Blend(alpha, a, c)) == Times(1.0 - alpha, Abs(b - c))
  {
  }

  lemma StepContracts(adj: Adjacency, alpha: real, p: Vector, x: Vector, y: Vector, nodes: set<int>)
    requires 0.0 < alpha <= 1.0 && Closed(adj, nodes)
    ensures L1(Step(adj, alpha, p, x, nodes), Step(adj, alpha, p, y, nodes), nodes)
         <= Times(1.0 - alpha, L1(x, y, nodes))
  {
    hide Times, Share, Column, Dot, Closed, Blend;
    var sx, sy := Step(adj, alpha, p, x, nodes), Step(adj, alpha, p, y, nodes);
    var fx, fy := FlowVector(adj, x, nodes, nodes), FlowVector(adj, y, nodes, nodes);
    var gs, gf := Gap(sx, sy, nodes), Gap(fx, fy, nodes);
    forall v | v in nodes ensures Get(gs, v) == Times(1.0 - alpha, Get(gf, v)) + Times(0.0, Get(gf, v)) {
      BlendGap(alpha, Get(p, v), Flow(adj, x, nodes, v), Flow(adj, y, nodes, v));
      TimesZero(Get(gf, v));
    }
    SumLinear(1.0 - alpha, gf, 0.0, gf, gs, nodes);
    TimesZero(Sum(gf, nodes));
    FlowGap(adj, x, y, nodes);
    TimesMonotone(L1(fx, fy, nodes), L1(x, y, nodes), 1.0 - alpha);
  }

  function Pow(x: real, n: nat): real {
    if n == 0 then 1.0 else x * Pow(x, n - 1)
  }

  /** What is left of an initial distance `start` after `t` rounds, plus `r`. */
  ghost function Shrunk(alpha: real, t: nat, start: real, r: real): real {
    Pow(1.0 - alpha, t) * start + r
  }

  lemma ShrinkOnce(alpha: real, t: nat, start: real, r: real, near: real, d: real)
    requires 0.0 < alpha <= 1.0
    requires near <= Shrunk(alpha, t, start, r)
    requires d <= Times(1.0 - alpha, near) + Times(alpha, r)
    ensures d <= Shrunk(alpha, t + 1, start, r)
  {
  }

  lemma ShrinkNone(alpha: real, start: real, r: real, move: real)
    requires 0.0 < alpha && 0.0 <= move <= Times(alpha, r)
    ensures start <= Shrunk(alpha, 0, start, r)
  {
  }

  /**
   Whatever `x` is: if one step moves `x` by at most alpha * r, then after `t` rounds the
   oracle is within (1 - alpha)^t of its starting distance to `x`, plus `r`.
   */
  lemma {:induction false} IterateApproaches(adj: Adjacency, alpha: real, p: Vector, x: Vector, nodes: set<int>,
                                             r: real, t: nat)
    requires 0.0 < alpha <= 1.0 && Closed(adj, nodes)
    requires L1(Step(adj, alpha, p, x, nodes), x, nodes) <= Times(alpha, r)
    ensures L1(Iterate(adj, alpha, p, nodes, t), x, nodes) <= Shrunk(alpha, t, L1(p, x, nodes), r)
  {
    hide Closed, Step, Times, Shrunk;
    if t == 0 {
      ShrinkNone(alpha, L1(p, x, nodes), r, L1(Step(adj, alpha, p, x, nodes), x, nodes));
    } else {
      hide L1;
      var y := Iterate(adj, alpha, p, nodes, t - 1);
      var sx, sy := Step(adj, alpha, p, x, nodes), Step(adj, alpha, p, y, nodes);
      IterateApproaches(adj, alpha, p, x, nodes, r, t - 1);
      StepContracts(adj, alpha, p, y, x, nodes);
      L1Triangle(sy, sx, x, nodes);
      ShrinkOnce(alpha, t - 1, L1(p, x, nodes), r, L1(y, x, nodes), L1(sy, x, nodes));
    }
  }

  lemma ToleranceArithmetic(alpha: real, r: real, tol: real, d: real, before: real)
    requires 0.0 < alpha <= 1.0
    requires d <= Times(1.0 - alpha, before) + Times(alpha, r)
    requires before <= tol + d
    ensures Times(alpha, d) <= Times(1.0 - alpha, tol) + Times(alpha, r)
  {
  }

  /** The stopping test: a round that moved less than `tol` ends within tol * (1 - alpha) / alpha + r of `x`. */
  lemma SmallStepIsClose(adj: Adjacency, alpha: real, p: Vector, x: Vector, y: Vector, nodes: set<int>, r: real, tol: real)
    requires 0.0 < alpha <= 1.0 && Closed(adj, nodes)
    requires L1(Step(adj, alpha, p, x, nodes), x, nodes) <= Times(alpha, r)
    requires L1(Step(adj, alpha, p, y, nodes), y, nodes) < tol
    ensures Times(alpha, L1(Step(adj, alpha, p, y, nodes), x, nodes)) <= Times(1.0 - alpha, tol) + Times(alpha, r)
  {
    hide Closed, L1, Step, Times;
    var sx, sy := Step(adj, alpha, p, x, nodes), Step(adj, alpha, p, y, nodes);
    StepContracts(adj, alpha, p, y, x, nodes);
    L1Triangle(sy, sx, x, nodes);
    L1Triangle(y, sy, x, nodes);
    L1Symmetric(y, sy, nodes);
    ToleranceArithmetic(alpha, r, tol, L1(sy, x, nodes), L1(y, x, nodes));
  }

  /** A fixed point is approached at the rate 1 - alpha, and a round of less than `tol` ends near it. */
  lemma FixedPointApproached(adj: Adjacency, alpha: real, p: Vector, pi: Vector, nodes: set<int>, t: nat, y: Vector, tol: real)
    requires 0.0 < alpha <= 1.0 && Closed(adj, nodes) && FixedPoint(adj, alpha, p, pi, nodes)
    requires L1(Step(adj, alpha, p, y, nodes), y, nodes) < tol
    ensures L1(Iterate(adj, alpha, p, nodes, t), pi, nodes) <= Shrunk(alpha, t, L1(p, pi, nodes), 0.0)
    ensures Times(alpha, L1(Step(adj, alpha, p, y, nodes), pi, nodes)) <= Times(1.0 - alpha, tol)
  {
    hide Closed, Step, Times, Shrunk;
    TimesZero(alpha);
    SumZero(Gap(Step(adj, alpha, p, pi, nodes), pi, nodes), nodes);
    IterateApproaches(adj, alpha, p, pi, nodes, 0.0, t);
    hide L1;
    SmallStepIsClose(adj, alpha, p, pi, y, nodes, 0.0, tol);
  }
}
