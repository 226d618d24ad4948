/**
 Bounded-hop reachability, by its meaning (walks) and by its layers.  Five programs
 compute it; this module is what they are all measured against.
 */
module Reachability {

  /** The direct successors of every node. */
  type Successors = int -> set<int>

  ghost predicate IsWalk(succ: Successors, w: seq<int>) {
    |w| > 0 && forall i :: 0 <= i < |w| - 1 ==> w[i + 1] in succ(w[i])
  }

  /** A walk of `steps` edges leads from some node of `from` to `v`. */
  ghost predicate Reaches(succ: Successors, from: set<int>, v: int, steps: nat) {
    exists w :: IsWalk(succ, w) && |w| == steps + 1 && w[0] in from && w[steps] == v
  }

  function Step(succ: Successors, s: set<int>): set<int> {
    set u, v | u in s && v in succ(u) :: v
  }

  lemma StepMember(succ: Successors, s: set<int>, u: int, v: int)
    requires u in s && v in succ(u)
    ensures v in Step(succ, s)
  {
  }

  lemma StepSource(succ: Successors, s: set<int>, v: int) returns (u: int)
    requires v in Step(succ, s)
    ensures u in s && v in succ(u)
  {
    u :| u in s && v in succ(u);
  }

  lemma StepMonotone(succ: Successors, a: set<int>, b: set<int>)
    requires a <= b
    ensures Step(succ, a) <= Step(succ, b)
  {
  }

  lemma StepUnion(succ: Successors, done: set<int>, u: int)
    ensures Step(succ, done + {u}) == Step(succ, done) + succ(u)
  {
    var all := Step(succ, done + {u});
    forall v | v in all ensures v in Step(succ, done) + succ(u) {
      var w := StepSource(succ, done + {u}, v);
      if w in done {
        StepMember(succ, done, w, v);
      }
    }
    StepMonotone(succ, done, done + {u});
    forall v | v in succ(u) ensures v in all {
      StepMember(succ, done + {u}, u, v);
    }
  }

  /** The nodes at the end of a walk of exactly `steps` edges. */
  function Layer(succ: Successors, from: set<int>, steps: nat): set<int> {
    if steps == 0 then from else Step(succ, Layer(succ, from, steps - 1))
  }

  /** The nodes within `hops` edges. */
  function Ball(succ: Successors, from: set<int>, hops: nat): set<int> {
    if hops == 0 then from
    else Ball(succ, from, hops - 1) + Step(succ, Ball(succ, from, hops - 1))
  }

  /** `range(hops)` and `depth >= hops` treat a negative hop count as none. */
  function Hops(hops: int): nat {
    if hops < 0 then 0 else hops
  }

  lemma {:induction false} LayerIsWalks(succ: Successors, from: set<int>, v: int, steps: nat)
    ensures v in Layer(succ, from, steps) <==> Reaches(succ, from, v, steps)
    decreases steps
  {
    if steps == 0 {
      if v in from {
        assert IsWalk(succ, [v]) && [v][0] == v;
      }
    } else {
      if v in Layer(succ, from, steps) {
        var u := StepSource(succ, Layer(succ, from, steps - 1), v);
        LayerIsWalks(succ, from, u, steps - 1);
        var w :| IsWalk(succ, w) && |w| == steps && w[0] in from && w[steps - 1] == u;
        assert IsWalk(succ, w + [v]) && (w + [v])[0] == w[0] && (w + [v])[steps] == v;
      }
      if Reaches(succ, from, v, steps) {
        var w :| IsWalk(succ, w) && |w| == steps + 1 && w[0] in from && w[steps] == v;
        var prefix := w[..steps];
        assert IsWalk(succ, prefix) && |prefix| == steps && prefix[0] in from && prefix[steps - 1] == w[steps - 1];
        LayerIsWalks(succ, from, w[steps - 1], steps - 1);
        StepMember(succ, Layer(succ, from, steps - 1), w[steps - 1], v);
      }
    }
  }

  lemma {:induction false} LayerInBall(succ: Successors, from: set<int>, j: nat, hops: nat)
    requires j <= hops
    ensures Layer(succ, from, j) <= Ball(succ, from, hops)
    decreases hops
  {
    hide Step;
    if hops == 0 {
    } else if j < hops {
      LayerInBall(succ, from, j, hops - 1);
    } else {
      LayerInBall(succ, from, j - 1, hops - 1);
      StepMonotone(succ, Layer(succ, from, j - 1), Ball(succ, from, hops - 1));
    }
  }

  lemma {:induction false} BallInLayers(succ: Successors, from: set<int>, v: int, hops: nat) returns (j: nat)
    requires v in Ball(succ, from, hops)
    ensures j <= hops && v in Layer(succ, from, j)
    decreases hops
  {
    hide Step;
    if hops == 0 {
      j := 0;
    } else if v in Ball(succ, from, hops - 1) {
      j := BallInLayers(succ, from, v, hops - 1);
    } else {
      var u := StepSource(succ, Ball(succ, from, hops - 1), v);
      var i := BallInLayers(succ, from, u, hops - 1);
      StepMember(succ, Layer(succ, from, i), u, v);
      j := i + 1;
    }
  }

  /** Within `hops` edges means at the end of a walk of at most `hops` edges. */
  lemma BallIsWalks(succ: Successors, from: set<int>, v: int, hops: nat)
    ensures v in Ball(succ, from, hops) <==> exists j: nat :: j <= hops && Reaches(succ, from, v, j)
  {
    hide Reaches, Layer, Ball;
    if v in Ball(succ, from, hops) {
      var j := BallInLayers(succ, from, v, hops);
      LayerIsWalks(succ, from, v, j);
    }
    if j: nat :| j <= hops && Reaches(succ, from, v, j) {
      LayerIsWalks(succ, from, v, j);
      LayerInBall(succ, from, j, hops);
    }
  }

  lemma BallNext(succ: Successors, from: set<int>, d: nat)
    ensures Ball(succ, from, d + 1) == Ball(succ, from, d) + Step(succ, Ball(succ, from, d))
  {
  }

  lemma {:induction false} BallMonotone(succ: Successors, from: set<int>, d: nat, h: nat)
    requires d <= h
    ensures Ball(succ, from, d) <= Ball(succ, from, h)
  {
    if d < h {
      BallMonotone(succ, from, d, h - 1);
    } else {
    }
  }

  /** A ball that did not grow once never grows again. */
  lemma {:induction false} BallFixpoint(succ: Successors, from: set<int>, d: nat, h: nat)
    requires d <= h && Step(succ, Ball(succ, from, d)) <= Ball(succ, from, d)
    ensures Ball(succ, from, h) == Ball(succ, from, d)
  {
    if d < h {
      BallFixpoint(succ, from, d, h - 1);
    } else {
    }
  }

  /** The documented contract of the typed reach: other than the anchor, within 1..hops steps. */
  lemma ReachIsWalks(succ: Successors, src: int, v: int, hops: nat)
    ensures v in Ball(succ, {src}, hops) - {src}
       <==> v != src && exists j: nat :: 1 <= j <= hops && Reaches(succ, {src}, v, j)
  {
    BallIsWalks(succ, {src}, v, hops);
    if v != src {
      LayerIsWalks(succ, {src}, v, 0);
    }
    hide Reaches, Layer, Ball;
  }
}
