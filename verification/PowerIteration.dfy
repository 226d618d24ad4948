/**
 `power_iteration_ppr` of bench/tjs_open_ref.py: the blocking oracle, on arrays
 updated in place.
 */
module PowerIteration {
  import opened Collections
  import opened Wrappers
  import opened Sums
  import opened Graph
  import opened PowerModel
  import opened PushModel
  import opened PersonalizedPageRank

  /** The vector an array of length n stands for. */
  ghost function Dense(s: seq<real>): Vector {
    map i: int | 0 <= i < |s| :: s[i]
  }

  /** `p`: the personalization of the seeds that are ids of the graph. */
  ghost function SeedVector(p: Vector, n: nat): Vector {
    map i | i in UpTo(n) :: Get(p, i)
  }

  /** What node `v` has received once the nodes below `u` have sent their shares. */
  ghost function Received(adj: Adjacency, alpha: real, p: Vector, x: Vector, n: nat, u: nat, v: int): real {
    Kept(alpha, Get(p, v)) + Times(1.0 - alpha, Dot(x, Column(adj, UpTo(n), v), UpTo(u)))
  }

  lemma NothingReceived(adj: Adjacency, alpha: real, p: Vector, x: Vector, n: nat, v: int)
    ensures Received(adj, alpha, p, x, n, 0, v) == Kept(alpha, Get(p, v))
  {
  }

  lemma AllReceived(adj: Adjacency, alpha: real, p: Vector, x: Vector, n: nat, v: int)
    requires 0 <= v < n
    ensures Received(adj, alpha, p, x, n, n, v) == Get(Step(adj, alpha, p, x, UpTo(n)), v)
  {
    hide Column, Dot, Blend, Kept, Times;
    BlendParts(alpha, Get(p, v), Flow(adj, x, UpTo(n), v));
  }

  lemma BlendParts(alpha: real, a: real, b: real)
    ensures Blend(alpha, a, b) == Kept(alpha, a) + Times(1.0 - alpha, b)
  {
  }

  /** Node `u` sends `v` its share of what `u` passes on. */
  lemma OneMoreSender(adj: Adjacency, alpha: real, p: Vector, x: Vector, n: nat, u: nat, v: int)
    requires u < n
    ensures Received(adj, alpha, p, x, n, u + 1, v)
         == Received(adj, alpha, p, x, n, u, v) + Times(PassedOn(alpha, Get(x, u)), Share(adj, u, v))
  {
    hide Column, Dot, Share, Kept;
    ColumnAt(adj, UpTo(n), v, u);
    assert UpTo(u + 1) - {u as int} == UpTo(u);
    DotPick(x, Column(adj, UpTo(n), v), UpTo(u + 1), u);
    TimesNest(alpha, Get(x, u), Share(adj, u, v), Dot(x, Column(adj, UpTo(n), v), UpTo(u)));
  }

  lemma TimesNest(alpha: real, r: real, h: real, rest: real)
    ensures Times(1.0 - alpha, Times(r, h) + rest) == Times(1.0 - alpha, rest) + Times(PassedOn(alpha, r), h)
  {
  }

  /** A share sent once per listing adds up to the passed-on mass times the transition weight. */
  lemma SharePerListing(adj: Adjacency, alpha: real, u: int, r: real, v: int)
    ensures var ns := Neighbours(adj, u);
            Times(PassedOn(alpha, r), Share(adj, u, v))
              == if ns == [] then 0.0 else Times(PassedOn(alpha, r) / |ns| as real, Count(ns, v) as real)
  {
  }

  lemma NoMassNoShare(alpha: real, h: real)
    ensures Times(PassedOn(alpha, 0.0), h) == 0.0
  {
  }

  method AddShares(nxt: array<real>, ns: seq<int>, share: real)
    requires forall v :: v in ns ==> 0 <= v < nxt.Length
    modifies nxt
    ensures forall v :: 0 <= v < nxt.Length ==> nxt[v] == old(nxt[v]) + Times(share, Count(ns, v) as real)
  {
    hide Times;
    TimesZero(share);
    for i := 0 to |ns|
      invariant forall v :: 0 <= v < nxt.Length ==> nxt[v] == old(nxt[v]) + Times(share, Count(ns[..i], v) as real)
    {
      ghost var before := nxt[..];
      assert ns[i] in ns;
      nxt[ns[i]] := nxt[ns[i]] + share;
      forall v | 0 <= v < nxt.Length
        ensures nxt[v] == old(nxt[v]) + Times(share, Count(ns[..i + 1], v) as real)
      {
        assert ns[..i + 1][..i] == ns[..i];
        assert before[v] == old(nxt[v]) + Times(share, Count(ns[..i], v) as real);
        TimesDistributes(share, Count(ns[..i], v) as real, 1.0);
        TimesOne(share, 0.0);
      }
    }
    assert ns[..|ns|] == ns;
  }

  /** Node `u` sends out its shares; without out-edges or without mass it sends none. */
  method SendShares(adj: Adjacency, alpha: real, u: int, mass: real, nxt: array<real>)
    requires forall v :: v in Neighbours(adj, u) ==> 0 <= v < nxt.Length
    modifies nxt
    ensures forall v :: 0 <= v < nxt.Length ==>
              nxt[v] == old(nxt[v]) + Times(PassedOn(alpha, mass), Share(adj, u, v))
  {
    hide Times, PassedOn, Share;
    var ns := Neighbours(adj, u);
    if |ns| != 0 && mass != 0.0 {
      AddShares(nxt, ns, PassedOn(alpha, mass) / |ns| as real);
    }
    forall v | 0 <= v < nxt.Length
      ensures nxt[v] == old(nxt[v]) + Times(PassedOn(alpha, mass), Share(adj, u, v))
    {
      SharePerListing(adj, alpha, u, mass, v);
      NoMassNoShare(alpha, Share(adj, u, v));
    }
  }

  /** One round: `nxt` is one step of the oracle from `rank`. */
  method Round(adj: Adjacency, alpha: real, p: array<real>, rank: array<real>) returns (nxt: array<real>)
    requires p.Length == rank.Length && Closed(adj, UpTo(rank.Length))
    ensures fresh(nxt) && nxt.Length == rank.Length
    ensures Dense(nxt[..]) == Step(adj, alpha, Dense(p[..]), Dense(rank[..]), UpTo(rank.Length))
  {
    hide Times, Share, Column, Dot, Kept, PassedOn, Received, Step;
    var n := rank.Length;
    ghost var pv, x := Dense(p[..]), Dense(rank[..]);
    nxt := new real[n](i requires 0 <= i < p.Length reads p => Kept(alpha, p[i]));
    forall v | 0 <= v < n ensures nxt[v] == Received(adj, alpha, pv, x, n, 0, v) {
      NothingReceived(adj, alpha, pv, x, n, v);
    }
    for u := 0 to n
      invariant forall v :: 0 <= v < n ==> nxt[v] == Received(adj, alpha, pv, x, n, u, v)
    {
      ghost var before := nxt[..];
      assert forall v :: v in Neighbours(adj, u) ==> v in UpTo(n) by { assert (u as int) in UpTo(n); }
      SendShares(adj, alpha, u, rank[u], nxt);
      forall v | 0 <= v < n ensures nxt[v] == Received(adj, alpha, pv, x, n, u + 1, v) {
        assert before[v] == Received(adj, alpha, pv, x, n, u, v);
        OneMoreSender(adj, alpha, pv, x, n, u, v);
      }
    }
    ghost var xs := nxt[..];
    DenseStep(adj, alpha, pv, x, n, xs);
  }

  lemma DenseStep(adj: Adjacency, alpha: real, p: Vector, x: Vector, n: nat, xs: seq<real>)
    requires |xs| == n && forall v :: 0 <= v < n ==> xs[v] == Received(adj, alpha, p, x, n, n, v)
    ensures Dense(xs) == Step(adj, alpha, p, x, UpTo(n))
  {
    hide Received, Step;
    StepKeys(adj, alpha, p, x, UpTo(n));
    assert Dense(xs).Keys == UpTo(n);
    forall v | v in UpTo(n) ensures Dense(xs)[v] == Step(adj, alpha, p, x, UpTo(n))[v] {
      AllReceived(adj, alpha, p, x, n, v);
    }
  }

  lemma StepKeys(adj: Adjacency, alpha: real, p: Vector, x: Vector, nodes: set<int>)
    ensures Step(adj, alpha, p, x, nodes).Keys == nodes
  {
  }

  /** `np.abs(nxt - rank).sum()`. */
  method Moved(a: array<real>, b: array<real>) returns (d: real)
    requires a.Length == b.Length
    ensures d == L1(Dense(a[..]), Dense(b[..]), UpTo(a.Length))
  {
    hide Dense;
    ghost var xs, ys := a[..], b[..];
    ghost var gap := Gap(Dense(xs), Dense(ys), UpTo(|xs|));
    d := 0.0;
    for i := 0 to a.Length
      invariant d == Sum(gap, UpTo(i))
    {
      SumInsert(gap, UpTo(i), i);
      DenseGap(xs, ys, i);
      d := d + Abs(a[i] - b[i]);
    }
  }

  lemma DenseGap(xs: seq<real>, ys: seq<real>, i: nat)
    requires i < |xs| == |ys|
    ensures Get(Gap(Dense(xs), Dense(ys), UpTo(|xs|)), i) == Abs(xs[i] - ys[i])
  {
  }

  /** The loop of rounds, started from `p` and left early by the tolerance test. */
  method Rounds(adj: Adjacency, alpha: real, p: array<real>, iters: nat, tol: real)
    returns (rank: array<real>, rounds: nat)
    requires Closed(adj, UpTo(p.Length))
    ensures rank.Length == p.Length
    ensures Dense(rank[..]) == Iterate(adj, alpha, Dense(p[..]), UpTo(p.Length), rounds)
    ensures Stopped(adj, alpha, Dense(p[..]), p.Length, iters, tol, rounds)
  {
    hide Dense, Closed, Step, L1, SmallMove, Stopped, Iterate;
    var n := p.Length;
    ghost var pv := Dense(p[..]);
    rank := new real[n](i requires 0 <= i < p.Length reads p => p[i]);
    assert rank[..] == p[..];
    rounds := 0;
    RoundsStart(adj, alpha, pv, n, tol);
    while rounds < iters
      invariant rounds <= iters && rank.Length == n
      invariant Dense(rank[..]) == Iterate(adj, alpha, pv, UpTo(n), rounds)
      invariant NoSmallMove(adj, alpha, pv, n, tol, rounds)
    {
      var nxt := Round(adj, alpha, p, rank);
      var moved := Moved(nxt, rank);
      rank := nxt;
      rounds := rounds + 1;
      RoundDone(adj, alpha, pv, n, iters, tol, rounds);
      if moved < tol {
        return;
      }
    }
    RoundsUsedUp(adj, alpha, pv, n, iters, tol);
  }

  /** No round up to `t` moved by less than `tol`. */
  ghost predicate NoSmallMove(adj: Adjacency, alpha: real, p: Vector, n: nat, tol: real, t: nat) {
    forall j :: 0 < j <= t ==> !SmallMove(adj, alpha, p, n, tol, j)
  }

  lemma RoundsStart(adj: Adjacency, alpha: real, p: Vector, n: nat, tol: real)
    ensures Iterate(adj, alpha, p, UpTo(n), 0) == p && NoSmallMove(adj, alpha, p, n, tol, 0)
  {
  }

  lemma RoundDone(adj: Adjacency, alpha: real, p: Vector, n: nat, iters: nat, tol: real, t: nat)
    requires 0 < t <= iters && NoSmallMove(adj, alpha, p, n, tol, t - 1)
    ensures var x, y := Iterate(adj, alpha, p, UpTo(n), t - 1), Iterate(adj, alpha, p, UpTo(n), t);
            && y == Step(adj, alpha, p, x, UpTo(n))
            && if L1(y, x, UpTo(n)) < tol then Stopped(adj, alpha, p, n, iters, tol, t)
               else NoSmallMove(adj, alpha, p, n, tol, t)
  {
    hide Step, L1;
  }

  lemma RoundsUsedUp(adj: Adjacency, alpha: real, p: Vector, n: nat, iters: nat, tol: real)
    requires NoSmallMove(adj, alpha, p, n, tol, iters)
    ensures Stopped(adj, alpha, p, n, iters, tol, iters)
  {
  }

  /** The positive entries of a vector. */
  ghost function Positive(x: Vector, nodes: set<int>): Vector {
    map v | v in nodes && Get(x, v) > 0.0 :: Get(x, v)
  }

  method PositivePart(a: array<real>) returns (result: Vector)
    ensures result == Positive(Dense(a[..]), UpTo(a.Length))
  {
    var xs := a[..];
    result := map v: int | 0 <= v < |xs| && xs[v] > 0.0 :: xs[v];
  }

  /**
   The result is the vector after `rounds` rounds, its positive entries only; the loop ended
   because the rounds were used up or at the first round that moved less than `tol`.
   */
  method PowerIterationPpr(adj: Adjacency, seeds: seq<int>, n: nat, alpha: real, iters: nat, tol: real,
                           seedWeights: Option<Vector>)
    returns (result: Vector, rounds: nat)
    requires 0.0 < alpha <= 1.0 && Closed(adj, UpTo(n)) && NonNegative(SeedWeights(seeds, seedWeights))
    ensures IsStart(Personalization(SeedWeights(seeds, seedWeights)), seeds, seedWeights)
    ensures var p := SeedVector(Personalization(SeedWeights(seeds, seedWeights)), n);
            && result == Positive(Iterate(adj, alpha, p, UpTo(n), rounds), UpTo(n))
            && (forall v :: v in UpTo(n) ==> Get(result, v) == Get(Iterate(adj, alpha, p, UpTo(n), rounds), v))
            && Stopped(adj, alpha, p, n, iters, tol, rounds)
  {
    hide Personalization, SeedWeights, Step, NonNegative, Iterate, Closed, Stopped, Dense, SeedVector, IsStart;
    StartVector(seeds, seedWeights);
    var weights := Normalised(SeedWeights(seeds, seedWeights));
    PersonalizationMass(SeedWeights(seeds, seedWeights));
    var p := new real[n](i => Get(weights, i));
    DenseSeeds(p[..], weights, n);
    var rank;
    rank, rounds := Rounds(adj, alpha, p, iters, tol);
    IterateNonNegative(adj, alpha, weights, n, rounds);
    result := PositivePart(rank);
  }

  lemma DenseSeeds(s: seq<real>, weights: Vector, n: nat)
    requires |s| == n && forall i :: 0 <= i < n ==> s[i] == Get(weights, i)
    ensures Dense(s) == SeedVector(weights, n)
  {
  }

  /** Round `j` moved the vector by less than `tol`. */
  ghost predicate SmallMove(adj: Adjacency, alpha: real, p: Vector, n: nat, tol: real, j: nat)
    requires 0 < j
  {
    L1(Iterate(adj, alpha, p, UpTo(n), j), Iterate(adj, alpha, p, UpTo(n), j - 1), UpTo(n)) < tol
  }

  ghost predicate Stopped(adj: Adjacency, alpha: real, p: Vector, n: nat, iters: nat, tol: real, rounds: nat) {
    && rounds <= iters
    && (rounds == iters || (0 < rounds && SmallMove(adj, alpha, p, n, tol, rounds)))
    && forall j :: 0 < j < rounds ==> !SmallMove(adj, alpha, p, n, tol, j)
  }

  lemma {:induction false} IterateNonNegative(adj: Adjacency, alpha: real, p: Vector, n: nat, t: nat)
    requires 0.0 < alpha <= 1.0 && NonNegative(p)
    ensures forall v :: v in UpTo(n) ==> Get(Iterate(adj, alpha, SeedVector(p, n), UpTo(n), t), v) >= 0.0
  {
    hide Times, Share, Column, Dot, Flow, Blend;
    if t == 0 {
    } else {
      var x := Iterate(adj, alpha, SeedVector(p, n), UpTo(n), t - 1);
      IterateNonNegative(adj, alpha, p, n, t - 1);
      forall v | v in UpTo(n) ensures Blend(alpha, Get(SeedVector(p, n), v), Flow(adj, x, UpTo(n), v)) >= 0.0 {
        FlowNonNegative(adj, x, UpTo(n), v);
        BlendNonNegative(alpha, Get(SeedVector(p, n), v), Flow(adj, x, UpTo(n), v));
      }
    }
  }

  lemma BlendNonNegative(alpha: real, a: real, b: real)
    requires 0.0 < alpha <= 1.0 && a >= 0.0 && b >= 0.0
    ensures Blend(alpha, a, b) >= 0.0
  {
    TimesMonotone(0.0, a, alpha);
    TimesMonotone(0.0, b, 1.0 - alpha);
  }
}
