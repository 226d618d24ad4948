/**
 `recall_at_k` of bench/rabitq_sim.py over a quantised corpus: how far its distance estimates can be off, and
 a margin on the data under which the reranked recall over all queries is 1.
 */
module QuantizedRecall {
  import opened Collections
  import opened Wrappers
  import opened Sums
  import opened Sorting
  import opened Rotations
  import opened Quantizer
  import opened RerankMargin

  // ----- one estimate -----

  /** `exact_l2_sq` of one vector. */
  ghost function ExactL2(x: Vector, q: Vector, dim: nat): real {
    Norm2(Minus(x, q, dim), dim)
  }

  /** `estimated_l2_sq` of coded vector `i`. */
  ghost function EstimatedL2(code: Code, i: nat, q: Vector, dim: nat): real
    requires code.bits >= 1 && i < |code.levels| && i < |code.scale|
    requires forall j :: j in UpTo(dim) ==> j in code.levels[i]
  {
    Norm2(Minus(Reconstruct(code, i, dim), q, dim), dim)
  }

  /** 2ae is at most t * e * e + a * a / t, for every positive t. */
  lemma CrossTerm(a: real, e: real, b: real, t: real)
    requires t > 0.0 && b == a + e
    ensures Times(b, b) <= Times(a, a) + (Times(1.0 + t, Times(e, e)) + Times(1.0 / t, Times(a, a)))
    ensures Times(a, a) <= Times(b, b) + (Times(1.0 + t, Times(e, e)) + Times(1.0 / t, Times(a, a)))
  {
    var u := 1.0 / t;
    assert u * t == 1.0 && u > 0.0;
    var m, n := t * e - a, t * e + a;
    SquareNotNegative(m);
    SquareNotNegative(n);
    SquareNotNegative(e);
    assert u * (m * m) >= 0.0 && u * (n * n) >= 0.0;
    assert u * (m * m) == (u * t) * (t * (e * e)) - 2.0 * (u * t) * (a * e) + u * (a * a);
    assert u * (n * n) == (u * t) * (t * (e * e)) + 2.0 * (u * t) * (a * e) + u * (a * a);
  }

  lemma SquareNotNegative(x: real)
    ensures x * x >= 0.0
  {
  }

  /** Moving a vector by `e` changes its squared norm by at most this. */
  ghost function NormSlack(a: real, e: real, t: real): real
    requires t > 0.0
  {
    Times(1.0 + t, e) + Times(1.0 / t, a)
  }

  lemma NormMoved(a: Vector, e: Vector, b: Vector, dim: nat, t: real)
    requires t > 0.0 && forall j :: j in UpTo(dim) ==> Get(b, j) == Get(a, j) + Get(e, j)
    ensures Abs(Norm2(b, dim) - Norm2(a, dim)) <= NormSlack(Norm2(a, dim), Norm2(e, dim), t)
  {
    hide Times, Sum;
    var s := UpTo(dim);
    var aa, ee, bb := Products(a, a, s), Products(e, e, s), Products(b, b, s);
    var slack := map j | j in s :: Times(1.0 + t, Get(ee, j)) + Times(1.0 / t, Get(aa, j));
    SumLinear(1.0 + t, ee, 1.0 / t, aa, slack, s);
    forall j | j in s
      ensures Get(bb, j) <= Get(aa, j) + Get(slack, j) && Get(aa, j) <= Get(bb, j) + Get(slack, j)
    {
      CrossTerm(Get(a, j), Get(e, j), Get(b, j), t);
    }
    SumWithin(bb, aa, slack, s);
    SumWithin(aa, bb, slack, s);
  }

  lemma SumWithin(a: map<int, real>, b: map<int, real>, c: map<int, real>, s: set<int>)
    requires forall x :: x in s ==> Get(a, x) <= Get(b, x) + Get(c, x)
    ensures Sum(a, s) <= Sum(b, s) + Sum(c, s)
  {
    hide Times;
    var both := map x | x in s :: Get(b, x) + Get(c, x);
    forall x | x in s ensures Get(both, x) == Times(1.0, Get(b, x)) + Times(1.0, Get(c, x)) {
      TimesOne(Get(b, x), Get(c, x));
      TimesOne(Get(c, x), Get(b, x));
    }
    SumLinear(1.0, b, 1.0, c, both, s);
    TimesOne(Sum(b, s), Sum(c, s));
    SumLe(a, both, s);
  }

  /** What an estimate can be off by: a number of the data, the bits, the rotation and the free choice of `t` alone. */
  ghost function EstimateSlack(xs: seq<Vector>, bits: nat, p: Matrix, dim: nat, q: Vector, t: real, i: nat): real
    requires xs != [] && bits >= 1 && i < |xs| && t > 0.0
  {
    var scale := Scale(Residual(xs[i], Centroid(xs, dim), p, dim), dim);
    NormSlack(ExactL2(xs[i], q, dim), Times(GridErrorBound(bits, dim), Square(scale)), t)
  }

  lemma ReconstructionWithin(xs: seq<Vector>, bits: nat, p: Matrix, dim: nat, i: nat)
    requires xs != [] && bits >= 1 && Orthonormal(p, dim) && i < |xs|
    ensures var code := Quantize(xs, bits, p, dim).value;
            Norm2(Minus(Reconstruct(code, i, dim), xs[i], dim), dim)
              <= Times(GridErrorBound(bits, dim), Square(code.scale[i]))
  {
    var code := Quantize(xs, bits, p, dim).value;
    CodeError(xs, bits, p, dim, i);
    hide Quantize, Reconstruct, GridErrorBound, Norm2, Times, Square, Orthonormal, Normalised;
    var recon := Reconstruct(code, i, dim);
    var error := ErrorVector(xs[i], recon, code.centroid, dim);
    Unnormalise(Norm2(error, dim), code.scale[i], GridErrorBound(bits, dim));
    SameNorm(error, Minus(recon, xs[i], dim), dim);
  }

  lemma EstimateWithin(xs: seq<Vector>, bits: nat, p: Matrix, dim: nat, q: Vector, t: real, i: nat)
    requires xs != [] && bits >= 1 && Orthonormal(p, dim) && i < |xs| && t > 0.0
    ensures Abs(EstimatedL2(Quantize(xs, bits, p, dim).value, i, q, dim) - ExactL2(xs[i], q, dim))
         <= EstimateSlack(xs, bits, p, dim, q, t, i)
  {
    hide Quantize, Orthonormal, Reconstruct, GridErrorBound, Norm2, Times, Square, Scale, Residual, NormSlack, Centroid,
         Minus, ExactL2;
    StoredParts(xs, bits, p, dim, i);
    ReconstructionWithin(xs, bits, p, dim, i);
    var code := Quantize(xs, bits, p, dim).value;
    EstimateMoved(xs[i], Reconstruct(code, i, dim), q, dim, t, Times(GridErrorBound(bits, dim), Square(code.scale[i])));
  }

  lemma EstimateMoved(x: Vector, recon: Vector, q: Vector, dim: nat, t: real, bound: real)
    requires t > 0.0 && Norm2(Minus(recon, x, dim), dim) <= bound
    ensures Abs(Norm2(Minus(recon, q, dim), dim) - ExactL2(x, q, dim)) <= NormSlack(ExactL2(x, q, dim), bound, t)
  {
    hide Norm2, NormSlack;
    NormMoved(Minus(x, q, dim), Minus(recon, x, dim), Minus(recon, q, dim), dim, t);
    SlackMonotone(ExactL2(x, q, dim), Norm2(Minus(recon, x, dim), dim), bound, t);
  }

  lemma Unnormalise(e: real, scale: real, bound: real)
    requires scale > 0.0 && Normalised(e, scale) <= bound
    ensures e <= Times(bound, Square(scale))
  {
    SquarePositive(scale);
    hide Square;
    var s := Square(scale);
    assert (e / s) * s == e;
    TimesMonotone(e / s, bound, s);
  }

  lemma SlackMonotone(a: real, e: real, e': real, t: real)
    requires t > 0.0 && e <= e'
    ensures NormSlack(a, e, t) <= NormSlack(a, e', t)
  {
    TimesMonotone(e, e', 1.0 + t);
  }

  // ----- recall over all queries -----

  /** The ids one query gets: the k nearest by estimate, or by exact distance among a shortlist by estimate. */
  function Got(items: seq<int>, exact: map<int, real>, est: map<int, real>, k: nat, rerank: Option<nat>): seq<int> {
    match rerank
    case None => Take(Argsort(items, est), k)
    case Some(r) => Take(Argsort(Take(Argsort(items, est), ShortlistSize(r, k)), exact), k)
  }

  function Truth(items: seq<int>, exact: map<int, real>, k: nat): seq<int> {
    Take(Argsort(items, exact), k)
  }

  /**
   What the two modes return, and what they are measured against: the ids of least exact distance; without a
   rerank those of least estimate; with one, those of least exact distance among a shortlist of max(rerank, k)
   ids of least estimate.
   */
  lemma AnswersOfQuery(items: seq<int>, exact: map<int, real>, est: map<int, real>, k: nat, r: nat) returns (shortlist: seq<int>)
    requires Distinct(items)
    ensures AreLeast(Truth(items, exact, k), exact, Elements(items), k)
    ensures AreLeast(Got(items, exact, est, k, None), est, Elements(items), k)
    ensures AreLeast(shortlist, est, Elements(items), if r >= k then r else k)
    ensures AreLeast(Got(items, exact, est, k, Some(r)), exact, Elements(shortlist), k)
  {
    shortlist := Take(Argsort(items, est), ShortlistSize(r, k));
    ArgsortLeast(items, exact, k);
    ArgsortLeast(items, est, k);
    ArgsortLeast(items, est, ShortlistSize(r, k));
    hide Argsort;
    ArgsortLeast(shortlist, exact, k);
  }

  /** Correct ids over the first `m` queries. */
  function Hits(items: seq<int>, exact: seq<map<int, real>>, est: seq<map<int, real>>, k: nat, rerank: Option<nat>,
                m: nat): nat
    requires m <= |exact| && m <= |est|
  {
    if m == 0 then 0
    else
      Hits(items, exact, est, k, rerank, m - 1)
      + |Elements(Truth(items, exact[m - 1], k)) * Elements(Got(items, exact[m - 1], est[m - 1], k, rerank))|
  }

  function Asked(items: seq<int>, exact: seq<map<int, real>>, k: nat, m: nat): nat
    requires m <= |exact|
  {
    if m == 0 then 0 else Asked(items, exact, k, m - 1) + |Elements(Truth(items, exact[m - 1], k))|
  }

  /** `recall_at_k`, from the distances of every query. */
  method RecallAtK(items: seq<int>, exact: seq<map<int, real>>, est: seq<map<int, real>>, k: nat, rerank: Option<nat>)
    returns (recall: real)
    requires |exact| == |est|
    ensures var asked := Asked(items, exact, k, |exact|);
            recall == if asked == 0 then 0.0
                      else Hits(items, exact, est, k, rerank, |exact|) as real / asked as real
  {
    hide Got, Truth, Elements;
    var hits: nat, total: nat := 0, 0;
    for m := 0 to |exact|
      invariant hits == Hits(items, exact, est, k, rerank, m) && total == Asked(items, exact, k, m)
    {
      var truth := Elements(Truth(items, exact[m], k));
      var got := Elements(Got(items, exact[m], est[m], k, rerank));
      hits := hits + |truth * got|;
      total := total + |truth|;
    }
    recall := if total == 0 then 0.0 else hits as real / total as real;
  }

  ghost predicate DistinctKeys(items: seq<int>, key: map<int, real>) {
    forall i, j :: i in items && j in items && i != j ==> Get(key, i) != Get(key, j)
  }

  /** Estimates within the slack, and none of the true top k with too many rivals. */
  ghost predicate HasMargin(items: seq<int>, exact: map<int, real>, est: map<int, real>, slack: map<int, real>, k: nat,
                            rerank: nat)
    requires 0 < k <= |items|
  {
    && DistinctKeys(items, exact)
    && WithinSlack(Elements(items), exact, est, slack)
    && FewRivals(Elements(items), exact, slack, Argsort(items, exact), rerank, k)
  }

  lemma QueryHasFullRecall(items: seq<int>, exact: map<int, real>, est: map<int, real>, slack: map<int, real>,
                           k: nat, rerank: nat)
    requires Distinct(items) && 0 < k <= |items| && HasMargin(items, exact, est, slack, k, rerank)
    ensures Got(items, exact, est, k, Some(rerank)) == Truth(items, exact, k)
  {
    hide Sort;
    var byExact, byEst := Argsort(items, exact), Argsort(items, est);
    ArgsortSorts(items, exact);
    ArgsortSorts(items, est);
    ShortlistHoldsTopK(Elements(items), exact, est, slack, byExact, byEst, rerank, k);
    var shortlist := Take(byEst, ShortlistSize(rerank, k));
    ArgsortSorts(shortlist, exact);
    forall i | i in shortlist ensures i in Elements(items) {
      assert i in byEst;
    }
    RerankIsTopK(Elements(items), exact, byExact, Argsort(shortlist, exact), Elements(shortlist), k);
  }

  lemma {:induction false} AllHits(items: seq<int>, exact: seq<map<int, real>>, est: seq<map<int, real>>, k: nat, rerank: nat,
                                   m: nat)
    requires m <= |exact| && m <= |est|
    requires forall j :: 0 <= j < m ==> Got(items, exact[j], est[j], k, Some(rerank)) == Truth(items, exact[j], k)
    ensures Hits(items, exact, est, k, Some(rerank), m) == Asked(items, exact, k, m)
  {
    hide Got, Truth;
    if m > 0 {
      AllHits(items, exact, est, k, rerank, m - 1);
      var truth := Elements(Truth(items, exact[m - 1], k));
      assert truth * truth == truth;
    } else {
    }
  }

  // ----- the two together -----

  /** All distances from query `q`, exact and estimated. */
  ghost function ExactKeys(xs: seq<Vector>, q: Vector, dim: nat): map<int, real> {
    map i: int | 0 <= i < |xs| :: ExactL2(xs[i], q, dim)
  }

  ghost function EstimatedKeys(xs: seq<Vector>, code: Code, q: Vector, dim: nat): map<int, real>
    requires CodeFits(xs, code, dim)
  {
    map i: int | 0 <= i < |xs| :: EstimatedL2(code, i, q, dim)
  }

  ghost function AllExact(xs: seq<Vector>, queries: seq<Vector>, dim: nat): (r: seq<map<int, real>>)
    ensures |r| == |queries| && forall m :: 0 <= m < |r| ==> r[m] == ExactKeys(xs, queries[m], dim)
  {
    seq(|queries|, m requires 0 <= m < |queries| => ExactKeys(xs, queries[m], dim))
  }

  ghost function AllEstimated(xs: seq<Vector>, code: Code, queries: seq<Vector>, dim: nat): (r: seq<map<int, real>>)
    requires CodeFits(xs, code, dim)
    ensures |r| == |queries| && forall m :: 0 <= m < |r| ==> r[m] == EstimatedKeys(xs, code, queries[m], dim)
  {
    seq(|queries|, m requires 0 <= m < |queries| => EstimatedKeys(xs, code, queries[m], dim))
  }

  /** For some t > 0, the estimate of vector `i` from query `q` cannot be off by more than `s`. */
  ghost predicate CoversSlack(xs: seq<Vector>, bits: nat, p: Matrix, dim: nat, q: Vector, i: nat, s: real)
    requires xs != [] && bits >= 1 && i < |xs|
  {
    exists t: real :: t > 0.0 && EstimateSlack(xs, bits, p, dim, q, t, i) <= s
  }

  /** `slack` covers the possible estimation error of every vector. */
  ghost predicate SlackOfData(xs: seq<Vector>, bits: nat, p: Matrix, dim: nat, q: Vector, slack: map<int, real>)
    requires xs != [] && bits >= 1
  {
    forall i :: 0 <= i < |xs| ==> CoversSlack(xs, bits, p, dim, q, i, Get(slack, i))
  }

  /**
   The margin as a condition on the data: distinct distances from the query, and none of the k nearest vectors
   with as many rivals as the shortlist has places, each vector with the largest possible error of its own.
   */
  ghost predicate DataMargin(xs: seq<Vector>, bits: nat, p: Matrix, dim: nat, q: Vector, k: nat, rerank: nat)
    requires xs != [] && bits >= 1 && 0 < k <= |xs|
  {
    var items, exact := Positions(|xs|), ExactKeys(xs, q, dim);
    && DistinctKeys(items, exact)
    && exists slack: map<int, real> :: SlackOfData(xs, bits, p, dim, q, slack)
                                       && FewRivals(Elements(items), exact, slack, Argsort(items, exact), rerank, k)
  }

  lemma DataMarginIsMargin(xs: seq<Vector>, bits: nat, p: Matrix, dim: nat, q: Vector, k: nat, rerank: nat)
    returns (slack: map<int, real>)
    requires xs != [] && bits >= 1 && Orthonormal(p, dim) && 0 < k <= |xs| && DataMargin(xs, bits, p, dim, q, k, rerank)
    ensures HasMargin(Positions(|xs|), ExactKeys(xs, q, dim), EstimatedKeys(xs, Quantize(xs, bits, p, dim).value, q, dim),
                      slack, k, rerank)
  {
    hide Quantize, EstimateSlack, EstimatedL2, ExactL2, Orthonormal, Sort, FewRivals;
    var items, exact := Positions(|xs|), ExactKeys(xs, q, dim);
    slack :| SlackOfData(xs, bits, p, dim, q, slack)
             && FewRivals(Elements(items), exact, slack, Argsort(items, exact), rerank, k);
    var est := EstimatedKeys(xs, Quantize(xs, bits, p, dim).value, q, dim);
    forall i | i in Elements(items) ensures Abs(Get(est, i) - Get(exact, i)) <= Get(slack, i) {
      assert CoversSlack(xs, bits, p, dim, q, i, Get(slack, i));
      var t: real :| t > 0.0 && EstimateSlack(xs, bits, p, dim, q, t, i) <= Get(slack, i);
      EstimateWithin(xs, bits, p, dim, q, t, i);
    }
  }

  /**
   For every corpus, number of bits, orthonormal rotation and list of queries: if every query has the margin, the
   reranked recall of the quantised corpus is 1.
   */
  lemma QuantizedRecallIsOne(xs: seq<Vector>, bits: nat, p: Matrix, dim: nat, queries: seq<Vector>, k: nat, rerank: nat)
    requires xs != [] && bits >= 1 && Orthonormal(p, dim) && 0 < k <= |xs| && queries != []
    requires forall m :: 0 <= m < |queries| ==> DataMargin(xs, bits, p, dim, queries[m], k, rerank)
    ensures var code, items := Quantize(xs, bits, p, dim).value, Positions(|xs|);
            var exact, est := AllExact(xs, queries, dim), AllEstimated(xs, code, queries, dim);
            var asked := Asked(items, exact, k, |queries|);
            asked > 0 && Hits(items, exact, est, k, Some(rerank), |queries|) as real / asked as real == 1.0
  {
    hide Quantize, EstimatedKeys, ExactKeys, DataMargin, HasMargin, Orthonormal, Got, Truth, Hits;
    var code, items := Quantize(xs, bits, p, dim).value, Positions(|xs|);
    var exact, est := AllExact(xs, queries, dim), AllEstimated(xs, code, queries, dim);
    forall m | 0 <= m < |queries| ensures Got(items, exact[m], est[m], k, Some(rerank)) == Truth(items, exact[m], k) {
      var slack := DataMarginIsMargin(xs, bits, p, dim, queries[m], k, rerank);
      QueryHasFullRecall(items, exact[m], est[m], slack, k, rerank);
    }
    AllHits(items, exact, est, k, rerank, |queries|);
    SomethingAsked(items, exact[|queries| - 1], k);
    Whole(Asked(items, exact, k, |queries|));
  }

  lemma Whole(n: nat)
    requires n > 0
    ensures n as real / n as real == 1.0
  {
  }

  lemma SomethingAsked(items: seq<int>, exact: map<int, real>, k: nat)
    requires 0 < k <= |items|
    ensures |Elements(Truth(items, exact, k))| > 0
  {
    var truth := Truth(items, exact, k);
    assert truth[0] in Elements(truth);
  }
}
