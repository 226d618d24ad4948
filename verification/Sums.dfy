/**
 Finite sums of real-valued sparse vectors.

 A sparse vector is a `map<int, real>` read with a default of 0.0, the way the
 Python code reads its dictionaries with `d.get(key, 0.0)`.
 */
module Sums {
  import opened Collections

  /** `m.get(x, 0.0)`. */
  function Get(m: map<int, real>, x: int): real {
    if x in m then m[x] else 0.0
  }

  function Abs(x: real): (r: real)
    ensures r >= 0.0
  {
    if x < 0.0 then -x else x
  }

  /** The sum of `Get(m, x)` over the `x` of `s`. */
  ghost function Sum(m: map<int, real>, s: set<int>): real {
    if s == {} then 0.0
    else
      var x := Choose(s);
      Get(m, x) + Sum(m, s - {x})
  }

  /** The choice made inside `Sum` does not matter: any element may be split off. */
  lemma {:induction false} SumPick(m: map<int, real>, s: set<int>, x: int)
    requires x in s
    ensures Sum(m, s) == Get(m, x) + Sum(m, s - {x})
    decreases s
  {
    var y := Choose(s);
    if y != x {
      SumPick(m, s - {y}, x);
      SumPick(m, s - {x}, y);
      assert s - {y} - {x} == s - {x} - {y};
    }
  }

  lemma SumInsert(m: map<int, real>, s: set<int>, x: int)
    requires x !in s
    ensures Sum(m, s + {x}) == Get(m, x) + Sum(m, s)
  {
    SumPick(m, s + {x}, x);
    assert s + {x} - {x} == s;
  }

  lemma {:induction false} SumLe(a: map<int, real>, b: map<int, real>, s: set<int>)
    requires forall x :: x in s ==> Get(a, x) <= Get(b, x)
    ensures Sum(a, s) <= Sum(b, s)
    decreases s
  {
    if s != {} {
      var x := Choose(s);
      SumPick(a, s, x);
      SumPick(b, s, x);
      SumLe(a, b, s - {x});
    }
  }

  lemma SumCong(a: map<int, real>, b: map<int, real>, s: set<int>)
    requires forall x :: x in s ==> Get(a, x) == Get(b, x)
    ensures Sum(a, s) == Sum(b, s)
  {
  }

  lemma {:induction false} SumNonNegative(a: map<int, real>, s: set<int>)
    requires forall x :: x in s ==> Get(a, x) >= 0.0
    ensures Sum(a, s) >= 0.0
    decreases s
  {
    if s != {} {
      var x := Choose(s);
      SumPick(a, s, x);
      SumNonNegative(a, s - {x});
    }
  }

  /** A nonnegative sum bounds each of its terms. */
  lemma SumBoundsTerm(a: map<int, real>, s: set<int>, x: int)
    requires x in s && forall y :: y in s ==> Get(a, y) >= 0.0
    ensures Get(a, x) <= Sum(a, s)
  {
    SumPick(a, s, x);
    SumNonNegative(a, s - {x});
  }

  /** A nonnegative sum bounds the sum of any two of its terms. */
  lemma SumBoundsTwoTerms(a: map<int, real>, s: set<int>, x: int, y: int)
    requires x in s && y in s && x != y && forall z :: z in s ==> Get(a, z) >= 0.0
    ensures Get(a, x) + Get(a, y) <= Sum(a, s)
  {
    SumPick(a, s, x);
    SumBoundsTerm(a, s - {x}, y);
  }

  /**
   A product, named so that a proof about sums of products can `hide` it and
   leave the arithmetic to the lemmas below.
   */
  ghost function Times(a: real, b: real): real {
    a * b
  }

  lemma TimesCombines(c: real, x: real, d: real, y: real, z: real, w: real)
    requires z == Times(c, x) + Times(d, y)
    ensures Times(z, w) == Times(c, Times(x, w)) + Times(d, Times(y, w))
  {
  }

  lemma TimesOne(x: real, y: real)
    ensures Times(x, 1.0) == x && Times(1.0, x) == x && Times(1.0, y) == y
  {
  }

  lemma TimesZero(x: real)
    ensures Times(x, 0.0) == 0.0 && Times(0.0, x) == 0.0
  {
  }

  lemma SignOfProduct(e: real, y: real)
    requires y > 0.0
    ensures (e > 0.0 ==> e * y > 0.0) && (e < 0.0 ==> e * y < 0.0)
  {
  }

  lemma TimesPositive(x: real, y: real)
    requires x > 0.0 && y > 0.0
    ensures Times(x, y) > 0.0
  {
  }

  lemma TimesAdds(x: real, y: real, w: real)
    ensures Times(x + y, w) == Times(x, w) + Times(y, w)
  {
  }

  lemma TimesCommutes(a: real, b: real)
    ensures Times(a, b) == Times(b, a)
  {
  }

  lemma TimesMonotone(a: real, b: real, c: real)
    requires a <= b && c >= 0.0
    ensures Times(a, c) <= Times(b, c) && Times(c, a) <= Times(c, b)
  {
  }

  lemma TimesDistributes(c: real, x: real, y: real)
    ensures Times(c, x + y) == Times(c, x) + Times(c, y)
    ensures Times(c, 0.0) == 0.0 && Times(1.0, x) == x
  {
  }

  lemma {:induction false} SumUpTo(a: map<int, real>, s: set<int>, bound: real)
    requires forall x :: x in s ==> Get(a, x) <= bound
    ensures Sum(a, s) <= Times(bound, |s| as real)
    decreases s
  {
    hide Times;
    if s != {} {
      var x := Choose(s);
      SumPick(a, s, x);
      SumUpTo(a, s - {x}, bound);
      TimesDistributes(bound, |s - {x}| as real, 1.0);
      TimesOne(bound, 0.0);
    } else {
      TimesZero(bound);
    }
  }

  /** A vector that is nowhere positive and nowhere negative on `s`. */
  lemma {:induction false} SumConstant(a: map<int, real>, s: set<int>, c: real)
    requires forall x :: x in s ==> Get(a, x) == c
    ensures Sum(a, s) == |s| as real * c
    decreases s
  {
    if s != {} {
      var x := Choose(s);
      SumPick(a, s, x);
      SumConstant(a, s - {x}, c);
      assert |s| == |s - {x}| + 1;
    } else {
    }
  }

  lemma SumZero(a: map<int, real>, s: set<int>)
    requires forall x :: x in s ==> Get(a, x) == 0.0
    ensures Sum(a, s) == 0.0
  {
  }

  /** Summation is linear. */
  lemma {:induction false} SumLinear(c: real, a: map<int, real>, d: real, b: map<int, real>, r: map<int, real>,
                                     s: set<int>)
    requires forall x :: x in s ==> Get(r, x) == Times(c, Get(a, x)) + Times(d, Get(b, x))
    ensures Sum(r, s) == Times(c, Sum(a, s)) + Times(d, Sum(b, s))
    decreases s
  {
    hide Times;
    if s != {} {
      var x := Choose(s);
      SumPick(a, s, x);
      SumPick(b, s, x);
      SumPick(r, s, x);
      SumLinear(c, a, d, b, r, s - {x});
      TimesDistributes(c, Get(a, x), Sum(a, s - {x}));
      TimesDistributes(d, Get(b, x), Sum(b, s - {x}));
    } else {
      TimesDistributes(c, 0.0, 0.0);
      TimesDistributes(d, 0.0, 0.0);
    }
  }

  /** Changing one entry changes the sum by the change of that entry. */
  lemma SumUpdate(a: map<int, real>, b: map<int, real>, s: set<int>, x: int)
    requires x in s
    requires forall y :: y in s && y != x ==> Get(a, y) == Get(b, y)
    ensures Sum(b, s) == Sum(a, s) + Get(b, x) - Get(a, x)
  {
    SumPick(a, s, x);
    SumPick(b, s, x);
    SumCong(a, b, s - {x});
  }

  /** Entries that are zero outside `s` do not count. */
  lemma {:induction false} SumExtend(a: map<int, real>, s: set<int>, t: set<int>)
    requires s <= t && forall x :: x in t - s ==> Get(a, x) == 0.0
    ensures Sum(a, t) == Sum(a, s)
    decreases t
  {
    if t - s != {} {
      var x := Choose(t - s);
      SumPick(a, t, x);
      SumExtend(a, s, t - {x});
    } else {
      assert forall x :: x in t ==> x in s || x in t - s;
      assert s == t;
    }
  }

  /** Over nonnegative entries, fewer indices sum to no more. */
  lemma SumSubset(a: map<int, real>, s: set<int>, t: set<int>)
    requires s <= t && forall x :: x in t ==> Get(a, x) >= 0.0
    ensures Sum(a, s) <= Sum(a, t)
  {
    var b := map x | x in s :: Get(a, x);
    SumCong(a, b, s);
    SumExtend(b, s, t);
    SumLe(b, a, t);
  }

  ghost function Gap(a: map<int, real>, b: map<int, real>, s: set<int>): map<int, real> {
    map x | x in s :: Abs(Get(a, x) - Get(b, x))
  }

  /** The L1 distance of two sparse vectors over the index set `s`. */
  ghost function L1(a: map<int, real>, b: map<int, real>, s: set<int>): (r: real)
    ensures r >= 0.0
  {
    SumNonNegative(Gap(a, b, s), s);
    Sum(Gap(a, b, s), s)
  }

  lemma L1Triangle(a: map<int, real>, b: map<int, real>, c: map<int, real>, s: set<int>)
    ensures L1(a, c, s) <= L1(a, b, s) + L1(b, c, s)
  {
    hide Times;
    var ab, bc, ac := Gap(a, b, s), Gap(b, c, s), Gap(a, c, s);
    var both := map x | x in s :: Get(ab, x) + Get(bc, x);
    forall x | x in s ensures Get(ac, x) <= Get(both, x) {
      AbsTriangle(Get(a, x), Get(b, x), Get(c, x));
    }
    forall x | x in s ensures Get(both, x) == Times(1.0, Get(ab, x)) + Times(1.0, Get(bc, x)) {
      TimesOne(Get(ab, x), Get(bc, x));
    }
    SumLinear(1.0, ab, 1.0, bc, both, s);
    TimesOne(Sum(ab, s), Sum(bc, s));
    SumLe(ac, both, s);
  }

  lemma AbsTriangle(x: real, y: real, z: real)
    ensures Abs(x - z) <= Abs(x - y) + Abs(y - z)
  {
  }

  lemma L1Cong(a: map<int, real>, b: map<int, real>, c: map<int, real>, s: set<int>)
    requires forall x :: x in s ==> Get(b, x) == Get(c, x)
    ensures L1(a, b, s) == L1(a, c, s)
  {
    SumCong(Gap(a, b, s), Gap(a, c, s), s);
  }

  lemma L1Symmetric(a: map<int, real>, b: map<int, real>, s: set<int>)
    ensures L1(a, b, s) == L1(b, a, s)
  {
    SumCong(Gap(a, b, s), Gap(b, a, s), s);
  }

  /** The inner product of two sparse vectors over the index set `s`. */
  ghost function Products(x: map<int, real>, w: map<int, real>, s: set<int>): map<int, real> {
    map u | u in s :: Times(Get(x, u), Get(w, u))
  }

  ghost function Dot(x: map<int, real>, w: map<int, real>, s: set<int>): real {
    Sum(Products(x, w, s), s)
  }

  lemma DotPick(x: map<int, real>, w: map<int, real>, s: set<int>, u: int)
    requires u in s
    ensures Dot(x, w, s) == Times(Get(x, u), Get(w, u)) + Dot(x, w, s - {u})
  {
    hide Times;
    SumPick(Products(x, w, s), s, u);
    SumCong(Products(x, w, s), Products(x, w, s - {u}), s - {u});
  }

  lemma DotCong(x: map<int, real>, w: map<int, real>, y: map<int, real>, z: map<int, real>, s: set<int>)
    requires forall u :: u in s ==> Get(x, u) == Get(y, u) && Get(w, u) == Get(z, u)
    ensures Dot(x, w, s) == Dot(y, z, s)
  {
    hide Times;
    SumCong(Products(x, w, s), Products(y, z, s), s);
  }

  lemma DotSymmetric(x: map<int, real>, w: map<int, real>, s: set<int>)
    ensures Dot(x, w, s) == Dot(w, x, s)
  {
    hide Times;
    forall u | u in s ensures Times(Get(x, u), Get(w, u)) == Times(Get(w, u), Get(x, u)) {
      TimesCommutes(Get(x, u), Get(w, u));
    }
    SumCong(Products(x, w, s), Products(w, x, s), s);
  }

  lemma DotLinear(c: real, x: map<int, real>, d: real, y: map<int, real>, z: map<int, real>,
                  w: map<int, real>, s: set<int>)
    requires forall u :: u in s ==> Get(z, u) == Times(c, Get(x, u)) + Times(d, Get(y, u))
    ensures Dot(z, w, s) == Times(c, Dot(x, w, s)) + Times(d, Dot(y, w, s))
  {
    hide Times;
    var px, py, pz := Products(x, w, s), Products(y, w, s), Products(z, w, s);
    forall u | u in s ensures Get(pz, u) == Times(c, Get(px, u)) + Times(d, Get(py, u)) {
      TimesCombines(c, Get(x, u), d, Get(y, u), Get(z, u), Get(w, u));
    }
    SumLinear(c, px, d, py, pz, s);
  }

  lemma DotLe(x: map<int, real>, y: map<int, real>, w: map<int, real>, s: set<int>)
    requires forall u :: u in s ==> Get(x, u) <= Get(y, u) && Get(w, u) >= 0.0
    ensures Dot(x, w, s) <= Dot(y, w, s)
  {
    hide Times;
    var px, py := Products(x, w, s), Products(y, w, s);
    forall u | u in s ensures Get(px, u) <= Get(py, u) {
      TimesMonotone(Get(x, u), Get(y, u), Get(w, u));
    }
    SumLe(px, py, s);
  }

  /** Adding `delta` to one entry adds `delta` times the other vector's entry. */
  lemma DotUpdate(x: map<int, real>, y: map<int, real>, w: map<int, real>, s: set<int>, u: int, delta: real)
    requires u in s && Get(y, u) == Get(x, u) + delta
    requires forall v :: v in s && v != u ==> Get(x, v) == Get(y, v)
    ensures Dot(y, w, s) == Dot(x, w, s) + Times(delta, Get(w, u))
  {
    hide Times;
    DotPick(x, w, s, u);
    DotPick(y, w, s, u);
    DotCong(x, w, y, w, s - {u});
    TimesAdds(Get(x, u), delta, Get(w, u));
  }

  lemma DotZero(w: map<int, real>, s: set<int>)
    ensures Dot(map[], w, s) == 0.0
  {
    SumZero(Products(map[], w, s), s);
  }

  /** Weighing with nonnegative weights, the gap of two inner products is at most the inner product of the gaps. */
  lemma DotGap(x: map<int, real>, y: map<int, real>, w: map<int, real>, s: set<int>)
    requires forall u :: u in s ==> Get(w, u) >= 0.0
    ensures Abs(Dot(x, w, s) - Dot(y, w, s)) <= Dot(Gap(x, y, s), w, s)
  {
    hide Times;
    var gap := Gap(x, y, s);
    DotSumLe(x, y, gap, w, s);
    DotSumLe(y, x, gap, w, s);
  }

  lemma DotSumLe(x: map<int, real>, y: map<int, real>, g: map<int, real>, w: map<int, real>, s: set<int>)
    requires forall u :: u in s ==> Get(w, u) >= 0.0 && Get(x, u) <= Get(y, u) + Get(g, u)
    ensures Dot(x, w, s) <= Dot(y, w, s) + Dot(g, w, s)
  {
    hide Times;
    var both := map u | u in s :: Get(y, u) + Get(g, u);
    forall u | u in s ensures Get(both, u) == Times(1.0, Get(y, u)) + Times(1.0, Get(g, u)) {
      TimesOne(Get(y, u), Get(g, u));
    }
    DotLinear(1.0, y, 1.0, g, both, w, s);
    TimesOne(Dot(y, w, s), Dot(g, w, s));
    DotLe(x, both, w, s);
  }

  /** The sum of a list. */
  ghost function SumOf(es: seq<real>): real {
    if es == [] then 0.0 else SumOf(es[..|es| - 1]) + es[|es| - 1]
  }
}
