/**
 When two lists of the same rows start with the same k: a condition on pairs of rows.
 */
module RowOrder {
  import opened Collections
  import opened Sorting

  /** The first occurrence of `d` comes before every occurrence of `e`. */
  ghost predicate Leads(xs: seq<int>, d: int, e: int) {
    exists p :: 0 <= p < |xs| && xs[p] == d && forall q :: 0 <= q < |xs| && xs[q] == e ==> p < q
  }

  /** Keeping first occurrences orders rows by them. */
  lemma {:induction false} DedupBefore(xs: seq<int>, d: int, e: int)
    requires d in xs && e in xs && d != e
    ensures Before(Dedup(xs), d, e) <==> Leads(xs, d, e)
  {
    var init, x := xs[..|xs| - 1], xs[|xs| - 1];
    assert xs == init + [x];
    if d in init && e in init {
      DedupBefore(init, d, e);
      LeadsLonger(init, x, d, e);
      if x !in init {
        NewLast(Dedup(init), x, d, e);
      }
    } else if d in init {
      var p :| 0 <= p < |init| && init[p] == d;
      assert xs[p] == d && forall q :: 0 <= q < |xs| && xs[q] == e ==> p < q;
      var r :| 0 <= r < |Dedup(init)| && Dedup(init)[r] == d;
      assert Dedup(xs)[r] == d && Dedup(xs)[|Dedup(init)|] == e;
    } else {
      var q :| 0 <= q < |init| && init[q] == e;
      assert xs[q] == e;
      assert forall p :: 0 <= p < |init| ==> xs[p] == init[p] != d;
      var r := Dedup(init);
      assert forall p :: 0 <= p < |r| ==> r[p] in r && Dedup(xs)[p] == r[p] != d;
    }
  }

  lemma LeadsLonger(init: seq<int>, x: int, d: int, e: int)
    requires d in init && e in init && d != e
    ensures Leads(init + [x], d, e) <==> Leads(init, d, e)
  {
    var xs := init + [x];
    if Leads(xs, d, e) {
      var p :| 0 <= p < |xs| && xs[p] == d && forall q :: 0 <= q < |xs| && xs[q] == e ==> p < q;
      var q :| 0 <= q < |init| && init[q] == e;
      assert xs[q] == e;
      assert forall q' :: 0 <= q' < |init| && init[q'] == e ==> xs[q'] == e;
      assert init[p] == d;
    }
    if Leads(init, d, e) {
      var p :| 0 <= p < |init| && init[p] == d && forall q :: 0 <= q < |init| && init[q] == e ==> p < q;
      assert xs[p] == d && forall q :: 0 <= q < |init| ==> xs[q] == init[q];
    }
  }

  lemma NewLast(r: seq<int>, x: int, d: int, e: int)
    requires d != x && e != x
    ensures Before(r + [x], d, e) <==> Before(r, d, e)
  {
    BeforeExtends(r, [x], d, e);
  }

  /** The rows ahead of `d` in a list without repetition. */
  ghost function Ahead(xs: seq<int>, d: int): set<int> {
    set e | e in xs && Before(xs, e, d)
  }

  lemma AheadOfPlace(xs: seq<int>, p: nat)
    requires Distinct(xs) && p < |xs|
    ensures Ahead(xs, xs[p]) == Elements(xs[..p]) && |Ahead(xs, xs[p])| == p
  {
    forall e ensures e in Ahead(xs, xs[p]) <==> e in xs[..p] {
      if e in xs[..p] {
        var i :| 0 <= i < p && xs[i] == e;
        assert Before(xs, e, xs[p]);
      }
    }
    DistinctCard(xs[..p], Elements(xs[..p]));
  }

  lemma PlaceOf(xs: seq<int>, d: int) returns (p: nat)
    requires d in xs
    ensures p < |xs| && xs[p] == d
  {
    p :| 0 <= p < |xs| && xs[p] == d;
  }

  lemma BeforeByPlace(xs: seq<int>, p: nat, q: nat)
    requires Distinct(xs) && p < |xs| && q < |xs|
    ensures Before(xs, xs[p], xs[q]) <==> p < q
  {
  }

  /** The pairs on which the first k rows depend: the first of the two is among the first k of `b`. */
  ghost predicate SameStart(a: seq<int>, b: seq<int>, k: nat) {
    forall d, e :: d in b && e in b && d != e && |Ahead(b, d)| < k ==> (Before(a, d, e) <==> Before(b, d, e))
  }

  /** Two lists of the same rows start with the same k rows if and only if those pairs are in the same order. */
  lemma TakeSameIff(a: seq<int>, b: seq<int>, k: nat)
    requires Distinct(a) && Distinct(b) && forall x :: x in a <==> x in b
    ensures Take(a, k) == Take(b, k) <==> SameStart(a, b, k)
  {
    DistinctCard(a, Elements(b));
    DistinctCard(b, Elements(b));
    if SameStart(a, b, k) {
      forall p | 0 <= p < |b| && p < k ensures a[p] == b[p] {
        SamePlace(a, b, k, p);
      }
    }
    if Take(a, k) == Take(b, k) {
      assert forall i :: 0 <= i < k && i < |a| && i < |b| ==> a[i] == Take(a, k)[i] == Take(b, k)[i] == b[i];
      forall d, e | d in b && e in b && d != e && |Ahead(b, d)| < k ensures Before(a, d, e) <==> Before(b, d, e) {
        var p := PlaceOf(b, d);
        var q := PlaceOf(b, e);
        var r := PlaceOf(a, e);
        AheadOfPlace(b, p);
        assert a[p] == b[p];
        BeforeByPlace(b, p, q);
        BeforeByPlace(a, p, r);
      }
    }
  }

  lemma SamePlace(a: seq<int>, b: seq<int>, k: nat, p: nat)
    requires Distinct(a) && Distinct(b) && (forall x :: x in a <==> x in b) && SameStart(a, b, k)
    requires p < |b| && p < k
    ensures p < |a| && a[p] == b[p]
  {
    var d := b[p];
    AheadOfPlace(b, p);
    var r := PlaceOf(a, d);
    AheadOfPlace(a, r);
    forall e | e in b && e != d ensures Before(a, e, d) <==> Before(b, e, d) {
      var i := PlaceOf(a, e);
      var j := PlaceOf(b, e);
      BeforeByPlace(a, i, r);
      BeforeByPlace(a, r, i);
      BeforeByPlace(b, j, p);
      BeforeByPlace(b, p, j);
    }
    BeforeByPlace(a, r, r);
    BeforeByPlace(b, p, p);
    assert Ahead(a, d) == Ahead(b, d);
  }

  // ----- lists of different rows -----

  /** What is among the first k has fewer than k rows ahead of it. */
  lemma TakeByAhead(xs: seq<int>, k: nat, d: int)
    requires Distinct(xs)
    ensures d in Take(xs, k) <==> d in xs && |Ahead(xs, d)| < k
  {
    hide Ahead;
    if d in xs {
      var p := PlaceOf(xs, d);
      AheadOfPlace(xs, p);
      if p < k {
        assert Take(xs, k)[p] == d;
      }
      if d in Take(xs, k) {
        var q :| 0 <= q < |Take(xs, k)| && Take(xs, k)[q] == d;
        assert xs[q] == xs[p];
      }
    }
  }

  lemma TakeOrder(xs: seq<int>, k: nat, d: int, e: int)
    requires Distinct(xs) && d in Take(xs, k) && e in Take(xs, k)
    ensures Before(Take(xs, k), d, e) <==> Before(xs, d, e)
  {
    var p := PlaceOf(Take(xs, k), d);
    var q := PlaceOf(Take(xs, k), e);
    BeforeByPlace(Take(xs, k), p, q);
    BeforeByPlace(xs, p, q);
  }

  /** `d` is in the list, and fewer than k rows are ahead of it. */
  ghost predicate Early(xs: seq<int>, k: nat, d: int) {
    d in xs && |Ahead(xs, d)| < k
  }

  /** The same rows are early in both lists, any two of them in the same order. */
  ghost predicate SameEarly(a: seq<int>, b: seq<int>, k: nat) {
    && (forall d :: Early(a, k, d) <==> Early(b, k, d))
    && (forall d, e :: Early(b, k, d) && Early(b, k, e) && d != e ==> (Before(a, d, e) <==> Before(b, d, e)))
  }

  /** Two lists, whatever their rows, start with the same k rows if and only if that holds. */
  lemma TakeSameEarlyIff(a: seq<int>, b: seq<int>, k: nat)
    requires Distinct(a) && Distinct(b)
    ensures Take(a, k) == Take(b, k) <==> SameEarly(a, b, k)
  {
    var firstA, firstB := Take(a, k), Take(b, k);
    forall d ensures (d in firstA <==> Early(a, k, d)) && (d in firstB <==> Early(b, k, d)) {
      TakeByAhead(a, k, d);
      TakeByAhead(b, k, d);
    }
    hide Early, Ahead, Before;
    forall d, e | d in firstA && e in firstA ensures Before(firstA, d, e) <==> Before(a, d, e) {
      TakeOrder(a, k, d, e);
    }
    forall d, e | d in firstB && e in firstB ensures Before(firstB, d, e) <==> Before(b, d, e) {
      TakeOrder(b, k, d, e);
    }
    if SameEarly(a, b, k) {
      assert forall d :: d in firstA <==> d in firstB;
      TakeSameIff(firstA, firstB, k);
    }
  }
}
