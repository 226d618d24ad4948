/**
 Python's `sorted`: a stable insertion sort by a total preorder `le`.
 Among elements that are equal under `le`, the input order is kept.
 */
module Sorting {
  import opened Collections

  ghost predicate TotalPreorder<T(!new)>(le: (T, T) -> bool) {
    && (forall a, b :: le(a, b) || le(b, a))
    && (forall a, b, c :: le(a, b) && le(b, c) ==> le(a, c))
  }

  ghost predicate SortedBy<T>(xs: seq<T>, le: (T, T) -> bool) {
    forall i, j :: 0 <= i < j < |xs| ==> le(xs[i], xs[j])
  }

  /** `x` goes after every element that may precede it. */
  function Insert<T>(xs: seq<T>, x: T, le: (T, T) -> bool): (r: seq<T>)
    ensures |r| == |xs| + 1
  {
    if xs == [] || le(xs[|xs| - 1], x) then xs + [x]
    else Insert(xs[..|xs| - 1], x, le) + [xs[|xs| - 1]]
  }

  function Sort<T>(xs: seq<T>, le: (T, T) -> bool): (r: seq<T>)
    ensures |r| == |xs|
  {
    if xs == [] then [] else Insert(Sort(xs[..|xs| - 1], le), xs[|xs| - 1], le)
  }

  lemma {:induction false} InsertContents<T>(xs: seq<T>, x: T, le: (T, T) -> bool)
    ensures multiset(Insert(xs, x, le)) == multiset(xs) + multiset{x}
  {
    if xs == [] || le(xs[|xs| - 1], x) {
    } else {
      assert xs == xs[..|xs| - 1] + [xs[|xs| - 1]];
      InsertContents(xs[..|xs| - 1], x, le);
    }
  }

  lemma {:induction false} SortContents<T>(xs: seq<T>, le: (T, T) -> bool)
    ensures multiset(Sort(xs, le)) == multiset(xs)
  {
    if xs == [] {
    } else {
      assert xs == xs[..|xs| - 1] + [xs[|xs| - 1]];
      SortContents(xs[..|xs| - 1], le);
      InsertContents(Sort(xs[..|xs| - 1], le), xs[|xs| - 1], le);
    }
  }

  lemma SameMembers<T>(xs: seq<T>, ys: seq<T>)
    requires multiset(xs) == multiset(ys)
    ensures forall x :: x in xs <==> x in ys
  {
    forall x ensures x in xs <==> x in ys {
      assert x in xs <==> x in multiset(xs);
      assert x in ys <==> x in multiset(ys);
    }
  }

  lemma {:induction false} InsertSorted<T(!new)>(xs: seq<T>, x: T, le: (T, T) -> bool)
    requires TotalPreorder(le) && SortedBy(xs, le)
    ensures SortedBy(Insert(xs, x, le), le)
  {
    if xs == [] || le(xs[|xs| - 1], x) {
    } else {
      var init, last := xs[..|xs| - 1], xs[|xs| - 1];
      InsertSorted(init, x, le);
      InsertContents(init, x, le);
      var r := Insert(init, x, le);
      forall i | 0 <= i < |r| ensures le(r[i], last) {
        assert r[i] in multiset(init) + multiset{x};
        assert r[i] == x || r[i] in init;
      }
    }
  }

  lemma {:induction false} SortSorted<T(!new)>(xs: seq<T>, le: (T, T) -> bool)
    requires TotalPreorder(le)
    ensures SortedBy(Sort(xs, le), le)
  {
    if xs == [] {
    } else {
      SortSorted(xs[..|xs| - 1], le);
      InsertSorted(Sort(xs[..|xs| - 1], le), xs[|xs| - 1], le);
    }
  }

  ghost predicate Distinct<T>(xs: seq<T>) {
    forall i, j :: 0 <= i < j < |xs| ==> xs[i] != xs[j]
  }

  lemma {:induction false} DistinctContents<T>(xs: seq<T>)
    ensures Distinct(xs) <==> forall x :: multiset(xs)[x] <= 1
  {
    if xs == [] {
    } else {
      var init, last := xs[..|xs| - 1], xs[|xs| - 1];
      assert xs == init + [last];
      DistinctContents(init);
      if Distinct(xs) {
        assert last !in init;
        assert last !in multiset(init);
      } else if Distinct(init) {
        assert exists i :: 0 <= i < |init| && init[i] == last;
        assert last in multiset(init);
        assert multiset(xs)[last] >= 2;
      } else {
        var x :| multiset(init)[x] > 1;
        assert multiset(xs)[x] > 1;
      }
    }
  }

  lemma PermutationDistinct<T>(xs: seq<T>, ys: seq<T>)
    requires multiset(xs) == multiset(ys) && Distinct(xs)
    ensures Distinct(ys)
  {
    DistinctContents(xs);
    DistinctContents(ys);
  }

  lemma SortPair<T>(a: T, b: T, le: (T, T) -> bool)
    requires le(a, b)
    ensures Sort([a, b], le) == [a, b]
  {
  }

  // ----- stability -----

  /** Some occurrence of `x` comes before some occurrence of `y`. */
  ghost predicate Before<T>(xs: seq<T>, x: T, y: T) {
    exists p, q :: 0 <= p < q < |xs| && xs[p] == x && xs[q] == y
  }

  lemma BeforeExtends<T>(a: seq<T>, b: seq<T>, x: T, y: T)
    ensures Before(a, x, y) ==> Before(a + b, x, y)
    ensures x in a && y in b ==> Before(a + b, x, y)
    ensures Before(b, x, y) ==> Before(a + b, x, y)
  {
    var c := a + b;
    if Before(a, x, y) {
      var p, q :| 0 <= p < q < |a| && a[p] == x && a[q] == y;
      assert c[p] == x && c[q] == y;
    }
    if x in a && y in b {
      var p :| 0 <= p < |a| && a[p] == x;
      var q :| 0 <= q < |b| && b[q] == y;
      assert c[p] == x && c[|a| + q] == y;
    }
    if Before(b, x, y) {
      var p, q :| 0 <= p < q < |b| && b[p] == x && b[q] == y;
      assert c[|a| + p] == x && c[|a| + q] == y;
    }
  }

  lemma DistinctBefore<T>(xs: seq<T>, x: T, y: T)
    requires Distinct(xs) && Before(xs, x, y)
    ensures x != y && !Before(xs, y, x)
  {
  }

  lemma InsertMembers<T>(xs: seq<T>, e: T, le: (T, T) -> bool)
    ensures forall x :: x in Insert(xs, e, le) <==> x in xs || x == e
  {
  }

  lemma {:induction false} InsertKeepsBefore<T>(xs: seq<T>, e: T, le: (T, T) -> bool, x: T, y: T)
    requires Before(xs, x, y)
    ensures Before(Insert(xs, e, le), x, y)
  {
    if xs == [] || le(xs[|xs| - 1], e) {
      BeforeExtends(xs, [e], x, y);
    } else {
      var init, last := xs[..|xs| - 1], xs[|xs| - 1];
      var r := Insert(init, e, le);
      InsertMembers(init, e, le);
      var p, q :| 0 <= p < q < |xs| && xs[p] == x && xs[q] == y;
      assert init[p] == x;
      if q < |init| {
        assert init[q] == y;
        InsertKeepsBefore(init, e, le, x, y);
      }
      BeforeExtends(r, [last], x, y);
    }
  }

  lemma {:induction false} InsertAfterEqual<T(!new)>(xs: seq<T>, e: T, le: (T, T) -> bool, x: T)
    requires x in xs && le(x, e)
    requires SortedBy(xs, le) && forall a, b, c :: le(a, b) && le(b, c) ==> le(a, c)
    ensures Before(Insert(xs, e, le), x, e)
  {
    if le(xs[|xs| - 1], e) {
      BeforeExtends(xs, [e], x, e);
    } else {
      var init, last := xs[..|xs| - 1], xs[|xs| - 1];
      assert xs == init + [last];
      assert x in init;
      InsertAfterEqual(init, e, le, x);
      BeforeExtends(Insert(init, e, le), [last], x, e);
    }
  }

  /** What comes first and is not larger stays first. */
  lemma {:induction false} SortStable<T(!new)>(xs: seq<T>, le: (T, T) -> bool, i: nat, j: nat)
    requires TotalPreorder(le) && i < j < |xs| && le(xs[i], xs[j])
    ensures Before(Sort(xs, le), xs[i], xs[j])
  {
    var init, last := xs[..|xs| - 1], xs[|xs| - 1];
    if j < |init| {
      SortStable(init, le, i, j);
      InsertKeepsBefore(Sort(init, le), last, le, xs[i], xs[j]);
    } else {
      SortSorted(init, le);
      SortContents(init, le);
      SameMembers(init, Sort(init, le));
      assert xs[i] in init;
      InsertAfterEqual(Sort(init, le), last, le, xs[i]);
    }
  }

  // ----- members -----

  /** A list without repetition of elements of `s`; it lists all of them exactly when it has as many. */
  lemma {:induction false} DistinctCard(xs: seq<int>, s: set<int>)
    requires Distinct(xs) && forall x :: x in xs ==> x in s
    ensures |xs| <= |s|
    ensures (forall x :: x in s ==> x in xs) ==> |xs| == |s|
  {
    if xs == [] {
      if forall x :: x in s ==> x in xs {
        assert s == {};
      }
    } else {
      var init, last := xs[..|xs| - 1], xs[|xs| - 1];
      assert forall x :: x in init ==> x in s - {last};
      DistinctCard(init, s - {last});
      assert xs == init + [last];
    }
  }

  lemma PastPrefix(xs: seq<int>, k: nat, d: int) returns (i: nat)
    requires k <= |xs| && d in xs && d !in xs[..k]
    ensures k <= i < |xs| && xs[i] == d
  {
    assert xs == xs[..k] + xs[k..];
    var j :| 0 <= j < |xs[k..]| && xs[k..][j] == d;
    i := k + j;
  }

  lemma {:induction false} DedupDistinct(xs: seq<int>)
    ensures Distinct(Dedup(xs))
  {
    if xs != [] {
      DedupDistinct(xs[..|xs| - 1]);
    } else {
    }
  }

  lemma {:induction false} DedupNothing(xs: seq<int>)
    requires Distinct(xs)
    ensures Dedup(xs) == xs
  {
    if xs == [] {
    } else {
      var init, last := xs[..|xs| - 1], xs[|xs| - 1];
      DedupNothing(init);
      assert last !in init by { assert forall i :: 0 <= i < |init| ==> init[i] == xs[i]; }
    }
  }

  // ----- filtering and reordering -----

  /** `[x for x in xs if x in s]`. */
  function Filter(xs: seq<int>, s: set<int>): (r: seq<int>)
    ensures forall x :: x in r <==> x in xs && x in s
  {
    if xs == [] then []
    else
      var rest := Filter(xs[..|xs| - 1], s);
      var x := xs[|xs| - 1];
      assert xs == xs[..|xs| - 1] + [x];
      if x in s then rest + [x] else rest
  }

  lemma FilterNext(xs: seq<int>, s: set<int>, x: int)
    ensures Filter(xs + [x], s) == Filter(xs, s) + if x in s then [x] else []
  {
  }

  lemma {:induction false} FilterDistinct(xs: seq<int>, s: set<int>)
    requires Distinct(xs)
    ensures Distinct(Filter(xs, s))
  {
    if xs == [] {
    } else {
      var init, x := xs[..|xs| - 1], xs[|xs| - 1];
      FilterDistinct(init, s);
      assert x !in init by { assert forall i :: 0 <= i < |init| ==> init[i] == xs[i]; }
    }
  }

  lemma {:induction false} FilterBefore(xs: seq<int>, s: set<int>, x: int, y: int)
    requires x in s && y in s
    ensures Before(Filter(xs, s), x, y) <==> Before(xs, x, y)
  {
    if xs == [] {
    } else {
      var init, z := xs[..|xs| - 1], xs[|xs| - 1];
      assert xs == init + [z];
      FilterBefore(init, s, x, y);
      LastBefore(init, z, x, y);
      LastBefore(Filter(init, s), z, x, y);
    }
  }

  lemma LastBefore<T>(xs: seq<T>, z: T, x: T, y: T)
    ensures Before(xs + [z], x, y) <==> Before(xs, x, y) || (x in xs && y == z)
  {
    BeforeExtends(xs, [z], x, y);
    if Before(xs + [z], x, y) {
      var p, q :| 0 <= p < q < |xs| + 1 && (xs + [z])[p] == x && (xs + [z])[q] == y;
      assert xs[p] == x;
      assert q < |xs| ==> xs[q] == y;
    }
  }

  lemma {:induction false} InsertFilter(xs: seq<int>, x: int, le: (int, int) -> bool, s: set<int>)
    requires TotalPreorder(le) && SortedBy(xs, le)
    ensures Filter(Insert(xs, x, le), s) == if x in s then Insert(Filter(xs, s), x, le) else Filter(xs, s)
  {
    hide Filter, TotalPreorder;
    if xs == [] || le(xs[|xs| - 1], x) {
      FilterNext(xs, s, x);
      InsertAtEnd(xs, x, le, s);
    } else {
      var init, last := xs[..|xs| - 1], xs[|xs| - 1];
      assert xs == init + [last];
      InsertFilter(init, x, le, s);
      hide SortedBy;
      FilterNext(Insert(init, x, le), s, last);
      FilterNext(init, s, last);
      InsertBeforeLast(Filter(init, s), last, x, le);
    }
  }

  lemma InsertBeforeLast<T>(xs: seq<T>, last: T, x: T, le: (T, T) -> bool)
    requires !le(last, x)
    ensures Insert(xs + [last], x, le) == Insert(xs, x, le) + [last]
    ensures xs + [] == xs && Insert(xs, x, le) + [] == Insert(xs, x, le)
  {
    assert (xs + [last])[..|xs|] == xs;
  }

  lemma InsertAtEnd(xs: seq<int>, x: int, le: (int, int) -> bool, s: set<int>)
    requires TotalPreorder(le) && SortedBy(xs, le) && (xs == [] || le(xs[|xs| - 1], x))
    ensures Insert(Filter(xs, s), x, le) == Filter(xs, s) + [x]
  {
  }

  /** Filtering and stable sorting commute. */
  lemma {:induction false} SortFilter(xs: seq<int>, le: (int, int) -> bool, s: set<int>)
    requires TotalPreorder(le)
    ensures Sort(Filter(xs, s), le) == Filter(Sort(xs, le), s)
  {
    if xs == [] {
    } else {
      var init, x := xs[..|xs| - 1], xs[|xs| - 1];
      SortFilter(init, le, s);
      SortSorted(init, le);
      InsertFilter(Sort(init, le), x, le, s);
      var f := Filter(init, s);
      assert (f + [x])[..|f|] == f;
    }
  }

  lemma {:induction false} FilterSame(xs: seq<int>, s: set<int>, t: set<int>)
    requires forall x :: x in xs ==> (x in s <==> x in t)
    ensures Filter(xs, s) == Filter(xs, t)
  {
    if xs == [] {
    } else {
      assert xs == xs[..|xs| - 1] + [xs[|xs| - 1]];
      FilterSame(xs[..|xs| - 1], s, t);
    }
  }

  lemma {:induction false} FilterAll(xs: seq<int>, s: set<int>)
    requires forall x :: x in xs ==> x in s
    ensures Filter(xs, s) == xs
  {
    if xs == [] {
    } else {
      assert xs == xs[..|xs| - 1] + [xs[|xs| - 1]];
      FilterAll(xs[..|xs| - 1], s);
    }
  }

  lemma {:induction false} FilterPrefix(xs: seq<int>, s: set<int>, m: nat)
    requires m <= |xs|
    ensures Filter(xs[..m], s) <= Filter(xs, s)
  {
    if m == |xs| {
      assert xs[..m] == xs;
    } else {
      FilterPrefix(xs[..|xs| - 1], s, m);
      assert xs[..|xs| - 1][..m] == xs[..m];
    }
  }

  lemma {:induction false} InsertSameOrder<T(!new)>(xs: seq<T>, x: T, le: (T, T) -> bool, le': (T, T) -> bool)
    requires forall a :: a in xs ==> le(a, x) == le'(a, x)
    ensures Insert(xs, x, le) == Insert(xs, x, le')
  {
    if xs != [] {
      var init, last := xs[..|xs| - 1], xs[|xs| - 1];
      assert last in xs;
      assert le(last, x) == le'(last, x);
      assert forall a :: a in init ==> a in xs;
      InsertSameOrder(xs[..|xs| - 1], x, le, le');
    } else {
    }
  }

  lemma {:induction false} SortSameOrder<T(!new)>(xs: seq<T>, le: (T, T) -> bool, le': (T, T) -> bool)
    requires forall a, b :: a in xs && b in xs ==> le(a, b) == le'(a, b)
    ensures Sort(xs, le) == Sort(xs, le')
  {
    if xs != [] {
      var init, last := xs[..|xs| - 1], xs[|xs| - 1];
      assert forall a :: a in init ==> a in xs;
      SortSameOrder(init, le, le');
      SortContents(init, le);
      SameMembers(init, Sort(init, le));
      InsertSameOrder(Sort(init, le), last, le, le');
    } else {
    }
  }
}
