/**
 The rows of the materialised merge as an order on edges: a stable sort by a key of the source puts the
 targets in the order of their least listings by (key of the source, position).
 */
module EdgeOrder {
  import opened Collections
  import opened Sums
  import opened Sorting
  import opened RowOrder
  import opened Corpora
  import opened MergePlan

  /** Edge number `i` comes before edge number `j`: smaller key of its source, then smaller position. */
  ghost predicate KeyLess(es: seq<Edge>, key: map<int, real>, i: int, j: int)
    requires 0 <= i < |es| && 0 <= j < |es|
  {
    Get(key, es[i].0) < Get(key, es[j].0) || (Get(key, es[i].0) == Get(key, es[j].0) && i < j)
  }

  /** Some listing of `d` comes before every listing of `e`. */
  ghost predicate ListedFirst(es: seq<Edge>, key: map<int, real>, d: int, e: int) {
    exists i :: 0 <= i < |es| && es[i].1 == d && forall j :: 0 <= j < |es| && es[j].1 == e ==> KeyLess(es, key, i, j)
  }

  /** The targets whose first listing comes before that of `d`. */
  ghost function AheadOf(es: seq<Edge>, key: map<int, real>, d: int): set<int> {
    set e | e in Dsts(es) && ListedFirst(es, key, e, d)
  }

  // ----- sorting the positions instead of the edges -----

  function EdgeAt(es: seq<Edge>, i: int): Edge {
    if 0 <= i < |es| then es[i] else (0, 0)
  }

  function Pick(es: seq<Edge>, ps: seq<int>): (r: seq<Edge>)
    ensures |r| == |ps| && forall p :: 0 <= p < |ps| ==> r[p] == EdgeAt(es, ps[p])
  {
    seq(|ps|, p requires 0 <= p < |ps| => EdgeAt(es, ps[p]))
  }

  function ByPosition(es: seq<Edge>, key: map<int, real>): (int, int) -> bool {
    (i, j) => Get(key, EdgeAt(es, i).0) <= Get(key, EdgeAt(es, j).0)
  }

  lemma {:induction false} InsertPick(es: seq<Edge>, key: map<int, real>, ps: seq<int>, i: int)
    ensures Insert(Pick(es, ps), EdgeAt(es, i), BySource(key)) == Pick(es, Insert(ps, i, ByPosition(es, key)))
  {
    if ps == [] || ByPosition(es, key)(ps[|ps| - 1], i) {
      assert Pick(es, ps + [i]) == Pick(es, ps) + [EdgeAt(es, i)];
    } else {
      var init, last := ps[..|ps| - 1], ps[|ps| - 1];
      InsertPick(es, key, init, i);
      assert Pick(es, ps)[..|ps| - 1] == Pick(es, init);
      var r := Insert(init, i, ByPosition(es, key));
      assert Pick(es, r + [last]) == Pick(es, r) + [EdgeAt(es, last)];
    }
  }

  lemma {:induction false} SortPick(es: seq<Edge>, key: map<int, real>, n: nat)
    requires n <= |es|
    ensures Sort(es[..n], BySource(key)) == Pick(es, Sort(Positions(n), ByPosition(es, key)))
  {
    if n == 0 {
    } else {
      SortPick(es, key, n - 1);
      assert es[..n][..n - 1] == es[..n - 1] && Positions(n)[..n - 1] == Positions(n - 1);
      InsertPick(es, key, Sort(Positions(n - 1), ByPosition(es, key)), n - 1);
    }
  }

  /** The sorted positions, as places: earlier place, smaller key. */
  lemma SortedPositions(es: seq<Edge>, key: map<int, real>, p: nat, q: nat)
    requires p < |es| && q < |es|
    ensures var ps := Sort(Positions(|es|), ByPosition(es, key));
            && 0 <= ps[p] < |es| && 0 <= ps[q] < |es|
            && (p < q <==> KeyLess(es, key, ps[p], ps[q]))
  {
    var all, le := Positions(|es|), ByPosition(es, key);
    var ps := Sort(all, le);
    SortContents(all, le);
    SameMembers(all, ps);
    PermutationDistinct(all, ps);
    assert ps[p] in ps && ps[q] in ps;
    hide Sort;
    if KeyLess(es, key, ps[p], ps[q]) {
      PlacesFollow(es, key, ps, p, q);
    }
    if KeyLess(es, key, ps[q], ps[p]) {
      PlacesFollow(es, key, ps, q, p);
    }
  }

  lemma PlacesFollow(es: seq<Edge>, key: map<int, real>, ps: seq<int>, p: nat, q: nat)
    requires ps == Sort(Positions(|es|), ByPosition(es, key)) && Distinct(ps)
    requires p < |ps| && q < |ps| && 0 <= ps[p] < |es| && 0 <= ps[q] < |es| && KeyLess(es, key, ps[p], ps[q])
    ensures p < q
  {
    var all, le := Positions(|es|), ByPosition(es, key);
    SortSorted(all, le);
    hide Sort;
    if Get(key, es[ps[p]].0) == Get(key, es[ps[q]].0) {
      SortStable(all, le, ps[p], ps[q]);
      DistinctBefore(ps, ps[p], ps[q]);
    }
  }

  lemma AllPositions(es: seq<Edge>, key: map<int, real>, i: nat) returns (p: nat)
    requires i < |es|
    ensures p < |es| && Sort(Positions(|es|), ByPosition(es, key))[p] == i
  {
    var all, le := Positions(|es|), ByPosition(es, key);
    SortContents(all, le);
    SameMembers(all, Sort(all, le));
    assert all[i] == i && i in Sort(all, le);
    p :| 0 <= p < |es| && Sort(all, le)[p] == i;
  }

  /** In the sorted list, as among the edges: a target comes first if its first listing does. */
  lemma SortedLeads(es: seq<Edge>, key: map<int, real>, d: int, e: int)
    ensures Leads(Dsts(Sort(es, BySource(key))), d, e) <==> ListedFirst(es, key, d, e)
  {
    SortPick(es, key, |es|);
    assert es[..|es|] == es;
    hide Sort, KeyLess;
    var ps := Sort(Positions(|es|), ByPosition(es, key));
    var ds := Dsts(Sort(es, BySource(key)));
    forall p | 0 <= p < |es| ensures 0 <= ps[p] < |es| && ds[p] == es[ps[p]].1 {
      SortedPositions(es, key, p, p);
    }
    if Leads(ds, d, e) {
      var p :| 0 <= p < |ds| && ds[p] == d && forall q :: 0 <= q < |ds| && ds[q] == e ==> p < q;
      forall j | 0 <= j < |es| && es[j].1 == e ensures KeyLess(es, key, ps[p], j) {
        var q := AllPositions(es, key, j);
        SortedPositions(es, key, p, q);
      }
    }
    if ListedFirst(es, key, d, e) {
      var i :| 0 <= i < |es| && es[i].1 == d && forall j :: 0 <= j < |es| && es[j].1 == e ==> KeyLess(es, key, i, j);
      var p := AllPositions(es, key, i);
      forall q | 0 <= q < |ds| && ds[q] == e ensures p < q {
        SortedPositions(es, key, p, q);
      }
    }
  }

  /** The rows of the materialised merge when sources are ranked by `key`. */
  function RowsBy(es: seq<Edge>, key: map<int, real>): seq<int> {
    Dedup(Dsts(Sort(es, BySource(key))))
  }

  lemma RowsOrder(es: seq<Edge>, key: map<int, real>, d: int, e: int)
    requires d in Dsts(es) && e in Dsts(es) && d != e
    ensures Before(RowsBy(es, key), d, e) <==> ListedFirst(es, key, d, e)
  {
    RowsMembers(es, key);
    hide Sort, Dedup;
    SortedLeads(es, key, d, e);
    DedupBefore(Dsts(Sort(es, BySource(key))), d, e);
  }

  lemma RowsMembers(es: seq<Edge>, key: map<int, real>)
    ensures Distinct(RowsBy(es, key)) && forall d :: d in RowsBy(es, key) <==> d in Dsts(es)
  {
    hide Sort, Dedup;
    var sorted := Sort(es, BySource(key));
    DedupDistinct(Dsts(sorted));
    SortContents(es, BySource(key));
    SameMembers(es, sorted);
    forall d ensures d in Dsts(sorted) <==> d in Dsts(es) {
      if d in Dsts(sorted) {
        SameTargets(sorted, es, d);
      }
      if d in Dsts(es) {
        SameTargets(es, sorted, d);
      }
    }
  }

  lemma SameTargets(a: seq<Edge>, b: seq<Edge>, d: int)
    requires (forall e :: e in a ==> e in b) && d in Dsts(a)
    ensures d in Dsts(b)
  {
    var p :| 0 <= p < |a| && Dsts(a)[p] == d;
    assert a[p] in b;
    var q :| 0 <= q < |b| && b[q] == a[p];
    assert Dsts(b)[q] == d;
  }

  lemma RowsAhead(es: seq<Edge>, key: map<int, real>, d: int)
    requires d in Dsts(es)
    ensures Ahead(RowsBy(es, key), d) == AheadOf(es, key, d)
  {
    RowsMembers(es, key);
    hide RowsBy;
    forall e | e in Dsts(es) && e != d ensures Before(RowsBy(es, key), e, d) <==> ListedFirst(es, key, e, d) {
      RowsOrder(es, key, e, d);
    }
    assert !ListedFirst(es, key, d, d);
    assert !Before(RowsBy(es, key), d, d);
    assert forall e :: e in Ahead(RowsBy(es, key), d) <==> e in AheadOf(es, key, d);
  }

  /**
   Every target that fewer than k targets precede by `key` is ordered against every other target
   alike by both keys.
   */
  ghost predicate SameFirstListings(es: seq<Edge>, dist: map<int, real>, key: map<int, real>, k: nat) {
    forall d, e :: d in Dsts(es) && e in Dsts(es) && d != e && |AheadOf(es, key, d)| < k ==>
      (ListedFirst(es, dist, d, e) <==> ListedFirst(es, key, d, e))
  }

  /** Ranking sources by one key or the other gives the same first k rows if and only if that holds. */
  lemma SameRowsIff(es: seq<Edge>, dist: map<int, real>, key: map<int, real>, k: nat)
    ensures Take(RowsBy(es, dist), k) == Take(RowsBy(es, key), k) <==> SameFirstListings(es, dist, key, k)
  {
    hide RowsBy, ListedFirst, AheadOf, Before, Ahead;
    var a, b := RowsBy(es, dist), RowsBy(es, key);
    RowsMembers(es, dist);
    RowsMembers(es, key);
    TakeSameIff(a, b, k);
    forall d | d in Dsts(es) ensures Ahead(b, d) == AheadOf(es, key, d) {
      RowsAhead(es, key, d);
    }
    forall d, e | d in Dsts(es) && e in Dsts(es) && d != e
      ensures Before(a, d, e) <==> ListedFirst(es, dist, d, e)
      ensures Before(b, d, e) <==> ListedFirst(es, key, d, e)
    {
      RowsOrder(es, dist, d, e);
      RowsOrder(es, key, d, e);
    }
  }
}
