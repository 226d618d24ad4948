/**
 The rerank mode of `recall_at_k` in bench/rabitq_sim.py: a shortlist by estimated distance,
 reordered by exact distance, and the margin under which it loses nothing.
 */
module RerankMargin {
  import opened Collections
  import opened Sums
  import opened Sorting
  import FusedPlan

  /** `order` is an argsort of `key` over `items`: every item once, ascending key, ties in any order. */
  ghost predicate IsArgsort(order: seq<int>, key: map<int, real>, items: set<int>) {
    && Distinct(order)
    && (forall i :: i in order <==> i in items)
    && forall a, b :: 0 <= a < b < |order| ==> Get(key, order[a]) <= Get(key, order[b])
  }

  /** `np.argsort` as one such order. */
  function Argsort(items: seq<int>, key: map<int, real>): seq<int> {
    Sort(items, FusedPlan.Nearer(key))
  }

  lemma ArgsortSorts(items: seq<int>, key: map<int, real>)
    requires Distinct(items)
    ensures IsArgsort(Argsort(items, key), key, Elements(items))
  {
    hide Sort, TotalPreorder;
    FusedPlan.NearerIsPreorder(key);
    SortSorted(items, FusedPlan.Nearer(key));
    SortContents(items, FusedPlan.Nearer(key));
    PermutationDistinct(items, Argsort(items, key));
    SameMembers(items, Argsort(items, key));
    var order := Argsort(items, key);
    assert forall a, b :: 0 <= a < b < |order| ==> FusedPlan.Nearer(key)(order[a], order[b]);
  }

  /** `list` holds the `k` items of least key, or all of them, least first. */
  ghost predicate AreLeast(list: seq<int>, key: map<int, real>, items: set<int>, k: nat) {
    && Distinct(list) && |list| == (if k <= |items| then k else |items|) && (forall i :: i in list ==> i in items)
    && (forall a, b :: 0 <= a < b < |list| ==> Get(key, list[a]) <= Get(key, list[b]))
    && forall i, j :: i in list && j in items && j !in list ==> Get(key, i) <= Get(key, j)
  }

  lemma ArgsortLeast(items: seq<int>, key: map<int, real>, k: nat)
    requires Distinct(items)
    ensures AreLeast(Take(Argsort(items, key), k), key, Elements(items), k)
  {
    ArgsortSorts(items, key);
    hide Argsort;
    SortedPrefix(Argsort(items, key), key, Elements(items), k);
  }

  lemma SortedPrefix(order: seq<int>, key: map<int, real>, items: set<int>, k: nat)
    requires IsArgsort(order, key, items)
    ensures AreLeast(Take(order, k), key, items, k)
  {
    DistinctCard(order, items);
    var list := Take(order, k);
    assert forall a :: 0 <= a < |list| ==> list[a] == order[a];
    forall i | i in list ensures i in items {
      assert i in order;
    }
    forall i, j | i in list && j in items && j !in list ensures Get(key, i) <= Get(key, j) {
      var a :| 0 <= a < |list| && list[a] == i;
      assert j in order;
      var b :| 0 <= b < |order| && order[b] == j;
      assert b >= |list|;
    }
  }

  /** `max(rerank, k)`. */
  function ShortlistSize(rerank: nat, k: nat): (r: nat)
    ensures r >= rerank && r >= k && (r == rerank || r == k)
  {
    if rerank >= k then rerank else k
  }

  /** Every estimate is off by at most the slack of its item. */
  ghost predicate WithinSlack(items: set<int>, exact: map<int, real>, est: map<int, real>, slack: map<int, real>) {
    forall i :: i in items ==> Abs(Get(est, i) - Get(exact, i)) <= Get(slack, i)
  }

  /** The items whose estimates can come before that of `i`, or tie with it. */
  ghost function Rivals(items: set<int>, exact: map<int, real>, slack: map<int, real>, i: int): set<int> {
    set j | j in items && j != i && Get(exact, j) - Get(slack, j) <= Get(exact, i) + Get(slack, i)
  }

  /** None of the true top k has as many rivals as the shortlist has places. */
  ghost predicate FewRivals(items: set<int>, exact: map<int, real>, slack: map<int, real>, byExact: seq<int>, rerank: nat,
                            k: nat)
    requires k <= |byExact|
  {
    forall i :: i in byExact[..k] ==> |Rivals(items, exact, slack, i)| < ShortlistSize(rerank, k)
  }

  ghost predicate Shortlisted(byExact: seq<int>, byEst: seq<int>, rerank: nat, k: nat)
    requires k <= |byExact|
  {
    forall i :: i in byExact[..k] ==> i in Take(byEst, ShortlistSize(rerank, k))
  }

  /** Then the shortlist contains the true top k, whatever the estimates are. */
  lemma ShortlistHoldsTopK(items: set<int>, exact: map<int, real>, est: map<int, real>, slack: map<int, real>,
                           byExact: seq<int>, byEst: seq<int>, rerank: nat, k: nat)
    requires 0 < k <= |byExact| && IsArgsort(byExact, exact, items) && IsArgsort(byEst, est, items)
    requires WithinSlack(items, exact, est, slack) && FewRivals(items, exact, slack, byExact, rerank, k)
    ensures Shortlisted(byExact, byEst, rerank, k)
  {
    var size := ShortlistSize(rerank, k);
    forall i | i in byExact[..k] ensures i in Take(byEst, size) {
      if i !in Take(byEst, size) {
        MissedCrowdsOut(items, exact, est, slack, byEst, size, i);
        assert false;
      }
    }
  }

  /** An item missing from the shortlist has a full shortlist of rivals. */
  lemma MissedCrowdsOut(items: set<int>, exact: map<int, real>, est: map<int, real>, slack: map<int, real>,
                        byEst: seq<int>, size: nat, i: int)
    requires IsArgsort(byEst, est, items) && i in items && i !in Take(byEst, size) && WithinSlack(items, exact, est, slack)
    ensures |Rivals(items, exact, slack, i)| >= size
  {
    var b :| 0 <= b < |byEst| && byEst[b] == i;
    assert b >= size by { assert forall a :: 0 <= a < size <= |byEst| ==> byEst[..size][a] == byEst[a]; }
    var shortlist := byEst[..size];
    forall j | j in Elements(shortlist) ensures j in Rivals(items, exact, slack, i) {
      var a :| 0 <= a < size && shortlist[a] == j;
      assert byEst[a] in byEst;
      assert Get(est, byEst[a]) <= Get(est, byEst[b]);
    }
    DistinctCard(shortlist, Elements(shortlist));
    SubsetCard(Elements(shortlist), Rivals(items, exact, slack, i));
  }

  /** Item `i` estimated as far as its slack allows, everything else as near. */
  ghost function WorstEstimates(items: set<int>, exact: map<int, real>, slack: map<int, real>, i: int): map<int, real> {
    map j | j in items :: if j == i then Get(exact, i) + Get(slack, i) else Get(exact, j) - Get(slack, j)
  }

  /** With that many rivals, some estimates push `i` out. */
  lemma PushedOut(items: set<int>, exact: map<int, real>, slack: map<int, real>, byExact: seq<int>, i: int, size: nat)
    returns (est: map<int, real>, byEst: seq<int>)
    requires IsArgsort(byExact, exact, items) && (forall j :: j in items ==> Get(slack, j) >= 0.0)
    requires i in items && |Rivals(items, exact, slack, i)| >= size
    ensures WithinSlack(items, exact, est, slack) && IsArgsort(byEst, est, items) && i !in Take(byEst, size)
  {
    hide Sort, Filter, TotalPreorder, Rivals, Before;
    est := WorstEstimates(items, exact, slack, i);
    var others := Filter(byExact, items - {i});
    FilterDistinct(byExact, items - {i});
    var listed := others + [i];
    assert forall j :: j in listed <==> j in others || j == i;
    assert Elements(listed) == items;
    byEst := Argsort(listed, est);
    ArgsortSorts(listed, est);
    forall j | j in Rivals(items, exact, slack, i) ensures Before(byEst, j, i) {
      RivalListed(items, exact, slack, i, j);
      assert j in others;
      var a :| 0 <= a < |others| && others[a] == j;
      FusedPlan.NearerIsPreorder(est);
      SortStable(listed, FusedPlan.Nearer(est), a, |others|);
    }
    RivalsFirst(byEst, Rivals(items, exact, slack, i), i, size);
  }

  lemma RivalListed(items: set<int>, exact: map<int, real>, slack: map<int, real>, i: int, j: int)
    requires i in items && j in Rivals(items, exact, slack, i)
    ensures var est := WorstEstimates(items, exact, slack, i);
            j in items && j != i && Get(est, j) <= Get(est, i)
  {
  }

  lemma RivalsFirst(order: seq<int>, rivals: set<int>, i: int, size: nat)
    requires Distinct(order) && |rivals| >= size && forall j :: j in rivals ==> Before(order, j, i)
    ensures i !in Take(order, size)
  {
    if i in Take(order, size) {
      var b :| 0 <= b < |Take(order, size)| && Take(order, size)[b] == i;
      forall j | j in rivals ensures j in Elements(order[..b]) {
        var p, q :| 0 <= p < q < |order| && order[p] == j && order[q] == i;
        assert order[..b][p] == j;
      }
      DistinctCard(order[..b], Elements(order[..b]));
      SubsetCard(rivals, Elements(order[..b]));
      assert false;
    }
  }

  /**
   Exactly then: the shortlist holds the true top k for all estimates within the slack, and all ways to order
   equal ones, if and only if none of these k items has that many rivals.
   */
  lemma ShortlistSafeIff(items: set<int>, exact: map<int, real>, slack: map<int, real>, byExact: seq<int>, rerank: nat, k: nat)
    requires 0 < k <= |byExact| && IsArgsort(byExact, exact, items) && forall i :: i in items ==> Get(slack, i) >= 0.0
    ensures (forall est: map<int, real>, byEst: seq<int> ::
               WithinSlack(items, exact, est, slack) && IsArgsort(byEst, est, items) ==> Shortlisted(byExact, byEst, rerank, k))
       <==> FewRivals(items, exact, slack, byExact, rerank, k)
  {
    hide WithinSlack, Rivals;
    if FewRivals(items, exact, slack, byExact, rerank, k) {
      forall est: map<int, real>, byEst: seq<int> | WithinSlack(items, exact, est, slack) && IsArgsort(byEst, est, items)
        ensures Shortlisted(byExact, byEst, rerank, k)
      {
        ShortlistHoldsTopK(items, exact, est, slack, byExact, byEst, rerank, k);
      }
    } else {
      var i :| i in byExact[..k] && |Rivals(items, exact, slack, i)| >= ShortlistSize(rerank, k);
      assert i in items;
      var est, byEst := PushedOut(items, exact, slack, byExact, i, ShortlistSize(rerank, k));
      assert !Shortlisted(byExact, byEst, rerank, k);
    }
  }

  /** With distinct exact distances, any list of items that holds the true top k reranks to exactly it. */
  lemma RerankIsTopK(items: set<int>, exact: map<int, real>, byExact: seq<int>, reranked: seq<int>, shortlist: set<int>, k: nat)
    requires 0 < k <= |byExact| && IsArgsort(byExact, exact, items) && IsArgsort(reranked, exact, shortlist)
    requires forall i, j :: i in items && j in items && i != j ==> Get(exact, i) != Get(exact, j)
    requires shortlist <= items && forall i :: i in byExact[..k] ==> i in shortlist
    ensures Take(reranked, k) == byExact[..k]
  {
    AgreesUpTo(items, exact, byExact, reranked, shortlist, k, k);
    assert |reranked| >= k;
  }

  lemma {:induction false} AgreesUpTo(items: set<int>, exact: map<int, real>, byExact: seq<int>, reranked: seq<int>,
                                      shortlist: set<int>, k: nat, m: nat)
    requires 0 < k <= |byExact| && IsArgsort(byExact, exact, items) && IsArgsort(reranked, exact, shortlist)
    requires forall i, j :: i in items && j in items && i != j ==> Get(exact, i) != Get(exact, j)
    requires shortlist <= items && forall i :: i in byExact[..k] ==> i in shortlist
    requires m <= k
    ensures m <= |reranked| && reranked[..m] == byExact[..m]
    decreases m
  {
    if m > 0 {
      AgreesUpTo(items, exact, byExact, reranked, shortlist, k, m - 1);
      var x := byExact[m - 1];
      assert x in byExact[..k] && x in reranked;
      var q :| 0 <= q < |reranked| && reranked[q] == x;
      var prefix := byExact[..m - 1];
      assert forall a :: 0 <= a < m - 1 ==> prefix[a] == byExact[a] && prefix[a] == reranked[..m - 1][a];
      assert q >= m - 1;
      var y := reranked[m - 1];
      assert y in reranked && y in byExact;
      var p :| 0 <= p < |byExact| && byExact[p] == y;
      assert p >= m - 1;
      assert Get(exact, y) <= Get(exact, x) && Get(exact, x) <= Get(exact, y);
      assert x == y;
    } else {
    }
  }

  /** Hits over asked-for items, for one query. */
  ghost function Recall(truth: set<int>, got: set<int>): real
    requires truth != {}
  {
    |truth * got| as real / |truth| as real
  }

  /** The two together: under the margin the reranked answer has recall 1. */
  lemma RerankRecallIsOne(items: set<int>, exact: map<int, real>, est: map<int, real>, byExact: seq<int>, byEst: seq<int>,
                          reranked: seq<int>, slack: map<int, real>, rerank: nat, k: nat)
    requires 0 < k <= |byExact| && IsArgsort(byExact, exact, items) && IsArgsort(byEst, est, items)
    requires WithinSlack(items, exact, est, slack) && FewRivals(items, exact, slack, byExact, rerank, k)
    requires forall i, j :: i in items && j in items && i != j ==> Get(exact, i) != Get(exact, j)
    requires IsArgsort(reranked, exact, Elements(Take(byEst, ShortlistSize(rerank, k))))
    ensures Elements(byExact[..k]) != {} && Recall(Elements(byExact[..k]), Elements(Take(reranked, k))) == 1.0
  {
    var shortlist := Take(byEst, ShortlistSize(rerank, k));
    ShortlistHoldsTopK(items, exact, est, slack, byExact, byEst, rerank, k);
    forall i | i in shortlist ensures i in items {
      assert i in byEst;
    }
    RerankIsTopK(items, exact, byExact, reranked, Elements(shortlist), k);
    var truth := Elements(byExact[..k]);
    assert byExact[0] in byExact[..k] && byExact[0] in truth;
    assert truth * truth == truth;
    var n := |truth| as real;
    assert n > 0.0;
    assert n / n == 1.0;
  }
}
