/**
 `consecutive_drops_merge` of bench/tjs_open_ref.py: a bounded min-heap and a counter of
 consecutive items that did not improve it.  What it keeps, where it stops, and exactly
 when stopping there is harmless.
 */
module DropsMerge {
  import opened Collections
  import opened Sorting
  import Sums
  import opened Heapq

  type Ranking = seq<(int, real)>

  function AtLeast(): (real, real) -> bool {
    (a: real, b: real) => a >= b
  }

  function Scores(r: Ranking): (s: seq<real>)
    ensures |s| == |r| && forall i :: 0 <= i < |r| ==> s[i] == r[i].1
  {
    seq(|r|, i requires 0 <= i < |r| => r[i].1)
  }

  /** The k largest scores in descending order: the exhaustive answer. */
  function BestScores(s: seq<real>, k: nat): seq<real> {
    Take(Sort(s, AtLeast()), k)
  }

  /** Item `j` is one of the first k, or beats the k-th best score before it. */
  predicate Improves(s: seq<real>, k: nat, j: nat)
    requires 0 < k && j < |s|
  {
    j < k || s[j] > BestScores(s[..j], k)[k - 1]
  }

  lemma AtLeastIsPreorder()
    ensures TotalPreorder(AtLeast())
  {
  }

  /** The best scores are among the scores, in descending order, and nothing left out beats them. */
  lemma BestScoresFacts(s: seq<real>, k: nat)
    requires 0 < k
    ensures var b := BestScores(s, k);
            && |b| == (if k <= |s| then k else |s|)
            && SortedBy(b, AtLeast())
            && multiset(b) <= multiset(s)
            && forall x :: x in multiset(s) - multiset(b) ==> |b| == k && x <= b[k - 1]
  {
    var sorted := Sort(s, AtLeast());
    AtLeastIsPreorder();
    SortSorted(s, AtLeast());
    SortContents(s, AtLeast());
    var b := BestScores(s, k);
    if k <= |s| {
      assert sorted == b + sorted[k..];
      forall x | x in multiset(s) - multiset(b) ensures x <= b[k - 1] {
        assert x in multiset(sorted[k..]);
        assert x in sorted[k..];
        var i :| 0 <= i < |sorted[k..]| && sorted[k..][i] == x;
        assert AtLeast()(sorted[k - 1], sorted[k + i]);
      }
    } else {
      assert b == sorted;
    }
  }

  /** Cutting before or after an insertion gives the same first k. */
  lemma {:induction false} InsertTake(xs: seq<real>, x: real, k: nat)
    requires SortedBy(xs, AtLeast())
    ensures Take(Insert(xs, x, AtLeast()), k) == Take(Insert(Take(xs, k), x, AtLeast()), k)
    ensures 0 < k <= |xs| && xs[k - 1] >= x ==> Take(Insert(xs, x, AtLeast()), k) == Take(xs, k)
  {
    if |xs| <= k {
      assert Take(xs, k) == xs;
      if |xs| == k && k > 0 && xs[k - 1] >= x {
        assert Insert(xs, x, AtLeast()) == xs + [x];
      }
    } else {
      var init, last := xs[..|xs| - 1], xs[|xs| - 1];
      InsertTake(init, x, k);
      assert Take(init, k) == Take(xs, k);
      if last >= x {
        assert Insert(xs, x, AtLeast()) == xs + [x];
        if k > 0 {
          assert AtLeast()(xs[k - 1], last);
        }
      } else {
        assert Insert(xs, x, AtLeast()) == Insert(init, x, AtLeast()) + [last];
      }
    }
  }

  /** Only an improving item changes the best scores; it enters them in order. */
  lemma BestStep(s: seq<real>, k: nat, j: nat)
    requires 0 < k && j < |s|
    ensures var before := BestScores(s[..j], k);
            BestScores(s[..j + 1], k) == if Improves(s, k, j) then Take(Insert(before, s[j], AtLeast()), k) else before
  {
    assert s[..j + 1][..j] == s[..j];
    AtLeastIsPreorder();
    SortSorted(s[..j], AtLeast());
    InsertTake(Sort(s[..j], AtLeast()), s[j], k);
  }

  /** An improving item makes room by pushing out the last of k scores. */
  lemma ImprovedContents(s: seq<real>, k: nat, j: nat)
    requires 0 < k && j < |s| && Improves(s, k, j)
    ensures var before := BestScores(s[..j], k);
            var out := if j < k then multiset{} else multiset{before[k - 1]};
            multiset(BestScores(s[..j + 1], k)) == multiset(before) - out + multiset{s[j]}
  {
    BestStep(s, k, j);
    BestScoresFacts(s[..j], k);
    hide BestScores, Insert, Take, Sort, SortedBy;
    var before := BestScores(s[..j], k);
    if j < k {
      InsertWithRoom(before, s[j], k);
    } else {
      InsertWhenFull(before, s[j], k);
    }
  }

  lemma InsertWithRoom(before: seq<real>, x: real, k: nat)
    requires |before| < k
    ensures Take(Insert(before, x, AtLeast()), k) == Insert(before, x, AtLeast())
    ensures multiset(Insert(before, x, AtLeast())) == multiset(before) + multiset{x}
  {
    InsertContents(before, x, AtLeast());
  }

  /** Inserting into k scores a score above the last one pushes exactly that one out. */
  lemma InsertWhenFull(before: seq<real>, x: real, k: nat)
    requires 0 < k == |before| && before[k - 1] < x
    ensures Take(Insert(before, x, AtLeast()), k) == Insert(before[..k - 1], x, AtLeast())
    ensures multiset(Insert(before[..k - 1], x, AtLeast())) == multiset(before) - multiset{before[k - 1]} + multiset{x}
  {
    var init, last := before[..k - 1], before[k - 1];
    assert before == init + [last];
    InsertContents(init, x, AtLeast());
  }

  // ----- the heap -----

  function Entries(r: Ranking): (s: seq<Entry>)
    ensures |s| == |r| && forall i :: 0 <= i < |r| ==> s[i] == (r[i].1, r[i].0)
  {
    seq(|r|, i requires 0 <= i < |r| => (r[i].1, r[i].0))
  }

  function EntryScores(h: seq<Entry>): (s: seq<real>)
    ensures |s| == |h| && forall i :: 0 <= i < |h| ==> s[i] == h[i].0
  {
    seq(|h|, i requires 0 <= i < |h| => h[i].0)
  }

  lemma ScoresSplit(a: seq<Entry>, b: seq<Entry>)
    ensures EntryScores(a + b) == EntryScores(a) + EntryScores(b)
  {
  }

  lemma {:induction false} PushedScores(h: seq<Entry>, e: Entry)
    ensures multiset(EntryScores(HeapPush(h, e))) == multiset(EntryScores(h)) + multiset{e.0}
  {
    if h == [] || Le(e, h[0]) {
      ScoresSplit([e], h);
    } else {
      PushedScores(h[1..], e);
      ScoresSplit([h[0]], HeapPush(h[1..], e));
      ScoresSplit([h[0]], h[1..]);
      assert h == [h[0]] + h[1..];
    }
  }

  /** The heap holds items of the prefix, and their scores are its best ones. */
  ghost predicate Holds(heap: seq<Entry>, ranked: Ranking, k: nat, j: nat)
    requires j <= |ranked|
  {
    && IsHeap(heap)
    && multiset(heap) <= multiset(Entries(ranked[..j]))
    && multiset(EntryScores(heap)) == multiset(BestScores(Scores(ranked)[..j], k))
  }

  lemma HeapSize(heap: seq<Entry>, ranked: Ranking, k: nat, j: nat)
    requires j <= |ranked| && 0 < k && Holds(heap, ranked, k, j)
    ensures |heap| == if k <= j then k else j
  {
    BestScoresFacts(Scores(ranked)[..j], k);
    assert |multiset(EntryScores(heap))| == |heap|;
    assert |multiset(BestScores(Scores(ranked)[..j], k))| == |BestScores(Scores(ranked)[..j], k)|;
  }

  /** The root of a full heap is the k-th best score so far. */
  lemma RootIsKthBest(heap: seq<Entry>, ranked: Ranking, k: nat, j: nat)
    requires j <= |ranked| && 0 < k <= j && Holds(heap, ranked, k, j)
    ensures |heap| == k == |BestScores(Scores(ranked)[..j], k)|
    ensures heap[0].0 == BestScores(Scores(ranked)[..j], k)[k - 1]
  {
    HeapSize(heap, ranked, k, j);
    var b, e := BestScores(Scores(ranked)[..j], k), EntryScores(heap);
    BestScoresFacts(Scores(ranked)[..j], k);
    SameMembers(e, b);
    assert e[0] in b;
    var p :| 0 <= p < k && b[p] == e[0];
    assert b[k - 1] in e;
    var q :| 0 <= q < k && e[q] == b[k - 1];
    assert p == k - 1 || AtLeast()(b[p], b[k - 1]);
    assert q == 0 || Le(heap[0], heap[q]);
  }

  /** What pushing `e` onto `rest` holds. */
  lemma PushedHeap(rest: seq<Entry>, e: Entry, items: multiset<Entry>, scores: multiset<real>)
    requires IsHeap(rest) && multiset(rest) <= items && multiset(EntryScores(rest)) == scores
    ensures IsHeap(HeapPush(rest, e))
    ensures multiset(HeapPush(rest, e)) <= items + multiset{e}
    ensures multiset(EntryScores(HeapPush(rest, e))) == scores + multiset{e.0}
  {
    PushedScores(rest, e);
  }

  lemma HoldsPush(heap: seq<Entry>, ranked: Ranking, k: nat, j: nat)
    requires 0 < k && j < |ranked| && Holds(heap, ranked, k, j) && Improves(Scores(ranked), k, j)
    ensures var rest := if j < k then heap else heap[1..];
            Holds(HeapPush(rest, (ranked[j].1, ranked[j].0)), ranked, k, j + 1)
  {
    hide BestScores, Improves, HeapPush;
    var s := Scores(ranked);
    var e := (ranked[j].1, ranked[j].0);
    ImprovedContents(s, k, j);
    EntriesNext(ranked, j);
    assert multiset(Entries(ranked[..j + 1])) == multiset(Entries(ranked[..j])) + multiset{e};
    if j >= k {
      RootIsKthBest(heap, ranked, k, j);
      PoppedHeap(heap);
      PushedHeap(heap[1..], e, multiset(Entries(ranked[..j])), multiset(EntryScores(heap[1..])));
    } else {
      PushedHeap(heap, e, multiset(Entries(ranked[..j])), multiset(EntryScores(heap)));
    }
  }

  lemma PoppedHeap(heap: seq<Entry>)
    requires heap != [] && IsHeap(heap)
    ensures IsHeap(heap[1..]) && multiset(heap[1..]) <= multiset(heap)
    ensures multiset(EntryScores(heap[1..])) == multiset(EntryScores(heap)) - multiset{heap[0].0}
  {
    assert heap == [heap[0]] + heap[1..];
    ScoresSplit([heap[0]], heap[1..]);
    hide EntryScores, IsHeap;
    assert multiset(heap) == multiset{heap[0]} + multiset(heap[1..]);
    OneScore(heap[0]);
  }

  lemma OneScore(e: Entry)
    ensures EntryScores([e]) == [e.0]
  {
  }

  lemma EntriesNext(ranked: Ranking, j: nat)
    requires j < |ranked|
    ensures Entries(ranked[..j + 1]) == Entries(ranked[..j]) + [(ranked[j].1, ranked[j].0)]
    ensures Scores(ranked)[..j + 1] == Scores(ranked)[..j] + [ranked[j].1]
  {
  }

  lemma HoldsSkip(heap: seq<Entry>, ranked: Ranking, k: nat, j: nat)
    requires 0 < k && j < |ranked| && Holds(heap, ranked, k, j) && !Improves(Scores(ranked), k, j)
    ensures Holds(heap, ranked, k, j + 1)
  {
    BestStep(Scores(ranked), k, j);
    EntriesNext(ranked, j);
  }

  // ----- where the loop stops -----

  /** `drops >= term_cond` can only hold after at least one drop. */
  function RunLength(termCond: int): nat {
    if termCond > 1 then termCond else 1
  }

  /** The `run` items before `e` did not improve the heap. */
  ghost predicate DropRun(s: seq<real>, k: nat, run: nat, e: nat)
    requires 0 < k && e <= |s|
  {
    run <= e && forall j :: e - run <= j < e ==> !Improves(s, k, j)
  }

  /** `e` is where the loop stops: after the first full run of drops, or at the end. */
  ghost predicate StopsAt(s: seq<real>, k: nat, run: nat, e: nat)
    requires 0 < k
  {
    && e <= |s|
    && (DropRun(s, k, run, e) || e == |s|)
    && forall d :: 0 <= d < e ==> !DropRun(s, k, run, d)
  }

  function ScoreThenId(): (Entry, Entry) -> bool {
    (a: Entry, b: Entry) => a.0 > b.0 || (a.0 == b.0 && a.1 <= b.1)
  }

  function Ids(h: seq<Entry>): (s: seq<int>)
    ensures |s| == |h| && forall i :: 0 <= i < |h| ==> s[i] == h[i].1
  {
    seq(|h|, i requires 0 <= i < |h| => h[i].1)
  }

  /** The answer: items of the examined prefix, best first, whose scores are its k best. */
  ghost predicate IsBestOfPrefix(ranked: Ranking, k: nat, examined: nat, kept: seq<Entry>)
    requires examined <= |ranked|
  {
    && multiset(kept) <= multiset(Entries(ranked[..examined]))
    && EntryScores(kept) == BestScores(Scores(ranked)[..examined], k)
    && forall i, j :: 0 <= i < j < |kept| ==> kept[i].0 > kept[j].0 || (kept[i].0 == kept[j].0 && kept[i].1 <= kept[j].1)
  }

  /** The loop's bookkeeping at `examined`: the last `drops` items are exactly the current run of drops. */
  ghost predicate Counting(s: seq<real>, k: nat, run: nat, examined: nat, drops: nat)
    requires 0 < k && examined <= |s|
  {
    && drops <= examined && drops < run
    && DropRun(s, k, drops, examined)
    && (drops < examined ==> Improves(s, k, examined - drops - 1))
    && forall d :: 0 <= d <= examined ==> !DropRun(s, k, run, d)
  }

  lemma CountImproved(s: seq<real>, k: nat, run: nat, examined: nat, drops: nat)
    requires 0 < k && examined < |s| && Counting(s, k, run, examined, drops) && Improves(s, k, examined)
    ensures Counting(s, k, run, examined + 1, 0)
  {
  }

  lemma CountDrop(s: seq<real>, k: nat, run: nat, examined: nat, drops: nat)
    requires 0 < k && examined < |s| && Counting(s, k, run, examined, drops) && !Improves(s, k, examined)
    ensures DropRun(s, k, drops + 1, examined + 1)
    ensures drops + 1 < run ==> Counting(s, k, run, examined + 1, drops + 1)
  {
  }

  /** The answer is read off the first prefix that ends in a full run of drops. */
  method ConsecutiveDropsMerge(ranked: Ranking, k: nat, termCond: int)
    returns (top: seq<int>, examined: nat, ghost kept: seq<Entry>)
    requires 0 < k
    ensures StopsAt(Scores(ranked), k, RunLength(termCond), examined)
    ensures IsBestOfPrefix(ranked, k, examined, kept) && top == Ids(kept)
  {
    hide BestScores, Holds, DropRun;
    var heap: seq<Entry> := [];
    var drops: nat := 0;
    ghost var s, run := Scores(ranked), RunLength(termCond);
    examined := 0;
    NothingYet(ranked, k, run);
    while examined < |ranked|
      invariant examined <= |ranked| && Holds(heap, ranked, k, examined)
      invariant Counting(s, k, run, examined, drops)
    {
      var (cid, sc) := ranked[examined];
      HeapSize(heap, ranked, k, examined);
      if |heap| < k {
        HoldsPush(heap, ranked, k, examined);
        CountImproved(s, k, run, examined, drops);
        heap := HeapPush(heap, (sc, cid));
        examined, drops := examined + 1, 0;
        continue;
      }
      RootIsKthBest(heap, ranked, k, examined);
      if sc > heap[0].0 {
        HoldsPush(heap, ranked, k, examined);
        CountImproved(s, k, run, examined, drops);
        heap := HeapPush(heap[1..], (sc, cid));
        examined, drops := examined + 1, 0;
      } else {
        HoldsSkip(heap, ranked, k, examined);
        CountDrop(s, k, run, examined, drops);
        examined, drops := examined + 1, drops + 1;
        if drops >= termCond {
          break;
        }
      }
    }
    Finish(heap, ranked, k, examined);
    kept := Sort(heap, ScoreThenId());
    top := Ids(Sort(heap, ScoreThenId()));
  }

  lemma NothingYet(ranked: Ranking, k: nat, run: nat)
    requires 0 < k && 0 < run
    ensures Holds([], ranked, k, 0) && Counting(Scores(ranked), k, run, 0, 0)
  {
  }

  lemma WithoutHead<T>(a: seq<T>)
    requires a != []
    ensures multiset(a[1..]) == multiset(a) - multiset{a[0]}
  {
    assert a == [a[0]] + a[1..];
  }

  lemma HeadIsGreatest(a: seq<real>, b: seq<real>)
    requires a != [] && b != [] && multiset(a) == multiset(b) && SortedBy(b, AtLeast())
    ensures b[0] >= a[0]
  {
    SameMembers(a, b);
    assert a[0] in b;
    var p :| 0 <= p < |b| && b[p] == a[0];
    assert p == 0 || AtLeast()(b[0], b[p]);
  }

  lemma {:induction false} DescendingUnique(a: seq<real>, b: seq<real>)
    requires multiset(a) == multiset(b) && SortedBy(a, AtLeast()) && SortedBy(b, AtLeast())
    ensures a == b
  {
    assert |a| == |b| by { assert |multiset(a)| == |multiset(b)|; }
    if a != [] {
      HeadIsGreatest(a, b);
      HeadIsGreatest(b, a);
      WithoutHead(a);
      WithoutHead(b);
      assert SortedBy(a[1..], AtLeast()) && SortedBy(b[1..], AtLeast());
      DescendingUnique(a[1..], b[1..]);
    } else {
    }
  }

  lemma {:induction false} InsertedScores(h: seq<Entry>, e: Entry, le: (Entry, Entry) -> bool)
    ensures multiset(EntryScores(Insert(h, e, le))) == multiset(EntryScores(h)) + multiset{e.0}
  {
    if h == [] || le(h[|h| - 1], e) {
      ScoresSplit(h, [e]);
    } else {
      var init, last := h[..|h| - 1], [h[|h| - 1]];
      InsertedScores(init, e, le);
      ScoresSplit(Insert(init, e, le), last);
      ScoresSplit(init, last);
      assert h == init + last;
    }
  }

  lemma {:induction false} SortedScores(h: seq<Entry>, le: (Entry, Entry) -> bool)
    ensures multiset(EntryScores(Sort(h, le))) == multiset(EntryScores(h))
  {
    if h == [] {
    } else {
      var init, last := h[..|h| - 1], [h[|h| - 1]];
      SortedScores(init, le);
      InsertedScores(Sort(init, le), h[|h| - 1], le);
      ScoresSplit(init, last);
      assert h == init + last;
    }
  }

  lemma Finish(heap: seq<Entry>, ranked: Ranking, k: nat, examined: nat)
    requires 0 < k && examined <= |ranked| && Holds(heap, ranked, k, examined)
    ensures IsBestOfPrefix(ranked, k, examined, Sort(heap, ScoreThenId()))
  {
    var kept := Sort(heap, ScoreThenId());
    SortContents(heap, ScoreThenId());
    SortSorted(heap, ScoreThenId());
    SortedScores(heap, ScoreThenId());
    BestScoresFacts(Scores(ranked)[..examined], k);
    forall i, j | 0 <= i < j < |kept| ensures AtLeast()(EntryScores(kept)[i], EntryScores(kept)[j]) {
      assert ScoreThenId()(kept[i], kept[j]);
    }
    DescendingUnique(EntryScores(kept), BestScores(Scores(ranked)[..examined], k));
  }

  // ----- when stopping early loses nothing -----

  lemma {:induction false} InsertSum(xs: seq<real>, x: real)
    ensures Sums.SumOf(Insert(xs, x, AtLeast())) == Sums.SumOf(xs) + x
  {
    if xs == [] || xs[|xs| - 1] >= x {
      assert (xs + [x])[..|xs|] == xs;
    } else {
      var init, last := xs[..|xs| - 1], xs[|xs| - 1];
      InsertSum(init, x);
      var r := Insert(init, x, AtLeast());
      assert (r + [last])[..|r|] == r;
    }
  }

  /** `b` has more scores than `a`, or as many and a larger sum. */
  ghost predicate Better(b: seq<real>, a: seq<real>) {
    |a| < |b| || (|a| == |b| && Sums.SumOf(a) < Sums.SumOf(b))
  }

  /** An improving item makes the best scores strictly better. */
  lemma ImprovingIsBetter(s: seq<real>, k: nat, j: nat)
    requires 0 < k && j < |s| && Improves(s, k, j)
    ensures Better(BestScores(s[..j + 1], k), BestScores(s[..j], k))
  {
    var before := BestScores(s[..j], k);
    BestStep(s, k, j);
    BestScoresFacts(s[..j], k);
    if j < k {
      assert Take(Insert(before, s[j], AtLeast()), k) == Insert(before, s[j], AtLeast());
    } else {
      var init := before[..k - 1];
      InsertSum(init, s[j]);
      assert Take(Insert(before, s[j], AtLeast()), k) == Insert(init, s[j], AtLeast());
    }
  }

  lemma {:induction false} BestNeverWorsens(s: seq<real>, k: nat, d: nat, e: nat)
    requires 0 < k && d <= e <= |s|
    ensures BestScores(s[..e], k) == BestScores(s[..d], k) || Better(BestScores(s[..e], k), BestScores(s[..d], k))
    ensures (forall j :: d <= j < e ==> !Improves(s, k, j)) ==> BestScores(s[..e], k) == BestScores(s[..d], k)
    decreases e
  {
    hide BestScores;
    if d < e {
      BestNeverWorsens(s, k, d, e - 1);
      BestStep(s, k, e - 1);
      if Improves(s, k, e - 1) {
        ImprovingIsBetter(s, k, e - 1);
      }
    } else {
    }
  }

  /** A prefix already holds the exhaustive answer if and only if nothing after it improves. */
  lemma StoppingIsExact(s: seq<real>, k: nat, e: nat)
    requires 0 < k && e <= |s|
    ensures BestScores(s[..e], k) == BestScores(s, k) <==> forall j :: e <= j < |s| ==> !Improves(s, k, j)
  {
    hide BestScores;
    assert s[..|s|] == s;
    BestNeverWorsens(s, k, e, |s|);
    forall j | e <= j < |s| && Improves(s, k, j) ensures BestScores(s[..e], k) != BestScores(s, k) {
      BestNeverWorsens(s, k, e, j);
      ImprovingIsBetter(s, k, j);
      BestNeverWorsens(s, k, j + 1, |s|);
    }
  }

  /**
   The answer of a run equals the exhaustive top-k exactly when no improving item comes
   after a run of max(1, term_cond) items that do not improve.
   */
  lemma RunIsExact(s: seq<real>, k: nat, run: nat, e: nat)
    requires 0 < k && StopsAt(s, k, run, e)
    ensures BestScores(s[..e], k) == BestScores(s, k)
       <==> !exists d, j :: 0 <= d <= j < |s| && DropRun(s, k, run, d) && Improves(s, k, j)
  {
    hide BestScores;
    StoppingIsExact(s, k, e);
    if j :| e <= j < |s| && Improves(s, k, j) {
      assert DropRun(s, k, run, e);
    }
    if d, j :| 0 <= d <= j < |s| && DropRun(s, k, run, d) && Improves(s, k, j) {
      assert e <= d;
    }
  }

  // ----- descending input -----

  ghost predicate Descending(s: seq<real>) {
    forall i, j :: 0 <= i < j < |s| ==> s[i] >= s[j]
  }

  lemma {:induction false} SortedStays(s: seq<real>)
    requires Descending(s)
    ensures Sort(s, AtLeast()) == s
  {
    if s != [] {
      SortedStays(s[..|s| - 1]);
    } else {
    }
  }

  lemma DescendingImproves(s: seq<real>, k: nat, j: nat)
    requires 0 < k && j < |s| && Descending(s)
    ensures Improves(s, k, j) <==> j < k
  {
    SortedStays(s[..j]);
  }

  /** On the descending input the callers build, the first k scores come out after k + max(1, term_cond) items. */
  lemma DescendingRun(s: seq<real>, k: nat, run: nat, e: nat)
    requires 0 < k && 0 < run && Descending(s) && StopsAt(s, k, run, e)
    ensures e == (if k + run <= |s| then k + run else |s|)
    ensures BestScores(s[..e], k) == BestScores(s, k) == Take(s, k)
  {
    forall j | 0 <= j < |s| ensures Improves(s, k, j) <==> j < k {
      DescendingImproves(s, k, j);
    }
    hide Improves;
    if e > k + run {
      assert DropRun(s, k, run, k + run);
    }
    if e < k + run && e < |s| {
      assert DropRun(s, k, run, e);
      assert !Improves(s, k, e - run);
    }
    SortedStays(s);
    StoppingIsExact(s, k, e);
  }
}
