/**
 The score streams `retrieve` builds from min-max normalised dictionaries meet what
 the merge asks of its legs, so the fused answer is exact for every input.
 */
module Retrieve {
  import opened Collections
  import opened Wrappers
  import opened Sorting
  import opened NraMerge
  import opened Graph
  import opened PowerModel
  import opened PushTheorems
  import opened PushRuns
  import opened PersonalizedPageRank
  import Corpora
  import FusedPlan
  import KbqaRanking

  /** A dictionary from ids to scores, as the list of its items. */
  type Items = seq<(int, real)>

  ghost predicate IsDict(d: Items) {
    forall i, j :: 0 <= i < j < |d| ==> d[i].0 != d[j].0
  }

  function Least(d: Items): (r: real)
    requires d != []
    ensures forall e :: e in d ==> r <= e.1
    ensures exists e :: e in d && e.1 == r
  {
    if |d| == 1 then assert d[0] in d; d[0].1
    else
      var m := Least(d[1..]);
      assert forall e :: e in d <==> e == d[0] || e in d[1..];
      if d[0].1 <= m then d[0].1 else m
  }

  function Greatest(d: Items): (r: real)
    requires d != []
    ensures forall e :: e in d ==> e.1 <= r
    ensures exists e :: e in d && e.1 == r
  {
    if |d| == 1 then assert d[0] in d; d[0].1
    else
      var m := Greatest(d[1..]);
      assert forall e :: e in d <==> e == d[0] || e in d[1..];
      if d[0].1 >= m then d[0].1 else m
  }

  function Scaled(x: real, lo: real, hi: real): real {
    if hi <= lo then 1.0 else (x - lo) / (hi - lo)
  }

  /** `_minmax_norm`. */
  function MinMaxNorm(d: Items): (r: Items)
    ensures |r| == |d|
  {
    if d == [] then []
    else seq(|d|, i requires 0 <= i < |d| => (d[i].0, Scaled(d[i].1, Least(d), Greatest(d))))
  }

  lemma ScaledInRange(x: real, lo: real, hi: real)
    requires lo <= x <= hi
    ensures 0.0 <= Scaled(x, lo, hi) <= 1.0
  {
    if lo < hi {
      ScaledMonotone(lo, x, lo, hi);
      ScaledMonotone(x, hi, lo, hi);
      var q := (hi - lo) / (hi - lo);
      assert q == 1.0;
    }
  }

  lemma ScaledMonotone(x: real, y: real, lo: real, hi: real)
    requires lo < hi && x <= y
    ensures Scaled(x, lo, hi) <= Scaled(y, lo, hi)
    ensures x < y ==> Scaled(x, lo, hi) < Scaled(y, lo, hi)
  {
  }

  /** Normalising keeps the ids, stays in [0, 1], and keeps the order of scores unless all are equal. */
  lemma MinMaxKeepsOrder(d: Items, i: nat, j: nat)
    requires i < |d| && j < |d|
    ensures MinMaxNorm(d)[i].0 == d[i].0 && 0.0 <= MinMaxNorm(d)[i].1 <= 1.0
    ensures Least(d) < Greatest(d) ==> (d[i].1 <= d[j].1 <==> MinMaxNorm(d)[i].1 <= MinMaxNorm(d)[j].1)
  {
    assert d[i] in d && d[j] in d;
    ScaledInRange(d[i].1, Least(d), Greatest(d));
    if Least(d) < Greatest(d) {
      if d[i].1 <= d[j].1 {
        ScaledMonotone(d[i].1, d[j].1, Least(d), Greatest(d));
      } else {
        ScaledMonotone(d[j].1, d[i].1, Least(d), Greatest(d));
      }
    }
  }

  /** Descending score. */
  function ScoreDescending(): ((int, real), (int, real)) -> bool {
    (a: (int, real), b: (int, real)) => a.1 >= b.1
  }

  /** `sorted(norm.items(), key=lambda kv: -kv[1])` of a normalised dictionary. */
  function StreamOf(d: Items): Stream {
    Sort(MinMaxNorm(d), ScoreDescending())
  }

  lemma StreamIsLeg(d: Items)
    requires IsDict(d)
    ensures IsLeg(StreamOf(d))
    ensures multiset(StreamOf(d)) == multiset(MinMaxNorm(d))
  {
    NormIsDict(d);
    SortedDictIsLeg(MinMaxNorm(d));
  }

  lemma SortedDictIsLeg(d: Items)
    requires IsDict(d) && forall e :: e in d ==> e.1 >= 0.0
    ensures IsLeg(Sort(d, ScoreDescending()))
    ensures multiset(Sort(d, ScoreDescending())) == multiset(d)
  {
    var s := Sort(d, ScoreDescending());
    SortContents(d, ScoreDescending());
    SameMembers(d, s);
    IdsStayDistinct(d, s);
    assert SortedBy(s, ScoreDescending()) by {
      SortSorted(d, ScoreDescending());
    }
  }

  lemma NormIsDict(d: Items)
    requires IsDict(d)
    ensures IsDict(MinMaxNorm(d)) && forall e :: e in MinMaxNorm(d) ==> e.1 >= 0.0
  {
    forall i | 0 <= i < |d| ensures MinMaxNorm(d)[i].0 == d[i].0 && MinMaxNorm(d)[i].1 >= 0.0 {
      MinMaxKeepsOrder(d, i, i);
    }
  }

  lemma IdsStayDistinct(a: Items, b: Items)
    requires multiset(a) == multiset(b) && forall i, j :: 0 <= i < j < |a| ==> a[i].0 != a[j].0
    ensures forall i, j :: 0 <= i < j < |b| ==> b[i].0 != b[j].0
  {
    PermutationDistinct(a, b);
    SameMembers(a, b);
    forall i, j | 0 <= i < j < |b| ensures b[i].0 != b[j].0 {
      assert b[i] in a && b[j] in a;
      var p :| 0 <= p < |a| && a[p] == b[i];
      var q :| 0 <= q < |a| && a[q] == b[j];
      assert p != q;
    }
  }

  /** `items` lists the dictionary `m`, in some order. */
  ghost predicate AreItems(items: Items, m: Vector) {
    && IsDict(items)
    && (forall i :: 0 <= i < |items| ==> items[i].0 in m && m[items[i].0] == items[i].1)
    && (forall c :: c in m ==> Lists(items, c))
  }

  ghost predicate Lists(items: Items, c: int) {
    exists i :: 0 <= i < |items| && items[i].0 == c
  }

  /**
   `leg` lists the dictionary `m` by descending score, its scores shifted and stretched so that the largest
   becomes 1 and the least 0; if all are equal they become 1.
   */
  ghost predicate IsNormalised(leg: Stream, m: Vector) {
    && (forall i, j :: 0 <= i < j < |leg| ==> leg[i].0 != leg[j].0 && leg[i].1 >= leg[j].1)
    && (forall i :: 0 <= i < |leg| ==> leg[i].0 in m) && (forall c :: c in m ==> Lists(leg, c))
    && forall i :: 0 <= i < |leg| ==>
         var x, hi, lo := m[leg[i].0], m[leg[0].0], m[leg[|leg| - 1].0];
         lo <= x <= hi && if hi == lo then leg[i].1 == 1.0 else leg[i].1 * (hi - lo) == x - lo
  }

  lemma ScaledBack(x: real, lo: real, hi: real)
    requires lo <= x <= hi
    ensures 0.0 <= Scaled(x, lo, hi) <= 1.0
    ensures if hi == lo then Scaled(x, lo, hi) == 1.0 else Scaled(x, lo, hi) * (hi - lo) == x - lo
    ensures lo < hi ==> (Scaled(x, lo, hi) == 1.0 <==> x == hi) && (Scaled(x, lo, hi) == 0.0 <==> x == lo)
  {
    ScaledInRange(x, lo, hi);
    if lo < hi {
      var q := (x - lo) / (hi - lo);
      assert q * (hi - lo) == x - lo;
      QuotientEnds(hi - lo);
    }
  }

  lemma QuotientEnds(x: real)
    requires x != 0.0
    ensures x / x == 1.0 && 0.0 / x == 0.0
  {
  }

  /** The stream of a dictionary is its normalised leg. */
  lemma StreamIsNormalised(d: Items, m: Vector)
    requires AreItems(d, m)
    ensures IsNormalised(StreamOf(d), m)
  {
    assert IsDict(d);
    hide MinMaxNorm, StreamOf, Scaled, IsNormalised, AreItems, IsLeg, Rescored;
    StreamIsLeg(d);
    NormIsDict(d);
    var norm, s := MinMaxNorm(d), StreamOf(d);
    IdsStayDistinct(norm, s);
    NormRescores(d, s);
    LegDescends(s);
    NormalisedScores(d, m, norm, s);
  }

  lemma LegDescends(s: Stream)
    requires IsLeg(s)
    ensures forall i, j :: 0 <= i < j < |s| ==> s[i].1 >= s[j].1
  {
  }

  lemma NormRescores(d: Items, s: Stream)
    requires multiset(s) == multiset(MinMaxNorm(d))
    ensures Rescored(d, MinMaxNorm(d), s)
  {
    SameMembers(MinMaxNorm(d), s);
    hide Scaled;
  }

  /** `norm` is `d` with its scores normalised, and `s` lists the same entries. */
  ghost predicate Rescored(d: Items, norm: Items, s: Stream) {
    && |norm| == |d| && (forall e :: e in norm <==> e in s)
    && forall i :: 0 <= i < |d| ==> norm[i] == (d[i].0, Scaled(d[i].1, Least(d), Greatest(d)))
  }

  lemma RescoredAt(d: Items, m: Vector, norm: Items, s: Stream, i: nat)
    requires AreItems(d, m) && Rescored(d, norm, s) && i < |s| && d != []
    ensures var lo, hi := Least(d), Greatest(d);
            s[i].0 in m && s[i].1 == Scaled(m[s[i].0], lo, hi) && lo <= m[s[i].0] <= hi
  {
    hide Scaled;
    assert s[i] in norm;
    var j :| 0 <= j < |norm| && norm[j] == s[i];
    assert d[j] in d;
  }

  lemma RescoredLists(d: Items, m: Vector, norm: Items, s: Stream, c: int) returns (i: nat)
    requires AreItems(d, m) && Rescored(d, norm, s) && c in m
    ensures i < |s| && s[i].0 == c && Lists(s, c)
  {
    hide Scaled;
    assert Lists(d, c);
    var j :| 0 <= j < |d| && d[j].0 == c;
    assert norm[j] in s;
    i :| 0 <= i < |s| && s[i] == norm[j];
  }

  lemma NormalisedScores(d: Items, m: Vector, norm: Items, s: Stream)
    requires AreItems(d, m) && Rescored(d, norm, s)
    requires forall i, j :: 0 <= i < j < |s| ==> s[i].0 != s[j].0 && s[i].1 >= s[j].1
    ensures IsNormalised(s, m)
  {
    hide Scaled, Rescored, AreItems;
    forall c | c in m ensures Lists(s, c) {
      var i := RescoredLists(d, m, norm, s, c);
    }
    if s != [] {
      SomeItem(d, norm, s);
      var lo, hi := LeastAndGreatest(d, m, norm, s);
      forall i | 0 <= i < |s| ensures s[i].0 in m && s[i].1 == Scaled(m[s[i].0], Least(d), Greatest(d))
                              ensures Least(d) <= m[s[i].0] <= Greatest(d) {
        RescoredAt(d, m, norm, s, i);
      }
      EndsAreExtremes(m, s, Least(d), Greatest(d), hi, lo);
    }
  }

  lemma LeastAndGreatest(d: Items, m: Vector, norm: Items, s: Stream) returns (lo: nat, hi: nat)
    requires AreItems(d, m) && Rescored(d, norm, s) && d != []
    ensures lo < |s| && hi < |s| && s[lo].0 in m && s[hi].0 in m
    ensures m[s[lo].0] == Least(d) && m[s[hi].0] == Greatest(d)
  {
    hide Rescored;
    var least, greatest := Least(d), Greatest(d);
    var e :| e in d && e.1 == least;
    var f :| f in d && f.1 == greatest;
    lo := RescoredLists(d, m, norm, s, e.0);
    hi := RescoredLists(d, m, norm, s, f.0);
  }

  lemma SomeItem(d: Items, norm: Items, s: Stream)
    requires Rescored(d, norm, s) && s != []
    ensures d != []
  {
    assert s[0] in norm;
  }

  lemma EndsAreExtremes(m: Vector, s: Stream, lo: real, hi: real, top: nat, bottom: nat)
    requires forall i, j :: 0 <= i < j < |s| ==> s[i].0 != s[j].0 && s[i].1 >= s[j].1
    requires forall i :: 0 <= i < |s| ==> s[i].0 in m && s[i].1 == Scaled(m[s[i].0], lo, hi) && lo <= m[s[i].0] <= hi
    requires top < |s| && bottom < |s| && m[s[top].0] == hi && m[s[bottom].0] == lo
    requires forall c :: c in m ==> Lists(s, c)
    ensures IsNormalised(s, m)
  {
    hide Scaled;
    forall i | 0 <= i < |s|
      ensures 0.0 <= s[i].1 <= 1.0 && if hi == lo then s[i].1 == 1.0 else s[i].1 * (hi - lo) == m[s[i].0] - lo
      ensures lo < hi ==> (s[i].1 == 1.0 <==> m[s[i].0] == hi) && (s[i].1 == 0.0 <==> m[s[i].0] == lo)
    {
      ScaledBack(m[s[i].0], lo, hi);
    }
    assert s[0].1 >= s[top].1 && s[bottom].1 >= s[|s| - 1].1;
    assert m[s[0].0] == hi && m[s[|s| - 1].0] == lo;
  }

  /** A correct top-k of the two streams, and the number of candidates met when the merge stopped. */
  ghost predicate IsMerged(vs: Stream, ps: Stream, k: nat, top: seq<int>, examined: nat)
    requires k > 0
  {
    && IsTopK(vs, ps, k, top)
    && exists pulls: nat :: pulls <= |vs| + |ps| && StopsWith(vs, ps, k, pulls, top) && examined == |After(vs, ps, pulls).order|
  }

  /** The NRA/FR leg of `retrieve`: vector window and PPR reserve, each a dictionary of scores. */
  method FrFused(window: Items, reserves: Items, k: nat, ghost sims: Vector, ghost reserve: Vector)
    returns (top: seq<int>, examined: nat, ghost vs: Stream, ghost ps: Stream)
    requires AreItems(window, sims) && AreItems(reserves, reserve) && k > 0
    ensures IsNormalised(vs, sims) && IsNormalised(ps, reserve) && IsMerged(vs, ps, k, top, examined)
  {
    hide StopsWith, IsTopK, After, IsLeg, StreamOf, IsNormalised;
    StreamIsLeg(window);
    StreamIsLeg(reserves);
    StreamIsNormalised(window, sims);
    StreamIsNormalised(reserves, reserve);
    vs, ps := StreamOf(window), StreamOf(reserves);
    ghost var pulls;
    top, examined, pulls := NraFrMerge(StreamOf(window), StreamOf(reserves), k);
  }

  // ----- the rows nearest to the question -----

  /** Row `r` is ranked before row `s`: nearer to the question, or equally near with the smaller number. */
  ghost predicate NearerRow(emb: seq<seq<real>>, qv: seq<real>, r: int, s: int)
    requires 0 <= r < |emb| && 0 <= s < |emb|
  {
    Corpora.L2Sq(emb[r], qv) < Corpora.L2Sq(emb[s], qv) || (Corpora.L2Sq(emb[r], qv) == Corpora.L2Sq(emb[s], qv) && r < s)
  }

  /** `rows` are the `m` nearest rows, or all of them, nearest first. */
  ghost predicate AreNearestRows(rows: seq<int>, emb: seq<seq<real>>, qv: seq<real>, m: nat) {
    && |rows| == (if m <= |emb| then m else |emb|)
    && (forall i :: 0 <= i < |rows| ==> 0 <= rows[i] < |emb|)
    && (forall i, j :: 0 <= i < j < |rows| ==> NearerRow(emb, qv, rows[i], rows[j]))
    && forall i, s :: 0 <= i < |rows| && 0 <= s < |emb| && s !in rows ==> NearerRow(emb, qv, rows[i], s)
  }

  /** The `m` rows nearest to the question, nearest first. */
  function Nearest(emb: seq<seq<real>>, qv: seq<real>, m: nat): seq<int> {
    Take(FusedPlan.RankedSources(Positions(|emb|), KbqaRanking.SquaredDistances(emb, qv)), m)
  }

  lemma NearestRows(emb: seq<seq<real>>, qv: seq<real>, m: nat)
    ensures AreNearestRows(Nearest(emb, qv, m), emb, qv, m)
  {
    var all, dist := Positions(|emb|), KbqaRanking.SquaredDistances(emb, qv);
    var ranked := FusedPlan.RankedSources(all, dist);
    RankedRows(emb, qv);
    var rows := Nearest(emb, qv, m);
    assert forall i :: 0 <= i < |rows| ==> rows[i] == ranked[i] && ranked[i] in ranked;
    hide FusedPlan.RankedSources, Nearest, NearerRow;
    forall i, s | 0 <= i < |rows| && 0 <= s < |emb| && s !in rows ensures NearerRow(emb, qv, rows[i], s) {
      assert s in ranked;
      var j :| 0 <= j < |ranked| && ranked[j] == s;
      assert j >= |rows|;
    }
  }

  lemma RankedRows(emb: seq<seq<real>>, qv: seq<real>)
    ensures var ranked := FusedPlan.RankedSources(Positions(|emb|), KbqaRanking.SquaredDistances(emb, qv));
            && |ranked| == |emb| && (forall r :: r in ranked <==> 0 <= r < |emb|)
            && forall i, j :: 0 <= i < j < |ranked| ==>
                 0 <= ranked[i] < |emb| && 0 <= ranked[j] < |emb| && NearerRow(emb, qv, ranked[i], ranked[j])
  {
    var all, dist := Positions(|emb|), KbqaRanking.SquaredDistances(emb, qv);
    var ranked := FusedPlan.RankedSources(all, dist);
    FusedPlan.RankedOrder(all, dist);
    hide FusedPlan.RankedSources, Corpora.L2Sq;
    forall i, j | 0 <= i < j < |ranked|
      ensures 0 <= ranked[i] < |emb| && 0 <= ranked[j] < |emb| && NearerRow(emb, qv, ranked[i], ranked[j])
    {
      var r, s := ranked[i], ranked[j];
      assert r in ranked && s in ranked;
      assert r in all && s in all;
      assert Sums.Get(dist, r) == Corpora.L2Sq(emb[r], qv) && Sums.Get(dist, s) == Corpora.L2Sq(emb[s], qv);
      assert Before(all, r, s) ==> r < s;
    }
  }

  /** The window of `vector_ranked` before normalisation: similarity is negated distance. */
  function Window(emb: seq<seq<real>>, qv: seq<real>, limit: nat): Items {
    var order, dist := Nearest(emb, qv, limit), KbqaRanking.SquaredDistances(emb, qv);
    seq(|order|, i requires 0 <= i < |order| => (order[i], -Sums.Get(dist, order[i])))
  }

  lemma RowsInRange(rows: seq<int>, emb: seq<seq<real>>, qv: seq<real>, m: nat)
    requires AreNearestRows(rows, emb, qv, m)
    ensures Distinct(rows) && forall i :: 0 <= i < |rows| ==> 0 <= rows[i] < |emb|
    ensures |rows| == if m <= |emb| then m else |emb|
  {
  }

  /** The negated distances of some rows. */
  ghost function Similarity(emb: seq<seq<real>>, qv: seq<real>, rows: seq<int>): Vector
    requires forall i :: 0 <= i < |rows| ==> 0 <= rows[i] < |emb|
  {
    map r | r in rows :: 0.0 - Corpora.L2Sq(emb[r], qv)
  }

  lemma WindowItems(emb: seq<seq<real>>, qv: seq<real>, limit: nat)
    ensures AreNearestRows(Nearest(emb, qv, limit), emb, qv, limit)
    ensures AreItems(Window(emb, qv, limit), Similarity(emb, qv, Nearest(emb, qv, limit)))
  {
    NearestRows(emb, qv, limit);
    RowsInRange(Nearest(emb, qv, limit), emb, qv, limit);
    hide Nearest, AreNearestRows;
    var rows, window := Nearest(emb, qv, limit), Window(emb, qv, limit);
    var m := Similarity(emb, qv, rows);
    forall i | 0 <= i < |rows| ensures rows[i] in m && window[i] == (rows[i], m[rows[i]]) {
      assert rows[i] in rows;
    }
    forall c | c in m ensures Lists(window, c) {
      var i :| 0 <= i < |rows| && rows[i] == c;
      assert window[i].0 == c;
    }
  }

  /**
   The vector leg of a question: the `limit` nearest rows, none outside strictly nearer than one inside, by
   descending score; a row scores at least as much as another if and only if it is at most as far, the nearest
   scores 1, the farthest 0, and the rest in proportion (all score 1 if all are equally far).
   */
  ghost predicate IsVectorLeg(vs: Stream, emb: seq<seq<real>>, qv: seq<real>, limit: nat) {
    && |vs| == (if limit <= |emb| then limit else |emb|)
    && (forall i :: 0 <= i < |vs| ==> 0 <= vs[i].0 < |emb|)
    && (forall i, j :: 0 <= i < j < |vs| ==> vs[i].0 != vs[j].0 && vs[i].1 >= vs[j].1)
    && (forall i, s :: 0 <= i < |vs| && 0 <= s < |emb| && (forall j :: 0 <= j < |vs| ==> vs[j].0 != s) ==>
          Corpora.L2Sq(emb[vs[i].0], qv) <= Corpora.L2Sq(emb[s], qv))
    && (forall i, j :: 0 <= i < |vs| && 0 <= j < |vs| ==>
          (vs[i].1 >= vs[j].1 <==> Corpora.L2Sq(emb[vs[i].0], qv) <= Corpora.L2Sq(emb[vs[j].0], qv)))
    && forall i :: 0 <= i < |vs| ==>
         var d, near, far := Corpora.L2Sq(emb[vs[i].0], qv), Corpora.L2Sq(emb[vs[0].0], qv), Corpora.L2Sq(emb[vs[|vs| - 1].0], qv);
         if near == far then vs[i].1 == 1.0 else vs[i].1 * (far - near) == far - d
  }

  lemma NormalisedWindow(emb: seq<seq<real>>, qv: seq<real>, limit: nat, rows: seq<int>, vs: Stream)
    requires AreNearestRows(rows, emb, qv, limit) && IsNormalised(vs, Similarity(emb, qv, rows))
    ensures IsVectorLeg(vs, emb, qv, limit)
  {
    hide Corpora.L2Sq, IsNormalised, AreNearestRows;
    RowsInRange(rows, emb, qv, limit);
    var m := Similarity(emb, qv, rows);
    NormalisedIds(vs, m);
    forall c ensures c in rows <==> Lists(vs, c) {
      assert c in rows <==> c in m;
    }
    SameLength(rows, vs);
    forall i, s | 0 <= i < |vs| && 0 <= s < |emb| && (forall j :: 0 <= j < |vs| ==> vs[j].0 != s)
      ensures Corpora.L2Sq(emb[vs[i].0], qv) <= Corpora.L2Sq(emb[s], qv)
    {
      assert !Lists(vs, s);
      NearestFirst(rows, emb, qv, limit, vs[i].0, s);
    }
    forall i, j | 0 <= i < |vs| && 0 <= j < |vs| ensures vs[i].1 >= vs[j].1 <==> m[vs[i].0] >= m[vs[j].0] {
      OrderNormalised(vs, m, i, j);
    }
    forall i | 0 <= i < |vs|
      ensures var x, hi, lo := m[vs[i].0], m[vs[0].0], m[vs[|vs| - 1].0];
              if hi == lo then vs[i].1 == 1.0 else vs[i].1 * (hi - lo) == x - lo
    {
      ScoreNormalised(vs, m, i);
    }
    SameScores(vs, m, emb, qv);
  }

  lemma NearestFirst(rows: seq<int>, emb: seq<seq<real>>, qv: seq<real>, limit: nat, r: int, s: int)
    requires AreNearestRows(rows, emb, qv, limit) && r in rows && 0 <= s < |emb| && s !in rows
    ensures 0 <= r < |emb| && Corpora.L2Sq(emb[r], qv) <= Corpora.L2Sq(emb[s], qv)
  {
    hide Corpora.L2Sq;
    var i :| 0 <= i < |rows| && rows[i] == r;
    assert NearerRow(emb, qv, rows[i], s);
  }

  lemma NormalisedIds(leg: Stream, m: Vector)
    requires IsNormalised(leg, m)
    ensures forall i, j :: 0 <= i < j < |leg| ==> leg[i].0 != leg[j].0 && leg[i].1 >= leg[j].1
    ensures (forall i :: 0 <= i < |leg| ==> leg[i].0 in m) && forall c :: c in m <==> Lists(leg, c)
  {
  }

  lemma ScoreNormalised(leg: Stream, m: Vector, i: nat)
    requires IsNormalised(leg, m) && i < |leg|
    ensures leg[i].0 in m && leg[0].0 in m && leg[|leg| - 1].0 in m
    ensures var x, hi, lo := m[leg[i].0], m[leg[0].0], m[leg[|leg| - 1].0];
            lo <= x <= hi && if hi == lo then leg[i].1 == 1.0 else leg[i].1 * (hi - lo) == x - lo
  {
  }

  /** Scores in proportion to similarity, said of distance. */
  lemma SameScores(vs: Stream, m: Vector, emb: seq<seq<real>>, qv: seq<real>)
    requires forall i :: 0 <= i < |vs| ==>
               0 <= vs[i].0 < |emb| && vs[i].0 in m && m[vs[i].0] == 0.0 - Corpora.L2Sq(emb[vs[i].0], qv)
    requires forall i :: 0 <= i < |vs| ==>
               var x, hi, lo := m[vs[i].0], m[vs[0].0], m[vs[|vs| - 1].0];
               if hi == lo then vs[i].1 == 1.0 else vs[i].1 * (hi - lo) == x - lo
    ensures forall i :: 0 <= i < |vs| ==>
              var d, near, far := Corpora.L2Sq(emb[vs[i].0], qv), Corpora.L2Sq(emb[vs[0].0], qv), Corpora.L2Sq(emb[vs[|vs| - 1].0], qv);
              if near == far then vs[i].1 == 1.0 else vs[i].1 * (far - near) == far - d
  {
    hide Corpora.L2Sq;
    forall i | 0 <= i < |vs|
      ensures var d, near, far := Corpora.L2Sq(emb[vs[i].0], qv), Corpora.L2Sq(emb[vs[0].0], qv), Corpora.L2Sq(emb[vs[|vs| - 1].0], qv);
              if near == far then vs[i].1 == 1.0 else vs[i].1 * (far - near) == far - d
    {
      var hi, lo := m[vs[0].0], m[vs[|vs| - 1].0];
      var near, far := Corpora.L2Sq(emb[vs[0].0], qv), Corpora.L2Sq(emb[vs[|vs| - 1].0], qv);
      assert far - near == hi - lo;
    }
  }

  lemma OrderNormalised(leg: Stream, m: Vector, i: nat, j: nat)
    requires IsNormalised(leg, m) && i < |leg| && j < |leg|
    ensures leg[i].1 >= leg[j].1 <==> m[leg[i].0] >= m[leg[j].0]
  {
    ScoreNormalised(leg, m, i);
    ScoreNormalised(leg, m, j);
    hide IsNormalised;
    var hi, lo := m[leg[0].0], m[leg[|leg| - 1].0];
    if hi != lo {
      OrderKept(leg[i].1, leg[j].1, hi - lo, m[leg[i].0] - lo, m[leg[j].0] - lo);
    }
  }

  lemma OrderKept(x: real, y: real, w: real, a: real, b: real)
    requires w > 0.0 && x * w == a && y * w == b
    ensures x >= y <==> a >= b
  {
    Sums.SignOfProduct(x - y, w);
    assert (x - y) * w == a - b;
  }

  lemma SameLength(rows: seq<int>, vs: Stream)
    requires Distinct(rows) && forall i, j :: 0 <= i < j < |vs| ==> vs[i].0 != vs[j].0
    requires forall c :: c in rows <==> Lists(vs, c)
    ensures |rows| == |vs|
  {
    var ids := seq(|vs|, i requires 0 <= i < |vs| => vs[i].0);
    forall c ensures c in ids <==> c in rows {
      if c in rows {
        var i :| 0 <= i < |vs| && vs[i].0 == c;
        assert ids[i] == c;
      }
    }
    DistinctCard(ids, Elements(rows));
    DistinctCard(rows, Elements(rows));
  }

  method ItemsOf(m: Vector) returns (items: Items)
    ensures AreItems(items, m)
  {
    items := [];
    var rest := m.Keys;
    while rest != {}
      invariant rest <= m.Keys && IsDict(items)
      invariant forall i :: 0 <= i < |items| ==> items[i].0 in m && items[i].0 !in rest && m[items[i].0] == items[i].1
      invariant forall c :: c in m && c !in rest ==> Lists(items, c)
      decreases rest
    {
      var c := PopAny(rest);
      ghost var before := items;
      items := items + [(c, m[c])];
      assert items[|before|].0 == c;
      forall d | d in m && d !in rest - {c} ensures Lists(items, d) {
        if d != c {
          assert Lists(before, d);
          var i :| 0 <= i < |before| && before[i].0 == d;
          assert items[i].0 == d;
        }
      }
      rest := rest - {c};
    }
  }

  /** The seed weights a caller's function gives, or none. */
  function WeightsFor(fn: Option<seq<int> -> Vector>, seeds: seq<int>): Option<Vector> {
    match fn
    case Some(f) => Some(f(seeds))
    case None => None
  }

  /** What `retrieve` pushes: the start vector of the nearest rows, with the caller's weights if there is a function for them. */
  ghost predicate IsQuestionStart(p: Vector, emb: seq<seq<real>>, qv: seq<real>, mSeeds: nat,
                                  weightsFor: Option<seq<int> -> Vector>) {
    exists seeds :: AreNearestRows(seeds, emb, qv, mSeeds)
                    && IsStart(p, seeds, if weightsFor.Some? then Some(weightsFor.value(seeds)) else None)
  }

  /**
   `retrieve` up to the fused answer: the seeds are the nearest rows, the reserve is that of the push run on
   them, and the answer is a correct top-k of the vector leg of the question and the normalised reserve.
   */
  method RetrieveFused(emb: seq<seq<real>>, qv: seq<real>, adj: Adjacency, k: nat, mSeeds: nat, alpha: real, rMax: real,
                       vecLimit: nat, weightsFor: Option<seq<int> -> Vector>)
    returns (top: seq<int>, examined: nat, nodesExamined: nat, ghost p: Vector, ghost vs: Stream, ghost ps: Stream)
    requires Parameters(alpha, rMax) && k > 0
    requires var seeds := Nearest(emb, qv, mSeeds); NonNegative(SeedWeights(seeds, WeightsFor(weightsFor, seeds)))
    ensures IsQuestionStart(p, emb, qv, mSeeds, weightsFor)
    ensures NonNegative(p) && nodesExamined == |Run(adj, alpha, rMax, p).residue.Keys|
    ensures IsVectorLeg(vs, emb, qv, vecLimit) && IsNormalised(ps, Run(adj, alpha, rMax, p).reserve)
    ensures IsMerged(vs, ps, k, top, examined)
  {
    hide Run, Personalization, SeedWeights, IsMerged, NonNegative, Nearest, IsStart, IsNormalised, AreNearestRows, IsVectorLeg;
    hide Window, Similarity, AreItems;
    var seeds := Nearest(emb, qv, mSeeds);
    NearestRows(emb, qv, mSeeds);
    var reserve;
    reserve, nodesExamined := BoundedPushPpr(adj, seeds, alpha, rMax, WeightsFor(weightsFor, seeds));
    p := Personalization(SeedWeights(seeds, WeightsFor(weightsFor, seeds)));
    var items := ItemsOf(reserve);
    WindowItems(emb, qv, vecLimit);
    ghost var rows := Nearest(emb, qv, vecLimit);
    RowsInRange(rows, emb, qv, vecLimit);
    ghost var sims := Similarity(emb, qv, rows);
    top, examined, vs, ps := FrFused(Window(emb, qv, vecLimit), items, k, sims, reserve);
    NormalisedWindow(emb, qv, vecLimit, rows, vs);
  }
}
