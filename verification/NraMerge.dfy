/**
 `nra_fr_merge` of bench/tjs_open_ref.py: the early-terminating top-k merge of two
 descending score streams, and its exactness.
 */
module NraMerge {
  import opened Collections
  import opened Wrappers
  import opened Sums
  import opened Sorting

  type Stream = seq<(int, real)>

  /** What the docstring asks of a leg. */
  ghost predicate IsDescending(s: Stream) {
    forall i, j :: 0 <= i < j < |s| ==> s[i].1 >= s[j].1
  }

  /** An id may be listed more than once, but not with different scores. */
  ghost predicate OneScorePerId(s: Stream) {
    forall i, j :: 0 <= i < j < |s| && s[i].0 == s[j].0 ==> s[i].1 == s[j].1
  }

  ghost predicate NoNegative(s: Stream) {
    forall i :: 0 <= i < |s| ==> s[i].1 >= 0.0
  }

  /** A leg on which the bound is sound. */
  ghost predicate IsLeg(s: Stream) {
    IsDescending(s) && OneScorePerId(s) && NoNegative(s)
  }

  function Lookup(s: Stream, c: int): Option<real> {
    if s == [] then None
    else if s[|s| - 1].0 == c then Some(s[|s| - 1].1)
    else Lookup(s[..|s| - 1], c)
  }

  /** The scores of a candidate that are known so far, one per leg. */
  datatype Partial = Partial(vec: Option<real>, ppr: Option<real>)

  function Value(p: Option<real>): real {
    match p
    case Some(x) => x
    case None => 0.0
  }

  function Worst(p: Partial): real {
    Value(p.vec) + Value(p.ppr)
  }

  function Best(p: Partial, vecCeiling: real, pprCeiling: real): real {
    Worst(p) + (if p.vec.None? then vecCeiling else 0.0) + if p.ppr.None? then pprCeiling else 0.0
  }

  /** The full score of a candidate: both legs, a missing one counting 0. */
  ghost function FullScore(vs: Stream, ps: Stream, c: int): real {
    Value(Lookup(vs, c)) + Value(Lookup(ps, c))
  }

  /** `frontier[leg]` once `i` items of the leg have been pulled. */
  function Ceiling(s: Stream, i: nat): real
    requires i <= |s|
  {
    if i >= |s| then 0.0 else if i == 0 then s[0].1 else s[i - 1].1
  }

  /** How far both legs have been read, and the candidates in the order they first appeared. */
  datatype Cursor = Cursor(iv: nat, ip: nat, order: seq<int>)

  function Remember(order: seq<int>, c: int): seq<int> {
    if c in order then order else order + [c]
  }

  predicate PullsVec(vs: Stream, ps: Stream, iv: nat, ip: nat)
    requires iv <= |vs| && ip <= |ps|
  {
    iv < |vs| && (ip >= |ps| || vs[iv].1 >= ps[ip].1)
  }

  /** The cursor after `t` pulls, each from the leg with the higher next score. */
  ghost function After(vs: Stream, ps: Stream, t: nat): (r: Cursor)
    requires t <= |vs| + |ps|
    ensures r.iv <= |vs| && r.ip <= |ps| && r.iv + r.ip == t
  {
    if t == 0 then Cursor(0, 0, [])
    else
      var c := After(vs, ps, t - 1);
      if PullsVec(vs, ps, c.iv, c.ip) then Cursor(c.iv + 1, c.ip, Remember(c.order, vs[c.iv].0))
      else Cursor(c.iv, c.ip + 1, Remember(c.order, ps[c.ip].0))
  }

  /** The FR bound held after none of the first `t` pulls. */
  ghost predicate NotYet(vs: Stream, ps: Stream, k: nat, t: nat)
    requires t <= |vs| + |ps| && k > 0
  {
    forall u :: 0 < u <= t ==> !Stops(vs, ps, k, After(vs, ps, u))
  }

  /** What is known of candidate `c` at cursor `at`. */
  ghost function Known(vs: Stream, ps: Stream, at: Cursor, c: int): Partial
    requires at.iv <= |vs| && at.ip <= |ps|
  {
    Partial(Lookup(vs[..at.iv], c), Lookup(ps[..at.ip], c))
  }

  // ----- what a partial score says about the full score -----

  /** Where a score was found. */
  lemma {:induction false} LookupSource(s: Stream, c: int) returns (j: nat)
    requires Lookup(s, c).Some?
    ensures j < |s| && s[j] == (c, Lookup(s, c).value)
  {
    if s[|s| - 1].0 == c {
      j := |s| - 1;
    } else {
      j := LookupSource(s[..|s| - 1], c);
    }
  }

  lemma {:induction false} LookupAt(s: Stream, i: nat)
    requires OneScorePerId(s) && i < |s|
    ensures Lookup(s, s[i].0) == Some(s[i].1)
  {
    if i < |s| - 1 {
      LookupAt(s[..|s| - 1], i);
    } else {
    }
  }

  lemma LookupNext(s: Stream, i: nat, c: int)
    requires i < |s|
    ensures Lookup(s[..i + 1], c) == if s[i].0 == c then Some(s[i].1) else Lookup(s[..i], c)
  {
    assert s[..i + 1][..i] == s[..i];
  }

  /** A known leg score is the true one; an unknown one is between 0 and the ceiling. */
  lemma LegBounds(s: Stream, i: nat, c: int)
    requires IsLeg(s) && i <= |s|
    ensures Lookup(s[..i], c).Some? ==> Lookup(s[..i], c) == Lookup(s, c)
    ensures Lookup(s[..i], c).None? ==> 0.0 <= Value(Lookup(s, c)) <= Ceiling(s, i)
    ensures Ceiling(s, i) >= 0.0 && Value(Lookup(s, c)) >= 0.0
  {
    if Lookup(s[..i], c).Some? {
      var j := LookupSource(s[..i], c);
      LookupAt(s, j);
    } else if Lookup(s, c).Some? {
      var j := LookupSource(s, c);
      if j < i {
        LookupAt(s[..i], j);
        assert false;
      }
    }
  }

  /** W <= full score <= B for every candidate, seen or not. */
  lemma ScoreBounds(vs: Stream, ps: Stream, at: Cursor, c: int)
    requires IsLeg(vs) && IsLeg(ps) && at.iv <= |vs| && at.ip <= |ps|
    ensures var p := Known(vs, ps, at, c);
            Worst(p) <= FullScore(vs, ps, c) <= Best(p, Ceiling(vs, at.iv), Ceiling(ps, at.ip))
    ensures Worst(Known(vs, ps, at, c)) >= 0.0
  {
    LegBounds(vs, at.iv, c);
    LegBounds(ps, at.ip, c);
  }

  ghost predicate Seen(p: Partial) {
    p.vec.Some? || p.ppr.Some?
  }

  /** `order` holds exactly the candidates met so far, each once. */
  lemma {:induction false} OrderIsSeen(vs: Stream, ps: Stream, t: nat)
    requires t <= |vs| + |ps|
    ensures var at := After(vs, ps, t);
            Distinct(at.order) && forall c :: c in at.order <==> Seen(Known(vs, ps, at, c))
  {
    if t == 0 {
    } else {
      OrderIsSeen(vs, ps, t - 1);
      var b, at := After(vs, ps, t - 1), After(vs, ps, t);
      forall c ensures c in at.order <==> Seen(Known(vs, ps, at, c)) {
        if PullsVec(vs, ps, b.iv, b.ip) {
          LookupNext(vs, b.iv, c);
        } else {
          LookupNext(ps, b.ip, c);
        }
      }
    }
  }

  // ----- the stop test -----

  /** W of every candidate met so far. */
  ghost function Worsts(vs: Stream, ps: Stream, at: Cursor): map<int, real>
    requires at.iv <= |vs| && at.ip <= |ps|
  {
    map c | c in at.order :: Worst(Known(vs, ps, at, c))
  }

  /** Descending score; `sorted` keeps candidates with equal scores in the order they were met. */
  function HigherFirst(w: map<int, real>): (int, int) -> bool {
    (a, b) => Get(w, a) >= Get(w, b)
  }

  /** Descending score, then ascending id. */
  function HigherThenId(w: map<int, real>): (int, int) -> bool {
    (a, b) => Get(w, a) > Get(w, b) || (Get(w, a) == Get(w, b) && a <= b)
  }

  ghost function Ranked(vs: Stream, ps: Stream, at: Cursor): seq<int>
    requires at.iv <= |vs| && at.ip <= |ps|
  {
    Sort(at.order, HigherFirst(Worsts(vs, ps, at)))
  }

  /**
   The FR bound: the k-th largest W is at least B of every candidate ranked below it, and
   at least the score an unmet candidate could still have.
   */
  ghost predicate Stops(vs: Stream, ps: Stream, k: nat, at: Cursor)
    requires at.iv <= |vs| && at.ip <= |ps| && k > 0
  {
    var ranked, w := Ranked(vs, ps, at), Worsts(vs, ps, at);
    && |at.order| >= k
    && (forall i :: k <= i < |ranked| ==>
          Best(Known(vs, ps, at, ranked[i]), Ceiling(vs, at.iv), Ceiling(ps, at.ip)) <= Get(w, ranked[k - 1]))
    && 0.0 <= Get(w, ranked[k - 1])
    && Ceiling(vs, at.iv) + Ceiling(ps, at.ip) <= Get(w, ranked[k - 1])
  }

  lemma RankedFacts(vs: Stream, ps: Stream, at: Cursor)
    requires at.iv <= |vs| && at.ip <= |ps| && Distinct(at.order)
    ensures var ranked := Ranked(vs, ps, at);
            && Distinct(ranked) && |ranked| == |at.order|
            && (forall c :: c in ranked <==> c in at.order)
            && (forall i, j :: 0 <= i < j < |ranked| ==>
                  Get(Worsts(vs, ps, at), ranked[i]) >= Get(Worsts(vs, ps, at), ranked[j]))
  {
    var le := HigherFirst(Worsts(vs, ps, at));
    SortContents(at.order, le);
    SortSorted(at.order, le);
    PermutationDistinct(at.order, Sort(at.order, le));
    SameMembers(at.order, Sort(at.order, le));
  }

  /** Every id of either leg. */
  ghost function AllIds(vs: Stream, ps: Stream): set<int> {
    (set e | e in vs :: e.0) + (set e | e in ps :: e.0)
  }

  /** `top` is a correct answer: k ids, or all there are, and no other id scores higher than any of them. */
  ghost predicate IsTopK(vs: Stream, ps: Stream, k: nat, top: seq<int>) {
    && Distinct(top)
    && (forall c :: c in top ==> c in AllIds(vs, ps))
    && |top| == (if k <= |AllIds(vs, ps)| then k else |AllIds(vs, ps)|)
    && forall c, d :: c in top && d !in top ==> FullScore(vs, ps, c) >= FullScore(vs, ps, d)
  }

  lemma SeenIsId(vs: Stream, ps: Stream, at: Cursor, c: int)
    requires at.iv <= |vs| && at.ip <= |ps| && Seen(Known(vs, ps, at, c))
    ensures c in AllIds(vs, ps)
  {
    if Lookup(vs[..at.iv], c).Some? {
      var j := LookupSource(vs[..at.iv], c);
      assert vs[j] in vs;
    } else {
      var j := LookupSource(ps[..at.ip], c);
      assert ps[j] in ps;
    }
  }

  /** The early exit returns a correct answer. */
  lemma StoppedIsExact(vs: Stream, ps: Stream, k: nat, t: nat)
    requires IsLeg(vs) && IsLeg(ps) && k > 0 && t <= |vs| + |ps|
    requires Stops(vs, ps, k, After(vs, ps, t))
    ensures IsTopK(vs, ps, k, Ranked(vs, ps, After(vs, ps, t))[..k])
  {
    hide After, AllIds, FullScore, Ranked, IsLeg;
    var at := After(vs, ps, t);
    OrderIsSeen(vs, ps, t);
    RankedFacts(vs, ps, at);
    var ranked := Ranked(vs, ps, at);
    var top, kth := ranked[..k], Get(Worsts(vs, ps, at), ranked[k - 1]);
    forall c ensures c in top ==> FullScore(vs, ps, c) >= kth
             ensures c !in top ==> FullScore(vs, ps, c) <= kth
    {
      ScoreBounds(vs, ps, at, c);
      ScoreAgainstKth(vs, ps, k, at, c);
    }
    forall c | c in at.order ensures c in AllIds(vs, ps) {
      SeenIsId(vs, ps, at, c);
    }
    hide Stops, Known;
    assert forall c :: c in top ==> c in ranked;
    DistinctCard(at.order, AllIds(vs, ps));
  }

  /** Under the FR bound, W of the k-th candidate separates W inside the answer from B outside it. */
  lemma ScoreAgainstKth(vs: Stream, ps: Stream, k: nat, at: Cursor, c: int)
    requires at.iv <= |vs| && at.ip <= |ps| && k > 0 && Distinct(at.order) && Stops(vs, ps, k, at)
    requires c in at.order <==> Seen(Known(vs, ps, at, c))
    ensures var ranked := Ranked(vs, ps, at);
            var kth := Get(Worsts(vs, ps, at), ranked[k - 1]);
            if c in ranked[..k] then Worst(Known(vs, ps, at, c)) >= kth
            else Best(Known(vs, ps, at, c), Ceiling(vs, at.iv), Ceiling(ps, at.ip)) <= kth
  {
    hide Ranked, Known;
    RankedFacts(vs, ps, at);
    var ranked := Ranked(vs, ps, at);
    if c in ranked[..k] {
      var i :| 0 <= i < k && ranked[..k][i] == c;
      assert ranked[i] in ranked;
    } else if c in at.order {
      var i := PastPrefix(ranked, k, c);
    }
  }

  /** Once both legs are used up every score is known, so the test passes as soon as there are k candidates. */
  lemma LastPullStops(vs: Stream, ps: Stream, k: nat)
    requires IsLeg(vs) && IsLeg(ps) && k > 0
    ensures var at := After(vs, ps, |vs| + |ps|);
            |at.order| >= k ==> Stops(vs, ps, k, at)
  {
    var at := After(vs, ps, |vs| + |ps|);
    OrderIsSeen(vs, ps, |vs| + |ps|);
    RankedFacts(vs, ps, at);
    if |at.order| >= k {
      ScoreBounds(vs, ps, at, Ranked(vs, ps, at)[k - 1]);
    }
  }

  /** In the end every id has been met. */
  lemma EverythingSeen(vs: Stream, ps: Stream, c: int)
    ensures c in AllIds(vs, ps) <==> c in After(vs, ps, |vs| + |ps|).order
  {
    OrderIsSeen(vs, ps, |vs| + |ps|);
    var at := After(vs, ps, |vs| + |ps|);
    hide After, AllIds, Lookup;
    assert at.iv == |vs| && at.ip == |ps|;
    WholeLegs(vs, ps, at, c);
    if Seen(Known(vs, ps, at, c)) {
      SeenIsId(vs, ps, at, c);
    }
    if c in AllIds(vs, ps) {
      IdIsSeen(vs, ps, c);
    }
  }

  lemma WholeLegs(vs: Stream, ps: Stream, at: Cursor, c: int)
    requires at.iv == |vs| && at.ip == |ps|
    ensures Known(vs, ps, at, c) == Partial(Lookup(vs, c), Lookup(ps, c))
  {
    assert vs[..|vs|] == vs && ps[..|ps|] == ps;
  }

  /** With fewer than k candidates in all, every one of them is returned. */
  lemma ExhaustedIsExact(vs: Stream, ps: Stream, k: nat, top: seq<int>)
    requires IsLeg(vs) && IsLeg(ps)
    requires var at := After(vs, ps, |vs| + |ps|); |at.order| < k && multiset(top) == multiset(at.order)
    ensures IsTopK(vs, ps, k, top) && |AllIds(vs, ps)| < k
  {
    hide After, AllIds, FullScore;
    var n := |vs| + |ps|;
    var at := After(vs, ps, n);
    OrderIsSeen(vs, ps, n);
    PermutationDistinct(at.order, top);
    SameMembers(at.order, top);
    forall c ensures c in AllIds(vs, ps) <==> c in top {
      EverythingSeen(vs, ps, c);
    }
    DistinctCard(top, AllIds(vs, ps));
    assert |top| == |at.order| by { assert |multiset(top)| == |multiset(at.order)|; }
    forall c, d | c in top && d !in top ensures FullScore(vs, ps, c) >= FullScore(vs, ps, d) {
      NoScoreOutside(vs, ps, d);
      ScoreBounds(vs, ps, at, c);
    }
  }

  lemma NoScoreOutside(vs: Stream, ps: Stream, d: int)
    requires d !in AllIds(vs, ps)
    ensures FullScore(vs, ps, d) == 0.0
  {
    var at := Cursor(|vs|, |ps|, []);
    assert vs[..at.iv] == vs && ps[..at.ip] == ps;
    if Seen(Known(vs, ps, at, d)) {
      SeenIsId(vs, ps, at, d);
      assert false;
    }
  }

  lemma IdIsSeen(vs: Stream, ps: Stream, c: int)
    requires c in AllIds(vs, ps)
    ensures Lookup(vs, c).Some? || Lookup(ps, c).Some?
  {
  }

  // ----- the program -----

  /** `seen` as the loop has filled it at cursor `at`. */
  ghost predicate SeenAt(vs: Stream, ps: Stream, at: Cursor, order: seq<int>, seen: map<int, Partial>)
    requires at.iv <= |vs| && at.ip <= |ps|
  {
    && order == at.order
    && (forall c :: c in seen <==> c in order)
    && (forall c :: c in seen ==> seen[c] == Known(vs, ps, at, c))
  }

  /** The FR stop test of one round. */
  method StopTest(ghost vs: Stream, ghost ps: Stream, ghost at: Cursor, k: nat, order: seq<int>,
                  seen: map<int, Partial>, vecCeiling: real, pprCeiling: real)
    returns (stop: bool, top: seq<int>)
    requires at.iv <= |vs| && at.ip <= |ps| && k > 0 && Distinct(at.order) && SeenAt(vs, ps, at, order, seen)
    requires vecCeiling == Ceiling(vs, at.iv) && pprCeiling == Ceiling(ps, at.ip)
    ensures stop <==> Stops(vs, ps, k, at)
    ensures stop ==> top == Ranked(vs, ps, at)[..k]
  {
    RankedFacts(vs, ps, at);
    var w := map c | c in order :: Worst(seen[c]);
    assert w == Worsts(vs, ps, at);
    var ranked := Sort(order, HigherFirst(w));
    stop, top := false, [];
    if |ranked| >= k {
      var kth := w[ranked[k - 1]];
      var outside := 0.0;
      for i := k to |ranked|
        invariant outside <= kth <==> 0.0 <= kth && forall j :: k <= j < i ==>
                    Best(Known(vs, ps, at, ranked[j]), vecCeiling, pprCeiling) <= kth
      {
        var b := Best(seen[ranked[i]], vecCeiling, pprCeiling);
        if b > outside {
          outside := b;
        }
      }
      if kth >= outside && kth >= vecCeiling + pprCeiling {
        stop, top := true, ranked[..k];
      }
    }
  }

  lemma SeenStep(vs: Stream, ps: Stream, t: nat, order: seq<int>, seen: map<int, Partial>)
    requires t < |vs| + |ps| && SeenAt(vs, ps, After(vs, ps, t), order, seen)
    ensures var b := After(vs, ps, t);
            var fromVec := PullsVec(vs, ps, b.iv, b.ip);
            var c := if fromVec then vs[b.iv].0 else ps[b.ip].0;
            var p := if c in seen then seen[c] else Partial(None, None);
            var p' := if fromVec then p.(vec := Some(vs[b.iv].1)) else p.(ppr := Some(ps[b.ip].1));
            SeenAt(vs, ps, After(vs, ps, t + 1), Remember(order, c), seen[c := p'])
  {
    var b, at := After(vs, ps, t), After(vs, ps, t + 1);
    OrderIsSeen(vs, ps, t);
    forall c ensures Known(vs, ps, at, c) ==
                     if PullsVec(vs, ps, b.iv, b.ip)
                     then (if c == vs[b.iv].0 then Known(vs, ps, b, c).(vec := Some(vs[b.iv].1)) else Known(vs, ps, b, c))
                     else (if c == ps[b.ip].0 then Known(vs, ps, b, c).(ppr := Some(ps[b.ip].1)) else Known(vs, ps, b, c))
    {
      if PullsVec(vs, ps, b.iv, b.ip) {
        LookupNext(vs, b.iv, c);
      } else {
        LookupNext(ps, b.ip, c);
      }
    }
  }

  /** Where the merge stops and what it then returns: at the first pull at which the FR bound holds, or at the end. */
  ghost predicate StopsWith(vs: Stream, ps: Stream, k: nat, pulls: nat, top: seq<int>)
    requires k > 0 && pulls <= |vs| + |ps|
  {
    var at := After(vs, ps, pulls);
    if pulls > 0 && Stops(vs, ps, k, at) then NotYet(vs, ps, k, pulls - 1) && top == Ranked(vs, ps, at)[..k]
    else NotYet(vs, ps, k, pulls) && pulls == |vs| + |ps| && top == Take(Sort(at.order, HigherThenId(Worsts(vs, ps, at))), k)
  }

  /**
   The merge stops at the first pull at which the FR bound holds.  On legs without negative scores its
   answer is a correct top-k of the two full legs; without an early stop there are then fewer than k candidates in all.
   */
  method NraFrMerge(vs: Stream, ps: Stream, k: nat) returns (top: seq<int>, examined: nat, ghost pulls: nat)
    requires k > 0
    ensures pulls <= |vs| + |ps| && examined == |After(vs, ps, pulls).order|
    ensures StopsWith(vs, ps, k, pulls, top)
    ensures IsLeg(vs) && IsLeg(ps) ==> IsTopK(vs, ps, k, top)
  {
    hide Stops, After, IsTopK, AllIds, SeenAt, Ceiling, NotYet, IsLeg, Sort, StopsWith;
    var iv: nat, ip: nat, order := 0, 0, [];
    var seen: map<int, Partial> := map[];
    var vecCeiling := if |vs| > 0 then vs[0].1 else 0.0;
    var pprCeiling := if |ps| > 0 then ps[0].1 else 0.0;
    pulls := 0;
    Start(vs, ps, k);
    while iv < |vs| || ip < |ps|
      invariant iv <= |vs| && ip <= |ps| && pulls == iv + ip
      invariant After(vs, ps, pulls) == Cursor(iv, ip, order)
      invariant SeenAt(vs, ps, Cursor(iv, ip, order), order, seen)
      invariant vecCeiling == Ceiling(vs, iv) && pprCeiling == Ceiling(ps, ip)
      invariant NotYet(vs, ps, k, pulls)
      decreases |vs| + |ps| - pulls
    {
      iv, ip, order, seen, vecCeiling, pprCeiling := Pull(vs, ps, iv, ip, order, seen, vecCeiling, pprCeiling, pulls);
      pulls := pulls + 1;
      OrderIsSeen(vs, ps, pulls);
      var stop;
      stop, top := StopTest(vs, ps, Cursor(iv, ip, order), k, order, seen, vecCeiling, pprCeiling);
      if stop {
        StopsHere(vs, ps, k, pulls, top);
        AnswerIsTopK(vs, ps, k, pulls, top);
        return top, |order|, pulls;
      }
      NotYetNext(vs, ps, k, pulls);
    }
    var w := Weights(vs, ps, Cursor(iv, ip, order), order, seen);
    top := Take(Sort(order, HigherThenId(w)), k);
    examined := |order|;
    StopsAtEnd(vs, ps, k, pulls, top);
    AnswerIsTopK(vs, ps, k, pulls, top);
  }

  lemma AnswerIsTopK(vs: Stream, ps: Stream, k: nat, pulls: nat, top: seq<int>)
    requires k > 0 && pulls <= |vs| + |ps| && StopsWith(vs, ps, k, pulls, top)
    ensures IsLeg(vs) && IsLeg(ps) ==> IsTopK(vs, ps, k, top)
  {
    hide Stops, After, IsTopK, AllIds, NotYet, IsLeg, Sort, Ranked, Worsts;
    if IsLeg(vs) && IsLeg(ps) {
      var at := After(vs, ps, pulls);
      if pulls > 0 && Stops(vs, ps, k, at) {
        StoppedIsExact(vs, ps, k, pulls);
      } else {
        var le := HigherThenId(Worsts(vs, ps, at));
        LastPullMustStop(vs, ps, k);
        SortContents(at.order, le);
        ExhaustedIsExact(vs, ps, k, top);
      }
    }
  }

  lemma StopsHere(vs: Stream, ps: Stream, k: nat, pulls: nat, top: seq<int>)
    requires 0 < pulls <= |vs| + |ps| && k > 0 && NotYet(vs, ps, k, pulls - 1) && Stops(vs, ps, k, After(vs, ps, pulls))
    requires top == Ranked(vs, ps, After(vs, ps, pulls))[..k]
    ensures StopsWith(vs, ps, k, pulls, top)
  {
  }

  lemma StopsAtEnd(vs: Stream, ps: Stream, k: nat, pulls: nat, top: seq<int>)
    requires pulls == |vs| + |ps| && k > 0 && NotYet(vs, ps, k, pulls)
    requires var at := After(vs, ps, pulls); top == Take(Sort(at.order, HigherThenId(Worsts(vs, ps, at))), k)
    ensures StopsWith(vs, ps, k, pulls, top)
  {
  }

  /** Pulls the next item from the leg with the higher next score. */
  method Pull(vs: Stream, ps: Stream, iv: nat, ip: nat, order: seq<int>, seen: map<int, Partial>,
              vecCeiling: real, pprCeiling: real, ghost t: nat)
    returns (iv': nat, ip': nat, order': seq<int>, seen': map<int, Partial>, vecCeiling': real, pprCeiling': real)
    requires t < |vs| + |ps| && After(vs, ps, t) == Cursor(iv, ip, order)
    requires SeenAt(vs, ps, After(vs, ps, t), order, seen)
    requires vecCeiling == Ceiling(vs, iv) && pprCeiling == Ceiling(ps, ip)
    ensures After(vs, ps, t + 1) == Cursor(iv', ip', order')
    ensures (iv', ip') == if ip == |ps| || (iv < |vs| && vs[iv].1 >= ps[ip].1) then (iv + 1, ip) else (iv, ip + 1)
    ensures SeenAt(vs, ps, After(vs, ps, t + 1), order', seen')
    ensures vecCeiling' == Ceiling(vs, iv') && pprCeiling' == Ceiling(ps, ip')
  {
    hide After, SeenAt;
    SeenStep(vs, ps, t, order, seen);
    AfterStep(vs, ps, t);
    iv', ip', seen', vecCeiling', pprCeiling' := iv, ip, seen, vecCeiling, pprCeiling;
    var pullVec := PullsVec(vs, ps, iv, ip);
    var (c, score) := if pullVec then vs[iv] else ps[ip];
    var known := if c in seen then seen[c] else Partial(None, None);
    if pullVec {
      iv', vecCeiling' := iv + 1, score;
      seen' := seen[c := known.(vec := Some(score))];
    } else {
      ip', pprCeiling' := ip + 1, score;
      seen' := seen[c := known.(ppr := Some(score))];
    }
    order' := Remember(order, c);
    if iv' >= |vs| {
      vecCeiling' := 0.0;
    }
    if ip' >= |ps| {
      pprCeiling' := 0.0;
    }
  }

  method Weights(ghost vs: Stream, ghost ps: Stream, ghost at: Cursor, order: seq<int>, seen: map<int, Partial>)
    returns (w: map<int, real>)
    requires at.iv <= |vs| && at.ip <= |ps| && SeenAt(vs, ps, at, order, seen)
    ensures w == Worsts(vs, ps, at)
  {
    w := map c | c in order :: Worst(seen[c]);
  }

  lemma Start(vs: Stream, ps: Stream, k: nat)
    ensures After(vs, ps, 0) == Cursor(0, 0, []) && SeenAt(vs, ps, Cursor(0, 0, []), [], map[])
    ensures k > 0 ==> NotYet(vs, ps, k, 0)
    ensures Ceiling(vs, 0) == (if |vs| > 0 then vs[0].1 else 0.0)
    ensures Ceiling(ps, 0) == (if |ps| > 0 then ps[0].1 else 0.0)
  {
  }

  lemma NotYetNext(vs: Stream, ps: Stream, k: nat, t: nat)
    requires 0 < t <= |vs| + |ps| && k > 0
    requires NotYet(vs, ps, k, t - 1) && !Stops(vs, ps, k, After(vs, ps, t))
    ensures NotYet(vs, ps, k, t)
  {
  }

  lemma AfterStep(vs: Stream, ps: Stream, t: nat)
    requires t < |vs| + |ps|
    ensures var c := After(vs, ps, t);
            After(vs, ps, t + 1)
              == if PullsVec(vs, ps, c.iv, c.ip) then Cursor(c.iv + 1, c.ip, Remember(c.order, vs[c.iv].0))
                 else Cursor(c.iv, c.ip + 1, Remember(c.order, ps[c.ip].0))
  {
  }

  lemma LastPullMustStop(vs: Stream, ps: Stream, k: nat)
    requires IsLeg(vs) && IsLeg(ps) && k > 0
    requires NotYet(vs, ps, k, |vs| + |ps|)
    ensures |After(vs, ps, |vs| + |ps|).order| < k
  {
    LastPullStops(vs, ps, k);
  }
}
