/**
 Which legs the FR bound of `nra_fr_merge` is sound on: exactly those without negative scores.
 */
module NraSigns {
  import opened Wrappers
  import opened Sums
  import opened Sorting
  import opened NraMerge

  /** No id of either leg that is left out has a larger full score than one in the answer. */
  ghost predicate NoneBetter(vs: Stream, ps: Stream, top: seq<int>) {
    forall c, d :: c in top && d in AllIds(vs, ps) && d !in top ==> FullScore(vs, ps, c) >= FullScore(vs, ps, d)
  }

  /** Whatever nonnegative leg it is merged with as the second one, and whatever k, `ps` gets a correct answer. */
  ghost predicate SafeSecond(ps: Stream) {
    forall vs: Stream, k: nat, pulls: nat, top ::
      IsLeg(vs) && k > 0 && pulls <= |vs| + |ps| && StopsWith(vs, ps, k, pulls, top) ==> NoneBetter(vs, ps, top)
  }

  ghost predicate SafeFirst(vs: Stream) {
    forall ps: Stream, k: nat, pulls: nat, top ::
      IsLeg(ps) && k > 0 && pulls <= |vs| + |ps| && StopsWith(vs, ps, k, pulls, top) ==> NoneBetter(vs, ps, top)
  }

  /** A descending second leg is safe if and only if it has no negative score. */
  lemma SecondLegSafeIff(ps: Stream)
    requires IsDescending(ps) && OneScorePerId(ps)
    ensures SafeSecond(ps) <==> NoNegative(ps)
  {
    hide StopsWith, IsTopK, NoneBetter;
    if NoNegative(ps) {
      forall vs: Stream, k: nat, pulls: nat, top |
        IsLeg(vs) && k > 0 && pulls <= |vs| + |ps| && StopsWith(vs, ps, k, pulls, top)
        ensures NoneBetter(vs, ps, top)
      {
        LegsGiveTopK(vs, ps, k, pulls, top);
      }
    } else {
      var vs, pulls, top := FooledSecond(ps);
      assert !NoneBetter(vs, ps, top);
    }
  }

  /** A descending first leg is safe if and only if it has no negative score. */
  lemma FirstLegSafeIff(vs: Stream)
    requires IsDescending(vs) && OneScorePerId(vs)
    ensures SafeFirst(vs) <==> NoNegative(vs)
  {
    hide StopsWith, IsTopK, NoneBetter;
    if NoNegative(vs) {
      forall ps: Stream, k: nat, pulls: nat, top |
        IsLeg(ps) && k > 0 && pulls <= |vs| + |ps| && StopsWith(vs, ps, k, pulls, top)
        ensures NoneBetter(vs, ps, top)
      {
        LegsGiveTopK(vs, ps, k, pulls, top);
      }
    } else {
      var ps, pulls, top := FooledFirst(vs);
      assert !NoneBetter(vs, ps, top);
    }
  }

  lemma LegsGiveTopK(vs: Stream, ps: Stream, k: nat, pulls: nat, top: seq<int>)
    requires IsLeg(vs) && IsLeg(ps) && k > 0 && pulls <= |vs| + |ps| && StopsWith(vs, ps, k, pulls, top)
    ensures NoneBetter(vs, ps, top)
  {
    hide StopsWith;
    AnswerIsTopK(vs, ps, k, pulls, top);
  }

  // ----- a leg that fools the merge, for every leg with a negative score -----

  lemma {:induction false} FreshId(s: Stream) returns (f: int)
    ensures forall i :: 0 <= i < |s| ==> s[i].0 < f
  {
    if s == [] {
      f := 0;
    } else {
      var g := FreshId(s[..|s| - 1]);
      f := if g > s[|s| - 1].0 then g else s[|s| - 1].0 + 1;
    }
  }

  lemma NotListed(s: Stream, c: int)
    requires forall i :: 0 <= i < |s| ==> s[i].0 != c
    ensures Lookup(s, c) == None
  {
  }

  /** Two scores of a leg, as a leg. */
  function Pair(c: int, x: real, d: int, y: real): Stream {
    [(c, x), (d, y)]
  }

  lemma PairLookups(c: int, x: real, d: int, y: real)
    requires c != d
    ensures var s := Pair(c, x, d, y);
            && Lookup(s[..0], c) == None && Lookup(s[..0], d) == None
            && Lookup(s[..1], c) == Some(x) && Lookup(s[..1], d) == None
            && s[..2] == s && Lookup(s, c) == Some(x) && Lookup(s, d) == Some(y)
  {
  }

  lemma RankTwo(c: int, d: int, w: map<int, real>)
    requires Get(w, c) >= Get(w, d)
    ensures Sort([c, d], HigherFirst(w)) == [c, d]
  {
  }

  /** One candidate met, and nothing unmet can be better. */
  lemma StopsOnOne(vs: Stream, ps: Stream, at: Cursor, c: int)
    requires at.iv <= |vs| && at.ip <= |ps| && at.order == [c]
    requires 0.0 <= Worst(Known(vs, ps, at, c)) && Ceiling(vs, at.iv) + Ceiling(ps, at.ip) <= Worst(Known(vs, ps, at, c))
    ensures Stops(vs, ps, 1, at) && Ranked(vs, ps, at)[..1] == [c]
  {
  }

  /** Two candidates met, and neither the second nor anything unmet can be better than the first. */
  lemma StopsOnTwo(vs: Stream, ps: Stream, at: Cursor, c: int, d: int)
    requires at.iv <= |vs| && at.ip <= |ps| && at.order == [c, d] && c != d
    requires var w := Worst(Known(vs, ps, at, c));
             && 0.0 <= w && Ceiling(vs, at.iv) + Ceiling(ps, at.ip) <= w && Worst(Known(vs, ps, at, d)) <= w
             && Best(Known(vs, ps, at, d), Ceiling(vs, at.iv), Ceiling(ps, at.ip)) <= w
    ensures Stops(vs, ps, 1, at) && Ranked(vs, ps, at)[..1] == [c]
  {
    hide Sort, Known, Ceiling, Worst, Best;
    RankTwo(c, d, Worsts(vs, ps, at));
    assert Get(Worsts(vs, ps, at), c) == Worst(Known(vs, ps, at, c));
    assert Get(Worsts(vs, ps, at), d) == Worst(Known(vs, ps, at, d));
  }

  /** One candidate met, and an unmet one could still be better. */
  lemma GoesOnAfterOne(vs: Stream, ps: Stream, at: Cursor, c: int)
    requires at.iv <= |vs| && at.ip <= |ps| && at.order == [c]
    requires Ceiling(vs, at.iv) + Ceiling(ps, at.ip) > Worst(Known(vs, ps, at, c))
    ensures !Stops(vs, ps, 1, at)
  {
  }

  lemma FirstPull(vs: Stream, ps: Stream)
    requires vs != [] || ps != []
    ensures var t := After(vs, ps, 1);
            t == if PullsVec(vs, ps, 0, 0) then Cursor(1, 0, [vs[0].0]) else Cursor(0, 1, [ps[0].0])
    ensures After(vs, ps, 0) == Cursor(0, 0, [])
  {
  }

  lemma StopsFirst(vs: Stream, ps: Stream, pulls: nat, c: int)
    requires 0 < pulls <= |vs| + |ps| && Stops(vs, ps, 1, After(vs, ps, pulls))
    requires Ranked(vs, ps, After(vs, ps, pulls))[..1] == [c] && NotYet(vs, ps, 1, pulls - 1)
    ensures StopsWith(vs, ps, 1, pulls, [c])
  {
  }

  lemma NotYetAfterNone(vs: Stream, ps: Stream)
    ensures NotYet(vs, ps, 1, 0)
  {
  }

  lemma NotYetAfterOne(vs: Stream, ps: Stream)
    requires 1 <= |vs| + |ps| && !Stops(vs, ps, 1, After(vs, ps, 1))
    ensures NotYet(vs, ps, 1, 1)
  {
    hide Stops, After;
  }

  lemma Beaten(vs: Stream, ps: Stream, c: int, d: int)
    requires d != c && d in AllIds(vs, ps) && FullScore(vs, ps, c) < FullScore(vs, ps, d)
    ensures !NoneBetter(vs, ps, [c])
  {
  }

  lemma FooledSecond(ps: Stream) returns (vs: Stream, pulls: nat, top: seq<int>)
    requires IsDescending(ps) && OneScorePerId(ps) && !NoNegative(ps)
    ensures IsLeg(vs) && pulls <= |vs| + |ps| && StopsWith(vs, ps, 1, pulls, top) && !NoneBetter(vs, ps, top)
  {
    var c, x := ps[|ps| - 1].0, -ps[|ps| - 1].1;
    if ps[0].1 <= 0.0 {
      vs := FooledSecondAtOnce(ps, c, x);
      pulls, top := 1, [c];
    } else {
      FooledSecondLater(ps, c, x);
      vs, pulls, top := Pair(c, 2.0 * ps[0].1 + x, ps[0].0, ps[0].1 + x / 2.0), 2, [c];
    }
  }

  lemma FooledSecondAtOnce(ps: Stream, c: int, x: real) returns (vs: Stream)
    requires IsDescending(ps) && OneScorePerId(ps) && ps != [] && ps[|ps| - 1] == (c, -x) && x > 0.0 && ps[0].1 <= 0.0
    ensures IsLeg(vs) && 1 <= |vs| + |ps| && StopsWith(vs, ps, 1, 1, [c]) && !NoneBetter(vs, ps, [c])
  {
    hide Lookup, StopsWith, Stops, Ranked, NotYet, After, NoneBetter;
    var f := FreshId(ps);
    vs := Pair(c, x, f, x / 2.0);
    PairLookups(c, x, f, x / 2.0);
    FirstPull(vs, ps);
    NotListed(ps[..0], c);
    StopsOnOne(vs, ps, After(vs, ps, 1), c);
    NotYetAfterNone(vs, ps);
    StopsFirst(vs, ps, 1, c);
    LookupAt(ps, |ps| - 1);
    NotListed(ps, f);
    assert vs[1] in vs;
    Beaten(vs, ps, c, f);
  }

  lemma FooledSecondLater(ps: Stream, c: int, x: real)
    requires IsDescending(ps) && OneScorePerId(ps) && ps != [] && ps[|ps| - 1] == (c, -x) && x > 0.0 && ps[0].1 > 0.0
    ensures var vs := Pair(c, 2.0 * ps[0].1 + x, ps[0].0, ps[0].1 + x / 2.0);
            IsLeg(vs) && StopsWith(vs, ps, 1, 2, [c]) && !NoneBetter(vs, ps, [c])
  {
    hide Lookup, StopsWith, Stops, Ranked, NotYet, After, NoneBetter;
    var (a, s) := ps[0];
    var vs := Pair(c, 2.0 * s + x, a, s + x / 2.0);
    PairLookups(c, 2.0 * s + x, a, s + x / 2.0);
    FirstPull(vs, ps);
    NotListed(ps[..0], c);
    NotListed(ps[..0], a);
    GoesOnAfterOne(vs, ps, After(vs, ps, 1), c);
    NotYetAfterOne(vs, ps);
    AfterStep(vs, ps, 1);
    StopsOnTwo(vs, ps, After(vs, ps, 2), c, a);
    StopsFirst(vs, ps, 2, c);
    LookupAt(ps, |ps| - 1);
    LookupAt(ps, 0);
    assert vs[1] in vs;
    Beaten(vs, ps, c, a);
  }

  lemma FooledFirst(vs: Stream) returns (ps: Stream, pulls: nat, top: seq<int>)
    requires IsDescending(vs) && OneScorePerId(vs) && !NoNegative(vs)
    ensures IsLeg(ps) && pulls <= |vs| + |ps| && StopsWith(vs, ps, 1, pulls, top) && !NoneBetter(vs, ps, top)
  {
    var c, x := vs[|vs| - 1].0, -vs[|vs| - 1].1;
    if vs[0].1 <= 0.0 {
      ps := FooledFirstAtOnce(vs, c, x);
      pulls, top := 1, [c];
    } else {
      FooledFirstLater(vs, c, x);
      ps, pulls, top := Pair(c, 2.0 * vs[0].1 + x, vs[0].0, vs[0].1 + x / 2.0), 2, [c];
    }
  }

  lemma FooledFirstAtOnce(vs: Stream, c: int, x: real) returns (ps: Stream)
    requires IsDescending(vs) && OneScorePerId(vs) && vs != [] && vs[|vs| - 1] == (c, -x) && x > 0.0 && vs[0].1 <= 0.0
    ensures IsLeg(ps) && 1 <= |vs| + |ps| && StopsWith(vs, ps, 1, 1, [c]) && !NoneBetter(vs, ps, [c])
  {
    hide Lookup, StopsWith, Stops, Ranked, NotYet, After, NoneBetter;
    var f := FreshId(vs);
    ps := Pair(c, x, f, x / 2.0);
    PairLookups(c, x, f, x / 2.0);
    FirstPull(vs, ps);
    NotListed(vs[..0], c);
    StopsOnOne(vs, ps, After(vs, ps, 1), c);
    NotYetAfterNone(vs, ps);
    StopsFirst(vs, ps, 1, c);
    LookupAt(vs, |vs| - 1);
    NotListed(vs, f);
    assert ps[1] in ps;
    Beaten(vs, ps, c, f);
  }

  lemma FooledFirstLater(vs: Stream, c: int, x: real)
    requires IsDescending(vs) && OneScorePerId(vs) && vs != [] && vs[|vs| - 1] == (c, -x) && x > 0.0 && vs[0].1 > 0.0
    ensures var ps := Pair(c, 2.0 * vs[0].1 + x, vs[0].0, vs[0].1 + x / 2.0);
            IsLeg(ps) && StopsWith(vs, ps, 1, 2, [c]) && !NoneBetter(vs, ps, [c])
  {
    hide Lookup, StopsWith, Stops, Ranked, NotYet, After, NoneBetter;
    var (a, s) := vs[0];
    var ps := Pair(c, 2.0 * s + x, a, s + x / 2.0);
    PairLookups(c, 2.0 * s + x, a, s + x / 2.0);
    FirstPull(vs, ps);
    NotListed(vs[..0], c);
    NotListed(vs[..0], a);
    GoesOnAfterOne(vs, ps, After(vs, ps, 1), c);
    NotYetAfterOne(vs, ps);
    AfterStep(vs, ps, 1);
    StopsOnTwo(vs, ps, After(vs, ps, 2), c, a);
    StopsFirst(vs, ps, 2, c);
    LookupAt(vs, |vs| - 1);
    LookupAt(vs, 0);
    assert ps[1] in ps;
    Beaten(vs, ps, c, a);
  }

  /** Two descending legs, the second with a negative score: the merge returns 1 and candidate 2 is better. */
  lemma NegativeScoreMisleads()
    ensures var vs, ps := Pair(1, 4.0, 2, 2.0), Pair(2, 1.0, 1, -2.0);
            && IsLeg(vs) && IsDescending(ps) && OneScorePerId(ps) && StopsWith(vs, ps, 1, 2, [1]) && !NoneBetter(vs, ps, [1])
  {
    FooledSecondLater(Pair(2, 1.0, 1, -2.0), 1, 2.0);
  }

  /** A leg that lists candidate 1 a second time with a lower score: the merge returns 1 and candidate 2 is better. */
  lemma RepeatedIdMisleads()
    ensures var vs: Stream := [(1, 5.0), (2, 4.0), (1, 1.0)];
            && IsDescending(vs) && NoNegative(vs) && !OneScorePerId(vs) && IsLeg([])
            && StopsWith(vs, [], 1, 1, [1]) && !NoneBetter(vs, [], [1])
  {
    hide StopsWith, Stops, Ranked, NotYet, After, NoneBetter;
    var vs: Stream := [(1, 5.0), (2, 4.0), (1, 1.0)];
    FirstPull(vs, []);
    assert vs[..1] == [(1, 5.0)] && vs[..2] == [(1, 5.0), (2, 4.0)] && [(1, 5.0)][..0] == [];
    assert Lookup(vs[..1], 1) == Some(5.0) && Lookup(vs, 1) == Some(1.0) && Lookup(vs[..2], 2) == Some(4.0) == Lookup(vs, 2);
    StopsOnOne(vs, [], After(vs, [], 1), 1);
    NotYetAfterNone(vs, []);
    StopsFirst(vs, [], 1, 1);
    assert vs[1] in vs;
    Beaten(vs, [], 1, 2);
  }
}
