/**
 The FR bound of `nra_fr_merge` is tight: the merge stops exactly when no way the legs could go on can beat the
 answer it has.
 */
module NraTightness {
  import opened Wrappers
  import opened Sums
  import opened Sorting
  import opened NraMerge
  import NraSigns

  /**
   Leg `s'` looks like `s` to a merge that has pulled `i` items: it is a leg with the same items so far, it is
   used up if `s` is, and before the first pull it starts no higher.
   */
  ghost predicate Continues(s: Stream, i: nat, s': Stream)
    requires i <= |s|
  {
    && IsLeg(s') && i <= |s'| && s'[..i] == s[..i]
    && (i == |s| ==> s' == s)
    && (i == 0 && s' != [] ==> s != [] && s'[0].1 <= s[0].1)
  }

  /** No left-out id scores higher than one in the answer. */
  ghost predicate RightFor(vs: Stream, ps: Stream, top: seq<int>) {
    forall c, d :: c in top && d !in top ==> FullScore(vs, ps, c) >= FullScore(vs, ps, d)
  }

  /** However both legs go on, the answer is right. */
  ghost predicate AlwaysRight(vs: Stream, ps: Stream, at: Cursor, top: seq<int>)
    requires at.iv <= |vs| && at.ip <= |ps|
  {
    forall vs', ps' :: Continues(vs, at.iv, vs') && Continues(ps, at.ip, ps') ==> RightFor(vs', ps', top)
  }

  /** What is known stays, and what is not is at most the ceiling. */
  lemma ContinuationBounds(s: Stream, i: nat, s': Stream, c: int)
    requires IsLeg(s) && i <= |s| && Continues(s, i, s')
    ensures Value(Lookup(s[..i], c)) <= Value(Lookup(s', c))
    ensures Value(Lookup(s', c)) <= if Lookup(s[..i], c).Some? then Value(Lookup(s[..i], c)) else Ceiling(s, i)
  {
    hide Lookup;
    LegBounds(s', i, c);
  }

  lemma ScoresContinue(vs: Stream, ps: Stream, at: Cursor, vs': Stream, ps': Stream, c: int)
    requires IsLeg(vs) && IsLeg(ps) && at.iv <= |vs| && at.ip <= |ps|
    requires Continues(vs, at.iv, vs') && Continues(ps, at.ip, ps')
    ensures var p := Known(vs, ps, at, c);
            Worst(p) <= FullScore(vs', ps', c) <= Best(p, Ceiling(vs, at.iv), Ceiling(ps, at.ip))
  {
    hide Continues, Lookup;
    ContinuationBounds(vs, at.iv, vs', c);
    ContinuationBounds(ps, at.ip, ps', c);
  }

  /** Some continuation gives `c` as much as the ceiling allows, and nothing more to anyone else. */
  lemma BestCase(s: Stream, i: nat, c: int) returns (s': Stream)
    requires IsLeg(s) && i <= |s|
    ensures Continues(s, i, s')
    ensures Value(Lookup(s', c)) == if Lookup(s[..i], c).Some? then Value(Lookup(s[..i], c)) else Ceiling(s, i)
    ensures forall d :: d != c ==> Lookup(s', d) == Lookup(s[..i], d)
  {
    if i == |s| {
      s' := s;
      assert s[..i] == s;
    } else if Lookup(s[..i], c).Some? {
      s' := s[..i];
    } else {
      s' := s[..i] + [(c, Ceiling(s, i))];
      NewItem(s, i, c);
      assert s'[..|s'| - 1] == s[..i];
    }
  }

  lemma NewItem(s: Stream, i: nat, c: int)
    requires IsLeg(s) && i < |s| && Lookup(s[..i], c).None?
    ensures Continues(s, i, s[..i] + [(c, Ceiling(s, i))])
  {
    var s' := s[..i] + [(c, Ceiling(s, i))];
    forall j | 0 <= j < i ensures s'[j].0 != c && s'[j].1 >= Ceiling(s, i) {
      LookupAt(s[..i], j);
    }
    hide Lookup;
    assert s'[..i] == s[..i];
  }

  /** So its full score is its B, while everyone else keeps W. */
  lemma BestAttained(vs: Stream, ps: Stream, at: Cursor, c: int) returns (vs': Stream, ps': Stream)
    requires IsLeg(vs) && IsLeg(ps) && at.iv <= |vs| && at.ip <= |ps|
    ensures Continues(vs, at.iv, vs') && Continues(ps, at.ip, ps')
    ensures FullScore(vs', ps', c) == Best(Known(vs, ps, at, c), Ceiling(vs, at.iv), Ceiling(ps, at.ip))
    ensures forall d :: d != c ==> FullScore(vs', ps', d) == Worst(Known(vs, ps, at, d))
  {
    hide Continues, Lookup;
    vs' := BestCase(vs, at.iv, c);
    ps' := BestCase(ps, at.ip, c);
  }

  /** A candidate outside whose B exceeds the k-th W can still win. */
  lemma StrangerWins(vs: Stream, ps: Stream, at: Cursor, top: seq<int>, kth: int, c: int)
    requires IsLeg(vs) && IsLeg(ps) && at.iv <= |vs| && at.ip <= |ps| && kth in top && c !in top
    requires Best(Known(vs, ps, at, c), Ceiling(vs, at.iv), Ceiling(ps, at.ip)) > Worst(Known(vs, ps, at, kth))
    ensures !AlwaysRight(vs, ps, at, top)
  {
    hide Continues, FullScore, Known;
    var vs', ps' := BestAttained(vs, ps, at, c);
    assert FullScore(vs', ps', kth) < FullScore(vs', ps', c);
    assert !RightFor(vs', ps', top);
  }

  lemma UnmetId(vs: Stream, ps: Stream, at: Cursor) returns (f: int)
    requires at.iv <= |vs| && at.ip <= |ps|
    ensures Known(vs, ps, at, f) == Partial(None, None)
  {
    var a := NraSigns.FreshId(vs);
    var b := NraSigns.FreshId(ps);
    f := if a >= b then a else b;
    NraSigns.NotListed(vs[..at.iv], f);
    NraSigns.NotListed(ps[..at.ip], f);
  }

  /**
   On legs, after any number of pulls: the test holds if and only if k candidates have been met and the k best of
   them by W are a right answer however the legs go on.
   */
  lemma StopsIff(vs: Stream, ps: Stream, k: nat, t: nat)
    requires IsLeg(vs) && IsLeg(ps) && k > 0 && t <= |vs| + |ps|
    ensures var at := After(vs, ps, t);
            Stops(vs, ps, k, at)
            <==> |at.order| >= k && |Ranked(vs, ps, at)| >= k && AlwaysRight(vs, ps, at, Ranked(vs, ps, at)[..k])
  {
    hide After, FullScore, Known, IsLeg, Ranked, Ceiling;
    var at := After(vs, ps, t);
    OrderIsSeen(vs, ps, t);
    RankedFacts(vs, ps, at);
    if Stops(vs, ps, k, at) {
      StopIsRight(vs, ps, k, at);
    } else if |at.order| >= k {
      NoStopIsRisky(vs, ps, k, at);
    }
  }

  lemma StopIsRight(vs: Stream, ps: Stream, k: nat, at: Cursor)
    requires IsLeg(vs) && IsLeg(ps) && k > 0 && at.iv <= |vs| && at.ip <= |ps| && Distinct(at.order)
    requires Stops(vs, ps, k, at) && forall c :: c in at.order <==> Seen(Known(vs, ps, at, c))
    ensures |Ranked(vs, ps, at)| >= k && AlwaysRight(vs, ps, at, Ranked(vs, ps, at)[..k])
  {
    RankedFacts(vs, ps, at);
    hide FullScore, Known, Ranked, Ceiling, Continues, IsLeg;
    var top, kth := Ranked(vs, ps, at)[..k], Get(Worsts(vs, ps, at), Ranked(vs, ps, at)[k - 1]);
    forall vs', ps' | Continues(vs, at.iv, vs') && Continues(ps, at.ip, ps') ensures RightFor(vs', ps', top) {
      forall c ensures c in top ==> FullScore(vs', ps', c) >= kth
               ensures c !in top ==> FullScore(vs', ps', c) <= kth
      {
        ScoresContinue(vs, ps, at, vs', ps', c);
        ScoreAgainstKth(vs, ps, k, at, c);
      }
    }
  }

  lemma NoStopIsRisky(vs: Stream, ps: Stream, k: nat, at: Cursor)
    requires IsLeg(vs) && IsLeg(ps) && 0 < k <= |at.order| && at.iv <= |vs| && at.ip <= |ps| && Distinct(at.order)
    requires !Stops(vs, ps, k, at) && forall c :: c in at.order <==> Seen(Known(vs, ps, at, c))
    ensures |Ranked(vs, ps, at)| >= k && !AlwaysRight(vs, ps, at, Ranked(vs, ps, at)[..k])
  {
    hide FullScore, Known, Ranked, Ceiling, AlwaysRight, IsLeg;
    RankedFacts(vs, ps, at);
    var ranked := Ranked(vs, ps, at);
    var top, last := ranked[..k], ranked[k - 1];
    assert top[k - 1] == last && last in top;
    assert last in ranked && Get(Worsts(vs, ps, at), last) == Worst(Known(vs, ps, at, last));
    ScoreBounds(vs, ps, at, last);
    if i :| k <= i < |ranked| && Best(Known(vs, ps, at, ranked[i]), Ceiling(vs, at.iv), Ceiling(ps, at.ip))
                                 > Worst(Known(vs, ps, at, last)) {
      StrangerWins(vs, ps, at, top, last, ranked[i]);
    } else {
      var f := UnmetId(vs, ps, at);
      assert f !in at.order && f !in ranked;
      assert forall j :: 0 <= j < k ==> top[j] in ranked;
      StrangerWins(vs, ps, at, top, last, f);
    }
  }
}
