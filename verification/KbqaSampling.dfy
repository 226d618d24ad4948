/** `sample_queries` of bench/wikidata_h2h.py: every sampled query has enough candidates. */
module KbqaSampling {
  import opened Collections
  import opened Wrappers
  import opened AscendingIds
  import opened Reachability
  import opened TypedSearch
  import opened KbqaRanking

  ghost function WithType(s: set<int>, types: Types, t: int): set<int> {
    set e | e in s && HasType(types, Some(t), e)
  }

  /** `t` occurs among the p-reach of `x`, on at least `minCandidates` nodes. */
  ghost predicate IsGood(adj: TypedAdjacency, types: Types, x: int, p: int, t: int, hops: int, minCandidates: int) {
    var cand := CandidateSet(adj, types, x, Some(p), Some(t), hops);
    cand != {} && |cand| >= minCandidates
  }

  ghost predicate HasProperty(adj: TypedAdjacency, x: int, p: int) {
    exists i :: 0 <= i < |OutEdges(adj, x)| && OutEdges(adj, x)[i].0 == p
  }

  /** The choice for an anchor: its first property with a good type, and the least good type of it. */
  ghost predicate IsChoice(adj: TypedAdjacency, types: Types, q: KbqaQuery, hops: int, minCandidates: int) {
    && q.x in adj && q.p.Some? && q.t.Some? && HasProperty(adj, q.x, q.p.value)
    && IsGood(adj, types, q.x, q.p.value, q.t.value, hops, minCandidates)
    && (forall t :: t < q.t.value ==> !IsGood(adj, types, q.x, q.p.value, t, hops, minCandidates))
    && (forall p, t :: p < q.p.value && HasProperty(adj, q.x, p) ==> !IsGood(adj, types, q.x, p, t, hops, minCandidates))
  }

  ghost predicate NoChoice(adj: TypedAdjacency, types: Types, x: int, hops: int, minCandidates: int) {
    forall p, t :: HasProperty(adj, x, p) ==> !IsGood(adj, types, x, p, t, hops, minCandidates)
  }

  /** The type counts of the nodes in `s`. */
  ghost predicate Counts(tcount: map<int, nat>, s: set<int>, types: Types) {
    forall t :: if t in tcount then WithType(s, types, t) != {} && tcount[t] == |WithType(s, types, t)|
                else WithType(s, types, t) == {}
  }

  /** One node adds one to each of its types. */
  method AddTypes(tcount: map<int, nat>, ghost s: set<int>, types: Types, e: int) returns (tcount': map<int, nat>)
    requires Counts(tcount, s, types) && e !in s
    ensures Counts(tcount', s + {e}, types)
  {
    tcount' := tcount;
    var ts := if e in types then types[e] else {};
    var rest := ts;
    while rest != {}
      invariant rest <= ts
      invariant forall t :: t in ts - rest ==> t in tcount' && tcount'[t] == |WithType(s, types, t)| + 1
      invariant forall t :: t !in ts - rest ==> (t in tcount' <==> t in tcount) && (t in tcount ==> tcount'[t] == tcount[t])
      decreases rest
    {
      var t := PopAny(rest);
      tcount' := tcount'[t := (if t in tcount' then tcount'[t] else 0) + 1];
      rest := rest - {t};
    }
    forall t ensures if t in tcount' then WithType(s + {e}, types, t) != {} && tcount'[t] == |WithType(s + {e}, types, t)|
                     else WithType(s + {e}, types, t) == {}
    {
      WithTypeNext(s, types, e, t);
    }
  }

  lemma WithTypeNext(s: set<int>, types: Types, e: int, t: int)
    requires e !in s
    ensures WithType(s + {e}, types, t) == WithType(s, types, t) + if e in types && t in types[e] then {e} else {}
    ensures |WithType(s + {e}, types, t)| == |WithType(s, types, t)| + if e in types && t in types[e] then 1 else 0
  {
  }

  method CountTypes(reach: set<int>, types: Types) returns (tcount: map<int, nat>)
    ensures Counts(tcount, reach, types)
  {
    hide Counts;
    tcount := map[];
    NothingCounted(types);
    var rest := reach;
    while rest != {}
      invariant rest <= reach && Counts(tcount, reach - rest, types)
      decreases rest
    {
      var e := PopAny(rest);
      tcount := AddTypes(tcount, reach - rest, types, e);
      assert reach - (rest - {e}) == (reach - rest) + {e};
      rest := rest - {e};
    }
    assert reach - {} == reach;
  }

  lemma NothingCounted(types: Types)
    ensures forall s: set<int> :: s == {} ==> Counts(map[], s, types)
  {
  }

  /** The least good type for a property, if there is one. */
  method GoodType(adj: TypedAdjacency, types: Types, x: int, p: int, hops: int, minCandidates: int) returns (best: Option<int>)
    ensures best.Some? ==> IsGood(adj, types, x, p, best.value, hops, minCandidates)
                           && forall t :: t < best.value ==> !IsGood(adj, types, x, p, t, hops, minCandidates)
    ensures best.None? ==> forall t :: !IsGood(adj, types, x, p, t, hops, minCandidates)
  {
    var reach := TypedReach(adj, x, Some(p), hops);
    var tcount := CountTypes(reach, types);
    hide Ball, HasType, TypedSuccessors;
    forall t ensures IsGood(adj, types, x, p, t, hops, minCandidates) <==> t in tcount && tcount[t] >= minCandidates {
      assert CandidateSet(adj, types, x, Some(p), Some(t), hops) == WithType(reach, types, t);
    }
    hide IsGood;
    var good := SortedIds(set t | t in tcount && tcount[t] >= minCandidates);
    forall t | IsGood(adj, types, x, p, t, hops, minCandidates) ensures good != [] && good[0] <= t {
      assert t in good;
      var j :| 0 <= j < |good| && good[j] == t;
    }
    if good == [] {
      best := None;
    } else {
      best := Some(good[0]);
      assert good[0] in good;
    }
  }

  /** The anchor's properties in ascending order, up to the first with a good type. */
  method ChooseFor(adj: TypedAdjacency, types: Types, x: int, hops: int, minCandidates: int) returns (chosen: Option<KbqaQuery>)
    requires x in adj
    ensures chosen.Some? ==> chosen.value.x == x && IsChoice(adj, types, chosen.value, hops, minCandidates)
    ensures chosen.None? ==> NoChoice(adj, types, x, hops, minCandidates)
  {
    hide IsGood;
    var named := set e | e in adj[x] :: e.0;
    var props := SortedIds(named);
    forall p ensures p in props <==> HasProperty(adj, x, p) {
      if p in props {
        assert p in named;
        var e :| e in adj[x] && e.0 == p;
        var i :| 0 <= i < |adj[x]| && adj[x][i] == e;
        assert OutEdges(adj, x)[i].0 == p;
      }
      if HasProperty(adj, x, p) {
        var i :| 0 <= i < |OutEdges(adj, x)| && OutEdges(adj, x)[i].0 == p;
        assert adj[x][i] in adj[x] && p in named;
      }
    }
    for i := 0 to |props|
      invariant forall j, t :: 0 <= j < i ==> !IsGood(adj, types, x, props[j], t, hops, minCandidates)
    {
      var best := GoodType(adj, types, x, props[i], hops, minCandidates);
      if best.Some? {
        assert props[i] in props;
        chosen := Some(KbqaQuery(x, Some(props[i]), best));
        forall p, t | p < props[i] && HasProperty(adj, x, p) ensures !IsGood(adj, types, x, p, t, hops, minCandidates) {
          assert p in props;
          var j :| 0 <= j < |props| && props[j] == p;
        }
        return;
      }
    }
    chosen := None;
    forall p, t | HasProperty(adj, x, p) ensures !IsGood(adj, types, x, p, t, hops, minCandidates) {
      assert p in props;
      var j :| 0 <= j < |props| && props[j] == p;
    }
  }

  /** The anchors that have a choice, in the drawn order. */
  ghost function Choosers(adj: TypedAdjacency, types: Types, order: seq<int>, hops: int, minCandidates: int): (r: seq<int>)
    ensures |r| <= |order|
  {
    if order == [] then []
    else
      var rest := Choosers(adj, types, order[..|order| - 1], hops, minCandidates);
      var x := order[|order| - 1];
      if NoChoice(adj, types, x, hops, minCandidates) then rest else rest + [x]
  }

  function Anchors(queries: seq<KbqaQuery>): (r: seq<int>)
    ensures |r| == |queries| && forall i :: 0 <= i < |r| ==> r[i] == queries[i].x
  {
    seq(|queries|, i requires 0 <= i < |queries| => queries[i].x)
  }

  lemma ChoiceIsChoice(adj: TypedAdjacency, types: Types, q: KbqaQuery, hops: int, minCandidates: int)
    requires IsChoice(adj, types, q, hops, minCandidates)
    ensures !NoChoice(adj, types, q.x, hops, minCandidates)
  {
  }

  lemma ChoosersNext(adj: TypedAdjacency, types: Types, order: seq<int>, n: nat, hops: int, minCandidates: int)
    requires n < |order|
    ensures var before := Choosers(adj, types, order[..n], hops, minCandidates);
            Choosers(adj, types, order[..n + 1], hops, minCandidates)
              == if NoChoice(adj, types, order[n], hops, minCandidates) then before else before + [order[n]]
  {
    assert order[..n + 1][..n] == order[..n];
  }

  /**
   The choices of the first `examined` anchors that have one; the walk goes on until there are `q` of them,
   and examines at least one anchor.
   */
  method SampleQueries(adj: TypedAdjacency, types: Types, order: seq<int>, q: int, hops: int, minCandidates: int)
    returns (queries: seq<KbqaQuery>, ghost examined: nat)
    requires forall x :: x in order <==> x in adj
    ensures forall i :: 0 <= i < |queries| ==> IsChoice(adj, types, queries[i], hops, minCandidates)
    ensures examined <= |order| && Anchors(queries) == Choosers(adj, types, order[..examined], hops, minCandidates)
    ensures examined < |order| ==> |queries| >= q
    ensures forall m :: 0 < m < examined ==> |Choosers(adj, types, order[..m], hops, minCandidates)| < q
    ensures |queries| <= if q > 1 then q else 1
  {
    hide IsChoice, NoChoice, Choosers;
    queries, examined := [], 0;
    NoChoosers(adj, types, order, hops, minCandidates);
    for n := 0 to |order|
      invariant examined == n && Anchors(queries) == Choosers(adj, types, order[..n], hops, minCandidates)
      invariant forall i :: 0 <= i < |queries| ==> IsChoice(adj, types, queries[i], hops, minCandidates)
      invariant forall m :: 0 < m <= n ==> |Choosers(adj, types, order[..m], hops, minCandidates)| < q
      invariant n > 0 ==> |queries| < q
    {
      assert order[n] in order;
      ghost var before := queries;
      var chosen := ChooseFor(adj, types, order[n], hops, minCandidates);
      ChoosersNext(adj, types, order, n, hops, minCandidates);
      if chosen.Some? {
        ChoiceIsChoice(adj, types, chosen.value, hops, minCandidates);
        queries := queries + [chosen.value];
        assert Anchors(queries) == Anchors(before) + [order[n]];
      }
      examined := n + 1;
      if |queries| >= q {
        break;
      }
    }
  }

  lemma NoChoosers(adj: TypedAdjacency, types: Types, order: seq<int>, hops: int, minCandidates: int)
    ensures Choosers(adj, types, order[..0], hops, minCandidates) == [] == Anchors([])
  {
  }
}
