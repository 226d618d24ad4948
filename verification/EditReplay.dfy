/**
 The edit replay of bench/wikidata_consistency.py: one transaction per edit against one
 commit per leg, and what a reader sees after every commit.
 */
module EditReplay {

  datatype Edit = Edit(entity: int, rev: int)

  /** The revision each store holds for an entity. */
  datatype Legs = Legs(vector: int, graph: int, relational: int)

  const BASELINE_REV := 0

  /** `torn`: the three legs do not agree. */
  predicate Torn(l: Legs) {
    !(l.vector == l.graph == l.relational)
  }

  function Whole(rev: int): Legs {
    Legs(rev, rev, rev)
  }

  /** The revision of an entity after the given edits. */
  function CurrentRev(edits: seq<Edit>, entity: int): int {
    if edits == [] then BASELINE_REV
    else if edits[|edits| - 1].entity == entity then edits[|edits| - 1].rev
    else CurrentRev(edits[..|edits| - 1], entity)
  }

  /** How many edits change the revision of their entity. */
  function Changes(edits: seq<Edit>): nat {
    if edits == [] then 0
    else
      var init, e := edits[..|edits| - 1], edits[|edits| - 1];
      Changes(init) + if e.rev != CurrentRev(init, e.entity) then 1 else 0
  }

  /** Between edits every entity is whole, at its current revision. */
  ghost predicate Settled(state: map<int, Legs>, edits: seq<Edit>) {
    forall ent :: ent in state ==> state[ent] == Whole(CurrentRev(edits, ent))
  }

  /** `_commit_observations`: the states a reader sees while one edit is applied. */
  method CommitObservations(state: map<int, Legs>, edit: Edit, atomic: bool)
    returns (state': map<int, Legs>, observed: seq<Legs>)
    requires edit.entity in state
    ensures state' == state[edit.entity := Whole(edit.rev)]
    ensures var l := state[edit.entity];
            observed == if atomic then [Whole(edit.rev)]
                        else [l.(vector := edit.rev), l.(vector := edit.rev, graph := edit.rev), Whole(edit.rev)]
  {
    var legs := state[edit.entity];
    observed := [];
    legs := legs.(vector := edit.rev);
    if !atomic {
      observed := observed + [legs];
    }
    legs := legs.(graph := edit.rev);
    if !atomic {
      observed := observed + [legs];
    }
    legs := legs.(relational := edit.rev);
    observed := observed + [legs];
    state' := state[edit.entity := legs];
  }

  /**
   The atomic replay never shows a torn state.  The leg-by-leg replay shows exactly two for every
   edit that changes its entity's revision.  Both end in the same state.
   */
  method Simulate(edits: seq<Edit>, atomic: bool) returns (observations: nat, torn: nat, state: map<int, Legs>)
    ensures observations == if atomic then |edits| else 3 * |edits|
    ensures torn == if atomic then 0 else 2 * Changes(edits)
    ensures state.Keys == (set e | e in edits :: e.entity) && Settled(state, edits)
  {
    var entities := set e | e in edits :: e.entity;
    state := map ent | ent in entities :: Whole(BASELINE_REV);
    observations, torn := 0, 0;
    for n := 0 to |edits|
      invariant observations == if atomic then n else 3 * n
      invariant torn == if atomic then 0 else 2 * Changes(edits[..n])
      invariant state.Keys == (set e | e in edits :: e.entity) && Settled(state, edits[..n])
    {
      var edit := edits[n];
      assert edits[..n + 1][..n] == edits[..n];
      var observed;
      ghost var before := state;
      state, observed := CommitObservations(state, edit, atomic);
      ghost var tornBefore := torn;
      for i := 0 to |observed|
        invariant observations == (if atomic then n else 3 * n) + i
        invariant torn == tornBefore + TornAmong(observed[..i])
      {
        assert observed[..i + 1][..i] == observed[..i];
        observations := observations + 1;
        if Torn(observed[i]) {
          torn := torn + 1;
        }
      }
      assert observed[..|observed|] == observed;
      TornWhileCommitting(before[edit.entity], edit.rev, observed, atomic);
    }
    assert edits[..|edits|] == edits;
  }

  function TornAmong(ls: seq<Legs>): nat {
    if ls == [] then 0 else TornAmong(ls[..|ls| - 1]) + if Torn(ls[|ls| - 1]) then 1 else 0
  }

  /** A whole entity is torn on both intermediate commits of a changing edit, and on no other. */
  lemma TornWhileCommitting(l: Legs, rev: int, observed: seq<Legs>, atomic: bool)
    requires !Torn(l)
    requires observed == if atomic then [Whole(rev)]
                         else [l.(vector := rev), l.(vector := rev, graph := rev), Whole(rev)]
    ensures TornAmong(observed) == if atomic || rev == l.vector then 0 else 2
  {
    if !atomic {
      var a, b, c := observed[0], observed[1], observed[2];
      assert observed[..2] == [a, b] && [a, b][..1] == [a];
      assert TornAmong([a]) == if Torn(a) then 1 else 0;
    }
  }

  /** `synthetic_edits`: the drawn entities, each edit raising its entity's revision by one. */
  method SyntheticEdits(draws: seq<int>) returns (edits: seq<Edit>)
    ensures |edits| == |draws| && Changes(edits) == |edits|
    ensures forall i :: 0 <= i < |edits| ==>
              edits[i].entity == draws[i] && edits[i].rev == CurrentRev(edits[..i], draws[i]) + 1
    ensures forall i :: 0 <= i < |edits| ==> edits[i].rev == multiset(draws[..i + 1])[draws[i]]
  {
    edits := [];
    var revOf: map<int, int> := map[];
    for n := 0 to |draws|
      invariant |edits| == n && Changes(edits) == n
      invariant forall ent :: (if ent in revOf then revOf[ent] else BASELINE_REV) == CurrentRev(edits, ent)
      invariant forall i :: 0 <= i < n ==>
                  edits[i].entity == draws[i] && edits[i].rev == CurrentRev(edits[..i], draws[i]) + 1
    {
      var ent := draws[n];
      var rev := (if ent in revOf then revOf[ent] else BASELINE_REV) + 1;
      ghost var before := edits;
      revOf := revOf[ent := rev];
      edits := edits + [Edit(ent, rev)];
      assert edits[..n] == before;
      assert forall i :: 0 <= i < n ==> edits[..i] == before[..i];
    }
    RevsAreCounts(edits, draws);
  }

  /** How often `x` was drawn, after one more draw. */
  lemma OneMoreDraw(draws: seq<int>, i: nat, x: int)
    requires i < |draws|
    ensures multiset(draws[..i + 1])[x] == multiset(draws[..i])[x] + if draws[i] == x then 1 else 0
  {
    assert draws[..i + 1] == draws[..i] + [draws[i]];
  }

  lemma RevsAreCounts(edits: seq<Edit>, draws: seq<int>)
    requires |edits| == |draws|
    requires forall i :: 0 <= i < |edits| ==>
               edits[i].entity == draws[i] && edits[i].rev == CurrentRev(edits[..i], draws[i]) + 1
    ensures forall i :: 0 <= i < |edits| ==> edits[i].rev == multiset(draws[..i + 1])[draws[i]]
  {
    hide CurrentRev;
    forall i | 0 <= i < |edits| ensures edits[i].rev == multiset(draws[..i + 1])[draws[i]] {
      RevIsCount(edits, draws, i, draws[i]);
      OneMoreDraw(draws, i, draws[i]);
    }
  }

  /** Starting from no revision, an entity's revision is the number of times it was drawn. */
  lemma {:induction false} RevIsCount(edits: seq<Edit>, draws: seq<int>, n: nat, ent: int)
    requires n <= |edits| == |draws|
    requires forall i :: 0 <= i < |edits| ==>
               edits[i].entity == draws[i] && edits[i].rev == CurrentRev(edits[..i], draws[i]) + 1
    ensures CurrentRev(edits[..n], ent) == multiset(draws[..n])[ent]
  {
    if n > 0 {
      RevIsCount(edits, draws, n - 1, ent);
      OneMoreDraw(draws, n - 1, ent);
      assert edits[..n][..n - 1] == edits[..n - 1] && edits[..n][n - 1] == edits[n - 1];
      if edits[n - 1].entity == ent {
        assert edits[n - 1].rev == CurrentRev(edits[..n - 1], draws[n - 1]) + 1;
      }
    } else {
    }
  }
}
