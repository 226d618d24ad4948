/**
 `MultiStore.write` and the first scenario of bench/wiki_consistency.py: three stores written
 one after the other, some writes cut short.
 */
module StoreWrites {
  import opened Collections
  import opened Wrappers

  predicate Torn(legs: (int, int, int)) {
    !(legs.0 == legs.1 == legs.2)
  }

  class MultiStore {
    // the graph store has the target nodes 0 .. 2m-1; version v of entity i is a link to node 2i + v
    const m: nat
    var milvus: map<int, int>
    var neo4j: map<int, int>
    var pg: map<int, int>

    /** `setup`: version 0 of entities 0 .. m-1 in every store. */
    constructor (m: nat)
      ensures this.m == m && milvus == pg == Versions(m, 0, {}) && neo4j == Links(m, 0, {})
    {
      this.m := m;
      milvus, neo4j, pg := Versions(m, 0, {}), Links(m, 0, {}), Versions(m, 0, {});
    }

    /** What three reads return for an entity; a store that has nothing answers -1. */
    function Read(i: int): (int, int, int)
      reads this
    {
      (if i in milvus then milvus[i] else -1, if i in neo4j then neo4j[i] - 2 * i else -1, if i in pg then pg[i] else -1)
    }

    predicate HasTarget(i: int, v: int) {
      0 <= 2 * i + v < 2 * m
    }

    /**
     A write stops after the first or second store if told to; nothing is undone.  The first store inserts a
     missing entity, the other two only change one they have, and the link to a version without a target node
     is removed and not replaced.  From a state that is not torn, a write tears exactly if it is cut short and
     changes the version.
     */
    method Write(i: int, v: int, injectAfter: Option<int>)
      modifies this
      ensures milvus == old(milvus)[i := v]
      ensures neo4j == if injectAfter == Some(1) || i !in old(neo4j) then old(neo4j)
                       else if 0 <= 2 * i + v < 2 * m then old(neo4j)[i := 2 * i + v] else old(neo4j) - {i}
      ensures pg == if injectAfter == Some(1) || injectAfter == Some(2) || i !in old(pg) then old(pg)
                    else old(pg)[i := v]
      ensures forall j :: j != i ==> Read(j) == old(Read(j))
      ensures Read(i).0 == v && (i !in neo4j ==> Read(i).1 == -1) && (i !in pg ==> Read(i).2 == -1)
      ensures i in old(neo4j) && i in old(pg) && HasTarget(i, v) && !old(Torn(Read(i))) ==>
                (Torn(Read(i)) <==> (injectAfter == Some(1) || injectAfter == Some(2)) && v != old(Read(i)).0)
    {
      milvus := milvus[i := v];
      if injectAfter == Some(1) {
        return;
      }
      if i in neo4j {
        neo4j := neo4j - {i};
        if HasTarget(i, v) {
          neo4j := neo4j[i := 2 * i + v];
        }
      }
      if injectAfter == Some(2) {
        return;
      }
      if i in pg {
        pg := pg[i := v];
      }
    }
  }

  /** The versions of one store when the writes of entities below `i` have run, `skipped` ones not reaching it. */
  function Versions(m: nat, i: int, skipped: set<int>): map<int, int> {
    map j | j in UpTo(m) :: if j < i && j !in skipped then 1 else 0
  }

  /** The same as links to target nodes. */
  function Links(m: nat, i: int, skipped: set<int>): map<int, int> {
    map j | j in UpTo(m) :: 2 * j + if j < i && j !in skipped then 1 else 0
  }

  lemma NextVersion(m: nat, i: nat, skipped: set<int>)
    requires i < m
    ensures Versions(m, i + 1, skipped) == if i in skipped then Versions(m, i, skipped) else Versions(m, i, skipped)[i := 1]
    ensures Links(m, i + 1, skipped) == if i in skipped then Links(m, i, skipped) else Links(m, i, skipped)[i := 2 * i + 1]
    ensures i in Versions(m, i, skipped) && i in Links(m, i, skipped)
  {
  }

  /** The writes of the entities below `i` have run. */
  ghost predicate Written(store: MultiStore, m: nat, i: nat, injected: set<int>)
    reads store
  {
    && store.m == m && store.milvus == Versions(m, i, {}) && store.pg == Versions(m, i, injected)
    && store.neo4j == Links(m, i, injected)
  }

  method WriteNext(store: MultiStore, m: nat, i: nat, injected: set<int>)
    requires i < m && Written(store, m, i, injected)
    modifies store
    ensures Written(store, m, i + 1, injected)
  {
    hide Versions, Links, Torn, MultiStore.Read;
    NextVersion(m, i, {});
    NextVersion(m, i, injected);
    store.Write(i, 1, if i in injected then Some(1) else None);
  }

  /** The writes of `scenario1`: version 1 everywhere, the injected ones stopped after the first store. */
  method WriteAll(m: nat, injected: set<int>) returns (store: MultiStore)
    ensures fresh(store)
    ensures forall i :: 0 <= i < m ==> store.Read(i) == if i in injected then (1, 0, 0) else (1, 1, 1)
  {
    store := new MultiStore(m);
    assert Written(store, m, 0, injected);
    for i := 0 to m
      invariant fresh(store) && Written(store, m, i, injected)
    {
      WriteNext(store, m, i, injected);
    }
  }

  /** Counts the torn entities of a store. */
  method CountTorn(store: MultiStore, m: nat) returns (torn: nat)
    ensures torn == |set i | i in UpTo(m) && Torn(store.Read(i))|
  {
    hide UpTo;
    torn := 0;
    ghost var counted: set<int> := {};
    for i := 0 to m
      invariant torn == |counted|
      invariant forall j :: j in counted <==> 0 <= j < i && Torn(store.Read(j))
    {
      if Torn(store.Read(i)) {
        torn := torn + 1;
        counted := counted + {i as int};
      }
    }
    assert counted == set i | i in UpTo(m) && Torn(store.Read(i));
  }

  /** The multi-store half of `scenario1`: the torn entities are exactly those whose write was cut short. */
  method Scenario1(m: nat, injected: set<int>) returns (store: MultiStore, torn: nat)
    requires injected <= UpTo(m)
    ensures fresh(store)
    ensures forall i :: 0 <= i < m ==> (Torn(store.Read(i)) <==> i in injected)
    ensures torn == |injected|
  {
    store := WriteAll(m, injected);
    torn := CountTorn(store, m);
    assert (set i | i in UpTo(m) && Torn(store.Read(i))) == injected;
  }
}
