/** The in-memory corpus of bench/driver.py and its lazily built adjacency cache. */
module Corpora {
  import opened Sums
  import opened Wrappers

  datatype Entity = Entity(timestamp: int, chunk: string, embedding: seq<real>)

  datatype Query = Query(qid: int, embedding: seq<real>, timeRange: set<int>)

  type Edge = (int, int)

  /** One measured run of one query; wall-clock latency is left out. */
  datatype QuerySample = QuerySample(qid: int, k: nat, peakIntermediateRows: nat, corpusExamined: nat,
                                     corpusSize: nat, resultChunks: seq<string>, txnAtomic: bool)

  /** The targets of `src`, in edge order. */
  function Targets(edges: seq<Edge>, src: int): seq<int> {
    if edges == [] then []
    else
      var e := edges[|edges| - 1];
      Targets(edges[..|edges| - 1], src) + if e.0 == src then [e.1] else []
  }

  lemma {:induction false} TargetsMembers(edges: seq<Edge>, s: int, d: int)
    ensures d in Targets(edges, s) <==> (s, d) in edges
  {
    if edges == [] {
    } else {
      assert edges == edges[..|edges| - 1] + [edges[|edges| - 1]];
      TargetsMembers(edges[..|edges| - 1], s, d);
    }
  }

  /** `adj` lists the targets of every node that has any. */
  ghost predicate IsAdjacency(adj: map<int, seq<int>>, edges: seq<Edge>) {
    forall s :: if s in adj then adj[s] == Targets(edges, s) != [] else Targets(edges, s) == []
  }

  class Corpus {
    // the entity ids in the order of the dictionary
    const ids: seq<int>
    const entities: map<int, Entity>
    const edges: seq<Edge>
    var adj: Option<map<int, seq<int>>>

    ghost predicate Valid()
      reads this
    {
      && (forall i, j :: 0 <= i < j < |ids| ==> ids[i] != ids[j])
      && (forall i :: i in ids <==> i in entities)
      && (adj.Some? ==> IsAdjacency(adj.value, edges))
    }

    constructor (ids: seq<int>, entities: map<int, Entity>, edges: seq<Edge>)
      requires forall i, j :: 0 <= i < j < |ids| ==> ids[i] != ids[j]
      requires forall i :: i in ids <==> i in entities
      ensures Valid() && adj == None && this.ids == ids && this.entities == entities && this.edges == edges
    {
      this.ids, this.entities, this.edges, adj := ids, entities, edges, None;
    }

    /** Built on the first call, returned as it is on every later one. */
    method Adjacency() returns (result: map<int, seq<int>>)
      requires Valid()
      modifies this
      ensures Valid() && adj == Some(result) && IsAdjacency(result, edges)
      ensures old(adj).Some? ==> adj == old(adj)
    {
      if adj.None? {
        var built: map<int, seq<int>> := map[];
        for i := 0 to |edges|
          invariant IsAdjacency(built, edges[..i])
        {
          var (src, dst) := edges[i];
          assert edges[..i + 1][..i] == edges[..i];
          built := built[src := (if src in built then built[src] else []) + [dst]];
        }
        assert edges[..|edges|] == edges;
        adj := Some(built);
      }
      result := adj.value;
    }
  }

  /** `_l2_sq`: squared distance over the common prefix, as `zip` pairs the coordinates. */
  function L2Sq(a: seq<real>, b: seq<real>): real {
    if a == [] || b == [] then 0.0
    else (a[0] - b[0]) * (a[0] - b[0]) + L2Sq(a[1..], b[1..])
  }

  function SquaredGap(x: real, y: real): real {
    (x - y) * (x - y)
  }

  /** The squared differences of the coordinates both vectors have. */
  function Squares(a: seq<real>, b: seq<real>): (r: seq<real>)
    ensures |r| == if |a| <= |b| then |a| else |b|
    ensures forall i :: 0 <= i < |r| ==> r[i] == SquaredGap(a[i], b[i])
  {
    seq(if |a| <= |b| then |a| else |b|, i requires 0 <= i < |a| && i < |b| => SquaredGap(a[i], b[i]))
  }

  lemma {:induction false} DistanceIsSum(a: seq<real>, b: seq<real>)
    ensures L2Sq(a, b) == SumOf(Squares(a, b))
  {
    if a == [] || b == [] {
      assert Squares(a, b) == [];
    } else {
      DistanceIsSum(a[1..], b[1..]);
      FirstSquare(a, b);
      SumOfFront(SquaredGap(a[0], b[0]), Squares(a[1..], b[1..]));
    }
  }

  lemma FirstSquare(a: seq<real>, b: seq<real>)
    requires a != [] && b != []
    ensures Squares(a, b) == [SquaredGap(a[0], b[0])] + Squares(a[1..], b[1..])
  {
    hide SquaredGap;
  }

  lemma {:induction false} SumOfFront(x: real, es: seq<real>)
    ensures SumOf([x] + es) == x + SumOf(es)
  {
    if es == [] {
      assert [x] + es == [x] && [x][..0] == [];
    } else {
      SumOfFront(x, es[..|es| - 1]);
      assert ([x] + es)[..|es|] == [x] + es[..|es| - 1];
    }
  }

  function Distances(entities: map<int, Entity>, q: Query): map<int, real> {
    map e | e in entities :: L2Sq(entities[e].embedding, q.embedding)
  }

  /** The relational predicate on a reached target; a target that is no entity never qualifies. */
  predicate Qualifies(entities: map<int, Entity>, timeRange: set<int>, dst: int) {
    dst in entities && entities[dst].timestamp in timeRange
  }

  /** `d` is an entity of the time range, and an edge from one of `srcs` leads to it. */
  ghost predicate IsOffered(entities: map<int, Entity>, timeRange: set<int>, edges: seq<Edge>, srcs: seq<int>, d: int) {
    && d in entities && entities[d].timestamp in timeRange
    && exists e :: e in edges && e.0 in srcs && e.1 == d
  }

  lemma OfferedBy(entities: map<int, Entity>, timeRange: set<int>, edges: seq<Edge>, srcs: seq<int>, d: int)
    ensures IsOffered(entities, timeRange, edges, srcs, d)
       <==> Qualifies(entities, timeRange, d) && exists s :: s in srcs && d in Targets(edges, s)
  {
    if e :| e in edges && e.0 in srcs && e.1 == d {
      TargetsMembers(edges, e.0, d);
      assert (e.0, e.1) == e;
    }
    if s :| s in srcs && d in Targets(edges, s) {
      TargetsMembers(edges, s, d);
      assert (s, d).0 in srcs;
    }
  }

  function ChunksOf(entities: map<int, Entity>, ds: seq<int>): (r: seq<string>)
    requires forall i :: 0 <= i < |ds| ==> ds[i] in entities
    ensures |r| == |ds| && forall i :: 0 <= i < |ds| ==> r[i] == entities[ds[i]].chunk
  {
    seq(|ds|, i requires 0 <= i < |ds| => entities[ds[i]].chunk)
  }
}
