/** `build_adjacency` of bench/tjs_open_ref.py: the symmetric graph the push runs on. */
module AdjacencyBuild {
  import opened Collections
  import opened AscendingIds
  import opened Graph

  type Edge = (int, int)

  /** `u` and `v` are joined by an edge in either direction, inside the slice and no loop. */
  predicate Joined(edges: seq<Edge>, n: nat, u: int, v: int) {
    0 <= u < n && 0 <= v < n && u != v && ((u, v) in edges || (v, u) in edges)
  }

  /** The lists being filled: `lists[u]` names exactly the nodes joined to `u`, perhaps repeatedly. */
  ghost predicate Filled(lists: map<int, seq<int>>, edges: seq<Edge>, n: nat) {
    lists.Keys == UpTo(n) && forall u, v :: u in lists ==> (v in lists[u] <==> Joined(edges, n, u, v))
  }

  lemma FilledNext(lists: map<int, seq<int>>, edges: seq<Edge>, n: nat, e: Edge)
    requires Filled(lists, edges, n)
    ensures if 0 <= e.0 < n && 0 <= e.1 < n && e.0 != e.1
            then Filled(lists[e.0 := lists[e.0] + [e.1]][e.1 := lists[e.1] + [e.0]], edges + [e], n)
            else Filled(lists, edges + [e], n)
  {
  }

  /** Every list is ascending without repetition and names exactly the joined nodes; so the graph is symmetric and closed. */
  method BuildAdjacency(edges: seq<Edge>, n: nat) returns (adj: Adjacency)
    ensures adj.Keys == UpTo(n)
    ensures forall u :: u in adj ==> IsAscending(adj[u], set v | v in UpTo(n) && Joined(edges, n, u, v))
    ensures Closed(adj, UpTo(n))
  {
    hide UpTo;
    var lists: map<int, seq<int>> := map u | u in UpTo(n) :: [];
    for i := 0 to |edges|
      invariant Filled(lists, edges[..i], n)
    {
      var (s, d) := edges[i];
      FilledNext(lists, edges[..i], n, edges[i]);
      assert edges[..i + 1] == edges[..i] + [edges[i]];
      if 0 <= s < n && 0 <= d < n && s != d {
        lists := lists[s := lists[s] + [d]];
        lists := lists[d := lists[d] + [s]];
      }
    }
    assert edges[..|edges|] == edges;
    adj := map[];
    for k := 0 to n
      invariant adj.Keys == UpTo(k)
      invariant forall u :: u in adj ==> IsAscending(adj[u], set v | v in UpTo(n) && Joined(edges, n, u, v))
    {
      var ids := SortedIds(Elements(lists[k]));
      assert Elements(lists[k]) == set v | v in UpTo(n) && Joined(edges, n, k, v);
      adj := adj[k := ids];
    }
    forall u, v | u in UpTo(n) && v in Neighbours(adj, u) ensures v in UpTo(n) {
      assert IsAscending(adj[u], set w | w in UpTo(n) && Joined(edges, n, u, w));
    }
  }
}
