/** `sorted` on a set of ids. */
module AscendingIds {
  import opened Collections
  import opened Sorting

  function IdOrder(): (int, int) -> bool {
    (a: int, b: int) => a <= b
  }

  /** `ids` lists the elements of `s` in ascending order. */
  ghost predicate IsAscending(ids: seq<int>, s: set<int>) {
    && (forall i, j :: 0 <= i < j < |ids| ==> ids[i] < ids[j])
    && (forall v :: v in ids <==> v in s)
  }

  lemma NoIdsNoElements(ids: seq<int>, s: set<int>)
    requires IsAscending(ids, s)
    ensures ids == [] <==> s == {}
  {
    if ids != [] {
      assert ids[0] in ids;
    } else {
      assert forall v :: v in s ==> v in ids;
      assert s == {};
    }
  }

  lemma {:induction false} AscendingUnique(a: seq<int>, b: seq<int>, s: set<int>)
    requires IsAscending(a, s) && IsAscending(b, s)
    ensures a == b
    decreases |a|
  {
    NoIdsNoElements(a, s);
    NoIdsNoElements(b, s);
    if a == [] {
    } else {
      var x := a[|a| - 1];
      assert x in s && x in b;
      var y := b[|b| - 1];
      assert y in s && y in a;
      assert x == y;
      var a', b' := a[..|a| - 1], b[..|b| - 1];
      assert a == a' + [x] && b == b' + [y];
      assert IsAscending(a', s - {x}) && IsAscending(b', s - {x});
      AscendingUnique(a', b', s - {x});
    }
  }

  /** `sorted(s)`. */
  method SortedIds(s: set<int>) returns (ids: seq<int>)
    ensures IsAscending(ids, s)
  {
    ids := [];
    var rest := s;
    while rest != {}
      invariant rest <= s && IsAscending(ids, s - rest)
      decreases rest
    {
      var x := PopAny(rest);
      InsertAscending(ids, s - rest, x);
      ids := Insert(ids, x, IdOrder());
      assert s - (rest - {x}) == (s - rest) + {x};
      rest := rest - {x};
    }
    assert s - {} == s;
  }

  lemma {:induction false} InsertAscending(ids: seq<int>, s: set<int>, x: int)
    requires IsAscending(ids, s) && x !in s
    ensures IsAscending(Insert(ids, x, IdOrder()), s + {x})
  {
    if ids == [] || ids[|ids| - 1] <= x {
      assert forall i :: 0 <= i < |ids| ==> ids[i] in s && ids[i] <= ids[|ids| - 1];
    } else {
      var init, last := ids[..|ids| - 1], ids[|ids| - 1];
      assert ids == init + [last];
      assert IsAscending(init, s - {last});
      InsertAscending(init, s - {last}, x);
      var r := Insert(init, x, IdOrder());
      forall i | 0 <= i < |r| ensures r[i] < last {
        assert r[i] in r;
      }
    }
  }
}
