/** Python's slices, sets of list elements and first occurrences. */
module Collections {

  /** `xs[:k]`. */
  function Take<T>(xs: seq<T>, k: nat): seq<T> {
    if k <= |xs| then xs[..k] else xs
  }

  /** `set(xs)`. */
  function Elements(xs: seq<int>): (r: set<int>)
    ensures forall x :: x in r <==> x in xs
  {
    set x | x in xs
  }

  /** First occurrences only, in order. */
  function Dedup(xs: seq<int>): (r: seq<int>)
    ensures |r| <= |xs| && forall x :: x in r <==> x in xs
  {
    if xs == [] then []
    else
      var rest := Dedup(xs[..|xs| - 1]);
      assert xs == xs[..|xs| - 1] + [xs[|xs| - 1]];
      if xs[|xs| - 1] in rest then rest else rest + [xs[|xs| - 1]]
  }

  lemma {:induction false} DedupPrefix(xs: seq<int>, i: nat)
    requires i <= |xs|
    ensures Dedup(xs[..i]) <= Dedup(xs)
  {
    if i == |xs| {
      assert xs[..i] == xs;
    } else {
      DedupPrefix(xs[..|xs| - 1], i);
      assert xs[..|xs| - 1][..i] == xs[..i];
    }
  }

  lemma DedupNone()
    ensures Dedup([]) == []
  {
  }

  lemma DedupNext(ds: seq<int>, i: nat)
    requires i < |ds|
    ensures Dedup(ds[..i + 1]) == if ds[i] in Dedup(ds[..i]) then Dedup(ds[..i]) else Dedup(ds[..i]) + [ds[i]]
  {
    assert ds[..i + 1][..i] == ds[..i];
  }

  lemma SubsetCard<T>(a: set<T>, b: set<T>)
    requires a <= b
    ensures |a| <= |b|
    ensures |a| == |b| ==> a == b
  {
    assert b == a + (b - a);
  }

  /** Some element of a nonempty set. */
  ghost function Choose<T(!new)>(s: set<T>): (x: T)
    requires s != {}
    ensures x in s
  {
    var x :| x in s;
    x
  }

  /** The next element of an iteration over a set. */
  method PopAny<T>(s: set<T>) returns (x: T)
    requires s != {}
    ensures x in s
  {
    x :| x in s;
  }

  /** The ids 0 .. n-1. */
  function UpTo(n: nat): (r: set<int>)
    ensures |r| == n && forall i :: i in r <==> 0 <= i < n
  {
    if n == 0 then {} else UpTo(n - 1) + {n - 1}
  }

  /** `range(n)` as a list. */
  function Positions(n: nat): (r: seq<int>)
    ensures |r| == n && forall i :: 0 <= i < n ==> r[i] == i
    ensures forall i :: i in r <==> 0 <= i < n
  {
    var r := seq(n, i => i);
    assert forall i :: 0 <= i < n ==> i in r by {
      forall i | 0 <= i < n ensures i in r {
        assert r[i] == i;
      }
    }
    r
  }
}
