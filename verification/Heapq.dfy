/**
 Python's `heapq` over (real, int) tuples.

 The array layout of a heap is not observable through `heappush`, `heappop`,
 `heapreplace` and `heap[0]`: they only ever expose the least tuple.  A heap is
 therefore modelled by its content in ascending order.
 */
module Heapq {

  type Entry = (real, int)

  /** Python's order on tuples: the score first, then the id. */
  predicate Le(a: Entry, b: Entry) {
    a.0 < b.0 || (a.0 == b.0 && a.1 <= b.1)
  }

  ghost predicate IsHeap(h: seq<Entry>) {
    forall i, j :: 0 <= i < j < |h| ==> Le(h[i], h[j])
  }

  /** `heappush`; the least entry stays at index 0, where `heappop` takes it. */
  function HeapPush(h: seq<Entry>, e: Entry): (r: seq<Entry>)
    ensures |r| == |h| + 1
    ensures multiset(r) == multiset(h) + multiset{e}
    ensures IsHeap(h) ==> IsHeap(r)
  {
    if h == [] || Le(e, h[0]) then
      FrontKeepsHeap(h, e);
      [e] + h
    else
      var t := HeapPush(h[1..], e);
      assert h == [h[0]] + h[1..];
      TailKeepsHeap(h, t, e);
      [h[0]] + t
  }

  lemma FrontKeepsHeap(h: seq<Entry>, e: Entry)
    requires h == [] || Le(e, h[0])
    ensures IsHeap(h) ==> IsHeap([e] + h)
  {
  }

  lemma TailKeepsHeap(h: seq<Entry>, t: seq<Entry>, e: Entry)
    requires h != [] && !Le(e, h[0]) && multiset(t) == multiset(h[1..]) + multiset{e}
    requires IsHeap(h[1..]) ==> IsHeap(t)
    ensures IsHeap(h) ==> IsHeap([h[0]] + t)
  {
    if IsHeap(h) {
      LeIsTotalOrder();
      forall i | 0 <= i < |t| ensures Le(h[0], t[i]) {
        assert t[i] in multiset(t);
        assert t[i] in multiset(h[1..]) || t[i] == e;
      }
    }
  }

  lemma LeIsTotalOrder()
    ensures forall a, b :: Le(a, b) || Le(b, a)
    ensures forall a, b, c :: Le(a, b) && Le(b, c) ==> Le(a, c)
  {
  }

  lemma HeapMembers(h: seq<Entry>, e: Entry)
    ensures forall x :: x in HeapPush(h, e) <==> x in h || x == e
  {
    forall x ensures x in HeapPush(h, e) <==> x in h || x == e {
      assert x in HeapPush(h, e) <==> x in multiset(HeapPush(h, e));
      assert x in h <==> x in multiset(h);
    }
  }

  /** What `heappop` returns is least, and what it leaves is everything else. */
  lemma HeapTop(h: seq<Entry>)
    requires IsHeap(h) && h != []
    ensures forall x :: x in h ==> Le(h[0], x)
    ensures forall x :: x in h ==> x == h[0] || x in h[1..]
    ensures IsHeap(h[1..])
  {
  }
}
