/** The paths of heap.py that part ways with the intended behaviour, modelled as
    written, with concrete inputs that show each discrepancy. The rest of the model
    uses the corrected definitions in IndexedHeap. */
module AsWritten {
  import opened Wrappers
  import opened Order
  import opened Slots
  import opened Sift
  import opened IndexedHeap

  /** The default relation of heap.py, `x <= y`, on integers. */
  function IntLe(x: int, y: int): bool {
    x <= y
  }

  /** A max-heap relation, `x >= y`, on integers. */
  function IntGe(x: int, y: int): bool {
    x >= y
  }

  lemma IntOrdersArePreorders()
    ensures TotalPreorder(IntLe)
    ensures TotalPreorder(IntGe)
  {
  }

  /** pop(i) as heap.py writes it, on integers: the list's own pop drops the last
      slot without touching the index, the slot write keeps the returned item's entry,
      and the repair direction is decided by cmp against slot (i-1) >> 2 instead of
      the parent, while the repair itself is heapq's and orders by `<`. */
  function PopAsWritten(cmp: (int, int) -> bool, h: Heap<int>, i: nat): (r: (int, Heap<int>))
    requires i < |h.a|
    ensures r.0 == h.a[i]
    ensures |r.1.a| == |h.a| - 1
    ensures multiset(r.1.a) == multiset(h.a) - multiset{h.a[i]}
    ensures h.idx.Keys <= r.1.idx.Keys
  {
    var n := |h.a|;
    if i == n - 1 then
      assert h.a == h.a[..n - 1] + [h.a[n - 1]];
      (h.a[i], Heap(h.a[..n - 1], h.idx))
    else
      (h.a[i], MovedAsWritten(cmp, h, i))
  }

  /** The as-written pop when slot i is not the last one: the last item is written
      into slot i and sifted by integer order in the direction that cmp, applied to
      slot (i-1) >> 2, decides. */
  function MovedAsWritten(cmp: (int, int) -> bool, h: Heap<int>, i: nat): (r: Heap<int>)
    requires i < |h.a| - 1
    ensures |r.a| == |h.a| - 1
    ensures multiset(r.a) == multiset(h.a) - multiset{h.a[i]}
    ensures h.idx.Keys <= r.idx.Keys
  {
    var last := h.a[|h.a| - 1];
    var h2 := SetSlot(Heap(h.a[..|h.a| - 1], h.idx), i, last);
    MoveLastContents(h.a, i);
    if i == 0 || cmp(h2.a[(i - 1) / 4], last) then SiftDown(IntLe, h2, i)
    else SiftUp(IntLe, h2, i)
  }

  /** The exception an as-written remove raises: the index has no entry for the
      item, or the slot the entry names lies past the end of the shortened list. */
  datatype Fault = KeyError | IndexError

  /** remove(x) as heap.py writes it, paired with the heap it leaves behind: the index
      entry of x is taken out and pop runs at the slot it named, whatever item
      actually sits there. A stale entry naming a slot at or past the end still
      costs the entry and the last item before the slot read fails. */
  function RemoveAsWritten(cmp: (int, int) -> bool, h: Heap<int>, x: int): (r: (Result<int, Fault>, Heap<int>))
    ensures r.0 == Failure(KeyError) <==> x !in h.idx
    ensures r.0 == Failure(IndexError) <==> x in h.idx && h.idx[x] >= |h.a|
    ensures x !in h.idx ==> r.1 == h
    ensures x in h.idx && h.idx[x] >= |h.a| ==>
              && x !in r.1.idx
              && (|h.a| > 0 ==> r.1.a == h.a[..|h.a| - 1])
              && (|h.a| == 0 ==> r.1.a == [])
    ensures r.0.Success? ==>
              && x in h.idx && h.idx[x] < |h.a|
              && r.0.value == h.a[h.idx[x]]
              && multiset(r.1.a) == multiset(h.a) - multiset{h.a[h.idx[x]]}
  {
    if x !in h.idx then (Failure(KeyError), h)
    else
      var k := h.idx[x];
      var h1 := Heap(h.a, h.idx - {x});
      if k >= |h.a| then
        if |h.a| == 0 then (Failure(IndexError), h1)
        else (Failure(IndexError), Heap(h.a[..|h.a| - 1], h1.idx))
      else
        var p := PopAsWritten(cmp, h1, k);
        (Success(p.0), p.1)
  }

  /** Construction as heap.py writes it on integers: the index is built from the
      input order, then heapq reorders the list with its own `<` and without going
      through the synchronized write, so cmp is ignored and the index is not updated. */
  function NewAsWritten(cmp: (int, int) -> bool, items: seq<int>): (r: Heap<int>)
    requires Distinct(items)
    ensures multiset(r.a) == multiset(items)
    ensures HeapOrdered(IntLe, r.a)
    ensures forall k :: 0 <= k < |items| ==> items[k] in r.idx && r.idx[items[k]] == k
  {
    var h := Heap(items, IndexOf(items));
    IntOrdersArePreorders();
    LeavesAreHeaps(IntLe, items);
    HeapifyRestores(IntLe, h, |items| / 2);
    Heap(Heapify(IntLe, h, |items| / 2).a, h.idx)
  }

  /** With the parent computed as (i-1) >> 2, popping slot 5 of the heap
      [0, 1, 5, 2, 3, 6, 7, 4] compares the moved item 4 with slot 1 instead of its
      parent slot 2, bubbles down, and leaves 5 above 4. The index plays no part
      here, so the heap is given an empty one. */
  lemma PopAsWrittenBreaksOrder()
    ensures HeapOrdered(IntLe, [0, 1, 5, 2, 3, 6, 7, 4])
    ensures !HeapOrdered(IntLe, PopAsWritten(IntLe, Heap([0, 1, 5, 2, 3, 6, 7, 4], map[]), 5).1.a)
  {
    var a := [0, 1, 5, 2, 3, 6, 7, 4];
    EightOrdered(a);
    PopSlotFive(a, PopAsWritten(IntLe, Heap(a, map[]), 5).1);
  }

  /** Eight items are in heap order when each of the seven parent-child edges is. */
  lemma EightOrdered(a: seq<int>)
    requires |a| == 8
    requires a[0] <= a[1] && a[0] <= a[2] && a[1] <= a[3] && a[1] <= a[4]
    requires a[2] <= a[5] && a[2] <= a[6] && a[3] <= a[7]
    ensures HeapOrdered(IntLe, a)
  {
    forall k | 1 <= k < |a|
      ensures IntLe(a[Parent(k)], a[k])
    {
      assert k == 1 || k == 2 || k == 3 || k == 4 || k == 5 || k == 6 || k == 7;
    }
  }

  /** The evaluation of the as-written pop at slot 5 of a heap of eight items: the last
      item moves into slot 5, is compared with slot 1, and stays where it lands. */
  lemma PopSlotFive(a: seq<int>, r: Heap<int>)
    requires |a| == 8 && a[1] <= a[7] < a[2]
    requires r == PopAsWritten(IntLe, Heap(a, map[]), 5).1
    ensures |r.a| == 7 && r.a[2] == a[2] && r.a[5] == a[7]
    ensures !HeapOrdered(IntLe, r.a)
  {
    var h1 := Heap(a[..7], map[]);
    var h2 := SetSlot(h1, 5, a[7]);
    assert (5 - 1) / 4 == 1 && IntLe(h2.a[1], a[7]);
    assert SiftDown(IntLe, h2, 5) == h2;
    assert Parent(5) == 2 && !IntLe(r.a[2], r.a[5]);
  }

  /** Popping the only item of the heap [1] leaves the index still naming 1, so a
      later push(1) is refused as a duplicate by the check at heap.py:30. The
      corrected pop drops the entry, and pushing the item back succeeds. */
  lemma PopAsWrittenKeepsEntry()
    ensures Valid(IntLe, Heap([1], map[1 := 0]))
    ensures var r := PopAsWritten(IntLe, Heap([1], map[1 := 0]), 0);
            r.0 == 1 && r.1.a == [] && 1 in r.1.idx && !IndexConsistent(r.1)
    ensures Push(IntLe, PopAt(IntLe, Heap([1], map[1 := 0]), 0).1, 1).Success?
  {
    IntOrdersArePreorders();
    var h := Heap([1], map[1 := 0]);
    assert IndexConsistent(h);
    PopThenPush(IntLe, h, 0);
  }

  /** Popping the last slot of [1, 2] leaves the entry 2 -> 1 behind; a later
      remove(2) then drops 1 as well before failing on the slot read, emptying the heap. */
  lemma StaleEntryEmptiesHeap()
    ensures var p := PopAsWritten(IntLe, Heap([1, 2], map[1 := 0, 2 := 1]), 1);
            var r := RemoveAsWritten(IntLe, p.1, 2);
            p.0 == 2 && r.0 == Failure(IndexError) && r.1.a == []
  {
    var p := PopAsWritten(IntLe, Heap([1, 2], map[1 := 0, 2 := 1]), 1);
    assert p.1 == Heap([1], map[1 := 0, 2 := 1]);
  }

  /** A two-item integer heap ordered by `<=` holds the smaller item first, whatever
      order the same two items came in. */
  lemma TwoItemHeap(a: seq<int>, b: seq<int>)
    requires |b| == 2 && b[1] < b[0]
    requires multiset(a) == multiset(b)
    requires HeapOrdered(IntLe, a)
    ensures a == [b[1], b[0]]
  {
    assert |a| == |multiset(b)| == 2;
    assert Parent(1) == 0;
    assert b == [b[0]] + [b[1]] && a == [a[0]] + [a[1]];
    assert a[0] in multiset(b) && a[1] in multiset(b);
  }

  /** With a max-heap relation, construction as written still builds a min-heap:
      [1, 2] stays as it is and violates `x >= y` between root and child. */
  lemma NewAsWrittenIgnoresCmp()
    ensures NewAsWritten(IntGe, [1, 2]).a == [1, 2]
    ensures !HeapOrdered(IntGe, NewAsWritten(IntGe, [1, 2]).a)
  {
    AscendingPairStays([1, 2]);
  }

  /** Two items given smaller first stay in place, whatever relation is passed. */
  lemma AscendingPairStays(items: seq<int>)
    requires |items| == 2 && items[0] < items[1]
    ensures Distinct(items)
    ensures NewAsWritten(IntGe, items).a == items
    ensures !HeapOrdered(IntGe, NewAsWritten(IntGe, items).a)
  {
    var r := NewAsWritten(IntGe, items);
    assert items == [items[0]] + [items[1]];
    assert multiset(items) == multiset([items[1], items[0]]);
    TwoItemHeap(r.a, [items[1], items[0]]);
    assert Parent(1) == 0 && !IntGe(r.a[0], r.a[1]);
  }

  /** Built from [2, 1], the list is reordered to [1, 2] while the index still says
      1 is in slot 1, so remove(1) pops slot 1 and hands back 2. */
  lemma NewAsWrittenStaleIndex()
    ensures !IndexConsistent(NewAsWritten(IntLe, [2, 1]))
    ensures RemoveAsWritten(IntLe, NewAsWritten(IntLe, [2, 1]), 1).0 == Success(2)
  {
    StaleAfterSwap([2, 1]);
  }

  /** Two items given larger first trade places in the list but not in the index. */
  lemma StaleAfterSwap(items: seq<int>)
    requires |items| == 2 && items[1] < items[0]
    ensures Distinct(items)
    ensures var h := NewAsWritten(IntLe, items);
            h.a[1] == items[0] && items[1] in h.idx && h.idx[items[1]] == 1 && !IndexConsistent(h)
  {
    var h := NewAsWritten(IntLe, items);
    TwoItemHeap(h.a, items);
  }
}
