/** The indexed heap's public operations: construction, push, pop at any slot,
    remove by identity, replace, pushpop and the invariant check. */
module IndexedHeap {
  import opened Wrappers
  import opened Order
  import opened Slots
  import opened Sift

  /** The failures the mutating operations report; each leaves the heap unchanged. */
  datatype Error = DuplicateItem | EmptyHeap | ItemNotFound

  /** The first broken edge the invariant check finds. */
  datatype Violation<T> = Violation(parentIndex: nat, index: nat, parent: T, item: T)

  /** A heap between operations: heap-ordered under cmp, with a consistent index. */
  ghost predicate Valid<T(!new)>(cmp: (T, T) -> bool, h: Heap<T>) {
    HeapOrdered(cmp, h.a) && IndexConsistent(h)
  }

  /** y may be installed at the top: it is not stored, or it is the top itself. */
  ghost predicate Insertable<T>(h: Heap<T>, y: T) {
    y !in h.idx || (|h.a| > 0 && h.a[0] == y)
  }

  /** Construction: the items in input order, the index built from scratch, then
      bottom-up heapify from the last parent slot down to 0. */
  function New<T(!new)>(cmp: (T, T) -> bool, items: seq<T>): (r: Heap<T>)
    requires TotalPreorder(cmp)
    requires Distinct(items)
    ensures |r.a| == |items|
    ensures multiset(r.a) == multiset(items)
    ensures Valid(cmp, r)
  {
    var h := Heap(items, IndexOf(items));
    LeavesAreHeaps(cmp, items);
    HeapifyRestores(cmp, h, |items| / 2);
    Heapify(cmp, h, |items| / 2)
  }

  /** Rebuilding the index from scratch after the whole sequence was replaced. */
  function Reindex<T>(h: Heap<T>): (r: Heap<T>)
    requires Distinct(h.a)
    ensures r.a == h.a
    ensures IndexConsistent(r)
    ensures r.idx.Keys == set x | x in h.a
  {
    Heap(h.a, IndexOf(h.a))
  }

  /** push: refused when x is already stored, otherwise x is added and bubbled up. */
  function Push<T(!new)>(cmp: (T, T) -> bool, h: Heap<T>, x: T): (r: Result<Heap<T>, Error>)
    requires TotalPreorder(cmp)
    requires Valid(cmp, h)
    ensures r.Failure? <==> x in h.a
    ensures r.Failure? ==> r.error == DuplicateItem
    ensures r.Success? ==>
              && |r.value.a| == |h.a| + 1
              && multiset(r.value.a) == multiset(h.a) + multiset{x}
              && Valid(cmp, r.value)
  {
    ConsistentIsDistinct(h);
    if x in h.idx then Failure(DuplicateItem)
    else
      var h1 := Append(h, x);
      PushRepairUp(cmp, h.a, x);
      SiftUpRestores(cmp, h1, |h.a|);
      Success(SiftUp(cmp, h1, |h.a|))
  }

  /** After appending to a heap, only the edge into the new last slot can be broken. */
  lemma PushRepairUp<T(!new)>(cmp: (T, T) -> bool, a: seq<T>, x: T)
    requires TotalPreorder(cmp)
    requires HeapOrdered(cmp, a)
    ensures UpInv(cmp, a + [x], |a|)
  {
    var b := a + [x];
    forall j | 1 <= j < |b| && j != |a|
      ensures cmp(b[Parent(j)], b[j])
    {
      assert b[j] == a[j] && b[Parent(j)] == a[Parent(j)];
    }
  }

  /** pop at slot i of a non-empty heap. The last item is taken off the end; unless
      slot i was the last one, it moves into slot i and exactly one repair follows:
      bubble down when it is no better than the parent of slot i (or i is the root),
      bubble up otherwise. */
  function PopAt<T(!new)>(cmp: (T, T) -> bool, h: Heap<T>, i: nat): (r: (T, Heap<T>))
    requires TotalPreorder(cmp)
    requires Valid(cmp, h)
    requires i < |h.a|
    ensures r.0 == h.a[i]
    ensures |r.1.a| == |h.a| - 1
    ensures multiset(r.1.a) == multiset(h.a) - multiset{h.a[i]}
    ensures r.0 !in r.1.a && r.0 !in r.1.idx
    ensures Valid(cmp, r.1)
    ensures i == |h.a| - 1 ==> r.1.a == h.a[..i]
  {
    if i == |h.a| - 1 then
      PopLastContents(h);
      (h.a[i], DropLast(h))
    else
      (h.a[i], PopMoved(cmp, h, i))
  }

  /** pop at a slot other than the last: the last item moves into slot i and one
      repair follows. */
  function PopMoved<T(!new)>(cmp: (T, T) -> bool, h: Heap<T>, i: nat): (r: Heap<T>)
    requires TotalPreorder(cmp)
    requires Valid(cmp, h)
    requires i < |h.a| - 1
    ensures multiset(r.a) == multiset(h.a) - multiset{h.a[i]}
    ensures h.a[i] !in r.a && h.a[i] !in r.idx
    ensures Valid(cmp, r)
  {
    var h2 := Overwrite(DropLast(h), i, h.a[|h.a| - 1]);
    var r := Repair(cmp, h, i, h2);
    PopMovedContents(h, i, r);
    r
  }

  /** Taking the last item off the end removes exactly that item, from the
      sequence and from the index. */
  lemma PopLastContents<T>(h: Heap<T>)
    requires IndexConsistent(h)
    requires |h.a| > 0
    ensures var r := DropLast(h);
            && multiset(r.a) == multiset(h.a) - multiset{h.a[|h.a| - 1]}
            && h.a[|h.a| - 1] !in r.a
            && IndexConsistent(r)
  {
    ConsistentIsDistinct(DropLast(h));
  }

  /** Moving the last item into slot i and reordering the result removes exactly
      the item of slot i, from the sequence and from the index. */
  lemma PopMovedContents<T>(h: Heap<T>, i: nat, r: Heap<T>)
    requires IndexConsistent(h)
    requires i < |h.a| - 1
    requires var h2 := Overwrite(DropLast(h), i, h.a[|h.a| - 1]);
             multiset(r.a) == multiset(h2.a) && (IndexConsistent(h2) ==> IndexConsistent(r))
    ensures multiset(r.a) == multiset(h.a) - multiset{h.a[i]}
    ensures h.a[i] !in r.a && h.a[i] !in r.idx
    ensures IndexConsistent(r)
  {
    var n := |h.a|;
    var last := h.a[n - 1];
    var h1 := DropLast(h);
    ConsistentIsDistinct(h);
    assert h1.a[i] == h.a[i] != last;
    var h2 := Overwrite(h1, i, last);
    ConsistentIsDistinct(h2);
    MoveLastContents(h.a, i);
    ConsistentIsDistinct(r);
    assert h.a[i] !in multiset(h2.a);
  }

  /** Moving the last item into slot i removes exactly the item that was in slot i. */
  lemma MoveLastContents<T>(a: seq<T>, i: nat)
    requires i < |a| - 1
    ensures multiset(a[..|a| - 1][i := a[|a| - 1]]) == multiset(a) - multiset{a[i]}
  {
    var n := |a|;
    assert a == a[..n - 1] + [a[n - 1]];
    assert a[..n - 1][i] == a[i];
  }

  /** The single repair pop performs once the last item sits in slot i. */
  function Repair<T(!new)>(cmp: (T, T) -> bool, h: Heap<T>, i: nat, h2: Heap<T>): (r: Heap<T>)
    requires TotalPreorder(cmp)
    requires HeapOrdered(cmp, h.a)
    requires i < |h.a| - 1
    requires h2.a == h.a[..|h.a| - 1][i := h.a[|h.a| - 1]]
    ensures |r.a| == |h2.a|
    ensures multiset(r.a) == multiset(h2.a)
    ensures IndexConsistent(h2) ==> IndexConsistent(r)
    ensures HeapOrdered(cmp, r.a)
  {
    if i == 0 || cmp(h.a[Parent(i)], h.a[|h.a| - 1]) then
      PopRepairDown(cmp, h.a, i);
      SiftDownRestores(cmp, h2, 0, i);
      SiftDown(cmp, h2, i)
    else
      PopRepairUp(cmp, h.a, i);
      SiftUpRestores(cmp, h2, i);
      SiftUp(cmp, h2, i)
  }

  /** An item popped from any slot can be pushed back: pop leaves no index entry
      behind for it. */
  lemma PopThenPush<T(!new)>(cmp: (T, T) -> bool, h: Heap<T>, i: nat)
    requires TotalPreorder(cmp)
    requires Valid(cmp, h)
    requires i < |h.a|
    ensures Push(cmp, PopAt(cmp, h, i).1, h.a[i]).Success?
  {
    var r := PopAt(cmp, h, i);
    ConsistentIsDistinct(r.1);
  }

  /** An item given to construction can be removed again, and remove hands back
      that very item: the index built at construction names its slot. */
  lemma NewThenRemove<T(!new)>(cmp: (T, T) -> bool, items: seq<T>, x: T)
    requires TotalPreorder(cmp)
    requires Distinct(items)
    requires x in items
    ensures var r := Remove(cmp, New(cmp, items), x);
            r.Success? && r.value.0 == x
  {
    assert x in multiset(New(cmp, items).a);
  }

  /** When the relocated last item is no better than the parent of slot i (or i is
      the root), bubbling down from i alone restores the heap. */
  lemma PopRepairDown<T(!new)>(cmp: (T, T) -> bool, a: seq<T>, i: nat)
    requires TotalPreorder(cmp)
    requires HeapOrdered(cmp, a)
    requires i < |a| - 1
    requires i == 0 || cmp(a[Parent(i)], a[|a| - 1])
    ensures DownInv(cmp, a[..|a| - 1][i := a[|a| - 1]], 0, i)
  {
    var b := a[..|a| - 1][i := a[|a| - 1]];
    forall j | 1 <= j < |b| && Parent(j) != i
      ensures cmp(b[Parent(j)], b[j])
    {
      if j != i {
        assert b[j] == a[j] && b[Parent(j)] == a[Parent(j)];
      }
    }
    if i >= 1 {
      forall j | 1 <= j < |b| && Parent(j) == i
        ensures cmp(b[Parent(i)], b[j])
      {
        assert b[j] == a[j] && b[Parent(i)] == a[Parent(i)];
        assert cmp(a[Parent(i)], a[i]);
        assert Chains(cmp, a[Parent(i)], a[i], a[j]);
      }
    }
  }

  /** When the relocated last item is strictly better than the parent of slot i,
      bubbling up from i alone restores the heap. */
  lemma PopRepairUp<T(!new)>(cmp: (T, T) -> bool, a: seq<T>, i: nat)
    requires TotalPreorder(cmp)
    requires HeapOrdered(cmp, a)
    requires 1 <= i < |a| - 1
    requires !cmp(a[Parent(i)], a[|a| - 1])
    ensures UpInv(cmp, a[..|a| - 1][i := a[|a| - 1]], i)
  {
    var b := a[..|a| - 1][i := a[|a| - 1]];
    assert cmp(a[Parent(i)], a[i]);
    assert Comparable(cmp, a[Parent(i)], a[|a| - 1]);
    forall j | 1 <= j < |b| && j != i
      ensures cmp(b[Parent(j)], b[j])
    {
      if Parent(j) == i {
        assert b[j] == a[j];
        assert cmp(a[i], a[j]);
        assert Chains(cmp, a[|a| - 1], a[Parent(i)], a[i]);
        assert Chains(cmp, a[|a| - 1], a[i], a[j]);
      } else {
        assert b[j] == a[j] && b[Parent(j)] == a[Parent(j)];
      }
    }
    forall j | 1 <= j < |b| && Parent(j) == i
      ensures cmp(b[Parent(i)], b[j])
    {
      assert b[j] == a[j] && b[Parent(i)] == a[Parent(i)];
      assert cmp(a[i], a[j]);
      assert Chains(cmp, a[Parent(i)], a[i], a[j]);
    }
  }

  /** pop(i): fails on an empty heap; otherwise removes and returns the item in slot i.
      With the default slot 0 the returned item is a best one. */
  function Pop<T(!new)>(cmp: (T, T) -> bool, h: Heap<T>, i: nat): (r: Result<(T, Heap<T>), Error>)
    requires TotalPreorder(cmp)
    requires Valid(cmp, h)
    requires |h.a| == 0 || i < |h.a|
    ensures r.Failure? <==> |h.a| == 0
    ensures r.Failure? ==> r.error == EmptyHeap
    ensures r.Success? ==>
              && r.value.0 == h.a[i]
              && |r.value.1.a| == |h.a| - 1
              && multiset(r.value.1.a) == multiset(h.a) - multiset{h.a[i]}
              && r.value.0 !in r.value.1.idx
              && Valid(cmp, r.value.1)
    ensures r.Success? && i == 0 ==> forall y :: y in h.a ==> cmp(r.value.0, y)
  {
    if |h.a| == 0 then Failure(EmptyHeap)
    else
      TopIsBest(cmp, h.a);
      Success(PopAt(cmp, h, i))
  }

  /** remove(x): fails when x is not stored; otherwise pops x from the slot the
      index records for it. */
  function Remove<T(!new)>(cmp: (T, T) -> bool, h: Heap<T>, x: T): (r: Result<(T, Heap<T>), Error>)
    requires TotalPreorder(cmp)
    requires Valid(cmp, h)
    ensures r.Failure? <==> x !in h.a
    ensures r.Failure? ==> r.error == ItemNotFound
    ensures r.Success? ==>
              && r.value.0 == x
              && |r.value.1.a| == |h.a| - 1
              && multiset(r.value.1.a) == multiset(h.a) - multiset{x}
              && x !in r.value.1.a && x !in r.value.1.idx
              && Valid(cmp, r.value.1)
  {
    ConsistentIsDistinct(h);
    if x !in h.idx then Failure(ItemNotFound)
    else Success(PopAt(cmp, h, h.idx[x]))
  }

  /** replace(y): fails on an empty heap; otherwise returns the old top and bubbles y
      down from the root. The returned item may be worse than y. */
  function Replace<T(!new)>(cmp: (T, T) -> bool, h: Heap<T>, y: T): (r: Result<(T, Heap<T>), Error>)
    requires TotalPreorder(cmp)
    requires Valid(cmp, h)
    requires Insertable(h, y)
    ensures r.Failure? <==> |h.a| == 0
    ensures r.Failure? ==> r.error == EmptyHeap
    ensures r.Success? ==>
              && r.value.0 == h.a[0]
              && |r.value.1.a| == |h.a|
              && multiset(r.value.1.a) == multiset(h.a) - multiset{h.a[0]} + multiset{y}
              && y in r.value.1.idx
              && (h.a[0] != y ==> h.a[0] !in r.value.1.idx)
              && Valid(cmp, r.value.1)
  {
    if |h.a| == 0 then Failure(EmptyHeap)
    else Success((h.a[0], InstallTop(cmp, h, y)))
  }

  /** The shared tail of replace and pushpop: y takes the root slot in place of the
      top, and a bubble-down from the root restores the heap. */
  function InstallTop<T(!new)>(cmp: (T, T) -> bool, h: Heap<T>, y: T): (r: Heap<T>)
    requires TotalPreorder(cmp)
    requires Valid(cmp, h)
    requires |h.a| > 0 && Insertable(h, y)
    ensures |r.a| == |h.a|
    ensures multiset(r.a) == multiset(h.a) - multiset{h.a[0]} + multiset{y}
    ensures y in r.idx && (h.a[0] != y ==> h.a[0] !in r.idx)
    ensures Valid(cmp, r)
  {
    var h1 := Overwrite(h, 0, y);
    TopRepairDown(cmp, h.a, y);
    SiftDownRestores(cmp, h1, 0, 0);
    var r := SiftDown(cmp, h1, 0);
    InstallContents(h, y, r);
    r
  }

  /** Putting y at the root and reordering the result exchanges the old top for y,
      in the sequence and in the index. */
  lemma InstallContents<T>(h: Heap<T>, y: T, r: Heap<T>)
    requires IndexConsistent(h)
    requires |h.a| > 0 && Insertable(h, y)
    requires var h1 := Overwrite(h, 0, y);
             multiset(r.a) == multiset(h1.a) && (IndexConsistent(h1) ==> IndexConsistent(r))
    ensures multiset(r.a) == multiset(h.a) - multiset{h.a[0]} + multiset{y}
    ensures y in r.idx && (h.a[0] != y ==> h.a[0] !in r.idx)
    ensures IndexConsistent(r)
  {
    var h1 := Overwrite(h, 0, y);
    ConsistentIsDistinct(h1);
    ConsistentIsDistinct(r);
    assert y in multiset(r.a);
    if h.a[0] != y {
      assert h.a[0] !in multiset(h1.a);
    }
  }

  /** A new item at the root breaks at most the edges out of the root. */
  lemma TopRepairDown<T(!new)>(cmp: (T, T) -> bool, a: seq<T>, y: T)
    requires HeapOrdered(cmp, a)
    requires |a| > 0
    ensures DownInv(cmp, a[0 := y], 0, 0)
  {
    var b := a[0 := y];
    forall j | 1 <= j < |b| && Parent(j) != 0
      ensures cmp(b[Parent(j)], b[j])
    {
      assert b[j] == a[j] && b[Parent(j)] == a[Parent(j)];
    }
  }

  /** pushpop(y): when the heap is empty or y strictly precedes the top, y comes
      straight back and nothing changes; otherwise y replaces the top, which is
      returned. Either way the returned item is a best one among the old items and y. */
  function PushPop<T(!new)>(cmp: (T, T) -> bool, h: Heap<T>, y: T): (r: (T, Heap<T>))
    requires TotalPreorder(cmp)
    requires Valid(cmp, h)
    requires Insertable(h, y)
    ensures |h.a| == 0 || !cmp(h.a[0], y) ==> r == (y, h)
    ensures |h.a| > 0 && cmp(h.a[0], y) ==>
              && r.0 == h.a[0]
              && |r.1.a| == |h.a|
              && multiset(r.1.a) == multiset(h.a) - multiset{h.a[0]} + multiset{y}
    ensures Valid(cmp, r.1)
    ensures cmp(r.0, y) && forall x :: x in h.a ==> cmp(r.0, x)
  {
    if |h.a| == 0 then (y, h)
    else
      TopIsBest(cmp, h.a);
      if cmp(h.a[0], y) then (h.a[0], InstallTop(cmp, h, y))
      else
        assert Comparable(cmp, h.a[0], y);
        assert forall x :: x in h.a ==> Chains(cmp, y, h.a[0], x);
        (y, h)
  }

  /** check_invariant: scans slots from the last one back to 1 and reports the first
      broken parent edge it meets, which is the one at the highest slot; it succeeds
      exactly when the heap is ordered. */
  method CheckInvariant<T>(cmp: (T, T) -> bool, h: Heap<T>) returns (r: Result<(), Violation<T>>)
    ensures r.Success? <==> HeapOrdered(cmp, h.a)
    ensures r.Failure? ==>
              && 1 <= r.error.index < |h.a|
              && r.error.parentIndex == Parent(r.error.index)
              && r.error.parent == h.a[r.error.parentIndex]
              && r.error.item == h.a[r.error.index]
              && !cmp(r.error.parent, r.error.item)
              && forall j :: r.error.index < j < |h.a| ==> cmp(h.a[Parent(j)], h.a[j])
  {
    var k := |h.a|;
    while k > 1
      invariant k <= |h.a|
      invariant forall j :: k <= j < |h.a| && 1 <= j ==> cmp(h.a[Parent(j)], h.a[j])
    {
      var index := k - 1;
      var parentIndex := (index - 1) / 2;
      if !cmp(h.a[parentIndex], h.a[index]) {
        assert Parent(index) == parentIndex;
        return Failure(Violation(parentIndex, index, h.a[parentIndex], h.a[index]));
      }
      k := index;
    }
    return Success(());
  }

  /** Popping the top until the heap is empty, as the demonstration at the end of
      heap.py does: every item comes out exactly once, in cmp order. */
  function Drain<T(!new)>(cmp: (T, T) -> bool, h: Heap<T>): (s: seq<T>)
    requires TotalPreorder(cmp)
    requires Valid(cmp, h)
    ensures |s| == |h.a|
    ensures multiset(s) == multiset(h.a)
    ensures SortedBy(cmp, s)
    decreases |h.a|
  {
    if |h.a| == 0 then []
    else
      var p := PopAt(cmp, h, 0);
      var tail := Drain(cmp, p.1);
      TopIsBest(cmp, h.a);
      TopPrecedesRest(cmp, h.a, p.1.a, tail);
      SortedCons(cmp, h.a[0], tail);
      [h.a[0]] + tail
  }

  /** Everything left after popping the top comes from the heap, so the top is at
      least as good as it. */
  lemma TopPrecedesRest<T>(cmp: (T, T) -> bool, a: seq<T>, rest: seq<T>, tail: seq<T>)
    requires |a| > 0
    requires forall y :: y in a ==> cmp(a[0], y)
    requires multiset(rest) == multiset(a) - multiset{a[0]}
    requires multiset(tail) == multiset(rest)
    ensures forall y :: y in tail ==> cmp(a[0], y)
  {
    forall y | y in tail
      ensures cmp(a[0], y)
    {
      assert y in multiset(tail);
      assert y in multiset(a);
    }
  }

  /** Putting an item that precedes everything in front of a sorted sequence keeps it sorted. */
  lemma SortedCons<T>(cmp: (T, T) -> bool, x: T, tail: seq<T>)
    requires SortedBy(cmp, tail)
    requires forall y :: y in tail ==> cmp(x, y)
    ensures SortedBy(cmp, [x] + tail)
  {
    var s := [x] + tail;
    forall i, j | 0 <= i < j < |s|
      ensures cmp(s[i], s[j])
    {
      if i == 0 {
        assert s[j] == tail[j - 1];
      } else {
        assert s[i] == tail[i - 1] && s[j] == tail[j - 1];
      }
    }
  }
}
