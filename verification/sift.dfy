/** The two repair primitives, bubble up and bubble down, and bottom-up heapify.
    Every move is a Swap, so every move goes through the synchronized write path. */
module Sift {
  import opened Order
  import opened Slots

  /** Bubble up: move the item in slot k toward the root while it strictly
      precedes its parent. */
  function SiftUp<T>(cmp: (T, T) -> bool, h: Heap<T>, k: nat): (r: Heap<T>)
    requires k < |h.a|
    ensures |r.a| == |h.a|
    ensures multiset(r.a) == multiset(h.a)
    ensures IndexConsistent(h) ==> IndexConsistent(r)
    ensures h.idx.Keys <= r.idx.Keys
    decreases k
  {
    if k == 0 || cmp(h.a[Parent(k)], h.a[k]) then h
    else SiftUp(cmp, Swap(h, Parent(k), k), Parent(k))
  }

  /** The better of the (one or two) children of slot k; the right child is taken
      when it is at least as good as the left one. */
  function BetterChild<T>(cmp: (T, T) -> bool, a: seq<T>, k: nat): (c: nat)
    requires 2 * k + 1 < |a|
    ensures c == 2 * k + 1 || (c == 2 * k + 2 && c < |a|)
  {
    var l := 2 * k + 1;
    if l + 1 < |a| && cmp(a[l + 1], a[l]) then l + 1 else l
  }

  /** The child BetterChild picks is at least as good as every child of k. */
  lemma BetterChildIsBest<T(!new)>(cmp: (T, T) -> bool, a: seq<T>, k: nat)
    requires TotalPreorder(cmp)
    requires 2 * k + 1 < |a|
    ensures forall j :: 1 <= j < |a| && Parent(j) == k ==> cmp(a[BetterChild(cmp, a, k)], a[j])
  {
    assert 2 * k + 2 >= |a| || Comparable(cmp, a[2 * k + 1], a[2 * k + 2]);
  }

  /** Bubble down: move the item in slot k toward the leaves while its better
      child strictly precedes it. */
  function SiftDown<T>(cmp: (T, T) -> bool, h: Heap<T>, k: nat): (r: Heap<T>)
    requires k < |h.a|
    ensures |r.a| == |h.a|
    ensures multiset(r.a) == multiset(h.a)
    ensures IndexConsistent(h) ==> IndexConsistent(r)
    ensures h.idx.Keys <= r.idx.Keys
    decreases |h.a| - k
  {
    if 2 * k + 1 >= |h.a| then h
    else
      var c := BetterChild(cmp, h.a, k);
      if cmp(h.a[k], h.a[c]) then h
      else SiftDown(cmp, Swap(h, k, c), c)
  }

  /** Bottom-up heapify: bubble down slots i-1, i-2, ..., 0 in turn. */
  function Heapify<T>(cmp: (T, T) -> bool, h: Heap<T>, i: nat): (r: Heap<T>)
    requires i <= |h.a|
    ensures |r.a| == |h.a|
    ensures multiset(r.a) == multiset(h.a)
    ensures IndexConsistent(h) ==> IndexConsistent(r)
    decreases i
  {
    if i == 0 then h
    else Heapify(cmp, SiftDown(cmp, h, i - 1), i - 1)
  }

  /** One bubble-up swap turns the "all but the edge into k" state into the same
      state one level higher. */
  lemma UpStep<T(!new)>(cmp: (T, T) -> bool, a: seq<T>, k: nat)
    requires TotalPreorder(cmp)
    requires 1 <= k < |a|
    requires UpInv(cmp, a, k)
    requires !cmp(a[Parent(k)], a[k])
    ensures UpInv(cmp, a[Parent(k) := a[k]][k := a[Parent(k)]], Parent(k))
  {
    var p := Parent(k);
    var b := a[p := a[k]][k := a[p]];
    assert Comparable(cmp, a[p], a[k]);
    forall j | 1 <= j < |b| && j != p
      ensures cmp(b[Parent(j)], b[j])
    {
      if j == k {
      } else if Parent(j) == k {
      } else if Parent(j) == p {
        assert cmp(a[p], a[j]);
        assert Chains(cmp, a[k], a[p], a[j]);
      } else {
        assert b[j] == a[j] && b[Parent(j)] == a[Parent(j)];
      }
    }
    if p >= 1 {
      forall j | 1 <= j < |b| && Parent(j) == p
        ensures cmp(b[Parent(p)], b[j])
      {
        assert b[Parent(p)] == a[Parent(p)];
        assert cmp(a[Parent(p)], a[p]);
        if j != k {
          assert cmp(a[p], a[j]);
          assert Chains(cmp, a[Parent(p)], a[p], a[j]);
        }
      }
    }
  }

  /** Bubbling up from k under the bubble-up state restores heap order. */
  lemma {:induction false} SiftUpRestores<T(!new)>(cmp: (T, T) -> bool, h: Heap<T>, k: nat)
    requires TotalPreorder(cmp)
    requires k < |h.a|
    requires UpInv(cmp, h.a, k)
    ensures HeapOrdered(cmp, SiftUp(cmp, h, k).a)
    decreases k
  {
    if k == 0 || cmp(h.a[Parent(k)], h.a[k]) {
    } else {
      UpStep(cmp, h.a, k);
      SiftUpRestores(cmp, Swap(h, Parent(k), k), Parent(k));
    }
  }

  /** One bubble-down swap with the better child moves the "all but the edges out
      of k" state one level lower. */
  lemma DownStep<T(!new)>(cmp: (T, T) -> bool, a: seq<T>, lo: nat, k: nat)
    requires TotalPreorder(cmp)
    requires lo <= k && 2 * k + 1 < |a|
    requires DownInv(cmp, a, lo, k)
    requires !cmp(a[k], a[BetterChild(cmp, a, k)])
    ensures var c := BetterChild(cmp, a, k);
            DownInv(cmp, a[k := a[c]][c := a[k]], lo, c)
  {
    var c := BetterChild(cmp, a, k);
    var b := a[k := a[c]][c := a[k]];
    assert Parent(c) == k;
    BetterChildIsBest(cmp, a, k);
    assert Comparable(cmp, a[k], a[c]);
    forall j | 1 <= j < |b| && lo <= Parent(j) && Parent(j) != c
      ensures cmp(b[Parent(j)], b[j])
    {
      if j == c {
      } else if j == k {
        assert b[Parent(j)] == a[Parent(k)];
      } else if Parent(j) == k {
      } else {
        assert b[j] == a[j] && b[Parent(j)] == a[Parent(j)];
      }
    }
    forall j | 1 <= j < |b| && Parent(j) == c
      ensures cmp(b[Parent(c)], b[j])
    {
      assert b[j] == a[j];
    }
  }

  /** Bubbling down from k under the bubble-down state restores heap order on every
      edge whose parent slot is at least lo. */
  lemma {:induction false} SiftDownRestores<T(!new)>(cmp: (T, T) -> bool, h: Heap<T>, lo: nat, k: nat)
    requires TotalPreorder(cmp)
    requires lo <= k < |h.a|
    requires DownInv(cmp, h.a, lo, k)
    ensures HeapFrom(cmp, SiftDown(cmp, h, k).a, lo)
    decreases |h.a| - k
  {
    if 2 * k + 1 >= |h.a| {
    } else {
      var c := BetterChild(cmp, h.a, k);
      BetterChildIsBest(cmp, h.a, k);
      if cmp(h.a[k], h.a[c]) {
        forall j | 1 <= j < |h.a| && Parent(j) == k
          ensures cmp(h.a[k], h.a[j])
        {
          assert Chains(cmp, h.a[k], h.a[c], h.a[j]);
        }
      } else {
        DownStep(cmp, h.a, lo, k);
        SiftDownRestores(cmp, Swap(h, k, c), lo, c);
      }
    }
  }

  /** Heapify from slot i restores heap order once every edge below slot i holds. */
  lemma {:induction false} HeapifyRestores<T(!new)>(cmp: (T, T) -> bool, h: Heap<T>, i: nat)
    requires TotalPreorder(cmp)
    requires i <= |h.a|
    requires HeapFrom(cmp, h.a, i)
    ensures HeapOrdered(cmp, Heapify(cmp, h, i).a)
    decreases i, 1
  {
    if i >= 1 {
      HeapifyRestoresFrom(cmp, h, i, i - 1);
    }
  }

  /** The inductive step of HeapifyRestores: bubble down slot k = i-1, then heapify
      the rest. Slot k is passed beside i so that no step needs to subtract. */
  lemma {:induction false} HeapifyRestoresFrom<T(!new)>(cmp: (T, T) -> bool, h: Heap<T>, i: nat, k: nat)
    requires TotalPreorder(cmp)
    requires i == k + 1 && k < |h.a|
    requires HeapFrom(cmp, h.a, i)
    ensures HeapOrdered(cmp, Heapify(cmp, h, i).a)
    decreases i, 0
  {
    var h1 := SiftDown(cmp, h, k);
    HeapifyUnfold(cmp, h, k);
    HeapifyStep(cmp, h, k);
    HeapifyRestores(cmp, h1, k);
  }

  /** One step of Heapify, stated with k + 1 so callers need no subtraction. */
  lemma HeapifyUnfold<T>(cmp: (T, T) -> bool, h: Heap<T>, k: nat)
    requires k < |h.a|
    ensures Heapify(cmp, h, k + 1) == Heapify(cmp, SiftDown(cmp, h, k), k)
  {
  }

  /** Bubbling down slot k extends heap order from the edges below k to the edges
      out of k. */
  lemma HeapifyStep<T(!new)>(cmp: (T, T) -> bool, h: Heap<T>, k: nat)
    requires TotalPreorder(cmp)
    requires k < |h.a|
    requires HeapFrom(cmp, h.a, k + 1)
    ensures HeapFrom(cmp, SiftDown(cmp, h, k).a, k)
  {
    HeapFromIsDownInv(cmp, h.a, k);
    SiftDownRestores(cmp, h, k, k);
  }

  /** Once every edge below slot i holds, bubbling down slot i is all that is left
      to do for the edges out of slots i and below it. */
  lemma HeapFromIsDownInv<T>(cmp: (T, T) -> bool, a: seq<T>, i: nat)
    requires HeapFrom(cmp, a, i + 1)
    ensures DownInv(cmp, a, i, i)
  {
  }

  /** Slots from |a|/2 on are leaves, so heapify may start there on any sequence. */
  lemma LeavesAreHeaps<T>(cmp: (T, T) -> bool, a: seq<T>)
    ensures HeapFrom(cmp, a, |a| / 2)
  {
  }
}
