/** The heap's storage: the item sequence, the identity index beside it, and the
    single write path that keeps the two in step. */
module Slots {

  /** `a` holds the items in heap layout; `idx` maps each stored item to its slot. */
  datatype Heap<T(==)> = Heap(a: seq<T>, idx: map<T, nat>)

  /** No item is stored twice. */
  ghost predicate Distinct<T>(s: seq<T>) {
    forall i, j :: 0 <= i < j < |s| ==> s[i] != s[j]
  }

  /** The index names exactly the stored items, each with its current slot. */
  ghost predicate IndexConsistent<T>(h: Heap<T>) {
    && (forall k :: 0 <= k < |h.a| ==> h.a[k] in h.idx && h.idx[h.a[k]] == k)
    && (forall x :: x in h.idx ==> h.idx[x] < |h.a| && h.a[h.idx[x]] == x)
  }

  /** A consistent index forces the items to be distinct and its domain to be the stored items. */
  lemma ConsistentIsDistinct<T>(h: Heap<T>)
    requires IndexConsistent(h)
    ensures Distinct(h.a)
    ensures forall x :: x in h.idx <==> x in h.a
  {
    forall x | x in h.a
      ensures x in h.idx
    {
      var k :| 0 <= k < |h.a| && h.a[k] == x;
    }
  }

  /** Writing item v into slot k: the slot and v's index entry change together and
      nothing else moves. The previous occupant keeps its entry until it is
      written elsewhere or evicted. */
  function SetSlot<T>(h: Heap<T>, k: nat, v: T): (r: Heap<T>)
    requires k < |h.a|
    ensures |r.a| == |h.a|
    ensures r.a[k] == v && v in r.idx && r.idx[v] == k
    ensures forall j :: 0 <= j < |h.a| && j != k ==> r.a[j] == h.a[j]
    ensures forall x :: x in h.idx && x != v ==> x in r.idx && r.idx[x] == h.idx[x]
    ensures r.idx.Keys == h.idx.Keys + {v}
  {
    Heap(h.a[k := v], h.idx[v := k])
  }

  /** Exchanging two slots as two writes through SetSlot keeps the index consistent
      and the contents unchanged. */
  function Swap<T>(h: Heap<T>, i: nat, j: nat): (r: Heap<T>)
    requires i < |h.a| && j < |h.a|
    ensures r.a == h.a[i := h.a[j]][j := h.a[i]]
    ensures multiset(r.a) == multiset(h.a)
    ensures IndexConsistent(h) ==> IndexConsistent(r)
    ensures r.idx.Keys == h.idx.Keys + {h.a[i], h.a[j]}
  {
    SwapContents(h.a, i, j);
    SwapKeepsIndex(h, i, j);
    SetSlot(SetSlot(h, i, h.a[j]), j, h.a[i])
  }

  /** Exchanging two elements keeps the multiset of a sequence. */
  lemma SwapContents<T>(a: seq<T>, i: nat, j: nat)
    requires i < |a| && j < |a|
    ensures multiset(a[i := a[j]][j := a[i]]) == multiset(a)
  {
    if i != j {
      calc {
        multiset(a[i := a[j]][j := a[i]]);
        multiset(a) - multiset{a[i]} + multiset{a[j]} - multiset{a[j]} + multiset{a[i]};
        multiset(a);
      }
    }
  }

  /** The two index writes of a swap keep a consistent index consistent. */
  lemma SwapKeepsIndex<T>(h: Heap<T>, i: nat, j: nat)
    requires i < |h.a| && j < |h.a|
    ensures IndexConsistent(h) ==>
              IndexConsistent(Heap(h.a[i := h.a[j]][j := h.a[i]], h.idx[h.a[j] := i][h.a[i] := j]))
  {
    var a := h.a[i := h.a[j]][j := h.a[i]];
    var m := h.idx[h.a[j] := i][h.a[i] := j];
    if IndexConsistent(h) {
      forall k | 0 <= k < |a|
        ensures a[k] in m && m[a[k]] == k
      {
        if k != i && k != j {
          assert a[k] == h.a[k] && h.idx[h.a[k]] == k;
        }
      }
      forall x | x in m
        ensures m[x] < |a| && a[m[x]] == x
      {
        if x != h.a[i] && x != h.a[j] {
          assert h.a[h.idx[x]] == x;
        }
      }
    }
  }

  /** Taking the last item off the end; its index entry goes with it. */
  function DropLast<T>(h: Heap<T>): (r: Heap<T>)
    requires |h.a| > 0
    ensures r.a == h.a[..|h.a| - 1]
    ensures multiset(r.a) + multiset{h.a[|h.a| - 1]} == multiset(h.a)
    ensures h.a[|h.a| - 1] !in r.idx
    ensures IndexConsistent(h) ==> IndexConsistent(r)
  {
    var n := |h.a|;
    assert h.a == h.a[..n - 1] + [h.a[n - 1]];
    Heap(h.a[..n - 1], h.idx - {h.a[n - 1]})
  }

  /** Putting v into slot k in place of its occupant, which leaves the heap and so
      loses its index entry (unless it is v itself). */
  function Overwrite<T>(h: Heap<T>, k: nat, v: T): (r: Heap<T>)
    requires k < |h.a|
    ensures r.a == h.a[k := v]
    ensures multiset(r.a) == multiset(h.a) - multiset{h.a[k]} + multiset{v}
    ensures h.a[k] != v ==> h.a[k] !in r.idx
    ensures IndexConsistent(h) && (v !in h.idx || h.idx[v] == k) ==> IndexConsistent(r)
  {
    SetSlot(Heap(h.a, h.idx - {h.a[k]}), k, v)
  }

  /** Adding v in a new slot at the end, registered in the index. */
  function Append<T>(h: Heap<T>, v: T): (r: Heap<T>)
    ensures r.a == h.a + [v]
    ensures multiset(r.a) == multiset(h.a) + multiset{v}
    ensures IndexConsistent(h) && v !in h.idx ==> IndexConsistent(r)
  {
    Heap(h.a + [v], h.idx[v := |h.a|])
  }

  /** The index rebuilt from scratch from a sequence of distinct items. */
  function IndexOf<T>(s: seq<T>): (m: map<T, nat>)
    requires Distinct(s)
    ensures IndexConsistent(Heap(s, m))
  {
    map k | 0 <= k < |s| :: s[k] := k
  }
}
