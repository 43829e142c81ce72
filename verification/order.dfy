/** The caller-supplied ordering relation and the shape of an array-backed binary heap. */
module Order {

  /** One instance of transitivity. Naming it lets a proof appeal to transitivity
      exactly where it needs it, by mentioning the instance, instead of leaving the
      solver to try every chain of comparisons in sight. */
  ghost predicate Chains<T>(cmp: (T, T) -> bool, x: T, y: T, z: T) {
    cmp(x, y) && cmp(y, z) ==> cmp(x, z)
  }

  /** One instance of totality, named for the same reason as Chains. */
  ghost predicate Comparable<T>(cmp: (T, T) -> bool, x: T, y: T) {
    cmp(x, y) || cmp(y, x)
  }

  /** `cmp(x, y)` reads "x may sit at least as close to the top as y".
      The heap needs it to be a total preorder: reflexive, transitive and total. */
  ghost predicate TotalPreorder<T(!new)>(cmp: (T, T) -> bool) {
    && (forall x :: cmp(x, x))
    && (forall x, y, z :: Chains(cmp, x, y, z))
    && (forall x, y :: Comparable(cmp, x, y))
  }

  /** Slot of the parent of slot k (k >= 1) in the implicit binary tree. */
  function Parent(k: nat): nat
    requires k >= 1
  {
    (k - 1) / 2
  }

  /** No child precedes its parent: cmp(a[(k-1)/2], a[k]) for every k >= 1. */
  ghost predicate HeapOrdered<T>(cmp: (T, T) -> bool, a: seq<T>) {
    forall k :: 1 <= k < |a| ==> cmp(a[Parent(k)], a[k])
  }

  /** Heap order on every edge whose parent slot is at least lo. */
  ghost predicate HeapFrom<T>(cmp: (T, T) -> bool, a: seq<T>, lo: nat) {
    forall k :: 1 <= k < |a| && lo <= Parent(k) ==> cmp(a[Parent(k)], a[k])
  }

  /** The state bubbling up works on: every edge holds except the one into slot k,
      and the parent of k is no worse than the children of k. */
  ghost predicate UpInv<T>(cmp: (T, T) -> bool, a: seq<T>, k: nat) {
    && (forall j :: 1 <= j < |a| && j != k ==> cmp(a[Parent(j)], a[j]))
    && (k >= 1 && k < |a| ==> forall j :: 1 <= j < |a| && Parent(j) == k ==> cmp(a[Parent(k)], a[j]))
  }

  /** The state bubbling down works on, restricted to edges whose parent slot is at
      least lo: every such edge holds except those out of slot k, and the parent of k
      is no worse than the children of k. */
  ghost predicate DownInv<T>(cmp: (T, T) -> bool, a: seq<T>, lo: nat, k: nat) {
    && (forall j :: 1 <= j < |a| && lo <= Parent(j) && Parent(j) != k ==> cmp(a[Parent(j)], a[j]))
    && (1 <= k < |a| && lo <= Parent(k) ==>
          forall j :: 1 <= j < |a| && Parent(j) == k ==> cmp(a[Parent(k)], a[j]))
  }

  /** Every earlier element is at least as good as every later one. */
  ghost predicate SortedBy<T>(cmp: (T, T) -> bool, s: seq<T>) {
    forall i, j :: 0 <= i < j < |s| ==> cmp(s[i], s[j])
  }

  /** The root of a heap-ordered sequence is at least as good as every slot on
      the path up from k, and so as good as a[k]. */
  lemma {:induction false} RootBeatsSlot<T(!new)>(cmp: (T, T) -> bool, a: seq<T>, k: nat)
    requires TotalPreorder(cmp)
    requires HeapOrdered(cmp, a)
    requires k < |a|
    ensures cmp(a[0], a[k])
    decreases k
  {
    if k >= 1 {
      RootBeatsSlot(cmp, a, Parent(k));
      assert Chains(cmp, a[0], a[Parent(k)], a[k]);
    }
  }

  /** Under heap order the top is a best element: cmp(a[0], y) for every stored y. */
  lemma TopIsBest<T(!new)>(cmp: (T, T) -> bool, a: seq<T>)
    requires TotalPreorder(cmp)
    requires HeapOrdered(cmp, a)
    requires |a| > 0
    ensures forall k :: 0 <= k < |a| ==> cmp(a[0], a[k])
    ensures forall y :: y in a ==> cmp(a[0], y)
  {
    forall k | 0 <= k < |a|
      ensures cmp(a[0], a[k])
    {
      RootBeatsSlot(cmp, a, k);
    }
  }
}
