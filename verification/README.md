# Indexed binary heap (xheap `Heap`)

A Dafny model of the `Heap` class in heap.py. The class is an array-backed binary
heap whose order is a relation `cmp` chosen per heap. Beside the array it keeps an
index from each stored item to its current slot. With that index it can pop the
item at any slot and remove an item by identity, both in logarithmic time.

The model is functional. A heap is the record `Heap(a, idx)`, which pairs the item
sequence with the index map. Every operation takes `cmp` explicitly and returns a
new record.

- `Order`: the relation and the heap shape.
  - `TotalPreorder(cmp)` means `cmp` is reflexive, transitive and total.
  - Slot k ≥ 1 has its parent at `(k-1)/2`.
  - `HeapOrdered` is heap order, and `SortedBy` is sortedness under `cmp`.
  - The invariants of the two bubbling directions are defined here.
  - The top of an ordered heap is a best item.
- `Slots`: the storage.
  - `SetSlot` is the single write path. Like `__setitem__`, it writes the slot and the item's index entry together.
  - Swap and Overwrite are built on it. DropLast and Append change the length and edit the index directly.
  - `IndexOf` rebuilds the index from scratch.
  - `IndexConsistent` says the index names exactly the stored items, each at its slot.
- `Sift`: bubbling up, bubbling down and bottom-up heapify, all under `cmp`. The lemmas here show that each one restores heap order from the state it starts in.
- `IndexedHeap`: the public operations. These are construction, push, pop at a slot, remove, replace, pushpop, `check_invariant`, rebuilding the index (`__setslice__`), and draining the heap by repeated pops. A heap between operations is `Valid`: it is heap-ordered and its index is consistent.
- `AsWritten`: the paths of heap.py that depart from the intended behaviour, modelled as written, with concrete inputs that show each departure (see Findings).

Failures come back as `Result` values rather than exceptions:
- `DuplicateItem` for push of a stored item;
- `EmptyHeap` for pop or replace on an empty heap;
- `ItemNotFound` for remove of an absent item;
- a `Violation` record for a failed invariant check.

A failed operation leaves the heap unchanged, because the heap is an immutable value.

## Model

| member | source | states |
|---|---|---|
| Order.RootBeatsSlot | heap.py:19-20 | Under heap order and a transitive `cmp`, the root is at least as good as the item in any slot. |
| Order.TopIsBest | heap.py:19-20 | In a non-empty heap-ordered sequence, `cmp(a[0], y)` holds for every stored y. So slot 0 holds a best item. |
| Slots.ConsistentIsDistinct | heap.py:85-87 | A consistent index forces the stored items to be pairwise distinct. Its domain is exactly the set of stored items. |
| Slots.SetSlot | heap.py:85-87 | Writing v into slot k sets `a[k] == v` and `idx[v] == k`. It leaves every other slot and every other index entry unchanged, and adds only v to the index's domain. |
| Slots.Swap | heap.py:85-87 | Two slot writes that exchange slots i and j keep the multiset of items. They keep a consistent index consistent, and touch no index key other than the two items. |
| Slots.DropLast | heap.py:37 | Taking the last item off removes exactly that item from the multiset and drops its index entry (corrected rule, see Findings). Consistency is preserved. |
| Slots.Overwrite | heap.py:41-42 | Putting v into slot k exchanges the occupant for v in the multiset and removes the occupant's index entry (corrected rule, see Findings). The index stays consistent whenever v was absent or already indexed at k. |
| Slots.Append | heap.py:32 | Appending v adds exactly v to the multiset. The index stays consistent when v was not stored. The source's `list.append` bypasses `__setitem__` and registers the item only at the sift's final slot write (heap.py:33); the state after push is the same. |
| Slots.IndexOf | heap.py:91 | The index rebuilt from scratch from distinct items is consistent with them. |
| Sift.SiftUp | heap.py:96-97 | Bubbling up keeps the length, the multiset of items and index consistency. |
| Sift.SiftDown | heap.py:99-100 | Bubbling down keeps the length, the multiset of items and index consistency. |
| Sift.Heapify | heap.py:102-104 | Heapify keeps the length, the multiset of items and index consistency. |
| Sift.BetterChildIsBest | heap.py:99-100 | The child that bubbling down picks is at least as good as each child of the slot. |
| Sift.SiftUpRestores | heap.py:96-97 | From a state where only the edge into slot k may be broken, bubbling up yields a heap-ordered sequence. |
| Sift.SiftDownRestores | heap.py:99-100 | From a state where only the edges out of slot k may be broken, bubbling down restores order on every edge at or below the lower bound. |
| Sift.HeapifyRestores | heap.py:102-104 | Bubbling down slots i-1 down to 0, starting from order on all edges below i, makes the whole sequence heap-ordered. |
| IndexedHeap.New | heap.py:23-26 | Construction from distinct items keeps exactly those items and yields a valid heap: heap-ordered under `cmp`, with a consistent index. |
| IndexedHeap.Reindex | heap.py:89-91 | Rebuilding the index leaves the sequence alone. The new index is consistent and its keys are exactly the stored items. |
| IndexedHeap.Push | heap.py:28-33 | push fails with DuplicateItem exactly when x is already stored. Otherwise the heap grows by one and holds the old items plus x. The result is valid. |
| IndexedHeap.PopAt | heap.py:35-47 | Popping slot i returns the old `a[i]` and leaves the other n-1 items. The returned item is gone from sequence and index, and the result is valid. Popping the last slot just truncates. |
| IndexedHeap.Pop | heap.py:35-47 | pop fails with EmptyHeap exactly on an empty heap. Otherwise it behaves as PopAt. With the default slot 0 the returned item is at least as good as every stored item. |
| IndexedHeap.PopThenPush | heap.py:30 | After any pop, pushing the popped item back succeeds, because pop leaves no index entry behind. |
| IndexedHeap.Remove | heap.py:49-50 | remove fails with ItemNotFound exactly when x is absent. Otherwise it returns x itself, and x is gone from sequence and index. Every other item stays, and the result is valid. |
| IndexedHeap.NewThenRemove | heap.py:23-26 | Any item given to construction can be removed afterwards, and remove returns that very item. |
| IndexedHeap.Replace | heap.py:52-66 | replace fails with EmptyHeap exactly on an empty heap. Otherwise it returns the old top and keeps the length. It exchanges the old top for y in contents and index. The result is valid. |
| IndexedHeap.InstallTop | heap.py:63-65 | Putting y at the root and bubbling down exchanges the old top for y and restores a valid heap. |
| IndexedHeap.PushPop | heap.py:68-73 | When the heap is empty or `cmp(a[0], y)` fails, y comes back and the heap is unchanged. Otherwise the old top comes back and y replaces it, and the result is valid. In every case the returned item is at least as good as y and as every old item. |
| IndexedHeap.CheckInvariant | heap.py:75-83 | The check succeeds exactly when the heap is ordered. A failure names a slot and its parent slot, both items, and a broken edge between them. Every edge after that slot holds, since the scan runs from the end. |
| IndexedHeap.Drain | heap.py:117-120 | Popping the top until the heap is empty yields every item exactly once, sorted under `cmp`. |
| AsWritten.PopAsWritten | heap.py:35-47 | The pop as written, on integers with heapq's `<` in the sifts and cmp only in the direction test, returns `a[i]` and drops exactly that item from the sequence. It keeps every index key it was given, the returned item's included. |
| AsWritten.RemoveAsWritten | heap.py:37-50 | The remove as written fails with KeyError exactly when x has no index entry. It fails with IndexError exactly when the entry names a slot at or past the end; by then x's entry is gone and, on a non-empty heap, so is the last item. Otherwise it returns the item in the slot the entry names and drops exactly that item from the sequence. |
| AsWritten.StaleEntryEmptiesHeap | heap.py:37-50 | After popping the last slot of [1, 2] as written, the entry for 2 still names slot 1. A later remove(2) drops 1 as well and then fails with IndexError, leaving the heap empty. |
| AsWritten.NewAsWritten | heap.py:102-104 | Construction as written orders the items by integer `<=` whatever `cmp` is given. It keeps each item's input position as its index entry. |
| AsWritten.PopAsWrittenBreaksOrder | heap.py:43 | Popping slot 5 of the ordered heap [0, 1, 5, 2, 3, 6, 7, 4] as written leaves a sequence that is not heap-ordered. |
| AsWritten.PopAsWrittenKeepsEntry | heap.py:37-47 | Popping the only item of [1] as written leaves the index naming 1. The corrected pop lets 1 be pushed back. |
| AsWritten.NewAsWrittenIgnoresCmp | heap.py:96-104 | Built with the max-heap relation `>=`, construction as written leaves [1, 2], which violates that relation at the root. |
| AsWritten.NewAsWrittenStaleIndex | heap.py:102-104 | Built from [2, 1] as written, the index is inconsistent, and remove(1) hands back 2. |

## Left out

- Python's `<` inside heapq (heap.py:96-104) is not modelled for the public operations. They sift under `cmp`, as the class documents. The as-written construction shows the difference (Findings).
- AsWritten.PopAsWritten: its repair uses the textbook bubble-down of Sift.SiftDown, not heapq's go-to-leaf variant, so after a downward repair the arrangement can differ from the source's; the counterexample repairs at a leaf, where the two coincide.
- Sift.SiftDown: this is the textbook bubble-down, which stops when the item is no worse than its better child. heapq's variant first moves the hole to a leaf and then bubbles up. Both restore heap order and keep the same items, but the final arrangements can differ.
- IndexedHeap.New: requires distinct items. The source does not check. Its index comprehension silently keeps only the last position of a repeated item, which is outside what the class supports.
- IndexedHeap.Replace and IndexedHeap.PushPop: require that y is not stored already, unless y is the top itself. The source does not check. A second copy of a stored item cannot be indexed.
- IndexedHeap.Pop: requires 0 ≤ i < n on a non-empty heap. With a slot at or past the end the source pops the last item before failing, leaving a heap that has lost an item. Negative slots are excluded too: Python accepts them, but the list is shortened before `self[index]` is read, so `pop(-1)` on [a, b, c] returns b rather than c and leaves b's index entry behind.
- IndexedHeap.Push, Pop, Remove, Replace, PushPop: require `cmp` to be a total preorder. Heap order means nothing for a relation that is not one. The default `x <= y` is one for integers.
- `__repr__` (heap.py:93-94) and the exception messages (heap.py:31, 83): presentation only. Failures are `Result` values instead.
- The demonstration at heap.py:107-121 prints with Python 2 syntax. Its remove-then-drain sequence is covered in general by NewThenRemove, Remove and Drain rather than replayed on its literal list.
- Logarithmic running time and thread safety are not modelled.
- IndexedHeap.Reindex: models `__setslice__` only as "the sequence was replaced, rebuild the index"; general slice assignment is not modelled. It requires distinct items for the same reason as New: the source's index comprehension keeps only the last position of a repeated item.

## Findings

| source | as written | input that shows it | evidently intended | confidence | as-written member | corrected member |
|---|---|---|---|---|---|---|
| heap.py:43 | The repair direction after a pop compares the moved last item with slot `(index-1) >> 2`. | Pop slot 5 of [0, 1, 5, 2, 3, 6, 7, 4]. Item 4 is compared with slot 1 (1 ≤ 4), bubbles down, and stays below 5 at slot 2. | Compare with the parent `(index-1) >> 1`, as heap.py:77 does. | high (not executed) | AsWritten.PopAsWrittenBreaksOrder | IndexedHeap.PopAt |
| heap.py:37-47, 63-66, 70-72 | pop, replace and pushpop leave the index entry of the item they hand back. | pop() on [1]; a later push(1) is refused at heap.py:30 as a duplicate. replace and pushpop keep the entry through the same slot write of the new item over the old top (heap.py:64, 71), which never drops the old top's entry. | The index names exactly the stored items. | high (not executed) | AsWritten.PopAsWrittenKeepsEntry | IndexedHeap.PopThenPush |
| heap.py:96-104 | The sifts and heapify delegate to heapq, which compares with `<` and never calls `self.cmp`. | Heap([1, 2], cmp=lambda x, y: x >= y) stays [1, 2], whose root is not the maximum. | Order items by the heap's own `cmp`. | high (not executed) | AsWritten.NewAsWrittenIgnoresCmp | IndexedHeap.New |
| heap.py:102-104 | The index is built from the input order, and then heapify reorders the list. The C implementation of heapify bypasses `__setitem__`. | Heap([2, 1]) becomes [1, 2] with index {2: 0, 1: 1}. remove(1) then pops slot 1 and returns 2. | Build the index after reordering, or keep it in step during heapify. | medium: depends on heapq's C implementation being loaded (not executed) | AsWritten.NewAsWrittenStaleIndex | IndexedHeap.NewThenRemove |
