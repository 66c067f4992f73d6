# Addressable binary min-heap

This project models the addressable binary min-heap of `min_heap.c` and proves
properties of it in Dafny. The heap is a fixed-capacity array of entries
(`MHE_array`: key, payload, id) laid out as an implicit binary tree over
positions `[0, CurrHeapSize)`. Beside it sits an id array (`id_array`) that
maps every external id in `[0, max_id_array_size)` to that id's current
position, or to `-1` when the id is absent. Its operations are allocate,
insert, extract-minimum, edit-key-by-id, query-key-by-id, is-id-in-heap,
get-size and the internal consistency check. Two private routines, sift-up and
sift-down, repair heap order after a change at one position. Every swap goes
through a parent/child-checked exchange that also updates the id array.

Files and modules:

- `heap_order.dfy`, module `HeapOrder`: the `Entry` datatype and heap order on a
  sequence of entries. It defines the two "one defect" states that sift-up and
  sift-down start from: order broken only above position `cur`, or only below
  it. It proves the step lemmas for each sift and the lemmas that insert,
  key change and root removal leave exactly such a defect. It also proves that
  the root holds the least key.
- `consistency.dfy`, module `Consistency`: the id-index bijection between the
  id array and the heap positions, and `Represents`, which ties an abstract
  id-to-entry map to the two arrays. It proves that exchange, append, root
  removal and key overwrite keep the index exact. It defines the consistency
  check and proves, by a counting argument, that the check accepts exactly
  the states in which both invariants hold. It also holds the as-written check
  of the Finding below.
- `min_heap.dfy`, module `MinHeaps`: class `MinHeap<D>`, with fields for the
  two arrays, `MaxHeapSize`, `max_id_array_size` and `CurrHeapSize` (`size`),
  and a ghost `model: map<int, Entry<D>>`, the heap's content by id. `Valid()`
  is the object invariant: shapes, bijection, `model` represented, heap order.
  Each mutating method states its whole new state in terms of `old(model)`.
  The read-only operations are functions.
- `scenarios.dfy`, module `Scenarios`: client scenarios proved from the contracts
  alone. They cover the insert/extract round trip, duplicate-id and capacity
  rejection, and the key-update sequence `(5,id 0),(3,id 1),(8,id 2)`.

Modelling choices:

- Keys are `int`. The code only compares keys, so it never matters what they are
  beyond their order.
- The payload (`void *Data`) is a type parameter `D`.
- The return codes `NO_ERROR`/`ERROR` become `Status`. The query's "key or -1"
  and the extract's out-parameters become `Option`.
- The code reports every failure with the single code `ERROR`. Each contract
  states exactly which condition causes the failure.
- Allocation checks only `max_id_array_size > 0`. It does not check the capacity.
- Edit-key fails for an out-of-range id as well as for an absent one.
- The consistency check's range test uses `CurrHeapSize`. This is tighter than
  the `max_id_array_size` test the code makes at line 400 (see Findings).

## Model

| member | source | states |
|---|---|---|
| `MinHeaps.MinHeap.constructor` | external_packages/SD/SDv1.5.1-svn593/min_heap/min_heap.c:60-87 | a new heap is valid, has size 0, `MaxHeapSize == max_size`, every id slot is -1 and no id is present |
| `MinHeaps.MinHeap.Allocate` | external_packages/SD/SDv1.5.1-svn593/min_heap/min_heap.c:47-91 | allocation fails exactly when `max_id_array_size <= 0`; on success the heap is fresh, valid, empty, with every slot -1 |
| `MinHeaps.MinHeap.SizeIsModelCard` | external_packages/SD/SDv1.5.1-svn593/min_heap/min_heap.c:393-421 | in a consistent index, the heap size equals the number of ids present |
| `MinHeaps.MinHeap.GetCurrSize` | external_packages/SD/SDv1.5.1-svn593/min_heap/min_heap.c:457-460 | the returned size is the number of ids in the heap |
| `MinHeaps.MinHeap.IdIsInHeap` | external_packages/SD/SDv1.5.1-svn593/min_heap/min_heap.c:324-334 | answers in-heap exactly for the ids in the content; an out-of-range id is never in the heap |
| `MinHeaps.MinHeap.QueryKeyIndexID` | external_packages/SD/SDv1.5.1-svn593/min_heap/min_heap.c:196-208 | succeeds exactly for a present id and then returns its current key; fails (-1) otherwise; reads only |
| `MinHeaps.MinHeap.ExchangeElements` | external_packages/SD/SDv1.5.1-svn593/min_heap/min_heap.c:93-159 | succeeds exactly for distinct in-range positions in a parent/child relation; then swaps the two entries whole and sets both moved ids' slots, keeping the bijection and content; on refusal changes nothing |
| `MinHeaps.MinHeap.HeapifyUp` | external_packages/SD/SDv1.5.1-svn593/min_heap/min_heap.c:289-322 | from order broken only above `index`, terminates with heap order, same entries (multiset), same content and a consistent index; changes nothing if the parent is not strictly larger; refuses an out-of-range index without change |
| `MinHeaps.MinHeap.Smallest` | external_packages/SD/SDv1.5.1-svn593/min_heap/min_heap.c:258-275 | the chosen position is `cur` exactly when no child is strictly smaller; otherwise a child strictly smaller than `cur` and no larger than either child; the right child only when it is strictly smaller than the left |
| `MinHeaps.MinHeap.HeapifyDown` | external_packages/SD/SDv1.5.1-svn593/min_heap/min_heap.c:242-287 | from order broken only below `index`, terminates with heap order, same entries, same content and a consistent index; changes nothing if no child is strictly smaller; refuses an out-of-range index without change |
| `MinHeaps.MinHeap.Insert` | external_packages/SD/SDv1.5.1-svn593/min_heap/min_heap.c:338-373 | fails exactly for an out-of-range id, a present id or a full heap, and then changes nothing; otherwise size grows by 1, the id maps to `(key, data, id)`, every other id keeps its entry, the entries gain exactly the new one, and the heap stays valid |
| `MinHeaps.MinHeap.Extract` | external_packages/SD/SDv1.5.1-svn593/min_heap/min_heap.c:211-239 | fails exactly on an empty heap, changing nothing; otherwise returns the root entry, which is in the content with a key no greater than any key there; its id becomes absent, size drops by 1, the entries lose exactly it, and the heap stays valid |
| `MinHeaps.MinHeap.RemoveRoot` | external_packages/SD/SDv1.5.1-svn593/min_heap/min_heap.c:220-236 | on a non-empty heap: the root is returned and removed as in `Extract`, with the last entry moved to the root and sifted down |
| `MinHeaps.MinHeap.EditKeyIndexID` | external_packages/SD/SDv1.5.1-svn593/min_heap/min_heap.c:161-194 | fails exactly for an out-of-range or absent id, changing nothing; otherwise only that id's key becomes `newKey` and the heap stays valid; an equal key leaves both arrays unchanged |
| `MinHeaps.MinHeap.InternalCheck` | external_packages/SD/SDv1.5.1-svn593/min_heap/min_heap.c:385-454 | the check passes exactly when every non-sentinel slot points back into `[0, CurrHeapSize)`, the non-sentinel count is `CurrHeapSize`, and heap order holds; mutates nothing |
| `Consistency.Consistent` | external_packages/SD/SDv1.5.1-svn593/min_heap/min_heap.c:393-452 | the corrected check: slots point back into `[0, CurrHeapSize)`, the count is `CurrHeapSize`, heap order holds; whatever it accepts the check as written accepts too |
| `Consistency.ConsistentAsWritten` | external_packages/SD/SDv1.5.1-svn593/min_heap/min_heap.c:393-452 | the check as written, with the range test against `max_id_array_size` and an out-of-bounds position counted as a failure; it accepts only when the id space is at least the heap size |
| `Consistency.ConsistentIffInvariants` | external_packages/SD/SDv1.5.1-svn593/min_heap/min_heap.c:393-452 | the check accepts a state if and only if the id/position bijection and heap order both hold |
| `Consistency.CountMatchesIffPositionsIndexed` | external_packages/SD/SDv1.5.1-svn593/min_heap/min_heap.c:393-421 | when every slot points back, the count of non-sentinel slots equals the size if and only if every heap position is indexed by its id |
| `Consistency.CountPresentIsCard` | external_packages/SD/SDv1.5.1-svn593/min_heap/min_heap.c:394-398 | the check's running `total` is the number of ids whose slot is not -1 |
| `Consistency.StaleSlotPassesAsWritten` | external_packages/SD/SDv1.5.1-svn593/min_heap/min_heap.c:400-411 | a concrete broken state passes the check as written, but violates the bijection and fails the corrected check |
| `Consistency.SwapKeepsIndex` | external_packages/SD/SDv1.5.1-svn593/min_heap/min_heap.c:136-157 | swapping two positions and resetting both moved ids' slots keeps the bijection and leaves the content unchanged |
| `Consistency.AppendKeepsIndex` | external_packages/SD/SDv1.5.1-svn593/min_heap/min_heap.c:362-367 | writing an absent id's entry at position `size` and its slot keeps the bijection, with that id added to the content |
| `Consistency.RemoveRootKeepsIndex` | external_packages/SD/SDv1.5.1-svn593/min_heap/min_heap.c:225-234 | clearing the root id's slot and moving the last entry to position 0 keeps the bijection, with the root id removed from the content |
| `Consistency.SetKeyKeepsIndex` | external_packages/SD/SDv1.5.1-svn593/min_heap/min_heap.c:178-179 | overwriting the key at a position keeps the bijection, with only that id's key changed in the content |
| `Consistency.RootIsLeastInContent` | external_packages/SD/SDv1.5.1-svn593/min_heap/min_heap.c:221-225 | the root entry is in the content and its key is no greater than any key in the content |
| `HeapOrder.RootIsMin` | external_packages/SD/SDv1.5.1-svn593/min_heap/min_heap.c:221-223 | in heap order the root's key is no greater than the key at any position |
| `HeapOrder.SiftUpStep` | external_packages/SD/SDv1.5.1-svn593/min_heap/min_heap.c:309-314 | swapping with a strictly larger parent moves the single defect one level up |
| `HeapOrder.SiftUpDone` | external_packages/SD/SDv1.5.1-svn593/min_heap/min_heap.c:305-318 | stopping at the root or below a parent that is not larger leaves full heap order |
| `HeapOrder.SiftDownStep` | external_packages/SD/SDv1.5.1-svn593/min_heap/min_heap.c:277-282 | swapping with the smallest, strictly smaller child moves the single defect one level down |
| `HeapOrder.SiftDownDone` | external_packages/SD/SDv1.5.1-svn593/min_heap/min_heap.c:277-278 | stopping when no child is strictly smaller leaves full heap order |
| `HeapOrder.AppendGivesOrderedExceptAbove` | external_packages/SD/SDv1.5.1-svn593/min_heap/min_heap.c:362-368 | appending to a heap leaves order broken only above the new position, as sift-up requires |
| `HeapOrder.DecreaseGivesOrderedExceptAbove` | external_packages/SD/SDv1.5.1-svn593/min_heap/min_heap.c:178-184 | lowering one key leaves order broken only above it, as sift-up requires |
| `HeapOrder.IncreaseGivesOrderedExceptBelow` | external_packages/SD/SDv1.5.1-svn593/min_heap/min_heap.c:178-188 | raising one key leaves order broken only below it, as sift-down requires |
| `HeapOrder.MoveLastToRootGivesOrderedExceptBelow` | external_packages/SD/SDv1.5.1-svn593/min_heap/min_heap.c:229-235 | moving the last entry to the root leaves order broken only below the root, as sift-down requires |
| `HeapOrder.MoveLastToRootMultiset` | external_packages/SD/SDv1.5.1-svn593/min_heap/min_heap.c:226-233 | after moving the last entry to the root, the entries in use are the old ones less the old root |
| `HeapOrder.SwapKeepsMultiset` | external_packages/SD/SDv1.5.1-svn593/min_heap/min_heap.c:136-148 | an exchange inside the heap keeps the multiset of entries in use |
| `HeapOrder.OrderedAtAllIsHeapOrdered` | external_packages/SD/SDv1.5.1-svn593/min_heap/min_heap.c:423-452 | the check's child-by-child comparison holds at every position if and only if heap order holds |
| `Scenarios.InsertThenExtract` | external_packages/SD/SDv1.5.1-svn593/min_heap/min_heap.c:211-239 | inserting `(k, p, id)` into a fresh heap and extracting returns exactly `(k, p, id)` and leaves size 0 |
| `Scenarios.RejectionScenario` | external_packages/SD/SDv1.5.1-svn593/min_heap/min_heap.c:342-358 | a duplicate id and an insert into a full heap both fail; afterwards id 0 still has key 10, id 1 key 20, id 2 is absent and the size is 2 |
| `Scenarios.ThreeEntries` | external_packages/SD/SDv1.5.1-svn593/min_heap/min_heap.c:338-373 | three successful inserts give a valid heap with exactly those three ids and entries |
| `Scenarios.KeyUpdateScenario` | external_packages/SD/SDv1.5.1-svn593/min_heap/min_heap.c:161-239 | from keys 5, 3, 8 (ids 0, 1, 2): extract returns id 1; after id 2 is lowered to 1, extracts return id 2, then id 0; editing the extracted id 1 fails |
| `Scenarios.LowerThenDrain` | external_packages/SD/SDv1.5.1-svn593/min_heap/min_heap.c:161-194 | lowering id 2 below id 0 makes id 2 the next extracted, then id 0, leaving the heap empty |

## Left out

- `Min_HeapFree` (min_heap.c:375-383) only releases memory; there is nothing to state about it.
- The `fprintf(stderr, ...)` diagnostics and the `PrintContent` output of the consistency check are output only. Failures are result values and the check is a boolean.
- The `calloc` failure branches of `Min_HeapAllocate` are allocator behaviour. This includes a negative `max_size`, which only reaches `calloc` with an impossible request, so `maxSize` is a `nat`.
- Floating-point keys (NaN, -0.0): keys are unbounded integers, which the code only compares.
- The `max_id_array_size > 0` guard around the id handling in `Min_HeapExchangeElements` always holds for an allocated heap, so it is not a branch of the model.
- Preconditions stand for what the C functions assume without checking. `Insert`, `Extract`, `EditKeyIndexID`, `QueryKeyIndexID`, `IdIsInHeap` and `GetCurrSize` require the full invariant `Valid()`; `RemoveRoot` also requires a non-empty heap. `ExchangeElements` requires `Indexed()` (the bijection and the content, without heap order). `HeapifyUp` and `HeapifyDown` require `Indexed()` and, for an in-range index, the one defect they repair. `InternalCheck` requires only `Shape()` (the array lengths), since it must judge states that may be broken.
- Integer width: indices and sizes are unbounded. In the C code they are 32-bit `int`. Once `MaxHeapSize` exceeds `INT_MAX/2` (about 2^30), `2*i+1` and `2*i+2` (min_heap.c:120,128,258-259,425-426) can overflow, and a negative child index would pass `< CurrHeapSize` and be read out of bounds. The model does not capture that regime.
- MinHeaps.MinHeap.HeapifyUp: the rule "swap only when the parent is strictly larger" is stated only for the first step (no change when the parent is not larger), not for each later swap, because the arrangement among equal keys is deliberately left open beyond heap order.
- MinHeaps.MinHeap.HeapifyDown: the rule "swap only with a strictly smaller child" is stated only for the first step (no change when no child is strictly smaller), not for each later swap, because the arrangement among equal keys is deliberately left open beyond heap order.
- Sorted extraction over many extracts has no separate lemma. It follows from the `Extract` contract: each returned key is no greater than every key that remains.
- `GibbsSamplerLDA.cpp` (the LDA Gibbs sampler and its MATLAB MEX glue) does not use the heap and is not part of this model.

## Findings

| source | as written | input that shows it | evidently intended | confidence | as-written member | corrected member |
|---|---|---|---|---|---|---|
| external_packages/SD/SDv1.5.1-svn593/min_heap/min_heap.c:400 | the consistency check range-tests each slot's position against `max_id_array_size` | `MaxHeapSize` 2, `max_id_array_size` 8, `CurrHeapSize` 1, entry ids `[5, 7]`, `id_array[7] == 1`, every other slot -1: the check passes, but position 0 holds id 5, whose slot says absent. A position between `MaxHeapSize` and `max_id_array_size` would also be read out of bounds | test positions against `CurrHeapSize`, so that the check accepts exactly the valid states | medium; not executed | `Consistency.StaleSlotPassesAsWritten` | `Consistency.ConsistentIffInvariants` |
