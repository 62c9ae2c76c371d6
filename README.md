# Generic binary heap of montecarlo-pde, in Dafny

This project models the priority queue in `src/prioqueue.c`. The adaptive
quadrature uses it to always refine the sub-interval with the largest error.
The queue is a binary heap of fixed-size records in a buffer that the caller
supplies. `items` records are live and the buffer holds `max_items`. The order
comes from the caller's comparator `cmp(a, b)`, "a comes before b". The
operations are `push` (append, then sift up), `top` (read slot 0) and `pop`
(report `false` when empty; otherwise copy out the root, swap it with the last
live record, shrink, and sift down with the recursive `prioqueue_heapify`).

- `heap_index.dfy`, module `HeapIndex`: the index macros `PQ_PARENT`,
  `PQ_LEFT` and `PQ_RIGHT`, and their 32-bit evaluation (see Findings).
- `heap_order.dfy`, module `HeapOrder`: the comparator laws (`StrictWeakOrder`),
  heap order over a sequence (`HeapOrdered`), the two "broken at one place"
  states the sifts pass through (`HeapExceptAt` and `HeapExceptBelow`), and the
  lemmas that one sift step preserves them.
- `prioqueue.dfy`, module `PriorityQueue`: `struct prioqueue` as the class
  `PrioQueue<T>`. It has a mutable `items`, a constant `maxItems`, the caller's
  buffer `memory: array<T>` and the comparator `before`. `Valid()` is the
  invariant: counters fit the buffer, the comparator is a strict weak order,
  and the live region is heap-ordered. `Contents()` is the live region as a
  multiset.

Records are a generic type `T`. The byte copies (`memcpy` of `item_size`
bytes) become whole-element moves in the array. The comparator is a total
function `before: (T, T) -> bool`. It is assumed to be a strict weak order:
irreflexive, transitive, and "does not come before" is transitive too. The
third law is needed. The sift-down picks a child through a chain of
`!cmp(...)` tests. Under a mere partial order the chosen record could be one
that the displaced record comes before.

In these places the code does not do what a textbook heap does, and the model
follows the code:

- `push` on a full queue is an `assert` in the code (src/prioqueue.c:76), not
  a reported capacity error. The model makes it a precondition.
- In the sift-down, a child that only ties with the node is still swapped up.
  The test is `!cmp(node, child)`, not `cmp(child, node)`. When the two
  children tie, the right child is chosen, not the left one.
- `top` reads slot 0 whatever `items` is. The model requires only that the
  buffer has a slot 0. It promises that the record is first only when the
  queue is not empty.
- `pop` always hands back the root (as `Some(root)`); C copies it only when
  `out` is not null. The caller may ignore it.

## Model

| member | source | states |
|---|---|---|
| HeapIndex.Parent | src/prioqueue.c:16 | the root is its own parent (C's truncating division of -1 by 2); every other index has a strictly smaller parent and is that parent's left or right child |
| HeapIndex.Left | src/prioqueue.c:17 | the left child lies after its node and its parent is that node |
| HeapIndex.Right | src/prioqueue.c:18 | the right child lies after the left child and its parent is the node |
| HeapIndex.ParentIsInverse | src/prioqueue.c:16-18 | a non-root index has parent i exactly when it is i's left or right child |
| HeapIndex.LeftAsWritten | src/prioqueue.c:43-51 | the left-child index as the C code computes it, modulo 2^32; it agrees with Left below index 2^31 |
| HeapIndex.LeftAsWrittenWraps | src/prioqueue.c:43-51 | at index 2^31 the computed "left child" is 1: not a child of the node, and smaller than it |
| HeapIndex.RightAsWritten | src/prioqueue.c:18 | the right-child index as the C code computes it, modulo 2^32; it agrees with Right below index 2^31 - 1 |
| HeapIndex.RightAsWrittenWraps | src/prioqueue.c:43-71 | at index 2^31 - 1 the computed "right child" is 0, the root, not a child of the node, while the computed left child 2^32 - 1 can never pass `L < items` |
| HeapIndex.AsSigned | src/prioqueue.c:16 | the `(i32)` cast of a u32 index: a value in the signed 32-bit range that is congruent to the index modulo 2^32 |
| HeapIndex.HalfTowardZero | src/prioqueue.c:16 | C's signed `/ 2`: the quotient is rounded toward zero, so 2h is within one step of n on the side of zero |
| HeapIndex.ParentAsWritten | src/prioqueue.c:16 | the parent index as the C code computes it (cast to i32, decrement wrapping at 2^31, truncating halving, stored in a u32); it agrees with Parent up to index 2^31 |
| HeapIndex.ParentAsWrittenWraps | src/prioqueue.c:84-96 | at index 2^31 + 1 the computed "parent" is 3 * 2^30, not the true parent 2^30, and it lies after the node |
| HeapOrder.Asymmetric | src/prioqueue.c:20-21 | under a strict weak order, if a comes before b then b does not come before a |
| HeapOrder.Transitive | src/prioqueue.c:20-21 | helper, not a property of the code: the assumed transitivity of "comes before", applied to three named records |
| HeapOrder.NotBeforeTransitive | src/prioqueue.c:20-21 | helper, not a property of the code: the assumed transitivity of "does not come before", applied to three named records |
| HeapOrder.Swap | src/prioqueue.c:66-69 | exchanging two records moves each to the other's slot, leaves every other slot alone and keeps the multiset of records |
| HeapOrder.AppendBreaksAtMostLast | src/prioqueue.c:78-81 | a record appended to a heap breaks heap order at most at its own slot |
| HeapOrder.SiftUpStep | src/prioqueue.c:86-97 | swapping a record that comes before its parent with that parent moves the only break in heap order up to the parent's slot |
| HeapOrder.SiftUpDone | src/prioqueue.c:87 | when the sift-up stops (at the root, or the record does not come before its parent) the sequence is heap-ordered |
| HeapOrder.RootToEnd | src/prioqueue.c:111-117 | swapping the root with the last live record and shrinking by one removes one copy of the root, breaks heap order at most below the root, and leaves the old root in the first dead slot |
| HeapOrder.RootToEndOrder | src/prioqueue.c:111-117 | after the swap and shrink, heap order holds except below the root |
| HeapOrder.RootToEndContents | src/prioqueue.c:111-117 | after the swap and shrink, the live records are the old ones minus one copy of the root |
| HeapOrder.SwapInPrefix | src/prioqueue.c:113-115 | a swap inside the first n slots acts on those n slots alone |
| HeapOrder.SiftDownChoice | src/prioqueue.c:51-63 | the child picked by the two `!cmp` tests (or the node itself) is preceded by none of the node and its live children |
| HeapOrder.SiftDownStep | src/prioqueue.c:65-71 | swapping the node with that pick moves the only break in heap order down to the pick's children |
| HeapOrder.SiftDownDone | src/prioqueue.c:65 | when no child is picked the sequence is heap-ordered |
| HeapOrder.RootFirst | src/prioqueue.c:100-102 | in a heap-ordered sequence no record comes before the root, by induction along the path to the root |
| HeapOrder.RootIsFirst | src/prioqueue.c:100-102 | no record of a non-empty heap comes before its root, by index and by multiset membership |
| PriorityQueue.PrioQueue.constructor | src/prioqueue.c:23-31 | a queue over the caller's buffer and comparator starts empty and valid |
| PriorityQueue.PrioQueue.Heapify | src/prioqueue.c:39-73 | from a state broken only below `index`, heap order is restored; `items` is not changed; the live multiset is kept; dead slots are untouched; nothing moves when `items <= 1`; recursion on a strictly larger index |
| PriorityQueue.PrioQueue.Exchange | src/prioqueue.c:89-91 | the three-`memcpy` swap of two slots, as `Swap` on the buffer |
| PriorityQueue.PrioQueue.Push | src/prioqueue.c:75-98 | requires room; afterwards the queue is valid (heap order kept), `items` is one more, the live multiset gains exactly the pushed record, and slots past the live region are untouched |
| PriorityQueue.PrioQueue.Top | src/prioqueue.c:100-102 | returns the record in slot 0; when the queue is not empty, no live record comes before it |
| PriorityQueue.PrioQueue.Pop | src/prioqueue.c:104-121 | empty: returns None and changes nothing. Otherwise: returns the old root, `items` is one less, the live multiset loses exactly one copy of the root, the old root sits in the first dead slot, later slots are untouched, heap order holds, and no remaining record comes before the popped one (so consecutive pops come out in order) |

## Left out

- The byte layout: `item_size`, the `u8 *` arithmetic of `prioqueue_at` and the byte-wise `memcpy`. Records are whole values of a generic type. This also leaves out that the offset `index * item_size` (src/prioqueue.c:34) is a u32 product, which wraps modulo 2^32 once the buffer passes 4 GiB and then addresses the wrong record.
- The 32-bit width of `items` and `max_items`. Counters are unbounded naturals. The index macros are the exception: their 32-bit evaluation is modelled, and the places where it changes the tree shape are under Findings: the right child from index 2^31 - 1 on, the left child from 2^31 on, and the parent from 2^31 + 1 on. The offset wrap is under the byte layout above.
- Comparators that are not strict weak orders. `Valid()` assumes the law; with any other comparator the C code still runs, but the heap-order results do not apply.
- Allocation and release of the buffer. The caller owns the buffer and passes it to the constructor; no function of the source does this.
- The rest of the repository. This covers the Monte Carlo estimator, the reservoir and resampled importance samplers in `src/montecarlo.c` (floating point and an external random generator), the logging helpers and demo `main` in `src/mcpde.c` (I/O), and the Gauss–Kronrod quadrature `quadgk.c`. The quadrature is not part of this model.

## Findings

| source | as written | input that shows it | evidently intended | confidence | as-written member | corrected member |
|---|---|---|---|---|---|---|
| src/prioqueue.c:17-18, 43-51 | `PQ_LEFT` and `PQ_RIGHT` double the index in 32-bit arithmetic and store the result in a `u32`, so the child index wraps modulo 2^32 | a queue with more than 2^31 + 1 live records, sifting down at index 2^31: the "left child" comes out as 1, which passes `L < items` but is not a child of the node | children at 2i+1 and 2i+2, whose parent is i | low: not executed; it needs more than 2^31 records, and the signed overflow is undefined behaviour in C (wrap-around assumed) | HeapIndex.LeftAsWrittenWraps | HeapIndex.Left |
| src/prioqueue.c:18, 43-71 | `PQ_RIGHT` doubles the index in 32-bit arithmetic and stores the result in a `u32`, so the right-child index wraps modulo 2^32 one index before the left one | a queue with 2^31 live records, sifting down at index 2^31 - 1 (on the leftmost path from the root): the "right child" comes out as 0, which always passes `R < items`, so the node is compared with the root and may be swapped into it | children at 2i+1 and 2i+2, whose parent is i | low: not executed; it needs 2^31 records, and the signed overflow is undefined behaviour in C (wrap-around assumed) | HeapIndex.RightAsWrittenWraps | HeapIndex.Right |
| src/prioqueue.c:16, 84, 94-96 | `PQ_PARENT` casts the u32 index to i32, halves `x - 1` with truncation and stores the quotient back into a u32, so from index 2^31 + 1 on the quotient is negative and wraps to a large index (at 2^31 itself the decrement is a signed overflow; wrapped, it gives the true parent) | pushing onto a queue with 2^31 + 1 live records (room for one more): the sift-up starts at index 2^31 + 1 and compares the new record with slot 3 * 2^30 instead of its parent 2^30; that slot is past the live records | parent at (i - 1) / 2 in unsigned arithmetic, a smaller index whose child is i | low: not executed; it needs more than 2^31 records; only the implementation-defined u32-to-i32 conversion is involved (two's complement assumed) | HeapIndex.ParentAsWrittenWraps | HeapIndex.Parent |
