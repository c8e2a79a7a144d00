# Singly linked list and pivot step, modelled in Dafny

This project models two small teaching data structures and algorithms.

- A **singly linked list** (`lists/SinglyLinkedList.ts`). The list object holds
  `head`, `tail` and `length` fields, and its heap nodes each hold a `value`
  and a `next` link. Its operations are `push`, `pop`, `shift`, `unshift`,
  `get`, `set`, `insert`, `remove` and `reverse`. `get` changes nothing, `set`
  overwrites one value, and the other mutating operations rewire the nodes in
  place. The model is the class `LinkedLists.SinglyLinkedList` over
  `LinkedLists.Node` objects, in `linked_lists.dfy`. Its abstract state is two
  ghost sequences:
  - `nodes`: the spine, meaning the nodes reachable from `head`, in order. The
    spine is also the frame that the invariant reads and that every mutating
    method may modify.
  - `contents`: the values stored in those nodes.

  The invariant `Valid()` ties the fields to these sequences:
  - `length` is the spine's length.
  - `head` is null exactly when the list is empty.
  - A non-empty list starts at `head`, ends at `tail`, and `tail.next` is null.
  - Each node links to its successor.
  - The spine holds no node twice.
- The **pivot step** of an in-place partition-exchange sort (`utils/pivot.ts`).
  The element at `startIndex` is the pivot. Every later element strictly
  smaller than it is swapped into a growing low region. The pivot is then
  swapped to the end of that region, and the region's end index is returned.
  The model is in `partition.dfy`:
  - `Partition.Pivot` is the same loop over an `array<int>`.
  - It is proved equal to `Partition.PivotOf`, a recursive reference
    definition on sequences.
  - The partition properties are proved about `PivotOf` by induction.

Every list method states the list's whole new state in terms of the old one:
- `contents` and `nodes` as sequence operations (append, drop the last, splice
  in, cut out, reverse);
- `head`, `tail` and `length`;
- what the returned node is.

Client methods then compose these operations: push then pop, unshift then
shift, set then get, insert then remove, reverse twice, and a fixed scenario.
Where the code and the natural reading of an operation differ, the model
follows the code (see "Left out").

## Model

| member | source | states |
|---|---|---|
| LinkedLists.Node.constructor | lists/SinglyLinkedList.ts:39 | A new node holds the given value and has no successor. |
| LinkedLists.SinglyLinkedList.constructor | lists/SinglyLinkedList.ts:16-20 | A new list is valid and empty: null `head` and `tail`, `length` 0, no nodes. |
| LinkedLists.SinglyLinkedList.Push | lists/SinglyLinkedList.ts:38-50 | The value is appended. `length` grows by one. The new node is fresh and becomes `tail` (and also `head` when the list was empty). The invariant is kept. |
| LinkedLists.SinglyLinkedList.Pop | lists/SinglyLinkedList.ts:63-87 | On an empty list it returns null and changes nothing. Otherwise it returns the old last node with its value and a null `next`, drops the last element, and decrements `length`. `head` is kept, or cleared together with `tail` when the list becomes empty. The walk to the second-to-last node is proved by a loop invariant. |
| LinkedLists.SinglyLinkedList.Shift | lists/SinglyLinkedList.ts:98-109 | With a null `head` it returns null and changes nothing. Otherwise it returns the old head, whose `next` is the new `head`, drops the first element, and decrements `length`. `tail` is never changed. |
| LinkedLists.SinglyLinkedList.Unshift | lists/SinglyLinkedList.ts:127-142 | Returns the list itself. The value is prepended in a fresh `head`. `length` grows by one. `tail` becomes the new node only when the list was empty. |
| LinkedLists.SinglyLinkedList.Get | lists/SinglyLinkedList.ts:157-170 | Returns null exactly when `index < 0` or `index >= length`. Otherwise it returns the `index`-th node of the spine, whose value is the `index`-th element. |
| LinkedLists.SinglyLinkedList.Set | lists/SinglyLinkedList.ts:187-196 | Returns true exactly when `index` is in range. In that case only the value at `index` changes; otherwise nothing changes. The spine, `head`, `tail`, `length` and every link are kept. |
| LinkedLists.SinglyLinkedList.Insert | lists/SinglyLinkedList.ts:230-251 | Returns true exactly when `0 <= index <= length`, and changes nothing when false. On success a fresh node holding the value becomes element `index`, with the rest in their old order, and `length` grows by one. |
| LinkedLists.SinglyLinkedList.InsertInside | lists/SinglyLinkedList.ts:240-249 | For `0 < index < length`, the new node is linked after node `index - 1` and before its old successor. The spine and contents gain exactly that element, and the invariant is kept. |
| LinkedLists.SinglyLinkedList.Remove | lists/SinglyLinkedList.ts:280-297 | Returns null exactly when `index` is out of range, and changes nothing then. Otherwise it returns the old `index`-th node with its value and cuts that position out of the spine and contents. `length` drops by one. A list left empty has null `head` and `tail`. The returned node keeps its link to the element that now sits at `index`, or null when it was the last. |
| LinkedLists.SinglyLinkedList.RemoveInside | lists/SinglyLinkedList.ts:288-295 | For `0 < index < length - 1`, the predecessor is relinked past the removed node, which is returned still linked to its old successor. Exactly that position leaves the spine and contents, and the invariant is kept. |
| LinkedLists.SinglyLinkedList.Reverse | lists/SinglyLinkedList.ts:327-341 | The spine and contents become their reverses. `head` and `tail` swap, `length` is kept, and the new `tail` has no successor. The relinking loop is proved by invariants over the part already reversed and the part not yet visited. |
| LinkedLists.Reversed | lists/SinglyLinkedList.ts:327-341 | The reversal used to specify `reverse`: it has the same length, and element `k` is element `|s| - 1 - k` of the input. |
| LinkedLists.ReversedTwice | lists/SinglyLinkedList.ts:327-341 | Reversing a sequence twice gives it back. |
| LinkedLists.InsertedThenRemoved | lists/SinglyLinkedList.ts:230-297 | Cutting out position `i` after splicing a value in at `i` gives back the original sequence. |
| LinkedLists.PushThenPop | lists/SinglyLinkedList.ts:38-87 | `pop` right after `push` returns the pushed node and restores the contents, spine, `length` and `head`. `tail` is restored, or null when the list was empty. |
| LinkedLists.UnshiftThenShift | lists/SinglyLinkedList.ts:98-142 | `shift` right after `unshift` returns the new node and restores the contents, spine, `length` and `head`. On an empty list `tail` is left pointing at the removed node. |
| LinkedLists.SetThenGet | lists/SinglyLinkedList.ts:157-196 | After `set` at an in-range index, `get` at that index returns the node that was overwritten, now holding the new value, and only that element changed. |
| LinkedLists.InsertThenRemove | lists/SinglyLinkedList.ts:230-297 | `remove` at the index just used by a successful `insert` returns the inserted node and restores the contents, spine and `length`. |
| LinkedLists.ReverseTwice | lists/SinglyLinkedList.ts:327-341 | Reversing twice restores the spine, contents, `head`, `tail` and `length`. |
| LinkedLists.Scenario | lists/SinglyLinkedList.ts:38-341 | Pushing 1, 2, 3, inserting 9 at 1, removing at 2 and reversing removes the value 2 and leaves 3, 9, 1 in a valid list. |
| LinkedLists.ScenarioRead | lists/SinglyLinkedList.ts:157-170 | Reading that list with `get` at 0, 1 and 2 yields 3, 9 and 1. |
| Partition.Swapped | utils/pivot.ts:24 | The exchange of two positions keeps the length of the sequence. |
| Partition.SwappedExchanges | utils/pivot.ts:24 | After an exchange the two positions hold each other's old elements, and every other position is unchanged. |
| Partition.SwappedPermutes | utils/pivot.ts:24 | An exchange keeps the multiset of elements. |
| Partition.Swap | utils/pivot.ts:24 | The in-place exchange on an array leaves exactly the exchanged sequence. |
| Partition.CountLess | utils/pivot.ts:21-26 | Counts the elements strictly below a pivot, which is at most the length of the sequence. |
| Partition.CountLessExtremes | utils/pivot.ts:22 | The count is 0 exactly when no element is below the pivot, and equals the length exactly when all are. |
| Partition.ScanUpTo | utils/pivot.ts:18-26 | The scan state after examining positions `startIndex + 1` to `i - 1`: the same length, with the low region's end between `startIndex` and `i - 1`. |
| Partition.PivotOf | utils/pivot.ts:17-31 | The whole pivot step on a sequence: the same length, and an index between `startIndex` and the last position. |
| Partition.ScanUpToFrame | utils/pivot.ts:21-26 | The scan never moves the pivot or anything before it, and has not touched the positions not yet examined. |
| Partition.ScanUpToPermutes | utils/pivot.ts:21-26 | The scan only permutes the elements. |
| Partition.ScanUpToSplits | utils/pivot.ts:21-26 | After the scan, the low region after the pivot holds only elements strictly below it, and the other examined positions hold only elements not below it. |
| Partition.ScanUpToCounts | utils/pivot.ts:21-26 | The low region's size equals the number of examined elements strictly below the pivot. |
| Partition.PivotOfPartitions | utils/pivot.ts:17-31 | The pivot ends at the returned index. From `startIndex` up to that index every element is strictly smaller, and every later element is not smaller. The index is `startIndex` plus the number of later elements below the pivot. The result is a permutation, and the prefix before `startIndex` is unchanged. |
| Partition.PivotOfExtremes | utils/pivot.ts:17-31 | The pivot stays at `startIndex` exactly when no later element is below it, and ends at the last position exactly when every later element is. |
| Partition.Pivot | utils/pivot.ts:17-31 | The in-place loop leaves exactly `PivotOf`'s sequence and returns its index. The partition, count, permutation and prefix properties are restated on the array. |
| Partition.PivotOfExample | utils/pivot.ts:17-31 | The reference step on 4, 6, 2, 9, 1, 3 from position 0 gives 3, 2, 1, 4, 6, 9 and index 3. |
| Partition.PivotExample | utils/pivot.ts:17-31 | Running the in-place step on that array returns 3 and leaves 3, 2, 1, 4, 6, 9. |

## Left out

- Node values are of any type. They are modelled by a type parameter `T`, and the list stores them without inspecting them.
- `../utils/node` and `./swap` are not part of this model. `Node` stands in for the node class: a value and a nullable `next`, with a constructor that sets `next` to null. `Swap` stands in for the array exchange.
- Indices and array elements are JavaScript numbers. They are modelled as unbounded integers. Fractional indices, `NaN` and reads past the end that yield `undefined` are outside the model.
- `shift` (lists/SinglyLinkedList.ts:98-109) never clears `tail`, unlike `pop` (lists/SinglyLinkedList.ts:81-84), which clears both ends when the list empties. `Shift` is modelled as written: `tail` is always unchanged, and `Valid()` leaves `tail` unconstrained on an empty list.
- `PivotOfExample` and `PivotExample` state the code's result on 4, 6, 2, 9, 1, 3 from position 0: 3, 2, 1, 4, 6, 9 with index 3.
- Reverse: requires `length > 0 || tail == null`. On a list that `shift` has emptied, `reverse` sets `head` to the stale `tail` node while `length` stays 0. The list is then broken: a later `push` follows the non-null `head` branch and writes through a null `tail`. The model does not describe that broken state, so callers must not reverse such a list.
- Pivot: requires `0 <= startIndex < a.Length`. With an out-of-range start the code reads `undefined` as the pivot (utils/pivot.ts:18), and the effect of the final swap (utils/pivot.ts:28) depends on the `swap` helper, which is not part of this model. The default `startIndex = 0` is not modelled; callers pass it explicitly.
- Pivot: the optional `endIndex` parameter is accepted and ignored, as in the code. The scan always runs to the end of the array.
- Pop, Shift, Remove and Get return node references, as the code does. The model does not track what a caller does with a returned node after it leaves the list.
- The node returned by `Shift` or `Remove` keeps its `next` link into the list, as in the code, and their contracts state where that link points. No client that mutates a removed node through that link is modelled.
