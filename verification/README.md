# LinkedList: a verified model of a generic singly-linked list

This project models `LinkedList<E>` of the `data_structure` package: a singly-linked chain
of nodes with a `head` and a `tail` reference and a `currentSize` counter. It supports
insertion and removal at both ends, peeking at both ends, clearing, a size query, a
membership search driven by the elements' `compareTo`, an in-place reversal that rewrites
the nodes' elements, and a read-only forward iterator.

The model is imperative, as the Java class is:

- `wrappers.dfy` (module `Wrappers`): `Option` for the `null` that peeks and removals return
  on an empty list, and `Result` with the `NoSuchElement` and `UnsupportedOperation`
  exceptions the iterator throws.
- `sequences.dfy` (module `Sequences`): value-level specifications. `Reversed` gives the
  mirror image of a sequence; `Matches` says that some element compares equal to a value.
- `linked_list.dfy` (module `DataStructure`): the classes `Node`, `LinkedList` and
  `IteratorHelper`. `LinkedList` keeps the Java fields `head`, `tail` and `currentSize`.
  It also keeps two ghost fields. `nodes` is the chain from head to tail and serves as the
  frame of the list's functions and methods. `contents` is the sequence of elements.
  `Valid()` ties the fields together: the chain is linked in order, its last node ends
  it, and no node occurs twice. It also says that the nodes hold `contents` and that
  `currentSize` counts them. Every operation is specified against `contents`.
- `scenarios.dfy` (module `Scenarios`): callers that combine operations. They show that
  `addFirst`/`removeFirst` and `addLast`/`removeLast` undo each other and that two
  reversals cancel. They also show that `makeEmpty` leaves no element to peek at, that
  iteration visits 1, 2, 3 (and 3, 2, 1 after a reversal), and that `contains` still finds
  a duplicate after one copy is removed.

Three points where the model follows the code closely rather than an idealised list:

- `removeFirst` never clears `tail`, although the usual head/tail invariant wants both
  references null on an empty list. When it removes the only element, `head` becomes null
  and `currentSize` 0, but `tail` still references the removed node. So `Valid()` only
  constrains `tail` while the list is non-empty. Nothing observable depends on the stale
  reference. `addFirst` resets `tail` when `currentSize` is 0, `addLast` when `head` is
  null, and `peekLast` first tests `currentSize`. `RemoveFirst` states `tail ==
  old(tail)`, and `RemoveLast` states the same on lists of at most one element.
- `contains` compares with the elements' `compareTo`, not with equality. The model takes
  the comparison as a parameter `compareTo: (E, E) -> int` and applies it as
  `compareTo(element, obj)`, in the Java argument order. `Sequences.MatchesIsMembership`
  shows that this is plain membership when `compareTo` returns 0 exactly on equal values.
- `reverse` swaps elements between nodes and does not relink them: `head`, `tail` and the
  chain stay as they were. Its two loops are the methods `CopyToBuffer` and
  `WriteBackReversed`, which `Reverse` calls in turn.

## Model

| member | source | states |
|---|---|---|
| `DataStructure.Node.constructor` | DataStructureLinkedList/src/data_structure/LinkedList.java:22-25 | a new node holds the given element and has no successor |
| `DataStructure.LinkedList.constructor` | DataStructureLinkedList/src/data_structure/LinkedList.java:35-38 | a new list is valid and empty: no elements, size 0, `head` and `tail` null |
| `DataStructure.LinkedList.AddFirst` | DataStructureLinkedList/src/data_structure/LinkedList.java:72-79 | the contents become `[obj] + old contents`; the new first node is fresh and the rest of the chain is unchanged; the list stays valid, so its size grows by one and `peekFirst` now returns `obj` |
| `DataStructure.LinkedList.AddLast` | DataStructureLinkedList/src/data_structure/LinkedList.java:86-98 | the contents become `old contents + [obj]`; the new last node is fresh and the old chain is its prefix; the list stays valid, so its size grows by one and `peekLast` now returns `obj` |
| `DataStructure.LinkedList.RemoveFirst` | DataStructureLinkedList/src/data_structure/LinkedList.java:105-112 | on an empty list it returns `None` and changes nothing; otherwise it returns the first element and leaves the contents and the chain without it; `tail` is never reassigned |
| `DataStructure.LinkedList.HeadIsTail` | DataStructureLinkedList/src/data_structure/LinkedList.java:123 | on a valid non-empty list, `head == tail` holds exactly when the list has one element, which is what the single-node test of `removeLast` relies on |
| `DataStructure.LinkedList.RemoveLast` | DataStructureLinkedList/src/data_structure/LinkedList.java:119-135 | on an empty list it returns `None` and changes nothing; otherwise it returns the last element and leaves the contents and the chain without it; on one element it behaves as `RemoveFirst`, including the untouched `tail`; the body's assertion after the predecessor walk (not the contract) shows the walk ends on the second-to-last node |
| `DataStructure.LinkedList.PeekFirst` | DataStructureLinkedList/src/data_structure/LinkedList.java:142-146 | `None` on an empty list, otherwise the first element; it only reads |
| `DataStructure.LinkedList.PeekLast` | DataStructureLinkedList/src/data_structure/LinkedList.java:153-157 | `None` on an empty list, otherwise the last element; it only reads |
| `DataStructure.LinkedList.MakeEmpty` | DataStructureLinkedList/src/data_structure/LinkedList.java:163-167 | afterwards the list is valid and empty, with `head` and `tail` null |
| `DataStructure.LinkedList.IsEmpty` | DataStructureLinkedList/src/data_structure/LinkedList.java:174-178 | true exactly when the list holds no element |
| `DataStructure.LinkedList.IsFull` | DataStructureLinkedList/src/data_structure/LinkedList.java:184-186 | never true: the list has no capacity bound |
| `DataStructure.LinkedList.Size` | DataStructureLinkedList/src/data_structure/LinkedList.java:192-194 | the number of elements in the list |
| `DataStructure.LinkedList.Contains` | DataStructureLinkedList/src/data_structure/LinkedList.java:204-214 | true exactly when some element `e` has `compareTo(e, obj) == 0`, so false on an empty list; it changes nothing |
| `DataStructure.LinkedList.Reverse` | DataStructureLinkedList/src/data_structure/LinkedList.java:222-239 | the contents become the mirror image of the old contents; the chain, `head`, `tail` and the size are unchanged, and only the nodes' `data` fields may change |
| `DataStructure.LinkedList.CopyToBuffer` | DataStructureLinkedList/src/data_structure/LinkedList.java:223-231 | the buffer holds the elements from head to tail |
| `DataStructure.LinkedList.WriteBackReversed` | DataStructureLinkedList/src/data_structure/LinkedList.java:233-238 | node `k` of the chain receives position `k` of the reversed buffer; only `data` fields change |
| `DataStructure.LinkedList.Iterator` | DataStructureLinkedList/src/data_structure/LinkedList.java:246-248 | a fresh, valid cursor over this list whose remaining elements are all the contents, in order |
| `DataStructure.IteratorHelper.constructor` | DataStructureLinkedList/src/data_structure/LinkedList.java:47-49 | the cursor starts on the head, with nothing returned yet |
| `DataStructure.IteratorHelper.HasNext` | DataStructureLinkedList/src/data_structure/LinkedList.java:51-53 | true exactly when elements remain to be returned |
| `DataStructure.IteratorHelper.Next` | DataStructureLinkedList/src/data_structure/LinkedList.java:55-61 | an exhausted cursor fails with `NoSuchElement` and does not move; otherwise it returns the next remaining element and drops it from the remaining ones |
| `DataStructure.IteratorHelper.Remove` | DataStructureLinkedList/src/data_structure/LinkedList.java:63-65 | always fails with `UnsupportedOperation("Not Enabled")` |
| `Sequences.Reversed` | DataStructureLinkedList/src/data_structure/LinkedList.java:216-220 | the mirror image has as many elements as the original |
| `Sequences.ReversedAt` | DataStructureLinkedList/src/data_structure/LinkedList.java:235-238 | position `k` of the mirror holds position `length - 1 - k` of the original |
| `Sequences.MirrorIsReversed` | DataStructureLinkedList/src/data_structure/LinkedList.java:235-238 | a sequence that mirrors another element by element is its reversal |
| `Sequences.ReversedInvolution` | DataStructureLinkedList/src/data_structure/LinkedList.java:216-220 | reversing twice restores the original order |
| `Sequences.ReversedPermutes` | DataStructureLinkedList/src/data_structure/LinkedList.java:216-220 | reversal keeps every element with its multiplicity: nothing is lost or duplicated |
| `Sequences.MatchesIsMembership` | DataStructureLinkedList/src/data_structure/LinkedList.java:196-202 | when `compareTo` returns 0 exactly on equal values, the search finds `obj` exactly when it occurs in the list |
| `Scenarios.PushPopFront` | DataStructureLinkedList/src/data_structure/LinkedList.java:72-112 | `addFirst(v)` then `removeFirst()` returns `v` and restores the contents and the size |
| `Scenarios.PushPopBack` | DataStructureLinkedList/src/data_structure/LinkedList.java:86-135 | `addLast(v)` then `removeLast()` returns `v` and restores the contents and the size |
| `Scenarios.ReverseTwice` | DataStructureLinkedList/src/data_structure/LinkedList.java:222-239 | two reversals restore the contents over the same chain |
| `Scenarios.EmptyAfterMakeEmpty` | DataStructureLinkedList/src/data_structure/LinkedList.java:163-194 | after `makeEmpty` the list is empty, has size 0, and both peeks give `None` |
| `Scenarios.OneTwoThree` | DataStructureLinkedList/src/data_structure/LinkedList.java:86-98 | three `addLast` calls on a new list give the contents 1, 2, 3 |
| `Scenarios.IterationOrder` | DataStructureLinkedList/src/data_structure/LinkedList.java:44-66 | a cursor over 1, 2, 3 returns 1, 2, 3 and then fails with `NoSuchElement` |
| `Scenarios.IterationOrderReversed` | DataStructureLinkedList/src/data_structure/LinkedList.java:222-248 | after reversing 1, 2, 3 a new cursor returns 3, 2, 1 |
| `Scenarios.ContainsWithDuplicates` | DataStructureLinkedList/src/data_structure/LinkedList.java:204-214 | after inserting 5, 5, 3 and removing one 5, both 5 and 3 are found and 7 is not |

## Left out

- The `Iterator<E>` interface, the `ListInterface<E>` the class implements and `Iterable`
  plumbing: `ListInterface` is not part of this model, and the cursor is a standalone class
  with `HasNext`, `Next` and `Remove`.
- Changing a list while a cursor over it is in use: the code neither detects nor defines
  it. `IteratorHelper.Valid()` reads the list's chain and holds after a change exactly
  when the cursor's node is still at position `pos` of `nodes` (or the cursor is
  exhausted and `pos` is the new length). Then `Remaining()` is what the Java cursor
  returns from there on: after `AddLast` it includes the new element, after `Reverse`
  the rewritten ones. Otherwise a caller can re-establish `Valid()` by moving the ghost
  `pos` exactly when the cursor's node is still in the chain or the cursor is exhausted:
  after `AddFirst` the cursor's node has moved to position `pos + 1`, and an exhausted
  cursor stays exhausted after `MakeEmpty`. After `MakeEmpty` with the cursor on a node,
  or after the removal of the cursor's node, `Valid()` cannot be re-established, so the
  model says nothing about such a cursor.
- Several lists sharing nodes: nodes are created only inside a list and never handed out,
  so the model does not state ownership between lists.
- The unchecked casts: the generic array `(E[]) new Object[currentSize]` and the raw
  `new Node(obj)`. In the model the buffer is an `array<E>`. Dafny cannot create an array
  of a generic type and of non-zero length without initial values, so a non-empty buffer
  is filled with the head's element before it is overwritten; an empty list gets a new
  array of length 0, as in the code.
- The `(Comparable<E>)` cast and its failure modes: a `ClassCastException` for elements
  that are not `Comparable`, a `NullPointerException` for a null element, and a
  `compareTo` with side effects. The comparison is a total, pure function parameter.
- `DataStructure.LinkedList.Size`: `currentSize` is a Java `int`; the model counts with an
  unbounded `nat` and does not model wrap-around after 2^31 - 1 insertions.
- Null elements as values: a list element that is itself `null` is not distinguished from
  the empty result, as in the code; the model's `Option` keeps the two apart.
- Reclaiming unlinked nodes: removed nodes simply leave the chain `nodes`.
