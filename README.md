# Doubly linked list

A model of the generic C++ container `DoublyLinkedList<T>`: a chain of
heap-allocated nodes between two valueless sentinels, `head` and `tail`, with an
element counter `length`. It supports insertion at the head, at the tail and at
an index, deletion at an index, indexed access, search, in-place reversal,
rendering as text, a bidirectional iterator, deep copy, move, and the
destructor's walk over every node.

The repository's implementation file defines only the constructor and the
destructor (src/DoublyLinkedList.cpp:4-22). The rest of it is a `TODO`
(src/DoublyLinkedList.cpp:24). The header the tests include
(`src/DoublyLinkedList.h` in tests/test_basic.cpp:2, `include/DoublyLinkedList.h`
in tests/test_iterator.cpp:2) is not part of this model. The other operations
are therefore modelled as the test suite (tests/test_basic.cpp,
tests/test_iterator.cpp) exercises them, with these choices of the model's own:
positional walks start from the closer sentinel, reversal swaps every node's
links and then the sentinel roles, and only `insertAt`, `deleteAt` and `get`
report an out-of-range index.

The model has three modules:

- `Sequences` (Sequences.dfy) holds the abstract meaning of the operations as
  functions on the sequence of elements: insertion and removal at an index,
  reversal, first-index search, and rendering. It also proves their properties
  (round trips, reversal twice, uniqueness of the first index, the rendering of
  short lists).
- `LinkedList` (DoublyLinkedList.dfy) holds the imperative list. `Node<T>` is a
  class with `value`, `prev` and `next`. `DoublyLinkedList<T>` is a class whose
  ghost fields `Nodes` (the chain, sentinels included), `Contents` (the element
  values) and `Repr` (the owned nodes) are tied to the heap by the invariant
  `Valid()`. Every element operation is proved against `Contents`; the
  lifecycle members (`Destroy`, `NewChain`, `Reset`) and the iterator lemmas are
  stated over `Nodes` and the sentinels. The insertions,
  `DeleteAt`, `Reverse` and the two moves also state the new chain `Nodes`,
  which the iterator lemmas use; the copies state only that their chain is made
  of fresh nodes. The iterator
  is a value holding a node reference, and equality of iterators is equality of
  the nodes they reference.
- `Clients` (Clients.dfy) replays the test suite's scenarios through the
  specifications only. Each method states in its postcondition the outcome the
  test checks.

An out-of-range index becomes the result `Err(OutOfRange)` instead of an
exception. Indices are `int`, so negative indices reach the same error path.

## Model

| member | source | states |
|---|---|---|
| LinkedList.DoublyLinkedList.constructor | src/DoublyLinkedList.cpp:4-10 | a new list is valid and empty; its chain is exactly the two fresh sentinels, linked to each other |
| LinkedList.DoublyLinkedList.NewChain | src/DoublyLinkedList.cpp:6-9 | two fresh sentinels with head.next == tail, tail.prev == head and both outer links null |
| LinkedList.DoublyLinkedList.Destroy | src/DoublyLinkedList.cpp:13-22 | the destructor's walk from head along `next` visits exactly the chain, sentinels included, each node once and in order |
| LinkedList.DoublyLinkedList.Size | tests/test_basic.cpp:98-121 | the kept counter equals the number of elements |
| LinkedList.DoublyLinkedList.InsertAtHead | tests/test_basic.cpp:11-18 | the elements become [v] + old elements; the old nodes keep their places after one fresh node; the sentinels stay |
| LinkedList.DoublyLinkedList.InsertAtTail | tests/test_basic.cpp:20-27 | the elements become old elements + [v]; one fresh node sits just before the unchanged tail sentinel |
| LinkedList.DoublyLinkedList.InsertAt | tests/test_basic.cpp:98-130 | succeeds exactly when 0 <= i <= size; then the elements are the old ones with v inserted at i and the other nodes keep their order; otherwise OutOfRange and nothing changes |
| LinkedList.DoublyLinkedList.DeleteAt | tests/test_basic.cpp:133-166 | succeeds exactly when 0 <= i < size; then element i and only its node are removed and the other nodes keep their order; otherwise OutOfRange and nothing changes |
| LinkedList.DoublyLinkedList.Get | tests/test_basic.cpp:98-121 | Ok(element i) exactly when 0 <= i < size, otherwise Err(OutOfRange) |
| LinkedList.DoublyLinkedList.IndexOf | tests/test_basic.cpp:169-177 | the result is the index of the first element equal to v, or -1 when there is none |
| LinkedList.DoublyLinkedList.Contains | tests/test_basic.cpp:179-180 | true exactly when some element equals v |
| LinkedList.DoublyLinkedList.Reverse | tests/test_basic.cpp:184-203 | in place: the same set of nodes, no allocation; the chain (sentinels included) and the elements come out reversed and the invariant holds |
| LinkedList.DoublyLinkedList.Copy | tests/test_basic.cpp:257-266 | a deep copy: the same elements in a chain of fresh nodes owned by the copy alone |
| LinkedList.DoublyLinkedList.CopyFrom | tests/test_basic.cpp:268-274 | copy assignment: this list gets the other's elements in fresh nodes; the other list is untouched |
| LinkedList.DoublyLinkedList.Move | tests/test_basic.cpp:277-284 | move construction: the new list takes over the source's chain, sentinels and elements; the source is left a valid empty list with fresh sentinels |
| LinkedList.DoublyLinkedList.MoveFrom | tests/test_basic.cpp:286-291 | move assignment: this list takes over the other's chain, sentinels and elements; the other is left a valid empty list |
| LinkedList.DoublyLinkedList.Begin | tests/test_iterator.cpp:100-107 | begin() references the node after the head sentinel, and begin() == end() exactly when the list is empty |
| LinkedList.DoublyLinkedList.End | tests/test_iterator.cpp:46 | end() references the tail sentinel |
| LinkedList.DoublyLinkedList.NextStep | tests/test_iterator.cpp:15-23 | ++ from chain position k (not the tail sentinel) reaches position k + 1 |
| LinkedList.DoublyLinkedList.PrevStep | tests/test_iterator.cpp:37-56 | -- from chain position k (with a real node before it) reaches position k - 1 |
| LinkedList.DoublyLinkedList.ValueAt | tests/test_iterator.cpp:15-23 | * at chain position k of a real node yields element k - 1 |
| LinkedList.DoublyLinkedList.IteratorsEqual | tests/test_iterator.cpp:127-141 | two iterators into one list are equal exactly when their chain positions are equal |
| LinkedList.DoublyLinkedList.IteratorsOfOtherList | tests/test_iterator.cpp:127-141 | iterators into two lists that share no node are never equal |
| LinkedList.DoublyLinkedList.Elements | tests/test_iterator.cpp:6-34 | forward iteration from begin() to end() visits exactly the elements, in order |
| LinkedList.DoublyLinkedList.ElementsBackward | tests/test_iterator.cpp:37-56 | stepping back from end() until begin() visits exactly the elements in reverse order |
| LinkedList.DoublyLinkedList.ToString | tests/test_basic.cpp:247-254 | the text is "[" + the elements' texts joined by ", " + "]", using the formatter when one is given and the default text otherwise |
| Sequences.FirstIndex | tests/test_basic.cpp:169-177 | -1 exactly when x is absent; otherwise an index holding x with no x before it |
| Sequences.InsertedAtPlaces | tests/test_basic.cpp:98-121 | insertion puts x at i, keeps the elements before i and shifts the later ones one place right |
| Sequences.InsertedAtEnds | tests/test_basic.cpp:102-120 | insertion at index 0 is insertion at the head; at index size it is insertion at the tail |
| Sequences.RemovedAtPlaces | tests/test_basic.cpp:133-157 | deletion keeps the elements before i and shifts the later ones one place left |
| Sequences.RemoveUndoesInsert | tests/test_basic.cpp:98-157 | deleting at i undoes inserting at i |
| Sequences.InsertUndoesRemove | tests/test_basic.cpp:98-157 | inserting the deleted element back at i restores the sequence |
| Sequences.ReversedAt | tests/test_basic.cpp:184-203 | element k of the reversal is element size - 1 - k |
| Sequences.ReversedTwice | tests/test_basic.cpp:307-317 | reversing twice gives back the original sequence |
| Sequences.ReversedShort | tests/test_basic.cpp:200-203 | empty and one-element sequences are their own reversal |
| Sequences.FirstIndexUnique | tests/test_basic.cpp:174-177 | an index holding x with no earlier x is the first index of x |
| Sequences.RenderThree | tests/test_basic.cpp:247-254 | lists of one, two and three elements render as their texts, comma-space separated, in brackets |
| Clients.InsertAtHeadTwice | tests/test_basic.cpp:11-18 | two head insertions of 2 then 1: size 2, get(0) = 1, get(1) = 2 |
| Clients.InsertAtTailTwice | tests/test_basic.cpp:20-27 | two tail insertions of 1 then 2: size 2, get(0) = 1, get(1) = 2 |
| Clients.AlternateHeadAndTail | tests/test_basic.cpp:331-342 | alternating head and tail insertions give size 4, first 4, last 7 |
| Clients.InsertAtPositions | tests/test_basic.cpp:98-121 | insertAt at 0, 0, 1 and size gives sizes 1, 2, 3, 4 and the placed values 10, 5, 7, 12 |
| Clients.IndicesOutOfRange | tests/test_basic.cpp:124-166 | insertAt past size, deleteAt and get on an empty list, and deleteAt past the end all give OutOfRange |
| Clients.DeleteMiddle | tests/test_basic.cpp:37-43 | deleting index 1 of [1, 2, 3] gives size 2, get(0) = 1, get(1) = 3 |
| Clients.ReverseOdd | tests/test_basic.cpp:45-50 | reversing [1, 2, 3] gives get(0) = 3, get(2) = 1 |
| Clients.ReverseEvenAndEmpty | tests/test_basic.cpp:184-203 | reversing [1, 2, 3, 4] gives get(0) = 4, get(3) = 1; an empty list stays empty |
| Clients.ReverseLarge | tests/test_basic.cpp:295-305 | a list 0 .. 999 has size 1000 and last 999; after reversal get(0) = 999 and get(999) = 0 |
| Clients.SearchAfterDelete | tests/test_basic.cpp:319-327 | after deleting 2 from [0, 1, 2, 3, 4], contains(2) is false and indexOf(3) = 2 |
| Clients.DeleteToEmpty | tests/test_basic.cpp:133-157 | deleting head, tail, middle and last gives sizes 3, 2, 1, 0, the remaining values 2, 3, 3, then get(0) fails |
| Clients.SearchCharacters | tests/test_basic.cpp:174-175 | in [a, b, c, b], indexOf(a) = 0 and indexOf(c) = 2 |
| Clients.SearchRepeatedAndAbsent | tests/test_basic.cpp:176-177 | in [a, b, c, b], indexOf(b) = 1 (first occurrence) and indexOf(x) = -1 |
| Clients.ContainsCharacters | tests/test_basic.cpp:179-180 | in [a, b, c, b], contains(c) holds and contains(x) does not |
| Clients.ReverseTwiceKeepsText | tests/test_basic.cpp:307-317 | the text of [2, 4, 6, 8] is the same before and after reversing twice |
| Clients.FormatterWins | tests/test_basic.cpp:75-88 | with a formatter the text of [3, 4] uses the formatter's texts; without, the default texts |
| Clients.EmptyIteration | tests/test_iterator.cpp:100-107 | on an empty list begin() == end(), iteration visits nothing and the text is "[]" |
| Clients.BothDirections | tests/test_basic.cpp:207-224 | forward iteration over [1, 2, 3, 4] visits 1, 2, 3, 4; backward from end() visits 4, 3, 2, 1 |
| Clients.IteratorSurvivesDelete | tests/test_iterator.cpp:110-124 | an iterator on 1 still reads 1 after element 2 is deleted, and ++ reaches 3, not end() |
| Clients.IteratorEquality | tests/test_iterator.cpp:127-141 | two begin() iterators are equal; after ++ they differ; after -- they are equal again |
| Clients.CopyIsIndependent | tests/test_basic.cpp:257-266 | a copy keeps size 3 and first 1 after the original loses an element |
| Clients.AssignedCopyIsIndependent | tests/test_basic.cpp:268-274 | an assigned copy keeps size 3 and get(1) = 2 after the source loses an element |
| Clients.MoveConstruction | tests/test_basic.cpp:277-284 | the moved-to list has size 1 and get(0) = 99; the moved-from list is empty |
| Clients.MoveAssignment | tests/test_basic.cpp:286-291 | the assigned-to list has size 1 and get(0) = 99; the moved-from list is empty |

## Left out

- Memory release. `Destroy` models the destructor's walk and returns the released nodes in order, but Dafny has no deallocation. `DeleteAt` drops the unlinked node from `Repr` instead of freeing it.
- The explicit template instantiations (src/DoublyLinkedList.cpp:26-32). The model is generic in `T`; the `Point` element type and the floating-point instantiations are not modelled.
- `std::to_string` and the element type's default text. They become the function parameter `defaultText` of `ToString`.
- LinkedList.DoublyLinkedList.Get: returns the element's value. The C++ `get` returns a reference through which a caller may update the element in place; that write path is not modelled.
- LinkedList.DoublyLinkedList.ValueAt: `*it` is read-only in the model; writing through a dereferenced iterator is not modelled.
- The `const` overloads of `begin`/`end` and the const-list iteration test (tests/test_iterator.cpp:85-97). They behave as the non-const ones.
- The accumulate and find loops of tests/test_iterator.cpp:59-82. They are plain iteration, which `Elements` covers; their arithmetic is not restated.
- Iterators on a sentinel. No test dereferences a sentinel or steps `--` from the first element onto the head sentinel, and whether the latter is allowed is not settled by the repository. In the model `Iterator.Prev()` does step onto the head sentinel (it requires only a non-null `prev`), and `Iterator.Value()` there returns the sentinel's value, the default value of `T`; `++` past the tail sentinel is excluded by `Iterator.Next()`'s requires. The lemmas `NextStep`, `PrevStep` and `ValueAt` state results only for positions of real nodes (and, for `NextStep`, the step onto the tail sentinel), so nothing is proved about an iterator on the head sentinel.
- An iterator whose own node was deleted. Using it is undefined in C++ and is not modelled.
- Self-assignment. `CopyFrom` and `MoveFrom` with the list itself change nothing; the source does not show how it treats this case.
- The doctest harness, the stream output of the range-based-for test and the build files.
- Concurrency. The container is single-threaded.
- LinkedList.DoublyLinkedList.IteratorsOfOtherList: `Valid()` puts every chain node in `Repr` but does not state that `Repr` holds nothing else, so the lemma asks for disjoint `Repr` sets rather than only disjoint chains. Every constructor gives a list a fresh `Repr`, so lists built apart meet it.
- Integer width. `length`, the indices and the result of `indexOf` are unbounded `int`/`nat` in the model, whereas the C++ counter and indices have a fixed width; overflow is not modelled, and no operation of the list depends on it.
