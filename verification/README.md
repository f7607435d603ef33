# Single linked list with a sentinel head

A Dafny model of `SingleLinkedList<Type>`, a generic singly linked list from a
small C++ teaching repository. The list owns a permanent sentinel node `head_`
whose `next_node` is the first element node (or null), plus a cached element
count `size_`. An iterator wraps a node pointer. `before_begin()` is the
sentinel, so "insert after" and "erase after" work in front of the first
element. Every list's `end()` is the null pointer.

The model keeps the C++ shape: `Node` and `SingleLinkedList` are heap classes.
Two ghost fields hold the abstraction:
- `Contents` is the element values in order.
- `Nodes` is the element nodes in chain order.

`Valid()` ties them to the heap:
- the sentinel links to the first node;
- every node links to the next one, and the last one links to null;
- no node appears twice, so the chain is acyclic;
- the nodes hold `Contents`;
- `size` equals `|Contents|`.

A position is a node reference. Its index counts from the sentinel:
- index 0 is the sentinel;
- index i + 1 is the node holding `Contents[i]`;
- index |Nodes| + 1 is the end position (null).

Mutators take that index as a ghost argument. The comparison operators are
methods that walk the node chains. They are specified against the pure strict
lexicographic order `Lexicographic.LexLess` on `seq<int>`. A lemma proves that
order equal to a first-difference reference definition.

Files:
- `single_linked_list.dfy`: module `LinkedList`. It holds `Node`, the class
  `SingleLinkedList` and the free `swap`.
- `lexicographic.dfy`: module `Lexicographic`. It holds the order on sequences
  and its properties.
- `list_spec.dfy`: module `ListSpec`. It holds insertion at and removal
  from an index of a sequence, the abstract effect of the two primitive
  mutations.
- `comparison.dfy`: module `ListComparison`. It holds `==`, `!=`, `<`, `<=`,
  `>`, `>=`.
- `properties.dfy`: module `ListProperties`. It holds copy round-trip, copy
  independence and the insert-then-erase round trip.

Decisions the code makes:
- `PopFront` on an empty list does nothing, because the code tests `size_`
  first.
- Construction from a sequence appends in the given order. It inserts after
  the last position of a temporary list, then swaps that list in.
- Assignment is skipped whenever the two lists' first-node pointers are equal.
  For two lists that own separate nodes, that happens only when both are empty.
  This is proved.
- `operator<` closes the right-hand range with `lhs.end()` instead of
  `rhs.end()`. That is harmless, because every end position is the same null
  pointer. `ListComparison.Less` passes `lhs.End()` for both ends, and
  `LexicographicalCompare` requires the second one to be `rhs.End()`. The
  verifier discharges that requirement.

## Model

| member | source | states |
|---|---|---|
| LinkedList.SingleLinkedList.GetSize | single-linked-list/single-linked-list.h:121-123 | the cached count equals the number of elements reachable from the sentinel |
| LinkedList.SingleLinkedList.IsEmpty | single-linked-list/single-linked-list.h:124-126 | true exactly when the list holds no elements |
| LinkedList.SingleLinkedList.Begin | single-linked-list/single-linked-list.h:131-133 | the first element's position; it equals the end position exactly when the list is empty |
| LinkedList.SingleLinkedList.End | single-linked-list/single-linked-list.h:134-136 | the end position is the one after the last element (null) |
| LinkedList.SingleLinkedList.BeforeBegin | single-linked-list/single-linked-list.h:149-151 | the before-the-first position is the sentinel, position index 0 |
| LinkedList.SingleLinkedList.Next | single-linked-list/single-linked-list.h:47-51 | advancing from position k, which is not the end, gives position k + 1 |
| LinkedList.SingleLinkedList.Deref | single-linked-list/single-linked-list.h:57-60 | dereferencing the element position k gives element k - 1; the sentinel and the end cannot be dereferenced |
| LinkedList.SingleLinkedList.SetValue | single-linked-list/single-linked-list.h:57-60 | assigning through the element position k replaces element k - 1 and nothing else; the nodes, the count and the invariant are kept |
| LinkedList.SingleLinkedList.PositionsEqualIffSameIndex | single-linked-list/single-linked-list.h:38-45 | iterator equality is node identity, so two positions of a list are equal iff their indices are |
| LinkedList.SingleLinkedList.Elements | single-linked-list/single-linked-list.h:164 | iterating from begin to end visits exactly the elements, in order |
| LinkedList.Node.constructor | single-linked-list/single-linked-list.h:8-12 | a new node holds the given value and successor link |
| ListSpec.InsertAt | single-linked-list/single-linked-list.h:103-107 | inserting after position k puts the new element at index k; earlier elements keep their index, later ones move up by one, and the length grows by one |
| ListSpec.EraseAt | single-linked-list/single-linked-list.h:108-112 | erasing after position k removes the element at index k; earlier elements keep their index, later ones move down by one, and the length drops by one |
| ListSpec.EraseAfterInsert | single-linked-list/single-linked-list.h:103-112 | erasing after the position just inserted after restores the original elements |
| ListSpec.InsertAfterErase | single-linked-list/single-linked-list.h:103-112 | re-inserting an erased element after the same position restores the original elements |
| ListSpec.AtFront | single-linked-list/single-linked-list.h:95-102 | inserting after the sentinel prepends, and erasing after it drops the first element, which is what `PushFront` and `PopFront` do |
| ListSpec.AtBack | single-linked-list/single-linked-list.h:160-168 | inserting after the last position appends, so building by repeated insertion after the last position keeps the input order |
| LinkedList.SingleLinkedList.InsertAfter | single-linked-list/single-linked-list.h:103-107 | a fresh node holding the value goes right after position k; the elements become `InsertAt(old, k, v)`, the node chain likewise, the count grows by 1, the returned position is the new node (index k + 1), and the invariant is kept |
| LinkedList.SingleLinkedList.EraseAfter | single-linked-list/single-linked-list.h:108-112 | requires position k to have a successor; exactly that element is removed, giving `EraseAt(old, k)`, and its node leaves the chain; the count drops by 1; the result is the position now after k, or end; the invariant is kept |
| LinkedList.SingleLinkedList.PushFront | single-linked-list/single-linked-list.h:95-97 | the value becomes the first element in front of the old ones, on a fresh first node in front of the old chain, so every old position stays valid; the count grows by 1 |
| LinkedList.SingleLinkedList.PopFront | single-linked-list/single-linked-list.h:98-102 | on an empty list nothing changes; otherwise the first element and its node are removed, the other nodes keep their order, and the count drops by 1 |
| LinkedList.SingleLinkedList.Clear | single-linked-list/single-linked-list.h:113-117 | terminates with no elements, size 0, `IsEmpty`, and begin equal to end |
| LinkedList.SingleLinkedList.Swap | single-linked-list/single-linked-list.h:127-130 | the two lists exchange their elements, chains and counts, each keeping its sentinel; both stay valid and own disjoint nodes |
| LinkedList.SwapLists | single-linked-list/single-linked-list.h:173-176 | the free swap does what the member swap does: the two arguments exchange their contents, node chains and counts, and stay disjoint |
| LinkedList.SingleLinkedList.Assign | single-linked-list/single-linked-list.h:85-91 | afterwards the target holds the right-hand side's elements, and the right-hand side is untouched; when the first-node pointers already matched (self-assignment or two empty lists) the target is unchanged |
| LinkedList.SingleLinkedList.constructor | single-linked-list/single-linked-list.h:92-94 | a default-constructed list is valid and empty |
| LinkedList.SingleLinkedList.FromValues | single-linked-list/single-linked-list.h:78-80 | a list built from a sequence of values holds exactly those values in the same order, on fresh nodes |
| LinkedList.SingleLinkedList.Copy | single-linked-list/single-linked-list.h:81-84 | a copy holds the source's elements in the same order, on fresh nodes disjoint from the source's |
| LinkedList.SingleLinkedList.CreateList | single-linked-list/single-linked-list.h:160-168 | the list ends up holding exactly the given values, in the same order, on freshly allocated nodes |
| LinkedList.SingleLinkedList.SharedFirstOnlyWhenEmpty | single-linked-list/single-linked-list.h:86 | two lists with separately owned nodes share a first position only when both are empty, so the guard skips only no-op assignments |
| ListProperties.CopyEqualsOriginal | single-linked-list/single-linked-list.h:81-84 | a copy of a list compares `==` to the list it was copied from |
| ListProperties.MutateAfterCopy | single-linked-list/single-linked-list.h:81-84 | a copy is built from its own fresh nodes, so pushing onto the source afterwards leaves the copy holding the source's old elements |
| ListProperties.InsertThenErase | single-linked-list/single-linked-list.h:103-112 | inserting after a position and then erasing after the same position leaves the list valid with its original elements and count |
| ListComparison.Equal | single-linked-list/single-linked-list.h:178-184 | `==` holds iff the counts agree and the elements agree pairwise in order, i.e. the element sequences are equal |
| ListComparison.NotEqual | single-linked-list/single-linked-list.h:186-189 | `!=` holds iff the element sequences differ |
| ListComparison.LexicographicalCompare | single-linked-list/single-linked-list.h:193 | walking both ranges in step decides the strict lexicographic order of the element sequences |
| ListComparison.Less | single-linked-list/single-linked-list.h:191-194 | `<` is strict lexicographic order on the element sequences, even though it closes the right range with the left list's end |
| ListComparison.LessOrEqual | single-linked-list/single-linked-list.h:196-199 | `<=`, defined as not `rhs < lhs`, holds iff lhs is lexicographically smaller than or equal to rhs |
| ListComparison.Greater | single-linked-list/single-linked-list.h:201-204 | `>`, defined as not `lhs <= rhs`, holds iff rhs is lexicographically smaller than lhs |
| ListComparison.GreaterOrEqual | single-linked-list/single-linked-list.h:206-209 | `>=`, defined as not `lhs < rhs`, holds iff rhs is lexicographically smaller than or equal to lhs |
| Lexicographic.LexLessIffFirstDifference | single-linked-list/single-linked-list.h:193 | the in-step comparison holds exactly when the sequences agree up to some index, and there the left one ends first or has the smaller element |
| Lexicographic.LexLessIrreflexive | single-linked-list/single-linked-list.h:191-194 | no sequence is smaller than itself |
| Lexicographic.LexLessAsymmetric | single-linked-list/single-linked-list.h:191-194 | two sequences are never each smaller than the other |
| Lexicographic.LexLessTransitive | single-linked-list/single-linked-list.h:191-194 | the order is transitive |
| Lexicographic.LexLessTrichotomy | single-linked-list/single-linked-list.h:191-194 | any two sequences are equal or one is smaller than the other |
| Lexicographic.NotGreaterIsLessOrEqual | single-linked-list/single-linked-list.h:196-209 | "not `b < a`" is the same as "`a < b` or `a == b`", which is what makes the derived `<=`, `>`, `>=` mean what their names say |

## Left out

- Memory management is not modelled: `new`/`delete` and the destructor (lines 104, 109, 118-120). Dafny is garbage-collected, so an erased node is simply unlinked and dropped from `Repr`.
- Allocation failure and the strong exception guarantee of assignment are not modelled. Dafny has no out-of-memory path.
- The element type is `int` instead of a template parameter. Equality and `<` on elements are Dafny's `==` and `<` on `int`.
- `size` is a `nat`, not the source's `size_t`. The count can never wrap: it only drops in `EraseAfter`, which needs an element to remove.
- Iterator plumbing is left out. That covers the typedefs (lines 26-30), `operator->` (61-64), post-increment (52-56), the const/non-const iterator split, the `const_cast` in `cbefore_begin`, the duplicated const `begin`/`end`/`cbegin`/`cend` overloads (137-148), and `cbefore_begin` with the const `before_begin` (152-157). One position type, `Node?`, stands for all of them. Reading through a position is `Deref`, and writing through a mutable iterator's `operator*` is `SetValue`.
- The debug `assert`s (lines 48, 58, 62, 82) are preconditions, not runtime checks. Line 82 is vacuous in the model: a freshly constructed list is always empty.
- Positions are passed together with a ghost index into the node chain. The source passes only the iterator; the index exists only to state the contracts.
- The copy constructor first collects the source's elements with `Elements` and then runs `CreateList` on that sequence. The source feeds the other list's iterator range to `CreateList` directly. The elements, order and fresh nodes are the same.
