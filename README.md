# SingleLinkedList in Dafny

A model of `SingleLinkedList<Type>`, the C++ singly linked list of
`single-linked-list/single-linked-list.h`, with proofs of what its operations do.

The C++ list is a class holding a sentinel node `head_` and a count `size_`.
The real nodes hang off `head_.next_node`. Each node is a heap object holding
a value and a pointer to the next node. In the model:

- `NodeChain.Node` is the node. Its `next` field is updated in place, as in
  the C++.
- `LinkedList.SingleLinkedList` is a class with the sentinel `head` and the
  count `size`. Its methods change the nodes' `next` fields and `size` step by
  step, as the C++ does.
- Ghost fields give the abstract view:
  - `Contents` is the sequence of elements.
  - `Nodes` is the chain of nodes, sentinel first.
  - `Repr` is the set of objects the list owns.
- `Valid()` is the representation invariant. The chain from the sentinel is a
  sequence of distinct nodes ending in null, its values spell `Contents`, and
  `size` counts the real nodes.
- Iterators are the datatype `NodeChain.Iter`, which wraps a nullable node
  pointer:
  - `++` is `Next` and `*` is `Deref`;
  - iterator `==` is pointer identity;
  - `PositionAt(k)` names the position after `k` nodes. It is before-begin for
    0, begin for 1 and end for `|Nodes|`.

`ListComparison` models the free comparison operators: `==`, `!=` and `<`
walk both lists side by side. It also defines `std::lexicographical_compare`
as a function on sequences, `Lexicographic`, and proves the properties of that
ordering.

`ListScenarios` holds client code that combines operations:

- push-then-pop restores the list;
- insert-then-erase at the same position restores the list;
- swapping twice restores both lists;
- a copy is independent of its original, both ways: growing the copy leaves
  the original alone, and changing the original leaves the copy alone;
- after `Clear`, `begin() == end()`;
- inserting at the front of `[2, 3]` through before-begin and erasing there
  again;
- erasing after the last element of `[1, 2]`;
- comparing `[1, 2, 3]`, `[1, 2, 2]`, `[1, 2]` and empty lists.

## Model

| member | source | states |
|---|---|---|
| NodeChain.Node.Sentinel | single-linked-list/single-linked-list.h:12-18 | the default-constructed node, used as the list's sentinel `head_`, links to null |
| NodeChain.Next | single-linked-list/single-linked-list.h:56-60 | `++` moves a position to its node's successor; the precondition `it.node != null` is the C++ `assert(this->node_ != nullptr)`; `NextAdvances` gives its meaning over a list |
| NodeChain.Deref | single-linked-list/single-linked-list.h:68-71 | `*` yields the value of the node a position refers to; the precondition `it.node != null` is the C++ `assert(this->node_ != nullptr)`; `DerefAt` gives its meaning over a list |
| NodeChain.Node.constructor | single-linked-list/single-linked-list.h:13-16 | a new node holds the given value and links to the given successor |
| LinkedList.SingleLinkedList.constructor | single-linked-list/single-linked-list.h:83 | the default list is valid and empty, with size 0, and owns only fresh objects |
| LinkedList.SingleLinkedList.FromSeq | single-linked-list/single-linked-list.h:85-87 | the list built from an initializer list holds exactly those values in the same order, and its size is their number |
| LinkedList.SingleLinkedList.Copy | single-linked-list/single-linked-list.h:89-91 | the copy holds the other list's elements in order and has the same size; all its nodes are fresh, so it shares no node with the original |
| LinkedList.SingleLinkedList.Elements | single-linked-list/single-linked-list.h:90 | walking from `begin()` to `end()` yields exactly the list's elements in order (the range the copy constructor reads) |
| LinkedList.SingleLinkedList.CopyAssign | single-linked-list/single-linked-list.h:93-97 | afterwards `lhs` holds `rhs`'s elements and size; `rhs` is left valid and unchanged; self-assignment keeps the contents |
| LinkedList.SingleLinkedList.Swap | single-linked-list/single-linked-list.h:99-102 | contents, sizes and node chains are exchanged; both lists stay valid; each list's footprint is its own sentinel plus the other's old nodes |
| LinkedList.Swap | single-linked-list/single-linked-list.h:222-225 | the free `swap` promises what the member does: contents, sizes and chains are exchanged, both lists stay valid, and each footprint is its own sentinel plus the other's old nodes, so the lists stay disjoint |
| LinkedList.SingleLinkedList.GetSize | single-linked-list/single-linked-list.h:104-106 | the stored count equals the number of elements |
| LinkedList.SingleLinkedList.IsEmpty | single-linked-list/single-linked-list.h:108-110 | the list is empty exactly when it has no elements |
| LinkedList.SingleLinkedList.PushFront | single-linked-list/single-linked-list.h:112-115 | contents become `[value] + old contents` and the size grows by one; the new first node is freshly allocated and the old nodes stay, in order, behind it |
| LinkedList.SingleLinkedList.Clear | single-linked-list/single-linked-list.h:117-124 | the loop ends with no elements, size 0, and the sentinel linking to null; the list stays valid after each removal |
| LinkedList.SingleLinkedList.Begin | single-linked-list/single-linked-list.h:136-138 | `begin()` is the position of the first element |
| LinkedList.SingleLinkedList.End | single-linked-list/single-linked-list.h:140-142 | `end()` is the position after the last node |
| LinkedList.SingleLinkedList.BeginIsEndIffEmpty | single-linked-list/single-linked-list.h:136-142 | `begin() == end()` holds exactly when the list is empty |
| LinkedList.SingleLinkedList.BeforeBegin | single-linked-list/single-linked-list.h:160-162 | `before_begin()` is the position of the sentinel |
| LinkedList.SingleLinkedList.NextAdvances | single-linked-list/single-linked-list.h:56-60 | `++` moves every position other than the end to the next one; the last element's successor is the end |
| LinkedList.SingleLinkedList.DerefAt | single-linked-list/single-linked-list.h:68-71 | `*` at the position after `k` nodes yields the `k`-th element |
| LinkedList.SingleLinkedList.PositionsEqual | single-linked-list/single-linked-list.h:40-54 | two positions of a list compare equal exactly when they are the same position |
| LinkedList.SingleLinkedList.InsertAfter | single-linked-list/single-linked-list.h:172-180 | for `pos` at node index `k`, `value` enters the contents at index `k` and the new node enters the chain right after `pos`; the size grows by one; the result refers to the fresh node, which holds `value` and links to `pos`'s old successor |
| LinkedList.SingleLinkedList.PopFront | single-linked-list/single-linked-list.h:182-189 | on an empty list nothing changes; otherwise the first element and node are dropped and the size shrinks by one |
| LinkedList.SingleLinkedList.EraseAfter | single-linked-list/single-linked-list.h:191-200 | when `pos` has a successor, that element and node are removed, the size shrinks by one, and the result is the position that now follows `pos`; when `pos` is the end or the last node, nothing changes and the end is returned |
| LinkedList.SingleLinkedList.Assign | single-linked-list/single-linked-list.h:206-219 | filling an empty list yields exactly `values` in order, with size `|values|`; every real node of the new chain is freshly allocated |
| LinkedList.SingleLinkedList.LinkLast | single-linked-list/single-linked-list.h:212-215 | one loop step appends a fresh node holding the value behind the last node; contents gain the value at the back; the list stays valid |
| ListComparison.Equal | single-linked-list/single-linked-list.h:227-237 | `==` holds exactly when the two lists have the same elements in the same order (same size, pairwise equal), including a list compared with itself |
| ListComparison.NotEqual | single-linked-list/single-linked-list.h:239-242 | `!=` holds exactly when the element sequences differ |
| ListComparison.LessThan | single-linked-list/single-linked-list.h:244-247 | the lockstep walk computes `std::lexicographical_compare`: true exactly when some index has equivalent elements before it and, at it, `lhs` has ended while `rhs` goes on or `lhs`'s element is less |
| ListComparison.LexicographicIff | single-linked-list/single-linked-list.h:244-247 | the recursive lexicographical compare is true exactly when a deciding index exists, in both directions |
| ListComparison.LexicographicIrreflexive | single-linked-list/single-linked-list.h:244-247 | under a strict total order on elements, no list is less than itself |
| ListComparison.LexicographicTransitive | single-linked-list/single-linked-list.h:244-247 | under a strict total order, `<` on lists is transitive |
| ListComparison.LexicographicTrichotomy | single-linked-list/single-linked-list.h:244-247 | under a strict total order, exactly one of `a < b`, `a == b`, `b < a` holds |
| ListComparison.LexicographicPrefix | single-linked-list/single-linked-list.h:244-247 | a proper prefix is less than the longer list, whatever the element order |
| ListComparison.GreaterThan | single-linked-list/single-linked-list.h:254-257 | `>` is `rhs < lhs`; under a strict total order it excludes both `lhs < rhs` and equality |
| ListComparison.LessOrEqual | single-linked-list/single-linked-list.h:249-252 | `<=` is the negation of `>`; under a strict total order it means `lhs < rhs` or equal contents |
| ListComparison.GreaterOrEqual | single-linked-list/single-linked-list.h:259-262 | `>=` is the negation of `<`; under a strict total order it means `rhs < lhs` or equal contents |
| ListScenarios.PushThenPop | single-linked-list/single-linked-list.h:182-189 | `PopFront` right after `PushFront` restores the contents and size |
| ListScenarios.InsertThenErase | single-linked-list/single-linked-list.h:191-200 | `EraseAfter(pos)` right after `InsertAfter(pos, v)` restores the contents and size, and returns `pos`'s original successor |
| ListScenarios.SwapTwice | single-linked-list/single-linked-list.h:99-102 | two swaps restore both lists' contents and node chains |
| ListScenarios.CopyIsIndependent | single-linked-list/single-linked-list.h:89-91 | growing a copy leaves the original's contents unchanged |
| ListScenarios.OriginalChangeLeavesCopy | single-linked-list/single-linked-list.h:89-91 | after copying a list, pushing onto the original leaves the copy holding the original's old contents |
| ListScenarios.ClearedIsEmpty | single-linked-list/single-linked-list.h:117-124 | after `Clear` the list is empty and `begin() == end()` |
| ListScenarios.FrontInsertErase | single-linked-list/single-linked-list.h:172-180 | on `[2, 3]`, inserting 1 after before-begin gives `[1, 2, 3]`, and erasing after before-begin gives `[2, 3]` again |
| ListScenarios.EraseAfterLast | single-linked-list/single-linked-list.h:191-200 | erasing after the last element of `[1, 2]` leaves it unchanged and returns `end()` |
| ListScenarios.EqualExample | single-linked-list/single-linked-list.h:227-237 | two lists built from `[1, 2, 3]` compare equal |
| ListScenarios.NotEqualExample | single-linked-list/single-linked-list.h:239-242 | `[1, 2, 3] != [1, 2, 2]` |
| ListScenarios.PrefixExample | single-linked-list/single-linked-list.h:244-247 | `[1, 2] < [1, 2, 3]` under `<` on int |
| ListScenarios.EmptyExample | single-linked-list/single-linked-list.h:227-237 | two empty lists compare equal |

## Left out

- Memory management is not modelled: `delete` in `Clear`, `PopFront` and `EraseAfter`, and the destructor (`~SingleLinkedList`, which calls `Clear`). Unlinked nodes simply become unreachable.
- Allocation failure is not modelled, because Dafny's `new` cannot fail. So the failure-safety that building into a scratch list and swapping provides in `Assign` is not captured; only its result is.
- Writes through `*it` are not modelled: a node's value is a `const` field, so the model's `*` only reads.
- These iterator members are not modelled, because they add no behaviour over `++` and `*`:
  - the post-increment `it++`;
  - `operator->`;
  - the iterator's default and converting constructors and its assignment.
- The const overloads `begin() const`, `end() const`, `cbegin`, `cend`, `cbefore_begin` and `before_begin() const` are not modelled separately. They return the same positions as the non-const ones.
- Iterators into another list, or into nodes already unlinked, are excluded by preconditions (`pos.node in Nodes`) rather than modelled as undefined behaviour.
- LinkedList.SingleLinkedList.EraseAfter, LinkedList.SingleLinkedList.PopFront and LinkedList.SingleLinkedList.Clear: each states `Repr == old(Repr)`, so unlinked nodes stay in the footprint. `Repr` is a superset of the live nodes rather than exactly them, because the C++ deletes those nodes and they no longer matter.
- LinkedList.SingleLinkedList.Swap: requires the two lists to be the same object or to own disjoint sets of nodes. In the C++ this holds by construction, because every node has exactly one owning list.
- LinkedList.SingleLinkedList.Assign: takes the iterator range as a sequence of values. The initializer-list constructor passes its values directly.
- LinkedList.SingleLinkedList.Copy: reads the other list's elements with `Elements` (the same walk from `begin()` to `end()`) before linking the new nodes. The C++ interleaves reading and linking; the result is the same, because the other list is not changed.
- `size_t` is modelled as an unbounded `nat`. A list cannot hold enough nodes to wrap it.
- Element `operator==` is modelled as Dafny equality.
- Element `operator<` is modelled as a parameter `less`:
  - The ordering lemmas and the ordering clauses of `<=`, `>` and `>=` assume `less` is a strict total order.
  - For element types with references, the ordering members (`LessThan`, `LessOrEqual`, `GreaterThan`, `GreaterOrEqual` and the `Lexicographic` lemmas) are not modelled (`T(!new)`); `Equal` and `NotEqual` cover every element type.
