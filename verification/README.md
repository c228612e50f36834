# manim-data-structures: the list and index logic, in Dafny

The package draws classic data structures as animated widgets for the manim
animation library. Under the drawing there are four pieces of plain list and
index logic. This project models them, with every visual object replaced by the
integer it displays:

- **`BinaryHeap`**: an array heap in a Python list `lst`, with the length in
  `size` and a caller-supplied `compare`. `push` sifts up and `pop` sifts down.
  `BinaryHeaps.Push` and `BinaryHeaps.SiftDown` are loops over `seq<int>` whose
  invariants carry heap order and multiset preservation. `BinaryHeaps.Pop` moves
  the last element to the root and calls `SiftDown`. Heap order is promised
  whenever `compare` is a strict weak order (`Orders.StrictWeakOrder`) and the
  heap was ordered before. The source accepts any `compare`, so the model does
  too, and only the order claims depend on it.
- **`LinearCollection`**: a drop-in stand-in for a Python list. It supports
  insertion, append and extend, removal, subscripting and concatenation, with
  Python's subscript rules: negative subscripts count from the end, and an
  out-of-range subscript raises `IndexError` (`Failure(IndexError)` here).
  Besides the values, the model keeps the length of the Mobject's
  `submobjects` list, because `pop` indexes that list and can fail there. The
  six comparison operators are modelled as written and related to a textbook
  lexicographic order (`LinearCollections.LexLess`). `==` and `!=` are modelled
  both as the methods `__eq__`/`__ne__` and as Python's operators, which may
  call the right operand's method first.
- **`Stack`**: a collection without a delimiter. Push appends, peek reads
  subscript `-1`, and pop is the collection's `pop(-1)`.
- **`N_ary_tree` edges**: `[(e // k, e + 1) for e in range(n - 1)]`. These
  edges are proved to form a tree rooted at 0 with at most `k` children per
  vertex. For `k = 2` they agree with the heap's parent formula.

Some behaviours the code has and a reader might not expect:

- `push` onto an empty heap computes parent index `(0 - 1) // 2 = -1`, which
  Python reads as the last element, the new value itself. If `compare(v, v)`
  holds, the loop never ends. `Push` therefore requires
  `|lst| > 0 || !compare(val, val)`.
- `insert` clamps the position like `list.insert` does, but then reads
  `datas[index]` with the raw subscript. So only `-(n+1) <= index <= n`
  succeeds. Anything else raises `IndexError`.
- `LinearCollection.pop(index)` pops subscript `2 * index` of the submobject
  list twice. Each insertion adds one submobject, or two with a delimiter.
  `__delitem__` removes none, and a successful `pop` removes two. A `Stack` has
  no delimiter, so its `pop()` raises `IndexError` unless the submobject list
  holds at least three entries. A stack that was only pushed to pops only from
  three elements up (`Stacks.PopNeedsThreePushes`). After one pop, a stack of
  three elements can fail to pop (`Stacks.PopAfterPopAndPushFails`).
- `pop` ends in `pass`, so it returns `None`. `Stack.pop` returns the same
  `None`. The models return only the new state.
- `__eq__` compares `type(rhs)` with `LinearCollection` exactly, so the method
  is not symmetric. Python's `==` calls the right operand's `__eq__` first when
  its class is a proper subclass of the left's. So `collection == stack` holds
  when the values agree, in either order
  (`Stacks.CollectionEqualsStackWithSameValues`). A stack is never `==` to a
  stack, not even itself (`Stacks.StackNeverEqualsStack`).

Files: `wrappers.dfy` (Result/Error), `pylists.dfy` (Python subscript rules),
`orders.dfy` (strict weak orders), `binary_heap.dfy`,
`linear_collection.dfy`, `stack.dfy`, `nary_tree.dfy`.

## Model

| member | source | states |
|---|---|---|
| BinaryHeaps.New | src/manim_data_structures/binary_heap.py:12-21 | a new heap holds exactly `[11]` with `size == 1`, keeps the given `compare`, and is valid and heap-ordered |
| BinaryHeaps.Swap | src/manim_data_structures/binary_heap.py:38 | the tuple swap exchanges two positions, leaves every other one alone, and keeps the multiset of values |
| BinaryHeaps.Push | src/manim_data_structures/binary_heap.py:31-43 | `size == len(lst)` is kept; the list grows by one; the new list is a permutation of `old + [val]`; under a strict weak order, an ordered heap stays ordered; the loop terminates because `cur` strictly decreases and the break at 0 stops it |
| BinaryHeaps.SiftUpStep | src/manim_data_structures/binary_heap.py:37-40 | one swap of a new element that belongs above its parent moves the single out-of-order edge one level up, and at the root leaves the heap ordered |
| BinaryHeaps.SiftUpDone | src/manim_data_structures/binary_heap.py:37-42 | sift-up that stops at the root, or where the element no longer beats its parent, leaves the heap ordered |
| BinaryHeaps.PickChild | src/manim_data_structures/binary_heap.py:52-60 | the chosen index is `cur` or an in-range child; under a strict weak order a moved-to child beats `cur`, and no in-range child beats the chosen element |
| BinaryHeaps.SiftDownStep | src/manim_data_structures/binary_heap.py:61-65 | swapping `cur` with its chosen child moves the out-of-order region down to that child |
| BinaryHeaps.SiftDownDone | src/manim_data_structures/binary_heap.py:61-62 | when neither child beats `cur`, the heap is ordered |
| BinaryHeaps.SiftDown | src/manim_data_structures/binary_heap.py:50-65 | the sift-down loop keeps the length and the multiset; from a heap ordered everywhere except under the root, it yields an ordered heap; it terminates because `cur` strictly increases |
| BinaryHeaps.ReplaceRootWithLast | src/manim_data_structures/binary_heap.py:47-48 | moving the last element to the root and dropping the last slot removes exactly one copy of the old root |
| BinaryHeaps.PopStartsOrderedBelowRoot | src/manim_data_structures/binary_heap.py:47-50 | after that move, only the edges into the root can be out of order |
| BinaryHeaps.RootIsExtreme | src/manim_data_structures/binary_heap.py:46 | in a heap ordered under a strict weak order, no element beats the root |
| BinaryHeaps.RemainderNotAboveRoot | src/manim_data_structures/binary_heap.py:46-66 | no element left after the root's removal beats the removed root |
| BinaryHeaps.Pop | src/manim_data_structures/binary_heap.py:45-66 | an empty heap raises IndexError, and only an empty one does; otherwise it returns the old `lst[0]`, the list is one shorter, it equals the old multiset minus one copy of the root, and `size` drops by one (so `size == len(lst)` is kept); under a strict weak order an ordered heap stays ordered, and no remaining element beats the returned root |
| BinaryHeaps.ParentMatchesTreeEdges | src/manim_data_structures/binary_heap.py:36 | for every vertex `j >= 1`, the heap parent `(j - 1) // 2` is the one parent the arity-2 tree edge list gives `j` |
| BinaryHeaps.HeapOrderedOnTreeEdges | src/manim_data_structures/binary_heap.py:23-29 | a list is heap-ordered exactly when every edge of the binary tree built over it has a child that does not beat its parent |
| Orders.IntComparisonsAreStrictWeakOrders | src/manim_data_structures/binary_heap.py:73 | `x < y` (the demo's min-heap comparison) and `x > y` are strict weak orders |
| LinearCollections.Empty | src/manim_data_structures/mlinearcollection.py:32-35 | the data list and the submobject list start empty |
| LinearCollections.Insert | src/manim_data_structures/mlinearcollection.py:63-72 | succeeds exactly when `-(n+1) <= index <= n`; it then puts the value at `index`, or at `index + n` for a negative index, or first for `-(n+1)`, with the old values before and after it in order; the submobject list gains one entry, two with a delimiter |
| LinearCollections.Append | src/manim_data_structures/mlinearcollection.py:56-57 | `append(v)` always succeeds, yields `old + [v]`, and adds one submobject per element part |
| LinearCollections.Extend | src/manim_data_structures/mlinearcollection.py:59-61 | `extend(vs)` yields `old + vs` and adds `len(vs)` times the parts per element to the submobject list |
| LinearCollections.FromValues | src/manim_data_structures/mlinearcollection.py:43-44 | constructing from `data` yields exactly `data`, in order, with one submobject per value, two with a delimiter |
| LinearCollections.FromValuesThenExtend | tests/test_mlinearcollection.py:6-35 | construction followed by `extend` holds the values of both in order, and subscript `i` of a constructed collection reads `data[i]` |
| LinearCollections.DelItem | src/manim_data_structures/mlinearcollection.py:164-168 | `del c[key]` succeeds exactly when `-n <= key < n`; it then removes just that position, the others keep their order, and the submobject list is untouched |
| LinearCollections.Pop | src/manim_data_structures/mlinearcollection.py:80-86 | `pop(index)` succeeds exactly when `index` is in range for the data and `2 * index` is in range for the submobject list after its first pop; it then removes the same value `del` would and two submobjects, and returns no element |
| LinearCollections.Clear | src/manim_data_structures/mlinearcollection.py:88-93 | `clear()` leaves no values and no submobjects |
| LinearCollections.GetItem | src/manim_data_structures/mlinearcollection.py:156-158 | `c[key]` succeeds exactly when `-n <= key < n`, and reads position `key`, or `n + key` for a negative key |
| LinearCollections.SetItem | src/manim_data_structures/mlinearcollection.py:160-162 | `c[key] = v` succeeds exactly when `-n <= key < n`; it keeps the length, writes `v` at that position, and changes nothing else |
| LinearCollections.SetThenGet | tests/test_mlinearcollection.py:38-47 | after `c[i] = v`, `c[i]` reads `v`, and every other subscript reads what it read before |
| LinearCollections.InsertThenDelete | src/manim_data_structures/mlinearcollection.py:63-68 | for `0 <= i <= n`, `insert(i, v)` succeeds, `c[i]` then reads `v`, and `del c[i]` gives back the original values while the inserted submobjects stay |
| LinearCollections.Add | tests/test_mlinearcollection.py:58-71 | `a + b` has length `len(a) + len(b)`, holds `a`'s values first, then `b`'s |
| LinearCollections.Mismatch | src/manim_data_structures/mlinearcollection.py:121-123 | the scan over `zip(self, rhs)` stops at the first position where the values differ, and finds none exactly when one side is a prefix of the other |
| LinearCollections.FirstDifferenceIsLex | src/manim_data_structures/mlinearcollection.py:121-124 | letting the first differing pair decide, and the lengths otherwise, is lexicographic order |
| LinearCollections.Lt | src/manim_data_structures/mlinearcollection.py:120-124 | `a < b` holds exactly when `a` is a proper prefix of `b`, or holds the smaller value at the first position where they differ |
| LinearCollections.Le | src/manim_data_structures/mlinearcollection.py:126-130 | `a <= b` holds exactly when `a` is lexicographically below `b` or has the same values |
| LinearCollections.Gt | src/manim_data_structures/mlinearcollection.py:140-144 | `a > b` holds exactly when `b` is lexicographically below `a` |
| LinearCollections.Ge | src/manim_data_structures/mlinearcollection.py:146-150 | `a >= b` holds exactly when `b` is lexicographically below `a` or has the same values |
| LinearCollections.MismatchSymmetric | src/manim_data_structures/mlinearcollection.py:140-143 | the first difference is the same whichever side is scanned first |
| LinearCollections.GtMirrorsLt | src/manim_data_structures/mlinearcollection.py:140-150 | `a > b` exactly when `b < a`, and `a >= b` exactly when `b <= a` |
| LinearCollections.LeIsLtOrEqual | src/manim_data_structures/mlinearcollection.py:126-130 | `a <= b` exactly when `a < b` or the contents are equal; likewise `>=` with `>` |
| LinearCollections.LtTrichotomy | src/manim_data_structures/mlinearcollection.py:120-124 | exactly one of `a < b`, equal contents, `b < a` holds |
| LinearCollections.LeIsNotGt | src/manim_data_structures/mlinearcollection.py:126-150 | `a <= b` is the negation of `a > b`, and `a >= b` the negation of `a < b` |
| LinearCollections.LtTransitive | src/manim_data_structures/mlinearcollection.py:120-124 | `a < b` and `b < c` give `a < c` |
| LinearCollections.Eq | src/manim_data_structures/mlinearcollection.py:132-135 | the method call `lhs.__eq__(rhs)` returns true exactly when the argument's class is `LinearCollection` itself and it holds the same values in the same order |
| LinearCollections.Ne | src/manim_data_structures/mlinearcollection.py:137-138 | the method call `lhs.__ne__(rhs)` returns true exactly when the argument is not exactly a `LinearCollection` or its values differ |
| LinearCollections.EqOperator | src/manim_data_structures/mlinearcollection.py:132-135 | the operator `lhs == rhs`, with the right operand's `__eq__` called first when it is a stack and the left is a plain collection, holds exactly when both are collections, at least one is exactly a `LinearCollection`, and the values agree |
| LinearCollections.NeOperator | src/manim_data_structures/mlinearcollection.py:137-138 | the operator `lhs != rhs`, dispatched the same way, holds exactly when `==` does not |
| LinearCollections.EqOperatorSymmetric | src/manim_data_structures/mlinearcollection.py:132-138 | between two collections `==` gives the same answer in either order, and `!=` is its negation |
| Stacks.New | src/manim_data_structures/mstack.py:50-67 | a new stack is empty, has no delimiter and no submobjects |
| Stacks.Push | src/manim_data_structures/mstack.py:75-76 | `push(v)` makes the contents `old + [v]`, keeps the delimiter setting, and adds one submobject per element part (one, as a stack has no delimiter) |
| Stacks.Peek | src/manim_data_structures/mstack.py:72-73 | `peek()` fails exactly on an empty stack, and otherwise reads the last element |
| Stacks.Pop | src/manim_data_structures/mstack.py:69-70 | `pop()` succeeds exactly when the stack is non-empty and its submobject list holds at least three entries; it then removes the last element, keeps the rest, and removes two submobjects |
| Stacks.PushThenPopPeek | src/manim_data_structures/mstack.py:69-76 | `push(v)` then `peek()` reads `v`; `push(v)` then `pop()` succeeds exactly when the drawing then has three submobjects, and gives back the values from before the push |
| Stacks.NewStackIsEmpty | src/manim_data_structures/mstack.py:60-73 | peek and pop on a new stack raise IndexError |
| Stacks.PopNeedsThreePushes | src/manim_data_structures/mlinearcollection.py:80-84 | a stack that was only pushed to can be popped exactly when it holds at least three elements |
| Stacks.PopAfterPopAndPushFails | src/manim_data_structures/mlinearcollection.py:80-84 | pushing 6, 12, 7, popping, and pushing 5 leaves three elements on which `pop()` raises IndexError |
| Stacks.StackNeverEqualsStack | src/manim_data_structures/mlinearcollection.py:132-133 | a stack is never `==` to a stack, and `s != s` holds for every stack |
| Stacks.CollectionEqualsStackWithSameValues | src/manim_data_structures/mlinearcollection.py:132-135 | a plain collection and a stack with the same values are `==` in either order, although the collection's own `__eq__` rejects the stack |
| NaryTrees.Edges | src/manim_data_structures/m_nary_tree.py:21 | `n` vertices give exactly `n - 1` edges, and none when `n == 0` |
| NaryTrees.ChildrenAreNonRootVertices | src/manim_data_structures/m_nary_tree.py:21 | the child endpoints are exactly `1..n-1`, each once, so 0 is the only vertex without a parent |
| NaryTrees.ParentPrecedesChild | src/manim_data_structures/m_nary_tree.py:21 | every edge goes from a vertex to a strictly later vertex below `n`, so there are no cycles |
| NaryTrees.ParentOf | src/manim_data_structures/m_nary_tree.py:21 | vertex `j >= 1` has parent `(j - 1) // k`, and no other |
| NaryTrees.ChildrenOf | src/manim_data_structures/m_nary_tree.py:21 | the children of `p` are exactly `p*k+1 .. p*k+k`, cut off at `n - 1` |
| NaryTrees.AtMostKChildren | src/manim_data_structures/m_nary_tree.py:21 | no vertex has more than `k` children |
| NaryTrees.PathToRoot | src/manim_data_structures/m_nary_tree.py:21 | the parent chain from `v` starts at `v`, strictly decreases, and ends at 0 |
| NaryTrees.EveryVertexReachesRoot | src/manim_data_structures/m_nary_tree.py:21 | every step of that chain is an edge of the list, so every vertex is connected to the root 0; with `n - 1` edges, the edges form a tree |

## Left out

- All drawing: Mobject, Integer and Square construction, `arrange` and the
  updater (src/manim_data_structures/mlinearcollection.py:46-53), the
  container list (always as long as the data list), and which Mobject each
  submobject entry is. Of the submobject list only its length is modelled.
- LinearCollections.Insert: the `IndexError` path is reported as a failure.
  The model does not carry the collection as the code leaves it: its data list
  already holds the new value when the exception is raised.
- LinearCollections.Pop: when a submobject pop raises, the data and container
  lists have already lost the element (lines 81-82). The model reports only
  the failure, not that half-updated state. The same holds for Stacks.Pop.
- BinaryHeaps.Push: the model is the list logic of binary_heap.py:32 and
  34-43 with the tree calls removed. As written those calls raise. Line 1
  imports `_nary_layout`, which m_nary_tree.py does not define. Line 33 passes
  the int `self.size` as the edge, and `insert_node` subscripts it
  (m_tree.py:72), a TypeError raised after `val` was appended and before
  `size` grows. `rebuild_tree` at line 39 fails like the constructor below.
  The model also requires `size == len(lst)`, which New, Push and Pop keep.
- BinaryHeaps.New: the model is the list state of binary_heap.py:19-21. As
  written, `__init__` (and `rebuild_tree`) hands N_ary_tree a dict.
  N_ary_tree turns it into a list of its keys (m_nary_tree.py:20), and
  Tree's constructor calls `.items()` on that list (m_tree.py:37), which
  raises. BinaryHeaps.Pop leaves out the `rebuild_tree` call at line 64 for
  the same reason. `HeapOrderedOnTreeEdges` states what the edges of the
  intended tree mean for the list.
- The `N_ary_tree` height and vertex count (m_nary_tree.py:18-19) use floating
  point logarithms. For `num_child == 1` that division produces infinity and
  `int()` raises before any edge is built. The float step and the hand-off to
  `Tree` are not modelled. The rest of m_tree.py is graph layout and is not
  part of this model.
- NaryTrees.Edges requires `k >= 1`. With `k == 0` the comprehension divides
  by zero as soon as `n >= 2`; for `n <= 1` the range is empty and the source
  returns no edges. Every caller passes 2 or 3.
- `compare` is modelled as a pure total predicate on integers. A Python
  callable that raises or has side effects is not modelled.
- `index`, `count` and `remove` (mlinearcollection.py:74-78, 95-105) are left
  out. As written, they tuple-unpack each data object, which raises.
- `sort` and `reverse` only raise `NotImplementedError`.
- `__imul__`, `__mul__` and `__rmul` are left out. They rely on `copy.copy`
  sharing the private lists, so they do not behave as list repetition.
- LinearCollections.Add: the result is modelled as the values of `a` then
  `b`, with one container per value of `b`. Two things are not modelled.
  `__add__` shares lists with the original through `copy.copy`. `__iadd__`
  walks the right side's submobject list, which matches its values only for
  an undelimited collection built by appends; with a delimiter it also walks
  the delimiter entries.
- LinearCollections.EqOperator and LinearCollections.NeOperator require a
  collection on the left. Python's dispatch
  for a non-collection on the left, such as a list, is not modelled.
- Iteration state is stored on the object itself. So `zip(self, self)` in a
  comparison of a collection with itself interleaves a single iterator.
  Iteration is modelled as plain sequence order.
- Element values are integers. The comparisons are modelled for integers, whose
  order is total.
- `__len__` is `Length`; it has no contract of its own.
- m_enum.py and utils.py (enums and a deepcopy decorator) hold no logic to
  model.
