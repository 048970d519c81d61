# A B-tree of minimum degree t, modelled in Dafny

This project models the in-memory B-tree engine of `src/btree.c` and proves
what its operations do to the tree. The engine is a CLRS-style B-tree of
minimum degree `t`: every node has an `items` buffer of `2t` slots and, once
internal, a `children` buffer of `2t+1` slots, with the live counts `n` and
`c`. Insertion splits full nodes on the way down. Deletion fixes under-full
children before it descends. An iterator walks the tree in order with an
explicit stack of 512 frames.

The model has two layers.

- **Values** (module `Model`): a node is `Node(items, children)`, the live
  part of its buffers. `Flat` is the in-order sequence of a subtree. The
  B-tree invariants are `WellFormed` (`c == n+1`), `Balanced`, `Full` (every
  node holds between `t-1` and `2t-1` items), `RootSized`, `Shaped` and
  `IsBTree` (shaped and sorted). The node operations are functions on values
  (modules `Primitives`, `Growth`, `Lookup`, `Removal`). The lemmas prove what
  they keep: the in-order sequence, the shape and the sizes.
- **Memory** (module `Memory`): the process memory is a map from addresses
  to node records `NodeRec(n, c, items, children)`, held by the class `Heap`.
  `NULL` is address 0, and a NULL `children` buffer is the empty sequence.
  `Wf(mem, t, p, h)` says that the records reachable from `p` form a subtree
  of height `h` whose child subtrees are disjoint, and `Abs` reads its value.
  The C functions that change nodes are methods on the heap (modules
  `Buffers`, `Nodes`, `Rotations`, `Insertion`, `Deletion`, `Iteration`,
  `Engine`). Each is proved against the value layer: after the call, the
  subtree reads as the value function applied to the old value, and no
  record outside the subtree has changed.

Elements are integers. The integer order stands in for the caller's
comparator, so "compares equal" is `==`. Undefined behaviour of the C code is
the `Undefined` outcome of a value function, where the model stops. The
undefined cases are:

- a NULL dereference;
- a read of the uninitialised `last_cmp_res` in `node_delete` on a node
  without items;
- the reads of `children[-1]` and `items[-1]` when case 2a's walk passes
  through a node without items (`src/btree.c:466-470`).

Deletion is modelled as the code is written, not as its comments describe it.

- **Case 2a** (`src/btree.c:458-483`):
  - It walks from the left child through `children[n-1]`.
  - It deletes the item it reaches from that child and returns before putting
    that item in the key's place. The key therefore stays in the tree and
    another element leaves it (`Removal.KeyLeftInPlace`).
- **Case 2b** (`src/btree.c:485-510`): it starts from `z->children[0]`, which
  is NULL when `z` is a leaf (`Removal.SuccessorFromLeaf`), and takes the last item of the leftmost leaf.

What is proved holds wherever the code is defined. A deletion that returns 1
removes exactly one element, and returns 1 exactly when the key was present.
A deletion that returns 0 changes no element. The tree stays a B-tree.

Cases 2a and 2b above depart from what the comments beside them describe.
The model keeps them as written and proves what holds of them. Two more
departures, the root shrink of `btree_delete` and the walk of `btree_last`,
are under "## Findings". Each of those has both an as-written member and a
corrected one.

## Model

| member | source | states |
|---|---|---|
| Memory.NodeNew | src/btree.c:64-74 | a fresh, never-allocated address now holds a leaf with `n = c = 0`, `2t` zeroed item slots and no children buffer; nothing else in memory changes |
| Memory.Transition | src/btree.c:80-103 | on a leaf: the children buffer becomes `2t+1` NULL slots and the call returns true; on an internal node: returns false and memory is unchanged |
| Memory.Free | src/btree.c:243 | the released address is gone from memory and every other record is kept |
| Buffers.ShiftUp | src/btree.c:181-186 | the downward copy loop leaves `a[..lo+1] + a[lo..hi+1] + a[hi+2..]`: a gap opened at `lo`, all other slots kept |
| Buffers.ShiftDown | src/btree.c:231-233 | the upward copy loop leaves `a[..lo] + a[lo+1..hi+1] + a[hi..]`: slot `lo` closed, all other slots kept |
| Buffers.Copy | src/btree.c:152-156 | `count` slots of `src` from `from` land at `at` in `dst`; the rest of `dst` is kept |
| Nodes.SplitChild | src/btree.c:134-194 | after the split, the subtree at `x` reads as `Primitives.SplitChild` of its old value and is still well formed; it gained exactly the one fresh address; memory outside it is unchanged |
| Nodes.MoveUpperHalf | src/btree.c:148-168 | `z` gets `y`'s upper `t-1` items and, for an internal `y`, its children from `t` on; both have `t-1` live items and `t` live children |
| Nodes.InsertMedian | src/btree.c:170-193 | `x`'s live items gain the median at `i` and its live children gain `z` at `i+1`; `n` and `c` each grow by one |
| Nodes.ChildMerge | src/btree.c:205-244 | the subtree at `x` reads as `Primitives.Merge` of its old value; `z` is released, so the subtree's addresses and memory both lose it; `x`'s live children lose entry `i+1` |
| Nodes.Absorb | src/btree.c:213-241 | `y`'s live items become `y ++ [x.items[i]] ++ z`, its children `y ++ z`; `x` loses item `i` and child `i+1` |
| Nodes.AppendSibling | src/btree.c:213-228 | `y` takes the separator, then `z`'s items and `z`'s children, in order |
| Nodes.CloseGap | src/btree.c:230-241 | `x` loses item `i` and child `i+1`, and the rest keep their order |
| Rotations.ShiftLeft | src/btree.c:247-283 | the subtree at `x` reads as `Primitives.ShiftLeft` of its old value, over the same addresses, with nothing allocated or released |
| Rotations.LendLeft | src/btree.c:255-282 | `y` gains the separator at its end (and `z`'s first child); the separator becomes `z`'s first item; `z` loses its first item and child |
| Rotations.CloseFrontItem | src/btree.c:265-268 | `z`'s items after the first move down one slot |
| Rotations.PassFirstChild | src/btree.c:270-280 | `z`'s first live child becomes `y`'s last; `z`'s remaining children move down one slot; the counts change by one |
| Rotations.ShiftRight | src/btree.c:285-321 | the subtree at `x` reads as `Primitives.ShiftRight` of its old value, over the same addresses, with nothing allocated or released |
| Rotations.LendRight | src/btree.c:293-320 | `z` gains the separator at its front (and `y`'s last child); `y`'s last item becomes the separator |
| Rotations.PrependItem | src/btree.c:293-301 | `z`'s live items become `[v] ++ z` |
| Rotations.PassLastChild | src/btree.c:308-318 | `y`'s last live child becomes `z`'s first child, and `y` loses it |
| Primitives.SplitChild | src/btree.c:134-194 | the split of full child `i`: the parent gains one item and one child; the median `y.items[t-1]` moves up to slot `i`; both halves hold `t-1` items; the children before `i` stay and those after it move one place right |
| Primitives.Merge | src/btree.c:205-244 | the merge of children `i` and `i+1`: the parent loses one item and one child; the merged child holds `y.n + 1 + z.n` items with the separator after `y`'s items; the other children keep their order |
| Primitives.ShiftLeft | src/btree.c:247-283 | borrowing from the right sibling: `z`'s first item becomes the separator, the old separator goes to the end of `y`, `y` gains one item and `z` loses one; the parent keeps its counts and its other children |
| Primitives.ShiftRight | src/btree.c:285-321 | borrowing from the left sibling: `y`'s last item becomes the separator, the old separator goes in front of `z`, `y` loses one item and `z` gains one; the parent keeps its counts and its other children |
| Primitives.SplitChildShape | src/btree.c:134-194 | a split keeps the parent's subtree well formed and balanced, at the same height |
| Primitives.SplitChildFlat | src/btree.c:134-194 | a split keeps the in-order sequence of the parent's subtree |
| Primitives.SplitChildSizes | src/btree.c:134-194 | both halves have `t-1` items; the parent gains exactly one item; every child stays within `t-1..2t-1` |
| Primitives.MergeKeeps | src/btree.c:205-244 | a merge keeps the in-order sequence, well-formedness, balance and height |
| Primitives.MergeSizes | src/btree.c:205-244 | the merged child holds `y.n + 1 + z.n` items and the parent one item fewer; all children stay within the bounds |
| Primitives.ShiftLeftKeeps | src/btree.c:247-283 | borrowing from the right sibling keeps the in-order sequence, well-formedness, balance and height |
| Primitives.ShiftLeftSizes | src/btree.c:247-283 | the borrowing child `y` gains one item and `z` loses one; the parent keeps its count |
| Primitives.ShiftRightKeeps | src/btree.c:285-321 | borrowing from the left sibling keeps the in-order sequence, well-formedness, balance and height |
| Primitives.ShiftRightSizes | src/btree.c:285-321 | `y` loses one item and `z` gains one; the parent keeps its count |
| Growth.Slot | src/btree.c:336-346 | the slot found by the scan from the right: the item just before it is at most `k`, and every item from it on is greater than `k`, so an equal item just before it stays in front of the new one |
| Growth.SlotUnique | src/btree.c:336-346 | those two properties determine the slot |
| Growth.InsortElements | src/btree.c:334-348 | inserting at the slot adds exactly one `k` to the multiset of items |
| Growth.InsortSorted | src/btree.c:334-348 | inserting at the slot keeps a sorted sequence sorted |
| Growth.InsertNonfull | src/btree.c:324-367 | `node_insert_nonfull` on a value: a leaf stays a leaf and an internal node stays internal; the node gains at most one item (the median of a split child), and an internal node then gains one child too |
| Growth.InsertNonfullShape | src/btree.c:324-367 | `node_insert_nonfull` keeps the subtree well formed and balanced at the same height; no node gets more than `2t-1` items; the node gains at most one item; children stay within the bounds |
| Growth.InsertNonfullFlat | src/btree.c:324-367 | on a sorted subtree, the in-order sequence becomes the old one with `k` inserted at its slot |
| Growth.RootSplit | src/btree.c:379-388 | the new root over the split full root holds only the old median, over two children with the items before and after it |
| Growth.Insert | src/btree.c:370-395 | `node_insert` on a value: a root with room gains at most one item; a full root gives a new root with one or two items and one child more than items |
| Growth.RootSplitShape | src/btree.c:379-386 | a full root is replaced by a new root holding only the old median, over two halves of `t-1` items, one level higher, with the same in-order sequence |
| Growth.InsertBTree | src/btree.c:370-395 | inserting into a B-tree gives a B-tree whose elements are the old ones with `k` in order; the height grows by one exactly when the root was full |
| Insertion.LeafInsert | src/btree.c:334-348 | the leaf's live items become `Insort(items, k)`; `n` grows by one; the buffer keeps its size |
| Insertion.ChildIndex | src/btree.c:349-355 | the internal scan stops at `Growth.Slot` of the node's items |
| Insertion.Descend | src/btree.c:349-364 | the internal case up to the recursive call: after the scan and the split of a full child, inserting into the chosen live child gives `Growth.InsertNonfull` of the whole subtree; no record outside the subtree changed, and any new address joined the subtree |
| Insertion.InsertNonfull | src/btree.c:324-367 | the subtree at `x` reads as `Growth.InsertNonfull` of its old value; only its own records changed; new addresses are only those of the split halves |
| Insertion.Insert | src/btree.c:370-395 | the tree reads as `Growth.Insert` of its old value; the root is kept when it was not full; otherwise the new root is the freshly allocated node, one level higher |
| Lookup.Seek | src/btree.c:403-409 | the scan stops at the first item the key is not greater than: every earlier item is smaller, and the item there (if any) is at least the key |
| Lookup.SeekSorted | src/btree.c:403-409 | in a sorted node, the key occurs exactly when it is the item where the scan stops |
| Lookup.NodeSearch | src/btree.c:397-420 | a found slot lies in the searched subtree, is a live item, and holds the key |
| Lookup.SearchFinds | src/btree.c:397-420 | on a sorted subtree, `node_search` finds a slot if and only if the key is in the subtree |
| Removal.PredecessorWalk | src/btree.c:463-471 | case 2a's walk, where defined, yields an element of the subtree it walks |
| Removal.SuccessorWalk | src/btree.c:490-498 | case 2b's walk, where defined, yields an element of the right child's subtree; undefined when that child is a leaf |
| Removal.LeftmostLast | src/btree.c:492-497 | the walk down `children[0]` to a leaf, where defined, yields an element of the subtree |
| Removal.Fix | src/btree.c:531-560 | case 3's fix on a value: the node keeps one child more than items, loses at most one item, and names a live child to descend into; a child with at least `t` items is left as it is |
| Removal.Delete | src/btree.c:422-565 | `node_delete` on a value: where defined, it returns 0 or 1, keeps a leaf a leaf and an internal node internal, and the node loses at most one item |
| Removal.Within | src/btree.c:562 | the recursive call on child `j`, where defined: returns 0 or 1, keeps the node's items and number of children, and leaves every child but `j` as it was |
| Removal.FixDeletable | src/btree.c:521-563 | case 3's fix keeps a node `node_delete` may be called on, with the same height and in-order sequence, and names a live child |
| Removal.BorrowLeft | src/btree.c:538-540 | borrowing through `node_shift_right` keeps the in-order sequence and the shape |
| Removal.BorrowRight | src/btree.c:542-543 | borrowing through `node_shift_left` keeps the in-order sequence and the shape |
| Removal.MergeDeletable | src/btree.c:511-517 | merging two short children keeps the in-order sequence and the shape; the parent loses one item |
| Removal.FixFull | src/btree.c:538-560 | when every child is within the bounds, the child descended into holds at least `t` items after the fix; every child stays within the bounds |
| Removal.DeleteShrinks | src/btree.c:422-565 | where defined, `node_delete` keeps the subtree shaped at the same height; it returns 0 with the same in-order sequence or 1 with one element taken out; 1 only if the key was present |
| Removal.DeleteFinds | src/btree.c:422-565 | on a sorted subtree, `node_delete` returns 1 whenever the key is present |
| Removal.DeleteFull | src/btree.c:422-565 | when every child is within the bounds, they still are after `node_delete`, and the node loses at most one item |
| Removal.DeleteLeaf | src/btree.c:439-452 | at a sorted leaf: a present key loses one occurrence (1 is returned; the leaf stays sorted); an absent key returns 0 and leaves the leaf unchanged |
| Removal.CutSorted | src/btree.c:443-451 | removing one slot keeps a sorted sequence sorted and removes exactly that element from its multiset |
| Removal.KeyLeftInPlace | src/btree.c:458-483 | deleting 10 from a two-level tree of degree 2 removes 2 and returns 1, leaving 10 in place |
| Removal.SuccessorFromLeaf | src/btree.c:485-498 | a B-tree of degree 2 whose key sits above a short left child and a leaf right child: deleting that key is undefined, so the exclusion in `Engine.BTree.Delete`'s requires is met by a real tree |
| Removal.TreeDelete | src/btree.c:637-647 | `btree_delete` as written: where defined, the new root holds exactly the elements `node_delete` left and the result is its result; a root emptied to a leaf makes it undefined |
| Removal.TreeDeleteFixed | src/btree.c:637-647 | `btree_delete` with the leaf shrink corrected: defined exactly where `node_delete` is; the tree left (or the empty tree) holds exactly the elements `node_delete` left, and the result is its result |
| Removal.LastElement | src/btree.c:637-647 | deleting the only element `v` of a one-leaf tree `[v]`, at any degree, is undefined as written and gives the empty tree when fixed; wherever the code is defined, the two versions agree |
| Removal.TreeDeleteBTree | src/btree.c:637-647 | the fixed `btree_delete` on a B-tree leaves a B-tree or the empty tree; it returns 1 iff the key was present; 0 keeps the elements; 1 takes one element out |
| Deletion.Scan | src/btree.c:428-435 | the scan's index is `Lookup.Seek` of the live items; `last_cmp_res` is the sign of the last comparison: 0 or less where it stopped on an item, greater than 0 past the end |
| Deletion.LeafDelete | src/btree.c:439-452 | the leaf's live items become those without slot `i`; `n` drops by one |
| Deletion.PredecessorLoop | src/btree.c:463-471 | the loop copies the item `Removal.PredecessorWalk` names |
| Deletion.SuccessorLoop | src/btree.c:490-498 | the loop copies the item `Removal.SuccessorWalk` names |
| Deletion.Predecessor | src/btree.c:458-474 | case 2a up to the recursive call: deleting the copied item from child `i` gives `Removal.Delete` of the whole subtree |
| Deletion.Successor | src/btree.c:485-501 | case 2b up to the recursive call: deleting the copied item from child `i+1` gives `Removal.Delete` of the whole subtree |
| Deletion.MergeAround | src/btree.c:511-516 | case 2c up to the recursive call: after the merge, deleting the key from the merged child gives `Removal.Delete` of the whole subtree; only the subtree's own records changed or were released |
| Deletion.Found | src/btree.c:454-517 | case 2 up to the recursive call: 2a, 2b or 2c leaves the subtree in the state from which deleting the chosen key from the chosen child yields `Removal.Delete` of the whole subtree |
| Deletion.Rebalance | src/btree.c:531-560 | case 3's fix on memory: the subtree at `x` reads as `Removal.Fix` of its old value; the child index is the one `Fix` names; only the subtree's own records changed or were released |
| Deletion.TakeLeft | src/btree.c:540-541 | borrowing from the left sibling on memory: the subtree reads as `Removal.Fix` of its old value and the descent stays at child `ii` |
| Deletion.TakeRight | src/btree.c:543-544 | borrowing from the right sibling on memory: the subtree reads as `Removal.Fix` of its old value and the descent stays at child `ii` |
| Deletion.JoinLeft | src/btree.c:548-551 | merging with the left sibling on memory: the subtree reads as `Removal.Fix` of its old value and the descent moves to the child it names, `ii-1` |
| Deletion.JoinRight | src/btree.c:552-554 | merging with the right sibling on memory: the subtree reads as `Removal.Fix` of its old value and the descent stays at child `ii` |
| Deletion.Refill | src/btree.c:521-560 | case 3 up to the recursive call, in the same terms as `Found` |
| Deletion.NodeDelete | src/btree.c:422-565 | the subtree at `x` reads as `Removal.Delete` of its old value and the return value is its `res`; only the subtree's own records changed or were released |
| Deletion.Drop | src/btree.c:439-452 | the leaf case on memory: the subtree reads as `Removal.Delete` of its old value and the result is 1 |
| Deletion.Descend | src/btree.c:562 | the recursive call: from the state `Found` or `Refill` leaves, the subtree ends as `Removal.Delete` of the value `node_delete` started from |
| Iteration.Iter.constructor | src/btree.c:748-765 | one frame, the root at position 0; what remains to return is the tree's whole in-order sequence (nothing for a NULL root) |
| Iteration.Iter.Reset | src/btree.c:768-773 | the same state as a new iterator on the given tree |
| Iteration.Iter.Next | src/btree.c:776-848 | returns NULL iff nothing remained; otherwise the first remaining element, which leaves the remaining sequence. A NULL result leaves only the root frame. A call made after that returns NULL again and leaves the stack unchanged |
| Iteration.Iter.Pop | src/btree.c:787-795 | a finished top frame is cleared, and the frame below moves past its child; the remaining sequence is unchanged |
| Iteration.Iter.Push | src/btree.c:822-833 | the child named by an even position is pushed at position 0; the remaining sequence is unchanged |
| Iteration.Iter.Dive | src/btree.c:820-835 | the descent ends at a leaf with at least one item, at position 0; the remaining sequence is unchanged |
| Iteration.Iter.Take | src/btree.c:838-847 | the returned element is the first remaining one, and it leaves the remaining sequence |
| Iteration.Iter.Move | src/btree.c:838-847 | the top frame moves two positions in a leaf, one in an internal node; the item at `(pos-1)/2` is the first remaining element |
| Iteration.Iter.Spent | src/btree.c:803-816 | with only the root frame left, nothing remains exactly when that frame is at its end |
| Iteration.InvStart | src/btree.c:758-759 | the initial frame satisfies the iterator invariant with the whole in-order sequence remaining |
| Iteration.InvPop | src/btree.c:787-795 | popping a finished frame keeps the invariant and the remaining sequence |
| Iteration.InvPush | src/btree.c:822-833 | pushing a child keeps the invariant and the remaining sequence |
| Iteration.InvTake | src/btree.c:838-847 | moving past the next item keeps the invariant, with the first remaining element gone |
| Iteration.InvSpent | src/btree.c:803-816 | with one frame, the remaining sequence is empty exactly at the frame's end |
| Engine.Pow | src/btree.c:733-740 | `u32_pow` returns `base` to the power `exponent` |
| Engine.Capacity | src/btree.c:743-745 | a capped subtree of height `h` holds at most `(2t)^(h+1) - 1` elements |
| Engine.HeightOf | src/btree.c:716-731 | the height a subtree is laid out with is the height of its value |
| Engine.FirstFrom | src/btree.c:696-699 | the walk down `children[0]` returns the first element of the tree, or nothing for an empty one |
| Engine.LastFrom | src/btree.c:710-713 | the walk down the last live child `children[c-1]` returns the last element of the tree, or nothing for an empty one |
| Engine.HeightFrom | src/btree.c:725-730 | the number of steps down `children[0]` is the subtree's height |
| Engine.KeptRoot | src/btree.c:640 | a root that keeps items is still the root of a B-tree, whose elements changed as the return value says |
| Engine.EmptiedLeaf | src/btree.c:640-645 | a root leaf left empty means the tree had exactly the deleted element |
| Engine.EmptiedRoot | src/btree.c:640-645 | an internal root left empty: its only child, after the root is released, is a B-tree one level lower, whose elements changed as the return value says |
| Engine.LastAsWritten | src/btree.c:702-714 | on a leaf root, the last item (or nothing) is the last element of the tree |
| Engine.LastOffByOne | src/btree.c:710 | a B-tree of degree 2 with elements 1, 2, 3 on which `btree_last` as written is undefined |
| Engine.BTree.constructor | src/btree.c:571-595 | `btree_new`: an empty tree (root NULL) of the given degree |
| Engine.BTree.Insert | src/btree.c:603-631 | the tree stays a B-tree; its elements become the old ones with `k` in order; the height grows by one exactly when the root was full; memory only grows, and no record outside the old tree is touched |
| Engine.BTree.Search | src/btree.c:633-635 | undefined exactly on an empty tree; otherwise finds a slot iff `k` is an element, and the slot holds `k` |
| Engine.BTree.Delete | src/btree.c:637-647 | the tree stays a B-tree or becomes empty; returns 1 iff `k` was an element; 0 keeps the elements; 1 takes exactly one element out. The result and the elements left are those of `Removal.TreeDeleteFixed` on the old tree. No address is allocated, and no record outside the old tree changes |
| Engine.BTree.First | src/btree.c:689-700 | returns the first element, or nothing for an empty tree |
| Engine.BTree.Last | src/btree.c:702-714 | with the walk corrected to `children[c-1]`: returns the last element, or nothing for an empty tree |
| Engine.BTree.Height | src/btree.c:716-731 | returns the tree's height, 0 for an empty tree |
| Engine.BTree.Size | src/btree.c:743-745 | returns `(2t)^height - 1`, a bound computed from the height, not the number of elements |
| Engine.BTree.Bound | src/btree.c:743-745 | the number of elements is at most `2t * (btree_size + 1) - 1` |
| Engine.BTree.Iterate | src/btree.c:748-765 | a new iterator whose remaining sequence is the tree's elements in order |
| Engine.BTree.FirstAgrees | src/btree.c:689-700 | the first element the iterator returns is the one `btree_first` returns |

## Left out

- Allocation failure: `calloc`, `alloc` and `node_new` returning NULL, and the error returns after them, are not modelled; every allocation succeeds.
- `node_free`, `btree_free`, the iterator's own allocation, and the leaks in `node_child_merge` and `btree_delete` are left out. The model releases exactly the one address the code passes to `dealloc`.
- `node_print`, `btree_print` and the `perror`/`fputs` diagnostics are console output and are left out. The "Cannot merge!" branch is modelled as doing nothing.
- `elem_size` and the byte copies: elements are integers in typed slots, and the comparator is the integer order.
- Engine.BTree.Insert: the checks for a NULL `btree` and a NULL `elem` are left out, because the model has no null tree or element.
- Engine.BTree.Delete: requires a non-NULL root, because `btree_delete` dereferences the root. It also requires that `Removal.TreeDeleteFixed` is defined, which excludes three things:
  - case 2b on a leaf right sibling;
  - a walk through a node without items;
  - the uninitialised `last_cmp_res` on an empty node.
- Engine.BTree.Delete: models the root shrink with the leaf case corrected (see Findings).
- Engine.BTree.Last: models `btree_last` with the walk corrected to `children[c-1]`; the code as written is `Engine.LastAsWritten` (see Findings).
- Engine.LastAsWritten: stops at the first step through `children[c]`. What that dead slot holds (NULL, or a stale pointer left by a split or a merge) is not modelled.
- Engine.BTree.Iterate and Iteration.Iter.constructor: require a tree lower than 511 levels. The 512-frame stack overflow and the partial `memset` of the stack are not modelled.
- Iteration.Iter.Next: the iterator is tied to the tree it was started on. A tree changed between calls without a reset is not modelled.
- Engine.Pow and Engine.BTree.Size: integers are unbounded, so the `size_t` wrap-around of `u32_pow` and the `- 1` on zero are not modelled.
- `btree_iter_t_new` on a NULL tree pointer returns NULL and is left out, because the model has no null tree.
- `src/btree_naive.c`, `src/btree.h`, `src/main.c` and the test harness are not part of this model.

## Findings

| source | as written | input that shows it | evidently intended | confidence | as-written member | corrected member |
|---|---|---|---|---|---|---|
| src/btree.c:640-645 | `btree_delete` reads `newroot->children[0]` whenever the root is left without items, also when the root is a leaf whose `children` buffer is NULL | degree 2: insert 5 into an empty tree, then delete 5 | a root leaf left without items leaves the tree empty (root NULL) | not executed | Removal.LastElement | Removal.TreeDeleteBTree |
| src/btree.c:710 | `btree_last` descends through `children[root->c]`, the slot past the last live child | degree 2: insert 1, 2, 3, 4 and delete 4. The root holds 2 over leaves 1 and 3, and its `children[2]` is NULL | descend through `children[c-1]` and return the last element | not executed | Engine.LastOffByOne | Engine.BTree.Last |
