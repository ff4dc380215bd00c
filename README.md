# Red-black tree with a shared sentinel, in Dafny

This project models `rbtree/rbtree.go`, a red-black tree whose nodes carry an
integer-ordered key, a value, a colour and `left`/`right`/`parent` pointers.
Every missing child, and the parent of the root, is one shared BLACK sentinel
node `t.null`. The tree keeps `root` and a node `count`. It offers:
- `Insert`, `Update`, `Get` and `Delete`;
- the in-order walk `Range`;
- `Min`, `Max` and `Size`.

Underneath are the two rotations, the insertion repair `insertFixUp`, the
deletion repair `deleteFixUp`, `successor` and `min`/`max`.

The model is imperative, like the Go code. It uses one class, `RbTrees.RbTree`,
laid out as an arena:
- Node `i` is slot `i` of the sequences `keys`, `vals`, `colors`, `lefts`,
  `rights` and `parents`.
- A pointer is a slot number, and slot 0 is the sentinel.
- `root` and `count` are fields of the class.

Each Go function that updates nodes becomes a method that rewrites these
fields, with the same loops, branches and order of writes.

A ghost field `shape` (an inductive `Tree` of slot numbers) says which slots
form the tree. It is tied to the pointer fields by the predicate `Arena`
(`Wf()`). The contracts are stated over `shape`:
- `Inorder(shape)` is the left-to-right order of the nodes.
- `KeysOf(shape, keys)` is their keys.
- `RedBlack(shape, colors)` is the rule set of the file's header comment:
  - the root is BLACK;
  - no RED node has a RED child;
  - every path down has the same number of BLACK nodes.
- `Valid()` is `Wf() && RedBlack(...)`.

The cursor loops of `insertFixUp`, `deleteFixUp` and `successor` use a zipper
(`Ctx`), whose `Plug(c, s)` puts the subtree `s` back into its context.

Search order (`Sorted(KeysOf(shape, keys))`) is deliberately not part of
`Valid()`. The two-child path of `Delete` does not preserve it (see
Findings). So every ordering statement below is conditional: "on a
search-ordered tree …".

Modules:

| file | module | what it holds |
|---|---|---|
| `shape.dfy` | `RbShape` | shapes, the zipper, in-order sequences, links |
| `colors.dfy` | `RbColors` | colours, black height, the red-black predicates |
| `rotation.dfy` | `RbRotation` | rotations of shapes and the pointer writes that perform them |
| `arena.dfy` | `RbArena` | the `Arena` predicate, attaching and splicing slots |
| `keys.dfy` | `RbKeys` | key sequences, the descents `Find`/`FindGet`, `InsertAt`, `InsertSorted`, `Remove` |
| `insert_fix.dfy` | `RbInsertFix` | the invariant of insertFixUp and its cases |
| `delete_fix.dfy` | `RbDeleteFix` | the invariant of deleteFixUp (`Short`) and its cases |
| `rbtree.dfy` | `RbTrees` | the class `RbTree` and its methods |

## Model

| member | source | states |
|---|---|---|
| RbTrees.RbTree.constructor | rbtree/rbtree.go:54-61 | The new tree holds only the BLACK sentinel, which is also the root. It is valid, its shape is empty and its count is 0. |
| RbTrees.RbTree.NewNode | rbtree/rbtree.go:35-44 | A new slot is added at the end of the arena. It holds the key and value, is RED, has the sentinel as both children and the given parent. Nothing else changes. |
| RbTrees.RbTree.LeftRotate | rbtree/rbtree.go:64-98 | The arena stays consistent and the shape becomes `RotateLeftAt(old shape, x)`. Keys, values, colours and count are unchanged: no recolouring. The call is a no-op when `x` has no right child. When `x` was the root, the root becomes its old right child. |
| RbRotation.RotateLeftInorder | rbtree/rbtree.go:64-98 | A left rotation keeps the in-order sequence of nodes, the set of nodes and the size. |
| RbTrees.RbTree.RightRotate | rbtree/rbtree.go:101-135 | The mirror image of LeftRotate: no-op without a left child, root becomes the old left child. |
| RbRotation.RotateRightInorder | rbtree/rbtree.go:101-135 | A right rotation keeps the in-order sequence of nodes, the set of nodes and the size. |
| RbArena.LeftRotateArena | rbtree/rbtree.go:81-97 | The pointer writes of the left rotation turn a consistent arena into a consistent arena of the rotated shape. The sentinel's parent field is kept. |
| RbArena.RightRotateArena | rbtree/rbtree.go:118-134 | The same for the right rotation's writes. |
| RbTrees.RbTree.Update | rbtree/rbtree.go:138-151 | Returns true iff the descent finds `key`. Then only that slot's value becomes `val`; keys, colours, links, root and count are unchanged. Otherwise nothing changes. |
| RbTrees.RbTree.Insert | rbtree/rbtree.go:154-184 | Returns false iff the descent meets an equal key, and then nothing changes. Otherwise: one slot is added with the key and value, `count` grows by one, and the new node sits where the descent ran off the tree (`InsertAt`). The tree is red-black afterwards. On a search-ordered tree the keys stay ascending, with `key` in its sorted place. |
| RbKeys.InsertAtKeys | rbtree/rbtree.go:158-178 | On a search-ordered tree without `key`, hanging the new node where the descent ends gives the key sequence `InsertSorted(old keys, key)`. |
| RbKeys.InsertKeepsOrder | rbtree/rbtree.go:154-184 | After a successful Insert on a search-ordered tree, the keys are the old keys with `key` in its sorted place, and they are still ascending. |
| RbArena.AttachArena | rbtree/rbtree.go:170-180 | Hanging the new RED slot under `prev`, or making it the root of an empty tree, gives a consistent arena with one more node. |
| RbInsertFix.FixingStart | rbtree/rbtree.go:170-182 | A new RED leaf in a red-black tree satisfies the loop invariant of insertFixUp. Every rule holds except that the RED cursor may have a RED parent, or be a RED root. |
| RbTrees.RbTree.InsertFixUp | rbtree/rbtree.go:188-232 | From that invariant the loop terminates and the tree is red-black afterwards. Keys, values, count and in-order sequence are unchanged. |
| RbTrees.RbTree.InsertFixStep | rbtree/rbtree.go:193-228 | One pass of the loop has two outcomes. Case 1 keeps the invariant with the cursor two levels higher. Cases 2 and 3 leave a tree that is red-black except for the root's colour, with the cursor's parent BLACK. |
| RbTrees.RbTree.InsertRecolor | rbtree/rbtree.go:195-200 | Case 1 with a RED uncle: parent and uncle turn BLACK, the grandparent turns RED and becomes the cursor. The invariant holds there. |
| RbInsertFix.FixingRecolor | rbtree/rbtree.go:195-200 | The recolouring of Case 1 restores the invariant at the grandparent. |
| RbTrees.RbTree.InsertRotateLeftSide | rbtree/rbtree.go:201-211 | Cases 2 and 3 with the parent on the left leave no RED-RED edge and equal black heights. The in-order sequence is unchanged. |
| RbInsertFix.FixingInnerLeft | rbtree/rbtree.go:202-206 | Case 2's left rotation at the parent keeps the invariant, now with the old parent as cursor. |
| RbInsertFix.FixingOuterLeft | rbtree/rbtree.go:208-210 | Case 3's recolouring and right rotation at the grandparent leave a tree with no RED-RED edge and balanced black heights. |
| RbTrees.RbTree.InsertRotateRightSide | rbtree/rbtree.go:219-227 | The mirror image of InsertRotateLeftSide. |
| RbInsertFix.FixingInnerRight | rbtree/rbtree.go:220-223 | The mirror image of FixingInnerLeft. |
| RbInsertFix.FixingOuterRight | rbtree/rbtree.go:224-226 | The mirror image of FixingOuterLeft. |
| RbInsertFix.FixingDone | rbtree/rbtree.go:192 | When the loop stops (cursor's parent BLACK), there is no RED-RED edge and black heights are equal. |
| RbColors.BlackenRoot | rbtree/rbtree.go:230 | Turning the root BLACK makes such a tree fully red-black. |
| RbTrees.RbTree.Get | rbtree/rbtree.go:235-247 | Never changes the tree. It answers the value of the slot that the Get descent `FindGet` reaches, and nothing when that descent runs off the tree. |
| RbKeys.FindGetSound | rbtree/rbtree.go:235-247 | What Get's descent reaches is a slot of the tree whose key equals the query. |
| RbKeys.FindGetMisses | rbtree/rbtree.go:238-243 | There is a search-ordered tree containing a key that Get's descent misses but the descent of Insert/Update/Delete finds. |
| RbTrees.RbTree.Lookup | rbtree/rbtree.go:235-247 | Get with the descent turned the right way round. On a search-ordered tree it finds a value iff the key is present, and the value is that key's. |
| RbKeys.FindSound | rbtree/rbtree.go:140-148 | What the descent of Update/Insert/Delete reaches is a slot of the tree whose key equals the query. |
| RbKeys.FindComplete | rbtree/rbtree.go:140-148 | On a search-ordered tree that descent reaches every key that is present. |
| RbKeys.FindAbsent | rbtree/rbtree.go:158-167 | On a search-ordered tree the descent runs off the tree iff the key is absent. |
| RbTrees.RbTree.MinOf | rbtree/rbtree.go:407-417 | Returns the sentinel for the sentinel. For any real node it returns the leftmost node of the whole tree, whatever node was passed. |
| RbTrees.RbTree.Min | rbtree/rbtree.go:402-404 | The leftmost node of the tree; the sentinel for an empty tree. |
| RbKeys.LeftmostMin | rbtree/rbtree.go:402-417 | On a search-ordered tree the leftmost node holds the least key. |
| RbTrees.RbTree.MaxOf | rbtree/rbtree.go:425-435 | Returns the sentinel for the sentinel. For any real node it returns the rightmost node of the whole tree. |
| RbTrees.RbTree.Max | rbtree/rbtree.go:420-422 | The rightmost node of the tree; the sentinel for an empty tree. |
| RbKeys.RightmostMax | rbtree/rbtree.go:420-435 | On a search-ordered tree the rightmost node holds the greatest key. |
| RbShape.LeftmostFirst | rbtree/rbtree.go:413-415 | The leftmost node is the first in in-order order. |
| RbShape.RightmostLast | rbtree/rbtree.go:431-433 | The rightmost node is the last in in-order order. |
| RbTrees.RbTree.SubtreeMin | rbtree/rbtree.go:407-417 | min with the restart at the root removed: the leftmost node of the subtree at `cur`. |
| RbTrees.RbTree.SubtreeMax | rbtree/rbtree.go:425-435 | max with the restart at the root removed: the rightmost node of the subtree at `cur`. |
| RbTrees.RbTree.Successor | rbtree/rbtree.go:249-264 | The sentinel gives the sentinel. A node with a right child gives the leftmost node of the whole tree. Any other node gives the next node in in-order order, or the sentinel after the last one. |
| RbShape.SuccessorInorder | rbtree/rbtree.go:258-263 | Without a right child, the first ancestor reached from a left child is the next node in in-order order. |
| RbShape.WholeTreeMin | rbtree/rbtree.go:254-256 | There is a tree where a node's in-order successor is not the leftmost node of the whole tree, which is what `successor` answers. |
| RbShape.SuccessorDown | rbtree/rbtree.go:254-256 | With a right child, the next node in in-order order is the leftmost node of the right subtree. |
| RbTrees.RbTree.NextNode | rbtree/rbtree.go:249-264 | successor with min applied to the right subtree: always the next node in in-order order. |
| RbTrees.RbTree.Delete | rbtree/rbtree.go:267-327 | Absent key: returns nothing and changes nothing. Present key at slot `z`: returns z's key, value and colour, decrements `count`, and leaves the tree red-black. The in-order sequence loses exactly the unlinked slot, and only that slot's key is copied into `z`. When `z` has at most one child, on a search-ordered tree, the keys are the old ones without `key`, still ascending. |
| RbTrees.RbTree.DeleteAt | rbtree/rbtree.go:283-326 | After the descent: the entry returned is z's. The unlinked slot is `z` itself when z has at most one child, else the leftmost node of the whole tree. The in-order sequence loses exactly that slot, and the tree is red-black again. |
| RbTrees.RbTree.UnlinkAt | rbtree/rbtree.go:299-323 | Unlinks slot `y` (at most one child), copies its key into `z` and repairs the colours when `y` was BLACK. The in-order sequence loses exactly `y`, and the tree is red-black again. |
| RbTrees.RbTree.Splice | rbtree/rbtree.go:299-315 | Replaces `y` by its only child `x`, or by the sentinel, whose parent field then records where it hangs. The arena stays consistent and the node set loses exactly `y`. |
| RbArena.SpliceRelink | rbtree/rbtree.go:299-315 | The pointer writes of the splice turn a consistent arena into a consistent arena of the spliced shape. |
| RbKeys.SpliceInorder | rbtree/rbtree.go:299-315 | Splicing out a node with at most one child removes exactly that node from the in-order sequence. |
| RbKeys.RemoveKeys | rbtree/rbtree.go:296-315 | On a search-ordered tree, removing one node from the in-order sequence removes exactly its key from the key sequence and keeps it ascending. |
| RbKeys.TwoChildDeleteUnsorts | rbtree/rbtree.go:296-319 | There is a search-ordered tree where deleting a key at a node with two children, as written, leaves the keys out of order. |
| RbDeleteFix.ShortStart | rbtree/rbtree.go:320-322 | Splicing a node with at most one child out of a red-black tree has two outcomes. If the node was BLACK, the child in its place satisfies deleteFixUp's invariant: its subtree is one BLACK level short, with every other rule intact. If it was RED, the tree is still red-black. |
| RbTrees.RbTree.DeleteFixUp | rbtree/rbtree.go:330-384 | From that invariant the loop terminates; the final cursor is BLACK and the tree is red-black. Keys, values, count and in-order sequence are unchanged. |
| RbDeleteFix.ShortDone | rbtree/rbtree.go:331-383 | When the loop stops (the cursor is the root or RED), blackening the cursor makes the tree red-black. |
| RbTrees.RbTree.DeleteFixLeft | rbtree/rbtree.go:332-356 | One pass with the cursor on the left keeps the invariant, and `2 * depth + cursor weight` does not grow. |
| RbTrees.RbTree.DeleteFixRight | rbtree/rbtree.go:357-381 | The mirror image of DeleteFixLeft. |
| RbTrees.RbTree.DeleteRedSiblingLeft | rbtree/rbtree.go:334-339 | Case 1: the RED sibling turns BLACK, the parent RED, then a left rotation at the parent. The cursor keeps the invariant, one level deeper, with a BLACK sibling. |
| RbDeleteFix.RedSiblingLeft | rbtree/rbtree.go:334-339 | The recolouring and rotation of Case 1 keep the invariant and give the cursor a BLACK sibling. |
| RbTrees.RbTree.DeleteRedSiblingRight | rbtree/rbtree.go:359-364 | The mirror image of DeleteRedSiblingLeft. |
| RbDeleteFix.RedSiblingRight | rbtree/rbtree.go:359-364 | The mirror image of RedSiblingLeft. |
| RbTrees.RbTree.DeleteBlackSiblingLeft | rbtree/rbtree.go:340-356 | With a BLACK sibling there are two outcomes. Case 2 moves the cursor to its parent with the invariant kept. Cases 3 and 4 end with the cursor at the root and the tree red-black. |
| RbTrees.RbTree.DeleteBlackSiblingRight | rbtree/rbtree.go:365-380 | The mirror image of DeleteBlackSiblingLeft. |
| RbTrees.RbTree.DeleteBlackNephews | rbtree/rbtree.go:340-342 | Case 2: the sibling turns RED and the parent becomes the cursor, one level short. |
| RbDeleteFix.BlackNephews | rbtree/rbtree.go:340-342 | Reddening the sibling moves the deficit to the parent's subtree. |
| RbTrees.RbTree.DeleteInnerNephewLeft | rbtree/rbtree.go:344-349 | Case 3: the near child turns BLACK, the sibling RED, then a right rotation at the sibling. The new sibling is BLACK with a RED far child. |
| RbDeleteFix.InnerNephewLeft | rbtree/rbtree.go:344-349 | The same for the shapes and colours. |
| RbTrees.RbTree.DeleteInnerNephewRight | rbtree/rbtree.go:369-374 | The mirror image of DeleteInnerNephewLeft. |
| RbDeleteFix.InnerNephewRight | rbtree/rbtree.go:369-374 | The mirror image of InnerNephewLeft. |
| RbTrees.RbTree.DeleteOuterNephewLeft | rbtree/rbtree.go:350-355 | Case 4: the sibling takes the parent's colour, the parent and the far child turn BLACK, then a left rotation at the parent. The whole tree is red-black. |
| RbDeleteFix.OuterNephewLeft | rbtree/rbtree.go:350-355 | The recolouring and rotation of Case 4 make the whole tree red-black. |
| RbTrees.RbTree.DeleteOuterNephewRight | rbtree/rbtree.go:375-379 | The mirror image of DeleteOuterNephewLeft. |
| RbDeleteFix.OuterNephewRight | rbtree/rbtree.go:375-379 | The mirror image of OuterNephewLeft. |
| RbTrees.RbTree.CopyValue | rbtree/rbtree.go:317-319 | The copy that the two-child path lacks: slot `z` takes slot `y`'s value. The tree stays valid and nothing else changes. |
| RbTrees.RbTree.DeleteOrderedAt | rbtree/rbtree.go:283-326 | The removal with the true successor, and both its key and value moved into `z`. The (key, value) pairs in order are exactly the old ones without z's, and the tree is red-black. |
| RbTrees.SuccessorPairs | rbtree/rbtree.go:296-319 | Moving the successor's key and value into `z` and unlinking the successor leaves the old pairs without z's. |
| RbTrees.RbTree.DeleteOrdered | rbtree/rbtree.go:267-327 | Delete as intended. On a search-ordered tree the keys left are the old ones without `key`, still ascending, each with its own value. |
| RbTrees.RbTree.Walk | rbtree/rbtree.go:388-396 | The dfs closure hands over the pairs of the subtree in left-node-right order. |
| RbTrees.RbTree.Range | rbtree/rbtree.go:387-399 | The callback receives every node's (key, value) pair, once per node, in in-order order. There are `count` calls, and their keys are `KeysOf(shape, keys)`, ascending on a search-ordered tree. |
| RbTrees.PairsKeys | rbtree/rbtree.go:394 | Range hands over one pair per node, and the pairs' keys are the nodes' keys in in-order order. |
| RbTrees.RbTree.Size | rbtree/rbtree.go:437-439 | The count field, which is the number of nodes in the tree. |

## Left out

- Keys are `int` compared with `<` and `==`. The `RbTreeKey` interface with its `Less`/`Equal` methods and the test's type assertions are not modelled.
- Values are a type parameter. Go's `any` and its dynamic typing are not modelled.
- Pointers are arena slots. Node allocation is a new slot at the end, and an unlinked node keeps its slot. Garbage collection and pointer identity are not modelled.
- The node `Delete` returns is modelled as an `Entry` of key, value and colour. Its three links, all the sentinel in the Go code, are not.
- The sentinel's own `left` and `right` fields are `nil` in the Go code; slot 0's child fields are 0 here. The model never reads them. To keep it that way, rotations require a real node and `min`/`max` require the sentinel or a real node. The Go callers only pass such nodes. Other arguments would dereference `nil`.
- `Range` takes a callback. The model returns the sequence of (key, value) pairs the callback would receive, in order. Side effects of the callback are not modelled.
- RbTrees.RbTree.Splice: `count` is decremented when the node is unlinked, not after deleteFixUp as in the Go code. deleteFixUp does not read `count`, so nothing observes the difference.
- RbTrees.RbTree.Delete: on the two-child path only the colour rules, the node count and the in-order slot sequence are stated. Search order and the contents of the pairs are not, because that path breaks them (see Findings).
- Complexity and height bounds (O(log n)) are not stated.
- Concurrent use is not modelled; the Go code has no synchronisation.

## Findings

| source | as written | input that shows it | evidently intended | confidence | as-written member | corrected member |
|---|---|---|---|---|---|---|
| rbtree/rbtree.go:238-243 | Get turns left below a smaller key and right below a greater one | root key 5 with left child key 3; `Get(3)` turns right, runs off the tree and reports absence | the descent of Update/Insert/Delete, which turns right below a smaller key | high; not executed | RbTrees.RbTree.Get, RbKeys.FindGetMisses | RbTrees.RbTree.Lookup |
| rbtree/rbtree.go:407-417, 425-435 | `min`/`max` reset `cur` to the root, so they ignore their argument | any tree whose root has two children: `min(root.right)` answers the leftmost node of the whole tree, which lies left of the root | the leftmost/rightmost node of the subtree at the argument | high; not executed | RbTrees.RbTree.MinOf, RbTrees.RbTree.MaxOf, RbShape.WholeTreeMin | RbTrees.RbTree.SubtreeMin, RbTrees.RbTree.SubtreeMax |
| rbtree/rbtree.go:254-256 | `successor` of a node with a right child is `min(x.right)`, which is the whole tree's minimum | nodes 1, 2, 3 with 2 at the root: the successor of 2 is answered as 1 instead of 3 | the next node in in-order order | high; not executed | RbTrees.RbTree.Successor, RbShape.WholeTreeMin | RbTrees.RbTree.NextNode |
| rbtree/rbtree.go:296-319 | deleting a node with two children unlinks the whole tree's leftmost node and copies only its key into the deleted node's place | keys 10, 20, 30, 40 with 30 at the root, 20 its left child, 10 below 20 and 40 on the right; `Delete(30)` leaves keys 20, 10, 40 in order, out of order, and key 10 keeps key 30's value | unlink the in-order successor and move both its key and its value | high; not executed | RbTrees.RbTree.Delete, RbKeys.TwoChildDeleteUnsorts | RbTrees.RbTree.DeleteOrdered |
