# RBTree — a red-black ordered map, modelled in Dafny

`RBTree.hpp` implements an ordered map `RBTree<K, T, Compare>`. It is a red-black
binary search tree of nodes with `left`, `right` and parent (`p`) links. The
public operations are `insert`, `erase`, `count`, `at`, `operator[]`,
`lowerBound`, `clear`, `isRBTree` and the copy constructor. They rest on private
helpers:

- navigation: `findNode`, `minNode`, `colorOf`, `areKeysEqual`;
- restructuring: `rotate`, `rotateLeft`, `rotateRight`, `updateParentNode`;
- repair after a change: `insertNode`/`insertFixup` and `eraseNode`/`eraseFixup`;
- checking: `isWeakRBTree`.

This project models that core with keys as `int`, ordered by `<` (the default
`std::less`), and values of any type `V`.

How the model is built:

- **Trees as values** (`Trees`). A node is `Node(color, left, key, value, right)`
  and a null pointer is `Nil`. The map a tree stands for is read off its in-order
  entry sequence: `Entries`, then `Content`. The red-black rules are stated as
  predicates:
  - `NoRedRed`: no Red node has a Red child;
  - `BlackHeight`: counted as `isWeakRBTree` counts it, with null as 1;
  - `Balanced`: sibling subtrees have equal black heights;
  - `IsRB`: adds a Black root.
- **Node pointers as cursors** (`Zipper`). A pointer into the tree is a
  `Cursor`: the subtree at the node plus the path of frames up to the root. Each
  frame holds the parent's side, colour, key, value and the other child. The
  parent links are not stored: `Up` plays the part of `p` and `Down` the part of
  `left`/`right`, and `Whole` rebuilds the tree. A node and its parent therefore
  agree by construction.
- **Loops as methods with invariants.** `findNode` and `minNode` are loops over
  a cursor (`Navigation`). The repair loops live in the `RBTree` class (`RBMap`).
  Its field `root` holds the whole tree as a value and is reassigned with the
  rebuilt tree after every step. The source relinks nodes in place and changes
  `root_` only when the top node changes.
- **Fixup cases as functions.** Each case of `insertFixup` (`Insertion`) and of
  `eraseFixup` (`Deletion`) is a function on cursors, together with a lemma
  showing that it keeps the loop invariant.
- **The shipped guarantee.** After every public operation the tree is sorted and
  red-black (`RBTree.Valid`). Each operation's effect is stated on the map
  `RBTree.Map()`.

Where the code and its evident intent differ, the model follows the intent and
records the code as written:

- `operator[]` assigns the `bool` result of `insert` to a `Node*`, and
  `lowerBound` passes a key-value pair to `compare_`. Neither would compile once
  instantiated. The model reads them as "insert, then return the node's value"
  and "compare the node's key".
- Three places in `eraseNode`/`eraseFixup` corrupt the tree or dereference null.
  Each is modelled as written, shown on a concrete tree, and corrected; see
  "## Findings". The rest of the model uses the corrected behaviour.

`RBTreeNode.hpp` and `RBTreeIterator.hpp` are not part of this model. `Node::child(isLeft)` is read from its uses as "left child when `isLeft`, right child otherwise".

## Model

| member | source | states |
|---|---|---|
| Trees.ColorOf | RBTree.hpp:540-550 | a position is Red exactly when it holds a Red node; a null position is Black |
| Trees.AreKeysEqual | RBTree.hpp:551-554 | two keys neither of which is below the other are equal, and only those |
| Trees.IsWeakRBTree | RBTree.hpp:521-539 | 0 exactly when some Red node has a Red child or two sibling subtrees differ in black height; otherwise the black height, null counting 1 |
| Trees.IsRBTree | RBTree.hpp:164-171 | true exactly when the (non-empty) tree has a Black root, no Red-Red pair and equal black heights |
| Trees.BlackHeightBound | RBTree.hpp:521-539 | a tree meeting the two rules checked by isWeakRBTree with black height h holds at least 2^(h-1) - 1 entries |
| Trees.HeightBound | RBTree.hpp:521-539 | under the same two rules the height is at most 2h - 2 for a Black root and 2h - 1 for a Red one, where h is the black height |
| Trees.LogHeight | RBTree.hpp:521-539 | a tree of height H meeting both rules holds at least 2^(H/2) - 1 entries: the logarithmic height bound the balancing exists for |
| Trees.ChildOrder | RBTree.hpp:362-363 | `child(true)` of a node in an ordered tree holds only keys below the node's and `child(false)` only keys above, each with fewer entries than the node |
| Trees.RotateLeft | RBTree.hpp:504-520 | the right child rises, the old top becomes its left child and takes its middle subtree; the in-order sequence is unchanged |
| Trees.RotateRight | RBTree.hpp:487-503 | the mirror image of RotateLeft; the in-order sequence is unchanged |
| Trees.Rotate | RBTree.hpp:476-486 | the child opposite the flag rises above the target, which keeps the rising node's inner subtree; the in-order sequence is unchanged |
| Zipper.Up | RBTree.hpp:378 | `target = target->p`: the whole tree is unchanged, one frame is dropped, and the node reached has the old node as its child on the recorded side and the recorded colour |
| Zipper.Down | RBTree.hpp:439-456 | `current = current->left` or `->right`: the whole tree is unchanged, one frame recording the side is added, and the node reached is the child on that side |
| Zipper.UpdateParentNode | RBTree.hpp:411-427 | in an ordered tree, writing the new node into the slot chosen by comparing keys (or into the root) is exactly replacing the old node's subtree in place |
| Zipper.SideByKey | RBTree.hpp:414-415 | in an ordered tree a node is its parent's left child exactly when its key is below the parent's, which is what the key comparison in updateParentNode relies on |
| Zipper.DescendBounds | RBTree.hpp:436-458 | each step of findNode's descent keeps every entry before the cursor below the key and every entry after it above |
| Navigation.FindNode | RBTree.hpp:429-463 | the answer is null exactly for the empty tree; otherwise it holds the key or has an empty child on the key's side, and the key lies between the entries before and after it |
| Navigation.FoundIff | RBTree.hpp:127-131 | after findNode, the key is in the map exactly when the node found holds it, and then the node's value is the mapped value |
| Navigation.MinNode | RBTree.hpp:464-475 | null stays null; otherwise the node reached by going left has no left child and holds the first entry of the subtree, and lies on an all-left path below the start |
| Navigation.LowerBoundAt | RBTree.hpp:132-140 | findNode's node position, advanced by one when its key is below the query, is the first entry whose key is not below the query |
| Insertion.AttachRed | RBTree.hpp:269-277 | hanging the Red leaf on the side chosen by comparing keys keeps the entries sorted, adds exactly key to value to the map, and establishes the insertFixup invariant |
| Insertion.ParentRedIff | RBTree.hpp:283 | the loop test read on the frames is `colorOf(target->p) == Red`, and it is false at the root, whose parent is null |
| Insertion.GrandparentExists | RBTree.hpp:283-287 | while the parent is Red a Black grandparent exists, so grandpa and uncle are well defined |
| Insertion.UncleSide | RBTree.hpp:285-287 | the parent is the grandparent's child on the `isParentLeft` side, and the uncle is its child on the other side |
| Insertion.RecolorUncle | RBTree.hpp:288-294 | Red uncle: recolouring parent, uncle and grandparent and moving to the grandparent keeps the invariant, climbs two levels and keeps the entries |
| Insertion.RotateInner | RBTree.hpp:297-301 | inner grandchild: moving to the parent and rotating it keeps the invariant and the entries and leaves an outer grandchild under a Red parent and Black uncle |
| Insertion.RotateOuter | RBTree.hpp:302-304 | outer grandchild: recolouring and rotating the grandparent keeps the invariant and the entries and leaves the target under a Black parent, which ends the loop |
| Insertion.FixupDone | RBTree.hpp:283-307 | once the parent is not Red, forcing the root Black yields a red-black tree |
| Deletion.RedBrother | RBTree.hpp:366-372 | a Red brother is recoloured and the target rotated toward the broken side; the entries are unchanged and the broken child stays the target's |
| Deletion.RedBrotherInv | RBTree.hpp:366-372 | that case keeps the eraseFixup invariant and leaves a Red target one level lower with a Black brother |
| Deletion.RecolorBrother | RBTree.hpp:374-376 | turning the brother Red keeps the entries, the path and the target's colour |
| Deletion.RecolorBrotherInv | RBTree.hpp:374-383 | with both nephews Black, after recolouring: at the root the whole tree keeps both rules; elsewhere the invariant holds at the parent, with the side of the old target as the new flag |
| Deletion.AscentSide | RBTree.hpp:377-378 | the corrected new flag: the side the old target hangs on under its parent |
| Deletion.RotateBrother | RBTree.hpp:387-393 | recolouring the near nephew and brother and rotating the brother away from the broken side keeps the entries, the path and the target's colour |
| Deletion.RotateBrotherInv | RBTree.hpp:387-393 | with far nephew Black and near nephew Red, that case keeps the invariant and leaves a Black brother with a Red far child |
| Deletion.RotateParent | RBTree.hpp:394-399 | the brother takes the target's colour, target and far nephew turn Black, the target is rotated toward the broken side; the entries are unchanged |
| Deletion.RotateParentInv | RBTree.hpp:394-399 | with a Red far nephew that case repairs the deficit: the whole tree has no Red-Red pair and equal black heights |
| Deletion.BlackenChild | RBTree.hpp:402-405 | painting the broken child Black keeps the entries |
| Deletion.BlackenChildDone | RBTree.hpp:402-405 | when the loop stops at a Red broken child, painting it Black yields a red-black tree |
| Deletion.BlackenDone | RBTree.hpp:406-409 | when the walk ended, forcing the root Black yields a red-black tree |
| Deletion.BrotherExists | RBTree.hpp:373 | under the invariant the brother is never null |
| Deletion.FixupStep | RBTree.hpp:364-400 | one pass of the loop body keeps the invariant and the entries; it ends the walk at the root, or climbs, or leaves a Red broken child at the same depth |
| Deletion.Replacement | RBTree.hpp:318-326 | for a node with at most one child, the node taking its place is that child, or null exactly when it has none; the entries below the place are the node's two subtrees' entries |
| Deletion.SpliceStart | RBTree.hpp:311-326 | unlinking a node with at most one child removes exactly its entry and keeps the order. A Red node leaves a red-black tree, a Black root leaves one once the new root is Black, and any other Black node leaves the invariant at its parent with its own side as the flag |
| Deletion.MovedFrame | RBTree.hpp:345-348 | in its new place the successor, with its own key and value, takes the erased node's colour and left subtree and keeps its subtree on the right; since its key is above the erased one, that left subtree stays below it |
| Deletion.SuccessorSplice | RBTree.hpp:328-350 | the successor's right subtree takes the successor's old slot, and the successor takes the erased node's slot with the erased node's colour and left subtree |
| Deletion.SuccessorSpliceWhole | RBTree.hpp:342-349 | the relinked tree is the erased node's subtree rebuilt around the successor and put back in the erased node's slot |
| Deletion.SuccessorStart | RBTree.hpp:328-356 | the two-child removal drops exactly the erased node's entry and keeps the order. The successor's original colour decides: a Red successor leaves a red-black tree; a Black one leaves the invariant at the successor's old parent, on the side it hung from |
| Deletion.EraseKeepsOrder | RBTree.hpp:309-358 | dropping one entry from a sorted in-order sequence keeps it sorted |
| Deletion.RemoveContent | RBTree.hpp:154-162 | dropping the found node's entry from a sorted tree removes exactly its key from the map |
| RBMap.RBTree.constructor | RBTree.hpp:25-28 | a new tree is empty and valid |
| RBMap.RBTree.Copy | RBTree.hpp:33-49 | the copy has the source's nodes with a Black root, and it is valid with the same map when the source is |
| RBMap.RBTree.Clear | RBTree.hpp:72-99 | the tree becomes empty |
| RBMap.RBTree.Count | RBTree.hpp:127-131 | 1 when the key is in the map, 0 otherwise |
| RBMap.RBTree.At | RBTree.hpp:109-117 | the mapped value when the key is present, the out-of-range error otherwise |
| RBMap.RBTree.Index | RBTree.hpp:100-108 | a present key leaves the tree unchanged and yields its value; an absent key is inserted with the default value, which is yielded |
| RBMap.RBTree.LowerBound | RBTree.hpp:132-140 | the position of the first entry whose key is not below the query, or the end position |
| RBMap.RBTree.Insert | RBTree.hpp:150-153 | true exactly when the key was absent, and then the map gains exactly key to value; otherwise the tree is unchanged; the tree stays sorted and red-black |
| RBMap.RBTree.InsertNode | RBTree.hpp:258-280 | an empty tree gets a Black root; a present key leaves the tree unchanged; otherwise the key is added and the tree repaired |
| RBMap.RBTree.InsertFixup | RBTree.hpp:281-308 | from the invariant at the new Red node, the loop and the final Black root yield a sorted red-black tree with the same entries |
| RBMap.RBTree.Erase | RBTree.hpp:154-163 | true exactly when the key was present; the map loses exactly that key; a miss leaves the tree unchanged; the tree stays sorted and red-black |
| RBMap.RBTree.EraseNode | RBTree.hpp:309-358 | the entries lose exactly the erased node's entry and the tree stays sorted and red-black (with the corrections below) |
| RBMap.RBTree.EraseFixup | RBTree.hpp:359-410 | from the eraseFixup invariant the loop terminates in a sorted red-black tree with the same entries |
| Findings.AscentSideAsWritten | RBTree.hpp:377 | the flag as written agrees with the true side exactly when the old broken side was the left one |
| Findings.AscentSideCounterexample | RBTree.hpp:374-399 | erasing 3 from the perfect 7-node Black tree: with the flag as written the walk rotates the wrong way and ends unbalanced |
| Findings.AscentSideCorrected | RBTree.hpp:374-383 | the same erase with the corrected flag ends in a red-black tree |
| Findings.SuccessorStartAsWritten | RBTree.hpp:330-336 | the fixup start as written is the successor itself; it agrees with the corrected start exactly when the successor was the erased node's right child, and otherwise starts at a different node with the left side marked broken |
| Findings.SuccessorStartCounterexample | RBTree.hpp:330-356 | erasing 4 from the perfect 7-node Black tree: starting at the successor leaves the tree unbalanced |
| Findings.SuccessorStartCorrected | RBTree.hpp:330-356 | starting at the successor's old parent, the walk ends in a red-black tree |
| Findings.BrokenNodeAsWritten | RBTree.hpp:313 | the fixup target for a node with at most one child is null exactly when the erased node is the root, and in a valid tree that root is Black, so eraseFixup is reached with the null target |
| Findings.RootEraseCounterexample | RBTree.hpp:354-362 | erasing the root of a valid tree whose root has at most one child always erases a Black node, so eraseFixup gets a null target |
| Findings.SingletonRootErase | RBTree.hpp:354-362 | the one-entry tree is such a tree |

## Left out

- Iterators (`RBTreeIterator.hpp`, `begin`, `end`): positions are indices into the in-order entry sequence instead, with its length standing for `end()`.
- `walkByLevels`: it only prints the keys level by level.
- Memory management: node allocation and deletion, the destructor, the copy constructor's rollback on allocation failure, and the move constructor and move assignment. Trees are values here, so there is no aliasing or ownership.
- RBMap.RBTree.Clear: models the final state only. The order in which `clear` deletes the nodes is not modelled.
- RBMap.RBTree.Copy: the node-by-node traversal of `copyTree` is not modelled. On values a copy is the same tree, with the root made Black as the copy constructor does.
- The `Compare` template parameter: keys are `int` ordered by `<`.
- Trees.IsRBTree: requires a non-empty tree, because `isRBTree` reads the root's colour before any null check.
- RBMap.RBTree.At: returns the mapped value rather than a reference to it. Writes through the reference are not modelled.
- RBMap.RBTree.Index: returns the mapped value rather than a reference to it. Writes through the reference are not modelled.
- RBMap.RBTree.Index: the default value `T()` inserted for a missing key is the caller's `init` argument, because the value type has no default constructor here.
- Parent-link writes (the `p` assignments at RBTree.hpp:324, 340, 342, 345, 347, 493, 496, 501, 510 and 513, and the `middle->p` update at 518): trees are values and a cursor's path is its parent chain, so parent and child links cannot disagree in the model. It therefore does not check that the source keeps them consistent; read by hand, those writes match the relinking the model performs.
- In-place relinking: every operation rebuilds the affected path as a new tree value, so the model does not capture node identity or the fact that the source only touches the nodes it relinks.
- RBMap.RBTree.LowerBound: compares the node's key where the source passes the whole key-value pair to `compare_`.

## Findings

| source | as written | input that shows it | evidently intended | confidence | as-written member | corrected member |
|---|---|---|---|---|---|---|
| RBTree.hpp:377 | after recolouring the brother, the new flag is "the target is its parent's child on the old broken side"; when the old broken side was the right one, this names the wrong side | erase 3 from the perfect all-Black tree on 1..7: the result is 2B(1B, 4B(nil, 6B(5B, 7B))), whose black heights differ | the new flag is the side the target hangs on under its parent; the result is then 4B(2B(1R, nil), 6R(5B, 7B)) | high (not executed) | Findings.AscentSideAsWritten | Deletion.AscentSide |
| RBTree.hpp:332 | when the successor is not the erased node's right child, the fixup starts at the successor in its new place with the left side marked broken. The Black node was actually lost below the successor's old parent | erase 4 from the perfect all-Black tree on 1..7: the result is 5B(2B(1B, 3B), 6R(nil, 7B)), whose black heights differ | the fixup starts at the successor's old parent with its left side broken; the result is then 5B(2R(1B, 3B), 6B(nil, 7R)) | high (not executed) | Findings.SuccessorStartAsWritten | Deletion.SuccessorStart |
| RBTree.hpp:313 | erasing the root when it has at most one child calls `eraseFixup` with `target->p`, which is null, because the root is Black; `eraseFixup` asserts and dereferences it | erase the only key of a one-entry tree | skip the fixup and colour the new root (the child, if any) Black | high (not executed) | Findings.BrokenNodeAsWritten | Deletion.SpliceStart |
