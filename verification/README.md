# Red-black tree: a Dafny model of its balancing engine

This project models the red-black tree of `src/RedBlackTree.java` and the node cell of `src/Node.java`. It covers:

- the two rotations;
- insertion, including the colour fix-up after it;
- the comparator-guided search;
- the partial deletion the code implements;
- the three traversal renderers on a node.

The model keeps the source's real behaviour, not a textbook tree.

- **Tree shape.** A tree is an immutable `Tree = Nil | Node(color, left, value, right)`. `Nil` is the source's `null` child.
- **Parent links.** These become a zipper: a bottom-up path of `Frame`s, each holding the direction taken, the colour and value of the node passed, and its other subtree. `Plug(t, path)` rebuilds the whole tree.
- **Keys.** The generic comparator is replaced by `int` keys with their usual order.
- **The root's parent.** The always-BLACK sentinel appears only as the root's parent. The model records which kind of link sits above the root (`RootParent`):
  - `SentinelParent` is the sentinel;
  - `NullParent` is the `null` link that `deleteNode` writes when it replaces the root.
- **Exceptions.** Every exception the source can throw is an `Err` of `Result`:
  - `MissingChild` is the explicit `RuntimeException` a rotation throws;
  - `UnexpectedColor` is the one `deleteNode` throws for a BLACK leaf;
  - `NullReference` is the `NullPointerException` raised when the fix-up or a rotation dereferences a `null` root parent.

Module layout:

| file | module | models |
|---|---|---|
| `outcomes.dfy` | `Outcomes` | `Option`, `Result` and the three exceptions |
| `nodes.dfy` | `Nodes` | the `Node` cell: constructors, getters, setters, and the sentinel's overrides |
| `trees.dfy` | `Trees` | trees, zipper frames, symmetric order, and the red-black invariants |
| `traversals.dfy` | `Traversals` | `preOrder`, `inOrder` and `postOrder` as sequences of (value, colour) |
| `rotations.dfy` | `Rotations` | `rotateLeft` and `rotateRight` |
| `insertion.dfy` | `Insertion` | `insert` and `fixColorsAfterInsertion` |
| `search.dfy` | `Search` | `search` and `searchNode` |
| `deletion.dfy` | `Deletion` | `delete` and `deleteNode` |
| `scenarios.dfy` | `Scenarios` | sequences of insertions |
| `demo.dfy` | `Demo` | the demo driver's insertion sequence and deletions on its tree |

The invariants are defined in `Trees`:

- `Ordered`: the symmetric order is non-decreasing. It is not strict, because an equal value is inserted to the right and a rotation can then carry it into a left subtree.
- `IsRedBlack`: the root is BLACK, no RED node has a RED child, and every path down to an absent child meets equally many BLACK nodes.
- `Valid`: both of the above, plus the sentinel above a non-empty root.

How the fix-up loop `FixUpLoop` follows the source:

- A RED parent whose own parent is the sentinel takes the source's mirror branch. The sentinel's left link is the sentinel itself, so "parent is the left child" fails there. The sentinel then reads as a BLACK uncle, and writes to the sentinel have no effect. That branch still terminates.
- With a `null` root parent, the loop or the rotation it starts throws as soon as it reaches the root.

Where the source's own documentation and its code disagree, this model follows the code:

- **Deletion.** The javadoc of `delete` (`src/RedBlackTree.java:336-341`) says it returns true "if the node was successfully deleted". The code removes only RED leaves and replaces a root that has a child. For a non-root node with a child it removes nothing, yet still returns true. Deleting 10 from the demo driver's tree is such a case (`Demo.DemoDeleteTen`).
- **Traversals.** The doc comments at `src/Node.java:143-160` name post-order and in-order traversal. The code renders the children of the node in pre-order (see Findings).

## Model

| member | source | states |
|---|---|---|
| Nodes.ConstructorsAgree | src/Node.java:105-130 | `NewNode(v)`, that is `new Node(v)`, is RED, with null left, right and parent links and value `v`. `DefaultNode`, the no-argument constructor, gives the same, with no value. |
| Nodes.SetThenGet | src/Node.java:36-85 | For the getters `GetColor`, `GetValue`, `GetLeft`, `GetRight`, `GetParent` and the setters `SetColor`, `SetLeft`, `SetRight`, `SetParent`: on a plain node, each getter returns what its setter last wrote, and each setter leaves every other field as it was. |
| Nodes.ValueIsFinal | src/Node.java:29-94 | No setter changes a node's value. |
| Nodes.SentinelIgnoresWrites | src/RedBlackTree.java:10-35 | Whatever is written to it, the sentinel reads BLACK, without a value, and linked to itself as parent, left and right. |
| Nodes.NewSentinelOverrides | src/RedBlackTree.java:10-35 | `NewSentinel`, a `SentinelNode` built by the protected constructor, holds that constructor's RED colour and null links in its own fields, yet its overridden getters answer BLACK, no value, and the sentinel itself for parent, left and right. |
| Trees.EmptyIsValid | src/RedBlackTree.java:45-49 | `Empty`, the constructor's tree with a null root, holds no values and is valid, with the sentinel recorded as the root's parent. |
| Traversals.PreOrder | src/Node.java:138-142 | `preOrder`: the node's own entry, then the left child's rendering if the left child is not null, then the right child's. It gives one entry per node, the node's own entry first. |
| Traversals.InOrderRender | src/Node.java:161-166 | `inOrder` as written: the left child's `preOrder`, the node's own entry, then the right child's `preOrder`. It gives one entry per node, with the node's own entry right after its left subtree's entries. |
| Traversals.PostOrderRender | src/Node.java:149-154 | `postOrder` as written: the left child's `preOrder`, the right child's `preOrder`, then the node's own entry. It gives one entry per node, with the node's own entry last. |
| Traversals.PreOrderListsEveryNode | src/Node.java:138-142 | Pre-order lists each node of the subtree exactly once: its multiset of (value, colour) entries equals the subtree's, and its length is the size. |
| Traversals.RendersListEveryNode | src/Node.java:138-166 | Each of the three renderers, as written, lists every node of the subtree exactly once. |
| Traversals.InOrderRenderUnsorted | src/Node.java:161-166 | As written, `inOrder` of a valid red-black tree (the one inserting 3, 2, 4, 1 builds) gives values 2, 1, 3, 4, which is not sorted. |
| Traversals.InOrderListsKeys | src/Node.java:155-166 | A true in-order traversal lists the stored values in symmetric order, so it is sorted on an ordered tree. |
| Traversals.PostOrderRenderBreaksMirror | src/Node.java:149-154 | As written, `postOrder` of that tree gives values 2, 1, 4, 3 where post-order is 1, 2, 4, 3. Its reverse is not the pre-order of the mirrored tree. |
| Traversals.PostOrderMirrorsPreOrder | src/Node.java:143-154 | A true post-order, reversed, is the pre-order of the mirror image, for every tree. |
| Rotations.RotL | src/RedBlackTree.java:60-75 | The right child is promoted over the node, and the node becomes its left child. The in-order (value, colour) sequence, the stored values and the size are unchanged, so no node changes colour. |
| Rotations.RotR | src/RedBlackTree.java:85-100 | The mirror image of `RotL`, with the same preserved quantities. |
| Rotations.RotationsInverse | src/RedBlackTree.java:58-101 | A right rotation undoes a left rotation, and a left rotation undoes a right rotation. |
| Rotations.RotateLeft | src/RedBlackTree.java:58-76 | On the sentinel it is a no-op. On a node without a right child it throws. Otherwise it leaves the in-order (value, colour) sequence and the root's parent link unchanged. |
| Rotations.RotateRight | src/RedBlackTree.java:83-101 | The mirror image: a no-op on the sentinel, throws on a missing left child, and preserves in-order and the root's parent link. |
| Rotations.RotateLeftRelinks | src/RedBlackTree.java:66-73 | Rotating the root makes the promoted child the root, under the sentinel. With a null root parent it throws. Otherwise the former parent's slot on the same side receives the promoted child, and everything above is unchanged. |
| Rotations.RotateRightRelinks | src/RedBlackTree.java:91-98 | The mirror image of `RotateLeftRelinks`. |
| Insertion.Descend | src/RedBlackTree.java:110-134 | The descent ends at the empty slot where the new RED leaf is hung (left only when the node's value is strictly greater). Plugging the leaf there gives the tree that reference placement builds. |
| Insertion.PlaceAddsOne | src/RedBlackTree.java:115-136 | Placing the new leaf adds exactly one occurrence of the value to the stored multiset. |
| Insertion.PlaceKeepsOrder | src/RedBlackTree.java:115-134 | On an ordered tree, the new value lands in symmetric order after every value not above it, so equal values go right, and the tree stays ordered. |
| Insertion.Ascend | src/RedBlackTree.java:149-153 | The recolour step, for a RED uncle on either side: the parent and the uncle become BLACK, and the grandparent becomes RED and is the new focus. The result is a RED grandparent with two BLACK children, holding the same values in symmetric order. |
| Insertion.Restructure | src/RedBlackTree.java:154-161 | The rotation step, for an absent or BLACK uncle. An inner focus is first rotated up to the parent's place (lines 155-158, mirrored at 172-175). Then the parent is painted BLACK and the grandparent RED, and the grandparent is rotated the other way (mirrored at 176-178). The result is topped BLACK by the parent on the straight path, or by the focus on the inner path, with the RED grandparent as its child on the uncle's side, and the same values in symmetric order. |
| Insertion.SentinelCase | src/RedBlackTree.java:164-179 | The parent is a RED root, so the grandparent is the sentinel and the mirror branch runs. A focus on the left is rotated up (lines 171-174), then the top is painted BLACK. The result is BLACK, keeps its values in symmetric order, and is topped by the focus when it was the left child, and by the parent otherwise. |
| Insertion.FixUpLoop | src/RedBlackTree.java:146-181 | The loop's case split: a BLACK parent ends it with the tree unchanged, a RED uncle ascends, and an absent or BLACK uncle rotates and stops. A parent that is a RED root takes the sentinel path. The loop throws only with a null parent above the root, and then only NullReference. |
| Insertion.FixColorsAfterInsertion | src/RedBlackTree.java:145-183 | When it ends normally, the root is BLACK. It ends normally exactly when the loop does. |
| Insertion.FixUpKeepsKeys | src/RedBlackTree.java:145-181 | The loop never changes the symmetric order of the stored values. |
| Insertion.SentinelGrandparent | src/RedBlackTree.java:145-180 | When the grandparent is the sentinel, `fixColorsAfterInsertion`'s "parent is the left child" test fails, and the uncle (the sentinel) reads non-null and BLACK, so the rotation branch runs. Painting the sentinel RED has no effect. For a RED parent that is the root, the loop gives exactly `SentinelCase` of the focus under the sentinel, and throws under a null parent. |
| Insertion.FixUpNeverThrowsUnderSentinel | src/RedBlackTree.java:146-181 | With the sentinel as the root's parent, the loop always ends normally. The sentinel always reads BLACK (lines 22-24), so the loop test stops there. |
| Insertion.AscendFits | src/RedBlackTree.java:149-170 | The recolour case turns a red-red edge into a RED focus one black level higher. The focus is itself balanced and red-free. |
| Insertion.RestructureFits | src/RedBlackTree.java:154-179 | The rotate case leaves a BLACK-topped subtree that is balanced and red-free, with the black height the grandparent had. |
| Insertion.FixUpRestores | src/RedBlackTree.java:145-181 | From a RED node whose only defect is its edge to its parent, the loop ends normally with a balanced, red-free tree. |
| Insertion.RestructureRotatesRight | src/RedBlackTree.java:154-161 | With the parent on the grandparent's left, `rotateLeft` at the parent rotates an inner focus up without throwing. After the recolouring, `rotateRight` at the grandparent gives exactly the tree the rotation step plugs back. With a root grandparent under a null parent it throws NullReference, exactly as the loop does. |
| Insertion.RestructureRotatesLeft | src/RedBlackTree.java:171-178 | The mirror image: `rotateRight` at the parent, then `rotateLeft` at the grandparent, agreeing with the loop's rotation step, including the NullReference case. |
| Insertion.Insert | src/RedBlackTree.java:108-138 | After `insert` the root is BLACK. The root's parent is the sentinel when the tree was empty, and otherwise is unchanged. |
| Insertion.InsertAddsOne | src/RedBlackTree.java:108-138 | `insert` adds exactly one occurrence of the value. On an ordered tree it keeps the tree ordered, and the values are the old ones with the new one sorted in. |
| Insertion.InsertIntoEmpty | src/RedBlackTree.java:124-127 | On an empty tree the new node becomes the root, with the sentinel as its parent, and is painted BLACK (line 182). |
| Insertion.InsertNeverThrowsUnderSentinel | src/RedBlackTree.java:108-183 | With the sentinel above the root, or an empty tree, `insert` never throws. |
| Insertion.InsertKeepsColours | src/RedBlackTree.java:141-183 | Under the sentinel, `insert` keeps a red-black tree red-black. |
| Insertion.InsertKeepsValid | src/RedBlackTree.java:103-183 | `insert` keeps a valid tree valid: ordered, BLACK root, no red-red edge, equal black counts, sentinel above the root. |
| Search.Locate | src/RedBlackTree.java:317-333 | A node the descent finds holds the value, at the position it was found. On an ordered subtree the descent finds a node exactly when the value is stored. |
| Search.SearchNode | src/RedBlackTree.java:314-334 | `searchNode` returns a node holding the value, or null. On an ordered tree it is null exactly when the value is absent. |
| Search.Search | src/RedBlackTree.java:286-306 | `search` is true exactly when `searchNode` finds a node. So on an ordered tree it is true exactly when the value is stored. |
| Deletion.DeleteNode | src/RedBlackTree.java:359-385 | It throws exactly on a BLACK leaf. It clears a RED non-root leaf's slot in its parent. It replaces a root that has a child by its left child if present, else its right, under a null parent link. A RED leaf that is the root is removed, and the tree becomes empty (line 363). A non-root node with a child is left alone. |
| Deletion.Delete | src/RedBlackTree.java:342-352 | `delete` reports false and changes nothing exactly when the search finds no node. On an ordered tree this happens exactly when the value is absent. |
| Deletion.DeleteRedLeaf | src/RedBlackTree.java:361-365 | Deleting a RED non-root leaf removes one occurrence of its value and keeps a valid tree valid. |
| Deletion.DeleteBlackLeafThrows | src/RedBlackTree.java:361-362 | Deleting a BLACK leaf throws. |
| Deletion.DeleteOnlyNodeThrows | src/RedBlackTree.java:362-363 | In a valid tree the only node is BLACK, so deleting it throws before the root can be cleared. |
| Deletion.DeleteRootWithChild | src/RedBlackTree.java:368-375 | Deleting a root with a child leaves that child's subtree, the left one when present, under a null parent. With two children, every value of the right subtree is lost too. |
| Deletion.DeleteInnerNodeIsNoop | src/RedBlackTree.java:368-378 | Deleting a non-root node that has a child changes nothing, yet reports success. |
| Deletion.InsertAfterRootDeletionThrows | src/RedBlackTree.java:371-374 | Insert 3 and 5, then delete 3: the root becomes RED 5 under a null parent. Inserting 7 then throws, because the fix-up dereferences that null parent (line 147). |
| Scenarios.InsertAllKeepsValid | src/RedBlackTree.java:108-183 | Any sequence of insertions into a valid tree succeeds. The result is valid, holds the old values plus the new ones, and lists them as inserting one by one into a sorted list would. |
| Scenarios.WitnessIsReachable | src/RedBlackTree.java:145-153 | Inserting 3, 2, 4, 1 builds the tree used in the traversal findings. The last insertion recolours and ascends to the root. |
| Demo.DemoBuildsTree | src/Main.java:6-8 | Inserting 3, 5, 10, 11, 2, 4, 8, 7, 1, 6, 9 into an empty tree builds exactly `DemoTree`. |
| Demo.DemoSequence | src/Main.java:6-8 | That sequence ends in a valid tree whose values in symmetric order are 1 to 11. |
| Demo.DemoDeleteTen | src/RedBlackTree.java:342-378 | In the demo's tree, the node holding 10 is neither the root nor a leaf. `delete(10)` reports success and leaves the tree, and 10 in it, unchanged. |
| Demo.DemoDeleteAbsent | src/RedBlackTree.java:342-347 | Deleting 99 from the demo's tree reports failure and changes nothing. |

## Left out

- `src/Main.java` is the demo driver. Only its insertion sequence is modelled, in `Demo`; its printing is not.
- `visualizeTree`, `printTree`, `getPrintingString` and `toString` (`src/RedBlackTree.java:192-249`) are text rendering and console output.
- The "Empty Rad-Black Tree" strings of `getPreOrder`, `getPostOrder` and `getInOrder` are left out. An empty tree renders as the empty sequence.
- `Node.toString` and the `"  "` and `"."` string concatenation in the renderers are left out. A renderer produces a sequence of (value, colour) entries.
- The generic `Comparator<T>` is replaced by `int` keys and their usual order. A comparator that is not a total preorder is out of scope.
- Java object identity and heap aliasing are not modelled. `insert` takes the new node's value rather than a `Node` object, so inserting a node that is already linked into the tree is out of scope.
- The two deletion branches marked TODO (`src/RedBlackTree.java:377,383`) are not implemented. The first is modelled as the no-op it is, and the second is unreachable. No double-black fix-up exists in the source, so none is modelled.
- Insertion.Insert: on `Err` the model returns no tree. In the source, the heap is left part-way through the fix-up. The new node is already linked, and nodes may already have been recoloured and rotated. When the exception comes from rotating a root under a `null` parent, the parent has already been painted BLACK and the old root RED (lines 159-160, or 176-177 in the mirror branch). In the inner case, the rotation at line 157 (or 174) has also already run, and the parent is the node it promoted. `rotateRight` then makes the parent's inner (right) subtree the old root's left child and points that subtree's parent link back at the old root (lines 87-89). It sets the parent's parent link to `null` (line 91) and throws at line 96, so lines 87-91 have run. The mirror `rotateLeft` does the same at lines 62-66 and throws at line 71. So the old root stays the root, painted RED, and keeps the parent's inner subtree. The parent and its outer subtree are no longer reachable from it. The new node is lost when it lies in that outer part, and stays reachable when a recolour-and-ascend step has left it in the inner subtree.
- Rotations.RotateLeft: on `Err(NullReference)` the model returns no tree. In the source, the exception is raised at line 71, after three writes:
  - the node's right link points at the promoted child's former left subtree (line 62);
  - that subtree's parent link points back at the node (lines 63-65);
  - the promoted child's parent link is `null` (line 66).

  The node stays the root, and the promoted child and its right subtree are no longer reachable from it. `Rotations.RotateRight` is the same, mirrored (lines 87-96).
- Every member only addresses nodes reachable from the root. A `Node` detached from the tree, such as the one `deleteNode` unlinks, keeps its stale links in the source, and the model does not represent it.

## Findings

| source | as written | input that shows it | evidently intended | confidence | as-written member | corrected member |
|---|---|---|---|---|---|---|
| src/Node.java:161-166 | `inOrder` renders the left and right children with `preOrder` | insert 3, 2, 4, 1: `getInOrder()` lists values 2, 1, 3, 4 | the children rendered with `inOrder`, giving values 1, 2, 3, 4, sorted on an ordered tree | not executed | Traversals.InOrderRenderUnsorted | Traversals.InOrderListsKeys |
| src/Node.java:149-154 | `postOrder` renders the left and right children with `preOrder` | insert 3, 2, 4, 1: `getPostOrder()` lists values 2, 1, 4, 3 | the children rendered with `postOrder`, giving values 1, 2, 4, 3, the reverse of the mirror's pre-order | not executed | Traversals.PostOrderRenderBreaksMirror | Traversals.PostOrderMirrorsPreOrder |
