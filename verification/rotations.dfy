/** `rotateLeft` and `rotateRight`: the only operations that restructure links.

    `RotL`/`RotR` are the rearrangement of one subtree. `RotateLeft`/
    `RotateRight` are the tree-level operations: they accept the sentinel
    (and do nothing), fail on a node without the child to promote, relink the
    promoted child into the rotated node's slot, and fail when that slot is
    the root and the root's parent link is `null`, because the source then
    dereferences the null parent to find the slot.
 */
module Rotations {
  import opened Outcomes
  import opened Trees
  import opened Traversals

  /** The node a rotation is asked to rotate: the sentinel, or a tree position. */
  datatype Target = SentinelNode | At(loc: Zipper)

  /** `loc` names a node of `root`. */
  ghost predicate PositionIn(loc: Zipper, root: Tree) {
    loc.focus.Node? && Plug(loc.focus, loc.path) == root
  }

  /** Left rotation of a subtree: its right child takes its place, it becomes
      that child's left child, and the child's left subtree moves across. */
  function RotL(t: Tree): (r: Tree)
    requires t.Node? && t.right.Node?
    ensures r.Node? && r.left.Node?
    ensures r.value == t.right.value && r.left.value == t.value
    ensures InOrder(r) == InOrder(t) && Keys(r) == Keys(t)
    ensures Entries(r) == Entries(t) && Size(r) == Size(t)
  {
    var x := t.right;
    Node(x.color, Node(t.color, t.left, t.value, x.left), x.value, x.right)
  }

  /** Right rotation of a subtree: the mirror image of `RotL`. */
  function RotR(t: Tree): (r: Tree)
    requires t.Node? && t.left.Node?
    ensures r.Node? && r.right.Node?
    ensures r.value == t.left.value && r.right.value == t.value
    ensures InOrder(r) == InOrder(t) && Keys(r) == Keys(t)
    ensures Entries(r) == Entries(t) && Size(r) == Size(t)
  {
    var x := t.left;
    Node(x.color, x.left, x.value, Node(t.color, x.right, t.value, t.right))
  }

  /** The two rotations undo each other. */
  lemma RotationsInverse(t: Tree)
    ensures t.Node? && t.right.Node? ==> RotR(RotL(t)) == t
    ensures t.Node? && t.left.Node? ==> RotL(RotR(t)) == t
  {
  }

  /** `rotateLeft(node)` on the tree object `s`. */
  function RotateLeft(s: RBTree, target: Target): (r: Result<RBTree>)
    requires target.At? ==> PositionIn(target.loc, s.root)
    ensures target.SentinelNode? ==> r == Ok(s)
    ensures target.At? && target.loc.focus.right.Nil? ==> r == Err(MissingChild)
    ensures r.Ok? ==> InOrder(r.value.root) == InOrder(s.root) && r.value.rootParent == s.rootParent
    ensures r.Ok? && target.At? ==>
      r.value.root == Plug(RotL(target.loc.focus), target.loc.path)
  {
    match target
    case SentinelNode => Ok(s)
    case At(loc) =>
      if loc.focus.right.Nil? then Err(MissingChild)
      else if loc.path == [] && s.rootParent == NullParent then Err(NullReference)
      else
        PlugInOrder(RotL(loc.focus), loc.focus, loc.path);
        Ok(RBTree(Plug(RotL(loc.focus), loc.path), s.rootParent))
  }

  /** `rotateRight(node)` on the tree object `s`. */
  function RotateRight(s: RBTree, target: Target): (r: Result<RBTree>)
    requires target.At? ==> PositionIn(target.loc, s.root)
    ensures target.SentinelNode? ==> r == Ok(s)
    ensures target.At? && target.loc.focus.left.Nil? ==> r == Err(MissingChild)
    ensures r.Ok? ==> InOrder(r.value.root) == InOrder(s.root) && r.value.rootParent == s.rootParent
    ensures r.Ok? && target.At? ==>
      r.value.root == Plug(RotR(target.loc.focus), target.loc.path)
  {
    match target
    case SentinelNode => Ok(s)
    case At(loc) =>
      if loc.focus.left.Nil? then Err(MissingChild)
      else if loc.path == [] && s.rootParent == NullParent then Err(NullReference)
      else
        PlugInOrder(RotR(loc.focus), loc.focus, loc.path);
        Ok(RBTree(Plug(RotR(loc.focus), loc.path), s.rootParent))
  }

  /** Replacing a subtree by one with the same in-order entries keeps the
      whole tree's in-order entries. */
  lemma {:induction false} PlugInOrder(t: Tree, u: Tree, path: seq<Frame>)
    requires InOrder(t) == InOrder(u)
    ensures InOrder(Plug(t, path)) == InOrder(Plug(u, path))
    decreases |path|
  {
    if |path| > 0 {
      PlugInOrder(Attach(path[0], t), Attach(path[0], u), path[1..]);
    }
  }

  /** Where a rotation puts the promoted child: at the root, with the sentinel
      still the root's parent, when the rotated node was the root; otherwise
      in the former parent's slot on the same side, with everything above it
      unchanged. A null root parent makes a root rotation throw. */
  lemma RotateLeftRelinks(s: RBTree, loc: Zipper)
    requires PositionIn(loc, s.root) && loc.focus.right.Node?
    ensures loc.path == [] && s.rootParent == SentinelParent ==>
      RotateLeft(s, At(loc)) == Ok(RBTree(RotL(loc.focus), SentinelParent))
      && RotateLeft(s, At(loc)).value.root.value == loc.focus.right.value
    ensures loc.path == [] && s.rootParent == NullParent ==>
      RotateLeft(s, At(loc)) == Err(NullReference)
    ensures loc.path != [] ==>
      RotateLeft(s, At(loc)) == Ok(RBTree(Plug(Attach(loc.path[0], RotL(loc.focus)), loc.path[1..]), s.rootParent))
  {
  }

  lemma RotateRightRelinks(s: RBTree, loc: Zipper)
    requires PositionIn(loc, s.root) && loc.focus.left.Node?
    ensures loc.path == [] && s.rootParent == SentinelParent ==>
      RotateRight(s, At(loc)) == Ok(RBTree(RotR(loc.focus), SentinelParent))
      && RotateRight(s, At(loc)).value.root.value == loc.focus.left.value
    ensures loc.path == [] && s.rootParent == NullParent ==>
      RotateRight(s, At(loc)) == Err(NullReference)
    ensures loc.path != [] ==>
      RotateRight(s, At(loc)) == Ok(RBTree(Plug(Attach(loc.path[0], RotR(loc.focus)), loc.path[1..]), s.rootParent))
  {
  }
}
