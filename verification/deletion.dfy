/** `delete` and `deleteNode`, as far as the source implements them.

    `deleteNode` handles a leaf (throwing when it is BLACK, clearing the root
    or the parent's matching slot otherwise) and, for a node with any child,
    only the root: the root is replaced by its left child if it has one, else
    by its right child, and that child's parent link is set to `null`. The
    test for "only one child" is true whenever a child exists, so a node with
    two children takes the same branch, and the branch meant for it is dead.
    A non-root node with a child is left in place, and `delete` still reports
    success. No double-black fix-up exists in the source, so none is modelled.
 */
module Deletion {
  import opened Outcomes
  import opened Nodes
  import opened Trees
  import opened Rotations
  import opened Search
  import opened Insertion

  /** What `delete` returns, with the tree it leaves. */
  datatype Deleted = Deleted(found: bool, tree: RBTree)

  predicate IsLeaf(t: Tree) {
    t.Node? && t.left.Nil? && t.right.Nil?
  }

  /** `deleteNode(node)` for the node at `loc`. */
  function DeleteNode(s: RBTree, loc: Zipper): (r: Result<RBTree>)
    requires PositionIn(loc, s.root)
    ensures r.Err? <==> IsLeaf(loc.focus) && loc.focus.color == Black
    ensures r.Err? ==> r.error == UnexpectedColor
    ensures IsLeaf(loc.focus) && loc.focus.color == Red && loc.path != [] ==>
      r == Ok(RBTree(Plug(Nil, loc.path), s.rootParent))
    ensures r.Ok? && loc.path == [] ==>
      r.value.root == if loc.focus.left.Node? then loc.focus.left else loc.focus.right
    ensures loc.path == [] && !IsLeaf(loc.focus) ==> r.value.rootParent == NullParent
    ensures loc.path != [] && !IsLeaf(loc.focus) ==> r == Ok(s)
  {
    var n := loc.focus;
    if n.left.Nil? && n.right.Nil? then
      if n.color == Black then Err(UnexpectedColor)
      else if loc.path == [] then Ok(RBTree(Nil, s.rootParent))
      else Ok(RBTree(Plug(Nil, loc.path), s.rootParent))
    else
      var child := if n.left.Node? then n.left else n.right;
      if loc.path == [] then Ok(RBTree(child, NullParent))
      else Ok(s)  // the unimplemented non-root case: nothing happens
  }

  /** `delete(value)`. */
  function Delete(s: RBTree, v: int): (r: Result<Deleted>)
    ensures SearchNode(s.root, v).None? <==> r == Ok(Deleted(false, s))
    ensures r.Ok? && r.value.found ==> v in Keys(s.root)
    ensures Ordered(s.root) && v !in Keys(s.root) ==> r == Ok(Deleted(false, s))
  {
    match SearchNode(s.root, v)
    case None => Ok(Deleted(false, s))
    case Some(loc) =>
      match DeleteNode(s, loc)
      case Ok(t) => Ok(Deleted(true, t))
      case Err(e) => Err(e)
  }

  // ---------------------------------------------------------------------
  // Lemmas

  lemma SortedDrop(a: seq<int>, x: int, b: seq<int>)
    requires Sorted(a + [x] + b)
    ensures Sorted(a + b)
  {
    SortedAroundSplit(a, x, b);
    var s := a + b;
    forall i, j | 0 <= i < j < |s| ensures s[i] <= s[j] {
      if j < |a| {
        assert s[i] == a[i] && s[j] == a[j];
      } else if i < |a| {
        assert s[i] == a[i] && a[i] in a && s[j] == b[j - |a|] && b[j - |a|] in b;
      } else {
        assert s[i] == b[i - |a|] && s[j] == b[j - |a|];
      }
    }
  }

  /** Removing a RED leaf that is not the root is the one deletion the source
      completes: it takes out exactly one occurrence of the value and keeps a
      valid tree valid. */
  lemma DeleteRedLeaf(s: RBTree, v: int)
    requires Valid(s)
    requires SearchNode(s.root, v).Some?
    requires var n := SearchNode(s.root, v).value.focus; IsLeaf(n) && n.color == Red
    ensures Delete(s, v).Ok? && Delete(s, v).value.found
    ensures multiset(Keys(Delete(s, v).value.tree.root)) == multiset(Keys(s.root)) - multiset{v}
    ensures Valid(Delete(s, v).value.tree)
  {
    var loc := SearchNode(s.root, v).value;
    var path := loc.path;
    assert path != [];
    var t := Plug(Nil, path);
    assert Delete(s, v) == Ok(Deleted(true, RBTree(t, s.rootParent)));
    PlugKeys(loc.focus, path);
    PlugKeys(Nil, path);
    assert Keys(loc.focus) == [v];
    assert Keys(s.root) == LeftOf(path) + [v] + RightOf(path);
    assert Keys(t) == LeftOf(path) + RightOf(path);
    SortedDrop(LeftOf(path), v, RightOf(path));
    UnplugFits(loc.focus, path);
    PlugFits(Nil, path);
  }

  /** A BLACK leaf cannot be removed: `deleteNode` throws. In a valid tree the
      root is BLACK, so deleting the only node always throws. */
  lemma DeleteBlackLeafThrows(s: RBTree, v: int)
    requires SearchNode(s.root, v).Some?
    requires var n := SearchNode(s.root, v).value.focus; IsLeaf(n) && n.color == Black
    ensures Delete(s, v) == Err(UnexpectedColor)
  {
  }

  lemma DeleteOnlyNodeThrows(s: RBTree, v: int)
    requires Valid(s) && IsLeaf(s.root) && s.root.value == v
    ensures Delete(s, v) == Err(UnexpectedColor)
  {
  }

  /** Deleting the root when it has a child replaces the whole tree by that
      child's subtree, the left one when present: the root's value goes, and
      with two children so does every value of the right subtree. The new
      root's parent link is `null`. */
  lemma DeleteRootWithChild(s: RBTree, v: int)
    requires s.root.Node? && s.root.value == v && !IsLeaf(s.root)
    ensures var c := if s.root.left.Node? then s.root.left else s.root.right;
      Delete(s, v) == Ok(Deleted(true, RBTree(c, NullParent)))
    ensures s.root.left.Node? ==>
      multiset(Keys(Delete(s, v).value.tree.root))
        == multiset(Keys(s.root)) - multiset{v} - multiset(Keys(s.root.right))
  {
    assert Keys(s.root) == Keys(s.root.left) + [v] + Keys(s.root.right);
  }

  /** Deleting a non-root node that has a child changes nothing, yet reports
      success: the value is still stored. */
  lemma DeleteInnerNodeIsNoop(s: RBTree, v: int)
    requires SearchNode(s.root, v).Some?
    requires var loc := SearchNode(s.root, v).value; loc.path != [] && !IsLeaf(loc.focus)
    ensures Delete(s, v) == Ok(Deleted(true, s))
    ensures v in Keys(Delete(s, v).value.tree.root)
  {
  }

  /** After the root is deleted the root's parent is `null`, and the next
      insertion that reaches the root throws: insert 3 and 5, delete 3 (the
      RED 5 becomes the root), then insert 7 under that RED root. */
  lemma InsertAfterRootDeletionThrows()
    ensures Insert(Empty(), 3).Ok?
    ensures Insert(Insert(Empty(), 3).value, 5).Ok?
    ensures var s2 := Insert(Insert(Empty(), 3).value, 5).value;
      Delete(s2, 3) == Ok(Deleted(true, RBTree(Node(Red, Nil, 5, Nil), NullParent)))
    ensures Insert(RBTree(Node(Red, Nil, 5, Nil), NullParent), 7) == Err(NullReference)
  {
    InsertIntoEmpty(Empty(), 3);
    var s1 := RBTree(Node(Black, Nil, 3, Nil), SentinelParent);
    var p1 := Descend(s1.root, 5, []);
    assert p1 == [Frame(Right, Black, 3, Nil)];
    var s2 := RBTree(Node(Black, Nil, 3, Node(Red, Nil, 5, Nil)), SentinelParent);
    assert Insert(s1, 5) == Ok(s2);
    assert SearchNode(s2.root, 3) == Some(Zipper(s2.root, []));
    var p3 := Descend(Node(Red, Nil, 5, Nil), 7, []);
    assert p3 == [Frame(Right, Red, 5, Nil)];
  }
}
