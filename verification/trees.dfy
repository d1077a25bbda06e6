/** The tree the balancing engine works on, as an immutable value.

    A `Node` carries a colour and a value and owns its two children; an
    absent child (a Java `null`) is `Nil`. Parent links are not stored:
    a position in the tree is a `Zipper`, the subtree there plus the path of
    `Frame`s leading back to the root, nearest parent first. The root's own
    parent link is kept apart in `RBTree`, because the source sets it to the
    sentinel on insertion and to `null` when a deletion replaces the root.
 */
module Trees {
  import opened Nodes

  datatype Tree = Nil | Node(color: Color, left: Tree, value: int, right: Tree)

  datatype Dir = Left | Right

  /** One step of a path: the focus is the `dir` child of a node with this
      colour and value whose other child is `sibling`. */
  datatype Frame = Frame(dir: Dir, color: Color, value: int, sibling: Tree)

  /** A node position: the subtree there and the path up to the root. */
  datatype Zipper = Zipper(focus: Tree, path: seq<Frame>)

  /** What the root's parent link holds: the tree's sentinel, or `null`. */
  datatype RootParent = SentinelParent | NullParent

  /** The tree object: its root and the root's parent link. */
  datatype RBTree = RBTree(root: Tree, rootParent: RootParent)

  /** A fresh tree: no root. */
  function Empty(): RBTree {
    RBTree(Nil, SentinelParent)
  }

  /** Absent children read as BLACK, like the sentinel. */
  function ColorOf(t: Tree): Color {
    if t.Nil? then Black else t.color
  }

  /** `setColor` on the node at the top of `t`, if there is one. */
  function Paint(t: Tree, c: Color): Tree {
    if t.Nil? then Nil else t.(color := c)
  }

  /** Hang `t` under the node that frame `f` describes. */
  function Attach(f: Frame, t: Tree): Tree {
    if f.dir == Left then Node(f.color, t, f.value, f.sibling)
    else Node(f.color, f.sibling, f.value, t)
  }

  /** Rebuild the whole tree from a subtree and the path above it. */
  function Plug(t: Tree, path: seq<Frame>): Tree
    decreases |path|
  {
    if |path| == 0 then t else Plug(Attach(path[0], t), path[1..])
  }

  // ---------------------------------------------------------------------
  // Contents and order

  /** The values in symmetric (left, node, right) order. */
  function Keys(t: Tree): seq<int> {
    if t.Nil? then [] else Keys(t.left) + [t.value] + Keys(t.right)
  }

  function Size(t: Tree): nat {
    if t.Nil? then 0 else Size(t.left) + 1 + Size(t.right)
  }

  ghost predicate Sorted(s: seq<int>) {
    forall i, j :: 0 <= i < j < |s| ==> s[i] <= s[j]
  }

  /** BST order as the source keeps it: the symmetric order is non-decreasing.
      Insertion sends an equal value right, but rotations can then carry an
      equal value into a left subtree, so the order is not strict on either side. */
  ghost predicate Ordered(t: Tree) {
    Sorted(Keys(t))
  }

  /** The values left and right of the hole that `path` leaves open. */
  function LeftOf(path: seq<Frame>): seq<int>
    decreases |path|
  {
    if |path| == 0 then []
    else if path[0].dir == Left then LeftOf(path[1..])
    else LeftOf(path[1..]) + Keys(path[0].sibling) + [path[0].value]
  }

  function RightOf(path: seq<Frame>): seq<int>
    decreases |path|
  {
    if |path| == 0 then []
    else if path[0].dir == Left then [path[0].value] + Keys(path[0].sibling) + RightOf(path[1..])
    else RightOf(path[1..])
  }

  // ---------------------------------------------------------------------
  // Red-black shape

  /** Black nodes on the leftmost path; on a `Balanced` tree, on every path. */
  function BlackHeight(t: Tree): nat {
    if t.Nil? then 0 else BlackHeight(t.left) + (if t.color == Black then 1 else 0)
  }

  /** Every path from a node down to an absent child meets as many BLACK nodes. */
  ghost predicate Balanced(t: Tree) {
    t.Nil? ||
    (Balanced(t.left) && Balanced(t.right) && BlackHeight(t.left) == BlackHeight(t.right))
  }

  /** No RED node has a RED child. */
  ghost predicate RedFree(t: Tree) {
    t.Nil? ||
    (RedFree(t.left) && RedFree(t.right)
     && (t.color == Red ==> ColorOf(t.left) == Black && ColorOf(t.right) == Black))
  }

  /** The three colour invariants: black root, no red-red edge, equal black count. */
  ghost predicate IsRedBlack(t: Tree) {
    ColorOf(t) == Black && RedFree(t) && Balanced(t)
  }

  /** A tree in the state every public operation should leave it in: ordered,
      red-black, and with the sentinel as the root's parent. */
  ghost predicate Valid(s: RBTree) {
    Ordered(s.root) && IsRedBlack(s.root) && (s.root.Node? ==> s.rootParent == SentinelParent)
  }

  /** The constructor's tree holds nothing, is valid, and a first insertion
      will find the sentinel as the root's parent. */
  lemma EmptyIsValid()
    ensures Valid(Empty()) && Size(Empty().root) == 0 && Keys(Empty().root) == []
    ensures Empty().rootParent == SentinelParent
  {
  }

  /** The frames above a hole whose subtree has black height `h` fit it: each
      sibling is a valid red-black subtree of the right black height, a RED
      frame has a BLACK sibling, and no two consecutive frames are RED. Only
      the edge between the hole and its parent frame is left unconstrained. */
  ghost predicate FramesFit(path: seq<Frame>, h: nat)
    decreases |path|
  {
    |path| == 0 ||
    (var f := path[0];
     Balanced(f.sibling) && RedFree(f.sibling) && BlackHeight(f.sibling) == h
     && (f.color == Red ==> ColorOf(f.sibling) == Black && (|path| > 1 ==> path[1].color == Black))
     && FramesFit(path[1..], h + (if f.color == Black then 1 else 0)))
  }

  // ---------------------------------------------------------------------
  // Lemmas

  /** A sequence is sorted around a middle element iff both sides are sorted
      and lie on the right side of it. */
  lemma SortedAround(a: seq<int>, x: int, b: seq<int>)
    ensures Sorted(a + [x] + b) <==>
      (Sorted(a) && Sorted(b) && (forall y :: y in a ==> y <= x) && (forall y :: y in b ==> x <= y))
  {
    if Sorted(a + [x] + b) {
      SortedAroundSplit(a, x, b);
    }
    if Sorted(a) && Sorted(b) && (forall y :: y in a ==> y <= x) && (forall y :: y in b ==> x <= y) {
      SortedAroundJoin(a, x, b);
    }
  }

  lemma SortedAroundSplit(a: seq<int>, x: int, b: seq<int>)
    requires Sorted(a + [x] + b)
    ensures Sorted(a) && Sorted(b) && (forall y :: y in a ==> y <= x) && (forall y :: y in b ==> x <= y)
  {
    var s := a + [x] + b;
    assert s[|a|] == x;
    forall i, j | 0 <= i < j < |a| ensures a[i] <= a[j] {
      assert s[i] == a[i] && s[j] == a[j];
    }
    forall i, j | 0 <= i < j < |b| ensures b[i] <= b[j] {
      assert s[|a| + 1 + i] == b[i] && s[|a| + 1 + j] == b[j];
    }
    forall y | y in a ensures y <= x {
      var i :| 0 <= i < |a| && a[i] == y;
      assert s[i] == y;
    }
    forall y | y in b ensures x <= y {
      var j :| 0 <= j < |b| && b[j] == y;
      assert s[|a| + 1 + j] == y;
    }
  }

  lemma SortedAroundJoin(a: seq<int>, x: int, b: seq<int>)
    requires Sorted(a) && Sorted(b) && (forall y :: y in a ==> y <= x) && (forall y :: y in b ==> x <= y)
    ensures Sorted(a + [x] + b)
  {
    var s := a + [x] + b;
    forall i, j | 0 <= i < j < |s| ensures s[i] <= s[j] {
      if j < |a| {
        assert s[i] == a[i] && s[j] == a[j];
      } else if i < |a| {
        assert s[i] == a[i] && a[i] in a;
        if j > |a| {
          assert s[j] == b[j - |a| - 1] && b[j - |a| - 1] in b;
        }
      } else if i == |a| {
        assert s[j] == b[j - |a| - 1] && b[j - |a| - 1] in b;
      } else {
        assert s[i] == b[i - |a| - 1] && s[j] == b[j - |a| - 1];
      }
    }
  }

  /** A node is ordered iff its subtrees are and the node's value separates them. */
  lemma OrderedNode(c: Color, l: Tree, x: int, r: Tree)
    ensures Ordered(Node(c, l, x, r)) <==>
      (Ordered(l) && Ordered(r)
       && (forall y :: y in Keys(l) ==> y <= x) && (forall y :: y in Keys(r) ==> x <= y))
  {
    var t := Node(c, l, x, r);
    assert Keys(t) == Keys(l) + [x] + Keys(r);
    assert Ordered(t) == Sorted(Keys(l) + [x] + Keys(r));
    SortedAround(Keys(l), x, Keys(r));
  }

  /** On an ordered node a value below the node's can only be on the left,
      and one above it only on the right. */
  lemma OrderedMember(t: Tree, v: int)
    requires t.Node?
    ensures Ordered(t) && v < t.value ==> (v in Keys(t) <==> v in Keys(t.left))
    ensures Ordered(t) && v > t.value ==> (v in Keys(t) <==> v in Keys(t.right))
    ensures Ordered(t) ==> Ordered(t.left) && Ordered(t.right)
  {
    OrderedNode(t.color, t.left, t.value, t.right);
    assert Keys(t) == Keys(t.left) + [t.value] + Keys(t.right);
  }

  /** Plugging a subtree into a path puts its values between the values on
      the left and on the right of the hole. */
  lemma {:induction false} PlugKeys(t: Tree, path: seq<Frame>)
    ensures Keys(Plug(t, path)) == LeftOf(path) + Keys(t) + RightOf(path)
    decreases |path|
  {
    if |path| > 0 {
      PlugKeys(Attach(path[0], t), path[1..]);
    }
  }

  /** Plugging a subtree that fits its frames, and does not form a red-red
      edge with its parent frame, yields a balanced red-free tree whose root
      colour is that of the topmost frame. */
  lemma {:induction false} PlugFits(t: Tree, path: seq<Frame>)
    requires Balanced(t) && RedFree(t)
    requires FramesFit(path, BlackHeight(t))
    requires |path| > 0 && path[0].color == Red ==> ColorOf(t) == Black
    ensures Balanced(Plug(t, path)) && RedFree(Plug(t, path))
    ensures ColorOf(Plug(t, path)) == if |path| == 0 then ColorOf(t) else path[|path| - 1].color
    decreases |path|
  {
    if |path| > 0 {
      var u := Attach(path[0], t);
      assert BlackHeight(u) == BlackHeight(t) + (if path[0].color == Black then 1 else 0);
      PlugFits(u, path[1..]);
    }
  }

  /** The converse: inside a balanced red-free tree every position fits its
      frames, and its subtree is balanced and red-free. */
  lemma {:induction false} UnplugFits(t: Tree, path: seq<Frame>)
    requires Balanced(Plug(t, path)) && RedFree(Plug(t, path))
    ensures Balanced(t) && RedFree(t) && FramesFit(path, BlackHeight(t))
    ensures |path| > 0 && path[0].color == Red ==> ColorOf(t) == Black
    ensures |path| > 0 ==> ColorOf(Plug(t, path)) == path[|path| - 1].color
    decreases |path|
  {
    if |path| > 0 {
      var u := Attach(path[0], t);
      UnplugFits(u, path[1..]);
      assert BlackHeight(u) == BlackHeight(t) + (if path[0].color == Black then 1 else 0);
    }
  }
}
