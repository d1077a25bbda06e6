/** `insert` and `fixColorsAfterInsertion`.

    Placement walks down from the root, going left exactly when the node's
    value is greater than the new value, so an equal value goes right. The
    new node is linked RED into the empty slot it reaches, or becomes the
    root with the sentinel as parent when the tree is empty. The fix-up then
    works on a zipper: the focus is the node the Java loop calls `node`, and
    `path[0]`, `path[1]` are its parent and grandparent frames.
 */
module Insertion {
  import opened Outcomes
  import opened Nodes
  import opened Trees
  import opened Rotations

  /** The node `insert` links in: children cleared, coloured RED. */
  function NewLeaf(v: int): Tree {
    Node(Red, Nil, v, Nil)
  }

  // ---------------------------------------------------------------------
  // Placement

  /** Reference placement: the tree with `v` hung where the descent ends. */
  function Place(t: Tree, v: int): Tree {
    if t.Nil? then NewLeaf(v)
    else if t.value > v then Node(t.color, Place(t.left, v), t.value, t.right)
    else Node(t.color, t.left, t.value, Place(t.right, v))
  }

  /** The descent loop: from subtree `x` below `path`, the path to the empty
      slot where `v` is linked in. */
  function Descend(x: Tree, v: int, path: seq<Frame>): (r: seq<Frame>)
    ensures Plug(Nil, r) == Plug(x, path)
    ensures Plug(NewLeaf(v), r) == Plug(Place(x, v), path)
    decreases x
  {
    if x.Nil? then path
    else if x.value > v then
      var f := Frame(Left, x.color, x.value, x.right);
      assert ([f] + path)[1..] == path;
      Descend(x.left, v, [f] + path)
    else
      var f := Frame(Right, x.color, x.value, x.left);
      assert ([f] + path)[1..] == path;
      Descend(x.right, v, [f] + path)
  }

  /** Index of the first element greater than `v` (or `|s|`). */
  function FirstAbove(s: seq<int>, v: int): (k: nat)
    ensures k <= |s|
    ensures forall i :: 0 <= i < k ==> s[i] <= v
    ensures k < |s| ==> s[k] > v
  {
    if |s| == 0 || s[0] > v then 0 else 1 + FirstAbove(s[1..], v)
  }

  /** `v` inserted into a sequence just before its first element greater than `v`. */
  function SortedInsert(s: seq<int>, v: int): seq<int> {
    if |s| == 0 then [v]
    else if s[0] > v then [v] + s
    else [s[0]] + SortedInsert(s[1..], v)
  }

  /** `SortedInsert` puts `v` just before the first element above it: on a
      sorted sequence, after every copy of `v` already there. */
  lemma {:induction false} SortedInsertAt(s: seq<int>, v: int)
    ensures SortedInsert(s, v) == s[..FirstAbove(s, v)] + [v] + s[FirstAbove(s, v)..]
  {
    if |s| > 0 && s[0] <= v {
      var k := FirstAbove(s, v);
      SortedInsertAt(s[1..], v);
      assert s[1..][..k - 1] == s[1..k];
      assert s[1..][k - 1..] == s[k..];
      assert s[..k] == [s[0]] + s[1..k];
    }
  }

  /** It adds exactly one occurrence of `v` and keeps a sorted sequence sorted. */
  lemma SortedInsertSpec(s: seq<int>, v: int)
    ensures multiset(SortedInsert(s, v)) == multiset(s) + multiset{v}
    ensures Sorted(s) ==> Sorted(SortedInsert(s, v))
  {
    var k := FirstAbove(s, v);
    SortedInsertAt(s, v);
    assert s == s[..k] + s[k..];
    assert multiset(s) == multiset(s[..k]) + multiset(s[k..]);
    if Sorted(s) {
      SortedInsertSorted(s, v);
    }
  }

  lemma SortedInsertSorted(s: seq<int>, v: int)
    requires Sorted(s)
    ensures Sorted(SortedInsert(s, v))
  {
    var k := FirstAbove(s, v);
    SortedInsertAt(s, v);
    var a, b := s[..k], s[k..];
    assert Sorted(a) by {
      forall i, j | 0 <= i < j < |a| ensures a[i] <= a[j] { assert a[i] == s[i] && a[j] == s[j]; }
    }
    assert Sorted(b) by {
      forall i, j | 0 <= i < j < |b| ensures b[i] <= b[j] { assert b[i] == s[k + i] && b[j] == s[k + j]; }
    }
    forall y | y in a ensures y <= v {
      var i :| 0 <= i < |a| && a[i] == y;
      assert a[i] == s[i];
    }
    forall y | y in b ensures v <= y {
      var i :| 0 <= i < |b| && b[i] == y;
      assert b[i] == s[k + i] && s[k] <= s[k + i];
    }
    SortedAroundJoin(a, v, b);
  }

  lemma {:induction false} SortedInsertBefore(a: seq<int>, c: seq<int>, v: int)
    requires |c| > 0 && c[0] > v
    ensures SortedInsert(a + c, v) == SortedInsert(a, v) + c
    decreases |a|
  {
    if |a| == 0 {
      assert a + c == c;
    } else {
      assert (a + c)[1..] == a[1..] + c;
      SortedInsertBefore(a[1..], c, v);
    }
  }

  lemma {:induction false} SortedInsertAfter(a: seq<int>, c: seq<int>, v: int)
    requires forall y :: y in a ==> y <= v
    ensures SortedInsert(a + c, v) == a + SortedInsert(c, v)
    decreases |a|
  {
    if |a| == 0 {
      assert a + c == c;
    } else {
      assert (a + c)[1..] == a[1..] + c;
      assert a[0] in a;
      assert forall y :: y in a[1..] ==> y in a;
      SortedInsertAfter(a[1..], c, v);
    }
  }

  /** Placement adds exactly one occurrence of `v`. */
  lemma {:induction false} PlaceAddsOne(t: Tree, v: int)
    ensures multiset(Keys(Place(t, v))) == multiset(Keys(t)) + multiset{v}
  {
    if t.Node? {
      var l, x, r := t.left, t.value, t.right;
      if x > v {
        PlaceAddsOne(l, v);
        assert Keys(Place(t, v)) == Keys(Place(l, v)) + [x] + Keys(r);
      } else {
        PlaceAddsOne(r, v);
        assert Keys(Place(t, v)) == Keys(l) + [x] + Keys(Place(r, v));
      }
      assert Keys(t) == Keys(l) + [x] + Keys(r);
    }
  }

  /** On an ordered tree placement puts `v` in symmetric order just after the
      values not above it, so the tree stays ordered. */
  lemma PlaceKeepsOrder(t: Tree, v: int)
    requires Ordered(t)
    ensures Keys(Place(t, v)) == SortedInsert(Keys(t), v)
    ensures Ordered(Place(t, v))
  {
    PlaceInsertsSorted(t, v);
    SortedInsertSpec(Keys(t), v);
  }

  lemma {:induction false} PlaceInsertsSorted(t: Tree, v: int)
    requires Ordered(t)
    ensures Keys(Place(t, v)) == SortedInsert(Keys(t), v)
  {
    if t.Node? {
      var l, x, r := t.left, t.value, t.right;
      OrderedNode(t.color, l, x, r);
      if x > v {
        PlaceInsertsSorted(l, v);
        PlaceLeftKeys(t, v);
        SortedInsertBefore(Keys(l), [x] + Keys(r), v);
      } else {
        PlaceInsertsSorted(r, v);
        PlaceRightKeys(t, v);
        SortedInsertAfter(Keys(l) + [x], Keys(r), v);
      }
    }
  }

  lemma PlaceLeftKeys(t: Tree, v: int)
    requires t.Node? && t.value > v
    ensures Keys(Place(t, v)) == Keys(Place(t.left, v)) + ([t.value] + Keys(t.right))
    ensures Keys(t) == Keys(t.left) + ([t.value] + Keys(t.right))
  {
  }

  lemma PlaceRightKeys(t: Tree, v: int)
    requires t.Node? && t.value <= v
    requires forall y :: y in Keys(t.left) ==> y <= t.value
    ensures Keys(Place(t, v)) == (Keys(t.left) + [t.value]) + Keys(Place(t.right, v))
    ensures Keys(t) == (Keys(t.left) + [t.value]) + Keys(t.right)
    ensures forall y :: y in Keys(t.left) + [t.value] ==> y <= v
  {
  }

  // ---------------------------------------------------------------------
  // Fix-up

  /** Recolour-and-ascend: parent and uncle BLACK, grandparent RED; the
      grandparent's subtree becomes the new focus. */
  function Ascend(z: Tree, p: Frame, g: Frame): (r: Tree)
    ensures r.Node? && r.color == Red && r.value == g.value
    ensures ColorOf(r.left) == Black && ColorOf(r.right) == Black
    ensures Keys(r) == Keys(Attach(g, Attach(p, z)))
  {
    Attach(g.(color := Red, sibling := Paint(g.sibling, Black)), Paint(Attach(p, z), Black))
  }

  /** Rotate-and-stop, for a parent on the `g.dir` side of the grandparent:
      first rotate the parent outward when `z` is its inner child, then paint
      the (new) parent BLACK and the grandparent RED, and rotate the
      grandparent the other way. The result replaces the grandparent's subtree. */
  function Restructure(z: Tree, p: Frame, g: Frame): (r: Tree)
    requires z.Node?
    ensures r.Node? && r.color == Black
    ensures r.value == if p.dir == g.dir then p.value else z.value
    ensures g.dir == Left ==> r.right.Node? && r.right.color == Red && r.right.value == g.value
    ensures g.dir == Right ==> r.left.Node? && r.left.color == Red && r.left.value == g.value
    ensures Keys(r) == Keys(Attach(g, Attach(p, z)))
  {
    var pt := Attach(p, z);
    if g.dir == Left then
      RotR(Attach(g.(color := Red), Paint(if p.dir == Right then RotL(pt) else pt, Black)))
    else
      RotL(Attach(g.(color := Red), Paint(if p.dir == Left then RotR(pt) else pt, Black)))
  }

  /** The parent is a RED root, so the grandparent is the sentinel. The test
      "parent is the grandparent's left child" compares with the sentinel's
      left, the sentinel itself, and fails; so the right-side branch runs,
      sees the sentinel as a BLACK uncle, rotates the parent right when `z`
      is its left child, paints the (new) parent BLACK, and its writes to the
      sentinel (colour, rotation) have no effect. */
  function SentinelCase(z: Tree, p: Frame): (r: Tree)
    requires z.Node?
    ensures r.Node? && r.color == Black && Keys(r) == Keys(Attach(p, z))
    ensures r.value == if p.dir == Left then z.value else p.value
  {
    var pt := Attach(p, z);
    Paint(if p.dir == Left then RotR(pt) else pt, Black)
  }

  /** Why the loop does `SentinelCase` when the grandparent is the sentinel.
      The sentinel's left link reads as the sentinel itself, never a node, so
      `fixColorsAfterInsertion`'s "parent is the left child" test fails and
      the right-side branch runs; its uncle, the sentinel again, is not null
      but reads BLACK, so the rotation branch runs; painting the sentinel RED
      is invisible. A RED root focus's parent frame is then the whole loop. */
  lemma SentinelGrandparent(z: Tree, p: Frame)
    requires z.Node?
    ensures GetLeft(NewSentinel()) == SentinelRef
    ensures GetColor(NewSentinel()) == Black
    ensures GetColor(SetColor(NewSentinel(), Red)) == Black
    ensures p.color == Red ==> FixUpLoop(z, [p], SentinelParent) == Ok(SentinelCase(z, p))
    ensures p.color == Red ==> FixUpLoop(z, [p], NullParent) == Err(NullReference)
  {
  }

  /** The while loop of `fixColorsAfterInsertion`, returning the new root. */
  function FixUpLoop(z: Tree, path: seq<Frame>, link: RootParent): (r: Result<Tree>)
    requires z.Node?
    ensures r.Err? ==> r.error == NullReference && link == NullParent
    ensures path != [] && path[0].color == Black ==> r == Ok(Plug(z, path))
    decreases |path|
  {
    if |path| == 0 then
      // `z` is the root: the loop test reads the colour of the root's parent
      if link == NullParent then Err(NullReference) else Ok(z)
    else if path[0].color == Black then
      Ok(Plug(z, path))
    else if |path| == 1 then
      // the grandparent is the root's parent
      if link == NullParent then Err(NullReference) else Ok(SentinelCase(z, path[0]))
    else if path[1].sibling.Node? && path[1].sibling.color == Red then
      FixUpLoop(Ascend(z, path[0], path[1]), path[2..], link)
    else if |path| == 2 && link == NullParent then
      // rotating the root looks up its null parent
      Err(NullReference)
    else
      Ok(Plug(Restructure(z, path[0], path[1]), path[2..]))
  }

  /** The rotate-and-stop step is the source's own rotation primitives at work.
      With the parent on the grandparent's left, an inner focus is first
      rotated up by `rotateLeft` at the parent (which cannot throw, the parent
      not being the root); after the recolouring, `rotateRight` at the
      grandparent gives exactly the tree `Restructure` plugs back, or throws
      when the grandparent is a root under a null parent. */
  lemma RestructureRotatesRight(z: Tree, path: seq<Frame>, link: RootParent)
    requires z.Node? && |path| >= 2 && path[1].dir == Left
    ensures var p := path[0];
      p.dir == Right ==>
        RotateLeft(RBTree(Plug(z, path), link), At(Zipper(Attach(p, z), path[1..])))
        == Ok(RBTree(Plug(RotL(Attach(p, z)), path[1..]), link))
    ensures var p, g := path[0], path[1];
      var pt := if p.dir == Right then RotL(Attach(p, z)) else Attach(p, z);
      var recoloured := Attach(g.(color := Red), Paint(pt, Black));
      RotateRight(RBTree(Plug(recoloured, path[2..]), link), At(Zipper(recoloured, path[2..])))
      == if |path| == 2 && link == NullParent then Err(NullReference)
         else Ok(RBTree(Plug(Restructure(z, p, g), path[2..]), link))
    ensures path[0].color == Red && !(path[1].sibling.Node? && path[1].sibling.color == Red) ==>
      FixUpLoop(z, path, link) == if |path| == 2 && link == NullParent then Err(NullReference)
        else Ok(Plug(Restructure(z, path[0], path[1]), path[2..]))
  {
    assert Plug(z, path) == Plug(Attach(path[0], z), path[1..]);
  }

  /** The mirror image of `RestructureRotatesRight`. */
  lemma RestructureRotatesLeft(z: Tree, path: seq<Frame>, link: RootParent)
    requires z.Node? && |path| >= 2 && path[1].dir == Right
    ensures var p := path[0];
      p.dir == Left ==>
        RotateRight(RBTree(Plug(z, path), link), At(Zipper(Attach(p, z), path[1..])))
        == Ok(RBTree(Plug(RotR(Attach(p, z)), path[1..]), link))
    ensures var p, g := path[0], path[1];
      var pt := if p.dir == Left then RotR(Attach(p, z)) else Attach(p, z);
      var recoloured := Attach(g.(color := Red), Paint(pt, Black));
      RotateLeft(RBTree(Plug(recoloured, path[2..]), link), At(Zipper(recoloured, path[2..])))
      == if |path| == 2 && link == NullParent then Err(NullReference)
         else Ok(RBTree(Plug(Restructure(z, p, g), path[2..]), link))
    ensures path[0].color == Red && !(path[1].sibling.Node? && path[1].sibling.color == Red) ==>
      FixUpLoop(z, path, link) == if |path| == 2 && link == NullParent then Err(NullReference)
        else Ok(Plug(Restructure(z, path[0], path[1]), path[2..]))
  {
    assert Plug(z, path) == Plug(Attach(path[0], z), path[1..]);
  }

  /** `fixColorsAfterInsertion`: the loop, then the root painted BLACK. */
  function FixColorsAfterInsertion(z: Tree, path: seq<Frame>, link: RootParent): (r: Result<Tree>)
    requires z.Node?
    ensures r.Ok? ==> ColorOf(r.value) == Black
    ensures r.Ok? <==> FixUpLoop(z, path, link).Ok?
  {
    match FixUpLoop(z, path, link)
    case Ok(t) => Ok(Paint(t, Black))
    case Err(e) => Err(e)
  }

  /** `insert(node)` with the node's value `v`. */
  function Insert(s: RBTree, v: int): (r: Result<RBTree>)
    ensures r.Ok? ==> ColorOf(r.value.root) == Black
    ensures r.Ok? ==> r.value.rootParent == if s.root.Nil? then SentinelParent else s.rootParent
  {
    var path := Descend(s.root, v, []);
    var link := if s.root.Nil? then SentinelParent else s.rootParent;
    match FixColorsAfterInsertion(NewLeaf(v), path, link)
    case Ok(root) => Ok(RBTree(root, link))
    case Err(e) => Err(e)
  }

  // ---------------------------------------------------------------------
  // Lemmas about the fix-up

  lemma PlugTwice(z: Tree, path: seq<Frame>)
    requires |path| >= 2
    ensures Plug(z, path) == Plug(Attach(path[1], Attach(path[0], z)), path[2..])
  {
    assert path[1..][1..] == path[2..];
  }

  lemma PaintKeys(t: Tree, c: Color)
    ensures Keys(Paint(t, c)) == Keys(t)
  {
  }

  /** The fix-up only recolours and rotates: the values in symmetric order
      are those of the tree it was given. */
  lemma {:induction false} FixUpKeepsKeys(z: Tree, path: seq<Frame>, link: RootParent)
    requires z.Node?
    ensures FixUpLoop(z, path, link).Ok? ==> Keys(FixUpLoop(z, path, link).value) == Keys(Plug(z, path))
    decreases |path|
  {
    if |path| >= 2 && path[0].color == Red {
      var p, g := path[0], path[1];
      if g.sibling.Node? && g.sibling.color == Red {
        FixUpKeepsKeys(Ascend(z, p, g), path[2..], link);
        AscendKeepsKeys(z, path);
      } else {
        RestructureKeepsKeys(z, path);
      }
    }
  }

  lemma AscendKeepsKeys(z: Tree, path: seq<Frame>)
    requires z.Node? && |path| >= 2
    ensures Keys(Plug(Ascend(z, path[0], path[1]), path[2..])) == Keys(Plug(z, path))
  {
    var a, u := Ascend(z, path[0], path[1]), Attach(path[1], Attach(path[0], z));
    PlugTwice(z, path);
    assert Keys(a) == Keys(u);
    PlugKeys(a, path[2..]);
    PlugKeys(u, path[2..]);
  }

  lemma RestructureKeepsKeys(z: Tree, path: seq<Frame>)
    requires z.Node? && |path| >= 2
    ensures Keys(Plug(Restructure(z, path[0], path[1]), path[2..])) == Keys(Plug(z, path))
  {
    var a, u := Restructure(z, path[0], path[1]), Attach(path[1], Attach(path[0], z));
    PlugTwice(z, path);
    RestructureKeys(z, path[0], path[1]);
    PlugKeys(a, path[2..]);
    PlugKeys(u, path[2..]);
  }

  lemma RestructureKeys(z: Tree, p: Frame, g: Frame)
    requires z.Node?
    ensures Keys(Restructure(z, p, g)) == Keys(Attach(g, Attach(p, z)))
  {
    var pt := Attach(p, z);
    if g.dir == Left {
      var q := if p.dir == Right then RotL(pt) else pt;
      assert Keys(q) == Keys(pt);
      var gt := Attach(g.(color := Red), Paint(q, Black));
      assert Keys(gt) == Keys(Attach(g, pt));
    } else {
      var q := if p.dir == Left then RotR(pt) else pt;
      assert Keys(q) == Keys(pt);
      var gt := Attach(g.(color := Red), Paint(q, Black));
      assert Keys(gt) == Keys(Attach(g, pt));
    }
  }

  /** With the sentinel as the root's parent the loop never throws, whatever
      the colours: every step either stops or moves the focus two levels up,
      and at the root the loop test reads the always-BLACK sentinel. */
  lemma {:induction false} FixUpNeverThrowsUnderSentinel(z: Tree, path: seq<Frame>)
    requires z.Node?
    ensures FixUpLoop(z, path, SentinelParent).Ok?
    decreases |path|
  {
    if |path| >= 2 && path[0].color == Red && path[1].sibling.Node? && path[1].sibling.color == Red {
      FixUpNeverThrowsUnderSentinel(Ascend(z, path[0], path[1]), path[2..]);
    }
  }

  /** What the loop maintains on a tree that was red-black before the
      insertion: the focus is a RED, balanced, red-free subtree; the frames
      above fit it; and the topmost frame, the root, is BLACK. The only
      possible violation is a RED parent above the RED focus. */
  ghost predicate FixUpInvariant(z: Tree, path: seq<Frame>) {
    z.Node? && z.color == Red && Balanced(z) && RedFree(z)
    && FramesFit(path, BlackHeight(z))
    && (|path| > 0 ==> path[|path| - 1].color == Black)
  }

  /** Recolour-and-ascend turns a red-red edge two levels down into a RED
      focus that is itself balanced and red-free, one black level higher. */
  lemma AscendFits(z: Tree, p: Frame, g: Frame)
    requires z.Node? && z.color == Red && Balanced(z) && RedFree(z)
    requires p.color == Red
    requires Balanced(p.sibling) && RedFree(p.sibling) && BlackHeight(p.sibling) == BlackHeight(z)
    requires Balanced(g.sibling) && RedFree(g.sibling) && BlackHeight(g.sibling) == BlackHeight(z)
    requires g.sibling.Node? && g.sibling.color == Red
    ensures var a := Ascend(z, p, g);
      a.Node? && a.color == Red && Balanced(a) && RedFree(a) && BlackHeight(a) == BlackHeight(z) + 1
  {
    var pt := Paint(Attach(p, z), Black);
    assert Balanced(pt) && RedFree(pt) && BlackHeight(pt) == BlackHeight(z) + 1;
    var ut := Paint(g.sibling, Black);
    assert Balanced(ut) && RedFree(ut) && BlackHeight(ut) == BlackHeight(z) + 1;
  }

  /** Rotate-and-stop leaves a BLACK-topped, balanced, red-free subtree of the
      black height the grandparent's subtree had. */
  lemma RestructureFits(z: Tree, p: Frame, g: Frame)
    requires z.Node? && z.color == Red && Balanced(z) && RedFree(z)
    requires p.color == Red && ColorOf(p.sibling) == Black
    requires Balanced(p.sibling) && RedFree(p.sibling) && BlackHeight(p.sibling) == BlackHeight(z)
    requires Balanced(g.sibling) && RedFree(g.sibling) && BlackHeight(g.sibling) == BlackHeight(z)
    requires ColorOf(g.sibling) == Black
    ensures var t := Restructure(z, p, g);
      t.Node? && t.color == Black && Balanced(t) && RedFree(t) && BlackHeight(t) == BlackHeight(z) + 1
  {
    var h := BlackHeight(z);
    var t := Restructure(z, p, g);
    var zl, zr, s, u := z.left, z.right, p.sibling, g.sibling;
    assert BlackHeight(zl) == h && BlackHeight(zr) == h;
    assert ColorOf(zl) == Black && ColorOf(zr) == Black;
    if g.dir == Left {
      if p.dir == Left {
        var b := Node(Red, s, g.value, u);
        assert Balanced(b) && RedFree(b) && BlackHeight(b) == h;
        assert t == Node(Black, z, p.value, b);
        assert Balanced(t);
      } else {
        var a, b := Node(Red, s, p.value, zl), Node(Red, zr, g.value, u);
        assert Balanced(a) && RedFree(a) && BlackHeight(a) == h;
        assert Balanced(b) && RedFree(b) && BlackHeight(b) == h;
        var pt := Attach(p, z);
        assert pt == Node(Red, s, p.value, z);
        assert RotL(pt) == Node(z.color, a, z.value, zr);
        assert t == RotR(Node(Red, Node(Black, a, z.value, zr), g.value, u));
        assert t == Node(Black, a, z.value, b);
        assert Balanced(t);
      }
    } else {
      if p.dir == Right {
        var a := Node(Red, u, g.value, s);
        assert Balanced(a) && RedFree(a) && BlackHeight(a) == h;
        assert t == Node(Black, a, p.value, z);
        assert Balanced(t);
      } else {
        var a, b := Node(Red, u, g.value, zl), Node(Red, zr, p.value, s);
        assert Balanced(a) && RedFree(a) && BlackHeight(a) == h;
        assert Balanced(b) && RedFree(b) && BlackHeight(b) == h;
        var pt := Attach(p, z);
        assert pt == Node(Red, z, p.value, s);
        assert RotR(pt) == Node(z.color, zl, z.value, b);
        assert t == RotL(Node(Red, u, g.value, Node(Black, zl, z.value, b)));
        assert t == Node(Black, a, z.value, b);
        assert BlackHeight(a) == BlackHeight(b);
        assert Balanced(t);
      }
    }
  }

  /** The fix-up restores the colour invariants: from the loop invariant it
      terminates normally with a balanced, red-free tree. */
  lemma {:induction false} FixUpRestores(z: Tree, path: seq<Frame>)
    requires FixUpInvariant(z, path)
    ensures FixUpLoop(z, path, SentinelParent).Ok?
    ensures var t := FixUpLoop(z, path, SentinelParent).value; Balanced(t) && RedFree(t)
    decreases |path|
  {
    FixUpNeverThrowsUnderSentinel(z, path);
    if |path| > 0 {
      if path[0].color == Black {
        PlugFits(z, path);
      } else {
        var h := BlackHeight(z);
        var p, g := path[0], path[1];
        assert FramesFit(path[1..], h);
        assert path[1..][1..] == path[2..];
        assert g.color == Black;
        assert FramesFit(path[2..], h + 1);
        if g.sibling.Node? && g.sibling.color == Red {
          AscendFits(z, p, g);
          FixUpRestores(Ascend(z, p, g), path[2..]);
        } else {
          RestructureFits(z, p, g);
          PlugFits(Restructure(z, p, g), path[2..]);
        }
      }
    }
  }

  // ---------------------------------------------------------------------
  // Lemmas about insert

  /** `insert` adds exactly one occurrence of the value; on an ordered tree
      the new copy lands in symmetric order after every value not above it
      (equal values go right), so the tree stays ordered. */
  lemma InsertAddsOne(s: RBTree, v: int)
    requires Insert(s, v).Ok?
    ensures multiset(Keys(Insert(s, v).value.root)) == multiset(Keys(s.root)) + multiset{v}
    ensures Ordered(s.root) ==> Keys(Insert(s, v).value.root) == SortedInsert(Keys(s.root), v)
    ensures Ordered(s.root) ==> Ordered(Insert(s, v).value.root)
  {
    var path := Descend(s.root, v, []);
    var link := if s.root.Nil? then SentinelParent else s.rootParent;
    FixUpKeepsKeys(NewLeaf(v), path, link);
    PaintKeys(FixUpLoop(NewLeaf(v), path, link).value, Black);
    PlaceAddsOne(s.root, v);
    if Ordered(s.root) {
      PlaceKeepsOrder(s.root, v);
    }
  }

  /** On an empty tree the new node becomes a BLACK root whose parent is the sentinel. */
  lemma InsertIntoEmpty(s: RBTree, v: int)
    requires s.root.Nil?
    ensures Insert(s, v) == Ok(RBTree(Node(Black, Nil, v, Nil), SentinelParent))
  {
  }

  /** With the sentinel as the root's parent, `insert` never throws. */
  lemma InsertNeverThrowsUnderSentinel(s: RBTree, v: int)
    requires s.root.Nil? || s.rootParent == SentinelParent
    ensures Insert(s, v).Ok?
  {
    FixUpNeverThrowsUnderSentinel(NewLeaf(v), Descend(s.root, v, []));
  }

  /** `insert` keeps a valid tree valid: ordered, BLACK root, no red-red
      edge, equal black count on every path, sentinel above the root. */
  lemma InsertKeepsValid(s: RBTree, v: int)
    requires Valid(s)
    ensures Insert(s, v).Ok?
    ensures Valid(Insert(s, v).value)
  {
    InsertKeepsColours(s, v);
    InsertAddsOne(s, v);
  }

  /** Under the sentinel, `insert` keeps a red-black tree red-black. */
  lemma InsertKeepsColours(s: RBTree, v: int)
    requires IsRedBlack(s.root) && (s.root.Nil? || s.rootParent == SentinelParent)
    ensures Insert(s, v).Ok?
    ensures IsRedBlack(Insert(s, v).value.root)
  {
    var path := Descend(s.root, v, []);
    InsertNeverThrowsUnderSentinel(s, v);
    UnplugFits(Nil, path);
    assert FixUpInvariant(NewLeaf(v), path);
    FixUpRestores(NewLeaf(v), path);
    var t := FixUpLoop(NewLeaf(v), path, SentinelParent).value;
    assert Insert(s, v) == Ok(RBTree(Paint(t, Black), SentinelParent));
    PaintBlackIsRedBlack(t);
  }

  /** Painting the root of a balanced, red-free tree BLACK gives a red-black tree. */
  lemma PaintBlackIsRedBlack(t: Tree)
    requires Balanced(t) && RedFree(t)
    ensures IsRedBlack(Paint(t, Black))
  {
  }
}
