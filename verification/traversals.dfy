/** The three traversal renderers of a node, as sequences of (value, colour)
    entries instead of text. A renderer runs on a node that exists, and the
    tree-level accessors answer a fixed text for an empty tree; both are
    covered by rendering `Nil` as the empty sequence.

    Only `PreOrder` recurses in its own order. The in-order and post-order
    renderers render both children with `PreOrder`; `InOrder` and `PostOrder`
    are the traversals they were evidently meant to be.
 */
module Traversals {
  import opened Nodes
  import opened Trees

  /** One rendered node: its value and its colour tag (`R` or `B`). */
  datatype Entry = Entry(value: int, color: Color)

  function EntryOf(t: Tree): Entry
    requires t.Node?
  {
    Entry(t.value, t.color)
  }

  /** Every node of the subtree, once each, as a reference for the renderers. */
  function Entries(t: Tree): multiset<Entry> {
    if t.Nil? then multiset{} else Entries(t.left) + multiset{EntryOf(t)} + Entries(t.right)
  }

  function ValuesOf(s: seq<Entry>): seq<int> {
    if |s| == 0 then [] else [s[0].value] + ValuesOf(s[1..])
  }

  function Reverse<T>(s: seq<T>): seq<T> {
    if |s| == 0 then [] else Reverse(s[1..]) + [s[0]]
  }

  /** The left-right mirror image of a tree. */
  function Mirror(t: Tree): Tree {
    if t.Nil? then Nil else Node(t.color, Mirror(t.right), t.value, Mirror(t.left))
  }

  // ---------------------------------------------------------------------
  // The renderers as written

  /** `preOrder`: this node, then the left child's, then the right child's.
      One entry per node, the subtree's own node first. */
  function PreOrder(t: Tree): (r: seq<Entry>)
    ensures |r| == Size(t)
    ensures t.Node? ==> r[0] == EntryOf(t)
  {
    if t.Nil? then [] else [EntryOf(t)] + PreOrder(t.left) + PreOrder(t.right)
  }

  /** `inOrder`: the children are rendered with `preOrder`. One entry per
      node, the subtree's own node just after its left subtree's entries. */
  function InOrderRender(t: Tree): (r: seq<Entry>)
    ensures |r| == Size(t)
    ensures t.Node? ==> r[Size(t.left)] == EntryOf(t)
  {
    if t.Nil? then [] else PreOrder(t.left) + [EntryOf(t)] + PreOrder(t.right)
  }

  /** `postOrder`: the children are rendered with `preOrder`. One entry per
      node, the subtree's own node last. */
  function PostOrderRender(t: Tree): (r: seq<Entry>)
    ensures |r| == Size(t)
    ensures t.Node? ==> r[|r| - 1] == EntryOf(t)
  {
    if t.Nil? then [] else PreOrder(t.left) + PreOrder(t.right) + [EntryOf(t)]
  }

  // ---------------------------------------------------------------------
  // The traversals as intended

  function InOrder(t: Tree): seq<Entry> {
    if t.Nil? then [] else InOrder(t.left) + [EntryOf(t)] + InOrder(t.right)
  }

  function PostOrder(t: Tree): seq<Entry> {
    if t.Nil? then [] else PostOrder(t.left) + PostOrder(t.right) + [EntryOf(t)]
  }

  // ---------------------------------------------------------------------
  // Lemmas

  lemma {:induction false} ValuesOfAppend(a: seq<Entry>, b: seq<Entry>)
    ensures ValuesOf(a + b) == ValuesOf(a) + ValuesOf(b)
    decreases |a|
  {
    if |a| == 0 {
      assert a + b == b;
    } else {
      assert (a + b)[1..] == a[1..] + b;
      ValuesOfAppend(a[1..], b);
    }
  }

  lemma {:induction false} ReverseAppend<T>(a: seq<T>, b: seq<T>)
    ensures Reverse(a + b) == Reverse(b) + Reverse(a)
    decreases |a|
  {
    if |a| == 0 {
      assert a + b == b;
    } else {
      assert (a + b)[1..] == a[1..] + b;
      ReverseAppend(a[1..], b);
    }
  }

  /** Pre-order lists every node of the subtree exactly once. */
  lemma {:induction false} PreOrderListsEveryNode(t: Tree)
    ensures multiset(PreOrder(t)) == Entries(t)
    ensures |PreOrder(t)| == Size(t)
  {
    if t.Node? {
      PreOrderListsEveryNode(t.left);
      PreOrderListsEveryNode(t.right);
    }
  }

  /** Each of the three renderers, as written, lists every node of the
      subtree exactly once, with its colour. */
  lemma RendersListEveryNode(t: Tree)
    ensures multiset(PreOrder(t)) == Entries(t) && |PreOrder(t)| == Size(t)
    ensures multiset(InOrderRender(t)) == Entries(t) && |InOrderRender(t)| == Size(t)
    ensures multiset(PostOrderRender(t)) == Entries(t) && |PostOrderRender(t)| == Size(t)
  {
    PreOrderListsEveryNode(t);
    if t.Node? {
      PreOrderListsEveryNode(t.left);
      PreOrderListsEveryNode(t.right);
    }
  }

  /** The intended in-order traversal lists exactly the values in symmetric
      order, so on an ordered tree it comes out sorted. */
  lemma {:induction false} InOrderListsKeys(t: Tree)
    ensures ValuesOf(InOrder(t)) == Keys(t)
    ensures Ordered(t) ==> Sorted(ValuesOf(InOrder(t)))
  {
    if t.Node? {
      InOrderListsKeys(t.left);
      InOrderListsKeys(t.right);
      ValuesOfAppend(InOrder(t.left) + [EntryOf(t)], InOrder(t.right));
      ValuesOfAppend(InOrder(t.left), [EntryOf(t)]);
    }
  }

  /** The intended post-order traversal is the mirror image's pre-order, reversed. */
  lemma {:induction false} PostOrderMirrorsPreOrder(t: Tree)
    ensures Reverse(PostOrder(t)) == PreOrder(Mirror(t))
  {
    if t.Node? {
      PostOrderMirrorsPreOrder(t.left);
      PostOrderMirrorsPreOrder(t.right);
      var l, r, e := PostOrder(t.left), PostOrder(t.right), [EntryOf(t)];
      calc {
        Reverse(PostOrder(t));
        Reverse((l + r) + e);
        { ReverseAppend(l + r, e); }
        Reverse(e) + Reverse(l + r);
        { ReverseAppend(l, r); }
        e + (Reverse(r) + Reverse(l));
      }
    }
  }

  /** A red-black tree with keys 1..4 (the tree that inserting 3, 2, 4, 1
      builds) on which `inOrder` is not sorted. */
  function Witness(): Tree {
    Node(Black, Node(Black, Node(Red, Nil, 1, Nil), 2, Nil), 3, Node(Black, Nil, 4, Nil))
  }

  /** The in-order renderer as written lists 2 before 1 on an ordered,
      red-black tree. */
  lemma InOrderRenderUnsorted()
    ensures Valid(RBTree(Witness(), SentinelParent))
    ensures ValuesOf(InOrderRender(Witness())) == [2, 1, 3, 4]
    ensures !Sorted(ValuesOf(InOrderRender(Witness())))
  {
    var w := Witness();
    var one, four := Node(Red, Nil, 1, Nil), Node(Black, Nil, 4, Nil);
    var two := Node(Black, one, 2, Nil);
    assert Keys(two) == [1, 2];
    assert Keys(w) == [1, 2, 3, 4];
    assert PreOrder(one) == [Entry(1, Red)];
    assert PreOrder(two) == [Entry(2, Black), Entry(1, Red)];
    assert PreOrder(four) == [Entry(4, Black)];
    var r := [Entry(2, Black), Entry(1, Red), Entry(3, Black), Entry(4, Black)];
    assert InOrderRender(w) == r;
    assert ValuesOf(r) == [2, 1, 3, 4];
    assert ValuesOf(r)[0] > ValuesOf(r)[1];
  }

  /** The post-order renderer as written is not the reversed pre-order of
      the mirror image: it lists 2 before its child 1. */
  lemma PostOrderRenderBreaksMirror()
    ensures ValuesOf(PostOrderRender(Witness())) == [2, 1, 4, 3]
    ensures ValuesOf(PostOrder(Witness())) == [1, 2, 4, 3]
    ensures Reverse(PostOrderRender(Witness())) != PreOrder(Mirror(Witness()))
  {
    var w := Witness();
    var one, four := Node(Red, Nil, 1, Nil), Node(Black, Nil, 4, Nil);
    var two := Node(Black, one, 2, Nil);
    assert PreOrder(one) == [Entry(1, Red)];
    assert PreOrder(two) == [Entry(2, Black), Entry(1, Red)];
    assert PreOrder(four) == [Entry(4, Black)];
    var r := [Entry(2, Black), Entry(1, Red), Entry(4, Black), Entry(3, Black)];
    assert PostOrderRender(w) == r;
    assert ValuesOf(r) == [2, 1, 4, 3];
    assert PostOrder(one) == [Entry(1, Red)];
    assert PostOrder(two) == [Entry(1, Red), Entry(2, Black)];
    assert PostOrder(four) == [Entry(4, Black)];
    var q := [Entry(1, Red), Entry(2, Black), Entry(4, Black), Entry(3, Black)];
    assert PostOrder(w) == q;
    assert ValuesOf(q) == [1, 2, 4, 3];
    assert Reverse(r) == [Entry(3, Black), Entry(4, Black), Entry(1, Red), Entry(2, Black)];
    assert PreOrder(Mirror(two)) == [Entry(2, Black), Entry(1, Red)];
    assert PreOrder(Mirror(w)) == [Entry(3, Black), Entry(4, Black), Entry(2, Black), Entry(1, Red)];
  }
}
