/** Sequences of insertions. */
module Scenarios {
  import opened Outcomes
  import opened Nodes
  import opened Trees
  import opened Traversals
  import opened Insertion

  /** Insert the values one after another, stopping at the first throw. */
  function InsertAll(s: RBTree, vs: seq<int>): Result<RBTree>
    decreases |vs|
  {
    if |vs| == 0 then Ok(s)
    else
      match Insert(s, vs[0])
      case Ok(t) => InsertAll(t, vs[1..])
      case Err(e) => Err(e)
  }

  /** One insertion that succeeds hands the rest of the sequence on. */
  lemma InsertAllStep(s: RBTree, vs: seq<int>, t: RBTree)
    requires |vs| > 0 && Insert(s, vs[0]) == Ok(t)
    ensures InsertAll(s, vs) == InsertAll(t, vs[1..])
  {
  }

  /** The values inserted one after another into a sorted sequence. */
  function SortedInsertAll(keys: seq<int>, vs: seq<int>): seq<int>
    decreases |vs|
  {
    if |vs| == 0 then keys else SortedInsertAll(SortedInsert(keys, vs[0]), vs[1..])
  }

  /** Any sequence of insertions into a valid tree succeeds and leaves a
      valid tree whose values are the old ones plus the new ones, in the
      symmetric order that inserting them one by one into a sorted list gives. */
  lemma InsertAllKeepsValid(s: RBTree, vs: seq<int>)
    requires Valid(s)
    ensures InsertAll(s, vs).Ok?
    ensures Valid(InsertAll(s, vs).value)
    ensures Keys(InsertAll(s, vs).value.root) == SortedInsertAll(Keys(s.root), vs)
    ensures multiset(Keys(InsertAll(s, vs).value.root)) == multiset(Keys(s.root)) + multiset(vs)
  {
    InsertAllStaysValid(s, vs);
    InsertAllKeys(s, vs);
    SortedInsertAllCount(Keys(s.root), vs);
  }

  lemma {:induction false} InsertAllStaysValid(s: RBTree, vs: seq<int>)
    requires Valid(s)
    ensures InsertAll(s, vs).Ok? && Valid(InsertAll(s, vs).value)
    decreases |vs|
  {
    if |vs| > 0 {
      InsertKeepsValid(s, vs[0]);
      InsertAllStaysValid(Insert(s, vs[0]).value, vs[1..]);
    }
  }

  lemma {:induction false} InsertAllKeys(s: RBTree, vs: seq<int>)
    requires Valid(s)
    ensures InsertAll(s, vs).Ok?
    ensures Keys(InsertAll(s, vs).value.root) == SortedInsertAll(Keys(s.root), vs)
    decreases |vs|
  {
    InsertAllStaysValid(s, vs);
    if |vs| > 0 {
      InsertKeepsValid(s, vs[0]);
      InsertAddsOne(s, vs[0]);
      InsertAllKeys(Insert(s, vs[0]).value, vs[1..]);
    }
  }

  /** The sorted fold adds exactly the inserted values. */
  lemma {:induction false} SortedInsertAllCount(keys: seq<int>, vs: seq<int>)
    ensures multiset(SortedInsertAll(keys, vs)) == multiset(keys) + multiset(vs)
    decreases |vs|
  {
    if |vs| > 0 {
      SortedInsertSpec(keys, vs[0]);
      SortedInsertAllCount(SortedInsert(keys, vs[0]), vs[1..]);
      assert vs == [vs[0]] + vs[1..];
    }
  }

  /** Inserting 3, 2, 4, 1 builds the tree on which the in-order renderer
      lists 2 before 1: the last insertion recolours and ascends to the root. */
  lemma WitnessIsReachable()
    ensures InsertAll(Empty(), [3, 2, 4, 1]) == Ok(RBTree(Witness(), SentinelParent))
  {
    var s1 := RBTree(Node(Black, Nil, 3, Nil), SentinelParent);
    InsertIntoEmpty(Empty(), 3);
    var s2 := RBTree(Node(Black, Node(Red, Nil, 2, Nil), 3, Nil), SentinelParent);
    assert Descend(s1.root, 2, []) == [Frame(Left, Black, 3, Nil)];
    assert Insert(s1, 2) == Ok(s2);
    var s3 := RBTree(Node(Black, Node(Red, Nil, 2, Nil), 3, Node(Red, Nil, 4, Nil)), SentinelParent);
    assert Descend(s2.root, 4, []) == [Frame(Right, Black, 3, Node(Red, Nil, 2, Nil))];
    assert Insert(s2, 4) == Ok(s3);
    var path := [Frame(Left, Red, 2, Nil), Frame(Left, Black, 3, Node(Red, Nil, 4, Nil))];
    assert Descend(s3.root, 1, []) == path;
    var up := Ascend(NewLeaf(1), path[0], path[1]);
    assert up == Node(Red, Node(Black, NewLeaf(1), 2, Nil), 3, Node(Black, Nil, 4, Nil));
    assert FixUpLoop(NewLeaf(1), path, SentinelParent) == FixUpLoop(up, [], SentinelParent);
    assert Insert(s3, 1) == Ok(RBTree(Witness(), SentinelParent));
    assert [3, 2, 4, 1][1..] == [2, 4, 1];
    assert [2, 4, 1][1..] == [4, 1];
    assert [4, 1][1..] == [1];
    assert [1][1..] == [];
  }
}
