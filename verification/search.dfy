/** `search` and `searchNode`: the comparator-guided descent, which goes left
    when the value is smaller than the node's, right when it is larger, and
    stops at the first node whose value compares equal.
 */
module Search {
  import opened Outcomes
  import opened Trees

  /** The descent from subtree `x` below `path`: the position of the first
      compare-equal node it meets, or `None` when it falls off the tree. */
  function Locate(x: Tree, v: int, path: seq<Frame>): (r: Option<Zipper>)
    ensures r.Some? ==> r.value.focus.Node? && r.value.focus.value == v
    ensures r.Some? ==> Plug(r.value.focus, r.value.path) == Plug(x, path)
    ensures Ordered(x) ==> (r.Some? <==> v in Keys(x))
    decreases x
  {
    if x.Nil? then None
    else
      OrderedMember(x, v);
      if v == x.value then Some(Zipper(x, path))
      else if v < x.value then
        var f := Frame(Left, x.color, x.value, x.right);
        assert ([f] + path)[1..] == path;
        Locate(x.left, v, [f] + path)
      else
        var f := Frame(Right, x.color, x.value, x.left);
        assert ([f] + path)[1..] == path;
        Locate(x.right, v, [f] + path)
  }

  /** `searchNode(value)`: the node found, with its position, or `null`.
      A node found always holds the value; on an ordered tree a node is
      found exactly when the value is stored. */
  function SearchNode(t: Tree, v: int): (r: Option<Zipper>)
    ensures r.Some? ==> r.value.focus.Node? && r.value.focus.value == v && Plug(r.value.focus, r.value.path) == t
    ensures r.Some? ==> v in Keys(t)
    ensures Ordered(t) ==> (r.Some? <==> v in Keys(t))
  {
    var r := Locate(t, v, []);
    if r.Some? then
      PlugKeys(r.value.focus, r.value.path);
      r
    else r
  }

  /** `search(value)`, the same descent as a loop. */
  method Search(t: Tree, v: int) returns (found: bool)
    ensures found <==> SearchNode(t, v).Some?
    ensures found ==> v in Keys(t)
    ensures Ordered(t) ==> (found <==> v in Keys(t))
  {
    var current := t;
    ghost var path: seq<Frame> := [];
    while current.Node?
      invariant Locate(current, v, path) == SearchNode(t, v)
      decreases current
    {
      if v == current.value {
        return true;
      } else if v < current.value {
        path := [Frame(Left, current.color, current.value, current.right)] + path;
        current := current.left;
      } else {
        path := [Frame(Right, current.color, current.value, current.left)] + path;
        current := current.right;
      }
    }
    return false;
  }
}
