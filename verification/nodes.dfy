/** The node cell of the tree: its five fields, its two constructors, its
    getters and setters, and the sentinel subclass that overrides the getters.

    Object identity is abstracted to `Ref`: a link field holds `Null`, the
    tree's sentinel, or some other node named by an id. The balancing engine
    (modules `Trees` onwards) works on an immutable tree built from the same
    `Color`, where links are structural and parent links are a zipper path.
 */
module Nodes {
  import opened Outcomes

  datatype Color = Red | Black

  /** What a link field can point at. */
  datatype Ref = Null | SentinelRef | NodeRef(id: nat)

  /** The fields of one node object. `value` is `None` only for a node made by
      the protected no-argument constructor; no setter exists for it. */
  datatype Cell = Cell(right: Ref, left: Ref, parent: Ref, color: Color, value: Option<int>)

  /** A plain node, or the tree's sentinel, which inherits the fields and the
      setters but overrides every getter. */
  datatype NodeObject = Plain(cell: Cell) | Sentinel(cell: Cell)

  /** `new Node(value)`. */
  function NewNode(v: int): NodeObject {
    Plain(Cell(Null, Null, Null, Red, Some(v)))
  }

  /** The protected `new Node()`. */
  function DefaultNode(): NodeObject {
    Plain(Cell(Null, Null, Null, Red, None))
  }

  /** `new SentinelNode()`, which runs the protected constructor. */
  function NewSentinel(): NodeObject {
    Sentinel(DefaultNode().cell)
  }

  // Getters. The sentinel answers BLACK, no value, and itself for every link.

  function GetColor(o: NodeObject): Color {
    match o
    case Plain(c) => c.color
    case Sentinel(_) => Black
  }

  function GetValue(o: NodeObject): Option<int> {
    match o
    case Plain(c) => c.value
    case Sentinel(_) => None
  }

  function GetLeft(o: NodeObject): Ref {
    match o
    case Plain(c) => c.left
    case Sentinel(_) => SentinelRef
  }

  function GetRight(o: NodeObject): Ref {
    match o
    case Plain(c) => c.right
    case Sentinel(_) => SentinelRef
  }

  function GetParent(o: NodeObject): Ref {
    match o
    case Plain(c) => c.parent
    case Sentinel(_) => SentinelRef
  }

  // Setters, shared by both kinds: each writes one field of the cell.

  function WithCell(o: NodeObject, c: Cell): NodeObject {
    match o
    case Plain(_) => Plain(c)
    case Sentinel(_) => Sentinel(c)
  }

  function SetColor(o: NodeObject, color: Color): NodeObject {
    WithCell(o, o.cell.(color := color))
  }

  function SetLeft(o: NodeObject, left: Ref): NodeObject {
    WithCell(o, o.cell.(left := left))
  }

  function SetRight(o: NodeObject, right: Ref): NodeObject {
    WithCell(o, o.cell.(right := right))
  }

  function SetParent(o: NodeObject, parent: Ref): NodeObject {
    WithCell(o, o.cell.(parent := parent))
  }

  /** Both constructors give a RED node with null links; only the value differs. */
  lemma ConstructorsAgree(v: int)
    ensures GetColor(NewNode(v)) == Red && GetColor(DefaultNode()) == Red
    ensures GetLeft(NewNode(v)) == Null && GetRight(NewNode(v)) == Null && GetParent(NewNode(v)) == Null
    ensures GetLeft(DefaultNode()) == Null && GetRight(DefaultNode()) == Null && GetParent(DefaultNode()) == Null
    ensures GetValue(NewNode(v)) == Some(v) && GetValue(DefaultNode()) == None
  {
  }

  /** On a plain node each getter returns what its setter last wrote, and the
      other four fields read as before. */
  lemma SetThenGet(o: NodeObject, color: Color, link: Ref)
    requires o.Plain?
    ensures GetColor(SetColor(o, color)) == color
    ensures GetLeft(SetLeft(o, link)) == link
    ensures GetRight(SetRight(o, link)) == link
    ensures GetParent(SetParent(o, link)) == link
    ensures var n := SetColor(o, color);
      GetLeft(n) == GetLeft(o) && GetRight(n) == GetRight(o) && GetParent(n) == GetParent(o) && GetValue(n) == GetValue(o)
    ensures var n := SetLeft(o, link);
      GetColor(n) == GetColor(o) && GetRight(n) == GetRight(o) && GetParent(n) == GetParent(o) && GetValue(n) == GetValue(o)
    ensures var n := SetRight(o, link);
      GetColor(n) == GetColor(o) && GetLeft(n) == GetLeft(o) && GetParent(n) == GetParent(o) && GetValue(n) == GetValue(o)
    ensures var n := SetParent(o, link);
      GetColor(n) == GetColor(o) && GetLeft(n) == GetLeft(o) && GetRight(n) == GetRight(o) && GetValue(n) == GetValue(o)
  {
  }

  /** A fresh sentinel is a node made by the protected constructor whose
      getters all answer as the overrides do: BLACK, no value, and the
      sentinel itself for every link, although its own fields hold RED and
      null links. */
  lemma NewSentinelOverrides()
    ensures NewSentinel().cell == DefaultNode().cell
    ensures GetColor(NewSentinel()) == Black && GetColor(DefaultNode()) == Red
    ensures GetValue(NewSentinel()) == None
    ensures GetLeft(NewSentinel()) == SentinelRef && GetRight(NewSentinel()) == SentinelRef
    ensures GetParent(NewSentinel()) == SentinelRef && NewSentinel().cell.parent == Null
  {
  }

  /** The value field is final: no setter, on either kind of node, changes it. */
  lemma ValueIsFinal(o: NodeObject, color: Color, link: Ref)
    ensures SetColor(o, color).cell.value == o.cell.value
    ensures SetLeft(o, link).cell.value == o.cell.value
    ensures SetRight(o, link).cell.value == o.cell.value
    ensures SetParent(o, link).cell.value == o.cell.value
  {
  }

  /** The sentinel reads BLACK, value-less and self-linked whatever was
      written into its inherited fields: painting it RED, as the insertion
      fix-up does when the grandparent is the sentinel, is invisible. */
  lemma SentinelIgnoresWrites(o: NodeObject, color: Color, link: Ref)
    requires o.Sentinel?
    ensures GetColor(SetColor(o, color)) == Black
    ensures GetValue(SetParent(SetLeft(SetRight(o, link), link), link)) == None
    ensures GetParent(SetParent(o, link)) == SentinelRef
    ensures GetLeft(SetLeft(o, link)) == SentinelRef
    ensures GetRight(SetRight(o, link)) == SentinelRef
  {
  }
}
