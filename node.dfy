/**
 * Nodes of the point quadtree and the recursive operations on them: lookup,
 * insertion (overwrite on an exact match, otherwise attach at the first empty
 * slot on the classifier path), the list of present children, and the
 * post-order enumeration on which size and export are built.
 *
 * A node exclusively owns its four child slots, so a subtree is a value; the
 * repository's in-place updates of a slot are modelled as building the updated
 * node.
 */
module QuadNodes {
  import opened Wrappers
  import opened Quadrants

  /** A stored node: one position, one value and the four child slots. */
  datatype Node<V> = Node(position: Position, value: V,
                          nw: Option<Node<V>>, ne: Option<Node<V>>,
                          sw: Option<Node<V>>, se: Option<Node<V>>)
  {
    /** The child slot named by `q`. */
    function Child(q: Quadrant): (c: Option<Node<V>>)
      ensures c.Some? ==> c.value < this
    {
      match q
      case NW => nw
      case NE => ne
      case SW => sw
      case SE => se
    }

    /** This node with slot `q` replaced by `c` and every other field unchanged. */
    function WithChild(q: Quadrant, c: Option<Node<V>>): (n: Node<V>)
      ensures n.position == position && n.value == value
      ensures n.Child(q) == c
      ensures forall q' :: q' != q ==> n.Child(q') == Child(q')
    {
      match q
      case NW => this.(nw := c)
      case NE => this.(ne := c)
      case SW => this.(sw := c)
      case SE => this.(se := c)
    }

    predicate IsLeaf() { nw.None? && ne.None? && sw.None? && se.None? }
  }

  /** One element of the enumeration: a position with its value. */
  datatype Entry<V> = Entry(position: Position, value: V)

  /** A freshly created node: a position and a value with four empty slots. */
  function Leaf<V>(position: Position, value: V): (n: Node<V>)
    ensures n.IsLeaf() && n.position == position && n.value == value
  {
    Node(position, value, None, None, None, None)
  }

  /**
   * The node reached from `n` by following the classifier towards `p` whose
   * position is exactly `p`, or `None` when the path ends at an empty slot first.
   */
  function Retrieve<V>(n: Node<V>, p: Position): (r: Option<Node<V>>)
    ensures r.Some? ==> r.value.position == p
    decreases n
  {
    if IsSamePosition(n.position, p) then Some(n)
    else
      match n.Child(GetQuadrant(n.position, p))
      case None => None
      case Some(c) => Retrieve(c, p)
  }

  /**
   * The value stored under `p` in the tree `t`, if any: the value of the node that the
   * search path towards `p` reaches at position `p`; an empty tree holds nothing.
   */
  function Lookup<V>(t: Option<Node<V>>, p: Position): (r: Option<V>)
    ensures t.None? ==> r.None?
    ensures t.Some? && t.value.position == p ==> r == Some(t.value.value)
  {
    match t
    case None => None
    case Some(n) =>
      match Retrieve(n, p)
      case None => None
      case Some(m) =>
        Some(m.value)
  }

  /** A node that lookup finds is stored in the tree: its entry and its position are there. */
  lemma {:induction false} RetrieveStored<V>(n: Node<V>, p: Position)
    requires Retrieve(n, p).Some?
    ensures Entry(p, Retrieve(n, p).value.value) in Entries(Some(n))
    ensures p in Keys(Some(n))
    decreases n
  {
    if !IsSamePosition(n.position, p) {
      var q := GetQuadrant(n.position, p);
      var c := n.Child(q).value;
      RetrieveStored(c, p);
      match q
      case NW => case NE => case SW => case SE =>
    }
  }

  /** Lookup that reaches a missing position along its path finds nothing. */
  lemma RetrieveAbsent<V>(n: Node<V>, p: Position)
    requires p !in Keys(Some(n))
    ensures Retrieve(n, p).None?
  {
    if Retrieve(n, p).Some? {
      RetrieveStored(n, p);
    }
  }


  /**
   * Insert `m`, which may be a whole subtree, into the tree rooted at `n`: on an exact
   * position match along the classifier path only the value is overwritten (the
   * children of `m` are not kept); otherwise `m` is attached, intact, at the first
   * empty slot on the path.
   */
  function Insert<V>(n: Node<V>, m: Node<V>): (r: Node<V>)
    ensures r.position == n.position
    decreases n
  {
    if IsSamePosition(n.position, m.position) then n.(value := m.value)
    else
      var q := GetQuadrant(n.position, m.position);
      match n.Child(q)
      case None => n.WithChild(q, Some(m))
      case Some(c) => n.WithChild(q, Some(Insert(c, m)))
  }

  /** `rest` with the occupant of `slot`, if any, in front. */
  function KeepPresent<T>(slot: Option<T>, rest: seq<T>): (r: seq<T>)
    ensures slot.None? ==> r == rest
    ensures slot.Some? ==> r == [slot.value] + rest
  {
    match slot
    case None => rest
    case Some(x) => [x] + rest
  }

  /**
   * The present children of `n` in NW, NE, SW, SE order: the four slots filtered
   * for occupied ones. Its first element is the first occupied slot in that order,
   * and it is empty exactly for a leaf.
   */
  function ChildNodes<V>(n: Node<V>): (cs: seq<Node<V>>)
    ensures |cs| <= 4
    ensures cs == [] <==> n.IsLeaf()
    ensures cs != [] ==> Some(cs[0]) == FirstChild(n)
  {
    KeepPresent(n.nw, KeepPresent(n.ne, KeepPresent(n.sw, KeepPresent(n.se, []))))
  }

  /**
   * The occupant of the first occupied slot in NW, NE, SW, SE order: nothing exactly for
   * a leaf, and otherwise one of the children.
   */
  function FirstChild<V>(n: Node<V>): (c: Option<Node<V>>)
    ensures c.None? <==> n.IsLeaf()
    ensures c.Some? ==> c == n.nw || c == n.ne || c == n.sw || c == n.se
  {
    if n.nw.Some? then n.nw
    else if n.ne.Some? then n.ne
    else if n.sw.Some? then n.sw
    else n.se
  }

  /** An occupied slot with every earlier slot empty holds the first child. */
  lemma FirstChildIsFirst<V>(n: Node<V>, q: Quadrant)
    requires n.Child(q).Some?
    requires forall q': Quadrant :: q'.Order() < q.Order() ==> n.Child(q').None?
    ensures FirstChild(n) == n.Child(q)
  {
    assert NW.Order() == 0 && NE.Order() == 1 && SW.Order() == 2;
  }

  /**
   * The post-order enumeration of a tree: the four subtrees in NW, NE, SW, SE order,
   * then the node itself.
   */
  function Visits<V>(t: Option<Node<V>>): (r: seq<Entry<V>>)
    ensures t.Some? ==> |r| > 0 && r[|r| - 1] == Entry(t.value.position, t.value.value)
    ensures t.None? ==> r == []
  {
    match t
    case None => []
    case Some(n) => Visits(n.nw) + Visits(n.ne) + Visits(n.sw) + Visits(n.se) + [Entry(n.position, n.value)]
  }

  /** The multiset of entries held by a tree. */
  ghost function Entries<V>(t: Option<Node<V>>): multiset<Entry<V>>
  {
    match t
    case None => multiset{}
    case Some(n) => Entries(n.nw) + Entries(n.ne) + Entries(n.sw) + Entries(n.se) + multiset{Entry(n.position, n.value)}
  }

  /** The multiset of positions held by a tree. */
  function Keys<V>(t: Option<Node<V>>): multiset<Position>
  {
    match t
    case None => multiset{}
    case Some(n) => Keys(n.nw) + Keys(n.ne) + Keys(n.sw) + Keys(n.se) + multiset{n.position}
  }

  /** The number of nodes of a tree. */
  function NodeCount<V>(t: Option<Node<V>>): nat
  {
    match t
    case None => 0
    case Some(n) => NodeCount(n.nw) + NodeCount(n.ne) + NodeCount(n.sw) + NodeCount(n.se) + 1
  }

  /** Two trees with the same nodes at the same places, values aside. */
  predicate SameShape<V>(a: Option<Node<V>>, b: Option<Node<V>>)
  {
    match a
    case None => b.None?
    case Some(x) =>
      b.Some? && x.position == b.value.position &&
      SameShape(x.nw, b.value.nw) && SameShape(x.ne, b.value.ne) &&
      SameShape(x.sw, b.value.sw) && SameShape(x.se, b.value.se)
  }
}
