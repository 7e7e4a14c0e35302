/**
 * What insertion does to a tree, stated without any assumption on how the tree
 * was built: insertion and lookup follow the same classifier path, so a value
 * just stored is the one found, an overwrite changes one value and no structure,
 * and a new node is attached intact where the lookup path ends.
 */
module Insertion {
  import opened Wrappers
  import opened Quadrants
  import opened QuadNodes
  import opened Multisets

  /** Replacing slot `q` trades the old occupant's entries for the new one's. */
  lemma {:induction false} WithChildEntries<V>(n: Node<V>, q: Quadrant, c: Option<Node<V>>)
    ensures Entries(Some(n.WithChild(q, c))) + Entries(n.Child(q)) == Entries(Some(n)) + Entries(c)
  {
    match q
    case NW => assert n.WithChild(q, c) == n.(nw := c);
    case NE => assert n.WithChild(q, c) == n.(ne := c);
    case SW => assert n.WithChild(q, c) == n.(sw := c);
    case SE => assert n.WithChild(q, c) == n.(se := c);
  }

  /** Replacing slot `q` trades the old occupant's positions for the new one's. */
  lemma {:induction false} WithChildKeys<V>(n: Node<V>, q: Quadrant, c: Option<Node<V>>)
    ensures Keys(Some(n.WithChild(q, c))) + Keys(n.Child(q)) == Keys(Some(n)) + Keys(c)
  {
    match q
    case NW => assert n.WithChild(q, c) == n.(nw := c);
    case NE => assert n.WithChild(q, c) == n.(ne := c);
    case SW => assert n.WithChild(q, c) == n.(sw := c);
    case SE => assert n.WithChild(q, c) == n.(se := c);
  }

  /** Every tree has its own shape. */
  lemma {:induction false} SameShapeReflexive<V>(t: Option<Node<V>>)
    ensures SameShape(t, t)
    decreases t
  {
    if t.Some? {
      var n := t.value;
      SameShapeReflexive(n.nw);
      SameShapeReflexive(n.ne);
      SameShapeReflexive(n.sw);
      SameShapeReflexive(n.se);
    }
  }

  /** The enumeration lists each node once: its length is the node count. */
  lemma {:induction false} VisitsLength<V>(t: Option<Node<V>>)
    ensures |Visits(t)| == NodeCount(t)
    decreases t
  {
    if t.Some? {
      var n := t.value;
      VisitsLength(n.nw);
      VisitsLength(n.ne);
      VisitsLength(n.sw);
      VisitsLength(n.se);
    }
  }

  /** The enumeration holds exactly the tree's entries. */
  lemma {:induction false} VisitsEntries<V>(t: Option<Node<V>>)
    ensures multiset(Visits(t)) == Entries(t)
    decreases t
  {
    if t.Some? {
      var n := t.value;
      VisitsEntries(n.nw);
      VisitsEntries(n.ne);
      VisitsEntries(n.sw);
      VisitsEntries(n.se);
    }
  }

  /**
   * Insertion of a position that the lookup path does not find keeps every entry of
   * the tree, adds every entry of `m` and nothing else.
   */
  lemma {:induction false} InsertNewEntries<V>(n: Node<V>, m: Node<V>)
    requires Retrieve(n, m.position).None?
    ensures Entries(Some(Insert(n, m))) == Entries(Some(n)) + Entries(Some(m))
    decreases n
  {
    var q := GetQuadrant(n.position, m.position);
    var r := Insert(n, m);
    match n.Child(q)
    case None =>
      assert r == n.WithChild(q, Some(m));
      WithChildEntries(n, q, Some(m));
      assert Entries(Some(r)) + multiset{} == Entries(Some(r));
    case Some(c) =>
      InsertNewEntries(c, m);
      assert r == n.WithChild(q, Some(Insert(c, m)));
      WithChildEntries(n, q, Some(Insert(c, m)));
      Shift(Entries(Some(r)), Entries(Some(c)), Entries(Some(n)), Entries(Some(m)));
  }

  /** The same for positions: the tree's positions plus those of `m`. */
  lemma {:induction false} InsertNewKeys<V>(n: Node<V>, m: Node<V>)
    requires Retrieve(n, m.position).None?
    ensures Keys(Some(Insert(n, m))) == Keys(Some(n)) + Keys(Some(m))
    decreases n
  {
    var q := GetQuadrant(n.position, m.position);
    var r := Insert(n, m);
    match n.Child(q)
    case None =>
      assert r == n.WithChild(q, Some(m));
      WithChildKeys(n, q, Some(m));
      assert Keys(Some(r)) + multiset{} == Keys(Some(r));
    case Some(c) =>
      InsertNewKeys(c, m);
      assert r == n.WithChild(q, Some(Insert(c, m)));
      WithChildKeys(n, q, Some(Insert(c, m)));
      Shift(Keys(Some(r)), Keys(Some(c)), Keys(Some(n)), Keys(Some(m)));
  }

  /**
   * A node inserted at a position the lookup path does not find is attached intact
   * at the empty slot where that path ends, so lookup now returns it.
   */
  lemma {:induction false} InsertNewFound<V>(n: Node<V>, m: Node<V>)
    requires Retrieve(n, m.position).None?
    ensures Retrieve(Insert(n, m), m.position) == Some(m)
    decreases n
  {
    var q := GetQuadrant(n.position, m.position);
    match n.Child(q)
    case None =>
    case Some(c) =>
      InsertNewFound(c, m);
  }

  /**
   * Insertion of a position that the lookup path finds replaces that one entry's
   * value by `m`'s value: adding the old entry back to the new tree gives the old
   * tree with the new entry added. The children of `m` are not added.
   */
  lemma {:induction false} InsertExistingEntries<V>(n: Node<V>, m: Node<V>)
    requires Retrieve(n, m.position).Some?
    ensures Entries(Some(Insert(n, m))) + multiset{Entry(m.position, Retrieve(n, m.position).value.value)}
         == Entries(Some(n)) + multiset{Entry(m.position, m.value)}
    decreases n
  {
    var r := Insert(n, m);
    if IsSamePosition(n.position, m.position) {
      assert r == n.(value := m.value);
      var rest := Entries(n.nw) + Entries(n.ne) + Entries(n.sw) + Entries(n.se);
      assert Entries(Some(r)) == rest + multiset{Entry(m.position, m.value)};
      assert Entries(Some(n)) == rest + multiset{Entry(n.position, n.value)};
    } else {
      var q := GetQuadrant(n.position, m.position);
      var c := n.Child(q).value;
      var c' := Insert(c, m);
      InsertExistingEntries(c, m);
      assert r == n.WithChild(q, Some(c'));
      WithChildEntries(n, q, Some(c'));
      Rebalance(Entries(Some(r)), Entries(Some(c)), Entries(Some(n)), Entries(Some(c')),
                multiset{Entry(m.position, Retrieve(c, m.position).value.value)}, multiset{Entry(m.position, m.value)});
    }
  }

  /** Insertion of a position that the lookup path finds keeps the tree's positions. */
  lemma {:induction false} InsertExistingKeys<V>(n: Node<V>, m: Node<V>)
    requires Retrieve(n, m.position).Some?
    ensures Keys(Some(Insert(n, m))) == Keys(Some(n))
    decreases n
  {
    var r := Insert(n, m);
    if IsSamePosition(n.position, m.position) {
      assert r == n.(value := m.value);
    } else {
      var q := GetQuadrant(n.position, m.position);
      var c := n.Child(q).value;
      InsertExistingKeys(c, m);
      assert r == n.WithChild(q, Some(Insert(c, m)));
      WithChildKeys(n, q, Some(Insert(c, m)));
      Cancel(Keys(Some(r)), Keys(Some(c)), Keys(Some(n)), Keys(Some(Insert(c, m))));
    }
  }

  /**
   * Insertion of a position that the lookup path finds changes no structure: every
   * node stays where it was.
   */
  lemma {:induction false} InsertExistingShape<V>(n: Node<V>, m: Node<V>)
    requires Retrieve(n, m.position).Some?
    ensures SameShape(Some(Insert(n, m)), Some(n))
    decreases n
  {
    SameShapeReflexive(n.nw);
    SameShapeReflexive(n.ne);
    SameShapeReflexive(n.sw);
    SameShapeReflexive(n.se);
    if !IsSamePosition(n.position, m.position) {
      var q := GetQuadrant(n.position, m.position);
      var c := n.Child(q).value;
      InsertExistingShape(c, m);
      match q
      case NW => case NE => case SW => case SE =>
    }
  }

  /** After an overwrite, lookup returns the node it found before, with the new value. */
  lemma {:induction false} InsertExistingFound<V>(n: Node<V>, m: Node<V>)
    requires Retrieve(n, m.position).Some?
    ensures Retrieve(Insert(n, m), m.position) == Some(Retrieve(n, m.position).value.(value := m.value))
    decreases n
  {
    if !IsSamePosition(n.position, m.position) {
      var q := GetQuadrant(n.position, m.position);
      InsertExistingFound(n.Child(q).value, m);
    }
  }

  /**
   * Inserting a fresh node for `p` makes `p` map to `v` and leaves the lookup of
   * every other position as it was.
   */
  lemma {:induction false} InsertLeafLookup<V>(n: Node<V>, p: Position, v: V, k: Position)
    ensures Lookup(Some(Insert(n, Leaf(p, v))), k) == if k == p then Some(v) else Lookup(Some(n), k)
    decreases n
  {
    var m := Leaf(p, v);
    if k == p {
      if Retrieve(n, p).Some? { InsertExistingFound(n, m); } else { InsertNewFound(n, m); }
    } else if !IsSamePosition(n.position, p) && !IsSamePosition(n.position, k) {
      var q := GetQuadrant(n.position, p);
      if GetQuadrant(n.position, k) == q {
        match n.Child(q)
        case None =>
          assert Insert(n, m) == n.WithChild(q, Some(m));
          assert Retrieve(m, k).None?;
        case Some(c) =>
          InsertLeafLookup(c, p, v, k);
      }
    }
  }

  /** The tree holds one entry per node. */
  lemma {:induction false} EntriesCount<V>(t: Option<Node<V>>)
    ensures |Entries(t)| == NodeCount(t)
    decreases t
  {
    if t.Some? {
      var n := t.value;
      EntriesCount(n.nw);
      EntriesCount(n.ne);
      EntriesCount(n.sw);
      EntriesCount(n.se);
    }
  }

  /**
   * Inserting a fresh node for `p` adds one stored entry when `p` was not found and
   * none when it was.
   */
  lemma InsertLeafCount<V>(n: Node<V>, p: Position, v: V)
    ensures NodeCount(Some(Insert(n, Leaf(p, v)))) == NodeCount(Some(n)) + (if Retrieve(n, p).Some? then 0 else 1)
  {
    var m := Leaf(p, v);
    var r := Insert(n, m);
    EntriesCount(Some(r));
    EntriesCount(Some(n));
    if Retrieve(n, p).Some? {
      InsertExistingEntries(n, m);
      SameSize(Entries(Some(r)), Entries(Some(n)), multiset{Entry(p, Retrieve(n, p).value.value)}, multiset{Entry(p, v)});
    } else {
      InsertNewEntries(n, m);
      assert Entries(Some(m)) == multiset{Entry(p, v)};
    }
  }

  /**
   * The `set` operation on a possibly empty tree: a new node becomes the root of an
   * empty tree, and is inserted otherwise.
   */
  function Put<V>(t: Option<Node<V>>, p: Position, v: V): (r: Option<Node<V>>)
    ensures r.Some?
    ensures t.Some? ==> r.value.position == t.value.position
    ensures t.None? ==> r == Some(Leaf(p, v))
  {
    match t
    case None => Some(Leaf(p, v))
    case Some(n) => Some(Insert(n, Leaf(p, v)))
  }

  /**
   * After `set(p, v)` the position `p` maps to `v` and every other position maps to
   * what it mapped to before, whatever the tree.
   */
  lemma PutLookup<V>(t: Option<Node<V>>, p: Position, v: V, k: Position)
    ensures Lookup(Put(t, p, v), k) == if k == p then Some(v) else Lookup(t, k)
  {
    if t.Some? {
      InsertLeafLookup(t.value, p, v, k);
    }
  }

  /** `set` adds one stored entry for a new position and none on overwrite. */
  lemma PutCount<V>(t: Option<Node<V>>, p: Position, v: V)
    ensures NodeCount(Put(t, p, v)) == NodeCount(t) + (if Lookup(t, p).Some? then 0 else 1)
  {
    if t.Some? {
      InsertLeafCount(t.value, p, v);
    }
  }
}
