/**
 * The search-path invariant: every position stored below a node lies in the slot
 * the classifier gives for it relative to that node, and differs from the node's
 * own position. Under it, lookup finds exactly the stored entries. Insertion of a
 * fresh node keeps it; removal keeps it when every orphan that is put back through
 * insertion is a leaf, but not in general, because an orphan is put back with
 * descendants that were classified against the removed node.
 */
module SearchPath {
  import opened Wrappers
  import opened Multisets
  import opened Quadrants
  import opened QuadNodes
  import opened Insertion
  import opened Deletion

  /** Every position held by `t` differs from `p` and is classified into slot `q` of `p`. */
  ghost predicate Within<V>(p: Position, q: Quadrant, t: Option<Node<V>>)
  {
    forall k :: k in Keys(t) ==> k != p && GetQuadrant(p, k) == q
  }

  /** The search-path invariant, at every node of `t`. */
  ghost predicate SearchTree<V>(t: Option<Node<V>>)
    decreases t
  {
    match t
    case None => true
    case Some(n) =>
      && Within(n.position, NW, n.nw) && Within(n.position, NE, n.ne)
      && Within(n.position, SW, n.sw) && Within(n.position, SE, n.se)
      && SearchTree(n.nw) && SearchTree(n.ne) && SearchTree(n.sw) && SearchTree(n.se)
  }

  /** The invariant at the root, read off for one slot. */
  lemma SearchTreeSlot<V>(n: Node<V>, q: Quadrant)
    requires SearchTree(Some(n))
    ensures Within(n.position, q, n.Child(q)) && SearchTree(n.Child(q))
  {
    match q
    case NW => case NE => case SW => case SE =>
  }

  /** A position held by a slot satisfying `Within`: the two facts `Within` promises for it. */
  lemma WithinAt<V>(p: Position, q: Quadrant, t: Option<Node<V>>, k: Position)
    requires Within(p, q, t) && k in Keys(t)
    ensures k != p && GetQuadrant(p, k) == q
  {
  }

  /**
   * Replacing one slot of a node satisfying the invariant by a subtree that satisfies it
   * and whose positions all belong in that slot gives a node satisfying the invariant.
   */
  lemma WithChildKeeps<V>(n: Node<V>, q: Quadrant, c: Option<Node<V>>)
    requires SearchTree(Some(n))
    requires Within(n.position, q, c) && SearchTree(c)
    ensures SearchTree(Some(n.WithChild(q, c)))
  {
    var r := n.WithChild(q, c);
    forall q' | q' != q
      ensures Within(r.position, q', r.Child(q')) && SearchTree(r.Child(q'))
    {
      SearchTreeSlot(n, q');
    }
    assert forall q' :: Within(r.position, q', r.Child(q')) && SearchTree(r.Child(q'));
    assert Within(r.position, NW, r.nw) && SearchTree(r.nw) by { assert r.nw == r.Child(NW); }
    assert Within(r.position, NE, r.ne) && SearchTree(r.ne) by { assert r.ne == r.Child(NE); }
    assert Within(r.position, SW, r.sw) && SearchTree(r.sw) by { assert r.sw == r.Child(SW); }
    assert Within(r.position, SE, r.se) && SearchTree(r.se) by { assert r.se == r.Child(SE); }
  }

  /** A stored entry's position is one of the tree's positions. */
  lemma {:induction false} EntryKey<V>(t: Option<Node<V>>, e: Entry<V>)
    requires e in Entries(t)
    ensures e.position in Keys(t)
    decreases t
  {
    var n := t.value;
    if e != Entry(n.position, n.value) {
      var q := EntrySlot(n, e);
      EntryKey(n.Child(q), e);
      SlotKeys(n, q);
    }
  }

  /** The positions of a slot are positions of the node. */
  lemma SlotKeys<V>(n: Node<V>, q: Quadrant)
    ensures Keys(n.Child(q)) <= Keys(Some(n))
  {
    match q
    case NW => case NE => case SW => case SE =>
  }

  /** An entry stored below the root is stored in one of its slots. */
  lemma EntrySlot<V>(n: Node<V>, e: Entry<V>) returns (q: Quadrant)
    requires e in Entries(Some(n)) && e != Entry(n.position, n.value)
    ensures e in Entries(n.Child(q))
  {
    if e in Entries(n.nw) { q := NW; }
    else if e in Entries(n.ne) { q := NE; }
    else if e in Entries(n.sw) { q := SW; }
    else { q := SE; }
  }

  /** One step of lookup: a position other than the root's is looked up in its slot. */
  lemma LookupStep<V>(n: Node<V>, k: Position)
    ensures Lookup(Some(n), k) ==
            if k == n.position then Some(n.value) else Lookup(n.Child(GetQuadrant(n.position, k)), k)
  {
  }

  /** A slot that `k` does not belong in holds no copy of `k`. */
  lemma NotInOtherSlot<V>(n: Node<V>, q: Quadrant, k: Position)
    requires Within(n.position, q, n.Child(q))
    requires q != GetQuadrant(n.position, k) || k == n.position
    ensures Keys(n.Child(q))[k] == 0
  {
  }

  /** The copies of `k` at a node: those in its four slots and the node's own. */
  lemma KeysSum<V>(n: Node<V>, k: Position)
    ensures Keys(Some(n))[k] ==
            Keys(n.nw)[k] + Keys(n.ne)[k] + Keys(n.sw)[k] + Keys(n.se)[k] + (if k == n.position then 1 else 0)
  {
  }

  /** Under the invariant, the copies of `k` at a node are those in the one slot `k` belongs in. */
  lemma KeysAt<V>(n: Node<V>, k: Position)
    requires SearchTree(Some(n))
    ensures Keys(Some(n))[k] == if k == n.position then 1 else Keys(n.Child(GetQuadrant(n.position, k)))[k]
  {
    var q := GetQuadrant(n.position, k);
    KeysSum(n, k);
    SearchTreeSlot(n, NW);
    SearchTreeSlot(n, NE);
    SearchTreeSlot(n, SW);
    SearchTreeSlot(n, SE);
    if q != NW || k == n.position { NotInOtherSlot(n, NW, k); }
    if q != NE || k == n.position { NotInOtherSlot(n, NE, k); }
    if q != SW || k == n.position { NotInOtherSlot(n, SW, k); }
    if q != SE || k == n.position { NotInOtherSlot(n, SE, k); }
  }

  /** Under the invariant no position is stored twice. */
  lemma {:induction false} SearchTreeNoDup<V>(t: Option<Node<V>>)
    requires SearchTree(t)
    ensures NoDup(Keys(t))
    decreases t
  {
    if t.Some? {
      var n := t.value;
      SearchTreeSlot(n, NW);
      SearchTreeSlot(n, NE);
      SearchTreeSlot(n, SW);
      SearchTreeSlot(n, SE);
      SearchTreeNoDup(n.nw);
      SearchTreeNoDup(n.ne);
      SearchTreeNoDup(n.sw);
      SearchTreeNoDup(n.se);
      forall k ensures Keys(t)[k] <= 1 {
        KeysAt(n, k);
        var q := GetQuadrant(n.position, k);
        assert NoDup(Keys(n.Child(q))) by {
          match q
          case NW => case NE => case SW => case SE =>
        }
      }
    }
  }

  /** Under the invariant, every stored entry is what lookup returns for its position. */
  lemma {:induction false} StoredIsFound<V>(t: Option<Node<V>>, k: Position, v: V)
    requires SearchTree(t) && Entry(k, v) in Entries(t)
    ensures Lookup(t, k) == Some(v)
    decreases t
  {
    var n := t.value;
    var e := Entry(k, v);
    LookupStep(n, k);
    if e != Entry(n.position, n.value) {
      var q := EntrySlot(n, e);
      SearchTreeSlot(n, q);
      EntryKey(n.Child(q), e);
      WithinAt(n.position, q, n.Child(q), k);
      StoredIsFound(n.Child(q), k, v);
    }
  }

  /** Under the invariant, lookup returns `v` for `k` exactly when the entry is stored. */
  lemma SearchTreeLookup<V>(t: Option<Node<V>>, k: Position, v: V)
    requires SearchTree(t)
    ensures Lookup(t, k) == Some(v) <==> Entry(k, v) in Entries(t)
  {
    if Lookup(t, k) == Some(v) {
      RetrieveStored(t.value, k);
    }
    if Entry(k, v) in Entries(t) {
      StoredIsFound(t, k, v);
    }
  }

  /** A position stored below the root is stored in one of its slots. */
  lemma KeySlot<V>(n: Node<V>, k: Position) returns (q: Quadrant)
    requires k in Keys(Some(n)) && k != n.position
    ensures k in Keys(n.Child(q))
  {
    if k in Keys(n.nw) { q := NW; }
    else if k in Keys(n.ne) { q := NE; }
    else if k in Keys(n.sw) { q := SW; }
    else { q := SE; }
  }

  /** Under the invariant, every stored position is found by lookup. */
  lemma {:induction false} KeyIsFound<V>(t: Option<Node<V>>, k: Position)
    requires SearchTree(t) && k in Keys(t)
    ensures Lookup(t, k).Some?
    decreases t
  {
    var n := t.value;
    LookupStep(n, k);
    if k != n.position {
      var q := KeySlot(n, k);
      SearchTreeSlot(n, q);
      WithinAt(n.position, q, n.Child(q), k);
      KeyIsFound(n.Child(q), k);
    }
  }

  /** Under the invariant, lookup finds exactly the stored positions. */
  lemma SearchTreeFinds<V>(t: Option<Node<V>>, k: Position)
    requires SearchTree(t)
    ensures Lookup(t, k).Some? <==> k in Keys(t)
  {
    if k in Keys(t) {
      KeyIsFound(t, k);
    }
    if Lookup(t, k).Some? {
      RetrieveStored(t.value, k);
    }
  }

  /** Inserting a fresh node into a subtree keeps every position in the subtree's slot. */
  lemma InsertLeafWithin<V>(p0: Position, q: Quadrant, c: Node<V>, p: Position, v: V)
    requires Within(p0, q, Some(c)) && p != p0 && GetQuadrant(p0, p) == q
    ensures Within(p0, q, Some(Insert(c, Leaf(p, v))))
  {
    var m := Leaf(p, v);
    assert Keys(Some(m)) == multiset{p};
    if Retrieve(c, p).Some? {
      InsertExistingKeys(c, m);
    } else {
      InsertNewKeys(c, m);
    }
  }

  /** Inserting a fresh node keeps the invariant. */
  lemma {:induction false} InsertLeafKeeps<V>(n: Node<V>, p: Position, v: V)
    requires SearchTree(Some(n))
    ensures SearchTree(Some(Insert(n, Leaf(p, v))))
    decreases n
  {
    var m := Leaf(p, v);
    if IsSamePosition(n.position, p) {
      assert Insert(n, m) == n.(value := v);
    } else {
      var q := GetQuadrant(n.position, p);
      SearchTreeSlot(n, q);
      if n.Child(q).None? {
        assert Insert(n, m) == n.WithChild(q, Some(m));
        assert Keys(Some(m)) == multiset{p};
        WithChildKeeps(n, q, Some(m));
      } else {
        var c := n.Child(q).value;
        InsertLeafKeeps(c, p, v);
        InsertLeafWithin(n.position, q, c, p, v);
        assert Insert(n, m) == n.WithChild(q, Some(Insert(c, m)));
        WithChildKeeps(n, q, Some(Insert(c, m)));
      }
    }
  }

  /** `set` keeps the invariant; in particular a tree built by `set` alone satisfies it. */
  lemma PutKeeps<V>(t: Option<Node<V>>, p: Position, v: V)
    requires SearchTree(t)
    ensures SearchTree(Put(t, p, v))
  {
    if t.Some? {
      InsertLeafKeeps(t.value, p, v);
    }
  }

  /** A subtree holding a part of the positions of a subtree within a slot is within it too. */
  lemma WithinPart<V>(p: Position, q: Quadrant, a: Option<Node<V>>, b: Option<Node<V>>, rest: multiset<Position>)
    requires Within(p, q, b) && Keys(a) + rest == Keys(b)
    ensures Within(p, q, a)
  {
    forall k | k in Keys(a) ensures k != p && GetQuadrant(p, k) == q {
      assert k in Keys(b);
    }
  }

  /** Every present child of a node satisfying the invariant satisfies it. */
  lemma ChildrenKeep<V>(n: Node<V>)
    requires SearchTree(Some(n))
    ensures forall o :: o in ChildNodes(n) ==> SearchTree(Some(o))
  {
    forall o | o in ChildNodes(n) ensures SearchTree(Some(o)) {
      ChildNodesAreChildren(n, o);
    }
  }

  /** What destroy leaves in place of `n` keeps the invariant. */
  lemma {:induction false} DestroyTreeKeeps<V>(n: Node<V>, p: Position)
    requires SearchTree(Some(n)) && n.position != p && Retrieve(n, p).Some?
    ensures SearchTree(Some(Destroy(n, p).tree))
    decreases n
  {
    var q := GetQuadrant(n.position, p);
    var target := n.Child(q).value;
    SearchTreeSlot(n, q);
    if IsSamePosition(target.position, p) {
      assert Destroy(n, p).tree == n.WithChild(q, None);
      WithChildKeeps(n, q, n.WithChild(q, None).Child(q));
    } else {
      var d' := Destroy(target, p);
      DestroyTreeKeeps(target, p);
      DestroyFoundKeys(target, p);
      WithinPart(n.position, q, Some(d'.tree), Some(target), KeysAll(d'.orphans.value) + multiset{p});
      assert Destroy(n, p).tree == n.WithChild(q, Some(d'.tree));
      WithChildKeeps(n, q, Some(d'.tree));
    }
  }

  /** Every orphan destroy returns keeps the invariant. */
  lemma {:induction false} DestroyOrphansKeep<V>(n: Node<V>, p: Position)
    requires SearchTree(Some(n)) && n.position != p && Retrieve(n, p).Some?
    ensures Destroy(n, p).orphans.Some?
    ensures forall o :: o in Destroy(n, p).orphans.value ==> SearchTree(Some(o))
    decreases n
  {
    var q := GetQuadrant(n.position, p);
    var target := n.Child(q).value;
    SearchTreeSlot(n, q);
    if IsSamePosition(target.position, p) {
      ChildrenKeep(target);
    } else {
      DestroyOrphansKeep(target, p);
    }
  }

  /** Inserting fresh nodes one after the other keeps the invariant. */
  lemma {:induction false} InsertAllLeavesKeep<V>(r: Node<V>, os: seq<Node<V>>)
    requires SearchTree(Some(r))
    requires forall o :: o in os ==> o.IsLeaf()
    ensures SearchTree(Some(InsertAll(r, os)))
    decreases |os|
  {
    if os != [] {
      var o := os[0];
      assert o in os;
      assert o == Leaf(o.position, o.value);
      InsertLeafKeeps(r, o.position, o.value);
      assert forall o' :: o' in os[1..] ==> o' in os;
      InsertAllLeavesKeep(Insert(r, o), os[1..]);
    }
  }

  /**
   * Removal keeps the invariant when every orphan it puts back through insertion is a
   * single node (an orphan with descendants can carry them into slots they do not
   * belong in).
   */
  lemma RemoveKeeps<V>(t: Option<Node<V>>, p: Position)
    requires SearchTree(t)
    requires forall o :: o in Reinserted(Detach(t, p)) ==> o.IsLeaf()
    ensures SearchTree(RemoveFrom(t, p))
  {
    if Lookup(t, p).None? {
      RemoveMissing(t, p);
    } else {
      var n := t.value;
      var d := Detach(t, p);
      if IsSamePosition(n.position, p) {
        var os := ChildNodes(n);
        if os != [] {
          ChildrenKeep(n);
          assert os[0] in os;
          InsertAllLeavesKeep(os[0], os[1..]);
        }
      } else {
        DestroyTreeKeeps(n, p);
        DestroyOrphansKeep(n, p);
        if |d.orphans.value| > 0 {
          InsertAllLeavesKeep(d.root.value, d.orphans.value);
        }
      }
    }
  }

  /**
   * Two trees satisfying the invariant whose entries differ only by one entry at `p`
   * give the same lookups at every other position.
   */
  lemma SameLookupsBut<V>(t: Option<Node<V>>, r: Option<Node<V>>, e: Entry<V>, k: Position)
    requires SearchTree(t) && SearchTree(r)
    requires Entries(r) == Entries(t) - multiset{e}
    requires k != e.position
    ensures Lookup(r, k) == Lookup(t, k)
  {
    if Lookup(t, k).Some? {
      var w := Lookup(t, k).value;
      SearchTreeLookup(t, k, w);
      SearchTreeLookup(r, k, w);
    }
    if Lookup(r, k).Some? {
      var w := Lookup(r, k).value;
      SearchTreeLookup(r, k, w);
      SearchTreeLookup(t, k, w);
    }
  }

  /**
   * Under the same side condition, after removing `p` lookup finds nothing at `p` and
   * finds at every other position exactly what it found before.
   */
  lemma RemoveLookup<V>(t: Option<Node<V>>, p: Position, k: Position)
    requires SearchTree(t)
    requires forall o :: o in Reinserted(Detach(t, p)) ==> o.IsLeaf()
    ensures Lookup(RemoveFrom(t, p), k) == if k == p then None else Lookup(t, k)
  {
    if Lookup(t, p).None? {
      RemoveMissing(t, p);
    } else {
      SearchTreeNoDup(t);
      RemoveFound(t, p);
      RemoveKeeps(t, p);
      if k != p {
        SameLookupsBut(t, RemoveFrom(t, p), Entry(p, Lookup(t, p).value), k);
      }
    }
  }

  /** The tree built by setting (10, 10), (0, 20), (20, 5) and (30, -5), in that order. */
  function HidingExample(): Option<Node<int>>
  {
    Put(Put(Put(Put(None, Position(10, 10), 1), Position(0, 20), 2), Position(20, 5), 3), Position(30, -5), 4)
  }

  /**
   * Its shape: (0, 20) north-west of the root (the classifier compares 20 with the
   * root's x), (20, 5) south-east, and (30, -5) south-east of (20, 5).
   */
  lemma HidingExampleShape()
    ensures HidingExample() == Some(Node(Position(10, 10), 1, Some(Leaf(Position(0, 20), 2)), None, None,
                                         Some(Node(Position(20, 5), 3, None, None, None, Some(Leaf(Position(30, -5), 4))))))
  {
    assert GetQuadrant(Position(10, 10), Position(0, 20)) == NW;
    assert GetQuadrant(Position(10, 10), Position(20, 5)) == SE;
    assert GetQuadrant(Position(10, 10), Position(30, -5)) == SE;
    assert GetQuadrant(Position(20, 5), Position(30, -5)) == SE;
  }

  /**
   * Removing the root (10, 10) of the example promotes its first child (0, 20) and
   * reinserts the subtree (20, 5) whole, into the north-east slot of (0, 20); the walk
   * still lists (30, -5), but the search path towards it ends at the empty south-east
   * slot of (0, 20).
   */
  lemma HidingRemoval()
    ensures RemoveFrom(HidingExample(), Position(10, 10)) ==
              Some(Node(Position(0, 20), 2, None,
                        Some(Node(Position(20, 5), 3, None, None, None, Some(Leaf(Position(30, -5), 4)))),
                        None, None))
    ensures Visits(RemoveFrom(HidingExample(), Position(10, 10))) ==
              [Entry(Position(30, -5), 4), Entry(Position(20, 5), 3), Entry(Position(0, 20), 2)]
    ensures Lookup(RemoveFrom(HidingExample(), Position(10, 10)), Position(30, -5)).None?
  {
    HidingExampleShape();
    assert GetQuadrant(Position(0, 20), Position(20, 5)) == NE;
    assert GetQuadrant(Position(0, 20), Position(30, -5)) == SE;
  }

  /**
   * Without the side condition removal can hide a stored entry from lookup: removing
   * (10, 10) from the example promotes (0, 20) and reinserts the subtree (20, 5), with
   * (30, -5) below it, into the north-east slot of (0, 20), where the classifier never
   * looks for (30, -5). The entry is still enumerated, but lookup no longer finds it,
   * although the tree satisfied the invariant before.
   */
  lemma RemoveCanHideEntry()
    ensures SearchTree(HidingExample())
    ensures Lookup(HidingExample(), Position(30, -5)) == Some(4)
    ensures Entry(Position(30, -5), 4) in Visits(RemoveFrom(HidingExample(), Position(10, 10)))
    ensures Lookup(RemoveFrom(HidingExample(), Position(10, 10)), Position(30, -5)).None?
  {
    var t0: Option<Node<int>> := None;
    var t1 := Put(t0, Position(10, 10), 1);
    var t2 := Put(t1, Position(0, 20), 2);
    var t3 := Put(t2, Position(20, 5), 3);
    PutKeeps(t0, Position(10, 10), 1);
    PutKeeps(t1, Position(0, 20), 2);
    PutKeeps(t2, Position(20, 5), 3);
    PutKeeps(t3, Position(30, -5), 4);
    PutLookup(t3, Position(30, -5), 4, Position(30, -5));
    HidingRemoval();
  }
}
