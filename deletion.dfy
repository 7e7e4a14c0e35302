/**
 * Deletion with repair. The matching node is detached together with its direct
 * children (the orphans, each an intact subtree); when the root itself is removed
 * the first orphan is promoted to root; every other orphan is then put back with
 * the ordinary insertion, as a whole subtree.
 */
module Deletion {
  import opened Wrappers
  import opened Quadrants
  import opened QuadNodes
  import opened Insertion
  import opened Multisets

  /**
   * The outcome of destroying below a node: the node after the matching child has
   * been unhooked, and the orphans (`None` when no child on the path matched).
   */
  datatype Destroyed<V> = Destroyed(tree: Node<V>, orphans: Option<seq<Node<V>>>)

  /**
   * Follow the classifier from `n` towards `p` looking for a child slot whose
   * occupant has position `p`; empty that slot and return the occupant's children.
   * The node `n` itself is never compared with `p`.
   */
  function Destroy<V>(n: Node<V>, p: Position): (d: Destroyed<V>)
    ensures d.tree.position == n.position && d.tree.value == n.value
    ensures d.orphans.None? ==> d.tree == n
    decreases n
  {
    var q := GetQuadrant(n.position, p);
    match n.Child(q)
    case None => Destroyed(n, None)
    case Some(target) =>
      if IsSamePosition(target.position, p) then
        Destroyed(n.WithChild(q, None), Some(ChildNodes(target)))
      else
        var d := Destroy(target, p);
        Destroyed(n.WithChild(q, Some(d.tree)), d.orphans)
  }

  /** The state in the middle of a removal: the root that is left, and the orphans. */
  datatype Detached<V> = Detached(root: Option<Node<V>>, orphans: Option<seq<Node<V>>>)

  /**
   * The first half of a removal: an empty tree gives nothing; a matching root is
   * dropped and its children become the orphans; otherwise the match is destroyed
   * below the root.
   */
  function Detach<V>(t: Option<Node<V>>, p: Position): (d: Detached<V>)
    ensures t.None? ==> d == Detached(None, None)
    ensures t.Some? && t.value.position == p ==> d == Detached(None, Some(ChildNodes(t.value)))
    ensures t.Some? && t.value.position != p ==> d.root.Some? && d.root.value.position == t.value.position
  {
    match t
    case None => Detached(None, None)
    case Some(n) =>
      if IsSamePosition(n.position, p) then Detached(None, Some(ChildNodes(n)))
      else
        var d := Destroy(n, p);
        Detached(Some(d.tree), d.orphans)
  }

  /** Insert the subtrees `os`, in order, into the tree rooted at `r`. */
  function InsertAll<V>(r: Node<V>, os: seq<Node<V>>): (t: Node<V>)
    ensures t.position == r.position
    decreases |os|
  {
    if os == [] then r else InsertAll(Insert(r, os[0]), os[1..])
  }

  /**
   * The second half of a removal: with no orphans nothing happens; otherwise, if no
   * root is left the first orphan becomes the root, and every remaining orphan is
   * inserted.
   */
  function Reattach<V>(root: Option<Node<V>>, orphans: Option<seq<Node<V>>>): (r: Option<Node<V>>)
    ensures orphans.None? || orphans.value == [] ==> r == root
    ensures root.Some? ==> r.Some? && r.value.position == root.value.position
    ensures root.None? && orphans.Some? && orphans.value != [] ==>
              r.Some? && r.value.position == orphans.value[0].position
  {
    if orphans.Some? && |orphans.value| > 0 then
      var os := orphans.value;
      if root.None? then Some(InsertAll(os[0], os[1..]))
      else Some(InsertAll(root.value, os))
    else root
  }

  /** The tree after removing `p`. */
  function RemoveFrom<V>(t: Option<Node<V>>, p: Position): (r: Option<Node<V>>)
    ensures t.None? ==> r.None?
    ensures t.Some? && t.value.position != p ==> r.Some? && r.value.position == t.value.position
    ensures t.Some? && t.value.position == p ==> (r.None? <==> t.value.IsLeaf())
  {
    var d := Detach(t, p);
    Reattach(d.root, d.orphans)
  }

  /** The orphans that go through insertion (all of them but a promoted first one). */
  function Reinserted<V>(d: Detached<V>): (r: seq<Node<V>>)
    ensures d.orphans.None? ==> r == []
    ensures d.orphans.Some? && d.root.Some? ==> r == d.orphans.value
    ensures d.orphans.Some? && d.root.None? && d.orphans.value != [] ==> [d.orphans.value[0]] + r == d.orphans.value
  {
    if d.orphans.Some? && |d.orphans.value| > 0 then
      if d.root.None? then d.orphans.value[1..] else d.orphans.value
    else []
  }

  /** The entries held by a list of subtrees. */
  ghost function EntriesAll<V>(os: seq<Node<V>>): multiset<Entry<V>>
  {
    if os == [] then multiset{} else Entries(Some(os[0])) + EntriesAll(os[1..])
  }

  /** The positions held by a list of subtrees. */
  function KeysAll<V>(os: seq<Node<V>>): multiset<Position>
  {
    if os == [] then multiset{} else Keys(Some(os[0])) + KeysAll(os[1..])
  }

  /** No position occurs twice. */
  ghost predicate NoDup(m: multiset<Position>)
  {
    forall x :: m[x] <= 1
  }

  /** The orphans of a node hold exactly the entries of its four slots. */
  lemma ChildNodesEntries<V>(n: Node<V>)
    ensures EntriesAll(ChildNodes(n)) == Entries(n.nw) + Entries(n.ne) + Entries(n.sw) + Entries(n.se)
  {
    var s3 := KeepPresent(n.se, []);
    var s2 := KeepPresent(n.sw, s3);
    var s1 := KeepPresent(n.ne, s2);
    KeepPresentEntries(n.se, []);
    KeepPresentEntries(n.sw, s3);
    KeepPresentEntries(n.ne, s2);
    KeepPresentEntries(n.nw, s1);
    SumOfFour(EntriesAll(ChildNodes(n)), EntriesAll(s1), EntriesAll(s2), EntriesAll(s3),
              Entries(n.nw), Entries(n.ne), Entries(n.sw), Entries(n.se));
  }

  /** The orphans of a node hold exactly the positions of its four slots. */
  lemma ChildNodesKeys<V>(n: Node<V>)
    ensures KeysAll(ChildNodes(n)) == Keys(n.nw) + Keys(n.ne) + Keys(n.sw) + Keys(n.se)
  {
    var s3 := KeepPresent(n.se, []);
    var s2 := KeepPresent(n.sw, s3);
    var s1 := KeepPresent(n.ne, s2);
    KeepPresentKeys(n.se, []);
    KeepPresentKeys(n.sw, s3);
    KeepPresentKeys(n.ne, s2);
    KeepPresentKeys(n.nw, s1);
    SumOfFour(KeysAll(ChildNodes(n)), KeysAll(s1), KeysAll(s2), KeysAll(s3),
              Keys(n.nw), Keys(n.ne), Keys(n.sw), Keys(n.se));
  }

  lemma KeepPresentEntries<V>(slot: Option<Node<V>>, rest: seq<Node<V>>)
    ensures EntriesAll(KeepPresent(slot, rest)) == Entries(slot) + EntriesAll(rest)
  {
    if slot.Some? {
      assert ([slot.value] + rest)[1..] == rest;
    }
  }

  lemma KeepPresentKeys<V>(slot: Option<Node<V>>, rest: seq<Node<V>>)
    ensures KeysAll(KeepPresent(slot, rest)) == Keys(slot) + KeysAll(rest)
  {
    if slot.Some? {
      assert ([slot.value] + rest)[1..] == rest;
    }
  }

  /** A node holds its orphans' entries plus its own. */
  lemma NodeEntries<V>(n: Node<V>)
    ensures EntriesAll(ChildNodes(n)) + multiset{Entry(n.position, n.value)} == Entries(Some(n))
  {
    ChildNodesEntries(n);
  }

  /** A node holds its orphans' positions plus its own. */
  lemma NodeKeys<V>(n: Node<V>)
    ensures KeysAll(ChildNodes(n)) + multiset{n.position} == Keys(Some(n))
  {
    ChildNodesKeys(n);
  }

  /** Every orphan is one of the node's children. */
  lemma ChildNodesAreChildren<V>(n: Node<V>, o: Node<V>)
    requires o in ChildNodes(n)
    ensures Some(o) == n.nw || Some(o) == n.ne || Some(o) == n.sw || Some(o) == n.se
  {
  }

  /** The post-order enumerations of a list of subtrees, one after the other. */
  function VisitsAll<V>(os: seq<Node<V>>): seq<Entry<V>>
  {
    if os == [] then [] else Visits(Some(os[0])) + VisitsAll(os[1..])
  }

  /** Enumerating a slot put in front of a list. */
  lemma KeepPresentVisits<V>(slot: Option<Node<V>>, rest: seq<Node<V>>)
    ensures VisitsAll(KeepPresent(slot, rest)) == Visits(slot) + VisitsAll(rest)
  {
    if slot.Some? {
      var os := KeepPresent(slot, rest);
      assert os[0] == slot.value && os[1..] == rest;
    }
  }

  /** The enumerations of the present children are those of the four slots, in order. */
  lemma ChildNodesVisits<V>(n: Node<V>)
    ensures VisitsAll(ChildNodes(n)) == Visits(n.nw) + (Visits(n.ne) + (Visits(n.sw) + (Visits(n.se) + [])))
  {
    var e: seq<Node<V>> := [];
    var l3 := KeepPresent(n.se, e);
    var l2 := KeepPresent(n.sw, l3);
    var l1 := KeepPresent(n.ne, l2);
    KeepPresentVisits(n.se, e);
    KeepPresentVisits(n.sw, l3);
    KeepPresentVisits(n.ne, l2);
    KeepPresentVisits(n.nw, l1);
  }

  /** Four pieces and a tail, grouped either way. */
  lemma Concat4<T>(a: seq<T>, b: seq<T>, c: seq<T>, d: seq<T>, x: seq<T>)
    ensures a + (b + (c + (d + []))) + x == a + b + c + d + x
  {
    assert d + [] == d;
  }

  /**
   * The enumeration as the repository walks it: each present child in turn, in the
   * order the list of children gives, then the node itself.
   */
  lemma VisitsByChildNodes<V>(n: Node<V>)
    ensures Visits(Some(n)) == VisitsAll(ChildNodes(n)) + [Entry(n.position, n.value)]
  {
    ChildNodesVisits(n);
    Concat4(Visits(n.nw), Visits(n.ne), Visits(n.sw), Visits(n.se), [Entry(n.position, n.value)]);
  }

  /** Destroy changes nothing when lookup does not find `p` below `n`. */
  lemma {:induction false} DestroyMissing<V>(n: Node<V>, p: Position)
    requires n.position != p
    requires Retrieve(n, p).None?
    ensures Destroy(n, p) == Destroyed(n, None)
    decreases n
  {
    var q := GetQuadrant(n.position, p);
    match n.Child(q)
    case None =>
    case Some(target) =>
      DestroyMissing(target, p);
  }

  /**
   * Destroy finds what lookup finds below `n`: the orphans are that node's children,
   * and the tree left plus the orphans plus the removed entry make up the old tree.
   */
  lemma {:induction false} DestroyFound<V>(n: Node<V>, p: Position)
    requires n.position != p
    requires Retrieve(n, p).Some?
    ensures var d := Destroy(n, p);
      && d.orphans == Some(ChildNodes(Retrieve(n, p).value))
      && Entries(Some(d.tree)) + (EntriesAll(d.orphans.value) + multiset{Entry(p, Retrieve(n, p).value.value)})
         == Entries(Some(n))
    decreases n
  {
    var q := GetQuadrant(n.position, p);
    var target := n.Child(q).value;
    var d := Destroy(n, p);
    if IsSamePosition(target.position, p) {
      assert d.tree == n.WithChild(q, None);
      NodeEntries(target);
      WithChildEntries(n, q, None);
      Regroup(Entries(Some(d.tree)), Entries(Some(target)), Entries(Some(n)), Entries(n.WithChild(q, None).Child(q)),
              EntriesAll(d.orphans.value) + multiset{Entry(p, target.value)});
    } else {
      var d' := Destroy(target, p);
      DestroyFound(target, p);
      assert d.tree == n.WithChild(q, Some(d'.tree));
      WithChildEntries(n, q, Some(d'.tree));
      Regroup(Entries(Some(d.tree)), Entries(Some(target)), Entries(Some(n)), Entries(Some(d'.tree)),
              EntriesAll(d.orphans.value) + multiset{Entry(p, Retrieve(n, p).value.value)});
    }
  }

  /** The same accounting for positions. */
  lemma {:induction false} DestroyFoundKeys<V>(n: Node<V>, p: Position)
    requires n.position != p
    requires Retrieve(n, p).Some?
    ensures var d := Destroy(n, p);
      d.orphans.Some? && Keys(Some(d.tree)) + (KeysAll(d.orphans.value) + multiset{p}) == Keys(Some(n))
    decreases n
  {
    var q := GetQuadrant(n.position, p);
    var target := n.Child(q).value;
    var d := Destroy(n, p);
    if IsSamePosition(target.position, p) {
      assert d.tree == n.WithChild(q, None);
      NodeKeys(target);
      WithChildKeys(n, q, None);
      Regroup(Keys(Some(d.tree)), Keys(Some(target)), Keys(Some(n)), Keys(n.WithChild(q, None).Child(q)),
              KeysAll(d.orphans.value) + multiset{p});
    } else {
      var d' := Destroy(target, p);
      DestroyFoundKeys(target, p);
      assert d.tree == n.WithChild(q, Some(d'.tree));
      WithChildKeys(n, q, Some(d'.tree));
      Regroup(Keys(Some(d.tree)), Keys(Some(target)), Keys(Some(n)), Keys(Some(d'.tree)),
              KeysAll(d.orphans.value) + multiset{p});
    }
  }

  /** A position that occurs in `b` does not occur in `a` when `a + b` has no duplicates. */
  lemma NoDupApart(a: multiset<Position>, b: multiset<Position>, x: Position)
    requires NoDup(a + b) && x in b
    ensures x !in a
  {
    assert (a + b)[x] == a[x] + b[x];
  }

  /** Part of a duplicate-free multiset is duplicate-free. */
  lemma NoDupPart(a: multiset<Position>, b: multiset<Position>)
    requires NoDup(a + b)
    ensures NoDup(a) && NoDup(b)
  {
    assert forall x :: (a + b)[x] == a[x] + b[x];
  }

  /**
   * The first of a list of subtrees with distinct positions is not found in the
   * tree, and after inserting it the positions are still distinct.
   */
  lemma InsertFirstKeys<V>(r: Node<V>, os: seq<Node<V>>)
    requires os != []
    requires NoDup(Keys(Some(r)) + KeysAll(os))
    ensures Retrieve(r, os[0].position).None?
    ensures Keys(Some(Insert(r, os[0]))) + KeysAll(os[1..]) == Keys(Some(r)) + KeysAll(os)
  {
    var o := os[0];
    assert KeysAll(os) == Keys(Some(o)) + KeysAll(os[1..]);
    assert o.position in Keys(Some(o));
    NoDupApart(Keys(Some(r)), KeysAll(os), o.position);
    RetrieveAbsent(r, o.position);
    InsertNewKeys(r, o);
    Regroup3(Keys(Some(Insert(r, o))), Keys(Some(r)), Keys(Some(o)), KeysAll(os[1..]), KeysAll(os));
  }

  /**
   * Inserting subtrees whose positions are all distinct from each other and from the
   * tree's keeps every position and adds theirs: no insertion hits an exact match.
   */
  lemma {:induction false} InsertAllKeys<V>(r: Node<V>, os: seq<Node<V>>)
    requires NoDup(Keys(Some(r)) + KeysAll(os))
    ensures Keys(Some(InsertAll(r, os))) == Keys(Some(r)) + KeysAll(os)
    decreases |os|
  {
    if os != [] {
      InsertFirstKeys(r, os);
      InsertAllKeys(Insert(r, os[0]), os[1..]);
    }
  }

  /** Under the same condition every entry of the tree and of the subtrees is kept. */
  lemma {:induction false} InsertAllEntries<V>(r: Node<V>, os: seq<Node<V>>)
    requires NoDup(Keys(Some(r)) + KeysAll(os))
    ensures Entries(Some(InsertAll(r, os))) == Entries(Some(r)) + EntriesAll(os)
    decreases |os|
  {
    if os != [] {
      var o := os[0];
      var r' := Insert(r, o);
      InsertFirstKeys(r, os);
      InsertNewEntries(r, o);
      InsertAllEntries(r', os[1..]);
      Regroup3(Entries(Some(r')), Entries(Some(r)), Entries(Some(o)), EntriesAll(os[1..]), EntriesAll(os));
    }
  }

  /** Removing a position that lookup does not find changes nothing. */
  lemma RemoveMissing<V>(t: Option<Node<V>>, p: Position)
    requires Lookup(t, p).None?
    ensures RemoveFrom(t, p) == t
  {
    if t.Some? {
      DestroyMissing(t.value, p);
    }
  }

  /**
   * Removing a position that lookup finds splits the tree into what is left, the
   * orphans and the removed entry, with nothing lost and nothing added.
   */
  lemma DetachFound<V>(t: Option<Node<V>>, p: Position)
    requires Lookup(t, p).Some?
    ensures var d := Detach(t, p);
      && d.orphans.Some?
      && Entries(d.root) + (EntriesAll(d.orphans.value) + multiset{Entry(p, Lookup(t, p).value)}) == Entries(t)
      && Keys(d.root) + (KeysAll(d.orphans.value) + multiset{p}) == Keys(t)
  {
    var n := t.value;
    if IsSamePosition(n.position, p) {
      NodeEntries(n);
      NodeKeys(n);
    } else {
      DestroyFound(n, p);
      DestroyFoundKeys(n, p);
    }
  }

  /** The positions of the orphans put back are added to the tree's, with none lost. */
  lemma ReattachKeys<V>(root: Option<Node<V>>, os: seq<Node<V>>)
    requires NoDup(Keys(root) + KeysAll(os))
    ensures Keys(Reattach(root, Some(os))) == Keys(root) + KeysAll(os)
  {
    if os != [] {
      if root.None? {
        assert Keys(root) + KeysAll(os) == Keys(Some(os[0])) + KeysAll(os[1..]);
        InsertAllKeys(os[0], os[1..]);
      } else {
        InsertAllKeys(root.value, os);
      }
    }
  }

  /** The entries of the orphans put back are added to the tree's, with none lost. */
  lemma ReattachEntries<V>(root: Option<Node<V>>, os: seq<Node<V>>)
    requires NoDup(Keys(root) + KeysAll(os))
    ensures Entries(Reattach(root, Some(os))) == Entries(root) + EntriesAll(os)
  {
    if os != [] {
      if root.None? {
        assert Keys(root) + KeysAll(os) == Keys(Some(os[0])) + KeysAll(os[1..]);
        assert Entries(root) + EntriesAll(os) == Entries(Some(os[0])) + EntriesAll(os[1..]);
        InsertAllEntries(os[0], os[1..]);
      } else {
        InsertAllEntries(root.value, os);
      }
    }
  }

  /**
   * Putting orphans back whose positions are distinct from each other and from the
   * tree's keeps every entry of both.
   */
  lemma ReattachContents<V>(root: Option<Node<V>>, os: seq<Node<V>>)
    requires NoDup(Keys(root) + KeysAll(os))
    ensures Entries(Reattach(root, Some(os))) == Entries(root) + EntriesAll(os)
    ensures Keys(Reattach(root, Some(os))) == Keys(root) + KeysAll(os)
  {
    ReattachEntries(root, os);
    ReattachKeys(root, os);
  }

  /**
   * Removal with distinct positions: what is left plus the removed entry is the old
   * tree, and the same for positions.
   */
  lemma RemoveFoundContents<V>(t: Option<Node<V>>, p: Position)
    requires NoDup(Keys(t))
    requires Lookup(t, p).Some?
    ensures Entries(RemoveFrom(t, p)) + multiset{Entry(p, Lookup(t, p).value)} == Entries(t)
    ensures Keys(RemoveFrom(t, p)) + multiset{p} == Keys(t)
  {
    var d := Detach(t, p);
    DetachFound(t, p);
    var os := d.orphans.value;
    Associative(Keys(d.root), KeysAll(os), multiset{p});
    NoDupPart(Keys(d.root) + KeysAll(os), multiset{p});
    ReattachContents(d.root, os);
    Regroup4(Entries(RemoveFrom(t, p)), Entries(d.root), EntriesAll(os), multiset{Entry(p, Lookup(t, p).value)}, Entries(t));
    Regroup4(Keys(RemoveFrom(t, p)), Keys(d.root), KeysAll(os), multiset{p}, Keys(t));
  }

  /**
   * Removal with distinct positions: exactly the entry stored under `p` goes, every
   * other entry stays, the node count drops by one, positions stay distinct and `p`
   * is no longer found.
   */
  lemma RemoveFound<V>(t: Option<Node<V>>, p: Position)
    requires NoDup(Keys(t))
    requires Lookup(t, p).Some?
    ensures Entries(RemoveFrom(t, p)) == Entries(t) - multiset{Entry(p, Lookup(t, p).value)}
    ensures Keys(RemoveFrom(t, p)) == Keys(t) - multiset{p}
    ensures NodeCount(RemoveFrom(t, p)) == NodeCount(t) - 1
    ensures NoDup(Keys(RemoveFrom(t, p)))
    ensures Lookup(RemoveFrom(t, p), p).None?
  {
    var r := RemoveFrom(t, p);
    RemoveFoundContents(t, p);
    TakeOne(Entries(r), multiset{Entry(p, Lookup(t, p).value)}, Entries(t));
    TakeOne(Keys(r), multiset{p}, Keys(t));
    NoDupPart(Keys(r), multiset{p});
    assert p !in Keys(r) by {
      NoDupApart(Keys(r), multiset{p}, p);
    }
    if Lookup(r, p).Some? {
      RetrieveStored(r.value, p);
    }
    EntriesCount(r);
    EntriesCount(t);
  }

  /**
   * Removing the root promotes the first occupied slot's node, in NW, NE, SW, SE
   * order, to root; removing a childless root empties the tree.
   */
  lemma RemoveRoot<V>(n: Node<V>)
    ensures n.IsLeaf() ==> RemoveFrom(Some(n), n.position).None?
    ensures !n.IsLeaf() ==>
      RemoveFrom(Some(n), n.position).Some? &&
      RemoveFrom(Some(n), n.position).value.position == FirstChild(n).value.position
  {
  }
}
