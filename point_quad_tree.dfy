/**
 * The stateful point quadtree: one mutable root, rebound by `set` and `remove`, and
 * the read-only `get`, `traverse`, `size` and `toArray` on top of it. The results of
 * the operations on the tree value are stated in the Insertion, Deletion and
 * SearchPath modules; here they are tied to what the public methods return.
 */
module PointQuadTrees {
  import opened Wrappers
  import opened Quadrants
  import opened QuadNodes
  import opened Insertion
  import opened Deletion
  import opened SearchPath
  import opened JsValues

  /**
   * What `get` returns for `p` on the tree `t`: the value found by lookup when there is
   * one and it is truthy, `undefined` otherwise.
   */
  function ValueAt(t: Option<Node<Value>>, p: Position): (v: Value)
    ensures v != Undefined <==> Lookup(t, p).Some? && !Falsy(Lookup(t, p).value)
    ensures v != Undefined ==> Lookup(t, p) == Some(v)
  {
    var node := if t.None? then None else Retrieve(t.value, p);
    Or(if node.None? then Undefined else node.value.value, Undefined)
  }

  /**
   * After `set(p, v)`, `get(p)` returns `v` when `v` is truthy and `undefined` when it is
   * falsy; `get` at every other position is unchanged. This holds for every tree,
   * because insertion and lookup follow the same classifier path.
   */
  lemma GetAfterSet(t: Option<Node<Value>>, p: Position, v: Value, k: Position)
    ensures ValueAt(Put(t, p, v), k) == if k == p then Or(v, Undefined) else ValueAt(t, k)
  {
    PutLookup(t, p, v, k);
  }

  /** `get` returns `undefined` on an empty tree and for a position the tree does not hold. */
  lemma GetAbsent(t: Option<Node<Value>>, p: Position)
    requires p !in Keys(t)
    ensures ValueAt(t, p) == Undefined
  {
    if t.Some? {
      RetrieveAbsent(t.value, p);
    }
  }

  /**
   * After removing `p` from a tree with distinct positions, `get(p)` is `undefined`, and
   * one stored entry fewer remains when `p` was found.
   */
  lemma GetAfterRemove(t: Option<Node<Value>>, p: Position)
    requires NoDup(Keys(t))
    ensures ValueAt(RemoveFrom(t, p), p) == Undefined
    ensures NodeCount(RemoveFrom(t, p)) == NodeCount(t) - (if Lookup(t, p).Some? then 1 else 0)
  {
    if Lookup(t, p).None? {
      RemoveMissing(t, p);
    } else {
      RemoveFound(t, p);
    }
  }

  /**
   * On a tree satisfying the search-path invariant removal takes away exactly the one
   * copy of `p` if there is one, whatever the shape of the orphans.
   */
  lemma RemoveFromSearchTree(t: Option<Node<Value>>, p: Position)
    requires SearchTree(t)
    ensures Keys(RemoveFrom(t, p)) == Keys(t) - multiset{p}
  {
    SearchTreeFinds(t, p);
    if Lookup(t, p).None? {
      RemoveMissing(t, p);
    } else {
      SearchTreeNoDup(t);
      RemoveFound(t, p);
    }
  }

  /** The tree object: the root of the tree, absent while the tree is empty. */
  class PointQuadTree {
    var root: Option<Node<Value>>

    /** A new tree is empty. */
    constructor ()
      ensures root == None
    {
      root := None;
    }

    /**
     * Store `value` at `position`: it becomes the root of an empty tree and is inserted
     * otherwise. Always reports success.
     */
    method Set(position: Position, value: Value) returns (ok: bool)
      modifies this
      ensures ok
      ensures root == Put(old(root), position, value)
      ensures SearchTree(old(root)) ==> SearchTree(root)
    {
      if SearchTree(root) {
        PutKeeps(root, position, value);
      }
      var node := Leaf(position, value);
      if root.None? {
        root := Some(node);
      } else {
        root := Some(Insert(root.value, node));
      }
      ok := true;
    }

    /** The value stored at `position`, or `undefined` when there is none or it is falsy. */
    function Get(position: Position): (v: Value)
      reads this
      ensures v != Undefined <==> Lookup(root, position).Some? && !Falsy(Lookup(root, position).value)
      ensures v != Undefined ==> Lookup(root, position) == Some(v)
    {
      ValueAt(root, position)
    }

    /**
     * Remove what is stored at `position`: a matching root is dropped and its children
     * become the orphans, otherwise the match is destroyed below the root; then, if no
     * root is left, the first orphan becomes the root, and every other orphan is inserted
     * in order. Always reports success.
     */
    method Remove(position: Position) returns (ok: bool)
      modifies this
      ensures ok
      ensures root == RemoveFrom(old(root), position)
      ensures SearchTree(old(root)) ==> Keys(root) == Keys(old(root)) - multiset{position}
    {
      ghost var before := root;
      var orphans: Option<seq<Node<Value>>>;
      if root.Some? && IsSamePosition(root.value.position, position) {
        orphans := Some(ChildNodes(root.value));
        root := None;
      } else if root.Some? {
        var d := Destroy(root.value, position);
        root := Some(d.tree);
        orphans := d.orphans;
      } else {
        orphans := None;
      }
      assert Detach(before, position) == Detached(root, orphans);
      if orphans.Some? && |orphans.value| > 0 {
        var rest := orphans.value;
        if root.None? {
          root := Some(rest[0]);
          rest := rest[1..];
        }
        var i := 0;
        while i < |rest|
          invariant 0 <= i <= |rest| && root.Some?
          invariant RemoveFrom(before, position) == Some(InsertAll(root.value, rest[i..]))
        {
          assert rest[i..][0] == rest[i] && rest[i..][1..] == rest[i + 1..];
          root := Some(Insert(root.value, rest[i]));
          i := i + 1;
        }
        assert rest[i..] == [];
      }
      if SearchTree(before) {
        RemoveFromSearchTree(before, position);
      }
      ok := true;
    }

    /** The post-order enumeration: every stored entry once, children before their parent. */
    function Traverse(): (visits: seq<Entry<Value>>)
      reads this
      ensures |visits| == NodeCount(root)
      ensures multiset(visits) == Entries(root)
      ensures root.Some? ==> visits[|visits| - 1] == Entry(root.value.position, root.value.value)
    {
      VisitsLength(root);
      VisitsEntries(root);
      Visits(root)
    }

    /** The number of stored entries, counted one visit at a time. */
    method Size() returns (count: nat)
      ensures count == NodeCount(root)
      ensures count == |Traverse()|
    {
      var visits := Traverse();
      count := 0;
      var i := 0;
      while i < |visits|
        invariant 0 <= i <= |visits|
        invariant count == i
      {
        count := count + 1;
        i := i + 1;
      }
    }

    /** The stored entries as a list, appended one visit at a time. */
    method ToArray() returns (arr: seq<Entry<Value>>)
      ensures arr == Traverse()
      ensures |arr| == NodeCount(root)
      ensures multiset(arr) == Entries(root)
    {
      var visits := Traverse();
      arr := [];
      var i := 0;
      while i < |visits|
        invariant 0 <= i <= |visits|
        invariant arr == visits[..i]
      {
        arr := arr + [visits[i]];
        i := i + 1;
      }
      assert visits[..i] == visits;
    }
  }
}
