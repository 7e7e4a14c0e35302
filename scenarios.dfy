/**
 * The removal scenario the repository's tests exercise, for any number of iterations:
 * set (1, 1), then (100 i, 100 i) for i = 0, 1, ..., remove (1, 1), and every other
 * position still reads back its value. The diagonal positions form a chain of
 * north-east slots; the root's children are that chain (north-east) and the single
 * node (0, 0) (south-west), so the chain is promoted and only a single node is
 * reinserted, which is the case in which removal keeps lookups.
 */
module Scenarios {
  import opened Wrappers
  import opened Quadrants
  import opened QuadNodes
  import opened Insertion
  import opened Deletion
  import opened SearchPath
  import opened JsValues
  import opened PointQuadTrees

  /** The i-th position of the scenario. */
  function Diag(i: nat): Position
  {
    Position(i * 100, i * 100)
  }

  /** The chain of nodes at Diag(i), ..., Diag(j), each in the north-east slot of the one before. */
  function Chain<V>(i: nat, j: nat, v: V): (n: Node<V>)
    requires i <= j
    ensures n.position == Diag(i)
    decreases j - i
  {
    Node(Diag(i), v, None, if i < j then Some(Chain(i + 1, j, v)) else None, None, None)
  }

  /** Setting Diag(0), ..., Diag(k - 1), in order, on `t`. */
  function SetDiagonal<V>(t: Option<Node<V>>, k: nat, v: V): (r: Option<Node<V>>)
    ensures k > 0 ==> r.Some?
  {
    if k == 0 then t else Put(SetDiagonal(t, k - 1, v), Diag(k - 1), v)
  }

  /** The tree of the scenario before the removal. */
  function Scenario<V>(k: nat, v: V): Option<Node<V>>
  {
    SetDiagonal(Put(None, Position(1, 1), v), k, v)
  }

  /** Inserting the next diagonal position extends the chain at its end. */
  lemma {:induction false} ChainExtends<V>(i: nat, j: nat, v: V)
    requires 1 <= i <= j
    ensures Insert(Chain(i, j, v), Leaf(Diag(j + 1), v)) == Chain(i, j + 1, v)
    decreases j - i
  {
    var n := Chain(i, j, v);
    assert GetQuadrant(n.position, Diag(j + 1)) == NE;
    if i < j {
      ChainExtends(i + 1, j, v);
    }
  }

  /** After one iteration the root holds (0, 0) south-west and nothing else. */
  lemma ScenarioOne<V>(v: V)
    ensures Scenario(1, v) == Some(Node(Position(1, 1), v, None, None, Some(Leaf(Diag(0), v)), None))
  {
    var t := Put(None, Position(1, 1), v);
    assert SetDiagonal(t, 1, v) == Put(SetDiagonal(t, 0, v), Diag(0), v);
    assert GetQuadrant(Position(1, 1), Diag(0)) == SW;
  }

  /** With two or more iterations the root holds the chain north-east and (0, 0) south-west. */
  lemma {:induction false} ScenarioShape<V>(k: nat, v: V)
    requires k >= 2
    ensures Scenario(k, v) == Some(Node(Position(1, 1), v, None, Some(Chain(1, k - 1, v)), Some(Leaf(Diag(0), v)), None))
  {
    if k == 2 {
      ScenarioOne(v);
      assert GetQuadrant(Position(1, 1), Diag(1)) == NE;
      assert Chain(1, 1, v) == Leaf(Diag(1), v);
    } else {
      ScenarioShape(k - 1, v);
      ChainExtends(1, k - 2, v);
      var n := Scenario(k - 1, v).value;
      assert GetQuadrant(n.position, Diag(k - 1)) == NE;
    }
  }

  /** Every position set along the way is found with its value. */
  lemma {:induction false} SetDiagonalFinds<V>(t: Option<Node<V>>, k: nat, v: V, i: nat)
    requires i < k
    ensures Lookup(SetDiagonal(t, k, v), Diag(i)) == Some(v)
  {
    PutLookup(SetDiagonal(t, k - 1, v), Diag(k - 1), v, Diag(i));
    if i < k - 1 {
      SetDiagonalFinds(t, k - 1, v, i);
    }
  }

  /** The diagonal positions never meet the first position (1, 1), so it is still found. */
  lemma {:induction false} SetDiagonalKeeps<V>(t: Option<Node<V>>, k: nat, v: V, p: Position)
    requires forall i :: 0 <= i < k ==> Diag(i) != p
    ensures Lookup(SetDiagonal(t, k, v), p) == Lookup(t, p)
  {
    if k > 0 {
      PutLookup(SetDiagonal(t, k - 1, v), Diag(k - 1), v, p);
      SetDiagonalKeeps(t, k - 1, v, p);
    }
  }

  /** Setting keeps the search-path invariant all along. */
  lemma {:induction false} SetDiagonalSearchTree<V>(t: Option<Node<V>>, k: nat, v: V)
    requires SearchTree(t)
    ensures SearchTree(SetDiagonal(t, k, v))
  {
    if k > 0 {
      SetDiagonalSearchTree(t, k - 1, v);
      PutKeeps(SetDiagonal(t, k - 1, v), Diag(k - 1), v);
    }
  }

  /** Removing (1, 1) reinserts nothing but single nodes. */
  lemma ScenarioReinsertsLeaves<V>(k: nat, v: V)
    ensures forall o :: o in Reinserted(Detach(Scenario(k, v), Position(1, 1))) ==> o.IsLeaf()
  {
    if k >= 2 {
      ScenarioShape(k, v);
      var n := Scenario(k, v).value;
      assert ChildNodes(n) == [Chain(1, k - 1, v), Leaf(Diag(0), v)];
      assert Reinserted(Detach(Scenario(k, v), Position(1, 1))) == [Leaf(Diag(0), v)];
    } else if k == 1 {
      ScenarioOne(v);
      var n := Scenario(k, v).value;
      assert ChildNodes(n) == [Leaf(Diag(0), v)];
    }
  }

  /**
   * After the removal (1, 1) is gone and every diagonal position still maps to its
   * value, for any number of iterations.
   */
  lemma RemoveOnlyTheSpecified<V>(k: nat, v: V, i: nat)
    requires i < k
    ensures Lookup(RemoveFrom(Scenario(k, v), Position(1, 1)), Position(1, 1)).None?
    ensures Lookup(RemoveFrom(Scenario(k, v), Position(1, 1)), Diag(i)) == Some(v)
  {
    var t := Scenario(k, v);
    var p := Position(1, 1);
    PutKeeps(None, p, v);
    SetDiagonalSearchTree(Put(None, p, v), k, v);
    ScenarioReinsertsLeaves(k, v);
    SetDiagonalFinds(Put(None, p, v), k, v, i);
    assert Diag(i) != p;
    RemoveLookup(t, p, p);
    RemoveLookup(t, p, Diag(i));
  }

  /**
   * The same through `get`: a truthy value set at the diagonal positions reads back
   * after the removal, and (1, 1) reads back as `undefined`.
   */
  lemma GetAfterScenario(k: nat, v: Value, i: nat)
    requires i < k && !Falsy(v)
    ensures ValueAt(RemoveFrom(Scenario(k, v), Position(1, 1)), Position(1, 1)) == Undefined
    ensures ValueAt(RemoveFrom(Scenario(k, v), Position(1, 1)), Diag(i)) == v
  {
    RemoveOnlyTheSpecified(k, v, i);
  }

  /** Before the removal, (1, 1) is found with its value. */
  lemma ScenarioHoldsFirst<V>(k: nat, v: V)
    ensures Lookup(Scenario(k, v), Position(1, 1)) == Some(v)
  {
    SetDiagonalKeeps(Put(None, Position(1, 1), v), k, v, Position(1, 1));
  }
}
