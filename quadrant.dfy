/**
 * Positions and the quadrant classifier of the point quadtree.
 *
 * The classifier is reproduced exactly as the repository computes it: east/west
 * compares the child's x with the parent's x, and north/south compares the
 * child's y with the parent's *x*. Insert, lookup and delete all use this one
 * rule, so exact-key behaviour does not depend on it being geometric.
 */
module Quadrants {

  /** A key of the tree. Coordinates are mathematical integers. */
  datatype Position = Position(x: int, y: int)

  /** The four child slots of a node, in the order the tree enumerates them. */
  datatype Quadrant = NW | NE | SW | SE
  {
    predicate IsNorth() { this == NW || this == NE }

    predicate IsWest() { this == NW || this == SW }

    /** The place of the slot in the order NW, NE, SW, SE in which children are listed. */
    function Order(): (i: nat)
      ensures i < 4
    {
      match this
      case NW => 0
      case NE => 1
      case SW => 2
      case SE => 3
    }

    /** The property name the repository uses for the slot. */
    function Label(): (s: string)
      ensures |s| == 2
      ensures s[0] == (if IsNorth() then 'N' else 'S')
      ensures s[1] == (if IsWest() then 'W' else 'E')
    {
      match this
      case NW => "NW"
      case NE => "NE"
      case SW => "SW"
      case SE => "SE"
    }
  }

  /**
   * The slot of `parent` that `child` belongs in: west exactly when the child's x is
   * strictly smaller than the parent's x, north exactly when the child's y is strictly
   * greater than the parent's x; the label is the latitude letter followed by the
   * longitude letter.
   */
  function GetQuadrant(parent: Position, child: Position): (q: Quadrant)
    ensures q.IsWest() <==> child.x < parent.x
    ensures q.IsNorth() <==> child.y > parent.x
    ensures q.Label() == [if child.y > parent.x then 'N' else 'S'] + [if child.x < parent.x then 'W' else 'E']
  {
    var west := child.x < parent.x;
    var north := child.y > parent.x;
    if north then (if west then NW else NE) else (if west then SW else SE)
  }

  /** Exact equality of both coordinates, with no tolerance. */
  function IsSamePosition(first: Position, second: Position): (same: bool)
    ensures same <==> first == second
  {
    first.x == second.x && first.y == second.y
  }

  /** The documented example: (1, 2) relative to (1, 1) lies in the north-east slot. */
  lemma DocumentedExample()
    ensures GetQuadrant(Position(1, 1), Position(1, 2)).Label() == "NE"
  {
  }

  /**
   * The parent's y coordinate never influences the classification: both halves of
   * the decision read only the parent's x.
   */
  lemma ClassifierIgnoresParentY(px: int, py: int, py': int, child: Position)
    ensures GetQuadrant(Position(px, py), child) == GetQuadrant(Position(px, py'), child)
  {
  }
}
