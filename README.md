# Point quadtree, modelled and proved in Dafny

This project models the point quadtree of `src/PointQuadTree.js`. The tree is an
associative map from `{x, y}` positions to arbitrary values. It is stored as a 4-ary
search tree: each node holds one position, one value and four child slots named NW,
NE, SW and SE. The tree object keeps a mutable root and offers `set`, `get`, `remove`,
`traverse`, `size` and `toArray`.

The project has these modules, one per file:

- `Quadrants` (`quadrant.dfy`): positions, the quadrant classifier `getQuadrant` and
  exact position equality. The classifier is reproduced as written. North/south compares
  the child's y with the parent's **x**.
- `QuadNodes` (`node.dfy`): the node datatype and the recursive `retrieve`, `insert`,
  `getChildNodes`, and the post-order walk behind `traverse`.
- `Insertion` (`insertion.dfy`): what `insert` and `set` do to a tree, for every tree.
- `Deletion` (`deletion.dfy`): `destroy`, the two halves of `remove` (detach the match,
  then reattach the orphans), and content preservation.
- `SearchPath` (`search_path.dfy`): the search-path invariant. It says every position
  lies in the slot the classifier chooses for it relative to each ancestor. The module
  covers what holds under the invariant, which operations keep it, and a tree on which
  `remove` breaks it.
- `JsValues` (`js_value.dfy`): stored values and the JavaScript `||` behind `get`.
- `PointQuadTrees` (`point_quad_tree.dfy`): the tree object as a class whose `root`
  field is rebound by `Set` and `Remove`.
- `Scenarios` (`scenarios.dfy`): the repository's removal scenario, for any number of
  iterations.
- `Wrappers` (`wrappers.dfy`) and `Multisets` (`multisets.dfy`): an `Option` type and
  small multiset algebra lemmas.

Nodes are values (`datatype Node`). The repository updates a node's value or slot in
place. Here that update builds the updated node, and `insert`/`destroy` return the new
subtree. The tree object is a `class` with one field, `root`. `Set` and `Remove` assign
it, and `Remove` re-inserts the orphans in a `while` loop.

Under the search-path invariant `get` finds exactly what is stored. `set` keeps the
invariant. `remove` keeps it when every orphan it reinserts is a single node, but not
in general.
`remove` reinserts an orphan together with all its descendants. Those descendants were
classified against the removed node, not against their new ancestors. So a stored entry
can become unreachable for `get` while `toArray` still lists it.
`SearchPath.RemoveCanHideEntry` proves this on the tree built by setting (10, 10),
(0, 20), (20, 5) and (30, -5). Content preservation (entries, positions and count) is
proved for every tree whose positions are distinct.

## Model

| member | source | states |
|---|---|---|
| Quadrants.GetQuadrant | src/PointQuadTree.js:18-24 | west iff child.x < parent.x; north iff child.y > parent.x; the label is latitude then longitude |
| Quadrants.Quadrant.Label | src/PointQuadTree.js:19-21 | a two-letter label: N or S, then W or E, matching the slot |
| Quadrants.DocumentedExample | src/PointQuadTree.js:15-16 | ({1,1}, {1,2}) classifies as "NE" |
| Quadrants.ClassifierIgnoresParentY | src/PointQuadTree.js:19-20 | the parent's y never changes the classification |
| Quadrants.IsSamePosition | src/PointQuadTree.js:26-28 | true iff both coordinates are equal |
| QuadNodes.Node.Child | src/PointQuadTree.js:39 | the slot named by the quadrant; an occupant is a strictly smaller subtree |
| QuadNodes.Node.WithChild | src/PointQuadTree.js:55-56 | assigning a slot (or deleting it, with `None`, as at line 86) changes that slot only; position, value and the other three slots are unchanged |
| QuadNodes.Leaf | src/PointQuadTree.js:96-99 | a new node has the given position and value and no children |
| QuadNodes.Retrieve | src/PointQuadTree.js:31-44 | a found node has exactly the requested position |
| QuadNodes.Lookup | src/PointQuadTree.js:133 | an empty tree (`root` falsy) finds nothing; a root at exactly `p` gives the root's value |
| QuadNodes.Insert | src/PointQuadTree.js:46-63 | the root of the tree keeps its position |
| QuadNodes.ChildNodes | src/PointQuadTree.js:65-69 | at most four children; empty iff the node is a leaf; the first is the first occupied slot in NW, NE, SW, SE order |
| QuadNodes.FirstChild | src/PointQuadTree.js:159-160 | the orphan `shift` promotes: nothing exactly when the node is a leaf, otherwise one of the four children |
| QuadNodes.FirstChildIsFirst | src/PointQuadTree.js:65-69 | an occupied slot whose earlier slots in NW, NE, SW, SE order are empty holds the first child |
| QuadNodes.Visits | src/PointQuadTree.js:175-186 | post-order: the last entry visited is the root's; an empty tree visits nothing |
| QuadNodes.RetrieveStored | src/PointQuadTree.js:31-44 | what retrieve finds is a stored entry of the tree |
| QuadNodes.RetrieveAbsent | src/PointQuadTree.js:31-44 | retrieve finds nothing for a position the tree does not hold |
| Insertion.InsertNewEntries | src/PointQuadTree.js:52-59 | with no match on the path, the inserted subtree's entries are added and none are lost |
| Insertion.InsertNewKeys | src/PointQuadTree.js:52-59 | with no match on the path, the inserted subtree's positions are added |
| Insertion.InsertNewFound | src/PointQuadTree.js:52-59 | with no match on the path, the attached node is then found at its position |
| Insertion.InsertExistingEntries | src/PointQuadTree.js:50-51 | with a match on the path, exactly the matched entry's value is replaced |
| Insertion.InsertExistingKeys | src/PointQuadTree.js:50-51 | with a match on the path, the positions are unchanged |
| Insertion.InsertExistingShape | src/PointQuadTree.js:50-51 | with a match on the path, the structure is unchanged |
| Insertion.InsertExistingFound | src/PointQuadTree.js:50-51 | with a match on the path, the matched node is found with the new value |
| Insertion.InsertLeafLookup | src/PointQuadTree.js:46-63 | after inserting a new node, its position maps to its value and every other position is unchanged |
| Insertion.InsertLeafCount | src/PointQuadTree.js:46-63 | inserting a new node adds one node for a new position and none on an overwrite |
| Insertion.VisitsLength | src/PointQuadTree.js:192-200 | the walk visits as many entries as there are nodes |
| Insertion.VisitsEntries | src/PointQuadTree.js:207-218 | the walk visits exactly the stored entries, each once |
| Insertion.EntriesCount | src/PointQuadTree.js:192-200 | the number of stored entries is the node count |
| Insertion.Put | src/PointQuadTree.js:114-126 | set gives a non-empty tree; on an empty tree the new node is the root; otherwise the root keeps its position |
| Insertion.PutLookup | src/PointQuadTree.js:114-126 | after set(p, v), lookup of p gives v and every other position is unchanged, for every tree |
| Insertion.PutCount | src/PointQuadTree.js:114-126 | set adds one entry for a new position and none on an overwrite |
| Deletion.Destroy | src/PointQuadTree.js:73-93 | the node keeps its position and value; with no orphans nothing changed |
| Deletion.Detach | src/PointQuadTree.js:144-153 | empty tree: nothing; a matching root is dropped and its children are the orphans; otherwise the root stays |
| Deletion.Reattach | src/PointQuadTree.js:155-165 | with no or zero orphans the root is unchanged; an existing root keeps its position; with no root the first orphan's position becomes the root's |
| Deletion.Reinserted | src/PointQuadTree.js:156-164 | the orphans that reach `forEach`: none without orphans, all of them under a surviving root, and otherwise all but the first, which was promoted |
| Deletion.RemoveFrom | src/PointQuadTree.js:144-168 | removing from an empty tree gives an empty tree; a non-matching root keeps its position; removing the root empties the tree exactly when the root is a leaf |
| Deletion.InsertAll | src/PointQuadTree.js:163-164 | reinserting orphans keeps the root's position |
| Deletion.ChildNodesEntries | src/PointQuadTree.js:65-69 | the children listed hold exactly the entries of the four slots |
| Deletion.ChildNodesKeys | src/PointQuadTree.js:65-69 | the children listed hold exactly the positions of the four slots |
| Deletion.NodeEntries | src/PointQuadTree.js:65-69 | a node holds its children's entries plus its own |
| Deletion.NodeKeys | src/PointQuadTree.js:65-69 | a node holds its children's positions plus its own |
| Deletion.ChildNodesAreChildren | src/PointQuadTree.js:65-69 | every listed child is the occupant of one of the four slots |
| Deletion.VisitsByChildNodes | src/PointQuadTree.js:176-183 | the walk visits each listed child's subtree in turn, then the node |
| Deletion.DestroyMissing | src/PointQuadTree.js:73-93 | when no node on the path matches, destroy changes nothing and returns no orphans |
| Deletion.DestroyFound | src/PointQuadTree.js:73-93 | the orphans are the matched node's children; the remaining tree, the orphans and the removed entry add up to the old tree |
| Deletion.DestroyFoundKeys | src/PointQuadTree.js:73-93 | the same accounting for positions |
| Deletion.InsertAllKeys | src/PointQuadTree.js:163-164 | reinserting orphans with distinct positions adds exactly their positions |
| Deletion.InsertAllEntries | src/PointQuadTree.js:163-164 | reinserting orphans with distinct positions adds exactly their entries |
| Deletion.ReattachContents | src/PointQuadTree.js:155-165 | promotion plus reinsertion keeps every entry and position of the remaining tree and of the orphans |
| Deletion.RemoveMissing | src/PointQuadTree.js:144-168 | removing a position lookup does not find (including from an empty tree) changes nothing |
| Deletion.DetachFound | src/PointQuadTree.js:144-153 | the remaining root, the orphans and the removed entry add up to the old tree |
| Deletion.RemoveFoundContents | src/PointQuadTree.js:144-168 | with distinct positions, what is left plus the removed entry is the old tree |
| Deletion.RemoveFound | src/PointQuadTree.js:144-168 | with distinct positions: entries lose exactly the removed one, positions lose p, the count drops by 1, positions stay distinct, p is no longer found |
| Deletion.RemoveRoot | src/PointQuadTree.js:148-161 | removing a leaf root empties the tree; otherwise the first occupied slot in NW, NE, SW, SE order becomes the root |
| SearchPath.SearchTreeNoDup | src/PointQuadTree.js:46-63 | under the search-path invariant no position is stored twice |
| SearchPath.StoredIsFound | src/PointQuadTree.js:31-44 | under the invariant every stored entry is what lookup returns |
| SearchPath.KeyIsFound | src/PointQuadTree.js:31-44 | under the invariant every stored position is found |
| SearchPath.SearchTreeLookup | src/PointQuadTree.js:31-44 | under the invariant, lookup of k gives v iff the entry (k, v) is stored |
| SearchPath.SearchTreeFinds | src/PointQuadTree.js:31-44 | under the invariant, lookup finds k iff k is stored |
| SearchPath.InsertLeafKeeps | src/PointQuadTree.js:46-63 | inserting a new node keeps the invariant |
| SearchPath.PutKeeps | src/PointQuadTree.js:114-126 | set keeps the invariant |
| SearchPath.DestroyTreeKeeps | src/PointQuadTree.js:73-93 | the tree destroy leaves keeps the invariant |
| SearchPath.DestroyOrphansKeep | src/PointQuadTree.js:73-93 | every orphan destroy returns satisfies the invariant |
| SearchPath.InsertAllLeavesKeep | src/PointQuadTree.js:163-164 | reinserting single nodes keeps the invariant |
| SearchPath.RemoveKeeps | src/PointQuadTree.js:144-168 | remove keeps the invariant when every reinserted orphan is a single node |
| SearchPath.RemoveLookup | src/PointQuadTree.js:144-168 | under that condition, after remove(p) p is not found and every other position is unchanged |
| SearchPath.HidingExampleShape | src/PointQuadTree.js:114-126 | setting (10,10), (0,20), (20,5), (30,-5) puts (30,-5) in the SE slot of (20,5) |
| SearchPath.HidingRemoval | src/PointQuadTree.js:144-168 | removing (10,10) from that tree promotes (0,20) and reinserts (20,5), with (30,-5) still below it, into the NE slot of (0,20); the walk then lists (30,-5) first, but lookup of (30,-5) finds nothing |
| SearchPath.RemoveCanHideEntry | src/PointQuadTree.js:144-168 | on that tree, which satisfies the invariant, removing (10,10) leaves (30,-5) in the walk, but lookup no longer finds it |
| JsValues.Or | src/PointQuadTree.js:134 | `a || b` is a when a is truthy and b otherwise |
| PointQuadTrees.ValueAt | src/PointQuadTree.js:132-137 | get is not undefined iff lookup finds a truthy value, and then it is that value |
| PointQuadTrees.GetAfterSet | src/PointQuadTree.js:114-137 | after set(p, v), get(p) is v when v is truthy and undefined when it is falsy; other positions are unchanged |
| PointQuadTrees.GetAbsent | src/PointQuadTree.js:132-137 | get is undefined for a position the tree does not hold, including on an empty tree |
| PointQuadTrees.GetAfterRemove | src/PointQuadTree.js:132-168 | with distinct positions, after remove(p) get(p) is undefined and the count drops by one exactly when p was found |
| PointQuadTrees.RemoveFromSearchTree | src/PointQuadTree.js:144-168 | under the invariant, remove takes away exactly the one copy of p if there is one |
| PointQuadTrees.PointQuadTree.constructor | src/PointQuadTree.js:104-107 | a new tree is empty |
| PointQuadTrees.PointQuadTree.Set | src/PointQuadTree.js:114-126 | returns true; the new root is set's result on the old root; the invariant is kept |
| PointQuadTrees.PointQuadTree.Get | src/PointQuadTree.js:132-137 | not undefined iff lookup on the current root finds a truthy value, and then it is that value |
| PointQuadTrees.PointQuadTree.Remove | src/PointQuadTree.js:144-168 | returns true; the new root is remove's result on the old root; under the invariant, exactly the one copy of p is gone |
| PointQuadTrees.PointQuadTree.Traverse | src/PointQuadTree.js:175-186 | visits every stored entry once, as many as there are nodes, the root last |
| PointQuadTrees.PointQuadTree.Size | src/PointQuadTree.js:192-200 | the counter ends at the node count, which is the number of visits |
| PointQuadTrees.PointQuadTree.ToArray | src/PointQuadTree.js:207-218 | the array is the walk: every stored entry once, as many as there are nodes |
| Scenarios.ChainExtends | test/test-PointQuadTree.js:139-147 | setting the next diagonal position extends the chain of NE slots at its end |
| Scenarios.ScenarioOne | test/test-PointQuadTree.js:136-147 | after (1,1) and (0,0) the root holds (0,0) in its SW slot |
| Scenarios.ScenarioShape | test/test-PointQuadTree.js:136-147 | with two or more iterations the root holds the diagonal chain NE and (0,0) SW |
| Scenarios.SetDiagonalFinds | test/test-PointQuadTree.js:139-147 | every diagonal position set is found with its value |
| Scenarios.SetDiagonalKeeps | test/test-PointQuadTree.js:136-147 | setting the diagonal leaves the lookup of other positions unchanged |
| Scenarios.SetDiagonalSearchTree | test/test-PointQuadTree.js:136-147 | setting the diagonal keeps the invariant |
| Scenarios.ScenarioHoldsFirst | test/test-PointQuadTree.js:136-147 | before the removal (1,1) is found with its value |
| Scenarios.ScenarioReinsertsLeaves | test/test-PointQuadTree.js:149 | removing (1,1) reinserts only single nodes |
| Scenarios.RemoveOnlyTheSpecified | test/test-PointQuadTree.js:149-155 | after removing (1,1), (1,1) is not found and every diagonal position keeps its value, for any number of iterations |
| Scenarios.GetAfterScenario | test/test-PointQuadTree.js:149-155 | the same through get, for a truthy value |

## Left out

- In-place mutation and aliasing: `insert` and `destroy` assign and delete node slots,
  and `root.value` is overwritten in place. Here they build updated node values.
- Position objects are shared with callers: `set` stores the caller's object by
  reference, and `traverse` and `toArray` hand it back out. A caller that mutates it
  afterwards moves a stored key without reclassifying it. Here positions are immutable
  values, which assumes callers never mutate a position after passing it to `set`.
- `insert`'s boolean result (always `true`) is never used by its callers, so `Insert`
  returns the updated subtree instead.
- Numbers: coordinates and numeric values are mathematical integers. Floating point,
  `NaN`, `-0` and the strict equality of doubles in `isSamePosition` are not modelled.
- JavaScript truthiness is modelled on the value kinds of `JsValues.Value` only. Its
  falsy values are `undefined`, `null`, `false`, `0` and `""`; `NaN`, `-0` and `0n` are
  not modelled.
- Positions are records of two integers, with no further properties. A position object
  with extra fields or missing coordinates is not modelled.
- The callback dispatch of `traverse` (`fn.call(self, position, value)`) is not
  modelled. `Traverse` returns the sequence of (position, value) pairs the callback
  would receive, in order; `Size` and `ToArray` loop over that sequence.
- The "set undefined removes" fixme in `set` is not behaviour of the code and is not
  modelled.
- The AMD `define` wrapper, `buster.js` and the test files are not part of this model,
  except that the removal scenario of `test/test-PointQuadTree.js` is restated as lemmas.
  `lib/index.js` is not part of this model.
- SearchPath.RemoveLookup: retrievability after `remove` is proved only when every
  orphan that is reinserted is a single node. In general it does not hold
  (`SearchPath.RemoveCanHideEntry`), so no unconditional version is stated.
- PointQuadTrees.PointQuadTree.Remove: the class keeps no invariant across calls. A
  later `remove` can break the search-path invariant, so `Set` and `Remove` state it
  only conditionally.
