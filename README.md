# Hole joining, quadtree nodes and collection bookkeeping of JTS, in Dafny

This project models a handful of sequential, data-structure-heavy pieces of the
JTS Topology Suite and proves what they compute.

- **The polygon hole joiner** (`PolygonHoleJoiner`, module `PolygonHoleJoiner`)
  turns a polygon with holes into a single self-touching ring. It keeps a
  working list of ring coordinates (`shellCoords`), a sorted set of the same
  coordinates (`shellCoordsSorted`, a `TreeSet`) and a cut map from each cut
  end to the other ends cut there. The holes are taken in envelope order. For
  each hole it picks the leftmost hole vertices, walks the sorted set to a
  shell vertex whose join does not cross the polygon boundary, breaks ties by
  the smallest vertical distance, locates the right occurrence of that shell
  vertex by skip counting, and splices the rotated hole in front of it. The
  model is a class with the three fields; its methods are proved against
  specification functions and predicates (`Section`, `Splice`, `RecordCut`,
  `NearCount`, `IsJoinChoice`, `Joined`, `JoinChain`), and lemmas prove what
  the final ring contains.
- **Quadtree nodes** (`NodeBase`, module `Quadtree`): quadrant selection,
  `add`, `remove` with pruning of emptied subtrees, and the recursive
  `hasChildren` / `isPrunable` / `isEmpty` / `depth` / `size` /
  `addAllItems` queries. A `QuadNode` class holds the item list and the
  four-slot subnode array; a ghost value model `QTree` of the subtree
  specifies each method.
- **The node map of a topology graph** (`geomgraph.NodeMap`, module
  `NodeMapping`): a coordinate-keyed sorted map with get-or-create insertion,
  label merging and the boundary-node query.
- **A two-level map** (`jtstest DoubleKeyMap`, module `DoubleKeyMaps`).
- **Line slicing** (`LineHandlingFunctions.extractSegments` / `extractChains`
  / `extractChain`, module `LineHandling`): cutting point sequences into
  two-point segments and into overlapping chains of at most `maxChainSize`
  segments.
- **Aggregation over the children of a `GeometryCollection`** (module
  `GeometryCollections`): construction, emptiness, point counts, coordinate
  concatenation, maximum dimension, element-wise exact equality, lexicographic
  comparison, copying and reversal.

Shared pieces: `Wrappers` (`Option`, `Result`), `Coords` (2D coordinates
over reals, their lexicographic order, the tolerance equality, envelopes and
their comparison) and `CoordTreeSet` (a `TreeSet<Coordinate>` as a strictly
sorted sequence with `higher`, `lower`, `first`, `add` and `addAll`).

Coordinates are two-dimensional, so value equality of `Coord` is exact
`equals2D`. `Coordinate.equals2D(c, tolerance)` is modelled as both
coordinate differences being at most the tolerance. `Envelope.compareTo`
(not part of this model) is modelled as: the null envelope first, then by
minX, minY, maxX, maxY. Where the Java code throws (a `null` returned from
`higher` or `lower`, `get(0)` on an empty list, the
`IllegalStateException` of the skip lookup, the `IllegalArgumentException`
of a null child), the model returns a `Failure` instead of requiring that
the case cannot happen.

In `getShellCoordIndex` the code records a new cut as
`shellVertex -> [..., holeVertex]` and, when the hole vertex has no entry yet,
`holeVertex -> [holeVertex]` (the hole vertex's list is a copy of the list
holding only the hole vertex itself, not a back-reference to the shell vertex).
The model follows the code (`RecordCut`).

## Model

| member | source | states |
|---|---|---|
| Coords.LessIsStrictTotalOrder | modules/core/src/main/java/org/locationtech/jts/triangulate/polygon/PolygonHoleJoiner.java:59 | the lexicographic (x, y) order used by the sorted set is irreflexive, asymmetric, transitive and total |
| Coords.EnvelopeOf | modules/core/src/main/java/org/locationtech/jts/triangulate/polygon/PolygonHoleJoiner.java:322 | the envelope of a ring is null exactly for no points; otherwise it bounds every point and each of its minX, minY, maxX and maxY is the ordinate of some point |
| Coords.CompareEnvelopes | modules/core/src/main/java/org/locationtech/jts/triangulate/polygon/PolygonHoleJoiner.java:342-349 | the envelope comparator returns -1, 0 or 1, and 0 exactly for equal envelopes |
| Coords.CompareEnvelopesIsTotalOrder | modules/core/src/main/java/org/locationtech/jts/triangulate/polygon/PolygonHoleJoiner.java:342-349 | the envelope comparator is antisymmetric and transitive, so sorting by it is well defined |
| CoordTreeSet.Higher | modules/core/src/main/java/org/locationtech/jts/triangulate/polygon/PolygonHoleJoiner.java:196-198 | TreeSet.higher: None iff no element is above c; otherwise the least element strictly above c |
| CoordTreeSet.Lower | modules/core/src/main/java/org/locationtech/jts/triangulate/polygon/PolygonHoleJoiner.java:201-210 | TreeSet.lower: None iff no element is below c; otherwise the greatest element strictly below c |
| CoordTreeSet.First | modules/core/src/main/java/org/locationtech/jts/triangulate/polygon/PolygonHoleJoiner.java:202 | TreeSet.first: a member that is below every other member |
| CoordTreeSet.HigherAt | modules/core/src/main/java/org/locationtech/jts/triangulate/polygon/PolygonHoleJoiner.java:196-198 | in the sorted set, higher of the k-th element is the (k+1)-th, or null at the top |
| CoordTreeSet.LowerAt | modules/core/src/main/java/org/locationtech/jts/triangulate/polygon/PolygonHoleJoiner.java:201-210 | in the sorted set, lower of the k-th element is the (k-1)-th, or null at the bottom |
| CoordTreeSet.Insert | modules/core/src/main/java/org/locationtech/jts/triangulate/polygon/PolygonHoleJoiner.java:295 | adding a coordinate keeps the set sorted, adds exactly that coordinate, and grows the set only when it was absent (duplicates collapse) |
| CoordTreeSet.AddAll | modules/core/src/main/java/org/locationtech/jts/triangulate/polygon/PolygonHoleJoiner.java:295 | addAll keeps the set sorted and its members are exactly the old members and the added coordinates |
| PolygonHoleJoiner.FindLeftVertices | modules/core/src/main/java/org/locationtech/jts/triangulate/polygon/PolygonHoleJoiner.java:319-330 | the returned indices are strictly increasing and are exactly the i below length-1 (closing vertex excluded) with \|x_i - minX\| < EPS |
| PolygonHoleJoiner.ClosedRingHasLeftVertex | modules/core/src/main/java/org/locationtech/jts/triangulate/polygon/PolygonHoleJoiner.java:319-330 | a closed ring of at least two points always has a leftmost vertex, so for a valid hole the index list is non-empty |
| PolygonHoleJoiner.ClosestPair | modules/core/src/main/java/org/locationtech/jts/triangulate/polygon/PolygonHoleJoiner.java:121-135 | the chosen (hole index, shell coordinate) pair minimises \|shell.y - hole.y\| over all candidate pairs, and every pair met earlier in the nested loop is strictly farther, so the first minimum wins ties |
| PolygonHoleJoiner.ClosestPairUnique | modules/core/src/main/java/org/locationtech/jts/triangulate/polygon/PolygonHoleJoiner.java:121-135 | two pairs that both meet the closest-pair conditions are the same pair: the tie-break leaves no choice |
| PolygonHoleJoiner.RecordCut | modules/core/src/main/java/org/locationtech/jts/triangulate/polygon/PolygonHoleJoiner.java:148-164 | after a cut the shell vertex's partner list is the old list plus the hole vertex, the hole vertex gets [holeVertex] only when absent, and no other key changes or appears |
| PolygonHoleJoiner.RecordCutGrows | modules/core/src/main/java/org/locationtech/jts/triangulate/polygon/PolygonHoleJoiner.java:148-164 | recording a cut never loses a key nor an entry of any partner list (each old list is a prefix of the new one) |
| PolygonHoleJoiner.NearCountPrefix | modules/core/src/main/java/org/locationtech/jts/triangulate/polygon/PolygonHoleJoiner.java:175-184 | a prefix of the working ring has no more EPS-matches of a coordinate than the whole ring |
| PolygonHoleJoiner.SkipMatchUnique | modules/core/src/main/java/org/locationtech/jts/triangulate/polygon/PolygonHoleJoiner.java:175-184 | the index of the (k+1)-th EPS-match is unique |
| PolygonHoleJoiner.RotationIsPermutation | modules/core/src/main/java/org/locationtech/jts/triangulate/polygon/PolygonHoleJoiner.java:284-289 | the cyclic walk from the hole join index visits hole[h..n) then hole[..h), a permutation of the open hole ring, so each hole vertex appears once |
| PolygonHoleJoiner.NewSection | modules/core/src/main/java/org/locationtech/jts/triangulate/polygon/PolygonHoleJoiner.java:274-292 | the do-while walk with i = (i+1) mod nPts builds exactly the section: shell point (unless touching), the rotated hole vertices, and the hole join point again (unless touching) |
| PolygonHoleJoiner.SectionShape | modules/core/src/main/java/org/locationtech/jts/triangulate/polygon/PolygonHoleJoiner.java:277-292 | the section has nPts points for a touching join and nPts+2 otherwise, starts with the shell join point, ends with the hole join point for a non-touching join and with the hole vertex before h (cyclically, over the open ring) for a touching one, and holds exactly the shell point and the hole's vertices |
| PolygonHoleJoiner.SpliceKeepsShell | modules/core/src/main/java/org/locationtech/jts/triangulate/polygon/PolygonHoleJoiner.java:294 | the splice keeps old[0..j), then the section, then old[j..): the section goes in before the located occurrence |
| PolygonHoleJoiner.SpliceMembers | modules/core/src/main/java/org/locationtech/jts/triangulate/polygon/PolygonHoleJoiner.java:294-295 | the spliced ring's coordinates are exactly the old ring's and the section's |
| PolygonHoleJoiner.JoinChainExtend | modules/core/src/main/java/org/locationtech/jts/triangulate/polygon/PolygonHoleJoiner.java:92-100 | one more join at a recorded cut (ring index, leftmost hole vertex) extends a chain of joins ring by ring, hole by hole |
| PolygonHoleJoiner.JoinedLength | modules/core/src/main/java/org/locationtech/jts/triangulate/polygon/PolygonHoleJoiner.java:273-296 | a join at ring index j from hole vertex h grows the ring by nPts = \|hole\| - 1 points when the ring vertex at j equals the hole vertex (a touching join) and by nPts + 2 otherwise |
| PolygonHoleJoiner.JoinedVertices | modules/core/src/main/java/org/locationtech/jts/triangulate/polygon/PolygonHoleJoiner.java:273-296 | after a join the ring's coordinates are exactly the old ring's and the hole's vertices |
| PolygonHoleJoiner.InSomeHoleSnoc | modules/core/src/main/java/org/locationtech/jts/triangulate/polygon/PolygonHoleJoiner.java:97-99 | a coordinate is in one of the first k+1 holes iff it is in one of the first k or in hole k |
| PolygonHoleJoiner.HistoryStep | modules/core/src/main/java/org/locationtech/jts/triangulate/polygon/PolygonHoleJoiner.java:97-99 | one join step preserves "ring = shell vertices plus the vertices of the holes joined so far" |
| PolygonHoleJoiner.HistoryVertices | modules/core/src/main/java/org/locationtech/jts/triangulate/polygon/PolygonHoleJoiner.java:76-100 | after a chain of joins the final ring holds exactly the shell's coordinates and the vertices of every joined hole |
| PolygonHoleJoiner.SnocSortedByEnvelope | modules/core/src/main/java/org/locationtech/jts/triangulate/polygon/PolygonHoleJoiner.java:304-311 | appending a hole that is not below any sorted hole keeps the list sorted by envelope |
| PolygonHoleJoiner.PrecedesLast | modules/core/src/main/java/org/locationtech/jts/triangulate/polygon/PolygonHoleJoiner.java:304-311 | in an envelope-sorted list every hole precedes a hole that follows the last |
| PolygonHoleJoiner.InsertByEnvelope | modules/core/src/main/java/org/locationtech/jts/triangulate/polygon/PolygonHoleJoiner.java:309 | inserting a hole into an envelope-sorted list keeps it sorted and adds exactly that hole |
| PolygonHoleJoiner.SortHoles | modules/core/src/main/java/org/locationtech/jts/triangulate/polygon/PolygonHoleJoiner.java:304-311 | the holes come back sorted by the envelope comparator and as a permutation of the input holes |
| PolygonHoleJoiner.DescendingRun | modules/core/src/main/java/org/locationtech/jts/triangulate/polygon/PolygonHoleJoiner.java:206-213 | the vertices collected while stepping down with lower are strictly descending, share the chosen x, and include every set member of that x not above the start |
| PolygonHoleJoiner.PastSameX | modules/core/src/main/java/org/locationtech/jts/triangulate/polygon/PolygonHoleJoiner.java:196-199 | the walk up with higher past every shell vertex of the hole vertex's x fails (null) iff no set member has a greater x; otherwise it stops at the first member with greater x |
| PolygonHoleJoiner.DownToJoinable | modules/core/src/main/java/org/locationtech/jts/triangulate/polygon/PolygonHoleJoiner.java:200-202 | the do-while walk down with lower fails iff it starts at the least member; otherwise it stops at the first member below the start whose join does not cross the boundary, or at the first member, and every member stepped over crosses |
| PolygonHoleJoiner.SameXRun | modules/core/src/main/java/org/locationtech/jts/triangulate/polygon/PolygonHoleJoiner.java:206-214 | the final list starts at the chosen vertex, is strictly descending, shares its x and holds every member of that x not above it |
| PolygonHoleJoiner.HoleJoiner.constructor | modules/core/src/main/java/org/locationtech/jts/triangulate/polygon/PolygonHoleJoiner.java:66-69 | keeps the polygon's shell, holes and crossing test; the working ring, the sorted set and the cut map start empty |
| PolygonHoleJoiner.HoleJoiner.FindLeftShellVertices | modules/core/src/main/java/org/locationtech/jts/triangulate/polygon/PolygonHoleJoiner.java:194-215 | fails (null dereference) iff every shell vertex has x <= the hole vertex's x or every one has greater x; otherwise the list is non-empty, its head is a set member with x at most the hole vertex's x whose join does not cross (or the least member), every member stepped over crosses, the list is a singleton when the head's x differs, and otherwise holds exactly the same-x members not above the head in descending order |
| PolygonHoleJoiner.LeftShellListUnique | modules/core/src/main/java/org/locationtech/jts/triangulate/polygon/PolygonHoleJoiner.java:194-215 | the candidate list is determined by the sorted set, the crossing test and the hole vertex: two lists that both meet the postcondition of findLeftShellVertices are equal |
| PolygonHoleJoiner.HoleJoiner.GetShellCoordIndexSkip | modules/core/src/main/java/org/locationtech/jts/triangulate/polygon/PolygonHoleJoiner.java:175-184 | returns the index of the (numSkip+1)-th entry of the working ring equal to coord within EPS, and fails with IllegalState iff there are at most numSkip such entries |
| PolygonHoleJoiner.HoleJoiner.GetShellCoordIndex | modules/core/src/main/java/org/locationtech/jts/triangulate/polygon/PolygonHoleJoiner.java:148-166 | the skip count is the number of recorded partners of the shell vertex below the hole vertex's y, the cut map becomes RecordCut of the old one, and the index is the matching skip lookup |
| PolygonHoleJoiner.HoleJoiner.AddHoleToShell | modules/core/src/main/java/org/locationtech/jts/triangulate/polygon/PolygonHoleJoiner.java:273-296 | the working ring becomes the splice of the section at the shell join index, and the sorted set gains the section's coordinates, keeping set = ring coordinates |
| PolygonHoleJoiner.HoleJoiner.JoinHole | modules/core/src/main/java/org/locationtech/jts/triangulate/polygon/PolygonHoleJoiner.java:107-139 | the ghost outputs are the leftmost hole vertices (exactly those, ascending) and the shell candidates for the first of them. It fails with IndexOutOfBounds iff there is no leftmost vertex, and with NullPointer iff the sorted set has no candidate. Otherwise the pair (left[hi], shellList[sj]) is the join choice of ChooseJoinPair and the cut map gets that cut recorded (RecordCut). It fails with IllegalState iff the ring has no more EPS-matches of the shell vertex than the recorded partners below the hole vertex. On success the ring is spliced at exactly the skip-th match with the section from the chosen hole vertex. A failure leaves ring and set unchanged, and the cut map too before the cut lookup; set = ring coordinates is kept |
| PolygonHoleJoiner.HoleJoiner.ChooseJoinPair | modules/core/src/main/java/org/locationtech/jts/triangulate/polygon/PolygonHoleJoiner.java:118-133 | fails with a null dereference iff the sorted set has no candidate for the first leftmost vertex; otherwise the chosen (position in the leftmost list, shell vertex) is the closest pair when the first candidate lies within EPS in x of that vertex, and else the first leftmost vertex with the first candidate |
| PolygonHoleJoiner.HoleJoiner.JoinHoles | modules/core/src/main/java/org/locationtech/jts/triangulate/polygon/PolygonHoleJoiner.java:92-100 | the holes are taken in envelope-sorted order (a permutation of the holes); on success each is joined once, at a recorded cut (ring index, leftmost hole vertex), ring by ring; on failure the holes before the failing one are joined that way, the ring is the one the failing step started from, and the error is that step's: IndexOutOfBounds iff the hole has no leftmost vertex, else NullPointer iff no shell list exists for its first leftmost vertex, else IllegalState; set = ring coordinates throughout |
| PolygonHoleJoiner.HoleJoiner.Compute | modules/core/src/main/java/org/locationtech/jts/triangulate/polygon/PolygonHoleJoiner.java:76-83 | with no holes the result is exactly the shell's coordinates; otherwise each hole is joined once in envelope order at a recorded cut, starting from the shell and ending at the result; a failure comes only with holes and is the error of the first failing join step, after the holes before it were joined |
| Quadtree.SubnodeIndex | modules/core/src/main/java/org/locationtech/jts/index/quadtree/NodeBase.java:39-51 | the result is in {-1,0,1,2,3}; each quadrant implies its containment guards; -1 iff none of the four guards holds |
| Quadtree.SubnodeIndexPriority | modules/core/src/main/java/org/locationtech/jts/index/quadtree/NodeBase.java:39-51 | when several guards hold the later assignment wins: 0 whenever its guard holds, otherwise 2 or 1 over 3 |
| Quadtree.RemoveFirst | modules/core/src/main/java/org/locationtech/jts/index/quadtree/NodeBase.java:107 | List.remove(item), when the item is present, drops one occurrence: one copy fewer in the multiset and a length one smaller; otherwise it changes nothing |
| Quadtree.FirstIndex | modules/core/src/main/java/org/locationtech/jts/index/quadtree/NodeBase.java:107 | the position of the item's first occurrence: the item is there and not before it |
| Quadtree.RemoveFirstAtFirstIndex | modules/core/src/main/java/org/locationtech/jts/index/quadtree/NodeBase.java:107 | the occurrence List.remove(item) drops is the first: the result is the list before the first occurrence followed by the list after it, in order |
| Quadtree.ItemsCountIsSize | modules/core/src/main/java/org/locationtech/jts/index/quadtree/NodeBase.java:144-155 | addAllItems contributes exactly size() items |
| Quadtree.EmptyIffSizeZero | modules/core/src/main/java/org/locationtech/jts/index/quadtree/NodeBase.java:125-140 | a subtree is empty iff its size is 0 iff it yields no items |
| Quadtree.PrunableIsEmpty | modules/core/src/main/java/org/locationtech/jts/index/quadtree/NodeBase.java:111-140 | a prunable node is empty, of size 0, with no items |
| Quadtree.SlotsDepthIsMax | modules/core/src/main/java/org/locationtech/jts/index/quadtree/NodeBase.java:202-213 | the depth loop's running value is the maximum child depth, 0 iff no child is present |
| Quadtree.DepthIsOneMoreThanDeepest | modules/core/src/main/java/org/locationtech/jts/index/quadtree/NodeBase.java:202-213 | depth is 1 without children and 1 + the maximum child depth otherwise |
| Quadtree.RemoveTakesOne | modules/core/src/main/java/org/locationtech/jts/index/quadtree/NodeBase.java:86-109 | a successful remove takes exactly one occurrence of the item out of the subtree's items |
| Quadtree.RemoveKeepsNode | modules/core/src/main/java/org/locationtech/jts/index/quadtree/NodeBase.java:86-109 | a successful remove (TreeRemove) found a matching search envelope and keeps the node's test and four slots; the node's own items are either kept (a subnode removed the item) or lose its first occurrence (List.remove) |
| Quadtree.RemoveFromSlotsTakesOne | modules/core/src/main/java/org/locationtech/jts/index/quadtree/NodeBase.java:93-103 | a successful removal from the children takes exactly one occurrence out of the children's items and keeps four slots |
| Quadtree.RemoveShrinksByOne | modules/core/src/main/java/org/locationtech/jts/index/quadtree/NodeBase.java:86-109 | a successful remove drops the size by exactly one; remove fails when the search envelope does not match or the item is absent |
| Quadtree.SlotsEmptyStays | modules/core/src/main/java/org/locationtech/jts/index/quadtree/NodeBase.java:130-137 | once a non-empty child is met the emptiness loop's answer stays false |
| Quadtree.SlotsEmptyMonotone | modules/core/src/main/java/org/locationtech/jts/index/quadtree/NodeBase.java:130-137 | emptiness of the first n slots implies emptiness of every shorter prefix |
| Quadtree.QuadNode.constructor | modules/core/src/main/java/org/locationtech/jts/index/quadtree/NodeBase.java:53-66 | a new node has no items and four null subnodes |
| Quadtree.QuadNode.SetSubnode | modules/core/src/main/java/org/locationtech/jts/index/quadtree/NodeBase.java:63 | fills one subnode slot and nothing else |
| Quadtree.QuadNode.Add | modules/core/src/main/java/org/locationtech/jts/index/quadtree/NodeBase.java:72-77 | appends the item to this node's items and changes nothing else |
| Quadtree.QuadNode.HasChildren | modules/core/src/main/java/org/locationtech/jts/index/quadtree/NodeBase.java:116-123 | true iff some subnode slot is non-null |
| Quadtree.QuadNode.IsPrunable | modules/core/src/main/java/org/locationtech/jts/index/quadtree/NodeBase.java:111-114 | true iff no slot is non-null and the item list is empty |
| Quadtree.QuadNode.IsEmpty | modules/core/src/main/java/org/locationtech/jts/index/quadtree/NodeBase.java:125-140 | true iff there are no items and every non-null child subtree is empty |
| Quadtree.QuadNode.AddAllItems | modules/core/src/main/java/org/locationtech/jts/index/quadtree/NodeBase.java:144-155 | returns the given list followed by this node's items, then each child's items in slot order |
| Quadtree.QuadNode.Depth | modules/core/src/main/java/org/locationtech/jts/index/quadtree/NodeBase.java:202-213 | returns the subtree depth: 1 + the maximum child depth |
| Quadtree.QuadNode.Size | modules/core/src/main/java/org/locationtech/jts/index/quadtree/NodeBase.java:215-224 | returns this node's items plus the sum of the child subtree sizes |
| Quadtree.QuadNode.Remove | modules/core/src/main/java/org/locationtech/jts/index/quadtree/NodeBase.java:86-109 | returns whether the item was removed; on success the subtree becomes the model removal (children in slot order 0..3 first, first success wins, an emptied child pruned, else this node's items); on failure nothing changes |
| Quadtree.QuadNode.RemoveFromSubnode | modules/core/src/main/java/org/locationtech/jts/index/quadtree/NodeBase.java:94-101 | removing from one child changes only that slot: to the child's removal, or to null when the child became prunable |
| Quadtree.QuadNode.PruneSubnode | modules/core/src/main/java/org/locationtech/jts/index/quadtree/NodeBase.java:98-99 | a child slot is set to null exactly when its subtree is prunable |
| NodeMapping.GraphNode.Add | modules/core/src/main/java/org/locationtech/jts/geomgraph/NodeMap.java:86 | the edge end is added to the node; the node's label does not change |
| NodeMapping.NodeMap.constructor | modules/core/src/main/java/org/locationtech/jts/geomgraph/NodeMap.java:33-38 | a new map is empty |
| NodeMapping.NodeMap.AddNode | modules/core/src/main/java/org/locationtech/jts/geomgraph/NodeMap.java:54-62 | returns the existing node and leaves the map unchanged when the coordinate is present; otherwise creates exactly one fresh factory node and inserts it; afterwards lookup of the coordinate gives the returned node |
| NodeMapping.NodeMap.AddNodeObject | modules/core/src/main/java/org/locationtech/jts/geomgraph/NodeMap.java:64-73 | when the coordinate is absent inserts and returns n; otherwise returns the existing node, not replaced, with n's label merged into it |
| NodeMapping.NodeMap.Add | modules/core/src/main/java/org/locationtech/jts/geomgraph/NodeMap.java:82-87 | exactly one node exists at the edge end's coordinate afterwards (the old one or a fresh one) and the edge end is appended to it |
| NodeMapping.NodeMap.Find | modules/core/src/main/java/org/locationtech/jts/geomgraph/NodeMap.java:94 | returns a node iff the coordinate was added, and then the node stored at it |
| NodeMapping.NodeMap.Values | modules/core/src/main/java/org/locationtech/jts/geomgraph/NodeMap.java:96-103 | the nodes in key order, one per key |
| NodeMapping.NodeMap.GetBoundaryNodes | modules/core/src/main/java/org/locationtech/jts/geomgraph/NodeMap.java:105-114 | returns, in key order, exactly the nodes whose label location for the geometry index is BOUNDARY |
| NodeMapping.NodeMap.BoundaryNodesMembers | modules/core/src/main/java/org/locationtech/jts/geomgraph/NodeMap.java:105-114 | a node is in the boundary walk's result iff it is stored at one of the keys and lies on the boundary |
| DoubleKeyMaps.GetAfterPut | modules/app/src/main/java/org/locationtech/jtstest/function/DoubleKeyMap.java:25-45 | get returns v right after put(k1, k2, v), and k1 is then a first-level key |
| DoubleKeyMaps.PutKeepsOthers | modules/app/src/main/java/org/locationtech/jtstest/function/DoubleKeyMap.java:25-38 | put leaves every other key pair's value unchanged, including other second keys under the same first key |
| DoubleKeyMaps.PutKeySet | modules/app/src/main/java/org/locationtech/jtstest/function/DoubleKeyMap.java:25-56 | put adds k1 to keySet() and k2 to keySet(k1), and nothing else |
| DoubleKeyMaps.DoubleKeyMap.constructor | modules/app/src/main/java/org/locationtech/jtstest/function/DoubleKeyMap.java:23 | a new map is empty |
| DoubleKeyMaps.DoubleKeyMap.CreateKeyMap | modules/app/src/main/java/org/locationtech/jtstest/function/DoubleKeyMap.java:33-38 | registers an empty inner map for the key and returns it |
| DoubleKeyMaps.DoubleKeyMap.Put | modules/app/src/main/java/org/locationtech/jtstest/function/DoubleKeyMap.java:25-31 | the map becomes the old map with the value stored under the key pair, the inner map created when missing |
| DoubleKeyMaps.DoubleKeyMap.Get | modules/app/src/main/java/org/locationtech/jtstest/function/DoubleKeyMap.java:40-45 | returns the entry under the key pair, None when either key is absent |
| DoubleKeyMaps.DoubleKeyMap.KeySet | modules/app/src/main/java/org/locationtech/jtstest/function/DoubleKeyMap.java:47-50 | exactly the first-level keys |
| DoubleKeyMaps.DoubleKeyMap.KeySetOf | modules/app/src/main/java/org/locationtech/jtstest/function/DoubleKeyMap.java:51-56 | exactly the second-level keys under the key, empty when the key is absent |
| DoubleKeyMaps.DoubleKeyMap.Values | modules/app/src/main/java/org/locationtech/jtstest/function/DoubleKeyMap.java:58-63 | empty when the key is absent; otherwise one value per second-level key, each the value stored under that key |
| LineHandling.SegmentsAt | modules/app/src/main/java/org/locationtech/jtstest/function/LineHandlingFunctions.java:46-59 | a line of n points has n-1 segments (none for fewer than two points) and segment k joins points k and k+1 |
| LineHandling.SegmentsSplit | modules/app/src/main/java/org/locationtech/jtstest/function/LineHandlingFunctions.java:46-59 | cutting a line at a point splits its segments into those before and those after |
| LineHandling.Chain | modules/app/src/main/java/org/locationtech/jtstest/function/LineHandlingFunctions.java:73-83 | the chain has min(m+1, n-index) points and they are exactly line[index..index+size) |
| LineHandling.ChainsFromAt | modules/app/src/main/java/org/locationtech/jtstest/function/LineHandlingFunctions.java:65-66 | chain j starts at index + j*m, which is below n-1 |
| LineHandling.ChainsFromCount | modules/app/src/main/java/org/locationtech/jtstest/function/LineHandlingFunctions.java:65-66 | every start index + j*m below n-1 begins a chain |
| LineHandling.ChainStarts | modules/app/src/main/java/org/locationtech/jtstest/function/LineHandlingFunctions.java:60-77 | chains start exactly at 0, m, 2m, ... below n-1, and chain j has min(m+1, n-jm) points, the slice of the line from jm |
| LineHandling.ChainsLink | modules/app/src/main/java/org/locationtech/jtstest/function/LineHandlingFunctions.java:65-81 | every chain but the last has m+1 points and its last point is the next chain's first point |
| LineHandling.ChainsFromCover | modules/app/src/main/java/org/locationtech/jtstest/function/LineHandlingFunctions.java:65-81 | the segments of the chains from an index are the segments of the line from that index, each once and in order |
| LineHandling.ChainsCover | modules/app/src/main/java/org/locationtech/jtstest/function/LineHandlingFunctions.java:60-71 | the chains together cover every segment of the line exactly once, in order |
| LineHandling.ExtractSegments | modules/app/src/main/java/org/locationtech/jtstest/function/LineHandlingFunctions.java:46-58 | the result is the segments of every line in turn |
| LineHandling.ExtractChain | modules/app/src/main/java/org/locationtech/jtstest/function/LineHandlingFunctions.java:73-83 | the filled array is the chain of the line at the index |
| LineHandling.ExtractChains | modules/app/src/main/java/org/locationtech/jtstest/function/LineHandlingFunctions.java:60-71 | the result is the chains of every line in turn, starting every m points |
| GeometryCollections.Create | modules/core/src/main/java/org/locationtech/jts/geom/GeometryCollection.java:48-57 | a null array gives the empty collection; the construction fails with IllegalArgument iff some element is null; otherwise the collection holds the elements in order |
| GeometryCollections.CoordinatesCount | modules/core/src/main/java/org/locationtech/jts/geom/GeometryCollection.java:73-84 | for consistent children the concatenated coordinates number getNumPoints |
| GeometryCollections.CoordinatesPrefix | modules/core/src/main/java/org/locationtech/jts/geom/GeometryCollection.java:73-84 | the coordinates of a prefix of the children are no more than those of all children |
| GeometryCollections.MaxDimensionIsMax | modules/core/src/main/java/org/locationtech/jts/geom/GeometryCollection.java:95-101 | the dimension is at least FALSE, no smaller than any child's dimension, and FALSE or attained by some child |
| GeometryCollections.IsEmpty | modules/core/src/main/java/org/locationtech/jts/geom/GeometryCollection.java:86-93 | true iff every child is empty (vacuously for no children) |
| GeometryCollections.GetCoordinate | modules/core/src/main/java/org/locationtech/jts/geom/GeometryCollection.java:59-62 | None when every child is empty, otherwise the first child's coordinate |
| GeometryCollections.GetNumPoints | modules/core/src/main/java/org/locationtech/jts/geom/GeometryCollection.java:119-125 | the sum of the children's point counts |
| GeometryCollections.GetCoordinates | modules/core/src/main/java/org/locationtech/jts/geom/GeometryCollection.java:73-84 | the array filled with the running index k is the in-order concatenation of the children's coordinates, of length getNumPoints |
| GeometryCollections.AppendAt | modules/core/src/main/java/org/locationtech/jts/geom/GeometryCollection.java:78-81 | writes a child's coordinates in order starting just after index k, advances k by their count, and leaves the array before and after them unchanged |
| GeometryCollections.GetDimension | modules/core/src/main/java/org/locationtech/jts/geom/GeometryCollection.java:95-101 | the maximum child dimension, FALSE for no children |
| GeometryCollections.EqualsExact | modules/core/src/main/java/org/locationtech/jts/geom/GeometryCollection.java:160-174 | true iff the other geometry is a collection with as many children and every index pair is equalsExact |
| GeometryCollections.PairwiseEqualSymmetric | modules/core/src/main/java/org/locationtech/jts/geom/GeometryCollection.java:160-174 | collection equality is symmetric when child equality is |
| GeometryCollections.LexAntisymmetric | modules/core/src/main/java/org/locationtech/jts/geom/GeometryCollection.java:249-266 | the comparison is antisymmetric in sign when the child comparison is |
| GeometryCollections.LexReflexive | modules/core/src/main/java/org/locationtech/jts/geom/GeometryCollection.java:249-266 | a collection compares equal to itself when each child does |
| GeometryCollections.LexCommonPrefix | modules/core/src/main/java/org/locationtech/jts/geom/GeometryCollection.java:249-266 | after a common prefix of equal children the comparison continues on the rest; a proper prefix compares -1, a longer collection 1, equal sequences 0 |
| GeometryCollections.CompareToSameClass | modules/core/src/main/java/org/locationtech/jts/geom/GeometryCollection.java:249-266 | the while loop returns the lexicographic comparison: the first non-zero child comparison, else by length |
| GeometryCollections.CopyInternal | modules/core/src/main/java/org/locationtech/jts/geom/GeometryCollection.java:220-226 | same number of children, in order, each replaced by its copy |
| GeometryCollections.ReverseInternal | modules/core/src/main/java/org/locationtech/jts/geom/GeometryCollection.java:283-290 | same number of children, in order (not reversed), each replaced by its reverse |
| GeometryCollections.MapInto | modules/core/src/main/java/org/locationtech/jts/geom/GeometryCollection.java:221-225 | the array fill produces the child-wise map |
| GeometryCollections.ReverseTwice | modules/core/src/main/java/org/locationtech/jts/geom/GeometryCollection.java:272-290 | reversing the children twice gives the original collection when child reverse is an involution |
| GeometryCollections.MapKeepsNumPoints | modules/core/src/main/java/org/locationtech/jts/geom/GeometryCollection.java:119-125 | copying or reversing children that keep their point counts keeps the collection's point count |
| GeometryCollections.CopyEqualsOriginal | modules/core/src/main/java/org/locationtech/jts/geom/GeometryCollection.java:220-226 | a copy is equalsExact to the original when each child copy is |

## Left out

- I/O: `NodeMap.print` and anything printing; the `Polygon`/`LinearRing` wrappers `join` and `joinAsPolygon` (the model takes and returns coordinate lists).
- The proper-crossing test `crossesPolygon` and its segment index `createPolygonIntersector`: the joiner takes the test as an uninterpreted function `crosses`; `isJoinable` is its negation.
- The JTS `Coordinate`, `Envelope`, `Node`, `Label`, `NodeFactory` and `EdgeEndStar` classes are not part of this model: the coordinate order and the envelope comparison are modelled concretely as described above, `createNode`, `mergeLabel` and `getLocation` are function parameters of the node map, and `Node.add` is an append to the node's edge-end list (the star's angular ordering is not modelled).
- Floating point: coordinates and tolerances are reals, so rounding in `Math.abs`/`equals2D` and the `Double.MAX_VALUE` sentinel (modelled as "no pair yet") are not modelled.
- Java `int` overflow: `size`, `depth`, `getNumPoints`, the dimension maximum and the chain start `i += maxChainSize` are unbounded integers.
- Concurrency: the synchronized item list of the quadtree node and `visitItems`/`visit`; `addAllItemsFromOverlapping` (a variant of `addAllItems` filtered by `isSearchMatch`) is not modelled. `isSearchMatch` is the abstract `matches` function of each node.
- `NodeBase.getNodeCount`: it sums child sizes rather than node counts; no property is stated for it and it is not modelled.
- Building the quadtree (`Node` insertion, `createSubnode`): a node is built empty and children are attached with `SetSubnode`.
- Quadtree.QuadNode.AddAllItems: the caller's list is modelled as a value returned extended, not as an aliased list updated in place.
- DoubleKeyMaps.DoubleKeyMap.KeySet, KeySetOf and Values return copies, not live views of the maps; Values promises one value per second-level key but not the `TreeMap` ascending key order, since the keys are of a generic type without an order.
- DoubleKeyMaps.DoubleKeyMap.CreateKeyMap: the returned inner map is a value, so later puts through it are modelled by `Put` storing into `topMap` directly.
- NodeMapping.NodeMap.Values: returns a copy of the nodes in key order, not a live collection view or an iterator.
- PolygonHoleJoiner.HoleJoiner.JoinHoles and Compute: the chain they return records, for each hole, the cut (ring index, leftmost hole vertex) and the splice. Which shell vertex was chosen, and which of its occurrences, is stated per call by JoinHole and not carried through the chain; so is the cut map a failing IllegalState step leaves, of which JoinHoles and Compute state only the error and the ring.
- PolygonHoleJoiner.SortHoles: proves sorted-by-envelope and permutation, not the stability of `Collections.sort` for holes with equal envelopes.
- `mergeLines`, `sequenceLines`, `extractLines`, `dissolve` and the geometry building of the line functions (`LinearComponentExtracter`, `buildGeometry`): the lines are given as point sequences and the results returned as point sequences.
- LineHandling.ExtractChains: requires maxChainSize >= 1. For 0 the loop never advances, so it never ends. For -1 each chain has size 0 and the index counts down until the int wraps around. For -2 and below `new Coordinate[size]` throws `NegativeArraySizeException` at the first chain.
- GeometryCollections.GetCoordinates: requires the children's coordinate arrays to have their point counts (`Consistent`); otherwise the Java code throws or leaves nulls.
- GeometryCollections.EqualsExact: `isEquivalentClass` is modelled by the other geometry being given as `None` when it is not a collection of the same class.
- GeometryCollection `getArea`, `getLength`, `getBoundary`, `getBoundaryDimension`, `normalize`, `computeEnvelopeInternal`, the `apply` filters and `compareToSameClass(Object)` (which compares `TreeSet`s by an unseen `Geometry.compareTo`): float sums, sorting, visitors and orderings outside this model.
- The child geometries are abstract: their emptiness, coordinates, point counts, dimension, equality, comparison, copy and reverse are the fields of `GeometryOps`.
- The distance, noding, combiner, test-builder and test-runner files around these classes are not part of this model.
