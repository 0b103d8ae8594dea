/**
 * The coordinate-keyed node map of a topology graph (geomgraph NodeMap): a
 * sorted map from coordinates to graph nodes with get-or-create insertion.
 * Node creation (NodeFactory.createNode), label merging (Node.mergeLabel) and
 * label lookup (Label.getLocation) belong to classes outside this model and
 * are the map's function parameters; labels are of an abstract type L.
 */
module NodeMapping {
  import opened Coords
  import opened Wrappers
  import CoordTreeSet

  /** The Location code of a point on the boundary of a geometry. */
  const BOUNDARY: int := 1

  /** An edge end starting at coord; only its start point matters here. */
  datatype EdgeEnd = EdgeEnd(coord: Coord, direction: Coord)

  /** A graph node: its coordinate, its label and the edge ends added at it. */
  class GraphNode<L> {
    const coord: Coord
    var nodeLabel: L
    var edges: seq<EdgeEnd>

    constructor(coord: Coord, nodeLabel: L)
      ensures this.coord == coord && this.nodeLabel == nodeLabel && edges == []
    {
      this.coord := coord;
      this.nodeLabel := nodeLabel;
      edges := [];
    }

    /** Node.add: record an edge end at this node. */
    method Add(e: EdgeEnd)
      modifies this
      ensures edges == old(edges) + [e] && nodeLabel == old(nodeLabel)
    {
      edges := edges + [e];
    }
  }

  class NodeMap<L> {
    /** The keys in TreeMap order. */
    var keys: seq<Coord>
    var nodes: map<Coord, GraphNode<L>>
    /** The label a factory-created node starts with. */
    const newLabel: Coord -> L
    /** Node.mergeLabel: the label of a node after merging another node's label into it. */
    const merge: (L, L) -> L
    /** Label.getLocation(geomIndex). */
    const location: (L, int) -> int

    ghost predicate Valid()
      reads this
    {
      CoordTreeSet.Sorted(keys) &&
      (forall c :: c in nodes <==> c in keys) &&
      (forall c :: c in nodes ==> nodes[c].coord == c)
    }

    /** nodeMap.get(coord), with None for null. */
    function Lookup(coord: Coord): (r: Option<GraphNode<L>>)
      reads this
      ensures r.Some? <==> coord in nodes
      ensures r.Some? ==> r.value == nodes[coord]
    {
      if coord in nodes then Some(nodes[coord]) else None
    }

    constructor(newLabel: Coord -> L, merge: (L, L) -> L, location: (L, int) -> int)
      ensures Valid() && keys == [] && nodes == map[]
      ensures this.newLabel == newLabel && this.merge == merge && this.location == location
    {
      keys := [];
      nodes := map[];
      this.newLabel := newLabel;
      this.merge := merge;
      this.location := location;
    }

    /** addNode(coord): the node at coord, created and inserted when there is none. */
    method AddNode(coord: Coord) returns (node: GraphNode<L>)
      requires Valid()
      modifies this
      ensures Valid() && Lookup(coord) == Some(node) && node.coord == coord
      ensures coord in old(nodes) ==> node == old(nodes)[coord] && nodes == old(nodes) && keys == old(keys)
      ensures coord !in old(nodes) ==>
        fresh(node) && node.nodeLabel == newLabel(coord) && node.edges == [] &&
        nodes == old(nodes)[coord := node] && keys == CoordTreeSet.Insert(old(keys), coord)
    {
      var found := Lookup(coord);
      if found.Some? {
        return found.value;
      }
      node := new GraphNode(coord, newLabel(coord));
      nodes := nodes[coord := node];
      keys := CoordTreeSet.Insert(keys, coord);
    }

    /**
     * addNode(Node n): insert n when its coordinate is absent; otherwise merge
     * n's label into the node already there and return that node.
     */
    method AddNodeObject(n: GraphNode<L>) returns (node: GraphNode<L>)
      requires Valid()
      modifies this, if n.coord in nodes then {nodes[n.coord]} else {}
      ensures Valid()
      ensures n.coord !in old(nodes) ==>
        node == n && nodes == old(nodes)[n.coord := n] && keys == CoordTreeSet.Insert(old(keys), n.coord)
      ensures n.coord in old(nodes) ==>
        node == old(nodes)[n.coord] && nodes == old(nodes) && keys == old(keys) &&
        node.nodeLabel == merge(old(node.nodeLabel), old(n.nodeLabel)) && node.edges == old(node.edges)
    {
      var found := Lookup(n.coord);
      if found.None? {
        nodes := nodes[n.coord := n];
        keys := CoordTreeSet.Insert(keys, n.coord);
        return n;
      }
      node := found.value;
      node.nodeLabel := merge(node.nodeLabel, n.nodeLabel);
    }

    /** add(EdgeEnd): get or create the node at the edge end's start and add the edge end to it. */
    method Add(e: EdgeEnd) returns (ghost node: GraphNode<L>)
      requires Valid()
      modifies this, if e.coord in nodes then {nodes[e.coord]} else {}
      ensures Valid() && Lookup(e.coord) == Some(node) && node.coord == e.coord
      ensures e.coord in old(nodes) ==>
        node == old(nodes)[e.coord] && nodes == old(nodes) && keys == old(keys) &&
        node.edges == old(node.edges) + [e] && node.nodeLabel == old(node.nodeLabel)
      ensures e.coord !in old(nodes) ==>
        fresh(node) && node.edges == [e] && node.nodeLabel == newLabel(e.coord) &&
        nodes == old(nodes)[e.coord := node] && keys == CoordTreeSet.Insert(old(keys), e.coord)
    {
      var p := e.coord;
      var n := AddNode(p);
      n.Add(e);
      node := n;
    }

    /** find: the node at coord, or None when none was added there. */
    method Find(coord: Coord) returns (r: Option<GraphNode<L>>)
      requires Valid()
      ensures r.Some? <==> coord in keys
      ensures r.Some? ==> r.value.coord == coord && r.value == nodes[coord]
    {
      return Lookup(coord);
    }

    /** values/iterator: the nodes in key order. */
    method Values() returns (vs: seq<GraphNode<L>>)
      requires Valid()
      ensures |vs| == |keys|
      ensures forall i :: 0 <= i < |vs| ==> vs[i] == nodes[keys[i]] && vs[i].coord == keys[i]
    {
      var ks, ns := keys, nodes;
      vs := seq(|ks|, i requires 0 <= i < |ks| => ns[ks[i]]);
    }

    /** The nodes of the keys ks, in order, whose location for geomIndex is BOUNDARY. */
    ghost function BoundaryNodes(ks: seq<Coord>, geomIndex: int): seq<GraphNode<L>>
      requires forall c :: c in ks ==> c in nodes
      reads this, set c | c in nodes :: nodes[c]
    {
      if ks == [] then []
      else
        var n := nodes[ks[|ks| - 1]];
        BoundaryNodes(ks[..|ks| - 1], geomIndex) + (if location(n.nodeLabel, geomIndex) == BOUNDARY then [n] else [])
    }

    /** getBoundaryNodes: walk the nodes in key order, keeping those on the boundary of geometry geomIndex. */
    method GetBoundaryNodes(geomIndex: int) returns (bdyNodes: seq<GraphNode<L>>)
      requires Valid()
      ensures bdyNodes == BoundaryNodes(keys, geomIndex)
      ensures forall n :: n in bdyNodes <==>
        exists c :: c in nodes && nodes[c] == n && location(n.nodeLabel, geomIndex) == BOUNDARY
    {
      bdyNodes := [];
      for i := 0 to |keys|
        invariant bdyNodes == BoundaryNodes(keys[..i], geomIndex)
      {
        assert keys[..i + 1][..i] == keys[..i];
        var node := nodes[keys[i]];
        if location(node.nodeLabel, geomIndex) == BOUNDARY {
          bdyNodes := bdyNodes + [node];
        }
      }
      assert keys[..|keys|] == keys;
      BoundaryNodesMembers(keys, geomIndex);
    }

    /** The boundary walk keeps exactly the nodes of its keys that lie on the boundary. */
    lemma {:induction false} BoundaryNodesMembers(ks: seq<Coord>, geomIndex: int)
      requires forall c :: c in ks ==> c in nodes
      ensures forall n :: n in BoundaryNodes(ks, geomIndex) <==>
        exists c :: c in ks && nodes[c] == n && location(n.nodeLabel, geomIndex) == BOUNDARY
    {
      if ks != [] {
        var init, last := ks[..|ks| - 1], ks[|ks| - 1];
        assert forall c :: c in ks <==> c in init || c == last;
        BoundaryNodesMembers(init, geomIndex);
      }
    }
  }
}
