/**
 * MeshGraph: adjacency meta-data over the faces of a mesh. The graph owns its
 * elements, so it is modelled as an arena: node k is the k-th entry of `nodes`, and
 * a node's edge list holds positions in `edges`. An edge records the two nodes it
 * joins and, for each end, either the index of an existing mesh vertex or a vertex
 * of its own.
 */
module MeshGraphs {
  import opened Wrappers
  import opened Geometry
  import opened AxisAlignedBoxes
  import opened BoundingBoxTrees
  import opened Meshes

  /** EdgeVertexExisting (an index into the target mesh) or EdgeVertexNew (a vertex held by value). */
  datatype EdgeVertex = EdgeVertexExisting(vertex_i: int) | EdgeVertexNew(vertex: Vertex)

  /** MeshGraph::Edge: the two adjacent nodes and the two end vertices, each possibly null. */
  datatype Edge = Edge(
    adjacentNode0: Option<nat>, adjacentNode1: Option<nat>,
    edgeVertex0: Option<EdgeVertex>, edgeVertex1: Option<EdgeVertex>)

  /** MeshGraph::Node: the face it stands for and the edges that touch it. */
  datatype GraphNode = GraphNode(polygon_i: int, edgeArray: seq<nat>)

  /** A freshly constructed existing-vertex end refers to no vertex. */
  function NewEdgeVertexExisting(): (ev: EdgeVertex)
    ensures ev.EdgeVertexExisting? && ev.vertex_i < 0
  {
    EdgeVertexExisting(-1)
  }

  /** A freshly constructed edge has null adjacencies and null ends. */
  function NewEdge(): (e: Edge)
    ensures e.adjacentNode0.None? && e.adjacentNode1.None?
    ensures e.edgeVertex0.None? && e.edgeVertex1.None?
  {
    Edge(None, None, None, None)
  }

  /** A freshly constructed node stands for no face and has no edges. */
  function NewNode(): (n: GraphNode)
    ensures n.polygon_i < 0 && n.edgeArray == []
  {
    GraphNode(-1, [])
  }

  /** C++ `a % 2`: the quotient truncates toward zero, so the remainder has the sign of `a`. */
  function CppRem2(a: int): (r: int)
    ensures a >= 0 ==> 0 <= r <= 1
    ensures a < 0 ==> -1 <= r <= 0
    ensures (a - r) % 2 == 0
  {
    if a >= 0 then a % 2 else -((-a) % 2)
  }

  /** The end slot `Edge::GetVertex(i)` reads, or None when `i % 2` is -1 or the slot is null. */
  function EndSlot(e: Edge, i: int): Option<EdgeVertex> {
    var slot := CppRem2(i);
    if slot == 0 then e.edgeVertex0 else if slot == 1 then e.edgeVertex1 else None
  }

  /** EdgeVertex::GetVertex: an existing end looks its index up in the mesh, a new end holds its vertex. */
  function ResolveEdgeVertex(ev: EdgeVertex, vertices: seq<Vertex>): (r: Option<Vertex>)
    ensures ev.EdgeVertexNew? ==> r == Some(ev.vertex)
    ensures ev.EdgeVertexExisting? ==> (r.Some? <==> 0 <= ev.vertex_i < |vertices|)
    ensures ev.EdgeVertexExisting? && r.Some? ==> r.value == vertices[ev.vertex_i]
  {
    match ev
    case EdgeVertexNew(v) => Some(v)
    case EdgeVertexExisting(i) => if 0 <= i < |vertices| then Some(vertices[i]) else None
  }

  /** Edge::GetVertex(i): the vertex at end `i % 2`; the source dereferences the slot, so it must exist. */
  function EdgeGetVertex(e: Edge, i: int, vertices: seq<Vertex>): Option<Vertex>
    requires EndSlot(e, i).Some?
  {
    ResolveEdgeVertex(EndSlot(e, i).value, vertices)
  }

  /** GetVertex reads end 0 for every even index and end 1 for every non-negative odd one; a negative odd index has no slot. */
  lemma EdgeGetVertexParity(e: Edge, i: int, vertices: seq<Vertex>)
    ensures i % 2 == 0 ==> EndSlot(e, i) == e.edgeVertex0
    ensures i % 2 == 1 && i >= 0 ==> EndSlot(e, i) == e.edgeVertex1
    ensures i % 2 == 1 && i < 0 ==> EndSlot(e, i).None?
    ensures EndSlot(e, i).Some? && i >= 0 ==> EdgeGetVertex(e, i, vertices) == EdgeGetVertex(e, i + 2, vertices)
  {
    if i >= 0 {
      assert CppRem2(i + 2) == CppRem2(i);
    }
  }

  /** GetOtherAdjacency has no body in the source; modelled as the adjacency that is not `k`. */
  function GetOtherAdjacency(e: Edge, k: nat): (r: Option<nat>)
    ensures e.adjacentNode0 == Some(k) ==> r == e.adjacentNode1
    ensures e.adjacentNode0 != Some(k) && e.adjacentNode1 == Some(k) ==> r == e.adjacentNode0
    ensures e.adjacentNode0 != Some(k) && e.adjacentNode1 != Some(k) ==> r.None?
  {
    if e.adjacentNode0 == Some(k) then e.adjacentNode1
    else if e.adjacentNode1 == Some(k) then e.adjacentNode0
    else None
  }

  /** An edge that joins node `a` to a different node `b`, in that order. */
  predicate Joins(e: Edge, a: nat, b: nat) {
    e.adjacentNode0 == Some(a) && e.adjacentNode1 == Some(b) && a != b
  }

  /**
   * Every edge listed at node k exists in the arena, names k as one of its two
   * adjacencies and names as the other a different node of the graph.
   */
  predicate Linked(nodes: seq<GraphNode>, edges: seq<Edge>) {
    forall k, j :: 0 <= k < |nodes| && 0 <= j < |nodes[k].edgeArray| ==>
      nodes[k].edgeArray[j] < |edges| && LinkedAt(edges[nodes[k].edgeArray[j]], k, |nodes|)
  }

  predicate LinkedAt(e: Edge, k: nat, n: nat) {
    var other := GetOtherAdjacency(e, k);
    (e.adjacentNode0 == Some(k) || e.adjacentNode1 == Some(k)) && other.Some? && other.value < n && other.value != k
  }

  /** MeshGraph::Face::CalcBoundingBox: its body is a stub that returns the default box. */
  function FaceBound(face: nat): (box: Box)
    ensures LooksLikeSentinel(box)
  {
    Sentinel
  }

  /** Appending an edge between two different nodes of the graph to both their lists keeps the graph linked. */
  lemma LinkKeepsLinked(nodes: seq<GraphNode>, edges: seq<Edge>, a: nat, b: nat, e: Edge)
    requires Linked(nodes, edges)
    requires a < |nodes| && b < |nodes| && Joins(e, a, b)
    ensures Linked(Link(nodes, |edges|, a, b), edges + [e])
  {
    var nodes' := Link(nodes, |edges|, a, b);
    var edges' := edges + [e];
    forall k, j | 0 <= k < |nodes'| && 0 <= j < |nodes'[k].edgeArray|
      ensures nodes'[k].edgeArray[j] < |edges'| && LinkedAt(edges'[nodes'[k].edgeArray[j]], k, |nodes'|)
    {
      if j < |nodes[k].edgeArray| {
        assert nodes'[k].edgeArray[j] == nodes[k].edgeArray[j];
      } else {
        assert nodes'[k].edgeArray[j] == |edges|;
        assert k == a || k == b;
      }
    }
  }

  /** Node `a`'s and node `b`'s lists each gain the edge position `id` at their end. */
  function Link(nodes: seq<GraphNode>, id: nat, a: nat, b: nat): (r: seq<GraphNode>)
    requires a < |nodes| && b < |nodes| && a != b
    ensures |r| == |nodes|
    ensures forall k :: 0 <= k < |r| ==> r[k].polygon_i == nodes[k].polygon_i
    ensures forall k :: 0 <= k < |r| && k != a && k != b ==> r[k] == nodes[k]
    ensures r[a].edgeArray == nodes[a].edgeArray + [id] && r[b].edgeArray == nodes[b].edgeArray + [id]
  {
    var na := nodes[a].(edgeArray := nodes[a].edgeArray + [id]);
    var nodes1 := nodes[a := na];
    nodes1[b := nodes1[b].(edgeArray := nodes1[b].edgeArray + [id])]
  }

  /** Nodes `0..n` stand for faces `0..n` in order. */
  predicate NodesForFaces(nodes: seq<GraphNode>, n: nat) {
    |nodes| == n && forall k :: 0 <= k < n ==> nodes[k].polygon_i == k
  }

  /** No node has an edge. */
  predicate NoEdges(nodes: seq<GraphNode>) {
    forall k :: 0 <= k < |nodes| ==> nodes[k].edgeArray == []
  }

  /** MeshGraph::FindCommonEdge: no two faces are ever found to share an edge. */
  function FindCommonEdge(nodeA: nat, nodeB: nat): Option<Edge> {
    None
  }

  class MeshGraph {
    var nodes: seq<GraphNode>
    var edges: seq<Edge>
    var targetMesh: Mesh?

    constructor()
      ensures nodes == [] && edges == [] && targetMesh == null
    {
      nodes := [];
      edges := [];
      targetMesh := null;
    }

    /** Drops every element; the target mesh is kept. */
    method Clear()
      modifies this
      ensures nodes == [] && edges == [] && targetMesh == old(targetMesh)
    {
      nodes := [];
      edges := [];
    }

    /**
     * Rebuilds the graph over `mesh`: one node per face, then for every stored face
     * each other face the tree reports is offered to `findCommonEdge`, and an edge it
     * returns is added to both nodes. The finder must return edges joining the two
     * nodes it was asked about; the source's finder always returns null.
     */
    method Generate(mesh: Mesh, findCommonEdge: (nat, nat) -> Option<Edge>, fuel: nat)
      modifies this
      requires forall a: nat, b: nat :: findCommonEdge(a, b).Some? && a != b ==> Joins(findCommonEdge(a, b).value, a, b)
      ensures targetMesh == mesh
      ensures NodesForFaces(nodes, |mesh.faceArray|)
      ensures Linked(nodes, edges)
      ensures (forall a: nat, b: nat :: findCommonEdge(a, b).None?) ==> edges == [] && NoEdges(nodes)
    {
      Clear();
      targetMesh := mesh;
      var rootBox := mesh.CalcBoundingBox();
      var tree := new BoundingBoxTree<nat>();
      tree.SetRootBox(rootBox);
      var n := |mesh.faceArray|;
      var ns := AddNodes(tree, n, fuel);
      var guestList := tree.GatherAllGuests();
      assert forall g :: g in guestList ==> g in tree.GuestSet();
      var es;
      ns, es := LinkGuests(tree, guestList, ns, findCommonEdge);
      nodes := ns;
      edges := es;
    }
  }

  /** The first loop of Generate: node k for face k, each offered to the tree with the stub face box. */
  method AddNodes(tree: BoundingBoxTree<nat>, n: nat, fuel: nat) returns (nodes: seq<GraphNode>)
    modifies tree
    requires tree.GuestSet() == {}
    ensures NodesForFaces(nodes, n) && NoEdges(nodes)
    ensures forall g :: g in tree.GuestSet() ==> g < n
  {
    nodes := [];
    var i := 0;
    while i < n
      invariant 0 <= i <= n
      invariant NodesForFaces(nodes, i) && NoEdges(nodes)
      invariant forall g :: g in tree.GuestSet() ==> g < i
    {
      var node := NewNode();
      nodes := nodes + [node.(polygon_i := i)];
      var _ := tree.AddGuest(i, FaceBound, fuel);
      i := i + 1;
    }
  }

  /** The second loop of Generate: each gathered face queries the tree and links the faces it finds. */
  method LinkGuests(tree: BoundingBoxTree<nat>, guestList: seq<nat>, nodes: seq<GraphNode>,
                    findCommonEdge: (nat, nat) -> Option<Edge>)
    returns (nodes': seq<GraphNode>, edges: seq<Edge>)
    modifies tree
    requires forall g :: g in guestList ==> g < |nodes|
    requires forall g :: g in tree.GuestSet() ==> g < |nodes|
    requires NoEdges(nodes)
    requires forall a: nat, b: nat :: findCommonEdge(a, b).Some? && a != b ==> Joins(findCommonEdge(a, b).value, a, b)
    ensures |nodes'| == |nodes| && forall k :: 0 <= k < |nodes| ==> nodes'[k].polygon_i == nodes[k].polygon_i
    ensures Linked(nodes', edges)
    ensures (forall a: nat, b: nat :: findCommonEdge(a, b).None?) ==> edges == [] && nodes' == nodes
  {
    nodes', edges := nodes, [];
    var gi := 0;
    while gi < |guestList|
      invariant 0 <= gi <= |guestList|
      invariant |nodes'| == |nodes| && forall k :: 0 <= k < |nodes| ==> nodes'[k].polygon_i == nodes[k].polygon_i
      invariant Linked(nodes', edges)
      invariant forall g :: g in tree.GuestSet() ==> g < |nodes|
      invariant (forall a: nat, b: nat :: findCommonEdge(a, b).None?) ==> edges == [] && nodes' == nodes
    {
      var face := guestList[gi];
      assert face in guestList;
      var foundGuestList := tree.FindGuests(FaceBound(face), FaceBound);
      nodes', edges := LinkFound(nodes', edges, face, foundGuestList, findCommonEdge);
      gi := gi + 1;
    }
  }

  /** The inner loop of Generate: every found face other than `face` itself is offered to the finder. */
  method LinkFound(nodes: seq<GraphNode>, edges: seq<Edge>, face: nat, found: seq<nat>,
                   findCommonEdge: (nat, nat) -> Option<Edge>)
    returns (nodes': seq<GraphNode>, edges': seq<Edge>)
    requires face < |nodes| && forall g :: g in found ==> g < |nodes|
    requires Linked(nodes, edges)
    requires forall a: nat, b: nat :: findCommonEdge(a, b).Some? && a != b ==> Joins(findCommonEdge(a, b).value, a, b)
    ensures |nodes'| == |nodes| && forall k :: 0 <= k < |nodes| ==> nodes'[k].polygon_i == nodes[k].polygon_i
    ensures Linked(nodes', edges')
    ensures |edges| <= |edges'| && edges'[..|edges|] == edges
    ensures (forall a: nat, b: nat :: findCommonEdge(a, b).None?) ==> nodes' == nodes && edges' == edges
  {
    nodes', edges' := nodes, edges;
    var j := 0;
    while j < |found|
      invariant 0 <= j <= |found|
      invariant |nodes'| == |nodes| && forall k :: 0 <= k < |nodes| ==> nodes'[k].polygon_i == nodes[k].polygon_i
      invariant Linked(nodes', edges')
      invariant |edges| <= |edges'| && edges'[..|edges|] == edges
      invariant (forall a: nat, b: nat :: findCommonEdge(a, b).None?) ==> nodes' == nodes && edges' == edges
    {
      var foundFace := found[j];
      assert foundFace in found;
      if foundFace != face {
        var edge := findCommonEdge(face, foundFace);
        if edge.Some? {
          LinkKeepsLinked(nodes', edges', face, foundFace, edge.value);
          nodes' := Link(nodes', |edges'|, face, foundFace);
          edges' := edges' + [edge.value];
        }
      }
      j := j + 1;
    }
  }
}
