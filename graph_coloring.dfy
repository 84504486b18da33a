/**
 * Graph colouring of the set operation: every node of a refined mesh's graph is
 * labelled inside or outside the other mesh by a breadth-first walk from a node whose
 * side is known. Crossing an edge whose two end points both lie on the cut boundary
 * flips the side; crossing any other edge keeps it.
 */
module GraphColorings {
  import opened Wrappers
  import opened Geometry
  import opened Meshes
  import opened MeshGraphs
  import opened Polylines

  /** MeshSetOperation::Graph::Node::Side. */
  datatype Side = UNKNOWN | INSIDE | OUTSIDE

  /** OppositeSide swaps INSIDE and OUTSIDE and keeps UNKNOWN; so it is its own inverse. */
  function OppositeSide(side: Side): (r: Side)
    ensures side == OUTSIDE <==> r == INSIDE
    ensures side == INSIDE <==> r == OUTSIDE
    ensures side == UNKNOWN <==> r == UNKNOWN
  {
    match side
    case OUTSIDE => INSIDE
    case INSIDE => OUTSIDE
    case UNKNOWN => UNKNOWN
  }

  /** PointIsOnCutBoundary: some cut-boundary polyline has a vertex within eps of the point. */
  function PointIsOnCutBoundary(polylines: seq<Points>, point: Vec3, eps: real): (r: bool)
    ensures r <==> exists i, m :: 0 <= i < |polylines| && 0 <= m < |polylines[i]| && Within(polylines[i][m], point, eps)
  {
    OnCutBoundaryFrom(polylines, 0, point, eps)
  }

  /** The search loop of PointIsOnCutBoundary from polyline i onwards. */
  function OnCutBoundaryFrom(polylines: seq<Points>, i: nat, point: Vec3, eps: real): (r: bool)
    requires i <= |polylines|
    ensures r <==> exists j, m :: i <= j < |polylines| && 0 <= m < |polylines[j]| && Within(polylines[j][m], point, eps)
    decreases |polylines| - i
  {
    if i == |polylines| then false
    else if HasVertexFrom(polylines[i], 0, point, eps) then true
    else OnCutBoundaryFrom(polylines, i + 1, point, eps)
  }

  /** A node of one of the two graphs, with the mesh its graph targets. */
  datatype NodeRef = NodeRef(target: Mesh?, node: nat)

  /** FindAnyNode: the first listed node whose graph targets the desired mesh, if any. */
  function FindAnyNode(desiredTargetMesh: Mesh, nodeList: seq<NodeRef>): (r: Option<NodeRef>)
    ensures r.None? <==> forall i :: 0 <= i < |nodeList| ==> nodeList[i].target != desiredTargetMesh
    ensures r.Some? ==> exists i :: (0 <= i < |nodeList| && nodeList[i] == r.value &&
      r.value.target == desiredTargetMesh && forall j :: 0 <= j < i ==> nodeList[j].target != desiredTargetMesh)
    decreases |nodeList|
  {
    if |nodeList| == 0 then None
    else if nodeList[0].target == desiredTargetMesh then Some(nodeList[0])
    else
      var r := FindAnyNode(desiredTargetMesh, nodeList[1..]);
      assert r.Some? ==> exists i :: (0 <= i < |nodeList[1..]| && nodeList[1..][i] == r.value &&
        r.value.target == desiredTargetMesh && forall j :: 0 <= j < i ==> nodeList[1..][j].target != desiredTargetMesh);
      assert r.Some? ==> exists i :: (1 <= i < |nodeList| && nodeList[i] == r.value &&
        r.value.target == desiredTargetMesh && forall j :: 0 <= j < i ==> nodeList[j].target != desiredTargetMesh);
      assert forall i :: 1 <= i < |nodeList| ==> nodeList[i] == nodeList[1..][i - 1];
      r
  }

  /**
   * The nodes of graph A are listed before those of graph B, so the first node of B
   * is the one found for B's mesh.
   */
  lemma {:induction false} FindAnyNodeSkipsOtherGraph(desiredTargetMesh: Mesh, refsA: seq<NodeRef>, refsB: seq<NodeRef>)
    requires forall i :: 0 <= i < |refsA| ==> refsA[i].target != desiredTargetMesh
    requires forall i :: 0 <= i < |refsB| ==> refsB[i].target == desiredTargetMesh
    ensures FindAnyNode(desiredTargetMesh, refsA + refsB) == if |refsB| == 0 then None else Some(refsB[0])
    decreases |refsA|
  {
    if |refsA| > 0 {
      assert (refsA + refsB)[1..] == refsA[1..] + refsB;
      FindAnyNodeSkipsOtherGraph(desiredTargetMesh, refsA[1..], refsB);
    } else {
      assert refsA + refsB == refsB;
    }
  }

  /** The other end of the j-th edge of node k, when node k, that edge and its other end exist. */
  function Neighbour(nodes: seq<GraphNode>, edges: seq<Edge>, k: nat, j: nat): (r: Option<nat>)
    ensures r.Some? ==> k < |nodes| && j < |nodes[k].edgeArray| && nodes[k].edgeArray[j] < |edges|
  {
    if k < |nodes| && j < |nodes[k].edgeArray| && nodes[k].edgeArray[j] < |edges| then
      GetOtherAdjacency(edges[nodes[k].edgeArray[j]], k)
    else None
  }

  /**
   * Whether both end points of the edge lie on the cut boundary (within MW_EPS, the
   * default eps of PointIsOnCutBoundary). None when an end cannot be read: the source
   * then dereferences a null vertex.
   */
  function EdgeCut(e: Edge, vertices: seq<Vertex>, polylines: seq<Points>): Option<bool> {
    if EndSlot(e, 0).None? || EndSlot(e, 1).None? then None
    else
      var v0 := EdgeGetVertex(e, 0, vertices);
      var v1 := EdgeGetVertex(e, 1, vertices);
      if v0.None? || v1.None? then None
      else Some(PointIsOnCutBoundary(polylines, v0.value.point, MW_EPS) &&
                PointIsOnCutBoundary(polylines, v1.value.point, MW_EPS))
  }

  /** The side a neighbour takes across an edge: the opposite one across a cut edge. */
  function Across(side: Side, cut: bool): (r: Side)
    ensures side != UNKNOWN ==> r != UNKNOWN
  {
    if cut then OppositeSide(side) else side
  }

  /** Node k was labelled across the j-th edge of node p by the cut rule. */
  ghost predicate Step(nodes: seq<GraphNode>, edges: seq<Edge>, vertices: seq<Vertex>, polylines: seq<Points>,
                       s: seq<Side>, p: nat, j: nat, k: nat) {
    Neighbour(nodes, edges, p, j) == Some(k) && p < |s| && k < |s| &&
    var cut := EdgeCut(edges[nodes[p].edgeArray[j]], vertices, polylines);
    cut.Some? && s[k] == Across(s[p], cut.value)
  }

  /** The j-th edge of node k has an end the walk cannot read. */
  ghost predicate Unreadable(nodes: seq<GraphNode>, edges: seq<Edge>, vertices: seq<Vertex>, polylines: seq<Points>,
                             k: nat, j: nat) {
    k < |nodes| && j < |nodes[k].edgeArray| && nodes[k].edgeArray[j] < |edges| &&
    EdgeCut(edges[nodes[k].edgeArray[j]], vertices, polylines).None?
  }

  /** Nodes whose side was already known keep it. */
  predicate KeepsKnown(sides: seq<Side>, s: seq<Side>) {
    |s| == |sides| && forall k :: 0 <= k < |s| && sides[k] != UNKNOWN ==> s[k] == sides[k]
  }

  /**
   * The visit order starts at the root, never repeats a node, and holds exactly the
   * root and the nodes the walk labelled; every node in it has a known side.
   */
  predicate VisitOrder(sides: seq<Side>, root: nat, s: seq<Side>, order: seq<nat>) {
    |order| >= 1 && order[0] == root &&
    (forall a, b :: 0 <= a < b < |order| ==> order[a] != order[b]) &&
    (forall a :: 0 <= a < |order| ==> order[a] < |s| && s[order[a]] != UNKNOWN) &&
    (forall k :: 0 <= k < |s| && |s| == |sides| ==> (k in order <==> k == root || (sides[k] == UNKNOWN && s[k] != UNKNOWN)))
  }

  /** Every visited node but the root was labelled across an edge of an earlier visited node. */
  ghost predicate Propagated(nodes: seq<GraphNode>, edges: seq<Edge>, vertices: seq<Vertex>, polylines: seq<Points>,
                             s: seq<Side>, order: seq<nat>, tree: seq<(nat, nat)>, done: nat) {
    |tree| == |order| &&
    forall a :: 0 < a < |order| ==>
      tree[a].0 < a && tree[a].0 < done && Step(nodes, edges, vertices, polylines, s, order[tree[a].0], tree[a].1, order[a])
  }

  /** Every neighbour of the first m visited nodes is labelled. */
  ghost predicate Closed(nodes: seq<GraphNode>, edges: seq<Edge>, s: seq<Side>, order: seq<nat>, m: nat) {
    forall a, j :: 0 <= a < m && a < |order| && Neighbour(nodes, edges, order[a], j).Some? ==>
      Neighbour(nodes, edges, order[a], j).value < |s| && s[Neighbour(nodes, edges, order[a], j).value] != UNKNOWN
  }

  /** The state of the walk after `done` nodes have left the queue. */
  ghost predicate Walk(nodes: seq<GraphNode>, edges: seq<Edge>, vertices: seq<Vertex>, polylines: seq<Points>,
                       sides: seq<Side>, root: nat, s: seq<Side>, order: seq<nat>, tree: seq<(nat, nat)>, done: nat) {
    KeepsKnown(sides, s) && VisitOrder(sides, root, s, order) && done <= |order| &&
    Propagated(nodes, edges, vertices, polylines, s, order, tree, done)
  }

  /**
   * ColorGraph: the breadth-first walk from the root. Each dequeued node labels every
   * UNKNOWN neighbour by the cut rule and enqueues it; labelled nodes are never
   * changed, so each node is enqueued at most once and the walk ends. The walk fails
   * (None) only when an edge it crosses has an end that cannot be read.
   */
  method ColorGraph(nodes: seq<GraphNode>, edges: seq<Edge>, vertices: seq<Vertex>, polylines: seq<Points>,
                    sides: seq<Side>, root: nat)
    returns (colored: Option<seq<Side>>, ghost order: seq<nat>, ghost tree: seq<(nat, nat)>)
    requires Linked(nodes, edges)
    requires |sides| == |nodes| && root < |nodes| && sides[root] != UNKNOWN
    ensures colored.Some? ==>
      KeepsKnown(sides, colored.value) && VisitOrder(sides, root, colored.value, order) &&
      Propagated(nodes, edges, vertices, polylines, colored.value, order, tree, |order|) &&
      Closed(nodes, edges, colored.value, order, |order|)
    ensures colored.None? ==> exists k, j :: Unreadable(nodes, edges, vertices, polylines, k, j)
  {
    var s := sides;
    var nodeQueue := [root];
    order := [root];
    tree := [(0, 0)];
    ghost var done := 0;
    while |nodeQueue| > 0
      invariant Walk(nodes, edges, vertices, polylines, sides, root, s, order, tree, done)
      invariant nodeQueue == order[done..]
      invariant Closed(nodes, edges, s, order, done)
      decreases multiset(s)[UNKNOWN], |nodeQueue|
    {
      var node := nodeQueue[0];
      nodeQueue := nodeQueue[1..];
      done := done + 1;
      var ok;
      ok, s, nodeQueue, order, tree := LabelNeighbours(nodes, edges, vertices, polylines, sides, root,
                                                       node, s, nodeQueue, order, tree, done);
      if !ok {
        return None, order, tree;
      }
    }
    return Some(s), order, tree;
  }

  /** The inner loop of ColorGraph over the edges of the node just dequeued, order[done - 1]. */
  method LabelNeighbours(nodes: seq<GraphNode>, edges: seq<Edge>, vertices: seq<Vertex>, polylines: seq<Points>,
                         ghost sides: seq<Side>, ghost root: nat, node: nat, s: seq<Side>, nodeQueue: seq<nat>,
                         ghost order: seq<nat>, ghost tree: seq<(nat, nat)>, ghost done: nat)
    returns (ok: bool, s': seq<Side>, nodeQueue': seq<nat>, ghost order': seq<nat>, ghost tree': seq<(nat, nat)>)
    requires Linked(nodes, edges) && |sides| == |nodes|
    requires 1 <= done && Walk(nodes, edges, vertices, polylines, sides, root, s, order, tree, done)
    requires node == order[done - 1] && nodeQueue == order[done..]
    requires Closed(nodes, edges, s, order, done - 1)
    ensures ok ==> Walk(nodes, edges, vertices, polylines, sides, root, s', order', tree', done)
    ensures ok ==> nodeQueue' == order'[done..] && Closed(nodes, edges, s', order', done)
    ensures ok ==> multiset(s')[UNKNOWN] < multiset(s)[UNKNOWN] || (s' == s && nodeQueue' == nodeQueue)
    ensures !ok ==> exists k, j :: Unreadable(nodes, edges, vertices, polylines, k, j)
  {
    s', nodeQueue', order', tree' := s, nodeQueue, order, tree;
    var i := 0;
    while i < |nodes[node].edgeArray|
      invariant 0 <= i <= |nodes[node].edgeArray|
      invariant Labelling(nodes, edges, vertices, polylines, sides, root, s, nodeQueue, order, done, i, s', nodeQueue', order', tree')
    {
      ok, s', nodeQueue', order', tree' := VisitEdge(nodes, edges, vertices, polylines, sides, root, node, s, nodeQueue, order, done, i,
                                                     s', nodeQueue', order', tree');
      if !ok {
        return;
      }
      i := i + 1;
    }
    LabellingDone(nodes, edges, vertices, polylines, sides, root, s, nodeQueue, order, done, s', nodeQueue', order', tree');
    ok := true;
  }

  /** One turn of LabelNeighbours: the other end of the i-th edge is labelled and enqueued when it is UNKNOWN. */
  method VisitEdge(nodes: seq<GraphNode>, edges: seq<Edge>, vertices: seq<Vertex>, polylines: seq<Points>,
                   ghost sides: seq<Side>, ghost root: nat, node: nat, ghost s: seq<Side>, ghost nodeQueue: seq<nat>,
                   ghost order: seq<nat>, ghost done: nat, i: nat,
                   s': seq<Side>, nodeQueue': seq<nat>, ghost order': seq<nat>, ghost tree': seq<(nat, nat)>)
    returns (ok: bool, s'': seq<Side>, nodeQueue'': seq<nat>, ghost order'': seq<nat>, ghost tree'': seq<(nat, nat)>)
    requires Linked(nodes, edges) && |sides| == |nodes| && node < |nodes| && i < |nodes[node].edgeArray|
    requires Labelling(nodes, edges, vertices, polylines, sides, root, s, nodeQueue, order, done, i, s', nodeQueue', order', tree')
    requires node == order[done - 1]
    ensures ok ==> Labelling(nodes, edges, vertices, polylines, sides, root, s, nodeQueue, order, done, i + 1, s'', nodeQueue'', order'', tree'')
    ensures !ok ==> exists k, j :: Unreadable(nodes, edges, vertices, polylines, k, j)
  {
    var edge := edges[nodes[node].edgeArray[i]];
    assert LinkedAt(edge, node, |nodes|);
    var adjacentNode := GetOtherAdjacency(edge, node).value;
    assert Neighbour(nodes, edges, node, i) == Some(adjacentNode);
    ok, s'', nodeQueue'', order'', tree'' := true, s', nodeQueue', order', tree';
    if s'[adjacentNode] == UNKNOWN {
      var cut := EdgeCut(edge, vertices, polylines);
      if cut.None? {
        assert Unreadable(nodes, edges, vertices, polylines, node, i);
        return false, s', nodeQueue', order', tree';
      }
      LabelStep(nodes, edges, vertices, polylines, sides, root, s, nodeQueue, order, done, i, s', nodeQueue', order', tree', adjacentNode);
      s'' := s'[adjacentNode := Across(s'[node], cut.value)];
      nodeQueue'' := nodeQueue' + [adjacentNode];
      order'' := order' + [adjacentNode];
      tree'' := tree' + [(done - 1, i)];
    } else {
      SkipStep(nodes, edges, vertices, polylines, sides, root, s, nodeQueue, order, done, i, s', nodeQueue', order', tree', adjacentNode);
    }
  }

  /** A labelled i-th neighbour leaves the state of LabelNeighbours as it was, one edge on. */
  lemma SkipStep(nodes: seq<GraphNode>, edges: seq<Edge>, vertices: seq<Vertex>, polylines: seq<Points>,
                 sides: seq<Side>, root: nat, s: seq<Side>, nodeQueue: seq<nat>, order: seq<nat>, done: nat, i: nat,
                 s': seq<Side>, nodeQueue': seq<nat>, order': seq<nat>, tree': seq<(nat, nat)>, k: nat)
    requires Labelling(nodes, edges, vertices, polylines, sides, root, s, nodeQueue, order, done, i, s', nodeQueue', order', tree')
    requires Neighbour(nodes, edges, order[done - 1], i) == Some(k) && k < |s'| && s'[k] != UNKNOWN
    ensures Labelling(nodes, edges, vertices, polylines, sides, root, s, nodeQueue, order, done, i + 1, s', nodeQueue', order', tree')
  {
  }

  /**
   * The state of LabelNeighbours after the first i edges of node order[done - 1]: the walk's
   * invariant holds, the visit order and the queue only grew, and those i neighbours are labelled.
   */
  ghost predicate Labelling(nodes: seq<GraphNode>, edges: seq<Edge>, vertices: seq<Vertex>, polylines: seq<Points>,
                            sides: seq<Side>, root: nat, s: seq<Side>, nodeQueue: seq<nat>, order: seq<nat>, done: nat, i: nat,
                            s': seq<Side>, nodeQueue': seq<nat>, order': seq<nat>, tree': seq<(nat, nat)>) {
    1 <= done <= |order| && |order| <= |order'| && order'[..|order|] == order &&
    Walk(nodes, edges, vertices, polylines, sides, root, s', order', tree', done) &&
    nodeQueue' == order'[done..] &&
    Closed(nodes, edges, s', order', done - 1) &&
    (var node := order[done - 1];
     forall j :: 0 <= j < i && Neighbour(nodes, edges, node, j).Some? ==>
       Neighbour(nodes, edges, node, j).value < |s'| && s'[Neighbour(nodes, edges, node, j).value] != UNKNOWN) &&
    (multiset(s')[UNKNOWN] < multiset(s)[UNKNOWN] || (s' == s && nodeQueue' == nodeQueue))
  }

  /** Labelling the i-th neighbour, found UNKNOWN, advances the state of LabelNeighbours. */
  lemma LabelStep(nodes: seq<GraphNode>, edges: seq<Edge>, vertices: seq<Vertex>, polylines: seq<Points>,
                  sides: seq<Side>, root: nat, s: seq<Side>, nodeQueue: seq<nat>, order: seq<nat>, done: nat, i: nat,
                  s': seq<Side>, nodeQueue': seq<nat>, order': seq<nat>, tree': seq<(nat, nat)>, k: nat)
    requires Labelling(nodes, edges, vertices, polylines, sides, root, s, nodeQueue, order, done, i, s', nodeQueue', order', tree')
    requires Neighbour(nodes, edges, order[done - 1], i) == Some(k) && k < |s'| && s'[k] == UNKNOWN
    requires EdgeCut(edges[nodes[order[done - 1]].edgeArray[i]], vertices, polylines).Some?
    ensures var node := order[done - 1];
      var cut := EdgeCut(edges[nodes[node].edgeArray[i]], vertices, polylines).value;
      node < |s'| &&
      Labelling(nodes, edges, vertices, polylines, sides, root, s, nodeQueue, order, done, i + 1,
                s'[k := Across(s'[node], cut)], nodeQueue' + [k], order' + [k], tree' + [(done - 1, i)])
  {
    var node := order[done - 1];
    assert order'[done - 1] == node;
    var cut := EdgeCut(edges[nodes[node].edgeArray[i]], vertices, polylines).value;
    LabelKeepsWalk(nodes, edges, vertices, polylines, sides, root, s', order', tree', done, i, k);
    var s'' := s'[k := Across(s'[node], cut)];
    var order'' := order' + [k];
    assert order''[..|order|] == order'[..|order|];
    assert order''[done..] == nodeQueue' + [k];
    assert multiset(s'')[UNKNOWN] < multiset(s)[UNKNOWN];
  }

  /** The state of LabelNeighbours after its last edge gives its postcondition. */
  lemma LabellingDone(nodes: seq<GraphNode>, edges: seq<Edge>, vertices: seq<Vertex>, polylines: seq<Points>,
                      sides: seq<Side>, root: nat, s: seq<Side>, nodeQueue: seq<nat>, order: seq<nat>, done: nat,
                      s': seq<Side>, nodeQueue': seq<nat>, order': seq<nat>, tree': seq<(nat, nat)>)
    requires 1 <= done <= |order| && order[done - 1] < |nodes|
    requires Labelling(nodes, edges, vertices, polylines, sides, root, s, nodeQueue, order, done,
                       |nodes[order[done - 1]].edgeArray|, s', nodeQueue', order', tree')
    ensures Walk(nodes, edges, vertices, polylines, sides, root, s', order', tree', done)
    ensures nodeQueue' == order'[done..] && Closed(nodes, edges, s', order', done)
    ensures multiset(s')[UNKNOWN] < multiset(s)[UNKNOWN] || (s' == s && nodeQueue' == nodeQueue)
  {
    var node := order[done - 1];
    assert order'[done - 1] == node;
    forall a, j | 0 <= a < done && a < |order'| && Neighbour(nodes, edges, order'[a], j).Some?
      ensures Neighbour(nodes, edges, order'[a], j).value < |s'| && s'[Neighbour(nodes, edges, order'[a], j).value] != UNKNOWN
    {
      if a == done - 1 {
        assert order'[a] == node;
      }
    }
  }

  /** Labelling a fresh neighbour of order[done - 1] across its i-th edge keeps the walk's invariant. */
  lemma LabelKeepsWalk(nodes: seq<GraphNode>, edges: seq<Edge>, vertices: seq<Vertex>, polylines: seq<Points>,
                       sides: seq<Side>, root: nat, s: seq<Side>, order: seq<nat>, tree: seq<(nat, nat)>,
                       done: nat, i: nat, k: nat)
    requires 1 <= done && Walk(nodes, edges, vertices, polylines, sides, root, s, order, tree, done)
    requires Neighbour(nodes, edges, order[done - 1], i) == Some(k) && k < |s| && s[k] == UNKNOWN
    requires EdgeCut(edges[nodes[order[done - 1]].edgeArray[i]], vertices, polylines).Some?
    ensures var node := order[done - 1];
      var s' := s[k := Across(s[node], EdgeCut(edges[nodes[node].edgeArray[i]], vertices, polylines).value)];
      Walk(nodes, edges, vertices, polylines, sides, root, s', order + [k], tree + [(done - 1, i)], done) &&
      multiset(s')[UNKNOWN] < multiset(s)[UNKNOWN] &&
      (forall m :: m in order ==> s'[m] == s[m]) &&
      (forall m :: 0 <= m < |s| && s[m] != UNKNOWN ==> s'[m] != UNKNOWN)
  {
    var node := order[done - 1];
    var cut := EdgeCut(edges[nodes[node].edgeArray[i]], vertices, polylines).value;
    var side := Across(s[node], cut);
    assert k !in order;
    LabelKeepsOrder(sides, root, s, order, k, side);
    LabelKeepsPropagated(nodes, edges, vertices, polylines, s, order, tree, done, i, k);
    LabelCountsDown(s, k, side);
  }

  /** Labelling an unvisited UNKNOWN node and appending it keeps the visit order's invariant. */
  lemma LabelKeepsOrder(sides: seq<Side>, root: nat, s: seq<Side>, order: seq<nat>, k: nat, side: Side)
    requires KeepsKnown(sides, s) && VisitOrder(sides, root, s, order)
    requires k < |s| && s[k] == UNKNOWN && k !in order && side != UNKNOWN
    ensures KeepsKnown(sides, s[k := side]) && VisitOrder(sides, root, s[k := side], order + [k])
    ensures forall m :: m in order ==> s[k := side][m] == s[m]
    ensures forall m :: 0 <= m < |s| && s[m] != UNKNOWN ==> s[k := side][m] != UNKNOWN
  {
    var order' := order + [k];
    assert forall m :: m in order' <==> m in order || m == k;
    forall a, b | 0 <= a < b < |order'| ensures order'[a] != order'[b] {
      if b == |order| {
        assert order'[a] in order;
      }
    }
  }

  /** The new node was labelled across an edge of order[done - 1], so the tree still explains every visit. */
  lemma LabelKeepsPropagated(nodes: seq<GraphNode>, edges: seq<Edge>, vertices: seq<Vertex>, polylines: seq<Points>,
                             s: seq<Side>, order: seq<nat>, tree: seq<(nat, nat)>, done: nat, i: nat, k: nat)
    requires 1 <= done <= |order| && Propagated(nodes, edges, vertices, polylines, s, order, tree, done)
    requires Neighbour(nodes, edges, order[done - 1], i) == Some(k) && k < |s| && k !in order
    requires order[done - 1] < |s| && EdgeCut(edges[nodes[order[done - 1]].edgeArray[i]], vertices, polylines).Some?
    ensures var node := order[done - 1];
      var s' := s[k := Across(s[node], EdgeCut(edges[nodes[node].edgeArray[i]], vertices, polylines).value)];
      Propagated(nodes, edges, vertices, polylines, s', order + [k], tree + [(done - 1, i)], done)
  {
    var node := order[done - 1];
    var s' := s[k := Across(s[node], EdgeCut(edges[nodes[node].edgeArray[i]], vertices, polylines).value)];
    var order' := order + [k];
    var tree' := tree + [(done - 1, i)];
    forall a | 0 < a < |order'|
      ensures tree'[a].0 < a && tree'[a].0 < done && Step(nodes, edges, vertices, polylines, s', order'[tree'[a].0], tree'[a].1, order'[a])
    {
      if a < |order| {
        assert Step(nodes, edges, vertices, polylines, s, order[tree[a].0], tree[a].1, order[a]);
        assert order[tree[a].0] != k && order[a] != k;
      } else {
        assert order'[tree'[a].0] == node && node != k;
      }
    }
  }

  /** Labelling an UNKNOWN node leaves one UNKNOWN fewer. */
  lemma LabelCountsDown(s: seq<Side>, k: nat, side: Side)
    requires k < |s| && s[k] == UNKNOWN && side != UNKNOWN
    ensures multiset(s[k := side])[UNKNOWN] == multiset(s)[UNKNOWN] - 1
  {
  }

  /**
   * With no edges (the source's graphs, whose edge finder always fails) the walk
   * visits only the root and changes no label.
   */
  lemma {:induction false} ColoringWithoutEdges(nodes: seq<GraphNode>, edges: seq<Edge>, vertices: seq<Vertex>,
                                                polylines: seq<Points>, sides: seq<Side>, root: nat,
                                                s: seq<Side>, order: seq<nat>, tree: seq<(nat, nat)>)
    requires NoEdges(nodes) && |sides| == |nodes| && root < |nodes| && sides[root] != UNKNOWN
    requires KeepsKnown(sides, s) && VisitOrder(sides, root, s, order)
    requires Propagated(nodes, edges, vertices, polylines, s, order, tree, |order|)
    ensures order == [root] && s == sides
  {
    SecondVisitHasEdge(nodes, edges, vertices, polylines, s, order, tree, |order|);
    assert |order| == 1;
    forall k | 0 <= k < |s| ensures s[k] == sides[k] {
      if sides[k] == UNKNOWN && k != root {
        assert k !in order;
      }
    }
  }

  /** The second visited node was reached across an existing edge of its parent. */
  lemma SecondVisitHasEdge(nodes: seq<GraphNode>, edges: seq<Edge>, vertices: seq<Vertex>, polylines: seq<Points>,
                           s: seq<Side>, order: seq<nat>, tree: seq<(nat, nat)>, done: nat)
    requires Propagated(nodes, edges, vertices, polylines, s, order, tree, done)
    ensures |order| > 1 ==> order[tree[1].0] < |nodes| && tree[1].1 < |nodes[order[tree[1].0]].edgeArray|
  {
    if |order| > 1 {
      assert Step(nodes, edges, vertices, polylines, s, order[tree[1].0], tree[1].1, order[1]);
    }
  }
}
