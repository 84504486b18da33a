# MeshWarrior core, modelled in Dafny

MeshWarrior is a C++ library for polygon meshes. A mesh is an indexed face set. Its
central operation is the boolean set operation, which combines two meshes: every face
of both meshes is stored in a set of faces, colliding pairs are cut against each
other's planes, the pieces are rebuilt into two refined meshes, their face graphs are
coloured inside or outside the other mesh, and flags choose which coloured buckets go
into the output meshes.

This project models that core and the data structures it rests on. It has one Dafny
module per source class:

- `AxisAlignedBoxes`: the axis-aligned box. Its queries are functions; its updates are
  methods of a class over `min` and `max`.
- `BoundingBoxTrees`: the bounding-box tree. It holds guests and answers overlap queries.
  The tree is a datatype value held in the tree object's `rootNode` field.
- `Compressors`: the pairwise array compressor.
- `Geometry`: vectors, planes and line segments over exact reals. A `Kernel` value
  supplies the operations that take a square root or whose bodies are not modelled.
- `Polygons`: polygons and convex polygons. This covers validity, containment, winding
  reversal, edge planes and the split against a plane.
- `Polylines`: polylines. This covers stitching segments into polylines, reduction and
  vertex search.
- `Meshes`: the mesh class, with its vertex list, its face list and its optional
  position index.
- `MeshGraphs`: the adjacency graph of a mesh, laid out as an arena of nodes.
- `TypeHeaps`: the fixed-size stack heap that hands out face addresses.
- `OrderedSets`: `std::set` of addresses as a strictly increasing sequence.
- `CollisionPairs`: the queue of colliding face pairs.
- `GraphColorings`: the inside/outside breadth-first colouring.
- `MeshSetOperations`: the set operation itself.
- `MeshMerges`: the mesh merge operation.
- `ObjFormats`: the token and index logic of the Wavefront OBJ reader.
- `CppInts` and `Wrappers`: 32-bit ints and optional values.

The model follows the bodies in the `.cpp` files. Where a header declares a different
behaviour, the `.cpp` body wins.

In the source, `MeshGraph::FindCommonEdge` always returns null, so the graphs built
during the set operation have no edges. The colouring therefore labels only the root
node of each graph. The model keeps that behaviour and proves its consequences.

Three kinds of failure become an `ok == false` or `None` result in the model:

- a crash or null dereference the source would hit;
- a heap exhaustion;
- a loop that runs out of its fuel bound.

## Model

| member | source | states |
|---|---|---|
| AxisAlignedBoxes.ValidIffContainsSomePoint | Source/AxisAlignedBox.cpp:36-60 | a box is valid (min <= max on every axis) exactly when it contains at least one point |
| AxisAlignedBoxes.ContainsBoxMeansSubset | Source/AxisAlignedBox.cpp:50-73 | testing the two corners is the same as testing every point of a valid box |
| AxisAlignedBoxes.ContainsBoxTransitive | Source/AxisAlignedBox.cpp:70-73 | box containment is transitive |
| AxisAlignedBoxes.ContainerIsValid | Source/AxisAlignedBox.cpp:36-60 | a box that contains some point is valid |
| AxisAlignedBoxes.SentinelRecognised | Source/AxisAlignedBox.cpp:6-12 | the box built by the default constructor passes the default-box test of MinimallyExpandToContainPoint |
| AxisAlignedBoxes.ExpandSentinel | Source/AxisAlignedBox.cpp:116-123 | expanding the default box by a point gives the single-point box at that point |
| AxisAlignedBoxes.ExpandContains | Source/AxisAlignedBox.cpp:116-129 | after expansion the point is contained; a box not taken for the default keeps every point it held and ends up containing its old self exactly when it was valid |
| AxisAlignedBoxes.SentinelTestIgnoresMaxY | Source/AxisAlignedBox.cpp:118-119 | the default-box test compares max.x twice and never max.y, so a box other than the default box that holds a point can be reset and lose that point |
| AxisAlignedBoxes.ExpandedByBoxContainsCorners | Source/AxisAlignedBox.cpp:131-135 | expanding by a valid box contains both its corners and the whole box, unless an x coordinate reaches FLT_MAX |
| AxisAlignedBoxes.CombinedContainsBoth | Source/AxisAlignedBox.cpp:137-141 | Combine gives a box that contains both valid boxes, and every box containing both contains it |
| AxisAlignedBoxes.OverlapsSymmetric | Source/AxisAlignedBox.cpp:143-154 | overlap does not depend on argument order |
| AxisAlignedBoxes.OverlapsIffCommonPoint | Source/AxisAlignedBox.cpp:143-154 | two boxes overlap exactly when some point lies in both |
| AxisAlignedBoxes.OverlapsMonotone | Source/AxisAlignedBox.cpp:143-154 | a box containing one of two overlapping boxes overlaps the other |
| AxisAlignedBoxes.SplitShape | Source/AxisAlignedBox.cpp:156-185 | the cut is at the centre of the longest axis, with ties going to x and then y; boxA keeps min and boxB keeps max, and all other coordinates are copied |
| AxisAlignedBoxes.SplitCovers | Source/AxisAlignedBox.cpp:156-185 | both halves of a valid box are valid and lie inside it, and a point is in the box exactly when it is in one of the halves |
| AxisAlignedBoxes.BoundOfContainsAll | Source/Mesh.cpp:157-165 | the box built by expanding the default box by each point contains every point, unless an x coordinate is FLT_MAX |
| AxisAlignedBoxes.AxisAlignedBox.constructor | Source/AxisAlignedBox.cpp:6-12 | a new box is the default box: x and y span FLT_MIN to FLT_MAX and z is flat at 0 |
| AxisAlignedBoxes.AxisAlignedBox.MinimallyExpandToContainPoint | Source/AxisAlignedBox.cpp:116-129 | the new box is the expansion of the old one by the point (ExpandContains states what the expansion contains) |
| AxisAlignedBoxes.AxisAlignedBox.MinimallyExpandToContainBox | Source/AxisAlignedBox.cpp:131-135 | the new box is the old one expanded by min and then by max |
| AxisAlignedBoxes.AxisAlignedBox.Combine | Source/AxisAlignedBox.cpp:137-141 | the new box is the corner-wise min/max of the two boxes |
| AxisAlignedBoxes.AxisAlignedBox.Intersect | Source/AxisAlignedBox.cpp:143-148 | the new box is the corner-wise intersection, and the result says whether it is valid |
| AxisAlignedBoxes.AxisAlignedBox.SplitReasonably | Source/AxisAlignedBox.cpp:156-186 | the two out-boxes receive the halves described by SplitShape and SplitCovers |
| BoundingBoxTrees.SplitHalvesInside | Source/AxisAlignedBox.cpp:156-185 | for every valid box, both SplitReasonably halves lie inside it |
| BoundingBoxTrees.SplitHalvesCover | Source/AxisAlignedBox.cpp:156-185 | for every valid box, each of its points lies in one of the SplitReasonably halves |
| BoundingBoxTrees.AddToNode | Source/BoundingBoxTree.cpp:66-85 | a node whose box does not contain the guest's box refuses it and is unchanged; a refusal never changes the node; a node whose box does contain it never refuses it (it accepts, or the fuel runs out); an acceptance leaves an inner node with the same box |
| BoundingBoxTrees.AddStoresOnce | Source/BoundingBoxTree.cpp:66-85 | an accepted guest is stored exactly once more, and no other guest is added or lost (multiset equality) |
| BoundingBoxTrees.AddPlacement | Source/BoundingBoxTree.cpp:66-85 | a childless node first gets the two halves of its box as children; the guest goes into the node's own list exactly when neither child's box contains it, and otherwise that list is unchanged |
| BoundingBoxTrees.AddKeepsSound | Source/BoundingBoxTree.cpp:66-85 | adding keeps the tree sound: every guest lies inside the box of its node, and every child lies inside its parent |
| BoundingBoxTrees.SoundContainsAll | Source/BoundingBoxTree.cpp:66-85 | in a sound tree, every stored guest lies inside the box of each node above it |
| BoundingBoxTrees.PointGuestNeverPlaced | Source/BoundingBoxTree.cpp:66-85 | a guest whose box is a single point inside a fresh leaf is never placed at any recursion depth, because one half of every split still contains it, so the recursion has no bottom |
| BoundingBoxTrees.Overlapping | Source/BoundingBoxTree.cpp:96-98 | the hits are exactly the list's guests whose boxes overlap the query: every hit overlaps and is listed, and every overlapping listed guest is a hit |
| BoundingBoxTrees.QueryNode | Source/BoundingBoxTree.cpp:87-99 | a node whose box misses the query reports nothing and is unchanged; every reported guest overlaps the query; the node keeps its box and its shape |
| BoundingBoxTrees.QueryKeepsGuests | Source/BoundingBoxTree.cpp:87-99 | a query loses no stored guest, adds no new one, and reports only stored guests |
| BoundingBoxTrees.QueryKeepsGuestSet | Source/BoundingBoxTree.cpp:87-99 | the set of distinct stored guests is the same before and after a query |
| BoundingBoxTrees.QueryKeepsSound | Source/BoundingBoxTree.cpp:87-99 | a query keeps the tree sound, even though the children's hits are copied into the parent's list |
| BoundingBoxTrees.QueryComplete | Source/BoundingBoxTree.cpp:87-99 | in a sound tree a query reports every stored guest whose box overlaps the query box |
| BoundingBoxTrees.RepeatedQueryDuplicates | Source/BoundingBoxTree.cpp:92-98 | the children report into the node's own guestList, so a second identical query reports a guest twice and the root's list has grown |
| BoundingBoxTrees.BoundingBoxTree.constructor | Source/BoundingBoxTree.cpp:5-8 | a new tree has no root |
| BoundingBoxTrees.BoundingBoxTree.SetRootBox | Source/BoundingBoxTree.cpp:15-22 | creates an empty root with the box only when there is no root; otherwise the tree is unchanged |
| BoundingBoxTrees.BoundingBoxTree.AddGuest | Source/BoundingBoxTree.cpp:24-30 | fails without a root; otherwise the tree takes the root's result: the root keeps its box and accepts exactly the guests its box contains, an accepted guest adds exactly itself to the set of stored guests and one to the guest count, and a sound tree stays sound |
| BoundingBoxTrees.BoundingBoxTree.FindGuests | Source/BoundingBoxTree.cpp:32-38 | the output starts empty and a rootless tree reports nothing; otherwise the root is queried, the set of stored guests is unchanged and every hit is a stored guest; in a sound tree every stored guest whose box overlaps the query box is reported, and the tree stays sound |
| BoundingBoxTrees.BoundingBoxTree.Clear | Source/BoundingBoxTree.cpp:40-44 | the tree has no root afterwards |
| Compressors.LiveCountClear | Source/Compressor.h:40-41 | nulling a live slot removes exactly one item |
| Compressors.InitialPairs | Source/Compressor.h:20-23 | the queue holds exactly the pairs i < j < n, in the double loop's lexicographic order |
| Compressors.QueueWithLast | Source/Compressor.h:45-47 | the old queue is kept as a prefix, every queued pair is in range, and the pair (k, last) is queued for every live slot k before the new last slot |
| Compressors.Merge | Source/Compressor.h:37-47 | both merged slots become null and the merged item is appended; the live count drops by one but stays positive; every pair of live slots is still queued or was refused; a weight under which the merged item weighs as much as its two parts has the same total over the live slots before and after |
| Compressors.Contiguous | Source/Compressor.h:52-57 | the result is the non-null entries in slot order, each taken from a strictly later slot than the one before it |
| Compressors.CompressArray | Source/Compressor.h:13-58 | no two survivors can be merged (each pair was offered to the compressor and refused); the count of items never grows; the result is empty exactly when no slot was live; for a compressor whose merges add a weight's values, the survivors carry the same total weight as the live input; a compressor that never merges leaves the non-null entries as they were |
| Compressors.SumWClear | Source/Compressor.h:40-41 | nulling a live slot takes exactly that item's weight off the total of the live slots |
| Meshes.Points | Source/Mesh.cpp:161-162 | gives one position per vertex, in vertex order |
| Meshes.FaceMatchesExtend | Source/Mesh.cpp:111-118 | appending vertices does not change what an existing face's indices refer to |
| Meshes.FirstWithin | Source/Mesh.cpp:125-127 | the scan finds the lowest index from i on whose vertex lies within eps of the point, and None only when there is no such index |
| Meshes.Mesh.constructor | Source/Mesh.cpp:10-15 | a new mesh has no vertices, no faces and no index |
| Meshes.Mesh.GetVertex | Source/Mesh.cpp:24-30 | null exactly for an index outside [0, size); otherwise the vertex at that index |
| Meshes.Mesh.GetFace | Source/Mesh.cpp:56-62 | null exactly for an index outside [0, size); otherwise the face at that index |
| Meshes.Mesh.CalcBoundingBox | Source/Mesh.cpp:157-165 | the default box expanded by every vertex position in list order (AxisAlignedBoxes.BoundOfContainsAll says what it contains) |
| Meshes.Mesh.SetVertex | Source/Mesh.cpp:37-44 | succeeds exactly for a valid index and then overwrites only that slot; on failure nothing changes |
| Meshes.Mesh.SetFace | Source/Mesh.cpp:69-76 | succeeds exactly for a valid index and then overwrites only that slot, without checking the new face; on failure nothing changes |
| Meshes.Mesh.Clear | Source/Mesh.cpp:88-92 | both lists become empty and the index is kept |
| Meshes.Mesh.AddVertex | Source/Mesh.cpp:94-98 | the vertex is appended and its index (the old size) is returned |
| Meshes.Mesh.AddFace | Source/Mesh.cpp:100-109 | the face is appended exactly when every one of its indices names an existing vertex; otherwise nothing changes |
| Meshes.Mesh.FindVertex | Source/Mesh.cpp:136-139 | without an index, or with eps not zero, the result is -1 exactly when no vertex lies within eps; otherwise it is the lowest such index |
| Meshes.Mesh.FindOrCreateVertex | Source/Mesh.cpp:120-134 | a vertex that is found gives its index and changes nothing; a vertex not found gives -1 when creating is not allowed, and otherwise is appended and gets the new last index, with a consulted index learning its key |
| Meshes.Mesh.AddPolygon | Source/Mesh.cpp:111-118 | exactly one face is appended, with one index per polygon vertex; on the scanning path every index is valid and names a vertex within eps of the polygon's vertex, and the old vertices are kept |
| Meshes.Mesh.ToPolygonArray | Source/Mesh.cpp:141-147 | gives one polygon per face, in face order, made of the vertices that face indexes |
| Meshes.Mesh.GeneratePolygon | Source/Mesh.cpp:167-175 | gives the face's vertices in the face's order |
| Meshes.Mesh.FromPolygonArray | Source/Mesh.cpp:149-155 | appends one face per polygon, in order, each matching its polygon within the default eps; old faces and vertices are kept; faces stay valid; the index is dropped |
| Meshes.Mesh.RebuildIndexIfNeeded | Source/Mesh.cpp:205-213 | a valid index is kept; a missing or stale index is replaced by a fresh one rebuilt from the vertices; the lists are unchanged |
| Meshes.Index.constructor | Source/Mesh.cpp:217-220 | a new index has an empty map |
| Meshes.Index.Lookup | Source/Mesh.cpp:231-234 | finds a vertex exactly when its key is in the map, and then gives the mapped index |
| Meshes.Index.FindOrCreateVertex | Source/Mesh.cpp:227-243 | a key that is present gives its index and changes nothing; otherwise, when creating is allowed, the vertex is appended and its key mapped to the new index, and when it is not, -1 is returned |
| Meshes.Index.Rebuild | Source/Mesh.cpp:253-263 | afterwards each vertex's key maps to the last index with that key, and nothing else is mapped |
| Meshes.MapsLastIndexStep | Source/Mesh.cpp:257-262 | mapping the key of vertex i to i extends the map of the first i vertices to the map of the first i + 1 |
| Meshes.InjectiveValuesCard | Source/Mesh.cpp:270-287 | a map in which no two keys share an index has as many distinct indices as keys |
| Meshes.ValidIndexIsBijection | Source/Mesh.cpp:265-291 | an index that passes IsValid maps every vertex's key back to that very vertex, so no two vertices share a key |
| MeshGraphs.NewEdgeVertexExisting | Source/MeshGraph.cpp:122-125 | a new existing-vertex end refers to no vertex (a negative index) |
| MeshGraphs.NewEdge | Source/MeshGraph.cpp:153-160 | a new edge has both adjacencies and both ends null |
| MeshGraphs.NewNode | Source/MeshGraph.cpp:100-103 | a new node stands for no face and has no edges |
| MeshGraphs.CppRem2 | Source/MeshGraph.cpp:168-171 | C++ `i % 2`: 0 or 1 for non-negative i, 0 or -1 for negative i, always congruent to i modulo 2 |
| MeshGraphs.ResolveEdgeVertex | Source/MeshGraph.cpp:131-149 | a new end gives its own vertex; an existing end gives the mesh vertex exactly when its index is in range, and null otherwise |
| MeshGraphs.EdgeGetVertexParity | Source/MeshGraph.cpp:168-171 | GetVertex reads end 0 for every even index and end 1 for every non-negative odd index, a negative odd index has no slot, and indices two apart read the same end |
| MeshGraphs.GetOtherAdjacency | Source/MeshGraph.h:59-60 | gives the adjacency that is not the given node, and null when the edge does not touch it |
| MeshGraphs.FaceBound | Source/MeshGraph.cpp:184-189 | the face's box is the default box, which the default-box test recognises |
| MeshGraphs.Link | Source/MeshGraph.cpp:57-58 | the two nodes' edge lists each gain the new edge at their end; every other node and every face number is unchanged |
| MeshGraphs.LinkKeepsLinked | Source/MeshGraph.cpp:54-59 | adding an edge between two different nodes of the graph to both their lists keeps every listed edge real, touching its node and leading to a different node of the graph |
| MeshGraphs.MeshGraph.constructor | Source/MeshGraph.cpp:7-11 | a new graph has no elements and no target mesh |
| MeshGraphs.MeshGraph.Clear | Source/MeshGraph.cpp:69-75 | every element is dropped and the target mesh is kept |
| MeshGraphs.MeshGraph.Generate | Source/MeshGraph.cpp:19-62 | afterwards node k stands for face k of the mesh, and every listed edge joins its node to a different node; with the source's finder, which never finds a common edge, the graph has no edges at all |
| MeshGraphs.AddNodes | Source/MeshGraph.cpp:28-34 | one edgeless node per face, in face order, and only those faces are stored in the tree |
| MeshGraphs.LinkGuests | Source/MeshGraph.cpp:36-61 | face numbers are unchanged and the graph stays linked; with a finder that never finds an edge the nodes are unchanged and there are no edges |
| MeshGraphs.LinkFound | Source/MeshGraph.cpp:48-60 | a face is never linked to itself; the graph stays linked and earlier edges are kept; with a finder that never finds an edge nothing changes |
| Geometry.Normalize | Source/Vector.cpp:35-55 | the divide-by-zero flag is raised exactly for the zero vector; when the kernel's normalisation scales a non-zero vector by a positive factor (as dividing by its length does), the result is a positive multiple of the input |
| Sequences.ReversedTwice | Source/Polygon.cpp:47-56 | reversing the winding twice restores the original vertex order |
| Sequences.ReversedContents | Source/Polygon.cpp:47-56 | reversal keeps every vertex with its multiplicity and swaps the first and last vertex |
| Polygons.ReverseWinding | Source/Polygon.cpp:47-56 | the vertex buffer afterwards holds the old vertices in reverse order |
| Polygons.CalcPlane | Source/Polygon.cpp:58-79 | fails for fewer than three vertices, and otherwise exactly when the cross product of the first two edges vanishes; on success the plane goes through vertex 0 with that normal normalised |
| Polygons.CalcPlaneThroughFirstThree | Source/Polygon.cpp:58-79 | with a normalisation that scales by a positive factor, a plane found has three or more vertices, passes through vertices 0, 1 and 2 (signed distance exactly zero), and its normal points the way of the cross product of the first two edges |
| Polygons.TooFewVertices | Source/Polygon.cpp:19-61 | with fewer than three vertices there is no plane, and neither Polygon::IsValid nor ConvexPolygon::IsValid holds |
| Polygons.EdgePlanesFromShape | Source/Polygon.cpp:166-185 | the generated planes are those of edges i, i + 1, ... up to the first edge whose normal cannot be normalised, and generation succeeds exactly when there is no such edge |
| Polygons.EdgePlanesOnSuccess | Source/Polygon.cpp:160-186 | on success there is exactly one edge plane per vertex: plane i goes through vertex i, normal to edge i -> (i + 1) mod n and to the polygon's normal |
| Polygons.GenerateEdgePlaneArray | Source/Polygon.cpp:160-186 | without a plane the output list is left as it was and false is returned; otherwise the list holds the planes of edges 0, 1, ... up to the first degenerate edge, and true is returned exactly when every edge got one |
| Polygons.ContainsPointCases | Source/Polygon.cpp:201-219 | a point more than eps off the polygon's plane, or more than eps in front of any edge plane, is not contained; a polygon without a plane contains every point, because its default plane has a zero normal and it has no edge planes |
| Polygons.SidesByDistance | Source/Polygon.cpp:293-307 | the front takes exactly the points with distance > -1e-6, the back those with distance < 1e-6, both take the on-plane points, and every point goes somewhere |
| Polygons.SplitCounts | Source/Polygon.cpp:293-307 | the front and back sizes add up to the number of candidate points plus the number of on-plane points |
| Polygons.CollectCandidates | Source/Polygon.cpp:277-289 | the candidate list is each vertex in order, each followed by the point where its edge crosses the plane, if there is one |
| Polygons.Classify | Source/Polygon.cpp:291-307 | the front and back lists are the candidates that the bucketing rule sends to each side, in order |
| Polygons.SplitAgainstPlane | Source/Polygon.cpp:273-315 | the output list is not cleared: it gains the front and then the back part only when both have at least three points, and the result says whether the output list is non-empty |
| Polylines.MergePolylines | Source/Polyline.cpp:29-77 | no merge exactly when none of the four end-point pairs is closer than eps; a merged polyline has \|A\| + \|B\| - 1 vertices |
| Polylines.MergeDropsOneEndPoint | Source/Polyline.cpp:37-68 | a merge keeps every vertex of both inputs except one shared end point, which is closer than eps to a vertex of the result; the result starts and ends at end points of the inputs |
| Polylines.JoinContents | Source/Polyline.cpp:40-43 | A followed by B without its first point keeps all other vertices and runs from A's first to B's last point |
| Polylines.SeedPolylines | Source/Polyline.cpp:19-27 | one two-point polyline [GetPoint(0), GetPoint(1)] per segment, in input order |
| Polylines.SeedsAreLive | Source/Polyline.cpp:21-27 | every seed slot is live, so the compressor starts with one item per segment |
| Polylines.SeedsSpan | Source/Polyline.cpp:19-27 | the two-point seeds span one segment each, so together as many as there are segments |
| Polylines.MergeSpans | Source/Polyline.cpp:29-77 | a merged polyline spans exactly the segments of its two parts |
| Polylines.GeneratePolylines | Source/Polyline.cpp:17-78 | the output is replaced; the polylines together span every segment once (their spans, vertex count minus one, add up to the number of segments); so there are no more polylines than segments, and none exactly when there are no segments; no two of them can still be joined (no end point is closer than eps to an end point of another) |
| Polylines.Polyline.constructor | Source/Polyline.cpp:7-10 | a new polyline has no vertices |
| Polylines.Polyline.Reduce | Source/Polyline.cpp:80-100 | the vertex count never grows; the result is the old polyline with some middle vertices removed, the first and last vertex kept; no remaining middle vertex lies on the segment between its neighbours |
| Polylines.Polyline.HasVertex | Source/Polyline.cpp:102-109 | true exactly when some vertex is within eps of the point, inclusive |
| Polylines.ReduceVertices | Source/Polyline.cpp:84-99 | the repeat-until-no-change loop terminates with a sub-polyline that keeps both ends and is reduced |
| Polylines.RemoveVertex | Source/Polyline.cpp:93-95 | the shifting loop followed by pop_back removes exactly vertex j |
| Polylines.ReducePass | Source/Polyline.cpp:87-98 | a pass that removes something shortens the polyline; a pass that removes nothing leaves it unchanged and shows it is reduced |
| Polylines.PassStep | Source/Polyline.cpp:88-97 | one turn of the for loop keeps the pass's invariant and never adds a vertex |
| Polylines.ReduceAt | Source/Polyline.cpp:90-97 | vertex i + 1 is removed exactly when it lies on the segment from vertex i to vertex i + 2; otherwise nothing changes |
| Polylines.HasVertexFrom | Source/Polyline.cpp:104-108 | the search from index i succeeds exactly when some vertex from i on is within eps |
| Polylines.RemoveMiddleKeepsIndices | Source/Polyline.cpp:93-95 | removing a middle vertex leaves a sub-polyline of the original that keeps both ends |
| Polylines.KeptIndicesEnds | Source/Polyline.cpp:80-100 | a sub-polyline described by kept indices is no longer than the original and has its first and last vertex |
| TypeHeaps.StackHeap.constructor | Source/TypeHeap.h:44-53 | the free stack is [0, 1, ..., n - 1]: every slot is free and none is live |
| TypeHeaps.StackHeap.Allocate | Source/TypeHeap.h:61-75 | an empty free stack gives null and changes nothing; otherwise the top (last) free index is popped and its address returned, so the first allocation is slot n - 1; on a valid heap that address was not live before and is afterwards, and exactly its slot joins the live set |
| TypeHeaps.StackHeap.Deallocate | Source/TypeHeap.h:77-87 | an address inside the buffer pushes its slot index, so the next Allocate returns that slot again; any other address changes nothing; returning a live address keeps the heap valid and frees exactly its slot |
| TypeHeaps.StackHeap.LiveAddressesDiffer | Source/TypeHeap.h:69-85 | two different live addresses name different slots |
| TypeHeaps.StackHeap.DeallocateLiveKeepsValid | Source/TypeHeap.h:77-87 | pushing the slot of a live address keeps the free indices distinct and in range |
| TypeHeaps.StackHeap.AddressRoundTrip | Source/TypeHeap.h:71-84 | the address of slot i lies in the buffer and divides back to i with no remainder |
| TypeHeaps.StackHeap.FreePlusLive | Source/TypeHeap.h:44-87 | without a double free, the free and live slots together number stackSize |
| ObjFormats.Current | Source/MeshFormats/OBJFormat.cpp:48-50 | the piece still being read holds no delimiter, and it is empty exactly when the text is empty or ends in the delimiter |
| ObjFormats.JoinWithAppend | Source/MeshFormats/OBJFormat.cpp:48-50 | extending the last piece by one character extends the joined text by that character |
| ObjFormats.JoinPieces | Source/MeshFormats/OBJFormat.cpp:48-50 | splitting on the delimiter loses nothing: the closed pieces and the current one, joined with the delimiter, give the text back |
| ObjFormats.DoneHasNoDelimiter | Source/MeshFormats/OBJFormat.cpp:48-50 | no piece closed by a delimiter contains the delimiter |
| ObjFormats.Kept | Source/MeshFormats/OBJFormat.cpp:51-52 | the kept tokens are never more than the pieces read, and without stripping they are all of them |
| ObjFormats.KeptMembers | Source/MeshFormats/OBJFormat.cpp:51-52 | every kept token was read, stripping keeps no empty token, and every non-empty piece is kept |
| ObjFormats.MembersSnoc | Source/MeshFormats/OBJFormat.cpp:52 | after a push_back the tokens are the old ones and the new one |
| ObjFormats.TokensProperties | Source/MeshFormats/OBJFormat.cpp:46-53 | no token holds the delimiter; with stripping no token is empty; without stripping the tokens joined by the delimiter are the line, less one trailing delimiter; an empty line gives no token |
| ObjFormats.TokenizeLine | Source/MeshFormats/OBJFormat.cpp:46-53 | the tokens of the line are appended after those already in the array, in order, and nothing already there changes |
| ObjFormats.ReadPieces | Source/MeshFormats/OBJFormat.cpp:48-52 | the getline loop emits every piece closed by a delimiter (subject to stripping) and ends holding the piece after the last delimiter |
| ObjFormats.AppendAssoc | Source/MeshFormats/OBJFormat.cpp:52 | appending tokens one batch after another is the same as appending them together |
| ObjFormats.LastStep | Source/MeshFormats/OBJFormat.cpp:50-52 | at the end of the line the final piece is read only when it is not empty, so a trailing delimiter yields no extra token |
| ObjFormats.ReadStep | Source/MeshFormats/OBJFormat.cpp:50-52 | one more character either closes the current piece (a delimiter) or extends it by that character |
| ObjFormats.ResolvedIndex | Source/MeshFormats/OBJFormat.cpp:117-128 | the resolved position is always inside the array; 1-based indices count from the front, negative ones from the back, 0 is the first entry, and indices past either end clamp to that end |
| ObjFormats.LookupAndAssign | Source/MeshFormats/OBJFormat.cpp:113-132 | an empty array or a missing index (INT_MAX) leaves the result unchanged; otherwise the result is an entry of the array, entry i - 1 for 1 <= i <= n and entry n + i for a negative index within range |
| ObjFormats.FieldIndex | Source/MeshFormats/OBJFormat.cpp:98-100 | a missing or empty field gives INT_MAX, a present one gives atoi of its text |
| ObjFormats.NotKeyword | Source/MeshFormats/OBJFormat.cpp:88-91 | the number of face tokens that are not the keyword "f" is the token count less the occurrences of "f" |
| ObjFormats.VectorFrom | Source/MeshFormats/OBJFormat.cpp:62-65 | each of x, y, z is atof of tokens 1, 2, 3 when present and 0 when missing |
| ObjFormats.ObjFormat.constructor | Source/MeshFormats/OBJFormat.cpp:6-9 | a new reader starts with all five arrays empty |
| ObjFormats.ObjFormat.FaceVertex | Source/MeshFormats/OBJFormat.cpp:93-104 | a face token's "/"-separated fields select the point, texture coordinates and normal through LookupAndAssign; the colour stays zero |
| ObjFormats.ObjFormat.FaceVertices | Source/MeshFormats/OBJFormat.cpp:88-107 | a face line yields exactly one vertex per token that is not "f" |
| ObjFormats.ObjFormat.MakeFacePolygon | Source/MeshFormats/OBJFormat.cpp:86-107 | the loop builds the polygon whose vertices are those of the non-"f" tokens, in order |
| ObjFormats.ObjFormat.MakeFaceVertex | Source/MeshFormats/OBJFormat.cpp:93-104 | the loop body for one token gives the vertex its fields describe |
| ObjFormats.ObjFormat.ProcessTokenizedLine | Source/MeshFormats/OBJFormat.cpp:55-111 | an empty line, a comment, an unknown keyword or a bare "f" changes nothing; "v", "vt" and "vn" append one vector to their own array and leave the others; "f" with more tokens appends one polygon built from the arrays as they were; the colour array never changes |
| ObjFormats.FaceLineVertexCount | Source/MeshFormats/OBJFormat.cpp:90-91 | every "f" token is skipped, not only the first: "f 1 f 2" has two vertices |
| ObjFormats.MissingFieldsLeaveDefaults | Source/MeshFormats/OBJFormat.cpp:98-104 | an empty token gives the default vertex, and "3" sets only the point |
| OrderedSets.Insert | Source/MeshOperations/MeshSetOperation.cpp:82 | std::set::insert adds the element and nothing else, keeps the order, and grows the set by one exactly when the element was new |
| OrderedSets.Erase | Source/MeshOperations/MeshSetOperation.cpp:152-153 | std::set::erase removes exactly that element, keeps the order and never grows the set |
| OrderedSets.IncreasingCons | Source/MeshOperations/MeshSetOperation.cpp:147 | an element below all of an ordered set can go in front of it |
| OrderedSets.IncreasingTail | Source/MeshOperations/MeshSetOperation.cpp:147 | the rest of an ordered set is ordered and above its first element |
| OrderedSets.EraseInsert | Source/MeshOperations/MeshSetOperation.cpp:152-159 | inserting a new element and erasing it again gives the set back |
| OrderedSets.EraseNothing | Source/MeshOperations/MeshSetOperation.cpp:152-153 | erasing an absent element changes nothing |
| OrderedSets.IncreasingUnique | Source/MeshOperations/MeshSetOperation.cpp:147 | two ordered sets with the same elements are the same sequence, so iteration order is fixed by the contents |
| OrderedSets.InsertAll | Source/MeshOperations/MeshSetOperation.cpp:154-159 | a loop of inserts gives an ordered set holding the old elements and every inserted one |
| OrderedSets.InsertElems | Source/MeshOperations/MeshSetOperation.cpp:156 | one insert adds exactly that element to the set's contents |
| OrderedSets.ElemsSnoc | Source/MeshOperations/MeshSetOperation.cpp:154-159 | one more inserted element adds exactly it |
| OrderedSets.ElemsConcat | Source/MeshOperations/MeshSetOperation.cpp:154-159 | the contents of two batches together are the union of their contents |
| OrderedSets.EraseElems | Source/MeshOperations/MeshSetOperation.cpp:152-153 | erase removes exactly that element from the contents |
| MeshMerges.Calculate | Source/MeshOperations/MeshMergeOperation.cpp:14-33 | the result is a new mesh with one face per face of A and then of B, each matching the polygon its source face described (same vertex count and positions within the mesh epsilon), with valid faces and no index |
| MeshMerges.MergedFacesMatch | Source/MeshOperations/MeshMergeOperation.cpp:23-30 | faces built from A's polygons followed by B's match A's polygons at the front and B's after them |
| MeshMerges.MergedPolygons | Source/MeshOperations/MeshMergeOperation.cpp:21-27 | the merged list is A's polygons in order followed by B's |
| CollisionPairs.Remaining | Source/MeshOperations/MeshSetOperation.cpp:163-185 | a queued pair is kept exactly when it shares neither face with the cut pair; the queue never grows |
| CollisionPairs.OldStep | Source/MeshOperations/MeshSetOperation.cpp:169-184 | one more queued pair either adds its B face to the remembered B faces, its A face to the remembered A faces, or itself to the kept queue, according to which face it shares with the cut pair |
| CollisionPairs.RemoveStale | Source/MeshOperations/MeshSetOperation.cpp:161-185 | the scan leaves the surviving pairs in their old order and collects, as ordered sets, the other partners of the cut A face and of the cut B face |
| CollisionPairs.ScanStep | Source/MeshOperations/MeshSetOperation.cpp:169-184 | one pass of the scan loop keeps the kept queue and both remembered sets in step with the pairs scanned so far |
| CollisionPairs.SeedsAMembers | Source/MeshOperations/MeshSetOperation.cpp:193-202 | a pair queued for the new A pieces is exactly a valid new A piece together with a remembered B face |
| CollisionPairs.SeedsBMembers | Source/MeshOperations/MeshSetOperation.cpp:204-213 | a pair queued for the new B pieces is exactly a remembered A face together with a valid new B piece |
| CollisionPairs.Reseed | Source/MeshOperations/MeshSetOperation.cpp:193-213 | the queue gains, at its back, a row per valid new A piece (in set order) and then a row per valid new B piece, and keeps what it held before |
| CollisionPairs.AppendRow | Source/MeshOperations/MeshSetOperation.cpp:200-201 | the inner push_back loop appends the row in order after the existing queue |
| GraphColorings.OppositeSide | Source/MeshOperations/MeshSetOperation.cpp:659-667 | INSIDE and OUTSIDE are swapped and UNKNOWN stays UNKNOWN, each in both directions |
| GraphColorings.PointIsOnCutBoundary | Source/MeshOperations/MeshSetOperation.cpp:610-617 | true exactly when some vertex of some cut-boundary polyline lies within eps of the point |
| GraphColorings.OnCutBoundaryFrom | Source/MeshOperations/MeshSetOperation.cpp:612-616 | the search from polyline i on is true exactly when one of those polylines has a vertex within eps |
| GraphColorings.FindAnyNode | Source/MeshOperations/MeshSetOperation.cpp:501-508 | null exactly when no listed node's graph targets the mesh; otherwise the first such node in list order |
| GraphColorings.FindAnyNodeSkipsOtherGraph | Source/MeshOperations/MeshSetOperation.cpp:501-508 | with graph A's nodes listed before graph B's, the node found for B's mesh is B's first node |
| GraphColorings.Neighbour | Source/MeshOperations/MeshSetOperation.cpp:581-582 | the other end of a node's edge is only defined when the node, the edge slot and the edge exist |
| GraphColorings.Across | Source/MeshOperations/MeshSetOperation.cpp:588-591 | the side given across an edge is known whenever the current node's side is known |
| GraphColorings.ColorGraph | Source/MeshOperations/MeshSetOperation.cpp:554-596 | when the walk completes, known sides are unchanged, every visited node is labelled, each node is visited at most once, every visited node but the root got the side of the node it was reached from (flipped across a cut edge), and every neighbour of every visited node is labelled; it fails only when an edge it must cross has an end that cannot be read |
| GraphColorings.LabelNeighbours | Source/MeshOperations/MeshSetOperation.cpp:579-595 | the edge loop of one dequeued node keeps the walk's invariant, leaves all neighbours of that node labelled, and either labels at least one node or changes nothing, which is why the walk ends |
| GraphColorings.VisitEdge | Source/MeshOperations/MeshSetOperation.cpp:581-594 | one edge: an UNKNOWN neighbour is labelled by the cut rule and queued, a labelled one is left alone, and the loop's invariant advances by one edge |
| GraphColorings.SkipStep | Source/MeshOperations/MeshSetOperation.cpp:583 | a neighbour that is already labelled leaves the walk's state as it was |
| GraphColorings.LabelStep | Source/MeshOperations/MeshSetOperation.cpp:583-594 | labelling an UNKNOWN neighbour and queueing it advances the edge loop's invariant |
| GraphColorings.LabellingDone | Source/MeshOperations/MeshSetOperation.cpp:579-595 | after the last edge, the dequeued node's neighbours are all labelled, which closes one more visited node |
| GraphColorings.LabelKeepsWalk | Source/MeshOperations/MeshSetOperation.cpp:588-593 | labelling a fresh neighbour keeps the walk's invariant, leaves one UNKNOWN fewer and never unlabels a node |
| GraphColorings.LabelKeepsOrder | Source/MeshOperations/MeshSetOperation.cpp:593 | queueing a newly labelled, unvisited node keeps the visit order free of repeats and equal to the root plus the labelled nodes |
| GraphColorings.LabelKeepsPropagated | Source/MeshOperations/MeshSetOperation.cpp:588-593 | the newly labelled node was reached across an edge of the node being processed, so every visit is still explained by the cut rule |
| GraphColorings.LabelCountsDown | Source/MeshOperations/MeshSetOperation.cpp:583-591 | labelling an UNKNOWN node leaves exactly one UNKNOWN fewer |
| GraphColorings.ColoringWithoutEdges | Source/MeshGraph.cpp:64-67 | with the edge finder always failing, the graphs have no edges and a colouring visits only the root and changes no label |
| GraphColorings.SecondVisitHasEdge | Source/MeshOperations/MeshSetOperation.cpp:579-582 | a second visited node can only have been reached across an existing edge |
| MeshSetOperations.FromBasicPolygon | Source/Mesh.cpp:184-197 | the mesh polygon has exactly the given points in order, each vertex carrying the points' plane normal (the default plane's when CalcPlane fails) and zero colour and texture coordinates |
| MeshSetOperations.Tagged | Source/MeshOperations/MeshSetOperation.cpp:77-91 | one face per polygon, in order, each of the given family |
| MeshSetOperations.CalcBoundingBox | Source/MeshOperations/MeshSetOperation.cpp:627-635 | the face's box is the default box expanded by every vertex position, that is the bound of its points |
| MeshSetOperations.FaceHeap.constructor | Source/MeshOperations/MeshSetOperation.cpp:16 | a new face heap of the given slot count and face size holds no face and is valid |
| MeshSetOperations.FaceHeap.Allocate | Source/MeshOperations/MeshSetOperation.cpp:79-81 | an exhausted heap gives null and stores nothing; otherwise the face is stored at an address that held no face before, and every other face is untouched |
| MeshSetOperations.FaceHeap.Deallocate | Source/MeshOperations/MeshSetOperation.cpp:187-188 | freeing a stored face removes exactly that face and keeps the heap valid |
| MeshSetOperations.PlacedSnoc | Source/MeshOperations/MeshSetOperation.cpp:79-82 | one more face stored at an unused address extends a placement of faces at distinct new addresses |
| MeshSetOperations.FacesOf | Source/MeshOperations/MeshSetOperation.cpp:100 | iterating the face set visits the stored face of each address, in set order |
| MeshSetOperations.StoreFaces | Source/MeshOperations/MeshSetOperation.cpp:77-91 | each polygon is stored as a face of the family at its own new address, in order, nothing stored before changes, and the face set gains exactly those addresses and stays ordered |
| MeshSetOperations.PlacedStep | Source/MeshOperations/MeshSetOperation.cpp:79-81 | storing polygon i at a fresh address extends the placement of the first i |
| MeshSetOperations.InsertStored | Source/MeshOperations/MeshSetOperation.cpp:82 | inserting the new address keeps the face set equal to the old one plus every address placed so far |
| MeshSetOperations.CalcRootBox | Source/MeshOperations/MeshSetOperation.cpp:98-101 | the root box is the default box expanded by every face's box in face-set order |
| MeshSetOperations.FillFaceTree | Source/MeshOperations/MeshSetOperation.cpp:103-110 | after clearing and refilling, the tree keeps the root box, is sound, and holds exactly the faces of the set whose boxes the root box contains, once each; with the root box of CalcRootBox over faces that each have a vertex and no x at FLT_MAX, that is every face, and the guest count equals the size of the face set, as the source asserts |
| MeshSetOperations.FacesBoundContainsAll | Source/MeshOperations/MeshSetOperation.cpp:98-101 | the box grown over faces that each have a vertex and no x at FLT_MAX contains every face's box |
| MeshSetOperations.RootBoxHoldsEveryFace | Source/MeshOperations/MeshSetOperation.cpp:98-110 | under the same condition every face of the set is among those the root box contains, so the tree accepts all of them |
| MeshSetOperations.InitialPairs | Source/MeshOperations/MeshSetOperation.cpp:116-134 | every initial pair joins a stored A face with a stored B face whose boxes overlap, and the tree's guests are unchanged; in a sound tree every stored B face whose box overlaps a stored A face's box is paired with it, and the tree stays sound |
| MeshSetOperations.PairFace | Source/MeshOperations/MeshSetOperation.cpp:117-133 | one turn of the outer loop keeps the queue sound and the tree's guests; in a sound tree the faces paired completely grow by this one |
| MeshSetOperations.PairStep | Source/MeshOperations/MeshSetOperation.cpp:121-132 | when the hits include every stored guest overlapping an A face's box, appending its pairs pairs it with every overlapping B guest and keeps the earlier A faces fully paired |
| MeshSetOperations.PairedAll | Source/MeshOperations/MeshSetOperation.cpp:117-133 | full pairing of every prefix position means every A face of the set is fully paired |
| MeshSetOperations.PairWithHits | Source/MeshOperations/MeshSetOperation.cpp:124-132 | the queue grows by exactly PairsWith of the hits, after its old contents; every pair's boxes overlap and the queue stays sound |
| MeshSetOperations.PairsWith | Source/MeshOperations/MeshSetOperation.cpp:124-132 | the pairs are exactly the A face with each B face among the hits, and there are no more of them than hits |
| MeshSetOperations.PiecePolygons | Source/MeshOperations/MeshSetOperation.cpp:536-550 | one mesh polygon per piece, in order, each made by FromBasicPolygon |
| MeshSetOperations.PlacedAppend | Source/MeshOperations/MeshSetOperation.cpp:536-550 | storing A's pieces and then B's is one placement of all pieces in that order |
| MeshSetOperations.PlacedAppendKept | Source/MeshOperations/MeshSetOperation.cpp:536-550 | after two placements the old faces are untouched and the stored addresses are the old ones plus both placements |
| MeshSetOperations.PlacedAppendStored | Source/MeshOperations/MeshSetOperation.cpp:536-550 | each address of either placement was unused and now holds its own piece |
| MeshSetOperations.PlacedAppendDistinct | Source/MeshOperations/MeshSetOperation.cpp:536-550 | the addresses of the two placements are all different |
| MeshSetOperations.ProcessCollisionPair | Source/MeshOperations/MeshSetOperation.cpp:510-552 | when the two polygons do not intersect nothing changes and both new sets are empty; when they do, the segment is recorded, and A's pieces (split against B's plane) then B's pieces (split against A's plane) are stored at fresh addresses as faces of their families, with the new sets holding exactly those addresses in order |
| MeshSetOperations.CutFaces | Source/MeshOperations/MeshSetOperation.cpp:528-550 | both polygons are split against each other's plane and every piece is stored, A's first, with the new sets holding exactly the new addresses |
| MeshSetOperations.ReseedIsRequeued | Source/MeshOperations/MeshSetOperation.cpp:161-213 | after the scan and reseeding a pair is queued exactly when it survived, or joins a new A piece that passes ConvexPolygon::IsValid with an old B partner of the cut A face, or an old A partner of the cut B face with a new B piece that passes ConvexPolygon::IsValid |
| MeshSetOperations.RequeuedSound | Source/MeshOperations/MeshSetOperation.cpp:161-213 | such a queue still pairs a stored A face with a stored B face, even after both cut faces are freed |
| MeshSetOperations.PlacedFacts | Source/MeshOperations/MeshSetOperation.cpp:536-550 | the new sets hold only new addresses of their own family, old faces are untouched, and two empty new sets mean nothing was stored |
| MeshSetOperations.RefineStep | Source/MeshOperations/MeshSetOperation.cpp:143-214 | the front pair is popped and cut; with no pieces only the front is gone; with pieces the face set loses both cut faces and gains exactly the pieces, both cut faces are freed, no queued pair mentions them, and the queue is the survivors followed by each piece that passes ConvexPolygon::IsValid paired with the cut faces' old partners; the face set and queue stay sound |
| MeshSetOperations.ReplaceCutPair | Source/MeshOperations/MeshSetOperation.cpp:150-213 | the branch taken after a productive cut keeps the face set equal to the stored faces and the queue sound, frees exactly the two cut faces, and requeues as RefineStep states |
| MeshSetOperations.QueueSoundGrows | Source/MeshOperations/MeshSetOperation.cpp:536-550 | storing new faces does not disturb the pairs already queued |
| MeshSetOperations.UpdateFaceSet | Source/MeshOperations/MeshSetOperation.cpp:152-159 | the face set loses the two cut faces, gains every piece, and stays ordered |
| MeshSetOperations.Requeue | Source/MeshOperations/MeshSetOperation.cpp:161-213 | the stale pairs are dropped, the cut faces' partners are collected, both cut faces are freed, and each piece that passes ConvexPolygon::IsValid is queued with those partners, leaving a sound queue |
| MeshSetOperations.ReseedSound | Source/MeshOperations/MeshSetOperation.cpp:187-213 | the reseeded queue is sound in the memory left after the cut faces are freed |
| MeshSetOperations.Refine | Source/MeshOperations/MeshSetOperation.cpp:141-215 | when the queue empties, the face set still lists exactly the stored faces in address order, and cut segments were only appended |
| MeshSetOperations.FamilyPolygonsPartition | Source/MeshOperations/MeshSetOperation.cpp:227-233 | every face lands in exactly one of the two buckets, so nothing is lost or doubled |
| MeshSetOperations.FamilyPolygonsMembers | Source/MeshOperations/MeshSetOperation.cpp:227-233 | a bucket holds exactly the polygons of the faces of its family |
| MeshSetOperations.BucketFaces | Source/MeshOperations/MeshSetOperation.cpp:224-233 | the two lists are the polygons of the A faces and of the B faces, each in face-set order |
| MeshSetOperations.NodeRefs | Source/MeshOperations/MeshSetOperation.cpp:272-286 | a graph contributes one node per face, node i standing for face i, in order |
| MeshSetOperations.NodeRefsMember | Source/MeshOperations/MeshSetOperation.cpp:272-286 | a listed node of a mesh is one of that mesh's graph nodes |
| MeshSetOperations.FacePolygons | Source/Mesh.cpp:141-147 | one polygon per face of the mesh, each generated from that face |
| MeshSetOperations.SelectRoots | Source/MeshOperations/MeshSetOperation.cpp:302-326 | there are no roots exactly when neither search found an outside node, or only one did and the other mesh has no listed node; a found node starts OUTSIDE, and a mesh without one starts INSIDE from its first listed node |
| MeshSetOperations.EnvelopedRootIsFirstNode | Source/MeshOperations/MeshSetOperation.cpp:272-320 | with A's nodes listed before B's, an enveloped mesh is coloured from the node of its first face |
| MeshSetOperations.ColorFromRoot | Source/MeshOperations/MeshSetOperation.cpp:334-335 | over the graphs Generate builds, which have no edges, colouring leaves the root as the only labelled node |
| MeshSetOperations.FailedSides | Source/MeshOperations/MeshSetOperation.cpp:300-325 | one side per node; a node found outside is the only labelled node and is OUTSIDE; with no such node every node is UNKNOWN, as a new graph node starts |
| MeshSetOperations.UnlabelledBucket | Source/MeshOperations/MeshSetOperation.cpp:344-354 | with no node labelled, both buckets of a graph are empty |
| MeshSetOperations.OnlyRootBucket | Source/MeshOperations/MeshSetOperation.cpp:344-366 | with only the root labelled, its bucket holds just its polygon (reverse-wound when inside) and the other bucket is empty |
| MeshSetOperations.SortBySide | Source/MeshOperations/MeshSetOperation.cpp:341-366 | the outside list holds the OUTSIDE nodes' polygons and the inside list the INSIDE nodes' polygons reverse-wound, each in node order |
| MeshSetOperations.OutputsPerFlag | Source/MeshOperations/MeshSetOperation.cpp:372-416 | union gives outside A then outside B, intersection inside A then inside B, A minus B outside A then inside B, B minus A outside B then inside A; all four flags give the four meshes in that order |
| MeshSetOperations.LowBits | Source/MeshOperations/MeshSetOperation.h:19-22 | the four flag bits of a value below 16 are its binary digits |
| MeshSetOperations.BitLowNibble | Source/MeshOperations/MeshSetOperation.cpp:374-407 | the four flag tests of a non-negative value see only its low four bits |
| MeshSetOperations.OutputsLowNibble | Source/MeshOperations/MeshSetOperation.cpp:374-407 | flag bits above the fourth name no result |
| MeshSetOperations.OutputsSmall | Source/MeshOperations/MeshSetOperation.cpp:372-416 | with at most one polygon per bucket every result has at most two polygons |
| MeshSetOperations.NewMesh | Source/MeshOperations/MeshSetOperation.cpp:376-381 | a fresh mesh with one matching face per polygon, in order |
| MeshSetOperations.FormResults | Source/MeshOperations/MeshSetOperation.cpp:372-418 | one fresh, distinct mesh per flag set, in flag order, each holding the concatenation of buckets that flag calls for |
| MeshSetOperations.AddResult | Source/MeshOperations/MeshSetOperation.cpp:374-383 | a set flag appends one fresh mesh holding its polygons; the meshes already there are kept and stay distinct |
| MeshSetOperations.CutPhase | Source/MeshOperations/MeshSetOperation.cpp:72-215 | loading, tree building and refinement keep the face set equal to the stored faces in address order, and only append cut segments |
| MeshSetOperations.MeshSetOperation.constructor | Source/MeshOperations/MeshSetOperation.cpp:12-21 | the flags are kept; the face set, cut boundary, refined meshes and error start empty; the face heap has 1024 slots of the given face size and holds no face; the face tree has no root |
| MeshSetOperations.MeshSetOperation.Rebuild | Source/MeshOperations/MeshSetOperation.cpp:224-248 | each refined mesh gains one matching face per face of its family, in face-set order, after the faces it already had; each graph gets one node per face of its mesh and no edges; the cut segments become polylines that together span every segment once, no more of them than segments and none exactly when there are no segments |
| MeshSetOperations.MeshSetOperation.RefillMeshes | Source/MeshOperations/MeshSetOperation.cpp:224-236 | each refined mesh gains one matching face per face of its family, in face-set order |
| MeshSetOperations.MeshSetOperation.FindRoots | Source/MeshOperations/MeshSetOperation.cpp:272-326 | returns the outside searches' results for both meshes, each a node of its own graph, and the roots SelectRoots picks from them over all listed nodes; each root is a node of its own graph, both start labelled, and at least one starts OUTSIDE |
| MeshSetOperations.MeshSetOperation.Colour | Source/MeshOperations/MeshSetOperation.cpp:300-335 | roots are found exactly when SelectRoots picks some from the two outside searches over all nodes; then each graph's only labelled node is the root SelectRoots picks for it, with the side it picks, and at least one of them is OUTSIDE; otherwise one of the outside searches found nothing, and every node of the freshly generated graphs is UNKNOWN except a node found outside, which was already marked OUTSIDE |
| MeshSetOperations.MeshSetOperation.Form | Source/MeshOperations/MeshSetOperation.cpp:341-418 | one fresh, distinct output mesh per flag set, holding the buckets that flag calls for; no result has more than two polygons |
| MeshSetOperations.MeshSetOperation.Calculate | Source/MeshOperations/MeshSetOperation.cpp:44-419 | a wrong input count and zero flags fail with their messages and leave the outputs alone; once both inputs are loaded and cut, the run succeeds exactly when SelectRoots picks roots from the outside searches in the cut phase's root box, and otherwise fails with its message, leaving every node UNKNOWN except a node found outside; success clears the error, leaves each graph's chosen root as its only labelled node with its chosen side and replaces the outputs with one fresh mesh per flag set holding that flag's buckets, and cut segments are only appended |

## Left out

- Floating point. Coordinates are exact reals. The eps comparisons of `Vector::Length` are stated as comparisons of squared distance against eps squared, which agree for eps >= 0. Rounding is not modelled.
- `Vector::Normalize`, the crossing point of an edge with a plane, `ConvexPolygon::IntersectWith`, `LineSegment::ContainsPoint` and `Index::MakeKey`: these take a square root or format floats as text. They are fields of a `Kernel` or constructor parameters, and only the facts the callers rely on are assumed of them. `Polygon::IsValid` and `CalcPlane` use them through the kernel. The source's own crossing and polygon intersection always return null: `LineSegment(pointA, pointB)` never sets `unitNormal` (Source/Shape.cpp:157-161), so the denominator at Source/Shape.cpp:73-74 is 0. Hence `Plane::IntersectWith` of an edge never finds a point, both in `ConvexPolygon::IntersectWith` (Source/Polygon.cpp:241-242) and in the crossing of `SplitAgainstPlane` (Source/Polygon.cpp:282-283), and the source's Calculate never cuts. The model is more general: the source is the kernel whose crossing and intersection give None.
- `FindOutsideNode` (Source/MeshOperations/MeshSetOperation.cpp:421-499): a floating-point distance search over a lattice of planes. It is the `findOutsideNode` parameter. Only two facts are used: it returns a node of the mesh it was asked about, or none.
- `AxisAlignedBox::ScaleAboutCenter`, `CalcRadius` and `ContainsPointOnBoundary`, and the bounding sphere of the set operation (Source/MeshOperations/MeshSetOperation.cpp:295-298): they go through square roots and feed only `FindOutsideNode`.
- `OBJFormat::Load` and `Save` file streaming (Source/MeshFormats/OBJFormat.cpp:16-44, 134-137): file I/O. `atof` and `atoi` are functions supplied by the caller.
- Mesh names (`*mesh->name`): text kept only for display.
- Carries a fuel bound: `BoundingBoxTrees.AddToNode` and `BoundingBoxTrees.BoundingBoxTree.AddGuest`. The recursion does not terminate for a guest whose box is a single point; `BoundingBoxTrees.PointGuestNeverPlaced` proves this. When the fuel runs out the result is None.
- Carries a fuel bound and fails when it runs out: `MeshSetOperations.FillFaceTree`, which inserts faces into a bounding-box tree.
- Carry a fuel bound: `MeshGraphs.MeshGraph.Generate` and `MeshGraphs.AddNodes`. A face whose tree insertion runs out of fuel is silently left out of the graph's tree; they have no failure result. This does not change the graph, because the source's `FindCommonEdge` never finds an edge.
- MeshSetOperations.Refine: the refinement loop has no termination argument in the source. It runs on fuel, and running out is reported as a failure. Its `ensures` states only that the face set and the queue stay sound and that segments are only appended. It does not state the full final face set. That set is described one step at a time by `RefineStep`.
- MeshSetOperations.CutPhase: like `Refine`, it states soundness of the face set and that segments are only appended, not the final contents.
- Carry fuel: `MeshSetOperations.MeshSetOperation.Rebuild` and `MeshSetOperations.MeshSetOperation.Calculate`, for the tree insertions they make.
- `sizeof(Face)`: the byte size of a face is a parameter of the face heap's constructor. The model does not compute it.
- Memory lifetime: destructors, the leaked graphs and faces, and the dangling `index` that `Mesh::FromPolygonArray` leaves behind (Source/Mesh.cpp:154). The model drops the index at that point, and later lookups scan.
- The `#if MW_DEBUG_DUMP_*` blocks: debug file output. The `TotalGuests` assertion (Source/MeshOperations/MeshSetOperation.cpp:109-110) is not a run-time check here. It is proved instead, as an `ensures` of `MeshSetOperations.FillFaceTree`.
- MeshSetOperations.FillFaceTree: the statement that every face is stored needs each face to have a vertex and no vertex with x equal to FLT_MAX. A box whose max.x is FLT_MAX passes the default-box test, because that test never looks at max.y. Growing such a box discards what it held. A face with no vertices keeps the default box.
- Geometry.Normalize: the positive-multiple statement relies on `NormalizesAlong`, the assumption that the kernel scales a non-zero vector by a positive factor. The length itself, a square root, is not computed. `Polygons.CalcPlaneThroughFirstThree` relies on the same assumption.
- Node sides: each graph's sides are held in one sequence (`sidesA`, `sidesB`) indexed by node, not in the node objects.
- `Edge::GetOtherAdjacency`, `GatherAllGuests`, `TotalGuests`, `ForAllElements` (a walk over the nodes in order), `LineSegment::GetPoint` and `Polyline::IsLineLoop` have no body in the source. Each is modelled with the obvious meaning its declaration gives (for example Source/MeshGraph.h:59-60).
- Headers that disagree with their `.cpp` files (for example Source/Mesh.h:74 and Source/Mesh.cpp:111): the `.cpp` bodies are modelled.
- The split used by the bounding-box tree is passed in as a function. The `SplitReasonably` properties (`BoundingBoxTrees.SplitHalvesInside`, `BoundingBoxTrees.SplitHalvesCover`) are proved for `AxisAlignedBoxes.Split`.
- The editor and UI, the older Source/MeshSetOperation.cpp, the Union, Intersection and Difference operations (stubs that return null), and the floating-point linear-algebra files (Source/Vector.cpp, Source/Matrix3x3.cpp, Source/Transform.cpp, Source/Shape.cpp, Source/Ray.cpp, Source/Plane.cpp). Also the TODO members `Polygon::FitPlane`, `Tessellate` and `ShortestSignedDistanceToPoint`, and the declaration-only headers. FileFormat and FileObject are not part of this model.
- Test/Test.cpp is a file-I/O driver and is not part of this model.
- Concurrency: the source has none.
