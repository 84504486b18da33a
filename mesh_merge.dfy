/**
 * MeshMergeOperation: a new mesh holding A's faces followed by B's. Both inputs are
 * only read; their faces are expanded to polygons and fed, A's first, to a fresh
 * mesh, which shares coincident vertices by position.
 */
module MeshMerges {
  import opened Geometry
  import opened Meshes

  /** Calculate: the merged polygon list and the fresh mesh built from it. */
  method Calculate(meshA: Mesh, meshB: Mesh) returns (mergedMesh: Mesh)
    requires meshA.FacesValid() && meshB.FacesValid()
    ensures fresh(mergedMesh)
    ensures mergedMesh.index == null
    ensures |mergedMesh.faceArray| == |meshA.faceArray| + |meshB.faceArray|
    ensures forall f :: 0 <= f < |meshA.faceArray| ==>
      FaceMatches(mergedMesh.vertexArray, mergedMesh.faceArray[f],
                  FacePolygon(meshA.vertexArray, meshA.faceArray[f]), MESH_EPS)
    ensures forall f :: 0 <= f < |meshB.faceArray| ==>
      FaceMatches(mergedMesh.vertexArray, mergedMesh.faceArray[|meshA.faceArray| + f],
                  FacePolygon(meshB.vertexArray, meshB.faceArray[f]), MESH_EPS)
    ensures mergedMesh.FacesValid()
  {
    var polygonArrayA := meshA.ToPolygonArray();
    var polygonArrayB := meshB.ToPolygonArray();
    var mergedPolygonArray := MergedPolygons(polygonArrayA, polygonArrayB);
    mergedMesh := new Mesh();
    mergedMesh.FromPolygonArray(mergedPolygonArray);
    MergedFacesMatch(mergedMesh.vertexArray, mergedMesh.faceArray, polygonArrayA, polygonArrayB);
  }

  /** The faces built from A's polygons followed by B's match A's polygons and then B's. */
  lemma MergedFacesMatch(vertices: seq<Vertex>, faces: seq<Face>, polygonArrayA: seq<MeshPolygon>, polygonArrayB: seq<MeshPolygon>)
    requires |faces| == |polygonArrayA| + |polygonArrayB|
    requires forall p :: 0 <= p < |polygonArrayA + polygonArrayB| ==>
      FaceMatches(vertices, faces[0 + p], (polygonArrayA + polygonArrayB)[p], MESH_EPS)
    ensures forall f :: 0 <= f < |polygonArrayA| ==> FaceMatches(vertices, faces[f], polygonArrayA[f], MESH_EPS)
    ensures forall f :: 0 <= f < |polygonArrayB| ==>
      FaceMatches(vertices, faces[|polygonArrayA| + f], polygonArrayB[f], MESH_EPS)
  {
    forall f | 0 <= f < |polygonArrayA| ensures FaceMatches(vertices, faces[f], polygonArrayA[f], MESH_EPS) {
      assert FaceMatches(vertices, faces[0 + f], (polygonArrayA + polygonArrayB)[f], MESH_EPS);
    }
    forall f | 0 <= f < |polygonArrayB|
      ensures FaceMatches(vertices, faces[|polygonArrayA| + f], polygonArrayB[f], MESH_EPS)
    {
      var p := |polygonArrayA| + f;
      assert FaceMatches(vertices, faces[0 + p], (polygonArrayA + polygonArrayB)[p], MESH_EPS);
    }
  }

  /** The two loops of Calculate: A's polygons in order, then B's. */
  method MergedPolygons(polygonArrayA: seq<MeshPolygon>, polygonArrayB: seq<MeshPolygon>)
    returns (mergedPolygonArray: seq<MeshPolygon>)
    ensures mergedPolygonArray == polygonArrayA + polygonArrayB
  {
    mergedPolygonArray := [];
    var i := 0;
    while i < |polygonArrayA|
      invariant 0 <= i <= |polygonArrayA|
      invariant mergedPolygonArray == polygonArrayA[..i]
    {
      mergedPolygonArray := mergedPolygonArray + [polygonArrayA[i]];
      i := i + 1;
    }
    assert polygonArrayA[..i] == polygonArrayA;
    var j := 0;
    while j < |polygonArrayB|
      invariant 0 <= j <= |polygonArrayB|
      invariant mergedPolygonArray == polygonArrayA + polygonArrayB[..j]
    {
      mergedPolygonArray := mergedPolygonArray + [polygonArrayB[j]];
      j := j + 1;
    }
    assert polygonArrayB[..j] == polygonArrayB;
  }
}
