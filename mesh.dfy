/**
 * Mesh: an indexed face set. Vertices and faces live in two lists that the methods
 * append to and overwrite; a face is a list of vertex indices. An optional Index maps a
 * key made from a vertex's position to a vertex index, and is used by FindOrCreateVertex
 * when the tolerance is exactly zero.
 */
module Meshes {
  import opened Wrappers
  import opened Geometry
  import opened Sequences
  import opened AxisAlignedBoxes

  /** The positions of a vertex list. */
  function Points(vertices: seq<Vertex>): (points: seq<Vec3>)
    ensures |points| == |vertices|
    ensures forall i :: 0 <= i < |vertices| ==> points[i] == vertices[i].point
  {
    seq(|vertices|, i requires 0 <= i < |vertices| => vertices[i].point)
  }

  /** Mesh::Vertex. */
  datatype Vertex = Vertex(point: Vec3, normal: Vec3, color: Vec3, texCoords: Vec3)

  /** A default-constructed Mesh::Vertex: every vector zero. */
  const DefaultVertex := Vertex(Zero, Zero, Zero, Zero)

  /** Mesh::Face: indices into the mesh's vertex list. */
  datatype Face = Face(vertexArray: seq<int>)

  /** Mesh::ConvexPolygon: the vertices themselves. */
  datatype MeshPolygon = MeshPolygon(vertexArray: seq<Vertex>)

  /** The default eps of AddFace(ConvexPolygon) and of FindOrCreateVertex. */
  const MESH_EPS: real := 0.000001

  /** Every index of the face names an existing vertex. */
  predicate IndicesValid(vertices: seq<Vertex>, face: Face) {
    forall k :: 0 <= k < |face.vertexArray| ==> 0 <= face.vertexArray[k] < |vertices|
  }

  /**
   * The face has one valid index per polygon vertex, and index k names that polygon
   * vertex itself or a vertex within eps of it.
   */
  predicate FaceMatches(vertices: seq<Vertex>, face: Face, polygon: MeshPolygon, eps: real) {
    |face.vertexArray| == |polygon.vertexArray| && IndicesValid(vertices, face) &&
    forall k :: 0 <= k < |face.vertexArray| ==>
      (vertices[face.vertexArray[k]] == polygon.vertexArray[k] ||
       Within(vertices[face.vertexArray[k]].point, polygon.vertexArray[k].point, eps))
  }

  /** Appending vertices does not disturb a face's match. */
  lemma FaceMatchesExtend(vertices: seq<Vertex>, more: seq<Vertex>, face: Face, polygon: MeshPolygon, eps: real)
    requires FaceMatches(vertices, face, polygon, eps)
    requires |vertices| <= |more| && more[..|vertices|] == vertices
    ensures FaceMatches(more, face, polygon, eps)
  {
    forall k | 0 <= k < |face.vertexArray| ensures more[face.vertexArray[k]] == vertices[face.vertexArray[k]] {
      assert more[..|vertices|][face.vertexArray[k]] == more[face.vertexArray[k]];
    }
  }

  /** The polygon a face stands for: vertex k is the mesh vertex at the face's k-th index. */
  function FacePolygon(vertices: seq<Vertex>, face: Face): MeshPolygon
    requires IndicesValid(vertices, face)
  {
    MeshPolygon(seq(|face.vertexArray|, k requires 0 <= k < |face.vertexArray| => vertices[face.vertexArray[k]]))
  }

  /**
   * The scan of FindOrCreateVertex from index i on: the lowest index whose vertex is
   * within eps of the point, if any.
   */
  function FirstWithin(vertices: seq<Vertex>, point: Vec3, eps: real, i: nat): (r: Option<nat>)
    requires i <= |vertices|
    ensures r.Some? ==> (i <= r.value < |vertices| && Within(vertices[r.value].point, point, eps) &&
      forall j :: i <= j < r.value ==> !Within(vertices[j].point, point, eps))
    ensures r.None? ==> forall j :: i <= j < |vertices| ==> !Within(vertices[j].point, point, eps)
    decreases |vertices| - i
  {
    if i == |vertices| then None
    else if Within(vertices[i].point, point, eps) then Some(i)
    else FirstWithin(vertices, point, eps, i + 1)
  }

  class Mesh {
    var vertexArray: seq<Vertex>
    var faceArray: seq<Face>
    var index: Index?

    /** Mesh(): no vertices, no faces, no index. */
    constructor()
      ensures vertexArray == [] && faceArray == [] && index == null
    {
      vertexArray, faceArray, index := [], [], null;
    }

    predicate IsValidVertex(i: int)
      reads this
    {
      0 <= i < |vertexArray|
    }

    predicate IsValidFace(i: int)
      reads this
    {
      0 <= i < |faceArray|
    }

    /** Every face refers only to existing vertices, which is what GeneratePolygon reads. */
    predicate FacesValid()
      reads this
    {
      forall f :: 0 <= f < |faceArray| ==> IndicesValid(vertexArray, faceArray[f])
    }

    /** The meaning of GetVertex: null exactly for an index outside [0, size). */
    function GetVertex(i: int): (r: Option<Vertex>)
      reads this
      ensures r.Some? <==> 0 <= i < |vertexArray|
      ensures r.Some? ==> r.value == vertexArray[i]
    {
      if IsValidVertex(i) then Some(vertexArray[i]) else None
    }

    function GetFace(i: int): (r: Option<Face>)
      reads this
      ensures r.Some? <==> 0 <= i < |faceArray|
      ensures r.Some? ==> r.value == faceArray[i]
    {
      if IsValidFace(i) then Some(faceArray[i]) else None
    }

    /** The default box expanded by every vertex position in list order. */
    method CalcBoundingBox() returns (box: Box)
      ensures box == BoundOf(Points(vertexArray))
    {
      var boundingBox := new AxisAlignedBox();
      var i := 0;
      while i < |vertexArray|
        invariant 0 <= i <= |vertexArray|
        invariant boundingBox.Value() == BoundOf(Points(vertexArray[..i]))
      {
        assert Points(vertexArray[..i + 1])[..i] == Points(vertexArray[..i]);
        boundingBox.MinimallyExpandToContainPoint(vertexArray[i].point);
        i := i + 1;
      }
      assert vertexArray[..i] == vertexArray;
      box := boundingBox.Value();
    }

    function GetNumVertices(): nat
      reads this
    {
      |vertexArray|
    }

    function GetNumFaces(): nat
      reads this
    {
      |faceArray|
    }

    /** Mesh::SetVertex: overwrites slot i if it exists; otherwise nothing changes. */
    method SetVertex(i: int, vertex: Vertex) returns (ok: bool)
      modifies this
      ensures ok <==> old(IsValidVertex(i))
      ensures ok ==> vertexArray == old(vertexArray)[i := vertex]
      ensures !ok ==> vertexArray == old(vertexArray)
      ensures faceArray == old(faceArray) && index == old(index)
    {
      if !IsValidVertex(i) {
        return false;
      }
      vertexArray := vertexArray[i := vertex];
      return true;
    }

    /** Mesh::SetFace: overwrites slot i if it exists, without checking the new face's indices. */
    method SetFace(i: int, face: Face) returns (ok: bool)
      modifies this
      ensures ok <==> old(IsValidFace(i))
      ensures ok ==> faceArray == old(faceArray)[i := face]
      ensures !ok ==> faceArray == old(faceArray)
      ensures vertexArray == old(vertexArray) && index == old(index)
    {
      if !IsValidFace(i) {
        return false;
      }
      faceArray := faceArray[i := face];
      return true;
    }

    /** Mesh::Clear: both lists emptied; the index, if any, is kept as it is. */
    method Clear()
      modifies this
      ensures vertexArray == [] && faceArray == [] && index == old(index)
    {
      vertexArray := [];
      faceArray := [];
    }

    /** Mesh::AddVertex: appends and returns the new vertex's index. */
    method AddVertex(vertex: Vertex) returns (i: int)
      modifies this
      ensures vertexArray == old(vertexArray) + [vertex] && i == |old(vertexArray)|
      ensures faceArray == old(faceArray) && index == old(index)
    {
      vertexArray := vertexArray + [vertex];
      i := |vertexArray| - 1;
    }

    /** Mesh::AddFace(Face): appends the face only if all its indices are valid. */
    method AddFace(face: Face) returns (ok: bool)
      modifies this
      ensures ok <==> forall k :: 0 <= k < |face.vertexArray| ==> old(IsValidVertex(face.vertexArray[k]))
      ensures ok ==> faceArray == old(faceArray) + [face]
      ensures !ok ==> faceArray == old(faceArray)
      ensures vertexArray == old(vertexArray) && index == old(index)
    {
      var k := 0;
      while k < |face.vertexArray|
        invariant 0 <= k <= |face.vertexArray|
        invariant forall m :: 0 <= m < k ==> IsValidVertex(face.vertexArray[m])
      {
        if !IsValidVertex(face.vertexArray[k]) {
          return false;
        }
        k := k + 1;
      }
      faceArray := faceArray + [face];
      return true;
    }

    /**
     * What FindOrCreateVertex finds without creating anything: through the index when
     * there is one and eps is exactly zero, otherwise the lowest index within eps.
     */
    function Lookup(vertex: Vertex, eps: real): Option<int>
      reads this, index
    {
      if index != null && eps == 0.0 then index.Lookup(vertex)
      else match FirstWithin(vertexArray, vertex.point, eps, 0)
        case None => None
        case Some(i) => Some(i)
    }

    /** Mesh::FindVertex: the found index, or -1; the mesh is not changed. */
    function FindVertex(vertex: Vertex, eps: real): (r: int)
      reads this, index
      ensures (index == null || eps != 0.0) ==>
        (r == -1 <==> forall j :: 0 <= j < |vertexArray| ==> !Within(vertexArray[j].point, vertex.point, eps))
      ensures (index == null || eps != 0.0) && r != -1 ==>
        IsValidVertex(r) && Within(vertexArray[r].point, vertex.point, eps) &&
        forall j :: 0 <= j < r ==> !Within(vertexArray[j].point, vertex.point, eps)
    {
      Lookup(vertex, eps).GetOr(-1)
    }

    /**
     * Mesh::FindOrCreateVertex. A vertex that is found is returned unchanged; otherwise
     * -1 is returned when creating is not allowed, and a new last vertex when it is (the
     * index, when it is used, learns the new key).
     */
    method FindOrCreateVertex(vertex: Vertex, canCreate: bool, eps: real) returns (i: int)
      modifies this, index
      ensures index == old(index) && faceArray == old(faceArray)
      ensures old(Lookup(vertex, eps)).Some? ==>
        i == old(Lookup(vertex, eps)).value && vertexArray == old(vertexArray) &&
        (index != null ==> index.vertexMap == old(index.vertexMap))
      ensures old(Lookup(vertex, eps)).None? && !canCreate ==>
        i == -1 && vertexArray == old(vertexArray) && (index != null ==> index.vertexMap == old(index.vertexMap))
      ensures old(Lookup(vertex, eps)).None? && canCreate ==>
        vertexArray == old(vertexArray) + [vertex] && i == |old(vertexArray)| &&
        (index != null ==>
          index.vertexMap == old(index.vertexMap)[index.MakeKey(vertex) := i] || (eps != 0.0 && index.vertexMap == old(index.vertexMap)))
    {
      if index != null && eps == 0.0 {
        i := index.FindOrCreateVertex(vertex, this, canCreate);
        return;
      }
      var j := 0;
      while j < |vertexArray|
        invariant 0 <= j <= |vertexArray|
        invariant FirstWithin(vertexArray, vertex.point, eps, 0) == FirstWithin(vertexArray, vertex.point, eps, j)
      {
        if Within(vertexArray[j].point, vertex.point, eps) {
          return j;
        }
        j := j + 1;
      }
      if !canCreate {
        return -1;
      }
      vertexArray := vertexArray + [vertex];
      i := |vertexArray| - 1;
    }

    /**
     * Mesh::AddFace(ConvexPolygon): one new face with one index per polygon vertex, each
     * from FindOrCreateVertex. On the scan path (no index, or eps not zero) every index
     * is valid, points at a vertex within eps of (or equal to) the polygon's vertex, and
     * the old vertices are kept.
     */
    method AddPolygon(convexPolygon: MeshPolygon, eps: real)
      modifies this, index
      ensures index == old(index)
      ensures |faceArray| == |old(faceArray)| + 1 && faceArray[..|old(faceArray)|] == old(faceArray)
      ensures |faceArray[|old(faceArray)|].vertexArray| == |convexPolygon.vertexArray|
      ensures (index == null || eps != 0.0) ==>
        |vertexArray| >= |old(vertexArray)| && vertexArray[..|old(vertexArray)|] == old(vertexArray) &&
        FaceMatches(vertexArray, faceArray[|old(faceArray)|], convexPolygon, eps)
    {
      var face: seq<int> := [];
      var k := 0;
      while k < |convexPolygon.vertexArray|
        invariant 0 <= k <= |convexPolygon.vertexArray| && |face| == k
        invariant index == old(index) && faceArray == old(faceArray)
        invariant (index == null || eps != 0.0) ==>
          |vertexArray| >= |old(vertexArray)| && vertexArray[..|old(vertexArray)|] == old(vertexArray) &&
          FaceMatches(vertexArray, Face(face), MeshPolygon(convexPolygon.vertexArray[..k]), eps)
      {
        ghost var before := vertexArray;
        var i := FindOrCreateVertex(convexPolygon.vertexArray[k], true, eps);
        if index == null || eps != 0.0 {
          FaceMatchesExtend(before, vertexArray, Face(face), MeshPolygon(convexPolygon.vertexArray[..k]), eps);
          assert vertexArray[..|old(vertexArray)|] == before[..|old(vertexArray)|];
        }
        face := face + [i];
        k := k + 1;
      }
      assert convexPolygon.vertexArray[..k] == convexPolygon.vertexArray;
      faceArray := faceArray + [Face(face)];
    }

    /**
     * Mesh::ToPolygonArray: a fresh list with one polygon per face, in face order, made of
     * the vertices the face indexes (Face::GeneratePolygon).
     */
    method ToPolygonArray() returns (polygonArray: seq<MeshPolygon>)
      requires FacesValid()
      ensures |polygonArray| == |faceArray|
      ensures forall f :: 0 <= f < |faceArray| ==>
        |polygonArray[f].vertexArray| == |faceArray[f].vertexArray| &&
        forall k :: 0 <= k < |faceArray[f].vertexArray| ==>
          polygonArray[f].vertexArray[k] == vertexArray[faceArray[f].vertexArray[k]]
    ensures forall f :: 0 <= f < |faceArray| ==> polygonArray[f] == FacePolygon(vertexArray, faceArray[f])
    {
      polygonArray := [];
      var f := 0;
      while f < |faceArray|
        invariant 0 <= f <= |faceArray| && |polygonArray| == f
        invariant forall g :: 0 <= g < f ==> polygonArray[g] == FacePolygon(vertexArray, faceArray[g])
      {
        var polygon := GeneratePolygon(faceArray[f]);
        polygonArray := polygonArray + [polygon];
        f := f + 1;
      }
    }

    /** Face::GeneratePolygon: the face's vertices, in the face's order. */
    method GeneratePolygon(face: Face) returns (polygon: MeshPolygon)
      requires IndicesValid(vertexArray, face)
      ensures polygon == FacePolygon(vertexArray, face)
    {
      var vs: seq<Vertex> := [];
      var k := 0;
      while k < |face.vertexArray|
        invariant 0 <= k <= |face.vertexArray| && |vs| == k
        invariant forall m :: 0 <= m < k ==> vs[m] == vertexArray[face.vertexArray[m]]
      {
        vs := vs + [vertexArray[face.vertexArray[k]]];
        k := k + 1;
      }
      polygon := MeshPolygon(vs);
    }

    /**
     * Mesh::FromPolygonArray: AddFace for every polygon with the default eps (so by scanning),
     * then the index is deleted. The model drops the index, where the source keeps the
     * deleted pointer.
     */
    method FromPolygonArray(polygonArray: seq<MeshPolygon>)
      modifies this, index
      ensures index == null
      ensures |faceArray| == |old(faceArray)| + |polygonArray| && faceArray[..|old(faceArray)|] == old(faceArray)
      ensures |vertexArray| >= |old(vertexArray)| && vertexArray[..|old(vertexArray)|] == old(vertexArray)
      ensures forall p :: 0 <= p < |polygonArray| ==>
        FaceMatches(vertexArray, faceArray[|old(faceArray)| + p], polygonArray[p], MESH_EPS)
    ensures old(FacesValid()) ==> FacesValid()
    {
      var p := 0;
      while p < |polygonArray|
        invariant 0 <= p <= |polygonArray|
        invariant index == old(index)
        invariant |faceArray| == |old(faceArray)| + p && faceArray[..|old(faceArray)|] == old(faceArray)
        invariant |vertexArray| >= |old(vertexArray)| && vertexArray[..|old(vertexArray)|] == old(vertexArray)
        invariant forall q :: 0 <= q < p ==>
          FaceMatches(vertexArray, faceArray[|old(faceArray)| + q], polygonArray[q], MESH_EPS)
      {
        ghost var vertices, faces := vertexArray, faceArray;
        AddPolygon(polygonArray[p], MESH_EPS);
        forall q | 0 <= q < p
          ensures FaceMatches(vertexArray, faceArray[|old(faceArray)| + q], polygonArray[q], MESH_EPS)
        {
          assert faceArray[|old(faceArray)| + q] == faces[|old(faceArray)| + q];
          FaceMatchesExtend(vertices, vertexArray, faces[|old(faceArray)| + q], polygonArray[q], MESH_EPS);
        }
        assert vertexArray[..|old(vertexArray)|] == vertices[..|old(vertexArray)|];
        assert faceArray[..|old(faceArray)|] == faces[..|old(faceArray)|];
        p := p + 1;
      }
      forall f | 0 <= f < |faceArray| && old(FacesValid()) ensures IndicesValid(vertexArray, faceArray[f]) {
        if f < |old(faceArray)| {
          assert faceArray[f] == old(faceArray)[f];
        } else {
          assert FaceMatches(vertexArray, faceArray[|old(faceArray)| + (f - |old(faceArray)|)], polygonArray[f - |old(faceArray)|], MESH_EPS);
        }
      }
      index := null;
    }

    /**
     * Mesh::RebuildIndexIfNeeded: a missing or stale index is replaced by a fresh one
     * rebuilt from the vertices; a valid one is kept.
     */
    method RebuildIndexIfNeeded(makeKey: Vec3 -> string)
      modifies this
      ensures vertexArray == old(vertexArray) && faceArray == old(faceArray)
      ensures index != null
      ensures old(index) != null && old(index.IsValid(this)) ==> index == old(index)
      ensures old(index) == null || !old(index.IsValid(this)) ==> fresh(index) && index.Rebuilt(vertexArray)
      ensures index != old(index) ==> fresh(index) && index.Rebuilt(vertexArray)
    {
      if index == null || !index.IsValid(this) {
        var newIndex := new Index(makeKey);
        newIndex.Rebuild(this);
        index := newIndex;
      }
    }
  }

  /** Mesh::Index: key of a vertex position -> vertex index. */
  class Index {
    var vertexMap: map<string, int>
    /** Index::MakeKey: the text of the point's coordinates; only the position takes part. */
    const makeKey: Vec3 -> string

    constructor(makeKey: Vec3 -> string)
      ensures vertexMap == map[] && this.makeKey == makeKey
    {
      vertexMap := map[];
      this.makeKey := makeKey;
    }

    function MakeKey(vertex: Vertex): string {
      makeKey(vertex.point)
    }

    /** The map look-up of Index::FindOrCreateVertex. */
    function Lookup(vertex: Vertex): (r: Option<int>)
      reads this
      ensures r.Some? <==> MakeKey(vertex) in vertexMap
      ensures r.Some? ==> r.value == vertexMap[MakeKey(vertex)]
    {
      var key := MakeKey(vertex);
      if key in vertexMap then Some(vertexMap[key]) else None
    }

    /**
     * Index::FindOrCreateVertex: a key that is present gives its index with nothing
     * changed; otherwise, when creating is allowed, the vertex is appended to the mesh and
     * its key mapped to the new index, and when it is not, -1 is returned.
     */
    method FindOrCreateVertex(vertex: Vertex, mesh: Mesh, canCreate: bool) returns (i: int)
      modifies this, mesh
      ensures mesh.faceArray == old(mesh.faceArray) && mesh.index == old(mesh.index)
      ensures old(Lookup(vertex)).Some? ==>
        i == old(Lookup(vertex)).value && vertexMap == old(vertexMap) && mesh.vertexArray == old(mesh.vertexArray)
      ensures old(Lookup(vertex)).None? && !canCreate ==>
        i == -1 && vertexMap == old(vertexMap) && mesh.vertexArray == old(mesh.vertexArray)
      ensures old(Lookup(vertex)).None? && canCreate ==>
        mesh.vertexArray == old(mesh.vertexArray) + [vertex] && i == |old(mesh.vertexArray)| &&
        vertexMap == old(vertexMap)[MakeKey(vertex) := i]
    {
      i := -1;
      var key := MakeKey(vertex);
      if key in vertexMap {
        i := vertexMap[key];
      } else if canCreate {
        mesh.vertexArray := mesh.vertexArray + [vertex];
        i := |mesh.vertexArray| - 1;
        vertexMap := vertexMap[key := i];
      }
    }

    /** What Rebuild leaves: each key of a vertex maps to the last index having that key, and nothing else is mapped. */
    ghost predicate Rebuilt(vertices: seq<Vertex>)
      reads this
    {
      MapsLastIndex(makeKey, vertexMap, vertices)
    }

    /** Index::Rebuild: clears the map, then maps the key of vertex i to i for i = 0, 1, .... */
    method Rebuild(mesh: Mesh)
      modifies this
      ensures Rebuilt(mesh.vertexArray)
    {
      vertexMap := map[];
      var i := 0;
      while i < |mesh.vertexArray|
        invariant 0 <= i <= |mesh.vertexArray|
        invariant Rebuilt(mesh.vertexArray[..i])
      {
        MapsLastIndexStep(makeKey, vertexMap, mesh.vertexArray, i);
        vertexMap := vertexMap[MakeKey(mesh.vertexArray[i]) := i];
        i := i + 1;
      }
      assert mesh.vertexArray[..i] == mesh.vertexArray;
    }

    /**
     * Index::IsValid: as many keys as vertices, every key maps to an existing vertex whose
     * key it is, and no index is mapped twice.
     */
    predicate IsValid(mesh: Mesh)
      reads this, mesh
    {
      |vertexMap| == |mesh.vertexArray| &&
      (forall key :: key in vertexMap ==>
        mesh.IsValidVertex(vertexMap[key]) && MakeKey(mesh.vertexArray[vertexMap[key]]) == key) &&
      (forall key1, key2 :: key1 in vertexMap && key2 in vertexMap && key1 != key2 ==> vertexMap[key1] != vertexMap[key2])
    }
  }

  /** Each key of a vertex maps to the last index having that key, and nothing else is mapped. */
  ghost predicate MapsLastIndex(makeKey: Vec3 -> string, m: map<string, int>, vertices: seq<Vertex>) {
    (forall key :: key in m <==> exists j :: 0 <= j < |vertices| && makeKey(vertices[j].point) == key) &&
    (forall key :: key in m ==>
      0 <= m[key] < |vertices| && makeKey(vertices[m[key]].point) == key &&
      forall j :: m[key] < j < |vertices| ==> makeKey(vertices[j].point) != key)
  }

  /** Mapping the key of vertex i to i extends the map of the first i vertices to the first i + 1. */
  lemma MapsLastIndexStep(makeKey: Vec3 -> string, m: map<string, int>, vertices: seq<Vertex>, i: nat)
    requires i < |vertices| && MapsLastIndex(makeKey, m, vertices[..i])
    ensures MapsLastIndex(makeKey, m[makeKey(vertices[i].point) := i], vertices[..i + 1])
  {
    var m' := m[makeKey(vertices[i].point) := i];
    var pre, pre1 := vertices[..i], vertices[..i + 1];
    forall key ensures key in m' <==> exists j :: 0 <= j < |pre1| && makeKey(pre1[j].point) == key {
      if key in m' && key != makeKey(vertices[i].point) {
        var j :| 0 <= j < |pre| && makeKey(pre[j].point) == key;
        assert pre1[j] == pre[j];
      }
      if key == makeKey(vertices[i].point) {
        assert pre1[i] == vertices[i];
      }
      if exists j :: 0 <= j < |pre1| && makeKey(pre1[j].point) == key {
        var j :| 0 <= j < |pre1| && makeKey(pre1[j].point) == key;
        if j < i {
          assert pre1[j] == pre[j];
        }
      }
    }
    forall key | key in m'
      ensures 0 <= m'[key] < |pre1| && makeKey(pre1[m'[key]].point) == key &&
        forall j :: m'[key] < j < |pre1| ==> makeKey(pre1[j].point) != key
    {
      if key != makeKey(vertices[i].point) {
        assert pre1[m[key]] == pre[m[key]];
        forall j | m'[key] < j < |pre1| ensures makeKey(pre1[j].point) != key {
          if j < i {
            assert pre1[j] == pre[j];
          }
        }
      } else {
        assert pre1[i] == vertices[i];
      }
    }
  }

  /** No two keys share an index. */
  predicate Injective(m: map<string, int>) {
    forall key1, key2 :: key1 in m && key2 in m && key1 != key2 ==> m[key1] != m[key2]
  }

  /** An injective map has as many distinct values as keys. */
  lemma {:induction false} InjectiveValuesCard(m: map<string, int>)
    requires Injective(m)
    ensures |m.Values| == |m|
    decreases |m|
  {
    if |m| > 0 {
      var key :| key in m;
      var rest := m - {key};
      assert rest.Keys == m.Keys - {key};
      assert |rest| == |m| - 1;
      InjectiveValuesCard(rest);
      forall v | v in m.Values ensures v in rest.Values + {m[key]} {
        var k :| k in m && m[k] == v;
        if k != key {
          assert k in rest && rest[k] == v;
        }
      }
      forall v | v in rest.Values + {m[key]} ensures v in m.Values {
        if v != m[key] {
          var k :| k in rest && rest[k] == v;
          assert k in m && m[k] == v;
        }
      }
      assert m.Values == rest.Values + {m[key]};
      assert m[key] !in rest.Values;
    }
  }

  /**
   * A valid index is a bijection between the keys and the vertex indices: every vertex's
   * key is present and maps back to that very vertex, so no two vertices share a key.
   */
  lemma ValidIndexIsBijection(index: Index, mesh: Mesh)
    requires index.IsValid(mesh)
    ensures forall j :: 0 <= j < |mesh.vertexArray| ==>
      index.MakeKey(mesh.vertexArray[j]) in index.vertexMap && index.vertexMap[index.MakeKey(mesh.vertexArray[j])] == j
    ensures forall j1, j2 :: 0 <= j1 < j2 < |mesh.vertexArray| ==>
      index.MakeKey(mesh.vertexArray[j1]) != index.MakeKey(mesh.vertexArray[j2])
  {
    var m, n := index.vertexMap, |mesh.vertexArray|;
    InjectiveValuesCard(m);
    var slots := set i | i in Slots(n);
    RangeCard(n);
    forall v | v in m.Values ensures v in slots {
      var k :| k in m && m[k] == v;
      assert 0 <= v < n && Slots(n)[v] == v;
    }
    assert |slots - m.Values| == 0;
    assert slots - m.Values == {};
    forall j | 0 <= j < n
      ensures index.MakeKey(mesh.vertexArray[j]) in m && m[index.MakeKey(mesh.vertexArray[j])] == j
    {
      assert Slots(n)[j] == j;
      assert j in slots;
      assert j in m.Values;
      var key :| key in m && m[key] == j;
    }
  }
}
