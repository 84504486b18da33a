/**
 * Polygon and ConvexPolygon: a polygon is its vertex list. The validity and containment
 * checks are functions of that list; ReverseWinding works in place on the vertex buffer;
 * GenerateEdgePlaneArray and SplitAgainstPlane build their output lists in loops.
 */
module Polygons {
  import opened Wrappers
  import opened Geometry
  import opened Sequences

  /** The tolerance SplitAgainstPlane uses to decide that a point lies on the plane. */
  const SPLIT_EPS: real := 0.000001

  /** Polygon::ReverseWinding: swaps vertex i with vertex n - 1 - i for every i < n / 2. */
  method ReverseWinding(vertexArray: array<Vec3>)
    modifies vertexArray
    ensures vertexArray[..] == Reversed(old(vertexArray[..]))
  {
    var n := vertexArray.Length;
    var i := 0;
    while i < n / 2
      invariant 0 <= i <= n / 2
      invariant forall k :: 0 <= k < i ==>
        vertexArray[k] == old(vertexArray[n - 1 - k]) && vertexArray[n - 1 - k] == old(vertexArray[k])
      invariant forall k :: i <= k < n - i ==> vertexArray[k] == old(vertexArray[k])
    {
      var j := n - 1 - i;
      var vertex := vertexArray[i];
      vertexArray[i] := vertexArray[j];
      vertexArray[j] := vertex;
      i := i + 1;
    }
  }

  /**
   * Polygon::CalcPlane: the plane through the first vertex whose normal is the normalised
   * cross product of the first two edges from it; fails for fewer than three vertices or
   * when that cross product vanishes.
   */
  function CalcPlane(k: Kernel, vertexArray: seq<Vec3>): (r: Option<Plane>)
    ensures |vertexArray| < 3 ==> r.None?
    ensures |vertexArray| >= 3 ==>
      var n := Cross(Sub(vertexArray[1], vertexArray[0]), Sub(vertexArray[2], vertexArray[0]));
      (r.None? <==> n == Zero) && (r.Some? ==> r.value == Plane(vertexArray[0], k.normalize(n)))
  {
    if |vertexArray| < 3 then None
    else
      var n := Cross(Sub(vertexArray[1], vertexArray[0]), Sub(vertexArray[2], vertexArray[0]));
      match Normalize(k, n)
      case None => None
      case Some(u) => Some(Plane(vertexArray[0], u))
  }

  /**
   * With a normalize that divides by the length, a plane CalcPlane finds goes through the
   * first three vertices, and its normal points along the cross product of the first two
   * edges (the side from which the first three vertices turn counter-clockwise).
   */
  lemma CalcPlaneThroughFirstThree(k: Kernel, vertexArray: seq<Vec3>)
    requires NormalizesAlong(k)
    ensures CalcPlane(k, vertexArray).Some? ==>
      |vertexArray| >= 3 &&
      var plane := CalcPlane(k, vertexArray).value;
      SignedDistance(plane, vertexArray[0]) == 0.0 &&
      SignedDistance(plane, vertexArray[1]) == 0.0 &&
      SignedDistance(plane, vertexArray[2]) == 0.0 &&
      Dot(plane.unitNormal, Cross(Sub(vertexArray[1], vertexArray[0]), Sub(vertexArray[2], vertexArray[0]))) > 0.0
  {
    if CalcPlane(k, vertexArray).Some? {
      var a, b := Sub(vertexArray[1], vertexArray[0]), Sub(vertexArray[2], vertexArray[0]);
      var n := Cross(a, b);
      var c: real :| c > 0.0 && k.normalize(n) == Scale(n, c);
      var plane := CalcPlane(k, vertexArray).value;
      assert plane == Plane(vertexArray[0], Scale(n, c));
      CrossPerpendicular(a, b);
      DotScale(a, n, c);
      DotScale(b, n, c);
      DotScale(n, n, c);
      DotSelfPositive(n);
      DotSymmetric(plane.unitNormal, n);
      assert Sub(vertexArray[0], vertexArray[0]) == Zero;
      assert SignedDistance(plane, vertexArray[1]) == Dot(a, plane.unitNormal);
      assert SignedDistance(plane, vertexArray[2]) == Dot(b, plane.unitNormal);
    }
  }

  /** The plane a fresh Plane holds after CalcPlane, whether it succeeded or not. */
  function PlaneOrDefault(k: Kernel, vertexArray: seq<Vec3>): Plane {
    CalcPlane(k, vertexArray).GetOr(DefaultPlane)
  }

  /** Polygon::IsValid: at least three vertices, a plane, and every vertex within 1e-5 of it. */
  predicate PolygonIsValid(k: Kernel, vertexArray: seq<Vec3>) {
    |vertexArray| >= 3 && CalcPlane(k, vertexArray).Some? &&
    forall v :: v in vertexArray ==> PlaneContainsPoint(CalcPlane(k, vertexArray).value, v, MW_EPS)
  }

  /** The edge plane for edge i -> (i + 1) mod n: through vertex i, normal along (edge x polygon normal). */
  function EdgePlaneAt(k: Kernel, vertexArray: seq<Vec3>, normal: Vec3, i: nat): Option<Plane>
    requires i < |vertexArray|
  {
    var j := (i + 1) % |vertexArray|;
    match Normalize(k, Cross(Sub(vertexArray[j], vertexArray[i]), normal))
    case None => None
    case Some(u) => Some(Plane(vertexArray[i], u))
  }

  /** The edge planes from edge i onwards, stopping at the first edge whose normal cannot be normalised. */
  function EdgePlanesFrom(k: Kernel, vertexArray: seq<Vec3>, normal: Vec3, i: nat): (bool, seq<Plane>)
    requires i <= |vertexArray|
    decreases |vertexArray| - i
  {
    if i == |vertexArray| then (true, [])
    else match EdgePlaneAt(k, vertexArray, normal, i)
      case None => (false, [])
      case Some(p) =>
        var (ok, rest) := EdgePlanesFrom(k, vertexArray, normal, i + 1);
        (ok, [p] + rest)
  }

  /**
   * What GenerateEdgePlaneArray reports and leaves in a list that was empty: nothing when the
   * polygon has no plane, otherwise the edge planes up to the first degenerate edge.
   */
  function EdgePlanes(k: Kernel, vertexArray: seq<Vec3>): (bool, seq<Plane>) {
    match CalcPlane(k, vertexArray)
    case None => (false, [])
    case Some(plane) => EdgePlanesFrom(k, vertexArray, plane.unitNormal, 0)
  }

  /**
   * The edge planes from i onwards are the planes of edges i, i + 1, ... up to (not
   * including) the first degenerate one, and succeed exactly when there is none.
   */
  lemma {:induction false} EdgePlanesFromShape(k: Kernel, vertexArray: seq<Vec3>, normal: Vec3, i: nat)
    requires i <= |vertexArray|
    ensures var (ok, planes) := EdgePlanesFrom(k, vertexArray, normal, i);
      i + |planes| <= |vertexArray| &&
      (forall m :: 0 <= m < |planes| ==> EdgePlaneAt(k, vertexArray, normal, i + m) == Some(planes[m])) &&
      (ok <==> i + |planes| == |vertexArray|) &&
      (!ok ==> EdgePlaneAt(k, vertexArray, normal, i + |planes|).None?)
    decreases |vertexArray| - i
  {
    if i < |vertexArray| && EdgePlaneAt(k, vertexArray, normal, i).Some? {
      EdgePlanesFromShape(k, vertexArray, normal, i + 1);
      var (ok, rest) := EdgePlanesFrom(k, vertexArray, normal, i + 1);
      var planes := EdgePlanesFrom(k, vertexArray, normal, i).1;
      assert planes == [EdgePlaneAt(k, vertexArray, normal, i).value] + rest;
      forall m | 0 <= m < |planes|
        ensures EdgePlaneAt(k, vertexArray, normal, i + m) == Some(planes[m])
      {
        if m > 0 {
          assert planes[m] == rest[m - 1];
        }
      }
    }
  }

  /**
   * On success there is exactly one edge plane per vertex: plane i goes through vertex i
   * and is normal to edge i -> (i + 1) mod n and to the polygon's normal.
   */
  lemma EdgePlanesOnSuccess(k: Kernel, vertexArray: seq<Vec3>)
    requires EdgePlanes(k, vertexArray).0
    ensures var planes := EdgePlanes(k, vertexArray).1; var n := |vertexArray|;
      n >= 3 && |planes| == n &&
      forall i :: 0 <= i < n ==>
        planes[i].center == vertexArray[i] &&
        planes[i].unitNormal ==
          k.normalize(Cross(Sub(vertexArray[(i + 1) % n], vertexArray[i]), CalcPlane(k, vertexArray).value.unitNormal))
  {
    var plane := CalcPlane(k, vertexArray).value;
    EdgePlanesFromShape(k, vertexArray, plane.unitNormal, 0);
    var planes := EdgePlanes(k, vertexArray).1;
    forall i | 0 <= i < |vertexArray|
      ensures planes[i].center == vertexArray[i]
    {
      assert EdgePlaneAt(k, vertexArray, plane.unitNormal, 0 + i) == Some(planes[i]);
    }
  }

  /**
   * ConvexPolygon::GenerateEdgePlaneArray. When the polygon has no plane the list is left
   * as it was; otherwise it is cleared and receives the planes of edges 0, 1, ... up to
   * the first edge whose normal cannot be normalised, and the result says whether every
   * edge got one.
   */
  method GenerateEdgePlaneArray(k: Kernel, vertexArray: seq<Vec3>, edgePlaneArray: seq<Plane>)
    returns (ok: bool, planes: seq<Plane>)
    ensures CalcPlane(k, vertexArray).None? ==> !ok && planes == edgePlaneArray
    ensures CalcPlane(k, vertexArray).Some? ==>
      var normal := CalcPlane(k, vertexArray).value.unitNormal;
      |planes| <= |vertexArray| &&
      (forall m :: 0 <= m < |planes| ==> EdgePlaneAt(k, vertexArray, normal, m) == Some(planes[m])) &&
      (ok <==> |planes| == |vertexArray|) &&
      (!ok ==> EdgePlaneAt(k, vertexArray, normal, |planes|).None?)
    ensures edgePlaneArray == [] ==> (ok, planes) == EdgePlanes(k, vertexArray)
  {
    var plane := CalcPlane(k, vertexArray);
    if plane.None? {
      return false, edgePlaneArray;
    }
    var normal := plane.value.unitNormal;
    planes := [];
    var i := 0;
    while i < |vertexArray|
      invariant 0 <= i <= |vertexArray| && |planes| == i
      invariant forall m :: 0 <= m < i ==> EdgePlaneAt(k, vertexArray, normal, m) == Some(planes[m])
    {
      var j := (i + 1) % |vertexArray|;
      var edgeNormal := Normalize(k, Cross(Sub(vertexArray[j], vertexArray[i]), normal));
      if edgeNormal.None? {
        ok := false;
        EdgePlanesAgree(k, vertexArray, normal, planes, ok);
        return;
      }
      planes := planes + [Plane(vertexArray[i], edgeNormal.value)];
      i := i + 1;
    }
    ok := true;
    EdgePlanesAgree(k, vertexArray, normal, planes, ok);
  }

  /** Any list of the shape GenerateEdgePlaneArray produces is the one EdgePlanesFrom describes. */
  lemma EdgePlanesAgree(k: Kernel, vertexArray: seq<Vec3>, normal: Vec3, planes: seq<Plane>, ok: bool)
    requires |planes| <= |vertexArray|
    requires forall m :: 0 <= m < |planes| ==> EdgePlaneAt(k, vertexArray, normal, m) == Some(planes[m])
    requires ok <==> |planes| == |vertexArray|
    requires !ok ==> EdgePlaneAt(k, vertexArray, normal, |planes|).None?
    ensures (ok, planes) == EdgePlanesFrom(k, vertexArray, normal, 0)
  {
    EdgePlanesFromShape(k, vertexArray, normal, 0);
    var (ok', planes') := EdgePlanesFrom(k, vertexArray, normal, 0);
    assert forall m :: 0 <= m < |planes'| ==> EdgePlaneAt(k, vertexArray, normal, m) == Some(planes'[m]) by {
      forall m | 0 <= m < |planes'| ensures EdgePlaneAt(k, vertexArray, normal, m) == Some(planes'[m]) {
        assert EdgePlaneAt(k, vertexArray, normal, 0 + m) == Some(planes'[m]);
      }
    }
    if |planes'| < |planes| {
      assert false;
    } else if |planes| < |planes'| {
      assert false;
    }
    forall m | 0 <= m < |planes| ensures planes[m] == planes'[m] {
      assert EdgePlaneAt(k, vertexArray, normal, m) == Some(planes'[m]);
    }
    assert planes == planes' && ok == ok';
  }

  /**
   * ConvexPolygon::IsValid: a valid polygon none of whose vertices lies strictly in front
   * of any of the edge planes that were generated.
   */
  predicate ConvexIsValid(k: Kernel, vertexArray: seq<Vec3>) {
    PolygonIsValid(k, vertexArray) &&
    var planes := EdgePlanes(k, vertexArray).1;
    forall i, j :: 0 <= i < |planes| && 0 <= j < |vertexArray| ==> !(SignedDistance(planes[i], vertexArray[j]) > 0.0)
  }

  /**
   * ConvexPolygon::ContainsPoint: the point is within eps of the polygon's plane (a default
   * plane when CalcPlane fails) and no more than eps in front of any generated edge plane.
   */
  predicate ContainsPoint(k: Kernel, vertexArray: seq<Vec3>, point: Vec3, eps: real) {
    PlaneContainsPoint(PlaneOrDefault(k, vertexArray), point, eps) &&
    var planes := EdgePlanes(k, vertexArray).1;
    forall i :: 0 <= i < |planes| ==> !(SignedDistance(planes[i], point) > eps)
  }

  /** Fewer than three vertices: no plane, and neither validity check passes. */
  lemma TooFewVertices(k: Kernel, vertexArray: seq<Vec3>)
    requires |vertexArray| < 3
    ensures CalcPlane(k, vertexArray).None? && !PolygonIsValid(k, vertexArray) && !ConvexIsValid(k, vertexArray)
  {
  }

  /**
   * ContainsPoint is false when the point is off the plane by more than eps or more than eps
   * in front of some edge plane; for a polygon without a plane (fewer than three vertices or
   * collinear first three) it holds for every point, since the default plane has a zero
   * normal and no edge planes are generated.
   */
  lemma ContainsPointCases(k: Kernel, vertexArray: seq<Vec3>, point: Vec3, eps: real)
    ensures !PlaneContainsPoint(PlaneOrDefault(k, vertexArray), point, eps) ==> !ContainsPoint(k, vertexArray, point, eps)
    ensures forall i :: 0 <= i < |EdgePlanes(k, vertexArray).1| && SignedDistance(EdgePlanes(k, vertexArray).1[i], point) > eps ==>
      !ContainsPoint(k, vertexArray, point, eps)
    ensures CalcPlane(k, vertexArray).None? && eps >= 0.0 ==> ContainsPoint(k, vertexArray, point, eps)
  {
    if CalcPlane(k, vertexArray).None? && eps >= 0.0 {
      assert PlaneOrDefault(k, vertexArray) == DefaultPlane;
      assert SignedDistance(DefaultPlane, point) == 0.0;
      assert EdgePlanes(k, vertexArray).1 == [];
    }
  }

  // ---------------------------------------------------------------- SplitAgainstPlane

  /** The candidate points of vertices 0 .. i - 1: each vertex, then its edge's crossing point if any. */
  function CandidatesUpTo(k: Kernel, vertexArray: seq<Vec3>, plane: Plane, i: nat): seq<Vec3>
    requires i <= |vertexArray|
  {
    if i == 0 then []
    else
      var v := vertexArray[i - 1];
      var w := vertexArray[i % |vertexArray|];
      CandidatesUpTo(k, vertexArray, plane, i - 1) + [v] +
        (match k.crossing(plane, v, w) case None => [] case Some(p) => [p])
  }

  function Candidates(k: Kernel, vertexArray: seq<Vec3>, plane: Plane): seq<Vec3> {
    CandidatesUpTo(k, vertexArray, plane, |vertexArray|)
  }

  /** The bucketing rule: within SPLIT_EPS of the plane goes to both sides. */
  predicate OnPlane(plane: Plane, p: Vec3) { Abs(SignedDistance(plane, p)) < SPLIT_EPS }
  predicate GoesFront(plane: Plane, p: Vec3) { OnPlane(plane, p) || SignedDistance(plane, p) > 0.0 }
  predicate GoesBack(plane: Plane, p: Vec3) { OnPlane(plane, p) || SignedDistance(plane, p) < 0.0 }

  function Front(plane: Plane, points: seq<Vec3>): seq<Vec3>
  {
    if |points| == 0 then []
    else Front(plane, points[..|points| - 1]) + (if GoesFront(plane, points[|points| - 1]) then [points[|points| - 1]] else [])
  }

  function Back(plane: Plane, points: seq<Vec3>): seq<Vec3>
  {
    if |points| == 0 then []
    else Back(plane, points[..|points| - 1]) + (if GoesBack(plane, points[|points| - 1]) then [points[|points| - 1]] else [])
  }

  function CountOnPlane(plane: Plane, points: seq<Vec3>): nat
  {
    if |points| == 0 then 0
    else CountOnPlane(plane, points[..|points| - 1]) + (if OnPlane(plane, points[|points| - 1]) then 1 else 0)
  }

  /** Front takes exactly the points with d > -1e-6 and back those with d < 1e-6. */
  lemma SidesByDistance(plane: Plane, p: Vec3)
    ensures GoesFront(plane, p) <==> SignedDistance(plane, p) > -SPLIT_EPS
    ensures GoesBack(plane, p) <==> SignedDistance(plane, p) < SPLIT_EPS
    ensures GoesFront(plane, p) && GoesBack(plane, p) <==> OnPlane(plane, p)
    ensures GoesFront(plane, p) || GoesBack(plane, p)
  {
  }

  /** Every point lands somewhere and on-plane points land twice: |front| + |back| = |points| + |on-plane|. */
  lemma {:induction false} SplitCounts(plane: Plane, points: seq<Vec3>)
    ensures |Front(plane, points)| + |Back(plane, points)| == |points| + CountOnPlane(plane, points)
  {
    if |points| > 0 {
      SplitCounts(plane, points[..|points| - 1]);
      SidesByDistance(plane, points[|points| - 1]);
    }
  }

  /**
   * ConvexPolygon::SplitAgainstPlane. The output list is not cleared: the front part and
   * then the back part are appended only when both have at least three points, and the
   * result says whether the output list is non-empty.
   */
  method SplitAgainstPlane(k: Kernel, vertexArray: seq<Vec3>, plane: Plane, polygonArray: seq<seq<Vec3>>)
    returns (split: bool, polygonArray': seq<seq<Vec3>>)
    ensures var pts := Candidates(k, vertexArray, plane);
      var front, back := Front(plane, pts), Back(plane, pts);
      polygonArray' == polygonArray + (if |front| >= 3 && |back| >= 3 then [front, back] else [])
    ensures split <==> |polygonArray'| > 0
  {
    var pointArray := CollectCandidates(k, vertexArray, plane);
    var polygonFront, polygonBack := Classify(plane, pointArray);
    polygonArray' := polygonArray;
    if |polygonFront| >= 3 && |polygonBack| >= 3 {
      polygonArray' := polygonArray' + [polygonFront, polygonBack];
    }
    split := |polygonArray'| > 0;
  }

  /** The first loop of SplitAgainstPlane: each vertex, followed by the crossing of the edge it starts. */
  method CollectCandidates(k: Kernel, vertexArray: seq<Vec3>, plane: Plane) returns (pointArray: seq<Vec3>)
    ensures pointArray == Candidates(k, vertexArray, plane)
  {
    pointArray := [];
    var i := 0;
    while i < |vertexArray|
      invariant 0 <= i <= |vertexArray|
      invariant pointArray == CandidatesUpTo(k, vertexArray, plane, i)
    {
      pointArray := pointArray + [vertexArray[i]];
      var j := (i + 1) % |vertexArray|;
      var point := k.crossing(plane, vertexArray[i], vertexArray[j]);
      if point.Some? {
        pointArray := pointArray + [point.value];
      }
      i := i + 1;
    }
  }

  /** The second loop of SplitAgainstPlane: each candidate goes to the front, the back, or both when it is on the plane. */
  method Classify(plane: Plane, pointArray: seq<Vec3>) returns (polygonFront: seq<Vec3>, polygonBack: seq<Vec3>)
    ensures polygonFront == Front(plane, pointArray) && polygonBack == Back(plane, pointArray)
  {
    polygonFront, polygonBack := [], [];
    var i := 0;
    while i < |pointArray|
      invariant 0 <= i <= |pointArray|
      invariant polygonFront == Front(plane, pointArray[..i])
      invariant polygonBack == Back(plane, pointArray[..i])
    {
      assert pointArray[..i + 1][..i] == pointArray[..i];
      var point := pointArray[i];
      var distance := SignedDistance(plane, point);
      if Abs(distance) < SPLIT_EPS {
        polygonFront := polygonFront + [point];
        polygonBack := polygonBack + [point];
      } else if distance > 0.0 {
        polygonFront := polygonFront + [point];
      } else if distance < 0.0 {
        polygonBack := polygonBack + [point];
      }
      i := i + 1;
    }
    assert pointArray[..|pointArray|] == pointArray;
  }
}
