/**
 * Vectors, planes and line segments of the MeshWarrior math library, over exact reals.
 * Only the operations that reduce to addition, multiplication and comparison are defined here.
 * Operations that take a square root, or whose bodies are not part of this model,
 * are supplied through the Kernel bundle of functions.
 */
module Geometry {
  import opened Wrappers

  datatype Vec3 = Vec3(x: real, y: real, z: real)

  /** Vector(): every component zero. */
  const Zero := Vec3(0.0, 0.0, 0.0)

  /** FLT_MIN and FLT_MAX as they appear in the default bounding box. */
  const FLT_MIN: real := 0.000000000000000000000000000000000000011754943508
  const FLT_MAX: real := 340282346638528859811704183484516925440.0

  /** MW_EPS from Defines.h. */
  const MW_EPS: real := 0.00001

  function Add(a: Vec3, b: Vec3): Vec3 { Vec3(a.x + b.x, a.y + b.y, a.z + b.z) }
  function Sub(a: Vec3, b: Vec3): Vec3 { Vec3(a.x - b.x, a.y - b.y, a.z - b.z) }
  function Half(a: Vec3): Vec3 { Vec3(a.x / 2.0, a.y / 2.0, a.z / 2.0) }
  function Dot(a: Vec3, b: Vec3): real { a.x * b.x + a.y * b.y + a.z * b.z }
  function Cross(a: Vec3, b: Vec3): Vec3 {
    Vec3(a.y * b.z - a.z * b.y, a.z * b.x - a.x * b.z, a.x * b.y - a.y * b.x)
  }

  function MinReal(a: real, b: real): real { if a < b then a else b }
  function MaxReal(a: real, b: real): real { if a > b then a else b }

  /** Vector::Min and Vector::Max: componentwise. */
  function Min(a: Vec3, b: Vec3): Vec3 { Vec3(MinReal(a.x, b.x), MinReal(a.y, b.y), MinReal(a.z, b.z)) }
  function Max(a: Vec3, b: Vec3): Vec3 { Vec3(MaxReal(a.x, b.x), MaxReal(a.y, b.y), MaxReal(a.z, b.z)) }

  /** Square of (a - b).Length(). */
  function DistSq(a: Vec3, b: Vec3): real { Dot(Sub(a, b), Sub(a, b)) }

  /** (a - b).Length() <= eps, stated without the square root (a length is never negative). */
  predicate Within(a: Vec3, b: Vec3, eps: real) { 0.0 <= eps && DistSq(a, b) <= eps * eps }

  /** (a - b).Length() < eps, stated without the square root. */
  predicate Closer(a: Vec3, b: Vec3, eps: real) { 0.0 < eps && DistSq(a, b) < eps * eps }

  function Abs(r: real): real { if r < 0.0 then -r else r }

  /** A plane through `center`; `unitNormal` is unit length whenever it was produced by Normalize. */
  datatype Plane = Plane(center: Vec3, unitNormal: Vec3)

  /** Plane() as left by its empty constructor: both vectors zero. */
  const DefaultPlane := Plane(Zero, Zero)

  /** Plane::ShortestSignedDistanceToPoint. */
  function SignedDistance(plane: Plane, p: Vec3): real {
    Dot(Sub(p, plane.center), plane.unitNormal)
  }

  /** Shape::ContainsPoint for a plane: |distance| <= eps. */
  predicate PlaneContainsPoint(plane: Plane, p: Vec3, eps: real) {
    Abs(SignedDistance(plane, p)) <= eps
  }

  /** A line segment by its two end points, GetPoint(0) and GetPoint(1). */
  datatype Segment = Segment(p0: Vec3, p1: Vec3)

  /**
   * The numerical operations this model takes as given.
   *  - normalize: Vector::Normalize of a non-zero vector (divides by its length).
   *  - crossing: Plane::IntersectWith(LineSegment(a, b)), the point where the segment meets the plane.
   *  - intersect: ConvexPolygon::IntersectWith, the segment two polygons share, if any.
   *  - onSegment: LineSegment(a, b).ContainsPoint(p).
   */
  datatype Kernel = Kernel(
    normalize: Vec3 -> Vec3,
    crossing: (Plane, Vec3, Vec3) -> Option<Vec3>,
    intersect: (seq<Vec3>, seq<Vec3>) -> Option<Segment>,
    onSegment: (Vec3, Vec3, Vec3) -> bool)

  function Scale(v: Vec3, c: real): Vec3 { Vec3(v.x * c, v.y * c, v.z * c) }

  /** The cross product is perpendicular to both its factors. */
  lemma CrossPerpendicular(a: Vec3, b: Vec3)
    ensures Dot(a, Cross(a, b)) == 0.0 && Dot(b, Cross(a, b)) == 0.0
  {
    assert Dot(b, Cross(a, b)) == b.x * (a.y * b.z - a.z * b.y) + b.y * (a.z * b.x - a.x * b.z) + b.z * (a.x * b.y - a.y * b.x);
    assert b.x * (a.y * b.z - a.z * b.y) == b.x * a.y * b.z - b.x * a.z * b.y;
    assert b.y * (a.z * b.x - a.x * b.z) == b.y * a.z * b.x - b.y * a.x * b.z;
    assert b.z * (a.x * b.y - a.y * b.x) == b.z * a.x * b.y - b.z * a.y * b.x;
  }

  /** Only the zero vector has a zero square length. */
  lemma DotSelfPositive(v: Vec3)
    requires v != Zero
    ensures Dot(v, v) > 0.0
  {
    calc {
      Dot(v, v);
      v.x * v.x + v.y * v.y + v.z * v.z;
    > { SumOfSquaresPositive(v.x, v.y, v.z); }
      0.0;
    }
  }

  lemma SumOfSquaresPositive(x: real, y: real, z: real)
    requires x != 0.0 || y != 0.0 || z != 0.0
    ensures x * x + y * y + z * z > 0.0
  {
    SquareNonNegative(x);
    SquareNonNegative(y);
    SquareNonNegative(z);
    if x != 0.0 {
      SquarePositive(x);
    } else if y != 0.0 {
      SquarePositive(y);
    } else {
      SquarePositive(z);
    }
  }

  lemma SquareNonNegative(r: real)
    ensures r * r >= 0.0
  {
    if r < 0.0 {
      assert r * r == (-r) * (-r);
    }
  }

  lemma SquarePositive(r: real)
    requires r != 0.0
    ensures r * r > 0.0
  {
    if r < 0.0 {
      assert r * r == (-r) * (-r);
    }
  }

  lemma DotSymmetric(a: Vec3, b: Vec3)
    ensures Dot(a, b) == Dot(b, a)
  {
  }

  /** Scaling one factor scales the dot product. */
  lemma DotScale(a: Vec3, v: Vec3, c: real)
    ensures Dot(a, Scale(v, c)) == c * Dot(a, v)
  {
    assert a.x * (v.x * c) + a.y * (v.y * c) + a.z * (v.z * c) == c * (a.x * v.x + a.y * v.y + a.z * v.z);
  }

  /**
   * What the kernel's normalize must do to stand for Vector::Normalize: divide a non-zero
   * vector by its (positive) length, which leaves a positive multiple of it.
   */
  ghost predicate NormalizesAlong(k: Kernel) {
    forall v :: v != Zero ==> exists c: real :: c > 0.0 && k.normalize(v) == Scale(v, c)
  }

  /**
   * Vector::Normalize with its divide-by-zero flag: a zero vector is left as it is and the
   * flag is raised (its length is zero exactly when it is the zero vector); otherwise the
   * result points the same way as the vector.
   */
  function Normalize(k: Kernel, v: Vec3): (r: Option<Vec3>)
    ensures r.None? <==> v == Zero
    ensures NormalizesAlong(k) && r.Some? ==> exists c: real :: c > 0.0 && r.value == Scale(v, c)
  {
    if v == Zero then None else Some(k.normalize(v))
  }

  lemma DistSqNonNegative(a: Vec3, b: Vec3)
    ensures DistSq(a, b) >= 0.0
  {
    var d := Sub(a, b);
    assert d.x * d.x >= 0.0 && d.y * d.y >= 0.0 && d.z * d.z >= 0.0;
  }

  lemma DistSqSymmetric(a: Vec3, b: Vec3)
    ensures DistSq(a, b) == DistSq(b, a)
  {
  }

  lemma DistSqSelf(a: Vec3)
    ensures DistSq(a, a) == 0.0
  {
  }
}
