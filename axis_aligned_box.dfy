/**
 * AxisAlignedBox: a box given by its minimum and maximum corners.
 * The pure queries are functions on the Box value; the operations that overwrite
 * `min` and `max` are methods of the AxisAlignedBox class, each specified by the
 * function on Box values that describes its new state.
 */
module AxisAlignedBoxes {
  import opened Geometry

  datatype Box = Box(min: Vec3, max: Vec3)

  /**
   * AxisAlignedBox(): x and y span [FLT_MIN, FLT_MAX]; z is left at the zero that
   * Vector() gives, so the box is flat in z.
   */
  const Sentinel := Box(Vec3(FLT_MIN, FLT_MIN, 0.0), Vec3(FLT_MAX, FLT_MAX, 0.0))

  predicate IsValid(b: Box) {
    !(b.min.x > b.max.x) && !(b.min.y > b.max.y) && !(b.min.z > b.max.z)
  }

  /** Inclusive on all six faces. */
  predicate ContainsPoint(b: Box, p: Vec3) {
    b.min.x <= p.x <= b.max.x && b.min.y <= p.y <= b.max.y && b.min.z <= p.z <= b.max.z
  }

  predicate ContainsBox(b: Box, c: Box) {
    ContainsPoint(b, c.min) && ContainsPoint(b, c.max)
  }

  /** (min + max) / 2. */
  function CalcCenter(b: Box): Vec3 { Half(Add(b.min, b.max)) }

  function CalcWidth(b: Box): real { b.max.x - b.min.x }
  function CalcHeight(b: Box): real { b.max.y - b.min.y }
  function CalcDepth(b: Box): real { b.max.z - b.min.z }

  /** The test that recognises the default box; as written it compares max.x twice and never looks at max.y. */
  predicate LooksLikeSentinel(b: Box) {
    b.min.x == FLT_MIN && b.min.y == FLT_MIN && b.max.x == FLT_MAX && b.max.x == FLT_MAX
  }

  /** The new value of a box after MinimallyExpandToContainPoint(p). */
  function Expanded(b: Box, p: Vec3): Box {
    if LooksLikeSentinel(b) then Box(p, p) else Box(Min(b.min, p), Max(b.max, p))
  }

  /** The new value of a box after MinimallyExpandToContainBox(c). */
  function ExpandedByBox(b: Box, c: Box): Box {
    Expanded(Expanded(b, c.min), c.max)
  }

  /** The value Combine(a, c) gives its receiver. */
  function Combined(a: Box, c: Box): Box {
    Box(Min(a.min, c.min), Max(a.max, c.max))
  }

  /** The value Intersect(a, c) gives its receiver. */
  function Intersection(a: Box, c: Box): Box {
    Box(Max(a.min, c.min), Min(a.max, c.max))
  }

  predicate OverlapsWith(a: Box, c: Box) {
    IsValid(Intersection(a, c))
  }

  /** The axis SplitReasonably cuts: 0 for x, 1 for y, 2 for z; ties go to x, then y. */
  function SplitAxis(b: Box): (axis: nat)
    ensures axis <= 2
  {
    var width, height, depth := CalcWidth(b), CalcHeight(b), CalcDepth(b);
    var maxDimension := MaxReal(width, MaxReal(height, depth));
    if width == maxDimension then 0
    else if height == maxDimension then 1
    else 2
  }

  /** The two halves SplitReasonably writes into boxA and boxB. */
  function Split(b: Box): (Box, Box) {
    var c := CalcCenter(b);
    var axis := SplitAxis(b);
    if axis == 0 then (Box(b.min, b.max.(x := c.x)), Box(b.min.(x := c.x), b.max))
    else if axis == 1 then (Box(b.min, b.max.(y := c.y)), Box(b.min.(y := c.y), b.max))
    else (Box(b.min, b.max.(z := c.z)), Box(b.min.(z := c.z), b.max))
  }

  /** The box that Face::CalcBoundingBox and Mesh::CalcBoundingBox build: the default box expanded by each point in turn. */
  function BoundOf(points: seq<Vec3>): Box
    decreases |points|
  {
    if |points| == 0 then Sentinel else Expanded(BoundOf(points[..|points| - 1]), points[|points| - 1])
  }

  // ---------------------------------------------------------------- properties

  /** A box is valid exactly when it contains some point. */
  lemma ValidIffContainsSomePoint(b: Box)
    ensures IsValid(b) <==> exists p :: ContainsPoint(b, p)
  {
    if IsValid(b) {
      assert ContainsPoint(b, b.min);
    }
  }

  /** ContainsBox(c) holds exactly when every point of c is in b (for a valid c). */
  lemma ContainsBoxMeansSubset(b: Box, c: Box)
    requires IsValid(c)
    ensures ContainsBox(b, c) <==> forall p :: ContainsPoint(c, p) ==> ContainsPoint(b, p)
  {
    if forall p :: ContainsPoint(c, p) ==> ContainsPoint(b, p) {
      assert ContainsPoint(c, c.min) && ContainsPoint(c, c.max);
    }
  }

  lemma ContainsBoxTransitive(a: Box, b: Box, c: Box)
    requires ContainsBox(a, b) && ContainsBox(b, c)
    ensures ContainsBox(a, c)
  {
  }

  /** Only a valid box can contain anything. */
  lemma ContainerIsValid(b: Box, p: Vec3)
    requires ContainsPoint(b, p)
    ensures IsValid(b)
  {
  }

  lemma SentinelRecognised()
    ensures LooksLikeSentinel(Sentinel)
  {
  }

  /** From the default box, expanding by p gives the single-point box [p, p]. */
  lemma ExpandSentinel(p: Vec3)
    ensures Expanded(Sentinel, p) == Box(p, p)
  {
  }

  /**
   * Expanding always contains p, and keeps every point the box contained unless the
   * box was recognised as the default box (which is replaced by [p, p]).
   */
  lemma ExpandContains(b: Box, p: Vec3, q: Vec3)
    ensures ContainsPoint(Expanded(b, p), p)
    ensures !LooksLikeSentinel(b) && ContainsPoint(b, q) ==> ContainsPoint(Expanded(b, p), q)
    ensures !LooksLikeSentinel(b) ==> ContainsBox(Expanded(b, p), b) == IsValid(b)
  {
  }

  /** Because max.y is never compared, a box that still holds points can be mistaken for the default box and lose them. */
  lemma SentinelTestIgnoresMaxY()
    ensures var b := Box(Vec3(FLT_MIN, FLT_MIN, 0.0), Vec3(FLT_MAX, 1.0, 0.0));
            var q := Vec3(1.0, 1.0, 0.0);
            b != Sentinel && ContainsPoint(b, q) && !ContainsPoint(Expanded(b, Zero), q)
  {
  }

  /**
   * After MinimallyExpandToContainBox(c) both corners of c are contained, unless the
   * intermediate box (after the first corner) is mistaken for the default box; that cannot
   * happen while no x coordinate involved reaches FLT_MAX.
   */
  lemma ExpandedByBoxContainsCorners(b: Box, c: Box)
    requires IsValid(c)
    requires LooksLikeSentinel(b) || b.max.x < FLT_MAX
    requires c.min.x < FLT_MAX
    ensures ContainsPoint(ExpandedByBox(b, c), c.min) && ContainsPoint(ExpandedByBox(b, c), c.max)
    ensures ContainsBox(ExpandedByBox(b, c), c)
  {
    var e := Expanded(b, c.min);
    assert e.max.x < FLT_MAX;
    ExpandContains(e, c.max, c.min);
  }

  /**
   * Expanding by a box keeps every point already contained, provided neither the box nor
   * the new box's min corner reaches FLT_MAX in x (so neither step meets the default-box test).
   */
  lemma ExpandedByBoxKeeps(b: Box, c: Box, q: Vec3)
    requires b.max.x < FLT_MAX && c.min.x < FLT_MAX
    requires ContainsPoint(b, q)
    ensures ContainsPoint(ExpandedByBox(b, c), q)
  {
    ExpandContains(b, c.min, q);
    ExpandContains(Expanded(b, c.min), c.max, q);
  }

  /** Combine contains both its (valid) arguments, and is the smallest box that does. */
  lemma CombinedContainsBoth(a: Box, c: Box)
    requires IsValid(a) && IsValid(c)
    ensures ContainsBox(Combined(a, c), a) && ContainsBox(Combined(a, c), c)
    ensures forall d :: ContainsBox(d, a) && ContainsBox(d, c) ==> ContainsBox(d, Combined(a, c))
  {
  }

  lemma OverlapsSymmetric(a: Box, c: Box)
    ensures OverlapsWith(a, c) == OverlapsWith(c, a)
  {
    assert Intersection(a, c) == Intersection(c, a);
  }

  /** Two boxes overlap exactly when they have a point in common. */
  lemma OverlapsIffCommonPoint(a: Box, c: Box)
    ensures OverlapsWith(a, c) <==> exists p :: ContainsPoint(a, p) && ContainsPoint(c, p)
  {
    var i := Intersection(a, c);
    if OverlapsWith(a, c) {
      assert ContainsPoint(a, i.min) && ContainsPoint(c, i.min);
    }
  }

  /** Overlap is inherited by any box containing one of the two. */
  lemma OverlapsMonotone(big: Box, small: Box, q: Box)
    requires ContainsBox(big, small) && OverlapsWith(small, q)
    ensures OverlapsWith(big, q)
  {
  }

  /**
   * SplitReasonably cuts at the centre of the longest axis (ties: x, then y, then z);
   * boxA keeps min, boxB keeps max, boxA.max meets boxB.min on that axis, and every
   * other coordinate is copied.
   */
  lemma SplitShape(b: Box)
    ensures var (lo, hi) := Split(b); var c := CalcCenter(b);
      lo.min == b.min && hi.max == b.max &&
      (CalcWidth(b) >= CalcHeight(b) && CalcWidth(b) >= CalcDepth(b) ==>
        lo.max == b.max.(x := c.x) && hi.min == b.min.(x := c.x)) &&
      (CalcWidth(b) < CalcHeight(b) && CalcHeight(b) >= CalcDepth(b) ==>
        lo.max == b.max.(y := c.y) && hi.min == b.min.(y := c.y)) &&
      (CalcWidth(b) < CalcDepth(b) && CalcHeight(b) < CalcDepth(b) ==>
        lo.max == b.max.(z := c.z) && hi.min == b.min.(z := c.z))
  {
  }

  /** The halves of a valid box lie inside it and together cover it. */
  lemma SplitCovers(b: Box, p: Vec3)
    requires IsValid(b)
    ensures var (lo, hi) := Split(b);
      ContainsBox(b, lo) && ContainsBox(b, hi) && IsValid(lo) && IsValid(hi) &&
      (ContainsPoint(b, p) <==> ContainsPoint(lo, p) || ContainsPoint(hi, p))
  {
  }

  /** The bound of a non-empty point list contains each point, provided no x coordinate is exactly FLT_MAX. */
  lemma {:induction false} BoundOfContainsAll(points: seq<Vec3>)
    requires |points| > 0
    requires forall i :: 0 <= i < |points| ==> points[i].x < FLT_MAX
    ensures !LooksLikeSentinel(BoundOf(points))
    ensures BoundOf(points).max.x < FLT_MAX
    ensures forall i :: 0 <= i < |points| ==> ContainsPoint(BoundOf(points), points[i])
  {
    var n := |points|;
    var last := points[n - 1];
    if n == 1 {
      assert BoundOf(points[..0]) == Sentinel;
    } else {
      var front := points[..n - 1];
      BoundOfContainsAll(front);
      var b := BoundOf(front);
      assert BoundOf(points) == Expanded(b, last);
      forall i | 0 <= i < n
        ensures ContainsPoint(BoundOf(points), points[i])
      {
        if i < n - 1 {
          assert points[i] == front[i];
          ExpandContains(b, last, points[i]);
        } else {
          ExpandContains(b, last, last);
        }
      }
    }
  }

  // ---------------------------------------------------------------- the mutable box

  class AxisAlignedBox {
    var min: Vec3
    var max: Vec3

    function Value(): Box
      reads this
    {
      Box(min, max)
    }

    constructor()
      ensures Value() == Sentinel
    {
      min := Vec3(FLT_MIN, FLT_MIN, 0.0);
      max := Vec3(FLT_MAX, FLT_MAX, 0.0);
    }

    method MinimallyExpandToContainPoint(point: Vec3)
      modifies this
      ensures Value() == Expanded(old(Value()), point)
    {
      if min.x == FLT_MIN && min.y == FLT_MIN && max.x == FLT_MAX && max.x == FLT_MAX {
        min := point;
        max := point;
      } else {
        min := Min(min, point);
        max := Max(max, point);
      }
    }

    method MinimallyExpandToContainBox(box: Box)
      modifies this
      ensures Value() == ExpandedByBox(old(Value()), box)
    {
      MinimallyExpandToContainPoint(box.min);
      MinimallyExpandToContainPoint(box.max);
    }

    method Combine(boxA: Box, boxB: Box)
      modifies this
      ensures Value() == Combined(boxA, boxB)
    {
      min := Min(boxA.min, boxB.min);
      max := Max(boxA.max, boxB.max);
    }

    method Intersect(boxA: Box, boxB: Box) returns (valid: bool)
      modifies this
      ensures Value() == Intersection(boxA, boxB)
      ensures valid == IsValid(Value())
    {
      min := Max(boxA.min, boxB.min);
      max := Min(boxA.max, boxB.max);
      valid := IsValid(Box(min, max));
    }

    /** Writes the two halves into boxA and boxB; either may be this box itself. */
    method SplitReasonably(boxA: AxisAlignedBox, boxB: AxisAlignedBox)
      requires boxA != boxB
      modifies boxA, boxB
      ensures (boxA.Value(), boxB.Value()) == Split(old(Value()))
    {
      var width, height, depth := max.x - min.x, max.y - min.y, max.z - min.z;
      var maxDimension := MaxReal(width, MaxReal(height, depth));
      var center := CalcCenter(Box(min, max));
      var m0, m1 := min, max;
      boxA.min := m0;
      boxA.max := m1;
      boxB.min := m0;
      boxB.max := m1;
      if width == maxDimension {
        boxA.max := boxA.max.(x := center.x);
        boxB.min := boxB.min.(x := center.x);
      } else if height == maxDimension {
        boxA.max := boxA.max.(y := center.y);
        boxB.min := boxB.min.(y := center.y);
      } else if depth == maxDimension {
        boxA.max := boxA.max.(z := center.z);
        boxB.min := boxB.min.(z := center.z);
      }
    }
  }
}
