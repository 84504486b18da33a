/**
 * Polylines: GeneratePolylines stitches line segments end to end with the pairwise
 * compressor; Reduce drops middle vertices that lie on the segment joining their
 * neighbours; HasVertex searches for a vertex near a point.
 */
module Polylines {
  import opened Wrappers
  import opened Geometry
  import opened Sequences
  import opened Compressors

  /** The default eps of GeneratePolylines and HasVertex. */
  const POLYLINE_EPS: real := 0.000001

  /** Every polyline built by GeneratePolylines has at least its two seed points. */
  type Points = s: seq<Vec3> | |s| >= 2 witness [Zero, Zero]

  function First(p: Points): Vec3 { p[0] }
  function Last(p: Points): Vec3 { p[|p| - 1] }

  /**
   * The merge rule GeneratePolylines hands to the compressor. The four end-point matches
   * are tried in order: end of A at start of B, start of A at end of B, start of A at start
   * of B (A reversed), end of A at end of B (B reversed); the shared point is written once.
   */
  function MergePolylines(a: Points, b: Points, eps: real): (r: Option<Points>)
    ensures r.None? <==>
      !Closer(Last(a), First(b), eps) && !Closer(First(a), Last(b), eps) &&
      !Closer(First(a), First(b), eps) && !Closer(Last(a), Last(b), eps)
    ensures r.Some? ==> |r.value| == |a| + |b| - 1
  {
    if Closer(Last(a), First(b), eps) then Some(a + b[1..])
    else if Closer(First(a), Last(b), eps) then Some(b + a[1..])
    else if Closer(First(a), First(b), eps) then Some(Reversed(a) + b[1..])
    else if Closer(Last(a), Last(b), eps) then Some(a + Reversed(b)[1..])
    else None
  }

  /**
   * A merge keeps every vertex of both inputs except one shared end point, `dropped`,
   * which is closer than eps to the vertex `kept` of the result; the result starts and
   * ends at end points of the inputs.
   */
  lemma MergeDropsOneEndPoint(a: Points, b: Points, eps: real) returns (dropped: Vec3, kept: Vec3)
    requires MergePolylines(a, b, eps).Some?
    ensures var r := MergePolylines(a, b, eps).value;
      multiset(r) + multiset{dropped} == multiset(a) + multiset(b) &&
      kept in r && Closer(dropped, kept, eps) &&
      First(r) in {First(a), Last(a), First(b), Last(b)} &&
      Last(r) in {First(a), Last(a), First(b), Last(b)}
  {
    if Closer(Last(a), First(b), eps) {
      dropped, kept := First(b), Last(a);
      JoinContents(a, b);
    } else if Closer(First(a), Last(b), eps) {
      dropped, kept := First(a), Last(b);
      JoinContents(b, a);
    } else if Closer(First(a), First(b), eps) {
      dropped, kept := First(b), First(a);
      ReversedContents(a);
      JoinContents(Reversed(a), b);
    } else {
      dropped, kept := Last(b), Last(a);
      ReversedContents(b);
      JoinContents(a, Reversed(b));
    }
    DistSqSymmetric(dropped, kept);
  }

  /** a + b[1..] keeps all of a and b except b's first point, and runs from a's first to b's last point. */
  lemma JoinContents(a: Points, b: Points)
    ensures multiset(a + b[1..]) + multiset{b[0]} == multiset(a) + multiset(b)
    ensures (a + b[1..])[|a| - 1] == Last(a)
    ensures First(a + b[1..]) == First(a) && Last(a + b[1..]) == Last(b)
  {
    assert b == [b[0]] + b[1..];
  }

  /** The seeding loop: one two-point polyline [GetPoint(0), GetPoint(1)] per segment, in input order. */
  method SeedPolylines(lineSegmentArray: seq<Segment>) returns (polylineArray: seq<Option<Points>>)
    ensures |polylineArray| == |lineSegmentArray|
    ensures forall i :: 0 <= i < |polylineArray| ==>
      polylineArray[i] == Some([lineSegmentArray[i].p0, lineSegmentArray[i].p1])
  {
    polylineArray := [];
    var i := 0;
    while i < |lineSegmentArray|
      invariant 0 <= i <= |lineSegmentArray| && |polylineArray| == i
      invariant forall m :: 0 <= m < i ==> polylineArray[m] == Some([lineSegmentArray[m].p0, lineSegmentArray[m].p1])
    {
      var lineSegment := lineSegmentArray[i];
      polylineArray := polylineArray + [Some([lineSegment.p0, lineSegment.p1])];
      i := i + 1;
    }
  }

  /** The number of segments a polyline is made of: one fewer than its vertices. */
  function Span(p: Points): nat { |p| - 1 }

  /** A merge spans the segments of both its parts. */
  lemma MergeSpans(eps: real)
    ensures Additive((a, b) => MergePolylines(a, b, eps), Span)
  {
  }

  /** Each seed spans one segment, so the seeds together span one per segment. */
  lemma {:induction false} SeedsSpan(seeds: seq<Option<Points>>)
    requires forall i :: 0 <= i < |seeds| ==> seeds[i].Some? && |seeds[i].value| == 2
    ensures SumW(Span, NonNull(seeds)) == |seeds|
  {
    if |seeds| > 0 {
      SeedsSpan(seeds[..|seeds| - 1]);
    }
  }

  /**
   * Polyline::GeneratePolylines: the output is replaced by the seeds compressed under
   * MergePolylines. The polylines together span exactly as many segments as went in (each
   * segment ends up in exactly one polyline's count), there is at least one polyline when
   * there is a segment and no more polylines than segments, and no two of them could still
   * be joined: none has an end point closer than eps to an end point of another.
   */
  method GeneratePolylines(lineSegmentArray: seq<Segment>, eps: real) returns (polylineArray: seq<Points>)
    ensures SumW(Span, polylineArray) == |lineSegmentArray|
    ensures |polylineArray| <= |lineSegmentArray|
    ensures |polylineArray| == 0 <==> |lineSegmentArray| == 0
    ensures forall p, q :: 0 <= p < q < |polylineArray| ==>
      var a, b := polylineArray[p], polylineArray[q];
      !Closer(Last(a), First(b), eps) && !Closer(First(a), Last(b), eps) &&
      !Closer(First(a), First(b), eps) && !Closer(Last(a), Last(b), eps)
  {
    var seeds := SeedPolylines(lineSegmentArray);
    SeedsAreLive(seeds);
    SeedsSpan(seeds);
    MergeSpans(eps);
    polylineArray := CompressArray(seeds, (a, b) => MergePolylines(a, b, eps), Span);
  }

  lemma {:induction false} SeedsAreLive(seeds: seq<Option<Points>>)
    requires forall i :: 0 <= i < |seeds| ==> seeds[i].Some?
    ensures LiveCount(seeds) == |seeds|
  {
    if |seeds| > 0 {
      SeedsAreLive(seeds[..|seeds| - 1]);
    }
  }

  /**
   * Indices `kept`, strictly increasing and including the first and last index, pick r
   * out of s: r is s with some middle vertices removed.
   */
  ghost predicate KeptIndices(r: seq<Vec3>, s: seq<Vec3>, kept: seq<nat>) {
    |kept| == |r| &&
    (forall m :: 0 <= m < |kept| ==> kept[m] < |s| && r[m] == s[kept[m]]) &&
    (forall m, n :: 0 <= m < n < |kept| ==> kept[m] < kept[n]) &&
    (|s| > 0 ==> |kept| > 0 && kept[0] == 0 && kept[|kept| - 1] == |s| - 1)
  }

  /** No vertex strictly between two others lies on the segment joining its neighbours. */
  predicate Reduced(k: Kernel, v: seq<Vec3>) {
    forall i :: 0 <= i < |v| - 2 ==> !k.onSegment(v[i], v[i + 2], v[i + 1])
  }

  class Polyline {
    var vertexArray: seq<Vec3>

    constructor()
      ensures vertexArray == []
    {
      vertexArray := [];
    }

    /**
     * Polyline::Reduce: passes over the vertices, removing vertex i + 1 whenever it lies on
     * the segment from vertex i to vertex i + 2, until a pass removes nothing. The result is
     * the old polyline with some middle vertices removed (first and last stay), and no
     * remaining middle vertex is on the segment between its neighbours.
     */
    method Reduce(k: Kernel)
      modifies this
      ensures |vertexArray| <= |old(vertexArray)|
      ensures exists kept :: KeptIndices(vertexArray, old(vertexArray), kept)
      ensures |old(vertexArray)| > 0 ==>
        |vertexArray| > 0 && vertexArray[0] == old(vertexArray)[0] &&
        vertexArray[|vertexArray| - 1] == old(vertexArray)[|old(vertexArray)| - 1]
      ensures Reduced(k, vertexArray)
    {
      var v := ReduceVertices(k, vertexArray);
      ghost var kept :| KeptIndices(v, vertexArray, kept);
      vertexArray := v;
      assert KeptIndices(vertexArray, old(vertexArray), kept);
    }

    /** Polyline::HasVertex: some vertex is within eps of the point (inclusive). */
    function HasVertex(vertex: Vec3, eps: real): (r: bool)
      reads this
      ensures r <==> exists i :: 0 <= i < |vertexArray| && Within(vertexArray[i], vertex, eps)
    {
      HasVertexFrom(vertexArray, 0, vertex, eps)
    }
  }

  /** The passes of Polyline::Reduce over its vertex list. */
  method ReduceVertices(k: Kernel, vertexArray: seq<Vec3>) returns (v: seq<Vec3>)
    ensures |v| <= |vertexArray|
    ensures exists kept :: KeptIndices(v, vertexArray, kept)
    ensures |vertexArray| > 0 ==> |v| > 0 && v[0] == vertexArray[0] && v[|v| - 1] == vertexArray[|vertexArray| - 1]
    ensures Reduced(k, v)
  {
    v := vertexArray;
    ghost var kept := Identity(|v|);
    var makeAnotherPass := true;
    while makeAnotherPass
      invariant KeptIndices(v, vertexArray, kept)
      invariant !makeAnotherPass ==> Reduced(k, v)
      decreases |v|, makeAnotherPass
    {
      v, makeAnotherPass, kept := ReducePass(k, v, vertexArray, kept);
    }
    KeptIndicesEnds(v, vertexArray, kept);
  }

  /** The shifting loop of Reduce followed by pop_back: removes vertex j. */
  method RemoveVertex(v: seq<Vec3>, j: nat) returns (v': seq<Vec3>)
    requires j < |v|
    ensures v' == v[..j] + v[j + 1..]
  {
    v' := v;
    var i := j;
    while i < |v'| - 1
      invariant j <= i < |v'| == |v|
      invariant v'[..j] == v[..j]
      invariant forall m :: j <= m < i ==> v'[m] == v[m + 1]
      invariant v'[i..] == v[i..]
    {
      v' := v'[i := v'[i + 1]];
      i := i + 1;
    }
    v' := v'[..|v'| - 1];
  }

  /**
   * One pass of Reduce's for loop. The loop bound is re-read after each removal, and the
   * index moves on past a removed vertex. When the pass removes nothing, the polyline
   * is already reduced.
   */
  method ReducePass(k: Kernel, v: seq<Vec3>, ghost original: seq<Vec3>, ghost kept: seq<nat>)
    returns (v': seq<Vec3>, makeAnotherPass: bool, ghost kept': seq<nat>)
    requires KeptIndices(v, original, kept)
    ensures KeptIndices(v', original, kept')
    ensures makeAnotherPass ==> |v'| < |v|
    ensures !makeAnotherPass ==> v' == v && Reduced(k, v)
  {
    v' := v;
    makeAnotherPass := false;
    kept' := kept;
    var i := 0;
    while i < |v'| - 2
      invariant PassState(k, v, original, i, v', makeAnotherPass, kept')
      decreases |v'| - i
    {
      v', makeAnotherPass, kept' := PassStep(k, v, original, i, v', makeAnotherPass, kept');
      i := i + 1;
    }
  }

  /**
   * The state of a pass of Reduce before index i: the vertices still describe the original;
   * if nothing was removed yet, the polyline is unchanged and no vertex before i + 1 lies on
   * the segment between its neighbours.
   */
  ghost predicate PassState(k: Kernel, v: seq<Vec3>, original: seq<Vec3>, i: nat,
                            v': seq<Vec3>, makeAnotherPass: bool, kept': seq<nat>) {
    KeptIndices(v', original, kept') &&
    (makeAnotherPass ==> |v'| < |v|) &&
    (!makeAnotherPass ==> v' == v && (i == 0 || i <= |v'| - 2)) &&
    (!makeAnotherPass ==> forall m :: 0 <= m < i ==> !k.onSegment(v[m], v[m + 2], v[m + 1]))
  }

  /** One turn of the pass: vertex i + 1 is tested and perhaps removed. */
  method PassStep(k: Kernel, v: seq<Vec3>, ghost original: seq<Vec3>, i: nat,
                  v': seq<Vec3>, makeAnotherPass: bool, ghost kept': seq<nat>)
    returns (v'': seq<Vec3>, makeAnotherPass': bool, ghost kept'': seq<nat>)
    requires i + 2 < |v'| && PassState(k, v, original, i, v', makeAnotherPass, kept')
    ensures PassState(k, v, original, i + 1, v'', makeAnotherPass', kept'')
    ensures |v''| <= |v'|
  {
    var removed;
    v'', removed, kept'' := ReduceAt(k, v', i, original, kept');
    makeAnotherPass' := makeAnotherPass || removed;
  }

  /** The body of Reduce's for loop: removes vertex i + 1 if it lies on the segment from vertex i to vertex i + 2. */
  method ReduceAt(k: Kernel, v: seq<Vec3>, i: nat, ghost original: seq<Vec3>, ghost kept: seq<nat>)
    returns (v': seq<Vec3>, removed: bool, ghost kept': seq<nat>)
    requires i + 2 < |v|
    requires KeptIndices(v, original, kept)
    ensures removed <==> k.onSegment(v[i], v[i + 2], v[i + 1])
    ensures removed ==> v' == v[..i + 1] + v[i + 2..]
    ensures !removed ==> v' == v
    ensures KeptIndices(v', original, kept')
  {
    removed := k.onSegment(v[i], v[i + 2], v[i + 1]);
    if removed {
      kept' := RemoveMiddleKeepsIndices(v, original, kept, i + 1);
      v' := RemoveVertex(v, i + 1);
    } else {
      v', kept' := v, kept;
    }
  }

  /** The search loop of HasVertex from index i onwards. */
  function HasVertexFrom(v: seq<Vec3>, i: nat, vertex: Vec3, eps: real): (r: bool)
    requires i <= |v|
    ensures r <==> exists m :: i <= m < |v| && Within(v[m], vertex, eps)
    decreases |v| - i
  {
    if i == |v| then false
    else if Within(v[i], vertex, eps) then true
    else HasVertexFrom(v, i + 1, vertex, eps)
  }

  /** Every index kept: the description of an untouched polyline. */
  lemma Identity(n: nat) returns (kept: seq<nat>)
    ensures forall s: seq<Vec3> {:trigger KeptIndices(s, s, kept)} :: |s| == n ==> KeptIndices(s, s, kept)
  {
    kept := seq(n, m requires 0 <= m => m);
  }

  /** Removing a middle vertex keeps the kept-index description. */
  lemma RemoveMiddleKeepsIndices(r: seq<Vec3>, s: seq<Vec3>, kept: seq<nat>, j: nat) returns (kept': seq<nat>)
    requires KeptIndices(r, s, kept)
    requires 0 < j < |r| - 1
    ensures KeptIndices(r[..j] + r[j + 1..], s, kept')
  {
    var r' := r[..j] + r[j + 1..];
    kept' := kept[..j] + kept[j + 1..];
    forall m | 0 <= m < |kept'| ensures kept'[m] < |s| && r'[m] == s[kept'[m]] {
      if m >= j {
        assert kept'[m] == kept[m + 1] && r'[m] == r[m + 1];
      }
    }
    forall m, n | 0 <= m < n < |kept'| ensures kept'[m] < kept'[n] {
      var m1 := if m < j then m else m + 1;
      var n1 := if n < j then n else n + 1;
      assert kept'[m] == kept[m1] && kept'[n] == kept[n1];
    }
    assert kept'[|kept'| - 1] == kept[|kept| - 1];
  }

  /** The first and last vertices of a kept-index description are those of the original. */
  lemma KeptIndicesEnds(r: seq<Vec3>, s: seq<Vec3>, kept: seq<nat>)
    requires KeptIndices(r, s, kept)
    ensures |r| <= |s|
    ensures |s| > 0 ==> |r| > 0 && r[0] == s[0] && r[|r| - 1] == s[|s| - 1]
  {
    KeptBound(kept, |s|);
  }

  /** A strictly increasing sequence of indices below n has at most n elements. */
  lemma {:induction false} KeptBound(kept: seq<nat>, n: nat)
    requires forall m :: 0 <= m < |kept| ==> kept[m] < n
    requires forall m, p :: 0 <= m < p < |kept| ==> kept[m] < kept[p]
    ensures |kept| <= n
    decreases n
  {
    if |kept| > 0 {
      var rest := kept[..|kept| - 1];
      forall m | 0 <= m < |rest| ensures rest[m] < n - 1 {
        assert rest[m] == kept[m] < kept[|kept| - 1];
      }
      KeptBound(rest, n - 1);
    }
  }
}
