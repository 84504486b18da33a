/**
 * The collision-pair queue of the mesh set operation. After a pair (a, b) has been
 * cut, every queued pair that shares a face with it is dropped, remembering the
 * partners of `a` and of `b`; the valid new pieces are then paired with those
 * remembered partners at the back of the queue.
 */
module CollisionPairs {
  import opened OrderedSets

  /** A face of mesh A and a face of mesh B whose boxes overlap, by address. */
  datatype CollisionPair = CollisionPair(faceA: nat, faceB: nat)

  /** A queued pair survives the scan when it shares neither face with the cut pair. */
  predicate Survives(p: CollisionPair, pair: CollisionPair) {
    p.faceA != pair.faceA && p.faceB != pair.faceB
  }

  /** The queue after the stale-pair scan: the surviving pairs in their old order. */
  function Remaining(queue: seq<CollisionPair>, pair: CollisionPair): (r: seq<CollisionPair>)
    ensures forall p :: p in r <==> p in queue && Survives(p, pair)
    ensures |r| <= |queue|
    decreases |queue|
  {
    if |queue| == 0 then []
    else
      var front := queue[..|queue| - 1];
      var last := queue[|queue| - 1];
      assert forall p :: p in queue <==> p in front || p == last;
      Remaining(front, pair) + (if Survives(last, pair) then [last] else [])
  }

  /** The B faces that were queued with the cut A face, its partner excepted. */
  function OldB(queue: seq<CollisionPair>, pair: CollisionPair): set<nat> {
    set p | p in queue && p.faceA == pair.faceA && p.faceB != pair.faceB :: p.faceB
  }

  /** The A faces that were queued with the cut B face, its partner excepted. */
  function OldA(queue: seq<CollisionPair>, pair: CollisionPair): set<nat> {
    set p | p in queue && p.faceB == pair.faceB && p.faceA != pair.faceA :: p.faceA
  }

  lemma OldStep(queue: seq<CollisionPair>, i: nat, pair: CollisionPair)
    requires i < |queue|
    ensures var p := queue[i];
      OldB(queue[..i + 1], pair) == OldB(queue[..i], pair) + (if p.faceA == pair.faceA && p.faceB != pair.faceB then {p.faceB} else {}) &&
      OldA(queue[..i + 1], pair) == OldA(queue[..i], pair) + (if p.faceB == pair.faceB && p.faceA != pair.faceA then {p.faceA} else {}) &&
      Remaining(queue[..i + 1], pair) == Remaining(queue[..i], pair) + (if Survives(p, pair) then [p] else [])
  {
    assert queue[..i + 1][..i] == queue[..i];
    assert forall p :: p in queue[..i + 1] <==> p in queue[..i] || p == queue[i];
  }

  /**
   * The stale-pair scan: drops every pair sharing a face with `pair` (the pair
   * itself included) and collects the partners of its two faces.
   */
  method RemoveStale(queue: seq<CollisionPair>, pair: CollisionPair)
    returns (queue': seq<CollisionPair>, oldFaceSetA: seq<nat>, oldFaceSetB: seq<nat>)
    ensures queue' == Remaining(queue, pair)
    ensures Increasing(oldFaceSetA) && Elems(oldFaceSetA) == OldA(queue, pair)
    ensures Increasing(oldFaceSetB) && Elems(oldFaceSetB) == OldB(queue, pair)
  {
    queue', oldFaceSetA, oldFaceSetB := [], [], [];
    var i := 0;
    while i < |queue|
      invariant 0 <= i <= |queue|
      invariant Scanned(queue, pair, i, queue', oldFaceSetA, oldFaceSetB)
    {
      queue', oldFaceSetA, oldFaceSetB := ScanStep(queue, pair, i, queue', oldFaceSetA, oldFaceSetB);
      i := i + 1;
    }
    assert queue[..i] == queue;
  }

  /** The scan after the first `i` queued pairs: what is kept and what is remembered so far. */
  predicate Scanned(queue: seq<CollisionPair>, pair: CollisionPair, i: nat,
                    queue': seq<CollisionPair>, oldFaceSetA: seq<nat>, oldFaceSetB: seq<nat>)
    requires i <= |queue|
  {
    queue' == Remaining(queue[..i], pair) &&
    Increasing(oldFaceSetA) && Elems(oldFaceSetA) == OldA(queue[..i], pair) &&
    Increasing(oldFaceSetB) && Elems(oldFaceSetB) == OldB(queue[..i], pair)
  }

  /** One pass of the scan loop: the pair at `i` is dropped, remembered or kept. */
  method ScanStep(queue: seq<CollisionPair>, pair: CollisionPair, i: nat,
                  queue': seq<CollisionPair>, oldFaceSetA: seq<nat>, oldFaceSetB: seq<nat>)
    returns (queue'': seq<CollisionPair>, oldFaceSetA': seq<nat>, oldFaceSetB': seq<nat>)
    requires i < |queue| && Scanned(queue, pair, i, queue', oldFaceSetA, oldFaceSetB)
    ensures Scanned(queue, pair, i + 1, queue'', oldFaceSetA', oldFaceSetB')
  {
    queue'', oldFaceSetA', oldFaceSetB' := queue', oldFaceSetA, oldFaceSetB;
    var existingPair := queue[i];
    OldStep(queue, i, pair);
    if existingPair.faceA == pair.faceA && existingPair.faceB == pair.faceB {
    } else if existingPair.faceA == pair.faceA {
      InsertElems(oldFaceSetB, existingPair.faceB);
      oldFaceSetB' := Insert(oldFaceSetB, existingPair.faceB);
    } else if existingPair.faceB == pair.faceB {
      InsertElems(oldFaceSetA, existingPair.faceA);
      oldFaceSetA' := Insert(oldFaceSetA, existingPair.faceA);
    } else {
      queue'' := queue' + [existingPair];
    }
  }

  /** One row of new pairs: the new piece `a` with every remembered B face, in order. */
  function RowA(a: nat, oldB: seq<nat>): seq<CollisionPair> {
    seq(|oldB|, j requires 0 <= j < |oldB| => CollisionPair(a, oldB[j]))
  }

  /** One row of new pairs: every remembered A face with the new piece `b`, in order. */
  function RowB(oldA: seq<nat>, b: nat): seq<CollisionPair> {
    seq(|oldA|, j requires 0 <= j < |oldA| => CollisionPair(oldA[j], b))
  }

  /** The pairs queued for the new A pieces: a row for each valid piece, in order. */
  function SeedsA(newA: seq<nat>, oldB: seq<nat>, valid: nat -> bool): seq<CollisionPair>
    decreases |newA|
  {
    if |newA| == 0 then []
    else
      var last := newA[|newA| - 1];
      SeedsA(newA[..|newA| - 1], oldB, valid) + (if valid(last) then RowA(last, oldB) else [])
  }

  /** The pairs queued for the new B pieces: a row for each valid piece, in order. */
  function SeedsB(newB: seq<nat>, oldA: seq<nat>, valid: nat -> bool): seq<CollisionPair>
    decreases |newB|
  {
    if |newB| == 0 then []
    else
      var last := newB[|newB| - 1];
      SeedsB(newB[..|newB| - 1], oldA, valid) + (if valid(last) then RowB(oldA, last) else [])
  }

  /** A new pair joins exactly a valid new A piece with a remembered B face. */
  lemma {:induction false} SeedsAMembers(newA: seq<nat>, oldB: seq<nat>, valid: nat -> bool)
    ensures forall p :: p in SeedsA(newA, oldB, valid) <==> p.faceA in newA && valid(p.faceA) && p.faceB in oldB
    decreases |newA|
  {
    if |newA| > 0 {
      var front := newA[..|newA| - 1];
      var last := newA[|newA| - 1];
      SeedsAMembers(front, oldB, valid);
      assert forall a :: a in newA <==> a in front || a == last;
      forall p ensures p in RowA(last, oldB) <==> p.faceA == last && p.faceB in oldB {
        if p.faceA == last && p.faceB in oldB {
          var j :| 0 <= j < |oldB| && oldB[j] == p.faceB;
          assert RowA(last, oldB)[j] == p;
        }
      }
    }
  }

  /** A new pair joins exactly a remembered A face with a valid new B piece. */
  lemma {:induction false} SeedsBMembers(newB: seq<nat>, oldA: seq<nat>, valid: nat -> bool)
    ensures forall p :: p in SeedsB(newB, oldA, valid) <==> p.faceB in newB && valid(p.faceB) && p.faceA in oldA
    decreases |newB|
  {
    if |newB| > 0 {
      var front := newB[..|newB| - 1];
      var last := newB[|newB| - 1];
      SeedsBMembers(front, oldA, valid);
      assert forall b :: b in newB <==> b in front || b == last;
      forall p ensures p in RowB(oldA, last) <==> p.faceB == last && p.faceA in oldA {
        if p.faceB == last && p.faceA in oldA {
          var j :| 0 <= j < |oldA| && oldA[j] == p.faceA;
          assert RowB(oldA, last)[j] == p;
        }
      }
    }
  }

  /** The two reseeding loops: valid new A pieces against old B faces, then old A faces against valid new B pieces. */
  method Reseed(queue: seq<CollisionPair>, newFaceSetA: seq<nat>, newFaceSetB: seq<nat>,
                oldFaceSetA: seq<nat>, oldFaceSetB: seq<nat>, valid: nat -> bool)
    returns (queue': seq<CollisionPair>)
    ensures queue' == queue + SeedsA(newFaceSetA, oldFaceSetB, valid) + SeedsB(newFaceSetB, oldFaceSetA, valid)
  {
    queue' := queue;
    var i := 0;
    while i < |newFaceSetA|
      invariant 0 <= i <= |newFaceSetA|
      invariant queue' == queue + SeedsA(newFaceSetA[..i], oldFaceSetB, valid)
    {
      var faceA := newFaceSetA[i];
      assert newFaceSetA[..i + 1][..i] == newFaceSetA[..i];
      if valid(faceA) {
        queue' := AppendRow(queue', RowA(faceA, oldFaceSetB));
      }
      i := i + 1;
    }
    assert newFaceSetA[..i] == newFaceSetA;
    ghost var mid := queue';
    var j := 0;
    while j < |newFaceSetB|
      invariant 0 <= j <= |newFaceSetB|
      invariant queue' == mid + SeedsB(newFaceSetB[..j], oldFaceSetA, valid)
    {
      var faceB := newFaceSetB[j];
      assert newFaceSetB[..j + 1][..j] == newFaceSetB[..j];
      if valid(faceB) {
        queue' := AppendRow(queue', RowB(oldFaceSetA, faceB));
      }
      j := j + 1;
    }
    assert newFaceSetB[..j] == newFaceSetB;
  }

  /** The inner loop of reseeding: push_back of each pair of a row. */
  method AppendRow(queue: seq<CollisionPair>, row: seq<CollisionPair>) returns (queue': seq<CollisionPair>)
    ensures queue' == queue + row
  {
    queue' := queue;
    var k := 0;
    while k < |row|
      invariant 0 <= k <= |row|
      invariant queue' == queue + row[..k]
    {
      queue' := queue' + [row[k]];
      k := k + 1;
    }
    assert row[..k] == row;
  }
}
