/**
 * MeshSetOperation: the boolean combination of two meshes. Every polygon of both
 * meshes becomes a Face in a set ordered by heap address; colliding A/B pairs are cut
 * against each other's plane until the pair queue is empty; the pieces are rebuilt into
 * two refined meshes whose graphs are coloured inside/outside from a root on each; and
 * the flags pick which concatenations of the coloured buckets become output meshes.
 */
module MeshSetOperations {
  import opened Wrappers
  import opened Geometry
  import opened CppInts
  import opened Sequences
  import opened AxisAlignedBoxes
  import opened BoundingBoxTrees
  import opened TypeHeaps
  import opened Meshes
  import opened Polygons
  import Polylines
  import Compressors
  import opened MeshGraphs
  import opened OrderedSets
  import opened CollisionPairs
  import opened GraphColorings

  const MW_FLAG_UNION_SET_OP: Int32 := 0x00000001
  const MW_FLAG_INTERSECTION_SETP_OP: Int32 := 0x00000002
  const MW_FLAG_A_MINUS_B_SET_OP: Int32 := 0x00000004
  const MW_FLAG_B_MINUS_A_SET_OP: Int32 := 0x00000008

  /** The number of Face slots in the face heap. */
  const FACE_HEAP_SLOTS: nat := 1024

  const WRONG_INPUT_COUNT := "The mesh set operation needs exactly two meshes as input."
  const NO_FLAGS := "No flags given for mesh set operation."
  const NO_ROOTS := "Failed to find initial graph nodes for graph coloring."

  // ---------------------------------------------------------------- faces

  datatype Family = FAMILY_A | FAMILY_B

  /** A Face: which input mesh the polygon came from, and the polygon. */
  datatype SetFace = SetFace(family: Family, polygon: MeshPolygon)

  /**
   * Mesh::ConvexPolygon::FromBasicPolygon: one default vertex per point, each carrying
   * the normal of the points' plane (of the default plane when CalcPlane fails).
   * ToBasicPolygon, which keeps only the positions, undoes it.
   */
  function FromBasicPolygon(k: Kernel, points: seq<Vec3>): (polygon: MeshPolygon)
    ensures Points(polygon.vertexArray) == points
    ensures forall v :: v in polygon.vertexArray ==>
      v.normal == PlaneOrDefault(k, points).unitNormal && v.color == Zero && v.texCoords == Zero
  {
    var normal := PlaneOrDefault(k, points).unitNormal;
    MeshPolygon(seq(|points|, i requires 0 <= i < |points| => DefaultVertex.(point := points[i], normal := normal)))
  }

  /** The faces made from a list of polygons, all of one family. */
  function Tagged(family: Family, polygons: seq<MeshPolygon>): (faces: seq<SetFace>)
    ensures |faces| == |polygons|
    ensures forall i :: 0 <= i < |polygons| ==> faces[i] == SetFace(family, polygons[i])
  {
    seq(|polygons|, i requires 0 <= i < |polygons| => SetFace(family, polygons[i]))
  }

  /** The box Face::CalcBoundingBox computes. */
  function FaceBox(face: SetFace): Box {
    BoundOf(Points(face.polygon.vertexArray))
  }

  /** Face::CalcBoundingBox: the default box expanded by every vertex position in order. */
  method CalcBoundingBox(face: SetFace) returns (box: Box)
    ensures box == BoundOf(Points(face.polygon.vertexArray))
  {
    var vertexArray := face.polygon.vertexArray;
    var boundingBox := new AxisAlignedBox();
    var i := 0;
    while i < |vertexArray|
      invariant 0 <= i <= |vertexArray|
      invariant boundingBox.Value() == BoundOf(Points(vertexArray[..i]))
    {
      assert Points(vertexArray[..i + 1])[..i] == Points(vertexArray[..i]);
      boundingBox.MinimallyExpandToContainPoint(vertexArray[i].point);
      i := i + 1;
    }
    assert vertexArray[..i] == vertexArray;
    box := boundingBox.Value();
  }

  /**
   * The StackHeap<Face> of the operation together with the Face objects that live in
   * its buffer, by address.
   */
  class FaceHeap {
    const heap: StackHeap
    var memory: map<nat, SetFace>

    /** Every stored face sits at a live address. */
    ghost predicate Valid()
      reads this, heap
    {
      heap.Valid() && forall address :: address in memory ==> heap.IsLiveAddress(address)
    }

    constructor(slots: nat, faceSize: nat)
      requires faceSize > 0
      ensures fresh(heap) && heap.stackSize == slots && heap.typeSize == faceSize
      ensures Valid() && memory == map[]
    {
      heap := new StackHeap(slots, faceSize);
      memory := map[];
    }

    /**
     * StackHeap::Allocate followed by the caller's stores of the new Face's family and
     * polygon. An exhausted heap gives null (None) and stores nothing.
     */
    method Allocate(face: SetFace) returns (address: Option<nat>)
      requires Valid()
      modifies this, heap
      ensures Valid()
      ensures address.None? <==> old(heap.stack) == []
      ensures address.None? ==> memory == old(memory)
      ensures address.Some? ==> address.value !in old(memory) && memory == old(memory)[address.value := face]
    {
      address := heap.Allocate();
      if address.Some? {
        memory := memory[address.value := face];
      }
    }

    /** StackHeap::Deallocate of a stored face: its slot is freed and the face is gone. */
    method Deallocate(address: nat)
      requires Valid() && address in memory
      modifies this, heap
      ensures Valid() && memory == old(memory) - {address}
    {
      forall b | b in memory && b != address
        ensures b / heap.typeSize != address / heap.typeSize
      {
        heap.LiveAddressesDiffer(b, address);
      }
      heap.Deallocate(address);
      memory := memory - {address};
    }
  }

  // ---------------------------------------------------------------- invariants

  /** The face set lists exactly the stored faces, in address order. */
  predicate FaceSetSound(faceSet: seq<nat>, memory: map<nat, SetFace>) {
    Increasing(faceSet) && Elems(faceSet) == memory.Keys
  }

  /** Every queued pair joins a stored A face with a stored B face. */
  predicate QueueSound(queue: seq<CollisionPair>, memory: map<nat, SetFace>) {
    forall p :: p in queue ==>
      p.faceA in memory && memory[p.faceA].family == FAMILY_A &&
      p.faceB in memory && memory[p.faceB].family == FAMILY_B
  }

  /**
   * `memory` is `oldMemory` plus the faces `faces`, stored in order at the distinct,
   * previously unused addresses `placed`.
   */
  ghost predicate Placed(oldMemory: map<nat, SetFace>, memory: map<nat, SetFace>, placed: seq<nat>, faces: seq<SetFace>) {
    |placed| == |faces| &&
    (forall i :: 0 <= i < |placed| ==> placed[i] !in oldMemory && placed[i] in memory && memory[placed[i]] == faces[i]) &&
    (forall i, j :: 0 <= i < j < |placed| ==> placed[i] != placed[j]) &&
    memory.Keys == oldMemory.Keys + Elems(placed) &&
    (forall f :: f in oldMemory ==> memory[f] == oldMemory[f])
  }

  /** One more face stored at an unused address extends a placement. */
  lemma PlacedSnoc(oldMemory: map<nat, SetFace>, mid: map<nat, SetFace>, memory: map<nat, SetFace>,
                   placed: seq<nat>, faces: seq<SetFace>, address: nat, face: SetFace)
    requires Placed(oldMemory, mid, placed, faces)
    requires address !in mid && memory == mid[address := face]
    ensures Placed(oldMemory, memory, placed + [address], faces + [face])
  {
    ElemsConcat(placed, [address]);
    assert Elems([address]) == {address};
  }

  /** The stored faces in face-set order. */
  function FacesOf(faceSet: seq<nat>, memory: map<nat, SetFace>): (faces: seq<SetFace>)
    requires Elems(faceSet) <= memory.Keys
    ensures |faces| == |faceSet|
    ensures forall i :: 0 <= i < |faceSet| ==> faces[i] == memory[faceSet[i]]
  {
    seq(|faceSet|, i requires 0 <= i < |faceSet| => assert faceSet[i] in Elems(faceSet); memory[faceSet[i]])
  }

  // ---------------------------------------------------------------- loading the faces

  /**
   * The loop that stores one face of `family` for every polygon, in order, inserting
   * each new address into `faceSet`. Calculate runs it over each input mesh's polygons
   * and ProcessCollisionPair over each side's pieces. Running out of heap dereferences
   * null in the source; here it gives `ok == false`.
   */
  method StoreFaces(faceHeap: FaceHeap, faceSet: seq<nat>, family: Family, polygonArray: seq<MeshPolygon>)
    returns (ok: bool, faceSet': seq<nat>, ghost placed: seq<nat>)
    requires faceHeap.Valid() && Increasing(faceSet)
    modifies faceHeap, faceHeap.heap
    ensures faceHeap.Valid()
    ensures ok ==> Increasing(faceSet') && Elems(faceSet') == Elems(faceSet) + Elems(placed)
    ensures ok ==> Placed(old(faceHeap.memory), faceHeap.memory, placed, Tagged(family, polygonArray))
  {
    faceSet' := faceSet;
    placed := [];
    ghost var faces := Tagged(family, polygonArray);
    var i := 0;
    while i < |polygonArray|
      invariant 0 <= i <= |polygonArray|
      invariant faceHeap.Valid() && Increasing(faceSet') && Elems(faceSet') == Elems(faceSet) + Elems(placed)
      invariant Placed(old(faceHeap.memory), faceHeap.memory, placed, faces[..i])
    {
      ghost var mid := faceHeap.memory;
      var face := faceHeap.Allocate(SetFace(family, polygonArray[i]));
      if face.None? {
        return false, faceSet', placed;
      }
      PlacedStep(old(faceHeap.memory), mid, faceHeap.memory, placed, faces, i, face.value);
      InsertStored(faceSet, faceSet', placed, face.value);
      faceSet' := Insert(faceSet', face.value);
      placed := placed + [face.value];
      i := i + 1;
    }
    assert faces[..i] == faces;
    ok := true;
  }

  /** The face stored for polygon i at a fresh address extends the placement of the first i. */
  lemma PlacedStep(oldMemory: map<nat, SetFace>, mid: map<nat, SetFace>, memory: map<nat, SetFace>,
                   placed: seq<nat>, faces: seq<SetFace>, i: nat, address: nat)
    requires i < |faces| && Placed(oldMemory, mid, placed, faces[..i])
    requires address !in mid && memory == mid[address := faces[i]]
    ensures Placed(oldMemory, memory, placed + [address], faces[..i + 1])
  {
    PlacedSnoc(oldMemory, mid, memory, placed, faces[..i], address, faces[i]);
    assert faces[..i + 1] == faces[..i] + [faces[i]];
  }

  /** Inserting the new address keeps the face set equal to the old one plus the placed addresses. */
  lemma InsertStored(faceSet: seq<nat>, faceSet': seq<nat>, placed: seq<nat>, address: nat)
    requires Elems(faceSet') == Elems(faceSet) + Elems(placed)
    ensures Elems(Insert(faceSet', address)) == Elems(faceSet) + Elems(placed + [address])
  {
    InsertElems(faceSet', address);
    ElemsConcat(placed, [address]);
    assert Elems([address]) == {address};
  }

  // ---------------------------------------------------------------- the face tree

  /** The boxes the face tree files its guests by. */
  function FaceBounds(memory: map<nat, SetFace>): nat -> Box {
    (f: nat) => if f in memory then FaceBox(memory[f]) else Sentinel
  }

  /** The root box: the default box expanded by every face's box, in face-set order. */
  function FacesBound(faces: seq<SetFace>): Box
    decreases |faces|
  {
    if |faces| == 0 then Sentinel
    else ExpandedByBox(FacesBound(faces[..|faces| - 1]), FaceBox(faces[|faces| - 1]))
  }

  /** A face whose box the root box is sure to hold: it has a vertex, and no vertex has x at FLT_MAX. */
  predicate Boxable(face: SetFace) {
    var points := Points(face.polygon.vertexArray);
    |points| > 0 && forall j :: 0 <= j < |points| ==> points[j].x < FLT_MAX
  }

  lemma BoxableBox(face: SetFace)
    requires Boxable(face)
    ensures IsValid(FaceBox(face)) && FaceBox(face).min.x < FLT_MAX && FaceBox(face).max.x < FLT_MAX
  {
    var points := Points(face.polygon.vertexArray);
    BoundOfContainsAll(points);
    ContainerIsValid(FaceBox(face), points[0]);
  }

  /** The root box of Boxable faces contains each face's box. */
  lemma {:induction false} FacesBoundContainsAll(faces: seq<SetFace>)
    requires |faces| > 0
    requires forall i :: 0 <= i < |faces| ==> Boxable(faces[i])
    ensures FacesBound(faces).max.x < FLT_MAX
    ensures forall i :: 0 <= i < |faces| ==> ContainsBox(FacesBound(faces), FaceBox(faces[i]))
    decreases |faces|
  {
    var n := |faces|;
    var c := FaceBox(faces[n - 1]);
    BoxableBox(faces[n - 1]);
    var front := faces[..n - 1];
    var b := FacesBound(front);
    assert FacesBound(faces) == ExpandedByBox(b, c);
    if n == 1 {
      assert b == Sentinel;
      SentinelRecognised();
      ExpandedByBoxContainsCorners(b, c);
    } else {
      FacesBoundContainsAll(front);
      ExpandedByBoxContainsCorners(b, c);
      forall i | 0 <= i < n - 1
        ensures ContainsBox(FacesBound(faces), FaceBox(faces[i]))
      {
        assert faces[i] == front[i];
        ExpandedByBoxKeeps(b, c, FaceBox(front[i]).min);
        ExpandedByBoxKeeps(b, c, FaceBox(front[i]).max);
      }
    }
  }

  /** The faces of `faceSet` whose boxes `rootBox` contains: those the tree accepts. */
  function Filed(faceSet: seq<nat>, rootBox: Box, memory: map<nat, SetFace>): set<nat> {
    set f | f in faceSet && ContainsBox(rootBox, FaceBounds(memory)(f))
  }

  lemma FiledSnoc(faceSet: seq<nat>, i: nat, rootBox: Box, memory: map<nat, SetFace>)
    requires i < |faceSet|
    ensures Filed(faceSet[..i + 1], rootBox, memory) ==
      Filed(faceSet[..i], rootBox, memory) +
      (if ContainsBox(rootBox, FaceBounds(memory)(faceSet[i])) then {faceSet[i]} else {})
  {
    assert forall y :: y in faceSet[..i + 1] <==> y in faceSet[..i] || y == faceSet[i];
  }

  /**
   * The root box CalcRootBox computes contains the box of every stored face, so every
   * face is filed, when each face has a vertex and none has x at FLT_MAX.
   */
  lemma RootBoxHoldsEveryFace(faceSet: seq<nat>, memory: map<nat, SetFace>)
    requires Elems(faceSet) <= memory.Keys
    requires forall face :: face in FacesOf(faceSet, memory) ==> Boxable(face)
    ensures Filed(faceSet, FacesBound(FacesOf(faceSet, memory)), memory) == Elems(faceSet)
  {
    var faces := FacesOf(faceSet, memory);
    if |faces| > 0 {
      FacesBoundContainsAll(faces);
      forall f | f in faceSet
        ensures ContainsBox(FacesBound(faces), FaceBounds(memory)(f))
      {
        var i :| 0 <= i < |faceSet| && faceSet[i] == f;
        assert faces[i] == memory[f];
      }
    }
  }

  /** The first loop after loading: the root box grown to contain every face's box. */
  method CalcRootBox(faceSet: seq<nat>, memory: map<nat, SetFace>) returns (rootBox: Box)
    requires Elems(faceSet) <= memory.Keys
    ensures rootBox == FacesBound(FacesOf(faceSet, memory))
  {
    ghost var faces := FacesOf(faceSet, memory);
    var box := new AxisAlignedBox();
    var i := 0;
    while i < |faceSet|
      invariant 0 <= i <= |faceSet|
      invariant box.Value() == FacesBound(faces[..i])
    {
      assert faceSet[i] in Elems(faceSet);
      var faceBox := CalcBoundingBox(memory[faceSet[i]]);
      assert faces[..i + 1][..i] == faces[..i];
      box.MinimallyExpandToContainBox(faceBox);
      i := i + 1;
    }
    assert faces[..i] == faces;
    rootBox := box.Value();
  }

  /**
   * The tree is cleared, given the root box, and offered every face. A guest the tree
   * does not accept is dropped; running out of fuel gives `ok == false`. The tree keeps
   * the root box, stays sound, and holds exactly the faces whose boxes the root box
   * contains: with the root box CalcRootBox computes, every face (RootBoxHoldsEveryFace).
   */
  method FillFaceTree(faceTree: BoundingBoxTree<nat>, rootBox: Box, faceSet: seq<nat>, memory: map<nat, SetFace>, fuel: nat)
    returns (ok: bool)
    modifies faceTree
    ensures ok ==> faceTree.GuestSet() <= Elems(faceSet)
    ensures ok ==> faceTree.GuestSet() == Filed(faceSet, rootBox, memory)
    ensures ok ==> faceTree.rootNode.Some? && faceTree.rootNode.value.box == rootBox
    ensures ok ==> faceTree.SoundFor(FaceBounds(memory))
    ensures ok && Increasing(faceSet) ==> faceTree.TotalGuests() == |Filed(faceSet, rootBox, memory)|
    ensures (ok && FaceSetSound(faceSet, memory) && rootBox == FacesBound(FacesOf(faceSet, memory)) &&
             forall face :: face in FacesOf(faceSet, memory) ==> Boxable(face)) ==>
      faceTree.GuestSet() == Elems(faceSet) && faceTree.TotalGuests() == |faceSet|
  {
    faceTree.Clear();
    faceTree.SetRootBox(rootBox);
    assert faceTree.GuestSet() == {};
    assert faceSet[..0] == [];
    var i := 0;
    while i < |faceSet|
      invariant 0 <= i <= |faceSet|
      invariant faceTree.rootNode.Some? && faceTree.rootNode.value.box == rootBox
      invariant faceTree.SoundFor(FaceBounds(memory))
      invariant faceTree.GuestSet() == Filed(faceSet[..i], rootBox, memory)
      invariant Increasing(faceSet) ==> faceTree.TotalGuests() == |Filed(faceSet[..i], rootBox, memory)|
    {
      FiledSnoc(faceSet, i, rootBox, memory);
      if Increasing(faceSet) {
        assert faceSet[i] !in Filed(faceSet[..i], rootBox, memory);
      }
      var added := faceTree.AddGuest(faceSet[i], FaceBounds(memory), fuel);
      if added.None? {
        return false;
      }
      i := i + 1;
    }
    assert faceSet[..i] == faceSet;
    ok := true;
    if FaceSetSound(faceSet, memory) && rootBox == FacesBound(FacesOf(faceSet, memory)) &&
       (forall face :: face in FacesOf(faceSet, memory) ==> Boxable(face)) {
      RootBoxHoldsEveryFace(faceSet, memory);
      IncreasingElemsCount(faceSet);
    }
  }

  /** Every B face of `guests` whose box overlaps the box of A face `faceA` is paired with it in `queue`. */
  ghost predicate PairedWithAll(queue: seq<CollisionPair>, faceA: nat, guests: set<nat>, memory: map<nat, SetFace>) {
    faceA in memory &&
    forall b ::
      (b in guests && b in memory && memory[b].family == FAMILY_B &&
       OverlapsWith(FaceBox(memory[faceA]), FaceBox(memory[b]))) ==>
        CollisionPair(faceA, b) in queue
  }

  /** Each A face among the first `n` of `faceSet` is paired with every overlapping B face of `guests`. */
  ghost predicate PairedUpTo(queue: seq<CollisionPair>, faceSet: seq<nat>, n: nat, guests: set<nat>, memory: map<nat, SetFace>) {
    forall j :: 0 <= j < n && j < |faceSet| && faceSet[j] in memory && memory[faceSet[j]].family == FAMILY_A ==>
      PairedWithAll(queue, faceSet[j], guests, memory)
  }

  lemma PairedAll(queue: seq<CollisionPair>, faceSet: seq<nat>, guests: set<nat>, memory: map<nat, SetFace>)
    requires PairedUpTo(queue, faceSet, |faceSet|, guests, memory)
    ensures forall a :: a in faceSet && a in memory && memory[a].family == FAMILY_A ==> PairedWithAll(queue, a, guests, memory)
  {
    forall a | a in faceSet && a in memory && memory[a].family == FAMILY_A
      ensures PairedWithAll(queue, a, guests, memory)
    {
      var j :| 0 <= j < |faceSet| && faceSet[j] == a;
    }
  }

  lemma PairedGrows(queue: seq<CollisionPair>, extra: seq<CollisionPair>, faceA: nat, guests: set<nat>, memory: map<nat, SetFace>)
    requires PairedWithAll(queue, faceA, guests, memory)
    ensures PairedWithAll(queue + extra, faceA, guests, memory)
  {
  }

  /**
   * The initial collision pairs: for every A face in face-set order, each B face among
   * the guests the tree reports for its box, in the reported order. In a sound tree
   * every stored B face whose box overlaps an A face's box is paired with it.
   */
  method InitialPairs(faceTree: BoundingBoxTree<nat>, faceSet: seq<nat>, memory: map<nat, SetFace>)
    returns (queue: seq<CollisionPair>)
    requires FaceSetSound(faceSet, memory) && faceTree.GuestSet() <= memory.Keys
    modifies faceTree
    ensures faceTree.GuestSet() == old(faceTree.GuestSet())
    ensures QueueSound(queue, memory)
    ensures forall p :: p in queue ==> OverlapsWith(FaceBox(memory[p.faceA]), FaceBox(memory[p.faceB]))
    ensures old(faceTree.SoundFor(FaceBounds(memory))) ==> faceTree.SoundFor(FaceBounds(memory))
    ensures old(faceTree.SoundFor(FaceBounds(memory))) ==>
      forall a :: a in faceSet && a in memory && memory[a].family == FAMILY_A ==>
        PairedWithAll(queue, a, old(faceTree.GuestSet()), memory)
  {
    ghost var guests := faceTree.GuestSet();
    ghost var sound := faceTree.SoundFor(FaceBounds(memory));
    queue := [];
    var i := 0;
    while i < |faceSet|
      invariant 0 <= i <= |faceSet|
      invariant faceTree.GuestSet() == guests
      invariant QueueSound(queue, memory)
      invariant forall p :: p in queue ==> OverlapsWith(FaceBox(memory[p.faceA]), FaceBox(memory[p.faceB]))
      invariant sound ==> faceTree.SoundFor(FaceBounds(memory))
      invariant sound ==> PairedUpTo(queue, faceSet, i, guests, memory)
    {
      queue := PairFace(faceTree, faceSet, i, queue, memory);
      i := i + 1;
    }
    if sound {
      PairedAll(queue, faceSet, guests, memory);
    }
  }

  /**
   * One pass of the initial pairing's outer loop: an A face asks the tree for the guests
   * overlapping its box and is paired with the B faces among them; a B face adds nothing.
   */
  method PairFace(faceTree: BoundingBoxTree<nat>, faceSet: seq<nat>, i: nat, queue: seq<CollisionPair>,
                  memory: map<nat, SetFace>)
    returns (queue': seq<CollisionPair>)
    requires FaceSetSound(faceSet, memory) && faceTree.GuestSet() <= memory.Keys && i < |faceSet|
    requires QueueSound(queue, memory)
    requires forall p :: p in queue ==> OverlapsWith(FaceBox(memory[p.faceA]), FaceBox(memory[p.faceB]))
    modifies faceTree
    ensures faceTree.GuestSet() == old(faceTree.GuestSet())
    ensures QueueSound(queue', memory)
    ensures forall p :: p in queue' ==> OverlapsWith(FaceBox(memory[p.faceA]), FaceBox(memory[p.faceB]))
    ensures old(faceTree.SoundFor(FaceBounds(memory))) ==> faceTree.SoundFor(FaceBounds(memory))
    ensures old(faceTree.SoundFor(FaceBounds(memory))) && PairedUpTo(queue, faceSet, i, old(faceTree.GuestSet()), memory) ==>
      PairedUpTo(queue', faceSet, i + 1, old(faceTree.GuestSet()), memory)
  {
    assert faceSet[i] in Elems(faceSet);
    var faceA := faceSet[i];
    queue' := queue;
    if memory[faceA].family == FAMILY_A {
      var box := CalcBoundingBox(memory[faceA]);
      var guestList := faceTree.FindGuests(box, FaceBounds(memory));
      queue' := PairWithHits(queue, faceA, guestList, memory);
      if old(faceTree.SoundFor(FaceBounds(memory))) && PairedUpTo(queue, faceSet, i, old(faceTree.GuestSet()), memory) {
        PairStep(queue, faceSet, i, guestList, old(faceTree.GuestSet()), memory);
      }
    } else {
      assert PairedUpTo(queue, faceSet, i, old(faceTree.GuestSet()), memory) ==>
        PairedUpTo(queue, faceSet, i + 1, old(faceTree.GuestSet()), memory);
    }
  }

  /**
   * One step of the initial pairing: when the hits for A face `faceSet[i]` include every
   * stored guest overlapping its box, appending its pairs pairs it with every overlapping
   * B guest and keeps the earlier faces paired.
   */
  lemma PairStep(queue: seq<CollisionPair>, faceSet: seq<nat>, i: nat, hits: seq<nat>, guests: set<nat>,
                 memory: map<nat, SetFace>)
    requires i < |faceSet| && faceSet[i] in memory && memory[faceSet[i]].family == FAMILY_A
    requires forall k :: 0 <= k < |hits| ==> hits[k] in memory
    requires forall g :: g in guests && OverlapsWith(FaceBox(memory[faceSet[i]]), FaceBounds(memory)(g)) ==> g in hits
    requires PairedUpTo(queue, faceSet, i, guests, memory)
    ensures PairedUpTo(queue + PairsWith(faceSet[i], hits, memory), faceSet, i + 1, guests, memory)
  {
    var faceA := faceSet[i];
    var queue' := queue + PairsWith(faceA, hits, memory);
    forall j | 0 <= j < i && faceSet[j] in memory && memory[faceSet[j]].family == FAMILY_A
      ensures PairedWithAll(queue', faceSet[j], guests, memory)
    {
      PairedGrows(queue, PairsWith(faceA, hits, memory), faceSet[j], guests, memory);
    }
    forall b | b in guests && b in memory && memory[b].family == FAMILY_B &&
        OverlapsWith(FaceBox(memory[faceA]), FaceBox(memory[b]))
      ensures CollisionPair(faceA, b) in queue'
    {
      assert FaceBounds(memory)(b) == FaceBox(memory[b]);
      assert b in hits;
    }
  }

  /** The pairs the inner loop appends: `faceA` with each B face among `hits`, in hit order. */
  function PairsWith(faceA: nat, hits: seq<nat>, memory: map<nat, SetFace>): (pairs: seq<CollisionPair>)
    requires forall k :: 0 <= k < |hits| ==> hits[k] in memory
    ensures |pairs| <= |hits|
    ensures forall p :: p in pairs <==> p.faceA == faceA && p.faceB in hits && memory[p.faceB].family == FAMILY_B
    decreases |hits|
  {
    if |hits| == 0 then []
    else
      var last := hits[|hits| - 1];
      var front := hits[..|hits| - 1];
      assert forall g :: g in hits <==> g in front || g == last;
      PairsWith(faceA, front, memory) + (if memory[last].family == FAMILY_B then [CollisionPair(faceA, last)] else [])
  }

  /** The inner loop of the initial pairing: appends a pair for every B face among the hits, in order. */
  method PairWithHits(queue: seq<CollisionPair>, faceA: nat, guestList: seq<nat>, memory: map<nat, SetFace>)
    returns (queue': seq<CollisionPair>)
    requires QueueSound(queue, memory)
    requires forall p :: p in queue ==> OverlapsWith(FaceBox(memory[p.faceA]), FaceBox(memory[p.faceB]))
    requires faceA in memory && memory[faceA].family == FAMILY_A
    requires forall g :: g in guestList ==> g in memory
    requires forall g :: g in guestList ==> OverlapsWith(FaceBox(memory[faceA]), FaceBounds(memory)(g))
    ensures queue' == queue + PairsWith(faceA, guestList, memory)
    ensures QueueSound(queue', memory)
    ensures forall p :: p in queue' ==> OverlapsWith(FaceBox(memory[p.faceA]), FaceBox(memory[p.faceB]))
    ensures forall p :: p in queue' ==> p in queue || p.faceA == faceA
  {
    queue' := queue;
    var j := 0;
    while j < |guestList|
      invariant 0 <= j <= |guestList|
      invariant queue' == queue + PairsWith(faceA, guestList[..j], memory)
    {
      var faceB := guestList[j];
      assert faceB in guestList;
      assert guestList[..j + 1][..j] == guestList[..j];
      if memory[faceB].family == FAMILY_B {
        queue' := queue' + [CollisionPair(faceA, faceB)];
      }
      j := j + 1;
    }
    assert guestList[..j] == guestList;
    forall p | p in PairsWith(faceA, guestList, memory)
      ensures OverlapsWith(FaceBox(memory[p.faceA]), FaceBox(memory[p.faceB]))
    {
      assert FaceBounds(memory)(p.faceB) == FaceBox(memory[p.faceB]);
    }
  }
  // ---------------------------------------------------------------- cutting a pair

  /** The list SplitAgainstPlane produces from an empty one: front then back, or nothing. */
  function Pieces(k: Kernel, points: seq<Vec3>, plane: Plane): seq<seq<Vec3>> {
    var candidates := Candidates(k, points, plane);
    var front, back := Front(plane, candidates), Back(plane, candidates);
    if |front| >= 3 && |back| >= 3 then [front, back] else []
  }

  /** The pieces as mesh polygons (FromBasicPolygon of each). */
  function PiecePolygons(k: Kernel, pieces: seq<seq<Vec3>>): (polygons: seq<MeshPolygon>)
    ensures |polygons| == |pieces|
    ensures forall i :: 0 <= i < |pieces| ==> polygons[i] == FromBasicPolygon(k, pieces[i])
  {
    seq(|pieces|, i requires 0 <= i < |pieces| => FromBasicPolygon(k, pieces[i]))
  }

  /** Two placements in a row are one placement. */
  lemma PlacedAppend(m0: map<nat, SetFace>, m1: map<nat, SetFace>, m2: map<nat, SetFace>,
                     p1: seq<nat>, f1: seq<SetFace>, p2: seq<nat>, f2: seq<SetFace>)
    requires Placed(m0, m1, p1, f1) && Placed(m1, m2, p2, f2)
    ensures Placed(m0, m2, p1 + p2, f1 + f2)
  {
    ElemsConcat(p1, p2);
    PlacedAppendStored(m0, m1, m2, p1, f1, p2, f2);
    PlacedAppendDistinct(m0, m1, m2, p1, f1, p2, f2);
    PlacedAppendKept(m0, m1, m2, p1, f1, p2, f2);
  }

  /** The faces in m0 are untouched in m2, and m2 holds just m0's addresses and the placed ones. */
  lemma PlacedAppendKept(m0: map<nat, SetFace>, m1: map<nat, SetFace>, m2: map<nat, SetFace>,
                         p1: seq<nat>, f1: seq<SetFace>, p2: seq<nat>, f2: seq<SetFace>)
    requires Placed(m0, m1, p1, f1) && Placed(m1, m2, p2, f2)
    ensures m2.Keys == m0.Keys + Elems(p1) + Elems(p2)
    ensures forall f :: f in m0 ==> m2[f] == m0[f]
  {
  }

  /** Each address of either placement is new to m0 and holds its face in m2. */
  lemma PlacedAppendStored(m0: map<nat, SetFace>, m1: map<nat, SetFace>, m2: map<nat, SetFace>,
                           p1: seq<nat>, f1: seq<SetFace>, p2: seq<nat>, f2: seq<SetFace>)
    requires Placed(m0, m1, p1, f1) && Placed(m1, m2, p2, f2)
    ensures forall i :: 0 <= i < |p1 + p2| ==> (p1 + p2)[i] !in m0 && (p1 + p2)[i] in m2 && m2[(p1 + p2)[i]] == (f1 + f2)[i]
  {
    forall i | 0 <= i < |p1 + p2|
      ensures (p1 + p2)[i] !in m0 && (p1 + p2)[i] in m2 && m2[(p1 + p2)[i]] == (f1 + f2)[i]
    {
      if i >= |p1| {
        assert (p1 + p2)[i] == p2[i - |p1|] && (f1 + f2)[i] == f2[i - |p1|];
        assert p2[i - |p1|] !in m1;
      } else {
        assert (p1 + p2)[i] == p1[i] && (f1 + f2)[i] == f1[i];
        assert p1[i] in m1;
      }
    }
  }

  /** The addresses of the two placements are all distinct. */
  lemma PlacedAppendDistinct(m0: map<nat, SetFace>, m1: map<nat, SetFace>, m2: map<nat, SetFace>,
                             p1: seq<nat>, f1: seq<SetFace>, p2: seq<nat>, f2: seq<SetFace>)
    requires Placed(m0, m1, p1, f1) && Placed(m1, m2, p2, f2)
    ensures forall i, j :: 0 <= i < j < |p1 + p2| ==> (p1 + p2)[i] != (p1 + p2)[j]
  {
    forall i, j | 0 <= i < j < |p1 + p2| ensures (p1 + p2)[i] != (p1 + p2)[j] {
      if i < |p1| && j >= |p1| {
        assert p1[i] in m1;
        assert (p1 + p2)[j] == p2[j - |p1|];
      } else if j < |p1| {
        assert (p1 + p2)[i] == p1[i] && (p1 + p2)[j] == p1[j];
      } else {
        assert (p1 + p2)[i] == p2[i - |p1|] && (p1 + p2)[j] == p2[j - |p1|];
      }
    }
  }

  /**
   * MeshSetOperation::ProcessCollisionPair. When the intersection oracle finds no cut,
   * nothing changes. Otherwise the cut segment is recorded, each polygon is split
   * against the other's plane (the default plane when CalcPlane fails), and a face is
   * stored for every piece: A's pieces first, then B's. The new sets hold the new
   * addresses. Running out of heap gives `ok == false`.
   */
  method ProcessCollisionPair(k: Kernel, faceHeap: FaceHeap, pair: CollisionPair, segments: seq<Segment>)
    returns (ok: bool, newFaceSetA: seq<nat>, newFaceSetB: seq<nat>, segments': seq<Segment>,
             ghost placedA: seq<nat>, ghost placedB: seq<nat>)
    requires faceHeap.Valid() && pair.faceA in faceHeap.memory && pair.faceB in faceHeap.memory
    modifies faceHeap, faceHeap.heap
    ensures faceHeap.Valid()
    ensures var polygonA := Points(old(faceHeap.memory)[pair.faceA].polygon.vertexArray);
      var polygonB := Points(old(faceHeap.memory)[pair.faceB].polygon.vertexArray);
      k.intersect(polygonA, polygonB).None? ==>
        ok && newFaceSetA == [] && newFaceSetB == [] && segments' == segments &&
        faceHeap.memory == old(faceHeap.memory)
    ensures var polygonA := Points(old(faceHeap.memory)[pair.faceA].polygon.vertexArray);
      var polygonB := Points(old(faceHeap.memory)[pair.faceB].polygon.vertexArray);
      k.intersect(polygonA, polygonB).Some? && ok ==>
        segments' == segments + [k.intersect(polygonA, polygonB).value] &&
        |placedA| == |Pieces(k, polygonA, PlaneOrDefault(k, polygonB))| &&
        Increasing(newFaceSetA) && Elems(newFaceSetA) == Elems(placedA) &&
        Increasing(newFaceSetB) && Elems(newFaceSetB) == Elems(placedB) &&
        Placed(old(faceHeap.memory), faceHeap.memory, placedA + placedB,
               Tagged(FAMILY_A, PiecePolygons(k, Pieces(k, polygonA, PlaneOrDefault(k, polygonB)))) +
               Tagged(FAMILY_B, PiecePolygons(k, Pieces(k, polygonB, PlaneOrDefault(k, polygonA)))))
  {
    newFaceSetA, newFaceSetB, segments' := [], [], segments;
    placedA, placedB := [], [];
    var polygonA := Points(faceHeap.memory[pair.faceA].polygon.vertexArray);
    var polygonB := Points(faceHeap.memory[pair.faceB].polygon.vertexArray);
    var shape := k.intersect(polygonA, polygonB);
    if shape.None? {
      return true, newFaceSetA, newFaceSetB, segments', placedA, placedB;
    }
    segments' := segments' + [shape.value];
    ok, newFaceSetA, newFaceSetB, placedA, placedB := CutFaces(k, faceHeap, polygonA, polygonB);
  }

  /** The second half of ProcessCollisionPair: split both polygons and store the pieces. */
  method CutFaces(k: Kernel, faceHeap: FaceHeap, polygonA: seq<Vec3>, polygonB: seq<Vec3>)
    returns (ok: bool, newFaceSetA: seq<nat>, newFaceSetB: seq<nat>, ghost placedA: seq<nat>, ghost placedB: seq<nat>)
    requires faceHeap.Valid()
    modifies faceHeap, faceHeap.heap
    ensures faceHeap.Valid()
    ensures ok ==>
      |placedA| == |Pieces(k, polygonA, PlaneOrDefault(k, polygonB))| &&
      Increasing(newFaceSetA) && Elems(newFaceSetA) == Elems(placedA) &&
      Increasing(newFaceSetB) && Elems(newFaceSetB) == Elems(placedB) &&
      Placed(old(faceHeap.memory), faceHeap.memory, placedA + placedB,
             Tagged(FAMILY_A, PiecePolygons(k, Pieces(k, polygonA, PlaneOrDefault(k, polygonB)))) +
             Tagged(FAMILY_B, PiecePolygons(k, Pieces(k, polygonB, PlaneOrDefault(k, polygonA)))))
  {
    newFaceSetB, placedB := [], [];
    var planeA := PlaneOrDefault(k, polygonA);
    var planeB := PlaneOrDefault(k, polygonB);
    var _, polygonArrayA := SplitAgainstPlane(k, polygonA, planeB, []);
    var _, polygonArrayB := SplitAgainstPlane(k, polygonB, planeA, []);
    assert polygonArrayA == Pieces(k, polygonA, planeB);
    assert polygonArrayB == Pieces(k, polygonB, planeA);
    var piecesA := PiecePolygons(k, polygonArrayA);
    var piecesB := PiecePolygons(k, polygonArrayB);
    assert Elems([]) == {};
    ghost var m0 := faceHeap.memory;
    ok, newFaceSetA, placedA := StoreFaces(faceHeap, [], FAMILY_A, piecesA);
    if !ok {
      return;
    }
    ghost var m1 := faceHeap.memory;
    ok, newFaceSetB, placedB := StoreFaces(faceHeap, [], FAMILY_B, piecesB);
    if !ok {
      return;
    }
    PlacedAppend(m0, m1, faceHeap.memory, placedA, Tagged(FAMILY_A, piecesA), placedB, Tagged(FAMILY_B, piecesB));
  }
  // ---------------------------------------------------------------- the refinement loop

  /**
   * A new piece gets partners only when its polygon, copied into a ConvexPolygon, passes
   * ConvexPolygon::IsValid.
   */
  predicate ValidPiece(k: Kernel, memory: map<nat, SetFace>, f: nat) {
    f in memory && ConvexIsValid(k, Points(memory[f].polygon.vertexArray))
  }

  function ValidPieces(k: Kernel, memory: map<nat, SetFace>): nat -> bool {
    (f: nat) => ValidPiece(k, memory, f)
  }

  /** The queue after a cut of `pair`: the survivors, then the valid pieces with the cut faces' old partners. */
  ghost predicate Requeued(queue': seq<CollisionPair>, rest: seq<CollisionPair>, pair: CollisionPair,
                           newFaceSetA: seq<nat>, newFaceSetB: seq<nat>, k: Kernel, memory: map<nat, SetFace>) {
    forall p :: p in queue' <==>
      (p in rest && Survives(p, pair)) ||
      (p.faceA in newFaceSetA && ValidPiece(k, memory, p.faceA) && p.faceB in OldB(rest, pair)) ||
      (p.faceA in OldA(rest, pair) && p.faceB in newFaceSetB && ValidPiece(k, memory, p.faceB))
  }

  /** The stale-pair scan followed by reseeding gives exactly the requeued pairs. */
  lemma ReseedIsRequeued(rest: seq<CollisionPair>, pair: CollisionPair, survivors: seq<CollisionPair>,
                         oldFaceSetA: seq<nat>, oldFaceSetB: seq<nat>, newFaceSetA: seq<nat>, newFaceSetB: seq<nat>,
                         k: Kernel, memory: map<nat, SetFace>, queue': seq<CollisionPair>)
    requires survivors == Remaining(rest, pair)
    requires Elems(oldFaceSetA) == OldA(rest, pair) && Elems(oldFaceSetB) == OldB(rest, pair)
    requires queue' == survivors + SeedsA(newFaceSetA, oldFaceSetB, ValidPieces(k, memory)) +
                                   SeedsB(newFaceSetB, oldFaceSetA, ValidPieces(k, memory))
    ensures Requeued(queue', rest, pair, newFaceSetA, newFaceSetB, k, memory)
  {
    SeedsAMembers(newFaceSetA, oldFaceSetB, ValidPieces(k, memory));
    SeedsBMembers(newFaceSetB, oldFaceSetA, ValidPieces(k, memory));
  }

  /** Requeueing after a cut keeps every pair an A face with a B face, and mentions no cut face. */
  lemma RequeuedSound(m0: map<nat, SetFace>, m2: map<nat, SetFace>, rest: seq<CollisionPair>, pair: CollisionPair,
                      newFaceSetA: seq<nat>, newFaceSetB: seq<nat>, k: Kernel, memory: map<nat, SetFace>,
                      queue': seq<CollisionPair>)
    requires QueueSound(rest, m0)
    requires pair.faceA in m0 && m0[pair.faceA].family == FAMILY_A
    requires pair.faceB in m0 && m0[pair.faceB].family == FAMILY_B
    requires forall f :: f in newFaceSetA ==> f in m2 && m2[f].family == FAMILY_A
    requires forall f :: f in newFaceSetB ==> f in m2 && m2[f].family == FAMILY_B
    requires forall f :: f in m0 && f != pair.faceA && f != pair.faceB ==> f in m2 && m2[f] == m0[f]
    requires pair.faceA !in m2 && pair.faceB !in m2
    requires Requeued(queue', rest, pair, newFaceSetA, newFaceSetB, k, memory)
    ensures QueueSound(queue', m2)
  {
    forall p | p in queue'
      ensures p.faceA in m2 && m2[p.faceA].family == FAMILY_A && p.faceB in m2 && m2[p.faceB].family == FAMILY_B
    {
      if p in rest && Survives(p, pair) {
      } else if p.faceA in newFaceSetA && ValidPiece(k, memory, p.faceA) && p.faceB in OldB(rest, pair) {
        var q :| q in rest && q.faceA == pair.faceA && q.faceB != pair.faceB && q.faceB == p.faceB;
      } else {
        var q :| q in rest && q.faceB == pair.faceB && q.faceA != pair.faceA && q.faceA == p.faceA;
      }
    }
  }

  /** What a placement of A pieces then B pieces says about the two new sets. */
  lemma PlacedFacts(m0: map<nat, SetFace>, m1: map<nat, SetFace>, placedA: seq<nat>, placedB: seq<nat>,
                    facesA: seq<SetFace>, facesB: seq<SetFace>, newFaceSetA: seq<nat>, newFaceSetB: seq<nat>)
    requires Placed(m0, m1, placedA + placedB, facesA + facesB)
    requires |facesA| == |placedA|
    requires forall i :: 0 <= i < |facesA| ==> facesA[i].family == FAMILY_A
    requires forall i :: 0 <= i < |facesB| ==> facesB[i].family == FAMILY_B
    requires Elems(newFaceSetA) == Elems(placedA) && Elems(newFaceSetB) == Elems(placedB)
    ensures forall f :: f in newFaceSetA ==> f !in m0 && f in m1 && m1[f].family == FAMILY_A
    ensures forall f :: f in newFaceSetB ==> f !in m0 && f in m1 && m1[f].family == FAMILY_B
    ensures forall f :: f in m0 ==> f in m1 && m1[f] == m0[f]
    ensures m1.Keys == m0.Keys + Elems(newFaceSetA) + Elems(newFaceSetB)
    ensures newFaceSetA == [] && newFaceSetB == [] ==> m1 == m0
  {
    var placed, faces := placedA + placedB, facesA + facesB;
    ElemsConcat(placedA, placedB);
    forall f | f in newFaceSetA ensures f !in m0 && f in m1 && m1[f].family == FAMILY_A {
      assert f in Elems(placedA);
      var i :| 0 <= i < |placedA| && placedA[i] == f;
      assert placed[i] == f && faces[i] == facesA[i];
    }
    forall f | f in newFaceSetB ensures f !in m0 && f in m1 && m1[f].family == FAMILY_B {
      assert f in Elems(placedB);
      var i :| 0 <= i < |placedB| && placedB[i] == f;
      assert placed[|placedA| + i] == f && faces[|placedA| + i] == facesB[i];
    }
    if newFaceSetA == [] && newFaceSetB == [] {
      assert Elems(newFaceSetA) == {} && Elems(newFaceSetB) == {};
      assert m1.Keys == m0.Keys;
    }
  }

  /**
   * One turn of the refinement loop: the front pair is popped and cut. When either side
   * yields pieces, both cut faces leave the face set and exactly the pieces join it,
   * the pairs sharing a cut face leave the queue, the cut faces are deallocated, and
   * each valid piece is queued with the cut faces' old partners. Otherwise only the
   * queue's front is gone.
   */
  method RefineStep(k: Kernel, faceHeap: FaceHeap, faceSet: seq<nat>, queue: seq<CollisionPair>, segments: seq<Segment>)
    returns (ok: bool, newFaceSetA: seq<nat>, newFaceSetB: seq<nat>,
             faceSet': seq<nat>, queue': seq<CollisionPair>, segments': seq<Segment>,
             ghost oldFaceSetA: seq<nat>, ghost oldFaceSetB: seq<nat>)
    requires |queue| > 0
    requires faceHeap.Valid() && FaceSetSound(faceSet, faceHeap.memory) && QueueSound(queue, faceHeap.memory)
    modifies faceHeap, faceHeap.heap
    ensures faceHeap.Valid()
    ensures ok ==> FaceSetSound(faceSet', faceHeap.memory) && QueueSound(queue', faceHeap.memory)
    ensures var pair := queue[0];
      var polygonA := Points(old(faceHeap.memory)[pair.faceA].polygon.vertexArray);
      var polygonB := Points(old(faceHeap.memory)[pair.faceB].polygon.vertexArray);
      var shape := k.intersect(polygonA, polygonB);
      ok ==> segments' == segments + (if shape.Some? then [shape.value] else [])
    ensures ok && newFaceSetA == [] && newFaceSetB == [] ==>
      faceSet' == faceSet && queue' == queue[1..] && faceHeap.memory == old(faceHeap.memory)
    ensures ok && (newFaceSetA != [] || newFaceSetB != []) ==>
      var pair := queue[0];
      Elems(faceSet') == Elems(faceSet) - {pair.faceA, pair.faceB} + Elems(newFaceSetA) + Elems(newFaceSetB) &&
      (forall f :: f in newFaceSetA ==> f !in old(faceHeap.memory) && faceHeap.memory[f].family == FAMILY_A) &&
      (forall f :: f in newFaceSetB ==> f !in old(faceHeap.memory) && faceHeap.memory[f].family == FAMILY_B) &&
      pair.faceA !in faceHeap.memory && pair.faceB !in faceHeap.memory &&
      (forall p :: p in queue' ==> p.faceA !in {pair.faceA, pair.faceB} && p.faceB !in {pair.faceA, pair.faceB}) &&
      Elems(oldFaceSetA) == OldA(queue[1..], pair) && Elems(oldFaceSetB) == OldB(queue[1..], pair) &&
      queue' == Remaining(queue[1..], pair) +
                SeedsA(newFaceSetA, oldFaceSetB, ValidPieces(k, faceHeap.memory)) +
                SeedsB(newFaceSetB, oldFaceSetA, ValidPieces(k, faceHeap.memory))
  {
    var pair := queue[0];
    assert pair in queue;
    var rest := queue[1..];
    assert forall p :: p in rest ==> p in queue;
    ghost var m0 := faceHeap.memory;
    ghost var placedA, placedB;
    ok, newFaceSetA, newFaceSetB, segments', placedA, placedB := ProcessCollisionPair(k, faceHeap, pair, segments);
    faceSet', queue' := faceSet, rest;
    oldFaceSetA, oldFaceSetB := [], [];
    if !ok {
      return;
    }
    ghost var m1 := faceHeap.memory;
    ghost var polygonA, polygonB := Points(m0[pair.faceA].polygon.vertexArray), Points(m0[pair.faceB].polygon.vertexArray);
    if k.intersect(polygonA, polygonB).Some? {
      PlacedFacts(m0, m1, placedA, placedB,
                  Tagged(FAMILY_A, PiecePolygons(k, Pieces(k, polygonA, PlaneOrDefault(k, polygonB)))),
                  Tagged(FAMILY_B, PiecePolygons(k, Pieces(k, polygonB, PlaneOrDefault(k, polygonA)))),
                  newFaceSetA, newFaceSetB);
    }
    if |newFaceSetA| > 0 || |newFaceSetB| > 0 {
      faceSet', queue', oldFaceSetA, oldFaceSetB := ReplaceCutPair(k, faceHeap, faceSet, rest, pair, newFaceSetA, newFaceSetB, m0);
    }
  }

  /** The branch of the refinement loop taken when the cut produced pieces. */
  method ReplaceCutPair(k: Kernel, faceHeap: FaceHeap, faceSet: seq<nat>, rest: seq<CollisionPair>, pair: CollisionPair,
                        newFaceSetA: seq<nat>, newFaceSetB: seq<nat>, ghost m0: map<nat, SetFace>)
    returns (faceSet': seq<nat>, queue': seq<CollisionPair>, oldFaceSetA: seq<nat>, oldFaceSetB: seq<nat>)
    requires faceHeap.Valid() && FaceSetSound(faceSet, m0) && QueueSound(rest, m0)
    requires pair.faceA in m0 && m0[pair.faceA].family == FAMILY_A
    requires pair.faceB in m0 && m0[pair.faceB].family == FAMILY_B
    requires forall f :: f in newFaceSetA ==> f !in m0 && f in faceHeap.memory && faceHeap.memory[f].family == FAMILY_A
    requires forall f :: f in newFaceSetB ==> f !in m0 && f in faceHeap.memory && faceHeap.memory[f].family == FAMILY_B
    requires forall f :: f in m0 ==> f in faceHeap.memory && faceHeap.memory[f] == m0[f]
    requires faceHeap.memory.Keys == m0.Keys + Elems(newFaceSetA) + Elems(newFaceSetB)
    modifies faceHeap, faceHeap.heap
    ensures faceHeap.Valid() && faceHeap.memory == old(faceHeap.memory) - {pair.faceA, pair.faceB}
    ensures forall f :: f in newFaceSetA ==> f in faceHeap.memory && faceHeap.memory[f].family == FAMILY_A
    ensures forall f :: f in newFaceSetB ==> f in faceHeap.memory && faceHeap.memory[f].family == FAMILY_B
    ensures FaceSetSound(faceSet', faceHeap.memory) && QueueSound(queue', faceHeap.memory)
    ensures Elems(faceSet') == Elems(faceSet) - {pair.faceA, pair.faceB} + Elems(newFaceSetA) + Elems(newFaceSetB)
    ensures Elems(oldFaceSetA) == OldA(rest, pair) && Elems(oldFaceSetB) == OldB(rest, pair)
    ensures queue' == Remaining(rest, pair) +
                      SeedsA(newFaceSetA, oldFaceSetB, ValidPieces(k, faceHeap.memory)) +
                      SeedsB(newFaceSetB, oldFaceSetA, ValidPieces(k, faceHeap.memory))
  {
    QueueSoundGrows(rest, m0, faceHeap.memory);
    faceSet' := UpdateFaceSet(faceSet, pair, newFaceSetA, newFaceSetB);
    queue', oldFaceSetA, oldFaceSetB := Requeue(k, faceHeap, rest, pair, newFaceSetA, newFaceSetB);
  }

  /** A sound queue stays sound when faces are added and none changes. */
  lemma QueueSoundGrows(queue: seq<CollisionPair>, m0: map<nat, SetFace>, m1: map<nat, SetFace>)
    requires QueueSound(queue, m0)
    requires forall f :: f in m0 ==> f in m1 && m1[f] == m0[f]
    ensures QueueSound(queue, m1)
  {
  }

  /** The face-set update after a cut: both cut faces erased, then every piece inserted. */
  method UpdateFaceSet(faceSet: seq<nat>, pair: CollisionPair, newFaceSetA: seq<nat>, newFaceSetB: seq<nat>)
    returns (faceSet': seq<nat>)
    requires Increasing(faceSet)
    ensures Increasing(faceSet')
    ensures Elems(faceSet') == Elems(faceSet) - {pair.faceA, pair.faceB} + Elems(newFaceSetA) + Elems(newFaceSetB)
  {
    EraseElems(faceSet, pair.faceA);
    faceSet' := Erase(faceSet, pair.faceA);
    EraseElems(faceSet', pair.faceB);
    faceSet' := Erase(faceSet', pair.faceB);
    ghost var erased := Elems(faceSet');
    faceSet' := InsertAll(faceSet', newFaceSetA);
    faceSet' := InsertAll(faceSet', newFaceSetB);
  }

  /**
   * The queue update after a cut: the stale-pair scan, the deallocation of both cut
   * faces, and the reseeding of the valid pieces.
   */
  method Requeue(k: Kernel, faceHeap: FaceHeap, rest: seq<CollisionPair>, pair: CollisionPair,
                 newFaceSetA: seq<nat>, newFaceSetB: seq<nat>)
    returns (queue': seq<CollisionPair>, oldFaceSetA: seq<nat>, oldFaceSetB: seq<nat>)
    requires faceHeap.Valid() && QueueSound(rest, faceHeap.memory)
    requires pair.faceA in faceHeap.memory && faceHeap.memory[pair.faceA].family == FAMILY_A
    requires pair.faceB in faceHeap.memory && faceHeap.memory[pair.faceB].family == FAMILY_B
    requires forall f :: f in newFaceSetA ==> f != pair.faceA && f in faceHeap.memory && faceHeap.memory[f].family == FAMILY_A
    requires forall f :: f in newFaceSetB ==> f != pair.faceB && f in faceHeap.memory && faceHeap.memory[f].family == FAMILY_B
    modifies faceHeap, faceHeap.heap
    ensures faceHeap.Valid() && faceHeap.memory == old(faceHeap.memory) - {pair.faceA, pair.faceB}
    ensures Increasing(oldFaceSetA) && Elems(oldFaceSetA) == OldA(rest, pair)
    ensures Increasing(oldFaceSetB) && Elems(oldFaceSetB) == OldB(rest, pair)
    ensures queue' == Remaining(rest, pair) + SeedsA(newFaceSetA, oldFaceSetB, ValidPieces(k, faceHeap.memory)) +
                                              SeedsB(newFaceSetB, oldFaceSetA, ValidPieces(k, faceHeap.memory))
    ensures QueueSound(queue', faceHeap.memory)
  {
    ghost var m0 := faceHeap.memory;
    queue', oldFaceSetA, oldFaceSetB := RemoveStale(rest, pair);
    faceHeap.Deallocate(pair.faceA);
    faceHeap.Deallocate(pair.faceB);
    var memory := faceHeap.memory;
    queue' := Reseed(queue', newFaceSetA, newFaceSetB, oldFaceSetA, oldFaceSetB, ValidPieces(k, memory));
    ReseedSound(m0, memory, rest, pair, oldFaceSetA, oldFaceSetB, newFaceSetA, newFaceSetB, k, queue');
  }

  /** The reseeded queue is sound in the memory left after the cut faces are freed. */
  lemma ReseedSound(m0: map<nat, SetFace>, memory: map<nat, SetFace>, rest: seq<CollisionPair>, pair: CollisionPair,
                    oldFaceSetA: seq<nat>, oldFaceSetB: seq<nat>, newFaceSetA: seq<nat>, newFaceSetB: seq<nat>,
                    k: Kernel, queue': seq<CollisionPair>)
    requires QueueSound(rest, m0)
    requires pair.faceA in m0 && m0[pair.faceA].family == FAMILY_A
    requires pair.faceB in m0 && m0[pair.faceB].family == FAMILY_B
    requires forall f :: f in newFaceSetA ==> f != pair.faceA && f in m0 && m0[f].family == FAMILY_A
    requires forall f :: f in newFaceSetB ==> f != pair.faceB && f in m0 && m0[f].family == FAMILY_B
    requires memory == m0 - {pair.faceA, pair.faceB}
    requires Elems(oldFaceSetA) == OldA(rest, pair) && Elems(oldFaceSetB) == OldB(rest, pair)
    requires queue' == Remaining(rest, pair) + SeedsA(newFaceSetA, oldFaceSetB, ValidPieces(k, memory)) +
                                               SeedsB(newFaceSetB, oldFaceSetA, ValidPieces(k, memory))
    ensures QueueSound(queue', memory)
  {
    ReseedIsRequeued(rest, pair, Remaining(rest, pair), oldFaceSetA, oldFaceSetB, newFaceSetA, newFaceSetB, k, memory, queue');
    RequeuedSound(m0, memory, rest, pair, newFaceSetA, newFaceSetB, k, memory, queue');
  }
  /**
   * The refinement loop: pairs are cut from the front of the queue until it is empty.
   * The source gives no termination argument, so the loop runs on `fuel` turns; when
   * they run out, or the heap does, `ok` is false.
   */
  method Refine(k: Kernel, faceHeap: FaceHeap, faceSet: seq<nat>, queue: seq<CollisionPair>, segments: seq<Segment>, fuel: nat)
    returns (ok: bool, faceSet': seq<nat>, segments': seq<Segment>)
    requires faceHeap.Valid() && FaceSetSound(faceSet, faceHeap.memory) && QueueSound(queue, faceHeap.memory)
    modifies faceHeap, faceHeap.heap
    ensures faceHeap.Valid()
    ensures ok ==> FaceSetSound(faceSet', faceHeap.memory)
    ensures ok ==> |segments| <= |segments'| && segments'[..|segments|] == segments
  {
    var collisionPairQueue := queue;
    faceSet', segments' := faceSet, segments;
    var turns := fuel;
    while |collisionPairQueue| > 0
      invariant faceHeap.Valid() && FaceSetSound(faceSet', faceHeap.memory) && QueueSound(collisionPairQueue, faceHeap.memory)
      invariant |segments| <= |segments'| && segments'[..|segments|] == segments
      decreases turns
    {
      if turns == 0 {
        return false, faceSet', segments';
      }
      turns := turns - 1;
      ghost var before := segments';
      var stepOk, newFaceSetA, newFaceSetB;
      ghost var oldFaceSetA, oldFaceSetB;
      stepOk, newFaceSetA, newFaceSetB, faceSet', collisionPairQueue, segments', oldFaceSetA, oldFaceSetB :=
        RefineStep(k, faceHeap, faceSet', collisionPairQueue, segments');
      if !stepOk {
        return false, faceSet', segments';
      }
      assert segments'[..|before|] == before;
      assert segments'[..|segments|] == before[..|segments|];
    }
    ok := true;
  }

  // ---------------------------------------------------------------- buckets by family

  /** The polygons of the faces of one family, in face-set order. */
  function FamilyPolygons(faces: seq<SetFace>, family: Family): seq<MeshPolygon>
    decreases |faces|
  {
    if |faces| == 0 then []
    else
      var last := faces[|faces| - 1];
      FamilyPolygons(faces[..|faces| - 1], family) + (if last.family == family then [last.polygon] else [])
  }

  /** Every face lands in exactly one of the two buckets: nothing is lost or doubled. */
  lemma {:induction false} FamilyPolygonsPartition(faces: seq<SetFace>)
    ensures |FamilyPolygons(faces, FAMILY_A)| + |FamilyPolygons(faces, FAMILY_B)| == |faces|
    decreases |faces|
  {
    if |faces| > 0 {
      FamilyPolygonsPartition(faces[..|faces| - 1]);
    }
  }

  /** A bucket holds exactly the polygons of the faces of its family. */
  lemma {:induction false} FamilyPolygonsMembers(faces: seq<SetFace>, family: Family)
    ensures forall p :: p in FamilyPolygons(faces, family) <==> SetFace(family, p) in faces
    decreases |faces|
  {
    if |faces| > 0 {
      var front := faces[..|faces| - 1];
      FamilyPolygonsMembers(front, family);
      assert forall f :: f in faces <==> f in front || f == faces[|faces| - 1];
    }
  }

  /** The bucket sort after refinement: each face's polygon goes to its family's list. */
  method BucketFaces(faceSet: seq<nat>, memory: map<nat, SetFace>)
    returns (polygonArrayA: seq<MeshPolygon>, polygonArrayB: seq<MeshPolygon>)
    requires Elems(faceSet) <= memory.Keys
    ensures polygonArrayA == FamilyPolygons(FacesOf(faceSet, memory), FAMILY_A)
    ensures polygonArrayB == FamilyPolygons(FacesOf(faceSet, memory), FAMILY_B)
  {
    ghost var faces := FacesOf(faceSet, memory);
    polygonArrayA, polygonArrayB := [], [];
    var i := 0;
    while i < |faceSet|
      invariant 0 <= i <= |faceSet|
      invariant polygonArrayA == FamilyPolygons(faces[..i], FAMILY_A)
      invariant polygonArrayB == FamilyPolygons(faces[..i], FAMILY_B)
    {
      assert faceSet[i] in Elems(faceSet);
      var face := memory[faceSet[i]];
      assert faces[..i + 1][..i] == faces[..i];
      if face.family == FAMILY_A {
        polygonArrayA := polygonArrayA + [face.polygon];
      } else if face.family == FAMILY_B {
        polygonArrayB := polygonArrayB + [face.polygon];
      }
      i := i + 1;
    }
    assert faces[..i] == faces;
  }

  // ---------------------------------------------------------------- colouring roots

  /** The nodes of one graph in element order: node k stands for face k of its mesh. */
  function NodeRefs(mesh: Mesh, n: nat): (refs: seq<NodeRef>)
    ensures |refs| == n && forall i :: 0 <= i < n ==> refs[i] == NodeRef(mesh, i)
  {
    seq(n, i requires 0 <= i < n => NodeRef(mesh, i))
  }

  /** A listed node of a mesh is one of that mesh's graph nodes. */
  lemma NodeRefsMember(meshA: Mesh, nA: nat, meshB: Mesh, nB: nat, x: NodeRef)
    requires meshA != meshB && x in NodeRefs(meshA, nA) + NodeRefs(meshB, nB)
    ensures x.target == meshA ==> x.node < nA
    ensures x.target == meshB ==> x.node < nB
  {
  }

  /**
   * FindOutsideNode stands for a search by touching planes around the scene. It is
   * given the polygons of the desired mesh's nodes, the polygons of all listed nodes
   * and the root box, and answers with the position of one of the desired mesh's
   * nodes, or none; all the model relies on is that a position it returns exists.
   */
  ghost predicate OutsideFinderSound(findOutsideNode: (seq<MeshPolygon>, seq<MeshPolygon>, Box) -> Option<nat>) {
    forall desired, all, box :: findOutsideNode(desired, all, box).Some? ==>
      findOutsideNode(desired, all, box).value < |desired|
  }

  /** The polygon of every face of a mesh, in face order: what ToPolygonArray returns. */
  function FacePolygons(vertices: seq<Vertex>, faces: seq<Face>): (polygons: seq<MeshPolygon>)
    requires forall f :: 0 <= f < |faces| ==> IndicesValid(vertices, faces[f])
    ensures |polygons| == |faces| && forall f :: 0 <= f < |faces| ==> polygons[f] == FacePolygon(vertices, faces[f])
  {
    seq(|faces|, f requires 0 <= f < |faces| && IndicesValid(vertices, faces[f]) => FacePolygon(vertices, faces[f]))
  }

  /** A position found by FindOutsideNode as a node of the given mesh's graph. */
  function AsNode(mesh: Mesh, found: Option<nat>): Option<NodeRef> {
    if found.Some? then Some(NodeRef(mesh, found.value)) else None
  }

  /** The two colouring roots and the sides they start with. */
  datatype Roots = Roots(nodeA: NodeRef, sideA: Side, nodeB: NodeRef, sideB: Side)

  /**
   * The root choice of Calculate: a node found outside starts OUTSIDE; when only one
   * mesh has such a node, the first listed node of the other mesh starts INSIDE (the
   * other mesh is taken to envelop it); with neither, or with no node to take, there
   * are no roots.
   */
  function SelectRoots(meshA: Mesh, meshB: Mesh, nodeList: seq<NodeRef>,
                       outsideA: Option<NodeRef>, outsideB: Option<NodeRef>): (r: Option<Roots>)
    ensures r.None? <==>
      (outsideA.None? && outsideB.None?) ||
      (outsideA.None? && forall i :: 0 <= i < |nodeList| ==> nodeList[i].target != meshA) ||
      (outsideB.None? && forall i :: 0 <= i < |nodeList| ==> nodeList[i].target != meshB)
    ensures r.Some? ==> (r.value.sideA == OUTSIDE <==> outsideA.Some?) && (r.value.sideA == INSIDE <==> outsideA.None?)
    ensures r.Some? ==> (r.value.sideB == OUTSIDE <==> outsideB.Some?) && (r.value.sideB == INSIDE <==> outsideB.None?)
    ensures r.Some? && outsideA.Some? ==> r.value.nodeA == outsideA.value
    ensures r.Some? && outsideB.Some? ==> r.value.nodeB == outsideB.value
    ensures r.Some? && outsideA.None? ==> r.value.nodeA in nodeList && r.value.nodeA.target == meshA
    ensures r.Some? && outsideB.None? ==> r.value.nodeB in nodeList && r.value.nodeB.target == meshB
  {
    if outsideA.Some? && outsideB.Some? then
      Some(Roots(outsideA.value, OUTSIDE, outsideB.value, OUTSIDE))
    else if outsideA.Some? then
      match FindAnyNode(meshB, nodeList)
      case Some(nodeB) => Some(Roots(outsideA.value, OUTSIDE, nodeB, INSIDE))
      case None => None
    else if outsideB.Some? then
      match FindAnyNode(meshA, nodeList)
      case Some(nodeA) => Some(Roots(nodeA, INSIDE, outsideB.value, OUTSIDE))
      case None => None
    else None
  }

  /**
   * With the node list of Calculate (all of A's nodes, then all of B's), the enveloped
   * mesh's root is its first node, that is the node of its first face.
   */
  lemma {:induction false} EnvelopedRootIsFirstNode(meshA: Mesh, nA: nat, meshB: Mesh, nB: nat,
                                                    outsideA: Option<NodeRef>, outsideB: Option<NodeRef>)
    requires meshA != meshB
    ensures var nodeList := NodeRefs(meshA, nA) + NodeRefs(meshB, nB);
      (outsideA.None? && outsideB.Some? && nA > 0 ==>
        SelectRoots(meshA, meshB, nodeList, outsideA, outsideB) == Some(Roots(NodeRef(meshA, 0), INSIDE, outsideB.value, OUTSIDE))) &&
      (outsideA.Some? && outsideB.None? && nB > 0 ==>
        SelectRoots(meshA, meshB, nodeList, outsideA, outsideB) == Some(Roots(outsideA.value, OUTSIDE, NodeRef(meshB, 0), INSIDE)))
  {
    var refsA, refsB := NodeRefs(meshA, nA), NodeRefs(meshB, nB);
    if nA > 0 {
      assert (refsA + refsB)[0] == NodeRef(meshA, 0);
    }
    FindAnyNodeSkipsOtherGraph(meshB, refsA, refsB);
  }

  // ---------------------------------------------------------------- colouring

  /**
   * The sides a failed root search leaves on a freshly generated graph of `count` nodes:
   * every node is still UNKNOWN, except a node found outside, which is already OUTSIDE.
   */
  function FailedSides(count: nat, outside: Option<NodeRef>): (sides: seq<Side>)
    ensures |sides| == count
    ensures outside.Some? && outside.value.node < count ==> OnlyRoot(sides, outside.value.node, OUTSIDE)
    ensures outside.None? ==> forall k :: 0 <= k < count ==> sides[k] == UNKNOWN
  {
    seq(count, k => if outside.Some? && outside.value.node == k then OUTSIDE else UNKNOWN)
  }

  /** The only labelled node is the root, with the given side. */
  predicate OnlyRoot(sides: seq<Side>, root: nat, side: Side) {
    root < |sides| && sides[root] == side && forall k :: 0 <= k < |sides| && k != root ==> sides[k] == UNKNOWN
  }

  /**
   * ColorGraph over a graph without edges, which is what Generate builds with the
   * source's FindCommonEdge: the walk never leaves the root, so the root is the only
   * node with a side.
   */
  method ColorFromRoot(nodes: seq<GraphNode>, edges: seq<Edge>, vertices: seq<Vertex>, polylines: seq<Polylines.Points>,
                       root: nat, side: Side)
    returns (sides: seq<Side>)
    requires Linked(nodes, edges) && NoEdges(nodes)
    requires root < |nodes| && side != UNKNOWN
    ensures |sides| == |nodes| && OnlyRoot(sides, root, side)
  {
    var initial := seq(|nodes|, _ => UNKNOWN)[root := side];
    assert forall k: nat, j: nat :: !Unreadable(nodes, edges, vertices, polylines, k, j);
    var colored;
    ghost var order, tree;
    colored, order, tree := ColorGraph(nodes, edges, vertices, polylines, initial, root);
    if colored.None? {
      assert false;
    }
    ColoringWithoutEdges(nodes, edges, vertices, polylines, initial, root, colored.value, order, tree);
    sides := colored.value;
  }

  // ---------------------------------------------------------------- buckets by side

  /** Node k's polygon as it goes into its bucket: reverse-wound when it is inside. */
  function Wound(polygon: MeshPolygon, side: Side): MeshPolygon {
    if side == INSIDE then MeshPolygon(Reversed(polygon.vertexArray)) else polygon
  }

  /** The polygons of the nodes labelled `side`, in node order (node k is face k). */
  function SideBucket(vertices: seq<Vertex>, faces: seq<Face>, sides: seq<Side>, side: Side): seq<MeshPolygon>
    requires |sides| <= |faces| && forall f :: 0 <= f < |sides| ==> IndicesValid(vertices, faces[f])
    decreases |sides|
  {
    if |sides| == 0 then []
    else
      var last := |sides| - 1;
      SideBucket(vertices, faces, sides[..last], side) +
      (if sides[last] == side then [Wound(FacePolygon(vertices, faces[last]), side)] else [])
  }

  /** With no node labelled, every bucket is empty. */
  lemma {:induction false} UnlabelledBucket(vertices: seq<Vertex>, faces: seq<Face>, sides: seq<Side>, side: Side)
    requires |sides| <= |faces| && forall f :: 0 <= f < |sides| ==> IndicesValid(vertices, faces[f])
    requires side != UNKNOWN && forall k :: 0 <= k < |sides| ==> sides[k] == UNKNOWN
    ensures SideBucket(vertices, faces, sides, side) == []
    decreases |sides|
  {
    if |sides| > 0 {
      UnlabelledBucket(vertices, faces, sides[..|sides| - 1], side);
    }
  }

  /** With only the root labelled, its bucket holds its polygon alone and the other bucket is empty. */
  lemma {:induction false} OnlyRootBucket(vertices: seq<Vertex>, faces: seq<Face>, sides: seq<Side>, root: nat, side: Side)
    requires |sides| <= |faces| && forall f :: 0 <= f < |sides| ==> IndicesValid(vertices, faces[f])
    requires side != UNKNOWN && OnlyRoot(sides, root, side)
    ensures SideBucket(vertices, faces, sides, side) == [Wound(FacePolygon(vertices, faces[root]), side)]
    ensures SideBucket(vertices, faces, sides, OppositeSide(side)) == []
    decreases |sides|
  {
    var last := |sides| - 1;
    var front := sides[..last];
    if root == last {
      UnlabelledBucket(vertices, faces, front, side);
      UnlabelledBucket(vertices, faces, front, OppositeSide(side));
    } else {
      OnlyRootBucket(vertices, faces, front, root, side);
    }
  }

  /** The two bucket loops over a graph's nodes: outside polygons as they are, inside ones reverse-wound. */
  method SortBySide(mesh: Mesh, sides: seq<Side>)
    returns (outsidePolygonArray: seq<MeshPolygon>, insidePolygonArray: seq<MeshPolygon>)
    requires mesh.FacesValid() && |sides| <= |mesh.faceArray|
    ensures outsidePolygonArray == SideBucket(mesh.vertexArray, mesh.faceArray, sides, OUTSIDE)
    ensures insidePolygonArray == SideBucket(mesh.vertexArray, mesh.faceArray, sides, INSIDE)
  {
    outsidePolygonArray, insidePolygonArray := [], [];
    var k := 0;
    while k < |sides|
      invariant 0 <= k <= |sides|
      invariant outsidePolygonArray == SideBucket(mesh.vertexArray, mesh.faceArray, sides[..k], OUTSIDE)
      invariant insidePolygonArray == SideBucket(mesh.vertexArray, mesh.faceArray, sides[..k], INSIDE)
    {
      assert sides[..k + 1][..k] == sides[..k];
      if sides[k] == OUTSIDE {
        var polygon := mesh.GeneratePolygon(mesh.faceArray[k]);
        outsidePolygonArray := outsidePolygonArray + [polygon];
      } else if sides[k] == INSIDE {
        var polygon := mesh.GeneratePolygon(mesh.faceArray[k]);
        insidePolygonArray := insidePolygonArray + [MeshPolygon(Reversed(polygon.vertexArray))];
      }
      k := k + 1;
    }
    assert sides[..k] == sides;
  }

  // ---------------------------------------------------------------- results

  /** The polygon lists of the meshes the flags call for: union, intersection, A minus B, B minus A. */
  function Outputs(flags: Int32, outsideA: seq<MeshPolygon>, insideA: seq<MeshPolygon>,
                   outsideB: seq<MeshPolygon>, insideB: seq<MeshPolygon>): seq<seq<MeshPolygon>>
  {
    (if Bit(flags, 0) then [outsideA + outsideB] else []) +
    (if Bit(flags, 1) then [insideA + insideB] else []) +
    (if Bit(flags, 2) then [outsideA + insideB] else []) +
    (if Bit(flags, 3) then [outsideB + insideA] else [])
  }

  /** Each flag alone gives its one mesh; all four give the four meshes in flag order. */
  lemma OutputsPerFlag(outsideA: seq<MeshPolygon>, insideA: seq<MeshPolygon>, outsideB: seq<MeshPolygon>, insideB: seq<MeshPolygon>)
    ensures Outputs(MW_FLAG_UNION_SET_OP, outsideA, insideA, outsideB, insideB) == [outsideA + outsideB]
    ensures Outputs(MW_FLAG_INTERSECTION_SETP_OP, outsideA, insideA, outsideB, insideB) == [insideA + insideB]
    ensures Outputs(MW_FLAG_A_MINUS_B_SET_OP, outsideA, insideA, outsideB, insideB) == [outsideA + insideB]
    ensures Outputs(MW_FLAG_B_MINUS_A_SET_OP, outsideA, insideA, outsideB, insideB) == [outsideB + insideA]
    ensures Outputs(MW_FLAG_UNION_SET_OP + MW_FLAG_INTERSECTION_SETP_OP + MW_FLAG_A_MINUS_B_SET_OP + MW_FLAG_B_MINUS_A_SET_OP,
                    outsideA, insideA, outsideB, insideB) ==
      [outsideA + outsideB, insideA + insideB, outsideA + insideB, outsideB + insideA]
  {
    LowBits(1);
    LowBits(2);
    LowBits(4);
    LowBits(8);
    LowBits(15);
  }

  /** The four flag bits of a small non-negative value, spelled out. */
  lemma LowBits(flags: Int32)
    requires 0 <= flags < 16
    ensures Bit(flags, 0) == (flags % 2 == 1) && Bit(flags, 1) == ((flags / 2) % 2 == 1)
    ensures Bit(flags, 2) == ((flags / 4) % 2 == 1) && Bit(flags, 3) == (flags / 8 == 1)
  {
    assert Pow2(0) == 1 && Pow2(1) == 2 && Pow2(2) == 4 && Pow2(3) == 8;
    assert flags % 0x1_0000_0000 == flags;
  }

  /** Bits 0 to 3 of a non-negative flags value are those of flags % 16. */
  lemma BitLowNibble(flags: Int32, b: nat)
    requires 0 <= flags && b < 4
    ensures Bit(flags, b) == Bit(flags % 16, b)
  {
    var q, r := flags / 16, flags % 16;
    var d := Pow2(b);
    assert flags % 0x1_0000_0000 == flags;
    assert r % 0x1_0000_0000 == r;
    PowersBelowSixteen(b);
    ShiftNibble(q, r, d);
    assert flags == 16 * q + r;
  }

  lemma PowersBelowSixteen(b: nat)
    requires b < 4
    ensures Pow2(b) == 1 || Pow2(b) == 2 || Pow2(b) == 4 || Pow2(b) == 8
  {
  }

  /** Below 16, a bit of 16 q + r is the bit of r. */
  lemma ShiftNibble(q: int, r: int, d: int)
    requires 0 <= r < 16 && (d == 1 || d == 2 || d == 4 || d == 8)
    ensures ((16 * q + r) / d) % 2 == (r / d) % 2
  {
    if d == 1 {
    } else if d == 2 {
      assert (16 * q + r) / 2 == 8 * q + r / 2;
    } else if d == 4 {
      assert (16 * q + r) / 4 == 4 * q + r / 4;
    } else {
      assert (16 * q + r) / 8 == 2 * q + r / 8;
    }
  }

  /** Bits of flags above the fourth name no result: only flags % 16 matters. */
  lemma OutputsLowNibble(flags: Int32, outsideA: seq<MeshPolygon>, insideA: seq<MeshPolygon>,
                         outsideB: seq<MeshPolygon>, insideB: seq<MeshPolygon>)
    requires 0 <= flags
    ensures Outputs(flags, outsideA, insideA, outsideB, insideB) == Outputs(flags % 16, outsideA, insideA, outsideB, insideB)
  {
    BitLowNibble(flags, 0);
    BitLowNibble(flags, 1);
    BitLowNibble(flags, 2);
    BitLowNibble(flags, 3);
  }

  /** The mesh holds exactly the given polygons, one face each, matched within MESH_EPS, without an index. */
  predicate Holds(mesh: Mesh, polygons: seq<MeshPolygon>)
    reads mesh
  {
    mesh.index == null && mesh.FacesValid() && |mesh.faceArray| == |polygons| &&
    forall p :: 0 <= p < |polygons| ==> FaceMatches(mesh.vertexArray, mesh.faceArray[p], polygons[p], MESH_EPS)
  }

  /** With at most one polygon in each bucket, every result has at most two. */
  lemma OutputsSmall(flags: Int32, outsideA: seq<MeshPolygon>, insideA: seq<MeshPolygon>,
                     outsideB: seq<MeshPolygon>, insideB: seq<MeshPolygon>)
    requires |outsideA| <= 1 && |insideA| <= 1 && |outsideB| <= 1 && |insideB| <= 1
    ensures forall r :: r in Outputs(flags, outsideA, insideA, outsideB, insideB) ==> |r| <= 2
  {
  }

  /** The mesh kept its first faces and has one matching new face per polygon after them. */
  ghost predicate Extends(vertices: seq<Vertex>, faces: seq<Face>, oldFaces: seq<Face>, polygons: seq<MeshPolygon>) {
    |faces| == |oldFaces| + |polygons| && faces[..|oldFaces|] == oldFaces &&
    forall p :: 0 <= p < |polygons| ==> FaceMatches(vertices, faces[|oldFaces| + p], polygons[p], MESH_EPS)
  }

  /** `new Mesh()` and AddFace of every polygon (FromPolygonArray does exactly that on an empty mesh). */
  method NewMesh(polygonArray: seq<MeshPolygon>) returns (mesh: Mesh)
    ensures fresh(mesh) && Holds(mesh, polygonArray)
  {
    mesh := new Mesh();
    mesh.FromPolygonArray(polygonArray);
  }

  /** The last step of Calculate: a fresh mesh for each flag set, in flag order. */
  method FormResults(flags: Int32, outsideA: seq<MeshPolygon>, insideA: seq<MeshPolygon>,
                     outsideB: seq<MeshPolygon>, insideB: seq<MeshPolygon>)
    returns (outputMeshArray: seq<Mesh>)
    ensures var outputs := Outputs(flags, outsideA, insideA, outsideB, insideB);
      |outputMeshArray| == |outputs| &&
      forall i :: 0 <= i < |outputs| ==> fresh(outputMeshArray[i]) && Holds(outputMeshArray[i], outputs[i])
    ensures forall i, j :: 0 <= i < j < |outputMeshArray| ==> outputMeshArray[i] != outputMeshArray[j]
  {
    var union, intersection, aMinusB, bMinusA := Bit(flags, 0), Bit(flags, 1), Bit(flags, 2), Bit(flags, 3);
    ghost var contents: seq<seq<MeshPolygon>>;
    ghost var m1, m2, m3;
    outputMeshArray, contents := AddResult(union, [], [], outsideA + outsideB);
    m1 := outputMeshArray;
    outputMeshArray, contents := AddResult(intersection, outputMeshArray, contents, insideA + insideB);
    m2 := outputMeshArray;
    outputMeshArray, contents := AddResult(aMinusB, outputMeshArray, contents, outsideA + insideB);
    m3 := outputMeshArray;
    outputMeshArray, contents := AddResult(bMinusA, outputMeshArray, contents, outsideB + insideA);
    assert [] + (if union then [outsideA + outsideB] else []) == (if union then [outsideA + outsideB] else []);
    assert forall i :: 0 <= i < |outputMeshArray| ==> fresh(outputMeshArray[i]) by {
      assert outputMeshArray[..|m3|] == m3 && m3[..|m2|] == m2 && m2[..|m1|] == m1;
    }
  }

  /**
   * One `if` of FormResults: when the flag is set, a fresh mesh of the polygons joins the
   * list; the meshes already there keep their faces.
   */
  method AddResult(flagSet: bool, meshes: seq<Mesh>, ghost contents: seq<seq<MeshPolygon>>, polygons: seq<MeshPolygon>)
    returns (meshes': seq<Mesh>, ghost contents': seq<seq<MeshPolygon>>)
    requires |meshes| == |contents| && forall i :: 0 <= i < |meshes| ==> Holds(meshes[i], contents[i])
    requires forall i, j :: 0 <= i < j < |meshes| ==> meshes[i] != meshes[j]
    ensures contents' == contents + (if flagSet then [polygons] else [])
    ensures |meshes'| == |contents'| && meshes'[..|meshes|] == meshes
    ensures forall i :: |meshes| <= i < |meshes'| ==> fresh(meshes'[i])
    ensures forall i :: 0 <= i < |meshes'| ==> Holds(meshes'[i], contents'[i])
    ensures forall i, j :: 0 <= i < j < |meshes'| ==> meshes'[i] != meshes'[j]
  {
    meshes', contents' := meshes, contents;
    if flagSet {
      var mesh := NewMesh(polygons);
      meshes', contents' := meshes + [mesh], contents + [polygons];
      forall i | 0 <= i < |meshes'| ensures Holds(meshes'[i], contents'[i]) {
        if i < |meshes| {
          assert meshes'[i] == meshes[i] && contents'[i] == contents[i];
        }
      }
    }
  }

  // ---------------------------------------------------------------- the operation

  /**
   * The cutting half of Calculate: A's polygons and then B's go into the face set, the
   * face tree is built over the box of all stored faces, and the colliding pairs are
   * refined until the queue is empty. Fails when the face heap runs out, the tree or the
   * refinement runs out of fuel.
   */
  method CutPhase(k: Kernel, faceHeap: FaceHeap, faceTree: BoundingBoxTree<nat>, faceSet: seq<nat>, segments: seq<Segment>,
                  polygonArrayA: seq<MeshPolygon>, polygonArrayB: seq<MeshPolygon>, fuel: nat)
    returns (ok: bool, faceSet': seq<nat>, segments': seq<Segment>, rootBox: Box)
    requires faceHeap.Valid() && FaceSetSound(faceSet, faceHeap.memory)
    modifies faceHeap, faceHeap.heap, faceTree
    ensures faceHeap.Valid()
    ensures ok ==> FaceSetSound(faceSet', faceHeap.memory)
    ensures ok ==> |segments| <= |segments'| && segments'[..|segments|] == segments
  {
    segments', rootBox := segments, Sentinel;
    var okA, okB;
    ghost var placedA, placedB;
    okA, faceSet', placedA := StoreFaces(faceHeap, faceSet, FAMILY_A, polygonArrayA);
    if !okA {
      return false, faceSet', segments', rootBox;
    }
    okB, faceSet', placedB := StoreFaces(faceHeap, faceSet', FAMILY_B, polygonArrayB);
    if !okB {
      return false, faceSet', segments', rootBox;
    }
    rootBox := CalcRootBox(faceSet', faceHeap.memory);
    var filled := FillFaceTree(faceTree, rootBox, faceSet', faceHeap.memory, fuel);
    if !filled {
      return false, faceSet', segments', rootBox;
    }
    var collisionPairQueue := InitialPairs(faceTree, faceSet', faceHeap.memory);
    ok, faceSet', segments' := Refine(k, faceHeap, faceSet', collisionPairQueue, segments, fuel);
  }

  /**
   * MeshSetOperation. The face set, the cut boundary, the refined meshes and their
   * graphs are members, so they outlive one call of Calculate.
   */
  class MeshSetOperation {
    const flags: Int32
    const k: Kernel
    const findOutsideNode: (seq<MeshPolygon>, seq<MeshPolygon>, Box) -> Option<nat>
    const faceHeap: FaceHeap
    const faceTree: BoundingBoxTree<nat>
    const refinedMeshA: Mesh
    const refinedMeshB: Mesh
    const graphA: MeshGraph
    const graphB: MeshGraph
    var faceSet: seq<nat>
    var cutBoundarySegmentArray: seq<Segment>
    var cutBoundaryPolylineArray: seq<Polylines.Points>
    /** The side of each node of graph A and of graph B. */
    var sidesA: seq<Side>
    var sidesB: seq<Side>
    var error: string

    ghost predicate Valid()
      reads this`faceSet, faceHeap, faceHeap.heap, refinedMeshA, refinedMeshB
    {
      faceHeap.Valid() && FaceSetSound(faceSet, faceHeap.memory) &&
      refinedMeshA != refinedMeshB && graphA != graphB &&
      refinedMeshA.index == null && refinedMeshB.index == null &&
      refinedMeshA.FacesValid() && refinedMeshB.FacesValid() &&
      OutsideFinderSound(findOutsideNode)
    }

    /** The face heap has FACE_HEAP_SLOTS slots of faceSize bytes (sizeof(Face)). */
    constructor(flags: Int32, k: Kernel, findOutsideNode: (seq<MeshPolygon>, seq<MeshPolygon>, Box) -> Option<nat>, faceSize: nat)
      requires faceSize > 0 && OutsideFinderSound(findOutsideNode)
      ensures Valid()
      ensures this.flags == flags && this.k == k && this.findOutsideNode == findOutsideNode
      ensures faceSet == [] && cutBoundarySegmentArray == [] && cutBoundaryPolylineArray == [] && error == ""
      ensures refinedMeshA.faceArray == [] && refinedMeshB.faceArray == []
      ensures faceHeap.heap.stackSize == FACE_HEAP_SLOTS && faceHeap.heap.typeSize == faceSize && faceHeap.memory == map[]
      ensures faceTree.rootNode.None?
    {
      this.flags := flags;
      this.k := k;
      this.findOutsideNode := findOutsideNode;
      faceHeap := new FaceHeap(FACE_HEAP_SLOTS, faceSize);
      faceTree := new BoundingBoxTree<nat>();
      refinedMeshA := new Mesh();
      refinedMeshB := new Mesh();
      graphA := new MeshGraph();
      graphB := new MeshGraph();
      faceSet := [];
      cutBoundarySegmentArray := [];
      cutBoundaryPolylineArray := [];
      sidesA, sidesB := [], [];
      error := "";
    }

    /**
     * The middle of Calculate: the faces are bucketed by family and added to the two
     * refined meshes, a graph is generated over each (with the source's FindCommonEdge,
     * so without edges) and the cut boundary is stitched into polylines that together
     * span every cut segment once.
     */
    method Rebuild(fuel: nat)
      requires Valid()
      modifies this, refinedMeshA, refinedMeshB, graphA, graphB
      ensures Valid()
      ensures faceSet == old(faceSet) && cutBoundarySegmentArray == old(cutBoundarySegmentArray) && error == old(error)
      ensures graphA.targetMesh == refinedMeshA && NodesForFaces(graphA.nodes, |refinedMeshA.faceArray|)
      ensures Linked(graphA.nodes, graphA.edges) && NoEdges(graphA.nodes)
      ensures graphB.targetMesh == refinedMeshB && NodesForFaces(graphB.nodes, |refinedMeshB.faceArray|)
      ensures Linked(graphB.nodes, graphB.edges) && NoEdges(graphB.nodes)
      ensures Extends(refinedMeshA.vertexArray, refinedMeshA.faceArray, old(refinedMeshA.faceArray),
                      FamilyPolygons(FacesOf(faceSet, faceHeap.memory), FAMILY_A))
      ensures Extends(refinedMeshB.vertexArray, refinedMeshB.faceArray, old(refinedMeshB.faceArray),
                      FamilyPolygons(FacesOf(faceSet, faceHeap.memory), FAMILY_B))
      ensures Compressors.SumW(Polylines.Span, cutBoundaryPolylineArray) == |cutBoundarySegmentArray|
      ensures |cutBoundaryPolylineArray| <= |cutBoundarySegmentArray|
      ensures |cutBoundaryPolylineArray| == 0 <==> |cutBoundarySegmentArray| == 0
    {
      RefillMeshes();
      ghost var verticesA, facesA := refinedMeshA.vertexArray, refinedMeshA.faceArray;
      ghost var verticesB, facesB := refinedMeshB.vertexArray, refinedMeshB.faceArray;
      assert forall a: nat, b: nat :: FindCommonEdge(a, b).None?;
      graphA.Generate(refinedMeshA, FindCommonEdge, fuel);
      graphB.Generate(refinedMeshB, FindCommonEdge, fuel);
      cutBoundaryPolylineArray := Polylines.GeneratePolylines(cutBoundarySegmentArray, Polylines.POLYLINE_EPS);
      assert refinedMeshA.vertexArray == verticesA && refinedMeshA.faceArray == facesA;
      assert refinedMeshB.vertexArray == verticesB && refinedMeshB.faceArray == facesB;
    }

    /** The first half of Rebuild: each face of the set is added to the refined mesh of its family. */
    method RefillMeshes()
      requires Valid()
      modifies refinedMeshA, refinedMeshB
      ensures Valid()
      ensures Extends(refinedMeshA.vertexArray, refinedMeshA.faceArray, old(refinedMeshA.faceArray),
                      FamilyPolygons(FacesOf(faceSet, faceHeap.memory), FAMILY_A))
      ensures Extends(refinedMeshB.vertexArray, refinedMeshB.faceArray, old(refinedMeshB.faceArray),
                      FamilyPolygons(FacesOf(faceSet, faceHeap.memory), FAMILY_B))
    {
      var polygonArrayA, polygonArrayB := BucketFaces(faceSet, faceHeap.memory);
      refinedMeshA.FromPolygonArray(polygonArrayA);
      ghost var verticesA, facesA := refinedMeshA.vertexArray, refinedMeshA.faceArray;
      assert Extends(verticesA, facesA, old(refinedMeshA.faceArray), polygonArrayA);
      refinedMeshB.FromPolygonArray(polygonArrayB);
      assert refinedMeshA.vertexArray == verticesA && refinedMeshA.faceArray == facesA;
    }

    /**
     * The root search of Calculate over the list of all nodes (graph A's, then graph
     * B's): FindOutsideNode for each refined mesh, then SelectRoots.
     */
    method FindRoots(rootBox: Box) returns (roots: Option<Roots>, outsideA: Option<NodeRef>, outsideB: Option<NodeRef>)
      requires Valid()
      requires NodesForFaces(graphA.nodes, |refinedMeshA.faceArray|) && NodesForFaces(graphB.nodes, |refinedMeshB.faceArray|)
      ensures (outsideA, outsideB) == OutsideNodes(rootBox)
      ensures roots == SelectRoots(refinedMeshA, refinedMeshB,
                                   NodeRefs(refinedMeshA, |graphA.nodes|) + NodeRefs(refinedMeshB, |graphB.nodes|),
                                   outsideA, outsideB)
      ensures outsideA.Some? ==> outsideA.value.node < |graphA.nodes|
      ensures outsideB.Some? ==> outsideB.value.node < |graphB.nodes|
      ensures roots.Some? ==> roots.value.nodeA.node < |graphA.nodes| && roots.value.nodeB.node < |graphB.nodes|
      ensures roots.Some? ==> roots.value.sideA != UNKNOWN && roots.value.sideB != UNKNOWN
      ensures roots.Some? ==> roots.value.sideA == OUTSIDE || roots.value.sideB == OUTSIDE
    {
      var polygonsA := refinedMeshA.ToPolygonArray();
      var polygonsB := refinedMeshB.ToPolygonArray();
      assert polygonsA == FacePolygons(refinedMeshA.vertexArray, refinedMeshA.faceArray);
      assert polygonsB == FacePolygons(refinedMeshB.vertexArray, refinedMeshB.faceArray);
      var nodeList := NodeRefs(refinedMeshA, |graphA.nodes|) + NodeRefs(refinedMeshB, |graphB.nodes|);
      outsideA := AsNode(refinedMeshA, findOutsideNode(polygonsA, polygonsA + polygonsB, rootBox));
      outsideB := AsNode(refinedMeshB, findOutsideNode(polygonsB, polygonsA + polygonsB, rootBox));
      roots := SelectRoots(refinedMeshA, refinedMeshB, nodeList, outsideA, outsideB);
      if roots.Some? {
        NodeRefsMember(refinedMeshA, |graphA.nodes|, refinedMeshB, |graphB.nodes|, roots.value.nodeA);
        NodeRefsMember(refinedMeshA, |graphA.nodes|, refinedMeshB, |graphB.nodes|, roots.value.nodeB);
      }
    }

    /**
     * The nodes FindOutsideNode reports for refined mesh A and for refined mesh B, each
     * searched among the polygons of both meshes.
     */
    ghost function OutsideNodes(rootBox: Box): (Option<NodeRef>, Option<NodeRef>)
      reads refinedMeshA, refinedMeshB
      requires refinedMeshA.FacesValid() && refinedMeshB.FacesValid()
    {
      var polygonsA := FacePolygons(refinedMeshA.vertexArray, refinedMeshA.faceArray);
      var polygonsB := FacePolygons(refinedMeshB.vertexArray, refinedMeshB.faceArray);
      (AsNode(refinedMeshA, findOutsideNode(polygonsA, polygonsA + polygonsB, rootBox)),
       AsNode(refinedMeshB, findOutsideNode(polygonsB, polygonsA + polygonsB, rootBox)))
    }

    /** The roots SelectRoots picks from the outside searches over all nodes (graph A's, then graph B's). */
    ghost function ChosenRoots(rootBox: Box): Option<Roots>
      reads refinedMeshA, refinedMeshB, graphA, graphB
      requires refinedMeshA.FacesValid() && refinedMeshB.FacesValid()
    {
      var outside := OutsideNodes(rootBox);
      SelectRoots(refinedMeshA, refinedMeshB,
                  NodeRefs(refinedMeshA, |graphA.nodes|) + NodeRefs(refinedMeshB, |graphB.nodes|),
                  outside.0, outside.1)
    }

    /** Each graph's only labelled node is its chosen root, with the side it was chosen with. */
    ghost predicate ColouredFrom(roots: Roots)
      reads this`sidesA, this`sidesB
    {
      OnlyRoot(sidesA, roots.nodeA.node, roots.sideA) && OnlyRoot(sidesB, roots.nodeB.node, roots.sideB)
    }

    /** One side per node of each graph. */
    ghost predicate Colored()
      reads this`sidesA, this`sidesB, refinedMeshA, refinedMeshB
    {
      |sidesA| == |refinedMeshA.faceArray| && |sidesB| == |refinedMeshB.faceArray|
    }

    /** Each graph has exactly one labelled node, and at least one of the two is outside. */
    ghost predicate RootsOnly()
      reads this`sidesA, this`sidesB
    {
      (exists rootA: nat :: OnlyRoot(sidesA, rootA, OUTSIDE) || OnlyRoot(sidesA, rootA, INSIDE)) &&
      (exists rootB: nat :: OnlyRoot(sidesB, rootB, OUTSIDE) || OnlyRoot(sidesB, rootB, INSIDE)) &&
      (OUTSIDE in sidesA || OUTSIDE in sidesB)
    }

    /** The polygon lists the flags call for, from the coloured buckets of the refined meshes. */
    ghost function Results(): seq<seq<MeshPolygon>>
      reads this`faceSet, this`sidesA, this`sidesB, faceHeap, faceHeap.heap, refinedMeshA, refinedMeshB
      requires Valid() && Colored()
    {
      Outputs(flags,
        SideBucket(refinedMeshA.vertexArray, refinedMeshA.faceArray, sidesA, OUTSIDE),
        SideBucket(refinedMeshA.vertexArray, refinedMeshA.faceArray, sidesA, INSIDE),
        SideBucket(refinedMeshB.vertexArray, refinedMeshB.faceArray, sidesB, OUTSIDE),
        SideBucket(refinedMeshB.vertexArray, refinedMeshB.faceArray, sidesB, INSIDE))
    }

    /** One distinct output mesh per result, holding it; no result has more than two polygons. */
    ghost predicate Produced(outputMeshArray: seq<Mesh>)
      reads this`faceSet, this`sidesA, this`sidesB, faceHeap, faceHeap.heap, refinedMeshA, refinedMeshB
      reads set i | 0 <= i < |outputMeshArray| :: outputMeshArray[i]
      requires Valid() && Colored()
    {
      var results := Results();
      |outputMeshArray| == |results| &&
      (forall i :: 0 <= i < |results| ==> Holds(outputMeshArray[i], results[i]) && |results[i]| <= 2) &&
      forall i, j :: 0 <= i < j < |outputMeshArray| ==> outputMeshArray[i] != outputMeshArray[j]
    }

    /**
     * The colouring step of Calculate: the roots are chosen and each graph is coloured
     * from its root. Without roots nothing is coloured, but a node already found
     * outside keeps the OUTSIDE mark it was given before the search failed.
     */
    method Colour(rootBox: Box) returns (found: bool)
      requires Valid()
      requires NodesForFaces(graphA.nodes, |refinedMeshA.faceArray|) && Linked(graphA.nodes, graphA.edges) && NoEdges(graphA.nodes)
      requires NodesForFaces(graphB.nodes, |refinedMeshB.faceArray|) && Linked(graphB.nodes, graphB.edges) && NoEdges(graphB.nodes)
      modifies this
      ensures Valid()
      ensures faceSet == old(faceSet) && error == old(error)
      ensures cutBoundarySegmentArray == old(cutBoundarySegmentArray) && cutBoundaryPolylineArray == old(cutBoundaryPolylineArray)
      ensures found <==> ChosenRoots(rootBox).Some?
      ensures found ==> Colored() && RootsOnly() && ColouredFrom(ChosenRoots(rootBox).value)
      ensures !found ==> OutsideNodes(rootBox).0.None? || OutsideNodes(rootBox).1.None?
      ensures !found ==>
        sidesA == FailedSides(|graphA.nodes|, OutsideNodes(rootBox).0) &&
        sidesB == FailedSides(|graphB.nodes|, OutsideNodes(rootBox).1)
    {
      var roots, outsideA, outsideB := FindRoots(rootBox);
      if roots.None? {
        sidesA := FailedSides(|graphA.nodes|, outsideA);
        sidesB := FailedSides(|graphB.nodes|, outsideB);
        return false;
      }
      var rootA, rootB := roots.value.nodeA.node, roots.value.nodeB.node;
      var colouredA := ColorFromRoot(graphA.nodes, graphA.edges, refinedMeshA.vertexArray, cutBoundaryPolylineArray,
                                     rootA, roots.value.sideA);
      var colouredB := ColorFromRoot(graphB.nodes, graphB.edges, refinedMeshB.vertexArray, cutBoundaryPolylineArray,
                                     rootB, roots.value.sideB);
      sidesA, sidesB := colouredA, colouredB;
      found := true;
      assert OnlyRoot(sidesA, rootA, OUTSIDE) || OnlyRoot(sidesA, rootA, INSIDE);
      assert OnlyRoot(sidesB, rootB, OUTSIDE) || OnlyRoot(sidesB, rootB, INSIDE);
      assert sidesA[rootA] == OUTSIDE || sidesB[rootB] == OUTSIDE;
    }

    /** The bucketing by side and the forming of the results the flags call for. */
    method Form() returns (outputMeshArray: seq<Mesh>)
      requires Valid() && Colored() && RootsOnly()
      ensures Produced(outputMeshArray)
      ensures forall i :: 0 <= i < |outputMeshArray| ==> fresh(outputMeshArray[i])
    {
      var outsidePolygonArrayA, insidePolygonArrayA := SortBySide(refinedMeshA, sidesA);
      var outsidePolygonArrayB, insidePolygonArrayB := SortBySide(refinedMeshB, sidesB);
      ghost var rootA: nat :| OnlyRoot(sidesA, rootA, OUTSIDE) || OnlyRoot(sidesA, rootA, INSIDE);
      ghost var rootB: nat :| OnlyRoot(sidesB, rootB, OUTSIDE) || OnlyRoot(sidesB, rootB, INSIDE);
      OnlyRootBucket(refinedMeshA.vertexArray, refinedMeshA.faceArray, sidesA, rootA, sidesA[rootA]);
      OnlyRootBucket(refinedMeshB.vertexArray, refinedMeshB.faceArray, sidesB, rootB, sidesB[rootB]);
      OutputsSmall(flags, outsidePolygonArrayA, insidePolygonArrayA, outsidePolygonArrayB, insidePolygonArrayB);
      outputMeshArray := FormResults(flags, outsidePolygonArrayA, insidePolygonArrayA, outsidePolygonArrayB, insidePolygonArrayB);
    }

    /**
     * MeshSetOperation::Calculate. Some(false) is a reported error (with the message in
     * `error` and the outputs untouched), Some(true) success, None a run the source
     * would not survive (face heap exhausted) or that runs out of fuel. The ghost
     * `rootBox` is the box of all loaded faces the cut phase built its tree in, which is
     * also the box the outside searches are given.
     */
    method Calculate(inputMeshArray: seq<Mesh>, outputMeshArray: seq<Mesh>, fuel: nat)
      returns (result: Option<bool>, outputMeshArray': seq<Mesh>, ghost rootBox: Box)
      requires Valid()
      requires |inputMeshArray| == 2 ==> inputMeshArray[0].FacesValid() && inputMeshArray[1].FacesValid()
      modifies this, faceHeap, faceHeap.heap, faceTree, refinedMeshA, refinedMeshB, graphA, graphB
      ensures result.Some? ==> Valid()
      ensures |inputMeshArray| != 2 ==>
        result == Some(false) && error == WRONG_INPUT_COUNT && outputMeshArray' == outputMeshArray
      ensures |inputMeshArray| == 2 && flags == 0 ==>
        result == Some(false) && error == NO_FLAGS && outputMeshArray' == outputMeshArray
      ensures |inputMeshArray| == 2 && flags != 0 && result == Some(false) ==>
        error == NO_ROOTS && outputMeshArray' == outputMeshArray
      ensures |inputMeshArray| == 2 && flags != 0 && result.Some? ==>
        (result == Some(true) <==> ChosenRoots(rootBox).Some?)
      ensures |inputMeshArray| == 2 && flags != 0 && result == Some(false) ==>
        sidesA == FailedSides(|graphA.nodes|, OutsideNodes(rootBox).0) &&
        sidesB == FailedSides(|graphB.nodes|, OutsideNodes(rootBox).1)
      ensures result == Some(true) ==> error == "" && Valid() && Colored() && RootsOnly()
      ensures result == Some(true) ==> ColouredFrom(ChosenRoots(rootBox).value)
      ensures result == Some(true) ==> Valid() && Colored() && Produced(outputMeshArray')
      ensures result == Some(true) ==> forall i :: 0 <= i < |outputMeshArray'| ==> fresh(outputMeshArray'[i])
      ensures result == Some(true) ==>
        |old(cutBoundarySegmentArray)| <= |cutBoundarySegmentArray| &&
        cutBoundarySegmentArray[..|old(cutBoundarySegmentArray)|] == old(cutBoundarySegmentArray)
    {
      error := "";
      outputMeshArray', rootBox := outputMeshArray, Sentinel;
      if |inputMeshArray| != 2 {
        error := WRONG_INPUT_COUNT;
        result := Some(false);
        return;
      }
      if flags == 0 {
        error := NO_FLAGS;
        result := Some(false);
        return;
      }
      var polygonArrayA := inputMeshArray[0].ToPolygonArray();
      var polygonArrayB := inputMeshArray[1].ToPolygonArray();
      var cut, box;
      ghost var segments := cutBoundarySegmentArray;
      cut, faceSet, cutBoundarySegmentArray, box :=
        CutPhase(k, faceHeap, faceTree, faceSet, cutBoundarySegmentArray, polygonArrayA, polygonArrayB, fuel);
      rootBox := box;
      if !cut {
        result := None;
        return;
      }
      Rebuild(fuel);
      var found := Colour(box);
      if !found {
        error := NO_ROOTS;
        result := Some(false);
        return;
      }
      outputMeshArray' := Form();
      result := Some(true);
    }
  }
}
