/**
 * BoundingBoxTree: a binary tree of boxes. A node that accepts a guest splits its box in
 * two on first use and hands the guest to the first child whose box contains the guest's
 * box, keeping it itself when neither does. A query collects the guests whose boxes
 * overlap the query box; as written, the hits of a node's children are appended to that
 * node's own guest list before the list is scanned.
 *
 * Nodes are owned by their parent and never shared, so the tree is a datatype value held in
 * the tree object's `rootNode` field. A guest's box comes from the `bound` function
 * (Guest::CalcBoundingBox).
 */
module BoundingBoxTrees {
  import opened Wrappers
  import opened Geometry
  import opened AxisAlignedBoxes

  datatype Node<G> =
    | Leaf(box: Box, guests: seq<G>)
    | Inner(box: Box, guests: seq<G>, lo: Node<G>, hi: Node<G>)

  /** Every guest stored in the tree, the node's own list first (GatherAllGuests). */
  function GatherAll<G>(n: Node<G>): seq<G> {
    match n
    case Leaf(_, guests) => guests
    case Inner(_, guests, lo, hi) => guests + GatherAll(lo) + GatherAll(hi)
  }

  /** The stored guests as a multiset: a guest stored twice counts twice. */
  function Guests<G>(n: Node<G>): multiset<G> {
    multiset(GatherAll(n))
  }

  /** Each node's guests fit its box, and each child's box fits its parent's. */
  ghost predicate Sound<G>(n: Node<G>, bound: G -> Box) {
    (forall k :: 0 <= k < |n.guests| ==> ContainsBox(n.box, bound(n.guests[k]))) &&
    (n.Inner? ==>
      ContainsBox(n.box, n.lo.box) && ContainsBox(n.box, n.hi.box) &&
      Sound(n.lo, bound) && Sound(n.hi, bound))
  }

  /**
   * The children a node hands a guest to: those it has, or two fresh halves of its box.
   * `split` halves a box; the tree object passes AxisAlignedBox::SplitReasonably (`Split`).
   */
  function Children<G>(n: Node<G>, split: Box -> (Box, Box)): (Node<G>, Node<G>) {
    if n.Leaf? then (Leaf(split(n.box).0, []), Leaf(split(n.box).1, [])) else (n.lo, n.hi)
  }

  /** Both halves of every valid box lie inside it, as they do for `Split` (SplitHalvesInside). */
  ghost predicate HalvesInside(split: Box -> (Box, Box)) {
    forall b :: IsValid(b) ==> ContainsBox(b, split(b).0) && ContainsBox(b, split(b).1)
  }

  lemma SplitHalvesInside()
    ensures HalvesInside(Split)
  {
    forall b | IsValid(b) ensures ContainsBox(b, Split(b).0) && ContainsBox(b, Split(b).1) {
      SplitCovers(b, b.min);
    }
  }

  /**
   * Node::AddGuest. The result is None when placing the guest needs more than `fuel` levels
   * of recursion (the source recurses without limit); otherwise it is whether the guest was
   * accepted and the node's new value.
   */
  function AddToNode<G>(n: Node<G>, g: G, bound: G -> Box, split: Box -> (Box, Box), fuel: nat): (r: Option<(bool, Node<G>)>)
    decreases fuel
    ensures !ContainsBox(n.box, bound(g)) ==> r == Some((false, n))
    ensures r.Some? && !r.value.0 ==> r.value.1 == n
    ensures ContainsBox(n.box, bound(g)) && r.Some? ==> r.value.0
    ensures r.Some? && r.value.0 ==>
      r.value.1.Inner? && r.value.1.box == n.box
  {
    if !ContainsBox(n.box, bound(g)) then Some((false, n))
    else if fuel == 0 then None
    else
      var (lo, hi) := Children(n, split);
      var rLo := AddToNode(lo, g, bound, split, fuel - 1);
      if rLo.None? then None
      else if rLo.value.0 then Some((true, Inner(n.box, n.guests, rLo.value.1, hi)))
      else
        var rHi := AddToNode(hi, g, bound, split, fuel - 1);
        if rHi.None? then None
        else if rHi.value.0 then Some((true, Inner(n.box, n.guests, lo, rHi.value.1)))
        else Some((true, Inner(n.box, n.guests + [g], lo, hi)))
  }

  /** An accepted guest is stored exactly once more; nothing else is added or lost. */
  lemma {:induction false} AddStoresOnce<G>(n: Node<G>, g: G, bound: G -> Box, split: Box -> (Box, Box), fuel: nat, n': Node<G>)
    requires AddToNode(n, g, bound, split, fuel) == Some((true, n'))
    ensures Guests(n') == Guests(n) + multiset{g}
    decreases fuel
  {
    var (lo, hi) := Children(n, split);
    var rLo := AddToNode(lo, g, bound, split, fuel - 1);
    if rLo.value.0 {
      AddStoresOnce(lo, g, bound, split, fuel - 1, rLo.value.1);
      assert n' == Inner(n.box, n.guests, rLo.value.1, hi);
      GainBelow(n, split, rLo.value.1, hi, g);
    } else {
      var rHi := AddToNode(hi, g, bound, split, fuel - 1);
      if rHi.value.0 {
        AddStoresOnce(hi, g, bound, split, fuel - 1, rHi.value.1);
        assert n' == Inner(n.box, n.guests, lo, rHi.value.1);
        GainBelow(n, split, lo, rHi.value.1, g);
      } else {
        assert n' == Inner(n.box, n.guests + [g], lo, hi);
        GainHere(n, split, g);
      }
    }
  }

  /** A node whose children are replaced by ones holding one more `g` holds one more `g`. */
  lemma GainBelow<G>(n: Node<G>, split: Box -> (Box, Box), lo': Node<G>, hi': Node<G>, g: G)
    requires var (lo, hi) := Children(n, split);
      (Guests(lo') == Guests(lo) + multiset{g} && hi' == hi) ||
      (lo' == lo && Guests(hi') == Guests(hi) + multiset{g})
    ensures Guests(Inner(n.box, n.guests, lo', hi')) == Guests(n) + multiset{g}
  {
    var (lo, hi) := Children(n, split);
    var own := multiset(n.guests);
    GuestsOfChildren(n, split);
    GuestsOfInner(n.box, n.guests, lo', hi');
    if hi' == hi && Guests(lo') == Guests(lo) + multiset{g} {
      GainOnce(own, Guests(lo), Guests(hi), Guests(lo'), g);
    } else {
      GainOnce(own, Guests(hi), Guests(lo), Guests(hi'), g);
    }
  }

  /** A node that keeps `g` in its own list, over the children it hands guests to, holds one more `g`. */
  lemma GainHere<G>(n: Node<G>, split: Box -> (Box, Box), g: G)
    ensures var (lo, hi) := Children(n, split);
      Guests(Inner(n.box, n.guests + [g], lo, hi)) == Guests(n) + multiset{g}
  {
    var (lo, hi) := Children(n, split);
    var own := multiset(n.guests);
    GuestsOfChildren(n, split);
    GuestsOfInner(n.box, n.guests + [g], lo, hi);
    assert multiset(n.guests + [g]) == own + multiset{g};
    GainOnce(Guests(lo), own, Guests(hi), own + multiset{g}, g);
  }

  /** Multiset bookkeeping: one of three parts gaining `g` makes the whole gain `g`. */
  lemma GainOnce<G>(a: multiset<G>, b: multiset<G>, c: multiset<G>, b': multiset<G>, g: G)
    requires b' == b + multiset{g}
    ensures a + b' + c == a + b + c + multiset{g}
    ensures b' + a + c == b + a + c + multiset{g}
    ensures a + c + b' == a + b + c + multiset{g}
    ensures b' + c + a == b + c + a + multiset{g}
  {
  }

  lemma GuestsOfInner<G>(box: Box, guests: seq<G>, lo: Node<G>, hi: Node<G>)
    ensures Guests(Inner(box, guests, lo, hi)) == multiset(guests) + Guests(lo) + Guests(hi)
  {
    assert GatherAll(Inner(box, guests, lo, hi)) == guests + GatherAll(lo) + GatherAll(hi);
  }

  lemma GuestsOfChildren<G>(n: Node<G>, split: Box -> (Box, Box))
    ensures Guests(n) == multiset(n.guests) + Guests(Children(n, split).0) + Guests(Children(n, split).1)
  {
    if n.Inner? {
      GuestsOfInner(n.box, n.guests, n.lo, n.hi);
    }
  }

  /**
   * Where an accepted guest goes: a childless node first gets the two halves of its box as
   * children; the guest is then stored in this node's own list exactly when neither child's
   * box contains it, and otherwise handed down with this node's list unchanged.
   */
  lemma AddPlacement<G>(n: Node<G>, g: G, bound: G -> Box, split: Box -> (Box, Box), fuel: nat)
    requires AddToNode(n, g, bound, split, fuel).Some? && AddToNode(n, g, bound, split, fuel).value.0
    ensures var n' := AddToNode(n, g, bound, split, fuel).value.1;
      ContainsBox(n.box, bound(g)) &&
      (n'.lo.box, n'.hi.box) == (Children(n, split).0.box, Children(n, split).1.box) &&
      (n.Leaf? ==> (n'.lo.box, n'.hi.box) == split(n.box)) &&
      (n'.guests == n.guests + [g] <==> !ContainsBox(n'.lo.box, bound(g)) && !ContainsBox(n'.hi.box, bound(g))) &&
      (n'.guests != n.guests + [g] ==> n'.guests == n.guests)
  {
    var (lo, hi) := Children(n, split);
    var rLo := AddToNode(lo, g, bound, split, fuel - 1);
    if !rLo.value.0 {
      var rHi := AddToNode(hi, g, bound, split, fuel - 1);
      if rHi.value.0 {
        assert |rHi.value.1.guests| >= 0;
      }
    }
  }

  /** The guests of `list` whose boxes overlap the query, in list order. */
  function Overlapping<G>(list: seq<G>, query: Box, bound: G -> Box): (hits: seq<G>)
    ensures forall k :: 0 <= k < |hits| ==> OverlapsWith(query, bound(hits[k])) && hits[k] in list
    ensures forall g :: g in list && OverlapsWith(query, bound(g)) ==> g in hits
    decreases |list|
  {
    if |list| == 0 then []
    else
      var rest := Overlapping(list[..|list| - 1], query, bound);
      var g := list[|list| - 1];
      rest + (if OverlapsWith(query, bound(g)) then [g] else [])
  }

  /**
   * Node::FindGuests: the node's new value and the guests it reports. The children report
   * into the node's own list, which is then scanned.
   */
  function QueryNode<G>(n: Node<G>, query: Box, bound: G -> Box): (r: (Node<G>, seq<G>))
    ensures !OverlapsWith(n.box, query) ==> r == (n, [])
    ensures forall k :: 0 <= k < |r.1| ==> OverlapsWith(query, bound(r.1[k]))
    ensures r.0.box == n.box && r.0.Inner? == n.Inner?
  {
    if !OverlapsWith(n.box, query) then (n, [])
    else match n
      case Leaf(box, guests) => (n, Overlapping(guests, query, bound))
      case Inner(box, guests, lo, hi) =>
        var (lo', hitsLo) := QueryNode(lo, query, bound);
        var (hi', hitsHi) := QueryNode(hi, query, bound);
        var stored := guests + hitsLo + hitsHi;
        (Inner(box, stored, lo', hi'), Overlapping(stored, query, bound))
  }

  // ---------------------------------------------------------------- properties

  /** Every stored guest's box lies inside the box of the node that holds it or any ancestor. */
  lemma {:induction false} SoundContainsAll<G>(n: Node<G>, bound: G -> Box)
    requires Sound(n, bound)
    ensures forall g :: g in GatherAll(n) ==> ContainsBox(n.box, bound(g))
  {
    forall g | g in GatherAll(n) ensures ContainsBox(n.box, bound(g)) {
      if g in n.guests {
        var k :| 0 <= k < |n.guests| && n.guests[k] == g;
      } else {
        SoundContainsAll(n.lo, bound);
        SoundContainsAll(n.hi, bound);
        if g in GatherAll(n.lo) {
          ContainsBoxTransitive(n.box, n.lo.box, bound(g));
        } else {
          ContainsBoxTransitive(n.box, n.hi.box, bound(g));
        }
      }
    }
  }

  /** An inner node is sound when its list fits its box and its sound children fit inside it. */
  lemma SoundInner<G>(box: Box, guests: seq<G>, lo: Node<G>, hi: Node<G>, bound: G -> Box)
    requires forall k :: 0 <= k < |guests| ==> ContainsBox(box, bound(guests[k]))
    requires ContainsBox(box, lo.box) && ContainsBox(box, hi.box) && Sound(lo, bound) && Sound(hi, bound)
    ensures Sound(Inner(box, guests, lo, hi), bound)
  {
  }

  /** The children a guest is handed to are sound and fit inside a sound node with a valid box. */
  lemma ChildrenSound<G>(n: Node<G>, bound: G -> Box, split: Box -> (Box, Box))
    requires Sound(n, bound) && IsValid(n.box) && HalvesInside(split)
    ensures var (lo, hi) := Children(n, split);
      ContainsBox(n.box, lo.box) && ContainsBox(n.box, hi.box) && Sound(lo, bound) && Sound(hi, bound)
  {
  }

  /** Adding a guest keeps the tree sound. */
  lemma {:induction false} AddKeepsSound<G>(n: Node<G>, g: G, bound: G -> Box, split: Box -> (Box, Box), fuel: nat,
                                            r: (bool, Node<G>))
    requires Sound(n, bound) && HalvesInside(split)
    requires AddToNode(n, g, bound, split, fuel) == Some(r)
    ensures Sound(r.1, bound)
    decreases fuel
  {
    if ContainsBox(n.box, bound(g)) {
      ContainerIsValid(n.box, bound(g).min);
      ChildrenSound(n, bound, split);
      var (lo, hi) := Children(n, split);
      var rLo := AddToNode(lo, g, bound, split, fuel - 1);
      if rLo.value.0 {
        AddKeepsSound(lo, g, bound, split, fuel - 1, rLo.value);
        assert r.1 == Inner(n.box, n.guests, rLo.value.1, hi);
        SoundBelow(n, bound, split, rLo.value.1, hi);
      } else {
        var rHi := AddToNode(hi, g, bound, split, fuel - 1);
        if rHi.value.0 {
          AddKeepsSound(hi, g, bound, split, fuel - 1, rHi.value);
          assert r.1 == Inner(n.box, n.guests, lo, rHi.value.1);
          SoundBelow(n, bound, split, lo, rHi.value.1);
        } else {
          assert r.1 == Inner(n.box, n.guests + [g], lo, hi);
          SoundHere(n, bound, split, g);
        }
      }
    }
  }

  /** Replacing one child of a sound node by a sound node with the same box keeps it sound. */
  lemma SoundBelow<G>(n: Node<G>, bound: G -> Box, split: Box -> (Box, Box), lo': Node<G>, hi': Node<G>)
    requires Sound(n, bound) && IsValid(n.box) && HalvesInside(split)
    requires var (lo, hi) := Children(n, split);
      (Sound(lo', bound) && lo'.box == lo.box && hi' == hi) ||
      (lo' == lo && Sound(hi', bound) && hi'.box == hi.box)
    ensures Sound(Inner(n.box, n.guests, lo', hi'), bound)
  {
    ChildrenSound(n, bound, split);
    SoundInner(n.box, n.guests, lo', hi', bound);
  }

  /** A sound node keeping a guest that fits its box in its own list stays sound. */
  lemma SoundHere<G>(n: Node<G>, bound: G -> Box, split: Box -> (Box, Box), g: G)
    requires Sound(n, bound) && IsValid(n.box) && HalvesInside(split) && ContainsBox(n.box, bound(g))
    ensures var (lo, hi) := Children(n, split);
      Sound(Inner(n.box, n.guests + [g], lo, hi), bound)
  {
    ChildrenSound(n, bound, split);
    var (lo, hi) := Children(n, split);
    SoundInner(n.box, n.guests + [g], lo, hi, bound);
  }

  /** Every point of a valid box lies in one of its halves, as it does for `Split` (SplitHalvesCover). */
  ghost predicate HalvesCover(split: Box -> (Box, Box)) {
    forall b, p :: IsValid(b) && ContainsPoint(b, p) ==> ContainsPoint(split(b).0, p) || ContainsPoint(split(b).1, p)
  }

  lemma SplitHalvesCover()
    ensures HalvesCover(Split)
  {
    forall b, p | IsValid(b) && ContainsPoint(b, p) ensures ContainsPoint(Split(b).0, p) || ContainsPoint(Split(b).1, p) {
      SplitCovers(b, p);
    }
  }

  /**
   * A guest whose box is a single point inside a fresh leaf is never placed, however much
   * recursion is allowed: one half of every split still contains the point.
   */
  lemma {:induction false} PointGuestNeverPlaced<G>(box: Box, guests: seq<G>, g: G, bound: G -> Box, split: Box -> (Box, Box), fuel: nat)
    requires HalvesCover(split)
    requires bound(g).min == bound(g).max && ContainsPoint(box, bound(g).min)
    ensures AddToNode(Leaf(box, guests), g, bound, split, fuel) == None
    decreases fuel
  {
    var p := bound(g).min;
    if fuel > 0 {
      ContainerIsValid(box, p);
      var (a, b) := split(box);
      if ContainsPoint(a, p) {
        PointGuestNeverPlaced(a, [], g, bound, split, fuel - 1);
      } else {
        PointGuestNeverPlaced(b, [], g, bound, split, fuel - 1);
      }
    }
  }

  /** A query never loses a guest and never adds a new one; it can only repeat stored guests. */
  lemma {:induction false} QueryKeepsGuests<G>(n: Node<G>, query: Box, bound: G -> Box)
    ensures Guests(n) <= Guests(QueryNode(n, query, bound).0)
    ensures forall g :: g in GatherAll(QueryNode(n, query, bound).0) <==> g in GatherAll(n)
    ensures forall g :: g in QueryNode(n, query, bound).1 ==> g in GatherAll(n)
  {
    if OverlapsWith(n.box, query) && n.Inner? {
      QueryKeepsGuests(n.lo, query, bound);
      QueryKeepsGuests(n.hi, query, bound);
      var (lo', hitsLo) := QueryNode(n.lo, query, bound);
      var (hi', hitsHi) := QueryNode(n.hi, query, bound);
      var stored := n.guests + hitsLo + hitsHi;
      var n' := QueryNode(n, query, bound).0;
      assert GatherAll(n') == stored + GatherAll(lo') + GatherAll(hi');
      assert multiset(GatherAll(n')) == multiset(n.guests) + multiset(hitsLo) + multiset(hitsHi)
        + multiset(GatherAll(lo')) + multiset(GatherAll(hi'));
      assert multiset(GatherAll(n)) == multiset(n.guests) + multiset(GatherAll(n.lo)) + multiset(GatherAll(n.hi));
    }
  }

  /** The distinct guests of a node before and after a query agree; every hit is one of them. */
  lemma QueryKeepsGuestSet<G>(n: Node<G>, query: Box, bound: G -> Box)
    ensures (set g | g in GatherAll(QueryNode(n, query, bound).0)) == (set g | g in GatherAll(n))
    ensures forall g :: g in QueryNode(n, query, bound).1 ==> g in (set g | g in GatherAll(n))
  {
    QueryKeepsGuests(n, query, bound);
    var after := GatherAll(QueryNode(n, query, bound).0);
    var before := GatherAll(n);
    assert forall g :: g in after <==> g in before;
    SameMembersSameSet(after, before);
  }

  /** A list holding one more copy of `g` than another has the other's members and `g`. */
  lemma OneMoreMember<G>(before: seq<G>, after: seq<G>, g: G)
    requires multiset(after) == multiset(before) + multiset{g}
    ensures (set x | x in after) == (set x | x in before) + {g}
  {
    assert forall x :: x in after <==> x in multiset(after);
    assert forall x :: x in before <==> x in multiset(before);
  }

  lemma SameMembersSameSet<G>(s: seq<G>, t: seq<G>)
    requires forall g :: g in s <==> g in t
    ensures (set g | g in s) == (set g | g in t)
  {
  }

  /** A query keeps the tree sound: reported guests fit the child, hence the parent. */
  lemma {:induction false} QueryKeepsSound<G>(n: Node<G>, query: Box, bound: G -> Box)
    requires Sound(n, bound)
    ensures Sound(QueryNode(n, query, bound).0, bound)
  {
    if OverlapsWith(n.box, query) && n.Inner? {
      QueryKeepsSound(n.lo, query, bound);
      QueryKeepsSound(n.hi, query, bound);
      QueryKeepsGuests(n.lo, query, bound);
      QueryKeepsGuests(n.hi, query, bound);
      SoundContainsAll(n.lo, bound);
      SoundContainsAll(n.hi, bound);
      var (lo', hitsLo) := QueryNode(n.lo, query, bound);
      var (hi', hitsHi) := QueryNode(n.hi, query, bound);
      var stored := n.guests + hitsLo + hitsHi;
      forall k | 0 <= k < |stored| ensures ContainsBox(n.box, bound(stored[k])) {
        if k >= |n.guests| {
          var g := stored[k];
          if k < |n.guests| + |hitsLo| {
            assert g == hitsLo[k - |n.guests|];
            ContainsBoxTransitive(n.box, n.lo.box, bound(g));
          } else {
            assert g == hitsHi[k - |n.guests| - |hitsLo|];
            ContainsBoxTransitive(n.box, n.hi.box, bound(g));
          }
        }
      }
    }
  }

  /** In a sound tree a query reports every stored guest whose box overlaps the query box. */
  lemma {:induction false} QueryComplete<G>(n: Node<G>, query: Box, bound: G -> Box, g: G)
    requires Sound(n, bound)
    requires g in GatherAll(n) && OverlapsWith(query, bound(g))
    ensures g in QueryNode(n, query, bound).1
  {
    SoundContainsAll(n, bound);
    OverlapsSymmetric(query, bound(g));
    OverlapsMonotone(n.box, bound(g), query);
    if n.Inner? {
      var (lo', hitsLo) := QueryNode(n.lo, query, bound);
      var (hi', hitsHi) := QueryNode(n.hi, query, bound);
      if g in GatherAll(n.lo) {
        QueryComplete(n.lo, query, bound, g);
        assert g in n.guests + hitsLo + hitsHi;
      } else if g in GatherAll(n.hi) {
        QueryComplete(n.hi, query, bound, g);
        assert g in n.guests + hitsLo + hitsHi;
      }
    }
  }

  /** The box of every guest in the example below. */
  function UnitBound(g: int): Box {
    Box(Vec3(0.0, 0.0, 0.0), Vec3(1.0, 1.0, 1.0))
  }

  /** The root box of the example below, twice as wide as it is high or deep. */
  function Bar(): Box {
    Box(Vec3(0.0, 0.0, 0.0), Vec3(4.0, 2.0, 2.0))
  }

  lemma SplitBar()
    ensures Split(Bar()) == (Box(Vec3(0.0, 0.0, 0.0), Vec3(2.0, 2.0, 2.0)), Box(Vec3(2.0, 0.0, 0.0), Vec3(4.0, 2.0, 2.0)))
  {
    assert SplitAxis(Bar()) == 0;
  }

  lemma OverlappingSevens()
    ensures Overlapping([7], Bar(), UnitBound) == [7]
    ensures Overlapping([7, 7], Bar(), UnitBound) == [7, 7]
  {
    assert OverlapsWith(Bar(), UnitBound(7));
    assert [7][..0] == [] && [7, 7][..1] == [7];
  }

  lemma QueryChildren()
    ensures var (left, right) := Split(Bar());
      QueryNode(Leaf(left, [7]), Bar(), UnitBound) == (Leaf(left, [7]), [7]) &&
      QueryNode(Leaf(right, []), Bar(), UnitBound) == (Leaf(right, []), [])
  {
    SplitBar();
    var (left, right) := Split(Bar());
    assert OverlapsWith(left, Bar()) && OverlapsWith(right, Bar());
    OverlappingSevens();
  }

  /**
   * Queries change the stored lists: with one guest stored in a child, the first query
   * reports it once and copies it into the root's list, so a second identical query
   * reports it twice.
   */
  lemma RepeatedQueryDuplicates()
    ensures
      var (left, right) := Split(Bar());
      var tree := Inner(Bar(), [], Leaf(left, [7]), Leaf(right, []));
      var (tree1, hits1) := QueryNode(tree, Bar(), UnitBound);
      var (tree2, hits2) := QueryNode(tree1, Bar(), UnitBound);
      hits1 == [7] && hits2 == [7, 7] && tree1.guests == [7]
  {
    var (left, right) := Split(Bar());
    QueryChildren();
    OverlappingSevens();
    assert OverlapsWith(Bar(), Bar()) by {
      assert Intersection(Bar(), Bar()) == Bar();
    }
    var tree := Inner(Bar(), [], Leaf(left, [7]), Leaf(right, []));
    var tree1 := Inner(Bar(), [7], Leaf(left, [7]), Leaf(right, []));
    assert [] + [7] + [] == [7];
    assert QueryNode(tree, Bar(), UnitBound) == (tree1, [7]);
    assert [7] + [7] + [] == [7, 7];
    assert QueryNode(tree1, Bar(), UnitBound).1 == [7, 7];
  }

  // ---------------------------------------------------------------- the tree object

  class BoundingBoxTree<G(==)> {
    var rootNode: Option<Node<G>>

    constructor()
      ensures rootNode == None
    {
      rootNode := None;
    }

    /** Creates the root only when there is none; later calls are ignored. */
    method SetRootBox(box: Box)
      modifies this
      ensures old(rootNode).None? ==> rootNode == Some(Leaf(box, []))
      ensures old(rootNode).Some? ==> rootNode == old(rootNode)
    {
      if rootNode.None? {
        rootNode := Some(Leaf(box, []));
      }
    }

    /**
     * Fails without a root. `added` is None when the placement needs more than `fuel`
     * levels of recursion; the tree is then left unchanged.
     */
    method AddGuest(guest: G, bound: G -> Box, fuel: nat) returns (added: Option<bool>)
      modifies this
      ensures old(rootNode).None? ==> added == Some(false) && rootNode == None
      ensures old(rootNode).Some? ==>
        var r := AddToNode(old(rootNode).value, guest, bound, Split, fuel);
        (r.None? ==> added == None && rootNode == old(rootNode)) &&
        (r.Some? ==> added == Some(r.value.0) && rootNode == Some(r.value.1))
      ensures added == Some(true) ==> GuestSet() == old(GuestSet()) + {guest}
      ensures added == Some(true) ==> TotalGuests() == old(TotalGuests()) + 1
      ensures added != Some(true) ==> rootNode == old(rootNode)
      ensures old(rootNode).Some? && added.Some? ==>
        (added.value <==> ContainsBox(old(rootNode).value.box, bound(guest)))
      ensures old(rootNode).Some? ==> rootNode.Some? && rootNode.value.box == old(rootNode).value.box
      ensures old(SoundFor(bound)) ==> SoundFor(bound)
    {
      if rootNode.None? {
        return Some(false);
      }
      var r := AddToNode(rootNode.value, guest, bound, Split, fuel);
      if r.None? {
        return None;
      }
      if r.value.0 {
        AddStoresOnce(rootNode.value, guest, bound, Split, fuel, r.value.1);
        OneMoreMember(GatherAll(rootNode.value), GatherAll(r.value.1), guest);
        assert |multiset(GatherAll(r.value.1))| == |multiset(GatherAll(rootNode.value))| + 1;
      }
      if SoundFor(bound) {
        SplitHalvesInside();
        AddKeepsSound(rootNode.value, guest, bound, Split, fuel, r.value);
      }
      rootNode := Some(r.value.1);
      added := Some(r.value.0);
    }

    /** The tree, when it has a root, is sound for the guest boxes `bound` gives. */
    ghost predicate SoundFor(bound: G -> Box)
      reads this
    {
      rootNode.Some? ==> Sound(rootNode.value, bound)
    }

    /** The distinct guests stored anywhere in the tree. */
    function GuestSet(): set<G>
      reads this
    {
      set g | g in GatherAllGuests()
    }

    /** Clears the output; a rootless tree reports nothing. */
    method FindGuests(box: Box, bound: G -> Box) returns (foundGuestList: seq<G>)
      modifies this
      ensures old(rootNode).None? ==> foundGuestList == [] && rootNode == None
      ensures old(rootNode).Some? ==>
        var (root', hits) := QueryNode(old(rootNode).value, box, bound);
        rootNode == Some(root') && foundGuestList == hits
      ensures GuestSet() == old(GuestSet())
      ensures forall g :: g in foundGuestList ==> g in old(GuestSet())
      ensures old(SoundFor(bound)) ==> SoundFor(bound)
      ensures old(SoundFor(bound)) ==>
        forall g :: g in old(GuestSet()) && OverlapsWith(box, bound(g)) ==> g in foundGuestList
    {
      foundGuestList := [];
      if rootNode.Some? {
        var r := QueryNode(rootNode.value, box, bound);
        QueryKeepsGuestSet(rootNode.value, box, bound);
        if SoundFor(bound) {
          QueryKeepsSound(rootNode.value, box, bound);
          forall g | g in GuestSet() && OverlapsWith(box, bound(g))
            ensures g in r.1
          {
            QueryComplete(rootNode.value, box, bound, g);
          }
        }
        rootNode := Some(r.0);
        foundGuestList := r.1;
      }
    }

    method Clear()
      modifies this
      ensures rootNode == None
    {
      rootNode := None;
    }

    function GatherAllGuests(): seq<G>
      reads this
    {
      if rootNode.None? then [] else GatherAll(rootNode.value)
    }

    function TotalGuests(): nat
      reads this
    {
      |GatherAllGuests()|
    }
  }
}
