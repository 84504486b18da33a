/**
 * A `std::set` of addresses: a strictly increasing sequence, so that iterating over
 * it visits the elements in ascending order, as iterating a `std::set<Face*>` does.
 */
module OrderedSets {
  /** Strictly increasing: sorted, without repeats. */
  predicate Increasing(s: seq<nat>) {
    forall i, j :: 0 <= i < j < |s| ==> s[i] < s[j]
  }

  function Elems(s: seq<nat>): set<nat> {
    set x | x in s
  }

  /** std::set::insert: adds `x` in its place; an element already present is not added again. */
  function Insert(s: seq<nat>, x: nat): (r: seq<nat>)
    ensures forall y :: y in r <==> y in s || y == x
    ensures Increasing(s) ==> Increasing(r)
    ensures |r| > 0 && (r[0] == x || (|s| > 0 && r[0] == s[0]))
    ensures Increasing(s) ==> (x in s <==> |r| == |s|) && (x !in s <==> |r| == |s| + 1)
    decreases |s|
  {
    if |s| == 0 then [x]
    else if x < s[0] then [x] + s
    else if x == s[0] then s
    else
      var rest := Insert(s[1..], x);
      assert forall y :: y in s <==> y == s[0] || y in s[1..];
      [s[0]] + rest
  }

  /** std::set::erase: the same elements without `x`. */
  function Erase(s: seq<nat>, x: nat): (r: seq<nat>)
    ensures forall y :: y in r <==> y in s && y != x
    ensures Increasing(s) ==> Increasing(r)
    ensures |r| <= |s|
    decreases |s|
  {
    if |s| == 0 then []
    else
      var rest := Erase(s[1..], x);
      assert forall y :: y in s <==> y == s[0] || y in s[1..];
      IncreasingTail(s);
      if s[0] == x then rest
      else
        IncreasingCons(s[0], rest);
        [s[0]] + rest
  }

  /** An element below all of an increasing sequence can go in front. */
  lemma IncreasingCons(x: nat, r: seq<nat>)
    ensures Increasing(r) && (forall y :: y in r ==> x < y) ==> Increasing([x] + r)
  {
    if Increasing(r) && (forall y :: y in r ==> x < y) {
      forall i, j | 0 <= i < j < |[x] + r| ensures ([x] + r)[i] < ([x] + r)[j] {
        assert ([x] + r)[j] == r[j - 1];
        assert r[j - 1] in r;
        if i > 0 {
          assert ([x] + r)[i] == r[i - 1];
        }
      }
    }
  }

  /** Every later element of an increasing sequence exceeds the first. */
  lemma IncreasingTail(s: seq<nat>)
    requires |s| > 0
    ensures Increasing(s) ==> Increasing(s[1..]) && forall y :: y in s[1..] ==> s[0] < y
  {
    if Increasing(s) {
      forall y | y in s[1..] ensures s[0] < y {
        var i :| 0 <= i < |s[1..]| && s[1..][i] == y;
        assert s[i + 1] == y;
      }
    }
  }

  /** Inserting and then erasing a new element gives the set back. */
  lemma {:induction false} EraseInsert(s: seq<nat>, x: nat)
    requires x !in s
    ensures Erase(Insert(s, x), x) == s
    decreases |s|
  {
    if |s| > 0 && x > s[0] {
      EraseInsert(s[1..], x);
    } else if |s| > 0 {
      EraseNothing(s, x);
    }
  }

  /** Erasing an absent element changes nothing. */
  lemma {:induction false} EraseNothing(s: seq<nat>, x: nat)
    requires x !in s
    ensures Erase(s, x) == s
    decreases |s|
  {
    if |s| > 0 {
      EraseNothing(s[1..], x);
    }
  }

  /** Two increasing sequences with the same elements are equal: the order is determined. */
  lemma {:induction false} IncreasingUnique(s: seq<nat>, t: seq<nat>)
    requires Increasing(s) && Increasing(t)
    requires forall y :: y in s <==> y in t
    ensures s == t
    decreases |s|
  {
    assert |s| > 0 ==> s[0] in t;
    assert |t| > 0 ==> t[0] in s;
    if |s| > 0 && |t| > 0 {
      var j :| 0 <= j < |t| && t[j] == s[0];
      assert t[0] <= s[0];
      var i :| 0 <= i < |s| && s[i] == t[0];
      assert s[0] <= t[0];
      IncreasingTail(s);
      IncreasingTail(t);
      forall y ensures y in s[1..] <==> y in t[1..] {
        if y in s[1..] {
          assert y in t && y != t[0];
          var j :| 0 <= j < |t| && t[j] == y;
          assert t[1..][j - 1] == y;
        }
        if y in t[1..] {
          assert y in s && y != s[0];
          var j :| 0 <= j < |s| && s[j] == y;
          assert s[1..][j - 1] == y;
        }
      }
      IncreasingUnique(s[1..], t[1..]);
    }
  }

  /** A loop of std::set::insert: every element of `xs` is added, in order. */
  method InsertAll(s: seq<nat>, xs: seq<nat>) returns (s': seq<nat>)
    requires Increasing(s)
    ensures Increasing(s') && Elems(s') == Elems(s) + Elems(xs)
  {
    s' := s;
    var i := 0;
    while i < |xs|
      invariant 0 <= i <= |xs|
      invariant Increasing(s') && Elems(s') == Elems(s) + Elems(xs[..i])
    {
      ElemsSnoc(xs, i);
      InsertElems(s', xs[i]);
      s' := Insert(s', xs[i]);
      i := i + 1;
    }
    assert xs[..i] == xs;
  }

  lemma InsertElems(s: seq<nat>, x: nat)
    ensures Elems(Insert(s, x)) == Elems(s) + {x}
  {
  }

  lemma ElemsSnoc(xs: seq<nat>, i: nat)
    requires i < |xs|
    ensures Elems(xs[..i + 1]) == Elems(xs[..i]) + {xs[i]}
  {
    assert forall y :: y in xs[..i + 1] <==> y in xs[..i] || y == xs[i];
  }

  /** An increasing sequence has no repeats: it has as many distinct elements as entries. */
  lemma {:induction false} IncreasingElemsCount(s: seq<nat>)
    requires Increasing(s)
    ensures |Elems(s)| == |s|
    decreases |s|
  {
    if |s| > 0 {
      var n := |s| - 1;
      assert Increasing(s[..n]);
      IncreasingElemsCount(s[..n]);
      ElemsSnoc(s, n);
      assert s[..n + 1] == s;
      assert s[n] !in Elems(s[..n]);
    }
  }

  lemma ElemsConcat(s: seq<nat>, t: seq<nat>)
    ensures Elems(s + t) == Elems(s) + Elems(t)
  {
    assert forall y :: y in s + t <==> y in s || y in t;
  }

  lemma EraseElems(s: seq<nat>, x: nat)
    ensures Elems(Erase(s, x)) == Elems(s) - {x}
  {
  }
}
