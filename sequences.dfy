/** Sequence helpers shared by polygons, polylines and meshes. */
module Sequences {
  /** The elements of s in the opposite order. */
  function Reversed<T>(s: seq<T>): (r: seq<T>)
    ensures |r| == |s|
  {
    seq(|s|, i requires 0 <= i < |s| => s[|s| - 1 - i])
  }

  /** Reversing twice restores the original order. */
  lemma ReversedTwice<T>(s: seq<T>)
    ensures Reversed(Reversed(s)) == s
  {
  }

  /** Reversal keeps the elements and their multiplicities, and swaps the end points. */
  lemma {:induction false} ReversedContents<T>(s: seq<T>)
    ensures multiset(Reversed(s)) == multiset(s)
    ensures |s| > 0 ==> Reversed(s)[0] == s[|s| - 1] && Reversed(s)[|s| - 1] == s[0]
    decreases |s|
  {
    if |s| > 0 {
      var t := s[1..];
      ReversedContents(t);
      assert s == [s[0]] + t;
      assert Reversed(s) == Reversed(t) + [s[0]];
    }
  }

  /** Distinct elements: as many values as positions. */
  lemma {:induction false} DistinctCard(s: seq<int>)
    requires forall k, l :: 0 <= k < l < |s| ==> s[k] != s[l]
    ensures |set k | 0 <= k < |s| :: s[k]| == |s|
  {
    if |s| > 0 {
      var t := s[..|s| - 1];
      DistinctCard(t);
      var a := set k | 0 <= k < |t| :: t[k];
      var b := set k | 0 <= k < |s| :: s[k];
      assert b == a + {s[|s| - 1]};
      assert s[|s| - 1] !in a;
    }
  }

  /** The slot indices 0, 1, ..., n - 1. */
  function Slots(n: nat): seq<int> {
    seq(n, i => i)
  }

  lemma {:induction false} RangeCard(n: nat)
    ensures |set i | i in Slots(n)| == n
  {
    var s := Slots(n);
    DistinctCard(s);
    assert (set i | i in s) == (set k | 0 <= k < |s| :: s[k]);
  }
}
