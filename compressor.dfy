/**
 * CompressArray: repeatedly offers pairs of live slots to a compressor function; a
 * merged item replaces both slots (which become null) and is appended, and the pairs it
 * forms with every live earlier slot are queued. The std::vector of pointers is a
 * sequence of optional items (None for nullptr).
 */
module Compressors {
  import opened Wrappers

  /** Slot indices queued for a compression attempt. */
  datatype Pair = Pair(i: nat, j: nat)

  /** Strict lexicographic order on pairs, the order the initial double loop produces. */
  predicate Before(p: Pair, q: Pair) {
    p.i < q.i || (p.i == q.i && p.j < q.j)
  }

  /** The non-null entries, in slot order. */
  function NonNull<T>(slots: seq<Option<T>>): seq<T>
    decreases |slots|
  {
    if |slots| == 0 then []
    else
      var last := slots[|slots| - 1];
      NonNull(slots[..|slots| - 1]) + (if last.Some? then [last.value] else [])
  }

  /** The number of non-null slots. */
  function LiveCount<T>(slots: seq<Option<T>>): nat {
    |NonNull(slots)|
  }

  lemma NonNullAppend<T>(slots: seq<Option<T>>, x: Option<T>)
    ensures NonNull(slots + [x]) == NonNull(slots) + (if x.Some? then [x.value] else [])
  {
    assert (slots + [x])[..|slots|] == slots;
  }

  /** The total weight of the items under `w`. */
  function SumW<T>(w: T -> nat, items: seq<T>): nat
    decreases |items|
  {
    if |items| == 0 then 0 else SumW(w, items[..|items| - 1]) + w(items[|items| - 1])
  }

  /** A merge result weighs as much as the two items it replaces. */
  ghost predicate Additive<T(!new)>(compressor: (T, T) -> Option<T>, w: T -> nat) {
    forall a, b :: compressor(a, b).Some? ==> w(compressor(a, b).value) == w(a) + w(b)
  }

  lemma SumWAppend<T>(w: T -> nat, items: seq<T>, x: T)
    ensures SumW(w, items + [x]) == SumW(w, items) + w(x)
  {
    assert (items + [x])[..|items|] == items;
  }

  /** Nulling a live slot removes exactly that item's weight. */
  lemma {:induction false} SumWClear<T>(w: T -> nat, slots: seq<Option<T>>, i: nat)
    requires i < |slots| && slots[i].Some?
    ensures SumW(w, NonNull(slots[i := None])) + w(slots[i].value) == SumW(w, NonNull(slots))
    decreases |slots|
  {
    var n := |slots|;
    var s := slots[i := None];
    assert s[..n - 1] == if i < n - 1 then slots[..n - 1][i := None] else slots[..n - 1];
    if i < n - 1 {
      SumWClear(w, slots[..n - 1], i);
      assert slots[..n - 1][i] == slots[i];
      assert NonNull(s) == NonNull(s[..n - 1]) + (if s[n - 1].Some? then [s[n - 1].value] else []);
      assert NonNull(slots) == NonNull(slots[..n - 1]) + (if slots[n - 1].Some? then [slots[n - 1].value] else []);
      assert s[n - 1] == slots[n - 1];
      if slots[n - 1].Some? {
        SumWAppend(w, NonNull(s[..n - 1]), slots[n - 1].value);
        SumWAppend(w, NonNull(slots[..n - 1]), slots[n - 1].value);
      } else {
        assert NonNull(s[..n - 1]) + [] == NonNull(s[..n - 1]);
        assert NonNull(slots[..n - 1]) + [] == NonNull(slots[..n - 1]);
      }
    } else {
      assert NonNull(s) == NonNull(slots[..n - 1]) + [];
      assert NonNull(slots[..n - 1]) + [] == NonNull(slots[..n - 1]);
      SumWAppend(w, NonNull(slots[..n - 1]), slots[n - 1].value);
    }
  }

  /** Nulling a live slot removes exactly one item. */
  lemma {:induction false} LiveCountClear<T>(slots: seq<Option<T>>, i: nat)
    requires i < |slots| && slots[i].Some?
    ensures LiveCount(slots[i := None]) == LiveCount(slots) - 1
    decreases |slots|
  {
    var n := |slots|;
    var s := slots[i := None];
    assert s[..n - 1] == if i < n - 1 then slots[..n - 1][i := None] else slots[..n - 1];
    if i < n - 1 {
      LiveCountClear(slots[..n - 1], i);
    }
  }

  /** Every pair (i, j) with i < j < n, in the order of the source's double loop. */
  method InitialPairs(n: nat) returns (queue: seq<Pair>)
    ensures forall i: nat, j: nat :: Pair(i, j) in queue <==> i < j < n
    ensures forall k :: 0 <= k < |queue| - 1 ==> Before(queue[k], queue[k + 1])
  {
    queue := [];
    var i := 0;
    while i < n
      invariant 0 <= i <= n
      invariant forall a: nat, b: nat :: Pair(a, b) in queue <==> a < i && a < b < n
      invariant forall k :: 0 <= k < |queue| - 1 ==> Before(queue[k], queue[k + 1])
      invariant forall k :: 0 <= k < |queue| ==> queue[k].i < i
    {
      var j := i + 1;
      ghost var before := queue;
      while j < n
        invariant i + 1 <= j <= n
        invariant forall a: nat, b: nat :: Pair(a, b) in queue <==> (a < i && a < b < n) || (a == i && i < b < j)
        invariant forall k :: 0 <= k < |queue| - 1 ==> Before(queue[k], queue[k + 1])
        invariant forall k :: 0 <= k < |queue| ==> queue[k].i < i || (queue[k].i == i && queue[k].j < j)
      {
        queue := queue + [Pair(i, j)];
        j := j + 1;
      }
      i := i + 1;
    }
  }

  /** The pairs (k, last) for every live slot k < last, appended to the queue in slot order. */
  method QueueWithLast<T>(slots: seq<Option<T>>, pairQueue: seq<Pair>) returns (queue: seq<Pair>)
    requires |slots| > 0
    requires forall k :: 0 <= k < |pairQueue| ==> pairQueue[k].i < pairQueue[k].j < |slots|
    ensures |queue| >= |pairQueue| && queue[..|pairQueue|] == pairQueue
    ensures forall k :: 0 <= k < |queue| ==> queue[k].i < queue[k].j < |slots|
    ensures forall k :: 0 <= k < |slots| - 1 && slots[k].Some? ==> Pair(k, |slots| - 1) in queue
  {
    var last := |slots| - 1;
    queue := pairQueue;
    var i := 0;
    while i < last
      invariant 0 <= i <= last
      invariant |queue| >= |pairQueue| && queue[..|pairQueue|] == pairQueue
      invariant forall k :: 0 <= k < |queue| ==> queue[k].i < queue[k].j < |slots|
      invariant forall k :: 0 <= k < i && slots[k].Some? ==> Pair(k, last) in queue
    {
      if slots[i] != None {
        queue := queue + [Pair(i, last)];
      }
      i := i + 1;
    }
  }

  /** Every pair of live slots is still queued or was refused by the compressor. */
  ghost predicate Offered<T>(slots: seq<Option<T>>, pairQueue: seq<Pair>, compressor: (T, T) -> Option<T>) {
    forall i, j :: 0 <= i < j < |slots| && slots[i].Some? && slots[j].Some? ==>
      Pair(i, j) in pairQueue || compressor(slots[i].value, slots[j].value).None?
  }

  /** One merge: both slots become null, the merged item is appended, and its pairs are queued. */
  method Merge<T>(slots: seq<Option<T>>, pairQueue: seq<Pair>, pair: Pair, merged: T, compressor: (T, T) -> Option<T>)
    returns (slots': seq<Option<T>>, queue': seq<Pair>)
    requires pair.i < pair.j < |slots| && slots[pair.i].Some? && slots[pair.j].Some?
    requires forall k :: 0 <= k < |pairQueue| ==> pairQueue[k].i < pairQueue[k].j < |slots|
    requires forall i, j :: 0 <= i < j < |slots| && slots[i].Some? && slots[j].Some? && Pair(i, j) != pair ==>
      Pair(i, j) in pairQueue || compressor(slots[i].value, slots[j].value).None?
    ensures slots' == slots[pair.i := None][pair.j := None] + [Some(merged)]
    ensures LiveCount(slots') == LiveCount(slots) - 1 && LiveCount(slots') > 0
    ensures forall w: T -> nat :: w(merged) == w(slots[pair.i].value) + w(slots[pair.j].value) ==>
      SumW(w, NonNull(slots')) == SumW(w, NonNull(slots))
    ensures forall k :: 0 <= k < |queue'| ==> queue'[k].i < queue'[k].j < |slots'|
    ensures Offered(slots', queue', compressor)
  {
    LiveCountClear(slots, pair.i);
    var cleared := slots[pair.i := None];
    LiveCountClear(cleared, pair.j);
    forall w: T -> nat | w(merged) == w(slots[pair.i].value) + w(slots[pair.j].value)
      ensures SumW(w, NonNull(cleared[pair.j := None] + [Some(merged)])) == SumW(w, NonNull(slots))
    {
      SumWClear(w, slots, pair.i);
      SumWClear(w, cleared, pair.j);
      NonNullAppend(cleared[pair.j := None], Some(merged));
      SumWAppend(w, NonNull(cleared[pair.j := None]), merged);
    }
    cleared := cleared[pair.j := None];
    NonNullAppend(cleared, Some(merged));
    slots' := cleared + [Some(merged)];
    queue' := QueueWithLast(slots', pairQueue);
    var last := |slots'| - 1;
    forall a, b | 0 <= a < b < |slots'| && slots'[a].Some? && slots'[b].Some?
      ensures Pair(a, b) in queue' || compressor(slots'[a].value, slots'[b].value).None?
    {
      if b < last {
        assert slots[a] == slots'[a] && slots[b] == slots'[b];
        if Pair(a, b) in pairQueue {
          var m :| 0 <= m < |pairQueue| && pairQueue[m] == Pair(a, b);
          assert queue'[m] == Pair(a, b);
        }
      }
    }
  }

  /** The final copy of the non-null entries, with the slot each came from. */
  method Contiguous<T>(slots: seq<Option<T>>) returns (result: seq<T>, ghost from: seq<nat>)
    ensures result == NonNull(slots)
    ensures |from| == |result|
    ensures forall p :: 0 <= p < |from| ==> from[p] < |slots| && slots[from[p]] == Some(result[p])
    ensures forall p, q :: 0 <= p < q < |from| ==> from[p] < from[q]
  {
    result := [];
    from := [];
    var i := 0;
    while i < |slots|
      invariant 0 <= i <= |slots|
      invariant result == NonNull(slots[..i])
      invariant |from| == |result|
      invariant forall p :: 0 <= p < |from| ==> from[p] < i && slots[from[p]] == Some(result[p])
      invariant forall p, q :: 0 <= p < q < |from| ==> from[p] < from[q]
    {
      assert slots[..i + 1] == slots[..i] + [slots[i]];
      NonNullAppend(slots[..i], slots[i]);
      if slots[i] != None {
        result := result + [slots[i].value];
        from := from + [i];
      }
      i := i + 1;
    }
    assert slots[..|slots|] == slots;
  }

  /**
   * The compressed array: its items, in slot order, are the survivors. With a pure
   * compressor every two survivors were offered to it (lower slot first) and it returned
   * null; the number of items never grows, and it is zero only when there were none; any
   * weight that a merge conserves (the merged item weighs what its two parts did) is the
   * same in total before and after; and a compressor that never merges leaves the
   * non-null entries as they were.
   */
  method CompressArray<T(!new)>(givenArray: seq<Option<T>>, compressor: (T, T) -> Option<T>, ghost w: T -> nat)
    returns (result: seq<T>)
    ensures forall p, q :: 0 <= p < q < |result| ==> compressor(result[p], result[q]).None?
    ensures |result| <= LiveCount(givenArray)
    ensures |result| == 0 <==> LiveCount(givenArray) == 0
    ensures Additive(compressor, w) ==> SumW(w, result) == SumW(w, NonNull(givenArray))
    ensures (forall a, b :: compressor(a, b).None?) ==> result == NonNull(givenArray)
  {
    var slots := givenArray;
    var pairQueue := InitialPairs(|slots|);
    ghost var neverMerges := forall a, b :: compressor(a, b).None?;

    while |pairQueue| > 0
      invariant forall k :: 0 <= k < |pairQueue| ==> pairQueue[k].i < pairQueue[k].j < |slots|
      invariant Offered(slots, pairQueue, compressor)
      invariant LiveCount(slots) <= LiveCount(givenArray)
      invariant LiveCount(slots) == 0 <==> LiveCount(givenArray) == 0
      invariant Additive(compressor, w) ==> SumW(w, NonNull(slots)) == SumW(w, NonNull(givenArray))
      invariant neverMerges ==> slots == givenArray
      decreases LiveCount(slots), |pairQueue|
    {
      var pair := pairQueue[0];
      var rest := pairQueue[1..];
      assert forall k :: 0 <= k < |rest| ==> rest[k] == pairQueue[k + 1];
      var typeA, typeB := slots[pair.i], slots[pair.j];
      if typeA.Some? && typeB.Some? {
        var newType := compressor(typeA.value, typeB.value);
        if newType.Some? {
          slots, pairQueue := Merge(slots, rest, pair, newType.value, compressor);
        } else {
          pairQueue := rest;
        }
      } else {
        pairQueue := rest;
      }
    }

    ghost var from;
    result, from := Contiguous(slots);
    forall p, q | 0 <= p < q < |result|
      ensures compressor(result[p], result[q]).None?
    {
      assert slots[from[p]] == Some(result[p]) && slots[from[q]] == Some(result[q]);
    }
  }
}
