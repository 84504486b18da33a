/**
 * StackHeap: a fixed buffer of `stackSize` slots of `typeSize` bytes each, and a stack of
 * the indices of the free slots. Addresses are byte offsets into the buffer, so the
 * address order of allocated objects is the order of their slot indices.
 */
module TypeHeaps {
  import opened Wrappers
  import opened Sequences

  class StackHeap {
    const stackSize: nat
    /** sizeof(Type). */
    const typeSize: nat
    const memorySize: nat
    /** Indices of the free slots; the top of the stack is the last element. */
    var stack: seq<nat>

    /** Free indices are distinct and name slots of the buffer. */
    ghost predicate Valid()
      reads this
    {
      typeSize > 0 && memorySize == stackSize * typeSize &&
      (forall k :: 0 <= k < |stack| ==> 0 <= stack[k] < stackSize) &&
      (forall k, l :: 0 <= k < l < |stack| ==> stack[k] != stack[l])
    }

    /** Slots that are handed out and not yet returned. */
    ghost function Live(): set<int>
      reads this
    {
      set i | i in Slots(stackSize) && i !in stack
    }

    /** The address of slot i. */
    function Address(i: int): int
      reads this
    {
      i * typeSize
    }

    /** `address` is the address of a live slot. */
    ghost predicate IsLiveAddress(address: int)
      reads this
    {
      typeSize > 0 && 0 <= address < memorySize && address % typeSize == 0 && address / typeSize in Live()
    }

    constructor(stackSize: nat, typeSize: nat)
      requires typeSize > 0
      ensures this.stackSize == stackSize && this.typeSize == typeSize
      ensures stack == seq(stackSize, i => i)
      ensures Valid() && Live() == {}
    {
      this.stackSize := stackSize;
      this.typeSize := typeSize;
      this.memorySize := stackSize * typeSize;
      var s: seq<nat> := [];
      var i := 0;
      while i < stackSize
        invariant 0 <= i <= stackSize
        invariant s == seq(i, k => k)
      {
        s := s + [i];
        i := i + 1;
      }
      forall k | k in Slots(stackSize) ensures k in s {
        assert s[k] == k;
      }
      this.stack := s;
    }

    /** Pops the top free index; null (None) when no slot is free. */
    method Allocate() returns (address: Option<nat>)
      modifies this
      ensures old(stack) == [] ==> address == None && stack == old(stack)
      ensures old(stack) != [] ==>
        stack == old(stack)[..|old(stack)| - 1] &&
        address == Some(old(stack)[|old(stack)| - 1] * typeSize)
      ensures old(Valid()) ==> Valid()
      ensures old(Valid()) && address.Some? ==> IsLiveAddress(address.value) && !old(IsLiveAddress(address.value))
      ensures old(Valid()) && address.Some? ==> Live() == old(Live()) + {address.value / typeSize}
    {
      if |stack| == 0 {
        return None;
      }
      var i := stack[|stack| - 1];
      stack := stack[..|stack| - 1];
      address := Some(i * typeSize);
      if old(Valid()) {
        AddressRoundTrip(i);
        assert old(stack) == stack + [i];
        assert i !in stack by {
          forall m | 0 <= m < |stack| ensures stack[m] != i {
            assert old(stack)[m] == stack[m];
          }
        }
        assert Slots(stackSize)[i] == i;
      }
    }

    /** Pushes the slot index of an address inside the buffer; any other address changes nothing. */
    method Deallocate(address: int)
      modifies this
      ensures 0 <= address < memorySize ==> typeSize > 0 ==> stack == old(stack) + [address / typeSize]
      ensures !(0 <= address < memorySize) ==> stack == old(stack)
      ensures old(Valid()) && old(IsLiveAddress(address)) ==>
        Valid() && Live() == old(Live()) - {address / typeSize}
    {
      var j := address;
      if 0 <= j && j < memorySize && typeSize > 0 {
        var i := j / typeSize;
        if Valid() && IsLiveAddress(address) {
          DeallocateLiveKeepsValid(address);
        }
        stack := stack + [i];
      }
    }

    /** Two different live addresses name different slots. */
    lemma LiveAddressesDiffer(a: int, b: int)
      requires IsLiveAddress(a) && IsLiveAddress(b) && a != b
      ensures a / typeSize != b / typeSize
    {
      assert a == (a / typeSize) * typeSize;
      assert b == (b / typeSize) * typeSize;
    }

    /** Returning a live address keeps the free stack valid and frees exactly that slot. */
    lemma DeallocateLiveKeepsValid(address: int)
      requires Valid() && IsLiveAddress(address)
      ensures var s := stack + [address / typeSize];
        (forall k :: 0 <= k < |s| ==> 0 <= s[k] < stackSize) &&
        (forall k, l :: 0 <= k < l < |s| ==> s[k] != s[l])
    {
    }

    static lemma AddressRoundTripStatic(i: nat, typeSize: nat)
      requires typeSize > 0
      ensures (i * typeSize) / typeSize == i && (i * typeSize) % typeSize == 0
    {
      var a := i * typeSize;
      var q, r := a / typeSize, a % typeSize;
      assert a == q * typeSize + r && 0 <= r < typeSize;
      if q < i {
        MulAtLeast(i - q, typeSize);
      }
    }

    lemma AddressRoundTrip(i: int)
      requires Valid() && 0 <= i < stackSize
      ensures 0 <= Address(i) < memorySize
      ensures Address(i) / typeSize == i && Address(i) % typeSize == 0
    {
      AddressRoundTripStatic(i, typeSize);
      assert i * typeSize < stackSize * typeSize by {
        assert (stackSize - i) * typeSize > 0;
      }
    }

    /** With no double free, every slot is either free or live: free + live = stackSize. */
    lemma FreePlusLive()
      requires Valid()
      ensures |stack| + |Live()| == stackSize
    {
      var st: seq<int> := stack;
      var free := set k | 0 <= k < |st| :: st[k];
      DistinctCard(st);
      var all := set i | i in Slots(stackSize);
      RangeCard(stackSize);
      assert Live() == all - free;
      forall x | x in free ensures x in all {
        assert Slots(stackSize)[x] == x;
      }
      assert |all - free| == |all| - |free|;
    }
  }

  lemma {:induction false} MulAtLeast(x: nat, t: nat)
    requires x >= 1
    ensures x * t >= t
  {
    if x > 1 {
      MulAtLeast(x - 1, t);
      assert x * t == (x - 1) * t + t;
    }
  }
}
