/**
 What growing the heap does to the bytes it holds when an allocation that contains the grown heap is reused: exactly
 when they stay.
 */
module StaleHeap {
  import opened Ranges
  import opened Bytes
  import opened Backing
  import opened GuestState
  import opened Merging
  import opened HeapBreak
  import opened StaleBytes

  /**
   The heap is to grow to `newEnd`, nothing is in its way, and allocation `id` is the oldest that contains it grown.
   */
  ghost predicate GrowsInto(s: State, newEnd: nat, id: nat, offset: nat) {
    && Inv(s) && MIN_GUEST_ADDRESS <= s.heapBase && IsPageAligned(s.heapBase) && IsPageAligned(newEnd)
    && var oldEnd := HeapMappedEnd(s.vmas, s.heapBase);
    && oldEnd < newEnd <= s.spaceEnd && !GrowthBlocked(s.vmas, oldEnd, newEnd) && GrowSafe(s.vmas, s.heapBase, newEnd)
    && Provides(s, id, offset, s.heapBase, newEnd - s.heapBase)
    && LowestBacking(s, id, s.heapBase, newEnd - s.heapBase)
  }

  /** However the new part is zeroed, the guest finds at `a` the byte it found before. */
  ghost predicate GrowthKeeps(s: State, newEnd: nat, id: nat, offset: nat, a: nat)
    requires a in View(s)
  {
    forall zeroed: State :: Growing(s, s, zeroed, id, offset, HeapMappedEnd(s.vmas, s.heapBase), newEnd) ==>
      var t := Grown(zeroed, s.heapBase, newEnd, id, offset);
      a in View(t) && View(t)[a].data == View(s)[a].data
  }

  /**
   Growing into an allocation that contains the grown heap keeps its bytes, whatever they are, exactly when the heap
   uses that allocation already.
   */
  lemma ReuseKeepsHeapExactly(s: State, newEnd: nat, id: nat, offset: nat, a: nat)
    requires GrowsInto(s, newEnd, id, offset) && s.heapBase <= a < HeapMappedEnd(s.vmas, s.heapBase)
    ensures s.heapBase in s.vmas && a in View(s)
    ensures (forall r: State :: SameLayout(s, r) && Inv(r) ==> a in View(r) && GrowthKeeps(r, newEnd, id, offset, a))
            <==> s.vmas[s.heapBase].allocationId == id
  {
    hide Inv, View, HeapMappedEnd, GrowthBlocked;
    SafeHeapShape(s, newEnd);
    BackedVma(s, s.heapBase);
    VmaView(s, s.heapBase, a);
    if s.vmas[s.heapBase].allocationId == id {
      forall r: State | SameLayout(s, r) && Inv(r)
        ensures a in View(r) && GrowthKeeps(r, newEnd, id, offset, a)
      {
        VmaView(r, s.heapBase, a);
        SameAllocationKeeps(r, newEnd, id, offset, a);
      }
    } else {
      OtherAllocationLoses(s, newEnd, id, offset, a);
    }
  }

  /** After a growth the heap shows what its backing held. */
  lemma GrownByte(s: State, zeroed: State, newEnd: nat, id: nat, offset: nat, a: nat)
    requires Growing(s, s, zeroed, id, offset, HeapMappedEnd(s.vmas, s.heapBase), newEnd)
    requires GrowSafe(s.vmas, s.heapBase, newEnd) && s.heapBase <= a < HeapMappedEnd(s.vmas, s.heapBase)
    ensures var t := Grown(zeroed, s.heapBase, newEnd, id, offset);
            && Provides(s, id, offset, s.heapBase, newEnd - s.heapBase)
            && a in View(t) && View(t)[a].data == s.bytes[s.allocations[id].memory][offset + (a - s.heapBase)]
  {
    hide Inv, View, Framed, GrowthBlocked, HeapMappedEnd, CanPlace, Prepared, Unused, Zeroed;
    var oldEnd := HeapMappedEnd(s.vmas, s.heapBase);
    SafeGrowthReady(s, s, zeroed, id, offset, oldEnd, newEnd);
    PreparedParts(s, s, id, offset, s.heapBase, newEnd - s.heapBase);
    PlacedView(zeroed, HeapVma(s.heapBase, newEnd, id, offset));
    ZeroedTail(s, zeroed, id, offset, s.heapBase, oldEnd, newEnd);
  }

  lemma SameAllocationKeeps(s: State, newEnd: nat, id: nat, offset: nat, a: nat)
    requires Inv(s) && s.heapBase in s.vmas && s.vmas[s.heapBase].Contains(a) && s.vmas[s.heapBase].allocationId == id
    requires GrowSafe(s.vmas, s.heapBase, newEnd) && s.heapBase <= a < HeapMappedEnd(s.vmas, s.heapBase) && a in View(s)
    ensures GrowthKeeps(s, newEnd, id, offset, a)
  {
    hide Inv, View, Growing, HeapMappedEnd;
    forall zeroed: State | Growing(s, s, zeroed, id, offset, HeapMappedEnd(s.vmas, s.heapBase), newEnd)
      ensures var t := Grown(zeroed, s.heapBase, newEnd, id, offset);
              a in View(t) && View(t)[a].data == View(s)[a].data
    {
      GrownByte(s, zeroed, newEnd, id, offset, a);
      BackedVma(s, s.heapBase);
      VmaView(s, s.heapBase, a);
    }
  }

  lemma SameLayoutBacks(s: State, r: State, id: nat, offset: nat, start: nat, length: nat)
    requires SameLayout(s, r) && Provides(s, id, offset, start, length) && LowestBacking(s, id, start, length)
    ensures Provides(r, id, offset, start, length) && LowestBacking(r, id, start, length)
  {
    forall i | i in r.allocations && Contains(r.allocations[i], r.bytes, start, length)
      ensures id <= i
    {
      assert Contains(s.allocations[i], s.bytes, start, length);
    }
  }

  /** Once the allocation has a buffer of its own, in `t`, the new part can be zeroed. */
  lemma CanGrow(s: State, t: State, newEnd: nat, id: nat, offset: nat) returns (zeroed: State)
    requires GrowsInto(s, newEnd, id, offset) && HostOk(s) && HostOk(t) && Sole(t, id)
    requires t.vmas == s.vmas && Inv(t) && Framed(s, t) && View(t) == View(s) && Stale(t) <= Stale(s)
    requires SameContents(s.allocations, s.bytes, t.allocations, t.bytes)
    ensures Growing(s, s, zeroed, id, offset, HeapMappedEnd(s.vmas, s.heapBase), newEnd)
  {
    hide Inv, View, GrowthBlocked, Unused, Framed, HeapMappedEnd, Stale, AllocationsDisjoint;
    var base, oldEnd := s.heapBase, HeapMappedEnd(s.vmas, s.heapBase);
    AllocationsInStore(s);
    QuietReflexive(s);
    var data := Zeros(newEnd - oldEnd);
    FilledReady(s, t, id, offset + (oldEnd - base), data);
    zeroed := Stored(t, id, offset + (oldEnd - base), data);
    StoredFramed(t, id, offset + (oldEnd - base), data);
    FramedTransitive(s, t, zeroed);
    FilledStore(s, t, id, offset + (oldEnd - base), data);
    QuietIsFramed(s, s);
    assert Prepared(s, s, id, offset, base, newEnd - base);
  }

  lemma MarkedGrows(s: State, newEnd: nat, id: nat, offset: nat, own: nat)
    requires GrowsInto(s, newEnd, id, offset)
    ensures var r := MarkedState(s, own);
            && SameLayout(s, r) && Inv(r) && HostOk(r) && r.vmas == s.vmas && r.heapBase == s.heapBase
            && GrowsInto(r, newEnd, id, offset) && Sole(r, id)
  {
    hide Inv, View, GrowthBlocked, HeapMappedEnd, GrowSafe, Provides, LowestBacking, MarkedState, HostOk;
    var r := MarkedState(s, own);
    MarkedOk(s, own);
    SameLayoutBacks(s, r, id, offset, s.heapBase, newEnd - s.heapBase);
    assert id in r.allocations by { ProvidesHolds(r, id, offset, s.heapBase, newEnd - s.heapBase); }
  }

  lemma ProvidesHolds(s: State, id: nat, offset: nat, start: nat, length: nat)
    requires Provides(s, id, offset, start, length)
    ensures id in s.allocations && s.allocations[id].memory in s.bytes
    ensures offset + length <= |s.bytes[s.allocations[id].memory]|
  {
  }

  lemma OtherAllocationLoses(s: State, newEnd: nat, id: nat, offset: nat, a: nat)
    requires GrowsInto(s, newEnd, id, offset) && s.heapBase <= a < HeapMappedEnd(s.vmas, s.heapBase)
    requires s.heapBase in s.vmas && s.vmas[s.heapBase].Contains(a) && s.vmas[s.heapBase].allocationId != id
    ensures var r := MarkedState(s, s.vmas[s.heapBase].allocationId);
            SameLayout(s, r) && Inv(r) && a in View(r) && !GrowthKeeps(r, newEnd, id, offset, a)
  {
    hide Inv, View, GrowthBlocked, Growing, HeapMappedEnd, MarkedState, HostOk, SameLayout, Provides, LowestBacking;
    var own := s.vmas[s.heapBase].allocationId;
    var r := MarkedState(s, own);
    MarkedGrows(s, newEnd, id, offset, own);
    ProvidesHolds(r, id, offset, s.heapBase, newEnd - s.heapBase);
    ProvidesHolds(s, id, offset, s.heapBase, newEnd - s.heapBase);
    AllocationsInStore(r);
    QuietReflexive(r);
    var zeroed := CanGrow(r, r, newEnd, id, offset);
    GrownByte(r, zeroed, newEnd, id, offset, a);
    BackedVma(s, s.heapBase);
    VmaView(r, s.heapBase, a);
    MarkedByte(s, own, own, r.vmas[s.heapBase].allocationOffset + (a - s.heapBase));
    MarkedByte(s, own, id, offset + (a - s.heapBase));
  }
}
