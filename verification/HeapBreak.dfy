/**
 The program break: what growing and shrinking the heap do to the guest's picture, and exactly when
 growing keeps the VMA map well formed.
 */
module HeapBreak {
  import opened Ranges
  import opened OrderedKeys
  import opened Vmas
  import opened FlatMemory
  import opened Backing
  import opened GuestState
  import opened Merging

  const HEAP_PROTECTION: Protection := Protection(true, true, false)

  function HeapKeys(vmas: VmaMap): set<nat> {
    set k | k in vmas && vmas[k].kind.Heap?
  }

  /** Where the first heap VMA ends; the base when there is none. */
  function HeapMappedEnd(vmas: VmaMap, base: nat): (e: nat)
    ensures base <= e
  {
    var keys := HeapKeys(vmas);
    if keys == {} then base
    else
      var end := vmas[Least(keys)].end;
      if end < base then base else end
  }

  /** Some other mapping lies in the way of growing from `oldEnd` to `newEnd`. */
  predicate GrowthBlocked(vmas: VmaMap, oldEnd: nat, newEnd: nat) {
    exists k :: k in vmas && !vmas[k].kind.Heap? && vmas[k].Overlaps(oldEnd, newEnd)
  }

  /** No VMA but one starting at the base meets [base, newEnd). */
  predicate GrowSafe(vmas: VmaMap, base: nat, newEnd: nat) {
    forall k :: k in vmas && k != base ==> vmas[k].end <= base || newEnd <= k
  }

  /** Something that is not heap is mapped in the range. */
  ghost predicate InTheWay(flat: FlatMap, lo: nat, hi: nat) {
    exists a: nat :: lo <= a < hi && a in flat && !flat[a].kind.Heap?
  }

  lemma BlockedShown(s: State, oldEnd: nat, newEnd: nat)
    requires Inv(s) && oldEnd < newEnd
    ensures GrowthBlocked(s.vmas, oldEnd, newEnd) <==> InTheWay(View(s), oldEnd, newEnd)
  {
    hide View;
    if GrowthBlocked(s.vmas, oldEnd, newEnd) {
      var k :| k in s.vmas && !s.vmas[k].kind.Heap? && s.vmas[k].Overlaps(oldEnd, newEnd);
      assert WellPlaced(s.vmas[k], k, s.spaceEnd);
      VmaView(s, k, if k < oldEnd then oldEnd else k);
    }
    if InTheWay(View(s), oldEnd, newEnd) {
      var a: nat :| oldEnd <= a < newEnd && a in View(s) && !View(s)[a].kind.Heap?;
      assert Mapped(s.vmas, a) by { MappedView(s, a, a + 1); }
      var k := KeyAt(s.vmas, a);
      VmaView(s, k, a);
    }
  }

  /** Why brk must leave the break alone whatever the host would give; the heap's first piece ends at `heapEnd`. */
  ghost function BrkRefusal(flat: FlatMap, base: nat, spaceEnd: nat, heapEnd: nat, requested: U64): Option<MemoryError>
  {
    if requested == 0 then None
    else if requested < base then Some(InvalidAddress)
    else if AlignUp(requested).Err? then Some(InvalidLength)
    else
      var newEnd := AlignUp(requested).value;
      if newEnd > spaceEnd || (heapEnd < newEnd && InTheWay(flat, heapEnd, newEnd)) then Some(OutOfMemory) else None
  }

  /** The heap is absent, or one VMA at the base. */
  ghost predicate SingleHeap(vmas: VmaMap, base: nat) {
    forall k :: k in vmas && vmas[k].kind.Heap? ==> k == base
  }

  /** The heap as one readable, writable mapping up to `newEnd`, keeping the bytes that are there, zero elsewhere. */
  ghost function GrowHeap(flat: FlatMap, base: nat, newEnd: nat): FlatMap {
    imap a | a in flat || base <= a < newEnd ::
      if base <= a < newEnd then Cell(if a in flat then flat[a].data else 0, HEAP_PROTECTION, Heap) else flat[a]
  }

  ghost function ShrinkHeap(flat: FlatMap, newEnd: nat): FlatMap {
    imap a | a in flat && !(flat[a].kind.Heap? && newEnd <= a) :: flat[a]
  }

  // When growing is safe

  /** In a growth that is safe, the heap is absent or exactly [base, oldEnd). */
  lemma SafeHeapShape(s: State, newEnd: nat)
    requires Inv(s) && GrowSafe(s.vmas, s.heapBase, newEnd)
    requires HeapMappedEnd(s.vmas, s.heapBase) < newEnd
             && !GrowthBlocked(s.vmas, HeapMappedEnd(s.vmas, s.heapBase), newEnd)
    ensures var base, oldEnd := s.heapBase, HeapMappedEnd(s.vmas, s.heapBase);
            if base in s.vmas then s.vmas[base].kind.Heap? && s.vmas[base].end == oldEnd else oldEnd == base
  {
    var base, oldEnd := s.heapBase, HeapMappedEnd(s.vmas, s.heapBase);
    var keys := HeapKeys(s.vmas);
    if keys != {} {
      var first := Least(keys);
      assert WellPlaced(s.vmas[first], first, s.spaceEnd);
      assert first == base;
    }
    assert base in s.vmas && keys == {} ==>
        base !in keys && WellPlaced(s.vmas[base], base, s.spaceEnd) && s.vmas[base].Overlaps(oldEnd, newEnd);
  }

  /** A heap in one piece grows safely whenever nothing blocks it. */
  lemma SingleHeapIsSafe(s: State, newEnd: nat)
    requires Inv(s) && SingleHeap(s.vmas, s.heapBase)
    requires HeapMappedEnd(s.vmas, s.heapBase) < newEnd
             && !GrowthBlocked(s.vmas, HeapMappedEnd(s.vmas, s.heapBase), newEnd)
    ensures GrowSafe(s.vmas, s.heapBase, newEnd)
  {
    var base, oldEnd := s.heapBase, HeapMappedEnd(s.vmas, s.heapBase);
    var keys := HeapKeys(s.vmas);
    assert keys != {} ==> Least(keys) == base;
    forall k | k in s.vmas && k != base
      ensures s.vmas[k].end <= base || newEnd <= k
    {
      assert WellPlaced(s.vmas[k], k, s.spaceEnd);
      assert !s.vmas[k].Overlaps(oldEnd, newEnd);
      if base in s.vmas {
        assert WellPlaced(s.vmas[base], base, s.spaceEnd);
      }
    }
  }

  /** A heap cut in two no longer grows safely: the second piece lies inside every longer heap. */
  lemma CutHeapIsUnsafe(vmas: VmaMap, base: nat, cut: nat, newEnd: nat)
    requires Keyed(vmas) && Disjoint(vmas) && base in vmas && vmas[base].start < cut < vmas[base].end < newEnd
    ensures !GrowSafe(SplitAt(vmas, cut), base, newEnd)
  {
    LookupFindsCover(vmas, cut);
    assert Covers(vmas, base, cut);
    var v := VmaContaining(vmas, cut).value;
    CoverUnique(vmas, v.start, base, cut);
    var split := SplitAt(vmas, cut);
    assert cut in split && split[cut].end == vmas[base].end;
  }

  /** Growing over another VMA destroys disjointness. */
  lemma UnsafeGrowthBreaks(before: VmaMap, after: VmaMap, base: nat, newEnd: nat, spaceEnd: nat)
    requires SameRanges(before, after) && base < newEnd
    requires (forall k :: k in before ==> WellPlaced(before[k], k, spaceEnd)) && !GrowSafe(before, base, newEnd)
    ensures forall w: Vma :: w.start == base && w.end == newEnd ==> !Disjoint(after[base := w])
  {
    var k :| k in before && k != base && base < before[k].end && k < newEnd;
    assert WellPlaced(before[k], k, spaceEnd);
    forall w: Vma | w.start == base && w.end == newEnd
      ensures !Disjoint(after[base := w])
    {
      var grown := after[base := w];
      assert base in grown && k in grown && grown[k].end == before[k].end && grown[base].end == newEnd;
    }
  }

  // What safe growth does

  /** Some allocation older than the heap's contains the whole grown heap, and will back it. */
  ghost predicate Undercut(s: State, newEnd: nat) {
    && s.heapBase in s.vmas && s.heapBase < newEnd
    && exists i :: i in s.allocations && i < s.vmas[s.heapBase].allocationId
                   && Contains(s.allocations[i], s.bytes, s.heapBase, newEnd - s.heapBase)
  }

  /** The addresses whose bytes growing the heap to `newEnd` may lose. */
  ghost function AtRisk(stale: iset<nat>, undercut: bool, base: nat, oldEnd: nat): iset<nat> {
    if undercut then stale + iset a: nat | Within(a, base, oldEnd) else stale
  }

  /** The outcome of a growth step: valid exactly when it was safe, and then the heap grew. */
  ghost predicate Grew(s: State, t: State, oldEnd: nat, newEnd: nat) {
    && (Inv(t) <==> GrowSafe(s.vmas, s.heapBase, newEnd))
    && (GrowSafe(s.vmas, s.heapBase, newEnd) ==>
          && Framed(s, t)
          && (forall a: nat :: s.heapBase <= a < newEnd ==> (a in View(s) <==> a < oldEnd))
          && Alike(GrowHeap(View(s), s.heapBase, newEnd), View(t),
                   AtRisk(Stale(s), Undercut(s, newEnd), s.heapBase, oldEnd))
          && (forall a: nat :: oldEnd <= a < newEnd ==> a in View(t) && View(t)[a].data == 0)
          && Allows(View(t), s.heapBase, newEnd, 3)
          && StalesNear(s, t, s.heapBase, newEnd))
  }

  /** What undercuts the heap depends on the allocations' ranges only. */
  lemma UndercutKept(s: State, t: State, newEnd: nat)
    requires SameContents(s.allocations, s.bytes, t.allocations, t.bytes) && t.vmas == s.vmas
             && t.heapBase == s.heapBase
    ensures Undercut(s, newEnd) <==> Undercut(t, newEnd)
  {
    if s.heapBase < newEnd {
      assert forall i :: i in s.allocations ==>
        Contains(s.allocations[i], s.bytes, s.heapBase, newEnd - s.heapBase) ==
            Contains(t.allocations[i], t.bytes, s.heapBase, newEnd - s.heapBase);
    }
  }

  /** With disjoint allocations nothing is at risk. */
  lemma DisjointNotUndercut(s: State, newEnd: nat)
    requires Inv(s) && AllocationsDisjoint(s.allocations, s.bytes)
    ensures !Undercut(s, newEnd)
  {
    hide Inv;
    if s.heapBase in s.vmas && s.heapBase < newEnd {
      BackedVma(s, s.heapBase);
      var v := s.vmas[s.heapBase];
      assert AllocationCovers(s.allocations[v.allocationId], s.bytes, s.heapBase);
      assert forall i :: i in s.allocations && Contains(s.allocations[i], s.bytes, s.heapBase, newEnd - s.heapBase) ==>
        AllocationCovers(s.allocations[i], s.bytes, s.heapBase);
    }
  }

  /** Nothing of [oldEnd, newEnd) is mapped before a safe growth. */
  lemma SafeGrowthIsFree(s: State, newEnd: nat)
    requires Inv(s) && GrowSafe(s.vmas, s.heapBase, newEnd)
    requires HeapMappedEnd(s.vmas, s.heapBase) < newEnd
             && !GrowthBlocked(s.vmas, HeapMappedEnd(s.vmas, s.heapBase), newEnd)
    ensures !Overlapping(s.vmas, HeapMappedEnd(s.vmas, s.heapBase), newEnd)
    ensures forall a: nat :: s.heapBase <= a < newEnd ==>
              (a in View(s) <==> a < HeapMappedEnd(s.vmas, s.heapBase))
  {
    var base, oldEnd := s.heapBase, HeapMappedEnd(s.vmas, s.heapBase);
    SafeHeapShape(s, newEnd);
    forall k | k in s.vmas
      ensures !s.vmas[k].Overlaps(oldEnd, newEnd)
    {
      assert WellPlaced(s.vmas[k], k, s.spaceEnd);
    }
    FreeIsUnmapped(s, oldEnd, newEnd);
    forall a: nat | base <= a < oldEnd
      ensures a in View(s)
    {
      VmaView(s, base, a);
    }
  }

  /** The grown VMA's place. */
  function HeapVma(base: nat, newEnd: nat, id: nat, offset: nat): Vma {
    Vma(base, newEnd, HEAP_PROTECTION, Heap, id, offset)
  }

  /** A growth step in progress: backing prepared in `ready`, the new part zeroed in `zeroed`. */
  ghost predicate Growing(s: State, ready: State, zeroed: State, id: nat, offset: nat, oldEnd: nat, newEnd: nat) {
    && Inv(s) && Inv(zeroed) && HostOk(zeroed) && Framed(s, zeroed)
    && oldEnd == HeapMappedEnd(s.vmas, s.heapBase) && oldEnd < newEnd <= s.spaceEnd && IsPageAligned(newEnd)
    && MIN_GUEST_ADDRESS <= s.heapBase && IsPageAligned(s.heapBase)
    && !GrowthBlocked(s.vmas, oldEnd, newEnd)
    && Prepared(s, ready, id, offset, s.heapBase, newEnd - s.heapBase)
    && Zeroed(ready, zeroed, id, offset + (oldEnd - s.heapBase), newEnd - oldEnd)
    && (Unused(ready, id, offset + (oldEnd - s.heapBase), newEnd - oldEnd) ==> View(zeroed) == View(ready))
    && Stale(zeroed) <= Stale(ready)
  }

  ghost function Grown(zeroed: State, base: nat, newEnd: nat, id: nat, offset: nat): State {
    zeroed.(vmas := zeroed.vmas[base := HeapVma(base, newEnd, id, offset)])
  }

  lemma GrowthOutcome(s: State, ready: State, zeroed: State, id: nat, offset: nat, oldEnd: nat, newEnd: nat)
    requires Growing(s, ready, zeroed, id, offset, oldEnd, newEnd)
    ensures Grew(s, Grown(zeroed, s.heapBase, newEnd, id, offset), oldEnd, newEnd)
  {
    if GrowSafe(s.vmas, s.heapBase, newEnd) {
      SafeGrowth(s, ready, zeroed, id, offset, oldEnd, newEnd);
    } else {
      hide Framed, View, Backed, Stocked;
      UnsafeGrowthBreaks(s.vmas, zeroed.vmas, s.heapBase, newEnd, s.spaceEnd);
    }
  }

  /** What the preparation of a safe growth leaves: the same ranges, and nothing in the part to be zeroed. */
  lemma SafeGrowthRanges(s: State, ready: State, id: nat, offset: nat, newEnd: nat)
    requires HeapMappedEnd(s.vmas, s.heapBase) < newEnd
    requires Inv(s) && GrowSafe(s.vmas, s.heapBase, newEnd)
             && Prepared(s, ready, id, offset, s.heapBase, newEnd - s.heapBase)
    requires !GrowthBlocked(s.vmas, HeapMappedEnd(s.vmas, s.heapBase), newEnd)
    ensures SameRanges(s.vmas, ready.vmas)
    ensures var oldEnd := HeapMappedEnd(s.vmas, s.heapBase);
            && Unused(ready, id, offset + (oldEnd - s.heapBase), newEnd - oldEnd)
            && (if s.heapBase in s.vmas then s.vmas[s.heapBase].end == oldEnd else oldEnd == s.heapBase)
            && Provides(ready, id, offset, s.heapBase, newEnd - s.heapBase)
  {
    hide Inv, View, Framed, Prepared, WellFormed, HeapMappedEnd, GrowthBlocked, SlotAt;
    var oldEnd := HeapMappedEnd(s.vmas, s.heapBase);
    SafeHeapShape(s, newEnd);
    InvWellFormed(s);
    PreparedParts(s, ready, id, offset, s.heapBase, newEnd - s.heapBase);
    SameRangesWellFormed(s.vmas, ready.vmas, s.spaceEnd);
    assert !Overlapping(ready.vmas, oldEnd, newEnd) by {
      SafeIsFree(s.vmas, s.spaceEnd, s.heapBase, oldEnd, newEnd);
    }
    FreeIsUnmapped(ready, oldEnd, newEnd);
  }

  lemma SafeIsFree(vmas: VmaMap, spaceEnd: nat, base: nat, oldEnd: nat, newEnd: nat)
    requires WellFormed(vmas, spaceEnd) && GrowSafe(vmas, base, newEnd) && base <= oldEnd
    requires if base in vmas then vmas[base].end == oldEnd else oldEnd == base
    ensures !Overlapping(vmas, oldEnd, newEnd)
  {}

  /** Growth step by step, when it is safe: the view before placing the VMA is the old one, up to merging. */
  lemma SafeGrowthReady(s: State, ready: State, zeroed: State, id: nat, offset: nat, oldEnd: nat, newEnd: nat)
    requires Growing(s, ready, zeroed, id, offset, oldEnd, newEnd) && GrowSafe(s.vmas, s.heapBase, newEnd)
    ensures CanPlace(zeroed, HeapVma(s.heapBase, newEnd, id, offset))
    ensures View(zeroed) == View(ready)
    ensures s.heapBase < oldEnd ==> s.heapBase in ready.vmas && ready.vmas[s.heapBase].end == oldEnd
    ensures forall a: nat :: s.heapBase <= a < newEnd ==> (a in View(s) <==> a < oldEnd)
  {
    hide Inv, View, Framed, WellFormed, Prepared, HeapMappedEnd, GrowthBlocked, Unused;
    SafeGrowthIsFree(s, newEnd);
    SafeGrowthRanges(s, ready, id, offset, newEnd);
    ZeroedTail(ready, zeroed, id, offset, s.heapBase, oldEnd, newEnd);
    FramedSpace(s, zeroed);
  }

  /** Zeroing the tail of the backing leaves its head alone. */
  lemma ZeroedTail(s: State, t: State, id: nat, offset: nat, base: nat, oldEnd: nat, newEnd: nat)
    requires base <= oldEnd < newEnd && Provides(s, id, offset, base, newEnd - base)
    requires Zeroed(s, t, id, offset + (oldEnd - base), newEnd - oldEnd)
    ensures Provides(t, id, offset, base, newEnd - base)
    ensures var heap := Behind(t, id, offset, newEnd - base);
            |heap| == newEnd - base && forall i :: 0 <= i < |heap| ==>
              heap[i] == if oldEnd <= base + i then 0 else s.bytes[s.allocations[id].memory][offset + i]
  {
    var buffer := t.bytes[t.allocations[id].memory];
    var heap := Behind(t, id, offset, newEnd - base);
    assert forall i :: 0 <= i < |heap| ==> heap[i] == buffer[offset + i];
  }

  /** Unless an older allocation undercuts it, the heap VMA uses the allocation found for the grown heap. */
  lemma HeapBacking(s: State, ready: State, id: nat, offset: nat, newEnd: nat, a: nat)
    requires s.heapBase in s.vmas && s.vmas[s.heapBase].Contains(a) && s.heapBase <= a < newEnd && a !in Stale(s)
    requires Inv(s) && Prepared(s, ready, id, offset, s.heapBase, newEnd - s.heapBase) && !Undercut(s, newEnd)
    ensures s.heapBase in ready.vmas && ready.vmas[s.heapBase].allocationId == id
  {
    hide View, Framed, StalesNear, Alike, AllocationsDisjoint;
    PreparedParts(s, ready, id, offset, s.heapBase, newEnd - s.heapBase);
    if ready == s {
      var v := s.vmas[s.heapBase];
      SlotIs(s.vmas, s.heapBase, a);
      assert AllocationCovers(s.allocations[id], s.bytes, a);
      BackedVma(s, s.heapBase);
      assert NewestAt(s.vmas, s.allocations, s.bytes, a);
      assert Contains(s.allocations[id], s.bytes, s.heapBase, newEnd - s.heapBase);
    }
  }

  /** Then the byte behind each heap address is the one the guest reads. */
  lemma HeapByteKept(ready: State, id: nat, offset: nat, base: nat, newEnd: nat, a: nat)
    requires base in ready.vmas && ready.vmas[base].Contains(a) && ready.vmas[base].allocationId == id && a < newEnd
    requires Inv(ready) && base <= a && Provides(ready, id, offset, base, newEnd - base)
    ensures a in View(ready) && View(ready)[a].data == ready.bytes[ready.allocations[id].memory][offset + (a - base)]
  {
    hide Inv, View;
    BackedVma(ready, base);
    VmaView(ready, base, a);
  }

  /** What backs the old part of the heap is what the guest reads there, where nothing is at risk. */
  lemma HeapKept(s: State, ready: State, zeroed: State, id: nat, offset: nat, oldEnd: nat, newEnd: nat, a: nat)
    requires Growing(s, ready, zeroed, id, offset, oldEnd, newEnd) && GrowSafe(s.vmas, s.heapBase, newEnd)
    requires s.heapBase <= a < oldEnd && a !in AtRisk(Stale(s), Undercut(s, newEnd), s.heapBase, oldEnd)
    ensures a in View(s) && View(s)[a].data == ready.bytes[ready.allocations[id].memory][offset + (a - s.heapBase)]
  {
    hide Inv, View, Framed, Stale, Undercut, HeapMappedEnd, GrowthBlocked, AllocationsDisjoint, Zeroed, Unused;
    SafeGrowthReady(s, ready, zeroed, id, offset, oldEnd, newEnd);
    SafeGrowthRanges(s, ready, id, offset, newEnd);
    BackedVma(s, s.heapBase);
    HeapBacking(s, ready, id, offset, newEnd, a);
    HeapByteKept(ready, id, offset, s.heapBase, newEnd, a);
  }

  lemma SafeGrowth(s: State, ready: State, zeroed: State, id: nat, offset: nat, oldEnd: nat, newEnd: nat)
    requires Growing(s, ready, zeroed, id, offset, oldEnd, newEnd) && GrowSafe(s.vmas, s.heapBase, newEnd)
    ensures Grew(s, Grown(zeroed, s.heapBase, newEnd, id, offset), oldEnd, newEnd)
  {
    hide Inv, View, Framed, Prepared, AllocationsDisjoint, CanPlace, Zeroed, Unused, HeapMappedEnd, GrowthBlocked;
    hide Behind;
    hide Stale, Undercut, AtRisk, Alike, GrowHeap, StalesNear, Span, Allows;
    var base := s.heapBase;
    var t := Grown(zeroed, base, newEnd, id, offset);
    SafeGrowthReady(s, ready, zeroed, id, offset, oldEnd, newEnd);
    PlacedView(zeroed, HeapVma(base, newEnd, id, offset));
    PlacedFramed(zeroed, HeapVma(base, newEnd, id, offset));
    PlacedStales(zeroed, HeapVma(base, newEnd, id, offset));
    FramedTransitive(s, zeroed, t);
    PreparedParts(s, ready, id, offset, base, newEnd - base);
    StalesPlaced(s, ready, zeroed, t, base, newEnd);
    ZeroedTail(ready, zeroed, id, offset, base, oldEnd, newEnd);
    var heap := Behind(zeroed, id, offset, newEnd - base);
    var risk := AtRisk(Stale(s), Undercut(s, newEnd), base, oldEnd);
    forall i | 0 <= i < oldEnd - base && base + i !in risk
      ensures base + i in View(s) && heap[i] == View(s)[base + i].data
    {
      HeapKept(s, ready, zeroed, id, offset, oldEnd, newEnd, base + i);
    }
    RiskGrows(Stale(s), Undercut(s, newEnd), base, oldEnd);
    GrownPicture(View(s), View(ready), View(t), heap, base, oldEnd, newEnd, Stale(s), risk);
  }

  lemma RiskGrows(stale: iset<nat>, undercut: bool, base: nat, oldEnd: nat)
    ensures stale <= AtRisk(stale, undercut, base, oldEnd)
  {
  }

  lemma HeapAllows(flat: FlatMap, base: nat, heap: seq<Byte>)
    ensures Allows(MapBytes(flat, base, heap, HEAP_PROTECTION, Heap), base, base + |heap|, 3)
  {
  }

  /** Reading the outcome off the picture: mapping `heap` at the base is growing the heap. */
  lemma GrownPicture(flat: FlatMap, ready: FlatMap, grown: FlatMap, heap: seq<Byte>, base: nat, oldEnd: nat,
                     newEnd: nat,
                     stale: iset<nat>, risk: iset<nat>)
    requires base <= oldEnd < newEnd && |heap| == newEnd - base && stale <= risk
    requires Alike(flat, ready, stale) && grown == MapBytes(ready, base, heap, HEAP_PROTECTION, Heap)
    requires forall a: nat :: base <= a < newEnd ==> (a in flat <==> a < oldEnd)
    requires forall i :: 0 <= i < |heap| && oldEnd <= base + i ==> heap[i] == 0
    requires forall i :: 0 <= i < oldEnd - base && base + i !in risk ==>
             base + i in flat && heap[i] == flat[base + i].data
    ensures Alike(GrowHeap(flat, base, newEnd), grown, risk)
    ensures forall a: nat :: oldEnd <= a < newEnd ==> a in grown && grown[a].data == 0
    ensures Allows(grown, base, newEnd, 3)
  {
    HeapAllows(ready, base, heap);
    hide Allows;
    var full := GrowHeap(flat, base, newEnd);
    assert SameShape(full, grown);
    forall a: nat | a in full && a !in risk
      ensures grown[a] == full[a]
    {
      if base <= a < newEnd {
        var i := a - base;
        assert grown[a].data == heap[i];
      }
    }
  }

  // What shrinking does

  function WithoutHeapFrom(vmas: VmaMap, newEnd: nat): VmaMap {
    map k | k in vmas && !(vmas[k].kind.Heap? && newEnd <= k) :: vmas[k]
  }

  lemma WithoutHeapSlot(vmas: VmaMap, spaceEnd: nat, newEnd: nat, a: nat)
    requires WellFormed(vmas, spaceEnd)
    requires forall k :: k in vmas && vmas[k].kind.Heap? ==> !(vmas[k].start < newEnd < vmas[k].end)
    ensures WellFormed(WithoutHeapFrom(vmas, newEnd), spaceEnd) && Carries(vmas, WithoutHeapFrom(vmas, newEnd))
    ensures SlotAt(WithoutHeapFrom(vmas, newEnd), a) ==
            if SlotAt(vmas, a).Some? && SlotAt(vmas, a).value.kind.Heap? && newEnd <= a then None else SlotAt(vmas, a)
  {
    var rest := WithoutHeapFrom(vmas, newEnd);
    if Mapped(vmas, a) {
      var k := KeyAt(vmas, a);
      if k in rest {
        assert Covers(rest, k, a);
        SlotIs(rest, k, a);
      } else {
        forall l: nat
          ensures !Covers(rest, l, a)
        {
          if Covers(rest, l, a) {
            assert Covers(vmas, l, a);
            CoverUnique(vmas, k, l, a);
          }
        }
      }
    } else {
      assert forall l: nat :: Covers(rest, l, a) ==> Covers(vmas, l, a);
    }
  }

  lemma ShrunkView(s: State, newEnd: nat)
    requires Inv(s) && HostOk(s)
    requires forall k :: k in s.vmas && s.vmas[k].kind.Heap? ==> !(s.vmas[k].start < newEnd < s.vmas[k].end)
    ensures var t := s.(vmas := WithoutHeapFrom(s.vmas, newEnd));
            Inv(t) && Framed(s, t) && View(t) == ShrinkHeap(View(s), newEnd) && Stale(t) <= Stale(s)
  {
    hide WellFormed, SlotAt, Live, Owned, KeepsAlignment, WithoutHeapFrom;
    var vmas := WithoutHeapFrom(s.vmas, newEnd);
    WithoutHeapSlot(s.vmas, s.spaceEnd, newEnd, 0);
    forall a: nat
      ensures SlotAt(vmas, a) == if SlotAt(s.vmas, a).Some? && SlotAt(s.vmas, a).value.kind.Heap? && newEnd <= a
                                 then None else SlotAt(s.vmas, a)
    {
      WithoutHeapSlot(s.vmas, s.spaceEnd, newEnd, a);
    }
    VmaStepFramed(s, vmas);
  }

  // Where the heap is afterwards

  /** The heap is exactly [base, end). */
  ghost predicate HeapIs(flat: FlatMap, base: nat, end: nat) {
    forall a: nat :: (a in flat && flat[a].kind.Heap?) <==> base <= a < end
  }

  /** What a successful break move to the rounded end `newEnd` does, by direction. */
  ghost predicate MovedBreak(s: State, t: State, newEnd: nat) {
    var oldEnd := HeapMappedEnd(s.vmas, s.heapBase);
    if newEnd < oldEnd then Inv(t) && Framed(s, t) && View(t) == ShrinkHeap(View(s), newEnd) && Stale(t) <= Stale(s)
    else if newEnd == oldEnd then t == s
    else !GrowthBlocked(s.vmas, oldEnd, newEnd) && Grew(s, t, oldEnd, newEnd)
  }

  /** Below the end of the first piece that piece must begin at the base; otherwise it must be the only one. */
  predicate HeapFits(vmas: VmaMap, base: nat, newEnd: nat) {
    if newEnd < HeapMappedEnd(vmas, base) then newEnd == base || (base in vmas && vmas[base].kind.Heap?)
    else forall k :: k in vmas && vmas[k].kind.Heap? ==> k == base
  }

  lemma HeapCell(s: State, a: nat)
    requires Inv(s)
    ensures (a in View(s) && View(s)[a].kind.Heap?) <==> exists k :: Covers(s.vmas, k, a) && s.vmas[k].kind.Heap?
  {
    if Mapped(s.vmas, a) {
      var k := KeyAt(s.vmas, a);
      forall l | Covers(s.vmas, l, a)
        ensures l == k
      {
        CoverUnique(s.vmas, k, l, a);
      }
    }
  }

  /** The heap's pieces start at or above the base; below the end of the first there is only the first. */
  lemma FirstPiece(s: State, a: nat)
    requires Inv(s) && a < HeapMappedEnd(s.vmas, s.heapBase)
    ensures s.heapBase <= a ==> HeapKeys(s.vmas) != {}
    ensures (a in View(s) && View(s)[a].kind.Heap?) <==> HeapKeys(s.vmas) != {} && Least(HeapKeys(s.vmas)) <= a
  {
    HeapCell(s, a);
    var keys := HeapKeys(s.vmas);
    if keys != {} {
      var first := Least(keys);
      assert WellPlaced(s.vmas[first], first, s.spaceEnd);
      forall k | Covers(s.vmas, k, a) && s.vmas[k].kind.Heap?
        ensures k == first
      {
        assert k in keys;
      }
      assert first <= a ==> Covers(s.vmas, first, a);
    }
  }

  /** Where the heap's first piece ends, read off the flat memory; the base if there is no heap. */
  ghost predicate FirstPieceEnds(flat: FlatMap, base: nat, end: nat) {
    || (end == base && forall a: nat :: a in flat ==> !flat[a].kind.Heap?)
    || exists first: nat :: base <= first < end && PieceFrom(flat, first, end)
  }

  /** Below `end` exactly the addresses from `first` on are heap. */
  ghost predicate PieceFrom(flat: FlatMap, first: nat, end: nat) {
    forall a: nat :: a < end ==> ((a in flat && flat[a].kind.Heap?) <==> first <= a)
  }

  lemma MappedEndShown(s: State)
    requires Inv(s)
    ensures FirstPieceEnds(View(s), s.heapBase, HeapMappedEnd(s.vmas, s.heapBase))
  {
    hide Inv, View;
    var keys, end := HeapKeys(s.vmas), HeapMappedEnd(s.vmas, s.heapBase);
    if keys == {} {
      forall a: nat
        ensures !(a in View(s) && View(s)[a].kind.Heap?)
      {
        HeapCell(s, a);
        assert forall k :: Covers(s.vmas, k, a) && s.vmas[k].kind.Heap? ==> k in keys;
      }
    } else {
      var first := Least(keys);
      BackedVma(s, first);
      HeapStartsAbove(s);
      forall a: nat | a < end
        ensures (a in View(s) && View(s)[a].kind.Heap?) <==> first <= a
      {
        FirstPiece(s, a);
      }
      assert PieceFrom(View(s), first, end);
    }
  }

  /** The first piece begins at the base exactly when the base is a heap VMA's. */
  lemma FirstAtBase(s: State)
    requires Inv(s) && HeapKeys(s.vmas) != {}
    ensures s.heapBase <= Least(HeapKeys(s.vmas))
    ensures Least(HeapKeys(s.vmas)) == s.heapBase <==> s.heapBase in s.vmas && s.vmas[s.heapBase].kind.Heap?
  {
    var first: nat := Least(HeapKeys(s.vmas));
    assert WellPlaced(s.vmas[first], first, s.spaceEnd);
    assert s.heapBase in HeapKeys(s.vmas) ==> first <= s.heapBase;
  }

  /** A successful move of the break leaves exactly [base, newEnd) as heap if and only if the pieces allow it. */
  lemma BreakIsExact(s: State, t: State, newEnd: nat)
    requires Inv(s) && s.heapBase <= newEnd && MovedBreak(s, t, newEnd)
    ensures (Inv(t) && HeapIs(View(t), s.heapBase, newEnd)) <==> HeapFits(s.vmas, s.heapBase, newEnd)
  {
    var oldEnd := HeapMappedEnd(s.vmas, s.heapBase);
    if newEnd < oldEnd {
      ShrunkExact(s, t, newEnd);
    } else if newEnd == oldEnd {
      StayedExact(s);
    } else {
      GrownExact(s, t, newEnd);
    }
  }

  lemma ShrunkExact(s: State, t: State, newEnd: nat)
    requires Inv(s) && s.heapBase <= newEnd < HeapMappedEnd(s.vmas, s.heapBase)
             && View(t) == ShrinkHeap(View(s), newEnd)
    ensures HeapIs(View(t), s.heapBase, newEnd) <==> newEnd == s.heapBase
                                                     || (s.heapBase in s.vmas && s.vmas[s.heapBase].kind.Heap?)
  {
    hide Inv, View, HeapMappedEnd;
    FirstPiece(s, newEnd);
    FirstAtBase(s);
    forall a: nat | a < newEnd
      ensures (a in View(t) && View(t)[a].kind.Heap?) <==> Least(HeapKeys(s.vmas)) <= a
    {
      FirstPiece(s, a);
    }
    if s.heapBase < newEnd {
      FirstPiece(s, s.heapBase);
      assert (s.heapBase in View(t) && View(t)[s.heapBase].kind.Heap?) <==> Least(HeapKeys(s.vmas)) <= s.heapBase;
    }
  }

  lemma StayedExact(s: State)
    requires Inv(s)
    ensures HeapIs(View(s), s.heapBase, HeapMappedEnd(s.vmas, s.heapBase)) <==> SingleHeap(s.vmas, s.heapBase)
  {
    var base, end := s.heapBase, HeapMappedEnd(s.vmas, s.heapBase);
    if SingleHeap(s.vmas, base) {
      SingleHeapIs(s);
    } else {
      var k :| k in s.vmas && s.vmas[k].kind.Heap? && k != base;
      assert WellPlaced(s.vmas[k], k, s.spaceEnd);
      assert Covers(s.vmas, k, k);
      HeapCell(s, k);
      if HeapIs(View(s), base, end) {
        FirstPiece(s, k);
        FirstPiece(s, base);
        FirstAtBase(s);
        SecondPiece(s, k);
      }
    }
  }

  /** No two pieces below the end of the first. */
  lemma SecondPiece(s: State, k: nat)
    requires Inv(s) && k in HeapKeys(s.vmas) && Least(HeapKeys(s.vmas)) == s.heapBase
             && k < HeapMappedEnd(s.vmas, s.heapBase)
    ensures k == s.heapBase
  {
    var first: nat := Least(HeapKeys(s.vmas));
    assert WellPlaced(s.vmas[first], first, s.spaceEnd);
  }

  /** A heap in one piece reaches from the base to the mapped end. */
  lemma SingleHeapIs(s: State)
    requires Inv(s) && SingleHeap(s.vmas, s.heapBase)
    ensures HeapIs(View(s), s.heapBase, HeapMappedEnd(s.vmas, s.heapBase))
  {
    var base, end := s.heapBase, HeapMappedEnd(s.vmas, s.heapBase);
    var keys := HeapKeys(s.vmas);
    assert keys != {} ==> Least(keys) == base && WellPlaced(s.vmas[base], base, s.spaceEnd) && s.vmas[base].end == end;
    forall a: nat
      ensures (a in View(s) && View(s)[a].kind.Heap?) <==> base <= a < end
    {
      HeapCell(s, a);
      if keys == {} {
        assert forall k :: k in s.vmas && s.vmas[k].kind.Heap? ==> k in keys;
      } else {
        assert base in keys;
        assert Covers(s.vmas, base, a) <==> base <= a < end;
      }
    }
  }

  lemma GrownExact(s: State, t: State, newEnd: nat)
    requires Inv(s) && HeapMappedEnd(s.vmas, s.heapBase) < newEnd
    requires !GrowthBlocked(s.vmas, HeapMappedEnd(s.vmas, s.heapBase), newEnd)
             && Grew(s, t, HeapMappedEnd(s.vmas, s.heapBase), newEnd)
    ensures (Inv(t) && HeapIs(View(t), s.heapBase, newEnd)) <==> SingleHeap(s.vmas, s.heapBase)
  {
    hide Inv, View, Framed, HeapMappedEnd, GrowthBlocked, GrowHeap, SameShape;
    var base := s.heapBase;
    if SingleHeap(s.vmas, base) {
      SingleHeapIsSafe(s, newEnd);
      SingleHeapIs(s);
      GrownHeap(View(s), View(t), base, newEnd);
    } else if GrowSafe(s.vmas, base, newEnd) {
      GrownHeap(View(s), View(t), base, newEnd);
      HigherPiece(s, newEnd);
    }
  }

  lemma GrownHeap(flat: FlatMap, grown: FlatMap, base: nat, newEnd: nat)
    requires SameShape(GrowHeap(flat, base, newEnd), grown)
    ensures forall a: nat :: (a in grown && grown[a].kind.Heap?) <==> base <= a < newEnd
                                                                      || (a in flat && flat[a].kind.Heap?)
  {
  }

  /** Growth is safe with more than one piece only when the others lie above the new end. */
  lemma HigherPiece(s: State, newEnd: nat)
    requires Inv(s) && GrowSafe(s.vmas, s.heapBase, newEnd) && !SingleHeap(s.vmas, s.heapBase)
    ensures exists a: nat :: newEnd <= a && a in View(s) && View(s)[a].kind.Heap?
  {
    var k :| k in s.vmas && s.vmas[k].kind.Heap? && k != s.heapBase;
    assert WellPlaced(s.vmas[k], k, s.spaceEnd);
    assert Covers(s.vmas, k, k);
    HeapCell(s, k);
  }

  /** A heap in one piece goes exactly where the break says, up or down. */
  lemma SingleHeapFits(s: State, newEnd: nat)
    requires Inv(s) && SingleHeap(s.vmas, s.heapBase) && s.heapBase <= newEnd
    ensures HeapFits(s.vmas, s.heapBase, newEnd)
  {
    if newEnd < HeapMappedEnd(s.vmas, s.heapBase) {
      FirstPiece(s, newEnd);
      var first: nat := Least(HeapKeys(s.vmas));
    }
  }

  /** A heap cut where the break is moved to: the call succeeds, and the second piece stays mapped. */
  lemma CutHeapStaysMapped()
    ensures var vmas := map[0x10000 := Vma(0x10000, 0x11000, HEAP_PROTECTION, Heap, 1, 0),
                            0x11000 := Vma(0x11000, 0x13000, HEAP_PROTECTION, Heap, 2, 0)];
            && HeapMappedEnd(vmas, 0x10000) == 0x11000 && GrowSafe(vmas, 0x10000, 0x11000)
            && !HeapFits(vmas, 0x10000, 0x11000) && Covers(vmas, 0x11000, 0x12000)
  {
    var vmas := map[0x10000 := Vma(0x10000, 0x11000, HEAP_PROTECTION, Heap, 1, 0),
                    0x11000 := Vma(0x11000, 0x13000, HEAP_PROTECTION, Heap, 2, 0)];
    assert HeapKeys(vmas) == {0x10000, 0x11000};
  }

  /** A heap in one piece ends where the flat memory shows its end. */
  lemma SingleHeapEnd(s: State, end: nat)
    requires Inv(s) && SingleHeap(s.vmas, s.heapBase) && HeapIs(View(s), s.heapBase, end) && s.heapBase <= end
    ensures HeapMappedEnd(s.vmas, s.heapBase) == end
  {
    hide Inv, View, SingleHeap, HeapMappedEnd;
    SingleHeapIs(s);
    var mapped := HeapMappedEnd(s.vmas, s.heapBase);
    assert (mapped in View(s) && View(s)[mapped].kind.Heap?) == (s.heapBase <= mapped < end);
    assert (end in View(s) && View(s)[end].kind.Heap?) == (s.heapBase <= end < mapped);
  }

  /** A move that does not break the heap keeps a member that shares nothing that way. */
  lemma MovedPrivate(s: State, t: State, newEnd: nat)
    requires MovedBreak(s, t, newEnd)
             && (HeapMappedEnd(s.vmas, s.heapBase) < newEnd ==> GrowSafe(s.vmas, s.heapBase, newEnd))
    ensures Private(s) ==> Private(t)
    ensures HeapMappedEnd(s.vmas, s.heapBase) < newEnd ==> Inv(t)
  {
    hide Inv, Private, View, HeapMappedEnd, GrowSafe, GrowthBlocked;
    if Private(s) && newEnd != HeapMappedEnd(s.vmas, s.heapBase) {
      FramedPrivate(s, t);
    }
  }

  // One piece stays one piece

  lemma SameRangesSingle(before: VmaMap, after: VmaMap, base: nat, w: Vma)
    requires SameRanges(before, after) && SingleHeap(before, base)
    ensures SingleHeap(after, base) && SingleHeap(after[base := w], base)
  {
  }

  lemma ShrunkSingle(vmas: VmaMap, base: nat, newEnd: nat)
    requires SingleHeap(vmas, base) && Keyed(vmas)
    ensures SingleHeap(WithoutHeapFrom(SplitAt(vmas, newEnd), newEnd), base)
    ensures SingleHeap(WithoutHeapFrom(vmas, newEnd), base)
  {
    hide VmaContaining;
    var found := VmaContaining(vmas, newEnd);
    if found.Some? {
      assert found.value.start in vmas && vmas[found.value.start] == found.value;
    }
  }
}
