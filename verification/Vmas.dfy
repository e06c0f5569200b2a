/**
 The VMA map: guest ranges keyed by their start address, with the lookups, splits and merges the
 memory manager performs on it. Nothing here touches bytes; `SameSlots` says that two maps send
 every guest address to the same protection, kind and host position.
 */
module Vmas {
  import opened Ranges
  import opened OrderedKeys

  datatype Protection = Protection(read: bool, write: bool, execute: bool)

  datatype VmaKind =
    | Anonymous
    | Heap
    | FileBacked(fd: int, offset: int, sharedMapping: bool)

  datatype Vma = Vma(
    start: nat,
    end: nat,
    protection: Protection,
    kind: VmaKind,
    allocationId: nat,
    allocationOffset: nat
  ) {
    predicate Contains(address: nat) {
      start <= address < end
    }

    predicate Overlaps(lo: nat, hi: nat) {
      start < hi && lo < end
    }
  }

  type VmaMap = map<nat, Vma>

  /** What the map says about one address, independent of how the address space is cut up. */
  datatype Slot = Slot(protection: Protection, kind: VmaKind, allocationId: nat, offset: nat)

  ghost predicate Covers(vmas: VmaMap, k: nat, a: nat) {
    k in vmas && vmas[k].Contains(a)
  }

  ghost predicate Mapped(vmas: VmaMap, a: nat) {
    exists k :: Covers(vmas, k, a)
  }

  function SlotOf(v: Vma, a: nat): Slot
    requires v.Contains(a)
  {
    Slot(v.protection, v.kind, v.allocationId, v.allocationOffset + (a - v.start))
  }

  /** Keyed by start, nonempty, inside the address space, pairwise disjoint. */
  ghost predicate WellFormed(vmas: VmaMap, spaceEnd: nat) {
    && (forall k :: k in vmas ==> WellPlaced(vmas[k], k, spaceEnd))
    && Disjoint(vmas)
  }

  predicate WellPlaced(v: Vma, k: nat, spaceEnd: nat) {
    v.start == k && MIN_GUEST_ADDRESS <= k < v.end <= spaceEnd
  }

  ghost predicate Disjoint(vmas: VmaMap) {
    forall k, l :: k in vmas && l in vmas && k < l ==> vmas[k].end <= l
  }

  ghost predicate StartsAligned(vmas: VmaMap) {
    forall k :: k in vmas ==> IsPageAligned(vmas[k].start)
  }

  ghost predicate EndsAligned(vmas: VmaMap) {
    forall k :: k in vmas ==> IsPageAligned(vmas[k].end)
  }

  /** No heap VMA starts below `base`. */
  ghost predicate HeapAbove(vmas: VmaMap, base: nat) {
    forall k :: k in vmas && vmas[k].kind.Heap? ==> base <= vmas[k].start
  }

  /** Page alignment carries over: for the starts, and for the ends if they had it. */
  ghost predicate KeepsAlignment(before: VmaMap, after: VmaMap) {
    && (StartsAligned(before) ==> StartsAligned(after))
    && (EndsAligned(before) ==> EndsAligned(after))
  }

  /** Alignment and every lower bound on the heap carry over. */
  ghost predicate Carries(before: VmaMap, after: VmaMap) {
    && KeepsAlignment(before, after)
    && forall base: nat :: HeapAbove(before, base) ==> HeapAbove(after, base)
  }

  ghost predicate Keyed(vmas: VmaMap) {
    forall k :: k in vmas ==> vmas[k].start == k
  }

  lemma CoverUnique(vmas: VmaMap, k: nat, l: nat, a: nat)
    requires Keyed(vmas) && Disjoint(vmas)
    requires Covers(vmas, k, a) && Covers(vmas, l, a)
    ensures k == l
  {
  }

  ghost function KeyAt(vmas: VmaMap, a: nat): (k: nat)
    requires Mapped(vmas, a)
    ensures Covers(vmas, k, a)
  {
    var k: nat :| Covers(vmas, k, a);
    k
  }

  ghost function SlotAt(vmas: VmaMap, a: nat): Option<Slot> {
    if Mapped(vmas, a) then Some(SlotOf(vmas[KeyAt(vmas, a)], a)) else None
  }

  lemma SlotIs(vmas: VmaMap, k: nat, a: nat)
    requires Keyed(vmas) && Disjoint(vmas)
    requires Covers(vmas, k, a)
    ensures SlotAt(vmas, a) == Some(SlotOf(vmas[k], a))
  {
    var l := KeyAt(vmas, a);
  }

  lemma SlotIn(vmas: VmaMap, spaceEnd: nat, k: nat, a: nat)
    requires WellFormed(vmas, spaceEnd) && Covers(vmas, k, a)
    ensures SlotAt(vmas, a) == Some(SlotOf(vmas[k], a))
  {
    SlotIs(vmas, k, a);
  }

  /** Both maps send every address to the same slot, however differently they cut it up. */
  ghost predicate SameSlots(left: VmaMap, right: VmaMap) {
    forall a: nat :: SlotAt(left, a) == SlotAt(right, a)
  }

  // Lookup

  /** The VMA with the greatest start not above `address`, if it reaches that far. */
  function VmaContaining(vmas: VmaMap, address: nat): (r: Option<Vma>)
    ensures r.Some? ==> r.value.Contains(address) && r.value in vmas.Values
  {
    var below := set k | k in vmas && k <= address;
    if below == {} then None
    else
      var v := vmas[Greatest(below)];
      if v.Contains(address) then Some(v) else None
  }

  lemma LookupFindsCover(vmas: VmaMap, address: nat)
    requires Keyed(vmas) && Disjoint(vmas)
    ensures VmaContaining(vmas, address).Some? <==> Mapped(vmas, address)
    ensures VmaContaining(vmas, address).Some? ==>
              var v := VmaContaining(vmas, address).value;
              Covers(vmas, v.start, address) && vmas[v.start] == v
  {
    var below := set l | l in vmas && l <= address;
    if Mapped(vmas, address) {
      var k := KeyAt(vmas, address);
      assert k in below;
      assert Greatest(below) == k;
    } else if below != {} {
      var g := Greatest(below);
      assert !Covers(vmas, g, address);
    }
  }

  predicate Overlapping(vmas: VmaMap, lo: nat, hi: nat) {
    exists k :: k in vmas && vmas[k].Overlaps(lo, hi)
  }

  // Splitting

  ghost predicate NoStraddle(vmas: VmaMap, address: nat) {
    forall k :: k in vmas ==> !(vmas[k].start < address < vmas[k].end)
  }

  function SplitAt(vmas: VmaMap, address: nat): VmaMap {
    var found := VmaContaining(vmas, address);
    if found.None? || address == found.value.start then vmas else Cut(vmas, found.value, address)
  }

  function Cut(vmas: VmaMap, v: Vma, address: nat): VmaMap
    requires v.start < address
  {
    vmas[v.start := v.(end := address)]
        [address := v.(start := address, allocationOffset := v.allocationOffset + (address - v.start))]
  }

  lemma SplitKeepsSlots(vmas: VmaMap, spaceEnd: nat, address: nat)
    requires WellFormed(vmas, spaceEnd)
    ensures WellFormed(SplitAt(vmas, address), spaceEnd)
    ensures SameSlots(vmas, SplitAt(vmas, address))
    ensures NoStraddle(SplitAt(vmas, address), address)
    ensures KeepsCuts(vmas, SplitAt(vmas, address))
  {
    LookupFindsCover(vmas, address);
    var found := VmaContaining(vmas, address);
    if found.Some? && address != found.value.start {
      CutWellFormed(vmas, spaceEnd, found.value, address);
      CutStraddles(vmas, found.value, address);
      CutSlots(vmas, spaceEnd, found.value, address);
    } else if found.Some? {
      StartNotStraddled(vmas, address);
    } else {
      assert forall k :: k in vmas ==> !Covers(vmas, k, address);
    }
  }

  lemma SplitKeepsAlignment(vmas: VmaMap, address: nat)
    requires Keyed(vmas) && Disjoint(vmas) && IsPageAligned(address)
    ensures Carries(vmas, SplitAt(vmas, address))
  {
    LookupFindsCover(vmas, address);
  }

  lemma StartNotStraddled(vmas: VmaMap, address: nat)
    requires Keyed(vmas) && Disjoint(vmas) && address in vmas
    ensures NoStraddle(vmas, address)
  {
  }

  lemma CutWellFormed(vmas: VmaMap, spaceEnd: nat, v: Vma, address: nat)
    requires WellFormed(vmas, spaceEnd)
    requires v.start in vmas && vmas[v.start] == v && v.start < address < v.end
    ensures WellFormed(Cut(vmas, v, address), spaceEnd)
  {
    var cut := Cut(vmas, v, address);
    forall k, l | k in cut && l in cut && k < l
      ensures cut[k].end <= l
    {
      if l == address && k != v.start {
        assert k in vmas && vmas[k].end <= v.start;
      }
    }
  }

  lemma CutStraddles(vmas: VmaMap, v: Vma, address: nat)
    requires Keyed(vmas) && Disjoint(vmas)
    requires v.start in vmas && vmas[v.start] == v && v.start < address < v.end
    ensures NoStraddle(Cut(vmas, v, address), address)
    ensures KeepsCuts(vmas, Cut(vmas, v, address))
  {
    var cut := Cut(vmas, v, address);
    forall k | k in cut
      ensures !(cut[k].start < address < cut[k].end)
    {
      if k != v.start && k != address {
        assert k in vmas && cut[k] == vmas[k];
      }
    }
  }

  lemma CutSlots(vmas: VmaMap, spaceEnd: nat, v: Vma, address: nat)
    requires WellFormed(vmas, spaceEnd)
    requires v.start in vmas && vmas[v.start] == v && v.start < address < v.end
    ensures SameSlots(vmas, Cut(vmas, v, address))
  {
    CutWellFormed(vmas, spaceEnd, v, address);
    hide Disjoint, SlotAt, Cut;
    forall a: nat
      ensures SlotAt(vmas, a) == SlotAt(Cut(vmas, v, address), a)
    {
      CutSlotAt(vmas, v, address, a);
    }
  }

  lemma CutCovers(vmas: VmaMap, v: Vma, address: nat, k: nat, a: nat)
    requires Keyed(vmas) && Disjoint(vmas)
    requires v.start in vmas && vmas[v.start] == v && v.start < address < v.end && Covers(vmas, k, a)
    ensures var cut, l := Cut(vmas, v, address), if k == v.start && address <= a then address else k;
            Covers(cut, l, a) && SlotOf(cut[l], a) == SlotOf(vmas[k], a)
  {
    assert address !in vmas;
  }

  lemma CutSlotAt(vmas: VmaMap, v: Vma, address: nat, a: nat)
    requires v.start in vmas && vmas[v.start] == v && v.start < address < v.end
    requires Keyed(vmas) && Disjoint(vmas) && Keyed(Cut(vmas, v, address)) && Disjoint(Cut(vmas, v, address))
    ensures SlotAt(vmas, a) == SlotAt(Cut(vmas, v, address), a)
  {
    hide Disjoint;
    var cut := Cut(vmas, v, address);
    if Mapped(vmas, a) {
      var k := KeyAt(vmas, a);
      CutCovers(vmas, v, address, k, a);
      SlotIs(cut, if k == v.start && address <= a then address else k, a);
    } else {
      forall k: nat
        ensures !Covers(cut, k, a)
      {
        assert !Covers(vmas, if k == address then v.start else k, a);
      }
    }
  }

  // Removing a range

  function RemoveStarts(vmas: VmaMap, start: nat, end: nat): VmaMap {
    map k | k in vmas && !(start <= k < end) :: vmas[k]
  }

  /** Once no VMA straddles either bound, dropping the starts in [start, end) drops exactly those addresses. */
  lemma RemoveStartsIsExact(vmas: VmaMap, spaceEnd: nat, start: nat, end: nat)
    requires WellFormed(vmas, spaceEnd)
    requires NoStraddle(vmas, start) && NoStraddle(vmas, end) && start <= end
    ensures WellFormed(RemoveStarts(vmas, start, end), spaceEnd)
    ensures Carries(vmas, RemoveStarts(vmas, start, end))
    ensures forall a: nat :: SlotAt(RemoveStarts(vmas, start, end), a) == if start <= a < end then None
            else SlotAt(vmas, a)
  {
    var rest := RemoveStarts(vmas, start, end);
    forall a: nat
      ensures SlotAt(rest, a) == if start <= a < end then None else SlotAt(vmas, a)
    {
      if Mapped(rest, a) {
        var k := KeyAt(rest, a);
        SlotIs(vmas, k, a);
      } else if Mapped(vmas, a) {
        var k := KeyAt(vmas, a);
        assert !Covers(rest, k, a);
      }
    }
  }

  // Changing protections

  function Reprotected(vmas: VmaMap, start: nat, end: nat, protection: Protection): VmaMap {
    map k | k in vmas :: if start <= k < end then vmas[k].(protection := protection) else vmas[k]
  }

  lemma ReprotectedWellFormed(vmas: VmaMap, spaceEnd: nat, start: nat, end: nat, protection: Protection)
    requires WellFormed(vmas, spaceEnd)
    ensures WellFormed(Reprotected(vmas, start, end, protection), spaceEnd)
    ensures Carries(vmas, Reprotected(vmas, start, end, protection))
  {
  }

  /** Once no VMA straddles either bound, exactly the addresses of [start, end) change, and only in protection. */
  lemma ReprotectedSlot(vmas: VmaMap, spaceEnd: nat, start: nat, end: nat, protection: Protection, a: nat)
    requires WellFormed(vmas, spaceEnd)
    requires NoStraddle(vmas, start) && NoStraddle(vmas, end) && start <= end
    ensures SlotAt(Reprotected(vmas, start, end, protection), a) ==
            if start <= a < end && SlotAt(vmas, a).Some?
            then Some(SlotAt(vmas, a).value.(protection := protection))
            else SlotAt(vmas, a)
  {
    ReprotectedWellFormed(vmas, spaceEnd, start, end, protection);
    if Mapped(vmas, a) {
      var k := KeyAt(vmas, a);
      ReprotectedCover(vmas, spaceEnd, start, end, protection, k, a);
    } else {
      hide Disjoint, NoStraddle, WellPlaced;
      var changed := Reprotected(vmas, start, end, protection);
      assert forall k: nat :: Covers(changed, k, a) ==> Covers(vmas, k, a);
    }
  }

  lemma ReprotectedCover(vmas: VmaMap, spaceEnd: nat, start: nat, end: nat, protection: Protection, k: nat, a: nat)
    requires WellFormed(vmas, spaceEnd) && WellFormed(Reprotected(vmas, start, end, protection), spaceEnd)
    requires NoStraddle(vmas, start) && NoStraddle(vmas, end) && start <= end && Covers(vmas, k, a)
    ensures SlotAt(vmas, a).Some?
    ensures SlotAt(Reprotected(vmas, start, end, protection), a) ==
            Some(if start <= a < end then SlotAt(vmas, a).value.(protection := protection) else SlotAt(vmas, a).value)
  {
    hide SlotAt, Disjoint, Mapped;
    assert WellPlaced(vmas[k], k, spaceEnd);
    ReprotectedVma(vmas, start, end, protection, k, a);
    SlotIs(vmas, k, a);
    SlotIs(Reprotected(vmas, start, end, protection), k, a);
  }

  lemma ReprotectedVma(vmas: VmaMap, start: nat, end: nat, protection: Protection, k: nat, a: nat)
    requires Covers(vmas, k, a) && vmas[k].start == k && NoStraddle(vmas, start) && NoStraddle(vmas, end)
             && start <= end
    ensures var changed := Reprotected(vmas, start, end, protection);
            k in changed && changed[k] == if start <= a < end then vmas[k].(protection := protection) else vmas[k]
  {
  }

  /** The same VMAs over the same ranges, whatever backs them. */
  ghost predicate SameSpans(before: VmaMap, after: VmaMap) {
    after.Keys == before.Keys && forall k :: k in after ==>
        after[k].start == before[k].start && after[k].end == before[k].end
  }

  /** Exchanging one VMA for another over the same range. */
  lemma SpansKept(vmas: VmaMap, k: nat, w: Vma)
    requires k in vmas && w.start == vmas[k].start && w.end == vmas[k].end
    ensures SameSpans(vmas, vmas[k := w]) && KeepsCuts(vmas, vmas[k := w]) && (w == vmas[k] ==> vmas[k := w] == vmas)
  {
  }

  /** No cut between VMAs was lost. */
  ghost predicate KeepsCuts(before: VmaMap, after: VmaMap) {
    forall p: nat :: NoStraddle(before, p) ==> NoStraddle(after, p)
  }

  /** One VMA holds both addresses. */
  ghost predicate Together(vmas: VmaMap, a: nat, b: nat) {
    exists k: nat :: Covers(vmas, k, a) && Covers(vmas, k, b)
  }

  /** Nothing was cut strictly inside [lo, hi). */
  ghost predicate KeepsRuns(before: VmaMap, after: VmaMap, lo: nat, hi: nat) {
    forall a: nat, b: nat :: lo <= a <= b < hi && Together(before, a, b) ==> Together(after, a, b)
  }

  lemma SplitKeepsRuns(vmas: VmaMap, spaceEnd: nat, address: nat, lo: nat, hi: nat)
    requires WellFormed(vmas, spaceEnd) && (address <= lo || hi <= address)
    ensures KeepsRuns(vmas, SplitAt(vmas, address), lo, hi)
  {
    LookupFindsCover(vmas, address);
    var split := SplitAt(vmas, address);
    forall a: nat, b: nat | lo <= a <= b < hi && Together(vmas, a, b)
      ensures Together(split, a, b)
    {
      var k: nat :| Covers(vmas, k, a) && Covers(vmas, k, b);
      var found := VmaContaining(vmas, address);
      var l := if found.Some? && k == found.value.start && k < address <= a then address else k;
      assert Covers(split, l, a) && Covers(split, l, b);
    }
  }

  lemma SameCutsKeepRuns(before: VmaMap, after: VmaMap, lo: nat, hi: nat)
    requires before.Keys == after.Keys
    requires forall k :: k in before ==> before[k].start == after[k].start && before[k].end == after[k].end
    ensures KeepsRuns(before, after, lo, hi)
  {
    forall a: nat, b: nat | lo <= a <= b < hi && Together(before, a, b)
      ensures Together(after, a, b)
    {
      var k: nat :| Covers(before, k, a) && Covers(before, k, b);
      assert Covers(after, k, a) && Covers(after, k, b);
    }
  }

  // Placing a VMA

  /** `after` maps the addresses of `v` as `v` says and all others as `before` did. */
  ghost predicate Adds(before: VmaMap, after: VmaMap, v: Vma) {
    forall a: nat :: SlotAt(after, a) == if v.Contains(a) then Some(SlotOf(v, a)) else SlotAt(before, a)
  }

  /** `w` meets no VMA but possibly the one starting where it starts, which it covers. */
  ghost predicate HasRoom(vmas: VmaMap, w: Vma) {
    && (forall k :: k in vmas && k != w.start ==> vmas[k].end <= w.start || w.end <= k)
    && (w.start in vmas ==> vmas[w.start].end <= w.end)
  }

  lemma PutWellFormed(vmas: VmaMap, spaceEnd: nat, w: Vma)
    requires WellFormed(vmas, spaceEnd) && WellPlaced(w, w.start, spaceEnd) && HasRoom(vmas, w)
    ensures WellFormed(vmas[w.start := w], spaceEnd)
  {
    var put := vmas[w.start := w];
    forall k, l | k in put && l in put && k < l
      ensures put[k].end <= l
    {
      if k == w.start {
        assert l in vmas;
      } else if l == w.start {
        assert k in vmas;
      }
    }
  }

  lemma PutAdds(vmas: VmaMap, spaceEnd: nat, w: Vma)
    requires WellFormed(vmas, spaceEnd) && WellPlaced(w, w.start, spaceEnd) && HasRoom(vmas, w)
    ensures WellFormed(vmas[w.start := w], spaceEnd)
    ensures Adds(vmas, vmas[w.start := w], w)
  {
    PutWellFormed(vmas, spaceEnd, w);
    forall a: nat
      ensures SlotAt(vmas[w.start := w], a) == if w.Contains(a) then Some(SlotOf(w, a)) else SlotAt(vmas, a)
    {
      PutSlot(vmas, spaceEnd, w, a);
    }
  }

  lemma PutSlot(vmas: VmaMap, spaceEnd: nat, w: Vma, a: nat)
    requires WellFormed(vmas, spaceEnd) && HasRoom(vmas, w)
    requires WellFormed(vmas[w.start := w], spaceEnd)
    ensures SlotAt(vmas[w.start := w], a) == if w.Contains(a) then Some(SlotOf(w, a)) else SlotAt(vmas, a)
  {
    var put := vmas[w.start := w];
    if w.Contains(a) {
      SlotIs(put, w.start, a);
    } else if Mapped(vmas, a) {
      var k := KeyAt(vmas, a);
      assert k != w.start;
      assert Covers(put, k, a);
      SlotIs(put, k, a);
    } else if Mapped(put, a) {
      var k := KeyAt(put, a);
      assert Covers(vmas, k, a);
    }
  }

  // Merging

  predicate CanMerge(left: Vma, right: Vma) {
    && left.end == right.start
    && left.protection == right.protection
    && left.kind == right.kind
    && left.allocationId == right.allocationId
    && left.allocationOffset + (left.end - left.start) == right.allocationOffset
  }

  /** `merged` stands for the VMAs of `vmas` that start below `bound`, with nothing left to merge. */
  ghost predicate MergedBelow(vmas: VmaMap, merged: VmaMap, spaceEnd: nat, bound: nat) {
    && WellFormed(merged, spaceEnd)
    && (forall k :: k in merged ==> k < bound && merged[k].end <= bound)
    && (forall a: nat :: SlotAt(merged, a) == if a < bound then SlotAt(vmas, a) else None)
    && FullyMerged(merged)
    && Carries(vmas, merged)
  }

  ghost predicate FullyMerged(merged: VmaMap) {
    forall k, l :: k in merged && l in merged ==> !CanMerge(merged[k], merged[l])
  }

  /** The byte after `a` is mapped as `a` is, and follows it in the same allocation. */
  ghost predicate Continues(vmas: VmaMap, a: nat) {
    && SlotAt(vmas, a).Some? && SlotAt(vmas, a + 1).Some?
    && var here, next := SlotAt(vmas, a).value, SlotAt(vmas, a + 1).value;
    && next.protection == here.protection && next.kind == here.kind
    && next.allocationId == here.allocationId && next.offset == here.offset + 1
  }

  /** VMAs begin exactly where a mapped byte does not continue the one before it. */
  ghost predicate CutsShow(vmas: VmaMap) {
    forall a: nat :: Mapped(vmas, a + 1) ==> (a + 1 in vmas <==> !Continues(vmas, a))
  }

  /** With nothing left to merge, every cut between VMAs shows in the slots, and only there. */
  lemma MergedCutsShow(vmas: VmaMap, spaceEnd: nat)
    requires WellFormed(vmas, spaceEnd) && FullyMerged(vmas)
    ensures CutsShow(vmas)
  {
    forall a: nat | Mapped(vmas, a + 1)
      ensures a + 1 in vmas <==> !Continues(vmas, a)
    {
      var l := KeyAt(vmas, a + 1);
      SlotIs(vmas, l, a + 1);
      if a + 1 !in vmas {
        SlotIs(vmas, l, a);
      } else if Mapped(vmas, a) {
        var k := KeyAt(vmas, a);
        SlotIs(vmas, k, a);
        assert l == a + 1 && vmas[k].end == l;
        assert !CanMerge(vmas[k], vmas[l]);
      }
    }
  }

  /** Joins a VMA lying above all others to the last one when possible, otherwise adds it. */
  function Push(merged: VmaMap, v: Vma): VmaMap {
    if merged != map[] && CanMerge(merged[Greatest(merged.Keys)], v)
    then Join(merged, Greatest(merged.Keys), v.end)
    else merged[v.start := v]
  }

  function Join(merged: VmaMap, last: nat, end: nat): VmaMap
    requires last in merged
  {
    merged[last := merged[last].(end := end)]
  }

  method Coalesce(vmas: VmaMap, spaceEnd: nat) returns (merged: VmaMap)
    requires WellFormed(vmas, spaceEnd)
    ensures WellFormed(merged, spaceEnd)
    ensures SameSlots(vmas, merged)
    ensures FullyMerged(merged) && CutsShow(merged)
    ensures Carries(vmas, merged)
  {
    hide CanMerge, CutsShow;
    merged := map[];
    var keys := Sorted(vmas.Keys);
    ghost var bound := if |keys| == 0 then spaceEnd else keys[0];
    NothingBelow(vmas, spaceEnd, keys, bound);
    for i := 0 to |keys|
      invariant bound == if i < |keys| then keys[i] else spaceEnd
      invariant MergedBelow(vmas, merged, spaceEnd, bound)
    {
      ghost var next := if i + 1 < |keys| then keys[i + 1] else spaceEnd;
      PushKeepsMerged(vmas, merged, spaceEnd, keys, i, next);
      merged := Push(merged, vmas[keys[i]]);
      bound := next;
    }
    forall a: nat
      ensures SlotAt(vmas, a) == SlotAt(merged, a)
    {
      if a >= spaceEnd && Mapped(vmas, a) {
        var k := KeyAt(vmas, a);
      }
    }
    MergedCutsShow(merged, spaceEnd);
  }

  lemma NothingBelow(vmas: VmaMap, spaceEnd: nat, keys: seq<nat>, bound: nat)
    requires WellFormed(vmas, spaceEnd) && keys == Sorted(vmas.Keys)
    requires bound == if |keys| == 0 then spaceEnd else keys[0]
    ensures MergedBelow(vmas, map[], spaceEnd, bound)
  {
    forall a: nat | a < bound
      ensures !Mapped(vmas, a)
    {
      forall k: nat
        ensures !Covers(vmas, k, a)
      {
        assert k in vmas ==> k in keys;
      }
    }
    assert forall a: nat :: !Mapped(map[], a);
  }

  ghost predicate Above(merged: VmaMap, v: Vma) {
    forall k :: k in merged ==> k < v.start && merged[k].end <= v.start
  }

  lemma JoinWellFormed(merged: VmaMap, spaceEnd: nat, v: Vma, last: nat)
    requires WellFormed(merged, spaceEnd) && WellPlaced(v, v.start, spaceEnd) && Above(merged, v)
    requires last in merged && CanMerge(merged[last], v) && (forall k :: k in merged ==> k <= last)
    ensures WellFormed(Join(merged, last, v.end), spaceEnd)
    ensures FullyMerged(merged) ==> FullyMerged(Join(merged, last, v.end))
  {
    var after := Join(merged, last, v.end);
    forall k, l | k in after && l in after && k < l
      ensures after[k].end <= l
    {
      assert k != last && after[k] == merged[k];
    }
    JoinFullyMerged(merged, spaceEnd, v, last);
    hide CanMerge, Above, FullyMerged;
  }

  lemma JoinFullyMerged(merged: VmaMap, spaceEnd: nat, v: Vma, last: nat)
    requires WellFormed(merged, spaceEnd) && WellPlaced(v, v.start, spaceEnd)
    requires last in merged && CanMerge(merged[last], v) && (forall k :: k in merged ==> k <= last)
    ensures FullyMerged(merged) ==> FullyMerged(Join(merged, last, v.end))
  {
    hide Disjoint;
    var after := Join(merged, last, v.end);
    if FullyMerged(merged) {
      forall k, l | k in after && l in after
        ensures !CanMerge(after[k], after[l])
      {
        assert !CanMerge(merged[k], merged[l]);
      }
    }
  }

  lemma JoinAdds(merged: VmaMap, spaceEnd: nat, v: Vma, last: nat, a: nat)
    requires WellFormed(merged, spaceEnd) && Above(merged, v) && v.start < v.end
    requires last in merged && CanMerge(merged[last], v) && (forall k :: k in merged ==> k <= last)
    requires WellFormed(Join(merged, last, v.end), spaceEnd)
    ensures SlotAt(Join(merged, last, v.end), a) == if v.Contains(a) then Some(SlotOf(v, a)) else SlotAt(merged, a)
  {
    var after := Join(merged, last, v.end);
    if v.Contains(a) {
      SlotIs(after, last, a);
    } else if Mapped(merged, a) {
      var k := KeyAt(merged, a);
      assert Covers(after, k, a);
      SlotIs(after, k, a);
    } else if Mapped(after, a) {
      var k := KeyAt(after, a);
      assert Covers(merged, k, a);
    }
  }

  lemma AppendFullyMerged(merged: VmaMap, v: Vma)
    requires Keyed(merged) && Disjoint(merged) && Above(merged, v) && FullyMerged(merged)
    requires merged != map[] ==> !CanMerge(merged[Greatest(merged.Keys)], v)
    requires v.start < v.end && forall k :: k in merged ==> merged[k].start < merged[k].end
    ensures FullyMerged(merged[v.start := v])
  {
  }

  lemma PushAdds(merged: VmaMap, spaceEnd: nat, v: Vma)
    requires WellFormed(merged, spaceEnd) && WellPlaced(v, v.start, spaceEnd) && Above(merged, v)
    ensures WellFormed(Push(merged, v), spaceEnd)
    ensures Adds(merged, Push(merged, v), v)
    ensures FullyMerged(merged) ==> FullyMerged(Push(merged, v))
    ensures forall k :: k in Push(merged, v) ==> k <= v.start && Push(merged, v)[k].end <= v.end
  {
    var after := Push(merged, v);
    if merged != map[] && CanMerge(merged[Greatest(merged.Keys)], v) {
      var last := Greatest(merged.Keys);
      JoinWellFormed(merged, spaceEnd, v, last);
      forall a: nat
        ensures SlotAt(after, a) == if v.Contains(a) then Some(SlotOf(v, a)) else SlotAt(merged, a)
      {
        JoinAdds(merged, spaceEnd, v, last, a);
      }
    } else {
      PutAdds(merged, spaceEnd, v);
      if FullyMerged(merged) {
        AppendFullyMerged(merged, v);
      }
    }
  }

  lemma PushKeepsMerged(vmas: VmaMap, merged: VmaMap, spaceEnd: nat, keys: seq<nat>, i: nat, next: nat)
    requires WellFormed(vmas, spaceEnd) && keys == Sorted(vmas.Keys) && i < |keys|
    requires next == if i + 1 < |keys| then keys[i + 1] else spaceEnd
    requires MergedBelow(vmas, merged, spaceEnd, keys[i])
    ensures MergedBelow(vmas, Push(merged, vmas[keys[i]]), spaceEnd, next)
  {
    var v := vmas[keys[i]];
    var after := Push(merged, v);
    PushAdds(merged, spaceEnd, v);
    PushSlots(vmas, merged, after, spaceEnd, keys, i, next);
    assert keys[i] in vmas;
    PushKeepsAlignment(vmas, merged, v);
    assert v.start < v.end <= next by { NextKey(vmas, spaceEnd, keys, i, next); }
  }

  lemma NextKey(vmas: VmaMap, spaceEnd: nat, keys: seq<nat>, i: nat, next: nat)
    requires WellFormed(vmas, spaceEnd) && keys == Sorted(vmas.Keys) && i < |keys|
    requires next == if i + 1 < |keys| then keys[i + 1] else spaceEnd
    ensures keys[i] in vmas && vmas[keys[i]].end <= next
  {
    assert i + 1 < |keys| ==> keys[i + 1] in keys;
  }

  lemma PushKeepsAlignment(vmas: VmaMap, merged: VmaMap, v: Vma)
    requires Carries(vmas, merged) && v.start in vmas && vmas[v.start] == v
    ensures Carries(vmas, Push(merged, v))
  {
  }

  lemma PushSlots(vmas: VmaMap, merged: VmaMap, after: VmaMap, spaceEnd: nat, keys: seq<nat>, i: nat, next: nat)
    requires WellFormed(vmas, spaceEnd) && keys == Sorted(vmas.Keys) && i < |keys|
    requires next == if i + 1 < |keys| then keys[i + 1] else spaceEnd
    requires forall a: nat :: SlotAt(merged, a) == if a < keys[i] then SlotAt(vmas, a) else None
    requires Adds(merged, after, vmas[keys[i]])
    ensures forall a: nat :: SlotAt(after, a) == if a < next then SlotAt(vmas, a) else None
  {
    NextKey(vmas, spaceEnd, keys, i, next);
    forall a: nat
      ensures SlotAt(after, a) == if a < next then SlotAt(vmas, a) else None
    {
      BetweenKeys(vmas, spaceEnd, keys, i, next, a);
    }
  }

  lemma BetweenKeys(vmas: VmaMap, spaceEnd: nat, keys: seq<nat>, i: nat, next: nat, a: nat)
    requires WellFormed(vmas, spaceEnd) && keys == Sorted(vmas.Keys) && i < |keys|
    requires next == if i + 1 < |keys| then keys[i + 1] else spaceEnd
    ensures keys[i] <= a < next ==>
              SlotAt(vmas, a) == if vmas[keys[i]].Contains(a) then Some(SlotOf(vmas[keys[i]], a)) else None
  {
    hide Sorted;
    if vmas[keys[i]].Contains(a) {
      SlotIs(vmas, keys[i], a);
    } else if keys[i] <= a < next {
      forall k: nat
        ensures !Covers(vmas, k, a)
      {
        KeyPlace(vmas, spaceEnd, keys, i, next, k);
      }
    }
  }

  /** No key lies strictly between a sorted key and the next. */
  lemma KeyPlace(vmas: VmaMap, spaceEnd: nat, keys: seq<nat>, i: nat, next: nat, k: nat)
    requires WellFormed(vmas, spaceEnd) && keys == Sorted(vmas.Keys) && i < |keys|
    requires next == if i + 1 < |keys| then keys[i + 1] else spaceEnd
    ensures keys[i] in vmas && (k in vmas ==> k <= keys[i] || next <= k)
  {
    hide Sorted, Disjoint;
    assert keys[i] in keys;
    if k in vmas {
      var j :| 0 <= j < |keys| && keys[j] == k;
    }
  }

  // Searching for room

  ghost predicate FitsAt(vmas: VmaMap, spaceEnd: nat, c: nat, length: nat) {
    IsPageAligned(c) && MIN_GUEST_ADDRESS <= c && c + length <= spaceEnd && !Overlapping(vmas, c, c + length)
  }

  /** First fit: the lowest page at or above `hint` with `length` free bytes, or an error when there is none. */
  ghost predicate FirstFit(vmas: VmaMap, spaceEnd: nat, hint: nat, length: nat, r: Outcome<U64>) {
    match r
    case Ok(c) => hint <= c && FitsAt(vmas, spaceEnd, c, length) && NoneFits(vmas, spaceEnd, length, hint, c)
    case Err(e) =>
      (forall c: nat :: hint <= c ==> !FitsAt(vmas, spaceEnd, c, length)) && (e == OutOfMemory || e == InvalidLength)
  }

  method FindFreeRange(vmas: VmaMap, spaceEnd: U64, hint: U64, length: U64) returns (r: Outcome<U64>)
    requires WellFormed(vmas, spaceEnd) && IsPageAligned(spaceEnd) && 0 < length
    ensures FirstFit(vmas, spaceEnd, hint, length, r)
  {
    hide Disjoint, Sorted, Overlapping, NoneFits, FitsAt, FirstFit;
    BelowFirstPage(vmas, spaceEnd, hint, length);
    var up := AlignUp(hint);
    if up.Err? {
      return Err(up.error);
    }
    var candidate: U64 := if up.value < MIN_GUEST_ADDRESS then MIN_GUEST_ADDRESS else up.value;
    var keys := Sorted(vmas.Keys);
    for i := 0 to |keys|
      invariant hint <= candidate && IsPageAligned(candidate) && MIN_GUEST_ADDRESS <= candidate
      invariant NoneFits(vmas, spaceEnd, length, hint, candidate)
      invariant forall j :: 0 <= j < i ==> vmas[keys[j]].end <= candidate
    {
      var v := vmas[keys[i]];
      var end := CheckedMappingEnd(candidate, length, spaceEnd);
      if end.Err? {
        r := Err(end.error);
        TooHigh(vmas, spaceEnd, hint, length, candidate, r);
        return;
      }
      if end.value <= v.start {
        RoomBefore(vmas, spaceEnd, keys, i, candidate, length);
        FitsHere(vmas, spaceEnd, hint, length, candidate);
        return Ok(candidate);
      }
      candidate := SkipPast(vmas, spaceEnd, hint, length, candidate, v);
    }
    var end := CheckedMappingEnd(candidate, length, spaceEnd);
    if end.Err? {
      r := Err(end.error);
      TooHigh(vmas, spaceEnd, hint, length, candidate, r);
      return;
    }
    RoomBefore(vmas, spaceEnd, keys, |keys|, candidate, length);
    FitsHere(vmas, spaceEnd, hint, length, candidate);
    r := Ok(candidate);
  }

  /** Nothing fits below the first page at or above the hint; without such a page nothing fits at all. */
  lemma BelowFirstPage(vmas: VmaMap, spaceEnd: U64, hint: U64, length: U64)
    ensures var up := AlignUp(hint);
            if up.Err? then FirstFit(vmas, spaceEnd, hint, length, Err(up.error))
            else NoneFits(vmas, spaceEnd, length, hint, if up.value < MIN_GUEST_ADDRESS then MIN_GUEST_ADDRESS
                          else up.value)
  {
    hide Overlapping;
  }

  lemma FitsHere(vmas: VmaMap, spaceEnd: nat, hint: nat, length: nat, candidate: U64)
    requires NoneFits(vmas, spaceEnd, length, hint, candidate) && hint <= candidate && IsPageAligned(candidate)
    requires MIN_GUEST_ADDRESS <= candidate && candidate + length <= spaceEnd
             && !Overlapping(vmas, candidate, candidate + length)
    ensures FirstFit(vmas, spaceEnd, hint, length, Ok(candidate))
  {
    hide Overlapping;
  }

  /** Moves the candidate to the first page behind a VMA that blocks it. */
  method SkipPast(vmas: VmaMap, spaceEnd: U64, ghost hint: nat, length: U64, candidate: U64, v: Vma) returns (c: U64)
    requires NoneFits(vmas, spaceEnd, length, hint, candidate) && IsPageAligned(candidate) && IsPageAligned(spaceEnd)
    requires v.start in vmas && vmas[v.start] == v && v.end <= spaceEnd
    requires v.start < candidate + length
    ensures candidate <= c && v.end <= c && IsPageAligned(c)
    ensures NoneFits(vmas, spaceEnd, length, hint, c)
  {
    c := candidate;
    if candidate < v.end {
      Blocked(vmas, spaceEnd, length, hint, candidate, v);
      c := AlignUp(v.end).value;
    }
  }

  lemma TooHigh(vmas: VmaMap, spaceEnd: nat, hint: nat, length: nat, candidate: nat, r: Outcome<U64>)
    requires NoneFits(vmas, spaceEnd, length, hint, candidate) && spaceEnd < candidate + length
    requires r == Err(OutOfMemory) || r == Err(InvalidLength)
    ensures FirstFit(vmas, spaceEnd, hint, length, r)
  {
  }

  ghost predicate NoneFits(vmas: VmaMap, spaceEnd: nat, length: nat, lo: nat, hi: nat) {
    forall c: nat :: lo <= c < hi ==> !FitsAt(vmas, spaceEnd, c, length)
  }

  lemma Blocked(vmas: VmaMap, spaceEnd: nat, length: nat, hint: nat, candidate: U64, v: Vma)
    requires NoneFits(vmas, spaceEnd, length, hint, candidate) && IsPageAligned(candidate)
    requires v.start in vmas && vmas[v.start] == v
    requires v.start < candidate + length && v.end < U64_LIMIT && AlignUp(v.end).Ok?
    ensures NoneFits(vmas, spaceEnd, length, hint, AlignUp(v.end).value)
  {
    forall c: nat | candidate <= c < AlignUp(v.end).value && IsPageAligned(c)
      ensures Overlapping(vmas, c, c + length)
    {
      assert vmas[v.start].Overlaps(c, c + length);
    }
  }

  lemma RoomBefore(vmas: VmaMap, spaceEnd: nat, keys: seq<nat>, i: nat, candidate: nat, length: nat)
    requires WellFormed(vmas, spaceEnd) && keys == Sorted(vmas.Keys) && i <= |keys|
    requires forall j :: 0 <= j < i ==> vmas[keys[j]].end <= candidate
    requires i < |keys| ==> candidate + length <= keys[i]
    ensures !Overlapping(vmas, candidate, candidate + length)
  {
    forall k | k in vmas
      ensures !vmas[k].Overlaps(candidate, candidate + length)
    {
      assert k in keys;
      var j :| 0 <= j < |keys| && keys[j] == k;
    }
  }

  /** The cursor scan answers whether every address of [start, end) is mapped. */
  method IsRangeMapped(vmas: VmaMap, ghost spaceEnd: nat, start: nat, end: nat) returns (r: bool)
    requires WellFormed(vmas, spaceEnd) && start < end
    ensures r <==> forall a: nat :: start <= a < end ==> Mapped(vmas, a)
  {
    hide Mapped, Disjoint, Sorted;
    var cursor := start;
    var keys := Sorted(vmas.Keys);
    for i := 0 to |keys|
      invariant start <= cursor < end
      invariant forall a: nat :: start <= a < cursor ==> Mapped(vmas, a)
      invariant forall j :: 0 <= j < i ==> vmas[keys[j]].end <= cursor
    {
      var v := vmas[keys[i]];
      if v.end > start {
        if v.start > cursor {
          NotCoveredBetween(vmas, keys, i, cursor);
          return false;
        }
        VmaMaps(vmas, v.start);
        if v.end > cursor {
          cursor := v.end;
        }
        if cursor >= end {
          return true;
        }
      }
    }
    NotCoveredBetween(vmas, keys, |keys|, cursor);
    r := false;
  }

  lemma VmaMaps(vmas: VmaMap, k: nat)
    requires k in vmas
    ensures forall a: nat :: vmas[k].Contains(a) ==> Mapped(vmas, a)
  {
    assert forall a: nat :: vmas[k].Contains(a) ==> Covers(vmas, k, a);
  }

  lemma NotCoveredBetween(vmas: VmaMap, keys: seq<nat>, i: nat, cursor: nat)
    requires Keyed(vmas) && Disjoint(vmas) && keys == Sorted(vmas.Keys) && i <= |keys|
    requires forall j :: 0 <= j < i ==> vmas[keys[j]].end <= cursor
    requires i < |keys| ==> cursor < keys[i]
    ensures !Mapped(vmas, cursor)
  {
    forall k: nat
      ensures !Covers(vmas, k, cursor)
    {
      if k in vmas {
        assert k in keys;
        var j :| 0 <= j < |keys| && keys[j] == k;
      }
    }
  }
}
