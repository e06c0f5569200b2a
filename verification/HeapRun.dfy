/**
 A run of calls in which growing the heap loses a byte the guest wrote: the memory before and after each call, and the
 steps of the call that lead from one to the other.
 */
module HeapRun {
  import opened Ranges
  import opened Bytes
  import opened Vmas
  import opened FlatMemory
  import opened Backing
  import opened GuestState
  import opened Merging
  import opened HeapBreak
  import opened StaleHeap
  import opened StaleRun

  function HeapRegion(from: nat, to: nat, protection: Protection, allocationId: nat, offset: nat): Vma {
    Vma(from, to, protection, Heap, allocationId, offset)
  }

  // What backs the heap

  /** One allocation for the four pages of the heap, its buffer shared with a clone. */
  function SharedHeap(vmas: VmaMap): State {
    State(0, 0x40000, P0, vmas, map[1 := Allocation(P0, 10)], 2, map[10 := Blank(0x4000)],
          map[10 := {Owner(0, 1), Owner(1, 1)}])
  }

  /** A second allocation for the first page. */
  function DoubledHeap(vmas: VmaMap, data: seq<Byte>): State {
    State(0, 0x40000, P0, vmas, map[1 := Allocation(P0, 10), 2 := Allocation(P0, 11)], 3,
          map[10 := Blank(0x4000), 11 := data], map[10 := {Owner(0, 1), Owner(1, 1)}, 11 := {Owner(0, 2)}])
  }

  // What is mapped

  function FullHeap(): VmaMap {
    map[P0 := HeapRegion(P0, P4, READ_ONLY, 1, 0)]
  }

  function CutHeap(): VmaMap {
    map[P0 := HeapRegion(P0, P1, READ_ONLY, 1, 0), P1 := HeapRegion(P1, P4, READ_ONLY, 1, 0x1000)]
  }

  function ApartHeap(): VmaMap {
    map[P0 := HeapRegion(P0, P1, READ_ONLY, 2, 0), P1 := HeapRegion(P1, P4, READ_ONLY, 1, 0x1000)]
  }

  function OpenedHeap(): VmaMap {
    map[P0 := HeapRegion(P0, P1, READ_WRITE, 2, 0), P1 := HeapRegion(P1, P4, READ_ONLY, 1, 0x1000)]
  }

  function SplitHeap(): VmaMap {
    map[P0 := HeapRegion(P0, P1, READ_WRITE, 2, 0), P1 := HeapRegion(P1, P3, READ_ONLY, 1, 0x1000),
        P3 := HeapRegion(P3, P4, READ_ONLY, 1, 0x3000)]
  }

  function HoledHeap(): VmaMap {
    map[P0 := HeapRegion(P0, P1, READ_WRITE, 2, 0), P3 := HeapRegion(P3, P4, READ_ONLY, 1, 0x3000)]
  }

  lemma HeapMaps()
    ensures CutHeap()[P0 := HeapRegion(P0, P1, READ_ONLY, 2, 0)] == ApartHeap()
    ensures Reprotected(ApartHeap(), P0, P1, READ_WRITE) == OpenedHeap()
    ensures RemoveStarts(SplitHeap(), P1, P3) == HoledHeap()
    ensures NoStraddle(ApartHeap(), P0) && NoStraddle(ApartHeap(), P1)
    ensures NoStraddle(SplitHeap(), P1) && NoStraddle(SplitHeap(), P3)
  {
  }

  lemma FirstHeapCut()
    ensures SplitAt(FullHeap(), P1) == CutHeap()
  {
    SplitIn(FullHeap(), P0, P1);
    hide SplitAt;
  }

  lemma SecondHeapCut()
    ensures SplitAt(OpenedHeap(), P3) == SplitHeap()
  {
    SplitIn(OpenedHeap(), P1, P3);
    hide SplitAt;
  }

  lemma FullHeapIs()
    ensures WellFormed(FullHeap(), 0x40000) && StartsAligned(FullHeap()) && HeapAbove(FullHeap(), P0)
    ensures forall a: nat :: SlotAt(FullHeap(), a) ==
                             if P0 <= a < P4 then Some(Slot(READ_ONLY, Heap, 1, a - P0)) else None
  {
    forall a: nat
      ensures SlotAt(FullHeap(), a) == if P0 <= a < P4 then Some(Slot(READ_ONLY, Heap, 1, a - P0)) else None
    {
      if P0 <= a < P4 {
        assert Covers(FullHeap(), P0, a);
      }
    }
  }

  lemma SharedHeapValid()
    ensures Inv(SharedHeap(FullHeap()))
  {
    hide SlotAt, FullHeap, WellFormed, StartsAligned, HeapAbove;
    FullHeapIs();
  }

  /** The mprotect of the first page cuts the heap, */
  lemma CutByMprotect()
    ensures SplitAt(FullHeap(), P1) == CutHeap() && Inv(SharedHeap(CutHeap()))
  {
    hide Inv, Quiet, Framed, View, Stale, FullHeap, CutHeap, SplitAt, KeepsCuts, NoStraddle;
    FirstHeapCut();
    SharedHeapValid();
    SplitQuiet(SharedHeap(FullHeap()), P1);
  }

  lemma DetachedHeapIs()
    requires Inv(SharedHeap(CutHeap()))
    ensures P0 in CutHeap() && Detached(SharedHeap(CutHeap()), P0, 11) == DoubledHeap(ApartHeap(), Blank(0x1000))
  {
    hide Inv;
    HeapMaps();
    var s := SharedHeap(CutHeap());
    assert s.bytes[10][0..P1 - P0] == Blank(0x1000);
  }

  /** detaches the page from the shared buffer, */
  lemma DetachedByMprotect()
    ensures Inv(SharedHeap(CutHeap())) && P0 in CutHeap() && SharedHeap(CutHeap()).owners[10] != {Owner(0, 1)}
    ensures Detached(SharedHeap(CutHeap()), P0, 11) == DoubledHeap(ApartHeap(), Blank(0x1000))
    ensures Inv(DoubledHeap(ApartHeap(), Blank(0x1000)))
  {
    hide Inv, Quiet, Framed, View, Stale, SplitAt;
    CutByMprotect();
    DetachedHeapIs();
    assert !Unshared(SharedHeap(CutHeap()));
    DetachQuiet(SharedHeap(CutHeap()), P0, 11);
  }

  /** and makes it writable. */
  lemma OpenedByMprotect()
    ensures Reprotected(ApartHeap(), P0, P1, READ_WRITE) == OpenedHeap()
    ensures Inv(DoubledHeap(OpenedHeap(), Blank(0x1000)))
  {
    hide Inv, Framed, View, Stale, OpenedHeap, ApartHeap, Reprotected, NoStraddle;
    HeapMaps();
    DetachedByMprotect();
    ReprotectedView(DoubledHeap(ApartHeap(), Blank(0x1000)), P0, P1, READ_WRITE);
  }

  /** The first page once the guest wrote 7 to it. */
  function FirstPage(): seq<Byte> {
    Blit(Blank(0x1000), 0, [7])
  }

  lemma FirstPageIs()
    ensures |FirstPage()| == 0x1000 && FirstPage()[0] == 7
  {
  }

  lemma StoredHeapIs()
    requires Inv(DoubledHeap(OpenedHeap(), Blank(0x1000)))
    ensures Stored(DoubledHeap(OpenedHeap(), Blank(0x1000)), 2, 0, [7]) == DoubledHeap(OpenedHeap(), FirstPage())
  {
    hide Inv, OpenedHeap;
  }

  /** The store of 7. */
  lemma WrittenByStore()
    ensures Inv(DoubledHeap(OpenedHeap(), Blank(0x1000)))
    ensures Stored(DoubledHeap(OpenedHeap(), Blank(0x1000)), 2, 0, [7]) == DoubledHeap(OpenedHeap(), FirstPage())
    ensures Inv(DoubledHeap(OpenedHeap(), FirstPage()))
  {
    hide Inv, View, Framed, Stale, Overlay;
    OpenedByMprotect();
    StoredHeapIs();
    StoreStep(DoubledHeap(OpenedHeap(), Blank(0x1000)), P0, P0, [7]);
  }

  /** The munmap of the second and third page. */
  lemma HoledByMunmap()
    ensures RemoveStarts(SplitAt(OpenedHeap(), P3), P1, P3) == HoledHeap()
    ensures Inv(DoubledHeap(HoledHeap(), FirstPage()))
  {
    hide Inv, Framed, Quiet, View, Stale, OpenedHeap, SplitHeap, SplitAt, RemoveStarts, NoStraddle, KeepsCuts;
    hide FirstPage;
    HeapMaps();
    SecondHeapCut();
    WrittenByStore();
    SplitQuiet(DoubledHeap(OpenedHeap(), FirstPage()), P3);
    RemovedView(DoubledHeap(SplitHeap(), FirstPage()), P1, P3);
  }

  lemma HoledHeapEnds()
    ensures HeapMappedEnd(HoledHeap(), P0) == P1
    ensures !GrowthBlocked(HoledHeap(), P1, P2) && GrowSafe(HoledHeap(), P0, P2)
  {
    assert HeapKeys(HoledHeap()) == {P0, P3};
  }

  /** A brk to the end of the second page grows the heap into the older allocation, which it does not use. */
  lemma GrowsIntoOlder()
    ensures GrowsInto(DoubledHeap(HoledHeap(), FirstPage()), P2, 1, 0)
    ensures Undercut(DoubledHeap(HoledHeap(), FirstPage()), P2)
  {
    hide Inv, HeapMappedEnd, GrowthBlocked, GrowSafe, FirstPage;
    HoledByMunmap();
    HoledHeapEnds();
    FirstPageIs();
    var s := DoubledHeap(HoledHeap(), FirstPage());
    assert Contains(s.allocations[1], s.bytes, P0, P2 - P0);
  }

  /** The guest wrote 7 to the first page of its heap, moved the break up, and finds 0. */
  lemma HeapWriteIsLost() returns (zeroed: State)
    ensures var before := DoubledHeap(HoledHeap(), FirstPage());
            && Growing(before, before, zeroed, 1, 0, P1, P2)
            && P0 in View(before) && View(before)[P0].data == 7
    ensures var after := Grown(zeroed, P0, P2, 1, 0);
            Inv(after) && P0 in View(after) && View(after)[P0].data == 0
  {
    hide Inv, View, Quiet, Framed, Stale, HeapMappedEnd, GrowthBlocked, GrowSafe, FirstPage, Undercut, Growing;
    var before := DoubledHeap(HoledHeap(), FirstPage());
    GrowsIntoOlder();
    HoledHeapEnds();
    FirstPageIs();
    assert !Sole(before, 1);
    RebufferQuiet(before, 1, 12);
    QuietIsFramed(before, Rebuffered(before, 1, 12));
    zeroed := CanGrow(before, Rebuffered(before, 1, 12), P2, 1, 0);
    VmaView(before, P0, P0);
    GrownByte(before, zeroed, P2, 1, 0, P0);
    GrowthOutcome(before, before, zeroed, 1, 0, P1, P2);
  }
}
