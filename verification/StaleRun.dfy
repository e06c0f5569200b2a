/**
 A run of calls in which a merge of allocations loses a byte the guest wrote: the memory before and after each call,
 and the steps of the call that lead from one to the other.
 */
module StaleRun {
  import opened Ranges
  import opened Bytes
  import opened Vmas
  import opened FlatMemory
  import opened Backing
  import opened GuestState
  import opened Merging

  const READ_ONLY := Protection(true, false, false)
  const READ_WRITE := Protection(true, true, false)

  // The page boundaries of the run
  const P0: nat := 0x10000
  const P1: nat := 0x11000
  const P2: nat := 0x12000
  const P3: nat := 0x13000
  const P4: nat := 0x14000
  const P5: nat := 0x15000

  function Region(from: nat, to: nat, protection: Protection, allocationId: nat, offset: nat): Vma {
    Vma(from, to, protection, Anonymous, allocationId, offset)
  }

  function Blank(length: nat): (r: seq<Byte>)
    ensures |r| == length && forall n :: 0 <= n < |r| ==> r[n] == 0
  {
    Zeros(length)
  }

  // What backs the pages

  /** One allocation for pages 0 to 3, its buffer shared with a clone. */
  function Shared(vmas: VmaMap): State {
    State(0, 0x40000, 0x30000, vmas, map[1 := Allocation(P0, 10)], 2, map[10 := Blank(0x4000)],
          map[10 := {Owner(0, 1), Owner(1, 1)}])
  }

  /** A second allocation for pages 1 to 3. */
  function Doubled(vmas: VmaMap): State {
    State(0, 0x40000, 0x30000, vmas, map[1 := Allocation(P0, 10), 2 := Allocation(P1, 11)], 3,
          map[10 := Blank(0x4000), 11 := Blank(0x3000)], map[10 := {Owner(0, 1), Owner(1, 1)}, 11 := {Owner(0, 2)}])
  }

  /** The first allocation in a buffer of its own. */
  function Own(vmas: VmaMap, data: seq<Byte>): State {
    State(0, 0x40000, 0x30000, vmas, map[1 := Allocation(P0, 12), 2 := Allocation(P1, 11)], 3,
          map[10 := Blank(0x4000), 11 := Blank(0x3000), 12 := data],
          map[10 := {Owner(1, 1)}, 11 := {Owner(0, 2)}, 12 := {Owner(0, 1)}])
  }

  // What is mapped

  function Whole(): VmaMap {
    map[P0 := Region(P0, P4, READ_ONLY, 1, 0)]
  }

  function Cut1(): VmaMap {
    map[P0 := Region(P0, P1, READ_ONLY, 1, 0), P1 := Region(P1, P4, READ_ONLY, 1, 0x1000)]
  }

  function ApartMap(): VmaMap {
    map[P0 := Region(P0, P1, READ_ONLY, 1, 0), P1 := Region(P1, P4, READ_ONLY, 2, 0)]
  }

  function Opened(): VmaMap {
    map[P0 := Region(P0, P1, READ_ONLY, 1, 0), P1 := Region(P1, P4, READ_WRITE, 2, 0)]
  }

  function Cut2(): VmaMap {
    map[P0 := Region(P0, P1, READ_ONLY, 1, 0), P1 := Region(P1, P2, READ_WRITE, 2, 0),
        P2 := Region(P2, P4, READ_WRITE, 2, 0x1000)]
  }

  function Holed(): VmaMap {
    map[P0 := Region(P0, P1, READ_ONLY, 1, 0), P2 := Region(P2, P4, READ_WRITE, 2, 0x1000)]
  }

  function Remapped(): VmaMap {
    map[P0 := Region(P0, P1, READ_ONLY, 1, 0), P1 := Region(P1, P2, READ_WRITE, 1, 0x1000),
        P2 := Region(P2, P4, READ_WRITE, 2, 0x1000)]
  }

  function Cut3(): VmaMap {
    map[P0 := Region(P0, P1, READ_ONLY, 1, 0), P1 := Region(P1, P2, READ_WRITE, 1, 0x1000),
        P2 := Region(P2, P3, READ_WRITE, 2, 0x1000), P3 := Region(P3, P4, READ_WRITE, 2, 0x2000)]
  }

  function Cleared(): VmaMap {
    map[P0 := Region(P0, P1, READ_ONLY, 1, 0), P1 := Region(P1, P2, READ_WRITE, 1, 0x1000),
        P2 := Region(P2, P3, READ_WRITE, 2, 0x1000)]
  }

  lemma SplitIn(vmas: VmaMap, k: nat, address: nat)
    requires Keyed(vmas) && Disjoint(vmas) && k in vmas && k < address < vmas[k].end
    ensures SplitAt(vmas, address) == Cut(vmas, vmas[k], address)
  {
    LookupFindsCover(vmas, address);
    assert Covers(vmas, k, address);
    CoverUnique(vmas, k, VmaContaining(vmas, address).value.start, address);
  }

  lemma FirstCut()
    ensures SplitAt(Whole(), P1) == Cut1()
  {
    SplitIn(Whole(), P0, P1);
    hide SplitAt;
  }

  lemma SecondCut()
    ensures SplitAt(Opened(), P2) == Cut2()
  {
    SplitIn(Opened(), P1, P2);
    hide SplitAt;
  }

  lemma ThirdCut()
    ensures SplitAt(Remapped(), P3) == Cut3()
  {
    SplitIn(Remapped(), P2, P3);
    hide SplitAt;
  }

  lemma LaterMaps()
    ensures Reprotected(ApartMap(), P1, P4, READ_WRITE) == Opened()
    ensures RemoveStarts(Cut2(), P1, P2) == Holed()
    ensures Holed()[P1 := Region(P1, P2, READ_WRITE, 1, 0x1000)] == Remapped()
    ensures RemoveStarts(Cut3(), P3, P5) == Cleared()
  {
  }

  lemma NoneStraddled()
    ensures NoStraddle(ApartMap(), P1) && NoStraddle(ApartMap(), P4)
    ensures NoStraddle(Cut2(), P1) && NoStraddle(Cut2(), P2)
    ensures NoStraddle(Cut3(), P3) && NoStraddle(Cut3(), P5)
  {
  }

  lemma WholeIs()
    ensures WellFormed(Whole(), 0x40000) && StartsAligned(Whole()) && HeapAbove(Whole(), 0x30000)
    ensures forall a: nat :: SlotAt(Whole(), a) ==
                             if P0 <= a < P4 then Some(Slot(READ_ONLY, Anonymous, 1, a - P0)) else None
  {
    forall a: nat
      ensures SlotAt(Whole(), a) == if P0 <= a < P4 then Some(Slot(READ_ONLY, Anonymous, 1, a - P0)) else None
    {
      if P0 <= a < P4 {
        assert Covers(Whole(), P0, a);
      }
    }
  }

  lemma SharedValid()
    ensures Inv(Shared(Whole())) && Stale(Shared(Whole())) == iset{}
  {
    hide SlotAt, Whole, WellFormed, StartsAligned, HeapAbove;
    WholeIs();
  }

  /** The mprotect of pages 1 to 3 cuts the VMA, */
  lemma CutByMprotect()
    ensures SplitAt(Whole(), P1) == Cut1() && Inv(Shared(Cut1())) && Stale(Shared(Cut1())) == iset{}
  {
    hide Inv, Quiet, Framed, View, Stale, Whole, Cut1, SplitAt, KeepsCuts, NoStraddle;
    FirstCut();
    SharedValid();
    SplitQuiet(Shared(Whole()), P1);
    QuietIsFramed(Shared(Whole()), Shared(Cut1()));
  }

  /** detaches the new piece from the shared buffer, */
  lemma DetachedByMprotect()
    ensures Inv(Shared(Cut1())) && P1 in Cut1() && Shared(Cut1()).owners[10] != {Owner(0, 1)}
    ensures Detached(Shared(Cut1()), P1, 11) == Doubled(ApartMap())
    ensures Inv(Doubled(ApartMap())) && Stale(Doubled(ApartMap())) == iset{}
  {
    hide Inv, Quiet, Framed, View, Stale, SplitAt;
    CutByMprotect();
    DetachedIs();
    assert !Unshared(Shared(Cut1()));
    DetachQuiet(Shared(Cut1()), P1, 11);
    QuietIsFramed(Shared(Cut1()), Doubled(ApartMap()));
  }

  lemma DetachedIs()
    requires Inv(Shared(Cut1()))
    ensures P1 in Cut1() && Detached(Shared(Cut1()), P1, 11) == Doubled(ApartMap())
  {
    hide Inv;
    var s := Shared(Cut1());
    assert s.bytes[10][0x1000..0x1000 + (P4 - P1)] == Blank(0x3000);
    assert Cut1()[P1 := Region(P1, P4, READ_ONLY, 2, 0)] == ApartMap();
  }

  /** and reprotects it. Nothing is stale yet. */
  lemma OpenedByMprotect()
    ensures Reprotected(ApartMap(), P1, P4, READ_WRITE) == Opened()
    ensures Inv(Doubled(Opened())) && Stale(Doubled(Opened())) == iset{}
  {
    hide Inv, Framed, View, Stale, Opened, ApartMap, Reprotected, NoStraddle;
    LaterMaps();
    NoneStraddled();
    DetachedByMprotect();
    ReprotectedView(Doubled(ApartMap()), P1, P4, READ_WRITE);
  }

  /** The munmap of page 1. Both allocations stay in use. */
  lemma HoledByMunmap()
    ensures RemoveStarts(SplitAt(Opened(), P2), P1, P2) == Holed() && Referenced(Holed()) == {1, 2}
    ensures Inv(Doubled(Holed())) && Stale(Doubled(Holed())) == iset{}
  {
    hide Inv, Framed, Quiet, View, Stale, Opened, Cut2, SplitAt, RemoveStarts, NoStraddle, KeepsCuts;
    LaterMaps();
    NoneStraddled();
    SecondCut();
    OpenedByMprotect();
    SplitQuiet(Doubled(Opened()), P2);
    QuietIsFramed(Doubled(Opened()), Doubled(Cut2()));
    RemovedView(Doubled(Cut2()), P1, P2);
    assert Holed()[P0].allocationId == 1 && Holed()[P2].allocationId == 2;
  }

  /** The fixed mmap of page 1 is backed by the older of the two allocations that contain the page, */
  lemma ReusedByMmap()
    ensures !Overlapping(Holed(), P1, P2)
    ensures Provides(Doubled(Holed()), 1, 0x1000, P1, 0x1000) && LowestBacking(Doubled(Holed()), 1, P1, 0x1000)
    ensures Contains(Doubled(Holed()).allocations[2], Doubled(Holed()).bytes, P1, 0x1000)
  {
  }

  lemma RebufferedIs()
    requires Inv(Doubled(Holed()))
    ensures Rebuffered(Doubled(Holed()), 1, 12) == Own(Holed(), Blank(0x4000))
  {
    hide Inv, Holed;
    var s, t, u := Doubled(Holed()), Rebuffered(Doubled(Holed()), 1, 12), Own(Holed(), Blank(0x4000));
    assert s.owners[10] - {Owner(0, 1)} == {Owner(1, 1)};
    assert t.owners == u.owners && t.bytes == u.bytes && t.allocations == u.allocations;
  }

  /** which first gets a buffer of its own */
  lemma UnsharedByMmap()
    ensures Inv(Doubled(Holed())) && Rebuffered(Doubled(Holed()), 1, 12) == Own(Holed(), Blank(0x4000))
    ensures Inv(Own(Holed(), Blank(0x4000)))
  {
    hide Inv, Framed, Quiet, View, Stale, Holed, SplitAt, RemoveStarts;
    HoledByMunmap();
    RebufferedIs();
    assert !Unshared(Doubled(Holed()));
    RebufferQuiet(Doubled(Holed()), 1, 12);
  }

  /** and is zeroed. The newer allocation covers the page still: its byte is stale. */
  lemma RemappedByMmap()
    ensures Blit(Blank(0x4000), 0x1000, Blank(0x1000)) == Blank(0x4000)
    ensures Holed()[P1 := Region(P1, P2, READ_WRITE, 1, 0x1000)] == Remapped()
    ensures Inv(Own(Remapped(), Blank(0x4000))) && P1 in Stale(Own(Remapped(), Blank(0x4000)))
  {
    hide Inv, View, Stale, HasRoom, Remapped;
    LaterMaps();
    UnsharedByMmap();
    var s := Own(Holed(), Blank(0x4000));
    RoomInHole();
    PlacedView(s, Region(P1, P2, READ_WRITE, 1, 0x1000));
    StaleAt(Own(Remapped(), Blank(0x4000)), P1, 2);
  }

  lemma RoomInHole()
    ensures HasRoom(Holed(), Region(P1, P2, READ_WRITE, 1, 0x1000))
  {
  }

  lemma StaleAt(s: State, k: nat, newer: nat)
    requires Inv(s) && k in s.vmas && s.vmas[k].allocationId < newer && newer in s.allocations
    requires AllocationCovers(s.allocations[newer], s.bytes, k)
    ensures k in Stale(s)
  {
    BackedVma(s, k);
    SlotIs(s.vmas, k, k);
  }

  /** The contents of the older allocation once the guest wrote 7 to page 1. */
  function Seven(): seq<Byte> {
    Blit(Blank(0x4000), 0x1000, [7])
  }

  /** The store of 7 at the start of page 1. */
  lemma WrittenByStore()
    ensures Inv(Own(Remapped(), Blank(0x4000)))
    ensures Own(Remapped(), Seven()) == Stored(Own(Remapped(), Blank(0x4000)), 1, 0x1000, [7])
    ensures View(Own(Remapped(), Seven())) == Overlay(View(Own(Remapped(), Blank(0x4000))), P1, [7])
    ensures Inv(Own(Remapped(), Seven()))
  {
    hide Inv, View, Framed, Stale, Overlay;
    RemappedByMmap();
    StoredIs();
    StoreStep(Own(Remapped(), Blank(0x4000)), P1, P1, [7]);
  }

  lemma StoredIs()
    requires Inv(Own(Remapped(), Blank(0x4000)))
    ensures Own(Remapped(), Seven()) == Stored(Own(Remapped(), Blank(0x4000)), 1, 0x1000, [7])
  {
    hide Inv, Remapped;
  }

  /** The fixed mmap of pages 3 and 4 clears them. */
  lemma ClearedByMmap()
    ensures RemoveStarts(SplitAt(Remapped(), P3), P3, P5) == Cleared()
    ensures Inv(Own(Cleared(), Seven()))
    ensures View(Own(Cleared(), Seven())) == Unmap(View(Own(Remapped(), Seven())), P3, P5)
  {
    hide Inv, Framed, Quiet, View, Stale, Remapped, Cleared, Cut3, SplitAt, RemoveStarts, NoStraddle, KeepsCuts, Unmap;
    LaterMaps();
    NoneStraddled();
    ThirdCut();
    WrittenByStore();
    SplitQuiet(Own(Remapped(), Seven()), P3);
    QuietIsFramed(Own(Remapped(), Seven()), Own(Cut3(), Seven()));
    RemovedView(Own(Cut3(), Seven()), P3, P5);
  }

  /** Both allocations put aside. */
  function Released(): State {
    Own(Cleared(), Seven()).(allocations := map[], bytes := map[10 := Blank(0x4000)],
                             owners := map[10 := {Owner(1, 1)}])
  }

  function Aside(): seq<Saved> {
    [Saved(1, P0, Seven()), Saved(2, P1, Blank(0x3000))]
  }

  /** No allocation contains pages 3 and 4, and both meet them: the two are merged over their hull. */
  lemma MergedByMmap()
    ensures var s := Own(Cleared(), Seven());
            && !Contains(s.allocations[1], s.bytes, P3, 0x2000) && !Contains(s.allocations[2], s.bytes, P3, 0x2000)
            && Touching(s, {1, 2}, P3, P5) && Hull(s, {1, 2}, P3, P5, P0, P5)
            && Replacing(s, Released(), {1, 2}, Aside(), P0, P5, 13)
  {
    hide Inv, View, Cleared, Seven, Touching, Hull, SavedFrom, FitIn, Shed, RemoveStarts, SplitAt;
    ClearedByMmap();
    SevenLength();
    ReleasedSheds();
    HullIs();
    AsideIs();
  }

  lemma SevenLength()
    ensures |Seven()| == 0x4000 && Seven()[0x1000] == 7
  {
  }

  lemma HullIs()
    ensures var s := Own(Cleared(), Seven()); Touching(s, {1, 2}, P3, P5) && Hull(s, {1, 2}, P3, P5, P0, P5)
  {
    hide Cleared, Seven;
    SevenLength();
    var s := Own(Cleared(), Seven());
    assert s.allocations[1].guestStart == P0;
  }

  lemma AsideIs()
    ensures SavedFrom(Aside(), Own(Cleared(), Seven()), {1, 2}) && FitIn(Aside(), P0, P5)
  {
    hide Cleared, Seven;
    SevenLength();
    assert Aside()[0].id == 1 && Aside()[1].id == 2;
  }

  /** The older allocation put aside. */
  function HalfReleased(): State {
    Own(Cleared(), Seven()).(allocations := map[2 := Allocation(P1, 11)],
                             bytes := map[10 := Blank(0x4000), 11 := Blank(0x3000)],
                             owners := map[10 := {Owner(1, 1)}, 11 := {Owner(0, 2)}])
  }

  lemma FirstReleased()
    requires Stocked(Own(Cleared(), Seven()))
    ensures Dropped(Own(Cleared(), Seven()), 1) == HalfReleased()
  {
    hide Stocked, Cleared, Seven;
    var s, t := Own(Cleared(), Seven()), HalfReleased();
    assert s.allocations - {1} == t.allocations && s.bytes - {12} == t.bytes && s.owners - {12} == t.owners;
  }

  lemma SecondReleased()
    requires Stocked(HalfReleased())
    ensures Dropped(HalfReleased(), 2) == Released()
  {
    hide Stocked, Cleared, Seven;
    var s, t := HalfReleased(), Released();
    assert s.allocations - {2} == t.allocations && s.bytes - {11} == t.bytes && s.owners - {11} == t.owners;
  }

  lemma ReleasedSheds()
    requires Inv(Own(Cleared(), Seven()))
    ensures Shed(Own(Cleared(), Seven()), Released(), {1, 2})
  {
    hide Inv, Cleared, Seven, Shed, Dropped;
    var s := Own(Cleared(), Seven());
    InvStocked(s);
    FirstReleased();
    DroppedKeepsBytes(s, 1);
    ShedParts(s, HalfReleased(), {1});
    SecondReleased();
    DroppedKeepsBytes(HalfReleased(), 2);
    ShedOneMore(s, HalfReleased(), Released(), {1}, 2);
    assert {1} + {2} == {1, 2};
  }

  /**
   The guest wrote 7 to page 1, then mapped pages 3 and 4, and finds 0 on page 1: the merge copied the newer
   allocation over the one page 1 uses.
   */
  lemma WriteIsLost()
    ensures var before := Own(Cleared(), Seven());
            && Inv(before) && Replacing(before, Released(), {1, 2}, Aside(), P0, P5, 13)
            && P1 in View(before) && View(before)[P1] == Cell(7, READ_WRITE, Anonymous)
    ensures var after := Replaced(Released(), {1, 2}, Aside(), P0, P5, 13);
            && Inv(after) && P1 in View(after) && View(after)[P1] == Cell(0, READ_WRITE, Anonymous)
  {
    hide Inv, View, Replacing, Merged, Touching, Hull, Seven, Framed, AllocationsDisjoint, RemoveStarts, SplitAt;
    hide Contains, Unmap;
    hide SameRanges, Sole, FitIn;
    var before := Own(Cleared(), Seven());
    ClearedByMmap();
    MergedByMmap();
    SevenLength();
    VmaView(before, P1, P1);
    ReplacedFramed(before, Released(), {1, 2}, Aside(), P0, P5, 13, P3, P5);
    MergedByte();
    VmaView(Replaced(Released(), {1, 2}, Aside(), P0, P5, 13), P1, P1);
  }

  lemma MergedByte()
    ensures FitIn(Aside(), P0, P5) && Merged(Aside(), P0, P5)[P1 - P0] == 0
  {
    hide Merged, Seven;
    SevenLength();
    MergedAt(Aside(), P0, P5, 1, P1);
  }
}
