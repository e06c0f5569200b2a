/**
 The state of one guest memory as a value, its invariant, and the steps that rearrange the
 representation without the guest noticing.
 */
module GuestState {
  import opened Ranges
  import opened Bytes
  import opened Vmas
  import opened FlatMemory
  import opened Backing

  datatype State = State(
    member: nat,
    spaceEnd: nat,
    heapBase: nat,
    vmas: VmaMap,
    allocations: AllocationMap,
    nextId: nat,
    bytes: HostBytes,
    owners: Owners
  )

  ghost predicate Inv(s: State) {
    && s.spaceEnd < U64_LIMIT
    && WellFormed(s.vmas, s.spaceEnd)
    && StartsAligned(s.vmas)
    && HeapAbove(s.vmas, s.heapBase)
    && Backed(s.vmas, s.allocations, s.bytes)
    && Stocked(s)
  }

  /** The part of the invariant that does not mention VMAs. */
  ghost predicate Stocked(s: State) {
    && Live(s.allocations, s.bytes, s.nextId)
    && Owned(s.member, s.allocations, s.owners)
  }

  ghost function View(s: State): FlatMap {
    Flat(s.vmas, s.allocations, s.bytes)
  }

  /** No buffer is shared with another member and no two allocations overlap. */
  ghost predicate Private(s: State) {
    && AllocationsDisjoint(s.allocations, s.bytes)
    && Unshared(s)
  }

  ghost predicate Unshared(s: State) {
    forall i :: i in s.allocations ==>
      s.allocations[i].memory in s.owners && s.owners[s.allocations[i].memory] == {Owner(s.member, i)}
  }

  /** The addresses whose bytes a merge of allocations may lose. */
  ghost function Stale(s: State): iset<nat> {
    StaleIn(s.vmas, s.allocations, s.bytes)
  }

  ghost function Extents(s: State): iset<(nat, nat)> {
    ExtentsIn(s.allocations, s.bytes)
  }

  /** The frame of every operation: same member and space, no other member affected, alignment and privacy kept. */
  ghost predicate Framed(s: State, t: State) {
    && t.member == s.member && t.spaceEnd == s.spaceEnd && t.heapBase == s.heapBase
    && Inv(t)
    && Isolated(s.member, s.owners, s.bytes, t.owners, t.bytes)
    && KeepsAlignment(s.vmas, t.vmas)
    && (Private(s) ==> Private(t))
  }

  /** A framed step the guest cannot see. */
  ghost predicate Quiet(s: State, t: State) {
    && Framed(s, t)
    && View(t) == View(s)
    && Stale(t) <= Stale(s)
  }

  lemma FramedTransitive(s: State, t: State, u: State)
    requires Framed(s, t) && Framed(t, u)
    ensures Framed(s, u)
  {
    IsolatedTransitive(s.member, s.owners, s.bytes, t.owners, t.bytes, u.owners, u.bytes);
  }

  lemma QuietTransitive(s: State, t: State, u: State)
    requires Quiet(s, t) && Quiet(t, u)
    ensures Inv(u) && Quiet(s, u)
  {
    FramedTransitive(s, t, u);
  }

  lemma FramedQuiet(s: State, t: State, u: State)
    requires Framed(s, t) && Quiet(t, u)
    ensures Framed(s, u) && View(u) == View(t) && Stale(u) <= Stale(t)
  {
    FramedTransitive(s, t, u);
  }

  lemma FramedIsolated(s: State, t: State)
    requires Framed(s, t)
    ensures Isolated(s.member, s.owners, s.bytes, t.owners, t.bytes)
  {
  }

  lemma FramedSpace(s: State, t: State)
    requires Framed(s, t)
    ensures t.member == s.member && t.spaceEnd == s.spaceEnd && t.heapBase == s.heapBase
  {
  }

  lemma FramedPrivate(s: State, t: State)
    requires Framed(s, t) && Private(s)
    ensures Private(t)
  {
  }

  lemma PrivateIsNewest(s: State)
    requires Inv(s) && Private(s)
    ensures Stale(s) == iset{}
  {
    DisjointIsNewest(s.vmas, s.allocations, s.bytes);
  }

  lemma QuietIsFramed(s: State, t: State)
    requires Quiet(s, t)
    ensures Framed(s, t) && View(t) == View(s) && Stale(t) <= Stale(s)
  {
  }

  ghost predicate HostOk(s: State) {
    s.owners.Keys == s.bytes.Keys
  }

  lemma QuietReflexive(s: State)
    requires Inv(s) && HostOk(s)
    ensures Quiet(s, s) && Framed(s, s) && SameContents(s.allocations, s.bytes, s.allocations, s.bytes)
  {
  }

  /** Any step that only exchanges the VMA map for another well-formed, backed one. */
  lemma VmaStepFramed(s: State, vmas: VmaMap)
    requires Inv(s) && HostOk(s)
    requires WellFormed(vmas, s.spaceEnd) && Backed(vmas, s.allocations, s.bytes)
    requires KeepsAlignment(s.vmas, vmas) && HeapAbove(vmas, s.heapBase)
    ensures Inv(s.(vmas := vmas)) && Framed(s, s.(vmas := vmas))
  {
    hide WellFormed, Backed, Live, Owned, AllocationsDisjoint;
  }

  /** Cutting or joining VMAs. */
  lemma ReslotQuiet(s: State, vmas: VmaMap)
    requires Inv(s) && HostOk(s)
    requires WellFormed(vmas, s.spaceEnd) && SameSlots(s.vmas, vmas) && Carries(s.vmas, vmas)
    ensures Inv(s.(vmas := vmas)) && Quiet(s, s.(vmas := vmas))
  {
    hide WellFormed, Backed, Live, Owned, StaleIn, Flat, SameSlots;
    SameSlotsSameFlat(s.vmas, vmas, s.allocations, s.bytes);
    VmaStepFramed(s, vmas);
  }

  lemma SplitQuiet(s: State, address: nat)
    requires Inv(s) && HostOk(s) && IsPageAligned(address)
    ensures Inv(s.(vmas := SplitAt(s.vmas, address))) && Quiet(s, s.(vmas := SplitAt(s.vmas, address)))
    ensures NoStraddle(SplitAt(s.vmas, address), address)
    ensures KeepsCuts(s.vmas, SplitAt(s.vmas, address))
  {
    SplitKeepsSlots(s.vmas, s.spaceEnd, address);
    SplitKeepsAlignment(s.vmas, address);
    ReslotQuiet(s, SplitAt(s.vmas, address));
  }

  /** The same contents in whatever buffers: invisible. */
  lemma SameContentsQuiet(s: State, t: State)
    requires Inv(s) && t == s.(allocations := t.allocations, bytes := t.bytes, owners := t.owners)
    requires SameContents(s.allocations, s.bytes, t.allocations, t.bytes)
    requires Isolated(s.member, s.owners, s.bytes, t.owners, t.bytes)
    requires Owned(t.member, t.allocations, t.owners)
    requires Unshared(s) ==> Unshared(t)
    ensures Inv(t) && Quiet(s, t)
  {
    hide WellFormed, Backed, Owned, Isolated, StaleIn, Flat, Unshared, AllocationsDisjoint;
    SameContentsSameFlat(s.vmas, s.allocations, s.bytes, t.allocations, t.bytes, s.nextId);
  }

  /** The state after moving one allocation's contents from a shared buffer to a buffer of its own. */
  ghost function Rebuffered(s: State, id: nat, h: nat): State
    requires Inv(s) && id in s.allocations
  {
    var from := s.allocations[id].memory;
    assert HeldBy(s.owners, from, s.member, id);
    s.(allocations := s.allocations[id := s.allocations[id].(memory := h)],
       bytes := s.bytes[h := s.bytes[from]],
       owners := s.owners[h := {Owner(s.member, id)}][from := s.owners[from] - {Owner(s.member, id)}])
  }

  lemma RebufferQuiet(s: State, id: nat, h: nat)
    requires Inv(s) && HostOk(s) && id in s.allocations && h !in s.bytes && !Unshared(s)
    ensures SameContents(s.allocations, s.bytes, Rebuffered(s, id, h).allocations, Rebuffered(s, id, h).bytes)
    ensures Inv(Rebuffered(s, id, h)) && Quiet(s, Rebuffered(s, id, h))
  {
    var t := Rebuffered(s, id, h);
    MoveOwned(s.member, s.allocations, s.owners, id, h);
    assert SameContents(s.allocations, s.bytes, t.allocations, t.bytes);
    SameContentsQuiet(s, t);
  }

  lemma RebufferExtents(s: State, id: nat, h: nat)
    requires Inv(s) && HostOk(s) && id in s.allocations && h !in s.bytes && !Unshared(s)
    ensures Extents(Rebuffered(s, id, h)) == Extents(s)
  {
    hide Inv, Quiet, ExtentsIn, Rebuffered;
    RebufferQuiet(s, id, h);
    var t := Rebuffered(s, id, h);
    SameContentsSameExtents(s.allocations, s.bytes, t.allocations, t.bytes);
  }

  /** What backing means for a whole VMA: its allocation covers it at a fixed distance. */
  lemma BackedVma(s: State, k: nat)
    requires Inv(s) && k in s.vmas
    ensures var v := s.vmas[k];
            && WellPlaced(v, k, s.spaceEnd)
            && v.allocationId in s.allocations
            && s.allocations[v.allocationId].memory in s.bytes
            && s.allocations[v.allocationId].guestStart + v.allocationOffset == v.start
            && v.end <= AllocationEnd(s.allocations[v.allocationId], s.bytes)
  {
    var v := s.vmas[k];
    SlotIs(s.vmas, k, v.start);
    SlotIs(s.vmas, k, v.end - 1);
  }

  lemma InvWellFormed(s: State)
    requires Inv(s)
    ensures WellFormed(s.vmas, s.spaceEnd)
  {
  }

  lemma LiveAllocation(s: State, id: nat)
    requires Inv(s) && id in s.allocations
    ensures Stocked(s)
    ensures s.allocations[id].memory in s.bytes && HeldBy(s.owners, s.allocations[id].memory, s.member, id)
    ensures id < s.nextId && AllocationEnd(s.allocations[id], s.bytes) < U64_LIMIT
  {
  }

  /** The state after giving one VMA a private copy of its part of a shared allocation. */
  ghost function Detached(s: State, k: nat, h: nat): State
    requires Inv(s) && k in s.vmas
  {
    BackedVma(s, k);
    var v := s.vmas[k];
    var buffer := s.bytes[s.allocations[v.allocationId].memory];
    var copy := buffer[v.allocationOffset..v.allocationOffset + (v.end - v.start)];
    s.(vmas := s.vmas[k := v.(allocationId := s.nextId, allocationOffset := 0)],
       allocations := s.allocations[s.nextId := Allocation(v.start, h)],
       nextId := s.nextId + 1,
       bytes := s.bytes[h := copy],
       owners := s.owners[h := {Owner(s.member, s.nextId)}])
  }

  lemma DetachedSlots(s: State, k: nat, h: nat, a: nat)
    requires Inv(s) && k in s.vmas
    ensures WellFormed(Detached(s, k, h).vmas, s.spaceEnd)
    ensures SlotAt(Detached(s, k, h).vmas, a) ==
            if s.vmas[k].Contains(a)
            then Some(Slot(s.vmas[k].protection, s.vmas[k].kind, s.nextId, a - k))
            else SlotAt(s.vmas, a)
  {
    PutAdds(s.vmas, s.spaceEnd, s.vmas[k].(allocationId := s.nextId, allocationOffset := 0));
  }

  lemma DetachedCell(s: State, k: nat, h: nat, a: nat)
    requires Inv(s) && k in s.vmas && h !in s.bytes
    ensures SlotAt(Detached(s, k, h).vmas, a).Some? <==> SlotAt(s.vmas, a).Some?
    ensures SlotAt(s.vmas, a).Some? ==>
              var t := Detached(s, k, h);
              var slot, slot' := SlotAt(s.vmas, a).value, SlotAt(t.vmas, a).value;
              && BackedSlot(t.allocations, t.bytes, a, slot')
              && slot'.protection == slot.protection && slot'.kind == slot.kind
              && ByteOf(t.allocations, t.bytes, slot') == ByteOf(s.allocations, s.bytes, slot)
  {
    DetachedSlots(s, k, h, a);
    BackedVma(s, k);
    if s.vmas[k].Contains(a) {
      SlotIs(s.vmas, k, a);
    } else if SlotAt(s.vmas, a).Some? {
      var slot := SlotAt(s.vmas, a).value;
      assert BackedSlot(s.allocations, s.bytes, a, slot);
      assert slot.allocationId != s.nextId;
    }
  }

  lemma DetachedView(s: State, k: nat, h: nat)
    requires Inv(s) && k in s.vmas && h !in s.bytes
    ensures Backed(Detached(s, k, h).vmas, Detached(s, k, h).allocations, Detached(s, k, h).bytes)
    ensures View(Detached(s, k, h)) == View(s)
  {
    hide Inv, Detached, SlotAt, BackedSlot, ByteOf;
    var t := Detached(s, k, h);
    forall a: nat
      ensures SlotAt(t.vmas, a).Some? <==> SlotAt(s.vmas, a).Some?
      ensures SlotAt(t.vmas, a).Some? ==> BackedSlot(t.allocations, t.bytes, a, SlotAt(t.vmas, a).value)
      ensures a in View(s) ==> a in View(t) && View(t)[a] == View(s)[a]
    {
      DetachedCell(s, k, h, a);
    }
  }

  lemma DetachedOwners(s: State, k: nat, h: nat)
    requires Inv(s) && HostOk(s) && k in s.vmas && h !in s.bytes
    ensures Owned(s.member, Detached(s, k, h).allocations, Detached(s, k, h).owners)
    ensures Isolated(s.member, s.owners, s.bytes, Detached(s, k, h).owners, Detached(s, k, h).bytes)
    ensures Live(Detached(s, k, h).allocations, Detached(s, k, h).bytes, s.nextId + 1)
  {
    BackedVma(s, k);
    AddOwned(s.member, s.allocations, s.owners, s.nextId, Allocation(s.vmas[k].start, h));
  }

  lemma DetachQuiet(s: State, k: nat, h: nat)
    requires Inv(s) && HostOk(s) && k in s.vmas && h !in s.bytes && !Unshared(s)
    ensures Inv(Detached(s, k, h)) && Quiet(s, Detached(s, k, h))
  {
    hide WellFormed, Backed, View, Live, Owned, Isolated, Stale, AllocationsDisjoint, SlotAt;
    DetachedView(s, k, h);
    DetachedOwners(s, k, h);
    DetachedSlots(s, k, h, 0);
    DetachKeepsLayers(s, k, h);
    DetachedCarries(s, k, h);
  }

  lemma DetachedCarries(s: State, k: nat, h: nat)
    requires Inv(s) && k in s.vmas
    ensures Carries(s.vmas, Detached(s, k, h).vmas)
  {
    hide Backed, Stocked;
  }

  lemma DetachKeepsLayers(s: State, k: nat, h: nat)
    requires Inv(s) && k in s.vmas && h !in s.bytes
    ensures Stale(Detached(s, k, h)) <= Stale(s)
  {
    var t := Detached(s, k, h);
    BackedVma(s, k);
    forall a: nat, j | SlotAt(t.vmas, a).Some? && j in t.allocations && AllocationCovers(t.allocations[j], t.bytes, a)
                       && a !in Stale(s)
      ensures j <= SlotAt(t.vmas, a).value.allocationId
    {
      DetachedSlots(s, k, h, a);
    }
  }

  /** Forgetting allocations no VMA uses. */
  ghost function Referenced(vmas: VmaMap): set<nat> {
    set k | k in vmas :: vmas[k].allocationId
  }

  /** The state after giving up one allocation. */
  ghost function Dropped(s: State, id: nat): State
    requires Stocked(s) && id in s.allocations
  {
    var h := s.allocations[id].memory;
    assert HeldBy(s.owners, h, s.member, id);
    if s.owners[h] == {Owner(s.member, id)}
    then s.(allocations := s.allocations - {id}, bytes := s.bytes - {h}, owners := s.owners - {h})
    else s.(allocations := s.allocations - {id}, owners := s.owners[h := s.owners[h] - {Owner(s.member, id)}])
  }

  /** `t` is `s` without some allocations; the others kept their buffers and contents. */
  ghost predicate Shed(s: State, t: State, gone: set<nat>) {
    && t == s.(allocations := s.allocations - gone, bytes := t.bytes, owners := t.owners)
    && Stocked(t)
    && Isolated(s.member, s.owners, s.bytes, t.owners, t.bytes)
    && (Unshared(s) ==> Unshared(t))
    && forall i :: i in t.allocations ==>
         t.allocations[i].memory in s.bytes && t.allocations[i].memory in t.bytes
         && t.bytes[t.allocations[i].memory] == s.bytes[t.allocations[i].memory]
  }

  lemma ShedNothing(s: State)
    requires Stocked(s) && HostOk(s)
    ensures Shed(s, s, {})
  {
    assert s.allocations - {} == s.allocations;
  }

  lemma StockedAllocation(s: State, id: nat)
    requires Stocked(s) && id in s.allocations
    ensures s.allocations[id].memory in s.bytes && HeldBy(s.owners, s.allocations[id].memory, s.member, id)
  {
  }

  lemma AllocationsInStore(s: State)
    requires Inv(s)
    ensures forall i :: i in s.allocations ==> s.allocations[i].memory in s.bytes
  {
  }

  lemma InvBacked(s: State)
    requires Inv(s)
    ensures Backed(s.vmas, s.allocations, s.bytes)
  {
  }

  lemma HeapStartsAbove(s: State)
    requires Inv(s)
    ensures forall k :: k in s.vmas && s.vmas[k].kind.Heap? ==> s.heapBase <= s.vmas[k].start
  {
  }

  lemma InvStocked(s: State)
    requires Inv(s)
    ensures Stocked(s)
  {
  }

  lemma ShedParts(s: State, t: State, gone: set<nat>)
    requires Shed(s, t, gone)
    ensures t.vmas == s.vmas && t.nextId == s.nextId && t.member == s.member && Stocked(t)
  {
  }

  lemma ShedOneMore(s: State, t: State, u: State, gone: set<nat>, id: nat)
    requires Shed(s, t, gone) && Shed(t, u, {id})
    ensures Shed(s, u, gone + {id}) && Stocked(u) && u.allocations == t.allocations - {id}
  {
    IsolatedTransitive(s.member, s.owners, s.bytes, t.owners, t.bytes, u.owners, u.bytes);
    assert s.allocations - (gone + {id}) == (s.allocations - gone) - {id};
  }

  lemma DroppedKeepsBytes(s: State, id: nat)
    requires Stocked(s) && HostOk(s) && id in s.allocations
    ensures Shed(s, Dropped(s, id), {id})
  {
    var t := Dropped(s, id);
    assert HeldBy(s.owners, s.allocations[id].memory, s.member, id);
    DropOwned(s.member, s.allocations, s.owners, id, t.owners);
    forall i | i in t.allocations
      ensures t.allocations[i].memory in t.bytes
    {
      assert HeldBy(s.owners, s.allocations[i].memory, s.member, i);
    }
  }

  lemma DropShrinks(s: State, id: nat)
    requires Stocked(s) && HostOk(s) && id in s.allocations
    ensures Extents(Dropped(s, id)) <= Extents(s)
  {
    hide Isolated, Unshared, Dropped;
    DroppedKeepsBytes(s, id);
    ShedShrinks(s, Dropped(s, id), {id});
  }

  lemma ShedShrinks(s: State, t: State, gone: set<nat>)
    requires Shed(s, t, gone)
    ensures Extents(t) <= Extents(s)
  {
    hide Isolated, Unshared, Stocked;
    forall e: (nat, nat) | Extent(t.allocations, t.bytes, e)
      ensures Extent(s.allocations, s.bytes, e)
    {
      var i :| i in t.allocations && t.allocations[i].memory in t.bytes
               && e == (t.allocations[i].guestStart, AllocationEnd(t.allocations[i], t.bytes));
      assert i in s.allocations && e == (s.allocations[i].guestStart, AllocationEnd(s.allocations[i], s.bytes));
    }
  }

  lemma DropQuiet(s: State, id: nat)
    requires Inv(s) && HostOk(s) && id in s.allocations && id !in Referenced(s.vmas)
    ensures Inv(Dropped(s, id)) && Quiet(s, Dropped(s, id))
  {
    var t := Dropped(s, id);
    DroppedKeepsBytes(s, id);
    forall a: nat | SlotAt(s.vmas, a).Some?
      ensures SlotAt(s.vmas, a).value.allocationId in t.allocations
    {
      var k := KeyAt(s.vmas, a);
      assert s.vmas[k].allocationId in Referenced(s.vmas);
      assert BackedSlot(s.allocations, s.bytes, a, SlotAt(s.vmas, a).value);
    }
    assert forall i, a: nat :: i in t.allocations ==>
      AllocationCovers(t.allocations[i], t.bytes, a) == AllocationCovers(s.allocations[i], s.bytes, a);
  }

  // Taking a new buffer

  /** The state after adding an allocation over a new buffer. */
  ghost function Added(s: State, guestStart: nat, data: seq<Byte>, h: nat): State {
    s.(allocations := s.allocations[s.nextId := Allocation(guestStart, h)],
       nextId := s.nextId + 1,
       bytes := s.bytes[h := data],
       owners := s.owners[h := {Owner(s.member, s.nextId)}])
  }

  lemma AddStock(s: State, guestStart: nat, data: seq<Byte>, h: nat)
    requires Stocked(s) && HostOk(s) && h !in s.bytes && 0 < |data| && guestStart + |data| < U64_LIMIT
    ensures var t := Added(s, guestStart, data, h);
            && Stocked(t) && Isolated(s.member, s.owners, s.bytes, t.owners, t.bytes)
            && (Unshared(s) ==> Unshared(t)) && Sole(t, s.nextId)
  {
    AddOwned(s.member, s.allocations, s.owners, s.nextId, Allocation(guestStart, h));
  }

  lemma StockIgnoresVmas(s: State, t: State)
    requires t == s.(vmas := t.vmas)
    ensures Stocked(s) ==> Stocked(t)
    ensures Unshared(s) ==> Unshared(t)
    ensures forall id :: Sole(s, id) ==> Sole(t, id)
  {
  }

  // Storing bytes

  /** The state after writing `data` at `offset` of an allocation's buffer. */
  ghost function Stored(s: State, id: nat, offset: nat, data: seq<Byte>): State
    requires Inv(s) && id in s.allocations
    requires offset + |data| <= |s.bytes[s.allocations[id].memory]|
  {
    var h := s.allocations[id].memory;
    s.(bytes := s.bytes[h := Blit(s.bytes[h], offset, data)])
  }

  ghost predicate Sole(s: State, id: nat) {
    && id in s.allocations && s.allocations[id].memory in s.owners
    && s.owners[s.allocations[id].memory] == {Owner(s.member, id)}
  }

  /** Every VMA that meets [start, end) uses a buffer nobody else holds. */
  ghost predicate Exclusive(s: State, start: nat, end: nat) {
    forall k :: k in s.vmas && s.vmas[k].Overlaps(start, end) ==> Sole(s, s.vmas[k].allocationId)
  }

  /** Buffers held once stay held once, as long as their allocation stays. */
  ghost predicate KeepsSole(s: State, t: State) {
    forall i :: Sole(s, i) && i in t.allocations ==> Sole(t, i)
  }

  lemma SoleKept(s: State)
    ensures KeepsSole(s, s)
  {
  }

  lemma AllStillSole(s: State, t: State, ids: seq<nat>)
    requires KeepsSole(s, t) && forall i :: 0 <= i < |ids| ==> Sole(s, ids[i]) && ids[i] in t.allocations
    ensures forall i :: 0 <= i < |ids| ==> Sole(t, ids[i])
  {
  }

  lemma UnsharedSole(s: State, id: nat)
    requires Unshared(s) && id in s.allocations
    ensures Sole(s, id)
  {
  }

  lemma UnsharedKept(s: State, t: State)
    requires Unshared(s) && KeepsSole(s, t) && t.allocations.Keys <= s.allocations.Keys && t.member == s.member
    ensures Unshared(t)
  {
    forall i | i in t.allocations
      ensures Sole(t, i)
    {
      assert i in s.allocations;
      assert Sole(s, i);
    }
  }

  lemma UnsharedIgnoresVmas(s: State)
    ensures forall vmas :: Unshared(s.(vmas := vmas)) <==> Unshared(s)
  {
  }

  lemma SoleKeptOn(s: State, t: State, u: State)
    requires KeepsSole(s, t) && KeepsSole(t, u) && u.allocations.Keys <= t.allocations.Keys
    ensures KeepsSole(s, u)
  {
    hide Sole;
  }

  lemma RebufferKeepsSole(s: State, id: nat, h: nat)
    requires Inv(s) && HostOk(s) && id in s.allocations && h !in s.bytes
    ensures KeepsSole(s, Rebuffered(s, id, h))
  {
    LiveAllocation(s, id);
  }

  lemma DetachKeepsSole(s: State, k: nat, h: nat)
    requires Inv(s) && HostOk(s) && k in s.vmas && h !in s.bytes
    ensures KeepsSole(s, Detached(s, k, h)) && Sole(Detached(s, k, h), s.nextId)
  {
    assert s.nextId !in s.allocations;
  }

  lemma DropKeepsSole(s: State, id: nat)
    requires Stocked(s) && id in s.allocations
    ensures KeepsSole(s, Dropped(s, id))
  {
    assert HeldBy(s.owners, s.allocations[id].memory, s.member, id);
  }

  /** Dropping allocations no VMA uses leaves the others held once. */
  lemma UsedStayExclusive(s: State, t: State, start: nat, end: nat)
    requires t.vmas == s.vmas && Inv(t) && KeepsSole(s, t) && Exclusive(s, start, end)
    ensures Exclusive(t, start, end)
  {
    hide Inv, Sole;
    forall k | k in t.vmas && t.vmas[k].Overlaps(start, end)
      ensures Sole(t, t.vmas[k].allocationId)
    {
      BackedVma(t, k);
    }
  }

  /** Behind a cut at `start`, the VMAs that meet the range are those that start in it. */
  lemma CutExclusive(s: State, start: nat, end: nat)
    requires Inv(s) && NoStraddle(s.vmas, start)
    requires forall k :: k in s.vmas && start <= k < end ==> Sole(s, s.vmas[k].allocationId)
    ensures Exclusive(s, start, end)
  {
    hide Sole;
    InvWellFormed(s);
    hide Inv;
    forall k | k in s.vmas && s.vmas[k].Overlaps(start, end)
      ensures start <= k < end
    {
      assert WellPlaced(s.vmas[k], k, s.spaceEnd);
    }
  }

  /** Detaching one VMA leaves the buffers of those detached before held once. */
  lemma StillSole(s: State, t: State, keys: seq<nat>, i: nat)
    requires i < |keys| && Inv(t) && KeepsSole(s, t) && t.vmas.Keys == s.vmas.Keys
    requires forall l :: l in t.vmas && l != keys[i] ==> t.vmas[l] == s.vmas[l]
    requires forall j :: 0 <= j < i ==> keys[j] in s.vmas && Sole(s, s.vmas[keys[j]].allocationId)
    ensures forall j :: 0 <= j < i && keys[j] != keys[i] ==> Sole(t, t.vmas[keys[j]].allocationId)
  {
    hide Inv, Sole;
    forall j | 0 <= j < i && keys[j] != keys[i]
      ensures Sole(t, t.vmas[keys[j]].allocationId)
    {
      BackedVma(t, keys[j]);
    }
  }

  lemma StoredExtents(s: State, id: nat, offset: nat, data: seq<Byte>)
    requires Inv(s) && id in s.allocations && offset + |data| <= |s.bytes[s.allocations[id].memory]|
    ensures Extents(Stored(s, id, offset, data)) == Extents(s)
  {
    hide Inv;
    AllocationsInStore(s);
    var t := Stored(s, id, offset, data);
    assert forall i :: i in s.allocations ==>
      AllocationEnd(t.allocations[i], t.bytes) == AllocationEnd(s.allocations[i], s.bytes);
    assert forall e: (nat, nat) :: Extent(t.allocations, t.bytes, e) <==> Extent(s.allocations, s.bytes, e);
  }

  lemma StoredFramed(s: State, id: nat, offset: nat, data: seq<Byte>)
    requires Inv(s) && HostOk(s) && Sole(s, id)
    requires offset + |data| <= |s.bytes[s.allocations[id].memory]|
    ensures Inv(Stored(s, id, offset, data)) && Framed(s, Stored(s, id, offset, data))
    ensures Stale(Stored(s, id, offset, data)) <= Stale(s) && Extents(Stored(s, id, offset, data)) == Extents(s)
  {
    StoredExtents(s, id, offset, data);
    hide Extents;
    var t := Stored(s, id, offset, data);
    assert forall h :: h in s.bytes ==> h in t.bytes && |t.bytes[h]| == |s.bytes[h]|;
    assert forall i, a: nat :: i in t.allocations ==>
      AllocationCovers(t.allocations[i], t.bytes, a) == AllocationCovers(s.allocations[i], s.bytes, a);
  }

  /** A store is seen exactly at the addresses backed by the bytes it hit. */
  lemma StoredCell(s: State, id: nat, offset: nat, data: seq<Byte>, a: nat)
    requires Inv(s) && Sole(s, id)
    requires offset + |data| <= |s.bytes[s.allocations[id].memory]|
    requires SlotAt(s.vmas, a).Some?
    ensures var t := Stored(s, id, offset, data);
            var slot := SlotAt(s.vmas, a).value;
            ByteOf(t.allocations, t.bytes, slot) ==
            if slot.allocationId == id && offset <= slot.offset < offset + |data| then data[slot.offset - offset]
            else ByteOf(s.allocations, s.bytes, slot)
  {
    var slot := SlotAt(s.vmas, a).value;
    assert BackedSlot(s.allocations, s.bytes, a, slot);
    assert HeldBy(s.owners, s.allocations[slot.allocationId].memory, s.member, slot.allocationId);
  }

  /** Storing through a VMA overlays exactly the guest addresses it is meant for. */
  lemma StoredThroughVma(s: State, k: nat, address: nat, data: seq<Byte>)
    requires Inv(s) && k in s.vmas && Sole(s, s.vmas[k].allocationId)
    requires k <= address && address + |data| <= s.vmas[k].end
    ensures var v := s.vmas[k];
            && v.allocationOffset + (address - k) + |data| <= |s.bytes[s.allocations[v.allocationId].memory]|
            && View(Stored(s, v.allocationId, v.allocationOffset + (address - k), data)) ==
               Overlay(View(s), address, data)
  {
    hide Inv, SlotAt;
    BackedVma(s, k);
    var v := s.vmas[k];
    var offset := v.allocationOffset + (address - k);
    var t := Stored(s, v.allocationId, offset, data);
    forall a: nat | SlotAt(s.vmas, a).Some?
      ensures View(t)[a] == Overlay(View(s), address, data)[a]
    {
      StoredThroughVmaAt(s, k, address, data, a);
    }
  }

  /** A store through a VMA, as a step of the whole state. */
  lemma StoreStep(s: State, k: nat, address: nat, data: seq<Byte>)
    requires Inv(s) && HostOk(s) && k in s.vmas && Sole(s, s.vmas[k].allocationId)
    requires k <= address && address + |data| <= s.vmas[k].end
    ensures var v := s.vmas[k];
            && v.allocationOffset + (address - k) + |data| <= |s.bytes[s.allocations[v.allocationId].memory]|
            && var t := Stored(s, v.allocationId, v.allocationOffset + (address - k), data);
            && Inv(t) && Framed(s, t) && View(t) == Overlay(View(s), address, data) && Stale(t) <= Stale(s)
  {
    hide Inv, Framed, View, Overlay, Sole, Stored, Stale;
    StoredThroughVma(s, k, address, data);
    StoredFramed(s, s.vmas[k].allocationId, s.vmas[k].allocationOffset + (address - k), data);
  }

  lemma StoredThroughVmaAt(s: State, k: nat, address: nat, data: seq<Byte>, a: nat)
    requires Inv(s) && k in s.vmas && Sole(s, s.vmas[k].allocationId)
    requires k <= address && address + |data| <= s.vmas[k].end
    requires SlotAt(s.vmas, a).Some?
    requires s.vmas[k].allocationOffset + (address - k) + |data|
             <= |s.bytes[s.allocations[s.vmas[k].allocationId].memory]|
    ensures var v := s.vmas[k];
            var t := Stored(s, v.allocationId, v.allocationOffset + (address - k), data);
            ByteOf(t.allocations, t.bytes, SlotAt(s.vmas, a).value) ==
            if address <= a < address + |data| then data[a - address]
            else ByteOf(s.allocations, s.bytes, SlotAt(s.vmas, a).value)
  {
    BackedVma(s, k);
    var v := s.vmas[k];
    StoredCell(s, v.allocationId, v.allocationOffset + (address - k), data, a);
    assert BackedSlot(s.allocations, s.bytes, a, SlotAt(s.vmas, a).value);
    if v.Contains(a) {
      SlotIs(s.vmas, k, a);
    }
  }

  /** Storing into a part of an allocation no VMA uses is invisible. */
  lemma StoredUnmapped(s: State, id: nat, offset: nat, data: seq<Byte>)
    requires Inv(s) && Sole(s, id)
    requires offset + |data| <= |s.bytes[s.allocations[id].memory]|
    requires var lo := s.allocations[id].guestStart + offset;
             forall a: nat :: lo <= a < lo + |data| ==> SlotAt(s.vmas, a).None?
    ensures View(Stored(s, id, offset, data)) == View(s)
  {
    var t := Stored(s, id, offset, data);
    forall a: nat | SlotAt(s.vmas, a).Some?
      ensures View(t)[a] == View(s)[a]
    {
      StoredCell(s, id, offset, data, a);
      assert BackedSlot(s.allocations, s.bytes, a, SlotAt(s.vmas, a).value);
    }
  }

  // Unmapping and reprotecting

  lemma RemovedView(s: State, start: nat, end: nat)
    requires Inv(s) && HostOk(s)
    requires NoStraddle(s.vmas, start) && NoStraddle(s.vmas, end) && start <= end
    ensures var t := s.(vmas := RemoveStarts(s.vmas, start, end));
            Inv(t) && Framed(s, t) && View(t) == Unmap(View(s), start, end) && Stale(t) <= Stale(s)
  {
    hide WellFormed, SlotAt, NoStraddle, Live, Owned, KeepsAlignment, HeapAbove, RemoveStarts;
    RemoveStartsIsExact(s.vmas, s.spaceEnd, start, end);
    VmaStepFramed(s, RemoveStarts(s.vmas, start, end));
  }

  lemma ReprotectedView(s: State, start: nat, end: nat, protection: Protection)
    requires Inv(s) && HostOk(s)
    requires NoStraddle(s.vmas, start) && NoStraddle(s.vmas, end) && start <= end
    ensures var t := s.(vmas := Reprotected(s.vmas, start, end, protection));
            Inv(t) && Framed(s, t) && View(t) == Reprotect(View(s), start, end, protection) && Stale(t) <= Stale(s)
  {
    hide WellFormed, SlotAt, NoStraddle, Live, Owned, KeepsAlignment, HeapAbove, Reprotected;
    var vmas := Reprotected(s.vmas, start, end, protection);
    ReprotectedWellFormed(s.vmas, s.spaceEnd, start, end, protection);
    forall a: nat
      ensures SlotAt(vmas, a) == if start <= a < end && SlotAt(s.vmas, a).Some?
                                 then Some(SlotAt(s.vmas, a).value.(protection := protection))
                                 else SlotAt(s.vmas, a)
    {
      ReprotectedSlot(s.vmas, s.spaceEnd, start, end, protection, a);
    }
    VmaStepFramed(s, vmas);
  }

  /** Mapped in the VMA map is the same as present in the picture. */
  lemma MappedView(s: State, lo: nat, hi: nat)
    ensures (forall a: nat :: lo <= a < hi ==> Mapped(s.vmas, a)) <==> (forall a: nat :: lo <= a < hi ==> a in View(s))
  {
    assert forall a: nat :: Mapped(s.vmas, a) <==> a in View(s);
  }

  // Looking up addresses

  /** What a VMA says about one of its addresses is what the guest sees there. */
  lemma VmaView(s: State, k: nat, a: nat)
    requires Inv(s) && Covers(s.vmas, k, a)
    ensures var v := s.vmas[k];
            && v.allocationId in s.allocations && s.allocations[v.allocationId].memory in s.bytes
            && v.allocationOffset + (a - k) < |s.bytes[s.allocations[v.allocationId].memory]|
            && a in View(s)
            && View(s)[a] == Cell(s.bytes[s.allocations[v.allocationId].memory][v.allocationOffset + (a - k)],
                                  v.protection, v.kind)
  {
    BackedVma(s, k);
    SlotIs(s.vmas, k, a);
  }

  lemma LookupView(s: State, address: nat)
    requires Inv(s)
    ensures VmaContaining(s.vmas, address).None? ==> address !in View(s)
    ensures VmaContaining(s.vmas, address).Some? ==>
              var v := VmaContaining(s.vmas, address).value;
              && v.start in s.vmas && s.vmas[v.start] == v && v.Contains(address)
              && v.end <= s.spaceEnd
              && address in View(s) && View(s)[address].protection == v.protection
  {
    LookupFindsCover(s.vmas, address);
    var found := VmaContaining(s.vmas, address);
    if found.Some? {
      VmaView(s, found.value.start, address);
      assert WellPlaced(found.value, found.value.start, s.spaceEnd);
    }
  }

  lemma VmaAccess(s: State, k: nat, access: Access)
    requires Inv(s) && k in s.vmas
    ensures Permits(s.vmas[k].protection, access) ==> Accessible(View(s), k, s.vmas[k].end, access)
  {
    forall a: nat | k <= a < s.vmas[k].end
      ensures a in View(s) && View(s)[a].protection == s.vmas[k].protection
    {
      VmaView(s, k, a);
    }
  }

  /** The chunk of a buffer behind part of a VMA is what the guest reads there. */
  lemma VmaBytes(s: State, k: nat, address: nat, length: nat)
    requires Inv(s) && k in s.vmas && k <= address && address + length <= s.vmas[k].end
    ensures var v := s.vmas[k];
            && v.allocationId in s.allocations && s.allocations[v.allocationId].memory in s.bytes
            && v.allocationOffset + (address - k) + length <= |s.bytes[s.allocations[v.allocationId].memory]|
            && FlatMemory.Holds(View(s), address,
                 s.bytes[s.allocations[v.allocationId].memory]
                   [v.allocationOffset + (address - k)..v.allocationOffset + (address - k) + length])
  {
    hide Inv, View;
    BackedVma(s, k);
    var v := s.vmas[k];
    var offset := v.allocationOffset + (address - k);
    var data := s.bytes[s.allocations[v.allocationId].memory][offset..offset + length];
    forall a: nat | address <= a < address + length
      ensures a in View(s) && View(s)[a].data == data[a - address]
    {
      VmaView(s, k, a);
    }
  }

  /** A run inside one VMA that was not cut still lies in the VMA found at its first address. */
  lemma RunStillWhole(s: State, t: State, k: nat, l: nat, address: nat, length: nat)
    requires Inv(s) && Inv(t) && KeepsRuns(s.vmas, t.vmas, address, address + length)
    requires Covers(s.vmas, k, address) && address + length <= s.vmas[k].end && Covers(t.vmas, l, address)
    ensures address + length <= t.vmas[l].end
  {
    if 0 < length {
      var last := address + length - 1;
      assert Covers(s.vmas, k, last);
      assert Together(s.vmas, address, last);
      var m: nat :| Covers(t.vmas, m, address) && Covers(t.vmas, m, last);
      CoverUnique(t.vmas, l, m, address);
    }
  }
}
