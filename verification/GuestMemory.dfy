/**
 The guest memory manager (crates/mcr-memory/src/lib.rs): one object per guest process, all members
 of a clone family sharing one host store. Contracts speak about the flat picture `View`.
 */
module GuestMemories {
  import opened Ranges
  import opened Bytes
  import opened OrderedKeys
  import opened Vmas
  import opened FlatMemory
  import opened Backing
  import opened HostMemory
  import opened GuestState
  import opened LinuxRequests
  import opened Merging
  import opened HeapBreak
  import opened Clones

  const MMAP_HOST_CONFLICT_RETRIES: nat := 64

  datatype HostAddressMode = Flexible | FixedGuest

  class GuestMemory {
    ghost const member: nat
    const host: HostStore
    const windowsHost: bool
    const mode: HostAddressMode
    const brkBase: U64
    const addressSpaceEnd: U64
    var vmas: VmaMap
    var allocations: AllocationMap
    var nextAllocationId: nat
    var currentBrk: U64
    var mmapBase: U64

    ghost function State(): State
      reads this, host
    {
      GuestState.State(member, addressSpaceEnd, brkBase, vmas, allocations, nextAllocationId, host.bytes, host.owners)
    }

    ghost predicate Valid()
      reads this, host
    {
      && host.Valid()
      && Inv(State())
      && IsPageAligned(addressSpaceEnd) && IsPageAligned(brkBase) && MIN_GUEST_ADDRESS <= brkBase
    }

    ghost function Memory(): FlatMap
      reads this, host
    {
      View(State())
    }

    constructor (host: HostStore, ghost member: nat, windowsHost: bool, mode: HostAddressMode, brkBase: U64,
                 currentBrk: U64, mmapBase: U64, addressSpaceEnd: U64,
                 vmas: VmaMap, allocations: AllocationMap, nextAllocationId: nat)
      ensures this.host == host && this.member == member && this.windowsHost == windowsHost && this.mode == mode
      ensures this.brkBase == brkBase && this.currentBrk == currentBrk && this.mmapBase == mmapBase
      ensures this.addressSpaceEnd == addressSpaceEnd && this.vmas == vmas
      ensures this.allocations == allocations && this.nextAllocationId == nextAllocationId
    {
      this.host, this.member, this.windowsHost, this.mode := host, member, windowsHost, mode;
      this.brkBase, this.currentBrk := brkBase, currentBrk;
      this.mmapBase, this.addressSpaceEnd := mmapBase, addressSpaceEnd;
      this.vmas, this.allocations, this.nextAllocationId := vmas, allocations, nextAllocationId;
    }

    // Detaching shared buffers

    method EnsureAllocationUnique(id: nat) returns (r: Outcome<()>)
      requires Valid()
      modifies this`allocations, host
      ensures old(host.refusals) <= host.refusals
      ensures (r.Err? && HostRefused(r.error)) <==> old(host.refusals) < host.refusals
      ensures Valid() && Quiet(old(State()), State())
      ensures allocations.Keys == old(allocations.Keys)
      ensures SameContents(old(allocations), old(host.bytes), allocations, host.bytes)
      ensures old(Sole(State(), id)) ==> r.Ok? && State() == old(State()) && host.refusals == old(host.refusals)
      ensures r.Ok? ==> id in allocations && Sole(State(), id)
      ensures r.Err? ==> r.error == HostFailure || (r.error == NotMapped && id !in allocations)
      ensures KeepsSole(old(State()), State()) && Extents(State()) == old(Extents(State()))
    {
      hide Inv, Quiet, Isolated, Extents, KeepsSole, SameContents;
      ghost var before := State();
      QuietReflexive(before);
      SoleKept(before);
      if id !in allocations {
        return Err(NotMapped);
      }
      LiveAllocation(before, id);
      var allocation := allocations[id];
      var h := allocation.memory;
      if host.refs[h] == 1 {
        SoleOwner(host.owners[h], Owner(member, id));
        return Ok(());
      }
      var copy := host.AllocateCopy(host.bytes[h], Owner(member, id));
      if copy.None? {
        return Err(HostFailure);
      }
      RebufferQuiet(before, id, copy.value);
      RebufferKeepsSole(before, id, copy.value);
      RebufferExtents(before, id, copy.value);
      host.Release(h, Owner(member, id));
      allocations := allocations[id := allocation.(memory := copy.value)];
      assert State() == Rebuffered(before, id, copy.value);
      r := Ok(());
    }

    method DetachSharedVma(k: nat) returns (r: Outcome<()>)
      requires Valid() && k in vmas
      modifies this`vmas, this`allocations, this`nextAllocationId, host
      ensures old(host.refusals) <= host.refusals
      ensures (r.Err? && HostRefused(r.error)) <==> old(host.refusals) < host.refusals
      ensures Valid() && Quiet(old(State()), State())
      ensures vmas.Keys == old(vmas.Keys)
      ensures r.Err? ==> r.error == HostFailure
      ensures KeepsCuts(old(vmas), vmas)
      ensures SameSpans(old(vmas), vmas)
      ensures r.Ok? ==> Sole(State(), vmas[k].allocationId)
      ensures KeepsSole(old(State()), State())
      ensures old(Sole(State(), vmas[k].allocationId)) ==>
                r.Ok? && State() == old(State()) && host.refusals == old(host.refusals)
      ensures forall l :: l in vmas && l != k ==> vmas[l] == old(vmas)[l]
    {
      hide Inv, Quiet, Isolated, KeepsCuts, KeepsSole, HostStore.Valid, Stale, SameSpans;
      host.ValidKeys();
      ghost var before := State();
      QuietReflexive(before);
      BackedVma(before, k);
      var v := vmas[k];
      LiveAllocation(before, v.allocationId);
      SpansKept(vmas, k, v);
      SoleKept(before);
      var h := allocations[v.allocationId].memory;
      host.CountsOwners(h);
      if host.refs[h] == 1 {
        SoleOwner(host.owners[h], Owner(member, v.allocationId));
        return Ok(());
      }
      var data := host.bytes[h][v.allocationOffset..v.allocationOffset + (v.end - v.start)];
      var copy := host.AllocateCopy(data, Owner(member, nextAllocationId));
      if copy.None? {
        return Err(HostFailure);
      }
      DetachQuiet(before, k, copy.value);
      DetachKeepsSole(before, k, copy.value);
      var id := nextAllocationId;
      SpansKept(vmas, k, v.(allocationId := id, allocationOffset := 0));
      nextAllocationId := nextAllocationId + 1;
      allocations := allocations[id := Allocation(v.start, copy.value)];
      vmas := vmas[k := v.(allocationId := id, allocationOffset := 0)];
      assert State() == Detached(before, k, copy.value);
      r := Ok(());
    }

    method DropUnreferencedAllocations()
      requires Valid()
      modifies this`allocations, host
      ensures host.refusals == old(host.refusals)
      ensures Valid() && Quiet(old(State()), State())
      ensures allocations.Keys <= old(allocations.Keys)
      ensures allocations.Keys <= Referenced(vmas) && KeepsSole(old(State()), State())
      ensures Extents(State()) <= old(Extents(State()))
    {
      hide Inv, Quiet, Isolated, KeepsSole, Stocked, HostStore.Valid, Shed, Extents;
      host.ValidKeys();
      QuietReflexive(State());
      SoleKept(State());
      var referenced := set k | k in vmas :: vmas[k].allocationId;
      assert referenced == Referenced(vmas);
      var dead := allocations.Keys - referenced;
      while dead != {}
        invariant host.refusals == old(host.refusals)
        invariant Valid() && Quiet(old(State()), State())
        invariant dead == allocations.Keys - Referenced(vmas) && KeepsSole(old(State()), State())
        invariant Extents(State()) <= old(Extents(State())) && allocations.Keys <= old(allocations.Keys)
        decreases dead
      {
        var id := Least(dead);
        ghost var before := State();
        host.ValidKeys();
        LiveAllocation(before, id);
        DropQuiet(before, id);
        DropKeepsSole(before, id);
        DropShrinks(before, id);
        host.Release(allocations[id].memory, Owner(member, id));
        allocations := allocations - {id};
        assert State() == Dropped(before, id);
        QuietTransitive(old(State()), before, State());
        SoleKeptOn(old(State()), before, State());
        dead := dead - {id};
      }
      assert forall id :: id in allocations.Keys ==> id in Referenced(vmas) || id in dead;
    }

    method SplitVmaAt(address: nat)
      requires Valid() && IsPageAligned(address)
      modifies this`vmas
      ensures Valid() && Quiet(old(State()), State())
      ensures vmas == SplitAt(old(vmas), address)
      ensures NoStraddle(vmas, address)
      ensures KeepsCuts(old(vmas), vmas)
    {
      hide Inv, Quiet, NoStraddle, KeepsCuts, VmaContaining;
      ghost var before := State();
      SplitQuiet(before, address);
      var found := VmaContaining(vmas, address);
      if found.None? || address == found.value.start {
        return;
      }
      var left, right := found.value, found.value;
      vmas := vmas - {left.start};
      right := right.(start := address, allocationOffset := right.allocationOffset + (address - left.start));
      left := left.(end := address);
      vmas := vmas[left.start := left];
      vmas := vmas[right.start := right];
      assert vmas == SplitAt(before.vmas, address);
    }
  
    method EnsureGuestPageRangeUnique(start: U64, end: U64) returns (r: Outcome<()>)
      requires Valid() && end <= addressSpaceEnd
      modifies this`vmas, this`allocations, this`nextAllocationId, host
      ensures old(host.refusals) <= host.refusals
      ensures (r.Err? && HostRefused(r.error)) <==> old(host.refusals) < host.refusals
      ensures Valid() && Quiet(old(State()), State())
      ensures r.Err? ==> r.error == HostFailure
      ensures old(Unshared(State())) ==> r.Ok? && host.refusals == old(host.refusals) && Unshared(State())
      ensures KeepsCuts(old(vmas), vmas)
      ensures KeepsRuns(old(vmas), vmas, start, end)
      ensures r.Ok? && start < end ==> Exclusive(State(), AlignDown(start), AlignUp(end).value)
    {
      hide Inv, Quiet, Isolated, Exclusive, Unshared;
      QuietReflexive(State());
      if start >= end {
        return Ok(());
      }
      var pageEnd := AlignUp(end);
      r := EnsureGuestRangeUnique(AlignDown(start), pageEnd.value);
    }

    method EnsureGuestRangeUnique(start: U64, end: U64) returns (r: Outcome<()>)
      requires Valid() && IsPageAligned(start) && IsPageAligned(end)
      modifies this`vmas, this`allocations, this`nextAllocationId, host
      ensures old(host.refusals) <= host.refusals
      ensures (r.Err? && HostRefused(r.error)) <==> old(host.refusals) < host.refusals
      ensures Valid() && Quiet(old(State()), State())
      ensures r.Err? ==> r.error == HostFailure
      ensures old(Unshared(State())) ==> r.Ok? && host.refusals == old(host.refusals) && Unshared(State())
      ensures KeepsCuts(old(vmas), vmas)
      ensures KeepsRuns(old(vmas), vmas, start, end)
      ensures r.Ok? && start < end ==> Exclusive(State(), start, end)
    {
      hide Inv, Quiet, Isolated, Sole, KeepsSole, Unshared, Extents;
      QuietReflexive(State());
      if start >= end {
        return Ok(());
      }
      if mode.FixedGuest? {
        var ids := set k | k in vmas && vmas[k].Overlaps(start, end) :: vmas[k].allocationId;
        r := EnsureAllocationsUnique(ids);
        return;
      }
      r := DetachGuestRange(start, end);
    }

    /** Cuts the range out, gives each of its VMAs a buffer of its own, and forgets what is left without a VMA. */
    method DetachGuestRange(start: U64, end: U64) returns (r: Outcome<()>)
      requires Valid() && IsPageAligned(start) && IsPageAligned(end) && start < end
      modifies this`vmas, this`allocations, this`nextAllocationId, host
      ensures old(host.refusals) <= host.refusals
      ensures (r.Err? && HostRefused(r.error)) <==> old(host.refusals) < host.refusals
      ensures Valid() && Quiet(old(State()), State())
      ensures r.Err? ==> r.error == HostFailure
      ensures old(Unshared(State())) ==> r.Ok? && host.refusals == old(host.refusals) && Unshared(State())
      ensures KeepsCuts(old(vmas), vmas)
      ensures KeepsRuns(old(vmas), vmas, start, end)
      ensures r.Ok? ==> Exclusive(State(), start, end)
    {
      hide Inv, Quiet, Isolated, Sole, KeepsSole, Unshared, SplitAt, Extents, NoStraddle;
      ghost var before := State();
      InvWellFormed(before);
      UnsharedIgnoresVmas(before);
      SplitKeepsRuns(vmas, addressSpaceEnd, start, start, end);
      SplitVmaAt(start);
      ghost var split := State();
      InvWellFormed(split);
      SplitKeepsRuns(vmas, addressSpaceEnd, end, start, end);
      SplitVmaAt(end);
      QuietTransitive(before, split, State());
      split := State();
      r := DetachSharedVmas(Sorted(set k | k in vmas && start <= k < end));
      SameCutsKeepRuns(split.vmas, vmas, start, end);
      if r.Ok? {
        CutExclusive(State(), start, end);
        QuietTransitive(before, split, State());
        split := State();
        DropUnreferencedAllocations();
        if Unshared(split) {
          UnsharedKept(split, State());
        }
        UsedStayExclusive(split, State(), start, end);
      }
      QuietTransitive(before, split, State());
    }

    method EnsureAllocationsUnique(ids: set<nat>) returns (r: Outcome<()>)
      requires Valid() && forall id :: id in ids ==> exists k :: k in vmas && vmas[k].allocationId == id
      modifies this`allocations, host
      ensures old(host.refusals) <= host.refusals
      ensures (r.Err? && HostRefused(r.error)) <==> old(host.refusals) < host.refusals
      ensures Valid() && Quiet(old(State()), State())
      ensures r.Err? ==> r.error == HostFailure
      ensures old(Unshared(State())) ==> r.Ok? && State() == old(State()) && host.refusals == old(host.refusals)
      ensures r.Ok? ==> forall id :: id in ids ==> Sole(State(), id)
    {
      hide Inv, Quiet, Isolated, Sole, SameContents, KeepsSole, Stale, HostStore.Valid, Unshared;
      host.ValidKeys();
      ghost var before := State();
      QuietReflexive(before);
      var order := Sorted(ids);
      for i := 0 to |order|
        invariant host.refusals == old(host.refusals)
        invariant Unshared(before) ==> State() == before
        invariant Valid() && Quiet(before, State()) && allocations.Keys == old(allocations.Keys)
        invariant forall j :: 0 <= j < i ==> order[j] in allocations && Sole(State(), order[j])
      {
        ghost var step := State();
        assert order[i] in order;
        ghost var k :| k in vmas && vmas[k].allocationId == order[i];
        BackedVma(step, k);
        if Unshared(before) {
          UnsharedSole(before, order[i]);
        }
        r := EnsureAllocationUnique(order[i]);
        AllStillSole(step, State(), order[..i]);
        QuietTransitive(before, step, State());
        if r.Err? {
          return;
        }
      }
      r := Ok(());
    }

    method DetachSharedVmas(keys: seq<nat>) returns (r: Outcome<()>)
      requires Valid() && forall k :: k in keys ==> k in vmas
      modifies this`vmas, this`allocations, this`nextAllocationId, host
      ensures old(host.refusals) <= host.refusals
      ensures (r.Err? && HostRefused(r.error)) <==> old(host.refusals) < host.refusals
      ensures Valid() && Quiet(old(State()), State())
      ensures r.Err? ==> r.error == HostFailure
      ensures old(Unshared(State())) ==> r.Ok? && State() == old(State()) && host.refusals == old(host.refusals)
      ensures KeepsCuts(old(vmas), vmas)
      ensures vmas.Keys == old(vmas.Keys)
      ensures SameSpans(old(vmas), vmas)
      ensures r.Ok? ==> forall k :: k in keys ==> Sole(State(), vmas[k].allocationId)
    {
      hide Inv, Quiet, Isolated, Sole, Unshared;
      ghost var before := State();
      QuietReflexive(before);
      for i := 0 to |keys|
        invariant host.refusals == old(host.refusals)
        invariant Unshared(before) ==> State() == before
        invariant Valid() && Quiet(before, State())
        invariant KeepsCuts(old(vmas), vmas) && vmas.Keys == old(vmas.Keys)
        invariant SameSpans(old(vmas), vmas)
        invariant forall j :: 0 <= j < i ==> keys[j] in vmas && Sole(State(), vmas[keys[j]].allocationId)
      {
        ghost var step := State();
        assert keys[i] in keys;
        BackedVma(step, keys[i]);
        if Unshared(before) {
          UnsharedSole(before, vmas[keys[i]].allocationId);
        }
        r := DetachSharedVma(keys[i]);
        StillSole(step, State(), keys, i);
        QuietTransitive(before, step, State());
        if r.Err? {
          return;
        }
      }
      r := Ok(());
    }

    // Reading and writing

    /** Copies a guest range out, chunk by chunk: succeeds exactly when every address is readable. */
    method Read(address: U64, length: nat) returns (r: Outcome<seq<Byte>>)
      requires Valid()
      ensures r.Ok? <==> address + length < U64_LIMIT && Accessible(Memory(), address, address + length, Access.Read)
      ensures r.Ok? ==> |r.value| == length && FlatMemory.Holds(Memory(), address, r.value)
      ensures r.Err? && address + length >= U64_LIMIT ==> r.error == InvalidLength
      ensures r.Err? && address + length < U64_LIMIT ==>
                FaultsWith(Memory(), address, address + length, Access.Read, r.error)
    {
      hide Inv, View;
      var end := CheckedRawRange(address, length);
      if end.Err? {
        return Err(InvalidLength);
      }
      var cursor: nat := address;
      var data := [];
      while cursor < end.value
        invariant address <= cursor <= end.value && |data| == cursor - address
        invariant FlatMemory.Holds(Memory(), address, data)
        invariant Accessible(Memory(), address, cursor, Access.Read)
      {
        LookupView(State(), cursor);
        var found := VmaContaining(vmas, cursor);
        if found.None? {
          assert FirstFault(Memory(), address, end.value, Access.Read, cursor, NotMapped);
          return Err(NotMapped);
        }
        var v := found.value;
        if !Permits(v.protection, Access.Read) {
          assert FirstFault(Memory(), address, end.value, Access.Read, cursor, AccessDenied);
          return Err(AccessDenied);
        }
        var chunk := (if v.end < end.value then v.end else end.value) - cursor;
        var offset := v.allocationOffset + (cursor - v.start);
        VmaBytes(State(), v.start, cursor, chunk);
        VmaAccess(State(), v.start, Access.Read);
        var part := host.bytes[allocations[v.allocationId].memory][offset..offset + chunk];
        HoldsJoins(Memory(), address, data, part);
        data := data + part;
        cursor := cursor + chunk;
      }
      r := Ok(data);
    }

    /**
     Writes a guest range chunk by chunk. Success overlays exactly the range; a fault leaves exactly the
     bytes before the first faulting address written; a host failure leaves some prefix written.
     */
    method Write(address: U64, bytes: seq<Byte>) returns (r: Outcome<()>, ghost written: nat)
      requires Valid()
      modifies this`vmas, this`allocations, this`nextAllocationId, host
      ensures old(host.refusals) <= host.refusals
      ensures (r.Err? && HostRefused(r.error)) <==> old(host.refusals) < host.refusals
      ensures old(Unshared(State())) ==>
                (r.Ok? <==> && address + |bytes| < U64_LIMIT
                            && Accessible(old(Memory()), address, address + |bytes|, Access.Write))
      ensures Valid() && Framed(old(State()), State())
      ensures Stale(State()) <= old(Stale(State()))
      ensures written <= |bytes| && Memory() == Overlay(old(Memory()), address, bytes[..written])
      ensures Accessible(old(Memory()), address, address + written, Access.Write)
      ensures r.Ok? ==> written == |bytes|
      ensures r.Err? && address + |bytes| >= U64_LIMIT ==> r.error == InvalidLength && written == 0
      ensures r.Err? && address + |bytes| < U64_LIMIT && r.error != HostFailure ==>
                FirstFault(old(Memory()), address, address + |bytes|, Access.Write, address + written, r.error)
    {
      hide Inv, View, Quiet, Framed, KeepsCuts, Overlay, Stale, Unshared, Accessible;
      written := 0;
      OverlayNothing(Memory(), address);
      ghost var before := State();
      QuietReflexive(before);
      var end := CheckedRawRange(address, |bytes|);
      if end.Err? {
        return Err(InvalidLength), 0;
      }
      var copied: nat := 0;
      while copied < |bytes|
        invariant host.refusals == old(host.refusals)
        invariant Unshared(before) ==> Unshared(State())
        invariant Valid() && Framed(before, State()) && Stale(State()) <= Stale(before)
        invariant written == copied <= |bytes|
        invariant Memory() == Overlay(View(before), address, bytes[..copied])
        invariant Accessible(View(before), address, address + copied, Access.Write)
      {
        var cursor := address + copied;
        ghost var step := State();
        LookupView(step, cursor);
        OverlayFaults(View(before), address, bytes[..copied], cursor, Access.Write);
        var found := VmaContaining(vmas, cursor);
        if found.None? {
          FaultDenies(View(before), address, end.value, Access.Write, cursor);
          return Err(NotMapped), copied;
        }
        if !Permits(found.value.protection, Access.Write) {
          FaultDenies(View(before), address, end.value, Access.Write, cursor);
          return Err(AccessDenied), copied;
        }
        var chunkEnd := if found.value.end < end.value then found.value.end else end.value;
        r := EnsureGuestPageRangeUnique(cursor, chunkEnd);
        FramedQuiet(before, step, State());
        if r.Err? {
          return r, copied;
        }
        var chunk;
        ghost var ready := State();
        r, chunk := StoreChunk(cursor, bytes[copied..]);
        FramedTransitive(before, ready, State());
        if r.Err? {
          return r, copied;
        }
        OverlayStep(View(before), address, bytes, copied, chunk, Memory());
        copied := copied + chunk;
        written := copied;
      }
      r := Ok(());
    }
  
    /** Writes as much of `rest` at `cursor` as the VMA there holds, detaching its buffer first. */
    method StoreChunk(cursor: U64, rest: seq<Byte>) returns (r: Outcome<()>, chunk: nat)
      requires Valid() && 0 < |rest| && Fault(Memory(), cursor, Access.Write) == None
      modifies this`allocations, host
      ensures old(host.refusals) <= host.refusals
      ensures (r.Err? && HostRefused(r.error)) <==> old(host.refusals) < host.refusals
      ensures Valid() && Framed(old(State()), State())
      ensures Stale(State()) <= old(Stale(State()))
      ensures r.Ok? ==> 0 < chunk <= |rest| && Memory() == Overlay(old(Memory()), cursor, rest[..chunk])
                        && Accessible(old(Memory()), cursor, cursor + chunk, Access.Write)
      ensures old(Unshared(State())) ==> r.Ok? && host.refusals == old(host.refusals) && Unshared(State())
      ensures r.Err? ==> r.error == HostFailure && Memory() == old(Memory())
    {
      hide Inv, View, Quiet, Framed, Isolated, SameContents, KeepsCuts, Stale;
      ghost var before := State();
      LookupView(before, cursor);
      var v := VmaContaining(vmas, cursor).value;
      BackedVma(before, v.start);
      VmaAccess(before, v.start, Access.Write);
      chunk := if v.end < cursor + |rest| then v.end - cursor else |rest|;
      if Unshared(before) {
        UnsharedSole(before, v.allocationId);
      }
      r := EnsureAllocationUnique(v.allocationId);
      QuietIsFramed(before, State());
      if r.Err? {
        return;
      }
      ghost var ready := State();
      StoreThroughVma(v.start, cursor, rest[..chunk]);
      FramedTransitive(before, ready, State());
    }

    /** Stores into the buffer behind part of a VMA, which must have no other reference. */
    method StoreThroughVma(k: nat, address: nat, data: seq<Byte>)
      requires Valid() && k in vmas && Sole(State(), vmas[k].allocationId)
      requires k <= address && address + |data| <= vmas[k].end
      modifies host
      ensures host.refusals == old(host.refusals)
      ensures Valid() && Framed(old(State()), State())
      ensures Stale(State()) <= old(Stale(State()))
      ensures Memory() == Overlay(old(Memory()), address, data)
      ensures old(Unshared(State())) ==> Unshared(State())
    {
      hide Inv, View, Framed, Isolated, Overlay, Stale;
      ghost var before := State();
      StoreStep(before, k, address, data);
      BackedVma(before, k);
      LiveAllocation(before, vmas[k].allocationId);
      var v := vmas[k];
      host.Write(allocations[v.allocationId].memory, v.allocationOffset + (address - k), data,
                 Owner(member, v.allocationId));
      assert State() == Stored(before, v.allocationId, v.allocationOffset + (address - k), data);
    }

    // Unmapping and reprotecting

    method UnmapRange(start: U64, end: U64)
      requires Valid() && IsPageAligned(start) && IsPageAligned(end) && start < end
      modifies this`vmas, this`allocations, host
      ensures host.refusals == old(host.refusals)
      ensures Valid() && Framed(old(State()), State())
      ensures Memory() == Unmap(old(Memory()), start, end)
      ensures Stale(State()) <= old(Stale(State())) && Extents(State()) <= old(Extents(State()))
      ensures !Overlapping(vmas, start, end)
    {
      hide Inv, View, Quiet, Framed, NoStraddle, Stale;
      ghost var before := State();
      SplitVmaAt(start);
      ghost var split := State();
      SplitVmaAt(end);
      QuietTransitive(before, split, State());
      split := State();
      QuietIsFramed(before, split);
      vmas := RemoveStarts(vmas, start, end);
      RemovedView(split, start, end);
      FramedTransitive(before, split, State());
      ghost var removed := State();
      UnmappedIsFree(removed, Memory(), start, end);
      DropUnreferencedAllocations();
      FramedQuiet(before, removed, State());
    }

    /** Removes exactly the pages of the rounded range. */
    method Munmap(address: U64, length: U64) returns (r: Outcome<()>)
      requires Valid()
      modifies this`vmas, this`allocations, host
      ensures host.refusals == old(host.refusals)
      ensures Valid() && Framed(old(State()), State())
      ensures Stale(State()) <= old(Stale(State())) && Extents(State()) <= old(Extents(State()))
      ensures r.Ok? <==> CheckedPageRange(address, length).Ok?
      ensures r.Err? ==> r.error == CheckedPageRange(address, length).error
      ensures Memory() == if r.Ok? then Unmap(old(Memory()), address, CheckedPageRange(address, length).value)
                          else old(Memory())
    {
      hide Inv, View, Quiet, Framed, Isolated, SameContents, KeepsCuts, Stale, Extents;
      QuietReflexive(State());
      var end := CheckedPageRange(address, length);
      if end.Err? {
        return Err(end.error);
      }
      UnmapRange(address, end.value);
      r := Ok(());
    }

    /**
     Sets the protection of exactly the rounded range. Fails with NotMapped precisely when some address
     of the range is unmapped, and no failure changes what the guest sees.
     */
    method Mprotect(address: U64, length: U64, prot: bv32) returns (r: Outcome<()>)
      requires Valid()
      modifies this`vmas, this`allocations, this`nextAllocationId, host
      ensures old(host.refusals) <= host.refusals
      ensures (r.Err? && HostRefused(r.error)) <==> old(host.refusals) < host.refusals
      ensures Valid() && Framed(old(State()), State())
      ensures Stale(State()) <= old(Stale(State()))
      ensures r == Err(InvalidProtection) <==> prot as nat >= 8
      ensures prot as nat < 8 && length != 0 && CheckedPageRange(address, length).Err? ==>
                r == Err(CheckedPageRange(address, length).error)
      ensures prot as nat < 8 && length == 0 ==> r.Ok?
      ensures prot as nat < 8 && length != 0 && CheckedPageRange(address, length).Ok? ==>
                var end := CheckedPageRange(address, length).value;
                && (r == Err(NotMapped) <==> !AllMapped(old(Memory()), address, end))
                && (r.Ok? <==> AllMapped(old(Memory()), address, end) && host.refusals == old(host.refusals))
                && (r.Ok? ==> FullyMerged(vmas) && CutsShow(vmas) && Allows(Memory(), address, end, prot as nat))
                && (r.Ok? ==> Memory() == Reprotect(old(Memory()), address, end, Protecting(prot as nat)))
      ensures r.Err? || length == 0 ==> Memory() == old(Memory())
    {
      hide Inv, View, Quiet, Framed, FullyMerged, CutsShow, Stale, Allows, ProtectionFromLinux, Protecting, Reprotect;
      QuietReflexive(State());
      var protection := ProtectionFromLinux(prot);
      ProtectionBits(prot);
      if protection.Err? {
        return Err(protection.error);
      }
      if length == 0 {
        return Ok(());
      }
      var end := CheckedPageRange(address, length);
      if end.Err? {
        return Err(end.error);
      }
      var mapped := RangeMapped(address, end.value);
      if !mapped {
        return Err(NotMapped);
      }
      r := ProtectMapped(address, end.value, protection.value);
      if r.Ok? {
        ReprotectAllows(old(Memory()), address, end.value, prot as nat);
      }
    }

    method RangeMapped(start: U64, end: U64) returns (mapped: bool)
      requires Valid() && start < end
      ensures mapped <==> AllMapped(Memory(), start, end)
    {
      MappedView(State(), start, end);
      hide Backed, Live, Owned, View;
      mapped := IsRangeMapped(vmas, addressSpaceEnd, start, end);
    }

    method ProtectMapped(start: U64, end: U64, protection: Protection) returns (r: Outcome<()>)
      requires Valid() && IsPageAligned(start) && IsPageAligned(end) && start < end
      modifies this`vmas, this`allocations, this`nextAllocationId, host
      ensures old(host.refusals) <= host.refusals
      ensures (r.Err? && HostRefused(r.error)) <==> old(host.refusals) < host.refusals
      ensures Valid() && Framed(old(State()), State())
      ensures Stale(State()) <= old(Stale(State()))
      ensures r.Ok? ==> FullyMerged(vmas) && CutsShow(vmas)
      ensures r.Ok? ==> Memory() == Reprotect(old(Memory()), start, end, protection)
      ensures r.Err? ==> r.error == HostFailure && Memory() == old(Memory())
    {
      hide Inv, View, Quiet, Framed, NoStraddle, FullyMerged, CutsShow, SameSlots, Stale;
      ghost var before := State();
      SplitVmaAt(start);
      ghost var split := State();
      SplitVmaAt(end);
      QuietTransitive(before, split, State());
      split := State();
      r := EnsureGuestRangeUnique(start, end);
      QuietTransitive(before, split, State());
      split := State();
      QuietIsFramed(before, split);
      if r.Err? {
        return;
      }
      ReprotectedView(split, start, end, protection);
      vmas := Reprotected(vmas, start, end, protection);
      FramedTransitive(before, split, State());
      ghost var changed := State();
      CoalesceAdjacent();
      FramedQuiet(before, changed, State());
      r := Ok(());
    }

    method CoalesceAdjacent()
      requires Valid()
      modifies this`vmas
      ensures Valid() && Quiet(old(State()), State())
      ensures FullyMerged(vmas) && CutsShow(vmas)
    {
      hide Inv, Quiet, Framed, WellFormed, Carries, SameSlots, FullyMerged, CutsShow;
      ghost var before := State();
      InvWellFormed(before);
      vmas := Coalesce(vmas, addressSpaceEnd);
      ReslotQuiet(before, vmas);
    }

    // Host allocations

    method SaveAllocations(order: seq<nat>) returns (saved: seq<Saved>)
      requires Valid() && StrictlyAscending(order) && forall i :: i in order ==> i in allocations
      ensures SavedFrom(saved, State(), Elements(order))
      ensures |saved| == |order|
    {
      saved := [];
      for n := 0 to |order|
        invariant |saved| == n
        invariant forall j :: 0 <= j < n ==>
                    && order[j] in allocations && allocations[order[j]].memory in host.bytes
                    && saved[j] == Saved(order[j], allocations[order[j]].guestStart,
                                         host.bytes[allocations[order[j]].memory])
      {
        assert order[n] in order;
        LiveAllocation(State(), order[n]);
        saved := saved + [Saved(order[n], allocations[order[n]].guestStart, host.bytes[allocations[order[n]].memory])];
      }
    }

    method ShedAllocations(order: seq<nat>)
      requires host.Valid() && Stocked(State()) && StrictlyAscending(order) && forall i :: i in order ==>
               i in allocations
      modifies this`allocations, host
      ensures host.refusals == old(host.refusals)
      ensures host.Valid() && Shed(old(State()), State(), Elements(order))
    {
      hide Stocked, Shed, Isolated, Elements, StrictlyAscending;
      ghost var before := State();
      ShedNothing(before);
      PrefixElements(order, 0);
      for n := 0 to |order|
        invariant host.refusals == old(host.refusals)
        invariant host.Valid() && Shed(before, State(), Elements(order[..n])) && Stocked(State())
        invariant allocations == before.allocations - Elements(order[..n])
      {
        ghost var step := State();
        var id := order[n];
        PrefixElements(order, n);
        assert id in order;
        StockedAllocation(step, id);
        DroppedKeepsBytes(step, id);
        host.Release(allocations[id].memory, Owner(member, id));
        allocations := allocations - {id};
        assert State() == Dropped(step, id);
        ShedOneMore(before, step, State(), Elements(order[..n]), id);
      }
    }

    /** Re-allocates what was shed; stops at the first host failure. */
    method RestoreAllocations(saved: seq<Saved>, ghost before: State, ghost ids: set<nat>) returns (ok: bool)
      requires host.Valid() && Inv(before) && Restoring(before, State(), ids) && SavedFrom(saved, before, ids)
      modifies this`allocations, host
      ensures host.refusals >= old(host.refusals) + (if ok then 0 else 1)
      ensures host.Valid() && Isolated(member, before.owners, before.bytes, host.owners, host.bytes)
      ensures ok ==> Inv(State()) && Quiet(before, State()) && Extents(State()) == Extents(before)
    {
      hide Inv, Quiet, Restoring, Extents;
      ghost var missing := ids;
      for n := 0 to |saved|
        invariant old(host.refusals) <= host.refusals
        invariant host.Valid() && Restoring(before, State(), missing)
        invariant forall i :: i in missing <==> i in ids && exists j :: n <= j < |saved| && saved[j].id == i
      {
        ghost var step := State();
        RestoringIsolated(before, step, missing);
        var item := saved[n];
        var h := host.AllocateCopy(item.data, Owner(member, item.id));
        if h.None? {
          return false;
        }
        allocations := allocations[item.id := Allocation(item.guestStart, h.value)];
        InvStocked(before);
        RestoreStep(before, step, State(), missing, item, h.value);
        missing := missing - {item.id};
      }
      assert missing == {};
      RestoringIsolated(before, State(), missing);
      RestoredQuiet(before, State());
      ok := true;
    }

    /** Widens [lo, hi) over every allocation of `order`. */
    method ComputeHull(order: seq<nat>, lo: U64, hi: U64) returns (gs: U64, ge: U64)
      requires Valid() && forall i :: i in order ==> i in allocations
      ensures Hull(State(), Elements(order), lo, hi, gs, ge)
    {
      hide Inv;
      gs, ge := lo, hi;
      for n := 0 to |order|
        invariant Hull(State(), Elements(order[..n]), lo, hi, gs, ge)
      {
        ghost var gs', ge' := gs, ge;
        assert order[n] in order;
        LiveAllocation(State(), order[n]);
        var allocation := allocations[order[n]];
        var end := allocation.guestStart + |host.bytes[allocation.memory]|;
        gs := if allocation.guestStart < gs then allocation.guestStart else gs;
        ge := if ge < end then end else ge;
        HullStep(State(), order, n, lo, hi, gs', ge', gs, ge);
      }
      assert order[..|order|] == order;
    }

    /** Fills the replacement buffer with the saved allocations, in order. */
    method FillMerged(saved: seq<Saved>, h: nat, gs: nat, ge: nat, ghost id: nat)
      requires host.Valid() && FitIn(saved, gs, ge) && h in host.bytes && host.refs[h] == 1
               && Owner(member, id) in host.owners[h]
      requires host.bytes[h] == Zeros(ge - gs)
      modifies host`bytes
      ensures host.Valid() && host.bytes == old(host.bytes)[h := Merged(saved, gs, ge)]
    {
      hide Isolated, FitIn, Merged;
      FitPrefix(saved, gs, ge, 0);
      for n := 0 to |saved|
        invariant host.Valid() && FitIn(saved[..n], gs, ge)
        invariant host.bytes == old(host.bytes)[h := Merged(saved[..n], gs, ge)]
      {
        FitPrefix(saved, gs, ge, n);
        host.Write(h, saved[n].guestStart - gs, saved[n].data, Owner(member, id));
      }
      assert saved[..|saved|] == saved;
    }

    /**
     Replaces the allocations of `order` by one over their hull. If the host refuses the new buffer the
     old allocations are re-allocated; RestoreFailure says that the host refused one of those too.
     */
    method ReplaceOverlappingAllocations(gs: U64, ge: U64, order: seq<nat>, ghost lo: nat, ghost hi: nat)
      returns (r: Outcome<nat>)
      requires Valid() && StrictlyAscending(order) && lo < hi
      requires Touching(State(), Elements(order), lo, hi) && Hull(State(), Elements(order), lo, hi, gs, ge)
      modifies this`vmas, this`allocations, this`nextAllocationId, host
      ensures old(host.refusals) <= host.refusals
      ensures (r.Err? && HostRefused(r.error)) <==> old(host.refusals) < host.refusals
      ensures host.Valid() && Isolated(member, old(host.owners), old(host.bytes), host.owners, host.bytes)
      ensures r.Err? ==> (r.error == HostFailure || r.error == RestoreFailure) && vmas == old(vmas)
      ensures r.Err? && r.error != RestoreFailure ==>
                Valid() && Quiet(old(State()), State()) && Extents(State()) == old(Extents(State()))
      ensures r.Ok? ==> Valid() && Framed(old(State()), State())
                        && MergedInto(old(State()), State(), r.value, gs, ge, lo, hi)
                        && r.value == old(nextAllocationId)
    {
      hide Inv, Quiet, Framed, Isolated, Shed, Hull, Touching, SavedFrom, FitIn, MergedInto, Restoring;
      hide StrictlyAscending, Extents;
      ghost var before, ids := State(), Elements(order);
      TouchingHull(before, ids, lo, hi, gs, ge);
      InvStocked(before);
      var saved := SaveAllocations(order);
      ShedAllocations(order);
      ghost var shed := State();
      ShedIsRestoring(before, shed, ids);
      RestoringIsolated(before, shed, ids);
      var h := host.Allocate(ge - gs, Owner(member, nextAllocationId));
      if h.None? {
        var restored := RestoreAllocations(saved, before, ids);
        return Err(if restored then HostFailure else RestoreFailure);
      }
      r := InstallMerged(gs, ge, order, saved, h.value, before, shed, lo, hi);
      FramedIsolated(before, State());
    }

    method InstallMerged(gs: U64, ge: U64, order: seq<nat>, saved: seq<Saved>, h: nat,
                         ghost before: State, ghost shed: State, ghost lo: nat, ghost hi: nat) returns (r: Outcome<nat>)
      requires host.Valid() && Inv(before) && HostOk(before) && HostOk(shed) && lo < hi
      requires Touching(before, Elements(order), lo, hi) && Hull(before, Elements(order), lo, hi, gs, ge)
      requires Shed(before, shed, Elements(order)) && SavedFrom(saved, before, Elements(order))
      requires h !in shed.bytes && h in host.bytes && host.refs[h] == 1
      requires State() == shed.(bytes := shed.bytes[h := Zeros(ge - gs)],
                                owners := shed.owners[h := {Owner(member, nextAllocationId)}])
      modifies this`vmas, this`allocations, this`nextAllocationId, host`bytes
      ensures host.Valid() && Inv(State()) && Framed(before, State())
      ensures r.Ok? && MergedInto(before, State(), r.value, gs, ge, lo, hi) && r.value == before.nextId
    {
      hide Inv, Framed, Isolated, Shed, Hull, Touching, SavedFrom, FitIn, Merged, View, MergedInto, Retarget, Elements;
      hide Zeros, HostStore.Valid;
      TouchingHull(before, Elements(order), lo, hi, gs, ge);
      SavedFit(before, saved, Elements(order), lo, hi, gs, ge);
      FillMerged(saved, h, gs, ge, nextAllocationId);
      var id := nextAllocationId;
      nextAllocationId := nextAllocationId + 1;
      allocations := allocations[id := Allocation(gs, h)];
      vmas := Retarget(vmas, Elements(order), id, gs);
      ShedParts(before, shed, Elements(order));
      ReplacedMerge(before, shed, Elements(order), saved, gs, ge, h, lo, hi);
      assert State() == Replaced(shed, Elements(order), saved, gs, ge, h);
      r := Ok(id);
    }

    /** Finds or makes an allocation that backs [start, start + length). */
    method EnsureHostAllocation(start: U64, length: U64) returns (r: Outcome<(nat, nat)>)
      requires Valid() && 0 < length && start + length < U64_LIMIT
      modifies this`vmas, this`allocations, this`nextAllocationId, host
      ensures old(host.refusals) <= host.refusals
      ensures (r.Err? && HostRefused(r.error)) <==> old(host.refusals) < host.refusals
      ensures host.Valid() && Isolated(member, old(host.owners), old(host.bytes), host.owners, host.bytes)
      ensures r.Err? ==> vmas == old(vmas)
      ensures r.Err? && !HostRefused(r.error) ==>
                HostAllocationRange(windowsHost, start, length).Err? && r.error == InvalidLength
      ensures r.Err? && r.error != RestoreFailure ==>
                Valid() && Quiet(old(State()), State()) && Extents(State()) == old(Extents(State()))
      ensures r.Ok? ==> Prepared(old(State()), State(), r.value.0, r.value.1, start, length)
    {
      hide Inv, Quiet, Framed, Isolated, Prepared, MergedInto, Hull, HostStore.Valid, Stale, Extents;
      host.ValidKeys();
      ghost var before := State();
      QuietReflexive(before);
      FramedIsolated(before, before);
      AllocationsInStore(before);
      var containing := set i | i in allocations && Contains(allocations[i], host.bytes, start, length);
      if containing != {} {
        PreparedByReuse(before, containing, start, length);
        var id := Least(containing);
        return Ok((id, start - allocations[id].guestStart));
      }
      var range := HostAllocationRange(windowsHost, start, length);
      if range.Err? {
        return Err(range.error);
      }
      var (lo, hi) := range.value;
      HostRangeInGranules(windowsHost, start, length);
      var ids := set i | i in allocations && OverlapsRange(allocations[i], host.bytes, lo, hi);
      assert Touching(before, ids, lo, hi);
      if ids != {} {
        r := BackByMerge(lo, hi, ids, start, length);
      } else {
        r := TakeFresh(lo, hi, start, length);
      }
    }

    /** Merges the allocations that meet [lo, hi) into one over their hull. */
    method BackByMerge(lo: U64, hi: U64, ids: set<nat>, start: U64, length: U64) returns (r: Outcome<(nat, nat)>)
      requires Valid() && lo <= start && start + length <= hi && 0 < length && Touching(State(), ids, lo, hi)
      requires GranuleDown(start) <= lo && hi <= GranuleUp(start + length)
      modifies this`vmas, this`allocations, this`nextAllocationId, host
      ensures old(host.refusals) <= host.refusals
      ensures (r.Err? && HostRefused(r.error)) <==> old(host.refusals) < host.refusals
      ensures host.Valid() && Isolated(member, old(host.owners), old(host.bytes), host.owners, host.bytes)
      ensures r.Err? ==> vmas == old(vmas) && HostRefused(r.error)
      ensures r.Err? && r.error != RestoreFailure ==>
                Valid() && Quiet(old(State()), State()) && Extents(State()) == old(Extents(State()))
      ensures r.Ok? ==> Prepared(old(State()), State(), r.value.0, r.value.1, start, length)
    {
      hide Inv, Quiet, Framed, Isolated, Prepared, MergedInto, Hull, HostStore.Valid, Stale, Touching;
      ghost var before := State();
      var order := Sorted(ids);
      assert Elements(order) == ids;
      TouchingLive(before, ids, lo, hi);
      var gs, ge := ComputeHull(order, lo, hi);
      TouchingHull(before, ids, lo, hi, gs, ge);
      var id := ReplaceOverlappingAllocations(gs, ge, order, lo, hi);
      if id.Err? {
        return Err(id.error);
      }
      NewIdNew(before, State(), id.value, gs, ge, lo, hi);
      MergedStales(before, State(), id.value, gs, ge, lo, hi);
      StalesHull(before, State(), ids, lo, hi, gs, ge, start, start + length);
      PreparedByMerge(before, State(), id.value, gs, ge, lo, hi, start, length);
      r := Ok((id.value, start - gs));
    }

    method TakeFresh(lo: U64, hi: U64, start: U64, length: U64) returns (r: Outcome<(nat, nat)>)
      requires Valid() && lo <= start && start + length <= hi && 0 < length && Touching(State(), {}, lo, hi)
      modifies this`allocations, this`nextAllocationId, host
      ensures old(host.refusals) <= host.refusals
      ensures (r.Err? && HostRefused(r.error)) <==> old(host.refusals) < host.refusals
      ensures host.Valid() && Isolated(member, old(host.owners), old(host.bytes), host.owners, host.bytes)
      ensures r.Err? ==> Valid() && Quiet(old(State()), State()) && r.error == HostFailure
                         && Extents(State()) == old(Extents(State()))
      ensures r.Ok? ==> Prepared(old(State()), State(), r.value.0, r.value.1, start, length)
    {
      hide Inv, Quiet, Framed, Isolated, Prepared, Touching, SameContents, HostStore.Valid;
      host.ValidKeys();
      ghost var before := State();
      QuietReflexive(before);
      FramedIsolated(before, before);
      var h := host.Allocate(hi - lo, Owner(member, nextAllocationId));
      if h.None? {
        return Err(HostFailure);
      }
      var id := nextAllocationId;
      nextAllocationId := nextAllocationId + 1;
      allocations := allocations[id := Allocation(lo, h.value)];
      assert State() == Fresh(before, lo, hi, h.value);
      PreparedByFresh(before, lo, hi, h.value, start, length);
      PreparedParts(before, State(), id, start - lo, start, length);
      FramedIsolated(before, State());
      r := Ok((id, start - lo));
    }

    /** Overwrites part of an allocation's buffer, detaching it first; invisible where no VMA uses that part. */
    method FillAllocationRange(id: nat, offset: nat, data: seq<Byte>) returns (r: Outcome<()>)
      requires Valid() && id in allocations && allocations[id].memory in host.bytes
      requires offset + |data| <= |host.bytes[allocations[id].memory]|
      modifies this`allocations, host
      ensures old(host.refusals) <= host.refusals
      ensures (r.Err? && HostRefused(r.error)) <==> old(host.refusals) < host.refusals
      ensures Valid() && Framed(old(State()), State())
      ensures Stale(State()) <= old(Stale(State())) && Extents(State()) == old(Extents(State()))
      ensures r.Ok? ==> Filled(old(State()), State(), id, offset, data)
      ensures r.Err? ==> r.error == HostFailure && Quiet(old(State()), State()) && !old(Sole(State(), id))
      ensures r.Ok? && old(Unused(State(), id, offset, |data|)) ==> Memory() == old(Memory())
    {
      hide Inv, Quiet, Framed, Isolated, View, SlotAt, Filled, SameContents, Unused, Stored, HostStore.Valid;
      hide Stale, Extents;
      ghost var before := State();
      r := EnsureAllocationUnique(id);
      QuietIsFramed(before, State());
      if r.Err? {
        return;
      }
      ghost var ready := State();
      FilledReady(before, ready, id, offset, data);
      StoreWhole(id, offset, data);
      FramedTransitive(before, ready, State());
      FilledStore(before, ready, id, offset, data);
    }

    method StoreWhole(id: nat, offset: nat, data: seq<Byte>)
      requires Valid() && id in allocations && allocations[id].memory in host.bytes && Sole(State(), id)
      requires offset + |data| <= |host.bytes[allocations[id].memory]|
      modifies host
      ensures host.refusals == old(host.refusals)
      ensures Valid() && State() == Stored(old(State()), id, offset, data) && Framed(old(State()), State())
      ensures Stale(State()) <= old(Stale(State())) && Extents(State()) == old(Extents(State()))
    {
      hide Inv, Framed, Isolated, Stale, Extents;
      ghost var before := State();
      LiveAllocation(before, id);
      StoredFramed(before, id, offset, data);
      host.Write(allocations[id].memory, offset, data, Owner(member, id));
      assert State() == Stored(before, id, offset, data);
    }

    method ZeroAllocationRange(id: nat, offset: nat, length: nat) returns (r: Outcome<()>)
      requires Valid() && id in allocations && allocations[id].memory in host.bytes
      requires offset + length <= |host.bytes[allocations[id].memory]|
      modifies this`allocations, host
      ensures old(host.refusals) <= host.refusals
      ensures (r.Err? && HostRefused(r.error)) <==> old(host.refusals) < host.refusals
      ensures Valid() && Framed(old(State()), State())
      ensures Stale(State()) <= old(Stale(State())) && Extents(State()) == old(Extents(State()))
      ensures r.Ok? ==> Zeroed(old(State()), State(), id, offset, length)
      ensures r.Err? ==> r.error == HostFailure && Quiet(old(State()), State()) && !old(Sole(State(), id))
      ensures r.Ok? && old(Unused(State(), id, offset, length)) ==> Memory() == old(Memory())
    {
      hide Inv, Quiet, Framed, View, Filled, Unused, Stale, Extents;
      r := FillAllocationRange(id, offset, Zeros(length));
    }

    /** Maps zeroed memory at a free place. */
    method InsertMapping(start: U64, length: U64, protection: Protection, kind: VmaKind)
      returns (r: Outcome<()>)
      requires Valid() && 0 < length && IsPageAligned(length) && !kind.Heap?
      modifies this`vmas, this`allocations, this`nextAllocationId, host
      ensures old(host.refusals) <= host.refusals
      ensures (r.Err? && HostRefused(r.error)) <==> old(host.refusals) < host.refusals
      ensures host.Valid() && Isolated(member, old(host.owners), old(host.bytes), host.owners, host.bytes)
      ensures r.Err? ==> vmas == old(vmas)
      ensures r.Err? && r.error != RestoreFailure ==>
                Valid() && Quiet(old(State()), State()) && Extents(State()) == old(Extents(State()))
      ensures r.Ok? ==> Valid() && Framed(old(State()), State())
                        && CheckedMappingEnd(start, length, addressSpaceEnd).Ok?
                        && Placed(old(State()), State(), start, start + length, protection, kind)
      ensures r.Err? && !HostRefused(r.error) ==>
                || CheckedMappingEnd(start, length, addressSpaceEnd).Err?
                || Overlapping(old(vmas), start, start + length)
                || (HostAllocationRange(windowsHost, start, length).Err? && r.error == InvalidLength)
      ensures CheckedMappingEnd(start, length, addressSpaceEnd).Ok? && Overlapping(old(vmas), start, start + length) ==>
                r == Err(AddressInUse)
    {
      hide Inv, Quiet, Framed, Isolated, View, Prepared, Placed, Overlapping, HostStore.Valid;
      hide Stale, Extents, StalesNear, HostAllocationRange, CheckedMappingEnd, Alike, AllocationsDisjoint, SlotAt;
      host.ValidKeys();
      ghost var before := State();
      QuietReflexive(before);
      FramedIsolated(before, before);
      var end := CheckedMappingEnd(start, length, addressSpaceEnd);
      if end.Err? {
        return Err(end.error);
      }
      if Overlapping(vmas, start, end.value) {
        return Err(AddressInUse);
      }
      var backing := EnsureHostAllocation(start, length);
      if backing.Err? {
        return Err(backing.error);
      }
      var (id, offset) := backing.value;
      ghost var ready := State();
      PreparedParts(before, ready, id, offset, start, length);
      PreparedFree(before, ready, id, offset, start, length);
      r := ZeroAllocationRange(id, offset, length);
      FramedTransitive(before, ready, State());
      FramedIsolated(before, State());
      if r.Err? {
        return;
      }
      ghost var zeroed := State();
      FilledParts(ready, zeroed, id, offset, Zeros(length));
      PlaceZeroed(start, length, protection, kind, id, offset);
      FramedTransitive(before, zeroed, State());
      StalesPlaced(before, ready, zeroed, State(), start, start + length);
      FramedIsolated(before, State());
      PlacedFrom(before, View(ready), State(), start, start + length, protection, kind);
    }

    method PlaceZeroed(start: U64, length: U64, protection: Protection, kind: VmaKind, id: nat, offset: nat)
      requires Valid() && 0 < length && IsPageAligned(length) && !kind.Heap?
               && CheckedMappingEnd(start, length, addressSpaceEnd).Ok?
      requires !Overlapping(vmas, start, start + length) && Provides(State(), id, offset, start, length)
      requires Behind(State(), id, offset, length) == Zeros(length)
      modifies this`vmas
      ensures Valid() && Framed(old(State()), State())
      ensures Stale(State()) <= old(Stale(State())) + Span(start, start + length)
      ensures Memory() == MapZero(old(Memory()), start, start + length, protection, kind)
    {
      hide Inv, Framed, View, Overlapping, Behind, Zeros, Stale, Span;
      ghost var before := State();
      var w := Vma(start, start + length, protection, kind, id, offset);
      FreeHasRoom(before, w);
      PlacedView(before, w);
      PlacedFramed(before, w);
      PlacedStales(before, w);
      MapZeroIsBytes(Memory(), start, length, protection, kind);
      vmas := vmas[start := w];
    }

    /** Maps given bytes at a free place: how the parts of a program image get into memory. */
    method InsertLoadedMapping(start: U64, length: U64, protection: Protection, data: seq<Byte>)
      returns (r: Outcome<()>)
      requires Valid() && 0 < length
      modifies this`vmas, this`allocations, this`nextAllocationId, host
      ensures old(host.refusals) <= host.refusals
      ensures (r.Err? && HostRefused(r.error)) <==> old(host.refusals) < host.refusals
      ensures host.Valid() && Isolated(member, old(host.owners), old(host.bytes), host.owners, host.bytes)
      ensures r.Ok? ==> Valid() && |data| == length && !Overlapping(old(vmas), start, start + length)
                        && CheckedMappingEnd(start, length, addressSpaceEnd).Ok?
      ensures r.Err? && !HostRefused(r.error) ==>
                || CheckedMappingEnd(start, length, addressSpaceEnd).Err?
                   || Overlapping(old(vmas), start, start + length)
                || |data| != length || HostAllocationRange(windowsHost, start, length).Err?
      ensures r.Ok? ==>
              Alike(MapBytes(old(Memory()), start, data, protection, Anonymous), Memory(), old(Stale(State())))
                        && FlatMemory.Holds(Memory(), start, data)
      ensures r.Ok? && old(Private(State())) ==>
                Private(State()) && Memory() == MapBytes(old(Memory()), start, data, protection, Anonymous)
    {
      hide Inv, Quiet, Framed, Isolated, View, Prepared, Overlapping, Private, Stale, Filled, HostStore.Valid;
      hide HostAllocationRange, CheckedMappingEnd, StalesNear, Extents, Alike, AllocationsDisjoint, SlotAt;
      host.ValidKeys();
      ghost var before := State();
      QuietReflexive(before);
      FramedIsolated(before, before);
      var end := CheckedMappingEnd(start, length, addressSpaceEnd);
      if end.Err? {
        return Err(end.error);
      }
      if Overlapping(vmas, start, end.value) {
        return Err(AddressInUse);
      }
      if |data| != length {
        return Err(InvalidLength);
      }
      var backing := EnsureHostAllocation(start, length);
      if backing.Err? {
        return Err(backing.error);
      }
      var (id, offset) := backing.value;
      ghost var ready := State();
      PreparedParts(before, ready, id, offset, start, length);
      PreparedFree(before, ready, id, offset, start, length);
      r := FillAllocationRange(id, offset, data);
      FramedTransitive(before, ready, State());
      FramedIsolated(before, State());
      if r.Err? {
        return;
      }
      ghost var filled := State();
      FilledParts(ready, filled, id, offset, data);
      PlaceFilled(start, protection, data, id, offset);
      LoadedPicture(before, ready, State(), start, data, protection);
      if Private(before) {
        FramedPrivate(before, filled);
      }
    }

    method PlaceFilled(start: U64, protection: Protection, data: seq<Byte>, id: nat, offset: nat)
      requires Valid() && 0 < |data| && CheckedMappingEnd(start, |data|, addressSpaceEnd).Ok?
      requires !Overlapping(vmas, start, start + |data|) && Provides(State(), id, offset, start, |data|)
      requires Behind(State(), id, offset, |data|) == data
      modifies this`vmas
      ensures Valid() && Memory() == MapBytes(old(Memory()), start, data, protection, Anonymous)
      ensures old(Private(State())) ==> Private(State())
    {
      hide Inv, View, Overlapping, Behind, Private, MapBytes, HostStore.Valid, Isolated;
      host.ValidKeys();
      ghost var before := State();
      var w := Vma(start, start + |data|, protection, Anonymous, id, offset);
      FreeHasRoom(before, w);
      PlacedView(before, w);
      PlacedIsolated(before, w);
      vmas := vmas[start := w];
    }

    // Mapping

    method MmapStart(args: MmapArgs, length: U64) returns (r: Outcome<U64>)
      requires Valid() && 0 < length
      ensures args.Pinned() ==>
                (r.Ok? <==> && CheckedMappingEnd(args.addr, length, addressSpaceEnd).Ok?
                            && !(args.IsFixedNoReplace() && Overlapping(vmas, args.addr, args.addr + length)))
      ensures args.Pinned() && r.Ok? ==> r.value == args.addr
      ensures args.Pinned() && r.Err? ==>
                var end := CheckedMappingEnd(args.addr, length, addressSpaceEnd);
                r.error == if end.Err? then end.error else AddressInUse
      ensures !args.Pinned() && Hint(args).Ok? ==> FirstFit(vmas, addressSpaceEnd, Hint(args).value, length, r)
      ensures !args.Pinned() && Hint(args).Err? ==> r == Err(Hint(args).error)
    {
      hide Inv, FirstFit, Overlapping, WellFormed;
      if args.Pinned() {
        if args.addr < MIN_GUEST_ADDRESS || !IsPageAligned(args.addr) {
          return Err(InvalidAddress);
        }
        var end := CheckedMappingEnd(args.addr, length, addressSpaceEnd);
        if end.Err? {
          return Err(end.error);
        }
        if Overlapping(vmas, args.addr, args.addr + length) && args.IsFixedNoReplace() {
          return Err(AddressInUse);
        }
        return Ok(args.addr);
      }
      var hint := Hint(args);
      if hint.Err? {
        return Err(hint.error);
      }
      InvWellFormed(State());
      r := FindFreeRange(vmas, addressSpaceEnd, hint.value, length);
    }

    /** Where an unpinned search starts. */
    function Hint(args: MmapArgs): Outcome<U64>
      reads this`mmapBase
    {
      args.SearchFrom(mmapBase)
    }

    /**
     Maps zeroed memory. A pinned request lands where it asks, replacing what is there unless it forbids that;
     any other lands first-fit. The guest sees a fresh zero mapping and nothing else, or nothing at all.
     */
    method Mmap(args: MmapArgs) returns (r: Outcome<U64>)
      requires Valid()
      modifies this`vmas, this`allocations, this`nextAllocationId, host
      ensures old(host.refusals) <= host.refusals
      ensures r.Err? && HostRefused(r.error) ==> old(host.refusals) < host.refusals
      ensures host.Valid() && Isolated(member, old(host.owners), old(host.bytes), host.owners, host.bytes)
      ensures r != Err(RestoreFailure) ==> Valid() && Framed(old(State()), State())
      ensures args.Request().Err? ==> r == Err(args.Request().error)
      ensures r.Ok? ==> MmapFits(old(Memory()), addressSpaceEnd, mmapBase, args)
      ensures r.Err? && host.refusals == old(host.refusals) ==>
                || (&& !MmapFits(old(Memory()), addressSpaceEnd, mmapBase, args)
                    && MmapRefusal(old(Memory()), addressSpaceEnd, args, r.error))
                || (&& r.error == InvalidLength
                    && MmapOverflows(windowsHost, old(Memory()), addressSpaceEnd, mmapBase, args))
      ensures r.Err? && host.refusals != old(host.refusals) && (args.Pinned() || mode.Flexible?) ==>
                HostRefused(r.error)
      ensures r == Err(HostFailure) && !args.Pinned() && mode.FixedGuest? ==> old(host.refusals) + 65 <= host.refusals
      ensures r.Err? && host.refusals != old(host.refusals) && !HostRefused(r.error) ==>
                r.error == OutOfMemory || r.error == InvalidLength
      ensures r.Ok? ==> MapsFresh(old(State()), State(), r.value, r.value + args.Request().value.length,
                                  args.Request().value.protection, args.Request().value.kind)
      ensures r.Ok? ==> Allows(Memory(), r.value, r.value + args.Request().value.length, args.prot as nat)
      ensures r.Ok? ==> CheckedMappingEnd(r.value, args.Request().value.length, addressSpaceEnd).Ok?
      ensures r.Ok? && args.Pinned() ==> r.value == args.addr
      ensures r.Ok? && !args.IsFixed() ==> FitsAt(old(vmas), addressSpaceEnd, r.value, args.Request().value.length)
      ensures r.Ok? && !args.Pinned() && mode.Flexible? ==>
                Hint(args).Ok? && FirstFit(old(vmas), addressSpaceEnd, Hint(args).value, args.Request().value.length, r)
      ensures r.Err? && r.error != RestoreFailure && !args.IsFixed() ==> Memory() == old(Memory())
      ensures r.Err? && r.error != RestoreFailure && args.IsFixed() ==>
                || Memory() == old(Memory())
                || (args.Request().Ok?
                    && Memory() == Unmap(old(Memory()), args.addr, args.addr + args.Request().value.length))
      ensures r.Err? && r.error != RestoreFailure ==> Stale(State()) <= old(Stale(State()))
    {
      hide Inv, Quiet, Framed, Isolated, View, Placed, MapsFresh, Overlapping, FirstFit, FitsAt, Stale;
      hide MmapFits, MmapRefusal, MmapOverflows, PlaceFor, Allows, HostAllocationRange, CheckedMappingEnd, Unmap;
      hide HostStore.Valid;
      hide MmapArgs.Request, MmapArgs.SearchFrom, MmapArgs.IsFixed, MmapArgs.IsFixedNoReplace;
      host.ValidKeys();
      ghost var before := State();
      QuietReflexive(before);
      FramedIsolated(before, before);
      var request := args.Request();
      RefusalParts(View(before), addressSpaceEnd, mmapBase, args);
      if request.Err? {
        return Err(request.error);
      }
      var length, protection, kind := request.value.length, request.value.protection, request.value.kind;
      var begin := MmapStart(args, length);
      StartFits(before, mmapBase, args, begin);
      if begin.Err? {
        return Err(begin.error);
      }
      if args.IsFixed() {
        OverflowsThere(windowsHost, View(before), addressSpaceEnd, mmapBase, args, begin.value);
        var done := MapOver(begin.value, length, protection, kind);
        if done.Ok? {
          FreshAllows(before, State(), args, begin.value);
        }
        return if done.Ok? then Ok(begin.value) else Err(done.error);
      }
      OverflowsThere(windowsHost, View(before), addressSpaceEnd, mmapBase, args, begin.value);
      r := MapAt(args, begin.value, length, protection, kind);
      if r.Ok? {
        FreshAllows(before, State(), args, r.value);
      }
    }

    /** A fixed mapping: clears the range, then maps it. */
    method MapOver(start: U64, length: U64, protection: Protection, kind: VmaKind) returns (r: Outcome<()>)
      requires Valid() && 0 < length && IsPageAligned(length) && !kind.Heap?
               && CheckedMappingEnd(start, length, addressSpaceEnd).Ok?
      modifies this`vmas, this`allocations, this`nextAllocationId, host
      ensures old(host.refusals) <= host.refusals
      ensures (r.Err? && HostRefused(r.error)) <==> old(host.refusals) < host.refusals
      ensures host.Valid() && Isolated(member, old(host.owners), old(host.bytes), host.owners, host.bytes)
      ensures r != Err(RestoreFailure) ==> Valid() && Framed(old(State()), State())
      ensures r.Ok? ==> MapsFresh(old(State()), State(), start, start + length, protection, kind)
      ensures r.Err? && !HostRefused(r.error) ==>
                HostAllocationRange(windowsHost, start, length).Err? && r.error == InvalidLength
      ensures r.Err? && r.error != RestoreFailure ==> Memory() == Unmap(old(Memory()), start, start + length)
      ensures r.Err? && r.error != RestoreFailure ==> Stale(State()) <= old(Stale(State()))
    {
      hide Inv, Quiet, Framed, Isolated, View, Placed, MapsFresh, Overlapping, Stale, Extents;
      ghost var before := State();
      UnmapRange(start, start + length);
      ghost var cleared := State();
      FramedIsolated(before, cleared);
      r := InsertMapping(start, length, protection, kind);
      IsolatedTransitive(member, before.owners, before.bytes, cleared.owners, cleared.bytes, host.owners, host.bytes);
      if r.Ok? {
        FramedTransitive(before, cleared, State());
        PlacedMapsFresh(before, cleared, State(), start, start + length, protection, kind);
      } else if r.error != RestoreFailure {
        FramedQuiet(before, cleared, State());
      }
    }

    /** Maps at a free place, moving on past host conflicts when host addresses are pinned to guest ones. */
    method MapAt(args: MmapArgs, begin: U64, length: U64, protection: Protection, kind: VmaKind)
      returns (r: Outcome<U64>)
      requires Valid() && 0 < length && IsPageAligned(length) && !kind.Heap? && !args.IsFixed()
      modifies this`vmas, this`allocations, this`nextAllocationId, host
      ensures old(host.refusals) <= host.refusals
      ensures r.Err? && HostRefused(r.error) ==> old(host.refusals) < host.refusals
      ensures host.Valid() && Isolated(member, old(host.owners), old(host.bytes), host.owners, host.bytes)
      ensures r != Err(RestoreFailure) ==> Valid() && Framed(old(State()), State())
      ensures r.Ok? ==> MapsFresh(old(State()), State(), r.value, r.value + length, protection, kind)
                        && FitsAt(old(vmas), addressSpaceEnd, r.value, length)
      ensures r.Ok? ==> begin <= r.value && CheckedMappingEnd(r.value, length, addressSpaceEnd).Ok?
      ensures r.Ok? && (mode.Flexible? || args.Pinned()) ==> r.value == begin
      ensures r.Err? && host.refusals == old(host.refusals) ==>
                || CheckedMappingEnd(begin, length, addressSpaceEnd).Err?
                || Overlapping(old(vmas), begin, begin + length)
                || (HostAllocationRange(windowsHost, begin, length).Err? && r.error == InvalidLength)
      ensures r.Err? && host.refusals != old(host.refusals) && (args.Pinned() || mode.Flexible?) ==>
                HostRefused(r.error)
      ensures r == Err(HostFailure) && !args.Pinned() && mode.FixedGuest? ==> old(host.refusals) + 65 <= host.refusals
      ensures r.Err? && host.refusals != old(host.refusals) && !HostRefused(r.error) ==>
                r.error == OutOfMemory || r.error == InvalidLength
      ensures r.Err? && r.error != RestoreFailure ==>
              Memory() == old(Memory()) && (Stale(State()) <= old(Stale(State())))
    {
      hide Inv, Quiet, Framed, Isolated, View, Placed, MapsFresh, Overlapping, Stale, FirstFit, Extents;
      ghost var before := State();
      QuietReflexive(before);
      FramedIsolated(before, before);
      var start: U64 := begin;
      var attempts := 0;
      while true
        invariant if attempts == 0 then host.refusals == old(host.refusals) && start == begin
                  else mode.FixedGuest? && !args.Pinned() && old(host.refusals) + attempts <= host.refusals
        invariant attempts > 0 ==> CheckedMappingEnd(start, length, addressSpaceEnd).Ok?
                                   && !Overlapping(vmas, start, start + length)
        invariant Valid() && Quiet(before, State()) && vmas == before.vmas && Extents(State()) == Extents(before)
        invariant attempts <= MMAP_HOST_CONFLICT_RETRIES
        invariant Isolated(member, before.owners, before.bytes, host.owners, host.bytes)
        invariant begin <= start && ((mode.Flexible? || args.Pinned()) ==> start == begin)
        decreases MMAP_HOST_CONFLICT_RETRIES - attempts
      {
        ghost var step := State();
        QuietIsFramed(before, step);
        var done := InsertMapping(start, length, protection, kind);
        IsolatedTransitive(member, before.owners, before.bytes, step.owners, step.bytes, host.owners, host.bytes);
        if done.Ok? {
          FramedTransitive(before, step, State());
          PlacedMapsFresh(before, step, State(), start, start + length, protection, kind);
          return Ok(start);
        }
        if done.error != RestoreFailure {
          QuietTransitive(before, step, State());
          QuietIsFramed(before, State());
        }
        if !(mode.FixedGuest? && !args.Pinned() && attempts < MMAP_HOST_CONFLICT_RETRIES && done.error == HostFailure) {
          return Err(done.error);
        }
        attempts := attempts + 1;
        var next := NextRetryStart(start, length);
        if next.Err? {
          return Err(next.error);
        }
        start := next.value;
      }
    }

    /** The next free place behind the one the host refused. */
    method NextRetryStart(previous: U64, length: U64) returns (r: Outcome<U64>)
      requires Valid() && 0 < length
      ensures r.Ok? ==> previous + length <= r.value && AlignUp(previous + length).Ok?
                        && FirstFit(vmas, addressSpaceEnd, AlignUp(previous + length).value, length, r)
      ensures r.Ok? ==> FitsAt(vmas, addressSpaceEnd, r.value, length)
      ensures r.Err? ==> r.error == OutOfMemory || r.error == InvalidLength
      ensures r.Err? ==> forall c: nat :: previous + length <= c ==> !FitsAt(vmas, addressSpaceEnd, c, length)
    {
      if previous + length >= U64_LIMIT {
        return Err(OutOfMemory);
      }
      var hint := AlignUp(previous + length);
      if hint.Err? {
        return Err(hint.error);
      }
      if hint.value >= addressSpaceEnd {
        return Err(OutOfMemory);
      }
      hide Inv, WellFormed;
      InvWellFormed(State());
      r := FindFreeRange(vmas, addressSpaceEnd, hint.value, length);
    }

    // The program break

    /**
     Moves the break. Growing keeps every heap byte and zero-fills the rest, provided no VMA but one at the
     base meets the grown range; otherwise a successful call leaves overlapping VMAs. Shrinking drops exactly
     the heap pages at or above the rounded new end.
     */
    method SetBrk(requested: U64) returns (current: U64, error: Option<MemoryError>)
      requires Valid()
      modifies this`vmas, this`allocations, this`nextAllocationId, this`currentBrk, host
      ensures old(host.refusals) <= host.refusals
      ensures (error.Some? && HostRefused(error.value)) <==> old(host.refusals) < host.refusals
      ensures host.Valid() && Isolated(member, old(host.owners), old(host.bytes), host.owners, host.bytes)
      ensures current == currentBrk == if requested == 0 || error.Some? then old(currentBrk) else requested
      ensures requested == 0 ==> error.None? && State() == old(State())
      ensures 0 < requested < brkBase ==> error == Some(InvalidAddress)
      ensures error.Some? && error.value != RestoreFailure ==> Valid() && Quiet(old(State()), State())
      ensures brkBase <= requested && error.None? ==>
                && AlignUp(requested).Ok? && AlignUp(requested).value <= addressSpaceEnd
                && MovedBreak(old(State()), State(), AlignUp(requested).value)
                && ((Valid() && HeapIs(Memory(), brkBase, AlignUp(requested).value)) <==>
                    HeapFits(old(vmas), brkBase, AlignUp(requested).value))
      ensures error != Some(RestoreFailure) && old(SingleHeap(vmas, brkBase)) ==> SingleHeap(vmas, brkBase)
      ensures brkBase <= requested && error.None? && old(SingleHeap(vmas, brkBase)) ==>
                Valid() && HeapIs(Memory(), brkBase, AlignUp(requested).value)
      ensures var refusal := BrkRefusal(old(Memory()), brkBase, addressSpaceEnd, HeapMappedEnd(old(vmas), brkBase),
                                        requested);
              && (refusal.Some? ==> error == refusal)
              && (refusal.None? && error.Some? && host.refusals == old(host.refusals) ==>
                    && error == Some(InvalidLength) && brkBase <= requested
                    && HeapMappedEnd(old(vmas), brkBase) < AlignUp(requested).value
                    && HostAllocationRange(windowsHost, brkBase, AlignUp(requested).value - brkBase).Err?)
    {
      hide Inv, Quiet, Framed, Isolated, View, GrowthBlocked, HeapMappedEnd, Grew, HeapIs, HeapFits, SingleHeap;
      hide InTheWay, HostAllocationRange, HostStore.Valid;
      host.ValidKeys();
      ghost var before := State();
      QuietReflexive(before);
      FramedIsolated(before, before);
      if requested == 0 {
        return currentBrk, None;
      }
      if requested < brkBase {
        return currentBrk, Some(InvalidAddress);
      }
      var newEnd := AlignUp(requested);
      if newEnd.Err? {
        return currentBrk, Some(newEnd.error);
      }
      if newEnd.value > addressSpaceEnd {
        return currentBrk, Some(OutOfMemory);
      }
      var oldEnd := HeapMappedEnd(vmas, brkBase);
      if newEnd.value > oldEnd {
        BlockedShown(before, oldEnd, newEnd.value);
        if GrowthBlocked(vmas, oldEnd, newEnd.value) {
          return currentBrk, Some(OutOfMemory);
        }
        var r := ResizeHeap(oldEnd, newEnd.value);
        if r.Err? {
          return currentBrk, Some(r.error);
        }
      } else if newEnd.value < oldEnd {
        ShrinkHeapTo(newEnd.value);
        FramedIsolated(before, State());
      }
      BreakIsExact(before, State(), newEnd.value);
      if SingleHeap(before.vmas, brkBase) {
        SingleHeapFits(before, newEnd.value);
      }
      currentBrk := requested;
      return currentBrk, None;
    }

    method ResizeHeap(oldEnd: nat, newEnd: U64) returns (r: Outcome<()>)
      requires Valid() && oldEnd == HeapMappedEnd(vmas, brkBase) && oldEnd < newEnd <= addressSpaceEnd
               && IsPageAligned(newEnd)
      requires !GrowthBlocked(vmas, oldEnd, newEnd)
      modifies this`vmas, this`allocations, this`nextAllocationId, host
      ensures old(host.refusals) <= host.refusals
      ensures (r.Err? && HostRefused(r.error)) <==> old(host.refusals) < host.refusals
      ensures host.Valid() && Isolated(member, old(host.owners), old(host.bytes), host.owners, host.bytes)
      ensures r.Err? && r.error != RestoreFailure ==> Valid() && Quiet(old(State()), State())
      ensures r.Err? && !HostRefused(r.error) ==>
                HostAllocationRange(windowsHost, brkBase, newEnd - brkBase).Err? && r.error == InvalidLength
      ensures r.Ok? ==> Grew(old(State()), State(), oldEnd, newEnd)
      ensures r != Err(RestoreFailure) && old(SingleHeap(vmas, brkBase)) ==> SingleHeap(vmas, brkBase)
    {
      hide SingleHeap, SameRanges, Stale, Undercut, HostStore.Valid, GrowSafe, StalesNear, Extents;
      hide Inv, Quiet, Framed, Isolated, View, Prepared, GrowthBlocked, HeapMappedEnd, Zeroed, Unused, Grew;
      ghost var before := State();
      var backing := EnsureHostAllocation(brkBase, newEnd - brkBase);
      if backing.Err? {
        return Err(backing.error);
      }
      var (id, offset) := backing.value;
      ghost var ready := State();
      PreparedParts(before, ready, id, offset, brkBase, newEnd - brkBase);
      if SingleHeap(before.vmas, brkBase) {
        SameRangesSingle(before.vmas, vmas, brkBase, HeapVma(brkBase, newEnd, id, offset));
      }
      r := ZeroAllocationRange(id, offset + (oldEnd - brkBase), newEnd - oldEnd);
      FramedTransitive(before, ready, State());
      FramedIsolated(before, State());
      if r.Err? {
        return;
      }
      ghost var zeroed := State();
      host.ValidKeys();
      GrowthOutcome(before, ready, zeroed, id, offset, oldEnd, newEnd);
      vmas := vmas[brkBase := HeapVma(brkBase, newEnd, id, offset)];
      assert State() == Grown(zeroed, brkBase, newEnd, id, offset);
    }

    method ShrinkHeapTo(newEnd: U64)
      requires Valid() && IsPageAligned(newEnd) && brkBase <= newEnd
      modifies this`vmas, this`allocations, host
      ensures host.refusals == old(host.refusals)
      ensures Valid() && Framed(old(State()), State())
      ensures Stale(State()) <= old(Stale(State()))
      ensures Memory() == ShrinkHeap(old(Memory()), newEnd)
      ensures old(SingleHeap(vmas, brkBase)) ==> SingleHeap(vmas, brkBase)
    {
      hide Inv, Quiet, Framed, Isolated, View, Stale, SingleHeap, SplitAt;
      ghost var before := State();
      QuietReflexive(before);
      if SingleHeap(vmas, brkBase) {
        InvWellFormed(before);
        ShrunkSingle(vmas, brkBase, newEnd);
      }
      if newEnd > brkBase {
        SplitVmaAt(newEnd);
      } else {
        HeapStartsAbove(before);
      }
      ghost var split := State();
      QuietIsFramed(before, split);
      ShrunkView(split, newEnd);
      vmas := WithoutHeapFrom(vmas, newEnd);
      FramedTransitive(before, split, State());
      ghost var shrunk := State();
      DropUnreferencedAllocations();
      FramedQuiet(before, shrunk, State());
    }

    // Writing inside one VMA

    /** Detaches the pages of [address, address + |data|) and stores; the range must lie in one VMA. */
    method StoreInOneVma(address: U64, data: seq<Byte>) returns (r: Outcome<seq<Byte>>)
      requires Valid() && address + |data| < U64_LIMIT && VmaContaining(vmas, address).Some?
      requires address + |data| <= VmaContaining(vmas, address).value.end
      modifies this`vmas, this`allocations, this`nextAllocationId, host
      ensures old(host.refusals) <= host.refusals
      ensures (r.Err? && HostRefused(r.error)) <==> old(host.refusals) < host.refusals
      ensures Valid() && Framed(old(State()), State())
      ensures Stale(State()) <= old(Stale(State()))
      ensures r.Ok? ==> |r.value| == |data| && FlatMemory.Holds(old(Memory()), address, r.value)
                        && Memory() == Overlay(old(Memory()), address, data)
      ensures r.Err? ==> r.error == HostFailure && Memory() == old(Memory())
    {
      hide Inv, View, Quiet, Framed, Isolated, SameContents, Overlay, KeepsCuts, VmaContaining, Stale, Exclusive;
      hide KeepsSole, KeepsRuns, HostStore.Valid;
      ghost var before := State();
      LookupView(before, address);
      ghost var v0 := VmaContaining(vmas, address).value;
      var unique := EnsureGuestPageRangeUnique(address, address + |data|);
      ghost var split := State();
      QuietIsFramed(before, split);
      if unique.Err? {
        return Err(HostFailure);
      }
      LookupView(split, address);
      var v := VmaContaining(vmas, address).value;
      RunStillWhole(before, split, v0.start, v.start, address, |data|);
      BackedVma(split, v.start);
      VmaBytes(split, v.start, address, |data|);
      var offset := v.allocationOffset + (address - v.start);
      var replaced := host.bytes[allocations[v.allocationId].memory][offset..offset + |data|];
      unique := EnsureAllocationUnique(v.allocationId);
      FramedQuiet(before, split, State());
      if unique.Err? {
        return Err(HostFailure);
      }
      ghost var ready := State();
      StoreThroughVma(v.start, address, data);
      FramedTransitive(before, ready, State());
      r := Ok(replaced);
    }

    /** Overwrites code inside one VMA whatever its protection, and hands back the bytes it replaced. */
    method PatchCode(address: U64, bytes: seq<Byte>) returns (r: Outcome<seq<Byte>>)
      requires Valid()
      modifies this`vmas, this`allocations, this`nextAllocationId, host
      ensures old(host.refusals) <= host.refusals
      ensures (r.Err? && HostRefused(r.error)) <==> old(host.refusals) < host.refusals
      ensures Valid() && Framed(old(State()), State())
      ensures Stale(State()) <= old(Stale(State()))
      ensures r.Ok? ==> |r.value| == |bytes| && FlatMemory.Holds(old(Memory()), address, r.value)
                        && Memory() == Overlay(old(Memory()), address, bytes)
                        && Overlay(Memory(), address, r.value) == old(Memory())
      ensures r.Err? ==> Memory() == old(Memory())
      ensures r.Ok? <==> host.refusals == old(host.refusals) && InOneVma(old(vmas), address, |bytes|)
      ensures r.Err? && host.refusals == old(host.refusals) && r.error != NotMapped ==> r.error == InvalidLength
      ensures r == Err(NotMapped) ==> address !in old(Memory())
      ensures address + |bytes| < U64_LIMIT && address !in old(Memory()) ==> r == Err(NotMapped)
      ensures address + |bytes| >= U64_LIMIT ==> r == Err(InvalidLength)
    {
      hide Inv, View, Quiet, Framed, Overlay, FlatMemory.Holds, Stale, WellFormed, InOneVma;
      ghost var before := State();
      QuietReflexive(before);
      LookupView(before, address);
      InvWellFormed(before);
      InFoundVma(vmas, addressSpaceEnd, address, |bytes|);
      var end := CheckedRawRange(address, |bytes|);
      if end.Err? {
        return Err(InvalidLength);
      }
      var found := VmaContaining(vmas, address);
      if found.None? {
        return Err(NotMapped);
      }
      if end.value > found.value.end {
        return Err(InvalidLength);
      }
      r := StoreInOneVma(address, bytes);
      if r.Ok? {
        OverlayUndo(View(before), address, r.value, bytes);
      }
    }

    /**
     Fills the slice a mutable borrow of [address, address + |data|) exposes. The borrow exists (`true`) when
     one writable VMA holds the range, and does not (`false`) when the range runs past the VMA it starts in.
     */
    method FillSlice(address: U64, data: seq<Byte>) returns (r: Outcome<bool>)
      requires Valid()
      modifies this`vmas, this`allocations, this`nextAllocationId, host
      ensures old(host.refusals) <= host.refusals
      ensures (r.Err? && HostRefused(r.error)) <==> old(host.refusals) < host.refusals
      ensures Valid() && Framed(old(State()), State())
      ensures Stale(State()) <= old(Stale(State()))
      ensures Memory() == if r == Ok(true) then Overlay(old(Memory()), address, data) else old(Memory())
      ensures r == Ok(true) ==> Accessible(old(Memory()), address, address + |data|, Access.Write)
      ensures r == Ok(true) <==>
                && host.refusals == old(host.refusals) && address + |data| < U64_LIMIT
                && (data != [] ==>
                      Fault(old(Memory()), address, Access.Write) == None && InOneVma(old(vmas), address, |data|))
      ensures r == Ok(false) ==> Fault(old(Memory()), address, Access.Write) == None
      ensures r.Err? && host.refusals == old(host.refusals) && r.error != InvalidLength ==>
                Fault(old(Memory()), address, Access.Write) == Some(r.error)
      ensures r == Err(InvalidLength) <==> address + |data| >= U64_LIMIT
      ensures 0 < |data| && address + |data| < U64_LIMIT && Fault(old(Memory()), address, Access.Write).Some? ==>
                r == Err(Fault(old(Memory()), address, Access.Write).value)
    {
      hide Inv, View, Quiet, Framed, Overlay, FlatMemory.Holds, Stale, WellFormed, InOneVma;
      ghost var before := State();
      QuietReflexive(before);
      LookupView(before, address);
      OverlayNothing(View(before), address);
      var end := CheckedRawRange(address, |data|);
      if end.Err? {
        return Err(InvalidLength);
      }
      if data == [] {
        return Ok(true);
      }
      InvWellFormed(before);
      InFoundVma(vmas, addressSpaceEnd, address, |data|);
      var found := VmaContaining(vmas, address);
      if found.None? {
        return Err(NotMapped);
      }
      if !Permits(found.value.protection, Access.Write) {
        return Err(AccessDenied);
      }
      if end.value > found.value.end {
        return Ok(false);
      }
      VmaAccess(before, found.value.start, Access.Write);
      var stored := StoreInOneVma(address, data);
      r := if stored.Ok? then Ok(true) else Err(stored.error);
    }

    // C strings

    /** Reads up to a NUL, never touching an address behind it. */
    method ReadCString(address: U64, maxLength: nat) returns (r: Outcome<seq<Byte>>)
      requires Valid()
      ensures r.Ok? ==> |r.value| < maxLength && FlatMemory.Holds(Memory(), address, r.value + [0])
                        && 0 !in r.value && Accessible(Memory(), address, address + |r.value| + 1, Access.Read)
      ensures r.Err? && r.error == InvalidLength ==>
                Accessible(Memory(), address, address + maxLength, Access.Read)
                    && NoNul(Memory(), address, address + maxLength)
      ensures r.Err? && r.error != InvalidLength ==>
                exists a: nat :: StringStopsAt(Memory(), address, maxLength, a, r.error)
    {
      hide Inv, View, VmaContaining;
      var cursor: nat := address;
      var bytes := [];
      while |bytes| < maxLength
        invariant cursor == address + |bytes| && |bytes| <= maxLength
        invariant FlatMemory.Holds(Memory(), address, bytes) && 0 !in bytes
        invariant Accessible(Memory(), address, cursor, Access.Read)
      {
        LookupView(State(), cursor);
        var found := VmaContaining(vmas, cursor);
        if found.None? {
          assert StringStopsAt(Memory(), address, maxLength, cursor, NotMapped);
          return Err(NotMapped);
        }
        var v := found.value;
        if !Permits(v.protection, Access.Read) {
          assert StringStopsAt(Memory(), address, maxLength, cursor, AccessDenied);
          return Err(AccessDenied);
        }
        var remaining := maxLength - |bytes|;
        var chunkLength := if v.end - cursor < remaining then v.end - cursor else remaining;
        VmaBytes(State(), v.start, cursor, chunkLength);
        VmaAccess(State(), v.start, Access.Read);
        var offset := v.allocationOffset + (cursor - v.start);
        var chunk := host.bytes[allocations[v.allocationId].memory][offset..offset + chunkLength];
        var nul := IndexOf(chunk, 0);
        HoldsJoins(Memory(), address, bytes, chunk);
        if nul.Some? {
          assert (bytes + chunk)[..|bytes| + nul.value + 1] == bytes + chunk[..nul.value] + [0];
          return Ok(bytes + chunk[..nul.value]);
        }
        bytes := bytes + chunk;
        cursor := cursor + chunkLength;
      }
      r := Err(InvalidLength);
    }

    // Cloning

    predicate ReadOnlyShareable(id: nat)
      reads this
    {
      mode.Flexible? && forall k :: k in vmas && vmas[k].allocationId == id ==> !vmas[k].protection.write
    }

    /** Some allocation would be shared rather than copied. */
    predicate Shares(allowSharing: bool)
      reads this
    {
      allowSharing && exists i :: i in allocations && ReadOnlyShareable(i)
    }

    /**
     Clones the address space for a new member. Allocations without a writable VMA are shared when sharing is
     allowed, the others copied; the clone reads what its source reads and nobody else notices.
     */
    method TryClone(allowSharing: bool, cloneMode: HostAddressMode, ghost clone: nat) returns (r: Outcome<GuestMemory>)
      requires Valid() && clone != member && Owned(clone, map[], host.owners)
      modifies host
      ensures old(host.refusals) <= host.refusals
      ensures (r.Err? && HostRefused(r.error)) <==> old(host.refusals) < host.refusals
      ensures host.Valid() && Spares(clone, old(host.owners), old(host.bytes), host.owners, host.bytes)
      ensures Valid() && Memory() == old(Memory())
      ensures r.Ok? ==> fresh(r.value) && r.value.host == host && r.value.member == clone && r.value.Valid()
                        && r.value.Memory() == old(Memory())
                        && r.value.mode == cloneMode && r.value.brkBase == brkBase && r.value.currentBrk == currentBrk
                        && r.value.windowsHost == windowsHost
                        && (forall i :: i in allocations && !(allowSharing && ReadOnlyShareable(i)) ==>
                              i in r.value.allocations && r.value.allocations[i].memory !in old(host.bytes))
                        && (forall i :: i in allocations ==>
                              && i in r.value.allocations
                              && (r.value.allocations[i].memory == allocations[i].memory <==>
                                    allowSharing && mode.Flexible? && !EverWritable(vmas, i)))
      ensures r.Err? ==> r.error == HostFailure && Owned(clone, map[], host.owners)
      ensures r.Ok? ==> && Stale(State()) == old(Stale(State())) && Stale(r.value.State()) == old(Stale(State()))
                        && Extents(State()) == old(Extents(State()))
                        && Extents(r.value.State()) == old(Extents(State()))
                        && (old(AllocationsDisjoint(allocations, host.bytes))
                            <==> AllocationsDisjoint(allocations, host.bytes))
                        && (old(AllocationsDisjoint(allocations, host.bytes)) <==>
                            AllocationsDisjoint(r.value.allocations, host.bytes))
                        && SameContents(old(allocations), old(host.bytes), allocations, host.bytes)
                        && SameContents(old(allocations), old(host.bytes), r.value.allocations, host.bytes)
                        && r.value.vmas == vmas && r.value.mmapBase == mmapBase
                           && r.value.addressSpaceEnd == addressSpaceEnd
                        && forall i :: i in r.value.allocations ==>
                             r.value.allocations[i].memory !in old(host.bytes)
                             || (i in allocations && r.value.allocations[i].memory == allocations[i].memory)
      ensures r.Ok? && !Shares(allowSharing) ==>
              Unshared(r.value.State()) && (old(Unshared(State())) ==> Unshared(State()))
    {
      hide Inv, Spares, Owned, View, HostStore.Valid, Cloning, Stale, AllocationsDisjoint, Unshared, SharedNothing;
      hide SameContents, Extents;
      ghost var before := State();
      var copies := CloneAllocations(allowSharing, clone);
      if copies.None? {
        OthersUntouched(before, clone, host.bytes, host.owners);
        return Err(HostFailure);
      }
      CloningParts(before, clone, allocations.Keys, copies.value, host.bytes, host.owners);
      CloningDone(before, clone, copies.value, host.bytes, host.owners);
      CloneLayers(before, clone, copies.value, host.bytes, host.owners);
      AllocationsInStore(before);
      var memory := new GuestMemory(host, clone, windowsHost, cloneMode, brkBase, currentBrk, mmapBase, addressSpaceEnd,
                                    vmas, copies.value, nextAllocationId);
      r := Ok(memory);
    }

    method CloneAllocations(allowSharing: bool, ghost clone: nat) returns (r: Option<AllocationMap>)
      requires Valid() && clone != member && Owned(clone, map[], host.owners)
      modifies host
      ensures r.None? <==> old(host.refusals) < host.refusals
      ensures r.Some? ==> host.refusals == old(host.refusals)
      ensures host.Valid()
      ensures r.Some? ==> Cloning(old(State()), clone, allocations.Keys, r.value, host.bytes, host.owners)
                          && (forall i :: i in r.value && !(allowSharing && ReadOnlyShareable(i)) ==>
                              r.value[i].memory !in old(host.bytes))
                          && (forall i :: i in r.value && allowSharing && ReadOnlyShareable(i) ==>
                                i in allocations && r.value[i].memory == allocations[i].memory)
                          && (!Shares(allowSharing) ==> SharedNothing(clone, r.value, old(host.owners), host.owners))
      ensures r.None? ==> Spares(clone, old(host.owners), old(host.bytes), host.owners, host.bytes)
                          && Owned(clone, map[], host.owners)
    {
      hide Inv, Spares, Owned, HostStore.Valid, Cloning, ReadOnlyShareable, Sorted, Elements, StrictlyAscending;
      ghost var before := State();
      var copies: AllocationMap := map[];
      var order := Sorted(allocations.Keys);
      host.ValidKeys();
      CloningStart(before, clone);
      SortedElements(allocations.Keys);
      PrefixElements(order, 0);
      for n := 0 to |order|
        invariant host.refusals == old(host.refusals)
        invariant host.Valid() && Cloning(before, clone, Elements(order[..n]), copies, host.bytes, host.owners)
        invariant forall i :: i in copies && !(allowSharing && ReadOnlyShareable(i)) ==>
                  copies[i].memory !in before.bytes
        invariant forall i :: i in copies && allowSharing && ReadOnlyShareable(i) ==>
                  i in allocations && copies[i].memory == allocations[i].memory
        invariant !Shares(allowSharing) ==> SharedNothing(clone, copies, before.owners, host.owners)
      {
        var id := order[n];
        PrefixElements(order, n);
        var share := allowSharing && ReadOnlyShareable(id);
        var h := CloneAllocation(id, share, clone, before, Elements(order[..n]), copies);
        if h.None? {
          CloningParts(before, clone, Elements(order[..n]), copies, host.bytes, host.owners);
          ReleaseCopies(copies, clone, before);
          return None;
        }
        copies := copies[id := Allocation(allocations[id].guestStart, h.value)];
      }
      r := Some(copies);
    }

    method CloneAllocation(id: nat, share: bool, ghost clone: nat, ghost before: State, ghost done: set<nat>,
                           ghost copies: AllocationMap)
      returns (h: Option<nat>)
      requires host.Valid() && id in allocations && allocations == before.allocations && id !in done
               && clone != before.member
      requires Inv(before) && Cloning(before, clone, done, copies, host.bytes, host.owners)
      modifies host
      ensures host.refusals == old(host.refusals) + (if h.None? then 1 else 0)
      ensures host.Valid()
      ensures h.Some? ==>
              Cloning(before, clone, done + {id}, copies[id := Allocation(allocations[id].guestStart, h.value)],
                      host.bytes, host.owners)
      ensures h.None? ==> Cloning(before, clone, done, copies, host.bytes, host.owners)
      ensures h.Some? && share ==> h.value == allocations[id].memory
      ensures h.Some? && !share ==> h.value !in before.bytes && h.value !in old(host.owners)
                                    && host.owners == old(host.owners)[h.value := {Owner(clone, id)}]
    {
      hide Inv, Spares, Owned, SameContents, Cloning;
      CloningBuffer(before, clone, done, copies, host.bytes, host.owners, id);
      CloningParts(before, clone, done, copies, host.bytes, host.owners);
      var source := allocations[id].memory;
      ghost var bytes, owners := host.bytes, host.owners;
      if share {
        host.Share(source, Owner(clone, id));
        CloningShared(before, clone, done, copies, bytes, owners, id);
        return Some(source);
      }
      h := host.AllocateCopy(host.bytes[source], Owner(clone, id));
      if h.Some? {
        CloningCopied(before, clone, done, copies, bytes, owners, id, h.value);
      }
    }

    method ReleaseCopies(copies: AllocationMap, ghost clone: nat, ghost before: State)
      requires host.Valid() && Owned(clone, copies, host.owners) && forall i :: i in copies ==>
               copies[i].memory in host.bytes
      requires Spares(clone, before.owners, before.bytes, host.owners, host.bytes)
      modifies host
      ensures host.refusals == old(host.refusals)
      ensures host.Valid() && Spares(clone, before.owners, before.bytes, host.owners, host.bytes)
      ensures Owned(clone, map[], host.owners)
    {
      hide Spares, Owned;
      var rest := copies;
      while rest.Keys != {}
        invariant host.refusals == old(host.refusals)
        invariant host.Valid() && Owned(clone, rest, host.owners)
                  && Spares(clone, before.owners, before.bytes, host.owners, host.bytes)
        decreases rest.Keys
      {
        var id := Least(rest.Keys);
        ghost var bytes, owners := host.bytes, host.owners;
        OwnedHeld(clone, rest, owners, id);
        host.Release(rest[id].memory, Owner(clone, id));
        DropOwned(clone, rest, owners, id, host.owners);
        SparesTransitive(clone, before.owners, before.bytes, owners, bytes, host.owners, host.bytes);
        rest := rest - {id};
      }
      assert rest == map[];
    }
  }

  /** Some VMA on that allocation may be written. */
  ghost predicate EverWritable(vmas: VmaMap, id: nat) {
    exists k :: k in vmas && vmas[k].allocationId == id && vmas[k].protection.write
  }

  ghost predicate NoNul(flat: FlatMap, lo: nat, hi: nat) {
    forall a: nat :: lo <= a < hi && a in flat ==> flat[a].data != 0
  }

  /** A string read runs into an unreadable address before any NUL. */
  ghost predicate StringStopsAt(flat: FlatMap, address: nat, maxLength: nat, a: nat, error: MemoryError) {
    NoNul(flat, address, a) && FirstFault(flat, address, address + maxLength, Access.Read, a, error)
  }

  /** The first position of `needle`. */
  method IndexOf(bytes: seq<Byte>, needle: Byte) returns (r: Option<nat>)
    ensures r.Some? ==> r.value < |bytes| && bytes[r.value] == needle && needle !in bytes[..r.value]
    ensures r.None? ==> needle !in bytes
  {
    for i := 0 to |bytes|
      invariant needle !in bytes[..i]
    {
      if bytes[i] == needle {
        return Some(i);
      }
    }
    r := None;
  }

  /** A place for the request exists: the range it is pinned to, or a free one from where the search starts. */
  ghost predicate MmapFits(flat: FlatMap, spaceEnd: nat, mmapBase: U64, args: MmapArgs) {
    && args.Request().Ok?
    && var length := args.Request().value.length;
    && if args.Pinned() then
         && IsPageAligned(args.addr) && MIN_GUEST_ADDRESS <= args.addr && args.addr + length <= spaceEnd
         && (args.IsFixedNoReplace() ==> Free(flat, args.addr, args.addr + length))
       else
         && args.SearchFrom(mmapBase).Ok?
         && exists c: nat :: args.SearchFrom(mmapBase).value <= c && HasPlace(flat, spaceEnd, c, length)
  }

  /** What the guest is told when there is no place. */
  ghost predicate MmapRefusal(flat: FlatMap, spaceEnd: nat, args: MmapArgs, error: MemoryError) {
    if args.Request().Err? then error == args.Request().error
    else
      var length := args.Request().value.length;
      if !args.Pinned() then error == OutOfMemory || error == InvalidLength
      else if args.addr < MIN_GUEST_ADDRESS || !IsPageAligned(args.addr) then error == InvalidAddress
      else if args.addr + length >= U64_LIMIT then error == InvalidLength
      else if args.addr + length > spaceEnd then error == OutOfMemory
      else error == AddressInUse
  }

  /** The place the request is for: its own address if it is pinned, else the lowest free one from the hint up. */
  ghost predicate PlaceFor(flat: FlatMap, spaceEnd: nat, mmapBase: U64, args: MmapArgs, c: nat) {
    && args.Request().Ok?
    && if args.Pinned() then c == args.addr
       else
         && args.SearchFrom(mmapBase).Ok? && args.SearchFrom(mmapBase).value <= c
         && HasPlace(flat, spaceEnd, c, args.Request().value.length)
         && forall d: nat :: args.SearchFrom(mmapBase).value <= d < c ==>
              !HasPlace(flat, spaceEnd, d, args.Request().value.length)
  }

  /** The host's granules around the place for the request would not end below 2^64. */
  ghost predicate MmapOverflows(windowsHost: bool, flat: FlatMap, spaceEnd: nat, mmapBase: U64, args: MmapArgs) {
    exists c: U64 :: && PlaceFor(flat, spaceEnd, mmapBase, args, c)
                     && HostAllocationRange(windowsHost, c, args.Request().value.length).Err?
  }

  /** Loaded bytes on prepared backing: what the guest sees, exactly in a private memory. */
  lemma LoadedPicture(s: State, ready: State, t: State, start: nat, data: seq<Byte>, protection: Protection)
    requires Inv(s) && Alike(View(s), View(ready), Stale(s))
    requires View(t) == MapBytes(View(ready), start, data, protection, Anonymous)
    ensures Alike(MapBytes(View(s), start, data, protection, Anonymous), View(t), Stale(s))
    ensures FlatMemory.Holds(View(t), start, data)
    ensures Private(s) ==> View(t) == MapBytes(View(s), start, data, protection, Anonymous)
  {
    hide Inv, View, Private, Stale, MapBytes, Alike;
    MappedBytes(View(s), View(ready), start, data, protection, Stale(s));
    if Private(s) {
      PrivateIsNewest(s);
      AlikeExactly(MapBytes(View(s), start, data, protection, Anonymous), View(t));
    }
  }

  lemma ReprotectAllows(flat: FlatMap, lo: nat, hi: nat, prot: nat)
    requires AllMapped(flat, lo, hi)
    ensures Allows(Reprotect(flat, lo, hi, Protecting(prot)), lo, hi, prot)
  {
  }

  /** A range of cells with that protection. */
  lemma CellsAllow(flat: FlatMap, lo: nat, hi: nat, kind: VmaKind, prot: nat)
    requires forall a: nat :: lo <= a < hi ==> a in flat && flat[a] == Cell(0, Protecting(prot), kind)
    ensures Allows(flat, lo, hi, prot)
  {
  }

  /** The new mapping may be used as the request's number says. */
  lemma FreshAllows(s: State, t: State, args: MmapArgs, start: nat)
    requires args.Request().Ok?
    requires var q := args.Request().value; MapsFresh(s, t, start, start + q.length, q.protection, q.kind)
    ensures Allows(View(t), start, start + args.Request().value.length, args.prot as nat)
  {
    hide View, Stale, StalesNear, Alike, MapZero, Allows, Protecting, MmapArgs.Request;
    var q := args.Request().value;
    RequestExactly(args);
    CellsAllow(View(t), start, start + q.length, q.kind, args.prot as nat);
  }

  lemma RefusalParts(flat: FlatMap, spaceEnd: nat, mmapBase: U64, args: MmapArgs)
    ensures args.Request().Err? ==> !MmapFits(flat, spaceEnd, mmapBase, args)
    ensures args.Request().Err? ==> MmapRefusal(flat, spaceEnd, args, args.Request().error)
    ensures forall e :: MmapRefusal(flat, spaceEnd, args, e) ==> !HostRefused(e)
  {
  }

  lemma OverflowsThere(windowsHost: bool, flat: FlatMap, spaceEnd: nat, mmapBase: U64, args: MmapArgs, start: U64)
    requires PlaceFor(flat, spaceEnd, mmapBase, args, start)
    ensures HostAllocationRange(windowsHost, start, args.Request().value.length).Err? ==>
              MmapOverflows(windowsHost, flat, spaceEnd, mmapBase, args)
  {
  }

  /** The choice of a start succeeds exactly when there is a place, and finds it free unless it may be replaced. */
  lemma StartFits(s: State, mmapBase: U64, args: MmapArgs, r: Outcome<U64>)
    requires Inv(s) && args.Request().Ok?
    requires var length := args.Request().value.length;
             var end := CheckedMappingEnd(args.addr, length, s.spaceEnd);
             if args.Pinned() then
               && (r.Ok? <==> && end.Ok?
                              && !(args.IsFixedNoReplace() && Overlapping(s.vmas, args.addr, args.addr + length)))
               && (r.Ok? ==> r.value == args.addr)
               && (r.Err? ==> r.error == if end.Err? then end.error else AddressInUse)
             else if args.SearchFrom(mmapBase).Ok? then
               FirstFit(s.vmas, s.spaceEnd, args.SearchFrom(mmapBase).value, length, r)
             else r == Err(args.SearchFrom(mmapBase).error)
    ensures r.Ok? <==> MmapFits(View(s), s.spaceEnd, mmapBase, args)
    ensures r.Err? ==> MmapRefusal(View(s), s.spaceEnd, args, r.error)
    ensures r.Ok? ==> PlaceFor(View(s), s.spaceEnd, mmapBase, args, r.value)
    ensures r.Ok? ==> CheckedMappingEnd(r.value, args.Request().value.length, s.spaceEnd).Ok?
    ensures r.Ok? && !args.IsFixed() ==> !Overlapping(s.vmas, r.value, r.value + args.Request().value.length)
  {
    hide Inv, View, Overlapping, HasPlace;
    var length := args.Request().value.length;
    PlaceIsFit(s, args.addr, length);
    forall c: nat
      ensures FitsAt(s.vmas, s.spaceEnd, c, length) <==> HasPlace(View(s), s.spaceEnd, c, length)
    {
      PlaceIsFit(s, c, length);
    }
  }

  /** One VMA holds the whole range and the address it starts at. */
  ghost predicate InOneVma(vmas: VmaMap, address: nat, length: nat) {
    && address + length < U64_LIMIT
    && exists k :: Covers(vmas, k, address) && address + length <= vmas[k].end
  }

  lemma InFoundVma(vmas: VmaMap, spaceEnd: nat, address: nat, length: nat)
    requires WellFormed(vmas, spaceEnd)
    ensures var found := VmaContaining(vmas, address);
            InOneVma(vmas, address, length) <==>
              address + length < U64_LIMIT && found.Some? && address + length <= found.value.end
  {
    hide VmaContaining;
    LookupFindsCover(vmas, address);
    if VmaContaining(vmas, address).Some? {
      var v := VmaContaining(vmas, address).value;
      forall k | Covers(vmas, k, address)
        ensures k == v.start
      {
        CoverUnique(vmas, v.start, k, address);
      }
    }
  }

  ghost predicate AllMapped(flat: FlatMap, lo: nat, hi: nat) {
    forall a: nat :: lo <= a < hi ==> a in flat
  }
}
