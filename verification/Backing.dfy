/**
 How VMAs are backed: allocations give guest ranges a host buffer, the host store owns the buffers'
 bytes and knows who holds each of them. `Flat` reads the guest's picture off these maps.
 */
module Backing {
  import opened Ranges
  import opened Vmas
  import opened FlatMemory

  datatype Allocation = Allocation(guestStart: nat, memory: nat)

  type AllocationMap = map<nat, Allocation>
  type HostBytes = map<nat, seq<Byte>>

  /** One reference to a host buffer: which family member holds it, under which allocation id. */
  datatype Owner = Owner(member: nat, id: nat)

  type Owners = map<nat, set<Owner>>

  // Reading through the maps

  ghost function ByteOf(allocations: AllocationMap, bytes: HostBytes, slot: Slot): Byte {
    if slot.allocationId in allocations && allocations[slot.allocationId].memory in bytes
       && slot.offset < |bytes[allocations[slot.allocationId].memory]|
    then bytes[allocations[slot.allocationId].memory][slot.offset]
    else 0
  }

  ghost function Flat(vmas: VmaMap, allocations: AllocationMap, bytes: HostBytes): FlatMap {
    imap a: nat | SlotAt(vmas, a).Some? ::
      var slot := SlotAt(vmas, a).value;
      Cell(ByteOf(allocations, bytes, slot), slot.protection, slot.kind)
  }

  // The representation invariant

  predicate BackedSlot(allocations: AllocationMap, bytes: HostBytes, a: nat, slot: Slot) {
    && slot.allocationId in allocations
    && allocations[slot.allocationId].memory in bytes
    && allocations[slot.allocationId].guestStart <= a
    && slot.offset == a - allocations[slot.allocationId].guestStart
    && slot.offset < |bytes[allocations[slot.allocationId].memory]|
  }

  /** Every mapped address lies inside the live allocation its VMA names, at its own distance from the start. */
  ghost predicate Backed(vmas: VmaMap, allocations: AllocationMap, bytes: HostBytes) {
    forall a: nat :: SlotAt(vmas, a).Some? ==> BackedSlot(allocations, bytes, a, SlotAt(vmas, a).value)
  }

  ghost predicate Live(allocations: AllocationMap, bytes: HostBytes, nextId: nat) {
    forall i :: i in allocations ==>
      i < nextId && allocations[i].memory in bytes
      && 0 < |bytes[allocations[i].memory]|
      && allocations[i].guestStart + |bytes[allocations[i].memory]| < U64_LIMIT
  }

  ghost predicate HeldBy(owners: Owners, h: nat, member: nat, i: nat) {
    h in owners && Owner(member, i) in owners[h]
  }

  /** The references `member` holds are exactly its allocations. */
  ghost predicate Owned(member: nat, allocations: AllocationMap, owners: Owners) {
    forall h: nat, i: nat :: HeldBy(owners, h, member, i) <==> i in allocations && allocations[i].memory == h
  }

  /** No other member gained or lost a reference, and every buffer another member holds kept its bytes. */
  ghost predicate Spares(member: nat, owners: Owners, bytes: HostBytes, owners': Owners, bytes': HostBytes) {
    forall h: nat, m: nat, i: nat :: m != member ==>
      && (HeldBy(owners, h, m, i) <==> HeldBy(owners', h, m, i))
      && (HeldBy(owners, h, m, i) ==> h in bytes && h in bytes' && bytes'[h] == bytes[h])
  }

  /** The member took no new reference to a buffer another member holds. */
  ghost predicate Reserved(member: nat, owners: Owners, owners': Owners) {
    forall h: nat, m: nat, i: nat, k: nat :: m != member && HeldBy(owners, h, m, i) && HeldBy(owners', h, member, k) ==>
      HeldBy(owners, h, member, k)
  }

  /** What one member does to the store leaves every other member's buffers alone. */
  ghost predicate Isolated(member: nat, owners: Owners, bytes: HostBytes, owners': Owners, bytes': HostBytes) {
    Spares(member, owners, bytes, owners', bytes') && Reserved(member, owners, owners')
  }

  lemma SparesTransitive(member: nat, o: Owners, b: HostBytes, o': Owners, b': HostBytes, o'': Owners, b'': HostBytes)
    requires Spares(member, o, b, o', b') && Spares(member, o', b', o'', b'')
    ensures Spares(member, o, b, o'', b'')
  {
  }

  lemma IsolatedTransitive(member: nat, o: Owners, b: HostBytes, o': Owners, b': HostBytes, o'': Owners, b'': HostBytes)
    requires Isolated(member, o, b, o', b') && Isolated(member, o', b', o'', b'')
    ensures Isolated(member, o, b, o'', b'')
  {
    SparesTransitive(member, o, b, o', b', o'', b'');
    forall h: nat, m: nat, i: nat, k: nat | m != member && HeldBy(o, h, m, i) && HeldBy(o'', h, member, k)
      ensures HeldBy(o, h, member, k)
    {
      assert HeldBy(o', h, m, i);
    }
  }

  lemma OwnedHeld(member: nat, allocations: AllocationMap, owners: Owners, id: nat)
    requires Owned(member, allocations, owners) && id in allocations
    ensures HeldBy(owners, allocations[id].memory, member, id)
  {
  }

  /** Moving one reference from its buffer to a fresh one. */
  lemma MoveOwned(member: nat, allocations: AllocationMap, owners: Owners, id: nat, h: nat)
    requires Owned(member, allocations, owners) && id in allocations && h !in owners
    ensures allocations[id].memory in owners
    ensures var from := allocations[id].memory;
            Owned(member, allocations[id := allocations[id].(memory := h)],
                  owners[h := {Owner(member, id)}][from := owners[from] - {Owner(member, id)}])
  {
    var from := allocations[id].memory;
    assert HeldBy(owners, from, member, id);
    var owners' := owners[h := {Owner(member, id)}][from := owners[from] - {Owner(member, id)}];
    forall x: nat, i: nat
      ensures HeldBy(owners', x, member, i) <==> if i == id then x == h
              else i in allocations && allocations[i].memory == x
    {
      assert HeldBy(owners, x, member, i) <==> i in allocations && allocations[i].memory == x;
    }
  }

  /** Adding an allocation over a fresh buffer. */
  lemma AddOwned(member: nat, allocations: AllocationMap, owners: Owners, id: nat, allocation: Allocation)
    requires Owned(member, allocations, owners) && id !in allocations && allocation.memory !in owners
    ensures Owned(member, allocations[id := allocation], owners[allocation.memory := {Owner(member, id)}])
  {
    var owners' := owners[allocation.memory := {Owner(member, id)}];
    forall x: nat, i: nat
      ensures HeldBy(owners', x, member, i) <==>
              if i == id then x == allocation.memory else i in allocations && allocations[i].memory == x
    {
      assert HeldBy(owners, x, member, i) <==> i in allocations && allocations[i].memory == x;
    }
  }

  /** Giving up one reference. */
  lemma DropOwned(member: nat, allocations: AllocationMap, owners: Owners, id: nat, owners': Owners)
    requires Owned(member, allocations, owners) && id in allocations
    requires allocations[id].memory in owners
    requires var h := allocations[id].memory;
             owners' == if owners[h] == {Owner(member, id)} then owners - {h}
                 else owners[h := owners[h] - {Owner(member, id)}]
    ensures Owned(member, allocations - {id}, owners')
  {
    forall x: nat, i: nat
      ensures HeldBy(owners', x, member, i) <==> i != id && i in allocations && allocations[i].memory == x
    {
      assert HeldBy(owners, x, member, i) <==> i in allocations && allocations[i].memory == x;
    }
  }

  // Guest ranges of allocations

  function AllocationEnd(allocation: Allocation, bytes: HostBytes): nat
    requires allocation.memory in bytes
  {
    allocation.guestStart + |bytes[allocation.memory]|
  }

  predicate AllocationCovers(allocation: Allocation, bytes: HostBytes, a: nat) {
    allocation.memory in bytes && allocation.guestStart <= a < AllocationEnd(allocation, bytes)
  }

  ghost predicate AllocationsDisjoint(allocations: AllocationMap, bytes: HostBytes) {
    forall i, j, a: nat :: i in allocations && j in allocations && i != j ==>
      !(AllocationCovers(allocations[i], bytes, a) && AllocationCovers(allocations[j], bytes, a))
  }

  /** The address, if mapped, uses the newest of the allocations that cover it. */
  ghost predicate NewestAt(vmas: VmaMap, allocations: AllocationMap, bytes: HostBytes, a: nat) {
    SlotAt(vmas, a).Some? ==>
      forall j :: j in allocations && AllocationCovers(allocations[j], bytes, a) ==>
          j <= SlotAt(vmas, a).value.allocationId
  }

  /** The addresses that use an older allocation than the newest that covers them. */
  ghost function StaleIn(vmas: VmaMap, allocations: AllocationMap, bytes: HostBytes): iset<nat> {
    iset a: nat | !NewestAt(vmas, allocations, bytes, a)
  }

  lemma DisjointIsNewest(vmas: VmaMap, allocations: AllocationMap, bytes: HostBytes)
    requires Backed(vmas, allocations, bytes) && AllocationsDisjoint(allocations, bytes)
    ensures StaleIn(vmas, allocations, bytes) == iset{}
  {
    forall a: nat, j | SlotAt(vmas, a).Some? && j in allocations && AllocationCovers(allocations[j], bytes, a)
      ensures j <= SlotAt(vmas, a).value.allocationId
    {
      var i := SlotAt(vmas, a).value.allocationId;
      assert AllocationCovers(allocations[i], bytes, a);
    }
  }

  // Where allocations lie

  /** Some allocation covers exactly [e.0, e.1). */
  ghost predicate Extent(allocations: AllocationMap, bytes: HostBytes, e: (nat, nat)) {
    exists i :: i in allocations && allocations[i].memory in bytes
                && e == (allocations[i].guestStart, AllocationEnd(allocations[i], bytes))
  }

  ghost function ExtentsIn(allocations: AllocationMap, bytes: HostBytes): iset<(nat, nat)> {
    iset e: (nat, nat) | Extent(allocations, bytes, e)
  }

  predicate Meets(e: (nat, nat), lo: nat, hi: nat) {
    e.0 < hi && lo < e.1
  }

  /** In the least range around [lo, hi) and every extent that meets it. */
  ghost predicate InHull(extents: iset<(nat, nat)>, lo: nat, hi: nat, a: nat) {
    && (lo <= a || exists e :: e in extents && Meets(e, lo, hi) && e.0 <= a)
    && (a < hi || exists e :: e in extents && Meets(e, lo, hi) && a < e.1)
  }

  ghost function Around(extents: iset<(nat, nat)>, lo: nat, hi: nat): iset<nat> {
    iset a: nat | InHull(extents, lo, hi, a)
  }

  lemma AroundGrows(some: iset<(nat, nat)>, more: iset<(nat, nat)>, lo: nat, hi: nat, lo': nat, hi': nat)
    requires some <= more && lo' <= lo && hi <= hi'
    ensures Around(some, lo, hi) <= Around(more, lo', hi')
  {
    assert forall e :: Meets(e, lo, hi) ==> Meets(e, lo', hi');
  }

  predicate Within(a: nat, lo: nat, hi: nat) {
    lo <= a < hi
  }

  ghost function Span(lo: nat, hi: nat): iset<nat> {
    iset a: nat | Within(a, lo, hi)
  }

  lemma SpanAround(extents: iset<(nat, nat)>, lo: nat, hi: nat)
    ensures Span(lo, hi) <= Around(extents, lo, hi)
  {
  }

  // Steps that leave the picture alone

  lemma SameSlotsSameFlat(vmas: VmaMap, vmas': VmaMap, allocations: AllocationMap, bytes: HostBytes)
    requires SameSlots(vmas, vmas')
    ensures Flat(vmas, allocations, bytes) == Flat(vmas', allocations, bytes)
    ensures Backed(vmas, allocations, bytes) ==> Backed(vmas', allocations, bytes)
    ensures StaleIn(vmas', allocations, bytes) == StaleIn(vmas, allocations, bytes)
  {
  }

  /** The same allocations over the same guest ranges with the same contents, possibly in other buffers. */
  ghost predicate SameContents(allocations: AllocationMap, bytes: HostBytes, allocations': AllocationMap,
                               bytes': HostBytes) {
    && allocations'.Keys == allocations.Keys
    && (forall i :: i in allocations ==>
          && allocations'[i].guestStart == allocations[i].guestStart
          && allocations[i].memory in bytes && allocations'[i].memory in bytes'
          && bytes'[allocations'[i].memory] == bytes[allocations[i].memory])
  }

  lemma SameContentsSameExtents(a: AllocationMap, b: HostBytes, a': AllocationMap, b': HostBytes)
    requires SameContents(a, b, a', b')
    ensures ExtentsIn(a', b') == ExtentsIn(a, b)
  {
    forall e: (nat, nat)
      ensures Extent(a, b, e) <==> Extent(a', b', e)
    {
      if Extent(a, b, e) {
        var i :| i in a && a[i].memory in b && e == (a[i].guestStart, AllocationEnd(a[i], b));
        assert i in a' && e == (a'[i].guestStart, AllocationEnd(a'[i], b'));
      }
      if Extent(a', b', e) {
        var i :| i in a' && a'[i].memory in b' && e == (a'[i].guestStart, AllocationEnd(a'[i], b'));
        assert i in a && e == (a[i].guestStart, AllocationEnd(a[i], b));
      }
    }
  }

  lemma SameContentsSameFlat(vmas: VmaMap, a: AllocationMap, b: HostBytes, a': AllocationMap, b': HostBytes,
                             nextId: nat)
    requires SameContents(a, b, a', b')
    ensures Flat(vmas, a, b) == Flat(vmas, a', b')
    ensures Backed(vmas, a, b) ==> Backed(vmas, a', b')
    ensures Live(a, b, nextId) ==> Live(a', b', nextId)
    ensures StaleIn(vmas, a', b') == StaleIn(vmas, a, b)
    ensures AllocationsDisjoint(a, b) <==> AllocationsDisjoint(a', b')
    ensures ExtentsIn(a', b') == ExtentsIn(a, b)
  {
    SameContentsSameExtents(a, b, a', b');
    hide ExtentsIn;
    forall x: nat | SlotAt(vmas, x).Some?
      ensures ByteOf(a', b', SlotAt(vmas, x).value) == ByteOf(a, b, SlotAt(vmas, x).value)
    {
    }
    assert forall i, x: nat :: i in a ==> AllocationCovers(a'[i], b', x) == AllocationCovers(a[i], b, x);
  }

  lemma SparedContents(me: nat, other: nat, allocations: AllocationMap, o: Owners, b: HostBytes, o': Owners,
                       b': HostBytes)
    requires me != other && Spares(me, o, b, o', b') && Owned(other, allocations, o)
    ensures SameContents(allocations, b, allocations, b')
  {
    forall i | i in allocations
      ensures HeldBy(o, allocations[i].memory, other, i)
    {
    }
  }

  /** Other members see nothing: a member whose buffers are untouched keeps its invariant and its picture. */
  lemma IsolationKeepsOthers(me: nat, other: nat, vmas: VmaMap, allocations: AllocationMap, nextId: nat,
                             o: Owners, b: HostBytes, o': Owners, b': HostBytes)
    requires me != other && Spares(me, o, b, o', b') && Owned(other, allocations, o)
    ensures Owned(other, allocations, o')
    ensures Backed(vmas, allocations, b) ==> Backed(vmas, allocations, b')
    ensures Live(allocations, b, nextId) ==> Live(allocations, b', nextId)
    ensures Flat(vmas, allocations, b') == Flat(vmas, allocations, b)
  {
    hide Flat, Backed, Live;
    SparedContents(me, other, allocations, o, b, o', b');
    SameContentsSameFlat(vmas, allocations, b, allocations, b', nextId);
  }
}
