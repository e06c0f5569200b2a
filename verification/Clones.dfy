/**
 Cloning an address space: the copies made so far, and what they amount to when all are made.
 */
module Clones {
  import opened Vmas
  import opened Backing
  import opened GuestState

  /** `copies` stand for the allocations of `done`, contents and all, held by `clone`; nobody else was touched. */
  ghost predicate Cloning(s: State, clone: nat, done: set<nat>, copies: AllocationMap, bytes: HostBytes,
                          owners: Owners) {
    && owners.Keys == bytes.Keys && done <= s.allocations.Keys && copies.Keys == done
    && Spares(clone, s.owners, s.bytes, owners, bytes)
    && Owned(clone, copies, owners)
    && (forall h :: h in s.bytes ==> h in bytes && bytes[h] == s.bytes[h])
    && forall i :: i in done ==>
         && copies[i].guestStart == s.allocations[i].guestStart
         && s.allocations[i].memory in s.bytes && copies[i].memory in bytes
         && bytes[copies[i].memory] == s.bytes[s.allocations[i].memory]
         && (copies[i].memory == s.allocations[i].memory || copies[i].memory !in s.bytes)
  }

  lemma CloningStart(s: State, clone: nat)
    requires HostOk(s) && Owned(clone, map[], s.owners)
    ensures Cloning(s, clone, {}, map[], s.bytes, s.owners)
  {
  }

  lemma CloningParts(s: State, clone: nat, done: set<nat>, copies: AllocationMap, bytes: HostBytes, owners: Owners)
    requires Cloning(s, clone, done, copies, bytes, owners)
    ensures Spares(clone, s.owners, s.bytes, owners, bytes) && Owned(clone, copies, owners)
    ensures copies.Keys == done && (forall i :: i in copies ==> copies[i].memory in bytes) && s.bytes.Keys <= bytes.Keys
    ensures forall i :: i in copies ==> copies[i].memory == s.allocations[i].memory || copies[i].memory !in s.bytes
  {
  }

  /** The source of the next copy is still there, unheld by the clone. */
  lemma CloningBuffer(s: State, clone: nat, done: set<nat>, copies: AllocationMap, bytes: HostBytes, owners: Owners,
                      id: nat)
    requires Inv(s) && clone != s.member && Cloning(s, clone, done, copies, bytes, owners) && id in s.allocations
             && id !in done
    ensures var h := s.allocations[id].memory;
            h in bytes && h in s.bytes && bytes[h] == s.bytes[h] && Owner(clone, id) !in owners[h]
  {
    LiveAllocation(s, id);
    assert HeldBy(owners, s.allocations[id].memory, clone, id) ==> id in copies;
  }

  lemma CloningShared(s: State, clone: nat, done: set<nat>, copies: AllocationMap, bytes: HostBytes, owners: Owners,
                      id: nat)
    requires Inv(s) && clone != s.member && Cloning(s, clone, done, copies, bytes, owners) && id in s.allocations
             && id !in done
    requires s.allocations[id].memory in owners
    ensures var h := s.allocations[id].memory;
            Cloning(s, clone, done + {id}, copies[id := Allocation(s.allocations[id].guestStart, h)], bytes,
                    owners[h := owners[h] + {Owner(clone, id)}])
  {
    var h := s.allocations[id].memory;
    var owners' := owners[h := owners[h] + {Owner(clone, id)}];
    CloningBuffer(s, clone, done, copies, bytes, owners, id);
    assert Spares(clone, owners, bytes, owners', bytes);
    SparesTransitive(clone, s.owners, s.bytes, owners, bytes, owners', bytes);
    ShareOwned(clone, copies, owners, id, Allocation(s.allocations[id].guestStart, h));
  }

  lemma ShareOwned(member: nat, allocations: AllocationMap, owners: Owners, id: nat, allocation: Allocation)
    requires Owned(member, allocations, owners) && id !in allocations && allocation.memory in owners
    ensures Owned(member, allocations[id := allocation],
                  owners[allocation.memory := owners[allocation.memory] + {Owner(member, id)}])
  {
    var owners' := owners[allocation.memory := owners[allocation.memory] + {Owner(member, id)}];
    forall x: nat, i: nat
      ensures HeldBy(owners', x, member, i) <==>
              if i == id then x == allocation.memory else i in allocations && allocations[i].memory == x
    {
      assert HeldBy(owners, x, member, i) <==> i in allocations && allocations[i].memory == x;
    }
  }

  lemma CloningCopied(s: State, clone: nat, done: set<nat>, copies: AllocationMap, bytes: HostBytes, owners: Owners,
                      id: nat, h: nat)
    requires Inv(s) && clone != s.member && Cloning(s, clone, done, copies, bytes, owners) && id in s.allocations
             && id !in done
    requires h !in bytes && s.allocations[id].memory in bytes
    ensures Cloning(s, clone, done + {id}, copies[id := Allocation(s.allocations[id].guestStart, h)],
                    bytes[h := bytes[s.allocations[id].memory]], owners[h := {Owner(clone, id)}])
  {
    var bytes', owners' := bytes[h := bytes[s.allocations[id].memory]], owners[h := {Owner(clone, id)}];
    CloningBuffer(s, clone, done, copies, bytes, owners, id);
    assert Spares(clone, owners, bytes, owners', bytes');
    SparesTransitive(clone, s.owners, s.bytes, owners, bytes, owners', bytes');
    AddOwned(clone, copies, owners, id, Allocation(s.allocations[id].guestStart, h));
  }

  /** All copies made: the clone is a valid member with the same picture, and the source is as it was. */
  lemma CloningDone(s: State, clone: nat, copies: AllocationMap, bytes: HostBytes, owners: Owners)
    requires Inv(s) && clone != s.member && Cloning(s, clone, s.allocations.Keys, copies, bytes, owners)
    ensures var t := State(clone, s.spaceEnd, s.heapBase, s.vmas, copies, s.nextId, bytes, owners);
            Inv(t) && View(t) == View(s)
    ensures var u := s.(bytes := bytes, owners := owners); Inv(u) && View(u) == View(s)
    ensures Spares(clone, s.owners, s.bytes, owners, bytes)
    ensures SameContents(s.allocations, s.bytes, copies, bytes)
            && SameContents(s.allocations, s.bytes, s.allocations, bytes)
  {
    hide WellFormed, Backed, Live, Spares, Owned, Flat, StaleIn, AllocationsDisjoint, StartsAligned, HeapAbove;
    SameContentsSameFlat(s.vmas, s.allocations, s.bytes, copies, bytes, s.nextId);
    IsolationKeepsOthers(clone, s.member, s.vmas, s.allocations, s.nextId, s.owners, s.bytes, owners, bytes);
  }

  /** Nothing was shared: every copy has a buffer of its own, and the old buffers have their old holders. */
  ghost predicate SharedNothing(clone: nat, copies: AllocationMap, was: Owners, owners: Owners) {
    && (forall h :: h in was ==> h in owners && owners[h] == was[h])
    && forall i :: i in copies ==> copies[i].memory in owners && owners[copies[i].memory] == {Owner(clone, i)}
  }

  /** A finished clone lays its allocations out as its source does, and so does the source as before. */
  lemma CloneLayers(s: State, clone: nat, copies: AllocationMap, bytes: HostBytes, owners: Owners)
    requires Inv(s) && Cloning(s, clone, s.allocations.Keys, copies, bytes, owners)
    ensures var t := State(clone, s.spaceEnd, s.heapBase, s.vmas, copies, s.nextId, bytes, owners);
            && Stale(t) == Stale(s) && Extents(t) == Extents(s)
            && (AllocationsDisjoint(t.allocations, t.bytes) <==> AllocationsDisjoint(s.allocations, s.bytes))
            && (SharedNothing(clone, copies, s.owners, owners) ==> Unshared(t))
    ensures var u := s.(bytes := bytes, owners := owners);
            && Stale(u) == Stale(s) && Extents(u) == Extents(s)
            && (AllocationsDisjoint(u.allocations, u.bytes) <==> AllocationsDisjoint(s.allocations, s.bytes))
            && (SharedNothing(clone, copies, s.owners, owners) && Unshared(s) ==> Unshared(u))
  {
    hide Inv, Spares, Owned, SlotAt, StaleIn, AllocationsDisjoint, Flat, Backed, Live, ExtentsIn;
    AllocationsInStore(s);
    SameContentsSameFlat(s.vmas, s.allocations, s.bytes, copies, bytes, s.nextId);
    SameContentsSameFlat(s.vmas, s.allocations, s.bytes, s.allocations, bytes, s.nextId);
  }

  /** Whatever one member does to the store, every other member keeps its invariant, its picture and its layers. */
  lemma OthersUntouched(s: State, actor: nat, bytes: HostBytes, owners: Owners)
    requires Inv(s) && actor != s.member && Spares(actor, s.owners, s.bytes, owners, bytes)
    ensures var u := s.(bytes := bytes, owners := owners);
            && Inv(u) && View(u) == View(s) && Stale(u) == Stale(s) && Extents(u) == Extents(s)
            && SameContents(s.allocations, s.bytes, s.allocations, bytes)
            && (AllocationsDisjoint(s.allocations, bytes) <==> AllocationsDisjoint(s.allocations, s.bytes))
  {
    hide WellFormed, Backed, Live, Spares, Owned, Flat, StaleIn, AllocationsDisjoint, SameContents, StartsAligned;
    hide HeapAbove, ExtentsIn;
    SparedContents(actor, s.member, s.allocations, s.owners, s.bytes, owners, bytes);
    IsolationKeepsOthers(actor, s.member, s.vmas, s.allocations, s.nextId, s.owners, s.bytes, owners, bytes);
    SameContentsSameFlat(s.vmas, s.allocations, s.bytes, s.allocations, bytes, s.nextId);
  }

  /** A member that shares nothing goes on sharing nothing, whatever another member does with its own buffers. */
  lemma OthersStayUnshared(s: State, actor: nat, bytes: HostBytes, owners: Owners)
    requires Inv(s) && Unshared(s) && actor != s.member && Isolated(actor, s.owners, s.bytes, owners, bytes)
    ensures Unshared(s.(bytes := bytes, owners := owners))
  {
    forall i | i in s.allocations
      ensures s.allocations[i].memory in owners && owners[s.allocations[i].memory] == {Owner(s.member, i)}
    {
      var h := s.allocations[i].memory;
      assert HeldBy(s.owners, h, s.member, i) && HeldBy(owners, h, s.member, i);
      forall o | o in owners[h]
        ensures o == Owner(s.member, i)
      {
        assert HeldBy(owners, h, o.member, o.id);
        assert HeldBy(s.owners, h, o.member, o.id);
      }
    }
  }

  /** A clone takes references to its source's buffers only, so members that share nothing do not notice. */
  lemma ClonesStayApart(s: State, source: State, clone: nat, copies: AllocationMap, bytes: HostBytes, owners: Owners)
    requires Inv(s) && Unshared(s) && Inv(source) && source.bytes == s.bytes && source.owners == s.owners
    requires s.member != source.member && s.member != clone && clone != source.member
    requires Spares(clone, s.owners, s.bytes, owners, bytes) && Owned(clone, copies, owners)
    requires forall i :: i in copies ==>
               (i in source.allocations && copies[i].memory == source.allocations[i].memory)
                   || copies[i].memory !in s.bytes
    ensures Unshared(s.(bytes := bytes, owners := owners))
  {
    forall i | i in s.allocations
      ensures s.allocations[i].memory in owners && owners[s.allocations[i].memory] == {Owner(s.member, i)}
    {
      var h := s.allocations[i].memory;
      assert HeldBy(s.owners, h, s.member, i) && HeldBy(owners, h, s.member, i);
      assert forall k :: k in source.allocations && source.allocations[k].memory == h ==>
             HeldBy(s.owners, h, source.member, k);
      forall o | o in owners[h]
        ensures o == Owner(s.member, i)
      {
        assert HeldBy(owners, h, o.member, o.id);
        assert o.member != clone;
        assert HeldBy(s.owners, h, o.member, o.id);
      }
    }
  }
}
