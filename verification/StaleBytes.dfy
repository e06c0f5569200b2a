/**
 What a merge of allocations does to the bytes the guest sees: exactly when it keeps them.
 */
module StaleBytes {
  import opened Ranges
  import opened OrderedKeys
  import opened Vmas
  import opened Backing
  import opened GuestState
  import opened Merging

  /** The same memory but for the contents of its allocations, the buffers that hold them and who shares those. */
  ghost predicate SameLayout(s: State, r: State) {
    && r == s.(allocations := r.allocations, bytes := r.bytes, owners := r.owners)
    && r.allocations.Keys == s.allocations.Keys
    && forall i :: i in s.allocations ==>
         && r.allocations[i].guestStart == s.allocations[i].guestStart
         && s.allocations[i].memory in s.bytes && r.allocations[i].memory in r.bytes
         && |r.bytes[r.allocations[i].memory]| == |s.bytes[s.allocations[i].memory]|
  }

  ghost predicate Spans(s: State, ids: set<nat>, gs: nat, ge: nat) {
    forall i :: i in ids ==>
      && i in s.allocations && s.allocations[i].memory in s.bytes
      && gs <= s.allocations[i].guestStart && AllocationEnd(s.allocations[i], s.bytes) <= ge
  }

  /**
   Whatever buffer replaces the allocations of `ids` over [gs, ge), the guest finds at `a` the byte it found before.
   */
  ghost predicate MergeKeeps(s: State, ids: set<nat>, gs: nat, ge: nat, a: nat)
    requires a in View(s)
  {
    forall t: State, saved: seq<Saved>, h: nat :: Replacing(s, t, ids, saved, gs, ge, h) ==>
      var u := Replaced(t, ids, saved, gs, ge, h);
      a in View(u) && View(u)[a] == View(s)[a]
  }

  lemma SameLayoutSame(s: State, r: State, ids: set<nat>, a: nat)
    requires SameLayout(s, r)
    ensures Overlaid(r, ids, a) <==> Overlaid(s, ids, a)
    ensures a in View(s) <==> a in View(r)
  {
    hide SlotAt;
    forall i | i in s.allocations
      ensures AllocationCovers(r.allocations[i], r.bytes, a) == AllocationCovers(s.allocations[i], s.bytes, a)
    {
    }
    hide AllocationCovers;
  }

  /**
   A merge keeps what the guest reads at `a`, whatever the allocations hold, exactly when no newer merged one covers
   `a`.
   */
  lemma MergeKeepsGuestByteExactly(s: State, ids: set<nat>, gs: nat, ge: nat, a: nat)
    requires Inv(s) && a in View(s) && Spans(s, ids, gs, ge) && gs < ge < U64_LIMIT
    ensures (forall r: State :: SameLayout(s, r) ==> a in View(r) && MergeKeeps(r, ids, gs, ge, a))
            <==> !Overlaid(s, ids, a)
  {
    if Overlaid(s, ids, a) {
      LosingState(s, ids, gs, ge, a);
    } else {
      forall r: State | SameLayout(s, r)
        ensures a in View(r) && MergeKeeps(r, ids, gs, ge, a)
      {
        SameLayoutSame(s, r, ids, a);
        KeptUnlessOverlaid(r, ids, gs, ge, a);
      }
    }
  }

  lemma KeptUnlessOverlaid(s: State, ids: set<nat>, gs: nat, ge: nat, a: nat)
    requires a in View(s) && !Overlaid(s, ids, a)
    ensures MergeKeeps(s, ids, gs, ge, a)
  {
    hide Overlaid, Replacing, Replaced, SlotAt;
    forall t: State, saved: seq<Saved>, h: nat | Replacing(s, t, ids, saved, gs, ge, h)
      ensures FitIn(saved, gs, ge) && a in View(Replaced(t, ids, saved, gs, ge, h))
              && View(Replaced(t, ids, saved, gs, ge, h))[a] == View(s)[a]
    {
      ReplacingFits(s, t, ids, saved, gs, ge, h);
      ReplacedSlot(s, t, ids, saved, gs, ge, h, a);
      ReplacedByte(s, t, ids, saved, gs, ge, h, a);
    }
  }

  lemma ReplacingFits(s: State, t: State, ids: set<nat>, saved: seq<Saved>, gs: nat, ge: nat, h: nat)
    requires Replacing(s, t, ids, saved, gs, ge, h)
    ensures FitIn(saved, gs, ge)
  {
  }

  /** Every buffer goes by the id of the one allocation that holds it. */
  ghost predicate HeldById(r: State) {
    && r.bytes.Keys == r.allocations.Keys && r.owners.Keys == r.allocations.Keys
    && forall i :: i in r.allocations ==> r.allocations[i].memory == i && r.owners[i] == {Owner(r.member, i)}
  }

  lemma HeldByIdOwned(r: State)
    requires HeldById(r)
    ensures Owned(r.member, r.allocations, r.owners) && HostOk(r) && Unshared(r)
  {
    forall h: nat, i: nat
      ensures HeldBy(r.owners, h, r.member, i) <==> i in r.allocations && r.allocations[i].memory == h
    {
      if h in r.allocations {
        assert r.owners[h] == {Owner(r.member, h)};
      }
    }
  }

  lemma SameLayoutInv(s: State, r: State)
    requires Inv(s) && SameLayout(s, r) && Owned(r.member, r.allocations, r.owners)
    ensures Inv(r)
  {
    hide WellFormed, SlotAt, Owned;
    forall a: nat | SlotAt(r.vmas, a).Some?
      ensures BackedSlot(r.allocations, r.bytes, a, SlotAt(r.vmas, a).value)
    {
      assert BackedSlot(s.allocations, s.bytes, a, SlotAt(s.vmas, a).value);
    }
  }

  /** The same layout held privately, ones in allocation `id` and zeros in all others. */
  ghost function MarkedState(s: State, id: nat): State
    requires Inv(s)
  {
    AllocationsInStore(s);
    s.(allocations := map i | i in s.allocations :: s.allocations[i].(memory := i),
       bytes := map i | i in s.allocations :: MarkedBytes(|s.bytes[s.allocations[i].memory]|, i == id),
       owners := map i | i in s.allocations :: {Owner(s.member, i)})
  }

  ghost function MarkedBytes(length: nat, mark: bool): (r: seq<Byte>)
    ensures |r| == length && forall n :: 0 <= n < length ==> r[n] == if mark then 1 else 0
  {
    seq(length, _ => if mark then 1 else 0)
  }

  lemma MarkedOk(s: State, id: nat)
    requires Inv(s)
    ensures var r := MarkedState(s, id); SameLayout(s, r) && Inv(r) && HeldById(r) && HostOk(r)
  {
    hide Inv;
    AllocationsInStore(s);
    HeldByIdOwned(MarkedState(s, id));
    SameLayoutInv(s, MarkedState(s, id));
  }

  lemma MarkedByte(s: State, id: nat, i: nat, n: nat)
    requires Inv(s) && i in s.allocations
    ensures var r := MarkedState(s, id);
            && i in r.allocations && r.allocations[i].memory in r.bytes
            && (n < |r.bytes[r.allocations[i].memory]| ==>
                  r.bytes[r.allocations[i].memory][n] == if i == id then 1 else 0)
  {
    hide Inv;
    AllocationsInStore(s);
  }

  /** What is left of a memory whose buffers go by ids without some of its allocations. */
  ghost function Without(r: State, ids: set<nat>): State {
    r.(allocations := r.allocations - ids, bytes := r.bytes - ids, owners := r.owners - ids)
  }

  lemma WithoutIsolated(r: State, ids: set<nat>)
    requires HeldById(r)
    ensures Isolated(r.member, r.owners, r.bytes, Without(r, ids).owners, Without(r, ids).bytes)
  {
    var t := Without(r, ids);
    forall h: nat, m: nat, i: nat | HeldBy(r.owners, h, m, i)
      ensures m == r.member
    {
      assert r.owners[h] == {Owner(r.member, h)};
    }
    assert forall h: nat, m: nat, i: nat :: HeldBy(t.owners, h, m, i) ==> HeldBy(r.owners, h, m, i);
  }

  lemma WithoutHeldById(r: State, ids: set<nat>)
    requires HeldById(r)
    ensures var t := Without(r, ids);
            && HeldById(t) && t == r.(allocations := r.allocations - ids, bytes := t.bytes, owners := t.owners)
            && forall i :: i in t.allocations ==>
                 i in r.allocations && t.allocations[i] == r.allocations[i] && t.bytes[i] == r.bytes[i]
  {
  }

  lemma WithoutSheds(r: State, ids: set<nat>)
    requires Stocked(r) && HeldById(r)
    ensures Shed(r, Without(r, ids), ids) && HostOk(Without(r, ids))
  {
    hide Owned, Isolated, Unshared, Without;
    var t := Without(r, ids);
    WithoutIsolated(r, ids);
    WithoutHeldById(r, ids);
    HeldByIdOwned(t);
  }

  /** The allocations of `order`, put aside. */
  ghost function SavedOf(s: State, order: seq<nat>): seq<Saved>
    requires forall i :: i in order ==> i in s.allocations && s.allocations[i].memory in s.bytes
  {
    seq(|order|, n requires 0 <= n < |order| =>
      assert order[n] in order;
      Saved(order[n], s.allocations[order[n]].guestStart, s.bytes[s.allocations[order[n]].memory]))
  }

  lemma SavedOfFits(s: State, ids: set<nat>, gs: nat, ge: nat)
    requires Spans(s, ids, gs, ge) && gs <= ge
    ensures SavedFrom(SavedOf(s, Sorted(ids)), s, ids) && FitIn(SavedOf(s, Sorted(ids)), gs, ge)
  {
    var order := Sorted(ids);
    var saved := SavedOf(s, order);
    forall i | i in ids
      ensures exists j :: 0 <= j < |saved| && saved[j].id == i
    {
      assert i in order;
      var j :| 0 <= j < |order| && order[j] == i;
      assert saved[j].id == i;
    }
  }

  lemma LosingState(s: State, ids: set<nat>, gs: nat, ge: nat, a: nat)
    requires Inv(s) && a in View(s) && Spans(s, ids, gs, ge) && gs < ge < U64_LIMIT && Overlaid(s, ids, a)
    ensures var r := MarkedState(s, SlotAt(s.vmas, a).value.allocationId);
            SameLayout(s, r) && a in View(r) && !MergeKeeps(r, ids, gs, ge, a)
  {
    hide Inv, SlotAt, Shed, Replaced, AllocationCovers;
    var id := SlotAt(s.vmas, a).value.allocationId;
    var r := MarkedState(s, id);
    var saved := SavedOf(r, Sorted(ids));
    MarkedOk(s, id);
    InvStocked(r);
    WithoutSheds(r, ids);
    SavedOfFits(r, ids, gs, ge);
    SameLayoutSame(s, r, ids, a);
    var t := Without(r, ids);
    var h := s.nextId;
    forall i | i in r.allocations
      ensures i != h
    {
      LiveAllocation(r, i);
    }
    assert Replacing(r, t, ids, saved, gs, ge, h);
    LosesByte(s, id, t, ids, saved, gs, ge, h, a);
  }

  lemma LosesByte(s: State, id: nat, t: State, ids: set<nat>, saved: seq<Saved>, gs: nat, ge: nat, h: nat, a: nat)
    requires Inv(s) && SlotAt(s.vmas, a).Some? && id == SlotAt(s.vmas, a).value.allocationId
    requires var r := MarkedState(s, id); Replacing(r, t, ids, saved, gs, ge, h) && Overlaid(r, ids, a)
    ensures var r, u := MarkedState(s, id), Replaced(t, ids, saved, gs, ge, h);
            a in View(r) && a in View(u) && View(r)[a].data == 1 && View(u)[a].data == 0
  {
    hide SlotAt, Shed, Inv, SavedFrom, Overlaid, Merged, HostOk, FitIn;
    var r, u := MarkedState(s, id), Replaced(t, ids, saved, gs, ge, h);
    var slot := SlotAt(s.vmas, a).value;
    InvBacked(s);
    assert BackedSlot(s.allocations, s.bytes, a, slot);
    assert ByteOf(r.allocations, r.bytes, slot) == 1;
    ReplacedSlot(r, t, ids, saved, gs, ge, h, a);
    ShedParts(r, t, ids);
    OverlaidUses(r, ids, a);
    NewestSaved(s, id, saved, ids, gs, ge, a);
    assert ByteOf(u.allocations, u.bytes, SlotAt(u.vmas, a).value) == 0;
  }

  lemma OverlaidUses(s: State, ids: set<nat>, a: nat)
    requires Overlaid(s, ids, a)
    ensures SlotAt(s.vmas, a).value.allocationId in ids
  {
  }

  /** The merged buffer shows the zeros of a newer allocation. */
  lemma NewestSaved(s: State, id: nat, saved: seq<Saved>, ids: set<nat>, gs: nat, ge: nat, a: nat)
    requires Inv(s) && FitIn(saved, gs, ge) && SavedFrom(saved, MarkedState(s, id), ids)
    requires Overlaid(MarkedState(s, id), ids, a) && SlotAt(s.vmas, a).value.allocationId == id
    ensures gs <= a < ge && Merged(saved, gs, ge)[a - gs] == 0
  {
    hide SlotAt, Inv, SavedFrom, Merged;
    var r := MarkedState(s, id);
    var l :| l in ids && l in r.allocations && id < l && AllocationCovers(r.allocations[l], r.bytes, a);
    var j := SavedCovers(r, saved, ids, id);
    var k := SavedCovers(r, saved, ids, l);
    SavedAscends(r, saved, ids, j, k);
    assert saved[k].Covers(a);
    var last := LastCovering(saved, j, a);
    SavedAscends(r, saved, ids, j, last);
    MergedAt(saved, gs, ge, last, a);
  }

  lemma SavedAscends(s: State, saved: seq<Saved>, ids: set<nat>, j: nat, k: nat)
    requires SavedFrom(saved, s, ids) && j < |saved| && k < |saved|
    ensures saved[j].id < saved[k].id <==> j < k
    ensures saved[k].id in s.allocations && s.allocations[saved[k].id].memory in s.bytes
            && saved[k].data == s.bytes[s.allocations[saved[k].id].memory]
  {
    assert j < k ==> saved[j].id < saved[k].id;
    assert k < j ==> saved[k].id < saved[j].id;
  }
}
