/**
 Backing a new guest range: reuse an allocation that already covers it, take a fresh one, or replace
 every allocation the range touches by one over their hull.
 */
module Merging {
  import opened Ranges
  import opened Bytes
  import opened OrderedKeys
  import opened Vmas
  import opened FlatMemory
  import opened Backing
  import opened GuestState

  /** An allocation put aside while its replacement is being built. */
  datatype Saved = Saved(id: nat, guestStart: nat, data: seq<Byte>) {
    predicate Covers(a: nat) {
      guestStart <= a < guestStart + |data|
    }
  }

  ghost predicate FitIn(saved: seq<Saved>, lo: nat, hi: nat) {
    lo <= hi && forall j :: 0 <= j < |saved| ==>
        lo <= saved[j].guestStart && saved[j].guestStart + |saved[j].data| <= hi
  }

  /** The contents of the replacement: the saved allocations copied in order over zeros, later ones on top. */
  function Merged(saved: seq<Saved>, lo: nat, hi: nat): (r: seq<Byte>)
    requires FitIn(saved, lo, hi)
    ensures |r| == hi - lo
    decreases |saved|
  {
    if saved == [] then Zeros(hi - lo)
    else
      var last := saved[|saved| - 1];
      Blit(Merged(saved[..|saved| - 1], lo, hi), last.guestStart - lo, last.data)
  }

  /** At every address the last saved allocation covering it wins. */
  lemma {:induction false} MergedAt(saved: seq<Saved>, lo: nat, hi: nat, j: nat, a: nat)
    requires FitIn(saved, lo, hi) && j < |saved| && saved[j].Covers(a)
    requires forall l :: j < l < |saved| ==> !saved[l].Covers(a)
    ensures lo <= a < hi && Merged(saved, lo, hi)[a - lo] == saved[j].data[a - saved[j].guestStart]
    decreases |saved|
  {
    if j < |saved| - 1 {
      assert !saved[|saved| - 1].Covers(a);
      MergedAt(saved[..|saved| - 1], lo, hi, j, a);
    }
  }

  ghost predicate SameExtents(left: seq<Saved>, right: seq<Saved>) {
    && |left| == |right|
    && forall j :: 0 <= j < |left| ==>
         left[j].id == right[j].id && left[j].guestStart == right[j].guestStart && |left[j].data| == |right[j].data|
  }

  ghost predicate KeepsByte(saved: seq<Saved>, lo: nat, hi: nat, j: nat, a: nat)
    requires FitIn(saved, lo, hi) && j < |saved| && saved[j].Covers(a)
  {
    Merged(saved, lo, hi)[a - lo] == saved[j].data[a - saved[j].guestStart]
  }

  /**
   A merge keeps the byte an address has in allocation `j`, whatever the contents, exactly when no later one covers
   it.
   */
  lemma MergeKeepsByteExactly(saved: seq<Saved>, lo: nat, hi: nat, j: nat, a: nat)
    requires FitIn(saved, lo, hi) && j < |saved| && saved[j].Covers(a)
    ensures (forall s: seq<Saved> :: SameExtents(saved, s) && FitIn(s, lo, hi) ==> KeepsByte(s, lo, hi, j, a))
            <==> (forall l :: j < l < |saved| ==> !saved[l].Covers(a))
  {
    if forall l :: j < l < |saved| ==> !saved[l].Covers(a) {
      forall s: seq<Saved> | SameExtents(saved, s) && FitIn(s, lo, hi)
        ensures KeepsByte(s, lo, hi, j, a)
      {
        assert forall l :: j < l < |s| ==> s[l].Covers(a) == saved[l].Covers(a);
        MergedAt(s, lo, hi, j, a);
      }
    } else {
      var s := LosingContents(saved, lo, hi, j, a);
      assert !KeepsByte(s, lo, hi, j, a);
    }
  }

  /** Ones in allocation `j` and zeros in all others do not survive a later allocation over them. */
  lemma LosingContents(saved: seq<Saved>, lo: nat, hi: nat, j: nat, a: nat) returns (s: seq<Saved>)
    requires FitIn(saved, lo, hi) && j < |saved| && saved[j].Covers(a)
    requires exists n :: j < n < |saved| && saved[n].Covers(a)
    ensures SameExtents(saved, s) && FitIn(s, lo, hi) && !KeepsByte(s, lo, hi, j, a)
  {
    var l := LastCovering(saved, j, a);
    s := seq(|saved|, n requires 0 <= n < |saved| => Marked(saved[n], n == j));
    hide Merged, Marked;
    forall n | 0 <= n < |saved|
      ensures s[n].Covers(a) == saved[n].Covers(a)
      ensures s[n].guestStart == saved[n].guestStart && |s[n].data| == |saved[n].data|
    {
      MarkedExtent(saved[n], n == j, a);
    }
    MergedAt(s, lo, hi, l, a);
    MarkedExtent(saved[j], true, a);
    MarkedExtent(saved[l], false, a);
  }

  ghost function Marked(item: Saved, mark: bool): Saved {
    item.(data := seq(|item.data|, _ => if mark then 1 else 0))
  }

  lemma MarkedExtent(item: Saved, mark: bool, a: nat)
    ensures Marked(item, mark).Covers(a) == item.Covers(a)
    ensures Marked(item, mark).guestStart == item.guestStart && |Marked(item, mark).data| == |item.data|
    ensures item.Covers(a) ==> Marked(item, mark).data[a - item.guestStart] == if mark then 1 else 0
  {
  }

  lemma LastCovering(saved: seq<Saved>, j: nat, a: nat) returns (l: nat)
    requires exists n :: j < n < |saved| && saved[n].Covers(a)
    ensures j < l < |saved| && saved[l].Covers(a) && forall n :: l < n < |saved| ==> !saved[n].Covers(a)
  {
    l := |saved| - 1;
    while !saved[l].Covers(a)
      invariant j < l < |saved| && forall n :: l < n < |saved| ==> !saved[n].Covers(a)
      decreases l
    {
      l := l - 1;
    }
  }

  // The hull

  predicate OverlapsRange(allocation: Allocation, bytes: HostBytes, lo: nat, hi: nat)
    requires allocation.memory in bytes
  {
    allocation.guestStart < hi && lo < AllocationEnd(allocation, bytes)
  }

  /** `ids` are the allocations that meet [lo, hi). */
  ghost predicate Touching(s: State, ids: set<nat>, lo: nat, hi: nat) {
    && (forall i :: i in s.allocations ==> s.allocations[i].memory in s.bytes)
    && (forall i :: i in ids <==> i in s.allocations && OverlapsRange(s.allocations[i], s.bytes, lo, hi))
  }

  /** [gs, ge) is the least range holding [lo, hi) and every allocation of `ids`. */
  ghost predicate Hull(s: State, ids: set<nat>, lo: nat, hi: nat, gs: nat, ge: nat) {
    && gs <= lo && hi <= ge
    && (forall i :: i in ids ==> i in s.allocations && s.allocations[i].memory in s.bytes
                                 && gs <= s.allocations[i].guestStart && AllocationEnd(s.allocations[i], s.bytes) <= ge)
    && (gs == lo || exists i :: i in ids && s.allocations[i].guestStart == gs)
    && (ge == hi || exists i :: i in ids && AllocationEnd(s.allocations[i], s.bytes) == ge)
  }

  /** With disjoint allocations the hull meets none outside the set it was built from. */
  lemma HullMeetsNoOther(s: State, ids: set<nat>, lo: nat, hi: nat, gs: nat, ge: nat, j: nat, a: nat)
    requires Touching(s, ids, lo, hi) && Hull(s, ids, lo, hi, gs, ge) && lo < hi
    requires AllocationsDisjoint(s.allocations, s.bytes)
    requires j in s.allocations && j !in ids && gs <= a < ge
    ensures !AllocationCovers(s.allocations[j], s.bytes, a)
  {
    if a < lo {
      var i :| i in ids && s.allocations[i].guestStart == gs;
      assert AllocationCovers(s.allocations[i], s.bytes, a);
    } else if hi <= a {
      var i :| i in ids && AllocationEnd(s.allocations[i], s.bytes) == ge;
      assert AllocationCovers(s.allocations[i], s.bytes, a);
    }
  }

  // Replacing

  function Distance(from: nat, to: nat): nat {
    if from <= to then to - from else 0
  }

  function Retarget(vmas: VmaMap, ids: set<nat>, id: nat, guestStart: nat): VmaMap {
    map k | k in vmas ::
      if vmas[k].allocationId in ids && guestStart <= vmas[k].start
      then vmas[k].(allocationId := id, allocationOffset := vmas[k].start - guestStart)
      else vmas[k]
  }

  /** Same cuts, protections and kinds. */
  ghost predicate SameRanges(left: VmaMap, right: VmaMap) {
    && left.Keys == right.Keys
    && forall k :: k in left ==>
         left[k].start == right[k].start && left[k].end == right[k].end
         && left[k].protection == right[k].protection && left[k].kind == right[k].kind
  }

  lemma SameRangesWellFormed(left: VmaMap, right: VmaMap, spaceEnd: nat)
    requires SameRanges(left, right) && WellFormed(left, spaceEnd)
    ensures WellFormed(right, spaceEnd) && Carries(left, right)
    ensures forall lo: nat, hi: nat :: Overlapping(left, lo, hi) == Overlapping(right, lo, hi)
  {
    forall lo: nat, hi: nat
      ensures Overlapping(left, lo, hi) == Overlapping(right, lo, hi)
    {
      assert forall k :: k in left ==> left[k].Overlaps(lo, hi) == right[k].Overlaps(lo, hi);
    }
  }

  lemma RetargetSlot(vmas: VmaMap, spaceEnd: nat, ids: set<nat>, id: nat, gs: nat, a: nat)
    requires WellFormed(vmas, spaceEnd)
    requires forall k :: k in vmas && vmas[k].allocationId in ids ==> gs <= vmas[k].start
    ensures SlotAt(Retarget(vmas, ids, id, gs), a) ==
            if SlotAt(vmas, a).Some? && SlotAt(vmas, a).value.allocationId in ids
            then Some(SlotAt(vmas, a).value.(allocationId := id, offset := Distance(gs, a)))
            else SlotAt(vmas, a)
  {
    hide WellFormed, Carries, Overlapping;
    var moved := Retarget(vmas, ids, id, gs);
    SameRangesWellFormed(vmas, moved, spaceEnd);
    if Mapped(vmas, a) {
      var k := KeyAt(vmas, a);
      assert Covers(moved, k, a);
      SlotIn(moved, spaceEnd, k, a);
    } else {
      assert forall k: nat :: Covers(moved, k, a) ==> Covers(vmas, k, a);
    }
  }

  ghost predicate SavedFrom(saved: seq<Saved>, s: State, ids: set<nat>) {
    && (forall j :: 0 <= j < |saved| ==>
          && saved[j].id in ids && saved[j].id in s.allocations && s.allocations[saved[j].id].memory in s.bytes
          && saved[j].guestStart == s.allocations[saved[j].id].guestStart
          && saved[j].data == s.bytes[s.allocations[saved[j].id].memory])
    && (forall i, j :: 0 <= i < j < |saved| ==> saved[i].id < saved[j].id)
    && (forall i :: i in ids ==> exists j :: 0 <= j < |saved| && saved[j].id == i)
  }

  /** The state with the allocations of `ids` (already shed in `t`) replaced by buffer `h` over [gs, ge). */
  ghost function Replaced(t: State, ids: set<nat>, saved: seq<Saved>, gs: nat, ge: nat, h: nat): State
    requires FitIn(saved, gs, ge)
  {
    t.(vmas := Retarget(t.vmas, ids, t.nextId, gs),
       allocations := t.allocations[t.nextId := Allocation(gs, h)],
       nextId := t.nextId + 1,
       bytes := t.bytes[h := Merged(saved, gs, ge)],
       owners := t.owners[h := {Owner(t.member, t.nextId)}])
  }

  ghost predicate Replacing(s: State, t: State, ids: set<nat>, saved: seq<Saved>, gs: nat, ge: nat, h: nat) {
    && Inv(s) && HostOk(s) && HostOk(t) && Shed(s, t, ids) && SavedFrom(saved, s, ids) && FitIn(saved, gs, ge)
    && h !in t.bytes && gs < ge < U64_LIMIT
  }

  lemma SavedCovers(s: State, saved: seq<Saved>, ids: set<nat>, i: nat) returns (j: nat)
    requires SavedFrom(saved, s, ids) && i in ids
    ensures j < |saved| && saved[j].id == i && i in s.allocations && s.allocations[i].memory in s.bytes
    ensures forall a: nat :: saved[j].Covers(a) == AllocationCovers(s.allocations[i], s.bytes, a)
  {
    j :| 0 <= j < |saved| && saved[j].id == i;
  }

  /** A VMA of a replaced allocation lies in the hull. */
  lemma ReplacedVmasFit(s: State, t: State, ids: set<nat>, saved: seq<Saved>, gs: nat, ge: nat, h: nat, k: nat)
    requires Replacing(s, t, ids, saved, gs, ge, h) && k in s.vmas && s.vmas[k].allocationId in ids
    ensures gs <= k && s.vmas[k].end <= ge
  {
    hide Shed;
    BackedVma(s, k);
    var j := SavedCovers(s, saved, ids, s.vmas[k].allocationId);
    assert saved[j].Covers(k) && saved[j].Covers(s.vmas[k].end - 1);
  }

  lemma ReplacedSlot(s: State, t: State, ids: set<nat>, saved: seq<Saved>, gs: nat, ge: nat, h: nat, a: nat)
    requires Replacing(s, t, ids, saved, gs, ge, h)
    ensures var slot := SlotAt(s.vmas, a);
            && SlotAt(Replaced(t, ids, saved, gs, ge, h).vmas, a) ==
               (if slot.Some? && slot.value.allocationId in ids
                then Some(slot.value.(allocationId := s.nextId, offset := Distance(gs, a))) else slot)
            && (slot.Some? && slot.value.allocationId in ids ==> gs <= a < ge)
  {
    hide Inv, SavedFrom, HostOk, WellFormed;
    InvWellFormed(s);
    forall k | k in s.vmas && s.vmas[k].allocationId in ids
      ensures gs <= s.vmas[k].start && s.vmas[k].end <= ge
    {
      ReplacedVmasFit(s, t, ids, saved, gs, ge, h, k);
      BackedVma(s, k);
    }
    RetargetSlot(s.vmas, s.spaceEnd, ids, s.nextId, gs, a);
    if Mapped(s.vmas, a) {
      var k := KeyAt(s.vmas, a);
    }
  }

  lemma ReplacedBacked(s: State, t: State, ids: set<nat>, saved: seq<Saved>, gs: nat, ge: nat, h: nat)
    requires Replacing(s, t, ids, saved, gs, ge, h)
    ensures var u := Replaced(t, ids, saved, gs, ge, h); Backed(u.vmas, u.allocations, u.bytes)
  {
    var u := Replaced(t, ids, saved, gs, ge, h);
    forall a: nat | SlotAt(u.vmas, a).Some?
      ensures BackedSlot(u.allocations, u.bytes, a, SlotAt(u.vmas, a).value)
    {
      ReplacedSlot(s, t, ids, saved, gs, ge, h, a);
      var slot := SlotAt(s.vmas, a).value;
      assert BackedSlot(s.allocations, s.bytes, a, slot);
      assert slot.allocationId != s.nextId;
    }
  }

  /** The address uses a merged allocation, and a newer one of the merged covers it too. */
  ghost predicate Overlaid(s: State, ids: set<nat>, a: nat) {
    && SlotAt(s.vmas, a).Some? && SlotAt(s.vmas, a).value.allocationId in ids
    && exists l :: l in ids && l in s.allocations && SlotAt(s.vmas, a).value.allocationId < l
                   && AllocationCovers(s.allocations[l], s.bytes, a)
  }

  lemma CurrentNotOverlaid(s: State, ids: set<nat>, a: nat)
    ensures a !in Stale(s) ==> !Overlaid(s, ids, a)
  {
    hide SlotAt, AllocationCovers;
  }

  /** The picture survives the merge at every address that used the newest allocation covering it. */
  lemma ReplacedView(s: State, t: State, ids: set<nat>, saved: seq<Saved>, gs: nat, ge: nat, h: nat)
    requires Replacing(s, t, ids, saved, gs, ge, h)
    ensures Alike(View(s), View(Replaced(t, ids, saved, gs, ge, h)), Stale(s))
  {
    hide Inv, Shed, SavedFrom, HostOk, Stale, Replaced, SlotAt;
    var u := Replaced(t, ids, saved, gs, ge, h);
    forall a: nat
      ensures a in View(s) <==> a in View(u)
      ensures a in View(s) ==> View(u)[a].protection == View(s)[a].protection && View(u)[a].kind == View(s)[a].kind
      ensures a in View(s) && a !in Stale(s) ==> View(u)[a] == View(s)[a]
    {
      ReplacedSlot(s, t, ids, saved, gs, ge, h, a);
      CurrentNotOverlaid(s, ids, a);
      if a in View(s) && a !in Stale(s) {
        ReplacedByte(s, t, ids, saved, gs, ge, h, a);
      }
    }
  }

  lemma ReplacedByte(s: State, t: State, ids: set<nat>, saved: seq<Saved>, gs: nat, ge: nat, h: nat, a: nat)
    requires Replacing(s, t, ids, saved, gs, ge, h) && SlotAt(s.vmas, a).Some? && !Overlaid(s, ids, a)
    ensures var u := Replaced(t, ids, saved, gs, ge, h);
            && SlotAt(u.vmas, a).Some?
            && ByteOf(u.allocations, u.bytes, SlotAt(u.vmas, a).value) ==
               ByteOf(s.allocations, s.bytes, SlotAt(s.vmas, a).value)
  {
    hide SavedFrom, Stocked, SlotAt, WellFormed, Isolated;
    ReplacedSlot(s, t, ids, saved, gs, ge, h, a);
    var slot := SlotAt(s.vmas, a).value;
    assert BackedSlot(s.allocations, s.bytes, a, slot);
    if slot.allocationId in ids {
      MergedOwnByte(s, ids, saved, gs, ge, a);
    } else {
      LiveAllocation(s, slot.allocationId);
      assert slot.allocationId in t.allocations && slot.allocationId != s.nextId;
    }
  }

  /** In the merged buffer an address that used the newest allocation covering it finds its old byte. */
  lemma MergedOwnByte(s: State, ids: set<nat>, saved: seq<Saved>, gs: nat, ge: nat, a: nat)
    requires Inv(s) && SavedFrom(saved, s, ids) && FitIn(saved, gs, ge) && !Overlaid(s, ids, a)
    requires SlotAt(s.vmas, a).Some? && SlotAt(s.vmas, a).value.allocationId in ids
    ensures gs <= a < ge && Merged(saved, gs, ge)[a - gs] == ByteOf(s.allocations, s.bytes, SlotAt(s.vmas, a).value)
  {
    var slot := SlotAt(s.vmas, a).value;
    assert BackedSlot(s.allocations, s.bytes, a, slot);
    hide SlotAt, Inv, Merged;
    var j := SavedCovers(s, saved, ids, slot.allocationId);
    forall l | j < l < |saved|
      ensures !saved[l].Covers(a)
    {
      assert saved[l].Covers(a) == AllocationCovers(s.allocations[saved[l].id], s.bytes, a);
    }
    MergedAt(saved, gs, ge, j, a);
  }

  lemma ReplacedFramed(s: State, t: State, ids: set<nat>, saved: seq<Saved>, gs: nat, ge: nat, h: nat, lo: nat, hi: nat)
    requires Replacing(s, t, ids, saved, gs, ge, h)
    requires Touching(s, ids, lo, hi) && Hull(s, ids, lo, hi, gs, ge) && lo < hi
    ensures var u := Replaced(t, ids, saved, gs, ge, h);
            && Inv(u) && Framed(s, u) && SameRanges(s.vmas, u.vmas) && Sole(u, s.nextId)
            && (AllocationsDisjoint(s.allocations, s.bytes) ==> AllocationsDisjoint(u.allocations, u.bytes))
  {
    var u := Replaced(t, ids, saved, gs, ge, h);
    ReplacedBacked(s, t, ids, saved, gs, ge, h);
    ReplacedStock(s, t, ids, saved, gs, ge, h);
    if AllocationsDisjoint(s.allocations, s.bytes) {
      ReplacedDisjoint(s, t, ids, saved, gs, ge, h, lo, hi);
    }
    SameRangesWellFormed(s.vmas, u.vmas, s.spaceEnd);
    hide WellFormed, Backed, Stocked, AllocationsDisjoint, Carries, Isolated, SavedFrom, Touching, Hull, Overlapping;
  }

  lemma ReplacedStock(s: State, t: State, ids: set<nat>, saved: seq<Saved>, gs: nat, ge: nat, h: nat)
    requires Replacing(s, t, ids, saved, gs, ge, h)
    ensures var u := Replaced(t, ids, saved, gs, ge, h);
            && Stocked(u) && Isolated(s.member, s.owners, s.bytes, u.owners, u.bytes)
            && (Unshared(s) ==> Unshared(u)) && SameRanges(s.vmas, u.vmas) && Sole(u, s.nextId)
  {
    hide Inv, SavedFrom, Stocked, Isolated, Merged, SameRanges;
    var u := Replaced(t, ids, saved, gs, ge, h);
    AddStock(t, gs, Merged(saved, gs, ge), h);
    StockIgnoresVmas(Added(t, gs, Merged(saved, gs, ge), h), u);
    IsolatedTransitive(s.member, s.owners, s.bytes, t.owners, t.bytes, u.owners, u.bytes);
    RetargetRanges(t.vmas, ids, t.nextId, gs);
  }

  lemma RetargetRanges(vmas: VmaMap, ids: set<nat>, id: nat, gs: nat)
    ensures SameRanges(vmas, Retarget(vmas, ids, id, gs))
  {
  }

  lemma ReplacedDisjoint(s: State, t: State, ids: set<nat>, saved: seq<Saved>, gs: nat, ge: nat, h: nat, lo: nat,
                         hi: nat)
    requires Replacing(s, t, ids, saved, gs, ge, h)
    requires Touching(s, ids, lo, hi) && Hull(s, ids, lo, hi, gs, ge) && lo < hi
    requires AllocationsDisjoint(s.allocations, s.bytes)
    ensures var u := Replaced(t, ids, saved, gs, ge, h); AllocationsDisjoint(u.allocations, u.bytes)
  {
    hide Inv, Touching, Hull, SavedFrom, Merged, AllocationCovers;
    var u := Replaced(t, ids, saved, gs, ge, h);
    forall i, j, a: nat | i in u.allocations && j in u.allocations && i != j
      ensures !(AllocationCovers(u.allocations[i], u.bytes, a) && AllocationCovers(u.allocations[j], u.bytes, a))
    {
      ReplacedCovers(s, t, ids, saved, gs, ge, h, lo, hi, i, a);
      ReplacedCovers(s, t, ids, saved, gs, ge, h, lo, hi, j, a);
    }
  }

  /** The merged allocation covers the hull, and the others what they covered before, outside the hull. */
  lemma ReplacedCovers(s: State, t: State, ids: set<nat>, saved: seq<Saved>, gs: nat, ge: nat, h: nat, lo: nat, hi: nat,
                       i: nat, a: nat)
    requires Replacing(s, t, ids, saved, gs, ge, h)
    requires Touching(s, ids, lo, hi) && Hull(s, ids, lo, hi, gs, ge) && lo < hi
    requires AllocationsDisjoint(s.allocations, s.bytes)
    requires i in Replaced(t, ids, saved, gs, ge, h).allocations
    ensures var u := Replaced(t, ids, saved, gs, ge, h);
            if i == s.nextId then AllocationCovers(u.allocations[i], u.bytes, a) ==> gs <= a < ge
            else i in s.allocations && (AllocationCovers(u.allocations[i], u.bytes, a) ==>
                                        AllocationCovers(s.allocations[i], s.bytes, a) && !(gs <= a < ge))
  {
    hide Inv, Touching, Hull, SavedFrom, Merged, AllocationsDisjoint, Isolated, Stocked, Unshared;
    if i != s.nextId {
      assert i in t.allocations;
      if gs <= a < ge {
        HullMeetsNoOther(s, ids, lo, hi, gs, ge, i, a);
      }
    }
  }

  // Fresh allocations

  ghost function Fresh(s: State, gs: nat, ge: nat, h: nat): State
    requires gs <= ge
  {
    Added(s, gs, Zeros(ge - gs), h)
  }

  /** Older allocations keep their ranges and do not meet the fresh one. */
  lemma FreshCovers(s: State, gs: nat, ge: nat, h: nat, i: nat, a: nat)
    requires Stocked(s) && h !in s.bytes && gs <= ge && Touching(s, {}, gs, ge) && i in s.allocations
    ensures var t := Fresh(s, gs, ge, h);
            && i in t.allocations && i != s.nextId && t.allocations[i] == s.allocations[i]
            && s.allocations[i].memory in s.bytes && s.allocations[i].memory != h
            && AllocationCovers(t.allocations[i], t.bytes, a) == AllocationCovers(s.allocations[i], s.bytes, a)
            && (AllocationCovers(t.allocations[i], t.bytes, a) ==>
                !AllocationCovers(t.allocations[s.nextId], t.bytes, a))
  {
    assert !OverlapsRange(s.allocations[i], s.bytes, gs, ge);
  }

  lemma FreshDisjoint(s: State, gs: nat, ge: nat, h: nat)
    requires Stocked(s) && h !in s.bytes && gs <= ge && Touching(s, {}, gs, ge)
    requires AllocationsDisjoint(s.allocations, s.bytes)
    ensures var t := Fresh(s, gs, ge, h); AllocationsDisjoint(t.allocations, t.bytes)
  {
    hide Stocked, Touching;
    var t := Fresh(s, gs, ge, h);
    forall i, j, a: nat | i in t.allocations && j in t.allocations && i != j
      ensures !(AllocationCovers(t.allocations[i], t.bytes, a) && AllocationCovers(t.allocations[j], t.bytes, a))
    {
      if i in s.allocations {
        FreshCovers(s, gs, ge, h, i, a);
      }
      if j in s.allocations {
        FreshCovers(s, gs, ge, h, j, a);
      }
    }
  }

  lemma FreshQuiet(s: State, gs: nat, ge: nat, h: nat)
    requires Inv(s) && HostOk(s) && h !in s.bytes && gs < ge < U64_LIMIT
    requires Touching(s, {}, gs, ge)
    ensures var t := Fresh(s, gs, ge, h);
            && Inv(t) && Quiet(s, t) && Sole(t, s.nextId)
            && (AllocationsDisjoint(s.allocations, s.bytes) ==> AllocationsDisjoint(t.allocations, t.bytes))
  {
    hide WellFormed, Backed, View, Stocked, Isolated, Touching, Stale;
    if AllocationsDisjoint(s.allocations, s.bytes) {
      FreshDisjoint(s, gs, ge, h);
    }
    hide AllocationsDisjoint;
    AddStock(s, gs, Zeros(ge - gs), h);
    FreshView(s, gs, ge, h);
  }

  lemma FreshView(s: State, gs: nat, ge: nat, h: nat)
    requires Inv(s) && h !in s.bytes && gs < ge
    requires Touching(s, {}, gs, ge)
    ensures var t := Fresh(s, gs, ge, h);
            View(t) == View(s) && Backed(t.vmas, t.allocations, t.bytes) && Stale(t) <= Stale(s)
  {
    hide WellFormed, Stocked, Touching, SlotAt, StartsAligned;
    var t := Fresh(s, gs, ge, h);
    forall a: nat | SlotAt(s.vmas, a).Some?
      ensures BackedSlot(t.allocations, t.bytes, a, SlotAt(s.vmas, a).value)
      ensures ByteOf(t.allocations, t.bytes, SlotAt(s.vmas, a).value) ==
              ByteOf(s.allocations, s.bytes, SlotAt(s.vmas, a).value)
      ensures !AllocationCovers(t.allocations[s.nextId], t.bytes, a)
    {
      var slot := SlotAt(s.vmas, a).value;
      assert BackedSlot(s.allocations, s.bytes, a, slot);
      FreshCovers(s, gs, ge, h, slot.allocationId, a);
    }
    forall i, a: nat | i in s.allocations
      ensures AllocationCovers(t.allocations[i], t.bytes, a) == AllocationCovers(s.allocations[i], s.bytes, a)
    {
      FreshCovers(s, gs, ge, h, i, a);
    }
  }

  // Putting saved allocations back

  /** `t` is `s` with the allocations of `missing` gone and the others' contents intact, in whatever buffers. */
  ghost predicate Restoring(s: State, t: State, missing: set<nat>) {
    && t == s.(allocations := t.allocations, bytes := t.bytes, owners := t.owners)
    && t.allocations.Keys == s.allocations.Keys - missing
    && Stocked(t)
    && Isolated(s.member, s.owners, s.bytes, t.owners, t.bytes)
    && (Unshared(s) ==> Unshared(t))
    && forall i :: i in t.allocations ==>
         && t.allocations[i].guestStart == s.allocations[i].guestStart
         && s.allocations[i].memory in s.bytes && t.allocations[i].memory in t.bytes
         && t.bytes[t.allocations[i].memory] == s.bytes[s.allocations[i].memory]
  }

  lemma ShedIsRestoring(s: State, t: State, gone: set<nat>)
    requires Shed(s, t, gone)
    ensures Restoring(s, t, gone)
  {
  }

  lemma RestoringIsolated(s: State, t: State, missing: set<nat>)
    requires Restoring(s, t, missing)
    ensures Isolated(s.member, s.owners, s.bytes, t.owners, t.bytes) && t.member == s.member
  {
  }

  lemma RestoreStep(s: State, t: State, u: State, missing: set<nat>, item: Saved, h: nat)
    requires Restoring(s, t, missing) && HostOk(t) && Stocked(s) && item.id in missing && item.id in s.allocations
    requires s.allocations[item.id].guestStart == item.guestStart && s.allocations[item.id].memory in s.bytes
    requires s.bytes[s.allocations[item.id].memory] == item.data && h !in t.bytes
    requires u == t.(allocations := t.allocations[item.id := Allocation(item.guestStart, h)],
                     bytes := t.bytes[h := item.data], owners := t.owners[h := {Owner(t.member, item.id)}])
    ensures Restoring(s, u, missing - {item.id})
  {
    hide Isolated, Owned;
    AddOwned(t.member, t.allocations, t.owners, item.id, Allocation(item.guestStart, h));
    NewBufferIsolated(t.member, t.owners, t.bytes, h, item.id, item.data);
    IsolatedTransitive(s.member, s.owners, s.bytes, t.owners, t.bytes, u.owners, u.bytes);
    assert u.allocations.Keys == s.allocations.Keys - (missing - {item.id});
  }

  lemma NewBufferIsolated(member: nat, owners: Owners, bytes: HostBytes, h: nat, id: nat, data: seq<Byte>)
    requires owners.Keys == bytes.Keys && h !in bytes
    ensures Isolated(member, owners, bytes, owners[h := {Owner(member, id)}], bytes[h := data])
  {
  }

  lemma RestoredQuiet(s: State, t: State)
    requires Inv(s) && Restoring(s, t, {})
    ensures Inv(t) && Quiet(s, t) && Extents(t) == Extents(s)
  {
    hide WellFormed, Backed, Isolated, Unshared, Owned, Quiet, StartsAligned, ExtentsIn;
    assert SameContents(s.allocations, s.bytes, t.allocations, t.bytes);
    SameContentsSameExtents(s.allocations, s.bytes, t.allocations, t.bytes);
    SameContentsQuiet(s, t);
  }

  lemma HullStep(s: State, order: seq<nat>, n: nat, lo: nat, hi: nat, gs': nat, ge': nat, gs: nat, ge: nat)
    requires n < |order| && Hull(s, Elements(order[..n]), lo, hi, gs', ge')
    requires order[n] in s.allocations && s.allocations[order[n]].memory in s.bytes
    requires gs == if s.allocations[order[n]].guestStart < gs' then s.allocations[order[n]].guestStart else gs'
    requires ge == if ge' < AllocationEnd(s.allocations[order[n]], s.bytes)
             then AllocationEnd(s.allocations[order[n]], s.bytes) else ge'
    ensures Hull(s, Elements(order[..n + 1]), lo, hi, gs, ge)
  {
    var before, after := Elements(order[..n]), Elements(order[..n + 1]);
    assert after == before + {order[n]};
    if gs == gs' && gs' != lo {
      var i :| i in before && s.allocations[i].guestStart == gs';
      assert i in after;
    }
    if ge == ge' && ge' != hi {
      var i :| i in before && AllocationEnd(s.allocations[i], s.bytes) == ge';
      assert i in after;
    }
  }

  lemma FitPrefix(saved: seq<Saved>, gs: nat, ge: nat, n: nat)
    requires FitIn(saved, gs, ge) && n <= |saved|
    ensures FitIn(saved[..n], gs, ge) && (n == 0 ==> Merged(saved[..n], gs, ge) == Zeros(ge - gs))
    ensures n < |saved| ==> gs <= saved[n].guestStart && saved[n].guestStart - gs + |saved[n].data| <= ge - gs
    ensures n < |saved| ==> FitIn(saved[..n + 1], gs, ge)
    ensures n < |saved| ==>
            Merged(saved[..n + 1], gs, ge) == Blit(Merged(saved[..n], gs, ge), saved[n].guestStart - gs, saved[n].data)
  {
    if n < |saved| {
      assert saved[..n + 1][..n] == saved[..n];
    }
  }

  lemma TouchingLive(s: State, ids: set<nat>, lo: nat, hi: nat)
    requires Touching(s, ids, lo, hi)
    ensures forall i :: i in ids ==> i in s.allocations
  {
  }

  lemma TouchingHull(s: State, ids: set<nat>, lo: nat, hi: nat, gs: nat, ge: nat)
    requires Touching(s, ids, lo, hi) && Hull(s, ids, lo, hi, gs, ge)
    ensures gs <= lo && hi <= ge
    ensures forall i :: i in ids ==> i in s.allocations
  {
  }

  lemma SavedFit(s: State, saved: seq<Saved>, ids: set<nat>, lo: nat, hi: nat, gs: nat, ge: nat)
    requires SavedFrom(saved, s, ids) && Hull(s, ids, lo, hi, gs, ge) && lo < hi
    ensures FitIn(saved, gs, ge)
  {
  }

  /** Every VMA that meets [lo, hi) uses allocation `id`. */
  ghost predicate UsesOnly(vmas: VmaMap, id: nat, lo: nat, hi: nat) {
    forall k :: k in vmas && vmas[k].Overlaps(lo, hi) ==> vmas[k].allocationId == id
  }

  /** The allocations that meet a range back the VMAs that do. */
  lemma TouchingBacks(s: State, ids: set<nat>, lo: nat, hi: nat, k: nat)
    requires Inv(s) && Touching(s, ids, lo, hi) && k in s.vmas && s.vmas[k].Overlaps(lo, hi)
    ensures s.vmas[k].allocationId in ids
  {
    BackedVma(s, k);
  }

  lemma ReplacedUses(s: State, t: State, ids: set<nat>, saved: seq<Saved>, gs: nat, ge: nat, h: nat, lo: nat, hi: nat)
    requires Replacing(s, t, ids, saved, gs, ge, h) && Touching(s, ids, lo, hi)
    ensures UsesOnly(Replaced(t, ids, saved, gs, ge, h).vmas, s.nextId, lo, hi)
  {
    hide Inv, Touching, SavedFrom;
    forall k | k in s.vmas && s.vmas[k].Overlaps(lo, hi)
      ensures s.vmas[k].allocationId in ids && gs <= s.vmas[k].start
    {
      TouchingBacks(s, ids, lo, hi, k);
      ReplacedVmasFit(s, t, ids, saved, gs, ge, h, k);
      BackedVma(s, k);
    }
  }

  /**
   After a merge exactly those addresses are stale that do not use a merged allocation and were stale or lie in the
   hull: a merge makes stale what its hull swallows.
   */
  lemma ReplacedStale(s: State, t: State, ids: set<nat>, saved: seq<Saved>, gs: nat, ge: nat, h: nat, a: nat)
    requires Replacing(s, t, ids, saved, gs, ge, h)
    ensures a in Stale(Replaced(t, ids, saved, gs, ge, h)) <==>
            && SlotAt(s.vmas, a).Some? && SlotAt(s.vmas, a).value.allocationId !in ids
            && (a in Stale(s) || gs <= a < ge)
  {
    hide Inv, SavedFrom, HostOk, SlotAt, Isolated, Unshared, Merged;
    var u := Replaced(t, ids, saved, gs, ge, h);
    ReplacedSlot(s, t, ids, saved, gs, ge, h, a);
    forall i | i in u.allocations && i != s.nextId
      ensures i in s.allocations && i !in ids && i < s.nextId
      ensures AllocationCovers(u.allocations[i], u.bytes, a) == AllocationCovers(s.allocations[i], s.bytes, a)
    {
      LiveAllocation(s, i);
    }
    forall i | i in s.allocations && i !in ids
      ensures i in u.allocations && i != s.nextId
    {
      LiveAllocation(s, i);
      assert i in t.allocations;
    }
    forall i | i in ids
      ensures i in s.allocations && (AllocationCovers(s.allocations[i], s.bytes, a) ==> gs <= a < ge)
    {
      var j := SavedCovers(s, saved, ids, i);
    }
    assert AllocationCovers(u.allocations[s.nextId], u.bytes, a) == (gs <= a < ge);
    hide AllocationCovers;
    if SlotAt(s.vmas, a).Some? {
      InvBacked(s);
      assert BackedSlot(s.allocations, s.bytes, a, SlotAt(s.vmas, a).value);
    }
  }

  /** The least range around the granules of [start, end) and every allocation that meets them. */
  ghost function Near(s: State, start: nat, end: nat): iset<nat> {
    Around(Extents(s), GranuleDown(start), GranuleUp(end))
  }

  /** What became stale in backing [start, end) lies near it. */
  ghost predicate StalesNear(s: State, t: State, start: nat, end: nat) {
    Stale(t) <= Stale(s) + Near(s, start, end)
  }

  lemma StalesNothing(s: State, t: State, start: nat, end: nat)
    requires Stale(t) <= Stale(s)
    ensures StalesNear(s, t, start, end)
  {
    hide Stale, Near;
  }

  lemma StalesHull(s: State, t: State, ids: set<nat>, lo: nat, hi: nat, gs: nat, ge: nat, start: nat, end: nat)
    requires Stale(t) <= Stale(s) + Span(gs, ge) && Touching(s, ids, lo, hi) && Hull(s, ids, lo, hi, gs, ge) && lo < hi
    requires GranuleDown(start) <= lo && hi <= GranuleUp(end)
    ensures StalesNear(s, t, start, end)
  {
    hide Stale;
    var extents := Extents(s);
    forall a: nat | Within(a, gs, ge)
      ensures InHull(extents, lo, hi, a)
    {
      if gs < lo {
        var i :| i in ids && s.allocations[i].guestStart == gs;
        var e := (gs, AllocationEnd(s.allocations[i], s.bytes));
        assert Extent(s.allocations, s.bytes, e);
        assert e in extents && Meets(e, lo, hi);
      }
      if hi < ge {
        var i :| i in ids && AllocationEnd(s.allocations[i], s.bytes) == ge;
        var e := (s.allocations[i].guestStart, ge);
        assert Extent(s.allocations, s.bytes, e);
        assert e in extents && Meets(e, lo, hi);
      }
    }
    hide Extents;
    AroundGrows(extents, extents, lo, hi, GranuleDown(start), GranuleUp(end));
  }

  /** A mapping at [start, end) on the backing prepared in `ready` and filled in `filled`. */
  lemma StalesPlaced(s: State, ready: State, filled: State, t: State, start: nat, end: nat)
    requires StalesNear(s, ready, start, end) && Stale(filled) <= Stale(ready)
    requires Stale(t) <= Stale(filled) + Span(start, end)
    ensures StalesNear(s, t, start, end)
  {
    hide Stale, Extents;
    SpanAround(Extents(s), start, end);
    AroundGrows(Extents(s), Extents(s), start, end, GranuleDown(start), GranuleUp(end));
    hide Around, Span;
  }

  lemma StalesAfter(s: State, cleared: State, t: State, start: nat, end: nat)
    requires Stale(cleared) <= Stale(s) && Extents(cleared) <= Extents(s) && StalesNear(cleared, t, start, end)
    ensures StalesNear(s, t, start, end)
  {
    hide Stale, Extents;
    AroundGrows(Extents(cleared), Extents(s), GranuleDown(start), GranuleUp(end), GranuleDown(start), GranuleUp(end));
    hide Around;
  }

  lemma ReplacedStalesHull(s: State, t: State, ids: set<nat>, saved: seq<Saved>, gs: nat, ge: nat, h: nat)
    requires Replacing(s, t, ids, saved, gs, ge, h)
    ensures Stale(Replaced(t, ids, saved, gs, ge, h)) <= Stale(s) + Span(gs, ge)
  {
    hide Inv, Shed, SavedFrom, HostOk, Replaced, Stale, SlotAt;
    forall a: nat | a in Stale(Replaced(t, ids, saved, gs, ge, h))
      ensures a in Stale(s) + Span(gs, ge)
    {
      ReplacedStale(s, t, ids, saved, gs, ge, h, a);
    }
  }

  /**
   What a merge achieves: one sole allocation over [gs, ge), the guest's cuts as they were, its bytes too but for
   stale ones.
   */
  ghost predicate MergedInto(s: State, u: State, id: nat, gs: nat, ge: nat, lo: nat, hi: nat) {
    && SameRanges(s.vmas, u.vmas) && UsesOnly(u.vmas, id, lo, hi)
    && Sole(u, id) && u.allocations[id].guestStart == gs
    && u.allocations[id].memory in u.bytes && |u.bytes[u.allocations[id].memory]| == ge - gs
    && Alike(View(s), View(u), Stale(s)) && Stale(u) <= Stale(s) + Span(gs, ge)
    && (AllocationsDisjoint(s.allocations, s.bytes) ==> AllocationsDisjoint(u.allocations, u.bytes))
  }

  lemma ReplacedMerge(s: State, t: State, ids: set<nat>, saved: seq<Saved>, gs: nat, ge: nat, h: nat, lo: nat, hi: nat)
    requires Replacing(s, t, ids, saved, gs, ge, h)
    requires Touching(s, ids, lo, hi) && Hull(s, ids, lo, hi, gs, ge) && lo < hi
    ensures var u := Replaced(t, ids, saved, gs, ge, h);
            Inv(u) && Framed(s, u) && MergedInto(s, u, s.nextId, gs, ge, lo, hi)
  {
    hide Inv, Framed, View, SameShape, SavedFrom, FitIn, Merged, AllocationsDisjoint, SameRanges, Touching, Hull, Stale;
    hide UsesOnly;
    ReplacedUses(s, t, ids, saved, gs, ge, h, lo, hi);
    ReplacedFramed(s, t, ids, saved, gs, ge, h, lo, hi);
    ReplacedView(s, t, ids, saved, gs, ge, h);
    ReplacedStalesHull(s, t, ids, saved, gs, ge, h);
  }

  /** Allocation `id` backs [start, start + length), `offset` bytes into its buffer. */
  ghost predicate Provides(s: State, id: nat, offset: nat, start: nat, length: nat) {
    && id in s.allocations && s.allocations[id].memory in s.bytes
    && s.allocations[id].guestStart + offset == start
    && offset + length <= |s.bytes[s.allocations[id].memory]|
  }

  /** What backing [start, start + length) achieves, however it was done. */
  ghost predicate Prepared(s: State, t: State, id: nat, offset: nat, start: nat, length: nat) {
    && Inv(t) && Framed(s, t) && SameRanges(s.vmas, t.vmas) && Provides(t, id, offset, start, length)
    && Alike(View(s), View(t), Stale(s)) && StalesNear(s, t, start, start + length)
    && (t == s || Sole(t, id))
    && (AllocationsDisjoint(s.allocations, s.bytes) ==> AllocationsDisjoint(t.allocations, t.bytes))
    && (if t == s then LowestBacking(s, id, start, length) else UsesOnly(t.vmas, id, start, start + length))
  }

  predicate Contains(allocation: Allocation, bytes: HostBytes, start: nat, length: nat) {
    allocation.memory in bytes && allocation.guestStart <= start && start + length <= AllocationEnd(allocation, bytes)
  }

  /** Of the allocations that contain the range, `id` is the oldest. */
  ghost predicate LowestBacking(s: State, id: nat, start: nat, length: nat) {
    forall i :: i in s.allocations && Contains(s.allocations[i], s.bytes, start, length) ==> id <= i
  }

  lemma PreparedByReuse(s: State, containing: set<nat>, start: nat, length: nat)
    requires Inv(s) && HostOk(s) && containing != {}
    requires forall i :: i in containing <==> i in s.allocations && Contains(s.allocations[i], s.bytes, start, length)
    ensures var id := Least(containing);
            id in s.allocations && s.allocations[id].guestStart <= start
            && Prepared(s, s, id, start - s.allocations[id].guestStart, start, length)
  {
    hide Inv, Quiet, Stale, View, AllocationsDisjoint, Framed, StalesNear;
    QuietReflexive(s);
    StalesNothing(s, s, start, start + length);
    assert Least(containing) in containing;
  }

  lemma PreparedByFresh(s: State, gs: nat, ge: nat, h: nat, start: nat, length: nat)
    requires Inv(s) && HostOk(s) && h !in s.bytes && gs < ge < U64_LIMIT && Touching(s, {}, gs, ge)
    requires gs <= start && start + length <= ge
    ensures Prepared(s, Fresh(s, gs, ge, h), s.nextId, start - gs, start, length)
  {
    hide Inv, Quiet, Stale, View, AllocationsDisjoint, Framed, Touching, StalesNear;
    FreshQuiet(s, gs, ge, h);
    QuietIsFramed(s, Fresh(s, gs, ge, h));
    StalesNothing(s, Fresh(s, gs, ge, h), start, start + length);
    forall k | k in s.vmas
      ensures !s.vmas[k].Overlaps(start, start + length)
    {
      if s.vmas[k].Overlaps(start, start + length) {
        TouchingBacks(s, {}, gs, ge, k);
      }
    }
  }

  lemma MergedStales(s: State, t: State, id: nat, gs: nat, ge: nat, lo: nat, hi: nat)
    requires MergedInto(s, t, id, gs, ge, lo, hi)
    ensures Stale(t) <= Stale(s) + Span(gs, ge)
  {
  }

  lemma NewIdNew(s: State, t: State, id: nat, gs: nat, ge: nat, lo: nat, hi: nat)
    requires Inv(s) && MergedInto(s, t, id, gs, ge, lo, hi) && id == s.nextId
    ensures t != s
  {
    assert id !in s.allocations;
  }

  lemma PreparedByMerge(s: State, t: State, id: nat, gs: nat, ge: nat, lo: nat, hi: nat, start: nat, length: nat)
    requires Inv(t) && Framed(s, t) && MergedInto(s, t, id, gs, ge, lo, hi) && t != s
    requires gs <= lo <= start && start + length <= hi <= ge && StalesNear(s, t, start, start + length)
    ensures Prepared(s, t, id, start - gs, start, length)
  {
    hide Inv, Stale, StalesNear, View, AllocationsDisjoint, Framed, SameRanges, SameShape;
  }

  // Placing a VMA on prepared backing

  /** The buffer contents behind [start, start + length). */
  ghost function Behind(s: State, id: nat, offset: nat, length: nat): seq<Byte>
    requires id in s.allocations && s.allocations[id].memory in s.bytes
    requires offset + length <= |s.bytes[s.allocations[id].memory]|
  {
    s.bytes[s.allocations[id].memory][offset..offset + length]
  }

  ghost predicate CanPlace(s: State, w: Vma) {
    && WellPlaced(w, w.start, s.spaceEnd) && IsPageAligned(w.start) && HasRoom(s.vmas, w)
    && (w.kind.Heap? ==> s.heapBase <= w.start)
    && Provides(s, w.allocationId, w.allocationOffset, w.start, w.end - w.start)
  }

  lemma PlacedSlots(s: State, w: Vma)
    requires Inv(s) && CanPlace(s, w)
    ensures WellFormed(s.vmas[w.start := w], s.spaceEnd)
    ensures Adds(s.vmas, s.vmas[w.start := w], w)
    ensures Backed(s.vmas[w.start := w], s.allocations, s.bytes)
    ensures StartsAligned(s.vmas) ==> StartsAligned(s.vmas[w.start := w])
  {
    PutAdds(s.vmas, s.spaceEnd, w);
    hide WellFormed, HasRoom, SlotAt;
  }

  lemma PlacedView(s: State, w: Vma)
    requires Inv(s) && CanPlace(s, w)
    ensures var t := s.(vmas := s.vmas[w.start := w]);
            && Inv(t)
            && View(t) == MapBytes(View(s), w.start, Behind(s, w.allocationId, w.allocationOffset, w.end - w.start),
                                   w.protection, w.kind)
  {
    hide WellFormed, HasRoom, SlotAt, Backed;
    PlacedSlots(s, w);
  }

  lemma PlacedStales(s: State, w: Vma)
    requires Inv(s) && CanPlace(s, w)
    ensures Stale(s.(vmas := s.vmas[w.start := w])) <= Stale(s) + Span(w.start, w.end)
  {
    hide WellFormed, HasRoom, SlotAt, Backed, AllocationCovers;
    PlacedSlots(s, w);
  }

  lemma PlacedIsolated(s: State, w: Vma)
    requires Inv(s) && HostOk(s)
    ensures Isolated(s.member, s.owners, s.bytes, s.owners, s.bytes)
    ensures Private(s) ==> Private(s.(vmas := s.vmas[w.start := w]))
  {
    QuietReflexive(s);
    hide Inv;
  }

  lemma PlacedFramed(s: State, w: Vma)
    requires Inv(s) && HostOk(s) && CanPlace(s, w) && IsPageAligned(w.end)
    ensures Framed(s, s.(vmas := s.vmas[w.start := w]))
  {
    hide WellFormed, HasRoom, SlotAt, Backed;
    PlacedSlots(s, w);
    VmaStepFramed(s, s.vmas[w.start := w]);
  }

  lemma MapZeroIsBytes(flat: FlatMap, start: nat, length: nat, protection: Protection, kind: VmaKind)
    ensures MapBytes(flat, start, Zeros(length), protection, kind) ==
            MapZero(flat, start, start + length, protection, kind)
  {
  }

  /** A new zero mapping over [start, end), everything else in place; save for stale bytes of `s`. */
  ghost predicate Placed(s: State, t: State, start: nat, end: nat, protection: Protection, kind: VmaKind) {
    && !Overlapping(s.vmas, start, end)
    && Alike(MapZero(View(s), start, end, protection, kind), View(t), Stale(s)) && StalesNear(s, t, start, end)
    && (forall a: nat :: start <= a < end ==> a in View(t) && View(t)[a] == Cell(0, protection, kind))
  }

  lemma PlacedFrom(s: State, ready: FlatMap, t: State, start: nat, end: nat, protection: Protection, kind: VmaKind)
    requires Alike(View(s), ready, Stale(s)) && !Overlapping(s.vmas, start, end) && StalesNear(s, t, start, end)
    requires View(t) == MapZero(ready, start, end, protection, kind)
    ensures Placed(s, t, start, end, protection, kind)
  {
    hide View, Stale, StalesNear;
  }

  /** A range that overlaps no VMA is unmapped throughout. */
  lemma FreeIsUnmapped(s: State, start: nat, end: nat)
    requires !Overlapping(s.vmas, start, end)
    ensures forall a: nat :: start <= a < end ==> SlotAt(s.vmas, a).None?
  {
    forall a: nat | start <= a < end
      ensures !Mapped(s.vmas, a)
    {
      forall k: nat
        ensures !Covers(s.vmas, k, a)
      {
        if k in s.vmas {
          assert !s.vmas[k].Overlaps(start, end);
        }
      }
    }
  }

  lemma FreeHasRoom(s: State, w: Vma)
    requires Inv(s) && !Overlapping(s.vmas, w.start, w.end) && w.start < w.end
    ensures HasRoom(s.vmas, w)
  {
    forall k | k in s.vmas
      ensures k != w.start && (s.vmas[k].end <= w.start || w.end <= k)
    {
      assert !s.vmas[k].Overlaps(w.start, w.end);
      assert WellPlaced(s.vmas[k], k, s.spaceEnd);
    }
  }

  /** No VMA uses that part of the allocation's guest range. */
  ghost predicate Unused(s: State, id: nat, offset: nat, length: nat)
    requires id in s.allocations
  {
    var lo := s.allocations[id].guestStart + offset;
    forall a: nat :: lo <= a < lo + length ==> SlotAt(s.vmas, a).None?
  }

  /** The same allocations over the same ranges, with `data` at `offset` of allocation `id`. */
  ghost predicate Filled(s: State, t: State, id: nat, offset: nat, data: seq<Byte>) {
    && t.vmas == s.vmas && t.allocations.Keys == s.allocations.Keys
    && id in s.allocations && id in t.allocations
    && t.allocations[id].guestStart == s.allocations[id].guestStart
    && s.allocations[id].memory in s.bytes && t.allocations[id].memory in t.bytes
    && offset + |data| <= |s.bytes[s.allocations[id].memory]|
    && t.bytes[t.allocations[id].memory] == Blit(s.bytes[s.allocations[id].memory], offset, data)
  }

  ghost predicate Zeroed(s: State, t: State, id: nat, offset: nat, length: nat) {
    Filled(s, t, id, offset, Zeros(length))
  }

  lemma FilledReady(s: State, t: State, id: nat, offset: nat, data: seq<Byte>)
    requires SameContents(s.allocations, s.bytes, t.allocations, t.bytes)
    requires id in s.allocations && s.allocations[id].memory in s.bytes
             && offset + |data| <= |s.bytes[s.allocations[id].memory]|
    ensures id in t.allocations && t.allocations[id].memory in t.bytes
            && offset + |data| <= |t.bytes[t.allocations[id].memory]|
  {
  }

  /** Storing into an unshared copy `t` of `s`: the guest sees it only where a VMA uses that part. */
  lemma FilledStore(s: State, t: State, id: nat, offset: nat, data: seq<Byte>)
    requires Inv(s) && Inv(t) && t.vmas == s.vmas && SameContents(s.allocations, s.bytes, t.allocations, t.bytes)
    requires id in s.allocations && s.allocations[id].memory in s.bytes
             && offset + |data| <= |s.bytes[s.allocations[id].memory]|
    requires Sole(t, id)
    ensures offset + |data| <= |t.bytes[t.allocations[id].memory]|
    ensures Filled(s, Stored(t, id, offset, data), id, offset, data)
    ensures Unused(s, id, offset, |data|) ==> View(Stored(t, id, offset, data)) == View(t)
  {
    hide Inv, View, SlotAt;
    if Unused(s, id, offset, |data|) {
      StoredUnmapped(t, id, offset, data);
    }
  }

  lemma FilledParts(s: State, t: State, id: nat, offset: nat, data: seq<Byte>)
    requires Filled(s, t, id, offset, data)
    ensures forall start: nat :: Provides(s, id, offset, start, |data|) ==> Provides(t, id, offset, start, |data|)
    ensures Behind(t, id, offset, |data|) == data && t.vmas == s.vmas
  {
  }

  lemma PreparedParts(s: State, t: State, id: nat, offset: nat, start: nat, length: nat)
    requires Prepared(s, t, id, offset, start, length)
    ensures Inv(t) && Framed(s, t) && Provides(t, id, offset, start, length)
    ensures Alike(View(s), View(t), Stale(s)) && (t == s || Sole(t, id)) && StalesNear(s, t, start, start + length)
    ensures AllocationsDisjoint(s.allocations, s.bytes) ==> AllocationsDisjoint(t.allocations, t.bytes)
    ensures SameRanges(s.vmas, t.vmas)
  {
  }

  lemma PreparedFree(s: State, t: State, id: nat, offset: nat, start: nat, length: nat)
    requires Inv(s) && Prepared(s, t, id, offset, start, length) && !Overlapping(s.vmas, start, start + length)
    ensures !Overlapping(t.vmas, start, start + length)
    ensures forall a: nat :: start <= a < start + length ==> SlotAt(t.vmas, a).None?
  {
    InvWellFormed(s);
    SameRangesWellFormed(s.vmas, t.vmas, s.spaceEnd);
    FreeIsUnmapped(t, start, start + length);
  }

  /**
   The guest sees a fresh zero mapping over [start, end) in place of whatever was there; nothing else but stale
   bytes changes.
   */
  ghost predicate MapsFresh(s: State, t: State, start: nat, end: nat, protection: Protection, kind: VmaKind) {
    && Alike(MapZero(View(s), start, end, protection, kind), View(t), Stale(s)) && StalesNear(s, t, start, end)
    && (forall a: nat :: start <= a < end ==> a in View(t) && View(t)[a] == Cell(0, protection, kind))
  }

  lemma PlacedMapsFresh(s: State, cleared: State, t: State, start: nat, end: nat, protection: Protection, kind: VmaKind)
    requires View(cleared) == View(s) || View(cleared) == Unmap(View(s), start, end)
    requires Stale(cleared) <= Stale(s) && Extents(cleared) <= Extents(s)
    requires Placed(cleared, t, start, end, protection, kind)
    ensures MapsFresh(s, t, start, end, protection, kind)
  {
    hide View, Stale, Overlapping, StalesNear, Extents;
    StalesAfter(s, cleared, t, start, end);
    assert MapZero(View(cleared), start, end, protection, kind) == MapZero(View(s), start, end, protection, kind);
  }

  lemma UnmappedIsFree(s: State, flat: FlatMap, start: nat, end: nat)
    requires Inv(s) && flat == View(s) && start < end && forall a: nat :: start <= a < end ==> a !in flat
    ensures !Overlapping(s.vmas, start, end)
  {
    hide Inv, View;
    forall k | k in s.vmas
      ensures !s.vmas[k].Overlaps(start, end)
    {
      BackedVma(s, k);
      var a := if s.vmas[k].start < start then start else s.vmas[k].start;
      if s.vmas[k].Overlaps(start, end) {
        VmaView(s, k, a);
      }
    }
  }

  /** Free of VMAs and free in the picture are the same. */
  lemma PlaceIsFit(s: State, start: nat, length: nat)
    requires Inv(s) && 0 < length
    ensures Overlapping(s.vmas, start, start + length) <==> !Free(View(s), start, start + length)
    ensures FitsAt(s.vmas, s.spaceEnd, start, length) <==> HasPlace(View(s), s.spaceEnd, start, length)
  {
    if Free(View(s), start, start + length) {
      UnmappedIsFree(s, View(s), start, start + length);
    }
    if !Overlapping(s.vmas, start, start + length) {
      FreeIsUnmapped(s, start, start + length);
    }
  }
}
