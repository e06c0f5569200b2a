/**
 Runs: every sequence of calls on a family of clones is a sequence of calls on independent flat
 memories. `Run` carries a family through the calls and leaves the trace of its pictures.
 */
module Families {
  import opened Ranges
  import opened Vmas
  import opened FlatMemory
  import opened Backing
  import opened HostMemory
  import opened GuestState
  import opened Merging
  import opened HeapBreak
  import opened Clones
  import opened GuestMemories
  import opened LinuxRequests

  datatype Op =
    | CloneOp(allowSharing: bool, cloneMode: HostAddressMode)
    | WriteOp(address: U64, bytes: seq<Byte>)
    | SliceOp(address: U64, bytes: seq<Byte>)
    | PatchOp(address: U64, bytes: seq<Byte>)
    | MmapOp(args: MmapArgs)
    | MunmapOp(address: U64, length: U64)
    | MprotectOp(address: U64, length: U64, prot: bv32)
    | BrkOp(requested: U64)

  datatype Call = Call(target: nat, op: Op)

  datatype Answer =
    | Done(value: nat)             // mmap: the address; brk: the break
    | Cloned(shared: bool)         // whether some allocation is shared rather than copied
    | Refused(error: MemoryError, byHost: bool)  // whether the host had refused an allocation
    | Lost                         // the host refused to re-allocate what a failed merge had released
    | HeapBroken                   // the grown heap overlaps other pieces of the heap
    | NoMember                     // nobody to call

  // What a member shows

  datatype Layout = Layout(base: U64, spaceEnd: U64, mmapBase: U64, mode: HostAddressMode, windowsHost: bool)

  /**
   The flat memory of a member with its fixed layout, its break, where its heap's first piece ends and whether that
   is all of the heap. `stale` are the addresses whose bytes a merge may lose, `undercut` the ends growing the heap
   to which may lose its bytes; a member that is `private`, sharing no buffer and with disjoint allocations, has none.
   `extents` are the ranges of its host allocations.
   */
  datatype Picture = Picture(
    layout: Layout,
    brk: nat,
    heapEnd: nat,
    single: bool,
    flat: FlatMap,
    stale: iset<nat>,
    undercut: iset<nat>,
    extents: iset<(nat, nat)>,
    private: bool
  )

  ghost function PictureOf(memory: GuestMemory): Picture
    reads memory, memory.host
  {
    var s := memory.State();
    Picture(Layout(memory.brkBase, memory.addressSpaceEnd, memory.mmapBase, memory.mode, memory.windowsHost),
            memory.currentBrk, HeapMappedEnd(memory.vmas, memory.brkBase), SingleHeap(memory.vmas, memory.brkBase),
            memory.Memory(), Stale(s), (iset e: nat | Undercut(s, e)), Extents(s), Private(s))
  }

  /** What holds of every picture: a private member is exact, and the flat memory shows where the heap's pieces end. */
  ghost predicate Coherent(p: Picture) {
    && (p.private ==> p.stale == iset{} && p.undercut == iset{})
    && (p.single ==> HeapIs(p.flat, p.layout.base, p.heapEnd))
    && p.layout.base <= p.heapEnd && FirstPieceEnds(p.flat, p.layout.base, p.heapEnd)
  }

  lemma PicturesCohere(memory: GuestMemory)
    requires memory.Valid()
    ensures Coherent(PictureOf(memory))
  {
    var s := memory.State();
    if Private(s) {
      PrivateIsNewest(s);
      forall e: nat
        ensures !Undercut(s, e)
      {
        DisjointNotUndercut(s, e);
      }
    }
    MappedEndShown(s);
    if SingleHeap(s.vmas, s.heapBase) {
      SingleHeapIs(s);
    }
  }

  // Flat calls

  ghost predicate WritesPrefix(p: FlatMap, q: FlatMap, address: nat, bytes: seq<Byte>, n: nat) {
    n <= |bytes| && q == Overlay(p, address, bytes[..n]) && Accessible(p, address, address + n, Access.Write)
  }

  ghost predicate LowestPlace(p: Picture, hint: nat, start: nat, length: nat) {
    && hint <= start && HasPlace(p.flat, p.layout.spaceEnd, start, length)
    && forall c: nat :: hint <= c < start ==> !HasPlace(p.flat, p.layout.spaceEnd, c, length)
  }

  /**
   A new mapping at `start`: where it asked to be if pinned, at a free place unless fixed, at the lowest one from
   the hint up if nothing pins it or its host address. It reads zero throughout; nothing else changes but stale bytes.
   */
  ghost predicate Maps(p: Picture, args: MmapArgs, start: nat, q: FlatMap) {
    && args.Request().Ok? && MmapFits(p.flat, p.layout.spaceEnd, p.layout.mmapBase, args)
    && var request := args.Request().value;
       var end := start + request.length;
       var flat := MapZero(p.flat, start, end, request.protection, request.kind);
    && IsPageAligned(start) && MIN_GUEST_ADDRESS <= start && end <= p.layout.spaceEnd
    && (args.Pinned() ==> start == args.addr)
    && (!args.IsFixed() ==> Free(p.flat, start, end))
    && (!args.Pinned() && p.layout.mode.Flexible? ==>
          args.SearchFrom(p.layout.mmapBase).Ok?
          && LowestPlace(p, args.SearchFrom(p.layout.mmapBase).value, start, request.length))
    && Alike(flat, q, p.stale)
    && (forall a: nat :: start <= a < end ==> a in q && q[a] == Cell(0, request.protection, request.kind))
    && Allows(q, start, end, args.prot as nat)
  }

  /** The heap after the break moved to the rounded end `newEnd`, by direction. */
  ghost predicate HeapMoves(p: Picture, newEnd: nat, q: FlatMap) {
    if newEnd < p.heapEnd then q == ShrinkHeap(p.flat, newEnd)
    else if newEnd == p.heapEnd then q == p.flat
    else
      && (forall a: nat :: p.layout.base <= a < newEnd ==> (a in p.flat <==> a < p.heapEnd))
      && Alike(GrowHeap(p.flat, p.layout.base, newEnd), q,
               AtRisk(p.stale, newEnd in p.undercut, p.layout.base, p.heapEnd))
      && (forall a: nat :: p.heapEnd <= a < newEnd ==> a in q && q[a].data == 0)
      && Allows(q, p.layout.base, newEnd, 3)
  }

  /** What backing [start, end) made stale lies in the hull of its granules and the allocations that meet them. */
  ghost predicate StalesInHull(p: Picture, start: nat, end: nat, q: Picture) {
    q.stale <= p.stale + Around(p.extents, GranuleDown(start), GranuleUp(end))
  }

  ghost predicate MovesBreak(p: Picture, requested: U64, value: nat, q: Picture) {
    && value == q.brk && (p.single ==> q.single)
    && if requested == 0 then q.flat == p.flat && q.brk == p.brk && q.stale == p.stale
       else
         && q.brk == requested && p.layout.base <= requested && AlignUp(requested).Ok?
         && var newEnd := AlignUp(requested).value;
         && BrkRefusal(p.flat, p.layout.base, p.layout.spaceEnd, p.heapEnd, requested).None?
         && newEnd <= p.layout.spaceEnd && HeapMoves(p, newEnd, q.flat) && (p.single ==> q.heapEnd == newEnd)
         && (if newEnd <= p.heapEnd then q.stale <= p.stale else StalesInHull(p, p.layout.base, newEnd, q))
  }

  /** What a call that succeeded with that value did. */
  ghost predicate Effect(op: Op, p: Picture, value: nat, q: Picture) {
    match op
    case CloneOp(_, _) => false
    case WriteOp(address, bytes) => WritesPrefix(p.flat, q.flat, address, bytes, |bytes|)
    case SliceOp(address, bytes) => WritesPrefix(p.flat, q.flat, address, bytes, |bytes|)
    case PatchOp(address, bytes) => AllMapped(p.flat, address, address + |bytes|)
                                    && q.flat == Overlay(p.flat, address, bytes)
    case MmapOp(args) => Maps(p, args, value, q.flat) && StalesInHull(p, value, value + args.Request().value.length, q)
    case MunmapOp(address, length) =>
      CheckedPageRange(address, length).Ok? && q.flat == Unmap(p.flat, address, CheckedPageRange(address, length).value)
    case MprotectOp(address, length, prot) =>
      && prot as nat < 8
      && if length == 0 then q.flat == p.flat
         else
           && CheckedPageRange(address, length).Ok?
           && var end := CheckedPageRange(address, length).value;
           && AllMapped(p.flat, address, end) && Allows(q.flat, address, end, prot as nat)
           && q.flat == Reprotect(p.flat, address, end, Protecting(prot as nat))
    case BrkOp(requested) => MovesBreak(p, requested, value, q)
  }

  /** A write that stopped: at the first fault, before it began, or where the host ran out. */
  ghost predicate StopsAt(p: FlatMap, q: FlatMap, address: nat, bytes: seq<Byte>, n: nat, error: MemoryError) {
    && WritesPrefix(p, q, address, bytes, n)
    && (|| error == HostFailure
        || (address + |bytes| >= U64_LIMIT && n == 0 && error == InvalidLength)
        || FirstFault(p, address, address + |bytes|, Access.Write, address + n, error))
  }

  /**
   What a call that was refused did: nothing, but for a prefix of a write and the clearing of a fixed mapping's
   range.
   */
  ghost predicate RefusedEffect(op: Op, p: Picture, error: MemoryError, q: Picture) {
    match op
    case WriteOp(address, bytes) => exists n :: StopsAt(p.flat, q.flat, address, bytes, n, error)
    case MmapOp(args) =>
      || q.flat == p.flat
      || (&& args.IsFixed() && args.Request().Ok?
          && q.flat == Unmap(p.flat, args.addr, args.addr + args.Request().value.length))
    case _ => q.flat == p.flat
  }

  /** Why a call must fail although the host gives all it is asked for. */
  ghost predicate Reason(op: Op, p: Picture, error: MemoryError) {
    match op
    case CloneOp(_, _) => false
    case WriteOp(address, bytes) =>
      if address + |bytes| >= U64_LIMIT then error == InvalidLength
      else FaultsWith(p.flat, address, address + |bytes|, Access.Write, error)
    case SliceOp(address, bytes) => error == InvalidLength || Fault(p.flat, address, Access.Write) == Some(error)
    case PatchOp(address, bytes) => error == InvalidLength || (error == NotMapped && address !in p.flat)
    case MmapOp(args) =>
      || (&& !MmapFits(p.flat, p.layout.spaceEnd, p.layout.mmapBase, args)
          && MmapRefusal(p.flat, p.layout.spaceEnd, args, error))
      || (error == InvalidLength && MmapOverflows(p.layout.windowsHost, p.flat, p.layout.spaceEnd,
                                                   p.layout.mmapBase, args))
    case MunmapOp(address, length) => CheckedPageRange(address, length) == Err(error)
    case MprotectOp(address, length, prot) =>
      if prot as nat >= 8 then error == InvalidProtection
      else
        && length != 0
        && var end := CheckedPageRange(address, length);
        && if end.Err? then end == Err(error) else error == NotMapped && !AllMapped(p.flat, address, end.value)
    case BrkOp(requested) =>
      var refusal := BrkRefusal(p.flat, p.layout.base, p.layout.spaceEnd, p.heapEnd, requested);
      if refusal.Some? then refusal == Some(error)
      else
        && error == InvalidLength && p.layout.base <= requested && p.heapEnd < AlignUp(requested).value
        && HostAllocationRange(p.layout.windowsHost, p.layout.base, AlignUp(requested).value - p.layout.base).Err?
  }

  /**
   A refusal has its reason, or the host refused an allocation and the guest is told so; only a search under a fixed
   host layout, which goes on behind a conflict, may then fail for another reason.
   */
  ghost predicate Explained(op: Op, p: Picture, error: MemoryError, byHost: bool) {
    if !byHost then Reason(op, p, error) && !HostRefused(error)
    else || HostRefused(error)
         || (&& op.MmapOp? && !op.args.Pinned() && p.layout.mode.FixedGuest?
             && (error == OutOfMemory || error == InvalidLength))
  }

  /** What no call on a member changes of its picture. */
  ghost predicate Keeps(op: Op, p: Picture, q: Picture) {
    && q.layout == p.layout && (op.BrkOp? || q.brk == p.brk)
    && (p.private ==> q.private)
    && (!op.MmapOp? && !op.BrkOp? ==> q.stale <= p.stale)
    && (op.MunmapOp? ==> q.extents <= p.extents)
  }

  /** When the break cannot be moved without breaking the heap. */
  predicate BreaksHeap(vmas: VmaMap, base: nat, spaceEnd: nat, requested: U64) {
    && base <= requested && AlignUp(requested).Ok?
    && var oldEnd, newEnd := HeapMappedEnd(vmas, base), AlignUp(requested).value;
    && oldEnd < newEnd <= spaceEnd && !GrowthBlocked(vmas, oldEnd, newEnd) && !GrowSafe(vmas, base, newEnd)
  }

  ghost predicate FlatEffect(op: Op, p: Picture, answer: Answer, q: Picture) {
    match answer
    case Done(value) => Keeps(op, p, q) && Effect(op, p, value, q)
    case Refused(error, byHost) =>
      && Keeps(op, p, q) && q.brk == p.brk && q.stale <= p.stale
      && RefusedEffect(op, p, error, q) && Explained(op, p, error, byHost)
    case Lost => op.MmapOp? || op.BrkOp?
    case HeapBroken =>
      && op.BrkOp? && !p.single && AlignUp(op.requested).Ok?
      && p.heapEnd < AlignUp(op.requested).value <= p.layout.spaceEnd
    case _ => false
  }

  predicate Ends(answer: Answer) {
    answer.Lost? || answer.HeapBroken?
  }

  // One call on one member

  /** One call; a member it ends takes part in no further call. */
  method Step(memory: GuestMemory, op: Op) returns (answer: Answer)
    requires memory.Valid() && !op.CloneOp?
    modifies memory, memory.host
    ensures memory.host.Valid()
    ensures Isolated(memory.member, old(memory.host.owners), old(memory.host.bytes), memory.host.owners,
                     memory.host.bytes)
    ensures !Ends(answer) ==> memory.Valid()
    ensures FlatEffect(op, old(PictureOf(memory)), answer, PictureOf(memory))
  {
    hide Inv, FlatEffect, PictureOf, Isolated, HostStore.Valid;
    if op.MmapOp? {
      answer := StepMmap(memory, op.args);
    } else if op.BrkOp? {
      answer := StepBrk(memory, op.requested);
    } else if op.MunmapOp? || op.MprotectOp? {
      answer := StepPages(memory, op);
    } else if op.WriteOp? {
      answer := StepWrite(memory, op.address, op.bytes);
    } else {
      answer := StepStore(memory, op);
    }
  }

  method StepWrite(memory: GuestMemory, address: U64, bytes: seq<Byte>) returns (answer: Answer)
    requires memory.Valid()
    modifies memory, memory.host
    ensures memory.Valid() && !Ends(answer)
    ensures Isolated(memory.member, old(memory.host.owners), old(memory.host.bytes), memory.host.owners,
                     memory.host.bytes)
    ensures FlatEffect(WriteOp(address, bytes), old(PictureOf(memory)), answer, PictureOf(memory))
  {
    hide Inv, View, Framed, Quiet, Isolated, Private, Stale, Overlay, AllocationsDisjoint, HeapMappedEnd, SingleHeap;
    hide Undercut, Extents, Unshared;
    hide Accessible, FirstFault, HostStore.Valid, Fault;
    var refusals := memory.host.refusals;
    ghost var before := memory.State();
    ghost var p := PictureOf(memory);
    var r;
    ghost var written;
    r, written := memory.Write(address, bytes);
    assert WritesPrefix(View(before), memory.Memory(), address, bytes, written);
    assert r.Err? ==> StopsAt(View(before), memory.Memory(), address, bytes, written, r.error);
    answer := if r.Ok? then Done(0) else Refused(r.error, memory.host.refusals != refusals);
    FramedKeeps(WriteOp(address, bytes), before, memory.State(), p, PictureOf(memory));
  }

  /** Calls that never end a member: those that store bytes in one VMA. */
  method StepStore(memory: GuestMemory, op: Op) returns (answer: Answer)
    requires memory.Valid() && (op.SliceOp? || op.PatchOp?)
    modifies memory, memory.host
    ensures memory.Valid() && !Ends(answer)
    ensures Isolated(memory.member, old(memory.host.owners), old(memory.host.bytes), memory.host.owners,
                     memory.host.bytes)
    ensures FlatEffect(op, old(PictureOf(memory)), answer, PictureOf(memory))
  {
    hide Inv, View, Framed, Quiet, Isolated, Private, Stale, Overlay, AllocationsDisjoint, HeapMappedEnd, SingleHeap;
    hide Undercut, Extents;
    hide Accessible, FirstFault, HostStore.Valid, Fault, InOneVma;
    var refusals := memory.host.refusals;
    ghost var before := memory.State();
    ghost var p := PictureOf(memory);
    var r: Outcome<()>;
    match op {
      case SliceOp(address, bytes) =>
        var filled := memory.FillSlice(address, bytes);
        assert bytes[..|bytes|] == bytes;
        r := if filled == Ok(true) then Ok(()) else Err(if filled.Err? then filled.error else InvalidLength);
      case PatchOp(address, bytes) =>
        var replaced := memory.PatchCode(address, bytes);
        r := if replaced.Ok? then Ok(()) else Err(replaced.error);
    }
    answer := if r.Ok? then Done(0) else Refused(r.error, memory.host.refusals != refusals);
    FramedKeeps(op, before, memory.State(), p, PictureOf(memory));
  }

  /** Calls that never end a member: those that change mappings page by page. */
  method StepPages(memory: GuestMemory, op: Op) returns (answer: Answer)
    requires memory.Valid() && (op.MunmapOp? || op.MprotectOp?)
    modifies memory, memory.host
    ensures memory.Valid() && !Ends(answer)
    ensures Isolated(memory.member, old(memory.host.owners), old(memory.host.bytes), memory.host.owners,
                     memory.host.bytes)
    ensures FlatEffect(op, old(PictureOf(memory)), answer, PictureOf(memory))
  {
    hide Inv, View, Framed, Quiet, Isolated, Private, Stale, AllocationsDisjoint, HeapMappedEnd, SingleHeap;
    hide Undercut, Extents, Unmap, Reprotect, FullyMerged, HostStore.Valid, AllMapped, CheckedPageRange;
    hide Protecting, Allows;
    var refusals := memory.host.refusals;
    ghost var before := memory.State();
    ghost var p := PictureOf(memory);
    var r: Outcome<()>;
    match op {
      case MunmapOp(address, length) => r := memory.Munmap(address, length);
      case MprotectOp(address, length, prot) => r := memory.Mprotect(address, length, prot);
    }
    answer := if r.Ok? then Done(0) else Refused(r.error, memory.host.refusals != refusals);
    FramedKeeps(op, before, memory.State(), p, PictureOf(memory));
  }

  lemma FramedKeeps(op: Op, s: State, t: State, p: Picture, q: Picture)
    requires Framed(s, t) && Stale(t) <= Stale(s) && p.stale == Stale(s) && q.stale == Stale(t)
    requires (p.private <==> Private(s)) && (q.private <==> Private(t)) && q.layout == p.layout && q.brk == p.brk
    requires op.MunmapOp? ==> q.extents <= p.extents
    ensures Keeps(op, p, q) && q.stale <= p.stale && Isolated(s.member, s.owners, s.bytes, t.owners, t.bytes)
  {
    hide Inv, Private, Stale, Isolated;
  }

  method StepMmap(memory: GuestMemory, args: MmapArgs) returns (answer: Answer)
    requires memory.Valid()
    modifies memory, memory.host
    ensures memory.host.Valid()
    ensures Isolated(memory.member, old(memory.host.owners), old(memory.host.bytes), memory.host.owners,
                     memory.host.bytes)
    ensures !Ends(answer) ==> memory.Valid()
    ensures FlatEffect(MmapOp(args), old(PictureOf(memory)), answer, PictureOf(memory))
  {
    hide Inv, View, Framed, Quiet, Isolated, Private, Stale, FirstFit, FitsAt, Alike, MapZero, Unmap;
    hide AllocationsDisjoint, HeapMappedEnd, SingleHeap, Undercut, Extents, HostStore.Valid;
    hide MmapFits, MmapRefusal, MmapOverflows, Allows, MmapArgs.Request, MmapArgs.SearchFrom, MmapArgs.IsFixed;
    hide MmapArgs.IsFixedNoReplace;
    var refusals := memory.host.refusals;
    ghost var before := memory.State();
    ghost var p := PictureOf(memory);
    var r := memory.Mmap(args);
    if r == Err(RestoreFailure) {
      return Lost;
    }
    if Private(before) {
      FramedPrivate(before, memory.State());
    }
    if r.Err? {
      return Refused(r.error, memory.host.refusals != refusals);
    }
    answer := Done(r.value);
    PlaceIsFit(before, r.value, args.Request().value.length);
    if !args.Pinned() && memory.mode.Flexible? {
      LowestPlaceOf(before, p, args.SearchFrom(memory.mmapBase).value, args.Request().value.length, r);
    }
    assert Maps(p, args, r.value, memory.Memory());
  }

  lemma LowestPlaceOf(s: State, p: Picture, hint: nat, length: nat, r: Outcome<U64>)
    requires Inv(s) && p.flat == View(s) && p.layout.spaceEnd == s.spaceEnd && 0 < length
    requires r.Ok? && FirstFit(s.vmas, s.spaceEnd, hint, length, r)
    ensures LowestPlace(p, hint, r.value, length)
  {
    hide Inv, View, FitsAt, HasPlace;
    PlaceIsFit(s, r.value, length);
    forall c: nat | hint <= c < r.value
      ensures !HasPlace(p.flat, p.layout.spaceEnd, c, length)
    {
      PlaceIsFit(s, c, length);
    }
  }

  method StepBrk(memory: GuestMemory, requested: U64) returns (answer: Answer)
    requires memory.Valid()
    modifies memory, memory.host
    ensures memory.host.Valid()
    ensures Isolated(memory.member, old(memory.host.owners), old(memory.host.bytes), memory.host.owners,
                     memory.host.bytes)
    ensures !Ends(answer) ==> memory.Valid()
    ensures FlatEffect(BrkOp(requested), old(PictureOf(memory)), answer, PictureOf(memory))
  {
    hide Inv, View, Framed, Quiet, Isolated, Private, Stale, HeapMappedEnd, GrowthBlocked, GrowSafe, SingleHeap;
    hide Alike, GrowHeap, ShrinkHeap, AllocationsDisjoint, HeapIs, HeapFits, Undercut, Extents, AtRisk;
    hide HostStore.Valid, Allows, BrkRefusal, HostAllocationRange, AlignUp;
    var refusals := memory.host.refusals;
    ghost var before := memory.State();
    ghost var p := PictureOf(memory);
    var breaks := BreaksHeap(memory.vmas, memory.brkBase, memory.addressSpaceEnd, requested);
    if breaks && SingleHeap(before.vmas, memory.brkBase) {
      SingleHeapIsSafe(before, AlignUp(requested).value);
    }
    var current, error := memory.SetBrk(requested);
    if error == Some(RestoreFailure) {
      return Lost;
    }
    if error.Some? {
      QuietIsFramed(before, memory.State());
      if Private(before) {
        FramedPrivate(before, memory.State());
      }
      return Refused(error.value, memory.host.refusals != refusals);
    }
    if breaks {
      return HeapBroken;
    }
    answer := Done(current);
    if requested != 0 {
      MovedPrivate(before, memory.State(), AlignUp(requested).value);
      if SingleHeap(before.vmas, memory.brkBase) {
        SingleHeapEnd(memory.State(), AlignUp(requested).value);
      }
    }
    assert MovesBreak(p, requested, current, PictureOf(memory));
  }

  // Families

  /** Members of one host store, numbered by position, who between them hold every reference there is. */
  ghost predicate FamilyOk(host: HostStore, members: seq<GuestMemory>, ended: set<nat>)
    reads host, members
  {
    && host.Valid()
    && (forall i :: 0 <= i < |members| ==> members[i].host == host && members[i].member == i)
    && (forall i :: 0 <= i < |members| && i !in ended ==> members[i].Valid())
    && (forall i :: i in ended ==> i < |members|)
    && (forall h: nat, m: nat, i: nat :: HeldBy(host.owners, h, m, i) ==> m < |members|)
  }

  /** The pictures of all members, and which of them have ended. */
  datatype Scene = Scene(pictures: seq<Picture>, ended: set<nat>)

  ghost function PicturesOf(host: HostStore, members: seq<GuestMemory>): (pictures: seq<Picture>)
    requires forall i :: 0 <= i < |members| ==> members[i].host == host
    reads host, members
    ensures |pictures| == |members| && forall i :: 0 <= i < |members| ==> pictures[i] == PictureOf(members[i])
  {
    if members == [] then []
    else PicturesOf(host, members[..|members| - 1]) + [PictureOf(members[|members| - 1])]
  }

  ghost predicate Shows(host: HostStore, members: seq<GuestMemory>, scene: Scene)
    reads host, members
  {
    && |scene.pictures| == |members|
    && forall i :: 0 <= i < |members| && i !in scene.ended ==>
         members[i].host == host && PictureOf(members[i]) == scene.pictures[i] && Coherent(scene.pictures[i])
  }

  /** The same picture; a member may only come to share less. */
  ghost predicate Unchanged(p: Picture, q: Picture) {
    q == p.(private := q.private) && (p.private ==> q.private)
  }

  ghost predicate OthersUnchanged(p: seq<Picture>, t: nat, q: seq<Picture>) {
    |p| <= |q| && forall j :: 0 <= j < |p| && j != t ==> Unchanged(p[j], q[j])
  }

  /** A clone: the source's picture at the new place, and a source that shares nothing if nothing was shared. */
  ghost predicate ClonesAs(p: Picture, mode: HostAddressMode, shared: bool, q: Picture, clone: Picture) {
    && q == p.(private := q.private)
    && clone == p.(layout := p.layout.(mode := mode), private := clone.private)
    && (p.private && !shared ==> q.private && clone.private)
  }

  /** One call on a family of independent flat memories. */
  ghost predicate FlatStep(p: Scene, call: Call, answer: Answer, q: Scene) {
    var t := call.target;
    if t >= |p.pictures| || t in p.ended then answer == NoMember && q == p
    else
      && OthersUnchanged(p.pictures, t, q.pictures)
      && if call.op.CloneOp? then
           && q.ended == p.ended && (answer.Cloned? || answer == Refused(HostFailure, true))
           && |q.pictures| == |p.pictures| + (if answer.Cloned? then 1 else 0)
           && (answer.Cloned? ==>
                 && (answer.shared ==> call.op.allowSharing)
                 && ClonesAs(p.pictures[t], call.op.cloneMode, answer.shared, q.pictures[t], q.pictures[|p.pictures|]))
           && (answer.Refused? ==> Unchanged(p.pictures[t], q.pictures[t]))
         else
           && |q.pictures| == |p.pictures| && q.ended == p.ended + (if Ends(answer) then {t} else {})
           && FlatEffect(call.op, p.pictures[t], answer, q.pictures[t])
  }

  ghost predicate FlatRun(trace: seq<Scene>, calls: seq<Call>, answers: seq<Answer>) {
    && |trace| == |calls| + 1 && |answers| == |calls|
    && forall n :: 0 <= n < |calls| ==> FlatStep(trace[n], calls[n], answers[n], trace[n + 1])
  }

  lemma RunStarts(scene: Scene, calls: seq<Call>)
    ensures FlatRun([scene], calls[..0], [])
  {
  }

  lemma RunExtends(trace: seq<Scene>, calls: seq<Call>, answers: seq<Answer>, n: nat, answer: Answer, next: Scene)
    requires n < |calls| && |trace| == n + 1 && FlatRun(trace, calls[..n], answers)
    requires FlatStep(trace[n], calls[n], answer, next)
    ensures FlatRun(trace + [next], calls[..n + 1], answers + [answer])
  {
    hide FlatStep;
    var longer := trace + [next];
    forall m | 0 <= m < n + 1
      ensures FlatStep(longer[m], calls[..n + 1][m], (answers + [answer])[m], longer[m + 1])
    {
      if m < n {
        assert FlatStep(trace[m], calls[..n][m], answers[m], trace[m + 1]);
      }
    }
  }

  // What every flat run has in common

  /** In every run a member that is at most cloned keeps its picture, whatever becomes of the others. */
  lemma {:induction false} UntouchedMember(trace: seq<Scene>, calls: seq<Call>, answers: seq<Answer>, j: nat)
    requires FlatRun(trace, calls, answers) && j < |trace[0].pictures|
    requires forall n :: 0 <= n < |calls| ==> calls[n].op.CloneOp? || calls[n].target != j
    ensures j < |trace[|calls|].pictures| && (j in trace[|calls|].ended <==> j in trace[0].ended)
    ensures var p, q := trace[0].pictures[j], trace[|calls|].pictures[j]; q == p.(private := q.private)
    decreases |calls|
  {
    hide FlatEffect;
    if calls != [] {
      var m := |calls| - 1;
      UntouchedMember(trace[..|calls|], calls[..m], answers[..m], j);
      assert FlatStep(trace[m], calls[m], answers[m], trace[m + 1]);
    }
  }

  /** No clone of the member shares a buffer with it. */
  ghost predicate NeverShares(calls: seq<Call>, answers: seq<Answer>, j: nat)
    requires |answers| == |calls|
  {
    forall n :: 0 <= n < |calls| && calls[n].target == j ==> answers[n] != Cloned(true)
  }

  /** A member that starts without sharing and never shares stays private, whatever the others do. */
  lemma {:induction false} StaysPrivate(trace: seq<Scene>, calls: seq<Call>, answers: seq<Answer>, j: nat, n: nat)
    requires FlatRun(trace, calls, answers) && NeverShares(calls, answers, j) && n <= |calls|
    requires j < |trace[0].pictures| && trace[0].pictures[j].private && j !in trace[n].ended
    ensures j < |trace[n].pictures| && trace[n].pictures[j].private && (n > 0 ==> j !in trace[n - 1].ended)
  {
    hide Effect, RefusedEffect;
    if n > 0 {
      assert FlatStep(trace[n - 1], calls[n - 1], answers[n - 1], trace[n]);
      StaysPrivate(trace, calls, answers, j, n - 1);
    }
  }

  /** The flat memory after a call that succeeded with that value. */
  ghost function Result(op: Op, p: Picture, value: nat): FlatMap {
    match op
    case CloneOp(_, _) => p.flat
    case WriteOp(address, bytes) => Overlay(p.flat, address, bytes)
    case SliceOp(address, bytes) => Overlay(p.flat, address, bytes)
    case PatchOp(address, bytes) => Overlay(p.flat, address, bytes)
    case MmapOp(args) =>
      if args.Request().Err? then p.flat
      else
        var request := args.Request().value;
        MapZero(p.flat, value, value + request.length, request.protection, request.kind)
    case MunmapOp(address, length) =>
      var end := CheckedPageRange(address, length);
      if end.Err? then p.flat else Unmap(p.flat, address, end.value)
    case MprotectOp(address, length, prot) =>
      var end := CheckedPageRange(address, length);
      if end.Err? then p.flat else Reprotect(p.flat, address, end.value, Protecting(prot as nat))
    case BrkOp(requested) =>
      var end := AlignUp(requested);
      if requested == 0 || end.Err? || end.value == p.heapEnd then p.flat
      else if end.value < p.heapEnd then ShrinkHeap(p.flat, end.value)
      else GrowHeap(p.flat, p.layout.base, end.value)
  }

  /** On a private member every successful call gives exactly the flat result, in every byte. */
  lemma PrivateIsExact(op: Op, p: Picture, value: nat, q: Picture)
    requires p.private && Coherent(p) && Effect(op, p, value, q)
    ensures q.flat == Result(op, p, value)
  {
    hide Overlay, MapZero, Unmap, Reprotect, ShrinkHeap, GrowHeap, Alike, Accessible, HeapIs, LowestPlace;
    hide StalesInHull, FirstPieceEnds, Free;
    match op {
      case MmapOp(args) =>
        AlikeExactly(Result(op, p, value), q.flat);
      case BrkOp(requested) =>
        if requested != 0 && p.heapEnd < AlignUp(requested).value {
          AlikeExactly(Result(op, p, value), q.flat);
        }
      case WriteOp(_, bytes) => assert bytes[..|bytes|] == bytes;
      case SliceOp(_, bytes) => assert bytes[..|bytes|] == bytes;
      case _ =>
    }
  }

  /** Byte for byte: a run of a member that never shares is a run of the flat memory. */
  lemma UnsharedRunIsExact(trace: seq<Scene>, calls: seq<Call>, answers: seq<Answer>, j: nat, n: nat)
    requires FlatRun(trace, calls, answers) && NeverShares(calls, answers, j) && n < |calls|
    requires j < |trace[0].pictures| && trace[0].pictures[j].private && j !in trace[n].ended
    requires calls[n].target == j && answers[n].Done? && j < |trace[n].pictures| && Coherent(trace[n].pictures[j])
    ensures trace[n + 1].pictures[j].flat == Result(calls[n].op, trace[n].pictures[j], answers[n].value)
  {
    StaysPrivate(trace, calls, answers, j, n);
    assert FlatStep(trace[n], calls[n], answers[n], trace[n + 1]);
    hide Effect, Coherent;
    PrivateIsExact(calls[n].op, trace[n].pictures[j], answers[n].value, trace[n + 1].pictures[j]);
  }

  // Families of objects

  lemma HoldersKept(actor: nat, count: nat, o: Owners, b: HostBytes, o': Owners, b': HostBytes)
    requires Spares(actor, o, b, o', b') && actor < count
    requires forall h: nat, m: nat, i: nat :: HeldBy(o, h, m, i) ==> m < count
    ensures forall h: nat, m: nat, i: nat :: HeldBy(o', h, m, i) ==> m < count
  {
  }

  /** A member another member's step did not concern. */
  lemma OtherPicture(memory: GuestMemory, was: State, p: Picture, actor: nat)
    requires Inv(was) && actor != was.member
             && memory.State() == was.(bytes := memory.host.bytes, owners := memory.host.owners)
    requires Spares(actor, was.owners, was.bytes, memory.host.owners, memory.host.bytes)
    requires p.flat == View(was) && p.stale == Stale(was) && (p.private <==> Private(was))
    requires (forall e: nat :: e in p.undercut <==> Undercut(was, e)) && p.extents == Extents(was)
    requires p == PictureOf(memory).(flat := p.flat, stale := p.stale, undercut := p.undercut, extents := p.extents,
                                     private := p.private)
    requires Unshared(was) ==> Unshared(memory.State())
    ensures Inv(memory.State()) && Unchanged(p, PictureOf(memory))
  {
    hide Inv, View, Stale, AllocationsDisjoint, Unshared, Spares, Undercut, Extents, SameContents;
    OthersUntouched(was, actor, memory.host.bytes, memory.host.owners);
    forall e: nat
      ensures Undercut(was, e) <==> Undercut(memory.State(), e)
    {
      UndercutKept(was, memory.State(), e);
    }
  }

  /** A call on a member of a family: the family goes on, and every other member's picture stays as it was. */
  method CallMember(host: HostStore, members: seq<GuestMemory>, ended: set<nat>, t: nat, op: Op)
    returns (answer: Answer)
    requires FamilyOk(host, members, ended) && t < |members| && t !in ended && !op.CloneOp?
    modifies members[t], host
    ensures FamilyOk(host, members, if Ends(answer) then ended + {t} else ended)
    ensures FlatEffect(op, old(PictureOf(members[t])), answer, PictureOf(members[t]))
    ensures forall j :: 0 <= j < |members| && j != t && j !in ended ==>
              Unchanged(old(PictureOf(members[j])), PictureOf(members[j]))
  {
    hide Inv, View, Spares, Reserved, HostStore.Valid, FlatEffect, Stale, AllocationsDisjoint, Unshared, HeapMappedEnd;
    hide SingleHeap, Unchanged, Undercut, Extents;
    answer := Step(members[t], op);
    forall j | 0 <= j < |members| && j != t && j !in ended
      ensures members[j].Valid() && Unchanged(old(PictureOf(members[j])), PictureOf(members[j]))
    {
      assert members[j] != members[t];
      ghost var was := old(members[j].State());
      if Unshared(was) {
        OthersStayUnshared(was, t, host.bytes, host.owners);
      }
      assert members[j].State() == was.(bytes := host.bytes, owners := host.owners);
      OtherPicture(members[j], was, old(PictureOf(members[j])), t);
    }
    HoldersKept(t, |members|, old(host.owners), old(host.bytes), host.owners, host.bytes);
  }

  /** A clone joins the family showing what its source shows; everyone else stays as they were. */
  method CloneMember(host: HostStore, members: seq<GuestMemory>, ended: set<nat>, t: nat, op: Op)
    returns (r: Outcome<GuestMemory>, answer: Answer)
    requires FamilyOk(host, members, ended) && t < |members| && t !in ended && op.CloneOp?
    modifies host
    ensures r.Err? ==> FamilyOk(host, members, ended) && answer == Refused(HostFailure, true)
                       && Unchanged(old(PictureOf(members[t])), PictureOf(members[t]))
    ensures r.Ok? ==> && fresh(r.value) && FamilyOk(host, members + [r.value], ended)
                      && answer.Cloned? && (answer.shared ==> op.allowSharing)
                      && ClonesAs(old(PictureOf(members[t])), op.cloneMode, answer.shared, PictureOf(members[t]),
                                  PictureOf(r.value))
    ensures forall j :: 0 <= j < |members| && j != t && j !in ended ==>
              Unchanged(old(PictureOf(members[j])), PictureOf(members[j]))
  {
    hide Inv, View, Spares, HostStore.Valid, Stale, AllocationsDisjoint, Unshared, HeapMappedEnd, SingleHeap, Unchanged;
    hide Owned, Undercut, Extents, SameContents, Reserved, EverWritable, GuestMemory.ReadOnlyShareable;
    var source := members[t];
    answer := Cloned(source.Shares(op.allowSharing));
    assert answer.shared ==> op.allowSharing;
    hide GuestMemory.Shares;
    assert Owned(|members|, map[], host.owners) by { NobodyThere(|members|, host.owners); }
    r := source.TryClone(op.allowSharing, op.cloneMode, |members|);
    forall j | 0 <= j < |members| && j != t && j !in ended
      ensures members[j].Valid() && Unchanged(old(PictureOf(members[j])), PictureOf(members[j]))
    {
      ghost var was := old(members[j].State());
      if Unshared(was) {
        var copies := if r.Ok? then r.value.allocations else map[];
        assert r.Ok? ==> Owned(|members|, copies, host.owners) by {
          if r.Ok? {
            InvOwned(r.value.State());
          }
        }
        ClonesStayApart(was, old(source.State()), |members|, copies, host.bytes, host.owners);
      }
      assert members[j].State() == was.(bytes := host.bytes, owners := host.owners);
      OtherPicture(members[j], was, old(PictureOf(members[j])), |members|);
    }
    HoldersExtended(|members|, old(host.owners), old(host.bytes), host.owners, host.bytes);
    if r.Ok? {
      UndercutSame(old(source.State()), source.State());
      UndercutSame(old(source.State()), r.value.State());
    }
    if r.Err? {
      answer := Refused(HostFailure, true);
      ghost var was := old(source.State());
      if Unshared(was) {
        NothingTaken(|members|, old(host.owners), host.owners);
        OthersStayUnshared(was, |members|, host.bytes, host.owners);
      }
      OtherPicture(source, was, old(PictureOf(source)), |members|);
    }
  }

  lemma UndercutSame(s: State, t: State)
    requires SameContents(s.allocations, s.bytes, t.allocations, t.bytes) && t.vmas == s.vmas
             && t.heapBase == s.heapBase
    ensures forall e: nat :: Undercut(s, e) <==> Undercut(t, e)
  {
    hide Undercut, SameContents;
    forall e: nat
      ensures Undercut(s, e) <==> Undercut(t, e)
    {
      UndercutKept(s, t, e);
    }
  }

  lemma NobodyThere(count: nat, owners: Owners)
    requires forall h: nat, m: nat, i: nat :: HeldBy(owners, h, m, i) ==> m < count
    ensures Owned(count, map[], owners)
  {
  }

  lemma NothingTaken(member: nat, owners: Owners, owners': Owners)
    requires Owned(member, map[], owners')
    ensures Reserved(member, owners, owners')
  {
  }

  lemma InvOwned(s: State)
    requires Inv(s)
    ensures Owned(s.member, s.allocations, s.owners)
  {
  }

  lemma HoldersExtended(count: nat, o: Owners, b: HostBytes, o': Owners, b': HostBytes)
    requires Spares(count, o, b, o', b')
    requires forall h: nat, m: nat, i: nat :: HeldBy(o, h, m, i) ==> m < count
    ensures forall h: nat, m: nat, i: nat :: HeldBy(o', h, m, i) ==> m < count + 1
    ensures Owned(count, map[], o') ==> forall h: nat, m: nat, i: nat :: HeldBy(o', h, m, i) ==> m < count
  {
  }

  /** The pictures now, with those of ended members left as they were. */
  ghost function Retouched(p: Scene, now: seq<Picture>): (r: seq<Picture>)
    ensures |r| == |now|
    ensures forall i :: 0 <= i < |now| ==> r[i] == if i in p.ended && i < |p.pictures| then p.pictures[i] else now[i]
  {
    seq(|now|, i requires 0 <= i < |now| => if i in p.ended && i < |p.pictures| then p.pictures[i] else now[i])
  }

  lemma CallIsStep(p: Scene, call: Call, answer: Answer, now: seq<Picture>)
    requires call.target < |p.pictures| == |now| && call.target !in p.ended && !call.op.CloneOp?
    requires forall j :: 0 <= j < |now| && j != call.target && j !in p.ended ==> Unchanged(p.pictures[j], now[j])
    requires FlatEffect(call.op, p.pictures[call.target], answer, now[call.target])
    ensures FlatStep(p, call, answer, Scene(Retouched(p, now), p.ended + (if Ends(answer) then {call.target} else {})))
  {
    hide FlatEffect, Retouched;
  }

  lemma CloneIsStep(p: Scene, call: Call, answer: Answer, now: seq<Picture>)
    requires call.target < |p.pictures| <= |now| && call.target !in p.ended && call.op.CloneOp?
    requires forall j :: 0 <= j < |p.pictures| && j != call.target && j !in p.ended ==> Unchanged(p.pictures[j], now[j])
    requires forall j :: j in p.ended ==> j < |p.pictures|
    requires if answer.Cloned? then
               && |now| == |p.pictures| + 1 && (answer.shared ==> call.op.allowSharing)
               && ClonesAs(p.pictures[call.target], call.op.cloneMode, answer.shared, now[call.target],
                           now[|p.pictures|])
             else answer == Refused(HostFailure, true) && |now| == |p.pictures|
                  && Unchanged(p.pictures[call.target], now[call.target])
    ensures FlatStep(p, call, answer, Scene(Retouched(p, now), p.ended))
  {
    hide Retouched, ClonesAs;
  }

  lemma RetouchedShows(host: HostStore, members: seq<GuestMemory>, p: Scene, ended: set<nat>)
    requires FamilyOk(host, members, ended) && p.ended <= ended
    ensures Shows(host, members, Scene(Retouched(p, PicturesOf(host, members)), ended))
  {
    hide Coherent, PictureOf, HostStore.Valid, HeldBy, Retouched;
    forall i | 0 <= i < |members| && i !in ended
      ensures Coherent(PictureOf(members[i]))
    {
      PicturesCohere(members[i]);
    }
  }

  method PerformCall(host: HostStore, members: seq<GuestMemory>, ended: set<nat>, call: Call, ghost p: Scene)
    returns (answer: Answer, ghost q: Scene)
    requires FamilyOk(host, members, ended) && Shows(host, members, p) && ended == p.ended
    requires call.target < |members| && call.target !in ended && !call.op.CloneOp?
    modifies host, members
    ensures FamilyOk(host, members, q.ended) && Shows(host, members, q) && FlatStep(p, call, answer, q)
  {
    hide GuestMemory.Valid, HostStore.Valid, HeldBy, FlatEffect, Coherent, PictureOf, Unchanged, FlatStep, Retouched;
    answer := CallMember(host, members, ended, call.target, call.op);
    ghost var now := PicturesOf(host, members);
    CallIsStep(p, call, answer, now);
    q := Scene(Retouched(p, now), p.ended + (if Ends(answer) then {call.target} else {}));
    RetouchedShows(host, members, p, q.ended);
  }

  method PerformClone(host: HostStore, members: seq<GuestMemory>, ended: set<nat>, call: Call, ghost p: Scene)
    returns (after: seq<GuestMemory>, answer: Answer, ghost q: Scene)
    requires FamilyOk(host, members, ended) && Shows(host, members, p) && ended == p.ended
    requires call.target < |members| && call.target !in ended && call.op.CloneOp?
    modifies host
    ensures members <= after && forall i :: 0 <= i < |after| ==> after[i] in members || fresh(after[i])
    ensures FamilyOk(host, after, q.ended) && Shows(host, after, q) && FlatStep(p, call, answer, q)
  {
    hide GuestMemory.Valid, HostStore.Valid, HeldBy, Coherent, PictureOf, Unchanged, ClonesAs, FlatStep, Retouched;
    hide Shows;
    ShownPictures(host, members, p);
    var clone;
    clone, answer := CloneMember(host, members, ended, call.target, call.op);
    after := members;
    if clone.Ok? {
      after := members + [clone.value];
    }
    ghost var now := PicturesOf(host, after);
    assert forall i :: 0 <= i < |members| ==> now[i] == PictureOf(members[i]);
    CloneIsStep(p, call, answer, now);
    q := Scene(Retouched(p, now), p.ended);
    RetouchedShows(host, after, p, p.ended);
  }

  lemma ShownPictures(host: HostStore, members: seq<GuestMemory>, p: Scene)
    requires Shows(host, members, p)
    ensures |p.pictures| == |members|
    ensures forall i :: 0 <= i < |members| && i !in p.ended ==>
              members[i].host == host && p.pictures[i] == PictureOf(members[i])
  {
  }

  /** One call of a run: a step of the flat family. */
  method Perform(host: HostStore, members: seq<GuestMemory>, ended: set<nat>, call: Call, ghost p: Scene)
    returns (after: seq<GuestMemory>, answer: Answer, ghost q: Scene)
    requires FamilyOk(host, members, ended) && Shows(host, members, p) && ended == p.ended
    modifies host, members
    ensures members <= after && forall i :: 0 <= i < |after| ==> after[i] in members || fresh(after[i])
    ensures FamilyOk(host, after, q.ended) && Shows(host, after, q) && FlatStep(p, call, answer, q)
  {
    hide FamilyOk, Coherent, PictureOf, FlatStep;
    after := members;
    if call.target >= |members| || call.target in ended {
      NobodyCalled(p, call);
      return members, NoMember, p;
    }
    if call.op.CloneOp? {
      after, answer, q := PerformClone(host, members, ended, call, p);
    } else {
      answer, q := PerformCall(host, members, ended, call, p);
    }
  }

  lemma NobodyCalled(p: Scene, call: Call)
    requires call.target >= |p.pictures| || call.target in p.ended
    ensures FlatStep(p, call, NoMember, p)
  {
  }

  /**
   Carries a family through all the calls. The trace of its pictures is a run of independent flat memories; a member
   that a call ends takes no further calls, and the others go on.
   */
  method Run(host: HostStore, initial: seq<GuestMemory>, calls: seq<Call>)
    returns (members: seq<GuestMemory>, answers: seq<Answer>, ghost trace: seq<Scene>)
    requires FamilyOk(host, initial, {})
    modifies host, initial
    ensures FlatRun(trace, calls, answers)
    ensures initial <= members && trace[0].ended == {} && |trace[0].pictures| == |initial|
    ensures forall i :: 0 <= i < |initial| ==> trace[0].pictures[i] == old(PictureOf(initial[i]))
    ensures forall n, j :: 0 <= n < |trace| && 0 <= j < |trace[n].pictures| && j !in trace[n].ended ==>
            Coherent(trace[n].pictures[j])
    ensures FamilyOk(host, members, trace[|calls|].ended) && Shows(host, members, trace[|calls|])
  {
    hide Inv, View, HostStore.Valid, HeldBy, FlatRun, FlatStep, Coherent, HeapMappedEnd, SingleHeap, Private, Stale;
    hide AllocationsDisjoint;
    ghost var scene := Scene(PicturesOf(host, initial), {});
    forall i | 0 <= i < |initial|
      ensures Coherent(PictureOf(initial[i]))
    {
      PicturesCohere(initial[i]);
    }
    members, answers, trace := initial, [], [scene];
    var ended: set<nat> := {};
    RunStarts(scene, calls);
    for done := 0 to |calls|
      invariant FlatRun(trace, calls[..done], answers) && |trace| == done + 1 && trace[0] == scene
                && trace[done].ended == ended
      invariant initial <= members && forall i :: 0 <= i < |members| ==> members[i] in initial || fresh(members[i])
      invariant FamilyOk(host, members, ended) && Shows(host, members, trace[done])
      invariant forall n, j :: 0 <= n <= done && 0 <= j < |trace[n].pictures| && j !in trace[n].ended ==>
                Coherent(trace[n].pictures[j])
    {
      var answer;
      ghost var next;
      members, answer, next := Perform(host, members, ended, calls[done], trace[done]);
      StepEnds(trace[done], calls[done], answer, next);
      RunExtends(trace, calls, answers, done, answer, next);
      if Ends(answer) {
        ended := ended + {calls[done].target};
      }
      answers, trace := answers + [answer], trace + [next];
    }
    assert calls[..|calls|] == calls;
  }

  lemma StepEnds(p: Scene, call: Call, answer: Answer, q: Scene)
    requires FlatStep(p, call, answer, q)
    ensures q.ended == p.ended + (if Ends(answer) then {call.target} else {})
  {
    hide FlatEffect, OthersUnchanged, ClonesAs;
  }
}
