/**
 Creating a guest's memory from a program image (`GuestMemory::from_image` in crates/mcr-memory/src/lib.rs),
 and what the guest then reads, back to the bytes of the ELF file.
 */
module ImageLoading {
  import opened Ranges
  import opened Bytes
  import opened FlatMemory
  import opened Backing
  import opened HostMemory
  import opened GuestMemories
  import V = Vmas
  import S = GuestState
  import M = Merging
  import E = ElfImages
  import Plans = ElfPlans
  import Parser = ElfParser
  import Files = ElfFiles
  import Stacks = InitialStacks

  const DEFAULT_MMAP_BASE: U64 := 0x7000_0000_0000
  const GUEST_ADDRESS_SPACE_END: U64 := 0x8000_0000_0000

  /** The layouts a guest memory is created for. */
  predicate LayoutOk(brk: U64, mmapBase: U64, spaceEnd: U64) {
    && IsPageAligned(brk) && IsPageAligned(mmapBase) && IsPageAligned(spaceEnd)
    && MIN_GUEST_ADDRESS <= brk && MIN_GUEST_ADDRESS <= mmapBase && MIN_GUEST_ADDRESS < spaceEnd
  }

  /** `member` is a name no buffer of the store is held under. */
  ghost predicate Newcomer(host: HostStore, member: nat)
    reads host
  {
    host.Valid() && Owned(member, map[], host.owners)
  }

  method WithLayout(host: HostStore, ghost member: nat, windowsHost: bool, brk: U64, mmapBase: U64, spaceEnd: U64)
    returns (r: Outcome<GuestMemory>)
    requires Newcomer(host, member)
    ensures r.Ok? <==> LayoutOk(brk, mmapBase, spaceEnd)
    ensures r.Err? ==> r.error == InvalidAddress
    ensures r.Ok? ==> fresh(r.value) && r.value.host == host && r.value.member == member
                      && r.value.addressSpaceEnd == spaceEnd
                                && r.value.Valid() && S.Private(r.value.State()) && r.value.Memory() == imap[]
                                && r.value.brkBase == r.value.currentBrk == brk
                                && r.value.mmapBase == mmapBase && r.value.mode.Flexible?
  {
    if !LayoutOk(brk, mmapBase, spaceEnd) {
      return Err(InvalidAddress);
    }
    var memory := new GuestMemory(host, member, windowsHost, Flexible, brk, brk, mmapBase, spaceEnd, map[], map[], 1);
    assert memory.Memory() == imap[];
    r := Ok(memory);
  }

  function ProtectionOf(p: Plans.Permissions): V.Protection {
    V.Protection(p.read, p.write, p.execute)
  }

  // What the guest sees of an image

  ghost predicate CellOf(flat: FlatMap, area: E.Area, region: E.Region, a: nat) {
    a in flat && 0 <= a - region.start < |region.bytes|
    && flat[a] == Cell(region.bytes[a - region.start], ProtectionOf(area.permissions), V.Anonymous)
  }

  /** Exactly the first n areas are mapped, with the bytes of their regions. */
  ghost predicate Shows(flat: FlatMap, areas: seq<E.Area>, regions: seq<E.Region>, n: nat) {
    && n <= |areas| && n <= |regions|
    && (forall i: nat, a: nat :: i < n && areas[i].start <= a < areas[i].end ==> CellOf(flat, areas[i], regions[i], a))
    && (forall a: nat :: a in flat ==> InSome(areas, n, a))
  }

  ghost predicate InSome(areas: seq<E.Area>, n: nat, a: nat)
    requires n <= |areas|
  {
    exists i: nat :: i < n && areas[i].start <= a < areas[i].end
  }

  lemma ShowsMore(flat: FlatMap, areas: seq<E.Area>, regions: seq<E.Region>, n: nat)
    requires E.Ordered(areas) && E.Paired(areas, regions) && n < |areas| && Shows(flat, areas, regions, n)
    ensures Shows(MapBytes(flat, areas[n].start, regions[n].bytes, ProtectionOf(areas[n].permissions), V.Anonymous),
                  areas, regions, n + 1)
  {
    var more := MapBytes(flat, areas[n].start, regions[n].bytes, ProtectionOf(areas[n].permissions), V.Anonymous);
    assert E.Spans(regions[n], areas[n]);
    forall i: nat, a: nat | i < n + 1 && areas[i].start <= a < areas[i].end
      ensures CellOf(more, areas[i], regions[i], a)
    {
      assert i < n ==> areas[i].end <= areas[n].start && CellOf(flat, areas[i], regions[i], a);
    }
    forall a: nat | a in more
      ensures InSome(areas, n + 1, a)
    {
      assert a in flat ==> InSome(areas, n, a);
      assert areas[n].start <= a < areas[n].end || a in flat;
    }
  }

  /** The image's own reader and the guest's memory agree. */
  lemma {:induction false} ReadsAgree(flat: FlatMap, areas: seq<E.Area>, regions: seq<E.Region>, address: nat,
                                      length: nat)
    requires E.Paired(areas, regions) && Shows(flat, areas, regions, |areas|) && E.Read(regions, address, length).Some?
    ensures Holds(flat, address, E.Read(regions, address, length).value)
  {
    var i := FirstRegion(regions, address, length);
    var data := E.Read(regions, address, length).value;
    assert E.Spans(regions[i], areas[i]);
    forall a: nat | address <= a < address + |data|
      ensures a in flat && flat[a].data == data[a - address]
    {
      assert CellOf(flat, areas[i], regions[i], a);
    }
  }

  /** Which region the image's reader takes. */
  lemma {:induction false} FirstRegion(regions: seq<E.Region>, address: nat, length: nat) returns (i: nat)
    requires E.Read(regions, address, length).Some?
    ensures i < |regions| && regions[i].start <= address && address + length <= regions[i].start + |regions[i].bytes|
    ensures E.Read(regions, address, length).value == regions[i].bytes[address - regions[i].start..][..length]
  {
    if regions[0].start <= address && address + length <= regions[0].start + |regions[0].bytes| {
      i := 0;
    } else {
      i := FirstRegion(regions[1..], address, length);
      i := i + 1;
    }
  }

  /** From the ELF file to the guest: a loaded program finds its segments and its stack. */
  lemma GuestFindsProgram(flat: FlatMap, image: E.Image, plan: Plans.LoadPlan,
                          interpreterPlan: Option<Plans.LoadPlan>, bytes: seq<Byte>, config: Stacks.StackConfig)
    requires E.ImageOf(image, plan, interpreterPlan, bytes, config)
    requires Shows(flat, image.areas, image.regions, |image.areas|)
    ensures forall s :: s in plan.segments ==>
              && s.fileOffset + s.fileSize <= |bytes| && s.fileSize <= s.memorySize
              && Holds(flat, image.loadBias + s.virtualAddress,
                       bytes[s.fileOffset..s.fileOffset + s.fileSize] + Zeros(s.memorySize - s.fileSize))
    ensures Holds(flat, image.stack.stackPointer, image.stack.bytes)
    ensures image.entrypoint in flat && flat[image.entrypoint].protection.execute
  {
    hide E.Ordered, E.Read, E.Highest, E.HasExactly, E.InAddressSpace, E.WantedAreas, Stacks.StackImage;
    forall s | s in plan.segments
      ensures s.fileOffset + s.fileSize <= |bytes| && s.fileSize <= s.memorySize
      ensures Holds(flat, image.loadBias + s.virtualAddress,
                    bytes[s.fileOffset..s.fileOffset + s.fileSize] + Zeros(s.memorySize - s.fileSize))
    {
      assert E.ReadsSegment(image.regions, s, image.loadBias, bytes);
      ReadsAgree(flat, image.areas, image.regions, image.loadBias + s.virtualAddress, s.memorySize);
    }
    StackFound(flat, image, config);
    var area :| area in image.areas && area.start <= image.entrypoint < area.end && area.permissions.execute;
    var i :| 0 <= i < |image.areas| && image.areas[i] == area;
    assert CellOf(flat, image.areas[i], image.regions[i], image.entrypoint);
  }

  /** Without a PT_PHDR header: what AT_PHDR points at in guest memory is the program header table of the file. */
  lemma GuestFindsHeaders(flat: FlatMap, image: E.Image, plan: Plans.LoadPlan,
                          interpreterPlan: Option<Plans.LoadPlan>, bytes: seq<Byte>, config: Stacks.StackConfig)
    requires E.ImageOf(image, plan, interpreterPlan, bytes, config)
    requires Shows(flat, image.areas, image.regions, |image.areas|)
    requires Parser.PlanOf(bytes, plan)
             && Parser.PhdrOf(bytes, Parser.ParseHeader(bytes).value, plan.programHeaders.entryCount, None)
    ensures var t := plan.programHeaders;
            && t.virtualAddress.Some? && t.fileOffset + t.entrySize * t.entryCount <= |bytes|
            && image.stack.auxv != []
               && image.stack.auxv[0] == Stacks.AuxEntry(Stacks.AT_PHDR, t.virtualAddress.value + image.loadBias)
            && Holds(flat, t.virtualAddress.value + image.loadBias,
                     bytes[t.fileOffset..t.fileOffset + t.entrySize * t.entryCount])
  {
    hide E.ImageOf, Shows, Holds, Parser.PlanOf, Parser.PhdrOf, Parser.ParseHeader;
    GuestFindsProgram(flat, image, plan, interpreterPlan, bytes, config);
    PhdrEntry(image, plan, interpreterPlan, bytes, config);
    Parser.WithoutPhdrInferred(bytes, plan);
    var t := plan.programHeaders;
    var i :| 0 <= i < |plan.segments| && Parser.TableIn(plan.segments[i], t, t.virtualAddress.value);
    var s := plan.segments[i];
    assert s in plan.segments;
    var size := t.entrySize * t.entryCount;
    var data := bytes[s.fileOffset..s.fileOffset + s.fileSize] + Zeros(s.memorySize - s.fileSize);
    var skip := t.fileOffset - s.fileOffset;
    PartHeld(flat, image.loadBias + s.virtualAddress, data, skip, size);
    SliceOfSlice(bytes, s.fileOffset, s.fileSize, Zeros(s.memorySize - s.fileSize), skip, size);
  }

  lemma SliceOfSlice(bytes: seq<Byte>, offset: nat, length: nat, more: seq<Byte>, skip: nat, size: nat)
    requires offset + length <= |bytes| && skip + size <= length
    ensures (bytes[offset..offset + length] + more)[skip..skip + size] == bytes[offset + skip..offset + skip + size]
  {
    var file := bytes[offset..offset + length];
    var left, right := (file + more)[skip..skip + size], bytes[offset + skip..offset + skip + size];
    forall k | 0 <= k < size
      ensures left[k] == right[k]
    {
      assert left[k] == (file + more)[skip + k] == file[skip + k] == bytes[offset + skip + k];
    }
    assert left == right;
  }

  lemma PhdrEntry(image: E.Image, plan: Plans.LoadPlan, interpreterPlan: Option<Plans.LoadPlan>, bytes: seq<Byte>,
                  config: Stacks.StackConfig)
    requires E.ImageOf(image, plan, interpreterPlan, bytes, config)
    ensures plan.programHeaders.virtualAddress.Some? && image.stack.auxv != []
    ensures image.stack.auxv[0] == Stacks.AuxEntry(Stacks.AT_PHDR,
                                                   plan.programHeaders.virtualAddress.value + image.loadBias)
  {
    hide E.Ordered, E.Paired, E.ReadsSegment, E.Read, Stacks.StackHolds, Stacks.WithoutOverlap, E.ExecutableAt;
    hide E.Highest;
  }

  lemma PartHeld(flat: FlatMap, address: nat, data: seq<Byte>, skip: nat, size: nat)
    requires Holds(flat, address, data) && skip + size <= |data|
    ensures Holds(flat, address + skip, data[skip..skip + size])
  {
  }

  lemma StackFound(flat: FlatMap, image: E.Image, config: Stacks.StackConfig)
    requires E.Paired(image.areas, image.regions) && Shows(flat, image.areas, image.regions, |image.areas|)
    requires config.stackSize <= config.stackTop && config.stackTop - config.stackSize <= image.stack.stackPointer
    requires E.Read(image.regions, config.stackTop - config.stackSize, config.stackSize)
             == Some(Zeros(image.stack.stackPointer - (config.stackTop - config.stackSize)) + image.stack.bytes)
    ensures Holds(flat, image.stack.stackPointer, image.stack.bytes)
  {
    var base := config.stackTop - config.stackSize;
    ReadsAgree(flat, image.areas, image.regions, base, config.stackSize);
    var data := Zeros(image.stack.stackPointer - base) + image.stack.bytes;
    forall a: nat | image.stack.stackPointer <= a < image.stack.stackPointer + |image.stack.bytes|
      ensures a in flat && flat[a].data == image.stack.bytes[a - image.stack.stackPointer]
    {
      assert data[a - base] == image.stack.bytes[a - image.stack.stackPointer];
    }
  }

  // Loading

  method FindRegion(area: E.Area, regions: seq<E.Region>, ghost areas: seq<E.Area>, ghost n: nat)
    returns (r: Option<E.Region>)
    requires E.Ordered(areas) && E.Paired(areas, regions) && n < |areas| && areas[n] == area
    ensures r == Some(regions[n])
  {
    for i := 0 to |regions|
      invariant i <= n
    {
      assert E.Spans(regions[i], areas[i]);
      assert i < n ==> areas[i].end <= areas[n].start;
      if E.Spans(regions[i], area) {
        return Some(regions[i]);
      }
    }
    r := None;
  }

  /** The break can be rounded and every area lies on pages inside the guest's address space. */
  predicate Mappable(image: E.Image) {
    && image.brk + (GUEST_PAGE_SIZE - 1) < U64_LIMIT
    && forall i :: 0 <= i < |image.areas| ==> AreaFits(image.areas[i])
  }

  predicate AreaFits(area: E.Area) {
    MIN_GUEST_ADDRESS <= area.start <= area.end <= GUEST_ADDRESS_SPACE_END && IsPageAligned(area.start)
  }

  /** The place of the next area is still free. */
  lemma NextIsFree(memory: GuestMemory, areas: seq<E.Area>, regions: seq<E.Region>, n: nat)
    requires memory.Valid() && E.Ordered(areas) && E.Paired(areas, regions) && n < |areas|
    requires Shows(memory.Memory(), areas, regions, n)
    ensures areas[n].start < areas[n].end && !V.Overlapping(memory.vmas, areas[n].start, areas[n].end)
  {
    var area := areas[n];
    AreaNonempty(areas, regions, n);
    forall a: nat | area.start <= a < area.end
      ensures a !in memory.Memory()
    {
      assert a in memory.Memory() ==> InSome(areas, n, a);
    }
    M.UnmappedIsFree(memory.State(), memory.Memory(), area.start, area.end);
  }

  /**
   The memory of a process about to start: exactly the image is mapped, unless it does not fit or the host refuses.
   */
  method FromImage(host: HostStore, ghost member: nat, windowsHost: bool, image: E.Image)
    returns (r: Outcome<GuestMemory>)
    requires Newcomer(host, member) && E.Ordered(image.areas) && E.Paired(image.areas, image.regions)
    requires E.InAddressSpace(image)
    modifies host
    ensures old(host.refusals) <= host.refusals
    ensures r.Err? && HostRefused(r.error) ==> old(host.refusals) < host.refusals
    ensures host.Valid() && Isolated(member, old(host.owners), old(host.bytes), host.owners, host.bytes)
    ensures r.Ok? ==> r.value.host == host && r.value.member == member && r.value.Valid() && S.Private(r.value.State())
    ensures r.Ok? ==> Shows(r.value.Memory(), image.areas, image.regions, |image.areas|)
    ensures r.Ok? ==> image.brk <= r.value.brkBase == r.value.currentBrk
    ensures r.Ok? ==> r.value.brkBase < (if image.brk < 4096 then 4096 else image.brk) + 4096
    ensures r.Ok? ==> r.value.mmapBase == 0x7000_0000_0000 && r.value.addressSpaceEnd == 0x8000_0000_0000
    ensures (r.Ok? ==> Mappable(image)) && (r.Err? && !HostRefused(r.error) ==> !Mappable(image))
  {
    hide S.Inv, S.Private, S.View, Isolated, E.Ordered, E.Paired, Shows, V.Overlapping, Alike, Holds, HostStore.Valid;
    NothingMoved(host, member);
    var brk := AlignUp(if image.brk < MIN_GUEST_ADDRESS then MIN_GUEST_ADDRESS else image.brk);
    if brk.Err? {
      return Err(brk.error);
    }
    r := WithLayout(host, member, windowsHost, brk.value, DEFAULT_MMAP_BASE, GUEST_ADDRESS_SPACE_END);
    if r.Err? {
      return;
    }
    var memory := r.value;
    ShowsNothing(image.areas, image.regions);
    for n := 0 to |image.areas|
      invariant old(host.refusals) <= host.refusals
      invariant memory.host == host && memory.Valid() && S.Private(memory.State()) && memory.currentBrk == brk.value
      invariant memory.mmapBase == 0x7000_0000_0000
      invariant Isolated(member, old(host.owners), old(host.bytes), host.owners, host.bytes)
      invariant Shows(memory.Memory(), image.areas, image.regions, n)
      invariant forall i :: 0 <= i < n ==> AreaFits(image.areas[i])
    {
      var area := image.areas[n];
      AreaNonempty(image.areas, image.regions, n);
      NextIsFree(memory, image.areas, image.regions, n);
      var region := FindRegion(area, image.regions, image.areas, n);
      ghost var owners, bytes := host.owners, host.bytes;
      ShowsMore(memory.Memory(), image.areas, image.regions, n);
      var done := memory.InsertLoadedMapping(area.start, area.end - area.start, ProtectionOf(area.permissions),
                                             region.value.bytes);
      IsolatedTransitive(member, old(host.owners), old(host.bytes), owners, bytes, host.owners, host.bytes);
      if done.Err? {
        return Err(done.error);
      }
    }
  }

  lemma NothingMoved(host: HostStore, member: nat)
    requires Newcomer(host, member)
    ensures Isolated(member, host.owners, host.bytes, host.owners, host.bytes)
  {}

  lemma ShowsNothing(areas: seq<E.Area>, regions: seq<E.Region>)
    ensures Shows(imap[], areas, regions, 0)
  {}

  lemma AreaNonempty(areas: seq<E.Area>, regions: seq<E.Region>, n: nat)
    requires E.Ordered(areas) && E.Paired(areas, regions) && n < |areas|
    ensures areas[n].start < areas[n].end && |regions| == |areas|
    ensures |regions[n].bytes| == areas[n].end - areas[n].start
  {
    assert E.Spans(regions[n], areas[n]);
  }

  // From the file to the process

  /** Every address of the range may be executed, written and read as the ELF flags 1, 2 and 4 say. */
  ghost predicate PermitsAs(flat: FlatMap, lo: nat, hi: nat, flags: nat) {
    forall a: nat :: lo <= a < hi ==>
      && a in flat
      && (flat[a].protection.execute <==> flags % 2 == 1)
      && (Fault(flat, a, Write) == None <==> flags / 2 % 2 == 1)
      && (Fault(flat, a, Read) == None <==> flags / 4 % 2 == 1)
  }

  lemma AreaPermits(flat: FlatMap, areas: seq<E.Area>, regions: seq<E.Region>, area: E.Area, lo: nat, hi: nat)
    requires Shows(flat, areas, regions, |areas|) && area in areas && area.start <= lo && hi <= area.end
    ensures PermitsAs(flat, lo, hi, area.permissions.Flags())
  {
    var i :| 0 <= i < |areas| && areas[i] == area;
    Files.FlagsRead(area.permissions);
    forall a: nat | lo <= a < hi
      ensures a in flat && flat[a].protection == ProtectionOf(area.permissions)
    {
      assert CellOf(flat, areas[i], regions[i], a);
    }
  }

  /** The segments of a plan have the permissions of their headers. */
  lemma SegmentsPermit(flat: FlatMap, areas: seq<E.Area>, regions: seq<E.Region>, bias: nat, path: Option<seq<Byte>>,
                       plan: Plans.LoadPlan, bytes: seq<Byte>)
    requires Shows(flat, areas, regions, |areas|) && Parser.PlanOf(bytes, plan)
    requires forall i :: 0 <= i < |plan.segments| ==> E.SegmentArea(plan.segments[i], bias, path) in areas
    ensures forall s :: s in plan.segments ==>
              PermitsAs(flat, bias + s.virtualAddress, bias + s.virtualAddress + s.memorySize, s.permissions.Flags())
  {
    hide Shows, PermitsAs, Parser.HeaderAt, Parser.SegmentFrom, Parser.InterpreterOf, Parser.PhdrOf, Parser.Inferred;
    hide Parser.ParseHeader, Parser.ValidateTable;
    forall s | s in plan.segments
      ensures PermitsAs(flat, bias + s.virtualAddress, bias + s.virtualAddress + s.memorySize, s.permissions.Flags())
    {
      assert s in multiset(plan.segments);
      assert Parser.SegmentOk(s, |bytes|);
      var i :| 0 <= i < |plan.segments| && plan.segments[i] == s;
      AreaPermits(flat, areas, regions, E.SegmentArea(plan.segments[i], bias, path), bias + s.virtualAddress,
                  bias + s.virtualAddress + s.memorySize);
    }
  }

  /** The guest finds what a program header says at its place: the bytes of the file, then zeros. */
  ghost predicate FindsHeader(flat: FlatMap, h: Parser.RawHeader, bias: nat, bytes: seq<Byte>) {
    && h.fileOffset + h.fileSize <= |bytes| && h.fileSize <= h.memorySize
    && Holds(flat, bias + h.virtualAddress,
             bytes[h.fileOffset..h.fileOffset + h.fileSize] + Zeros(h.memorySize - h.fileSize))
    && PermitsAs(flat, bias + h.virtualAddress, bias + h.virtualAddress + h.memorySize, h.flags)
  }

  /** The guest finds every PT_LOAD header of a file at its place. */
  ghost predicate FindsFile(flat: FlatMap, bias: nat, bytes: seq<Byte>) {
    && Parser.ValidateIdent(bytes).None? && Parser.ParseHeader(bytes).Ok?
    && var h := Parser.ParseHeader(bytes).value;
    && Parser.ValidateTable(h, |bytes|).None?
    && forall i: nat :: i < h.entryCount && Parser.HeaderAt(bytes, h, i).headerType == Parser.PT_LOAD ==>
         FindsHeader(flat, Parser.HeaderAt(bytes, h, i), bias, bytes)
  }

  /** The segments of a plan, found in guest memory, are what the headers of its file say. */
  lemma SegmentsAreHeaders(flat: FlatMap, bias: nat, plan: Plans.LoadPlan, bytes: seq<Byte>)
    requires Parser.PlanOf(bytes, plan)
    requires forall s :: s in plan.segments ==>
               && s.fileOffset + s.fileSize <= |bytes| && s.fileSize <= s.memorySize
               && Holds(flat, bias + s.virtualAddress,
                        bytes[s.fileOffset..s.fileOffset + s.fileSize] + Zeros(s.memorySize - s.fileSize))
               && PermitsAs(flat, bias + s.virtualAddress, bias + s.virtualAddress + s.memorySize,
                            s.permissions.Flags())
    ensures FindsFile(flat, bias, bytes)
  {
    hide Parser.HeaderAt, Parser.SegmentFrom, Parser.InterpreterOf, Parser.PhdrOf, Parser.Inferred, Holds, PermitsAs;
    hide Parser.ParseHeader, Parser.ValidateTable;
    var h := Parser.ParseHeader(bytes).value;
    forall i: nat | i < h.entryCount && Parser.HeaderAt(bytes, h, i).headerType == Parser.PT_LOAD
      ensures FindsHeader(flat, Parser.HeaderAt(bytes, h, i), bias, bytes)
    {
      var s := Parser.SegmentFrom(Parser.HeaderAt(bytes, h, i), |bytes|).value;
      assert s in multiset(plan.segments);
      assert s in plan.segments;
    }
  }

  /** What the loads of a written file say is what the guest finds. */
  lemma GuestFindsWritten(flat: FlatMap, bias: nat, file: seq<Byte>, f: Files.FileHeader,
                          headers: seq<Files.ProgramHeader>, i: nat)
    requires Files.Written(file, f, headers) && FindsFile(flat, bias, file) && Files.Loads(headers, i)
    ensures var p := headers[i];
            && p.offset + p.fileSize <= |file| && p.fileSize <= p.memorySize
            && Holds(flat, bias + p.virtualAddress,
                     file[p.offset..p.offset + p.fileSize] + Zeros(p.memorySize - p.fileSize))
            && PermitsAs(flat, bias + p.virtualAddress, bias + p.virtualAddress + p.memorySize, p.flags)
  {
    hide Files.Written, Parser.ParseHeader, Parser.HeaderAt, Parser.ValidateTable, Holds, PermitsAs;
    Files.WrittenIsRead(file, f, headers);
    assert Parser.HeaderAt(file, Parser.ParseHeader(file).value, i).headerType == Parser.PT_LOAD;
  }

  lemma GuestFindsInterpreter(flat: FlatMap, image: E.Image, path: seq<Byte>, plan: Plans.LoadPlan, bytes: seq<Byte>)
    requires E.InterpreterLoaded(image, path, plan, bytes) && E.Paired(image.areas, image.regions)
    requires Shows(flat, image.areas, image.regions, |image.areas|) && Parser.PlanOf(bytes, plan)
    ensures FindsFile(flat, E.INTERPRETER_BASE, bytes)
  {
    hide E.Read, Parser.PlanOf, Shows, Holds, E.Paired, PermitsAs;
    SegmentsPermit(flat, image.areas, image.regions, E.INTERPRETER_BASE, Some(path), plan, bytes);
    forall s | s in plan.segments
      ensures s.fileOffset + s.fileSize <= |bytes| && s.fileSize <= s.memorySize
      ensures Holds(flat, E.INTERPRETER_BASE + s.virtualAddress,
                    bytes[s.fileOffset..s.fileOffset + s.fileSize] + Zeros(s.memorySize - s.fileSize))
    {
      assert E.ReadsSegment(image.regions, s, E.INTERPRETER_BASE, bytes);
      ReadsAgree(flat, image.areas, image.regions, E.INTERPRETER_BASE + s.virtualAddress, s.memorySize);
    }
    SegmentsAreHeaders(flat, E.INTERPRETER_BASE, plan, bytes);
  }

  datatype LoadError =
    | BadFile(elf: Parser.ElfError)
    | BadImage(image: E.ImageError)
    | BadMemory(memory: MemoryError)

  /**
   The process finds its file at its load bias and its interpreter, if it asks for one, at the interpreter base; its
   stack holds the initial stack, it starts at an executable address, and nothing else is mapped.
   */
  ghost predicate Started(flat: FlatMap, image: E.Image, plan: Plans.LoadPlan, interpreterPlan: Option<Plans.LoadPlan>,
                          bytes: seq<Byte>, interpreterBytes: Option<seq<Byte>>, config: Stacks.StackConfig) {
    && FindsFile(flat, E.ExecutableBias(plan), bytes) && config.stackSize <= config.stackTop
    && (plan.interpreter.Some? ==>
          interpreterBytes.Some? && FindsFile(flat, E.INTERPRETER_BASE, interpreterBytes.value))
    && Stacks.StackImage(plan, E.StackConfigFor(plan, config), image.stack)
    && Stacks.ProcessFinds(plan, E.StackConfigFor(plan, config), image.stack)
    && Holds(flat, image.stack.stackPointer, image.stack.bytes)
    && PermitsAs(flat, config.stackTop - config.stackSize, config.stackTop, 6)
    && StartsAt(image.entrypoint, plan, interpreterPlan)
    && image.entrypoint in flat && flat[image.entrypoint].protection.execute
    && forall a: nat :: a in flat ==> InWanted(a, E.WantedAreas(plan, interpreterPlan, config))
  }

  /** At the interpreter's entry point if there is one, at the program's otherwise. */
  ghost predicate StartsAt(entrypoint: nat, plan: Plans.LoadPlan, interpreterPlan: Option<Plans.LoadPlan>) {
    if plan.interpreter.None? then entrypoint == plan.entrypoint + E.ExecutableBias(plan)
    else interpreterPlan.Some? && entrypoint == interpreterPlan.value.entrypoint + E.INTERPRETER_BASE
  }

  ghost predicate InWanted(a: nat, wanted: seq<E.Area>) {
    exists area :: area in wanted && area.start <= a < area.end
  }

  lemma AllShown(flat: FlatMap, areas: seq<E.Area>, regions: seq<E.Region>, a: nat)
    requires Shows(flat, areas, regions, |areas|) && a in flat
    ensures InSome(areas, |areas|, a)
  {
  }

  lemma StackPermits(flat: FlatMap, image: E.Image, config: Stacks.StackConfig)
    requires Shows(flat, image.areas, image.regions, |image.areas|)
    requires E.StackAreaOf(config) in image.areas && config.stackSize <= config.stackTop
    ensures PermitsAs(flat, config.stackTop - config.stackSize, config.stackTop, 6)
  {
    hide Shows, PermitsAs;
    AreaPermits(flat, image.areas, image.regions, E.StackAreaOf(config), config.stackTop - config.stackSize,
                config.stackTop);
  }

  lemma ProcessStarted(flat: FlatMap, image: E.Image, plan: Plans.LoadPlan, interpreterPlan: Option<Plans.LoadPlan>,
                       bytes: seq<Byte>, interpreterBytes: Option<seq<Byte>>, config: Stacks.StackConfig)
    requires E.ImageOf(image, plan, interpreterPlan, bytes, config) && Parser.PlanOf(bytes, plan)
    requires Shows(flat, image.areas, image.regions, |image.areas|)
    requires plan.interpreter.None? ==> image.entrypoint == plan.entrypoint + E.ExecutableBias(plan)
    requires plan.interpreter.Some? ==>
               && interpreterBytes.Some? && interpreterPlan.Some?
               && Parser.PlanOf(interpreterBytes.value, interpreterPlan.value)
               && E.InterpreterLoaded(image, plan.interpreter.value, interpreterPlan.value, interpreterBytes.value)
    ensures Started(flat, image, plan, interpreterPlan, bytes, interpreterBytes, config)
  {
    hide Parser.PlanOf, Holds, FindsFile, E.WantedAreas, E.Read, E.Ordered, E.Paired, E.Highest, E.ReadsSegment;
    hide Stacks.StackImage, Stacks.ProcessFinds, PermitsAs, Shows;
    SegmentsPermit(flat, image.areas, image.regions, E.ExecutableBias(plan), None, plan, bytes);
    StackPermits(flat, image, config);
    Stacks.ImageIsFound(plan, E.StackConfigFor(plan, config), image.stack);
    GuestFindsProgram(flat, image, plan, interpreterPlan, bytes, config);
    SegmentsAreHeaders(flat, E.ExecutableBias(plan), plan, bytes);
    if plan.interpreter.Some? {
      GuestFindsInterpreter(flat, image, plan.interpreter.value, interpreterPlan.value, interpreterBytes.value);
    }
    forall a: nat | a in flat
      ensures InWanted(a, E.WantedAreas(plan, interpreterPlan, config))
    {
      assert InSome(image.areas, |image.areas|, a) by { AllShown(flat, image.areas, image.regions, a); }
      var i: nat :| i < |image.areas| && image.areas[i].start <= a < image.areas[i].end;
      assert image.areas[i] in image.areas;
    }
  }

  /** From the bytes of an ELF file to the memory of a process about to start, or what stands in the way. */
  method LoadProgram(host: HostStore, ghost member: nat, windowsHost: bool, bytes: seq<Byte>,
                     interpreterBytes: Option<seq<Byte>>, config: Stacks.StackConfig)
    returns (r: Result<(GuestMemory, E.Image), LoadError>, ghost plan: Option<Plans.LoadPlan>,
             ghost interpreterPlan: Option<Plans.LoadPlan>)
    requires Newcomer(host, member) && |config.randomBytes| == Stacks.AT_RANDOM_BYTES
    modifies host
    ensures old(host.refusals) <= host.refusals
    ensures r.Err? && r.error.BadMemory? && HostRefused(r.error.memory) ==> old(host.refusals) < host.refusals
    ensures host.Valid() && Isolated(member, old(host.owners), old(host.bytes), host.owners, host.bytes)
    ensures r.Ok? ==>
              var (memory, image) := r.value;
              && memory.host == host && memory.member == member && memory.Valid() && S.Private(memory.State())
              && plan.Some? && Parser.PlanOf(bytes, plan.value) && Parser.Ranked(plan.value.segments)
              && E.InterpreterParsed(plan.value, interpreterPlan, interpreterBytes)
              && Started(memory.Memory(), image, plan.value, interpreterPlan, bytes, interpreterBytes, config)
    ensures r.Err? && r.error.BadFile? <==> Parser.Unfit(bytes)
    ensures r.Err? && r.error.BadImage? ==>
              && plan.Some? && Parser.PlanOf(bytes, plan.value)
              && E.InterpreterParsed(plan.value, interpreterPlan, interpreterBytes)
              && !E.Buildable(plan.value, interpreterPlan, bytes, interpreterBytes, config)
    ensures r.Err? && r.error.BadMemory? && !HostRefused(r.error.memory) ==>
              && plan.Some? && Parser.PlanOf(bytes, plan.value)
              && !WantedFit(plan.value, interpreterPlan, config)
  {
    hide Parser.PlanOf, Parser.PlanOk, Parser.Unfit, E.InterpreterParsed, E.Buildable, Started, Isolated, Shows;
    hide S.Private, S.Inv, S.View, HostStore.Valid, E.InterpreterLoaded, Mappable, E.ImageOf, WantedFit;
    NothingMoved(host, member);
    plan, interpreterPlan := None, None;
    var parsed := Parser.ParseLoadPlan(bytes);
    if parsed.Err? {
      return Err(BadFile(parsed.error)), plan, interpreterPlan;
    }
    plan := Some(parsed.value);
    var built;
    built, interpreterPlan := E.BuildImage(parsed.value, bytes, interpreterBytes, config, |bytes|);
    if built.Err? {
      return Err(BadImage(built.error)), plan, interpreterPlan;
    }
    var image := built.value;
    ImageLoads(image, parsed.value, interpreterPlan, bytes, config);
    var memory := FromImage(host, member, windowsHost, image);
    if memory.Err? {
      return Err(BadMemory(memory.error)), plan, interpreterPlan;
    }
    ProcessStarted(memory.value.Memory(), image, parsed.value, interpreterPlan, bytes, interpreterBytes, config);
    r := Ok((memory.value, image));
  }

  /** Where a file with those headers is loaded: a shared object that asks for an interpreter at 4 MiB. */
  ghost function WrittenBias(f: Files.FileHeader, headers: seq<Files.ProgramHeader>): nat {
    if f.objectType == 3 && exists i: nat :: i < |headers| && headers[i].headerType == 3 then 0x40_0000 else 0
  }

  /**
   End to end, in the file's own numbers: the process finds every load of the file at its bias with the permissions of
   its flags, and its auxiliary vector has the entry point, the interpreter base and the table of that file.
   */
  lemma StartedAsWritten(flat: FlatMap, image: E.Image, plan: Plans.LoadPlan, interpreterPlan: Option<Plans.LoadPlan>,
                         file: seq<Byte>, interpreterBytes: Option<seq<Byte>>, config: Stacks.StackConfig,
                         f: Files.FileHeader, headers: seq<Files.ProgramHeader>)
    requires Started(flat, image, plan, interpreterPlan, file, interpreterBytes, config)
    requires Parser.PlanOf(file, plan) && Parser.Ranked(plan.segments) && Files.Written(file, f, headers)
    ensures var bias := WrittenBias(f, headers);
            forall i: nat :: Files.Loads(headers, i) ==>
              var p := headers[i];
              && p.offset + p.fileSize <= |file| && p.fileSize <= p.memorySize
              && Holds(flat, bias + p.virtualAddress,
                       file[p.offset..p.offset + p.fileSize] + Zeros(p.memorySize - p.fileSize))
              && PermitsAs(flat, bias + p.virtualAddress, bias + p.virtualAddress + p.memorySize, p.flags)
    ensures Stacks.HasAllWords(config, image.stack)
    ensures Stacks.AuxGives(config, image.stack, 9, f.entrypoint + WrittenBias(f, headers))
    ensures Stacks.AuxGives(config, image.stack, 5, |headers|) && Stacks.AuxGives(config, image.stack, 4, 56)
    ensures Stacks.AuxGives(config, image.stack, 7,
                            if exists i: nat :: i < |headers| && headers[i].headerType == 3 then 0x7000_0000 else 0)
    ensures (forall i: nat :: i < |headers| ==> headers[i].headerType != 3) ==>
              image.entrypoint == f.entrypoint + WrittenBias(f, headers)
  {
    hide Files.Written, Parser.PlanOf, Parser.Ranked, Stacks.StackImage, Holds, PermitsAs, FindsFile, E.WantedAreas;
    hide Stacks.StackHolds, Stacks.Word;
    Files.PlanIsWritten(file, f, headers, plan);
    assert plan.interpreter.Some? <==> exists i: nat :: i < |headers| && headers[i].headerType == 3;
    assert E.ExecutableBias(plan) == WrittenBias(f, headers);
    forall i: nat | Files.Loads(headers, i)
      ensures var p := headers[i]; var bias := WrittenBias(f, headers);
              && p.offset + p.fileSize <= |file| && p.fileSize <= p.memorySize
              && Holds(flat, bias + p.virtualAddress,
                       file[p.offset..p.offset + p.fileSize] + Zeros(p.memorySize - p.fileSize))
              && PermitsAs(flat, bias + p.virtualAddress, bias + p.virtualAddress + p.memorySize, p.flags)
    {
      GuestFindsWritten(flat, WrittenBias(f, headers), file, f, headers, i);
    }
    hide Files.PlanWritten, E.ExecutableBias, WrittenBias;
    AuxOf(plan, config, image.stack);
  }

  /** The auxiliary vector the loader asks for. */
  lemma AuxOf(plan: Plans.LoadPlan, config: Stacks.StackConfig, stack: Stacks.InitialStack)
    requires Stacks.ProcessFinds(plan, E.StackConfigFor(plan, config), stack)
    ensures Stacks.HasAllWords(config, stack)
    ensures Stacks.AuxGives(config, stack, 9, plan.entrypoint + E.ExecutableBias(plan))
    ensures Stacks.AuxGives(config, stack, 5, plan.programHeaders.entryCount)
    ensures Stacks.AuxGives(config, stack, 4, plan.programHeaders.entrySize)
    ensures Stacks.AuxGives(config, stack, 7, if plan.interpreter.Some? then E.INTERPRETER_BASE else 0)
  {
    hide Stacks.StackHolds, Stacks.Word, Stacks.AuxGives;
    var given := E.StackConfigFor(plan, config);
    Stacks.SameWords(given, config, stack, 9, plan.entrypoint + E.ExecutableBias(plan));
    Stacks.SameWords(given, config, stack, 5, plan.programHeaders.entryCount);
    Stacks.SameWords(given, config, stack, 4, plan.programHeaders.entrySize);
    Stacks.SameWords(given, config, stack, 7, given.interpreterBase);
  }

  /** Every area wanted lies inside the guest's address space, on pages, and the break can be rounded. */
  ghost predicate WantedFit(plan: Plans.LoadPlan, interpreterPlan: Option<Plans.LoadPlan>, config: Stacks.StackConfig) {
    && (forall area :: area in E.WantedAreas(plan, interpreterPlan, config) ==> AreaFits(area))
    && forall s :: s in plan.segments ==> s.mapping.end + E.ExecutableBias(plan) + (GUEST_PAGE_SIZE - 1) < U64_LIMIT
  }

  lemma ImageLoads(image: E.Image, plan: Plans.LoadPlan, interpreterPlan: Option<Plans.LoadPlan>, bytes: seq<Byte>,
                   config: Stacks.StackConfig)
    requires E.ImageOf(image, plan, interpreterPlan, bytes, config)
    ensures E.Ordered(image.areas) && E.Paired(image.areas, image.regions) && E.InAddressSpace(image)
    ensures Mappable(image) <==> WantedFit(plan, interpreterPlan, config)
  {
    hide E.Ordered, E.Paired, E.Read, E.ReadsSegment, E.WantedAreas, AreaFits, Stacks.StackImage, E.ExecutableAt;
    assert forall area :: area in image.areas <==> area in E.WantedAreas(plan, interpreterPlan, config);
    assert forall i :: 0 <= i < |plan.segments| ==> plan.segments[i] in plan.segments;
    if forall s :: s in plan.segments ==> s.mapping.end + E.ExecutableBias(plan) + (GUEST_PAGE_SIZE - 1) < U64_LIMIT {
      var i :| 0 <= i < |plan.segments| && plan.segments[i].mapping.end + image.loadBias == image.brk;
    }
  }
}
