/**
 What mmap and mprotect are asked for (crates/mcr-sys/src/memory.rs, and the checks in crates/mcr-memory/src/lib.rs):
 protections and flags as Linux encodes them, bit by bit.
 */
module LinuxRequests {
  import opened Ranges
  import opened Vmas

  function ProtectionFromLinux(prot: bv32): (r: Outcome<Protection>)
    ensures r.Err? ==> r.error == InvalidProtection
  {
    if prot & 0xFFFF_FFF8 != 0 then Err(InvalidProtection)
    else Ok(Protection(prot & 1 != 0, prot & 2 != 0, prot & 4 != 0))
  }

  /** The protection that number stands for: 1 for reading, 2 for writing, 4 for executing. */
  function Protecting(prot: nat): Protection {
    Protection(prot % 2 == 1, prot / 2 % 2 == 1, prot / 4 % 2 == 1)
  }

  /** Exactly the numbers below eight are protections. */
  lemma ProtectionBits(prot: bv32)
    ensures ProtectionFromLinux(prot).Ok? <==> prot as nat < 8
    ensures ProtectionFromLinux(prot).Ok? ==> ProtectionFromLinux(prot).value == Protecting(prot as nat)
  {
    if prot < 8 {
      assert prot == 0 || prot == 1 || prot == 2 || prot == 3 || prot == 4 || prot == 5 || prot == 6 || prot == 7;
    }
  }

  const MAP_FIXED: bv32 := 0x10
  const MAP_ANONYMOUS: bv32 := 0x20
  const MAP_FIXED_NOREPLACE: bv32 := 0x10_0000
  const MAP_INVALID_MASK: bv32 := 0xFFE0_068C
  const MAP_HUGETLB_OR_SYNC: bv32 := 0xC_0000
  const MAP_TYPE_MASK: bv32 := 0x3
  const MAP_SHARED: bv32 := 0x1
  const MAP_PRIVATE: bv32 := 0x2

  datatype MmapRequest = MmapRequest(length: U64, protection: Protection, kind: VmaKind)

  datatype MmapArgs = MmapArgs(addr: U64, length: U64, prot: bv32, flags: bv32, fd: int, offset: int) {
    predicate IsFixed() {
      flags & MAP_FIXED != 0
    }

    predicate IsFixedNoReplace() {
      flags & MAP_FIXED_NOREPLACE != 0
    }

    predicate Pinned() {
      IsFixed() || IsFixedNoReplace()
    }

    /** Where a search for a free place starts: at the hint's page, but not on the first page of all. */
    function SearchFrom(mmapBase: U64): (r: Outcome<U64>)
      ensures addr == 0 ==> r == Ok(mmapBase)
      ensures r.Err? <==> addr + (GUEST_PAGE_SIZE - 1) >= U64_LIMIT
      ensures r.Err? ==> r.error == InvalidLength
      ensures 0 < addr <= MIN_GUEST_ADDRESS ==> r == Ok(MIN_GUEST_ADDRESS)
      ensures MIN_GUEST_ADDRESS < addr && r.Ok? ==> IsPageAligned(r.value) && addr <= r.value < addr + GUEST_PAGE_SIZE
    {
      if addr == 0 then Ok(mmapBase)
      else AlignUp(if addr < MIN_GUEST_ADDRESS then MIN_GUEST_ADDRESS else addr)
    }

    function Kind(): (r: Outcome<VmaKind>)
      ensures r.Err? ==> !HostRefused(r.error)
    {
      if flags & MAP_INVALID_MASK != 0 || flags & MAP_HUGETLB_OR_SYNC != 0 then Err(InvalidFlags)
      else if flags & MAP_TYPE_MASK != MAP_PRIVATE && flags & MAP_TYPE_MASK != MAP_SHARED then Err(InvalidFlags)
      else if flags & MAP_ANONYMOUS != 0 then if offset != 0 then Err(InvalidOffset) else Ok(Anonymous)
      else if fd < 0 then Err(BadFileDescriptor)
      else if offset < 0 || !IsPageAligned(offset) then Err(InvalidOffset)
      else Ok(FileBacked(fd, offset, flags & MAP_SHARED != 0))
    }

    /** The checks a request passes before any address is chosen, in order. */
    function Request(): (r: Outcome<MmapRequest>)
      ensures r.Ok? ==> 0 < r.value.length && IsPageAligned(r.value.length) && !r.value.kind.Heap?
      ensures r.Err? ==> !HostRefused(r.error)
    {
      var protection := ProtectionFromLinux(prot);
      if protection.Err? then Err(protection.error)
      else
        var rounded := PageRoundLength(length);
        if rounded.Err? then Err(rounded.error)
        else if Kind().Err? then Err(Kind().error)
        else Ok(MmapRequest(rounded.value, protection.value, Kind().value))
    }
  }

  // Flags bit by bit

  predicate Bit(flags: bv32, k: bv5) {
    (flags >> k) & 1 == 1
  }

  /**
   Either MAP_SHARED or MAP_PRIVATE, and of the other bits only those of MAP_FIXED (4), MAP_ANONYMOUS (5), MAP_32BIT
   (6), MAP_GROWSDOWN (8), MAP_DENYWRITE to MAP_STACK (11 to 17) and MAP_FIXED_NOREPLACE (20).
   */
  predicate FlagsAccepted(flags: bv32) {
    && Bit(flags, 0) != Bit(flags, 1)
    && !Bit(flags, 2) && !Bit(flags, 3) && !Bit(flags, 7) && !Bit(flags, 9) && !Bit(flags, 10)
    && !Bit(flags, 18) && !Bit(flags, 19) && flags >> 21 == 0
  }

  lemma FlagBits(args: MmapArgs)
    ensures args.IsFixed() <==> Bit(args.flags, 4)
    ensures args.IsFixedNoReplace() <==> Bit(args.flags, 20)
    ensures args.Kind() == Err(InvalidFlags) <==> !FlagsAccepted(args.flags)
    ensures args.flags & MAP_ANONYMOUS != 0 <==> Bit(args.flags, 5)
    ensures args.flags & MAP_SHARED != 0 <==> Bit(args.flags, 0)
  {
  }

  /** What the checks report, the first that fails, and what they let through. */
  ghost predicate RequestMeans(args: MmapArgs, r: Outcome<MmapRequest>) {
    var anonymous := Bit(args.flags, 5);
    if args.prot as nat >= 8 then r == Err(InvalidProtection)
    else if args.length == 0 || args.length + (GUEST_PAGE_SIZE - 1) >= U64_LIMIT then r == Err(InvalidLength)
    else if !FlagsAccepted(args.flags) then r == Err(InvalidFlags)
    else if anonymous && args.offset != 0 then r == Err(InvalidOffset)
    else if !anonymous && args.fd < 0 then r == Err(BadFileDescriptor)
    else if !anonymous && (args.offset < 0 || args.offset % GUEST_PAGE_SIZE != 0) then r == Err(InvalidOffset)
    else
      && r.Ok? && r.value.protection == Protecting(args.prot as nat)
      && r.value.length % GUEST_PAGE_SIZE == 0 && args.length <= r.value.length < args.length + GUEST_PAGE_SIZE
      && r.value.kind == if anonymous then Anonymous else FileBacked(args.fd, args.offset, Bit(args.flags, 0))
  }

  lemma RequestExactly(args: MmapArgs)
    ensures RequestMeans(args, args.Request())
  {
    ProtectionBits(args.prot);
    FlagBits(args);
    hide Bit, FlagsAccepted, ProtectionFromLinux, Protecting;
  }
}
