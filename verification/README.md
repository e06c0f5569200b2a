# mcr, verified

mcr runs Linux guests in user space. This project models the parts of it whose correctness is hardest to see from
the code, and proves what they promise:

- **Guest memory** (`mcr-memory`). A guest should see one flat map from address to byte and protection. What runs
  underneath splits and coalesces VMAs, merges host allocations, and shares read-only allocations copy-on-write
  between clones. `GuestMemory` is a class over a store of reference-counted host buffers. Every operation is
  proved against the flat map (`FlatMemory`), and `Families.Run` carries any family of clones through any sequence
  of calls: the pictures the members show are those of independent flat memories, byte for byte as long as a member
  shares nothing, and otherwise but for the bytes whose loss is described below.
  A call that is refused has its reason in the flat memory, or the host refused an allocation, which the store counts.
- **Programs** (`mcr-elf`). From the bytes of an ELF file through the load plan, the guest image and the initial
  stack to what the guest reads in its memory, in one method (`ImageLoading.LoadProgram`). `ElfFiles` writes such files
  apart from the parser: exactly which have a plan, and which plan, is stated in the numbers they were written from.
- **Native patches** (`mcr-jit`). The cache format is a rebase, and the decoder accepts exactly its files for that
  image; the FS rewrite keeps the meaning of an instruction and can be undone; the flag formulas make every conditional
  jump follow the comparison.
- **Package resolution** (Python), the **socket table** (`mcr-net`), the **tar writer** (`mcr-image`) and the
  **wildcard matcher** (`mcr-build`).

Code that changes things step by step is a class or a method with loops here; code made of expressions is a function.

## Layout

| files | what they hold |
|---|---|
| Ranges, Bytes, OrderedKeys | checked 64-bit arithmetic, little-endian numbers, ordered map keys |
| Vmas | the VMA map: lookup, split, remove, reprotect, coalesce, first fit |
| FlatMemory, LinuxRequests | the reference: flat memory and its operations; what mmap and mprotect are asked for, bit by bit |
| Backing, HostStore, GuestState | host buffers and who holds them; the invariant `Inv`, the picture `View`, steps the guest cannot see (`Quiet`) |
| Merging, HeapBreak, Clones | merging host allocations, the program break, copy-on-write clones |
| StaleBytes, StaleRun, StaleHeap, HeapRun | exactly which bytes a merge or a growing heap may lose, and runs that lose one |
| GuestMemory, Intrinsics, Families | the class, the libc intrinsics, and whole runs |
| ElfPlans, ElfParser, ElfFiles, InitialStacks, ElfImages, ImageLoading | from an ELF file to a guest memory; ElfFiles writes such files apart from the parser |
| NativePatches, PatchFiles, FsRewrites, Flags | the patch cache, which bytes are such a file, the FS rewrite, flags and branches |
| ApkResolver, ApkOrdering, ApkPlans | dependency closure, installation order, and both from the repositories' records on |
| SocketTables, TarArchives, Wildcards | sockets, archives, ignore patterns |

## What turned out false

Each of these has a lemma with a failing case and one that says exactly when the code is right.

- **Merges lose bytes.** A detached VMA gets a newer allocation over part of an older one. When such a page is unmapped
  and mapped again, `mmap` takes the oldest allocation that contains it, so the page uses an older allocation than the
  newest that covers it: it is *stale*. Merging allocations copies them lowest id first, and a stale page then shows
  the newer allocation's bytes. A merge makes pages stale too, without any munmap: exactly those its hull swallows,
  which use an allocation that does not meet the request (`Merging.ReplacedStale`). `StaleRun.WriteIsLost` is a run of mprotect, munmap, mmap, a store and mmap after which
  the byte stored is gone; `StaleRun.RemappedByMmap` is the call that makes the page stale. What the guest reads at an
  address survives a merge, whatever the contents, if and only if no newer merged allocation covers the address
  (`StaleBytes.MergeKeepsGuestByteExactly`; on buffers alone, `Merging.MergeKeepsByteExactly`). A member that shares
  nothing has disjoint allocations and no stale page, so its runs are exact (`Families.UnsharedRunIsExact`).
- **A growing heap loses bytes.** `set_brk` too takes the oldest allocation that contains the grown heap and does not
  copy the heap into it. `HeapRun.HeapWriteIsLost` is a run of mprotect, a store, munmap and brk that loses the byte.
  Growing into such an allocation keeps the heap's bytes, whatever they are, if and only if the heap uses it already
  (`StaleHeap.ReuseKeepsHeapExactly`).
- **A cut heap breaks the VMA map.** `set_brk` looks only at the first heap VMA. When the heap was cut, by a detaching
  write or a partial mprotect, a longer heap VMA is laid over the other pieces (`HeapBreak.CutHeapIsUnsafe`). After a
  growth the invariant holds if and only if no VMA but one starting at the base meets the new heap
  (`HeapBreak.GrowthOutcome`).
- **A cut heap stays mapped.** For the same reason a break moved to the end of the first piece succeeds and leaves the
  others mapped (`HeapBreak.CutHeapStaysMapped`). A successful move of the break leaves exactly the heap it promises,
  in a valid memory, if and only if the pieces allow it (`HeapBreak.BreakIsExact`), and a heap in one piece always does
  (`HeapBreak.SingleHeapFits`, `HeapBreak.SingleHeapIsSafe`).
- **The overlap check of the ELF parser** compares neighbouring segments only and skips empty ones, so an empty segment
  between two overlapping ones hides the overlap: `ElfParser.EmptySegmentHidesOverlap` gives a plan that passes every
  other check of the parser. The check means that all segments are apart, whatever their addresses and sizes, if and
  only if no empty segment stands between two nonempty ones (`ElfParser.AdjacentIsApartExactly`). The image builder
  refuses the overlap later.
- **The package resolver** takes a dependency as settled when its provider's name is planned, even if the planned
  record of that name does not provide it; two repositories with one package name suffice
  (`ApkPlans.TwoRecordsInconsistent`). All successful resolutions satisfy all dependencies if and only if the indexes
  are consistent (`ApkResolver.SafeExactlyWhenConsistent`), which they are when no two records have one name
  (`ApkPlans.DistinctIsConsistent`).
- **The installation order** follows, for each dependency, the one provider on record, and where that one is not
  planned it follows nothing. A package can come before the only planned provider of its dependency, without any cycle
  (`ApkPlans.ProviderComesLate`). Without cycles every order of the plan is installed with providers first, if and only
  if the sort gets from each package to a planned provider of each of its dependencies
  (`ApkOrdering.ProvidersFirstExactly`); it does when no two packages provide the same name
  (`ApkPlans.OneProviderReached`).
- **strlen** reads its whole window before it looks for the NUL, so it faults on a terminated string at the end of a
  mapping (`Intrinsics.StringAtMappingEnd`). It finds every terminated string, whatever the bytes, if and only if the
  whole window can be read or not even its first byte can (`Intrinsics.StrlenFindsExactly`).
- **The tar writer** tries only the last slash of a long path, so it refuses paths that an earlier split would fit
  (`TarArchives.DeepPathRefused`). It writes a path that some split fits exactly when the path is short or its last
  split leaves a prefix that fits (`TarArchives.FieldsExactly`).
- **The wildcard matcher** refuses values in which the leftmost occurrence of the last piece overlaps the one at the
  end. It is right on all values if and only if the pattern has no star or its last piece has no border
  (`Wildcards.ExactPatterns`).
- **Undoing an FS rewrite** reads the FS base as a signed number and rewriting does not, so with a base in the upper
  half an undone instruction is not rewritten (`FsRewrites.NotRewrittenAgain`; exactly when it is,
  `FsRewrites.UndoneIsRewritten`).
- **A closed socket gets a host entry again** when its capability is asked for (`SocketTables.ReviveClosed`). That is
  the only way: `SocketTables.SocketTable.RioCapability` says exactly when it happens, and in a run without such a call
  no closed socket has an entry (`SocketTables.Run`).

## Model

| member | source | states |
|---|---|---|
| `Ranges.CheckedRawRange` | crates/mcr-memory/src/ranges.rs:11-16 | the end of the range, failing exactly when it would reach 2^64 |
| `Ranges.AlignUp` | crates/mcr-memory/src/ranges.rs:61-67 | the least page boundary not below the value; fails exactly when rounding would wrap |
| `Ranges.AlignDown` | crates/mcr-memory/src/ranges.rs:69-71 | the greatest page boundary not above the value |
| `Ranges.PageRoundLength` | crates/mcr-memory/src/ranges.rs:43-48 | rounds nonzero lengths up to whole pages; exactly when it fails |
| `Ranges.CheckedPageRange` | crates/mcr-memory/src/ranges.rs:3-9 | the least whole pages around the request; fails exactly when the start is off a page, the length is zero or the end would wrap, with that error |
| `Ranges.CheckedMappingEnd` | crates/mcr-memory/src/ranges.rs:28-41 | accepts exactly aligned mappings inside the address space |
| `Ranges.HostAllocationRange` | crates/mcr-memory/src/lib.rs:1708-1718 | the least range on the host's granularity around the request; fails exactly when rounding would wrap |
| `Vmas.LookupFindsCover` | crates/mcr-memory/src/lib.rs:493-496 | the floor-key lookup finds a VMA exactly when the address is mapped, and then the one that covers it |
| `Vmas.SplitKeepsSlots` | crates/mcr-memory/src/lib.rs:1517-1533 | a split keeps every address's slot and the map's form, and leaves nothing across the cut |
| `Vmas.RemoveStartsIsExact` | crates/mcr-memory/src/lib.rs:1535-1547 | after cutting both bounds, dropping the starts in a range unmaps exactly that range |
| `Vmas.ReprotectedSlot` | crates/mcr-memory/src/lib.rs:541-572 | after cutting both bounds, exactly the range changes, and only in protection |
| `Vmas.Coalesce` | crates/mcr-memory/src/lib.rs:1559-1571 | the same slot at every address, and VMAs begin exactly where a mapped byte does not continue the one before it |
| `Vmas.FindFreeRange` | crates/mcr-memory/src/lib.rs:1475-1493 | first fit: the lowest free page range at or above the hint, an error exactly when there is none |
| `Vmas.IsRangeMapped` | crates/mcr-memory/src/lib.rs:1501-1515 | true exactly when every address of the range is mapped |
| `Backing.IsolationKeepsOthers` | crates/mcr-memory/src/lib.rs:374-471 | a step that leaves other members' references and buffers alone leaves their memories alone |
| `HostMemory.HostStore.Allocate` | crates/mcr-memory/src/lib.rs:1670-1706 | fails, which is counted, or gives a fresh zeroed buffer held once |
| `HostMemory.HostStore.Write` | crates/mcr-memory/src/lib.rs:461-471 | only a buffer held once is written; no other member's buffer changes |
| `LinuxRequests.ProtectionBits` | crates/mcr-memory/src/lib.rs:50-60 | exactly the numbers below eight are protections: 1 to read, 2 to write, 4 to execute |
| `LinuxRequests.FlagBits` | crates/mcr-memory/src/lib.rs:1793-1803 | which bits of the flags are accepted, and which mean fixed, not replacing, anonymous and shared |
| `LinuxRequests.RequestExactly` | crates/mcr-memory/src/lib.rs:1793-1823 | bit by bit, the first check that fails and what the request then reports, or its length in whole pages, protection and kind |
| `GuestState.SplitQuiet` | crates/mcr-memory/src/lib.rs:1517-1533 | the guest cannot see a split, and the invariant survives it |
| `GuestState.DetachQuiet` | crates/mcr-memory/src/lib.rs:929-978 | the guest cannot see a VMA move to a private copy; other members are not touched |
| `GuestState.RebufferQuiet` | crates/mcr-memory/src/lib.rs:430-459 | the guest cannot see a whole allocation move to a private copy |
| `GuestState.DropQuiet` | crates/mcr-memory/src/lib.rs:1549-1557 | the guest cannot see an unused allocation go |
| `GuestState.StoreStep` | crates/mcr-memory/src/lib.rs:1603-1643 | a store through a VMA into an unshared allocation changes exactly its range of the flat memory |
| `GuestState.RemovedView` | crates/mcr-memory/src/lib.rs:1535-1547 | removing starts is unmapping in the flat memory |
| `GuestState.ReprotectedView` | crates/mcr-memory/src/lib.rs:541-572 | changing VMA protections is reprotecting in the flat memory |
| `Merging.MergedAt` | crates/mcr-memory/src/lib.rs:1186-1191 | in a merge the last saved allocation that covers an address gives its byte |
| `Merging.MergeKeepsByteExactly` | crates/mcr-memory/src/lib.rs:1186-1191 | a merge keeps an allocation's byte for all contents if and only if no later allocation covers it |
| `Merging.LosingContents` | crates/mcr-memory/src/lib.rs:1186-1191 | contents that a merge loses whenever a later allocation covers the address |
| `Merging.HullMeetsNoOther` | crates/mcr-memory/src/lib.rs:1067-1083 | with disjoint allocations the hull of a request meets no allocation outside its overlapping set |
| `Merging.ReplacedView` | crates/mcr-memory/src/lib.rs:1123-1221 | replacing overlapping allocations keeps every mapping, and every byte that is not stale |
| `Merging.ReplacedByte` | crates/mcr-memory/src/lib.rs:1123-1221 | the byte at an address no newer merged allocation covers survives the replacement |
| `Merging.ReplacedStale` | crates/mcr-memory/src/lib.rs:1123-1221 | after a merge exactly those addresses are stale that use no merged allocation and were stale or lie in the hull |
| `Merging.StalesHull` | crates/mcr-memory/src/lib.rs:1065-1092 | what a merge makes stale lies in the hull of the request's granules and the allocations that meet them |
| `StaleBytes.MergeKeepsGuestByteExactly` | crates/mcr-memory/src/lib.rs:1123-1221 | for every memory of that layout and every such replacement the guest reads the same byte, if and only if no newer merged allocation covers the address |
| `StaleBytes.LosingState` | crates/mcr-memory/src/lib.rs:1186-1191 | otherwise a valid memory of that layout whose byte the replacement loses |
| `StaleRun.OpenedByMprotect` | crates/mcr-memory/src/lib.rs:527-573 | a partial mprotect of a shared allocation gives the pages an allocation of their own; nothing is stale |
| `StaleRun.HoledByMunmap` | crates/mcr-memory/src/lib.rs:1535-1557 | munmap leaves a hole both allocations still cover |
| `StaleRun.ReusedByMmap` | crates/mcr-memory/src/lib.rs:1057-1063 | both allocations contain the hole, and the oldest is taken |
| `StaleRun.RemappedByMmap` | crates/mcr-memory/src/lib.rs:1247-1284 | the page mapped there is stale from this call on |
| `StaleRun.MergedByMmap` | crates/mcr-memory/src/lib.rs:1065-1092 | the next fixed mmap is contained in no allocation and meets both |
| `StaleRun.WriteIsLost` | crates/mcr-memory/src/lib.rs:1186-1191 | the guest wrote 7, mapped other pages, and reads 0 |
| `Merging.ReplacedDisjoint` | crates/mcr-memory/src/lib.rs:1123-1221 | disjoint allocations stay disjoint through a replacement |
| `Merging.RestoreStep` | crates/mcr-memory/src/lib.rs:1223-1245 | re-allocating one saved allocation brings the undo one step nearer to the old state |
| `Merging.RestoredQuiet` | crates/mcr-memory/src/lib.rs:1223-1245 | a completed undo is invisible: same pictures, no other member touched |
| `Merging.FreshQuiet` | crates/mcr-memory/src/lib.rs:1094-1120 | a fresh allocation where none was is invisible and keeps disjointness |
| `Merging.PlacedView` | crates/mcr-memory/src/lib.rs:1272-1282 | placing a VMA on its backing maps exactly the backing's bytes |
| `Merging.PlaceIsFit` | crates/mcr-memory/src/lib.rs:1475-1493 | a range fits among the VMAs exactly when the flat memory has nothing mapped there |
| `HeapBreak.SafeHeapShape` | crates/mcr-memory/src/lib.rs:1452-1461 | when growth is safe the heap is absent or exactly one VMA up to the mapped end |
| `HeapBreak.SingleHeapIsSafe` | crates/mcr-memory/src/lib.rs:1437-1450 | a heap in one piece grows safely whenever nothing blocks it |
| `HeapBreak.CutHeapIsUnsafe` | crates/mcr-memory/src/lib.rs:1452-1461 | in any map, a heap cut in two does not grow safely past its second piece |
| `HeapBreak.UnsafeGrowthBreaks` | crates/mcr-memory/src/lib.rs:1393-1403 | growing over another VMA leaves overlapping VMAs |
| `HeapBreak.GrowthOutcome` | crates/mcr-memory/src/lib.rs:1363-1417 | the invariant holds after growth if and only if growth was safe; then new pages are zero, nothing else changes, and old heap bytes stay unless stale or undercut by an older allocation |
| `HeapBreak.ShrunkView` | crates/mcr-memory/src/lib.rs:1419-1435 | shrinking drops exactly the heap pages at or above the new end |
| `HeapBreak.BreakIsExact` | crates/mcr-memory/src/lib.rs:980-997 | a successful move of the break leaves a valid memory with exactly [base, end) as heap if and only if the pieces allow it |
| `HeapBreak.SingleHeapFits` | crates/mcr-memory/src/lib.rs:986-994 | a heap in one piece always allows it |
| `HeapBreak.CutHeapStaysMapped` | crates/mcr-memory/src/lib.rs:986-994 | two pieces and a break at the end of the first: the call does nothing and the second stays mapped |
| `HeapBreak.ShrunkSingle` | crates/mcr-memory/src/lib.rs:1419-1435 | shrinking keeps a heap in one piece in one piece |
| `HeapBreak.DisjointNotUndercut` | crates/mcr-memory/src/lib.rs:1057-1063 | with disjoint allocations no older allocation can be taken for the grown heap |
| `HeapBreak.MappedEndShown` | crates/mcr-memory/src/lib.rs:986-994 | the mapped end is where the flat memory shows the heap's first piece to end |
| `HeapBreak.BlockedShown` | crates/mcr-memory/src/lib.rs:1437-1450 | growth is blocked exactly when something that is not heap is mapped in the way |
| `StaleHeap.ReuseKeepsHeapExactly` | crates/mcr-memory/src/lib.rs:1363-1403 | growing into an allocation that contains the grown heap keeps its bytes, whatever they are, if and only if the heap uses it already |
| `HeapRun.GrowsIntoOlder` | crates/mcr-memory/src/lib.rs:1057-1063 | after mprotect, a store and munmap, brk takes an older allocation the heap does not use |
| `HeapRun.HeapWriteIsLost` | crates/mcr-memory/src/lib.rs:1363-1403 | the guest wrote 7 to its heap, moved the break up, and reads 0 |
| `Clones.CloningDone` | crates/mcr-memory/src/lib.rs:374-419 | a finished clone is valid and reads what its source reads |
| `Clones.OthersUntouched` | crates/mcr-memory/src/lib.rs:374-419 | a step of one member leaves the picture and the invariant of every other |
| `Clones.CloneLayers` | crates/mcr-memory/src/lib.rs:374-419 | clone and source have the same stale pages as the source had, and share nothing if every allocation was copied |
| `Clones.OthersStayUnshared` | crates/mcr-memory/src/lib.rs:430-459 | a member that shares nothing goes on sharing nothing, whatever another member does |
| `Clones.ClonesStayApart` | crates/mcr-memory/src/lib.rs:374-419 | cloning a member shares nothing of a third one |
| `GuestMemories.GuestMemory.EnsureAllocationUnique` | crates/mcr-memory/src/lib.rs:430-459 | on success the allocation is held by this member alone; invisible either way |
| `GuestMemories.GuestMemory.DetachSharedVma` | crates/mcr-memory/src/lib.rs:929-978 | invisible; on success the VMA's buffer is held by this member alone, and every VMA keeps its range |
| `GuestMemories.GuestMemory.EnsureGuestRangeUnique` | crates/mcr-memory/src/lib.rs:893-927 | invisible; on success every VMA that meets the range has a buffer of its own; no cut is lost and nothing inside the range is cut |
| `GuestMemories.GuestMemory.EnsureGuestPageRangeUnique` | crates/mcr-memory/src/lib.rs:880-891 | the same for the whole pages around the range |
| `GuestMemories.GuestMemory.DropUnreferencedAllocations` | crates/mcr-memory/src/lib.rs:1549-1557 | invisible; every allocation left is used by a VMA, and buffers held once stay so |
| `GuestMemories.GuestMemory.SplitVmaAt` | crates/mcr-memory/src/lib.rs:1517-1533 | invisible; nothing straddles the address afterwards |
| `GuestMemories.GuestMemory.Read` | crates/mcr-memory/src/lib.rs:1573-1601 | succeeds exactly when every address is mapped and readable, with the flat bytes; otherwise reports the first fault |
| `GuestMemories.GuestMemory.Write` | crates/mcr-memory/src/lib.rs:1603-1643 | changes exactly its range on success and exactly a prefix up to the first fault otherwise; a memory that shares nothing is written exactly when the range is accessible, and a host error means that the host refused; splits and detaches are invisible |
| `GuestMemories.GuestMemory.StoreChunk` | crates/mcr-memory/src/lib.rs:1608-1638 | one turn of the loop stores a nonempty chunk at the cursor and nothing else |
| `GuestMemories.GuestMemory.UnmapRange` | crates/mcr-memory/src/lib.rs:1535-1547 | unmaps exactly the range |
| `GuestMemories.GuestMemory.Munmap` | crates/mcr-memory/src/lib.rs:521-525 | unmaps exactly the page-rounded range, or changes nothing |
| `GuestMemories.GuestMemory.Mprotect` | crates/mcr-memory/src/lib.rs:527-573 | reading, writing and executing in the range as bits 0, 1 and 2 of the number say, and nothing else changed; InvalidProtection exactly from 8 on, NotMapped exactly when some page is unmapped, success exactly on mapped pages unless the host refuses; fully coalesced afterwards |
| `GuestMemories.GuestMemory.ProtectMapped` | crates/mcr-memory/src/lib.rs:537-572 | the update of a mapped range |
| `GuestMemories.GuestMemory.CoalesceAdjacent` | crates/mcr-memory/src/lib.rs:1559-1571 | invisible; VMAs begin exactly where a byte does not continue the one before it |
| `GuestMemories.GuestMemory.ComputeHull` | crates/mcr-memory/src/lib.rs:1076-1083 | the least range around the request and the allocations that meet it |
| `GuestMemories.GuestMemory.FillMerged` | crates/mcr-memory/src/lib.rs:1186-1191 | the in-place copies produce the specified merge |
| `GuestMemories.GuestMemory.RestoreAllocations` | crates/mcr-memory/src/lib.rs:1223-1245 | if every saved allocation can be re-allocated the replacement is undone completely |
| `GuestMemories.GuestMemory.ReplaceOverlappingAllocations` | crates/mcr-memory/src/lib.rs:1123-1221 | one allocation over the hull with everything kept, or a complete undo |
| `GuestMemories.GuestMemory.EnsureHostAllocation` | crates/mcr-memory/src/lib.rs:1051-1121 | backing for the range by reuse of the oldest allocation that contains it, by merge or fresh; invisible but for stale bytes; only pages in the hull become stale; every failure but the host's is an overflow |
| `GuestMemories.GuestMemory.BackByMerge` | crates/mcr-memory/src/lib.rs:1065-1092 | one allocation over the hull backs the range; invisible but for stale bytes, or a complete undo |
| `GuestMemories.GuestMemory.FillAllocationRange` | crates/mcr-memory/src/lib.rs:1337-1340 | overwrites part of an unshared allocation; invisible where no VMA uses it |
| `GuestMemories.GuestMemory.ZeroAllocationRange` | crates/mcr-memory/src/lib.rs:1286-1318 | zeroes part of an allocation, detached first; invisible where no VMA uses it |
| `GuestMemories.GuestMemory.InsertMapping` | crates/mcr-memory/src/lib.rs:1247-1284 | the new mapping reads zero even over stale bytes, everything else stays; AddressInUse exactly over a VMA |
| `GuestMemories.GuestMemory.InsertLoadedMapping` | crates/mcr-memory/src/lib.rs:1320-1361 | maps exactly the given bytes at a free place, in any memory; everything else stays but for stale bytes; exactly why it fails unless the host refuses |
| `GuestMemories.GuestMemory.MmapStart` | crates/mcr-memory/src/lib.rs:998-1021 | fixed requests keep their address, failing exactly outside the space or over a VMA; others take the first fit from the hint |
| `GuestMemories.GuestMemory.Mmap` | crates/mcr-memory/src/lib.rs:498-519 | a zero mapping of the requested kind, readable, writable and executable as the bits say, in place of what was there, at a free place unless fixed; unless the host refuses it succeeds exactly when the request is good and has a place (the pinned range inside the space and, where replacing is forbidden, free; otherwise a free one from the hint up) whose host range does not overflow, and which error it gives otherwise; only pages in the hull become stale; failures change nothing but the range of a fixed request |
| `GuestMemories.StartFits` | crates/mcr-memory/src/lib.rs:998-1021 | a start is chosen exactly when the flat memory has a place for the request, and the error otherwise |
| `GuestMemories.FreshAllows` | crates/mcr-memory/src/lib.rs:498-519 | the new mapping may be used exactly as the bits of the request say |
| `GuestMemories.GuestMemory.MapAt` | crates/mcr-memory/src/lib.rs:1023-1049 | retries after host conflicts end at a free place above the first, or leave the memory as it was; a fixed host layout gives up on the host after 65 refusals, and earlier only when no place is left |
| `GuestMemories.GuestMemory.NextRetryStart` | crates/mcr-memory/src/lib.rs:1036-1049 | the lowest free place behind the one refused, an error exactly when there is none |
| `GuestMemories.GuestMemory.SetBrk` | crates/mcr-memory/src/lib.rs:575-600 | the reported break, growth or shrink by direction; exactly which requests must fail and with which error, and that any other succeeds unless the host refuses or its range overflows; a grown heap is readable and writable and not executable; exactly when the heap is then the one promised, and one piece kept in one piece |
| `GuestMemories.GuestMemory.ResizeHeap` | crates/mcr-memory/src/lib.rs:1363-1417 | growth as specified, or nothing visible |
| `GuestMemories.GuestMemory.ShrinkHeapTo` | crates/mcr-memory/src/lib.rs:1419-1435 | drops exactly the heap pages at or above the new end |
| `GuestMemories.GuestMemory.PatchCode` | crates/mcr-memory/src/lib.rs:725-768 | returns the old bytes and stores the new ones whatever the protection, exactly when one VMA holds the range and the host does not refuse; storing the old ones back restores the memory |
| `GuestMemories.GuestMemory.FillSlice` | crates/mcr-memory/src/lib.rs:625-661 | exactly when one writable VMA holds the range there is a mutable slice, and writes through it reach exactly that range |
| `GuestMemories.GuestMemory.ReadCString` | crates/mcr-memory/src/lib.rs:692-723 | the bytes up to the first NUL, or the first fault, or no NUL within the limit |
| `GuestMemories.GuestMemory.TryClone` | crates/mcr-memory/src/lib.rs:374-419 | the clone reads what its source reads and has the same stale pages; exactly the allocations without a writable VMA are shared when sharing is allowed; fails exactly when the host refuses, and gives every copy back |
| `Intrinsics.MemsetRange` | crates/mcr-memory/src/intrinsics.rs:7-15 | on success the range holds the value throughout and nothing else changed |
| `Intrinsics.MemmoveRange` | crates/mcr-memory/src/intrinsics.rs:17-26 | on success the destination equals the old source, also when they overlap, and nothing else changed |
| `Intrinsics.MemcmpRanges` | crates/mcr-memory/src/intrinsics.rs:28-45 | the sign is that of the first differing byte |
| `Intrinsics.FindByte` | crates/mcr-memory/src/intrinsics.rs:47-59 | the first occurrence, or none in the range |
| `Intrinsics.Dispatch` | crates/mcr-memory/src/intrinsics.rs:71-111 | each intrinsic has its effect, nothing outside the destination changes, exactly when the reading ones succeed, and a zero memchr answer means that the byte is absent |
| `Intrinsics.StrlenFindsExactly` | crates/mcr-memory/src/intrinsics.rs:61-69 | strlen finds every terminated string, whatever the bytes, if and only if the whole window or not even its first byte can be read |
| `Intrinsics.StringAtMappingEnd` | crates/mcr-memory/src/intrinsics.rs:61-69 | a readable, terminated string on which strlen faults |
| `Families.Step` | crates/mcr-memory/src/lib.rs:498-660 | a successful call has exactly its flat effect (mmap at the address it asked for or the lowest free place, zeros in it; brk by direction), a refused one at most a write prefix or a cleared fixed range; a refusal has a reason in the flat memory, or the host refused an allocation; only pages in the hull of the request become stale; no other member's buffer changes |
| `Families.CallMember` | crates/mcr-memory/src/lib.rs:880-978 | a call on one member has its flat effect there and leaves the picture of every other as it was |
| `Families.CloneMember` | crates/mcr-memory/src/lib.rs:333-419 | a clone joins the family with the picture of its source, sharing nothing unless it says so |
| `Families.Perform` | crates/mcr-memory/src/lib.rs:374-600 | every call on a family is one step of a family of independent flat memories |
| `Families.Run` | crates/mcr-memory/src/lib.rs:374-471 | every sequence of calls is a run of independent flat memories; a member whose memory a call breaks takes no more calls, and the others go on |
| `Families.UntouchedMember` | crates/mcr-memory/src/lib.rs:374-471 | over every run a member that is at most cloned keeps its picture |
| `Families.StaysPrivate` | crates/mcr-memory/src/lib.rs:374-471 | over every run a member that starts out sharing nothing and never shares in a clone goes on sharing nothing, with disjoint allocations |
| `Families.PrivateIsExact` | crates/mcr-memory/src/lib.rs:498-600 | for such a member each successful call determines the flat memory |
| `Families.UnsharedRunIsExact` | crates/mcr-memory/src/lib.rs:1051-1318 | over every run, clones without sharing included, such a member's memory is byte for byte that of the flat machine |
| `ElfParser.BuildMapping` | crates/mcr-elf/src/parser.rs:511-547 | the least whole pages around the segment, file part in step with the addresses |
| `ElfParser.SegmentFrom` | crates/mcr-elf/src/parser.rs:429-487 | an accepted segment has the header's fields and flags, lies in the file and in 64 bits and is mapped as above |
| `ElfParser.ParseInterpreter` | crates/mcr-elf/src/parser.rs:582-623 | the path without its closing NUL, never empty |
| `ElfParser.AdjacentIsApartExactly` | crates/mcr-elf/src/parser.rs:549-567 | for a shape of empty and nonempty segments the check of neighbours means that all are apart, if and only if no empty one stands between nonempty ones |
| `ElfParser.Hidden` | crates/mcr-elf/src/parser.rs:549-567 | otherwise acceptable segments of that shape that pass the check and overlap |
| `ElfParser.EmptySegmentHidesOverlap` | crates/mcr-elf/src/parser.rs:549-567 | a plan that passes every other check and has overlapping segments |
| `ElfParser.InferPhdr` | crates/mcr-elf/src/parser.rs:625-643 | the address of the header table in the first segment whose file part holds all of it, or no segment does |
| `ElfParser.ScanHeaders` | crates/mcr-elf/src/parser.rs:293-317 | succeeds exactly when all headers are acceptable and at most one is PT_INTERP; the segments of exactly the PT_LOAD headers, the path of the only PT_INTERP |
| `ElfParser.ParseLoadPlan` | crates/mcr-elf/src/parser.rs:285-340 | exactly the files that are not unfit have a plan; it says what the headers say, is sorted by address and then by file order, and enters inside an executable segment; in the file's own numbers, see `ElfFiles` below |
| `ElfParser.RankedOnce` | crates/mcr-elf/src/parser.rs:323-323 | segments can be sorted by address and file order in one way only |
| `ElfParser.PlannedIsFit` | crates/mcr-elf/src/parser.rs:285-340 | a file with a plan has none of the faults |
| `ElfFiles.ProgramHeaderBack` | crates/mcr-elf/src/parser.rs:704-733 | a program header written field by field at any offset of any file is read back |
| `ElfFiles.HeaderBack` | crates/mcr-elf/src/parser.rs:663-690 | a written file header passes the checks and is read back |
| `ElfFiles.AnyHeader` | crates/mcr-elf/src/parser.rs:342-373 | a header that passes the checks is one the writer writes |
| `ElfFiles.LoadFitExactly` | crates/mcr-elf/src/parser.rs:429-547 | exactly which PT_LOAD headers can be loaded |
| `ElfFiles.InterpFitExactly` | crates/mcr-elf/src/parser.rs:582-623 | exactly which PT_INTERP headers name a path |
| `ElfFiles.ApartExactly` | crates/mcr-elf/src/parser.rs:549-567 | the check of neighbours, on the headers: no load reaches into the next one by address and table order, but for empty ones |
| `ElfFiles.WrittenHasPlan` | crates/mcr-elf/src/parser.rs:285-340 | a file written from a list of headers has a plan exactly when the headers fit, loads next to each other are apart and the entry point lies in an executable load |
| `ElfFiles.PlanExactly` | crates/mcr-elf/src/parser.rs:285-340 | for any bytes: there is a plan exactly when they are such a file |
| `ElfFiles.PlanIsWritten` | crates/mcr-elf/src/parser.rs:285-340 | the plan of a written file has exactly its loads as segments, field by field, its path, its entry point and the address of its table |
| `InitialStacks.StackedDescends` | crates/mcr-elf/src/stack.rs:453-476 | placed strings follow each other downwards without overlap |
| `InitialStacks.PlaceCStrings` | crates/mcr-elf/src/stack.rs:440-451 | all strings placed one below the other, or exactly too little room |
| `InitialStacks.WordAt` | crates/mcr-elf/src/stack.rs:478-505 | each word of the pointer area reads back |
| `InitialStacks.BuildPointerArea` | crates/mcr-elf/src/stack.rs:478-501 | argc, argv, NULL, envp, NULL and the auxiliary vector, encoded in that order |
| `InitialStacks.FillStack` | crates/mcr-elf/src/stack.rs:360-372 | the buffer holds the pointer area and every placed string |
| `InitialStacks.BuildInitialStack` | crates/mcr-elf/src/stack.rs:272-386 | accepts exactly the configurations that fit; from an aligned stack pointer a program reads argc, argv, envp and the auxiliary vector, every pointer leads to its string, nothing overlaps; each key of the vector occurs once, and by the psABI's numbers 25, 31 and 15 lead to the random bytes, the path and the platform, 3 and 9 are the relocated table and entry point, 4 to 7 the entry size and count, the page size and the interpreter base, 17 the clock ticks, and the others zero |
| `InitialStacks.ImageIsFound` | crates/mcr-elf/src/stack.rs:316-341 | the words of the stack, read in order, give exactly that |
| `InitialStacks.ValidateConfig` | crates/mcr-elf/src/stack.rs:388-427 | exactly the configurations with a size, a platform and no NUL inside a string pass, and which error the others give |
| `ElfImages.RegisterArea` | crates/mcr-elf/src/image.rs:567-588 | accepts exactly nonempty areas that overlap none, and keeps the list sorted and disjoint |
| `ElfImages.LoadSegments` | crates/mcr-elf/src/image.rs:354-387 | succeeds exactly when every segment can be loaded and all areas are compatible; each region is file bytes and zeros |
| `ElfImages.LoadInterpreter` | crates/mcr-elf/src/image.rs:451-516 | the interpreter at its base, exactly when it names none itself and everything of it fits |
| `ElfImages.AddStack` | crates/mcr-elf/src/image.rs:393-425 | the stack area, zeros below the stack pointer and the initial stack above |
| `ElfImages.WantedPair` | crates/mcr-elf/src/image.rs:427-427 | after sorting, areas and regions pair up one to one |
| `ElfImages.ReadFinds` | crates/mcr-elf/src/image.rs:62-73 | any region that contains a range is the one read |
| `ElfImages.SegmentRead` | crates/mcr-elf/src/image.rs:354-387 | reading at bias plus address gives the file bytes, then zeros up to the memory size |
| `ElfImages.EntryIsExecutable` | crates/mcr-elf/src/image.rs:429-433 | the relocated entry point lies in an executable area |
| `ElfImages.HighestEnd` | crates/mcr-elf/src/image.rs:438-445 | the break is the highest relocated mapping end |
| `ElfImages.BuildImage` | crates/mcr-elf/src/image.rs:326-449 | an image with exactly the areas of program, interpreter and stack, below 2^64, that reads as the plan and the file say, exactly when both plans can be loaded together |
| `ImageLoading.WithLayout` | crates/mcr-memory/src/lib.rs:284-310 | an empty memory for exactly the aligned layouts |
| `ImageLoading.ReadsAgree` | crates/mcr-memory/src/lib.rs:312-331 | the image's reader and the guest's memory agree |
| `ImageLoading.FromImage` | crates/mcr-memory/src/lib.rs:312-331 | exactly the image is mapped, with its bytes and protections; unless the host refuses, exactly when every area and the break fit |
| `ImageLoading.GuestFindsProgram` | crates/mcr-memory/src/lib.rs:312-331 | a loaded guest finds the segments of the ELF file, its stack, and an executable entry point |
| `ImageLoading.GuestFindsHeaders` | crates/mcr-elf/src/parser.rs:625-643 | without a PT_PHDR header, AT_PHDR points at the file's program header table in guest memory |
| `ImageLoading.SegmentsAreHeaders` | crates/mcr-elf/src/parser.rs:293-317 | the segments found in guest memory are what the PT_LOAD headers of the file say, bytes and permissions |
| `ImageLoading.GuestFindsInterpreter` | crates/mcr-elf/src/image.rs:451-516 | the guest finds the PT_LOAD headers of the interpreter's file at the interpreter base |
| `ImageLoading.LoadProgram` | crates/mcr-task/src/program.rs:151-166 | from the bytes of an ELF file to a process: the guest finds every PT_LOAD header of the file and of its interpreter at its place with its permissions, its initial stack and an executable entry point, and nothing else is mapped; otherwise the file is unfit, the image cannot be built, the areas do not fit, or the host refuses |
| `ImageLoading.GuestFindsWritten` | crates/mcr-elf/src/parser.rs:704-733 | what the loads of a written file say is what the guest finds |
| `ImageLoading.StartedAsWritten` | crates/mcr-task/src/program.rs:151-166 | the same end to end in the numbers the file was written from: bytes and permissions of every load at its bias, the entry point, and what the auxiliary vector says of the file |
| `NativePatches.Encode` | crates/mcr-jit/src/native_patch.rs:477-516 | writes the format, or fails exactly when an address precedes the base |
| `NativePatches.Decode` | crates/mcr-jit/src/native_patch.rs:522-603 | reads the format as specified by `Decoded`; which bytes that are, and what they mean, see `PatchFiles` below |
| `NativePatches.Reader.ReadCounted` | crates/mcr-jit/src/native_patch.rs:659-685 | the advancing reader takes the counted rows off the front |
| `NativePatches.RowsBack` | crates/mcr-jit/src/native_patch.rs:477-603 | rows written one after the other are read back, and what follows them is left |
| `NativePatches.ParsedBack` | crates/mcr-jit/src/native_patch.rs:477-603 | the tables of an encoded file are the encoded rows |
| `NativePatches.KeyedBack` | crates/mcr-jit/src/native_patch.rs:497-603 | an address-keyed table read at another base is the table moved |
| `NativePatches.CodecIsRebase` | crates/mcr-jit/src/native_patch.rs:812-868 | storing at one base and loading at another succeeds exactly when the rebase does and trap lengths are 1 to 15, with the same result |
| `NativePatches.RebaseReturns` | crates/mcr-jit/src/native_patch.rs:812-868 | rebasing back gives the metadata it started from |
| `PatchFiles.HeaderExactly` | crates/mcr-jit/src/native_patch.rs:529-545 | one sequence of 28 bytes passes: the magic, version 3 and that key |
| `PatchFiles.OtherKeyRejected` | crates/mcr-jit/src/native_patch.rs:536-545 | a file written for one image is not read for another |
| `PatchFiles.ParsedExactly` | crates/mcr-jit/src/native_patch.rs:522-603 | the decoder splits exactly the files of a start and four counted tables with nothing left over, into those tables |
| `PatchFiles.DecodedExactly` | crates/mcr-jit/src/native_patch.rs:522-603 | for any bytes: metadata exactly when they are a file for that key whose rows fit the base and mean it |
| `PatchFiles.EncodedIsFile` | crates/mcr-jit/src/native_patch.rs:477-516 | what the encoder writes is a file that means the metadata |
| `PatchFiles.RebaseExactly` | crates/mcr-jit/src/native_patch.rs:812-868 | rebasing succeeds exactly when every address can be moved, and keeps every distance from the base |
| `PatchFiles.RebaseToItself` | crates/mcr-jit/src/native_patch.rs:812-868 | rebasing from a base to itself changes nothing |
| `FsRewrites.ReplacementParts` | crates/mcr-jit/src/native_patch.rs:1050-1077 | exactly when a replacement exists, and its displacement as a signed and an unsigned number |
| `FsRewrites.RewriteKeepsMeaning` | crates/mcr-jit/src/native_patch.rs:1050-1077 | the same operation at the same address, whatever the index register r12 holds; FS base and displacement add up without wrapping |
| `FsRewrites.RewriteIsUndone` | crates/mcr-jit/src/native_patch.rs:1021-1077 | recovering with the same FS base gives the original bytes |
| `FsRewrites.UndoneIsRewritten` | crates/mcr-jit/src/native_patch.rs:1021-1077 | rewriting a recovered original gives the code back exactly when the absolute address and the FS base are in range |
| `FsRewrites.NotRewrittenAgain` | crates/mcr-jit/src/native_patch.rs:1021-1077 | one instruction undone with an upper-half FS base and one with an address from 2^31 on, which are not rewritten |
| `FsRewrites.RescanFindsOriginal` | crates/mcr-jit/src/native_patch.rs:892-993 | a rescan of patched code finds the original, whether or not it was rewritten |
| `FsRewrites.FormsExactly` | crates/mcr-jit/src/native_patch.rs:996-1008 | exactly the loads and subtracts of the nine-byte form are found, with every register and displacement |
| `FsRewrites.FormMeans` | crates/mcr-jit/src/native_patch.rs:996-1008 | what each such form does: operation, register, and the address with or without r12 |
| `FsRewrites.RewritesAs` | crates/mcr-jit/src/native_patch.rs:1050-1077 | in the assembler's terms: the same operation and register at the sum of FS base and displacement, exactly when that is a positive 32-bit address |
| `Flags.MaskRemainder` | crates/mcr-jit/src/registers.rs:109-119 | masking to a width is the remainder |
| `Flags.SignTests` | crates/mcr-jit/src/registers.rs:75-95 | the exclusive-or formulas test whether signs differ |
| `Flags.AddFormulas` | crates/mcr-jit/src/registers.rs:75-84 | carry and overflow exactly when the unsigned or signed sum leaves the range |
| `Flags.SubFormulas` | crates/mcr-jit/src/registers.rs:86-95 | after a subtraction every conditional jump follows the signed or unsigned comparison |
| `Flags.GuestFlags.SetAddResult` | crates/mcr-jit/src/registers.rs:75-84 | sets the flags of an addition; the jumps on the sign follow the signed result |
| `Flags.GuestFlags.SetSubResult` | crates/mcr-jit/src/registers.rs:86-95 | sets flags with which the jumps of execution.rs compare the operands, and the jumps on the sign follow the signed result |
| `Flags.GuestFlags.SetLogicResult` | crates/mcr-jit/src/registers.rs:97-101 | sets flags with which the jumps compare the result with zero, those on the sign included |
| `Flags.SignExtendKeepsValue` | crates/mcr-jit/src/registers.rs:125-128 | the two shifts keep the signed value of the low bits |
| `ApkResolver.ResolveClosure` | scripts/materialize-alpine-rootfs.py:585-616 | the worklist terminates with the specified closure |
| `ApkResolver.ClosureSatisfies` | scripts/materialize-alpine-rootfs.py:585-616 | plans hold each name once, and with consistent indexes satisfy every request and dependency |
| `ApkResolver.SafeExactlyWhenConsistent` | scripts/materialize-alpine-rootfs.py:595-614 | all successful resolutions satisfy all dependencies if and only if the indexes are consistent |
| `ApkResolver.KeyedIsConsistent` | scripts/materialize-alpine-rootfs.py:512-525 | indexes keyed by name and true provisions with one record per name are consistent |
| `ApkResolver.NormalizedIs` | scripts/materialize-alpine-rootfs.py:661-675 | whatever blanks, conflict mark and version surround it, the name is found, and exactly which dependencies are ignored |
| `ApkResolver.ClosureNeeds` | scripts/materialize-alpine-rootfs.py:585-616 | nothing is planned that no request and no dependency of a planned package leads to |
| `ApkResolver.ClosureFails` | scripts/materialize-alpine-rootfs.py:605-607 | resolution fails only for a name that is neither a package nor provided, of a request or of a package that was needed |
| `ApkOrdering.Sorter.Visit` | scripts/materialize-alpine-rootfs.py:629-653 | the recursive visit terminates, computes the specified order and leaves the stack as it was |
| `ApkOrdering.TopoSort` | scripts/materialize-alpine-rootfs.py:619-658 | the specified order: each planned name exactly once, and packages after those visited for them if and only if the visits have no cycle |
| `ApkOrdering.OrderRulesOutCycles` | scripts/materialize-alpine-rootfs.py:619-658 | an order that puts what is visited first leaves no cycle of visits |
| `ApkOrdering.OrderUniform` | scripts/materialize-alpine-rootfs.py:619-658 | with one record per name the order is a reordering of the plan, and puts what is visited first if and only if there is no cycle |
| `ApkOrdering.VisitedPlaced` | scripts/materialize-alpine-rootfs.py:629-653 | a visit adds only packages its package reaches, each after those visited for it |
| `ApkOrdering.ProvidersFirstExactly` | scripts/materialize-alpine-rootfs.py:619-658 | every order of the plan is installed with providers first, if and only if the sort gets from each package to a provider of each dependency; necessary with cycles too |
| `ApkOrdering.UnreachedComesLate` | scripts/materialize-alpine-rootfs.py:656-658 | a package put first whose provider is not reached comes before all its providers |
| `ApkPlans.LoadIndexes` | scripts/materialize-alpine-rootfs.py:513-525 | the loop over the records computes the indexes in which the first record of a name stays |
| `ApkPlans.AllEntered` | scripts/materialize-alpine-rootfs.py:513-525 | every entry is a record that has or provides the name it is entered under |
| `ApkPlans.OwnNameWins` | scripts/materialize-alpine-rootfs.py:605-605 | a package is found under its own name, whoever else provides it |
| `ApkPlans.FirstSupplierWins` | scripts/materialize-alpine-rootfs.py:521-524 | a provided name is entered for the first record that supplies it |
| `ApkPlans.DistinctIsConsistent` | scripts/materialize-alpine-rootfs.py:513-525 | records of distinct names give consistent indexes |
| `ApkPlans.TwoRecordsInconsistent` | scripts/materialize-alpine-rootfs.py:513-525 | two records of one name, and a resolution that leaves a request unprovided |
| `ApkPlans.ProviderComesLate` | scripts/materialize-alpine-rootfs.py:640-653 | three records and a resolution in which a package comes before the only planned provider of its dependency, without a cycle |
| `ApkPlans.OneProviderReached` | scripts/materialize-alpine-rootfs.py:640-653 | when no two records provide one name the sort gets to a provider of every dependency |
| `ApkPlans.ResolvePackages` | scripts/materialize-alpine-rootfs.py:585-616 | from records of distinct names: each planned package once, all requests and dependencies satisfied; without cycles of visits a provider of each dependency comes first if the sort gets to one; only what is needed is planned, and a failure names what is missing |
| `SocketTables.SocketTable.AllocateId` | crates/mcr-net/src/table.rs:1113-1123 | an id never used before, none after the last |
| `SocketTables.SocketTable.AllocateToken` | crates/mcr-net/src/table.rs:1125-1141 | a token of a new generation, or nothing changed |
| `SocketTables.SocketTable.CreateSocket` | crates/mcr-net/src/table.rs:152-158 | exactly the fitting protocols; a new socket in the created state |
| `SocketTables.SocketTable.CreateSocketWithHandle` | crates/mcr-net/src/table.rs:160-178 | a new socket with its host entry and a new token, exactly while there are ids and generations |
| `SocketTables.SocketTable.EnsureHostEntry` | crates/mcr-net/src/table.rs:937-974 | an entry, exactly when there is one or the host opens one, under which token, and when the host would block; other entries untouched |
| `SocketTables.SocketTable.Bind` | crates/mcr-net/src/table.rs:275-313 | exactly a created socket is bound, to an address of its family, when its host entry can be had and the host reports an address: that one, else the one asked for |
| `SocketTables.SocketTable.Listen` | crates/mcr-net/src/table.rs:315-359 | exactly a bound or listening stream socket listens, on its bound address, unless the host refuses |
| `SocketTables.SocketTable.Connect` | crates/mcr-net/src/table.rs:377-413 | exactly when it is connected and exactly when in progress; connected to the peer the host reports, a datagram socket to the one asked for, with the local address reported; otherwise unchanged |
| `SocketTables.SocketTable.Accept` | crates/mcr-net/src/table.rs:415-478 | exactly when a connection is taken: a connected socket under an unused id with the peer reported; what was cached about the listener is forgotten |
| `SocketTables.SocketTable.Shutdown` | crates/mcr-net/src/table.rs:480-506 | exactly a connected socket is shut down unless the host refuses, and a side once shut stays shut |
| `SocketTables.SocketTable.RecvConnected` | crates/mcr-net/src/table.rs:552-577 | succeeds exactly on a connected socket open for reading, with a host entry, when the host does; forgets what was cached |
| `SocketTables.SocketTable.RecvFrom` | crates/mcr-net/src/table.rs:658-683 | the same for datagrams, opening a host entry if needed |
| `SocketTables.SocketTable.SendTo` | crates/mcr-net/src/table.rs:606-630 | succeeds exactly on a datagram socket open for writing, to its family, when the host does; the cache stays |
| `SocketTables.SocketTable.FinishConnect` | crates/mcr-net/src/table.rs:1025-1058 | only a pending connect changes state, and to which: with the local and peer address the host reports, or the address asked for when there is no host entry |
| `SocketTables.SocketTable.ApplyCompletion` | crates/mcr-net/src/table.rs:39-50 | only a completion of the live token counts |
| `SocketTables.SocketTable.CachedReadiness` | crates/mcr-net/src/table.rs:813-840 | exactly when it succeeds, with what the cache knows of the live token after draining, as far as the caller is interested; readiness to write completes a pending connect |
| `SocketTables.SocketTable.Poll` | crates/mcr-net/src/table.rs:712-740 | exactly when it succeeds, with the cached events of interest, else what the host reports; a pending connect is completed, and no other socket changes |
| `SocketTables.SocketTable.Addresses` | crates/mcr-net/src/table.rs:261-273 | both addresses of a connected socket, its own of a bound or listening one, none of any other, after completing a pending connect |
| `SocketTables.SocketTable.RioCapability` | crates/mcr-net/src/table.rs:891-897 | exactly when it gives a closed socket a host entry |
| `SocketTables.SocketTable.Close` | crates/mcr-net/src/table.rs:1082-1101 | closed, without host entry or cached readiness |
| `SocketTables.DrainedIsLive` | crates/mcr-net/src/table.rs:39-50 | draining touches the live token only and sets each of its flags exactly when something said so |
| `SocketTables.InterestKeeps` | crates/mcr-net/src/table.rs:77-85 | of readable, writable and priority only what is asked for survives; errors, hang-ups and invalid always do |
| `SocketTables.KnownExactly` | crates/mcr-net/src/table.rs:52-66 | the cache answers exactly when a flag that survives the interest is set, and with which flags |
| `SocketTables.KindsExactly` | crates/mcr-net/src/validation.rs:19-120 | which protocols fit a socket type, and which sockets send and receive |
| `SocketTables.AdvancesTransitive` | crates/mcr-net/src/table.rs:275-478 | the parts of an operation add up to one allowed step |
| `SocketTables.SocketsStay` | crates/mcr-net/src/table.rs:87-94 | over every run sockets keep their kind and generations only grow |
| `SocketTables.ClosedForGood` | crates/mcr-net/src/table.rs:1082-1101 | over every run Closed is never left, and nothing is cached about a closed socket |
| `SocketTables.TokensIssuedOnce` | crates/mcr-net/src/table.rs:1125-1141 | over every run no token is issued twice |
| `SocketTables.TokensStayGone` | crates/mcr-net/src/table.rs:937-974 | over every run a token once gone never comes back |
| `SocketTables.ListeningWasBound` | crates/mcr-net/src/table.rs:315-359 | over every run a listening socket is a stream socket that was bound to the same address |
| `SocketTables.Perform` | crates/mcr-net/src/table.rs:143-1101 | every call is a step of a run |
| `SocketTables.Run` | crates/mcr-net/src/table.rs:143-1101 | every sequence of calls is a run; while it asks no closed socket for its capability, no closed socket has a host entry |
| `SocketTables.ReviveClosed` | crates/mcr-net/src/table.rs:891-897 | create, close, ask for the capability: a closed socket with a host entry |
| `TarArchives.OctalFieldRoundTrip` | crates/mcr-image/src/store.rs:410-428 | exactly the numbers below a field's capacity are written, and they are read back |
| `TarArchives.FieldsJoin` | crates/mcr-image/src/store.rs:361-402 | name and prefix fields give the path back, and the name is never empty |
| `TarArchives.FieldsExactly` | crates/mcr-image/src/store.rs:361-402 | what is written some split fits, and a path some split fits is written exactly when it is short or its last split leaves a prefix that fits |
| `TarArchives.DeepPathRefused` | crates/mcr-image/src/store.rs:361-402 | a valid path that a split fits and that is refused |
| `TarArchives.ChecksumFits` | crates/mcr-image/src/store.rs:429-441 | the sum of a block always fits six octal digits |
| `TarArchives.BuildHeader` | crates/mcr-image/src/store.rs:335-353 | every field at its place, zeros elsewhere, and the checksum of the block with a blank checksum |
| `TarArchives.HeaderBack` | crates/mcr-image/src/store.rs:335-353 | a reader recovers every field, and the header does not look like an end marker |
| `TarArchives.AttributesBack` | crates/mcr-image/src/store.rs:335-353 | the other fields: mode 644, owner and time zero, a plain file, ustar 00 |
| `TarArchives.ChecksumMeans` | crates/mcr-image/src/store.rs:347-352 | the checksum is the sum of the block with its own field counted as blanks, closed by a NUL and a blank |
| `TarArchives.PathExactly` | crates/mcr-image/src/store.rs:361-370 | exactly the relative paths of proper names without backslash are valid |
| `TarArchives.AppendFile` | crates/mcr-image/src/store.rs:335-360 | exactly the fitting entries are appended, in whole blocks |
| `TarArchives.WriteArchive` | crates/mcr-image/src/store.rs:211-221 | a multiple of 512 bytes from which a reader recovers exactly the entries, for paths without NUL |
| `Wildcards.WildcardMatches` | crates/mcr-build/src/context.rs:423-452 | every accept is a match; for exact patterns every match is accepted |
| `Wildcards.ScanIsExact` | crates/mcr-build/src/context.rs:434-449 | the greedy scan loses no match of a rest that begins with a star |
| `Wildcards.AcceptsMeans` | crates/mcr-build/src/context.rs:423-452 | acceptance against the recursive meaning |
| `Wildcards.ExactPatterns` | crates/mcr-build/src/context.rs:423-452 | the matcher is right on all values if and only if the pattern has no star or its last piece has no border |

## Left out

- Host page protections, instruction-cache flushes and the executable write generation: they go through the host memory interface, which is assumed to succeed.
- Host buffers are sequences in a store with reference counts rather than arrays, so aliasing inside one buffer is not modelled; what is modelled is which member holds which buffer.
- Dropping a whole memory, and the buffers a failed `from_image` had taken: the model leaves them held under that member's name.
- Exhaustion of allocation ids, and sizes that do not fit the host's word.
- `patch_code_fixed`, madvise, and the read-only slice: the same ranges and lookups as the operations that are modelled.
- File offsets of file-backed mappings: carried along, never used; mappings are zero-filled.
- The payloads and texts of errors; errors that only differ in their texts are one.
- GuestMemories.GuestMemory.Mmap: when the host refuses to re-allocate what a failed merge had released, the call ends with RestoreFailure and the memory is not used any more; the source can go on retrying at other addresses.
- GuestMemories.GuestMemory.ResizeHeap: the source detaches the allocation once more at the end; it is already held once there.
- Families.Run: a member whose memory a call breaks (a failed undo of a merge, a growth over another piece of the heap) takes no further calls; nothing is stated about its memory from there on.
- ElfParser.ParseLoadPlan: which of several faults is reported follows the source but is not stated.
- NativePatches.CodecIsRebase: tables of 2^32 rows or more are excluded; their counts are truncated in the source.
- Hashing of images, reading and writing cache files, and the scan for patch sites: the instruction decoder is foreign code.
- Registers other than flags, and all instruction execution but conditional branches.
- ApkResolver.ResolveClosure: white space is the ASCII white space; parsing of package indexes, downloads and extraction are left out, and so is Python's recursion limit in the sort.
- SocketTables.SocketTable.Poll: options, last errors, blocking mode and the batched form are left out; what the host answers is a parameter.
- DNS, epoll and the host transport.
- TarArchives.WriteArchive: paths are byte strings; the JSON members of an image archive are entries like any other.
- Ignore rules around the matcher (negation, directories, prefixes).
