/**
 The ELF parser (crates/mcr-elf/src/parser.rs): from file bytes to a load plan, following the Program Header
 part of chapter 5 of the System V gABI.
 */
module ElfParser {
  import opened Ranges
  import opened Bytes
  import opened ElfPlans

  const HEADER_SIZE: nat := 64
  const PROGRAM_HEADER_SIZE: nat := 56
  const PT_LOAD: nat := 1
  const PT_INTERP: nat := 3
  const PT_PHDR: nat := 6

  datatype ElfError =
    | FileTooSmall | InvalidMagic | UnsupportedClass | UnsupportedEndian | UnsupportedIdentVersion
    | UnsupportedFileVersion | UnsupportedMachine | UnsupportedObjectType | InvalidHeaderSize
    | MissingProgramHeaders | InvalidProgramHeaderEntrySize | ProgramHeaderTableOverflow
    | ProgramHeaderTableOutOfBounds | SegmentFileSizeExceedsMemorySize | SegmentFileRangeOverflow
    | SegmentFileRangeOutOfBounds | SegmentAddressOverflow | SegmentMappingOverflow | InvalidSegmentAlignment
    | MisalignedSegment | UnsupportedSegmentFlags | MissingLoadSegments | OverlappingLoadSegments
    | EntrypointNotExecutable | DuplicateInterpreter | InterpreterRangeOverflow | InterpreterOutOfBounds
    | UnterminatedInterpreter | EmptyInterpreter

  type Parsed<+T> = Result<T, ElfError>

  // Fields

  function ReadLe(bytes: seq<Byte>, offset: nat, n: nat): (v: nat)
    requires offset + n <= |bytes|
    ensures v < Pow256(n)
  {
    LeUnique(bytes[offset..offset + n]);
    FromLe(bytes[offset..offset + n])
  }

  function ReadU64(bytes: seq<Byte>, offset: nat): (v: U64)
    requires offset + 8 <= |bytes|
  {
    Pow256Values();
    ReadLe(bytes, offset, 8)
  }

  datatype ElfHeader = ElfHeader(
    objectType: nat, machine: nat, version: nat, entrypoint: U64, programHeaderOffset: U64,
    headerSize: nat, entrySize: nat, entryCount: nat
  )

  datatype RawHeader = RawHeader(
    index: nat, headerType: nat, flags: nat, fileOffset: U64, virtualAddress: U64,
    fileSize: U64, memorySize: U64, alignment: U64
  )

  function ValidateIdent(bytes: seq<Byte>): Option<ElfError> {
    if |bytes| < HEADER_SIZE then Some(FileTooSmall)
    else if bytes[0..4] != [0x7f, 0x45, 0x4c, 0x46] then Some(InvalidMagic)
    else if bytes[4] != 2 then Some(UnsupportedClass)
    else if bytes[5] != 1 then Some(UnsupportedEndian)
    else if bytes[6] != 1 then Some(UnsupportedIdentVersion)
    else None
  }

  function ParseHeader(bytes: seq<Byte>): (r: Parsed<ElfHeader>)
    requires HEADER_SIZE <= |bytes|
    ensures r.Ok? ==> r.value.entrySize < 0x1_0000 && r.value.entryCount < 0x1_0000
  {
    Pow256Values();
    var header := ElfHeader(ReadLe(bytes, 16, 2), ReadLe(bytes, 18, 2), ReadLe(bytes, 20, 4), ReadU64(bytes, 24),
                            ReadU64(bytes, 32), ReadLe(bytes, 52, 2), ReadLe(bytes, 54, 2), ReadLe(bytes, 56, 2));
    if header.version != 1 then Err(UnsupportedFileVersion)
    else if header.machine != 62 then Err(UnsupportedMachine)
    else Ok(header)
  }

  function ValidateTable(header: ElfHeader, fileSize: nat): (e: Option<ElfError>)
    ensures e.None? ==> header.entrySize == PROGRAM_HEADER_SIZE && 0 < header.entryCount
                        && header.programHeaderOffset + PROGRAM_HEADER_SIZE * header.entryCount <= fileSize
  {
    if header.headerSize != HEADER_SIZE then Some(InvalidHeaderSize)
    else if header.entryCount == 0 then Some(MissingProgramHeaders)
    else if header.entrySize != PROGRAM_HEADER_SIZE then Some(InvalidProgramHeaderEntrySize)
    else if header.programHeaderOffset + header.entrySize * header.entryCount >= U64_LIMIT
         then Some(ProgramHeaderTableOverflow)
    else if header.programHeaderOffset + header.entrySize * header.entryCount > fileSize
         then Some(ProgramHeaderTableOutOfBounds)
    else None
  }

  function ParseRawHeader(bytes: seq<Byte>, index: nat, offset: nat): RawHeader
    requires offset + PROGRAM_HEADER_SIZE <= |bytes|
  {
    RawHeader(index, ReadLe(bytes, offset, 4), ReadLe(bytes, offset + 4, 4), ReadU64(bytes, offset + 8),
              ReadU64(bytes, offset + 16), ReadU64(bytes, offset + 32), ReadU64(bytes, offset + 40),
              ReadU64(bytes, offset + 48))
  }

  // Segments

  predicate IsPowerOfTwo(n: nat) {
    n == 1 || (n > 1 && n % 2 == 0 && IsPowerOfTwo(n / 2))
  }

  function AlignUpPage(value: U64): (r: Option<U64>)
    ensures r.Some? ==> r.value % PAGE_SIZE == 0 && value <= r.value < value + PAGE_SIZE
  {
    var remainder := value % PAGE_SIZE;
    if remainder == 0 then Some(value)
    else if value + (PAGE_SIZE - remainder) < U64_LIMIT then Some(value + (PAGE_SIZE - remainder))
    else None
  }

  /** The page-aligned mapping of a segment: the whole pages around it, filled from the file from the first page on. */
  ghost predicate Maps(h: RawHeader, m: MemoryMapping) {
    && m.start % PAGE_SIZE == 0 && m.start <= h.virtualAddress < m.start + PAGE_SIZE
    && m.end % PAGE_SIZE == 0 && h.virtualAddress + h.memorySize <= m.end < h.virtualAddress + h.memorySize + PAGE_SIZE
    && m.fileOffset + (h.virtualAddress - m.start) == h.fileOffset
    && m.fileSize == h.fileSize + (h.virtualAddress - m.start)
  }

  function BuildMapping(h: RawHeader, permissions: Permissions): (r: Parsed<MemoryMapping>)
    requires h.virtualAddress + h.memorySize < U64_LIMIT
    ensures r.Ok? ==> Maps(h, r.value) && r.value.permissions == permissions
  {
    var start := h.virtualAddress / PAGE_SIZE * PAGE_SIZE;
    var pageOffset := h.virtualAddress - start;
    var end := AlignUpPage(h.virtualAddress + h.memorySize);
    if end.None? || h.fileOffset < pageOffset || h.fileSize + pageOffset >= U64_LIMIT then Err(SegmentMappingOverflow)
    else Ok(MemoryMapping(start, end.value, h.fileOffset - pageOffset, h.fileSize + pageOffset, permissions))
  }

  ghost predicate SegmentOk(s: LoadSegment, fileLength: nat) {
    && s.fileSize <= s.memorySize && s.fileOffset + s.fileSize <= fileLength
       && s.virtualAddress + s.memorySize < U64_LIMIT
    && s.mapping.permissions == s.permissions
    && Maps(RawHeader(s.index, PT_LOAD, 0, s.fileOffset, s.virtualAddress, s.fileSize, s.memorySize, 0), s.mapping)
  }

  function PermissionsOf(flags: nat): (r: Permissions)
    ensures flags < 8 ==> r.Flags() == flags
  {
    Permissions(flags / 4 % 2 == 1, flags / 2 % 2 == 1, flags % 2 == 1)
  }

  function SegmentFrom(h: RawHeader, fileLength: nat): (r: Parsed<LoadSegment>)
    ensures r.Ok? ==>
              && SegmentOk(r.value, fileLength) && r.value.index == h.index && r.value.fileOffset == h.fileOffset
              && r.value.virtualAddress == h.virtualAddress && r.value.fileSize == h.fileSize
              && r.value.memorySize == h.memorySize && r.value.permissions.Flags() == h.flags
  {
    if h.fileSize > h.memorySize then Err(SegmentFileSizeExceedsMemorySize)
    else if h.fileOffset + h.fileSize >= U64_LIMIT then Err(SegmentFileRangeOverflow)
    else if h.fileOffset + h.fileSize > fileLength then Err(SegmentFileRangeOutOfBounds)
    else if h.virtualAddress + h.memorySize >= U64_LIMIT then Err(SegmentAddressOverflow)
    else if h.alignment > 1 && !IsPowerOfTwo(h.alignment) then Err(InvalidSegmentAlignment)
    else if h.alignment > 1 && h.fileOffset % h.alignment != h.virtualAddress % h.alignment then Err(MisalignedSegment)
    else if h.flags / 8 != 0 then Err(UnsupportedSegmentFlags)
    else
      var permissions := PermissionsOf(h.flags);
      var mapping := BuildMapping(h, permissions);
      if mapping.Err? then Err(mapping.error)
      else Ok(LoadSegment(h.index, h.fileOffset, h.virtualAddress, h.fileSize, h.memorySize, permissions,
                          mapping.value))
  }

  function ParseInterpreter(h: RawHeader, bytes: seq<Byte>): (r: Parsed<seq<Byte>>)
    ensures r.Ok? ==> r.value != [] && h.fileOffset + h.fileSize <= |bytes|
                      && bytes[h.fileOffset..h.fileOffset + h.fileSize] == r.value + [0]
  {
    if h.fileOffset + h.fileSize >= U64_LIMIT then Err(InterpreterRangeOverflow)
    else if h.fileOffset + h.fileSize > |bytes| then Err(InterpreterOutOfBounds)
    else
      var text := bytes[h.fileOffset..h.fileOffset + h.fileSize];
      if |text| == 0 || text[|text| - 1] != 0 then Err(UnterminatedInterpreter)
      else if |text| == 1 then Err(EmptyInterpreter)
      else
        assert text == text[..|text| - 1] + [0];
        Ok(text[..|text| - 1])
  }

  // Order and overlap

  ghost predicate SortedByAddress(segments: seq<LoadSegment>) {
    forall i, j :: 0 <= i < j < |segments| ==> segments[i].virtualAddress <= segments[j].virtualAddress
  }

  /** By address, and in the order of the file where addresses are equal. */
  predicate Before(a: LoadSegment, b: LoadSegment) {
    a.virtualAddress < b.virtualAddress || (a.virtualAddress == b.virtualAddress && a.index < b.index)
  }

  ghost predicate Ranked(segments: seq<LoadSegment>) {
    forall i, j :: 0 <= i < j < |segments| ==> Before(segments[i], segments[j])
  }

  ghost predicate InFileOrder(segments: seq<LoadSegment>, end: nat) {
    && (forall i, j :: 0 <= i < j < |segments| ==> segments[i].index < segments[j].index)
    && (forall i :: 0 <= i < |segments| ==> segments[i].index < end)
  }

  /** Segments can be ranked in one way only. */
  lemma {:induction false} RankedOnce(left: seq<LoadSegment>, right: seq<LoadSegment>)
    requires Ranked(left) && Ranked(right) && multiset(left) == multiset(right)
    ensures left == right
    decreases |left|
  {
    hide Ranked;
    assert |left| == |multiset(left)| == |right|;
    if left != [] {
      SameLast(left, right);
      WithoutLast(left);
      WithoutLast(right);
      RankedOnce(left[..|left| - 1], right[..|left| - 1]);
      assert left == left[..|left| - 1] + [left[|left| - 1]];
      assert right == right[..|left| - 1] + [right[|left| - 1]];
    }
  }

  lemma SameLast(left: seq<LoadSegment>, right: seq<LoadSegment>)
    requires Ranked(left) && Ranked(right) && multiset(left) == multiset(right) && |left| == |right| > 0
    ensures left[|left| - 1] == right[|left| - 1]
  {
    var n := |left| - 1;
    assert left[n] in multiset(right) && right[n] in multiset(left);
    var i :| 0 <= i <= n && right[i] == left[n];
    var j :| 0 <= j <= n && left[j] == right[n];
    assert i < n ==> Before(right[i], right[n]);
    assert j < n ==> Before(left[j], left[n]);
  }

  lemma WithoutLast(segments: seq<LoadSegment>)
    requires segments != [] && Ranked(segments)
    ensures Ranked(segments[..|segments| - 1])
    ensures multiset(segments[..|segments| - 1]) == multiset(segments) - multiset{segments[|segments| - 1]}
  {
    assert segments == segments[..|segments| - 1] + [segments[|segments| - 1]];
  }

  /** Adds a segment behind those that do not start above it. */
  method InsertByAddress(segments: seq<LoadSegment>, s: LoadSegment) returns (r: seq<LoadSegment>)
    requires Ranked(segments) && forall i :: 0 <= i < |segments| ==> segments[i].index < s.index
    ensures Ranked(r) && multiset(r) == multiset(segments) + multiset{s} && |r| == |segments| + 1
  {
    var i := |segments|;
    while i > 0 && segments[i - 1].virtualAddress > s.virtualAddress
      invariant 0 <= i <= |segments|
      invariant forall j :: i <= j < |segments| ==> s.virtualAddress < segments[j].virtualAddress
    {
      i := i - 1;
    }
    r := segments[..i] + [s] + segments[i..];
    InsertedSorted(segments, s, i);
    InsertedMultiset(segments, s, i);
  }

  lemma InsertedSorted(segments: seq<LoadSegment>, s: LoadSegment, at: nat)
    requires Ranked(segments) && at <= |segments| && forall i :: 0 <= i < |segments| ==> segments[i].index < s.index
    requires at > 0 ==> segments[at - 1].virtualAddress <= s.virtualAddress
    requires forall j :: at <= j < |segments| ==> s.virtualAddress < segments[j].virtualAddress
    ensures Ranked(segments[..at] + [s] + segments[at..])
  {
    var r := segments[..at] + [s] + segments[at..];
    forall i, j | 0 <= i < j < |r|
      ensures Before(r[i], r[j])
    {
      assert r[i] == if i < at then segments[i] else if i == at then s else segments[i - 1];
      assert r[j] == if j < at then segments[j] else if j == at then s else segments[j - 1];
      assert i < at - 1 ==> Before(segments[i], segments[at - 1]);
    }
  }

  lemma InsertedMultiset(segments: seq<LoadSegment>, s: LoadSegment, at: nat)
    requires at <= |segments|
    ensures multiset(segments[..at] + [s] + segments[at..]) == multiset(segments) + multiset{s}
  {
    assert segments == segments[..at] + segments[at..];
    assert multiset(segments) == multiset(segments[..at]) + multiset(segments[at..]);
  }

  method SortByAddress(segments: seq<LoadSegment>, ghost end: nat) returns (r: seq<LoadSegment>)
    requires InFileOrder(segments, end)
    ensures Ranked(r) && multiset(r) == multiset(segments) && |r| == |segments|
  {
    r := [];
    for i := 0 to |segments|
      invariant Ranked(r) && multiset(r) == multiset(segments[..i]) && |r| == i
    {
      forall j | 0 <= j < |r|
        ensures r[j].index < segments[i].index
      {
        assert r[j] in multiset(segments[..i]);
        assert r[j] in segments[..i];
      }
      r := InsertByAddress(r, segments[i]);
      assert segments[..i + 1] == segments[..i] + [segments[i]];
    }
    assert segments[..|segments|] == segments;
  }

  /** What the check of adjacent pairs establishes: it skips every pair with an empty member. */
  ghost predicate AdjacentApart(segments: seq<LoadSegment>) {
    forall i :: 0 <= i < |segments| - 1 ==> PairApart(segments, i)
  }

  predicate PairApart(segments: seq<LoadSegment>, i: nat)
    requires i + 1 < |segments|
  {
    || segments[i].memorySize == 0 || segments[i + 1].memorySize == 0
    || segments[i].virtualAddress + segments[i].memorySize <= segments[i + 1].virtualAddress
  }

  method CheckAdjacent(segments: seq<LoadSegment>) returns (ok: bool)
    ensures ok <==> AdjacentApart(segments)
  {
    var i := 0;
    while i + 1 < |segments|
      invariant forall j :: 0 <= j < i && j + 1 < |segments| ==> PairApart(segments, j)
    {
      if !PairApart(segments, i) {
        return false;
      }
      i := i + 1;
    }
    ok := true;
  }

  ghost predicate Apart(segments: seq<LoadSegment>) {
    forall i, j :: 0 <= i < j < |segments| ==> MemoryApart(segments[i], segments[j])
  }

  ghost predicate MemoryApart(first: LoadSegment, second: LoadSegment) {
    first.memorySize == 0 || second.memorySize == 0 || first.virtualAddress + first.memorySize <= second.virtualAddress
  }

  /** Which segments are empty. */
  ghost predicate Shaped(segments: seq<LoadSegment>, empty: seq<bool>) {
    |segments| == |empty| && forall i :: 0 <= i < |empty| ==> (empty[i] <==> segments[i].memorySize == 0)
  }

  /** An empty segment stands between two nonempty ones. */
  ghost predicate EmptyBetween(empty: seq<bool>) {
    exists i, j, k :: 0 <= i < j < k < |empty| && !empty[i] && empty[j] && !empty[k]
  }

  ghost predicate SegmentsOk(segments: seq<LoadSegment>, fileLength: nat) {
    forall i :: 0 <= i < |segments| ==> SegmentOk(segments[i], fileLength)
  }

  /** What the adjacent check is meant to ensure of sorted segments, for every file with that shape. */
  ghost predicate CheckSuffices(empty: seq<bool>) {
    forall segments: seq<LoadSegment>, fileLength: nat ::
      Shaped(segments, empty) && SegmentsOk(segments, fileLength) && SortedByAddress(segments)
          && AdjacentApart(segments) ==>
        Apart(segments)
  }

  /**
   The adjacent check means that all segments are apart, whatever their addresses and sizes, exactly when no empty
   segment stands between two nonempty ones. A file has fewer than 65536 segments.
   */
  lemma AdjacentIsApartExactly(empty: seq<bool>)
    requires |empty| < 0x1_0000
    ensures CheckSuffices(empty) <==> !EmptyBetween(empty)
  {
    if EmptyBetween(empty) {
      var i, j, k :| 0 <= i < j < k < |empty| && !empty[i] && empty[j] && !empty[k];
      var i', k' := Nearest(empty, i, j, k);
      Hidden(empty, i', k');
    } else {
      forall segments: seq<LoadSegment>, fileLength: nat
        | Shaped(segments, empty) && SegmentsOk(segments, fileLength) && SortedByAddress(segments)
            && AdjacentApart(segments)
        ensures Apart(segments)
      {
        AdjacentIsApart(segments, empty);
      }
    }
  }

  lemma AdjacentIsApart(segments: seq<LoadSegment>, empty: seq<bool>)
    requires Shaped(segments, empty) && SortedByAddress(segments) && AdjacentApart(segments) && !EmptyBetween(empty)
    ensures Apart(segments)
  {
    forall i, j | 0 <= i < j < |segments|
      ensures MemoryApart(segments[i], segments[j])
    {
      assert PairApart(segments, i);
      if i + 1 < j && !empty[i] && !empty[j] {
        assert !empty[i + 1];
        assert segments[i + 1].virtualAddress <= segments[j].virtualAddress;
      }
    }
  }

  /** The nonempty segments next to an empty one on either side. */
  lemma Nearest(empty: seq<bool>, i: nat, j: nat, k: nat) returns (before: nat, after: nat)
    requires i < j < k < |empty| && !empty[i] && empty[j] && !empty[k]
    ensures before + 1 < after < |empty| && !empty[before] && !empty[after]
    ensures forall n :: before < n < after ==> empty[n]
  {
    before, after := j - 1, j + 1;
    while empty[before]
      invariant i <= before < j && forall n :: before < n <= j ==> empty[n]
      decreases before
    {
      before := before - 1;
    }
    while empty[after]
      invariant j < after <= k && forall n :: j <= n < after ==> empty[n]
      decreases k - after
    {
      after := after + 1;
    }
  }

  /** Segments 64 KiB apart; `before` reaches over the empty ones behind it into `after`. */
  function Spread(empty: bool, n: nat, reach: nat): LoadSegment
    requires n < 0x1_0000 && reach < 0x1_0000
  {
    var address, permissions := 0x1_0000 * (n + 1), Permissions(true, false, true);
    var size := if empty then 0 else 0x1_0000 * reach + PAGE_SIZE;
    LoadSegment(n, 0, address, 0, size, permissions, MemoryMapping(address, address + size, 0, 0, permissions))
  }

  lemma SpreadOk(empty: bool, n: nat, reach: nat)
    requires n < 0x1_0000 && reach < 0x1_0000
    ensures SegmentOk(Spread(empty, n, reach), 0)
  {
    var m := Spread(empty, n, reach).mapping;
    assert m.start == PAGE_SIZE * (16 * (n + 1));
    WholePages(16 * (n + 1));
    if !empty {
      assert m.end == PAGE_SIZE * (16 * (n + 1) + 16 * reach + 1);
      WholePages(16 * (n + 1) + 16 * reach + 1);
    }
  }

  lemma WholePages(pages: nat)
    ensures PAGE_SIZE * pages % PAGE_SIZE == 0
  {
  }

  function SpreadSegments(empty: seq<bool>, before: nat, after: nat): (r: seq<LoadSegment>)
    requires |empty| < 0x1_0000 && before < after < |empty|
  {
    seq(|empty|, n requires 0 <= n < |empty| => Spread(empty[n], n, if n == before then after - before else 0))
  }

  lemma Hidden(empty: seq<bool>, before: nat, after: nat)
    requires |empty| < 0x1_0000 && before + 1 < after < |empty| && !empty[before] && !empty[after]
    requires forall n :: before < n < after ==> empty[n]
    ensures !CheckSuffices(empty)
  {
    var segments := SpreadSegments(empty, before, after);
    forall i | 0 <= i < |segments|
      ensures SegmentOk(segments[i], 0)
    {
      SpreadOk(empty[i], i, if i == before then after - before else 0);
    }
    hide SegmentOk;
    assert Shaped(segments, empty) && SegmentsOk(segments, 0) && SortedByAddress(segments);
    forall i | 0 <= i < |segments| - 1
      ensures PairApart(segments, i)
    {
      assert i == before ==> empty[i + 1];
    }
    assert !MemoryApart(segments[before], segments[after]);
  }

  // The plan

  ghost predicate EntryExecutable(entrypoint: nat, segments: seq<LoadSegment>) {
    exists i :: 0 <= i < |segments| && segments[i].permissions.execute && Inside(segments[i], entrypoint)
  }

  predicate Inside(s: LoadSegment, address: nat) {
    s.virtualAddress <= address < s.virtualAddress + s.memorySize
  }

  ghost predicate PlanOk(plan: LoadPlan, fileLength: nat) {
    && plan.segments != []
    && (forall i :: 0 <= i < |plan.segments| ==> SegmentOk(plan.segments[i], fileLength))
    && SortedByAddress(plan.segments) && AdjacentApart(plan.segments)
    && EntryExecutable(plan.entrypoint, plan.segments)
    && plan.programHeaders.entrySize == PROGRAM_HEADER_SIZE && plan.programHeaders.entryCount < 0x1_0000
    && plan.programHeaders.fileOffset + PROGRAM_HEADER_SIZE * plan.programHeaders.entryCount <= fileLength
  }

  /** An empty segment between two overlapping ones hides the overlap: a plan fit for loading, all but for that. */
  lemma EmptySegmentHidesOverlap()
    ensures var segments := [Spread(false, 0, 2), Spread(true, 1, 0), Spread(false, 2, 0)];
            var table := ProgramHeaderTable(HEADER_SIZE, PROGRAM_HEADER_SIZE, 3, None);
            && PlanOk(LoadPlan(Executable, 0x1_0000, table, None, segments), HEADER_SIZE + 3 * PROGRAM_HEADER_SIZE)
            && !Apart(segments)
  {
    var segments := [Spread(false, 0, 2), Spread(true, 1, 0), Spread(false, 2, 0)];
    SpreadOk(false, 0, 2);
    SpreadOk(true, 1, 0);
    SpreadOk(false, 2, 0);
    assert PairApart(segments, 0) && PairApart(segments, 1);
    assert Inside(segments[0], 0x1_0000);
    assert !MemoryApart(segments[0], segments[2]);
  }

  /** Where the program header table lies in memory if a segment's file part holds all of it. */
  function PhdrIn(s: LoadSegment, header: ElfHeader): Option<nat> {
    if header.programHeaderOffset >= s.fileOffset
       && header.programHeaderOffset - s.fileOffset + header.entrySize * header.entryCount <= s.fileSize
    then Some(s.virtualAddress + (header.programHeaderOffset - s.fileOffset))
    else None
  }

  method InferPhdr(segments: seq<LoadSegment>, header: ElfHeader, ghost fileLength: nat) returns (r: Option<U64>)
    requires forall i :: 0 <= i < |segments| ==> SegmentOk(segments[i], fileLength)
    requires header.entrySize == PROGRAM_HEADER_SIZE && 0 < header.entryCount
    ensures Inferred(segments, header, r)
  {
    for i := 0 to |segments|
      invariant forall j :: 0 <= j < i ==> PhdrIn(segments[j], header).None?
    {
      var found := PhdrIn(segments[i], header);
      if found.Some? {
        assert SegmentOk(segments[i], fileLength);
        return Some(found.value);
      }
    }
    r := None;
  }

  datatype Scanned = Scanned(segments: seq<LoadSegment>, interpreter: Option<seq<Byte>>, phdr: Option<U64>)

  function HeaderAt(bytes: seq<Byte>, header: ElfHeader, n: nat): RawHeader
    requires ValidateTable(header, |bytes|).None? && n < header.entryCount
  {
    assert PROGRAM_HEADER_SIZE * n + PROGRAM_HEADER_SIZE <= PROGRAM_HEADER_SIZE * header.entryCount;
    ParseRawHeader(bytes, n, header.programHeaderOffset + PROGRAM_HEADER_SIZE * n)
  }

  /**
   The segments are those of the PT_LOAD headers among the first n, each once, and every one of these was accepted.
   */
  ghost predicate SegmentsOf(bytes: seq<Byte>, header: ElfHeader, n: nat, segments: multiset<LoadSegment>)
    requires ValidateTable(header, |bytes|).None? && n <= header.entryCount
  {
    && (forall i: nat :: i < n && HeaderAt(bytes, header, i).headerType == PT_LOAD ==>
          var segment := SegmentFrom(HeaderAt(bytes, header, i), |bytes|);
          segment.Ok? && segments[segment.value] == 1)
    && (forall s :: s in segments ==> s.index < n && HeaderAt(bytes, header, s.index).headerType == PT_LOAD
                                      && SegmentFrom(HeaderAt(bytes, header, s.index), |bytes|) == Ok(s))
  }

  /** The interpreter path is that of the only PT_INTERP header, and there is none without such a header. */
  ghost predicate InterpreterOf(bytes: seq<Byte>, header: ElfHeader, n: nat, interpreter: Option<seq<Byte>>)
    requires ValidateTable(header, |bytes|).None? && n <= header.entryCount
  {
    if interpreter.None? then forall i: nat :: i < n ==> HeaderAt(bytes, header, i).headerType != PT_INTERP
    else exists k: nat :: k < n && HeaderAt(bytes, header, k).headerType == PT_INTERP
                          && ParseInterpreter(HeaderAt(bytes, header, k), bytes) == Ok(interpreter.value)
                          && forall i: nat :: i < n && HeaderAt(bytes, header, i).headerType == PT_INTERP ==> i == k
  }

  /** The address the last PT_PHDR header gives for the table, if there is such a header. */
  ghost predicate PhdrOf(bytes: seq<Byte>, header: ElfHeader, n: nat, phdr: Option<U64>)
    requires ValidateTable(header, |bytes|).None? && n <= header.entryCount
  {
    if phdr.None? then forall i: nat :: i < n ==> HeaderAt(bytes, header, i).headerType != PT_PHDR
    else exists k: nat :: k < n && HeaderAt(bytes, header, k).headerType == PT_PHDR
                          && HeaderAt(bytes, header, k).virtualAddress == phdr.value
                          && forall i: nat :: k < i < n ==> HeaderAt(bytes, header, i).headerType != PT_PHDR
  }

  lemma AnotherPhdr(bytes: seq<Byte>, header: ElfHeader, n: nat, phdr: Option<U64>)
    requires ValidateTable(header, |bytes|).None? && n < header.entryCount && PhdrOf(bytes, header, n, phdr)
    ensures PhdrOf(bytes, header, n + 1,
                   if HeaderAt(bytes, header, n).headerType == PT_PHDR
                      then Some(HeaderAt(bytes, header, n).virtualAddress) else phdr)
  {
    hide ValidateTable, HeaderAt;
  }

  lemma NothingScanned(bytes: seq<Byte>, header: ElfHeader)
    requires ValidateTable(header, |bytes|).None?
    ensures SegmentsOf(bytes, header, 0, multiset{}) && InterpreterOf(bytes, header, 0, None)
            && PhdrOf(bytes, header, 0, None)
  {}

  lemma AnotherSegment(bytes: seq<Byte>, header: ElfHeader, n: nat, segments: multiset<LoadSegment>)
    requires ValidateTable(header, |bytes|).None? && n < header.entryCount && SegmentsOf(bytes, header, n, segments)
    ensures HeaderAt(bytes, header, n).headerType != PT_LOAD ==> SegmentsOf(bytes, header, n + 1, segments)
    ensures var segment := SegmentFrom(HeaderAt(bytes, header, n), |bytes|);
            HeaderAt(bytes, header, n).headerType == PT_LOAD && segment.Ok? ==>
              SegmentsOf(bytes, header, n + 1, segments + multiset{segment.value})
  {
    hide SegmentFrom, ValidateTable, HeaderAt;
    HeadersNumbered(bytes, header);
    var segment := SegmentFrom(HeaderAt(bytes, header, n), |bytes|);
    if HeaderAt(bytes, header, n).headerType == PT_LOAD && segment.Ok? {
      var more := segments + multiset{segment.value};
      assert segment.value !in segments;
      forall i: nat | i < n + 1 && HeaderAt(bytes, header, i).headerType == PT_LOAD
        ensures var s := SegmentFrom(HeaderAt(bytes, header, i), |bytes|);
                s.Ok? && more[s.value] == 1
      {
        var s := SegmentFrom(HeaderAt(bytes, header, i), |bytes|);
        assert i < n ==> s.value in segments;
      }
    }
  }

  lemma HeadersNumbered(bytes: seq<Byte>, header: ElfHeader)
    requires ValidateTable(header, |bytes|).None?
    ensures forall i: nat :: i < header.entryCount ==> HeaderAt(bytes, header, i).index == i
  {}

  lemma AnotherInterpreter(bytes: seq<Byte>, header: ElfHeader, n: nat, interpreter: Option<seq<Byte>>)
    requires ValidateTable(header, |bytes|).None? && n < header.entryCount
             && InterpreterOf(bytes, header, n, interpreter)
    ensures HeaderAt(bytes, header, n).headerType != PT_INTERP ==> InterpreterOf(bytes, header, n + 1, interpreter)
    ensures var path := ParseInterpreter(HeaderAt(bytes, header, n), bytes);
            HeaderAt(bytes, header, n).headerType == PT_INTERP && interpreter.None? && path.Ok? ==>
              InterpreterOf(bytes, header, n + 1, Some(path.value))
  {
    hide ValidateTable, HeaderAt, ParseInterpreter;
  }

  /** Every PT_LOAD and PT_INTERP header is acceptable, and there is at most one of the latter. */
  ghost predicate HeadersOk(bytes: seq<Byte>, header: ElfHeader)
    requires ValidateTable(header, |bytes|).None?
  {
    && (forall i: nat :: i < header.entryCount ==>
          && (HeaderAt(bytes, header, i).headerType == PT_LOAD ==> SegmentFrom(HeaderAt(bytes, header, i), |bytes|).Ok?)
          && (HeaderAt(bytes, header, i).headerType == PT_INTERP ==>
              ParseInterpreter(HeaderAt(bytes, header, i), bytes).Ok?))
    && (forall i: nat, j: nat :: i < j < header.entryCount && HeaderAt(bytes, header, i).headerType == PT_INTERP ==>
          HeaderAt(bytes, header, j).headerType != PT_INTERP)
  }

  lemma SecondInterpreter(bytes: seq<Byte>, header: ElfHeader, n: nat, interpreter: Option<seq<Byte>>)
    requires ValidateTable(header, |bytes|).None? && n < header.entryCount && interpreter.Some?
    requires InterpreterOf(bytes, header, n, interpreter) && HeaderAt(bytes, header, n).headerType == PT_INTERP
    ensures !HeadersOk(bytes, header)
  {
    hide ValidateTable, HeaderAt, ParseInterpreter, SegmentFrom;
  }

  lemma ScannedOk(bytes: seq<Byte>, header: ElfHeader, segments: multiset<LoadSegment>, interpreter: Option<seq<Byte>>)
    requires ValidateTable(header, |bytes|).None?
    requires SegmentsOf(bytes, header, header.entryCount, segments)
             && InterpreterOf(bytes, header, header.entryCount, interpreter)
    ensures HeadersOk(bytes, header)
  {
    hide ValidateTable, HeaderAt, ParseInterpreter, SegmentFrom;
  }

  lemma BadHeader(bytes: seq<Byte>, header: ElfHeader, n: nat)
    requires ValidateTable(header, |bytes|).None? && n < header.entryCount
    requires var raw := HeaderAt(bytes, header, n);
             || (raw.headerType == PT_LOAD && SegmentFrom(raw, |bytes|).Err?)
             || (raw.headerType == PT_INTERP && ParseInterpreter(raw, bytes).Err?)
    ensures !HeadersOk(bytes, header)
  {
    hide ValidateTable, HeaderAt, ParseInterpreter, SegmentFrom;
  }

  /** Walks the program headers in file order. */
  method ScanHeaders(bytes: seq<Byte>, header: ElfHeader) returns (r: Parsed<Scanned>)
    requires ValidateTable(header, |bytes|).None?
    ensures r.Ok? <==> HeadersOk(bytes, header)
    ensures r.Ok? ==> forall i :: 0 <= i < |r.value.segments| ==> SegmentOk(r.value.segments[i], |bytes|)
    ensures r.Ok? ==> SegmentsOf(bytes, header, header.entryCount, multiset(r.value.segments))
    ensures r.Ok? ==> InFileOrder(r.value.segments, header.entryCount)
    ensures r.Ok? ==> InterpreterOf(bytes, header, header.entryCount, r.value.interpreter)
    ensures r.Ok? ==> PhdrOf(bytes, header, header.entryCount, r.value.phdr)
  {
    hide SegmentOk, ValidateTable, HeaderAt, SegmentsOf, InterpreterOf, PhdrOf, SegmentFrom, ParseInterpreter;
    hide HeadersOk;
    assert SegmentsOf(bytes, header, 0, multiset{}) && InterpreterOf(bytes, header, 0, None)
           && PhdrOf(bytes, header, 0, None) by {
      NothingScanned(bytes, header);
    }
    var scanned := Scanned([], None, None);
    assert multiset(scanned.segments) == multiset{};
    for n := 0 to header.entryCount
      invariant forall i :: 0 <= i < |scanned.segments| ==> SegmentOk(scanned.segments[i], |bytes|)
      invariant SegmentsOf(bytes, header, n, multiset(scanned.segments)) && InFileOrder(scanned.segments, n)
      invariant InterpreterOf(bytes, header, n, scanned.interpreter)
      invariant PhdrOf(bytes, header, n, scanned.phdr)
    {
      var raw := HeaderAt(bytes, header, n);
      HeadersNumbered(bytes, header);
      AnotherSegment(bytes, header, n, multiset(scanned.segments));
      AnotherInterpreter(bytes, header, n, scanned.interpreter);
      AnotherPhdr(bytes, header, n, scanned.phdr);
      if raw.headerType == PT_LOAD {
        var segment := SegmentFrom(raw, |bytes|);
        if segment.Err? {
          BadHeader(bytes, header, n);
          return Err(segment.error);
        }
        assert multiset(scanned.segments + [segment.value]) == multiset(scanned.segments) + multiset{segment.value};
        scanned := scanned.(segments := scanned.segments + [segment.value]);
      } else if raw.headerType == PT_INTERP {
        if scanned.interpreter.Some? {
          SecondInterpreter(bytes, header, n, scanned.interpreter);
          return Err(DuplicateInterpreter);
        }
        var interpreter := ParseInterpreter(raw, bytes);
        if interpreter.Err? {
          BadHeader(bytes, header, n);
          return Err(interpreter.error);
        }
        scanned := scanned.(interpreter := Some(interpreter.value));
      } else if raw.headerType == PT_PHDR {
        scanned := scanned.(phdr := Some(raw.virtualAddress));
      }
    }
    ScannedOk(bytes, header, multiset(scanned.segments), scanned.interpreter);
    r := Ok(scanned);
  }

  /** The plan says what the file's headers say. */
  ghost predicate PlanOf(bytes: seq<Byte>, plan: LoadPlan) {
    && ValidateIdent(bytes).None? && ParseHeader(bytes).Ok?
    && var h := ParseHeader(bytes).value;
    && ValidateTable(h, |bytes|).None?
    && h.objectType == (if plan.objectType == Executable then 2 else 3) && plan.entrypoint == h.entrypoint
    && SegmentsOf(bytes, h, h.entryCount, multiset(plan.segments))
    && InterpreterOf(bytes, h, h.entryCount, plan.interpreter)
    && plan.programHeaders.fileOffset == h.programHeaderOffset
    && plan.programHeaders.entrySize == h.entrySize && plan.programHeaders.entryCount == h.entryCount
    && ((&& plan.programHeaders.virtualAddress.Some?
         && PhdrOf(bytes, h, h.entryCount, plan.programHeaders.virtualAddress))
        || (PhdrOf(bytes, h, h.entryCount, None) && Inferred(plan.segments, h, plan.programHeaders.virtualAddress)))
  }

  /** The address of the table in the first segment whose file part holds all of it, if one does. */
  ghost predicate Inferred(segments: seq<LoadSegment>, header: ElfHeader, address: Option<U64>) {
    if address.None? then forall i :: 0 <= i < |segments| ==> PhdrIn(segments[i], header).None?
    else exists i :: 0 <= i < |segments| && PhdrIn(segments[i], header) == Some(address.value)
                     && forall j :: 0 <= j < i ==> PhdrIn(segments[j], header).None?
  }

  /** The segment's file part holds the whole header table, at that address. */
  ghost predicate TableIn(s: LoadSegment, table: ProgramHeaderTable, address: nat) {
    && s.fileOffset <= table.fileOffset
    && table.fileOffset - s.fileOffset + table.entrySize * table.entryCount <= s.fileSize
    && address == s.virtualAddress + (table.fileOffset - s.fileOffset)
  }

  /** Without a PT_PHDR header the table's address is where a segment loads it. */
  lemma WithoutPhdrInferred(bytes: seq<Byte>, plan: LoadPlan)
    requires PlanOf(bytes, plan) && PhdrOf(bytes, ParseHeader(bytes).value, plan.programHeaders.entryCount, None)
    requires plan.programHeaders.virtualAddress.Some?
    ensures exists i :: 0 <= i < |plan.segments|
                        && TableIn(plan.segments[i], plan.programHeaders, plan.programHeaders.virtualAddress.value)
  {
    hide SegmentsOf, InterpreterOf, HeaderAt, ParseHeader, ValidateTable;
    var h := ParseHeader(bytes).value;
    assert Inferred(plan.segments, h, plan.programHeaders.virtualAddress);
    var i :| 0 <= i < |plan.segments| && PhdrIn(plan.segments[i], h) == Some(plan.programHeaders.virtualAddress.value);
    assert TableIn(plan.segments[i], plan.programHeaders, plan.programHeaders.virtualAddress.value);
  }

  /** In address order the segments overlap, or none is executable at the entry point, or there are none. */
  ghost predicate UnfitSegments(segments: seq<LoadSegment>, entrypoint: nat) {
    Ranked(segments) && (segments == [] || !AdjacentApart(segments) || !EntryExecutable(entrypoint, segments))
  }

  /** Why a file has no plan. */
  ghost predicate Unfit(bytes: seq<Byte>) {
    || ValidateIdent(bytes).Some? || ParseHeader(bytes).Err?
    || var h := ParseHeader(bytes).value;
    || (h.objectType != 2 && h.objectType != 3) || ValidateTable(h, |bytes|).Some? || !HeadersOk(bytes, h)
    || exists segments ::
         SegmentsOf(bytes, h, h.entryCount, multiset(segments)) && UnfitSegments(segments, h.entrypoint)
  }

  /** A file's segments are determined by its headers. */
  lemma SegmentsOnce(bytes: seq<Byte>, header: ElfHeader, n: nat, left: multiset<LoadSegment>,
                     right: multiset<LoadSegment>)
    requires ValidateTable(header, |bytes|).None? && n <= header.entryCount
    requires SegmentsOf(bytes, header, n, left) && SegmentsOf(bytes, header, n, right)
    ensures left == right
  {
    hide HeaderAt, SegmentFrom, ValidateTable;
    assert forall s :: s in left ==> left[s] == 1 && right[s] == 1;
    assert forall s :: s in right ==> right[s] == 1 && left[s] == 1;
  }

  /** A file with a plan is not unfit. */
  lemma PlannedIsFit(bytes: seq<Byte>, plan: LoadPlan)
    requires PlanOf(bytes, plan) && PlanOk(plan, |bytes|) && Ranked(plan.segments)
    requires HeadersOk(bytes, ParseHeader(bytes).value)
    ensures !Unfit(bytes)
  {
    hide SegmentsOf, InterpreterOf, PhdrOf, Inferred, SegmentOk, HeadersOk, ParseHeader, ValidateTable;
    hide AdjacentApart, EntryExecutable;
    var h := ParseHeader(bytes).value;
    forall segments | SegmentsOf(bytes, h, h.entryCount, multiset(segments)) && Ranked(segments)
      ensures segments == plan.segments
    {
      SegmentsOnce(bytes, h, h.entryCount, multiset(segments), multiset(plan.segments));
      RankedOnce(segments, plan.segments);
    }
  }

  /** Exactly the files that are not unfit have a plan: the one the file describes, fit for loading. */
  method ParseLoadPlan(bytes: seq<Byte>) returns (r: Parsed<LoadPlan>)
    ensures r.Ok? <==> !Unfit(bytes)
    ensures r.Ok? ==> PlanOk(r.value, |bytes|) && PlanOf(bytes, r.value) && Ranked(r.value.segments)
  {
    hide SegmentsOf, InterpreterOf, PhdrOf, Inferred, SegmentOk, PlanOk, HeadersOk, UnfitSegments, Ranked, InFileOrder;
    var ident := ValidateIdent(bytes);
    if ident.Some? {
      return Err(ident.value);
    }
    var header := ParseHeader(bytes);
    if header.Err? {
      return Err(header.error);
    }
    var h := header.value;
    if h.objectType != 2 && h.objectType != 3 {
      return Err(UnsupportedObjectType);
    }
    var table := ValidateTable(h, |bytes|);
    if table.Some? {
      return Err(table.value);
    }
    var scanned := ScanHeaders(bytes, h);
    if scanned.Err? {
      return Err(scanned.error);
    }
    if scanned.value.segments == [] {
      NoSegments(h.entrypoint);
      return Err(MissingLoadSegments);
    }
    r := AssemblePlan(h, scanned.value, |bytes|);
    if r.Ok? {
      assert PlanOf(bytes, r.value);
      PlannedIsFit(bytes, r.value);
    }
  }

  lemma NoSegments(entrypoint: nat)
    ensures UnfitSegments([], entrypoint)
  {
  }

  method AssemblePlan(h: ElfHeader, scanned: Scanned, fileLength: nat) returns (r: Parsed<LoadPlan>)
    requires ValidateTable(h, fileLength).None? && h.entryCount < 0x1_0000 && scanned.segments != []
    requires InFileOrder(scanned.segments, h.entryCount)
    requires forall i :: 0 <= i < |scanned.segments| ==> SegmentOk(scanned.segments[i], fileLength)
    ensures r.Err? ==> exists segments ::
              multiset(segments) == multiset(scanned.segments) && UnfitSegments(segments, h.entrypoint)
    ensures r.Ok? ==> Ranked(r.value.segments)
    ensures r.Ok? ==> PlanOk(r.value, fileLength) && multiset(r.value.segments) == multiset(scanned.segments)
                      && r.value.objectType == (if h.objectType == 2 then Executable else SharedObject)
                      && r.value.entrypoint == h.entrypoint && r.value.interpreter == scanned.interpreter
                      && r.value.programHeaders == ProgramHeaderTable(h.programHeaderOffset, h.entrySize, h.entryCount,
                                                                      r.value.programHeaders.virtualAddress)
                      && (if scanned.phdr.Some? then r.value.programHeaders.virtualAddress == scanned.phdr
                          else Inferred(r.value.segments, h, r.value.programHeaders.virtualAddress))
  {
    hide SegmentOk, Inferred;
    var segments := SortByAddress(scanned.segments, h.entryCount);
    forall i | 0 <= i < |segments|
      ensures SegmentOk(segments[i], fileLength)
    {
      assert segments[i] in multiset(segments);
      assert segments[i] in scanned.segments;
    }
    var apart := CheckAdjacent(segments);
    if !apart {
      assert UnfitSegments(segments, h.entrypoint);
      return Err(OverlappingLoadSegments);
    }
    if !(exists i :: 0 <= i < |segments| && segments[i].permissions.execute && Inside(segments[i], h.entrypoint)) {
      assert UnfitSegments(segments, h.entrypoint);
      return Err(EntrypointNotExecutable);
    }
    var phdr := scanned.phdr;
    if phdr.None? {
      phdr := InferPhdr(segments, h, fileLength);
    }
    r := Ok(LoadPlan(if h.objectType == 2 then Executable else SharedObject, h.entrypoint,
                     ProgramHeaderTable(h.programHeaderOffset, h.entrySize, h.entryCount, phdr),
                     scanned.interpreter, segments));
  }
}
