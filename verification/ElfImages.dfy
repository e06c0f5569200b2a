/**
 The guest memory image (crates/mcr-elf/src/image.rs): the load plans of an executable and of its interpreter
 become page-aligned areas with their bytes, together with the initial stack.
 */
module ElfImages {
  import opened Ranges
  import opened Bytes
  import opened ElfPlans
  import opened ElfParser
  import opened InitialStacks

  const PIE_BASE: nat := 0x40_0000
  const INTERPRETER_BASE: nat := 0x7000_0000

  datatype AreaKind = ElfLoad(index: nat) | InterpreterLoad(path: seq<Byte>, index: nat) | StackArea

  datatype Area = Area(start: nat, end: nat, permissions: Permissions, kind: AreaKind)

  datatype Region = Region(start: nat, bytes: seq<Byte>)

  datatype ImageLayout = ImageLayout(areas: seq<Area>, regions: seq<Region>)

  datatype LoadedInterpreter = LoadedInterpreter(path: seq<Byte>, loadBias: nat, entrypoint: nat,
                                                 programHeaders: ProgramHeaderTable)

  datatype Image = Image(
    entrypoint: nat,
    stack: InitialStack,
    loadBias: nat,
    interpreter: Option<LoadedInterpreter>,
    brk: nat,
    areas: seq<Area>,
    regions: seq<Region>
  )

  datatype ImageError =
    | StackFailure(stack: StackError)
    | InterpreterFailure(elf: ElfError)
    | MissingInterpreterBytes
    | UnsupportedInterpreter
    | FileRangeOverflow
    | FileRangeOutOfBounds
    | AddressRangeOverflow
    | InvalidAreaRange
    | AreaOverlap

  // What is wanted

  predicate Overlap(a: Area, b: Area) {
    a.start < b.end && b.start < a.end
  }

  /** Areas that can stand together: none empty, no two overlapping. */
  ghost predicate Compatible(wanted: seq<Area>) {
    && (forall i :: 0 <= i < |wanted| ==> wanted[i].start < wanted[i].end)
    && (forall i, j :: 0 <= i < j < |wanted| ==> !Overlap(wanted[i], wanted[j]))
  }

  function KindOf(path: Option<seq<Byte>>, index: nat): AreaKind {
    if path.None? then ElfLoad(index) else InterpreterLoad(path.value, index)
  }

  function SegmentArea(s: LoadSegment, bias: nat, path: Option<seq<Byte>>): Area {
    Area(s.mapping.start + bias, s.mapping.end + bias, s.mapping.permissions, KindOf(path, s.index))
  }

  ghost function SegmentAreas(segments: seq<LoadSegment>, bias: nat, path: Option<seq<Byte>>): (r: seq<Area>)
    ensures |r| == |segments| && forall i :: 0 <= i < |r| ==> r[i] == SegmentArea(segments[i], bias, path)
  {
    seq(|segments|, i requires 0 <= i < |segments| => SegmentArea(segments[i], bias, path))
  }

  /** The file part of the segment's mapping is there, and the mapping fits the address space once relocated. */
  ghost predicate Loadable(s: LoadSegment, bias: nat, bytes: seq<Byte>) {
    && s.mapping.end + bias < U64_LIMIT
    && s.mapping.fileOffset + s.mapping.fileSize <= |bytes|
    && s.mapping.fileOffset + s.mapping.fileSize < U64_LIMIT
  }

  /** The region holds the file part of the mapping and zeros behind it. */
  ghost predicate RegionOf(s: LoadSegment, bias: nat, bytes: seq<Byte>, region: Region) {
    && region.start == s.mapping.start + bias && s.mapping.start + |region.bytes| == s.mapping.end
    && s.mapping.fileSize <= |region.bytes| && s.mapping.fileOffset + s.mapping.fileSize <= |bytes|
    && region.bytes == bytes[s.mapping.fileOffset..s.mapping.fileOffset + s.mapping.fileSize]
                       + Zeros(|region.bytes| - s.mapping.fileSize)
  }

  // Registered areas

  ghost predicate Ordered(areas: seq<Area>) {
    && (forall i :: 0 <= i < |areas| ==> areas[i].start < areas[i].end)
    && (forall i, j :: 0 <= i < j < |areas| ==> areas[i].end <= areas[j].start)
  }

  /** The areas are those wanted, in address order; the regions are in the order they were loaded. */
  ghost predicate LayoutOf(layout: ImageLayout, wanted: seq<Area>) {
    && Ordered(layout.areas) && Compatible(wanted)
    && |layout.areas| == |wanted| && (forall a :: a in layout.areas <==> a in wanted)
    && |layout.regions| == |wanted|
    && (forall i :: 0 <= i < |wanted| ==> Spans(layout.regions[i], wanted[i]))
  }

  predicate Spans(region: Region, area: Area) {
    region.start == area.start && region.start + |region.bytes| == area.end
  }

  method RegisterArea(areas: seq<Area>, area: Area) returns (r: Result<seq<Area>, ImageError>)
    requires Ordered(areas)
    ensures r.Ok? <==> area.start < area.end && forall a :: a in areas ==> !Overlap(a, area)
    ensures r.Ok? ==> Ordered(r.value) && |r.value| == |areas| + 1
                      && forall a :: a in r.value <==> a in areas || a == area
  {
    if area.start >= area.end {
      return Err(InvalidAreaRange);
    }
    for i := 0 to |areas|
      invariant forall j :: 0 <= j < i ==> !Overlap(areas[j], area)
    {
      if Overlap(areas[i], area) {
        return Err(AreaOverlap);
      }
    }
    var at := 0;
    while at < |areas| && areas[at].start < area.start
      invariant 0 <= at <= |areas|
      invariant forall j :: 0 <= j < at ==> areas[j].start < area.start
    {
      at := at + 1;
    }
    InsertedOrdered(areas, area, at);
    r := Ok(areas[..at] + [area] + areas[at..]);
  }

  lemma InsertedOrdered(areas: seq<Area>, area: Area, at: nat)
    requires Ordered(areas) && at <= |areas| && area.start < area.end
    requires forall a :: a in areas ==> !Overlap(a, area)
    requires forall j :: 0 <= j < at ==> areas[j].start < area.start
    requires at < |areas| ==> area.start <= areas[at].start
    ensures var r := areas[..at] + [area] + areas[at..];
            Ordered(r) && forall a :: a in r <==> a in areas || a == area
  {
    var r := areas[..at] + [area] + areas[at..];
    forall i, j | 0 <= i < j < |r|
      ensures r[i].end <= r[j].start
    {
      assert r[i] == if i < at then areas[i] else if i == at then area else areas[i - 1];
      assert r[j] == if j < at then areas[j] else if j == at then area else areas[j - 1];
      assert i < at ==> areas[i] in areas;
      assert j > at ==> areas[j - 1] in areas && (j - 1 > at ==> areas[at].end <= areas[j - 1].start);
    }
    InsertedElements(areas, area, at);
  }

  lemma InsertedElements(areas: seq<Area>, area: Area, at: nat)
    requires at <= |areas|
    ensures forall a :: a in areas[..at] + [area] + areas[at..] <==> a in areas || a == area
  {
    assert areas == areas[..at] + areas[at..];
  }

  /** One more area and its region. */
  lemma OneMore(layout: ImageLayout, wanted: seq<Area>, areas: seq<Area>, area: Area, region: Region)
    requires LayoutOf(layout, wanted) && Spans(region, area) && area.start < area.end
    requires forall a :: a in layout.areas ==> !Overlap(a, area)
    requires Ordered(areas) && |areas| == |layout.areas| + 1
    requires forall a :: a in areas <==> a in layout.areas || a == area
    ensures LayoutOf(ImageLayout(areas, layout.regions + [region]), wanted + [area])
  {
    hide Ordered, Overlap;
    var more := wanted + [area];
    forall i, j | 0 <= i < j < |more|
      ensures !Overlap(more[i], more[j])
    {
      assert more[i] == wanted[i] && wanted[i] in layout.areas;
    }
  }

  lemma NotCompatible(layout: ImageLayout, wanted: seq<Area>, area: Area, rest: seq<Area>)
    requires LayoutOf(layout, wanted)
    requires area.start >= area.end || exists a :: a in layout.areas && Overlap(a, area)
    ensures !Compatible(wanted + [area] + rest)
  {
    var all := wanted + [area] + rest;
    assert all[|wanted|] == area;
    if area.start < area.end {
      var a :| a in layout.areas && Overlap(a, area);
      var i :| 0 <= i < |wanted| && wanted[i] == a;
      assert all[i] == a;
    }
  }

  // Loading a plan

  /** Maps every segment of a plan, or fails exactly when one cannot be loaded or does not fit beside the others. */
  method LoadSegments(layout: ImageLayout, segments: seq<LoadSegment>, bias: nat, path: Option<seq<Byte>>,
                      bytes: seq<Byte>,
                      ghost wanted: seq<Area>, ghost planLength: nat)
    returns (r: Result<ImageLayout, ImageError>)
    requires LayoutOf(layout, wanted)
    requires forall i :: 0 <= i < |segments| ==> SegmentOk(segments[i], planLength)
    ensures r.Ok? <==> Compatible(wanted + SegmentAreas(segments, bias, path))
                       && forall i :: 0 <= i < |segments| ==> Loadable(segments[i], bias, bytes)
    ensures r.Ok? ==> LayoutOf(r.value, wanted + SegmentAreas(segments, bias, path))
                      && layout.regions <= r.value.regions
    ensures r.Ok? ==> forall i :: 0 <= i < |segments| ==>
            RegionOf(segments[i], bias, bytes, r.value.regions[|wanted| + i])
  {
    hide LayoutOf, SegmentOk, Compatible, RegionOf;
    var current := layout;
    ghost var areas := SegmentAreas(segments, bias, path);
    assert wanted + areas[..0] == wanted;
    assert |layout.regions| == |wanted| by { LayoutParts(layout, wanted); }
    for n := 0 to |segments|
      invariant LayoutOf(current, wanted + areas[..n]) && |current.regions| == |wanted| + n
      invariant layout.regions <= current.regions
      invariant forall i :: 0 <= i < n ==> Loadable(segments[i], bias, bytes)
      invariant forall i :: 0 <= i < n ==> RegionOf(segments[i], bias, bytes, current.regions[|wanted| + i])
    {
      assert wanted + areas == wanted + areas[..n] + [areas[n]] + areas[n + 1..];
      assert wanted + areas[..n + 1] == wanted + areas[..n] + [areas[n]];
      r := LoadOneSegment(current, segments[n], bias, path, bytes, wanted + areas[..n], planLength);
      if r.Err? {
        PrefixCompatible(wanted + areas[..n + 1], areas[n + 1..]);
        return;
      }
      current := r.value;
    }
    assert areas[..|segments|] == areas;
    LayoutParts(current, wanted + areas);
    r := Ok(current);
  }

  lemma PrefixCompatible(wanted: seq<Area>, rest: seq<Area>)
    ensures Compatible(wanted + rest) ==> Compatible(wanted)
  {
    var all := wanted + rest;
    assert forall i :: 0 <= i < |wanted| ==> wanted[i] == all[i];
  }

  lemma NothingLoaded()
    ensures LayoutOf(ImageLayout([], []), [])
  {}

  lemma LayoutParts(layout: ImageLayout, wanted: seq<Area>)
    requires LayoutOf(layout, wanted)
    ensures |layout.regions| == |wanted| == |layout.areas| && Ordered(layout.areas) && Compatible(wanted)
  {}

  method LoadOneSegment(layout: ImageLayout, s: LoadSegment, bias: nat, path: Option<seq<Byte>>, bytes: seq<Byte>,
                     ghost wanted: seq<Area>, ghost planLength: nat)
    returns (r: Result<ImageLayout, ImageError>)
    requires LayoutOf(layout, wanted) && SegmentOk(s, planLength)
    ensures r.Ok? <==> Compatible(wanted + [SegmentArea(s, bias, path)]) && Loadable(s, bias, bytes)
    ensures r.Ok? ==> LayoutOf(r.value, wanted + [SegmentArea(s, bias, path)])
    ensures r.Ok? ==> |r.value.regions| == |wanted| + 1 && r.value.regions[..|wanted|] == layout.regions
                      && RegionOf(s, bias, bytes, r.value.regions[|wanted|])
  {
    hide LayoutOf, Compatible;
    LayoutParts(layout, wanted);
    var mapping := s.mapping;
    if mapping.start + bias >= U64_LIMIT || mapping.end + bias >= U64_LIMIT {
      return Err(AddressRangeOverflow);
    }
    if mapping.fileOffset + mapping.fileSize >= U64_LIMIT {
      return Err(FileRangeOverflow);
    }
    if mapping.fileOffset + mapping.fileSize > |bytes| {
      return Err(FileRangeOutOfBounds);
    }
    var mapped := bytes[mapping.fileOffset..mapping.fileOffset + mapping.fileSize];
    var regionBytes := Blit(Zeros(mapping.end - mapping.start), 0, mapped);
    var area := SegmentArea(s, bias, path);
    var region := Region(mapping.start + bias, regionBytes);
    var areas := RegisterArea(layout.areas, area);
    if areas.Err? {
      NotCompatible(layout, wanted, area, []);
      assert wanted + [area] + [] == wanted + [area];
      return Err(areas.error);
    }
    OneMore(layout, wanted, areas.value, area, region);
    LayoutParts(ImageLayout(areas.value, layout.regions + [region]), wanted + [area]);
    r := Ok(ImageLayout(areas.value, layout.regions + [region]));
  }

  // Sorting the regions

  ghost predicate Ascending(regions: seq<Region>) {
    forall i, j :: 0 <= i < j < |regions| ==> regions[i].start < regions[j].start
  }

  ghost predicate DistinctStarts(regions: seq<Region>) {
    forall i, j :: 0 <= i < j < |regions| ==> regions[i].start != regions[j].start
  }

  method InsertRegion(regions: seq<Region>, region: Region) returns (r: seq<Region>)
    requires Ascending(regions) && forall x :: x in regions ==> x.start != region.start
    ensures Ascending(r) && |r| == |regions| + 1 && forall x :: x in r <==> x in regions || x == region
  {
    var at := |regions|;
    while at > 0 && regions[at - 1].start > region.start
      invariant 0 <= at <= |regions|
      invariant forall j :: at <= j < |regions| ==> regions[j].start > region.start
    {
      at := at - 1;
    }
    r := regions[..at] + [region] + regions[at..];
    assert at > 0 ==> regions[at - 1] in regions;
    InsertedAscending(regions, region, at);
  }

  lemma InsertedAscending(regions: seq<Region>, region: Region, at: nat)
    requires Ascending(regions) && at <= |regions|
    requires at > 0 ==> regions[at - 1].start < region.start
    requires forall j :: at <= j < |regions| ==> regions[j].start > region.start
    ensures var r := regions[..at] + [region] + regions[at..];
            Ascending(r) && forall x :: x in r <==> x in regions || x == region
  {
    var r := regions[..at] + [region] + regions[at..];
    forall i, j | 0 <= i < j < |r|
      ensures r[i].start < r[j].start
    {
      assert r[i] == if i < at then regions[i] else if i == at then region else regions[i - 1];
      assert r[j] == if j < at then regions[j] else if j == at then region else regions[j - 1];
      assert i < at - 1 ==> regions[i].start < regions[at - 1].start;
    }
    InsertedMembers(regions, region, at);
    hide Ascending;
  }

  lemma InsertedMembers(regions: seq<Region>, region: Region, at: nat)
    requires at <= |regions|
    ensures forall x :: x in regions[..at] + [region] + regions[at..] <==> x in regions || x == region
  {
    assert regions == regions[..at] + regions[at..];
  }

  method SortRegions(regions: seq<Region>) returns (r: seq<Region>)
    requires DistinctStarts(regions)
    ensures Ascending(r) && |r| == |regions| && forall x :: x in r <==> x in regions
  {
    r := [];
    for i := 0 to |regions|
      invariant Ascending(r) && |r| == i && forall x :: x in r <==> x in regions[..i]
    {
      r := InsertRegion(r, regions[i]);
      assert regions[..i + 1] == regions[..i] + [regions[i]];
    }
    assert regions[..|regions|] == regions;
  }

  /** Areas and regions pair up one to one, in address order. */
  ghost predicate Paired(areas: seq<Area>, regions: seq<Region>) {
    |areas| == |regions| && forall i :: 0 <= i < |areas| ==> Spans(regions[i], areas[i])
  }

  ghost predicate HasRegion(regions: seq<Region>, a: Area) {
    exists i :: 0 <= i < |regions| && Spans(regions[i], a)
  }

  ghost predicate HasArea(areas: seq<Area>, x: Region) {
    exists i :: 0 <= i < |areas| && Spans(x, areas[i])
  }

  lemma {:induction false} SortedPair(areas: seq<Area>, regions: seq<Region>, n: nat)
    requires Ordered(areas) && Ascending(regions) && |areas| == |regions| && n <= |areas|
    requires forall k :: 0 <= k < |areas| ==> HasRegion(regions, areas[k]) && HasArea(areas, regions[k])
    ensures forall k :: 0 <= k < n ==> Spans(regions[k], areas[k])
  {
    hide HasRegion, HasArea, Ordered, Ascending, Spans;
    if n > 0 {
      SortedPair(areas, regions, n - 1);
      NextPair(areas, regions, n - 1);
    }
  }

  lemma NextPair(areas: seq<Area>, regions: seq<Region>, k: nat)
    requires Ordered(areas) && Ascending(regions) && |areas| == |regions| && k < |areas|
    requires HasRegion(regions, areas[k]) && HasArea(areas, regions[k])
    requires forall i :: 0 <= i < k ==> Spans(regions[i], areas[i])
    ensures Spans(regions[k], areas[k])
  {
    var i :| 0 <= i < |regions| && Spans(regions[i], areas[k]);
    var j :| 0 <= j < |areas| && Spans(regions[k], areas[j]);
    assert i >= k && j >= k;
  }

  lemma WantedPair(layout: ImageLayout, wanted: seq<Area>, regions: seq<Region>)
    requires LayoutOf(layout, wanted)
    requires Ascending(regions) && |regions| == |layout.regions| && forall x :: x in regions <==> x in layout.regions
    ensures Paired(layout.areas, regions)
  {
    forall k | 0 <= k < |regions|
      ensures HasRegion(regions, layout.areas[k]) && HasArea(layout.areas, regions[k])
    {
      assert layout.areas[k] in wanted;
      var i :| 0 <= i < |wanted| && wanted[i] == layout.areas[k];
      assert layout.regions[i] in regions;
      assert regions[k] in layout.regions;
      var n :| 0 <= n < |layout.regions| && layout.regions[n] == regions[k];
      assert wanted[n] in layout.areas;
    }
    SortedPair(layout.areas, regions, |regions|);
  }

  lemma WantedDistinct(layout: ImageLayout, wanted: seq<Area>)
    requires LayoutOf(layout, wanted)
    ensures DistinctStarts(layout.regions)
  {
    forall i, j | 0 <= i < j < |layout.regions|
      ensures layout.regions[i].start != layout.regions[j].start
    {
      assert !Overlap(wanted[i], wanted[j]);
      assert Spans(layout.regions[i], wanted[i]) && Spans(layout.regions[j], wanted[j]);
    }
  }

  // Reading

  /** The bytes of the first region that contains the whole range. */
  function Read(regions: seq<Region>, address: nat, length: nat): (r: Option<seq<Byte>>)
    ensures r.Some? ==> |r.value| == length
  {
    if address + length >= U64_LIMIT || regions == [] then None
    else if regions[0].start <= address && address + length <= regions[0].start + |regions[0].bytes|
    then Some(regions[0].bytes[address - regions[0].start..][..length])
    else Read(regions[1..], address, length)
  }

  /** Paired regions are read unambiguously: any region that contains the range is the one read. */
  lemma {:induction false} ReadFinds(areas: seq<Area>, regions: seq<Region>, region: Region, address: nat, length: nat)
    requires Ordered(areas) && Paired(areas, regions) && region in regions && address + length < U64_LIMIT
    requires region.start <= address && address + length <= region.start + |region.bytes|
    ensures Read(regions, address, length) == Some(region.bytes[address - region.start..][..length])
  {
    if regions[0] == region {
    } else {
      var k :| 0 <= k < |regions| && regions[k] == region;
      assert Spans(regions[0], areas[0]) && Spans(regions[k], areas[k]);
      assert areas[0].end <= areas[k].start;
      if regions[0].start <= address && address + length <= regions[0].start + |regions[0].bytes| {
        assert length == 0;
      } else {
        assert regions[1..][k - 1] == region;
        forall i | 0 <= i < |areas[1..]|
          ensures Spans(regions[1..][i], areas[1..][i])
        {
          assert Spans(regions[i + 1], areas[i + 1]);
        }
        ReadFinds(areas[1..], regions[1..], region, address, length);
      }
    }
  }

  /** What the program finds where a segment was to be loaded: its file bytes, then zeros up to its memory size. */
  ghost predicate ReadsSegment(regions: seq<Region>, s: LoadSegment, bias: nat, bytes: seq<Byte>) {
    && s.fileOffset + s.fileSize <= |bytes| && s.fileSize <= s.memorySize
    && Read(regions, bias + s.virtualAddress, s.memorySize)
       == Some(bytes[s.fileOffset..s.fileOffset + s.fileSize] + Zeros(s.memorySize - s.fileSize))
  }

  lemma SegmentRead(areas: seq<Area>, regions: seq<Region>, s: LoadSegment, bias: nat, bytes: seq<Byte>, region: Region,
                    planLength: nat)
    requires Ordered(areas) && Paired(areas, regions) && region in regions
    requires SegmentOk(s, planLength) && Loadable(s, bias, bytes) && RegionOf(s, bias, bytes, region)
    ensures ReadsSegment(regions, s, bias, bytes)
  {
    hide Ordered, Paired, Read;
    ReadFinds(areas, regions, region, bias + s.virtualAddress, s.memorySize);
    var skip := s.virtualAddress - s.mapping.start;
    var data := bytes[s.fileOffset..s.fileOffset + s.fileSize] + Zeros(s.memorySize - s.fileSize);
    var part := region.bytes[skip..][..s.memorySize];
    assert |part| == |data|;
    forall k | 0 <= k < |part|
      ensures part[k] == data[k]
    {
      assert part[k] == region.bytes[skip + k];
      var file := bytes[s.mapping.fileOffset..s.mapping.fileOffset + s.mapping.fileSize];
      if k < s.fileSize {
        assert region.bytes[skip + k] == file[skip + k] == bytes[s.mapping.fileOffset + skip + k];
      } else {
        assert region.bytes[skip + k] == Zeros(|region.bytes| - s.mapping.fileSize)[skip + k - s.mapping.fileSize];
      }
    }
    assert part == data;
  }

  // The whole image

  function ExecutableBias(plan: LoadPlan): nat {
    if plan.objectType == SharedObject && plan.interpreter.Some? then PIE_BASE else 0
  }

  ghost function StackAreaOf(config: StackConfig): Area {
    Area(if config.stackSize <= config.stackTop then config.stackTop - config.stackSize else 0, config.stackTop,
         Permissions(true, true, false), StackArea)
  }

  function StackConfigFor(plan: LoadPlan, config: StackConfig): StackConfig {
    config.(loadBias := ExecutableBias(plan), interpreterBase := if plan.interpreter.Some? then INTERPRETER_BASE else 0)
  }

  /** The interpreter fits behind its base: its segments, its entry point and its header table. */
  ghost predicate InterpreterFits(plan: LoadPlan, bytes: seq<Byte>) {
    && plan.interpreter.None?
    && (forall i :: 0 <= i < |plan.segments| ==> Loadable(plan.segments[i], INTERPRETER_BASE, bytes))
    && plan.entrypoint + INTERPRETER_BASE < U64_LIMIT
    && (plan.programHeaders.virtualAddress.Some? ==>
        plan.programHeaders.virtualAddress.value + INTERPRETER_BASE < U64_LIMIT)
  }

  /** Exactly the plans an image is built for, once the interpreter, if one is asked for, has a plan. */
  ghost predicate Buildable(plan: LoadPlan, interpreterPlan: Option<LoadPlan>, bytes: seq<Byte>,
                            interpreterBytes: Option<seq<Byte>>, config: StackConfig) {
    && (plan.interpreter.Some? ==>
          interpreterPlan.Some? && interpreterBytes.Some?
              && InterpreterFits(interpreterPlan.value, interpreterBytes.value))
    && (forall i :: 0 <= i < |plan.segments| ==> Loadable(plan.segments[i], ExecutableBias(plan), bytes))
    && Accepts(plan, StackConfigFor(plan, config))
    && Compatible(WantedAreas(plan, interpreterPlan, config))
  }

  /** What parsing the interpreter, if one is asked for and its bytes are there, came to. */
  ghost predicate InterpreterParsed(plan: LoadPlan, interpreterPlan: Option<LoadPlan>,
                                    interpreterBytes: Option<seq<Byte>>) {
    if plan.interpreter.None? || interpreterBytes.None? then interpreterPlan.None?
    else if interpreterPlan.None? then Unfit(interpreterBytes.value)
    else PlanOk(interpreterPlan.value, |interpreterBytes.value|)
         && PlanOf(interpreterBytes.value, interpreterPlan.value)
  }

  ghost predicate ExecutableAt(areas: seq<Area>, address: nat) {
    exists a :: a in areas && a.start <= address < a.end && a.permissions.execute
  }

  ghost predicate Highest(brk: nat, segments: seq<LoadSegment>, bias: nat) {
    && (forall i :: 0 <= i < |segments| ==> segments[i].mapping.end + bias <= brk)
    && (exists i :: 0 <= i < |segments| && segments[i].mapping.end + bias == brk)
  }

  /** The image has exactly the areas of the program, its interpreter and the stack, and reads as the plan says. */
  ghost predicate ImageOf(image: Image, plan: LoadPlan, interpreterPlan: Option<LoadPlan>, bytes: seq<Byte>,
                          config: StackConfig) {
    && Ordered(image.areas) && Paired(image.areas, image.regions)
    && HasExactly(image, WantedAreas(plan, interpreterPlan, config)) && InAddressSpace(image)
    && image.loadBias == ExecutableBias(plan)
    && StackImage(plan, StackConfigFor(plan, config), image.stack)
    && ExecutableAt(image.areas, image.entrypoint)
    && Highest(image.brk, plan.segments, image.loadBias)
    && (forall i :: 0 <= i < |plan.segments| ==> SegmentArea(plan.segments[i], image.loadBias, None) in image.areas)
    && (forall i :: 0 <= i < |plan.segments| ==> ReadsSegment(image.regions, plan.segments[i], image.loadBias, bytes))
    && StackAreaOf(config) in image.areas && config.stackSize <= config.stackTop
       && config.stackTop - config.stackSize <= image.stack.stackPointer
    && Read(image.regions, config.stackTop - config.stackSize, config.stackSize)
       == Some(Zeros(image.stack.stackPointer - (config.stackTop - config.stackSize)) + image.stack.bytes)
  }

  ghost predicate HasExactly(image: Image, wanted: seq<Area>) {
    forall a :: a in image.areas <==> a in wanted
  }

  /** Break and areas end below 2^64. */
  ghost predicate InAddressSpace(image: Image) {
    image.brk < U64_LIMIT && forall i :: 0 <= i < |image.areas| ==> image.areas[i].end < U64_LIMIT
  }

  /** The interpreter's segments are loaded at its base and the process starts at its entry point. */
  ghost predicate InterpreterLoaded(image: Image, path: seq<Byte>, plan: LoadPlan, bytes: seq<Byte>) {
    && image.interpreter.Some? && image.interpreter.value.path == path
       && image.interpreter.value.loadBias == INTERPRETER_BASE
    && plan.interpreter.None? && image.entrypoint == plan.entrypoint + INTERPRETER_BASE ==
       image.interpreter.value.entrypoint
    && (forall i :: 0 <= i < |plan.segments| ==>
        SegmentArea(plan.segments[i], INTERPRETER_BASE, Some(path)) in image.areas)
    && (forall i :: 0 <= i < |plan.segments| ==> ReadsSegment(image.regions, plan.segments[i], INTERPRETER_BASE, bytes))
  }

  method LoadInterpreter(path: seq<Byte>, plan: LoadPlan, bytes: seq<Byte>)
    returns (r: Result<(ImageLayout, LoadedInterpreter), ImageError>)
    requires PlanOk(plan, |bytes|)
    ensures plan.interpreter.Some? ==> r == Err(UnsupportedInterpreter)
    ensures r.Ok? <==> InterpreterFits(plan, bytes)
                       && Compatible(SegmentAreas(plan.segments, INTERPRETER_BASE, Some(path)))
    ensures r.Ok? ==> LayoutOf(r.value.0, SegmentAreas(plan.segments, INTERPRETER_BASE, Some(path)))
    ensures r.Ok? ==> LoadedFrom(plan.segments, INTERPRETER_BASE, bytes, r.value.0.regions, 0)
    ensures r.Ok? ==> r.value.1.path == path && r.value.1.loadBias == INTERPRETER_BASE
                      && r.value.1.entrypoint == plan.entrypoint + INTERPRETER_BASE
  {
    hide LayoutOf, RegionOf, Compatible, SegmentOk, SegmentAreas, EntryExecutable;
    assert LayoutOf(ImageLayout([], []), []) by { NothingLoaded(); }
    assert [] + SegmentAreas(plan.segments, INTERPRETER_BASE, Some(path)) ==
           SegmentAreas(plan.segments, INTERPRETER_BASE, Some(path));
    if plan.interpreter.Some? {
      return Err(UnsupportedInterpreter);
    }
    var layout := LoadSegments(ImageLayout([], []), plan.segments, INTERPRETER_BASE, Some(path), bytes, [], |bytes|);
    if layout.Err? {
      return Err(layout.error);
    }
    LayoutParts(layout.value, SegmentAreas(plan.segments, INTERPRETER_BASE, Some(path)));
    var phdr := plan.programHeaders.virtualAddress;
    if plan.entrypoint + INTERPRETER_BASE >= U64_LIMIT || (phdr.Some? && phdr.value + INTERPRETER_BASE >= U64_LIMIT) {
      return Err(AddressRangeOverflow);
    }
    var moved := if phdr.Some? then Some(phdr.value + INTERPRETER_BASE) else None;
    var table := plan.programHeaders.(virtualAddress := moved);
    r := Ok((layout.value, LoadedInterpreter(path, INTERPRETER_BASE, plan.entrypoint + INTERPRETER_BASE, table)));
  }

  method HighestEnd(segments: seq<LoadSegment>, bias: nat) returns (brk: nat)
    requires segments != []
    ensures Highest(brk, segments, bias)
  {
    brk := segments[0].mapping.end + bias;
    for i := 1 to |segments|
      invariant forall j :: 0 <= j < i ==> segments[j].mapping.end + bias <= brk
      invariant exists j :: 0 <= j < i && segments[j].mapping.end + bias == brk
    {
      if segments[i].mapping.end + bias > brk {
        brk := segments[i].mapping.end + bias;
      }
    }
  }

  lemma EntryIsExecutable(plan: LoadPlan, planLength: nat, bias: nat, path: Option<seq<Byte>>, areas: seq<Area>)
    requires PlanOk(plan, planLength)
    requires forall i :: 0 <= i < |plan.segments| ==> SegmentArea(plan.segments[i], bias, path) in areas
    ensures ExecutableAt(areas, plan.entrypoint + bias)
  {
    var i :| 0 <= i < |plan.segments| && plan.segments[i].permissions.execute
        && Inside(plan.segments[i], plan.entrypoint);
    var area := SegmentArea(plan.segments[i], bias, path);
    assert SegmentOk(plan.segments[i], planLength);
    assert area in areas && area.start <= plan.entrypoint + bias < area.end;
  }

  /** The interpreter part of the image, empty for a plan without one. */
  method LoadInterpreterOf(plan: LoadPlan, interpreterBytes: Option<seq<Byte>>)
    returns (r: Result<(ImageLayout, Option<LoadedInterpreter>), ImageError>, ghost interpreterPlan: Option<LoadPlan>)
    ensures plan.interpreter.None? ==> r == Ok((ImageLayout([], []), None)) && interpreterPlan.None?
    ensures plan.interpreter.Some? && interpreterBytes.None? ==> r == Err(MissingInterpreterBytes)
    ensures InterpreterParsed(plan, interpreterPlan, interpreterBytes)
    ensures plan.interpreter.Some? ==>
              (r.Ok? <==> && interpreterPlan.Some? && interpreterBytes.Some?
                          && InterpreterFits(interpreterPlan.value, interpreterBytes.value)
                          && Compatible(InterpreterAreas(plan, interpreterPlan)))
    ensures r.Ok? ==> LayoutOf(r.value.0, InterpreterAreas(plan, interpreterPlan))
    ensures r.Ok? ==> (r.value.1.Some? <==> plan.interpreter.Some?)
                      && (interpreterPlan.Some? <==> plan.interpreter.Some?)
    ensures r.Ok? && plan.interpreter.Some? ==>
              InterpreterIn(plan.interpreter.value, interpreterPlan.value, interpreterBytes, r.value.0.regions,
                            r.value.1.value)
  {
    hide LayoutOf, RegionOf, PlanOk, PlanOf, Unfit, InterpreterFits, Compatible;
    interpreterPlan := None;
    if plan.interpreter.None? {
      NothingLoaded();
      return Ok((ImageLayout([], []), None)), None;
    }
    if interpreterBytes.None? {
      return Err(MissingInterpreterBytes), None;
    }
    var parsed := ParseLoadPlan(interpreterBytes.value);
    if parsed.Err? {
      return Err(InterpreterFailure(parsed.error)), None;
    }
    var loaded := LoadInterpreter(plan.interpreter.value, parsed.value, interpreterBytes.value);
    if loaded.Err? {
      return Err(loaded.error), Some(parsed.value);
    }
    return Ok((loaded.value.0, Some(loaded.value.1))), Some(parsed.value);
  }

  /** The regions from `first` on are those of the segments. */
  ghost predicate LoadedFrom(segments: seq<LoadSegment>, bias: nat, bytes: seq<Byte>, regions: seq<Region>,
                             first: nat) {
    && first + |segments| <= |regions|
    && (forall i :: 0 <= i < |segments| ==> Loadable(segments[i], bias, bytes))
    && (forall i :: 0 <= i < |segments| ==> RegionOf(segments[i], bias, bytes, regions[first + i]))
  }

  ghost function InterpreterAreas(plan: LoadPlan, interpreterPlan: Option<LoadPlan>): seq<Area> {
    if plan.interpreter.None? || interpreterPlan.None? then []
    else SegmentAreas(interpreterPlan.value.segments, INTERPRETER_BASE, plan.interpreter)
  }

  ghost predicate InterpreterIn(path: seq<Byte>, plan: LoadPlan, bytes: Option<seq<Byte>>, regions: seq<Region>,
                                loaded: LoadedInterpreter) {
    && bytes.Some? && PlanOk(plan, |bytes.value|) && PlanOf(bytes.value, plan) && plan.interpreter.None?
    && loaded.path == path && loaded.loadBias == INTERPRETER_BASE
       && loaded.entrypoint == plan.entrypoint + INTERPRETER_BASE
    && LoadedFrom(plan.segments, INTERPRETER_BASE, bytes.value, regions, 0)
  }

  method AddStack(layout: ImageLayout, plan: LoadPlan, config: StackConfig, stack: InitialStack,
                  ghost wanted: seq<Area>)
    returns (r: Result<ImageLayout, ImageError>)
    requires LayoutOf(layout, wanted) && StackImage(plan, StackConfigFor(plan, config), stack)
             && config.stackSize <= config.stackTop
    ensures r.Ok? <==> Compatible(wanted + [StackAreaOf(config)])
    ensures r.Ok? ==> LayoutOf(r.value, wanted + [StackAreaOf(config)])
    ensures r.Ok? ==> r.value.regions == layout.regions + [StackRegion(config, stack)]
  {
    hide LayoutOf, Compatible, StackHolds, WithoutOverlap;
    LayoutParts(layout, wanted);
    var base := stack.stackTop - stack.stackSize;
    var bytes := Blit(Zeros(stack.stackSize), stack.stackPointer - base, stack.bytes);
    assert bytes == Zeros(stack.stackPointer - base) + stack.bytes;
    var area := Area(base, stack.stackTop, Permissions(true, true, false), StackArea);
    var areas := RegisterArea(layout.areas, area);
    if areas.Err? {
      NotCompatible(layout, wanted, area, []);
      assert wanted + [area] + [] == wanted + [area];
      return Err(areas.error);
    }
    OneMore(layout, wanted, areas.value, area, Region(base, bytes));
    LayoutParts(ImageLayout(areas.value, layout.regions + [Region(base, bytes)]), wanted + [area]);
    r := Ok(ImageLayout(areas.value, layout.regions + [Region(base, bytes)]));
  }

  ghost function StackRegion(config: StackConfig, stack: InitialStack): Region
    requires config.stackSize <= config.stackTop && config.stackTop - config.stackSize <= stack.stackPointer
  {
    var base := config.stackTop - config.stackSize;
    Region(base, Zeros(stack.stackPointer - base) + stack.bytes)
  }

  lemma WantedIn(layout: ImageLayout, wanted: seq<Area>, i: nat)
    requires LayoutOf(layout, wanted) && i < |wanted|
    ensures wanted[i] in layout.areas
  {}

  /** All segments of a loaded plan read back from the sorted regions. */
  lemma SegmentsRead(layout: ImageLayout, wanted: seq<Area>, regions: seq<Region>, first: nat,
                     segments: seq<LoadSegment>, bias: nat, path: Option<seq<Byte>>, bytes: seq<Byte>, planLength: nat)
    requires first <= |wanted|
    requires LayoutOf(layout, wanted) && Paired(layout.areas, regions)
             && forall x :: x in regions <==> x in layout.regions
    requires LoadedFrom(segments, bias, bytes, layout.regions, first)
    requires forall i :: 0 <= i < |segments| ==> SegmentOk(segments[i], planLength)
    requires SegmentAreas(segments, bias, path) <= wanted[first..]
    ensures forall i :: 0 <= i < |segments| ==> ReadsSegment(regions, segments[i], bias, bytes)
    ensures forall i :: 0 <= i < |segments| ==> SegmentArea(segments[i], bias, path) in layout.areas
  {
    hide LayoutOf, SegmentOk, Loadable, RegionOf, Paired, ReadsSegment, Ordered;
    LayoutParts(layout, wanted);
    forall i | 0 <= i < |segments|
      ensures SegmentArea(segments[i], bias, path) in layout.areas
    {
      assert wanted[first + i] == wanted[first..][i] == SegmentArea(segments[i], bias, path);
      WantedIn(layout, wanted, first + i);
    }
    forall i | 0 <= i < |segments|
      ensures ReadsSegment(regions, segments[i], bias, bytes)
    {
      assert layout.regions[first + i] in regions;
      SegmentRead(layout.areas, regions, segments[i], bias, bytes, layout.regions[first + i], planLength);
    }
  }

  lemma StackRead(layout: ImageLayout, wanted: seq<Area>, regions: seq<Region>, plan: LoadPlan, config: StackConfig,
                  stack: InitialStack)
    requires LayoutOf(layout, wanted) && Paired(layout.areas, regions)
             && forall x :: x in regions <==> x in layout.regions
    requires StackImage(plan, StackConfigFor(plan, config), stack) && config.stackSize <= config.stackTop
    requires StackRegion(config, stack) in layout.regions
    ensures Read(regions, config.stackTop - config.stackSize, config.stackSize)
            == Some(Zeros(stack.stackPointer - (config.stackTop - config.stackSize)) + stack.bytes)
  {
    hide LayoutOf, Paired, Ordered, Read, StackHolds, WithoutOverlap;
    LayoutParts(layout, wanted);
    var region := StackRegion(config, stack);
    ReadFinds(layout.areas, regions, region, region.start, config.stackSize);
    assert region.bytes[0..][..config.stackSize] == region.bytes;
  }

  lemma LoadedKept(segments: seq<LoadSegment>, bias: nat, bytes: seq<Byte>, regions: seq<Region>, more: seq<Region>,
                   first: nat)
    requires LoadedFrom(segments, bias, bytes, regions, first) && regions <= more
    ensures LoadedFrom(segments, bias, bytes, more, first)
  {}

  ghost function WantedAreas(plan: LoadPlan, interpreterPlan: Option<LoadPlan>, config: StackConfig): seq<Area> {
    InterpreterAreas(plan, interpreterPlan) + SegmentAreas(plan.segments, ExecutableBias(plan), None)
        + [StackAreaOf(config)]
  }

  datatype Parts = Parts(layout: ImageLayout, interpreter: Option<LoadedInterpreter>, stack: InitialStack)

  /** Everything is loaded: interpreter, executable and stack. */
  ghost predicate PartsOf(parts: Parts, plan: LoadPlan, interpreterPlan: Option<LoadPlan>, bytes: seq<Byte>,
                          interpreterBytes: Option<seq<Byte>>, config: StackConfig) {
    && (plan.interpreter.Some? <==> interpreterPlan.Some?) && (plan.interpreter.Some? <==> parts.interpreter.Some?)
    && LayoutOf(parts.layout, WantedAreas(plan, interpreterPlan, config))
    && LoadedFrom(plan.segments, ExecutableBias(plan), bytes, parts.layout.regions,
                  |InterpreterAreas(plan, interpreterPlan)|)
    && (plan.interpreter.Some? ==>
          InterpreterIn(plan.interpreter.value, interpreterPlan.value, interpreterBytes, parts.layout.regions,
                        parts.interpreter.value))
    && StackImage(plan, StackConfigFor(plan, config), parts.stack) && config.stackSize <= config.stackTop
    && StackRegion(config, parts.stack) in parts.layout.regions
  }

  lemma PartsCompatible(plan: LoadPlan, interpreterPlan: Option<LoadPlan>, config: StackConfig)
    requires Compatible(WantedAreas(plan, interpreterPlan, config))
    ensures var before, own := InterpreterAreas(plan, interpreterPlan),
            SegmentAreas(plan.segments, ExecutableBias(plan), None);
            Compatible(before) && Compatible(before + own)
  {
    hide Compatible;
    var before, own := InterpreterAreas(plan, interpreterPlan), SegmentAreas(plan.segments, ExecutableBias(plan), None);
    PrefixCompatible(before + own, [StackAreaOf(config)]);
    PrefixCompatible(before, own);
  }

  method LoadParts(plan: LoadPlan, bytes: seq<Byte>, interpreterBytes: Option<seq<Byte>>, config: StackConfig,
                   ghost planLength: nat)
    returns (r: Result<Parts, ImageError>, ghost interpreterPlan: Option<LoadPlan>)
    requires PlanOk(plan, planLength) && |config.randomBytes| == AT_RANDOM_BYTES
    ensures InterpreterParsed(plan, interpreterPlan, interpreterBytes)
    ensures r.Ok? <==> Buildable(plan, interpreterPlan, bytes, interpreterBytes, config)
    ensures plan.interpreter.Some? && interpreterBytes.None? ==> r == Err(MissingInterpreterBytes)
    ensures r.Ok? ==> PartsOf(r.value, plan, interpreterPlan, bytes, interpreterBytes, config)
  {
    hide LayoutOf, Compatible, Accepts, StackImage, RegionOf, PlanOf, SegmentOk, Loadable, SegmentAreas;
    hide EntryExecutable;
    hide InterpreterFits, InterpreterParsed;
    var bias := ExecutableBias(plan);
    var first;
    first, interpreterPlan := LoadInterpreterOf(plan, interpreterBytes);
    if Compatible(WantedAreas(plan, interpreterPlan, config)) {
      PartsCompatible(plan, interpreterPlan, config);
    }
    if first.Err? {
      return Err(first.error), interpreterPlan;
    }
    ghost var before := InterpreterAreas(plan, interpreterPlan);
    ghost var own := SegmentAreas(plan.segments, bias, None);
    LayoutParts(first.value.0, before);
    var loaded := LoadSegments(first.value.0, plan.segments, bias, None, bytes, before, planLength);
    if loaded.Err? {
      return Err(loaded.error), interpreterPlan;
    }
    LayoutParts(loaded.value, before + own);
    assert LoadedFrom(plan.segments, bias, bytes, loaded.value.regions, |before|);
    var stack := BuildInitialStack(plan, StackConfigFor(plan, config));
    if stack.Err? {
      return Err(StackFailure(stack.error)), interpreterPlan;
    }
    StackFits(plan, config);
    var whole := AddStack(loaded.value, plan, config, stack.value, before + own);
    if whole.Err? {
      return Err(whole.error), interpreterPlan;
    }
    LoadedKept(plan.segments, bias, bytes, loaded.value.regions, whole.value.regions, |before|);
    if plan.interpreter.Some? {
      LoadedKept(interpreterPlan.value.segments, INTERPRETER_BASE, interpreterBytes.value, first.value.0.regions,
                 whole.value.regions, 0);
    }
    r := Ok(Parts(whole.value, first.value.1, stack.value));
  }

  /** Builds the image, exactly when the plans of the program and of its interpreter allow it. */
  method BuildImage(plan: LoadPlan, bytes: seq<Byte>, interpreterBytes: Option<seq<Byte>>, config: StackConfig,
                    ghost planLength: nat)
    returns (r: Result<Image, ImageError>, ghost interpreterPlan: Option<LoadPlan>)
    requires PlanOk(plan, planLength) && |config.randomBytes| == AT_RANDOM_BYTES
    ensures InterpreterParsed(plan, interpreterPlan, interpreterBytes)
    ensures r.Ok? <==> Buildable(plan, interpreterPlan, bytes, interpreterBytes, config)
    ensures plan.interpreter.Some? && interpreterBytes.None? ==> r == Err(MissingInterpreterBytes)
    ensures r.Ok? ==> ImageOf(r.value, plan, interpreterPlan, bytes, config)
    ensures r.Ok? && plan.interpreter.None? ==> r.value.entrypoint == plan.entrypoint + ExecutableBias(plan)
    ensures r.Ok? && plan.interpreter.Some? ==>
              && interpreterBytes.Some? && interpreterPlan.Some?
                 && PlanOf(interpreterBytes.value, interpreterPlan.value)
              && InterpreterLoaded(r.value, plan.interpreter.value, interpreterPlan.value, interpreterBytes.value)
  {
    hide LayoutOf, Compatible, StackImage, PlanOf, SegmentOk, Ordered, ReadsSegment, Read, LoadedFrom, SegmentAreas;
    hide Buildable, InterpreterLoaded;
    hide InterpreterParsed, HasExactly, InAddressSpace;
    hide ExecutableAt, Paired, EntryExecutable, Ascending, Highest, StackRegion;
    var parts;
    parts, interpreterPlan := LoadParts(plan, bytes, interpreterBytes, config, planLength);
    if parts.Err? {
      return Err(parts.error), interpreterPlan;
    }
    var layout := parts.value.layout;
    ghost var wanted := WantedAreas(plan, interpreterPlan, config);
    WantedDistinct(layout, wanted);
    var regions := SortRegions(layout.regions);
    LayoutParts(layout, wanted);
    WantedPair(layout, wanted, regions);
    var bias := ExecutableBias(plan);
    var brk := HighestEnd(plan.segments, bias);
    var interpreter := parts.value.interpreter;
    var entrypoint := if interpreter.Some? then interpreter.value.entrypoint else plan.entrypoint + bias;
    var image := Image(entrypoint, parts.value.stack, bias, interpreter, brk, layout.areas, regions);
    ghost var before := InterpreterAreas(plan, interpreterPlan);
    WantedEnds(image, parts.value, plan, interpreterPlan, bytes, interpreterBytes, config);
    OwnPartRead(image, layout, before, plan, planLength, bytes, config);
    if plan.interpreter.Some? {
      InterpreterRead(image, layout, before, wanted, plan.interpreter.value, interpreterPlan.value,
                      interpreterBytes.value);
    } else {
      EntryIsExecutable(plan, planLength, bias, None, image.areas);
    }
    r := Ok(image);
  }

  /** What was loaded ends below 2^64. */
  lemma WantedEnds(image: Image, parts: Parts, plan: LoadPlan, interpreterPlan: Option<LoadPlan>, bytes: seq<Byte>,
                   interpreterBytes: Option<seq<Byte>>, config: StackConfig)
    requires PartsOf(parts, plan, interpreterPlan, bytes, interpreterBytes, config) && image.areas == parts.layout.areas
    requires Highest(image.brk, plan.segments, ExecutableBias(plan))
    ensures HasExactly(image, WantedAreas(plan, interpreterPlan, config)) && InAddressSpace(image)
  {
    hide RegionOf, StackImage, StackRegion, PlanOk, PlanOf, Compatible, Ordered;
    var before, own := InterpreterAreas(plan, interpreterPlan), SegmentAreas(plan.segments, ExecutableBias(plan), None);
    forall a | a in WantedAreas(plan, interpreterPlan, config)
      ensures a.end < U64_LIMIT
    {
      assert a in before || a in own || a == StackAreaOf(config);
    }
  }

  lemma OwnPartRead(image: Image, layout: ImageLayout, before: seq<Area>, plan: LoadPlan, planLength: nat,
                    bytes: seq<Byte>, config: StackConfig)
    requires LayoutOf(layout, before + SegmentAreas(plan.segments, image.loadBias, None) + [StackAreaOf(config)])
    requires PlanOk(plan, planLength) && image.areas == layout.areas
    requires Paired(image.areas, image.regions) && forall x :: x in image.regions <==> x in layout.regions
    requires LoadedFrom(plan.segments, image.loadBias, bytes, layout.regions, |before|)
    requires StackImage(plan, StackConfigFor(plan, config), image.stack) && config.stackSize <= config.stackTop
    requires StackRegion(config, image.stack) in layout.regions
    ensures Ordered(image.areas) && StackAreaOf(config) in image.areas
            && config.stackTop - config.stackSize <= image.stack.stackPointer
    ensures forall i :: 0 <= i < |plan.segments| ==> SegmentArea(plan.segments[i], image.loadBias, None) in image.areas
    ensures forall i :: 0 <= i < |plan.segments| ==>
            ReadsSegment(image.regions, plan.segments[i], image.loadBias, bytes)
    ensures Read(image.regions, config.stackTop - config.stackSize, config.stackSize)
            == Some(Zeros(image.stack.stackPointer - (config.stackTop - config.stackSize)) + image.stack.bytes)
  {
    hide LayoutOf, Paired, LoadedFrom, StackHolds, WithoutOverlap, Ordered, ReadsSegment, SegmentOk, StackRegion;
    hide EntryExecutable;
    var own := SegmentAreas(plan.segments, image.loadBias, None);
    var wanted := before + own + [StackAreaOf(config)];
    assert own <= wanted[|before|..];
    LayoutParts(layout, wanted);
    WantedIn(layout, wanted, |wanted| - 1);
    SegmentsRead(layout, wanted, image.regions, |before|, plan.segments, image.loadBias, None, bytes, planLength);
    StackRead(layout, wanted, image.regions, plan, config, image.stack);
  }

  lemma InterpreterRead(image: Image, layout: ImageLayout, before: seq<Area>, wanted: seq<Area>, path: seq<Byte>,
                        plan: LoadPlan, bytes: seq<Byte>)
    requires LayoutOf(layout, wanted) && before <= wanted
             && before == SegmentAreas(plan.segments, INTERPRETER_BASE, Some(path))
    requires PlanOk(plan, |bytes|) && image.areas == layout.areas && plan.interpreter.None?
    requires Paired(image.areas, image.regions) && forall x :: x in image.regions <==> x in layout.regions
    requires LoadedFrom(plan.segments, INTERPRETER_BASE, bytes, layout.regions, 0)
    requires image.interpreter.Some? && image.interpreter.value.path == path
             && image.interpreter.value.loadBias == INTERPRETER_BASE
    requires image.entrypoint == plan.entrypoint + INTERPRETER_BASE == image.interpreter.value.entrypoint
    ensures InterpreterLoaded(image, path, plan, bytes) && ExecutableAt(image.areas, image.entrypoint)
  {
    hide LayoutOf, Paired, LoadedFrom, Ordered, ReadsSegment, SegmentOk, EntryExecutable, SegmentAreas;
    assert wanted[0..] == wanted;
    SegmentsRead(layout, wanted, image.regions, 0, plan.segments, INTERPRETER_BASE, Some(path), bytes, |bytes|);
    EntryIsExecutable(plan, |bytes|, INTERPRETER_BASE, Some(path), image.areas);
  }

  lemma StackFits(plan: LoadPlan, config: StackConfig)
    requires Accepts(plan, StackConfigFor(plan, config))
    ensures config.stackSize <= config.stackTop
  {}
}
