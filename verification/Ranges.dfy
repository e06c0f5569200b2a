/**
 Address arithmetic of the guest memory manager: 64-bit checked additions,
 page rounding and the checked ranges every mapping operation starts from
 (crates/mcr-memory/src/ranges.rs).
 */
module Ranges {

  const U64_LIMIT: nat := 0x1_0000_0000_0000_0000
  const GUEST_PAGE_SIZE: nat := 4096
  const MIN_GUEST_ADDRESS: nat := GUEST_PAGE_SIZE
  const WINDOWS_GRANULARITY: nat := 0x1_0000

  type U64 = x: nat | x < U64_LIMIT
  type Byte = x: nat | x < 256

  datatype Option<+T> = None | Some(value: T)

  datatype Result<+T, +E> = Ok(value: T) | Err(error: E)

  datatype MemoryError =
    | InvalidAddress
    | InvalidLength
    | InvalidProtection
    | InvalidFlags
    | InvalidOffset
    | BadFileDescriptor
    | AddressInUse
    | NotMapped
    | OutOfMemory
    | AccessDenied
    | HostFailure
    | RestoreFailure  // the host refused to re-allocate what a failed replacement had released

  type Outcome<+T> = Result<T, MemoryError>

  /** The host had no memory to give. */
  predicate HostRefused(error: MemoryError) {
    error == HostFailure || error == RestoreFailure
  }

  predicate IsPageAligned(value: nat) {
    value % GUEST_PAGE_SIZE == 0
  }

  function CheckedRawRange(start: U64, length: nat): (r: Outcome<U64>)
    ensures r.Ok? <==> start + length < U64_LIMIT
    ensures r.Ok? ==> r.value == start + length
    ensures r.Err? ==> r.error == InvalidLength
  {
    if start + length < U64_LIMIT then Ok(start + length) else Err(InvalidLength)
  }

  /** Rounding up to a page: the least aligned address not below `value`. */
  function AlignUp(value: U64): (r: Outcome<U64>)
    ensures r.Err? <==> value + (GUEST_PAGE_SIZE - 1) >= U64_LIMIT
    ensures r.Ok? ==> IsPageAligned(r.value) && value <= r.value < value + GUEST_PAGE_SIZE
    ensures r.Ok? && IsPageAligned(value) ==> r.value == value
    ensures r.Err? ==> r.error == InvalidLength
  {
    if value + (GUEST_PAGE_SIZE - 1) < U64_LIMIT
    then Ok((value + (GUEST_PAGE_SIZE - 1)) / GUEST_PAGE_SIZE * GUEST_PAGE_SIZE)
    else Err(InvalidLength)
  }

  function AlignDown(value: U64): (r: U64)
    ensures IsPageAligned(r) && r <= value < r + GUEST_PAGE_SIZE
  {
    value / GUEST_PAGE_SIZE * GUEST_PAGE_SIZE
  }

  function PageRoundLength(length: U64): (r: Outcome<U64>)
    ensures r.Ok? ==> IsPageAligned(r.value) && 0 < length <= r.value < length + GUEST_PAGE_SIZE
    ensures r.Err? ==> r.error == InvalidLength
    ensures r.Err? <==> length == 0 || length + (GUEST_PAGE_SIZE - 1) >= U64_LIMIT
  {
    if length == 0 then Err(InvalidLength) else AlignUp(length)
  }

  /** The page-rounded end of a nonempty range that starts on a page and ends on a page below the limit. */
  function CheckedPageRange(start: U64, length: U64): (r: Outcome<U64>)
    ensures r.Ok? <==> IsPageAligned(start) && 0 < length && start + length + (GUEST_PAGE_SIZE - 1) < U64_LIMIT
    ensures r.Err? ==> r.error == if !IsPageAligned(start) || length == 0 then InvalidAddress else InvalidLength
    ensures r.Ok? ==> IsPageAligned(start) && IsPageAligned(r.value) && start < r.value
                      && start + length <= r.value < start + length + GUEST_PAGE_SIZE
  {
    if !IsPageAligned(start) || length == 0 then Err(InvalidAddress)
    else
      var rounded := PageRoundLength(length);
      if rounded.Err? then Err(rounded.error) else CheckedRawRange(start, rounded.value)
  }

  function CheckedMappingEnd(start: U64, length: nat, spaceEnd: U64): (r: Outcome<U64>)
    ensures r.Ok? <==> MIN_GUEST_ADDRESS <= start && IsPageAligned(start) && start + length <= spaceEnd
    ensures r.Ok? ==> r.value == start + length
    ensures r.Err? ==> r.error == if start < MIN_GUEST_ADDRESS || !IsPageAligned(start) then InvalidAddress
                                  else if start + length >= U64_LIMIT then InvalidLength else OutOfMemory
  {
    if start < MIN_GUEST_ADDRESS || !IsPageAligned(start) then Err(InvalidAddress)
    else
      var end := CheckedRawRange(start, length);
      if end.Err? then Err(end.error)
      else if end.value > spaceEnd then Err(OutOfMemory)
      else end
  }

  function GranuleDown(value: nat): (r: nat)
    ensures r % WINDOWS_GRANULARITY == 0 && IsPageAligned(r) && r <= value < r + WINDOWS_GRANULARITY
  {
    value / WINDOWS_GRANULARITY * WINDOWS_GRANULARITY
  }

  function GranuleUp(value: nat): (r: nat)
    ensures r % WINDOWS_GRANULARITY == 0 && IsPageAligned(r) && value <= r < value + WINDOWS_GRANULARITY
  {
    GranuleDown(value + (WINDOWS_GRANULARITY - 1))
  }

  function HostGranularity(windowsHost: bool): (r: nat)
    ensures r == if windowsHost then 65536 else 4096
  {
    if windowsHost then WINDOWS_GRANULARITY else GUEST_PAGE_SIZE
  }

  predicate OnGranule(windowsHost: bool, value: nat) {
    if windowsHost then value % WINDOWS_GRANULARITY == 0 else IsPageAligned(value)
  }

  /**
   The guest range a host allocation for [start, start + length) covers: widened to the host's
   allocation granularity, 64 KiB on a Windows host and one page elsewhere.
   */
  function HostAllocationRange(windowsHost: bool, start: U64, length: nat): (r: Outcome<(U64, U64)>)
    ensures r.Err? <==> start + length + (HostGranularity(windowsHost) - 1) >= U64_LIMIT
    ensures r.Ok? ==> var g := HostGranularity(windowsHost);
                      && OnGranule(windowsHost, r.value.0) && OnGranule(windowsHost, r.value.1)
                         && IsPageAligned(r.value.0)
                      && r.value.0 <= start < r.value.0 + g && start + length <= r.value.1 < start + length + g
  {
    var end := CheckedRawRange(start, length);
    if end.Err? then Err(end.error)
    else if windowsHost then
      if end.value + (WINDOWS_GRANULARITY - 1) >= U64_LIMIT then Err(InvalidLength)
      else Ok((GranuleDown(start), GranuleUp(end.value)))
    else
      var up := AlignUp(end.value);
      if up.Err? then Err(up.error) else Ok((AlignDown(start), up.value))
  }

  /** On any host the range lies inside whole granules. */
  lemma HostRangeInGranules(windowsHost: bool, start: U64, length: nat)
    requires HostAllocationRange(windowsHost, start, length).Ok?
    ensures var (lo, hi) := HostAllocationRange(windowsHost, start, length).value;
            GranuleDown(start) <= lo && hi <= GranuleUp(start + length)
  {
    var (lo, hi) := HostAllocationRange(windowsHost, start, length).value;
    if !windowsHost {
      var down, up := GranuleDown(start), GranuleUp(start + length);
      assert down / GUEST_PAGE_SIZE <= lo / GUEST_PAGE_SIZE && hi / GUEST_PAGE_SIZE <= up / GUEST_PAGE_SIZE;
    }
  }
}
