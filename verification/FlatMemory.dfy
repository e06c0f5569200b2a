/**
 The guest's own picture of memory: a flat map from addresses to a byte, a protection and a kind,
 with no VMAs, allocations or sharing in sight. The operations below are the reference the memory
 manager is proved against.
 */
module FlatMemory {
  import opened Ranges
  import opened Vmas

  datatype Cell = Cell(data: Byte, protection: Protection, kind: VmaKind)

  type FlatMap = imap<nat, Cell>

  datatype Access = Read | Write

  predicate Permits(protection: Protection, access: Access) {
    match access
    case Read => protection.read
    case Write => protection.write
  }

  /** What stops an access at one address, if anything does. */
  ghost function Fault(flat: FlatMap, a: nat, access: Access): Option<MemoryError> {
    if a !in flat then Some(NotMapped)
    else if !Permits(flat[a].protection, access) then Some(AccessDenied)
    else None
  }

  ghost predicate Accessible(flat: FlatMap, lo: nat, hi: nat, access: Access) {
    forall a: nat :: lo <= a < hi ==> Fault(flat, a, access) == None
  }

  /** `a` is the first address of [lo, hi) the access faults at. */
  ghost predicate FirstFault(flat: FlatMap, lo: nat, hi: nat, access: Access, a: nat, error: MemoryError) {
    lo <= a < hi && Accessible(flat, lo, a, access) && Fault(flat, a, access) == Some(error)
  }

  ghost predicate FaultsWith(flat: FlatMap, lo: nat, hi: nat, access: Access, error: MemoryError) {
    exists a: nat :: FirstFault(flat, lo, hi, access, a, error)
  }

  /** An address of the range that faults keeps it from being accessible. */
  lemma FaultDenies(flat: FlatMap, lo: nat, hi: nat, access: Access, a: nat)
    requires lo <= a < hi && Fault(flat, a, access) != None
    ensures !Accessible(flat, lo, hi, access)
  {
  }

  ghost predicate Free(flat: FlatMap, lo: nat, hi: nat) {
    forall a: nat :: lo <= a < hi ==> a !in flat
  }

  /** A page-aligned place inside the address space with nothing mapped. */
  ghost predicate HasPlace(flat: FlatMap, spaceEnd: nat, start: nat, length: nat) {
    && IsPageAligned(start) && MIN_GUEST_ADDRESS <= start && start + length <= spaceEnd
    && Free(flat, start, start + length)
  }

  /** Every address of the range is mapped, and may be read, written and executed as the number's bits say. */
  ghost predicate Allows(flat: FlatMap, lo: nat, hi: nat, prot: nat) {
    forall a: nat :: lo <= a < hi ==>
      && a in flat
      && (Fault(flat, a, Read) == None <==> prot % 2 == 1)
      && (Fault(flat, a, Write) == None <==> prot / 2 % 2 == 1)
      && (flat[a].protection.execute <==> prot / 4 % 2 == 1)
  }

  /** `bytes` is what the guest finds at `address`. */
  ghost predicate Holds(flat: FlatMap, address: nat, bytes: seq<Byte>) {
    forall a: nat :: address <= a < address + |bytes| ==> a in flat && flat[a].data == bytes[a - address]
  }

  ghost function Overlay(flat: FlatMap, address: nat, bytes: seq<Byte>): FlatMap {
    imap a | a in flat ::
      if address <= a < address + |bytes| then flat[a].(data := bytes[a - address]) else flat[a]
  }

  ghost function Unmap(flat: FlatMap, start: nat, end: nat): FlatMap {
    imap a | a in flat && !(start <= a < end) :: flat[a]
  }

  ghost function Reprotect(flat: FlatMap, start: nat, end: nat, protection: Protection): FlatMap {
    imap a | a in flat :: if start <= a < end then flat[a].(protection := protection) else flat[a]
  }

  /** A fresh mapping: zero bytes over [start, end), whatever was there before. */
  ghost function MapZero(flat: FlatMap, start: nat, end: nat, protection: Protection, kind: VmaKind): FlatMap {
    imap a | a in flat || start <= a < end :: if start <= a < end then Cell(0, protection, kind) else flat[a]
  }

  /** A fresh mapping with given contents. */
  ghost function MapBytes(flat: FlatMap, start: nat, data: seq<Byte>, protection: Protection, kind: VmaKind): FlatMap {
    imap a | a in flat || start <= a < start + |data| ::
      if start <= a < start + |data| then Cell(data[a - start], protection, kind) else flat[a]
  }

  /** The same addresses with the same protections and kinds; only bytes may differ. */
  ghost predicate SameShape(left: FlatMap, right: FlatMap) {
    && (forall a :: a in left <==> a in right)
    && (forall a :: a in left ==> left[a].protection == right[a].protection && left[a].kind == right[a].kind)
  }

  /** The same but for the bytes at some of the addresses. */
  ghost predicate Alike(left: FlatMap, right: FlatMap, except: iset<nat>) {
    SameShape(left, right) && forall a: nat :: a in left && a !in except ==> right[a] == left[a]
  }

  lemma AlikeExactly(left: FlatMap, right: FlatMap)
    requires Alike(left, right, iset{})
    ensures right == left
  {
  }

  lemma HoldsJoins(flat: FlatMap, address: nat, left: seq<Byte>, right: seq<Byte>)
    requires Holds(flat, address, left) && Holds(flat, address + |left|, right)
    ensures Holds(flat, address, left + right)
  {
  }

  lemma OverlayJoins(flat: FlatMap, address: nat, left: seq<Byte>, right: seq<Byte>)
    ensures Overlay(Overlay(flat, address, left), address + |left|, right) == Overlay(flat, address, left + right)
  {
  }

  /** An overlay changes no protection, so it changes no fault. */
  lemma OverlayFaults(flat: FlatMap, address: nat, bytes: seq<Byte>, a: nat, access: Access)
    ensures Fault(Overlay(flat, address, bytes), a, access) == Fault(flat, a, access)
  {
  }

  lemma OverlayNothing(flat: FlatMap, address: nat)
    ensures Overlay(flat, address, []) == flat && Accessible(flat, address, address, Write)
  {
  }

  /** One more chunk of a long write. */
  lemma OverlayStep(flat: FlatMap, address: nat, bytes: seq<Byte>, copied: nat, chunk: nat, now: FlatMap)
    requires copied + chunk <= |bytes|
    requires now == Overlay(Overlay(flat, address, bytes[..copied]), address + copied, bytes[copied..][..chunk])
    requires Accessible(flat, address, address + copied, Write)
    requires Accessible(Overlay(flat, address, bytes[..copied]), address + copied, address + copied + chunk, Write)
    ensures now == Overlay(flat, address, bytes[..copied + chunk])
    ensures Accessible(flat, address, address + copied + chunk, Write)
  {
    OverlayJoins(flat, address, bytes[..copied], bytes[copied..][..chunk]);
    assert bytes[..copied] + bytes[copied..][..chunk] == bytes[..copied + chunk];
    forall a: nat | address + copied <= a < address + copied + chunk
      ensures Fault(flat, a, Write) == None
    {
      OverlayFaults(flat, address, bytes[..copied], a, Write);
    }
  }

  /** Writing back what was there undoes an overlay. */
  lemma OverlayUndo(flat: FlatMap, address: nat, saved: seq<Byte>, bytes: seq<Byte>)
    requires |saved| == |bytes| && Holds(flat, address, saved)
    ensures Overlay(Overlay(flat, address, bytes), address, saved) == flat
  {
    var back := Overlay(Overlay(flat, address, bytes), address, saved);
    assert forall a :: a in flat ==> back[a] == flat[a];
  }

  lemma MappedBytes(flat: FlatMap, alike: FlatMap, start: nat, data: seq<Byte>, protection: Protection,
                    except: iset<nat>)
    requires Alike(flat, alike, except)
    ensures Alike(MapBytes(flat, start, data, protection, Anonymous),
                  MapBytes(alike, start, data, protection, Anonymous), except)
    ensures Holds(MapBytes(alike, start, data, protection, Anonymous), start, data)
  {
  }
}
