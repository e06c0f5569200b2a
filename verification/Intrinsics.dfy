/**
 The libc intrinsics the runtime performs directly on guest memory
 (crates/mcr-memory/src/intrinsics.rs), on top of reading and writing.
 */
module Intrinsics {
  import opened Ranges
  import opened Vmas
  import opened FlatMemory
  import opened GuestState
  import opened GuestMemories

  datatype Intrinsic = Memcpy | Memmove | Memset | Memchr | Memcmp | Strlen(maxLength: nat)

  datatype IntrinsicError = MemoryFault(error: MemoryError) | UnsupportedOverlap | UnterminatedString

  /** [destination, destination + length) now holds what [source, source + length) held in `was`. */
  ghost predicate Copied(was: FlatMap, now: FlatMap, destination: nat, source: nat, length: nat) {
    forall i: nat :: i < length ==> SameByte(was, now, destination, source, i)
  }

  ghost predicate SameByte(was: FlatMap, now: FlatMap, destination: nat, source: nat, i: nat) {
    source + i in was && destination + i in now && now[destination + i].data == was[source + i].data
  }

  /** Nothing outside [start, end) changed. */
  ghost predicate UnchangedOutside(was: FlatMap, now: FlatMap, start: nat, end: nat) {
    && SameShape(was, now)
    && forall a :: a in was && !(start <= a < end) ==> now[a] == was[a]
  }

  lemma NothingChanged(flat: FlatMap, start: nat, end: nat)
    ensures UnchangedOutside(flat, flat, start, end)
  {
  }

  method MemsetRange(memory: GuestMemory, address: U64, value: Byte, length: nat) returns (r: Outcome<()>)
    requires memory.Valid()
    modifies memory, memory.host
    ensures old(memory.host.refusals) <= memory.host.refusals
    ensures r.Err? && HostRefused(r.error) ==> old(memory.host.refusals) < memory.host.refusals
    ensures memory.Valid() && Framed(old(memory.State()), memory.State())
    ensures UnchangedOutside(old(memory.Memory()), memory.Memory(), address, address + length)
    ensures r.Ok? ==> forall a: nat :: address <= a < address + length ==>
              a in memory.Memory() && memory.Memory()[a].data == value
  {
    hide Inv, View, Framed;
    var range := CheckedRawRange(address, length);
    QuietReflexive(memory.State());
    if range.Err? {
      return Err(range.error);
    }
    ghost var written;
    var bytes := seq(length, _ => value);
    r, written := memory.Write(address, bytes);
    if r.Ok? {
      assert bytes[..written] == bytes;
      forall a: nat | address <= a < address + length
        ensures a in memory.Memory() && memory.Memory()[a].data == value
      {
        assert Fault(old(memory.Memory()), a, Access.Write) == None;
      }
    }
  }

  /** Read everything, then write it: right even when the ranges overlap. */
  method MemmoveRange(memory: GuestMemory, destination: U64, source: U64, length: nat) returns (r: Outcome<()>)
    requires memory.Valid()
    modifies memory, memory.host
    ensures old(memory.host.refusals) <= memory.host.refusals
    ensures r.Err? && HostRefused(r.error) ==> old(memory.host.refusals) < memory.host.refusals
    ensures memory.Valid() && Framed(old(memory.State()), memory.State())
    ensures UnchangedOutside(old(memory.Memory()), memory.Memory(), destination, destination + length)
    ensures r.Ok? ==> Copied(old(memory.Memory()), memory.Memory(), destination, source, length)
  {
    hide Inv, View, Framed;
    QuietReflexive(memory.State());
    var bytes := memory.Read(source, length);
    if bytes.Err? {
      return Err(bytes.error);
    }
    ghost var was := memory.Memory();
    ghost var written;
    r, written := memory.Write(destination, bytes.value);
    if r.Ok? {
      CopiedByOverlay(was, destination, source, bytes.value);
      assert bytes.value[..written] == bytes.value;
    }
  }

  lemma CopiedByOverlay(was: FlatMap, destination: nat, source: nat, bytes: seq<Byte>)
    requires FlatMemory.Holds(was, source, bytes) && Accessible(was, destination, destination + |bytes|, Access.Write)
    ensures Copied(was, Overlay(was, destination, bytes), destination, source, |bytes|)
  {
    forall i: nat | i < |bytes|
      ensures SameByte(was, Overlay(was, destination, bytes), destination, source, i)
    {
      assert Fault(was, destination + i, Access.Write) == None;
    }
  }

  /** The order of the first difference, zero when there is none. */
  ghost predicate Compares(flat: FlatMap, left: nat, right: nat, length: nat, result: int) {
    if result == 0 then Copied(flat, flat, left, right, length)
    else exists n: nat :: DiffersFirstAt(flat, left, right, length, n, result)
  }

  ghost predicate DiffersFirstAt(flat: FlatMap, left: nat, right: nat, length: nat, n: nat, result: int) {
    && n < length && Copied(flat, flat, left, right, n)
    && left + n in flat && right + n in flat
    && result == flat[left + n].data - flat[right + n].data
  }

  method MemcmpRanges(memory: GuestMemory, left: U64, right: U64, length: nat) returns (r: Outcome<int>)
    requires memory.Valid()
    ensures r.Err? ==> !HostRefused(r.error)
    ensures r.Ok? ==> Compares(memory.Memory(), left, right, length, r.value)
    ensures r.Ok? <==> left + length < U64_LIMIT && right + length < U64_LIMIT
                       && Accessible(memory.Memory(), left, left + length, Access.Read)
                       && Accessible(memory.Memory(), right, right + length, Access.Read)
  {
    hide Inv, View;
    var lefts := memory.Read(left, length);
    if lefts.Err? {
      return Err(lefts.error);
    }
    var rights := memory.Read(right, length);
    if rights.Err? {
      return Err(rights.error);
    }
    ghost var flat := memory.Memory();
    for i := 0 to length
      invariant Copied(flat, flat, left, right, i)
    {
      assert flat[left + i].data == lefts.value[i] && flat[right + i].data == rights.value[i];
      assert lefts.value[i] == rights.value[i] ==> SameByte(flat, flat, left, right, i);
      if lefts.value[i] != rights.value[i] {
        var difference: int := lefts.value[i] as int - rights.value[i] as int;
        assert DiffersFirstAt(flat, left, right, length, i, difference);
        return Ok(difference);
      }
    }
    r := Ok(0);
  }

  ghost predicate FirstAt(flat: FlatMap, address: nat, needle: Byte, n: nat) {
    && address + n in flat && flat[address + n].data == needle
    && forall a: nat :: address <= a < address + n ==> a in flat && flat[a].data != needle
  }

  ghost predicate Absent(flat: FlatMap, address: nat, length: nat, needle: Byte) {
    forall a: nat :: address <= a < address + length ==> a in flat && flat[a].data != needle
  }

  /** Nothing is mapped at address zero, so a zero answer is never the address of a byte found. */
  lemma FoundAboveZero(s: State, address: nat, needle: Byte, n: nat)
    requires Inv(s) && FirstAt(View(s), address, needle, n)
    ensures MIN_GUEST_ADDRESS <= address + n
  {
    var k := KeyAt(s.vmas, address + n);
    BackedVma(s, k);
  }

  lemma AbsentNotFound(flat: FlatMap, address: nat, length: nat)
    requires Absent(flat, address, length, 0)
    ensures forall n: nat :: n < length ==> !FirstAt(flat, address, 0, n)
  {
  }

  /** The first position of a byte in a readable range. */
  method FindByte(memory: GuestMemory, address: U64, needle: Byte, length: nat) returns (r: Outcome<Option<nat>>)
    requires memory.Valid()
    ensures r.Err? ==> !HostRefused(r.error)
    ensures r.Ok? <==> address + length < U64_LIMIT
                       && Accessible(memory.Memory(), address, address + length, Access.Read)
    ensures r.Ok? && r.value.Some? ==>
            r.value.value < length && FirstAt(memory.Memory(), address, needle, r.value.value)
    ensures r.Ok? && r.value.None? ==> Absent(memory.Memory(), address, length, needle)
  {
    hide Inv, View;
    var bytes := memory.Read(address, length);
    if bytes.Err? {
      return Err(bytes.error);
    }
    var found := IndexOf(bytes.value, needle);
    ghost var prefix := if found.Some? then found.value else length;
    forall a: nat | address <= a < address + prefix
      ensures a in memory.Memory() && memory.Memory()[a].data != needle
    {
      assert bytes.value[..prefix][a - address] == bytes.value[a - address];
    }
    r := Ok(found);
  }

  predicate RangesOverlap(left: U64, right: U64, length: nat) {
    length != 0 && left < right + length && right < left + length
  }

  // How far strlen reads

  ghost predicate Readable(flat: FlatMap, address: nat, length: nat) {
    address + length < U64_LIMIT && Accessible(flat, address, address + length, Access.Read)
  }

  /** A string of readable bytes, its NUL among them, ends within the limit. */
  ghost predicate Terminated(flat: FlatMap, address: nat, limit: nat) {
    exists n: nat :: n < limit && Readable(flat, address, n + 1) && FirstAt(flat, address, 0, n)
  }

  /** What strlen asks for: the whole window is read before it is searched. */
  ghost predicate FoundInWindow(flat: FlatMap, address: nat, limit: nat) {
    Readable(flat, address, limit) && exists n: nat :: n < limit && FirstAt(flat, address, 0, n)
  }

  /** A string that ends with the mapping: it is readable and terminated, and strlen faults. */
  lemma StringAtMappingEnd()
    ensures var page := MapZero(imap[], 0x1000, 0x2000, Protection(true, true, false), Anonymous);
            Terminated(page, 0x1fff, 16) && !FoundInWindow(page, 0x1fff, 16)
  {
    var page := MapZero(imap[], 0x1000, 0x2000, Protection(true, true, false), Anonymous);
    assert Readable(page, 0x1fff, 0 + 1) && FirstAt(page, 0x1fff, 0, 0);
    assert Fault(page, 0x2000, Access.Read) == Some(NotMapped);
  }

  /**
   strlen finds every terminated string, whatever the bytes, if and only if the whole window can be read or not even
   its first byte can.
   */
  lemma StrlenFindsExactly(flat: FlatMap, address: nat, limit: nat)
    ensures (forall f :: SameShape(flat, f) ==> (FoundInWindow(f, address, limit) <==> Terminated(f, address, limit)))
            <==> limit == 0 || Readable(flat, address, limit) || !Readable(flat, address, 1)
  {
    if limit == 0 || Readable(flat, address, limit) || !Readable(flat, address, 1) {
      forall f | SameShape(flat, f)
        ensures FoundInWindow(f, address, limit) <==> Terminated(f, address, limit)
      {
        WindowSuffices(flat, f, address, limit);
      }
    } else {
      var f: FlatMap := imap a | a in flat :: flat[a].(data := 0);
      assert SameShape(flat, f);
      SameShapeReadable(flat, f, address, 1);
      SameShapeReadable(flat, f, address, limit);
      assert Fault(f, address, Access.Read) == None;
      assert Readable(f, address, 0 + 1) && FirstAt(f, address, 0, 0);
    }
  }

  lemma SameShapeReadable(flat: FlatMap, f: FlatMap, address: nat, length: nat)
    requires SameShape(flat, f)
    ensures Readable(flat, address, length) <==> Readable(f, address, length)
  {
    assert forall a: nat :: Fault(flat, a, Access.Read) == Fault(f, a, Access.Read);
  }

  lemma WindowSuffices(flat: FlatMap, f: FlatMap, address: nat, limit: nat)
    requires SameShape(flat, f)
    requires limit == 0 || Readable(flat, address, limit) || !Readable(flat, address, 1)
    ensures FoundInWindow(f, address, limit) <==> Terminated(f, address, limit)
  {
    hide FirstAt;
    SameShapeReadable(flat, f, address, limit);
    SameShapeReadable(flat, f, address, 1);
    assert forall m: nat :: m <= limit && Readable(f, address, limit) ==> Readable(f, address, m);
    assert forall m: nat :: 0 < m && Readable(f, address, m) ==> Readable(f, address, 1);
  }

  /**
   Dispatch on the register arguments. Memcpy refuses overlapping ranges instead of copying them wrongly, so every
   copy it does perform is a move.
   */
  method Dispatch(memory: GuestMemory, intrinsic: Intrinsic, rdi: U64, rsi: U64, rdx: U64)
    returns (r: Result<int, IntrinsicError>)
    requires memory.Valid()
    modifies memory, memory.host
    ensures old(memory.host.refusals) <= memory.host.refusals
    ensures r.Err? && r.error.MemoryFault? && HostRefused(r.error.error) ==>
              old(memory.host.refusals) < memory.host.refusals
    ensures memory.Valid() && Framed(old(memory.State()), memory.State())
    ensures intrinsic.Memcpy? && rdi + rdx < U64_LIMIT && rsi + rdx < U64_LIMIT ==>
              (r == Err(UnsupportedOverlap) <==> RangesOverlap(rdi, rsi, rdx))
    ensures (intrinsic.Memcpy? || intrinsic.Memmove?) && r.Ok? ==>
              r.value == rdi && Copied(old(memory.Memory()), memory.Memory(), rdi, rsi, rdx)
    ensures UnchangedOutside(old(memory.Memory()), memory.Memory(), rdi, rdi + rdx)
    ensures intrinsic.Memset? && r.Ok? ==> r.value == rdi && forall a: nat :: rdi <= a < rdi + rdx ==>
              a in memory.Memory() && memory.Memory()[a].data == rsi % 256
    ensures intrinsic.Memchr? ==> (r.Ok? <==> Readable(memory.Memory(), rdi, rdx))
    ensures intrinsic.Memcmp? ==>
              (r.Ok? <==> Readable(memory.Memory(), rdi, rdx) && Readable(memory.Memory(), rsi, rdx))
    ensures intrinsic.Strlen? ==> (r.Ok? <==> FoundInWindow(memory.Memory(), rdi, intrinsic.maxLength))
    ensures intrinsic.Memchr? && r.Ok? ==>
              memory.Memory() == old(memory.Memory())
              && (r.value == 0 ==> Absent(memory.Memory(), rdi, rdx, rsi % 256))
              && (r.value != 0 ==> rdi <= r.value < rdi + rdx
                                   && FirstAt(memory.Memory(), rdi, rsi % 256, r.value - rdi))
    ensures intrinsic.Memcmp? && r.Ok? ==>
              memory.Memory() == old(memory.Memory())
              && exists c :: Compares(memory.Memory(), rdi, rsi, rdx, c) && r.value == if c < 0 then U64_LIMIT + c
                 else c
    ensures intrinsic.Strlen? && r.Ok? ==>
              memory.Memory() == old(memory.Memory()) && 0 <= r.value && FirstAt(memory.Memory(), rdi, 0, r.value)
  {
    hide Inv, View, Framed, Copied, Compares, FirstAt, UnchangedOutside, Absent;
    QuietReflexive(memory.State());
    NothingChanged(memory.Memory(), rdi, rdi + rdx);
    match intrinsic {
      case Memcpy =>
        if rdx != 0 && (rdi + rdx >= U64_LIMIT || rsi + rdx >= U64_LIMIT) {
          return Err(MemoryFault(InvalidLength));
        }
        if RangesOverlap(rdi, rsi, rdx) {
          return Err(UnsupportedOverlap);
        }
        var moved := MemmoveRange(memory, rdi, rsi, rdx);
        r := if moved.Ok? then Ok(rdi) else Err(MemoryFault(moved.error));
      case Memmove =>
        var moved := MemmoveRange(memory, rdi, rsi, rdx);
        r := if moved.Ok? then Ok(rdi) else Err(MemoryFault(moved.error));
      case Memset =>
        var filled := MemsetRange(memory, rdi, rsi % 256, rdx);
        r := if filled.Ok? then Ok(rdi) else Err(MemoryFault(filled.error));
      case Memchr =>
        var found := FindByte(memory, rdi, rsi % 256, rdx);
        if found.Ok? && found.value.Some? {
          FoundAboveZero(memory.State(), rdi, rsi % 256, found.value.value);
        }
        r := if found.Err? then Err(MemoryFault(found.error))
             else Ok(if found.value.Some? then rdi + found.value.value else 0);
      case Memcmp =>
        var order := MemcmpRanges(memory, rdi, rsi, rdx);
        r := if order.Err? then Err(MemoryFault(order.error))
             else Ok(if order.value < 0 then U64_LIMIT + order.value else order.value);
      case Strlen(maxLength) =>
        var found := FindByte(memory, rdi, 0, maxLength);
        if found.Ok? && found.value.None? {
          AbsentNotFound(memory.Memory(), rdi, maxLength);
        }
        r := if found.Err? then Err(MemoryFault(found.error))
             else if found.value.None? then Err(UnterminatedString)
             else Ok(found.value.value);
    }
  }
}
