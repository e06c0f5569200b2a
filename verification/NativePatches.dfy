/**
 Native patch metadata (crates/mcr-jit/src/native_patch.rs): the persistent cache format, which stores addresses
 relative to the base they were scanned at, and the direct rebase the format must agree with.
 */
module NativePatches {
  import opened Ranges
  import opened Bytes
  import opened OrderedKeys

  const MAGIC: seq<Byte> := [77, 67, 82, 78, 80, 67, 48, 49]  // MCRNPC01
  const VERSION: nat := 3
  const PATCH_SIZE: nat := 9
  const TRAP_SIZE: nat := 15
  const COUNT_LIMIT: nat := 0x1_0000_0000

  datatype ImageKey = ImageKey(hash: U64, executableLength: U64)

  datatype Trap = Trap(original: seq<Byte>, length: Byte)

  /** The FS tables exist on Windows builds only and stay empty elsewhere. */
  datatype Metadata = Metadata(
    ranges: seq<(U64, U64)>,
    syscalls: seq<U64>,
    patches: map<U64, seq<Byte>>,
    traps: map<U64, Trap>
  )

  /** The sizes the source's array types impose. */
  ghost predicate MetadataOk(m: Metadata, windows: bool) {
    && (forall a :: a in m.patches ==> |m.patches[a]| == PATCH_SIZE)
    && (forall a :: a in m.traps ==> |m.traps[a].original| == TRAP_SIZE)
    && (!windows ==> m.patches == map[] && m.traps == map[])
  }

  // Rebasing

  function RebaseAddress(a: U64, source: U64, target: U64): Option<U64> {
    if a < source then None
    else if target + (a - source) >= U64_LIMIT then None
    else Some(target + (a - source))
  }

  predicate Movable(m: Metadata, source: U64, target: U64) {
    && (forall i :: 0 <= i < |m.ranges| ==>
          RebaseAddress(m.ranges[i].0, source, target).Some? && RebaseAddress(m.ranges[i].1, source, target).Some?)
    && (forall i :: 0 <= i < |m.syscalls| ==> RebaseAddress(m.syscalls[i], source, target).Some?)
    && (forall a :: a in m.patches ==> RebaseAddress(a, source, target).Some?)
    && (forall a :: a in m.traps ==> RebaseAddress(a, source, target).Some?)
  }

  function Moved<T>(table: map<U64, T>, source: U64, target: U64): map<U64, T>
    requires forall a :: a in table ==> RebaseAddress(a, source, target).Some?
  {
    map a | a in table :: RebaseAddress(a, source, target).value := table[a]
  }

  function Rebase(m: Metadata, source: U64, target: U64): Option<Metadata> {
    if !Movable(m, source, target) then None
    else Some(Metadata(
                seq(|m.ranges|, i requires 0 <= i < |m.ranges| =>
                  (RebaseAddress(m.ranges[i].0, source, target).value,
                      RebaseAddress(m.ranges[i].1, source, target).value)),
                seq(|m.syscalls|,
                    i requires 0 <= i < |m.syscalls| => RebaseAddress(m.syscalls[i], source, target).value),
                Moved(m.patches, source, target),
                Moved(m.traps, source, target)))
  }

  // The format: a header and four counted tables of rows

  function Offset(a: U64, base: U64): seq<Byte>
    requires base <= a
  {
    ToLe(a - base, 8)
  }

  function Header(key: ImageKey): (r: seq<Byte>)
    ensures |r| == 28
  {
    MAGIC + ToLe(VERSION, 4) + ToLe(key.hash, 8) + ToLe(key.executableLength, 8)
  }

  function Table(rows: seq<seq<Byte>>): seq<Byte> {
    ToLe(|rows| % COUNT_LIMIT, 4) + Concat(rows)
  }

  function TrapPayload(trap: Trap): seq<Byte> {
    ToLe(trap.length, 4) + trap.original
  }

  ghost predicate Encodable(m: Metadata, base: U64) {
    && (forall i :: 0 <= i < |m.ranges| ==> base <= m.ranges[i].0 && base <= m.ranges[i].1)
    && (forall i :: 0 <= i < |m.syscalls| ==> base <= m.syscalls[i])
    && (forall a :: a in m.patches ==> base <= a) && (forall a :: a in m.traps ==> base <= a)
  }

  function RangeRow(range: (U64, U64), base: U64): seq<Byte>
    requires base <= range.0 && base <= range.1
  {
    Offset(range.0, base) + Offset(range.1, base)
  }

  ghost function RangeRows(ranges: seq<(U64, U64)>, base: U64): seq<seq<Byte>>
    requires forall i :: 0 <= i < |ranges| ==> base <= ranges[i].0 && base <= ranges[i].1
  {
    seq(|ranges|, i requires 0 <= i < |ranges| => RangeRow(ranges[i], base))
  }

  ghost function SiteRows(sites: seq<U64>, base: U64): seq<seq<Byte>>
    requires forall i :: 0 <= i < |sites| ==> base <= sites[i]
  {
    seq(|sites|, i requires 0 <= i < |sites| => Offset(sites[i], base))
  }

  function Addresses(keys: set<U64>): (r: seq<U64>)
    ensures StrictlyAscending(r) && forall a: U64 :: a in r <==> a in keys
  {
    var sorted := Sorted(keys);
    assert forall i :: 0 <= i < |sorted| ==> sorted[i] in keys;
    sorted
  }

  function KeyedRow(table: map<U64, seq<Byte>>, a: U64, base: U64): seq<Byte>
    requires a in table && base <= a
  {
    Offset(a, base) + table[a]
  }

  /** The rows of an address-keyed table, in address order. */
  ghost function KeyedRows(table: map<U64, seq<Byte>>, base: U64): seq<seq<Byte>>
    requires forall a :: a in table ==> base <= a
  {
    var keys := Addresses(table.Keys);
    seq(|keys|, i requires 0 <= i < |keys| => KeyedRow(table, keys[i], base))
  }

  ghost function Payloads(traps: map<U64, Trap>): map<U64, seq<Byte>> {
    map a | a in traps :: TrapPayload(traps[a])
  }

  ghost function Encoded(key: ImageKey, m: Metadata, base: U64): seq<Byte>
    requires Encodable(m, base)
  {
    Header(key) + Table(RangeRows(m.ranges, base)) + Table(SiteRows(m.syscalls, base))
    + Table(KeyedRows(m.patches, base)) + Table(KeyedRows(Payloads(m.traps), base))
  }

  // Reading

  function ReadRows(rest: seq<Byte>, width: nat, count: nat): (r: Option<(seq<seq<Byte>>, seq<Byte>)>)
    ensures r.Some? ==> |r.value.0| == count && forall i :: 0 <= i < count ==> |r.value.0[i]| == width
  {
    if count == 0 then Some(([], rest))
    else if |rest| < width then None
    else
      var tail := ReadRows(rest[width..], width, count - 1);
      if tail.None? then None else Some(([rest[..width]] + tail.value.0, tail.value.1))
  }

  function ReadTable(rest: seq<Byte>, width: nat): (r: Option<(seq<seq<Byte>>, seq<Byte>)>)
    ensures r.Some? ==> forall i :: 0 <= i < |r.value.0| ==> |r.value.0[i]| == width
  {
    if |rest| < 4 then None else ReadRows(rest[4..], width, FromLe(rest[..4]))
  }

  function AddressAt(row: seq<Byte>, at: nat, base: U64): Option<U64>
    requires at + 8 <= |row|
  {
    var address := base + FromLe(row[at..at + 8]);
    if address < U64_LIMIT then Some(address) else None
  }

  predicate AddressesOk(rows: seq<seq<Byte>>, at: nat, base: U64)
    requires forall i :: 0 <= i < |rows| ==> at + 8 <= |rows[i]|
  {
    forall i :: 0 <= i < |rows| ==> AddressAt(rows[i], at, base).Some?
  }

  /** The rows as a map; a later row for the same address replaces an earlier one. */
  function KeyedTable(rows: seq<seq<Byte>>, base: U64): map<U64, seq<Byte>>
    requires (forall i :: 0 <= i < |rows| ==> 8 <= |rows[i]|) && AddressesOk(rows, 0, base)
  {
    if rows == [] then map[]
    else
      var last := rows[|rows| - 1];
      KeyedTable(rows[..|rows| - 1], base)[AddressAt(last, 0, base).value := last[8..]]
  }

  predicate TrapOk(payload: seq<Byte>)
    requires 4 <= |payload|
  {
    1 <= FromLe(payload[..4]) <= TRAP_SIZE
  }

  predicate TrapRowsOk(rows: seq<seq<Byte>>)
    requires forall i :: 0 <= i < |rows| ==> 12 <= |rows[i]|
  {
    forall i :: 0 <= i < |rows| ==> TrapOk(rows[i][8..])
  }

  function TrapOf(payload: seq<Byte>): Trap
    requires 4 <= |payload| && TrapOk(payload)
  {
    Trap(payload[4..], FromLe(payload[..4]))
  }

  function Traps(table: map<U64, seq<Byte>>): map<U64, Trap>
    requires forall a :: a in table ==> 4 <= |table[a]| && TrapOk(table[a])
  {
    map a | a in table :: TrapOf(table[a])
  }

  datatype Tables = Tables(ranges: seq<seq<Byte>>, sites: seq<seq<Byte>>, patches: seq<seq<Byte>>,
                           traps: seq<seq<Byte>>)

  ghost predicate TablesOk(t: Tables) {
    && (forall i :: 0 <= i < |t.ranges| ==> |t.ranges[i]| == 16)
    && (forall i :: 0 <= i < |t.sites| ==> |t.sites[i]| == 8)
    && (forall i :: 0 <= i < |t.patches| ==> |t.patches[i]| == 8 + PATCH_SIZE)
    && (forall i :: 0 <= i < |t.traps| ==> |t.traps[i]| == 12 + TRAP_SIZE)
  }

  predicate HeaderOk(key: ImageKey, header: seq<Byte>)
    requires |header| == 28
  {
    && header[..8] == MAGIC && FromLe(header[8..12]) == VERSION
    && FromLe(header[12..20]) == key.hash && FromLe(header[20..28]) == key.executableLength
  }

  /** Splits a cache file into the rows of its tables. */
  function Parsed(key: ImageKey, bytes: seq<Byte>): (r: Option<Tables>)
    ensures r.Some? ==> TablesOk(r.value)
  {
    if |bytes| < 28 || !HeaderOk(key, bytes[..28]) then None else ParsedTables(bytes[28..])
  }

  function ParsedTables(body: seq<Byte>): (r: Option<Tables>)
    ensures r.Some? ==> TablesOk(r.value)
  {
    var ranges := ReadTable(body, 16);
    if ranges.None? then None else
    var sites := ReadTable(ranges.value.1, 8);
    if sites.None? then None else
    var patches := ReadTable(sites.value.1, 8 + PATCH_SIZE);
    if patches.None? then None else
    var traps := ReadTable(patches.value.1, 12 + TRAP_SIZE);
    if traps.None? || traps.value.1 != [] then None
    else Some(Tables(ranges.value.0, sites.value.0, patches.value.0, traps.value.0))
  }

  /** Every row is acceptable at this base; trap lengths matter on Windows builds only. */
  predicate Acceptable(t: Tables, base: U64, windows: bool)
    requires TablesOk(t)
  {
    && AddressesOk(t.ranges, 0, base) && AddressesOk(t.ranges, 8, base) && AddressesOk(t.sites, 0, base)
    && AddressesOk(t.patches, 0, base) && AddressesOk(t.traps, 0, base)
    && (windows ==> TrapRowsOk(t.traps))
  }

  lemma {:induction false} KeyedTableRows(rows: seq<seq<Byte>>, base: U64)
    requires (forall i :: 0 <= i < |rows| ==> 8 <= |rows[i]|) && AddressesOk(rows, 0, base)
    ensures forall a :: a in KeyedTable(rows, base) ==>
            exists i :: 0 <= i < |rows| && KeyedTable(rows, base)[a] == rows[i][8..]
  {
    if rows != [] {
      KeyedTableRows(rows[..|rows| - 1], base);
    }
  }

  function Interpreted(t: Tables, base: U64, windows: bool): Option<Metadata>
    requires TablesOk(t)
  {
    if !Acceptable(t, base, windows) then None
    else
      KeyedTableRows(t.traps, base);
      Some(Metadata(
             seq(|t.ranges|, i requires 0 <= i < |t.ranges| => (AddressAt(t.ranges[i], 0, base).value,
                                                                AddressAt(t.ranges[i], 8, base).value)),
             seq(|t.sites|, i requires 0 <= i < |t.sites| => AddressAt(t.sites[i], 0, base).value),
             if windows then KeyedTable(t.patches, base) else map[],
             if windows then Traps(KeyedTable(t.traps, base)) else map[]))
  }

  function Decoded(key: ImageKey, bytes: seq<Byte>, base: U64, windows: bool): Option<Metadata> {
    var tables := Parsed(key, bytes);
    if tables.None? then None else Interpreted(tables.value, base, windows)
  }

  // The encoder

  method PushRanges(bytes: seq<Byte>, ranges: seq<(U64, U64)>, base: U64) returns (r: Option<seq<Byte>>)
    ensures r.Some? <==> forall i :: 0 <= i < |ranges| ==> base <= ranges[i].0 && base <= ranges[i].1
    ensures r.Some? ==> r.value == bytes + Table(RangeRows(ranges, base))
  {
    hide RangeRow, Concat, ToLe;
    EmptyConcat();
    var current := bytes + ToLe(|ranges| % COUNT_LIMIT, 4);
    ghost var rows: seq<seq<Byte>> := [];
    for i := 0 to |ranges|
      invariant forall j :: 0 <= j < i ==> base <= ranges[j].0 && base <= ranges[j].1
      invariant |rows| == i && forall j :: 0 <= j < i ==> rows[j] == RangeRow(ranges[j], base)
      invariant current == bytes + ToLe(|ranges| % COUNT_LIMIT, 4) + Concat(rows)
    {
      if ranges[i].0 < base || ranges[i].1 < base {
        return None;
      }
      ConcatAppend(rows, RangeRow(ranges[i], base));
      rows := rows + [RangeRow(ranges[i], base)];
      current := current + RangeRow(ranges[i], base);
    }
    assert rows == RangeRows(ranges, base);
    r := Some(current);
  }

  method PushSites(bytes: seq<Byte>, sites: seq<U64>, base: U64) returns (r: Option<seq<Byte>>)
    ensures r.Some? <==> forall i :: 0 <= i < |sites| ==> base <= sites[i]
    ensures r.Some? ==> r.value == bytes + Table(SiteRows(sites, base))
  {
    var current := bytes + ToLe(|sites| % COUNT_LIMIT, 4);
    ghost var rows: seq<seq<Byte>> := [];
    for i := 0 to |sites|
      invariant forall j :: 0 <= j < i ==> base <= sites[j]
      invariant |rows| == i && forall j :: 0 <= j < i ==> rows[j] == Offset(sites[j], base)
      invariant current == bytes + ToLe(|sites| % COUNT_LIMIT, 4) + Concat(rows)
    {
      if sites[i] < base {
        return None;
      }
      ConcatAppend(rows, Offset(sites[i], base));
      rows := rows + [Offset(sites[i], base)];
      current := current + Offset(sites[i], base);
    }
    assert rows == SiteRows(sites, base);
    r := Some(current);
  }

  method PushKeyed(bytes: seq<Byte>, table: map<U64, seq<Byte>>, base: U64) returns (r: Option<seq<Byte>>)
    ensures r.Some? <==> forall a :: a in table ==> base <= a
    ensures r.Some? ==> r.value == bytes + Table(KeyedRows(table, base))
  {
    hide KeyedRow, Addresses, Concat;
    var keys := Addresses(table.Keys);
    var current := bytes + ToLe(|keys| % COUNT_LIMIT, 4);
    ghost var rows: seq<seq<Byte>> := [];
    EmptyConcat();
    for i := 0 to |keys|
      invariant forall j :: 0 <= j < i ==> base <= keys[j]
      invariant |rows| == i && forall j :: 0 <= j < i ==> rows[j] == KeyedRow(table, keys[j], base)
      invariant current == bytes + ToLe(|keys| % COUNT_LIMIT, 4) + Concat(rows)
    {
      var a := keys[i];
      assert a in table;
      if a < base {
        return None;
      }
      ConcatAppend(rows, KeyedRow(table, a, base));
      rows := rows + [KeyedRow(table, a, base)];
      current := current + KeyedRow(table, a, base);
    }
    assert forall a :: a in table ==> a in keys;
    assert rows == KeyedRows(table, base);
    r := Some(current);
  }

  /** Writes the cache file, or fails exactly when some address precedes the base. */
  method Encode(key: ImageKey, m: Metadata, base: U64, windows: bool) returns (r: Option<seq<Byte>>)
    requires MetadataOk(m, windows)
    ensures r.Some? <==> Encodable(m, base)
    ensures r.Some? ==> r.value == Encoded(key, m, base)
  {
    hide Table, RangeRows, SiteRows, KeyedRows, Header;
    var bytes := Header(key);
    var ranges := PushRanges(bytes, m.ranges, base);
    if ranges.None? {
      return None;
    }
    var sites := PushSites(ranges.value, m.syscalls, base);
    if sites.None? {
      return None;
    }
    var patches := PushKeyed(sites.value, m.patches, base);
    if patches.None? {
      return None;
    }
    var payloads := map a | a in m.traps :: TrapPayload(m.traps[a]);
    assert payloads == Payloads(m.traps);
    r := PushKeyed(patches.value, payloads, base);
    assert forall a :: a in m.traps <==> a in payloads;
  }

  // The decoder

  class Reader {
    const bytes: seq<Byte>
    var offset: nat

    ghost predicate Valid()
      reads this
    {
      offset <= |bytes|
    }

    ghost function Rest(): seq<Byte>
      requires Valid()
      reads this
    {
      bytes[offset..]
    }

    constructor (bytes: seq<Byte>)
      ensures this.bytes == bytes && Valid() && Rest() == bytes
    {
      this.bytes, this.offset := bytes, 0;
    }

    method ReadSlice(length: nat) returns (r: Option<seq<Byte>>)
      requires Valid()
      modifies this
      ensures Valid()
      ensures r.Some? <==> length <= |old(Rest())|
      ensures r.Some? ==> r.value == old(Rest())[..length] && Rest() == old(Rest())[length..]
      ensures r.None? ==> Rest() == old(Rest())
    {
      if offset + length > |bytes| {
        return None;
      }
      r := Some(bytes[offset..offset + length]);
      offset := offset + length;
    }

    method ReadCounted(width: nat) returns (r: Option<seq<seq<Byte>>>)
      requires Valid()
      modifies this
      ensures Valid()
      ensures var table := ReadTable(old(Rest()), width);
              (r.Some? <==> table.Some?) && (r.Some? ==> r.value == table.value.0 && Rest() == table.value.1)
    {
      var count := ReadSlice(4);
      if count.None? {
        return None;
      }
      ghost var start := Rest();
      var rows: seq<seq<Byte>> := [];
      var n := FromLe(count.value);
      assert Continues(ReadRows(start, width, n), rows, ReadRows(start, width, n));
      for i := 0 to n
        invariant Valid() && |rows| == i
        invariant Continues(ReadRows(start, width, n), rows, ReadRows(Rest(), width, n - i))
      {
        ghost var rest := Rest();
        ReadAnother(ReadRows(start, width, n), rows, rest, width, n - i);
        var row := ReadSlice(width);
        if row.None? {
          return None;
        }
        rows := rows + [row.value];
      }
      r := Some(rows);
    }
  }

  ghost predicate Continues(all: Option<(seq<seq<Byte>>, seq<Byte>)>, rows: seq<seq<Byte>>,
                            tail: Option<(seq<seq<Byte>>, seq<Byte>)>) {
    (all.Some? <==> tail.Some?) && (all.Some? ==> all.value.0 == rows + tail.value.0 && all.value.1 == tail.value.1)
  }

  lemma ReadAnother(all: Option<(seq<seq<Byte>>, seq<Byte>)>, rows: seq<seq<Byte>>, rest: seq<Byte>, width: nat,
                    count: nat)
    requires count > 0 && Continues(all, rows, ReadRows(rest, width, count))
    ensures all.Some? ==> width <= |rest|
    ensures width <= |rest| ==> Continues(all, rows + [rest[..width]], ReadRows(rest[width..], width, count - 1))
  {
    if width <= |rest| {
      var tail := ReadRows(rest[width..], width, count - 1);
      assert tail.Some? ==> rows + ([rest[..width]] + tail.value.0) == rows + [rest[..width]] + tail.value.0;
    }
  }

  method Decode(key: ImageKey, bytes: seq<Byte>, base: U64, windows: bool) returns (r: Option<Metadata>)
    ensures r == Decoded(key, bytes, base, windows)
  {
    hide HeaderOk, Interpreted, ReadTable, ParsedTables, TablesOk;
    var reader := new Reader(bytes);
    var header := reader.ReadSlice(28);
    if header.None? || !HeaderOk(key, header.value) {
      return None;
    }
    var tables := DecodeTables(reader);
    if tables.None? {
      return None;
    }
    r := Interpreted(tables.value, base, windows);
  }

  method DecodeTables(reader: Reader) returns (r: Option<Tables>)
    requires reader.Valid()
    modifies reader
    ensures r == ParsedTables(old(reader.Rest()))
    ensures r.Some? ==> TablesOk(r.value)
  {
    hide ReadTable, TablesOk;
    var ranges := reader.ReadCounted(16);
    if ranges.None? {
      return None;
    }
    var sites := reader.ReadCounted(8);
    if sites.None? {
      return None;
    }
    var patches := reader.ReadCounted(8 + PATCH_SIZE);
    if patches.None? {
      return None;
    }
    var traps := reader.ReadCounted(12 + TRAP_SIZE);
    if traps.None? {
      return None;
    }
    if reader.offset != |reader.bytes| {
      return None;
    }
    r := Some(Tables(ranges.value, sites.value, patches.value, traps.value));
  }

  // The format agrees with rebasing

  ghost predicate SizesOk(m: Metadata) {
    && |m.ranges| < COUNT_LIMIT && |m.syscalls| < COUNT_LIMIT
    && |Addresses(m.patches.Keys)| < COUNT_LIMIT && |Addresses(Payloads(m.traps).Keys)| < COUNT_LIMIT
  }

  ghost predicate TrapLengthsOk(m: Metadata) {
    forall a :: a in m.traps ==> 1 <= m.traps[a].length <= TRAP_SIZE
  }

  lemma Front(a: seq<Byte>, b: seq<Byte>)
    ensures (a + b)[..|a|] == a && (a + b)[|a|..] == b
  {}

  lemma Chain(a: seq<Byte>, b: seq<Byte>, c: seq<Byte>)
    ensures a + b + c == a + (b + c)
  {}

  lemma {:induction false} RowsBack(rows: seq<seq<Byte>>, width: nat, tail: seq<Byte>)
    requires forall i :: 0 <= i < |rows| ==> |rows[i]| == width
    ensures ReadRows(Concat(rows) + tail, width, |rows|) == Some((rows, tail))
  {
    if rows == [] {
      assert Concat(rows) + tail == tail;
    } else {
      RowsBack(rows[1..], width, tail);
      var rest := Concat(rows[1..]) + tail;
      Chain(rows[0], Concat(rows[1..]), tail);
      Front(rows[0], rest);
      assert Concat(rows) + tail == rows[0] + rest;
      assert [rows[0]] + rows[1..] == rows;
      hide Concat;
    }
  }

  lemma TableBack(rows: seq<seq<Byte>>, width: nat, tail: seq<Byte>)
    requires |rows| < COUNT_LIMIT && forall i :: 0 <= i < |rows| ==> |rows[i]| == width
    ensures ReadTable(Table(rows) + tail, width) == Some((rows, tail))
  {
    hide Concat, ToLe, FromLe, ReadRows;
    Pow256Values();
    LeRoundTrip(|rows|, 4);
    Chain(ToLe(|rows|, 4), Concat(rows), tail);
    Front(ToLe(|rows|, 4), Concat(rows) + tail);
    RowsBack(rows, width, tail);
  }

  lemma HeaderBack(key: ImageKey)
    ensures HeaderOk(key, Header(key))
  {
    Pow256Values();
    LeRoundTrip(VERSION, 4);
    LeRoundTrip(key.hash, 8);
    LeRoundTrip(key.executableLength, 8);
    var h := Header(key);
    assert h[..8] == MAGIC && h[8..12] == ToLe(VERSION, 4);
    assert h[12..20] == ToLe(key.hash, 8) && h[20..28] == ToLe(key.executableLength, 8);
  }

  ghost function Rows(m: Metadata, base: U64): Tables
    requires Encodable(m, base)
  {
    Tables(RangeRows(m.ranges, base), SiteRows(m.syscalls, base), KeyedRows(m.patches, base),
           KeyedRows(Payloads(m.traps), base))
  }

  lemma RowsOk(m: Metadata, base: U64, windows: bool)
    requires MetadataOk(m, windows) && Encodable(m, base)
    ensures TablesOk(Rows(m, base))
  {
    assert forall a :: a in m.traps ==> |TrapPayload(m.traps[a])| == 4 + TRAP_SIZE;
  }

  lemma ParsedBack(key: ImageKey, m: Metadata, base: U64, windows: bool)
    requires MetadataOk(m, windows) && SizesOk(m) && Encodable(m, base)
    ensures Parsed(key, Encoded(key, m, base)) == Some(Rows(m, base))
  {
    hide HeaderOk, ReadTable, Table, Header, RangeRows, SiteRows, KeyedRows, TablesOk;
    RowsOk(m, base, windows);
    HeaderBack(key);
    var t := Rows(m, base);
    TablesRead(Header(key), t);
    RowCounts(m, base);
    TablesParsed(t);
    Front(Header(key), Table(t.ranges) + (Table(t.sites) + (Table(t.patches) + (Table(t.traps) + []))));
  }

  lemma RowCounts(m: Metadata, base: U64)
    requires SizesOk(m) && Encodable(m, base)
    ensures var t := Rows(m, base);
            |t.ranges| < COUNT_LIMIT && |t.sites| < COUNT_LIMIT && |t.patches| < COUNT_LIMIT && |t.traps| < COUNT_LIMIT
  {}

  lemma TablesRead(header: seq<Byte>, t: Tables)
    ensures header + Table(t.ranges) + Table(t.sites) + Table(t.patches) + Table(t.traps)
            == header + (Table(t.ranges) + (Table(t.sites) + (Table(t.patches) + (Table(t.traps) + []))))
  {
    hide Table;
    var a, b, c, d := Table(t.ranges), Table(t.sites), Table(t.patches), Table(t.traps);
    assert d + [] == d;
    Chain(header, a, b);
    Chain(header, a + b, c);
    Chain(header, a + b + c, d);
    Chain(a, b, c);
    Chain(a, b + c, d);
    Chain(b, c, d);
  }

  lemma TablesParsed(t: Tables)
    requires TablesOk(t)
    requires |t.ranges| < COUNT_LIMIT && |t.sites| < COUNT_LIMIT && |t.patches| < COUNT_LIMIT && |t.traps| < COUNT_LIMIT
    ensures ParsedTables(Table(t.ranges) + (Table(t.sites) + (Table(t.patches) + (Table(t.traps) + [])))) == Some(t)
  {
    hide Table, ReadTable;
    TableBack(t.ranges, 16, Table(t.sites) + (Table(t.patches) + (Table(t.traps) + [])));
    TableBack(t.sites, 8, Table(t.patches) + (Table(t.traps) + []));
    TableBack(t.patches, 8 + PATCH_SIZE, Table(t.traps) + []);
    TableBack(t.traps, 12 + TRAP_SIZE, []);
  }

  /** A stored offset read at another base is the rebased address. */
  lemma AddressBack(row: seq<Byte>, at: nat, a: U64, source: U64, target: U64)
    requires source <= a && at + 8 <= |row| && row[at..at + 8] == Offset(a, source)
    ensures AddressAt(row, at, target) == RebaseAddress(a, source, target)
  {
    Pow256Values();
    LeRoundTrip(a - source, 8);
  }

  lemma RangeAddressBack(range: (U64, U64), source: U64, target: U64)
    requires source <= range.0 && source <= range.1
    ensures AddressAt(RangeRow(range, source), 0, target) == RebaseAddress(range.0, source, target)
    ensures AddressAt(RangeRow(range, source), 8, target) == RebaseAddress(range.1, source, target)
  {
    var row := RangeRow(range, source);
    assert row[0..8] == Offset(range.0, source) && row[8..16] == Offset(range.1, source);
    AddressBack(row, 0, range.0, source, target);
    AddressBack(row, 8, range.1, source, target);
  }

  lemma KeyedAddressBack(table: map<U64, seq<Byte>>, a: U64, source: U64, target: U64)
    requires a in table && source <= a
    ensures |KeyedRow(table, a, source)| >= 8 && KeyedRow(table, a, source)[8..] == table[a]
    ensures AddressAt(KeyedRow(table, a, source), 0, target) == RebaseAddress(a, source, target)
  {
    var row := KeyedRow(table, a, source);
    assert row[0..8] == Offset(a, source);
    AddressBack(row, 0, a, source, target);
  }

  ghost function Part(table: map<U64, seq<Byte>>, keys: seq<U64>): map<U64, seq<Byte>> {
    map a | a in table && a in keys :: table[a]
  }

  ghost predicate RowsOf(table: map<U64, seq<Byte>>, keys: seq<U64>, rows: seq<seq<Byte>>, source: U64) {
    |rows| == |keys| && forall i :: 0 <= i < |keys| ==>
        keys[i] in table && source <= keys[i] && rows[i] == KeyedRow(table, keys[i], source)
  }

  lemma RowAddresses(table: map<U64, seq<Byte>>, keys: seq<U64>, rows: seq<seq<Byte>>, source: U64, target: U64)
    requires RowsOf(table, keys, rows, source)
    ensures forall i :: 0 <= i < |rows| ==> 8 <= |rows[i]| && rows[i][8..] == table[keys[i]]
    ensures forall i :: 0 <= i < |rows| ==> AddressAt(rows[i], 0, target) == RebaseAddress(keys[i], source, target)
  {
    hide KeyedRow, RebaseAddress, AddressAt;
    forall i | 0 <= i < |rows|
      ensures 8 <= |rows[i]| && rows[i][8..] == table[keys[i]]
              && AddressAt(rows[i], 0, target) == RebaseAddress(keys[i], source, target)
    {
      KeyedAddressBack(table, keys[i], source, target);
    }
  }

  /** Reading the rows of some addresses at another base gives their part of the table, moved. */
  lemma {:induction false} KeyedPrefixBack(table: map<U64, seq<Byte>>, keys: seq<U64>, rows: seq<seq<Byte>>,
                                           source: U64, target: U64)
    requires RowsOf(table, keys, rows, source) && forall i :: 0 <= i < |keys| ==>
             RebaseAddress(keys[i], source, target).Some?
    ensures (forall i :: 0 <= i < |rows| ==> 8 <= |rows[i]|) && AddressesOk(rows, 0, target)
    ensures KeyedTable(rows, target) == Moved(Part(table, keys), source, target)
  {
    hide KeyedRow, RebaseAddress, AddressAt;
    RowAddresses(table, keys, rows, source, target);
    if keys == [] {
      assert Part(table, keys) == map[];
    } else {
      var n := |keys| - 1;
      KeyedPrefixBack(table, keys[..n], rows[..n], source, target);
      PartAdd(table, keys, source, target);
    }
  }

  lemma PartAdd(table: map<U64, seq<Byte>>, keys: seq<U64>, source: U64, target: U64)
    requires keys != [] && forall i :: 0 <= i < |keys| ==>
             keys[i] in table && RebaseAddress(keys[i], source, target).Some?
    ensures var n := |keys| - 1;
            Moved(Part(table, keys), source, target)
            == Moved(Part(table, keys[..n]), source,
                     target)[RebaseAddress(keys[n], source, target).value := table[keys[n]]]
  {
    hide RebaseAddress, Moved;
    var n := |keys| - 1;
    assert keys == keys[..n] + [keys[n]];
    assert Part(table, keys) == Part(table, keys[..n])[keys[n] := table[keys[n]]];
    MovedAdd(Part(table, keys[..n]), keys[n], table[keys[n]], source, target);
  }

  lemma MovedAdd(table: map<U64, seq<Byte>>, a: U64, v: seq<Byte>, source: U64, target: U64)
    requires forall k :: k in table ==> RebaseAddress(k, source, target).Some?
    requires RebaseAddress(a, source, target).Some?
    ensures Moved(table[a := v], source, target) ==
            Moved(table, source, target)[RebaseAddress(a, source, target).value := v]
  {
  }

  lemma KeyedBack(table: map<U64, seq<Byte>>, source: U64, target: U64)
    requires forall a :: a in table ==> source <= a
    ensures forall i :: 0 <= i < |KeyedRows(table, source)| ==> 8 <= |KeyedRows(table, source)[i]|
    ensures AddressesOk(KeyedRows(table, source), 0, target) <==> forall a :: a in table ==>
            RebaseAddress(a, source, target).Some?
    ensures AddressesOk(KeyedRows(table, source), 0, target) ==>
            KeyedTable(KeyedRows(table, source), target) == Moved(table, source, target)
  {
    hide KeyedRow, RebaseAddress, AddressAt, Moved, KeyedTable;
    var keys := Addresses(table.Keys);
    var rows := KeyedRows(table, source);
    assert forall i :: 0 <= i < |keys| ==> keys[i] in keys;
    RowAddresses(table, keys, rows, source, target);
    assert forall a: U64 :: a in table ==> a in keys;
    if AddressesOk(rows, 0, target) {
      KeyedPrefixBack(table, keys, rows, source, target);
      assert Part(table, keys) == table;
    }
  }

  lemma TrapBack(trap: Trap)
    requires |trap.original| == TRAP_SIZE
    ensures TrapOk(TrapPayload(trap)) <==> 1 <= trap.length <= TRAP_SIZE
    ensures TrapOk(TrapPayload(trap)) ==> TrapOf(TrapPayload(trap)) == trap
  {
    hide ToLe, FromLe;
    Pow256Values();
    LeRoundTrip(trap.length, 4);
    Front(ToLe(trap.length, 4), trap.original);
  }

  lemma TrapRowsBack(traps: map<U64, Trap>, source: U64)
    requires forall a :: a in traps ==> source <= a && |traps[a].original| == TRAP_SIZE
    ensures var rows := KeyedRows(Payloads(traps), source);
            && (forall i :: 0 <= i < |rows| ==> 12 <= |rows[i]|)
            && (TrapRowsOk(rows) <==> forall a :: a in traps ==> 1 <= traps[a].length <= TRAP_SIZE)
  {
    hide ToLe, FromLe, TrapOk, TrapOf, TrapPayload, KeyedRow;
    var payloads := Payloads(traps);
    var keys, rows := Addresses(payloads.Keys), KeyedRows(payloads, source);
    assert forall i :: 0 <= i < |keys| ==> keys[i] in keys;
    forall i | 0 <= i < |rows|
      ensures 12 <= |rows[i]| && (TrapOk(rows[i][8..]) <==> 1 <= traps[keys[i]].length <= TRAP_SIZE)
    {
      KeyedAddressBack(payloads, keys[i], source, source);
      PayloadSize(traps[keys[i]]);
      TrapBack(traps[keys[i]]);
    }
    assert forall a: U64 :: a in traps ==> a in keys;
  }

  lemma PayloadSize(trap: Trap)
    ensures |TrapPayload(trap)| == 4 + |trap.original|
  {}

  lemma TrapsBack(traps: map<U64, Trap>, source: U64, target: U64)
    requires forall a :: a in traps ==> |traps[a].original| == TRAP_SIZE && 1 <= traps[a].length <= TRAP_SIZE
    requires forall a :: a in traps ==> RebaseAddress(a, source, target).Some?
    ensures var moved := Moved(Payloads(traps), source, target);
            (forall a :: a in moved ==> 4 <= |moved[a]| && TrapOk(moved[a]))
                && Traps(moved) == Moved(traps, source, target)
  {
    hide ToLe, FromLe, TrapOk, TrapOf, TrapPayload;
    forall a | a in traps
      ensures 4 <= |TrapPayload(traps[a])| && TrapOk(TrapPayload(traps[a])) && TrapOf(TrapPayload(traps[a])) == traps[a]
    {
      PayloadSize(traps[a]);
      TrapBack(traps[a]);
    }
  }

  lemma AcceptableBack(m: Metadata, source: U64, target: U64, windows: bool)
    requires MetadataOk(m, windows) && Encodable(m, source)
    ensures TablesOk(Rows(m, source))
    ensures Acceptable(Rows(m, source), target, windows) <==> Movable(m, source, target) && TrapLengthsOk(m)
  {
    hide RangeRows, SiteRows, KeyedRows, RebaseAddress, AddressAt, TrapRowsOk, TablesOk, AddressesOk, Moved, KeyedTable;
    hide TrapPayload;
    RowsOk(m, source, windows);
    RangesBack(m.ranges, source, target);
    SitesBack(m.syscalls, source, target);
    KeyedBack(m.patches, source, target);
    KeyedBack(Payloads(m.traps), source, target);
    TrapRowsBack(m.traps, source);
    assert forall a: U64 :: a in m.traps <==> a in Payloads(m.traps);
  }

  lemma RangesBack(ranges: seq<(U64, U64)>, source: U64, target: U64)
    requires forall i :: 0 <= i < |ranges| ==> source <= ranges[i].0 && source <= ranges[i].1
    ensures var rows := RangeRows(ranges, source);
            && |rows| == |ranges| && (forall i :: 0 <= i < |rows| ==> |rows[i]| == 16)
            && (forall i :: 0 <= i < |rows| ==>
                AddressAt(rows[i], 0, target) == RebaseAddress(ranges[i].0, source, target))
            && (forall i :: 0 <= i < |rows| ==>
                AddressAt(rows[i], 8, target) == RebaseAddress(ranges[i].1, source, target))
            && (AddressesOk(rows, 0, target) && AddressesOk(rows, 8, target) <==>
                forall i :: 0 <= i < |ranges| ==> RebaseAddress(ranges[i].0, source, target).Some?
                                                  && RebaseAddress(ranges[i].1, source, target).Some?)
  {
    hide AddressAt, RebaseAddress;
    var rows := RangeRows(ranges, source);
    forall i | 0 <= i < |rows|
      ensures AddressAt(rows[i], 0, target) == RebaseAddress(ranges[i].0, source, target)
      ensures AddressAt(rows[i], 8, target) == RebaseAddress(ranges[i].1, source, target)
    {
      RangeAddressBack(ranges[i], source, target);
    }
  }

  lemma SitesBack(sites: seq<U64>, source: U64, target: U64)
    requires forall i :: 0 <= i < |sites| ==> source <= sites[i]
    ensures var rows := SiteRows(sites, source);
            && |rows| == |sites| && (forall i :: 0 <= i < |rows| ==> |rows[i]| == 8)
            && (forall i :: 0 <= i < |rows| ==>
                AddressAt(rows[i], 0, target) == RebaseAddress(sites[i], source, target))
            && (AddressesOk(rows, 0, target) <==> forall i :: 0 <= i < |sites| ==>
                RebaseAddress(sites[i], source, target).Some?)
  {
    hide AddressAt, RebaseAddress;
    var rows := SiteRows(sites, source);
    forall i | 0 <= i < |rows|
      ensures AddressAt(rows[i], 0, target) == RebaseAddress(sites[i], source, target)
    {
      AddressBack(rows[i], 0, sites[i], source, target);
    }
  }

  lemma InterpretedBack(m: Metadata, source: U64, target: U64, windows: bool)
    requires MetadataOk(m, windows) && Encodable(m, source) && Movable(m, source, target) && TrapLengthsOk(m)
    ensures TablesOk(Rows(m, source)) && Interpreted(Rows(m, source), target, windows) == Rebase(m, source, target)
  {
    RowsOk(m, source, windows);
    AcceptableBack(m, source, target, windows);
    RangesBack(m.ranges, source, target);
    SitesBack(m.syscalls, source, target);
    KeyedBack(m.patches, source, target);
    KeyedBack(Payloads(m.traps), source, target);
    TrapsBack(m.traps, source, target);
    assert !windows ==> Moved(m.patches, source, target) == map[] && Moved(m.traps, source, target) == map[];
    hide RangeRows, SiteRows, KeyedRows, RebaseAddress, AddressAt, TrapRowsOk, TablesOk, Moved, Traps, KeyedTable;
    var read, moved := Interpreted(Rows(m, source), target, windows), Rebase(m, source, target);
    assert read.Some? && moved.Some?;
    assert read.value.ranges == moved.value.ranges;
    assert read.value.syscalls == moved.value.syscalls;
  }

  /**
   Storing at one base and loading at another is rebasing: it succeeds exactly when the rebase does (and every
   trap length is one the decoder accepts) and gives the same metadata.
   */
  lemma CodecIsRebase(key: ImageKey, m: Metadata, source: U64, target: U64, windows: bool)
    requires MetadataOk(m, windows) && SizesOk(m)
    ensures Rebase(m, source, target).Some? ==> Encodable(m, source)
    ensures Encodable(m, source) ==>
              Decoded(key, Encoded(key, m, source), target, windows) == if TrapLengthsOk(m)
                  then Rebase(m, source, target) else None
  {
    if Encodable(m, source) {
      hide HeaderOk, ParsedTables, Encoded, Rows, KeyedTable, Moved;
      RowsOk(m, source, windows);
      ParsedBack(key, m, source, windows);
      AcceptableBack(m, source, target, windows);
      if Movable(m, source, target) && TrapLengthsOk(m) {
        InterpretedBack(m, source, target, windows);
      }
    }
  }

  /** Rebasing can be undone: moving back gives the metadata it started from. */
  lemma RebaseReturns(m: Metadata, source: U64, target: U64)
    requires Rebase(m, source, target).Some?
    ensures Rebase(Rebase(m, source, target).value, target, source) == Some(m)
  {
    hide Moved, RebaseAddress;
    var moved := Rebase(m, source, target).value;
    MovedReturns(m.patches, source, target);
    MovedReturns(m.traps, source, target);
    forall a: U64 | RebaseAddress(a, source, target).Some?
      ensures RebaseAddress(RebaseAddress(a, source, target).value, target, source) == Some(a)
    {
      AddressReturns(a, source, target);
    }
    var back := Rebase(moved, target, source);
    assert back.Some?;
    assert back.value.ranges == m.ranges;
    assert back.value.syscalls == m.syscalls;
  }

  lemma AddressReturns(a: U64, source: U64, target: U64)
    requires RebaseAddress(a, source, target).Some?
    ensures RebaseAddress(RebaseAddress(a, source, target).value, target, source) == Some(a)
  {
  }

  lemma MovedReturns<T>(table: map<U64, T>, source: U64, target: U64)
    requires forall a :: a in table ==> RebaseAddress(a, source, target).Some?
    ensures forall a :: a in Moved(table, source, target) ==> RebaseAddress(a, target, source).Some?
    ensures Moved(Moved(table, source, target), target, source) == table
  {
    hide Moved;
    var moved := Moved(table, source, target);
    MovedCells(table, source, target);
    MovedCells(moved, target, source);
    var back := Moved(moved, target, source);
    forall a: U64
      ensures a in back <==> a in table
      ensures a in table ==> back[a] == table[a]
    {
      if a in table {
        AddressReturns(a, source, target);
        assert RebaseAddress(a, source, target).value in moved;
      }
    }
  }

  /** Each cell of a moved table is that of the address it comes from. */
  lemma MovedCells<T>(table: map<U64, T>, source: U64, target: U64)
    requires forall a :: a in table ==> RebaseAddress(a, source, target).Some?
    ensures forall b :: b in Moved(table, source, target) ==>
              RebaseAddress(b, target, source).Some? && RebaseAddress(b, target, source).value in table
              && Moved(table, source, target)[b] == table[RebaseAddress(b, target, source).value]
    ensures forall a :: a in table ==> RebaseAddress(a, source, target).value in Moved(table, source, target)
  {
  }
}
