/**
 Native patch cache files in numbers of their own: which bytes are such a file, what they mean at a base, and that
 the decoder accepts exactly these (`decode_native_patch_metadata` in crates/mcr-jit/src/native_patch.rs).
 */
module PatchFiles {
  import opened Ranges
  import opened Bytes
  import opened NativePatches

  // Bytes

  /** MCRNPC01, version 3, and the key of the image. */
  function FileStart(key: ImageKey): (r: seq<Byte>)
    ensures |r| == 28
  {
    [77, 67, 82, 78, 80, 67, 48, 49] + ToLe(3, 4) + ToLe(key.hash, 8) + ToLe(key.executableLength, 8)
  }

  function Counted(rows: seq<seq<Byte>>): seq<Byte> {
    ToLe(|rows|, 4) + Concat(rows)
  }

  ghost predicate Rectangular(rows: seq<seq<Byte>>, width: nat) {
    |rows| < 0x1_0000_0000 && forall i :: 0 <= i < |rows| ==> |rows[i]| == width
  }

  /** Ranges of 16 bytes, sites of 8, patches of 8 + 9 and traps of 8 + 4 + 15. */
  ghost predicate Shaped(t: Tables) {
    Rectangular(t.ranges, 16) && Rectangular(t.sites, 8) && Rectangular(t.patches, 17) && Rectangular(t.traps, 27)
  }

  /** The whole file: its start and four counted tables, with nothing left over. */
  ghost predicate IsFile(key: ImageKey, t: Tables, bytes: seq<Byte>) {
    && Shaped(t)
    && bytes == FileStart(key) + (Counted(t.ranges) + (Counted(t.sites) + (Counted(t.patches) + Counted(t.traps))))
  }

  // Meaning

  ghost predicate AddressFits(row: seq<Byte>, at: nat, base: U64) {
    at + 8 <= |row| && base + FromLe(row[at..at + 8]) < U64_LIMIT
  }

  /** Every address is one of 64 bits, and on Windows every trap has a length of 1 to 15. */
  ghost predicate RowsFit(t: Tables, base: U64, windows: bool)
    requires Shaped(t)
  {
    && (forall i :: 0 <= i < |t.ranges| ==> AddressFits(t.ranges[i], 0, base) && AddressFits(t.ranges[i], 8, base))
    && (forall i :: 0 <= i < |t.sites| ==> AddressFits(t.sites[i], 0, base))
    && (forall i :: 0 <= i < |t.patches| ==> AddressFits(t.patches[i], 0, base))
    && (forall i :: 0 <= i < |t.traps| ==> AddressFits(t.traps[i], 0, base))
    && (windows ==> forall i :: 0 <= i < |t.traps| ==> 1 <= FromLe(t.traps[i][8..12]) <= 15)
  }

  /** The last row for that address is row i. */
  ghost predicate LastFor(rows: seq<seq<Byte>>, base: U64, a: nat, i: nat) {
    && i < |rows| && RowFor(rows, base, a, i)
    && forall j: nat :: i < j < |rows| ==> !RowFor(rows, base, a, j)
  }

  ghost predicate RowFor(rows: seq<seq<Byte>>, base: U64, a: nat, i: nat)
    requires i < |rows|
  {
    8 <= |rows[i]| && base + FromLe(rows[i][..8]) == a
  }

  /** Of several rows for one address the last one counts. */
  ghost predicate PatchesMean(rows: seq<seq<Byte>>, base: U64, patches: map<U64, seq<Byte>>) {
    && (forall a: U64 :: a in patches <==> exists i: nat :: LastFor(rows, base, a, i))
    && forall a: U64, i: nat :: LastFor(rows, base, a, i) ==> a in patches && patches[a] == rows[i][8..]
  }

  ghost predicate TrapsMean(rows: seq<seq<Byte>>, base: U64, traps: map<U64, Trap>)
    requires Rectangular(rows, 27)
  {
    && (forall a: U64 :: a in traps <==> exists i: nat :: LastFor(rows, base, a, i))
    && forall a: U64, i: nat :: LastFor(rows, base, a, i) ==>
         a in traps && traps[a].length == FromLe(rows[i][8..12]) && traps[a].original == rows[i][12..]
  }

  ghost predicate ListsMean(t: Tables, base: U64, m: Metadata)
    requires Shaped(t)
  {
    && |m.ranges| == |t.ranges| && |m.syscalls| == |t.sites|
    && (forall i :: 0 <= i < |t.ranges| ==> m.ranges[i].0 == base + FromLe(t.ranges[i][0..8]))
    && (forall i :: 0 <= i < |t.ranges| ==> m.ranges[i].1 == base + FromLe(t.ranges[i][8..16]))
    && (forall i :: 0 <= i < |t.sites| ==> m.syscalls[i] == base + FromLe(t.sites[i][0..8]))
  }

  /** What the rows say at that base; the last two tables count on Windows only. */
  ghost predicate RowsMean(t: Tables, base: U64, windows: bool, m: Metadata)
    requires Shaped(t)
  {
    && ListsMean(t, base, m)
    && if windows then PatchesMean(t.patches, base, m.patches) && TrapsMean(t.traps, base, m.traps)
       else m.patches == map[] && m.traps == map[]
  }

  // What the decoder reads

  lemma StartIs(key: ImageKey)
    ensures FileStart(key) == Header(key)
  {
  }

  /** The header check accepts one sequence of bytes only. */
  lemma HeaderExactly(key: ImageKey, header: seq<Byte>)
    requires |header| == 28
    ensures HeaderOk(key, header) <==> header == FileStart(key)
  {
    StartIs(key);
    HeaderBack(key);
    if HeaderOk(key, header) {
      LeUnique(header[8..12]);
      LeUnique(header[12..20]);
      LeUnique(header[20..28]);
      hide ToLe, FromLe;
      assert header == header[..8] + header[8..12] + header[12..20] + header[20..28];
    }
  }

  /** The start of a file has the key it was written for, and no other. */
  lemma StartHasKey(k: ImageKey, l: ImageKey)
    requires FileStart(k) == FileStart(l)
    ensures k == l
  {
    hide ToLe;
    Pow256Values();
    LeRoundTrip(k.hash, 8);
    LeRoundTrip(l.hash, 8);
    LeRoundTrip(k.executableLength, 8);
    LeRoundTrip(l.executableLength, 8);
    assert FileStart(k)[12..20] == ToLe(k.hash, 8) && FileStart(l)[12..20] == ToLe(l.hash, 8);
    assert FileStart(k)[20..28] == ToLe(k.executableLength, 8) && FileStart(l)[20..28] == ToLe(l.executableLength, 8);
  }

  lemma {:induction false} RowsWere(rest: seq<Byte>, width: nat, count: nat)
    requires ReadRows(rest, width, count).Some?
    ensures rest == Concat(ReadRows(rest, width, count).value.0) + ReadRows(rest, width, count).value.1
    decreases count
  {
    if count > 0 {
      RowsWere(rest[width..], width, count - 1);
      var tail := ReadRows(rest[width..], width, count - 1).value;
      var rows := ReadRows(rest, width, count).value.0;
      assert rows[1..] == tail.0;
      assert rest == rest[..width] + rest[width..];
      Chain(rest[..width], Concat(tail.0), tail.1);
    }
  }

  lemma TableWas(rest: seq<Byte>, width: nat)
    requires ReadTable(rest, width).Some?
    ensures var (rows, tail) := ReadTable(rest, width).value;
            Rectangular(rows, width) && rest == Counted(rows) + tail
  {
    hide ReadRows, ToLe, FromLe, Concat;
    Pow256Values();
    LeUnique(rest[..4]);
    RowsWere(rest[4..], width, FromLe(rest[..4]));
    var (rows, tail) := ReadTable(rest, width).value;
    assert rest == rest[..4] + rest[4..];
    Chain(ToLe(|rows|, 4), Concat(rows), tail);
  }

  /** The decoder splits exactly the bytes of such files, and finds the tables that were written. */
  lemma ParsedExactly(key: ImageKey, bytes: seq<Byte>, t: Tables)
    ensures Parsed(key, bytes) == Some(t) <==> IsFile(key, t, bytes)
  {
    hide ReadTable, HeaderOk, Counted, FileStart, Table;
    var start := FileStart(key);
    if Parsed(key, bytes) == Some(t) {
      HeaderExactly(key, bytes[..28]);
      BodyWas(bytes[28..]);
      assert bytes == bytes[..28] + bytes[28..];
    }
    if IsFile(key, t, bytes) {
      var body := Counted(t.ranges) + (Counted(t.sites) + (Counted(t.patches) + Counted(t.traps)));
      Front(start, body);
      HeaderExactly(key, bytes[..28]);
      BodyIs(t);
    }
  }

  lemma BodyWas(body: seq<Byte>)
    requires ParsedTables(body).Some?
    ensures var t := ParsedTables(body).value;
            Shaped(t) && body == Counted(t.ranges) + (Counted(t.sites) + (Counted(t.patches) + Counted(t.traps)))
  {
    hide ReadTable, Counted, Rectangular;
    TableWas(body, 16);
    var ranges := ReadTable(body, 16).value;
    TableWas(ranges.1, 8);
    var sites := ReadTable(ranges.1, 8).value;
    TableWas(sites.1, 17);
    var patches := ReadTable(sites.1, 17).value;
    TableWas(patches.1, 27);
    var t := ParsedTables(body).value;
    assert Counted(t.traps) + [] == Counted(t.traps);
  }

  lemma BodyIs(t: Tables)
    requires Shaped(t)
    ensures ParsedTables(Counted(t.ranges) + (Counted(t.sites) + (Counted(t.patches) + Counted(t.traps)))) == Some(t)
  {
    hide ReadTable, ParsedTables, ToLe, Concat;
    assert Table(t.traps) + [] == Table(t.traps);
    TablesParsed(t);
  }

  /** A file written for one image is not read for another. */
  lemma OtherKeyRejected(k: ImageKey, l: ImageKey, m: Metadata, source: U64, target: U64, windows: bool)
    requires Encodable(m, source) && k != l
    ensures Decoded(l, Encoded(k, m, source), target, windows) == None
  {
    hide Table, ParsedTables, RangeRows, SiteRows, KeyedRows;
    var bytes := Encoded(k, m, source);
    StartIs(k);
    assert bytes[..28] == FileStart(k);
    HeaderExactly(l, bytes[..28]);
    if HeaderOk(l, bytes[..28]) {
      StartHasKey(k, l);
    }
  }

  // What the decoder makes of the rows

  lemma AddressIs(row: seq<Byte>, at: nat, base: U64)
    requires at + 8 <= |row|
    ensures AddressAt(row, at, base).Some? <==> AddressFits(row, at, base)
    ensures AddressFits(row, at, base) ==> AddressAt(row, at, base).value == base + FromLe(row[at..at + 8])
  {
  }

  lemma AddressesFit(rows: seq<seq<Byte>>, at: nat, base: U64)
    requires forall i :: 0 <= i < |rows| ==> at + 8 <= |rows[i]|
    ensures AddressesOk(rows, at, base) <==> forall i :: 0 <= i < |rows| ==> AddressFits(rows[i], at, base)
  {
    hide AddressAt, AddressFits;
    forall i | 0 <= i < |rows|
      ensures AddressAt(rows[i], at, base).Some? <==> AddressFits(rows[i], at, base)
    {
      AddressIs(rows[i], at, base);
    }
  }

  lemma TrapsFit(rows: seq<seq<Byte>>)
    requires Rectangular(rows, 27)
    ensures TrapRowsOk(rows) <==> forall i :: 0 <= i < |rows| ==> 1 <= FromLe(rows[i][8..12]) <= 15
  {
    hide FromLe;
    assert forall i :: 0 <= i < |rows| ==> rows[i][8..][..4] == rows[i][8..12];
  }

  lemma FitExactly(t: Tables, base: U64, windows: bool)
    requires Shaped(t)
    ensures TablesOk(t) && (Acceptable(t, base, windows) <==> RowsFit(t, base, windows))
  {
    hide AddressesOk, AddressFits, TrapRowsOk, FromLe;
    AddressesFit(t.ranges, 0, base);
    AddressesFit(t.ranges, 8, base);
    AddressesFit(t.sites, 0, base);
    AddressesFit(t.patches, 0, base);
    AddressesFit(t.traps, 0, base);
    TrapsFit(t.traps);
  }

  /** The table of the rows has for each address what the last row for it says. */
  lemma {:induction false} KeyedLast(rows: seq<seq<Byte>>, base: U64, a: U64)
    requires (forall i :: 0 <= i < |rows| ==> 8 <= |rows[i]|) && AddressesOk(rows, 0, base)
    ensures a in KeyedTable(rows, base) <==> exists i: nat :: LastFor(rows, base, a, i)
    ensures forall i: nat :: LastFor(rows, base, a, i) ==>
              a in KeyedTable(rows, base) && KeyedTable(rows, base)[a] == rows[i][8..]
    decreases |rows|
  {
    if rows != [] {
      var n := |rows| - 1;
      var fewer := rows[..n];
      KeyedLast(fewer, base, a);
      AddressIs(rows[n], 0, base);
      assert rows[n][..8] == rows[n][0..8];
      forall i: nat
        ensures i < n ==> (LastFor(rows, base, a, i) <==> LastFor(fewer, base, a, i) && !RowFor(rows, base, a, n))
        ensures LastFor(rows, base, a, n) <==> RowFor(rows, base, a, n)
      {
        LastAmong(rows, base, a, i);
      }
      hide LastFor;
      if RowFor(rows, base, a, n) {
        assert LastFor(rows, base, a, n);
      } else if i: nat :| LastFor(fewer, base, a, i) {
        LastIndex(fewer, base, a, i);
        assert LastFor(rows, base, a, i);
      }
      forall i: nat | LastFor(rows, base, a, i)
        ensures a in KeyedTable(rows, base) && KeyedTable(rows, base)[a] == rows[i][8..]
      {
        LastIndex(rows, base, a, i);
      }
    }
  }

  lemma LastIndex(rows: seq<seq<Byte>>, base: U64, a: U64, i: nat)
    requires LastFor(rows, base, a, i)
    ensures i < |rows|
  {
  }

  lemma LastAmong(rows: seq<seq<Byte>>, base: U64, a: U64, i: nat)
    requires rows != []
    ensures var n := |rows| - 1;
            && (i < n ==> (LastFor(rows, base, a, i) <==> LastFor(rows[..n], base, a, i) && !RowFor(rows, base, a, n)))
            && (LastFor(rows, base, a, n) <==> RowFor(rows, base, a, n))
  {
    hide FromLe;
    var n := |rows| - 1;
    assert forall j: nat :: j < n ==> (RowFor(rows[..n], base, a, j) <==> RowFor(rows, base, a, j));
  }

  /** What the decoder makes of rows that fit is what they mean. */
  lemma InterpretedMeans(t: Tables, base: U64, windows: bool)
    requires Shaped(t) && RowsFit(t, base, windows)
    ensures TablesOk(t) && Interpreted(t, base, windows).Some?
    ensures RowsMean(t, base, windows, Interpreted(t, base, windows).value)
  {
    hide KeyedTable, TrapRowsOk, AddressAt, AddressesOk, Traps, RowsFit, PatchesMean, TrapsMean, ListsMean, TrapOk;
    FitExactly(t, base, windows);
    ListsRead(t, base, windows);
    if windows {
      PatchesRead(t.patches, base);
      TrapsRead(t.traps, base);
    }
  }

  lemma ListsRead(t: Tables, base: U64, windows: bool)
    requires Shaped(t) && TablesOk(t) && Acceptable(t, base, windows)
    ensures ListsMean(t, base, Interpreted(t, base, windows).value)
  {
    hide KeyedTable, FromLe, TrapRowsOk, Traps;
  }

  lemma PatchesRead(rows: seq<seq<Byte>>, base: U64)
    requires (forall i :: 0 <= i < |rows| ==> 8 <= |rows[i]|) && AddressesOk(rows, 0, base)
    ensures PatchesMean(rows, base, KeyedTable(rows, base))
  {
    hide KeyedTable, LastFor, AddressesOk;
    forall a: U64
      ensures a in KeyedTable(rows, base) <==> exists i: nat :: LastFor(rows, base, a, i)
    {
      KeyedLast(rows, base, a);
    }
    forall a: U64, i: nat | LastFor(rows, base, a, i)
      ensures i < |rows| && a in KeyedTable(rows, base) && KeyedTable(rows, base)[a] == rows[i][8..]
    {
      LastIndex(rows, base, a, i);
      KeyedLast(rows, base, a);
    }
  }

  lemma TrapsRead(rows: seq<seq<Byte>>, base: U64)
    requires Rectangular(rows, 27) && AddressesOk(rows, 0, base) && TrapRowsOk(rows)
    ensures var table := KeyedTable(rows, base);
            (forall a :: a in table ==> 4 <= |table[a]| && TrapOk(table[a])) && TrapsMean(rows, base, Traps(table))
  {
    hide KeyedTable, LastFor, AddressesOk, FromLe;
    KeyedTableRows(rows, base);
    PatchesRead(rows, base);
    assert forall i :: 0 <= i < |rows| ==> rows[i][8..][..4] == rows[i][8..12] && rows[i][8..][4..] == rows[i][12..];
    forall a: U64, i: nat | LastFor(rows, base, a, i)
      ensures i < |rows|
    {
      LastIndex(rows, base, a, i);
    }
  }

  /** Rows mean one thing only. */
  lemma MeansOnce(t: Tables, base: U64, windows: bool, m: Metadata, n: Metadata)
    requires Shaped(t) && RowsMean(t, base, windows, m) && RowsMean(t, base, windows, n)
    ensures m == n
  {
    hide LastFor, FromLe;
    assert m.ranges == n.ranges && m.syscalls == n.syscalls;
    if windows {
      forall a: U64 | a in m.patches
        ensures a in n.patches && m.patches[a] == n.patches[a]
      {
        var i: nat :| LastFor(t.patches, base, a, i);
        LastIndex(t.patches, base, a, i);
      }
      forall a: U64 | a in m.traps
        ensures a in n.traps && m.traps[a] == n.traps[a]
      {
        var i: nat :| LastFor(t.traps, base, a, i);
        LastIndex(t.traps, base, a, i);
      }
      assert m.patches == n.patches && m.traps == n.traps;
    }
  }

  /** The decoder's answer, for any bytes: metadata exactly when the bytes are a file for that key that means it. */
  lemma DecodedExactly(key: ImageKey, bytes: seq<Byte>, base: U64, windows: bool, m: Metadata)
    ensures Decoded(key, bytes, base, windows) == Some(m) <==>
              exists t :: IsFile(key, t, bytes) && RowsFit(t, base, windows) && RowsMean(t, base, windows, m)
  {
    hide Parsed, Interpreted, RowsFit, RowsMean, Counted, FileStart, Acceptable, Shaped;
    if Decoded(key, bytes, base, windows) == Some(m) {
      var t := Parsed(key, bytes).value;
      ParsedExactly(key, bytes, t);
      FitExactly(t, base, windows);
      InterpretedFits(t, base, windows);
      InterpretedMeans(t, base, windows);
      assert RowsMean(t, base, windows, m);
    }
    if t :| IsFile(key, t, bytes) && RowsFit(t, base, windows) && RowsMean(t, base, windows, m) {
      ParsedExactly(key, bytes, t);
      InterpretedMeans(t, base, windows);
      MeansOnce(t, base, windows, m, Interpreted(t, base, windows).value);
    }
  }

  lemma InterpretedFits(t: Tables, base: U64, windows: bool)
    requires TablesOk(t)
    ensures Interpreted(t, base, windows).Some? ==> Acceptable(t, base, windows)
  {
  }

  // Rebasing in numbers

  /** Every address can be moved from one base to the other. */
  ghost predicate CanMove(m: Metadata, source: U64, target: U64) {
    && (forall i :: 0 <= i < |m.ranges| ==> source <= m.ranges[i].0 && target + (m.ranges[i].0 - source) < U64_LIMIT)
    && (forall i :: 0 <= i < |m.ranges| ==> source <= m.ranges[i].1 && target + (m.ranges[i].1 - source) < U64_LIMIT)
    && (forall i :: 0 <= i < |m.syscalls| ==> source <= m.syscalls[i] && target + (m.syscalls[i] - source) < U64_LIMIT)
    && (forall a :: a in m.patches ==> source <= a && target + (a - source) < U64_LIMIT)
    && (forall a :: a in m.traps ==> source <= a && target + (a - source) < U64_LIMIT)
  }

  /** Each address at the same distance from its base, with the same contents. */
  ghost predicate SameDistances(m: Metadata, source: U64, n: Metadata, target: U64) {
    && |n.ranges| == |m.ranges| && |n.syscalls| == |m.syscalls|
    && (forall i :: 0 <= i < |m.ranges| ==> n.ranges[i].0 - target == m.ranges[i].0 - source)
    && (forall i :: 0 <= i < |m.ranges| ==> n.ranges[i].1 - target == m.ranges[i].1 - source)
    && (forall i :: 0 <= i < |m.syscalls| ==> n.syscalls[i] - target == m.syscalls[i] - source)
    && SameCells(m.patches, source, n.patches, target) && SameCells(m.traps, source, n.traps, target)
  }

  ghost predicate SameCells<T>(table: map<U64, T>, source: U64, moved: map<U64, T>, target: U64) {
    && (forall a :: a in table ==> source <= a) && (forall b :: b in moved ==> target <= b)
    && forall distance: nat :: CellKept(table, source, moved, target, distance)
  }

  ghost predicate CellKept<T>(table: map<U64, T>, source: U64, moved: map<U64, T>, target: U64, distance: nat) {
    && (source + distance in table <==> target + distance in moved)
    && (source + distance in table ==> moved[target + distance] == table[source + distance])
  }

  lemma MovedSame<T>(table: map<U64, T>, source: U64, target: U64)
    requires forall a :: a in table ==> source <= a && target + (a - source) < U64_LIMIT
    ensures forall a :: a in table ==> RebaseAddress(a, source, target).Some?
    ensures SameCells(table, source, Moved(table, source, target), target)
  {
    hide CellKept, Moved;
    var moved := Moved(table, source, target);
    forall b | b in moved
      ensures target <= b
    {
      MovedFrom(table, source, target, b);
    }
    forall distance: nat
      ensures CellKept(table, source, moved, target, distance)
    {
      CellMoved(table, source, target, distance);
    }
  }

  lemma CellMoved<T>(table: map<U64, T>, source: U64, target: U64, distance: nat)
    requires forall a :: a in table ==> RebaseAddress(a, source, target).Some?
    ensures CellKept(table, source, Moved(table, source, target), target, distance)
  {
    hide Moved;
    if source + distance in table {
      MovedTo(table, source, target, source + distance);
    }
    if target + distance in Moved(table, source, target) {
      MovedFrom(table, source, target, target + distance);
    }
  }

  lemma MovedTo<T>(table: map<U64, T>, source: U64, target: U64, a: U64)
    requires forall a :: a in table ==> RebaseAddress(a, source, target).Some?
    requires a in table
    ensures RebaseAddress(a, source, target).value in Moved(table, source, target)
    ensures Moved(table, source, target)[RebaseAddress(a, source, target).value] == table[a]
  {
    hide Moved;
    MovedCells(table, source, target);
    AddressReturns(a, source, target);
    hide RebaseAddress;
  }

  lemma MovedFrom<T>(table: map<U64, T>, source: U64, target: U64, b: U64)
    requires forall a :: a in table ==> RebaseAddress(a, source, target).Some?
    requires b in Moved(table, source, target)
    ensures RebaseAddress(b, target, source).Some? && RebaseAddress(b, target, source).value in table
  {
    hide Moved, RebaseAddress;
    MovedCells(table, source, target);
  }

  /** Rebasing succeeds exactly when every address can be moved, and keeps every distance from the base. */
  lemma RebaseExactly(m: Metadata, source: U64, target: U64)
    ensures Rebase(m, source, target).Some? <==> CanMove(m, source, target)
    ensures Rebase(m, source, target).Some? ==> SameDistances(m, source, Rebase(m, source, target).value, target)
  {
    hide Moved, SameCells;
    if CanMove(m, source, target) {
      MovedSame(m.patches, source, target);
      MovedSame(m.traps, source, target);
    }
  }

  /** Rebasing from a base to itself changes nothing. */
  lemma RebaseToItself(m: Metadata, base: U64)
    requires CanMove(m, base, base)
    ensures Rebase(m, base, base) == Some(m)
  {
    hide Moved;
    RebaseExactly(m, base, base);
    var n := Rebase(m, base, base).value;
    assert n.ranges == m.ranges && n.syscalls == m.syscalls;
    SameTable(m.patches, base, n.patches);
    SameTable(m.traps, base, n.traps);
  }

  lemma SameTable<T>(table: map<U64, T>, base: U64, moved: map<U64, T>)
    requires SameCells(table, base, moved, base)
    ensures moved == table
  {
    forall a: U64 | a in table || a in moved
      ensures a in table && a in moved && moved[a] == table[a]
    {
      assert CellKept(table, base, moved, base, a - base);
    }
  }

  /** What the encoder writes is a file that means the metadata at the base it was written at. */
  lemma EncodedIsFile(key: ImageKey, m: Metadata, base: U64, windows: bool)
    requires MetadataOk(m, windows) && SizesOk(m) && Encodable(m, base) && TrapLengthsOk(m)
    ensures exists t :: IsFile(key, t, Encoded(key, m, base)) && RowsFit(t, base, windows)
                        && RowsMean(t, base, windows, m)
  {
    assert CanMove(m, base, base);
    hide Encoded, Decoded, IsFile, RowsFit, RowsMean, Rebase, CanMove;
    CodecIsRebase(key, m, base, base, windows);
    RebaseToItself(m, base);
    DecodedExactly(key, Encoded(key, m, base), base, windows, m);
  }
}
