/**
 ELF files as chapters 4 and 5 of the System V gABI lay them out, written field by field and apart from any parser:
 what the parser reads back, and exactly which files have a plan.
 */
module ElfFiles {
  import opened Ranges
  import opened Bytes
  import opened ElfPlans
  import opened ElfParser

  /** What the 64-byte header says beside its fixed parts and the number of program headers. */
  datatype FileHeader = FileHeader(
    abi: seq<Byte>, objectType: nat, entrypoint: nat, tableOffset: nat, sectionOffset: nat, flags: nat,
    sectionEntrySize: nat, sectionCount: nat, nameSection: nat
  )

  datatype ProgramHeader = ProgramHeader(
    headerType: nat, flags: nat, offset: nat, virtualAddress: nat, physicalAddress: nat, fileSize: nat,
    memorySize: nat, alignment: nat
  )

  // Writing

  /** Magic number, 64 bits, little-endian, version 1, and nine bytes on the ABI. */
  function WriteIdent(f: FileHeader): seq<Byte> {
    [0x7f, 0x45, 0x4c, 0x46, 2, 1, 1] + f.abi
  }

  /** Type, machine 62, version 1, entry point and where the two tables lie. */
  function WriteWhere(f: FileHeader): seq<Byte> {
    ToLe(f.objectType, 2) + ToLe(62, 2) + ToLe(1, 4) + ToLe(f.entrypoint, 8) + ToLe(f.tableOffset, 8)
    + ToLe(f.sectionOffset, 8)
  }

  /** Flags, the size of this header, and the sizes and lengths of the two tables. */
  function WriteSizes(f: FileHeader, count: nat): seq<Byte> {
    ToLe(f.flags, 4) + ToLe(64, 2) + ToLe(56, 2) + ToLe(count, 2) + ToLe(f.sectionEntrySize, 2)
    + ToLe(f.sectionCount, 2) + ToLe(f.nameSection, 2)
  }

  function WriteHeader(f: FileHeader, count: nat): seq<Byte> {
    WriteIdent(f) + WriteWhere(f) + WriteSizes(f, count)
  }

  function WriteProgramHeader(p: ProgramHeader): (r: seq<Byte>)
    ensures |r| == 56
  {
    ToLe(p.headerType, 4) + ToLe(p.flags, 4) + ToLe(p.offset, 8) + ToLe(p.virtualAddress, 8)
    + ToLe(p.physicalAddress, 8) + ToLe(p.fileSize, 8) + ToLe(p.memorySize, 8) + ToLe(p.alignment, 8)
  }

  predicate HeaderSized(f: FileHeader) {
    && |f.abi| == 9 && f.objectType < 0x1_0000 && f.entrypoint < U64_LIMIT && f.tableOffset < U64_LIMIT
    && f.sectionOffset < U64_LIMIT && f.flags < 0x1_0000_0000 && f.sectionEntrySize < 0x1_0000
    && f.sectionCount < 0x1_0000 && f.nameSection < 0x1_0000
  }

  predicate ProgramHeaderSized(p: ProgramHeader) {
    && p.headerType < 0x1_0000_0000 && p.flags < 0x1_0000_0000 && p.offset < U64_LIMIT
    && p.virtualAddress < U64_LIMIT && p.physicalAddress < U64_LIMIT && p.fileSize < U64_LIMIT
    && p.memorySize < U64_LIMIT && p.alignment < U64_LIMIT
  }

  /** The file begins with that header, and its table consists of those program headers. */
  ghost predicate Written(file: seq<Byte>, f: FileHeader, headers: seq<ProgramHeader>) {
    && HeaderSized(f) && |headers| < 0x1_0000 && 64 <= |file| && file[..64] == WriteHeader(f, |headers|)
    && f.tableOffset + 56 * |headers| <= |file| && f.tableOffset + 56 * |headers| < U64_LIMIT
    && forall i :: 0 <= i < |headers| ==> EntryWritten(file, f, i, headers[i])
  }

  ghost predicate EntryWritten(file: seq<Byte>, f: FileHeader, i: nat, p: ProgramHeader) {
    && ProgramHeaderSized(p) && f.tableOffset + 56 * i + 56 <= |file|
    && file[f.tableOffset + 56 * i..f.tableOffset + 56 * i + 56] == WriteProgramHeader(p)
  }

  // Reading back

  lemma ProgramHeaderFields(p: ProgramHeader)
    ensures var w := WriteProgramHeader(p);
            && w[0..4] == ToLe(p.headerType, 4) && w[4..8] == ToLe(p.flags, 4) && w[8..16] == ToLe(p.offset, 8)
            && w[16..24] == ToLe(p.virtualAddress, 8) && w[24..32] == ToLe(p.physicalAddress, 8)
            && w[32..40] == ToLe(p.fileSize, 8) && w[40..48] == ToLe(p.memorySize, 8)
            && w[48..56] == ToLe(p.alignment, 8)
  {
    hide ToLe;
    assert WriteProgramHeader(p) == WriteProgramHeader(p)[..48] + ToLe(p.alignment, 8);
  }

  lemma Piece(file: seq<Byte>, at: nat, w: seq<Byte>, lo: nat, hi: nat)
    requires at + |w| <= |file| && file[at..at + |w|] == w && lo <= hi <= |w|
    ensures file[at + lo..at + hi] == w[lo..hi]
  {
    forall k | 0 <= k < hi - lo
      ensures file[at + lo..at + hi][k] == w[lo..hi][k]
    {
      assert w[lo + k] == file[at..at + |w|][lo + k];
    }
  }

  /** A number written little-endian in that many bytes is read back. */
  lemma NumberBack(file: seq<Byte>, at: nat, v: nat, n: nat)
    requires at + n <= |file| && file[at..at + n] == ToLe(v, n) && v < Pow256(n)
    ensures ReadLe(file, at, n) == v
  {
    LeRoundTrip(v, n);
  }

  /** A program header written anywhere in any file is read back field by field. */
  lemma ProgramHeaderBack(file: seq<Byte>, index: nat, at: nat, p: ProgramHeader)
    requires ProgramHeaderSized(p) && at + 56 <= |file| && file[at..at + 56] == WriteProgramHeader(p)
    ensures ParseRawHeader(file, index, at)
            == RawHeader(index, p.headerType, p.flags, p.offset, p.virtualAddress, p.fileSize, p.memorySize,
                         p.alignment)
  {
    hide ToLe, ReadLe, WriteProgramHeader;
    Pow256Values();
    var w := WriteProgramHeader(p);
    ProgramHeaderFields(p);
    Piece(file, at, w, 0, 4);
    Piece(file, at, w, 4, 8);
    Piece(file, at, w, 8, 16);
    Piece(file, at, w, 16, 24);
    Piece(file, at, w, 32, 40);
    Piece(file, at, w, 40, 48);
    Piece(file, at, w, 48, 56);
    NumberBack(file, at, p.headerType, 4);
    NumberBack(file, at + 4, p.flags, 4);
    NumberBack(file, at + 8, p.offset, 8);
    NumberBack(file, at + 16, p.virtualAddress, 8);
    NumberBack(file, at + 32, p.fileSize, 8);
    NumberBack(file, at + 40, p.memorySize, 8);
    NumberBack(file, at + 48, p.alignment, 8);
  }

  lemma HeaderParts(f: FileHeader, count: nat)
    requires |f.abi| == 9
    ensures var w := WriteHeader(f, count);
            |w| == 64 && w[0..16] == WriteIdent(f) && w[16..48] == WriteWhere(f) && w[48..64] == WriteSizes(f, count)
  {
    hide ToLe;
  }

  lemma HeaderFields(f: FileHeader, count: nat)
    requires |f.abi| == 9
    ensures |WriteIdent(f)| == 16 && |WriteWhere(f)| == 32 && |WriteSizes(f, count)| == 16
    ensures WriteIdent(f)[0..7] == [0x7f, 0x45, 0x4c, 0x46, 2, 1, 1]
    ensures var w := WriteWhere(f);
            && w[0..2] == ToLe(f.objectType, 2) && w[2..4] == ToLe(62, 2) && w[4..8] == ToLe(1, 4)
            && w[8..16] == ToLe(f.entrypoint, 8) && w[16..24] == ToLe(f.tableOffset, 8)
    ensures var w := WriteSizes(f, count);
            w[4..6] == ToLe(64, 2) && w[6..8] == ToLe(56, 2) && w[8..10] == ToLe(count, 2)
  {
    hide ToLe;
  }

  /** The header of a file is read back, and passes all checks but those of its program headers. */
  lemma HeaderBack(file: seq<Byte>, f: FileHeader, count: nat)
    requires HeaderSized(f) && count < 0x1_0000 && 64 <= |file| && file[..64] == WriteHeader(f, count)
    ensures ValidateIdent(file).None?
    ensures ParseHeader(file) == Ok(ElfHeader(f.objectType, 62, 1, f.entrypoint, f.tableOffset, 64, 56, count))
  {
    hide ToLe, ReadLe, WriteHeader, WriteIdent, WriteWhere, WriteSizes;
    Pow256Values();
    HeaderParts(f, count);
    HeaderFields(f, count);
    var w, where, sizes := WriteHeader(f, count), WriteWhere(f), WriteSizes(f, count);
    Piece(file, 0, w, 0, 16);
    Piece(file, 0, WriteIdent(f), 0, 7);
    MagicBack(file);
    Piece(file, 0, w, 16, 48);
    Piece(file, 16, where, 0, 2);
    Piece(file, 16, where, 2, 4);
    Piece(file, 16, where, 4, 8);
    Piece(file, 16, where, 8, 16);
    Piece(file, 16, where, 16, 24);
    Piece(file, 0, w, 48, 64);
    Piece(file, 48, sizes, 4, 6);
    Piece(file, 48, sizes, 6, 8);
    Piece(file, 48, sizes, 8, 10);
    NumberBack(file, 16, f.objectType, 2);
    NumberBack(file, 18, 62, 2);
    NumberBack(file, 20, 1, 4);
    NumberBack(file, 24, f.entrypoint, 8);
    NumberBack(file, 32, f.tableOffset, 8);
    NumberBack(file, 52, 64, 2);
    NumberBack(file, 54, 56, 2);
    NumberBack(file, 56, count, 2);
  }

  lemma MagicBack(file: seq<Byte>)
    requires 64 <= |file|
    ensures file[0..7] == [0x7f, 0x45, 0x4c, 0x46, 2, 1, 1] <==> ValidateIdent(file).None?
  {
    assert file[0..7] == file[0..4] + [file[4], file[5], file[6]];
  }

  // Every file the parser takes was written so

  function HeaderIn(file: seq<Byte>): FileHeader
    requires 64 <= |file|
  {
    FileHeader(file[7..16], FromLe(file[16..18]), FromLe(file[24..32]), FromLe(file[32..40]), FromLe(file[40..48]),
               FromLe(file[48..52]), FromLe(file[58..60]), FromLe(file[60..62]), FromLe(file[62..64]))
  }

  function ProgramHeaderIn(file: seq<Byte>, at: nat): ProgramHeader
    requires at + 56 <= |file|
  {
    ProgramHeader(FromLe(file[at..at + 4]), FromLe(file[at + 4..at + 8]), FromLe(file[at + 8..at + 16]),
                  FromLe(file[at + 16..at + 24]), FromLe(file[at + 24..at + 32]), FromLe(file[at + 32..at + 40]),
                  FromLe(file[at + 40..at + 48]), FromLe(file[at + 48..at + 56]))
  }

  /** Any 56 bytes are some program header, written. */
  lemma AnyProgramHeader(file: seq<Byte>, at: nat)
    requires at + 56 <= |file|
    ensures ProgramHeaderSized(ProgramHeaderIn(file, at))
    ensures file[at..at + 56] == WriteProgramHeader(ProgramHeaderIn(file, at))
  {
    hide ToLe, FromLe;
    Pow256Values();
    LeUnique(file[at..at + 4]);
    LeUnique(file[at + 4..at + 8]);
    LeUnique(file[at + 8..at + 16]);
    LeUnique(file[at + 16..at + 24]);
    LeUnique(file[at + 24..at + 32]);
    LeUnique(file[at + 32..at + 40]);
    LeUnique(file[at + 40..at + 48]);
    LeUnique(file[at + 48..at + 56]);
    var w := file[at..at + 4] + file[at + 4..at + 8] + file[at + 8..at + 16] + file[at + 16..at + 24]
             + file[at + 24..at + 32] + file[at + 32..at + 40] + file[at + 40..at + 48] + file[at + 48..at + 56];
    assert file[at..at + 56] == w;
  }

  /** A header that passes the checks is one the writer writes. */
  lemma AnyHeader(file: seq<Byte>)
    requires 64 <= |file| && ValidateIdent(file).None? && ParseHeader(file).Ok?
    requires ParseHeader(file).value.headerSize == 64 && ParseHeader(file).value.entrySize == 56
    ensures HeaderSized(HeaderIn(file)) && file[..64] == WriteHeader(HeaderIn(file), ParseHeader(file).value.entryCount)
  {
    hide ToLe, FromLe;
    Pow256Values();
    MagicBack(file);
    var f, count := HeaderIn(file), ParseHeader(file).value.entryCount;
    assert WriteIdent(f) == file[0..16];
    assert WriteWhere(f) == file[16..48] by {
      LeUnique(file[16..18]);
      LeUnique(file[18..20]);
      LeUnique(file[20..24]);
      LeUnique(file[24..32]);
      LeUnique(file[32..40]);
      LeUnique(file[40..48]);
      assert file[16..48] == file[16..18] + file[18..20] + file[20..24] + file[24..32] + file[32..40] + file[40..48];
    }
    assert WriteSizes(f, count) == file[48..64] by {
      LeUnique(file[48..52]);
      LeUnique(file[52..54]);
      LeUnique(file[54..56]);
      LeUnique(file[56..58]);
      LeUnique(file[58..60]);
      LeUnique(file[60..62]);
      LeUnique(file[62..64]);
      assert file[48..64] == file[48..52] + file[52..54] + file[54..56] + file[56..58] + file[58..60] + file[60..62]
                             + file[62..64];
    }
    assert file[..64] == file[0..16] + file[16..48] + file[48..64];
    HeaderInSized(file);
  }

  lemma HeaderInSized(file: seq<Byte>)
    requires 64 <= |file|
    ensures HeaderSized(HeaderIn(file))
  {
    hide FromLe;
    Pow256Values();
    LeUnique(file[16..18]);
    LeUnique(file[24..32]);
    LeUnique(file[32..40]);
    LeUnique(file[40..48]);
    LeUnique(file[48..52]);
    LeUnique(file[58..60]);
    LeUnique(file[60..62]);
    LeUnique(file[62..64]);
  }

  /** The header and the bounds of the table pass. */
  ghost predicate TableRead(file: seq<Byte>) {
    ValidateIdent(file).None? && ParseHeader(file).Ok? && ValidateTable(ParseHeader(file).value, |file|).None?
  }

  function RawOf(p: ProgramHeader, i: nat): RawHeader
    requires ProgramHeaderSized(p)
  {
    RawHeader(i, p.headerType, p.flags, p.offset, p.virtualAddress, p.fileSize, p.memorySize, p.alignment)
  }

  /** What the parser sees of a written file. */
  lemma WrittenIsRead(file: seq<Byte>, f: FileHeader, headers: seq<ProgramHeader>)
    requires Written(file, f, headers)
    ensures ValidateIdent(file).None?
    ensures ParseHeader(file) == Ok(ElfHeader(f.objectType, 62, 1, f.entrypoint, f.tableOffset, 64, 56, |headers|))
    ensures TableRead(file) <==> headers != []
    ensures headers != [] ==> forall i :: 0 <= i < |headers| ==>
              && ProgramHeaderSized(headers[i])
              && HeaderAt(file, ParseHeader(file).value, i) == RawOf(headers[i], i)
  {
    hide WriteHeader, ParseHeader, ValidateIdent, WriteProgramHeader, ParseRawHeader;
    HeaderBack(file, f, |headers|);
    if headers != [] {
      forall i | 0 <= i < |headers|
        ensures ProgramHeaderSized(headers[i]) && HeaderAt(file, ParseHeader(file).value, i) == RawOf(headers[i], i)
      {
        assert EntryWritten(file, f, i, headers[i]);
        ProgramHeaderBack(file, i, f.tableOffset + 56 * i, headers[i]);
      }
    }
  }

  /** A file whose table is read was written from some headers. */
  lemma ReadIsWritten(file: seq<Byte>) returns (f: FileHeader, headers: seq<ProgramHeader>)
    requires TableRead(file)
    ensures Written(file, f, headers) && headers != []
  {
    hide WriteHeader, ParseHeader, WriteProgramHeader, ProgramHeaderSized, HeaderSized;
    var h := ParseHeader(file).value;
    f := HeaderIn(file);
    AnyHeader(file);
    HeaderBack(file, f, h.entryCount);
    var at := f.tableOffset;
    headers := seq(h.entryCount, i requires 0 <= i < h.entryCount => ProgramHeaderIn(file, at + 56 * i));
    forall i | 0 <= i < |headers|
      ensures EntryWritten(file, f, i, headers[i])
    {
      AnyProgramHeader(file, at + 56 * i);
    }
  }

  // Which files have a plan

  function PowerOfTwo(k: nat): nat {
    if k == 0 then 1 else 2 * PowerOfTwo(k - 1)
  }

  ghost predicate IsPower(n: nat) {
    exists k: nat :: n == PowerOfTwo(k)
  }

  lemma PowersOfTwo(n: nat)
    ensures IsPowerOfTwo(n) <==> IsPower(n)
  {
    if IsPowerOfTwo(n) {
      var k := Exponent(n);
    }
    if k: nat :| n == PowerOfTwo(k) {
      PowerIsPower(k);
    }
  }

  lemma {:induction false} Exponent(n: nat) returns (k: nat)
    requires IsPowerOfTwo(n)
    ensures n == PowerOfTwo(k)
  {
    if n == 1 {
      k := 0;
    } else {
      k := Exponent(n / 2);
      k := k + 1;
    }
  }

  lemma {:induction false} PowerIsPower(k: nat)
    ensures 0 < PowerOfTwo(k) && IsPowerOfTwo(PowerOfTwo(k))
  {
    if k > 0 {
      PowerIsPower(k - 1);
      assert PowerOfTwo(k) / 2 == PowerOfTwo(k - 1);
    }
  }

  /** A PT_LOAD header that can be loaded from a file of that length, with the whole pages around it. */
  ghost predicate LoadFit(p: ProgramHeader, fileLength: nat) {
    && p.fileSize <= p.memorySize && p.offset + p.fileSize <= fileLength && p.offset + p.fileSize < U64_LIMIT
    && p.virtualAddress + p.memorySize <= U64_LIMIT - 4096 && p.virtualAddress % 4096 <= p.offset
    && p.flags < 8
    && (p.alignment > 1 ==>
          p.offset % p.alignment == p.virtualAddress % p.alignment && IsPower(p.alignment))
  }

  /** A PT_INTERP header that names a nonempty, NUL-terminated path. */
  ghost predicate InterpFit(p: ProgramHeader, file: seq<Byte>) {
    && 2 <= p.fileSize && p.offset + p.fileSize <= |file| && p.offset + p.fileSize < U64_LIMIT
    && file[p.offset + p.fileSize - 1] == 0
  }

  lemma LoadFitExactly(p: ProgramHeader, i: nat, fileLength: nat)
    requires ProgramHeaderSized(p)
    ensures SegmentFrom(RawOf(p, i), fileLength).Ok? <==> LoadFit(p, fileLength)
  {
    hide IsPowerOfTwo, IsPower, BuildMapping;
    PowersOfTwo(p.alignment);
    if p.fileSize <= p.memorySize && p.virtualAddress + p.memorySize < U64_LIMIT {
      PagesFit(RawOf(p, i), PermissionsOf(p.flags));
    }
  }

  /** Which segments have whole pages around them. */
  lemma PagesFit(h: RawHeader, permissions: Permissions)
    requires h.fileSize <= h.memorySize && h.virtualAddress + h.memorySize < U64_LIMIT
    ensures BuildMapping(h, permissions).Ok? <==>
              h.virtualAddress + h.memorySize <= U64_LIMIT - 4096 && h.virtualAddress % 4096 <= h.fileOffset
  {
    assert h.virtualAddress - h.virtualAddress / 4096 * 4096 == h.virtualAddress % 4096;
    RoundsUp(h.virtualAddress + h.memorySize);
    hide AlignUpPage;
  }

  lemma RoundsUp(value: U64)
    ensures AlignUpPage(value).Some? <==> value <= U64_LIMIT - 4096
  {
  }

  lemma InterpFitExactly(p: ProgramHeader, i: nat, file: seq<Byte>)
    requires ProgramHeaderSized(p)
    ensures ParseInterpreter(RawOf(p, i), file).Ok? <==> InterpFit(p, file)
  {
  }

  /** Where a load lies before another: at a lower address, or at the same one and earlier in the table. */
  predicate Ahead(headers: seq<ProgramHeader>, i: nat, j: nat)
    requires i < |headers| && j < |headers|
  {
    || headers[i].virtualAddress < headers[j].virtualAddress
    || (headers[i].virtualAddress == headers[j].virtualAddress && i < j)
  }

  predicate Loads(headers: seq<ProgramHeader>, i: nat) {
    i < |headers| && headers[i].headerType == 1
  }

  ghost predicate NextLoad(headers: seq<ProgramHeader>, i: nat, j: nat) {
    && Loads(headers, i) && Loads(headers, j) && Ahead(headers, i, j)
    && !exists k: nat :: Loads(headers, k) && Ahead(headers, i, k) && Ahead(headers, k, j)
  }

  /** No load reaches into the next one by address, but for empty ones. */
  ghost predicate NextApart(headers: seq<ProgramHeader>) {
    forall i: nat, j: nat :: NextLoad(headers, i, j) ==>
      || headers[i].memorySize == 0 || headers[j].memorySize == 0
      || headers[i].virtualAddress + headers[i].memorySize <= headers[j].virtualAddress
  }

  ghost predicate StartsInside(headers: seq<ProgramHeader>, entrypoint: nat) {
    exists i: nat :: && Loads(headers, i) && headers[i].flags % 2 == 1
                     && headers[i].virtualAddress <= entrypoint
                     && entrypoint < headers[i].virtualAddress + headers[i].memorySize
  }

  ghost predicate EntriesFit(file: seq<Byte>, headers: seq<ProgramHeader>) {
    && (forall i: nat :: i < |headers| && headers[i].headerType == 1 ==> LoadFit(headers[i], |file|))
    && (forall i: nat :: i < |headers| && headers[i].headerType == 3 ==> InterpFit(headers[i], file))
    && (forall i: nat, j: nat :: i < j < |headers| && headers[i].headerType == 3 ==> headers[j].headerType != 3)
  }

  /** An executable or a shared object whose headers fit, whose loads are apart and whose entry point is code. */
  ghost predicate HasPlan(file: seq<Byte>, f: FileHeader, headers: seq<ProgramHeader>) {
    && (f.objectType == 2 || f.objectType == 3) && EntriesFit(file, headers)
    && NextApart(headers) && StartsInside(headers, f.entrypoint)
  }

  /** The segments are the loads among the headers, each once, field by field. */
  ghost predicate SegmentsWritten(segments: seq<LoadSegment>, headers: seq<ProgramHeader>) {
    && (forall i: nat :: Loads(headers, i) ==> exists s :: s in segments && s.index == i)
    && (forall a, b :: 0 <= a < b < |segments| ==> segments[a].index != segments[b].index)
    && (forall s :: s in segments ==> Loads(headers, s.index) && FieldsWritten(s, headers[s.index]))
  }

  ghost predicate FieldsWritten(s: LoadSegment, p: ProgramHeader) {
    && s.fileOffset == p.offset && s.virtualAddress == p.virtualAddress && s.fileSize == p.fileSize
    && s.memorySize == p.memorySize
    && (s.permissions.execute <==> p.flags % 2 == 1) && (s.permissions.write <==> p.flags / 2 % 2 == 1)
    && (s.permissions.read <==> p.flags / 4 % 2 == 1) && p.flags < 8
  }

  /** The segments the parser takes from the table. */
  ghost predicate ReadSegments(file: seq<Byte>, segments: seq<LoadSegment>)
    requires TableRead(file)
  {
    var h := ParseHeader(file).value;
    SegmentsOf(file, h, h.entryCount, multiset(segments))
  }

  lemma SegmentsAreWritten(file: seq<Byte>, f: FileHeader, headers: seq<ProgramHeader>, segments: seq<LoadSegment>)
    requires Written(file, f, headers) && headers != [] && TableRead(file)
    requires ReadSegments(file, segments) && Ranked(segments)
    ensures SegmentsWritten(segments, headers)
  {
    hide Written, ParseHeader, ValidateTable, HeaderAt, SegmentFrom;
    WrittenIsRead(file, f, headers);
    var h := ParseHeader(file).value;
    forall i: nat | Loads(headers, i)
      ensures exists s :: s in segments && s.index == i
    {
      assert HeaderAt(file, h, i).headerType == PT_LOAD;
      var s := SegmentFrom(HeaderAt(file, h, i), |file|).value;
      assert s in multiset(segments);
      assert s in segments && s.index == i;
    }
    forall s | s in segments
      ensures Loads(headers, s.index) && FieldsWritten(s, headers[s.index])
    {
      assert s in multiset(segments);
      assert SegmentFrom(HeaderAt(file, h, s.index), |file|) == Ok(s);
      FlagsRead(s.permissions);
    }
    forall a, b | 0 <= a < b < |segments|
      ensures segments[a].index != segments[b].index
    {
      assert segments[a] in multiset(segments) && segments[b] in multiset(segments);
      assert Before(segments[a], segments[b]);
    }
  }

  lemma FlagsRead(p: Permissions)
    ensures p.execute <==> p.Flags() % 2 == 1
    ensures p.write <==> p.Flags() / 2 % 2 == 1
    ensures p.read <==> p.Flags() / 4 % 2 == 1
    ensures p.Flags() < 8
  {
  }

  lemma SegmentAt(segments: seq<LoadSegment>, headers: seq<ProgramHeader>, i: nat) returns (a: nat)
    requires SegmentsWritten(segments, headers) && Loads(headers, i)
    ensures a < |segments| && segments[a].index == i && FieldsWritten(segments[a], headers[i])
  {
    var s :| s in segments && s.index == i;
    a :| a < |segments| && segments[a] == s;
  }

  /** Neighbours among ranked segments are loads with none between them. */
  lemma NeighboursAre(segments: seq<LoadSegment>, headers: seq<ProgramHeader>, a: nat)
    requires SegmentsWritten(segments, headers) && Ranked(segments) && a + 1 < |segments|
    ensures NextLoad(headers, segments[a].index, segments[a + 1].index)
  {
    var i, j := segments[a].index, segments[a + 1].index;
    assert segments[a] in segments && segments[a + 1] in segments && Before(segments[a], segments[a + 1]);
    forall k: nat | Loads(headers, k) && Ahead(headers, i, k)
      ensures !Ahead(headers, k, j)
    {
      var c := SegmentAt(segments, headers, k);
      assert c < a ==> Before(segments[c], segments[a]);
      assert a + 1 < c ==> Before(segments[a + 1], segments[c]);
    }
  }

  lemma NeighboursFrom(segments: seq<LoadSegment>, headers: seq<ProgramHeader>, i: nat, j: nat) returns (a: nat)
    requires SegmentsWritten(segments, headers) && Ranked(segments) && NextLoad(headers, i, j)
    ensures a + 1 < |segments| && segments[a].index == i && segments[a + 1].index == j
  {
    a := SegmentAt(segments, headers, i);
    var b := SegmentAt(segments, headers, j);
  }

  /** Ranked segments pass the last checks exactly when the loads they were written from do. */
  lemma SegmentsFitExactly(segments: seq<LoadSegment>, headers: seq<ProgramHeader>, entrypoint: nat)
    requires SegmentsWritten(segments, headers) && Ranked(segments)
    ensures UnfitSegments(segments, entrypoint) <==> !(NextApart(headers) && StartsInside(headers, entrypoint))
  {
    hide SegmentsWritten, NextLoad, Ranked;
    assert AdjacentApart(segments) <==> NextApart(headers) by { ApartExactly(segments, headers); }
    assert EntryExecutable(entrypoint, segments) <==> StartsInside(headers, entrypoint) by {
      StartsExactly(segments, headers, entrypoint);
    }
    hide AdjacentApart, NextApart, StartsInside;
  }

  lemma ApartExactly(segments: seq<LoadSegment>, headers: seq<ProgramHeader>)
    requires SegmentsWritten(segments, headers) && Ranked(segments)
    ensures AdjacentApart(segments) <==> NextApart(headers)
  {
    hide Ranked;
    if AdjacentApart(segments) {
      forall i: nat, j: nat | NextLoad(headers, i, j)
        ensures || headers[i].memorySize == 0 || headers[j].memorySize == 0
                || headers[i].virtualAddress + headers[i].memorySize <= headers[j].virtualAddress
      {
        var a := NeighboursFrom(segments, headers, i, j);
        assert PairApart(segments, a);
        assert segments[a] in segments && segments[a + 1] in segments;
      }
    }
    if NextApart(headers) {
      forall a | 0 <= a < |segments| - 1
        ensures PairApart(segments, a)
      {
        NeighboursAre(segments, headers, a);
        assert segments[a] in segments && segments[a + 1] in segments;
      }
    }
  }

  lemma StartsExactly(segments: seq<LoadSegment>, headers: seq<ProgramHeader>, entrypoint: nat)
    requires SegmentsWritten(segments, headers)
    ensures EntryExecutable(entrypoint, segments) <==> StartsInside(headers, entrypoint)
  {
    if EntryExecutable(entrypoint, segments) {
      var a :| 0 <= a < |segments| && segments[a].permissions.execute && Inside(segments[a], entrypoint);
      assert segments[a] in segments;
      assert Loads(headers, segments[a].index);
    }
    if StartsInside(headers, entrypoint) {
      var i: nat :| Loads(headers, i) && headers[i].flags % 2 == 1 && headers[i].virtualAddress <= entrypoint
                    && entrypoint < headers[i].virtualAddress + headers[i].memorySize;
      var a := SegmentAt(segments, headers, i);
      assert Inside(segments[a], entrypoint);
    }
  }

  // Some ranking of the segments exists

  lemma Insertion(segments: seq<LoadSegment>, s: LoadSegment) returns (at: nat)
    requires Ranked(segments)
    ensures at <= |segments| && (at > 0 ==> segments[at - 1].virtualAddress <= s.virtualAddress)
    ensures forall j :: at <= j < |segments| ==> s.virtualAddress < segments[j].virtualAddress
  {
    at := |segments|;
    while at > 0 && segments[at - 1].virtualAddress > s.virtualAddress
      invariant 0 <= at <= |segments|
      invariant forall j :: at <= j < |segments| ==> s.virtualAddress < segments[j].virtualAddress
    {
      at := at - 1;
    }
  }

  /** The segments of the first n headers, ranked. */
  lemma {:induction false} RankingExists(file: seq<Byte>, header: ElfHeader, n: nat)
    returns (segments: seq<LoadSegment>)
    requires ValidateTable(header, |file|).None? && n <= header.entryCount && HeadersOk(file, header)
    ensures Ranked(segments) && SegmentsOf(file, header, n, multiset(segments))
  {
    hide ValidateTable, HeaderAt, SegmentFrom, SegmentsOf, HeadersOk, ParseInterpreter;
    if n == 0 {
      segments := [];
      NothingScanned(file, header);
      assert multiset(segments) == multiset{};
      return;
    }
    segments := RankingExists(file, header, n - 1);
    AnotherSegment(file, header, n - 1, multiset(segments));
    if HeaderAt(file, header, n - 1).headerType == PT_LOAD {
      LoadAccepted(file, header, n - 1);
      var s := SegmentFrom(HeaderAt(file, header, n - 1), |file|).value;
      EarlierIndex(file, header, n - 1, segments);
      var at := Insertion(segments, s);
      InsertedSorted(segments, s, at);
      InsertedMultiset(segments, s, at);
      segments := segments[..at] + [s] + segments[at..];
    }
  }

  lemma LoadAccepted(file: seq<Byte>, header: ElfHeader, i: nat)
    requires ValidateTable(header, |file|).None? && i < header.entryCount && HeadersOk(file, header)
    requires HeaderAt(file, header, i).headerType == PT_LOAD
    ensures SegmentFrom(HeaderAt(file, header, i), |file|).Ok?
    ensures SegmentFrom(HeaderAt(file, header, i), |file|).value.index == i
  {
    hide SegmentFrom, ParseInterpreter;
  }

  lemma EarlierIndex(file: seq<Byte>, header: ElfHeader, n: nat, segments: seq<LoadSegment>)
    requires ValidateTable(header, |file|).None? && n <= header.entryCount
    requires SegmentsOf(file, header, n, multiset(segments))
    ensures forall a :: 0 <= a < |segments| ==> segments[a].index < n
  {
    hide SegmentFrom, HeaderAt, ValidateTable;
    assert forall a :: 0 <= a < |segments| ==> segments[a] in multiset(segments);
  }

  // Exactly which files have a plan, and which

  lemma EntriesFitExactly(file: seq<Byte>, f: FileHeader, headers: seq<ProgramHeader>)
    requires Written(file, f, headers) && TableRead(file)
    ensures HeadersOk(file, ParseHeader(file).value) <==> EntriesFit(file, headers)
  {
    hide Written, ParseHeader, HeaderAt, SegmentFrom, ParseInterpreter, LoadFit, InterpFit, ValidateTable;
    WrittenIsRead(file, f, headers);
    forall i: nat | i < |headers|
      ensures ProgramHeaderSized(headers[i])
      ensures SegmentFrom(RawOf(headers[i], i), |file|).Ok? <==> LoadFit(headers[i], |file|)
      ensures ParseInterpreter(RawOf(headers[i], i), file).Ok? <==> InterpFit(headers[i], file)
    {
      LoadFitExactly(headers[i], i, |file|);
      InterpFitExactly(headers[i], i, file);
    }
  }

  /** A written file has a plan exactly when its headers allow it. */
  lemma WrittenHasPlan(file: seq<Byte>, f: FileHeader, headers: seq<ProgramHeader>)
    requires Written(file, f, headers)
    ensures !Unfit(file) <==> HasPlan(file, f, headers)
  {
    hide Written, ParseHeader, HeadersOk, EntriesFit, SegmentsWritten, NextApart, UnfitSegments, SegmentsOf;
    hide ValidateTable;
    WrittenIsRead(file, f, headers);
    if headers != [] {
      var h := ParseHeader(file).value;
      EntriesFitExactly(file, f, headers);
      if HeadersOk(file, h) {
        var ranking := RankingExists(file, h, h.entryCount);
        forall segments | SegmentsOf(file, h, h.entryCount, multiset(segments)) && Ranked(segments)
          ensures UnfitSegments(segments, h.entrypoint) <==>
                    !(NextApart(headers) && StartsInside(headers, f.entrypoint))
        {
          SegmentsAreWritten(file, f, headers, segments);
          SegmentsFitExactly(segments, headers, f.entrypoint);
        }
        assert UnfitSegments(ranking, h.entrypoint) <==> !(NextApart(headers) && StartsInside(headers, f.entrypoint));
        UnfitAreRanked(h.entrypoint);
      }
    }
  }

  lemma UnfitAreRanked(entrypoint: nat)
    ensures forall segments :: UnfitSegments(segments, entrypoint) ==> Ranked(segments)
  {
  }

  /** Exactly the files written from headers that allow it have a plan. */
  lemma PlanExactly(file: seq<Byte>)
    ensures !Unfit(file) <==> exists f, headers :: Written(file, f, headers) && HasPlan(file, f, headers)
  {
    hide Written, HasPlan;
    if !Unfit(file) {
      assert TableRead(file);
      var f, headers := ReadIsWritten(file);
      WrittenHasPlan(file, f, headers);
    }
    if f, headers :| Written(file, f, headers) && HasPlan(file, f, headers) {
      WrittenHasPlan(file, f, headers);
    }
  }

  /** The load's file part holds the whole header table. */
  ghost predicate HasTable(p: ProgramHeader, f: FileHeader, count: nat) {
    p.offset <= f.tableOffset && f.tableOffset + 56 * count <= p.offset + p.fileSize
  }

  /** The table's address: what the last PT_PHDR header says, or else where the first load with the table puts it. */
  ghost predicate TableAt(address: Option<U64>, f: FileHeader, headers: seq<ProgramHeader>) {
    if exists i: nat :: i < |headers| && headers[i].headerType == 6 then
      exists i: nat :: && i < |headers| && headers[i].headerType == 6 && address == Some(headers[i].virtualAddress)
                       && forall k: nat :: i < k < |headers| ==> headers[k].headerType != 6
    else if address.None? then forall i: nat :: Loads(headers, i) ==> !HasTable(headers[i], f, |headers|)
    else exists i: nat ::
           && Loads(headers, i) && HasTable(headers[i], f, |headers|)
           && address.value == headers[i].virtualAddress + (f.tableOffset - headers[i].offset)
           && forall k: nat :: Loads(headers, k) && Ahead(headers, k, i) ==> !HasTable(headers[k], f, |headers|)
  }

  ghost predicate InterpreterAt(path: Option<seq<Byte>>, file: seq<Byte>, headers: seq<ProgramHeader>) {
    if path.None? then forall i: nat :: i < |headers| ==> headers[i].headerType != 3
    else exists i: nat ::
           && i < |headers| && headers[i].headerType == 3 && headers[i].offset + headers[i].fileSize <= |file|
           && file[headers[i].offset..headers[i].offset + headers[i].fileSize] == path.value + [0]
  }

  /** The plan says what was written. */
  ghost predicate PlanWritten(plan: LoadPlan, file: seq<Byte>, f: FileHeader, headers: seq<ProgramHeader>) {
    && f.objectType == (if plan.objectType == Executable then 2 else 3) && plan.entrypoint == f.entrypoint
    && SegmentsWritten(plan.segments, headers) && InterpreterAt(plan.interpreter, file, headers)
    && plan.programHeaders.fileOffset == f.tableOffset && plan.programHeaders.entrySize == 56
    && plan.programHeaders.entryCount == |headers| && TableAt(plan.programHeaders.virtualAddress, f, headers)
  }

  /** A plan read from a written file is the one that was written. */
  lemma PlanIsWritten(file: seq<Byte>, f: FileHeader, headers: seq<ProgramHeader>, plan: LoadPlan)
    requires Written(file, f, headers) && PlanOf(file, plan) && Ranked(plan.segments)
    ensures PlanWritten(plan, file, f, headers)
  {
    hide Written, ParseHeader, HeaderAt, SegmentFrom, ParseInterpreter, ValidateTable, SegmentsOf, SegmentsWritten;
    hide Ranked, InterpreterOf, PhdrOf, Inferred, InterpreterAt, TableAt;
    WrittenIsRead(file, f, headers);
    SegmentsAreWritten(file, f, headers, plan.segments);
    InterpreterIsWritten(file, f, headers, plan.interpreter);
    TableIsWritten(file, f, headers, plan);
  }

  lemma InterpreterIsWritten(file: seq<Byte>, f: FileHeader, headers: seq<ProgramHeader>, path: Option<seq<Byte>>)
    requires Written(file, f, headers) && TableRead(file)
    requires InterpreterOf(file, ParseHeader(file).value, ParseHeader(file).value.entryCount, path)
    ensures InterpreterAt(path, file, headers)
  {
    hide Written, ParseHeader, HeaderAt, ParseInterpreter, ValidateTable;
    WrittenIsRead(file, f, headers);
    if path.Some? {
      var h := ParseHeader(file).value;
      var i: nat :| i < h.entryCount && HeaderAt(file, h, i).headerType == PT_INTERP
                    && ParseInterpreter(HeaderAt(file, h, i), file) == Ok(path.value);
      assert headers[i].headerType == 3;
    }
  }

  lemma TableIsWritten(file: seq<Byte>, f: FileHeader, headers: seq<ProgramHeader>, plan: LoadPlan)
    requires Written(file, f, headers) && PlanOf(file, plan) && Ranked(plan.segments)
    ensures TableAt(plan.programHeaders.virtualAddress, f, headers)
  {
    hide Written, ParseHeader, HeaderAt, SegmentFrom, ValidateTable, SegmentsOf, SegmentsWritten, InterpreterOf, Ranked;
    WrittenIsRead(file, f, headers);
    var h, address := ParseHeader(file).value, plan.programHeaders.virtualAddress;
    if exists i: nat :: i < |headers| && headers[i].headerType == 6 {
      assert !PhdrOf(file, h, h.entryCount, None);
      var k: nat :| k < h.entryCount && HeaderAt(file, h, k).headerType == PT_PHDR
                    && HeaderAt(file, h, k).virtualAddress == address.value
                    && forall i: nat :: k < i < h.entryCount ==> HeaderAt(file, h, i).headerType != PT_PHDR;
      assert headers[k].headerType == 6;
    } else {
      assert Inferred(plan.segments, h, address);
      SegmentsAreWritten(file, f, headers, plan.segments);
      InferenceIsWritten(f, headers, plan.segments, h, address);
    }
  }

  /** A ranking has loads in the order of their addresses. */
  lemma AheadIsEarlier(segments: seq<LoadSegment>, headers: seq<ProgramHeader>, a: nat, b: nat)
    requires SegmentsWritten(segments, headers) && Ranked(segments) && a < |segments| && b < |segments|
    requires Ahead(headers, segments[b].index, segments[a].index)
    ensures b < a
  {
    assert segments[a] in segments && segments[b] in segments;
  }

  lemma InferenceIsWritten(f: FileHeader, headers: seq<ProgramHeader>, segments: seq<LoadSegment>, h: ElfHeader,
                           address: Option<U64>)
    requires SegmentsWritten(segments, headers) && Ranked(segments) && Inferred(segments, h, address)
    requires h.programHeaderOffset == f.tableOffset && h.entrySize == 56 && h.entryCount == |headers|
    requires forall i: nat :: i < |headers| ==> headers[i].headerType != 6
    ensures TableAt(address, f, headers)
  {
    hide Ranked;
    if address.None? {
      forall i: nat | Loads(headers, i)
        ensures !HasTable(headers[i], f, |headers|)
      {
        var a := SegmentAt(segments, headers, i);
        assert PhdrIn(segments[a], h).None?;
      }
    } else {
      var a :| 0 <= a < |segments| && PhdrIn(segments[a], h) == Some(address.value)
               && forall j :: 0 <= j < a ==> PhdrIn(segments[j], h).None?;
      assert segments[a] in segments;
      var i := segments[a].index;
      assert Loads(headers, i) && HasTable(headers[i], f, |headers|);
      forall k: nat | Loads(headers, k) && Ahead(headers, k, i)
        ensures !HasTable(headers[k], f, |headers|)
      {
        var b := SegmentAt(segments, headers, k);
        AheadIsEarlier(segments, headers, a, b);
        assert PhdrIn(segments[b], h).None?;
      }
    }
  }
}
