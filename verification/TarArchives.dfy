/**
 The tar writer of image export (crates/mcr-image/src/store.rs), and a reader of the ustar interchange format
 (IEEE Std 1003.1, pax utility) that recovers what was written.
 */
module TarArchives {
  import opened Ranges
  import opened Bytes

  const BLOCK: nat := 512
  const SLASH: Byte := 47
  const BACKSLASH: Byte := 92
  const DOT: Byte := 46
  const DIGIT_ZERO: Byte := 48
  const SPACE: Byte := 32
  const NAME_SIZE: nat := 100
  const PREFIX_SIZE: nat := 155
  const USTAR: seq<Byte> := [117, 115, 116, 97, 114]
  const FILE_MODE: nat := 420  // 644 in octal

  datatype TarError = InvalidPath | PathTooLong | FieldOverflow

  datatype Entry = Entry(path: seq<Byte>, data: seq<Byte>)

  // Octal numbers

  function Pow8(n: nat): (r: nat)
    ensures r > 0
  {
    if n == 0 then 1 else 8 * Pow8(n - 1)
  }

  /** The shortest octal text of a number. */
  function Octal(v: nat): (r: seq<Byte>)
    ensures r != []
  {
    if v < 8 then [DIGIT_ZERO + v] else Octal(v / 8) + [DIGIT_ZERO + v % 8]
  }

  function Digit(b: Byte): nat {
    if 48 <= b < 56 then b - 48 else 0
  }

  function ParseOctal(s: seq<Byte>): nat {
    if s == [] then 0 else 8 * ParseOctal(s[..|s| - 1]) + Digit(s[|s| - 1])
  }

  lemma {:induction false} OctalRoundTrip(v: nat)
    ensures ParseOctal(Octal(v)) == v
  {
    var s := Octal(v);
    if v < 8 {
      assert s[..0] == [];
    } else {
      OctalRoundTrip(v / 8);
      assert s[..|s| - 1] == Octal(v / 8);
    }
  }

  lemma {:induction false} OctalLength(v: nat, n: nat)
    requires n > 0
    ensures |Octal(v)| <= n <==> v < Pow8(n)
  {
    if v >= 8 {
      if n == 1 {
        assert Pow8(1) == 8 * Pow8(0);
      } else {
        OctalLength(v / 8, n - 1);
      }
    } else {
      assert Pow8(n) == 8 * Pow8(n - 1);
    }
  }

  function Repeat(b: Byte, n: nat): (r: seq<Byte>)
    ensures |r| == n && forall i :: 0 <= i < n ==> r[i] == b
  {
    seq(n, _ => b)
  }

  lemma {:induction false} LeadingZeros(n: nat, s: seq<Byte>)
    ensures ParseOctal(Repeat(DIGIT_ZERO, n) + s) == ParseOctal(s)
    decreases |s|, n
  {
    var all := Repeat(DIGIT_ZERO, n) + s;
    if s != [] {
      LeadingZeros(n, s[..|s| - 1]);
      assert all[..|all| - 1] == Repeat(DIGIT_ZERO, n) + s[..|s| - 1];
    } else if n > 0 {
      LeadingZeros(n - 1, []);
      assert all == Repeat(DIGIT_ZERO, n);
      assert all[..n - 1] == Repeat(DIGIT_ZERO, n - 1) + [];
    }
  }

  /** A number with leading zeros and a closing NUL, if it fits the field. */
  function OctalField(v: nat, size: nat): (r: Option<seq<Byte>>)
    requires size > 1
    ensures r.Some? ==> |r.value| == size
  {
    var digits := Octal(v);
    if |digits| > size - 1 then None else Some(Repeat(DIGIT_ZERO, size - 1 - |digits|) + digits + [0])
  }

  /** Exactly the numbers below the field's capacity are written, and they are read back. */
  lemma OctalFieldRoundTrip(v: nat, size: nat)
    requires size > 1
    ensures OctalField(v, size).Some? <==> v < Pow8(size - 1)
    ensures OctalField(v, size).Some? ==> ParseOctal(OctalField(v, size).value[..size - 1]) == v
  {
    OctalLength(v, size - 1);
    if OctalField(v, size).Some? {
      var digits := Octal(v);
      LeadingZeros(size - 1 - |digits|, digits);
      OctalRoundTrip(v);
      assert OctalField(v, size).value[..size - 1] == Repeat(DIGIT_ZERO, size - 1 - |digits|) + digits;
    }
  }

  // Text fields

  /** What a reader takes from a field: the bytes before the first NUL. */
  function Text(field: seq<Byte>): seq<Byte> {
    if field == [] || field[0] == 0 then [] else [field[0]] + Text(field[1..])
  }

  lemma {:induction false} TextRoundTrip(s: seq<Byte>, zeros: nat)
    requires NulFree(s)
    ensures Text(s + Zeros(zeros)) == s
  {
    var field := s + Zeros(zeros);
    if s != [] {
      TextRoundTrip(s[1..], zeros);
      assert field[1..] == s[1..] + Zeros(zeros);
      assert s == [s[0]] + s[1..];
    }
  }

  // Paths

  /** The pieces of a path between slashes. */
  function Components(path: seq<Byte>): (r: seq<seq<Byte>>)
    ensures r != []
  {
    if path == [] then [[]]
    else
      var rest := Components(path[1..]);
      if path[0] == SLASH then [[]] + rest else [[path[0]] + rest[0]] + rest[1..]
  }

  predicate BadComponent(c: seq<Byte>) {
    c == [] || c == [DOT] || c == [DOT, DOT]
  }

  predicate ValidPath(path: seq<Byte>) {
    && path != [] && path[0] != SLASH && BACKSLASH !in path
    && forall i :: 0 <= i < |Components(path)| ==> !BadComponent(Components(path)[i])
  }

  // Which paths are valid

  function JoinSlash(names: seq<seq<Byte>>): seq<Byte> {
    if names == [] then [] else if |names| == 1 then names[0] else names[0] + [47] + JoinSlash(names[1..])
  }

  /** A name of a path: not empty, not "." and not "..", without slash or backslash. */
  ghost predicate IsName(name: seq<Byte>) {
    name != [] && name != [46] && name != [46, 46] && 47 !in name && 92 !in name
  }

  ghost predicate AreNames(names: seq<seq<Byte>>) {
    names != [] && forall i :: 0 <= i < |names| ==> IsName(names[i])
  }

  lemma {:induction false} ComponentsJoin(path: seq<Byte>)
    ensures JoinSlash(Components(path)) == path
  {
    if path != [] {
      ComponentsJoin(path[1..]);
      var rest, all := Components(path[1..]), Components(path);
      assert path == [path[0]] + path[1..];
      if path[0] == SLASH {
        assert all[1..] == rest;
      } else {
        assert all[1..] == rest[1..];
      }
    }
  }

  lemma {:induction false} ComponentsPlain(path: seq<Byte>)
    ensures forall i :: 0 <= i < |Components(path)| ==> 47 !in Components(path)[i]
    ensures 92 !in path ==> forall i :: 0 <= i < |Components(path)| ==> 92 !in Components(path)[i]
  {
    if path != [] {
      ComponentsPlain(path[1..]);
    }
  }

  lemma {:induction false} JoinedComponents(names: seq<seq<Byte>>)
    requires names != [] && forall i :: 0 <= i < |names| ==> 47 !in names[i]
    ensures Components(JoinSlash(names)) == names
    decreases |names|, |names[0]|
  {
    var path, first := JoinSlash(names), names[0];
    if first == [] {
      if |names| > 1 {
        JoinedComponents(names[1..]);
        assert path[1..] == JoinSlash(names[1..]);
        assert [[]] + names[1..] == names;
      }
    } else {
      var shorter := [first[1..]] + names[1..];
      JoinedComponents(shorter);
      assert shorter[1..] == names[1..];
      assert path[1..] == JoinSlash(shorter);
      assert first == [first[0]] + first[1..];
      assert [[first[0]] + shorter[0]] + shorter[1..] == names;
    }
  }

  /** Exactly the relative paths made of such names are valid. */
  lemma PathExactly(path: seq<Byte>)
    ensures ValidPath(path) <==>
              exists names :: AreNames(names) && path == JoinSlash(names)
  {
    hide Components, JoinSlash;
    ComponentsJoin(path);
    ComponentsPlain(path);
    if ValidPath(path) {
      assert forall i :: 0 <= i < |Components(path)| ==> IsName(Components(path)[i]);
    }
    if names :| AreNames(names) && path == JoinSlash(names) {
      JoinedComponents(names);
      JoinedNames(names);
    }
  }

  lemma {:induction false} JoinedNames(names: seq<seq<Byte>>)
    requires AreNames(names)
    ensures JoinSlash(names) != [] && JoinSlash(names)[0] != 47 && 92 !in JoinSlash(names)
  {
    assert names[0][0] in names[0];
    if |names| > 1 {
      JoinedNames(names[1..]);
    }
  }

  /** Splits at the last slash that leaves a name. */
  function SplitPrefixName(path: seq<Byte>, end: nat): (r: Option<(seq<Byte>, seq<Byte>)>)
    requires end <= |path|
    ensures r.Some? ==> r.value.0 + [SLASH] + r.value.1 == path && r.value.1 != []
  {
    if end == 0 then None
    else if path[end - 1] == SLASH && end < |path| then
      assert path[..end - 1] + [SLASH] + path[end..] == path;
      Some((path[..end - 1], path[end..]))
    else SplitPrefixName(path, end - 1)
  }

  /** The name and prefix fields of a path; nothing if the path does not fit them. */
  function Fields(path: seq<Byte>): (r: Option<(seq<Byte>, seq<Byte>)>)
    ensures r.Some? ==> |r.value.0| <= NAME_SIZE && |r.value.1| <= PREFIX_SIZE
  {
    if |path| <= NAME_SIZE then Some((path, []))
    else
      var split := SplitPrefixName(path, |path|);
      if split.Some? && |split.value.1| <= NAME_SIZE && |split.value.0| <= PREFIX_SIZE
         then Some((split.value.1, split.value.0)) else None
  }

  function JoinFields(name: seq<Byte>, prefix: seq<Byte>): seq<Byte> {
    if prefix == [] then name else prefix + [SLASH] + name
  }

  /** The two fields give the path back; the name is never empty. */
  lemma FieldsJoin(path: seq<Byte>)
    requires ValidPath(path) && NulFree(path) && Fields(path).Some?
    ensures var f := Fields(path).value;
            && JoinFields(f.0, f.1) == path && f.0 != [] && NulFree(f.0) && NulFree(f.1)
  {
    if |path| > NAME_SIZE {
      var split := SplitPrefixName(path, |path|).value;
      assert forall b :: b in split.0 || b in split.1 ==> b in path by {
        assert path == split.0 + [SLASH] + split.1;
      }
    }
  }

  // What the fields could hold

  /** A slash with a prefix before it and a name behind. */
  predicate SplitsAt(path: seq<Byte>, k: nat) {
    0 < k && k + 1 < |path| && path[k] == SLASH
  }

  /** Some split of the path fits the name and prefix fields. */
  ghost predicate Holdable(path: seq<Byte>) {
    |path| <= NAME_SIZE || exists k: nat :: SplitsAt(path, k) && k <= PREFIX_SIZE && |path| - k - 1 <= NAME_SIZE
  }

  /** The last split of the path. */
  ghost predicate LastSplit(path: seq<Byte>, k: nat) {
    SplitsAt(path, k) && forall j: nat :: k < j ==> !SplitsAt(path, j)
  }

  lemma {:induction false} SplitIsLast(path: seq<Byte>, end: nat)
    requires end <= |path| && path != [] && path[0] != SLASH && forall j: nat :: end <= j ==> !SplitsAt(path, j)
    ensures var split := SplitPrefixName(path, end);
            if split.Some? then LastSplit(path, |split.value.0|) else forall j: nat :: !SplitsAt(path, j)
  {
    if end > 0 && !(path[end - 1] == SLASH && end < |path|) {
      SplitIsLast(path, end - 1);
    }
  }

  /**
   Only the last split is tried: what is written is holdable, and a holdable path is written exactly when it is a name
   by itself or its last split leaves a prefix that fits.
   */
  lemma FieldsExactly(path: seq<Byte>)
    requires ValidPath(path)
    ensures Fields(path).Some? ==> Holdable(path)
    ensures Holdable(path) ==>
              (Fields(path).Some? <==> |path| <= NAME_SIZE || exists k: nat :: LastSplit(path, k) && k <= PREFIX_SIZE)
  {
    hide ValidPath, Components;
    assert path != [] && path[0] != SLASH by { NotRooted(path); }
    SplitIsLast(path, |path|);
    var split := SplitPrefixName(path, |path|);
    if split.Some? {
      assert SplitsAt(path, |split.value.0|);
      assert forall k: nat :: LastSplit(path, k) ==> k == |split.value.0|;
      assert forall k: nat :: SplitsAt(path, k) ==> k <= |split.value.0|;
    }
  }

  lemma NotRooted(path: seq<Byte>)
    requires ValidPath(path)
    ensures path != [] && path[0] != SLASH
  {
  }

  lemma {:induction false} OneComponent(a: seq<Byte>)
    requires SLASH !in a
    ensures Components(a) == [a]
  {
    if a != [] {
      OneComponent(a[1..]);
      assert [a[0]] + a[1..] == a;
    }
  }

  lemma {:induction false} FirstComponent(a: seq<Byte>, rest: seq<Byte>)
    requires SLASH !in a
    ensures Components(a + [SLASH] + rest) == [a] + Components(rest)
  {
    var path := a + [SLASH] + rest;
    if a == [] {
      assert path[1..] == rest;
    } else {
      FirstComponent(a[1..], rest);
      assert path[1..] == a[1..] + [SLASH] + rest;
      assert [a[0]] + a[1..] == a;
    }
  }

  const LETTER: Byte := 0x61

  /** A directory of 150 letters, one of 10, and a file: holdable, and refused. */
  function DeepPath(): seq<Byte> {
    Repeat(LETTER, 150) + [SLASH] + (Repeat(LETTER, 10) + [SLASH] + [LETTER])
  }

  lemma DeepPathRefused()
    ensures ValidPath(DeepPath()) && Holdable(DeepPath()) && Fields(DeepPath()).None?
  {
    var path := DeepPath();
    DeepPathValid();
    hide ValidPath, Components;
    assert SplitsAt(path, 150) && SplitsAt(path, 161);
    FieldsExactly(path);
    assert forall k: nat :: LastSplit(path, k) ==> k >= 161;
  }

  lemma DeepPathValid()
    ensures ValidPath(DeepPath())
  {
    hide Components;
    FirstComponent(Repeat(LETTER, 150), Repeat(LETTER, 10) + [SLASH] + [LETTER]);
    FirstComponent(Repeat(LETTER, 10), [LETTER]);
    OneComponent([LETTER]);
    assert Components(DeepPath()) == [Repeat(LETTER, 150), Repeat(LETTER, 10), [LETTER]];
  }

  // Headers

  datatype Write = Write(at: nat, data: seq<Byte>) {
    predicate Covers(i: nat) {
      at <= i < at + |data|
    }
  }

  predicate Apart(v: Write, w: Write) {
    v.at + |v.data| <= w.at || w.at + |w.data| <= v.at
  }

  /** The block holds what was written, and zeros everywhere else. */
  ghost predicate Wrote(h: seq<Byte>, writes: set<Write>) {
    && |h| == BLOCK
    && (forall w :: w in writes ==> InBlock(h, w))
    && (forall i: nat :: i < BLOCK && Untouched(writes, i) ==> h[i] == 0)
  }

  ghost predicate InBlock(h: seq<Byte>, w: Write) {
    w.at + |w.data| <= |h| && h[w.at..w.at + |w.data|] == w.data
  }

  ghost predicate Untouched(writes: set<Write>, i: nat) {
    forall w :: w in writes ==> !w.Covers(i)
  }

  lemma AnotherWrite(h: seq<Byte>, writes: set<Write>, w: Write)
    requires Wrote(h, writes) && w.at + |w.data| <= BLOCK && forall v :: v in writes ==> Apart(v, w)
    ensures Wrote(Blit(h, w.at, w.data), writes + {w})
  {
    var after := Blit(h, w.at, w.data);
    forall v | v in writes + {w}
      ensures InBlock(after, v)
    {
      if v != w {
        assert InBlock(h, v);
        assert after[v.at..v.at + |v.data|] == h[v.at..v.at + |v.data|];
      } else {
        assert after[w.at..w.at + |w.data|] == w.data;
      }
    }
    forall i: nat | i < BLOCK && Untouched(writes + {w}, i)
      ensures after[i] == 0
    {
      assert w in writes + {w};
      assert Untouched(writes, i) by {
        forall v | v in writes
          ensures !v.Covers(i)
        {
          assert v in writes + {w};
        }
      }
    }
  }

  /** Writing again at the same place replaces what was there. */
  lemma Rewritten(h: seq<Byte>, writes: set<Write>, v: Write, w: Write)
    requires Wrote(h, writes + {v}) && v !in writes && (forall u :: u in writes ==> Apart(u, w))
    requires v.at == w.at && |v.data| == |w.data| && w.at + |w.data| <= BLOCK
    ensures Wrote(Blit(h, w.at, w.data), writes + {w})
  {
    var after := Blit(h, w.at, w.data);
    forall u | u in writes + {w}
      ensures InBlock(after, u)
    {
      if u == w {
        assert after[w.at..w.at + |w.data|] == w.data;
      } else {
        assert u in writes + {v};
        assert InBlock(h, u);
        assert after[u.at..u.at + |u.data|] == h[u.at..u.at + |u.data|];
      }
    }
    forall i: nat | i < BLOCK && Untouched(writes + {w}, i)
      ensures after[i] == 0
    {
      assert w in writes + {w} && !w.Covers(i);
      assert Untouched(writes + {v}, i) by {
        forall u | u in writes + {v}
          ensures !u.Covers(i)
        {
          assert u == v || u in writes + {w};
        }
      }
    }
  }

  function Sum(s: seq<Byte>): nat {
    if s == [] then 0 else Sum(s[..|s| - 1]) + s[|s| - 1]
  }

  lemma {:induction false} SumBound(s: seq<Byte>)
    ensures Sum(s) <= 255 * |s|
  {
    if s != [] {
      SumBound(s[..|s| - 1]);
    }
  }

  method SumBytes(header: array<Byte>) returns (sum: nat)
    ensures sum == Sum(header[..])
  {
    sum := 0;
    for i := 0 to header.Length
      invariant sum == Sum(header[..i])
    {
      assert header[..i + 1][..i] == header[..i];
      sum := sum + header[i];
    }
    assert header[..header.Length] == header[..];
  }

  method WriteAt(header: array<Byte>, at: nat, data: seq<Byte>)
    requires at + |data| <= header.Length
    modifies header
    ensures header[..] == Blit(old(header[..]), at, data)
  {
    for i := 0 to |data|
      invariant forall j :: 0 <= j < header.Length ==>
                  header[j] == if at <= j < at + i then data[j - at] else old(header[j])
    {
      header[at + i] := data[i];
    }
  }

  const CHECKSUM_AT: nat := 148
  const BLANKS: seq<Byte> := [32, 32, 32, 32, 32, 32, 32, 32]

  lemma Pow8Values()
    ensures Pow8(6) == 0x4_0000 && Pow8(7) == 0x20_0000 && Pow8(11) == 0x2_0000_0000
  {
    assert Pow8(6) == 8 * (8 * (8 * (8 * (8 * (8 * Pow8(0))))));
    assert Pow8(11) == 8 * (8 * (8 * (8 * Pow8(7))));
  }

  /** A number field whose value fits. */
  function Number(v: nat, size: nat): (r: seq<Byte>)
    requires size > 1 && v < Pow8(size - 1)
    ensures |r| == size
  {
    OctalFieldRoundTrip(v, size);
    OctalField(v, size).value
  }

  /** Everything in a file header but the checksum. */
  function HeaderWrites(name: seq<Byte>, prefix: seq<Byte>, length: nat): set<Write>
    requires length < Pow8(11)
  {
    Pow8Values();
    { Write(0, name), Write(345, prefix), Write(100, Number(FILE_MODE, 8)), Write(108, Number(0, 8)),
        Write(116, Number(0, 8)),
      Write(124, Number(length, 12)), Write(136, Number(0, 12)), Write(156, [DIGIT_ZERO]), Write(257, USTAR),
      Write(263, [DIGIT_ZERO, DIGIT_ZERO]) }
  }

  /** Six octal digits, a NUL and a space: room for every sum of a block's bytes. */
  function ChecksumField(sum: nat): (r: seq<Byte>)
    requires sum < Pow8(6)
    ensures |r| == 8
  {
    OctalLength(sum, 6);
    Repeat(DIGIT_ZERO, 6 - |Octal(sum)|) + Octal(sum) + [0, SPACE]
  }

  function Blanked(h: seq<Byte>): (r: seq<Byte>)
    requires |h| == BLOCK
    ensures |r| == BLOCK
  {
    Blit(h, CHECKSUM_AT, BLANKS)
  }

  lemma ChecksumFits(h: seq<Byte>)
    requires |h| == BLOCK
    ensures Sum(h) < Pow8(6)
  {
    SumBound(h);
    Pow8Values();
  }

  /** The block is the header of a file with that name, prefix and length. */
  ghost predicate HeaderOf(h: seq<Byte>, name: seq<Byte>, prefix: seq<Byte>, length: nat) {
    && length < Pow8(11) && |h| == BLOCK && Sum(Blanked(h)) < Pow8(6)
    && Wrote(h, HeaderWrites(name, prefix, length) + {Write(CHECKSUM_AT, ChecksumField(Sum(Blanked(h))))})
  }

  method WriteField(header: array<Byte>, at: nat, data: seq<Byte>, ghost writes: set<Write>)
    returns (ghost more: set<Write>)
    requires header.Length == BLOCK && Wrote(header[..], writes) && at + |data| <= BLOCK
    requires forall v :: v in writes ==> Apart(v, Write(at, data))
    modifies header
    ensures more == writes + {Write(at, data)} && Wrote(header[..], more)
  {
    hide Wrote, Apart;
    AnotherWrite(header[..], writes, Write(at, data));
    WriteAt(header, at, data);
    more := writes + {Write(at, data)};
  }

  method BuildHeader(name: seq<Byte>, prefix: seq<Byte>, length: nat) returns (h: seq<Byte>)
    requires |name| <= NAME_SIZE && |prefix| <= PREFIX_SIZE && length < Pow8(11)
    ensures HeaderOf(h, name, prefix, length)
  {
    hide Wrote, Number, Sum, Blanked, ChecksumField, Pow8, HeaderOf, HeaderWrites;
    Pow8Values();
    var header := new Byte[BLOCK](_ => 0);
    assert Wrote(header[..], {}) by { AllZero(header[..]); }
    ghost var w := WriteField(header, 0, name, {});
    w := WriteField(header, 345, prefix, w);
    w := WriteField(header, 100, Number(FILE_MODE, 8), w);
    w := WriteField(header, 108, Number(0, 8), w);
    w := WriteField(header, 116, Number(0, 8), w);
    w := WriteField(header, 124, Number(length, 12), w);
    w := WriteField(header, 136, Number(0, 12), w);
    w := MarkHeader(header, w);
    AllWritten(name, prefix, length, w);
    h := FinishHeader(header, name, prefix, length, HeaderWrites(name, prefix, length));
  }

  /** Blank checksum, type, magic and version. */
  method MarkHeader(header: array<Byte>, ghost writes: set<Write>) returns (ghost more: set<Write>)
    requires header.Length == BLOCK && Wrote(header[..], writes)
    requires forall v :: v in writes ==> v.at + |v.data| <= CHECKSUM_AT || (345 <= v.at && v.at + |v.data| <= BLOCK)
    modifies header
    ensures more == writes + {Write(CHECKSUM_AT, BLANKS), Write(156, [DIGIT_ZERO]), Write(257, USTAR),
                              Write(263, [DIGIT_ZERO, DIGIT_ZERO])}
    ensures Wrote(header[..], more)
  {
    hide Wrote;
    more := WriteField(header, CHECKSUM_AT, BLANKS, writes);
    more := WriteField(header, 156, [DIGIT_ZERO], more);
    more := WriteField(header, 257, USTAR, more);
    more := WriteField(header, 263, [DIGIT_ZERO, DIGIT_ZERO], more);
  }

  lemma AllWritten(name: seq<Byte>, prefix: seq<Byte>, length: nat, writes: set<Write>)
    requires length < Pow8(11) && FILE_MODE < Pow8(7) && 0 < Pow8(7)
    requires writes == {Write(0, name)} + {Write(345, prefix)} + {Write(100, Number(FILE_MODE, 8))}
             + {Write(108, Number(0, 8))}
                       + {Write(116, Number(0, 8))} + {Write(124, Number(length, 12))} + {Write(136, Number(0, 12))}
                       + {Write(CHECKSUM_AT, BLANKS), Write(156, [DIGIT_ZERO]), Write(257, USTAR),
                           Write(263, [DIGIT_ZERO, DIGIT_ZERO])}
    ensures writes == HeaderWrites(name, prefix, length) + {Write(CHECKSUM_AT, BLANKS)}
    ensures |name| <= NAME_SIZE ==> Write(CHECKSUM_AT, BLANKS) !in HeaderWrites(name, prefix, length)
    ensures |name| <= NAME_SIZE ==> forall w :: w in HeaderWrites(name, prefix, length) ==>
            w.at + |w.data| <= CHECKSUM_AT || CHECKSUM_AT + 8 <= w.at
  {
    hide Number, Pow8;
  }

  lemma AllZero(h: seq<Byte>)
    requires |h| == BLOCK && forall i :: 0 <= i < BLOCK ==> h[i] == 0
    ensures Wrote(h, {})
  {}

  /** Sums the header with a blank checksum and fills the checksum in. */
  method FinishHeader(header: array<Byte>, name: seq<Byte>, prefix: seq<Byte>, length: nat, ghost writes: set<Write>)
    returns (h: seq<Byte>)
    requires header.Length == BLOCK && length < Pow8(11) && writes == HeaderWrites(name, prefix, length)
    requires Wrote(header[..], writes + {Write(CHECKSUM_AT, BLANKS)}) && Write(CHECKSUM_AT, BLANKS) !in writes
    requires forall w :: w in writes ==> w.at + |w.data| <= CHECKSUM_AT || CHECKSUM_AT + 8 <= w.at
    modifies header
    ensures HeaderOf(h, name, prefix, length)
  {
    hide Sum, ChecksumField, HeaderWrites;
    ghost var before := header[..];
    var checksum := SumBytes(header);
    ChecksumFits(before);
    assert InBlock(before, Write(CHECKSUM_AT, BLANKS));
    var field := ChecksumField(checksum);
    Rewritten(before, writes, Write(CHECKSUM_AT, BLANKS), Write(CHECKSUM_AT, field));
    WriteAt(header, CHECKSUM_AT, field);
    h := header[..];
    BlankAgain(before, field);
  }

  lemma BlankAgain(before: seq<Byte>, field: seq<Byte>)
    requires |before| == BLOCK && |field| == 8 && before[CHECKSUM_AT..CHECKSUM_AT + 8] == BLANKS
    ensures Blanked(Blit(before, CHECKSUM_AT, field)) == before
  {
    var again := Blanked(Blit(before, CHECKSUM_AT, field));
    forall i | 0 <= i < BLOCK
      ensures again[i] == before[i]
    {
      if CHECKSUM_AT <= i < CHECKSUM_AT + 8 {
        assert before[i] == before[CHECKSUM_AT..CHECKSUM_AT + 8][i - CHECKSUM_AT];
      }
    }
  }

  // Archives

  function Padding(length: nat): (r: nat)
    ensures (length + r) % BLOCK == 0 && r < BLOCK
  {
    (BLOCK - length % BLOCK) % BLOCK
  }

  predicate Fits(e: Entry) {
    ValidPath(e.path) && Fields(e.path).Some? && |e.data| < Pow8(11)
  }

  ghost predicate BlocksOf(e: Entry, blocks: seq<Byte>) {
    && Fits(e) && BLOCK + |e.data| + Padding(|e.data|) == |blocks|
    && HeaderOf(blocks[..BLOCK], Fields(e.path).value.0, Fields(e.path).value.1, |e.data|)
    && blocks[BLOCK..] == e.data + Zeros(Padding(|e.data|))
  }

  method AppendFile(archive: seq<Byte>, path: seq<Byte>, data: seq<Byte>)
    returns (r: Result<seq<Byte>, TarError>, ghost blocks: seq<Byte>)
    ensures r.Ok? <==> Fits(Entry(path, data))
    ensures r.Ok? ==> r.value == archive + blocks && BlocksOf(Entry(path, data), blocks)
    ensures !ValidPath(path) ==> r == Err(InvalidPath)
  {
    hide HeaderOf, Fields, ValidPath, Octal, Pow8;
    blocks := [];
    if !ValidPath(path) {
      return Err(InvalidPath), [];
    }
    var fields := Fields(path);
    if fields.None? {
      return Err(PathTooLong), [];
    }
    OctalFieldRoundTrip(|data|, 12);
    if OctalField(|data|, 12).None? {
      return Err(FieldOverflow), [];
    }
    var header := BuildHeader(fields.value.0, fields.value.1, |data|);
    assert |header| == BLOCK by { HeaderSize(header, fields.value.0, fields.value.1, |data|); }
    var padding := Padding(|data|);
    blocks := header + (data + Zeros(padding));
    assert blocks[..BLOCK] == header && blocks[BLOCK..] == data + Zeros(padding);
    r := Ok(archive + header + data + Zeros(padding));
    assert r.value == archive + blocks;
  }

  lemma HeaderSize(h: seq<Byte>, name: seq<Byte>, prefix: seq<Byte>, length: nat)
    requires HeaderOf(h, name, prefix, length)
    ensures |h| == BLOCK
  {}

  // Reading

  predicate IsZero(s: seq<Byte>) {
    forall i :: 0 <= i < |s| ==> s[i] == 0
  }

  /** The first file of an archive and what follows it. */
  function ReadEntry(bytes: seq<Byte>): (r: Option<(Entry, seq<Byte>)>)
    requires |bytes| >= BLOCK
    ensures r.Some? ==> |r.value.1| < |bytes|
  {
    var h := bytes[..BLOCK];
    if ParseOctal(h[148..154]) != Sum(Blanked(h)) || h[257..263] != USTAR + [0] then None
    else
      var size := ParseOctal(h[124..135]);
      if BLOCK + size + Padding(size) > |bytes| then None
      else Some((Entry(JoinFields(Text(h[0..100]), Text(h[345..500])), bytes[BLOCK..BLOCK + size]),
                 bytes[BLOCK + size + Padding(size)..]))
  }

  /** All files up to the end marker of two zero blocks. */
  function ReadArchive(bytes: seq<Byte>): Option<seq<Entry>>
    decreases |bytes|
  {
    if |bytes| < 2 * BLOCK then None
    else if IsZero(bytes[..2 * BLOCK]) then Some([])
    else
      var first := ReadEntry(bytes);
      if first.None? then None
      else
        var rest := ReadArchive(first.value.1);
        if rest.None? then None else Some([first.value.0] + rest.value)
  }

  /** A slice of the header around a short write at its start. */
  lemma FieldText(h: seq<Byte>, writes: set<Write>, w: Write, size: nat)
    requires Wrote(h, writes) && w in writes && NulFree(w.data) && |w.data| <= size && w.at + size <= BLOCK
    requires forall v :: v in writes && v != w ==> v.at + |v.data| <= w.at || w.at + size <= v.at
    ensures Text(h[w.at..w.at + size]) == w.data
  {
    var field := h[w.at..w.at + size];
    assert InBlock(h, w);
    forall i | |w.data| <= i < size
      ensures field[i] == 0
    {
      assert Untouched(writes, w.at + i);
    }
    assert field == w.data + Zeros(size - |w.data|) by {
      assert field[..|w.data|] == h[w.at..w.at + |w.data|];
    }
    TextRoundTrip(w.data, size - |w.data|);
  }

  lemma NumberBack(v: nat, size: nat)
    requires size > 1 && v < Pow8(size - 1)
    ensures ParseOctal(Number(v, size)[..size - 1]) == v
  {
    OctalFieldRoundTrip(v, size);
  }

  lemma ChecksumBack(sum: nat)
    requires sum < Pow8(6)
    ensures ParseOctal(ChecksumField(sum)[..6]) == sum
  {
    OctalLength(sum, 6);
    LeadingZeros(6 - |Octal(sum)|, Octal(sum));
    OctalRoundTrip(sum);
    assert ChecksumField(sum)[..6] == Repeat(DIGIT_ZERO, 6 - |Octal(sum)|) + Octal(sum);
  }

  /** The reader finds in a header what was written, and the header is not part of an end marker. */
  lemma HeaderBack(h: seq<Byte>, name: seq<Byte>, prefix: seq<Byte>, length: nat)
    requires HeaderOf(h, name, prefix, length) && NulFree(name) && NulFree(prefix) && name != []
    requires |name| <= NAME_SIZE && |prefix| <= PREFIX_SIZE
    ensures |h| == BLOCK && h[0] != 0
    ensures ParseOctal(h[148..154]) == Sum(Blanked(h)) && h[257..263] == USTAR + [0]
    ensures ParseOctal(h[124..135]) == length && Text(h[0..100]) == name && Text(h[345..500]) == prefix
  {
    hide HeaderOf, HeaderWrites, Number, Sum, Blanked, ChecksumField, Pow8, ParseOctal, Text;
    HeaderSlices(h, name, prefix, length);
    HeaderTexts(h, name, prefix, length);
    assert h[0] == h[0..|name|][0] && name[0] in name;
    NumberBack(length, 12);
    assert h[124..135] == h[124..136][..11];
    ChecksumBack(Sum(Blanked(h)));
    assert h[148..154] == h[148..156][..6];
    assert h[257..263] == h[257..262] + [h[262]];
  }

  lemma {:induction false} SumJoins(left: seq<Byte>, right: seq<Byte>)
    ensures Sum(left + right) == Sum(left) + Sum(right)
    decreases |right|
  {
    if right == [] {
      assert left + right == left;
    } else {
      var n := |right| - 1;
      SumJoins(left, right[..n]);
      assert (left + right)[..|left| + n] == left + right[..n];
    }
  }

  /** The checksum in a header: all bytes of the block, those of the checksum itself counted as blanks. */
  lemma ChecksumMeans(h: seq<Byte>, name: seq<Byte>, prefix: seq<Byte>, length: nat)
    requires HeaderOf(h, name, prefix, length) && |name| <= NAME_SIZE && |prefix| <= PREFIX_SIZE
    ensures |h| == BLOCK && ParseOctal(h[148..154]) == Sum(h[..148]) + 8 * 32 + Sum(h[156..])
    ensures h[154] == 0 && h[155] == 32
  {
    hide Sum, ParseOctal, Pow8, Octal, HeaderWrites, Number;
    HeaderSlices(h, name, prefix, length);
    var sum := Sum(Blanked(h));
    ChecksumBack(sum);
    assert h[148..154] == h[148..156][..6];
    assert h[154] == h[148..156][6] && h[155] == h[148..156][7];
    assert Blanked(h) == h[..148] + BLANKS + h[156..];
    SumJoins(h[..148] + BLANKS, h[156..]);
    SumJoins(h[..148], BLANKS);
    BlankSum(BLANKS);
  }

  lemma {:induction false} BlankSum(s: seq<Byte>)
    requires forall i :: 0 <= i < |s| ==> s[i] == 32
    ensures Sum(s) == 32 * |s|
  {
    if s != [] {
      BlankSum(s[..|s| - 1]);
    }
  }

  /** What else a reader finds: a plain file that its owner may write and all may read, of nobody and of no time. */
  lemma AttributesBack(h: seq<Byte>, name: seq<Byte>, prefix: seq<Byte>, length: nat)
    requires HeaderOf(h, name, prefix, length) && |name| <= NAME_SIZE && |prefix| <= PREFIX_SIZE
    ensures |h| == BLOCK
    ensures ParseOctal(h[100..107]) == 6 * 64 + 4 * 8 + 4
    ensures ParseOctal(h[108..115]) == 0 && ParseOctal(h[116..123]) == 0 && ParseOctal(h[136..147]) == 0
    ensures h[156] == 48 && h[257..265] == [117, 115, 116, 97, 114, 0, 48, 48]
  {
    hide Number, Sum, Blanked, ChecksumField, Pow8, ParseOctal;
    HeaderSlices(h, name, prefix, length);
    Pow8Values();
    NumberBack(FILE_MODE, 8);
    NumberBack(0, 8);
    NumberBack(0, 12);
    assert InBlock(h, Write(100, Number(FILE_MODE, 8))) && InBlock(h, Write(108, Number(0, 8)))
           && InBlock(h, Write(116, Number(0, 8))) && InBlock(h, Write(136, Number(0, 12)))
           && InBlock(h, Write(156, [DIGIT_ZERO])) && InBlock(h, Write(263, [DIGIT_ZERO, DIGIT_ZERO]));
    assert h[100..107] == h[100..108][..7] && h[108..115] == h[108..116][..7] && h[116..123] == h[116..124][..7];
    assert h[136..147] == h[136..148][..11] && h[156] == h[156..157][0];
    assert h[257..265] == h[257..262] + [h[262]] + h[263..265];
  }

  lemma HeaderSlices(h: seq<Byte>, name: seq<Byte>, prefix: seq<Byte>, length: nat)
    requires HeaderOf(h, name, prefix, length) && |name| <= NAME_SIZE && |prefix| <= PREFIX_SIZE
    ensures |h| == BLOCK && length < Pow8(11) && Sum(Blanked(h)) < Pow8(6)
    ensures h[0..|name|] == name && h[124..136] == Number(length, 12)
    ensures h[148..156] == ChecksumField(Sum(Blanked(h))) && h[257..262] == USTAR && h[262] == 0
  {
    hide Number, Sum, Blanked, ChecksumField, Pow8;
    var check := Write(CHECKSUM_AT, ChecksumField(Sum(Blanked(h))));
    var writes := HeaderWrites(name, prefix, length) + {check};
    assert InBlock(h, Write(0, name)) && InBlock(h, Write(124, Number(length, 12))) && InBlock(h, check)
           && InBlock(h, Write(257, USTAR));
    assert Untouched(writes, 262);
  }

  lemma HeaderTexts(h: seq<Byte>, name: seq<Byte>, prefix: seq<Byte>, length: nat)
    requires HeaderOf(h, name, prefix, length) && NulFree(name) && NulFree(prefix) && name != []
    requires |name| <= NAME_SIZE && |prefix| <= PREFIX_SIZE
    ensures Text(h[0..100]) == name && Text(h[345..500]) == prefix
  {
    hide Number, Sum, Blanked, ChecksumField, Pow8, Text, Wrote, NulFree;
    var writes := HeaderWrites(name, prefix, length) + {Write(CHECKSUM_AT, ChecksumField(Sum(Blanked(h))))};
    FieldText(h, writes, Write(0, name), NAME_SIZE);
    FieldText(h, writes, Write(345, prefix), PREFIX_SIZE);
  }

  lemma EntryBack(e: Entry, blocks: seq<Byte>, rest: seq<Byte>)
    requires BlocksOf(e, blocks) && NulFree(e.path)
    ensures blocks[0] != 0 && ReadEntry(blocks + rest) == Some((e, rest))
  {
    hide Pow8, ParseOctal, Text, Sum, Blanked, Fields, HeaderOf;
    FieldsJoin(e.path);
    var f := Fields(e.path).value;
    HeaderBack(blocks[..BLOCK], f.0, f.1, |e.data|);
    var bytes := blocks + rest;
    assert bytes[..BLOCK] == blocks[..BLOCK];
    assert bytes[BLOCK..BLOCK + |e.data|] == blocks[BLOCK..][..|e.data|] == e.data;
    assert bytes[BLOCK + |e.data| + Padding(|e.data|)..] == rest;
  }

  ghost predicate AllBlocks(entries: seq<Entry>, blocks: seq<seq<Byte>>) {
    |blocks| == |entries| && forall i :: 0 <= i < |entries| ==> BlocksOf(entries[i], blocks[i])
  }

  /** Reading what was written gives exactly the entries. */
  lemma {:induction false} ArchiveBack(entries: seq<Entry>, blocks: seq<seq<Byte>>)
    requires AllBlocks(entries, blocks) && forall i :: 0 <= i < |entries| ==> NulFree(entries[i].path)
    ensures ReadArchive(Concat(blocks) + Zeros(2 * BLOCK)) == Some(entries)
  {
    hide BlocksOf, ReadEntry;
    var bytes := Concat(blocks) + Zeros(2 * BLOCK);
    if entries == [] {
      assert bytes == Zeros(2 * BLOCK);
    } else {
      ArchiveBack(entries[1..], blocks[1..]);
      var rest := Concat(blocks[1..]) + Zeros(2 * BLOCK);
      assert bytes == blocks[0] + rest;
      EntryBack(entries[0], blocks[0], rest);
      BlocksSize(entries[0], blocks[0]);
      assert bytes[0] == blocks[0][0] && !IsZero(bytes[..2 * BLOCK]) by {
        assert bytes[..2 * BLOCK][0] == bytes[0];
      }
      assert [entries[0]] + entries[1..] == entries;
    }
  }

  lemma BlocksSize(e: Entry, blocks: seq<Byte>)
    requires BlocksOf(e, blocks)
    ensures |blocks| >= BLOCK && |blocks| % BLOCK == 0
  {
    hide Fits, HeaderOf, Fields, Padding;
    PaddedToBlock(|e.data|);
  }

  lemma PaddedToBlock(size: nat)
    ensures (BLOCK + size + Padding(size)) % BLOCK == 0
  {
  }

  lemma {:induction false} WholeBlocks(entries: seq<Entry>, blocks: seq<seq<Byte>>)
    requires AllBlocks(entries, blocks)
    ensures |Concat(blocks)| % BLOCK == 0
  {
    hide BlocksOf;
    if entries != [] {
      BlocksSize(entries[0], blocks[0]);
      WholeBlocks(entries[1..], blocks[1..]);
    }
  }

  /** Writes an archive; a reader recovers exactly the entries from it. */
  method WriteArchive(entries: seq<Entry>) returns (r: Result<seq<Byte>, TarError>)
    ensures r.Ok? <==> forall i :: 0 <= i < |entries| ==> Fits(entries[i])
    ensures r.Ok? ==> |r.value| % BLOCK == 0
    ensures r.Ok? && (forall i :: 0 <= i < |entries| ==> NulFree(entries[i].path)) ==>
            ReadArchive(r.value) == Some(entries)
  {
    hide Fits, BlocksOf, ReadArchive, Concat;
    var archive: seq<Byte> := [];
    ghost var blocks: seq<seq<Byte>> := [];
    assert archive == Concat(blocks) by { EmptyConcat(); }
    for n := 0 to |entries|
      invariant archive == Concat(blocks) && AllBlocks(entries[..n], blocks)
      invariant forall i :: 0 <= i < n ==> Fits(entries[i])
    {
      var more, added := AppendFile(archive, entries[n].path, entries[n].data);
      if more.Err? {
        return Err(more.error);
      }
      ConcatAppend(blocks, added);
      assert Entry(entries[n].path, entries[n].data) == entries[n];
      archive, blocks := more.value, blocks + [added];
    }
    assert entries[..|entries|] == entries;
    WholeBlocks(entries, blocks);
    if forall i :: 0 <= i < |entries| ==> NulFree(entries[i].path) {
      ArchiveBack(entries, blocks);
    }
    r := Ok(archive + Zeros(2 * BLOCK));
  }
}
