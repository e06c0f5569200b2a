/**
 The FS rewrite of crates/mcr-jit/src/native_patch.rs: a nine-byte FS-relative load or subtract becomes an
 absolute one of the same length, with the FS base folded into its displacement.
 */
module FsRewrites {
  import opened Ranges
  import opened Bytes

  const FORM_SIZE: nat := 9
  const I32_LIMIT: int := 0x8000_0000
  const I64_LIMIT: int := 0x8000_0000_0000_0000
  const FS_PREFIX: Byte := 0x64
  const NOP: Byte := 0x90

  /** REX.W with any of the other bits: the byte masked with f8 is 48. */
  predicate IsRexW(b: Byte) {
    b / 8 == 9
  }

  predicate IsOpcode(b: Byte) {
    b == 0x8b || b == 0x2b
  }

  /** ModRM with mod 00 and r/m 100: the byte masked with c7 is 04. */
  predicate IsSibForm(b: Byte) {
    b / 64 == 0 && b % 8 == 4
  }

  function FromI32(bytes: seq<Byte>): (v: int)
    requires |bytes| == 4
    ensures -I32_LIMIT <= v < I32_LIMIT
  {
    Pow256Values();
    LeUnique(bytes);
    var u := FromLe(bytes);
    if u < I32_LIMIT then u else u - 2 * I32_LIMIT
  }

  function ToI32(v: int): (r: seq<Byte>)
    requires -I32_LIMIT <= v < I32_LIMIT
    ensures |r| == 4
  {
    ToLe(if v >= 0 then v else v + 2 * I32_LIMIT, 4)
  }

  /** The nine bytes of an FS-relative form at the front of the code, if there is one. */
  function Original(code: seq<Byte>): (r: Option<seq<Byte>>)
    ensures r.Some? ==> FORM_SIZE <= |code| && r.value == code[..FORM_SIZE]
  {
    if |code| < FORM_SIZE || code[0] != FS_PREFIX || !IsRexW(code[1]) || !IsOpcode(code[2]) || !IsSibForm(code[3])
       || code[4] != 0x25
    then None
    else Some(code[..FORM_SIZE])
  }

  function Replacement(original: seq<Byte>, fsBase: U64): (r: Option<seq<Byte>>)
    requires |original| == FORM_SIZE
    ensures r.Some? ==> |r.value| == FORM_SIZE
  {
    if fsBase == 0 then None
    else
      var displacement := FromI32(original[5..9]);
      var absolute := fsBase + displacement;
      if absolute < 0 || absolute >= U64_LIMIT || absolute >= I32_LIMIT then None
      else Some(original[1..5] + ToLe(absolute, 4) + [NOP])
  }

  function AsI64(v: U64): int {
    if v < I64_LIMIT then v else v - U64_LIMIT
  }

  function OriginalFromReplacement(code: seq<Byte>, fsBase: U64): (r: Option<seq<Byte>>)
    ensures r.Some? ==> |r.value| == FORM_SIZE
  {
    if fsBase == 0 || |code| < FORM_SIZE || !IsRexW(code[0]) || !IsOpcode(code[1]) || !IsSibForm(code[2])
       || code[3] != 0x25 || code[8] != NOP
    then None
    else
      var displacement := FromLe(code[4..8]) - AsI64(fsBase);
      if displacement < -I32_LIMIT || displacement >= I32_LIMIT then None
      else Some([FS_PREFIX] + code[0..4] + ToI32(displacement))
  }

  // Meaning

  /** What an instruction of either form does: which operation and register, and at which address. */
  datatype Operation = Operation(rex: Byte, opcode: Byte, modrm: Byte, address: U64)

  /** With REX.X the SIB byte 25 names r12 as index; without it there is no index. */
  predicate HasIndex(rex: Byte) {
    rex / 2 % 2 == 1
  }

  /** Effective addresses wrap around at 64 bits; displacements are sign-extended. */
  function EffectiveAddress(segmentBase: U64, index: U64, displacement: int): U64 {
    (segmentBase + index + displacement) % U64_LIMIT
  }

  /** What the nine bytes do when r12 holds that value. */
  function Meaning(code: seq<Byte>, fsBase: U64, r12: U64): Option<Operation>
    requires |code| == FORM_SIZE
  {
    if code[0] == FS_PREFIX && IsRexW(code[1]) && IsOpcode(code[2]) && IsSibForm(code[3]) && code[4] == 0x25
    then
      var index := if HasIndex(code[1]) then r12 else 0;
      Some(Operation(code[1], code[2], code[3], EffectiveAddress(fsBase, index, FromI32(code[5..9]))))
    else if IsRexW(code[0]) && IsOpcode(code[1]) && IsSibForm(code[2]) && code[3] == 0x25 && code[8] == NOP
    then
      var index := if HasIndex(code[0]) then r12 else 0;
      Some(Operation(code[0], code[1], code[2], EffectiveAddress(0, index, FromI32(code[4..8]))))
    else None
  }

  lemma I32RoundTrip(v: int)
    requires -I32_LIMIT <= v < I32_LIMIT
    ensures FromI32(ToI32(v)) == v
  {
    Pow256Values();
    LeRoundTrip(if v >= 0 then v else v + 2 * I32_LIMIT, 4);
  }

  lemma I32Unique(bytes: seq<Byte>)
    requires |bytes| == 4
    ensures ToI32(FromI32(bytes)) == bytes
  {
    Pow256Values();
    LeUnique(bytes);
  }

  /** When a replacement exists, and where its parts are. */
  lemma ReplacementParts(original: seq<Byte>, fsBase: U64)
    requires |original| == FORM_SIZE
    ensures Replacement(original, fsBase).Some? <==> fsBase != 0 && 0 <= fsBase + FromI32(original[5..9]) < I32_LIMIT
    ensures Replacement(original, fsBase).Some? ==>
              var r := Replacement(original, fsBase).value;
              && r[0..4] == original[1..5] && r[8] == NOP
              && FromLe(r[4..8]) == FromI32(r[4..8]) == fsBase + FromI32(original[5..9])
              && r[0] == original[1] && r[1] == original[2] && r[2] == original[3] && r[3] == original[4]
  {
    hide FromI32, ToLe, FromLe;
    if Replacement(original, fsBase).Some? {
      var absolute := fsBase + FromI32(original[5..9]);
      var r := Replacement(original, fsBase).value;
      assert r[0..4] == original[1..5] && r[4..8] == ToLe(absolute, 4);
      assert r[0] == r[0..4][0] && r[1] == r[0..4][1] && r[2] == r[0..4][2] && r[3] == r[0..4][3];
      SmallPositive(absolute);
    }
  }

  /** A value below 2^31 reads the same signed and unsigned: sign extension leaves it alone. */
  lemma SmallPositive(v: nat)
    requires v < I32_LIMIT
    ensures FromLe(ToLe(v, 4)) == v == FromI32(ToLe(v, 4))
  {
    Pow256Values();
    LeRoundTrip(v, 4);
  }

  /**
   The rewritten instruction does the same operation at the same address, whatever r12 holds; FS base and displacement
   add up without wrapping, and without an index that is the address.
   */
  lemma RewriteKeepsMeaning(code: seq<Byte>, fsBase: U64, r12: U64)
    requires Original(code).Some? && Replacement(Original(code).value, fsBase).Some?
    ensures var o, r := Original(code).value, Replacement(Original(code).value, fsBase).value;
            && Meaning(o, fsBase, r12).Some? && Meaning(r, fsBase, r12) == Meaning(o, fsBase, r12)
            && 0 <= fsBase + FromI32(o[5..9]) < I32_LIMIT
            && Meaning(o, fsBase, r12).value.address ==
               (fsBase + FromI32(o[5..9]) + (if HasIndex(o[1]) then r12 else 0)) % U64_LIMIT
            && (!HasIndex(o[1]) ==> Meaning(o, fsBase, r12).value.address == fsBase + FromI32(o[5..9]))
  {
    hide FromI32, ToLe, FromLe;
    ReplacementParts(Original(code).value, fsBase);
  }

  /** Undoing a rewrite with the same FS base gives back the original bytes. */
  lemma RewriteIsUndone(code: seq<Byte>, fsBase: U64)
    requires Original(code).Some? && Replacement(Original(code).value, fsBase).Some?
    ensures var o := Original(code).value;
            OriginalFromReplacement(Replacement(o, fsBase).value, fsBase) == Some(o)
  {
    hide FromI32, ToI32, ToLe, FromLe;
    var o := Original(code).value;
    var r := Replacement(o, fsBase).value;
    ReplacementParts(o, fsBase);
    assert FromLe(r[4..8]) - AsI64(fsBase) == FromI32(o[5..9]);
    I32Unique(o[5..9]);
    assert o == [FS_PREFIX] + o[1..5] + o[5..9];
  }

  /**
   Redoing an undone rewrite: exactly when the absolute address is one the rewrite produces. An FS base in the
   upper half is taken as negative when undoing but not when rewriting, so what it recovers is not rewritten.
   */
  lemma UndoneIsRewritten(code: seq<Byte>, fsBase: U64)
    requires OriginalFromReplacement(code, fsBase).Some?
    ensures var o := OriginalFromReplacement(code, fsBase).value;
            && Original(o) == Some(o)
            && (Replacement(o, fsBase) == Some(code[..FORM_SIZE]) <==> FromLe(code[4..8]) < I32_LIMIT
                                                                       && fsBase < I64_LIMIT)
            && (Replacement(o, fsBase).Some? ==> Replacement(o, fsBase) == Some(code[..FORM_SIZE]))
  {
    var o := OriginalFromReplacement(code, fsBase).value;
    var absolute := FromLe(code[4..8]);
    AbsoluteBytes(code);
    hide FromI32, ToI32, ToLe, FromLe;
    var displacement := absolute - AsI64(fsBase);
    I32RoundTrip(displacement);
    assert o[1..5] == code[0..4] && o[5..9] == ToI32(displacement);
    assert o[0] == FS_PREFIX && o[1] == code[0] && o[2] == code[1] && o[3] == code[2] && o[4] == code[3];
    assert code[..FORM_SIZE] == code[0..4] + code[4..8] + [code[8]];
    assert o[..FORM_SIZE] == o;
    ReplacementParts(o, fsBase);
  }

  /** Both ways to fail occur: an FS base in the upper half, and an absolute address from 2^31 on. */
  lemma NotRewrittenAgain()
    ensures var code: seq<Byte>, fsBase := [0x48, 0x8b, 0x04, 0x25, 0, 0, 0, 0, NOP], U64_LIMIT - 1;
            && OriginalFromReplacement(code, fsBase) == Some([FS_PREFIX, 0x48, 0x8b, 0x04, 0x25, 1, 0, 0, 0])
            && Replacement([FS_PREFIX, 0x48, 0x8b, 0x04, 0x25, 1, 0, 0, 0], fsBase) == None
    ensures var code: seq<Byte>, fsBase := [0x48, 0x8b, 0x04, 0x25, 0, 0, 0, 0x80, NOP], 1;
            && OriginalFromReplacement(code, fsBase) ==
               Some([FS_PREFIX, 0x48, 0x8b, 0x04, 0x25, 0xff, 0xff, 0xff, 0x7f])
            && Replacement([FS_PREFIX, 0x48, 0x8b, 0x04, 0x25, 0xff, 0xff, 0xff, 0x7f], fsBase) == None
  {
    hide FromLe, ToLe;
    FourBytes(0, 0, 0, 0);
    FourBytes(1, 0, 0, 0);
    FourBytes(0, 0, 0, 0x80);
    FourBytes(0xff, 0xff, 0xff, 0x7f);
    var low: seq<Byte>, high: seq<Byte> := [0x48, 0x8b, 0x04, 0x25, 0, 0, 0, 0, NOP],
                                           [0x48, 0x8b, 0x04, 0x25, 0, 0, 0, 0x80, NOP];
    assert low[4..8] == [0, 0, 0, 0] && high[4..8] == [0, 0, 0, 0x80];
    var one: seq<Byte>, most: seq<Byte> := [FS_PREFIX, 0x48, 0x8b, 0x04, 0x25, 1, 0, 0, 0],
                                           [FS_PREFIX, 0x48, 0x8b, 0x04, 0x25, 0xff, 0xff, 0xff, 0x7f];
    assert one[5..9] == [1, 0, 0, 0] && most[5..9] == [0xff, 0xff, 0xff, 0x7f];
    assert [FS_PREFIX] + low[0..4] + [1, 0, 0, 0] == one;
    assert [FS_PREFIX] + high[0..4] + [0xff, 0xff, 0xff, 0x7f] == most;
  }

  lemma FirstByte(bytes: seq<Byte>)
    requires bytes != []
    ensures FromLe(bytes) == bytes[0] + 0x100 * FromLe(bytes[1..]) && FromLe([]) == 0
  {
  }

  lemma FourBytes(a: Byte, b: Byte, c: Byte, d: Byte)
    ensures FromLe([a, b, c, d]) == a + 0x100 * b + 0x1_0000 * c + 0x100_0000 * d
    ensures ToLe(FromLe([a, b, c, d]), 4) == [a, b, c, d]
  {
    LeUnique([a, b, c, d]);
    FirstByte([a, b, c, d]);
    FirstByte([b, c, d]);
    FirstByte([c, d]);
    FirstByte([d]);
    hide FromLe;
    assert [a, b, c, d][1..] == [b, c, d] && [b, c, d][1..] == [c, d] && [c, d][1..] == [d] && [d][1..] == [];
  }

  lemma AbsoluteBytes(code: seq<Byte>)
    requires FORM_SIZE <= |code|
    ensures ToLe(FromLe(code[4..8]), 4) == code[4..8] && FromLe(code[4..8]) < 2 * I32_LIMIT
  {
    Pow256Values();
    LeUnique(code[4..8]);
  }

  // Scanning patched code

  /** How a scan with the FS base the code was patched for classifies a site. */
  function Scanned(code: seq<Byte>, fsBase: U64): Option<seq<Byte>> {
    if Original(code).Some? then Original(code)
    else if fsBase != 0 then OriginalFromReplacement(code, fsBase)
    else None
  }

  /** What is written at a site: the replacement, or the original where there is none. */
  function Written(original: seq<Byte>, fsBase: U64): (r: seq<Byte>)
    requires |original| == FORM_SIZE
    ensures |r| == FORM_SIZE
  {
    var r := Replacement(original, fsBase);
    if r.Some? then r.value else original
  }

  /** Patching loses nothing: a rescan with the same FS base finds the original, whatever was written. */
  lemma RescanFindsOriginal(code: seq<Byte>, fsBase: U64, behind: seq<Byte>)
    requires Original(code).Some?
    ensures Scanned(Written(Original(code).value, fsBase) + behind, fsBase) == Original(code)
  {
    hide FromI32, ToI32, ToLe, FromLe;
    var o := Original(code).value;
    var patched := Written(o, fsBase) + behind;
    assert patched[..FORM_SIZE] == Written(o, fsBase);
    if Replacement(o, fsBase).Some? {
      var r := Replacement(o, fsBase).value;
      ReplacementParts(o, fsBase);
      RewriteIsUndone(code, fsBase);
      assert patched[4..8] == r[4..8] && patched[0..4] == r[0..4] && patched[8] == r[8];
      assert patched[0] == r[0] && patched[1] == r[1] && patched[2] == r[2] && patched[3] == r[3];
    }
  }

  // Which instructions are rewritten

  /** mov or sub of a 64-bit register and the quadword at FS plus a displacement, in the assembler's nine bytes. */
  predicate FsForm(code: seq<Byte>, subtract: bool, extension: nat, register: nat, displacement: int) {
    && extension < 8 && register < 8 && -0x8000_0000 <= displacement < 0x8000_0000
    && code == [0x64, 0x48 + extension, if subtract then 0x2b else 0x8b, 8 * register + 4, 0x25]
               + ToLe(displacement % 0x1_0000_0000, 4)
  }

  /** The same of the quadword at an absolute address, eight bytes, and a NOP. */
  predicate AbsoluteForm(code: seq<Byte>, subtract: bool, extension: nat, register: nat, address: nat) {
    && extension < 8 && register < 8 && address < 0x1_0000_0000
    && code == [0x48 + extension, if subtract then 0x2b else 0x8b, 8 * register + 4, 0x25] + ToLe(address, 4) + [0x90]
  }

  /** Exactly the loads and subtracts of that form are found, with every register and every displacement. */
  lemma FormsExactly(code: seq<Byte>)
    ensures Original(code).Some? <==>
              9 <= |code| && exists subtract, extension, register, displacement ::
                               FsForm(code[..9], subtract, extension, register, displacement)
  {
    hide ToLe, FromLe;
    if Original(code).Some? {
      var displacement := FromI32(code[5..9]);
      I32Unique(code[5..9]);
      assert code[..9] == [code[0], code[1], code[2], code[3], code[4]] + code[5..9];
      assert FsForm(code[..9], code[2] == 0x2b, code[1] - 0x48, code[3] / 8, displacement);
    }
    if subtract, extension, register, displacement
       :| 9 <= |code| && FsForm(code[..9], subtract, extension, register, displacement) {
      FormParts(code[..9], subtract, extension, register, displacement);
    }
  }

  lemma FormParts(code: seq<Byte>, subtract: bool, extension: nat, register: nat, displacement: int)
    requires FsForm(code, subtract, extension, register, displacement)
    ensures |code| == 9 && Original(code) == Some(code) && FromI32(code[5..9]) == displacement
    ensures code[1] == 0x48 + extension && code[2] == (if subtract then 0x2b else 0x8b) && code[3] == 8 * register + 4
  {
    hide ToLe, FromLe;
    assert ToI32(displacement) == ToLe(displacement % 0x1_0000_0000, 4);
    I32RoundTrip(displacement);
    assert code[5..9] == ToI32(displacement) && code[..9] == code;
  }

  /**
   In the assembler's terms: the FS form with that register and displacement becomes the absolute form of the same
   operation and register at the FS base plus the displacement, whenever that sum is a positive 32-bit address.
   */
  lemma RewritesAs(code: seq<Byte>, subtract: bool, extension: nat, register: nat, displacement: int, fsBase: U64)
    requires FsForm(code, subtract, extension, register, displacement)
    ensures Replacement(code, fsBase).Some? <==> 0 < fsBase && 0 <= fsBase + displacement < 0x8000_0000
    ensures Replacement(code, fsBase).Some? ==>
              AbsoluteForm(Replacement(code, fsBase).value, subtract, extension, register, fsBase + displacement)
  {
    FormParts(code, subtract, extension, register, displacement);
    ReplacementParts(code, fsBase);
    hide ToLe, FromLe, FromI32;
    if Replacement(code, fsBase).Some? {
      assert code[1..5] == [code[1], code[2], code[3], code[4]];
    }
  }

  /** What the form does: with REX.X, the second bit of the extension, r12 is added to the address. */
  lemma FormMeans(code: seq<Byte>, subtract: bool, extension: nat, register: nat, displacement: int, fsBase: U64,
                  r12: U64)
    requires FsForm(code, subtract, extension, register, displacement)
    ensures |code| == FORM_SIZE
    ensures Meaning(code, fsBase, r12) ==
            Some(Operation(0x48 + extension, if subtract then 0x2b else 0x8b, 8 * register + 4,
                           (fsBase + displacement + (if extension in {2, 3, 6, 7} then r12 else 0)) % U64_LIMIT))
  {
    FormParts(code, subtract, extension, register, displacement);
    hide FromLe, ToLe, FromI32, FsForm;
    assert HasIndex(0x48 + extension) <==> extension in {2, 3, 6, 7};
  }
}
