/**
 The initial process stack (crates/mcr-elf/src/stack.rs), as section 3.4 of the System V AMD64 psABI lays it
 out: strings at the top, then the argument count, the argv and envp pointers, and the auxiliary vector.
 */
module InitialStacks {
  import opened Ranges
  import opened Bytes
  import opened ElfPlans

  const AT_NULL: nat := 0
  const AT_PHDR: nat := 3
  const AT_PHENT: nat := 4
  const AT_PHNUM: nat := 5
  const AT_PAGESZ: nat := 6
  const AT_BASE: nat := 7
  const AT_FLAGS: nat := 8
  const AT_ENTRY: nat := 9
  const AT_UID: nat := 11
  const AT_EUID: nat := 12
  const AT_GID: nat := 13
  const AT_EGID: nat := 14
  const AT_PLATFORM: nat := 15
  const AT_HWCAP: nat := 16
  const AT_CLKTCK: nat := 17
  const AT_SECURE: nat := 23
  const AT_RANDOM: nat := 25
  const AT_HWCAP2: nat := 26
  const AT_EXECFN: nat := 31
  const AT_RANDOM_BYTES: nat := 16
  const CLOCK_TICKS: nat := 100

  datatype AuxEntry = AuxEntry(key: nat, value: nat)

  datatype StackConfig = StackConfig(
    stackTop: U64,
    stackSize: U64,
    executablePath: seq<Byte>,
    argv: seq<seq<Byte>>,
    envp: seq<seq<Byte>>,
    randomBytes: seq<Byte>,
    loadBias: U64,
    interpreterBase: U64,
    platform: seq<Byte>
  )

  datatype InitialStack = InitialStack(
    stackTop: nat,
    stackSize: nat,
    stackPointer: nat,
    bytes: seq<Byte>,
    argvAddresses: seq<nat>,
    envpAddresses: seq<nat>,
    pathAddress: nat,
    platformAddress: nat,
    randomAddress: nat,
    auxv: seq<AuxEntry>
  )

  datatype StackError =
    | MissingProgramHeaderAddress
    | InvalidStackSize
    | StackRangeUnderflow
    | StackLayoutOverflow
    | StackDataExceedsStack
    | RelocatedAddressOverflow
    | InteriorNul
    | EmptyPlatform

  // Placing bytes downwards

  datatype Placed = Placed(address: nat, data: seq<Byte>)

  ghost predicate Abuts(placed: seq<Placed>, top: nat, j: nat)
    requires j < |placed|
  {
    placed[j].address + |placed[j].data| == if j == 0 then top else placed[j - 1].address
  }

  /** Items placed without gaps from `top` down to `cursor`. */
  ghost predicate Stacked(placed: seq<Placed>, top: nat, cursor: nat) {
    && (forall j: nat :: j < |placed| ==> Abuts(placed, top, j))
    && cursor == if placed == [] then top else placed[|placed| - 1].address
  }

  /** Items never overlap: each lies below all earlier ones, between the cursor and the top. */
  lemma {:induction false} StackedDescends(placed: seq<Placed>, top: nat, cursor: nat, i: nat, j: nat)
    requires Stacked(placed, top, cursor) && i <= j < |placed|
    ensures cursor <= placed[j].address <= placed[i].address && placed[i].address + |placed[i].data| <= top
    ensures i < j ==> placed[j].address + |placed[j].data| <= placed[i].address
  {
    FromTop(placed, top, cursor, i);
    ToCursor(placed, top, cursor, j);
    Between(placed, top, cursor, i, j);
  }

  lemma {:induction false} FromTop(placed: seq<Placed>, top: nat, cursor: nat, i: nat)
    requires Stacked(placed, top, cursor) && i < |placed|
    ensures placed[i].address + |placed[i].data| <= top
    decreases i
  {
    assert Abuts(placed, top, i);
    if i > 0 {
      FromTop(placed, top, cursor, i - 1);
    }
  }

  lemma {:induction false} ToCursor(placed: seq<Placed>, top: nat, cursor: nat, j: nat)
    requires Stacked(placed, top, cursor) && j < |placed|
    ensures cursor <= placed[j].address
    decreases |placed| - j
  {
    if j + 1 < |placed| {
      assert Abuts(placed, top, j + 1);
      ToCursor(placed, top, cursor, j + 1);
    }
  }

  lemma {:induction false} Between(placed: seq<Placed>, top: nat, cursor: nat, i: nat, j: nat)
    requires Stacked(placed, top, cursor) && i <= j < |placed|
    ensures placed[j].address <= placed[i].address
    ensures i < j ==> placed[j].address + |placed[j].data| <= placed[i].address
    decreases j - i
  {
    if i < j {
      assert Abuts(placed, top, j);
      Between(placed, top, cursor, i, j - 1);
    }
  }

  lemma StackedGrows(placed: seq<Placed>, top: nat, cursor: nat, item: Placed)
    requires Stacked(placed, top, cursor) && item.address + |item.data| == cursor
    ensures Stacked(placed + [item], top, item.address)
  {
    var longer := placed + [item];
    forall j: nat | j < |longer|
      ensures Abuts(longer, top, j)
    {
      if j < |placed| {
        assert Abuts(placed, top, j);
      }
    }
  }

  function CString(s: seq<Byte>): seq<Byte> {
    s + [0]
  }

  function TotalSize(strings: seq<seq<Byte>>): nat {
    if strings == [] then 0 else |strings[0]| + 1 + TotalSize(strings[1..])
  }

  /** `strings[i]` lies NUL-terminated at `addresses[i]`. */
  ghost predicate AllPlaced(placed: seq<Placed>, addresses: seq<nat>, strings: seq<seq<Byte>>) {
    |addresses| == |strings| && forall i :: 0 <= i < |strings| ==> Placed(addresses[i], CString(strings[i])) in placed
  }

  /** The strings lie one behind the other, without overlap or gap, from `lo` up to `hi`. */
  ghost predicate Consecutive(addresses: seq<nat>, strings: seq<seq<Byte>>, lo: nat, hi: nat) {
    |addresses| == |strings| &&
    if strings == [] then lo == hi
    else addresses[0] == lo && Consecutive(addresses[1..], strings[1..], lo + |strings[0]| + 1, hi)
  }

  method PlaceCString(cursor: nat, placed: seq<Placed>, s: seq<Byte>, ghost top: nat)
    returns (ok: bool, cursor': nat, placed': seq<Placed>)
    requires Stacked(placed, top, cursor)
    ensures ok <==> |s| + 1 <= cursor
    ensures ok ==> cursor' == cursor - (|s| + 1) && placed' == placed + [Placed(cursor', CString(s))]
                   && Stacked(placed', top, cursor')
  {
    if |s| + 1 > cursor {
      return false, cursor, placed;
    }
    cursor' := cursor - (|s| + 1);
    placed' := placed + [Placed(cursor', CString(s))];
    StackedGrows(placed, top, cursor, placed'[|placed|]);
    ok := true;
  }

  /** Places the last string first, so that addresses ascend with the index. */
  method PlaceCStrings(cursor: nat, placed: seq<Placed>, strings: seq<seq<Byte>>, ghost top: nat)
    returns (ok: bool, cursor': nat, placed': seq<Placed>, addresses: seq<nat>)
    requires Stacked(placed, top, cursor)
    ensures ok <==> TotalSize(strings) <= cursor
    ensures ok ==> cursor' == cursor - TotalSize(strings) && placed <= placed' && Stacked(placed', top, cursor')
                   && AllPlaced(placed', addresses, strings) && Consecutive(addresses, strings, cursor', cursor)
  {
    cursor', placed', addresses := cursor, placed, [];
    var i := |strings|;
    while i > 0
      invariant 0 <= i <= |strings| && TotalSize(strings[i..]) <= cursor && cursor' == cursor - TotalSize(strings[i..])
      invariant placed <= placed' && Stacked(placed', top, cursor') && AllPlaced(placed', addresses, strings[i..])
      invariant Consecutive(addresses, strings[i..], cursor', cursor)
    {
      i := i - 1;
      assert strings[i..][1..] == strings[i + 1..];
      SuffixSize(strings, i);
      ghost var before := placed';
      ok, cursor', placed' := PlaceCString(cursor', placed', strings[i], top);
      if !ok {
        return;
      }
      ghost var rest := addresses;
      addresses := [cursor'] + addresses;
      assert addresses[1..] == rest;
      assert placed'[|before|] == Placed(cursor', CString(strings[i]));
      forall n | 0 <= n < |strings[i..]|
        ensures Placed(addresses[n], CString(strings[i..][n])) in placed'
      {
        if n > 0 {
          assert Placed(addresses[n], CString(strings[i + 1..][n - 1])) in before;
        }
      }
    }
    assert strings[0..] == strings;
    ok := true;
  }

  lemma {:induction false} SuffixSize(strings: seq<seq<Byte>>, i: nat)
    requires i <= |strings|
    ensures TotalSize(strings[i..]) <= TotalSize(strings)
    decreases i
  {
    if i == 0 {
      assert strings[0..] == strings;
    } else {
      SuffixSize(strings, i - 1);
      assert strings[i - 1..][1..] == strings[i..];
    }
  }

  // The pointer area

  function EncodeWords(words: seq<nat>): (r: seq<Byte>)
    ensures |r| == 8 * |words|
  {
    if words == [] then [] else EncodeWords(words[..|words| - 1]) + ToLe(words[|words| - 1], 8)
  }

  lemma EncodedSize(words: seq<nat>)
    ensures |EncodeWords(words)| == 8 * |words|
  {
  }

  lemma EncodeAppend(words: seq<nat>, w: nat)
    ensures EncodeWords(words + [w]) == EncodeWords(words) + ToLe(w, 8)
  {
    assert (words + [w])[..|words|] == words;
  }

  /** Reading the k-th word back. */
  lemma {:induction false} WordAt(words: seq<nat>, k: nat)
    requires k < |words| && words[k] < U64_LIMIT
    ensures FromLe(EncodeWords(words)[8 * k..8 * k + 8]) == words[k]
    decreases |words|
  {
    var n := |words| - 1;
    if k < n {
      WordAt(words[..n], k);
      assert EncodeWords(words)[8 * k..8 * k + 8] == EncodeWords(words[..n])[8 * k..8 * k + 8];
    } else {
      assert EncodeWords(words)[8 * k..8 * k + 8] == ToLe(words[k], 8);
      Pow256Values();
      LeRoundTrip(words[k], 8);
    }
  }

  function AuxWords(auxv: seq<AuxEntry>): (r: seq<nat>)
    ensures |r| == 2 * |auxv|
    ensures forall i :: 0 <= i < |auxv| ==> r[2 * i] == auxv[i].key && r[2 * i + 1] == auxv[i].value
  {
    if auxv == [] then []
    else AuxWords(auxv[..|auxv| - 1]) + [auxv[|auxv| - 1].key, auxv[|auxv| - 1].value]
  }

  /** argc, argv, NULL, envp, NULL, auxv. */
  function PointerWords(argv: seq<nat>, envp: seq<nat>, auxv: seq<AuxEntry>): seq<nat> {
    [|argv|] + argv + [0] + envp + [0] + AuxWords(auxv)
  }

  method PushWords(bytes: seq<Byte>, words: seq<nat>, ghost before: seq<nat>) returns (r: seq<Byte>)
    requires bytes == EncodeWords(before)
    ensures r == EncodeWords(before + words)
  {
    hide EncodeWords, ToLe;
    r := bytes;
    assert before + words[..0] == before;
    for i := 0 to |words|
      invariant r == EncodeWords(before + words[..i])
    {
      EncodeAppend(before + words[..i], words[i]);
      assert before + words[..i + 1] == before + words[..i] + [words[i]];
      r := r + ToLe(words[i], 8);
    }
    assert words[..|words|] == words;
  }

  method PushAuxv(bytes: seq<Byte>, auxv: seq<AuxEntry>, ghost before: seq<nat>) returns (r: seq<Byte>)
    requires bytes == EncodeWords(before)
    ensures r == EncodeWords(before + AuxWords(auxv))
  {
    hide EncodeWords;
    r := bytes;
    assert before + AuxWords(auxv[..0]) == before;
    for i := 0 to |auxv|
      invariant r == EncodeWords(before + AuxWords(auxv[..i]))
    {
      r := PushWords(r, [auxv[i].key, auxv[i].value], before + AuxWords(auxv[..i]));
      AuxWordsStep(before, auxv, i);
    }
    assert auxv[..|auxv|] == auxv;
  }

  lemma AuxWordsStep(before: seq<nat>, auxv: seq<AuxEntry>, i: nat)
    requires i < |auxv|
    ensures before + AuxWords(auxv[..i + 1]) == before + AuxWords(auxv[..i]) + [auxv[i].key, auxv[i].value]
  {
    assert auxv[..i + 1][..i] == auxv[..i];
  }

  method BuildPointerArea(argv: seq<nat>, envp: seq<nat>, auxv: seq<AuxEntry>) returns (r: seq<Byte>)
    ensures r == EncodeWords(PointerWords(argv, envp, auxv))
  {
    hide EncodeWords, AuxWords;
    EmptyWords();
    r := PushWords([], [|argv|], []);
    assert [] + [|argv|] == [|argv|];
    r := PushWords(r, argv, [|argv|]);
    r := PushWords(r, [0], [|argv|] + argv);
    r := PushWords(r, envp, [|argv|] + argv + [0]);
    r := PushWords(r, [0], [|argv|] + argv + [0] + envp);
    r := PushAuxv(r, auxv, [|argv|] + argv + [0] + envp + [0]);
  }

  lemma EmptyWords()
    ensures EncodeWords([]) == []
  {
  }

  // Filling the stack

  /** `data` is what the stack holds at `address`. */
  ghost predicate StackHolds(bytes: seq<Byte>, stackPointer: nat, address: nat, data: seq<Byte>) {
    stackPointer <= address && address + |data| <= stackPointer + |bytes|
    && bytes[address - stackPointer..address - stackPointer + |data|] == data
  }

  method FillStack(stackPointer: nat, top: nat, area: seq<Byte>, placed: seq<Placed>, ghost cursor: nat)
    returns (bytes: seq<Byte>)
    requires Stacked(placed, top, cursor) && stackPointer + |area| <= cursor <= top
    ensures |bytes| == top - stackPointer && StackHolds(bytes, stackPointer, stackPointer, area)
    ensures forall j :: 0 <= j < |placed| ==> StackHolds(bytes, stackPointer, placed[j].address, placed[j].data)
  {
    bytes := Blit(Zeros(top - stackPointer), 0, area);
    for n := 0 to |placed|
      invariant |bytes| == top - stackPointer && StackHolds(bytes, stackPointer, stackPointer, area)
      invariant forall j :: 0 <= j < n ==> StackHolds(bytes, stackPointer, placed[j].address, placed[j].data)
    {
      StackedDescends(placed, top, cursor, n, n);
      ghost var before := bytes;
      bytes := Blit(bytes, placed[n].address - stackPointer, placed[n].data);
      BlitHolds(before, bytes, stackPointer, placed[n].address, placed[n].data);
      BlitKeeps(before, bytes, stackPointer, placed[n], stackPointer, area);
      forall j | 0 <= j < n
        ensures StackHolds(bytes, stackPointer, placed[j].address, placed[j].data)
      {
        StackedDescends(placed, top, cursor, j, n);
        BlitKeeps(before, bytes, stackPointer, placed[n], placed[j].address, placed[j].data);
      }
    }
  }

  lemma BlitHolds(before: seq<Byte>, after: seq<Byte>, sp: nat, address: nat, data: seq<Byte>)
    requires sp <= address && address - sp + |data| <= |before| && after == Blit(before, address - sp, data)
    ensures StackHolds(after, sp, address, data)
  {
  }

  lemma BlitKeeps(before: seq<Byte>, after: seq<Byte>, sp: nat, item: Placed, address: nat, data: seq<Byte>)
    requires sp <= item.address && item.address - sp + |item.data| <= |before|
    requires after == Blit(before, item.address - sp, item.data) && StackHolds(before, sp, address, data)
    requires address + |data| <= item.address || item.address + |item.data| <= address
    ensures StackHolds(after, sp, address, data)
  {
  }

  // The whole stack

  function ValidateConfig(config: StackConfig): (r: Option<StackError>)
    ensures r == None <==>
              && 0 < config.stackSize && config.platform != []
              && 0 !in config.executablePath && 0 !in config.platform
              && (forall s :: s in config.argv || s in config.envp ==> 0 !in s)
    ensures config.stackSize == 0 <==> r == Some(InvalidStackSize)
    ensures r == Some(EmptyPlatform) ==> config.platform == []
    ensures r.Some? && 0 < config.stackSize && config.platform != [] ==> r == Some(InteriorNul)
  {
    if config.stackSize == 0 then Some(InvalidStackSize)
    else if !NulFree(config.executablePath) then Some(InteriorNul)
    else if exists i :: 0 <= i < |config.argv| && !NulFree(config.argv[i]) then Some(InteriorNul)
    else if exists i :: 0 <= i < |config.envp| && !NulFree(config.envp[i]) then Some(InteriorNul)
    else if config.platform == [] then Some(EmptyPlatform)
    else if !NulFree(config.platform) then Some(InteriorNul)
    else None
  }

  function AlignDown16(value: nat): (r: nat)
    ensures r % 16 == 0 && r <= value < r + 16
  {
    value / 16 * 16
  }

  function Auxv(plan: LoadPlan, config: StackConfig, phdr: nat, path: nat, platform: nat,
                random: nat): (r: seq<AuxEntry>)
    ensures |r| == 19 && r[18] == AuxEntry(AT_NULL, 0) && forall i :: 0 <= i < 18 ==> r[i].key != AT_NULL
  {
    [ AuxEntry(AT_PHDR, phdr),
      AuxEntry(AT_PHENT, plan.programHeaders.entrySize),
      AuxEntry(AT_PHNUM, plan.programHeaders.entryCount),
      AuxEntry(AT_PAGESZ, PAGE_SIZE),
      AuxEntry(AT_BASE, config.interpreterBase),
      AuxEntry(AT_FLAGS, 0),
      AuxEntry(AT_ENTRY, plan.entrypoint + config.loadBias),
      AuxEntry(AT_UID, 0),
      AuxEntry(AT_EUID, 0),
      AuxEntry(AT_GID, 0),
      AuxEntry(AT_EGID, 0),
      AuxEntry(AT_HWCAP, 0),
      AuxEntry(AT_CLKTCK, CLOCK_TICKS),
      AuxEntry(AT_SECURE, 0),
      AuxEntry(AT_RANDOM, random),
      AuxEntry(AT_HWCAP2, 0),
      AuxEntry(AT_EXECFN, path),
      AuxEntry(AT_PLATFORM, platform),
      AuxEntry(AT_NULL, 0) ]
  }

  /** The bytes the strings and the random seed take. */
  function DataSize(config: StackConfig): nat {
    |config.executablePath| + 1 + (|config.platform| + 1) + TotalSize(config.envp) + TotalSize(config.argv)
        + AT_RANDOM_BYTES
  }

  function WordCount(config: StackConfig): nat {
    1 + |config.argv| + 1 + |config.envp| + 1 + 2 * 19
  }

  /** Exactly the configurations a stack is built for. */
  ghost predicate Accepts(plan: LoadPlan, config: StackConfig) {
    && ValidateConfig(config) == None
    && plan.programHeaders.virtualAddress.Some?
    && plan.programHeaders.virtualAddress.value + config.loadBias < U64_LIMIT
    && plan.entrypoint + config.loadBias < U64_LIMIT
    && config.stackSize <= config.stackTop
    && DataSize(config) <= config.stackTop
    && 8 * WordCount(config) <= AlignDown16(config.stackTop - DataSize(config))
    && config.stackTop - config.stackSize
       <= AlignDown16(AlignDown16(config.stackTop - DataSize(config)) - 8 * WordCount(config))
  }

  /** The k-th 8-byte word from the stack pointer up. */
  ghost function Word(stack: InitialStack, k: nat): nat
    requires 8 * k + 8 <= |stack.bytes|
  {
    FromLe(stack.bytes[8 * k..8 * k + 8])
  }

  /** Random seed, argv, envp, platform and path follow each other up to the top of the stack. */
  ghost predicate WithoutOverlap(config: StackConfig, argv: seq<nat>, envp: seq<nat>, path: nat, platform: nat,
                                 random: nat) {
    && TotalSize(config.envp) <= platform
    && Consecutive(argv, config.argv, random + AT_RANDOM_BYTES, platform - TotalSize(config.envp))
    && Consecutive(envp, config.envp, platform - TotalSize(config.envp), platform)
    && platform + |config.platform| + 1 == path
    && path + |config.executablePath| + 1 == config.stackTop
  }

  /** What a program finds on its initial stack. */
  ghost predicate StackImage(plan: LoadPlan, config: StackConfig, stack: InitialStack) {
    var words := PointerWords(stack.argvAddresses, stack.envpAddresses, stack.auxv);
    // where it is
    && stack.stackPointer % 16 == 0
    && stack.stackTop == config.stackTop && stack.stackSize == config.stackSize
    && config.stackTop - config.stackSize <= stack.stackPointer
    && stack.stackPointer + |stack.bytes| == config.stackTop
    // the words: argc, argv, NULL, envp, NULL, auxv up to AT_NULL
    && 8 * |words| <= |stack.bytes|
    && (forall k :: 0 <= k < |words| ==> Word(stack, k) == words[k])
    && |stack.argvAddresses| == |config.argv| && |stack.envpAddresses| == |config.envp|
    && plan.programHeaders.virtualAddress.Some?
    && stack.auxv == Auxv(plan, config, plan.programHeaders.virtualAddress.value + config.loadBias,
                          stack.pathAddress, stack.platformAddress, stack.randomAddress)
    // what the pointers point to
    && (forall i :: 0 <= i < |config.argv| ==>
          StackHolds(stack.bytes, stack.stackPointer, stack.argvAddresses[i], CString(config.argv[i])))
    && (forall i :: 0 <= i < |config.envp| ==>
          StackHolds(stack.bytes, stack.stackPointer, stack.envpAddresses[i], CString(config.envp[i])))
    && StackHolds(stack.bytes, stack.stackPointer, stack.pathAddress, CString(config.executablePath))
    && StackHolds(stack.bytes, stack.stackPointer, stack.platformAddress, CString(config.platform))
    && StackHolds(stack.bytes, stack.stackPointer, stack.randomAddress, config.randomBytes)
    // and none of it overlaps
    && stack.stackPointer + 8 * |words| <= stack.randomAddress
    && WithoutOverlap(config, stack.argvAddresses, stack.envpAddresses, stack.pathAddress, stack.platformAddress,
                      stack.randomAddress)
  }

  // What a program finds when it walks the words

  const AUX_ENTRIES: nat := 18  // before AT_NULL

  /** The word the auxiliary vector begins at. */
  function AuxStart(config: StackConfig): nat {
    1 + |config.argv| + 1 + |config.envp| + 1
  }

  ghost predicate HasAllWords(config: StackConfig, stack: InitialStack) {
    8 * (AuxStart(config) + 2 * (AUX_ENTRIES + 1)) <= |stack.bytes|
  }

  ghost function AuxKey(config: StackConfig, stack: InitialStack, j: nat): nat
    requires HasAllWords(config, stack) && j <= AUX_ENTRIES
  {
    Word(stack, AuxStart(config) + 2 * j)
  }

  ghost function AuxValue(config: StackConfig, stack: InitialStack, j: nat): nat
    requires HasAllWords(config, stack) && j <= AUX_ENTRIES
  {
    Word(stack, AuxStart(config) + 2 * j + 1)
  }

  /** The vector has that key with that value. */
  ghost predicate AuxGives(config: StackConfig, stack: InitialStack, key: nat, value: nat)
    requires HasAllWords(config, stack)
  {
    exists j: nat :: j < AUX_ENTRIES && AuxKey(config, stack, j) == key && AuxValue(config, stack, j) == value
  }

  /** The vector has that key, and its value is the address of those bytes. */
  ghost predicate AuxLeadsTo(config: StackConfig, stack: InitialStack, key: nat, data: seq<Byte>)
    requires HasAllWords(config, stack)
  {
    exists j: nat :: j < AUX_ENTRIES && AuxKey(config, stack, j) == key
                     && StackHolds(stack.bytes, stack.stackPointer, AuxValue(config, stack, j), data)
  }

  /** The auxiliary vector has each key once, and ends with AT_NULL. */
  ghost predicate KeysFound(config: StackConfig, stack: InitialStack)
    requires HasAllWords(config, stack)
  {
    && (forall i: nat, j: nat :: i < j <= AUX_ENTRIES ==> AuxKey(config, stack, i) != AuxKey(config, stack, j))
    && AuxKey(config, stack, AUX_ENTRIES) == 0 && AuxValue(config, stack, AUX_ENTRIES) == 0
  }

  /** Its values, by the numbers of the psABI (figure 3.11) and of Linux. */
  ghost predicate ValuesFound(plan: LoadPlan, config: StackConfig, stack: InitialStack)
    requires HasAllWords(config, stack) && plan.programHeaders.virtualAddress.Some?
  {
    && AuxGives(config, stack, 3, plan.programHeaders.virtualAddress.value + config.loadBias)
    && AuxGives(config, stack, 4, plan.programHeaders.entrySize)
    && AuxGives(config, stack, 5, plan.programHeaders.entryCount)
    && AuxGives(config, stack, 6, 4096)
    && AuxGives(config, stack, 7, config.interpreterBase)
    && AuxGives(config, stack, 9, plan.entrypoint + config.loadBias)
    && AuxGives(config, stack, 17, 100)
    && (forall key :: key in {8, 11, 12, 13, 14, 16, 23, 26} ==> AuxGives(config, stack, key, 0))
    && AuxLeadsTo(config, stack, 15, config.platform + [0])
    && AuxLeadsTo(config, stack, 25, config.randomBytes)
    && AuxLeadsTo(config, stack, 31, config.executablePath + [0])
  }

  /** The argument count, and behind it the arguments, the environment and the auxiliary vector. */
  ghost predicate ProcessFinds(plan: LoadPlan, config: StackConfig, stack: InitialStack) {
    var argc, envc := |config.argv|, |config.envp|;
    && HasAllWords(config, stack) && plan.programHeaders.virtualAddress.Some?
    && Word(stack, 0) == argc && Word(stack, 1 + argc) == 0 && Word(stack, 2 + argc + envc) == 0
    && (forall i :: 0 <= i < argc ==>
          StackHolds(stack.bytes, stack.stackPointer, Word(stack, 1 + i), config.argv[i] + [0]))
    && (forall i :: 0 <= i < envc ==>
          StackHolds(stack.bytes, stack.stackPointer, Word(stack, 2 + argc + i), config.envp[i] + [0]))
    && KeysFound(config, stack) && ValuesFound(plan, config, stack)
  }

  /** Where the parts of the pointer area lie. */
  lemma PointerWordsAt(argv: seq<nat>, envp: seq<nat>, auxv: seq<AuxEntry>)
    ensures var words, argc, envc := PointerWords(argv, envp, auxv), |argv|, |envp|;
            && |words| == 3 + argc + envc + 2 * |auxv|
            && words[0] == argc && words[1 + argc] == 0 && words[2 + argc + envc] == 0
            && (forall i :: 0 <= i < argc ==> words[1 + i] == argv[i])
            && (forall i :: 0 <= i < envc ==> words[2 + argc + i] == envp[i])
            && forall j :: 0 <= j < |auxv| ==>
                 words[3 + argc + envc + 2 * j] == auxv[j].key && words[3 + argc + envc + 2 * j + 1] == auxv[j].value
  {
    hide AuxWords;
  }

  lemma PointerCount(argv: seq<nat>, envp: seq<nat>, auxv: seq<AuxEntry>)
    ensures |PointerWords(argv, envp, auxv)| == 3 + |argv| + |envp| + 2 * |auxv|
  {
  }

  lemma AuxWordsFound(plan: LoadPlan, config: StackConfig, stack: InitialStack, j: nat)
    requires StackImage(plan, config, stack) && j <= AUX_ENTRIES
    ensures HasAllWords(config, stack)
    ensures AuxKey(config, stack, j) == stack.auxv[j].key && AuxValue(config, stack, j) == stack.auxv[j].value
  {
    hide StackHolds, WithoutOverlap, FromLe, Auxv, AuxWords, PointerWords;
    PointerWordsAt(stack.argvAddresses, stack.envpAddresses, stack.auxv);
  }

  /** One entry with a plain value, and one with an address. */
  lemma EntryFound(plan: LoadPlan, config: StackConfig, stack: InitialStack, j: nat, key: nat, value: nat)
    requires StackImage(plan, config, stack) && j < AUX_ENTRIES && stack.auxv[j] == AuxEntry(key, value)
    ensures HasAllWords(config, stack) && AuxGives(config, stack, key, value)
    ensures forall data :: StackHolds(stack.bytes, stack.stackPointer, value, data) ==>
              AuxLeadsTo(config, stack, key, data)
  {
    hide StackImage, StackHolds, AuxKey, AuxValue, HasAllWords;
    AuxWordsFound(plan, config, stack, j);
  }

  lemma KeysOnce(plan: LoadPlan, config: StackConfig, phdr: nat, path: nat, platform: nat, random: nat)
    ensures var auxv := Auxv(plan, config, phdr, path, platform, random);
            forall i, j :: 0 <= i < j < |auxv| ==> auxv[i].key != auxv[j].key
  {
  }

  lemma KeysAreFound(plan: LoadPlan, config: StackConfig, stack: InitialStack)
    requires StackImage(plan, config, stack)
    ensures HasAllWords(config, stack) && KeysFound(config, stack)
  {
    hide StackHolds, WithoutOverlap, Word, PointerWords, AuxKey, AuxValue, HasAllWords, Auxv;
    forall j: nat | j <= AUX_ENTRIES
      ensures HasAllWords(config, stack)
      ensures AuxKey(config, stack, j) == stack.auxv[j].key && AuxValue(config, stack, j) == stack.auxv[j].value
    {
      AuxWordsFound(plan, config, stack, j);
    }
    AuxWordsFound(plan, config, stack, AUX_ENTRIES);
    KeysOnce(plan, config, plan.programHeaders.virtualAddress.value + config.loadBias, stack.pathAddress,
             stack.platformAddress, stack.randomAddress);
  }

  lemma ValuesAreFound(plan: LoadPlan, config: StackConfig, stack: InitialStack)
    requires StackImage(plan, config, stack)
    ensures HasAllWords(config, stack) && ValuesFound(plan, config, stack)
  {
    hide StackHolds, WithoutOverlap, Word, PointerWords, AuxGives, AuxLeadsTo, HasAllWords;
    forall j: nat | j < AUX_ENTRIES
      ensures HasAllWords(config, stack) && AuxGives(config, stack, stack.auxv[j].key, stack.auxv[j].value)
      ensures forall data :: StackHolds(stack.bytes, stack.stackPointer, stack.auxv[j].value, data) ==>
                AuxLeadsTo(config, stack, stack.auxv[j].key, data)
    {
      EntryFound(plan, config, stack, j, stack.auxv[j].key, stack.auxv[j].value);
    }
    var v := stack.auxv;
    assert v[0].key == 3 && v[1].key == 4 && v[2].key == 5 && v[3].key == 6 && v[4].key == 7 && v[6].key == 9;
    assert v[5].key == 8 && v[7].key == 11 && v[8].key == 12 && v[9].key == 13 && v[10].key == 14 && v[11].key == 16;
    assert v[12].key == 17 && v[13].key == 23 && v[14].key == 25 && v[15].key == 26 && v[16].key == 31;
    assert v[17].key == 15;
  }

  /** Where the vector begins depends on the numbers of arguments and variables only. */
  lemma SameWords(given: StackConfig, config: StackConfig, stack: InitialStack, key: nat, value: nat)
    requires |given.argv| == |config.argv| && |given.envp| == |config.envp|
    requires HasAllWords(given, stack) && AuxGives(given, stack, key, value)
    ensures HasAllWords(config, stack) && AuxGives(config, stack, key, value)
  {
    hide Word;
    var j: nat :| j < AUX_ENTRIES && AuxKey(given, stack, j) == key && AuxValue(given, stack, j) == value;
    assert AuxKey(config, stack, j) == key && AuxValue(config, stack, j) == value;
  }

  /** The image the words were built from is what a program finds. */
  lemma ImageIsFound(plan: LoadPlan, config: StackConfig, stack: InitialStack)
    requires StackImage(plan, config, stack)
    ensures ProcessFinds(plan, config, stack)
  {
    hide StackHolds, WithoutOverlap, FromLe, Auxv, KeysFound, ValuesFound, PointerWords;
    KeysAreFound(plan, config, stack);
    ValuesAreFound(plan, config, stack);
    PointerWordsAt(stack.argvAddresses, stack.envpAddresses, stack.auxv);
  }

  method BuildInitialStack(plan: LoadPlan, config: StackConfig) returns (r: Result<InitialStack, StackError>)
    requires |config.randomBytes| == AT_RANDOM_BYTES
    requires plan.programHeaders.entrySize < 0x1_0000 && plan.programHeaders.entryCount < 0x1_0000
    ensures r.Ok? <==> Accepts(plan, config)
    ensures r.Ok? ==> StackImage(plan, config, r.value) && ProcessFinds(plan, config, r.value)
    ensures ValidateConfig(config).Some? ==> r == Err(ValidateConfig(config).value)
  {
    hide ValidateConfig, Stacked, EncodeWords, AuxWords, Auxv, StackHolds, WithoutOverlap, ProcessFinds, PointerWords;
    var invalid := ValidateConfig(config);
    if invalid.Some? {
      return Err(invalid.value);
    }
    if plan.programHeaders.virtualAddress.None? {
      return Err(MissingProgramHeaderAddress);
    }
    var phdr := plan.programHeaders.virtualAddress.value + config.loadBias;
    if phdr >= U64_LIMIT || plan.entrypoint + config.loadBias >= U64_LIMIT {
      return Err(RelocatedAddressOverflow);
    }
    if config.stackTop < config.stackSize {
      return Err(StackRangeUnderflow);
    }
    var data := PlaceData(config);
    if data.None? {
      return Err(StackLayoutOverflow);
    }
    var layout := data.value;
    var cursor := AlignDown16(layout.randomAddress);
    var auxv := Auxv(plan, config, phdr, layout.pathAddress, layout.platformAddress, layout.randomAddress);
    var area := BuildPointerArea(layout.argv, layout.envp, auxv);
    PointerCount(layout.argv, layout.envp, auxv);
    EncodedSize(PointerWords(layout.argv, layout.envp, auxv));
    if |area| > cursor {
      return Err(StackLayoutOverflow);
    }
    var stackPointer := AlignDown16(cursor - |area|);
    if stackPointer < config.stackTop - config.stackSize {
      return Err(StackDataExceedsStack);
    }
    FromTop(layout.placed, config.stackTop, layout.randomAddress, |layout.placed| - 1);
    var bytes := FillStack(stackPointer, config.stackTop, area, layout.placed, layout.randomAddress);
    var stack := InitialStack(config.stackTop, config.stackSize, stackPointer, bytes, layout.argv, layout.envp,
                              layout.pathAddress, layout.platformAddress, layout.randomAddress, auxv);
    TotalSizeCounts(config.argv);
    WordsAre64Bit(plan, config, layout, stack);
    ReadWordsBack(stack, PointerWords(layout.argv, layout.envp, auxv), area);
    ReadStringsBack(config, layout, stack);
    ImageIsFound(plan, config, stack);
    r := Ok(stack);
  }

  datatype Layout = Layout(placed: seq<Placed>, pathAddress: nat, platformAddress: nat, envp: seq<nat>, argv: seq<nat>,
                           randomAddress: nat)

  ghost predicate LaidOut(config: StackConfig, layout: Layout) {
    && Stacked(layout.placed, config.stackTop, layout.randomAddress)
    && layout.placed != [] && layout.randomAddress == config.stackTop - DataSize(config)
    && Placed(layout.pathAddress, CString(config.executablePath)) in layout.placed
    && Placed(layout.platformAddress, CString(config.platform)) in layout.placed
    && Placed(layout.randomAddress, config.randomBytes) in layout.placed
    && AllPlaced(layout.placed, layout.envp, config.envp)
    && AllPlaced(layout.placed, layout.argv, config.argv)
    && WithoutOverlap(config, layout.argv, layout.envp, layout.pathAddress, layout.platformAddress,
                      layout.randomAddress)
  }

  method PlaceData(config: StackConfig) returns (r: Option<Layout>)
    requires |config.randomBytes| == AT_RANDOM_BYTES
    ensures r.Some? <==> DataSize(config) <= config.stackTop
    ensures r.Some? ==> LaidOut(config, r.value)
  {
    ghost var top := config.stackTop;
    assert Stacked([], top, top);
    hide Stacked, Consecutive, TotalSize, AllPlaced;
    var ok, path, placed1 := PlaceCString(config.stackTop, [], config.executablePath, top);
    if !ok {
      return None;
    }
    var platform, placed2;
    ok, platform, placed2 := PlaceCString(path, placed1, config.platform, top);
    if !ok {
      return None;
    }
    var cursor, placed3, envp;
    ok, cursor, placed3, envp := PlaceCStrings(platform, placed2, config.envp, top);
    if !ok {
      return None;
    }
    var placed4, argv;
    ok, cursor, placed4, argv := PlaceCStrings(cursor, placed3, config.argv, top);
    if !ok || cursor < AT_RANDOM_BYTES {
      return None;
    }
    var random := cursor - AT_RANDOM_BYTES;
    var placed := placed4 + [Placed(random, config.randomBytes)];
    assert placed1[0] == Placed(path, CString(config.executablePath))
           && placed2[1] == Placed(platform, CString(config.platform));
    assert placed[0] == placed1[0] && placed[1] == placed2[1]
           && placed[|placed4|] == Placed(random, config.randomBytes);
    StackedGrows(placed4, top, cursor, Placed(random, config.randomBytes));
    PlacedPrefix(placed3, placed, envp, config.envp);
    PlacedPrefix(placed4, placed, argv, config.argv);
    r := Some(Layout(placed, path, platform, envp, argv, random));
  }

  lemma PlacedPrefix(before: seq<Placed>, after: seq<Placed>, addresses: seq<nat>, strings: seq<seq<Byte>>)
    requires before <= after && AllPlaced(before, addresses, strings)
    ensures AllPlaced(after, addresses, strings)
  {
    forall i | 0 <= i < |strings|
      ensures Placed(addresses[i], CString(strings[i])) in after
    {
      var j :| 0 <= j < |before| && before[j] == Placed(addresses[i], CString(strings[i]));
      assert after[j] == before[j];
    }
  }

  /** All placed addresses are 64-bit values below the top. */
  lemma PlacedBelowTop(config: StackConfig, layout: Layout, item: Placed)
    requires LaidOut(config, layout) && item in layout.placed
    ensures item.address + |item.data| <= config.stackTop
  {
    var j :| 0 <= j < |layout.placed| && layout.placed[j] == item;
    FromTop(layout.placed, config.stackTop, layout.randomAddress, j);
  }

  /** The pointer area reads back word by word. */
  lemma ReadWordsBack(stack: InitialStack, words: seq<nat>, area: seq<Byte>)
    requires area == EncodeWords(words) && forall w :: w in words ==> w < U64_LIMIT
    requires StackHolds(stack.bytes, stack.stackPointer, stack.stackPointer, area)
    ensures 8 * |words| <= |stack.bytes| && forall k :: 0 <= k < |words| ==> Word(stack, k) == words[k]
  {
    hide EncodeWords, FromLe;
    EncodedSize(words);
    assert stack.bytes[..|area|] == area;
    forall k | 0 <= k < |words|
      ensures Word(stack, k) == words[k]
    {
      assert words[k] in words;
      WordAt(words, k);
      assert stack.bytes[8 * k..8 * k + 8] == area[8 * k..8 * k + 8];
    }
  }

  lemma {:induction false} TotalSizeCounts(strings: seq<seq<Byte>>)
    ensures |strings| <= TotalSize(strings)
  {
    if strings != [] {
      TotalSizeCounts(strings[1..]);
    }
  }

  lemma WordsAre64Bit(plan: LoadPlan, config: StackConfig, layout: Layout, stack: InitialStack)
    requires LaidOut(config, layout) && |config.argv| < U64_LIMIT
    requires stack.argvAddresses == layout.argv && stack.envpAddresses == layout.envp
    requires stack.pathAddress == layout.pathAddress && stack.platformAddress == layout.platformAddress
    requires stack.randomAddress == layout.randomAddress
    requires plan.programHeaders.virtualAddress.Some?
             && plan.programHeaders.virtualAddress.value + config.loadBias < U64_LIMIT
    requires plan.entrypoint + config.loadBias < U64_LIMIT
    requires plan.programHeaders.entrySize < 0x1_0000 && plan.programHeaders.entryCount < 0x1_0000
    requires stack.auxv == Auxv(plan, config, plan.programHeaders.virtualAddress.value + config.loadBias,
                                stack.pathAddress, stack.platformAddress, stack.randomAddress)
    ensures forall w :: w in PointerWords(stack.argvAddresses, stack.envpAddresses, stack.auxv) ==> w < U64_LIMIT
  {
    hide Stacked, AuxWords;
    PlacedBelowTop(config, layout, Placed(layout.pathAddress, CString(config.executablePath)));
    PlacedBelowTop(config, layout, Placed(layout.platformAddress, CString(config.platform)));
    forall w | w in layout.argv
      ensures w < U64_LIMIT
    {
      var i :| 0 <= i < |layout.argv| && layout.argv[i] == w;
      PlacedBelowTop(config, layout, Placed(w, CString(config.argv[i])));
    }
    forall w | w in layout.envp
      ensures w < U64_LIMIT
    {
      var i :| 0 <= i < |layout.envp| && layout.envp[i] == w;
      PlacedBelowTop(config, layout, Placed(w, CString(config.envp[i])));
    }
    AuxWordsBelow(stack.auxv, U64_LIMIT);
  }

  lemma {:induction false} AuxWordsBelow(auxv: seq<AuxEntry>, limit: nat)
    requires forall i :: 0 <= i < |auxv| ==> auxv[i].key < limit && auxv[i].value < limit
    ensures forall w :: w in AuxWords(auxv) ==> w < limit
  {
    if auxv != [] {
      AuxWordsBelow(auxv[..|auxv| - 1], limit);
    }
  }

  lemma ReadStringsBack(config: StackConfig, layout: Layout, stack: InitialStack)
    requires LaidOut(config, layout)
    requires forall j :: 0 <= j < |layout.placed| ==>
               StackHolds(stack.bytes, stack.stackPointer, layout.placed[j].address, layout.placed[j].data)
    ensures forall i :: 0 <= i < |config.argv| ==>
              StackHolds(stack.bytes, stack.stackPointer, layout.argv[i], CString(config.argv[i]))
    ensures forall i :: 0 <= i < |config.envp| ==>
              StackHolds(stack.bytes, stack.stackPointer, layout.envp[i], CString(config.envp[i]))
    ensures StackHolds(stack.bytes, stack.stackPointer, layout.pathAddress, CString(config.executablePath))
    ensures StackHolds(stack.bytes, stack.stackPointer, layout.platformAddress, CString(config.platform))
    ensures StackHolds(stack.bytes, stack.stackPointer, layout.randomAddress, config.randomBytes)
  {
    assert forall item :: item in layout.placed ==>
           StackHolds(stack.bytes, stack.stackPointer, item.address, item.data);
  }
}
