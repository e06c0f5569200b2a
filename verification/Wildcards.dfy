/**
 The greedy wildcard matcher of ignore rules (crates/mcr-build/src/context.rs, `wildcard_matches`) against the
 recursive meaning of a pattern in which `*` stands for any text.
 */
module Wildcards {
  import opened Ranges

  /** The meaning of a pattern. */
  ghost predicate Glob(pattern: string, value: string)
    decreases pattern, 1
  {
    if pattern == "" then value == ""
    else if pattern[0] == '*' then exists k :: 0 <= k <= |value| && Glob(pattern[1..], value[k..])
    else value != "" && value[0] == pattern[0] && Glob(pattern[1..], value[1..])
  }

  predicate Plain(s: string) {
    '*' !in s
  }

  // Pieces of a pattern

  /** The pieces between the stars. */
  function Split(pattern: string): (parts: seq<string>)
    ensures parts != [] && forall i :: 0 <= i < |parts| ==> Plain(parts[i])
  {
    if pattern == "" then [""]
    else
      var rest := Split(pattern[1..]);
      if pattern[0] == '*' then [""] + rest else [[pattern[0]] + rest[0]] + rest[1..]
  }

  /** The pieces behind the first, each with the star before it. */
  function Tail(parts: seq<string>): string {
    if parts == [] then "" else "*" + parts[0] + Tail(parts[1..])
  }

  lemma {:induction false} SplitJoins(pattern: string)
    ensures Split(pattern)[0] + Tail(Split(pattern)[1..]) == pattern
  {
    if pattern != "" {
      var rest := Split(pattern[1..]);
      SplitJoins(pattern[1..]);
      if pattern[0] == '*' {
        assert Split(pattern)[1..] == rest;
        assert Tail(rest) == "*" + (rest[0] + Tail(rest[1..]));
        assert pattern == "*" + pattern[1..];
      } else {
        assert Split(pattern)[1..] == rest[1..];
        assert pattern == [pattern[0]] + pattern[1..];
      }
    }
  }

  lemma {:induction false} SplitStars(pattern: string)
    ensures |Split(pattern)| == 1 <==> Plain(pattern)
    ensures (pattern != "" && pattern[|pattern| - 1] == '*') <==> |Split(pattern)| > 1
                                                                  && Split(pattern)[|Split(pattern)| - 1] == ""
  {
    if pattern != "" {
      SplitStars(pattern[1..]);
      assert pattern == [pattern[0]] + pattern[1..];
    }
  }

  lemma {:induction false} TailAppend(parts: seq<string>, last: string)
    ensures Tail(parts + [last]) == Tail(parts) + "*" + last
  {
    if parts == [] {
      assert Tail([last]) == "*" + last + Tail([]);
    } else {
      TailAppend(parts[1..], last);
      assert (parts + [last])[1..] == parts[1..] + [last];
      assert Tail(parts + [last]) == "*" + parts[0] + (Tail(parts[1..]) + "*" + last);
    }
  }

  // Searching

  predicate OccursAt(s: string, part: string, i: nat) {
    i + |part| <= |s| && s[i..i + |part|] == part
  }

  lemma OccursBehind(s: string, part: string)
    requires s != ""
    ensures forall j: nat :: j > 0 && OccursAt(s, part, j) ==> OccursAt(s[1..], part, j - 1)
    ensures forall j: nat :: OccursAt(s[1..], part, j) ==> OccursAt(s, part, j + 1)
  {
    forall j: nat
      ensures OccursAt(s[1..], part, j) <==> OccursAt(s, part, j + 1)
    {
      if j + 1 + |part| <= |s| {
        assert s[1..][j..j + |part|] == s[j + 1..j + 1 + |part|];
      }
    }
    hide OccursAt;
    forall j: nat | j > 0 && OccursAt(s, part, j)
      ensures OccursAt(s[1..], part, j - 1)
    {
      assert j - 1 + 1 == j;
    }
  }

  /** The leftmost occurrence. */
  function Find(s: string, part: string): (r: Option<nat>)
    ensures r.Some? ==> OccursAt(s, part, r.value) && forall j: nat :: j < r.value ==> !OccursAt(s, part, j)
    ensures r.None? ==> forall j: nat :: !OccursAt(s, part, j)
  {
    if OccursAt(s, part, 0) then Some(0)
    else if s == "" then None
    else
      var rest := Find(s[1..], part);
      OccursBehind(s, part);
      if rest.None? then None else Some(rest.value + 1)
  }

  /** The greedy scan: each nonempty piece at its leftmost place, and what is left of the value. */
  function Scan(parts: seq<string>, value: string): Option<string> {
    if parts == [] then Some(value)
    else if parts[0] == "" then Scan(parts[1..], value)
    else
      var at := Find(value, parts[0]);
      if at.None? then None else Scan(parts[1..], value[at.value + |parts[0]|..])
  }

  predicate EndsWith(s: string, suffix: string) {
    |suffix| <= |s| && s[|s| - |suffix|..] == suffix
  }

  /** What the matcher answers. */
  function Accepts(pattern: string, value: string): bool {
    var parts := Split(pattern);
    if |parts| == 1 then pattern == value
    else if pattern == "*" then true
    else if !(parts[0] <= value) then false
    else
      var left := Scan(parts[1..], value[|parts[0]|..]);
      var last := parts[|parts| - 1];
      left.Some? && (last == "" || left.value == "" || EndsWith(left.value, last))
  }

  method WildcardMatches(pattern: string, value: string) returns (r: bool)
    ensures r == Accepts(pattern, value)
    ensures r ==> Glob(pattern, value)
    ensures Exact(pattern) ==> (r <==> Glob(pattern, value))
  {
    hide Glob, Scan, Exact, Find, Split, EndsWith;
    SplitStars(pattern);
    AcceptsMeans(pattern, value);
    if Plain(pattern) {
      return pattern == value;
    }
    if pattern == "*" {
      return true;
    }
    var parts := Split(pattern);
    if !(parts[0] <= value) {
      return false;
    }
    var remaining := value[|parts[0]|..];
    var lastPart := "";
    ghost var start := remaining;
    for i := 1 to |parts|
      invariant lastPart == (if i == 1 then "" else parts[i - 1])
      invariant Scan(parts[1..], start) == Scan(parts[i..], remaining)
    {
      ScanStep(parts[i..], remaining);
      assert parts[i..][1..] == parts[i + 1..];
      lastPart := parts[i];
      if lastPart == "" {
        continue;
      }
      var at := Find(remaining, lastPart);
      if at.None? {
        return false;
      }
      remaining := remaining[at.value + |lastPart|..];
    }
    assert parts[|parts|..] == [];
    ScanNothing(remaining);
    r := pattern[|pattern| - 1] == '*' || remaining == "" || EndsWith(remaining, lastPart);
  }

  lemma ScanNothing(value: string)
    ensures Scan([], value) == Some(value)
  {}

  lemma ScanStep(parts: seq<string>, value: string)
    requires parts != []
    ensures Scan(parts, value) ==
            if parts[0] == "" then Scan(parts[1..], value)
            else if Find(value, parts[0]).None? then None
            else Scan(parts[1..], value[Find(value, parts[0]).value + |parts[0]|..])
  {}

  // Globs

  /** A plain piece at the front must be there literally. */
  lemma {:induction false} GlobPlain(plain: string, rest: string, value: string)
    requires Plain(plain)
    ensures Glob(plain + rest, value) <==> plain <= value && Glob(rest, value[|plain|..])
  {
    if plain == "" {
      assert plain + rest == rest && value[0..] == value;
    } else {
      var pattern := plain + rest;
      assert pattern[0] == plain[0] && pattern[1..] == plain[1..] + rest;
      if value != "" && value[0] == plain[0] {
        GlobPlain(plain[1..], rest, value[1..]);
        assert plain == [plain[0]] + plain[1..] && value == [value[0]] + value[1..];
        assert plain[1..] <= value[1..] <==> plain <= value;
        if plain <= value {
          assert value[1..][|plain[1..]|..] == value[|plain|..];
        }
      }
    }
  }

  lemma GlobLiteral(plain: string, value: string)
    requires Plain(plain)
    ensures Glob(plain, value) <==> plain == value
  {
    GlobPlain(plain, "", value);
    assert plain + "" == plain;
  }

  lemma GlobStar(pattern: string, value: string)
    requires pattern != "" && pattern[0] == '*'
    ensures Glob(pattern, value) <==> exists k :: 0 <= k <= |value| && Glob(pattern[1..], value[k..])
  {}

  /** A star then a plain piece: the rest matches behind some occurrence. */
  lemma GlobPart(part: string, rest: string, value: string)
    requires Plain(part)
    ensures Glob("*" + part + rest, value) <==> exists k: nat :: OccursAt(value, part, k)
                                                                 && Glob(rest, value[k + |part|..])
  {
    hide Glob;
    var pattern := "*" + part + rest;
    assert pattern[1..] == part + rest;
    GlobStar(pattern, value);
    if Glob(pattern, value) {
      var k :| 0 <= k <= |value| && Glob(pattern[1..], value[k..]);
      GlobFrom(part, rest, value, k);
      assert OccursAt(value, part, k) && Glob(rest, value[k + |part|..]);
    }
    if k: nat :| OccursAt(value, part, k) && Glob(rest, value[k + |part|..]) {
      GlobFrom(part, rest, value, k);
      assert Glob(pattern[1..], value[k..]);
    }
  }

  lemma GlobFrom(part: string, rest: string, value: string, k: nat)
    requires Plain(part) && k <= |value|
    ensures Glob(part + rest, value[k..]) <==> OccursAt(value, part, k) && Glob(rest, value[k + |part|..])
  {
    hide Glob;
    GlobPlain(part, rest, value[k..]);
    if part <= value[k..] {
      assert value[k..][|part|..] == value[k + |part|..];
    }
  }

  /** A pattern that begins with a star may start matching earlier. */
  lemma GlobEarlier(pattern: string, value: string, from: nat)
    requires pattern != "" && pattern[0] == '*' && from <= |value| && Glob(pattern, value[from..])
    ensures Glob(pattern, value)
  {
    var k :| 0 <= k <= |value[from..]| && Glob(pattern[1..], value[from..][k..]);
    assert value[from..][k..] == value[from + k..];
  }

  /**
   The greedy scan is as good as any: the rest of a pattern matches what it leaves, exactly when the whole matches.
   */
  lemma {:induction false} ScanIsExact(parts: seq<string>, rest: string, value: string)
    requires (forall i :: 0 <= i < |parts| ==> Plain(parts[i])) && rest != "" && rest[0] == '*'
    ensures Glob(Tail(parts) + rest, value) <==> Scan(parts, value).Some? && Glob(rest, Scan(parts, value).value)
  {
    hide Glob, Tail, Find, Scan;
    if parts == [] {
      TailOfNothing(rest);
      ScanNothing(value);
    } else {
      var more := Tail(parts[1..]) + rest;
      TailStarts(parts[1..], rest);
      TailOpens(parts, rest);
      LeftmostIsBest(parts[0], more, value);
      ScanByFind(parts, value);
      var at := Find(value, parts[0]);
      if at.Some? {
        ScanIsExact(parts[1..], rest, value[at.value + |parts[0]|..]);
      }
    }
  }

  /** Taking the leftmost occurrence of a piece loses no match of a rest that begins with a star. */
  lemma LeftmostIsBest(part: string, more: string, value: string)
    requires Plain(part) && more != "" && more[0] == '*'
    ensures var at := Find(value, part);
            Glob("*" + part + more, value) <==> at.Some? && Glob(more, value[at.value + |part|..])
  {
    hide Glob, Find;
    GlobPart(part, more, value);
    var at := Find(value, part);
    if at.Some? {
      var left := value[at.value + |part|..];
      forall k: nat | OccursAt(value, part, k) && Glob(more, value[k + |part|..])
        ensures Glob(more, left)
      {
        assert left[k - at.value..] == value[k + |part|..];
        GlobEarlier(more, left, k - at.value);
      }
    }
  }

  /** Skipping an empty piece is finding it at once. */
  lemma ScanByFind(parts: seq<string>, value: string)
    requires parts != []
    ensures var at := Find(value, parts[0]);
            Scan(parts, value) == if at.None? then None else Scan(parts[1..], value[at.value + |parts[0]|..])
  {
    if parts[0] == "" {
      assert OccursAt(value, parts[0], 0);
      assert value[0 + |parts[0]|..] == value;
    }
  }

  lemma TailOfNothing(rest: string)
    ensures Tail([]) + rest == rest
  {}

  lemma TailOpens(parts: seq<string>, rest: string)
    requires parts != []
    ensures Tail(parts) + rest == "*" + parts[0] + (Tail(parts[1..]) + rest)
  {}

  lemma TailStarts(parts: seq<string>, rest: string)
    requires rest != "" && rest[0] == '*'
    ensures (Tail(parts) + rest)[0] == '*'
  {}

  lemma GlobSuffix(last: string, value: string)
    requires Plain(last)
    ensures Glob("*" + last, value) <==> EndsWith(value, last)
  {
    hide Glob;
    GlobPart(last, "", value);
    assert "*" + last + "" == "*" + last;
    forall k: nat | OccursAt(value, last, k)
      ensures Glob("", value[k + |last|..]) <==> k + |last| == |value|
    {
      GlobEmpty();
    }
    assert EndsWith(value, last) ==> OccursAt(value, last, |value| - |last|);
  }

  lemma GlobEmpty()
    ensures forall v: string :: Glob("", v) <==> v == ""
  {}

  // The matcher

  /** No proper beginning of the text is also its ending. */
  ghost predicate Unbordered(s: string) {
    forall k :: 0 < k < |s| ==> !Border(s, k)
  }

  ghost predicate Border(s: string, k: nat)
    requires k <= |s|
  {
    s[..k] == s[|s| - k..]
  }

  function Last(pattern: string): string {
    var parts := Split(pattern);
    parts[|parts| - 1]
  }

  /** The patterns the matcher decides correctly. */
  ghost predicate Exact(pattern: string) {
    Plain(pattern) || Unbordered(Last(pattern))
  }

  /** What matching means in terms of the scan of all pieces but the last. */
  lemma GlobByScan(pattern: string, value: string)
    requires !Plain(pattern)
    ensures var parts := Split(pattern);
            && |parts| > 1
            && (Glob(pattern, value) <==>
                && parts[0] <= value
                && var left := Scan(parts[1..|parts| - 1], value[|parts[0]|..]);
                   left.Some? && EndsWith(left.value, Last(pattern)))
  {
    hide Glob, Scan, Split, Tail, EndsWith;
    SplitStars(pattern);
    var parts := Split(pattern);
    var n := |parts| - 1;
    SplitJoins(pattern);
    assert parts[1..] == parts[1..n] + [parts[n]];
    TailAppend(parts[1..n], parts[n]);
    assert Tail(parts[1..]) == Tail(parts[1..n]) + ("*" + parts[n]);
    GlobPlain(parts[0], Tail(parts[1..]), value);
    if parts[0] <= value {
      var v := value[|parts[0]|..];
      ScanIsExact(parts[1..n], "*" + parts[n], v);
      if Scan(parts[1..n], v).Some? {
        GlobSuffix(parts[n], Scan(parts[1..n], v).value);
      }
    }
  }

  lemma {:induction false} ScanAppend(parts: seq<string>, last: string, value: string)
    ensures Scan(parts + [last], value) == if Scan(parts, value).None? then None
            else Scan([last], Scan(parts, value).value)
  {
    if parts != [] {
      assert (parts + [last])[1..] == parts[1..] + [last];
      if parts[0] == "" {
        ScanAppend(parts[1..], last, value);
      } else if Find(value, parts[0]).Some? {
        ScanAppend(parts[1..], last, value[Find(value, parts[0]).value + |parts[0]|..]);
      }
    } else {
      assert parts + [last] == [last];
    }
  }

  /** How the last piece is treated, once the others are placed. */
  predicate AcceptsEnd(left: string, last: string) {
    || last == ""
    || (&& Find(left, last).Some?
        && var rest := left[Find(left, last).value + |last|..];
           rest == "" || EndsWith(rest, last))
  }

  lemma AcceptsByScan(pattern: string, value: string)
    requires !Plain(pattern)
    ensures var parts := Split(pattern);
            && |parts| > 1
            && (Accepts(pattern, value) <==>
                && parts[0] <= value
                && var left := Scan(parts[1..|parts| - 1], value[|parts[0]|..]);
                   left.Some? && AcceptsEnd(left.value, Last(pattern)))
  {
    hide Scan, Split, Find, EndsWith;
    SplitStars(pattern);
    var parts := Split(pattern);
    var n := |parts| - 1;
    assert parts[1..] == parts[1..n] + [parts[n]];
    if pattern == "*" {
      StarAlone();
    } else if parts[0] <= value {
      var v := value[|parts[0]|..];
      ScanAppend(parts[1..n], parts[n], v);
      if Scan(parts[1..n], v).Some? {
        LastPiece(parts[n], Scan(parts[1..n], v).value);
      }
    }
  }

  lemma LastPiece(last: string, left: string)
    ensures AcceptsEnd(left, last) <==>
            var rest := Scan([last], left);
            rest.Some? && (last == "" || rest.value == "" || EndsWith(rest.value, last))
  {
    hide Find, EndsWith;
    ScanStep([last], left);
    ScanNothing(left);
    if Find(left, last).Some? {
      ScanNothing(left[Find(left, last).value + |last|..]);
    }
  }

  lemma StarAlone()
    ensures Split("*") == ["", ""] && forall v: string :: "" <= v && Scan([], v) == Some(v)
  {
    assert Split("") == [""];
    assert "*"[1..] == "";
  }

  lemma EndIsSound(left: string, last: string)
    requires AcceptsEnd(left, last)
    ensures EndsWith(left, last)
  {
    if last != "" {
      var at := Find(left, last).value;
      var rest := left[at + |last|..];
      if rest != "" {
        assert left[|left| - |last|..] == rest[|rest| - |last|..];
      } else {
        assert left[at..at + |last|] == left[|left| - |last|..];
      }
    }
  }

  /** A leftmost occurrence that is neither the last nor clear of it overlaps it, which takes a border. */
  lemma EndIsComplete(left: string, last: string)
    requires EndsWith(left, last) && Unbordered(last)
    ensures AcceptsEnd(left, last)
  {
    hide Unbordered;
    if last != "" {
      var end := |left| - |last|;
      assert OccursAt(left, last, end);
      var at := Find(left, last).value;
      assert at <= end;
      if at + |last| <= end {
        var rest := left[at + |last|..];
        assert rest[|rest| - |last|..] == left[end..];
      } else if at < end {
        OverlapIsBorder(left, last, at);
      }
    }
  }

  /** Two occurrences that overlap show a border. */
  lemma OverlapIsBorder(left: string, last: string, at: nat)
    requires EndsWith(left, last) && OccursAt(left, last, at) && at < |left| - |last| < at + |last|
    ensures !Unbordered(last)
  {
    var end := |left| - |last|;
    var k := at + |last| - end;
    assert last[..k] == left[end..at + |last|] by {
      assert left[end..][..k] == left[end..end + k];
    }
    assert last[|last| - k..] == left[end..at + |last|] by {
      assert left[at..at + |last|][|last| - k..] == left[end..at + |last|];
    }
    assert Border(last, k);
  }

  lemma AcceptsMeans(pattern: string, value: string)
    ensures Accepts(pattern, value) ==> Glob(pattern, value)
    ensures Exact(pattern) ==> (Accepts(pattern, value) <==> Glob(pattern, value))
  {
    hide Glob, Accepts, Scan, AcceptsEnd;
    SplitStars(pattern);
    if Plain(pattern) {
      GlobLiteral(pattern, value);
      PlainAccepts(pattern, value);
    } else {
      GlobByScan(pattern, value);
      AcceptsByScan(pattern, value);
      var parts := Split(pattern);
      if parts[0] <= value {
        var left := Scan(parts[1..|parts| - 1], value[|parts[0]|..]);
        if left.Some? && AcceptsEnd(left.value, Last(pattern)) {
          EndIsSound(left.value, Last(pattern));
        } else if left.Some? && EndsWith(left.value, Last(pattern)) && Unbordered(Last(pattern)) {
          EndIsComplete(left.value, Last(pattern));
        }
      }
    }
  }

  lemma PlainAccepts(pattern: string, value: string)
    requires Plain(pattern)
    ensures Accepts(pattern, value) <==> pattern == value
  {
    SplitStars(pattern);
  }

  // The patterns it gets wrong

  function Concat(parts: seq<string>): string {
    if parts == [] then "" else parts[0] + Concat(parts[1..])
  }

  lemma {:induction false} ScanConcat(parts: seq<string>, rest: string)
    ensures Scan(parts, Concat(parts) + rest) == Some(rest)
  {
    if parts == [] {
      assert Concat(parts) + rest == rest;
    } else {
      var value := Concat(parts) + rest;
      assert value == parts[0] + (Concat(parts[1..]) + rest);
      ScanConcat(parts[1..], rest);
      assert OccursAt(value, parts[0], 0);
      assert Find(value, parts[0]) == Some(0);
      assert value[|parts[0]|..] == Concat(parts[1..]) + rest;
    }
  }

  /** Overlapping two copies of a bordered ending is matched, but the matcher refuses it. */
  lemma OverlapIsRefused(last: string, k: nat)
    requires 0 < k < |last| && Border(last, k)
    ensures var w := last + last[k..]; EndsWith(w, last) && !AcceptsEnd(w, last)
  {
    var w := last + last[k..];
    assert w[|w| - |last|..] == last by {
      assert w == last[..|last| - k] + last[|last| - k..] + last[k..];
      assert last == last[..k] + last[k..];
    }
    assert OccursAt(w, last, 0);
    assert Find(w, last) == Some(0);
    assert w[|last|..] == last[k..];
  }

  /**
   The matcher agrees with the meaning on every value exactly for the patterns without a star and those whose last
   piece has no border; a pattern that ends in a star has an empty last piece.
   */
  lemma ExactPatterns(pattern: string)
    ensures Exact(pattern) <==> forall value: string :: Accepts(pattern, value) <==> Glob(pattern, value)
  {
    hide Glob, Accepts, Scan, AcceptsEnd, Concat;
    forall value: string
      ensures Exact(pattern) ==> (Accepts(pattern, value) <==> Glob(pattern, value))
    {
      AcceptsMeans(pattern, value);
    }
    if !Exact(pattern) {
      var last := Last(pattern);
      var k :| 0 < k < |last| && Border(last, k);
      var parts := Split(pattern);
      var w := last + last[k..];
      SplitStars(pattern);
      var middle := parts[1..|parts| - 1];
      var value := parts[0] + (Concat(middle) + w);
      assert parts[0] <= value && value[|parts[0]|..] == Concat(middle) + w;
      ScanConcat(middle, w);
      OverlapIsRefused(last, k);
      GlobByScan(pattern, value);
      AcceptsByScan(pattern, value);
      assert Glob(pattern, value) && !Accepts(pattern, value);
    }
  }
}
