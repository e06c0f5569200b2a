/**
 Package resolution for the Alpine root file system (scripts/materialize-alpine-rootfs.py): a worklist that closes
 the requested packages under dependencies, and a depth-first order that tolerates cycles.
 */
module ApkResolver {
  import opened Ranges

  datatype Package = Package(name: string, version: string, repo: string, depends: seq<string>, supplies: seq<string>)

  /** The package indexes: by package name, and by what packages provide. */
  datatype Index = Index(packages: map<string, Package>, providers: map<string, Package>)

  // Dependency names

  predicate IsSpace(c: char) {
    c == ' ' || ('\t' <= c && c <= '\r')
  }

  function StripLeft(s: string): string {
    if s != "" && IsSpace(s[0]) then StripLeft(s[1..]) else s
  }

  function StripRight(s: string): string {
    if s != "" && IsSpace(s[|s| - 1]) then StripRight(s[..|s| - 1]) else s
  }

  /** The part before the first version operator. */
  function Unversioned(s: string): string {
    if s == "" || s[0] in {'<', '>', '=', '~'} then "" else [s[0]] + Unversioned(s[1..])
  }

  function Normalize(value: string): string {
    var stripped := StripRight(StripLeft(value));
    Unversioned(if stripped != "" && stripped[0] == '!' then stripped[1..] else stripped)
  }

  predicate Ignored(dependency: string) {
    var normalized := Normalize(dependency);
    normalized == "" || (dependency != "" && dependency[0] == '!') || normalized[0] == '/'
  }

  // Plans

  function Names(plan: seq<Package>): set<string> {
    set i | 0 <= i < |plan| :: plan[i].name
  }

  function Provisions(p: Package): set<string> {
    {p.name} + set i | 0 <= i < |p.supplies| :: Normalize(p.supplies[i])
  }

  function Provided(plan: seq<Package>): set<string> {
    set i, n | 0 <= i < |plan| && n in Provisions(plan[i]) :: n
  }

  ghost predicate Distinct(plan: seq<Package>) {
    forall i, j :: 0 <= i < j < |plan| ==> plan[i].name != plan[j].name
  }

  function Lookup(index: Index, name: string): Option<Package> {
    if name in index.packages then Some(index.packages[name])
    else if name in index.providers then Some(index.providers[name])
    else None
  }

  function AllNames(index: Index): set<string> {
    (set k | k in index.packages :: index.packages[k].name) + (set k | k in index.providers :: index.providers[k].name)
  }

  lemma AnotherName(index: Index, plan: seq<Package>, name: string)
    requires Lookup(index, name).Some? && Lookup(index, name).value.name !in Names(plan)
    ensures |AllNames(index) - Names(plan + [Lookup(index, name).value])| < |AllNames(index) - Names(plan)|
    ensures Names(plan + [Lookup(index, name).value]) == Names(plan) + {Lookup(index, name).value.name}
  {
    var p := Lookup(index, name).value;
    NamesGrow(plan, p);
    FoundName(index, name);
    hide Names, AllNames, Lookup;
    var before, after := AllNames(index) - Names(plan), AllNames(index) - Names(plan + [p]);
    assert after == before - {p.name} && p.name in before;
  }

  lemma NamesGrow(plan: seq<Package>, p: Package)
    ensures Names(plan + [p]) == Names(plan) + {p.name}
  {
    var more := plan + [p];
    assert more[|plan|] == p;
    forall n | n in Names(plan)
      ensures n in Names(more)
    {
      var i :| 0 <= i < |plan| && plan[i].name == n;
      assert more[i].name == n;
    }
  }

  lemma FoundName(index: Index, name: string)
    requires Lookup(index, name).Some?
    ensures Lookup(index, name).value.name in AllNames(index)
  {}

  // The worklist

  predicate Settled(dependency: string, plan: seq<Package>, installed: set<string>) {
    var n := Normalize(dependency);
    Ignored(dependency) || n in installed || n in Provided(plan)
  }

  /** What the worklist computes from a queue and the packages planned so far. */
  function Closure(queue: seq<string>, plan: seq<Package>, index: Index, installed: set<string>): Option<seq<Package>>
    decreases |AllNames(index) - Names(plan)|, |queue|
  {
    if queue == [] then Some(plan)
    else if Settled(queue[0], plan, installed) then Closure(queue[1..], plan, index, installed)
    else
      var found := Lookup(index, Normalize(queue[0]));
      if found.None? then None
      else if found.value.name in Names(plan) then Closure(queue[1..], plan, index, installed)
      else
        AnotherName(index, plan, Normalize(queue[0]));
        Closure(queue[1..] + found.value.depends, plan + [found.value], index, installed)
  }

  lemma NamesProvided(plan: seq<Package>)
    ensures Names(plan) <= Provided(plan)
  {
    forall n | n in Names(plan)
      ensures n in Provided(plan)
    {
      var i :| 0 <= i < |plan| && plan[i].name == n;
      assert n in Provisions(plan[i]);
    }
  }

  lemma ProvidedGrows(plan: seq<Package>, p: Package)
    ensures Provided(plan + [p]) == Provided(plan) + Provisions(p)
  {
    var more := plan + [p];
    assert forall i :: 0 <= i < |plan| ==> more[i] == plan[i];
    assert more[|plan|] == p;
    forall n | n in Provided(plan)
      ensures n in Provided(more)
    {
      var i :| 0 <= i < |plan| && n in Provisions(plan[i]);
      assert n in Provisions(more[i]);
    }
  }

  method ResolveClosure(requests: seq<string>, index: Index, installed: set<string>) returns (r: Option<seq<Package>>)
    ensures r == Closure(requests, [], index, installed)
  {
    hide Closure, Provided, Names, Normalize, Lookup, Provisions, Ignored, AllNames;
    var plan: seq<Package> := [];
    var resolved: set<string> := {};
    var plannedProvides: set<string> := {};
    var queue := requests;
    NothingPlanned();
    while queue != []
      invariant resolved == Names(plan) && plannedProvides == Provided(plan)
      invariant Closure(queue, plan, index, installed) == Closure(requests, [], index, installed)
      decreases |AllNames(index) - Names(plan)|, |queue|
    {
      var requested := queue[0];
      ClosureStep(queue, plan, index, installed);
      queue := queue[1..];
      var normalized := Normalize(requested);
      NamesProvided(plan);
      if Ignored(requested) || normalized in installed || normalized in plannedProvides || normalized in resolved {
        continue;
      }
      var found := Lookup(index, normalized);
      if found.None? {
        return None;
      }
      var package := found.value;
      if package.name !in resolved {
        AnotherName(index, plan, normalized);
        ProvidedGrows(plan, package);
        plan := plan + [package];
        resolved := resolved + {package.name};
        plannedProvides := plannedProvides + Provisions(package);
        queue := queue + package.depends;
      }
    }
    ClosureEnds(plan, index, installed);
    r := Some(plan);
  }

  lemma NothingPlanned()
    ensures Names([]) == {} && Provided([]) == {}
  {}

  lemma ClosureEnds(plan: seq<Package>, index: Index, installed: set<string>)
    ensures Closure([], plan, index, installed) == Some(plan)
  {}

  lemma ClosureStep(queue: seq<string>, plan: seq<Package>, index: Index, installed: set<string>)
    requires queue != []
    ensures var found := Lookup(index, Normalize(queue[0]));
            Closure(queue, plan, index, installed) ==
            if Settled(queue[0], plan, installed) then Closure(queue[1..], plan, index, installed)
            else if found.None? then None
            else if found.value.name in Names(plan) then Closure(queue[1..], plan, index, installed)
            else Closure(queue[1..] + found.value.depends, plan + [found.value], index, installed)
  {}

  // What the plan satisfies

  /** A name some dependency that is not ignored normalizes to, and that the indexes know. */
  ghost predicate Findable(index: Index, n: string) {
    Usable(n) && Lookup(index, n).Some?
  }

  ghost predicate Usable(n: string) {
    exists d: string :: !Ignored(d) && Normalize(d) == n
  }

  ghost predicate Answers(index: Index, n: string, x: string)
    requires Lookup(index, n).Some? && Lookup(index, x).Some?
  {
    Lookup(index, n).value.name == Lookup(index, x).value.name ==> n in Provisions(Lookup(index, x).value)
  }

  /** Every name that leads to a package is provided by every record of that package that can be found. */
  ghost predicate Consistent(index: Index) {
    forall n: string, x: string :: Findable(index, n) && Findable(index, x) ==> Answers(index, n, x)
  }

  /** Every request and every dependency of a planned package is ignored, installed or provided by the plan. */
  ghost predicate Satisfied(requests: seq<string>, plan: seq<Package>, installed: set<string>) {
    && (forall i :: 0 <= i < |requests| ==> Settled(requests[i], plan, installed))
    && (forall p, d :: p in plan && d in p.depends ==> Settled(d, plan, installed))
  }

  /** The plan so far: distinct names, each record found in the indexes under a usable name. */
  ghost predicate Planned(plan: seq<Package>, index: Index) {
    && Distinct(plan)
    && forall i :: 0 <= i < |plan| ==> FoundIn(index, plan[i])
  }

  ghost predicate FoundIn(index: Index, p: Package) {
    exists x: string :: Findable(index, x) && Lookup(index, x) == Some(p)
  }

  /** Dependencies of planned packages are settled or still queued. */
  ghost predicate Pending(queue: seq<string>, plan: seq<Package>, installed: set<string>) {
    forall p, d :: p in plan && d in p.depends ==> Settled(d, plan, installed) || d in queue
  }

  /** With consistent indexes a dependency whose package is already planned is provided. */
  lemma PlannedProvides(dependency: string, plan: seq<Package>, index: Index, installed: set<string>)
    requires Consistent(index) && Planned(plan, index) && !Ignored(dependency)
    requires var found := Lookup(index, Normalize(dependency)); found.Some? && found.value.name in Names(plan)
    ensures Settled(dependency, plan, installed)
  {
    hide Ignored, Normalize, Lookup, Provisions;
    var n := Normalize(dependency);
    assert Usable(n);
    var i :| 0 <= i < |plan| && plan[i].name == Lookup(index, n).value.name;
    assert FoundIn(index, plan[i]);
    assert Findable(index, n);
    var x :| Findable(index, x) && Lookup(index, x) == Some(plan[i]);
    assert Answers(index, n, x);
    assert n in Provisions(plan[i]);
  }

  lemma SettledMore(dependency: string, plan: seq<Package>, more: seq<Package>, installed: set<string>)
    requires Settled(dependency, plan, installed) && Provided(plan) <= Provided(more)
    ensures Settled(dependency, more, installed)
  {
    hide Provided, Normalize, Ignored;
  }

  lemma PlannedGrows(plan: seq<Package>, index: Index, dependency: string)
    requires Planned(plan, index) && !Ignored(dependency)
    requires var found := Lookup(index, Normalize(dependency)); found.Some? && found.value.name !in Names(plan)
    ensures Planned(plan + [Lookup(index, Normalize(dependency)).value], index)
  {
    hide Ignored, Normalize, Lookup;
    assert Usable(Normalize(dependency));
    assert FoundIn(index, Lookup(index, Normalize(dependency)).value);
  }

  lemma PendingLess(queue: seq<string>, plan: seq<Package>, installed: set<string>)
    requires queue != [] && Pending(queue, plan, installed) && Settled(queue[0], plan, installed)
    ensures Pending(queue[1..], plan, installed)
  {
    hide Settled;
    assert queue == [queue[0]] + queue[1..];
  }

  lemma PendingGrows(queue: seq<string>, plan: seq<Package>, p: Package, installed: set<string>)
    requires queue != [] && Pending(queue, plan, installed) && Settled(queue[0], plan + [p], installed)
    ensures Pending(queue[1..] + p.depends, plan + [p], installed)
  {
    assert Provided(plan) <= Provided(plan + [p]) by { ProvidedGrows(plan, p); }
    hide Settled, Provided;
    assert queue == [queue[0]] + queue[1..];
    forall q, d | q in plan + [p] && d in q.depends
      ensures Settled(d, plan + [p], installed) || d in queue[1..] + p.depends
    {
      if q in plan && Settled(d, plan, installed) {
        SettledMore(d, plan, plan + [p], installed);
      }
    }
  }

  /**
   Every plan the worklist returns: what was planned stays, names stay distinct, and with consistent indexes all is
   satisfied.
   */
  lemma {:induction false} ClosureSatisfies(queue: seq<string>, plan: seq<Package>, index: Index,
                                            installed: set<string>)
    requires Planned(plan, index) && Closure(queue, plan, index, installed).Some?
    ensures var r := Closure(queue, plan, index, installed).value;
            && plan <= r && Planned(r, index) && Provided(plan) <= Provided(r)
            && (Consistent(index) && Pending(queue, plan, installed) ==> Satisfied(queue, r, installed))
    decreases |AllNames(index) - Names(plan)|, |queue|
  {
    hide Ignored, Normalize, Lookup, Provisions, Provided, Consistent, Names, AllNames, Closure, Planned;
    if queue == [] {
      ClosureEnds(plan, index, installed);
    } else {
      ClosureStep(queue, plan, index, installed);
      var found := Lookup(index, Normalize(queue[0]));
      var rest := queue[1..];
      assert queue == [queue[0]] + rest;
      if Settled(queue[0], plan, installed) || found.value.name in Names(plan) {
        if Consistent(index) {
          SettledNow(queue[0], plan, index, installed);
        }
        if Settled(queue[0], plan, installed) && Pending(queue, plan, installed) {
          PendingLess(queue, plan, installed);
        }
        ClosureSatisfies(rest, plan, index, installed);
        FirstSettled(queue, plan, Closure(queue, plan, index, installed).value, installed);
      } else {
        var p := found.value;
        AnotherName(index, plan, Normalize(queue[0]));
        ProvidedGrows(plan, p);
        NotSettled(queue[0], plan, installed);
        PlannedGrows(plan, index, queue[0]);
        if Consistent(index) {
          SettledNow(queue[0], plan + [p], index, installed);
        }
        if Settled(queue[0], plan + [p], installed) && Pending(queue, plan, installed) {
          PendingGrows(queue, plan, p, installed);
        }
        ClosureSatisfies(rest + p.depends, plan + [p], index, installed);
        var r := Closure(queue, plan, index, installed).value;
        if Satisfied(rest + p.depends, r, installed) {
          SatisfiedPart(rest, p.depends, r, installed);
        }
        FirstSettled(queue, plan + [p], r, installed);
      }
    }
  }

  lemma NotSettled(dependency: string, plan: seq<Package>, installed: set<string>)
    requires !Settled(dependency, plan, installed)
    ensures !Ignored(dependency)
  {}

  lemma SatisfiedPart(some: seq<string>, others: seq<string>, plan: seq<Package>, installed: set<string>)
    requires Satisfied(some + others, plan, installed)
    ensures Satisfied(some, plan, installed)
  {
    hide Settled;
    assert forall i :: 0 <= i < |some| ==> (some + others)[i] == some[i];
  }

  lemma FirstSettled(queue: seq<string>, plan: seq<Package>, r: seq<Package>, installed: set<string>)
    requires queue != [] && Provided(plan) <= Provided(r)
    ensures Settled(queue[0], plan, installed) && Satisfied(queue[1..], r, installed) ==> Satisfied(queue, r, installed)
  {
    if Settled(queue[0], plan, installed) {
      SettledMore(queue[0], plan, r, installed);
    }
    hide Settled, Provided;
    assert forall i :: 1 <= i < |queue| ==> queue[i] == queue[1..][i - 1];
  }

  /** With consistent indexes: once its package is planned, a dependency is settled. */
  lemma SettledNow(dependency: string, plan: seq<Package>, index: Index, installed: set<string>)
    requires Consistent(index) && Planned(plan, index)
    requires Settled(dependency, plan, installed)
             || (var found := Lookup(index, Normalize(dependency)); found.Some? && found.value.name in Names(plan))
    ensures Settled(dependency, plan, installed)
  {
    hide Lookup, Normalize, Consistent, Planned, Names, Provided, Ignored;
    if !Settled(dependency, plan, installed) {
      PlannedProvides(dependency, plan, index, installed);
    }
  }

  /**
   Exactly the consistent indexes are safe: with them every successful resolution satisfies all requests and
   dependencies, and without consistency some resolution succeeds and leaves a request unprovided.
   */
  lemma SafeExactlyWhenConsistent(index: Index)
    ensures Consistent(index) <==>
            forall requests, installed :: Closure(requests, [], index, installed).Some? ==>
              Satisfied(requests, Closure(requests, [], index, installed).value, installed)
  {
    hide Consistent, Satisfied, Closure;
    if Consistent(index) {
      forall requests, installed | Closure(requests, [], index, installed).Some?
        ensures Satisfied(requests, Closure(requests, [], index, installed).value, installed)
      {
        ClosureSatisfies(requests, [], index, installed);
      }
    } else {
      var requests, installed := UnprovidedRequest(index);
      assert !Satisfied(requests, Closure(requests, [], index, installed).value, installed);
    }
  }

  lemma UnprovidedRequest(index: Index) returns (requests: seq<string>, installed: set<string>)
    requires !Consistent(index)
    ensures Closure(requests, [], index, installed).Some?
    ensures !Satisfied(requests, Closure(requests, [], index, installed).value, installed)
  {
    hide Ignored, Normalize, Lookup, Provisions;
    var n, x :| Findable(index, n) && Findable(index, x) && !Answers(index, n, x);
    var dn: string :| !Ignored(dn) && Normalize(dn) == n;
    var dx: string :| !Ignored(dx) && Normalize(dx) == x;
    var q := Lookup(index, x).value;
    requests := [dx, dn];
    installed := (set i | 0 <= i < |q.depends| :: Normalize(q.depends[i])) - {n, x};
    PlanOne(q);
    var rest := [dn] + q.depends;
    assert requests[1..] + q.depends == rest;
    assert [] + [q] == [q];
    ClosureStep(requests, [], index, installed);
    forall i | 0 <= i < |rest|
      ensures Skipped(rest[i], [q], index, installed)
    {
      assert i > 0 ==> rest[i] == q.depends[i - 1];
    }
    AllSkipped(rest, [q], index, installed);
    hide Closure;
    assert !Settled(requests[1], [q], installed);
  }

  lemma PlanOne(q: Package)
    ensures Names([q]) == {q.name} && Provided([q]) == Provisions(q) && Names([]) == {} && Provided([]) == {}
  {
    assert [] + [q] == [q];
    NothingPlanned();
    NamesGrow([], q);
    ProvidedGrows([], q);
  }

  ghost predicate Skipped(dependency: string, plan: seq<Package>, index: Index, installed: set<string>) {
    || Settled(dependency, plan, installed)
    || (Lookup(index, Normalize(dependency)).Some? && Lookup(index, Normalize(dependency)).value.name in Names(plan))
  }

  lemma {:induction false} AllSkipped(queue: seq<string>, plan: seq<Package>, index: Index, installed: set<string>)
    requires forall i :: 0 <= i < |queue| ==> Skipped(queue[i], plan, index, installed)
    ensures Closure(queue, plan, index, installed) == Some(plan)
  {
    hide Settled, Lookup, Normalize, Names, Closure;
    if queue == [] {
      ClosureEnds(plan, index, installed);
    } else {
      assert Skipped(queue[0], plan, index, installed);
      ClosureStep(queue, plan, index, installed);
      AllSkipped(queue[1..], plan, index, installed);
    }
  }

  /** Indexes keyed by name and by true provisions, with one record per name, are consistent. */
  lemma KeyedIsConsistent(index: Index)
    requires forall n :: n in index.packages ==> index.packages[n].name == n
    requires forall n :: n in index.providers ==> n in Provisions(index.providers[n])
    requires forall n, x :: Lookup(index, n).Some? && Lookup(index, x).Some?
                             && Lookup(index, n).value.name == Lookup(index, x).value.name ==>
               Lookup(index, n) == Lookup(index, x)
    ensures Consistent(index)
  {
    forall n, x | Findable(index, n) && Findable(index, x)
      ensures Answers(index, n, x)
    {
      assert n in Provisions(Lookup(index, n).value);
    }
  }

  // What a dependency names

  ghost predicate Blank(s: string) {
    forall i :: 0 <= i < |s| ==> s[i] == ' ' || '\t' <= s[i] <= '\r'
  }

  predicate IsOperator(c: char) {
    c == '<' || c == '>' || c == '=' || c == '~'
  }

  /** A dependency without the blanks around it: a conflict mark or none, a name, and from an operator on a version. */
  ghost predicate Reads(core: string, conflict: bool, name: string, version: string) {
    && core == (if conflict then "!" else "") + name + version
    && (forall i :: 0 <= i < |name| ==> !IsOperator(name[i]))
    && (version != "" ==> IsOperator(version[0]))
    && (core != "" ==> !IsSpace(core[0]) && !IsSpace(core[|core| - 1]))
    && (!conflict && core != "" ==> core[0] != '!')
  }

  lemma {:induction false} LeftStripped(left: string, core: string)
    requires Blank(left) && (core != "" ==> !IsSpace(core[0]))
    ensures StripLeft(left + core) == core
  {
    if left == "" {
      assert left + core == core;
    } else {
      LeftStripped(left[1..], core);
      assert (left + core)[1..] == left[1..] + core;
    }
  }

  lemma {:induction false} RightStripped(core: string, right: string)
    requires Blank(right) && (core != "" ==> !IsSpace(core[|core| - 1]))
    ensures StripRight(core + right) == core
  {
    if right == "" {
      assert core + right == core;
    } else {
      var n := |right| - 1;
      RightStripped(core, right[..n]);
      assert (core + right)[..|core| + n] == core + right[..n];
    }
  }

  lemma {:induction false} VersionDropped(name: string, version: string)
    requires (forall i :: 0 <= i < |name| ==> !IsOperator(name[i])) && (version != "" ==> IsOperator(version[0]))
    ensures Unversioned(name + version) == name
  {
    if name == "" {
      assert name + version == version;
    } else {
      VersionDropped(name[1..], version);
      assert (name + version)[1..] == name[1..] + version;
      assert name == [name[0]] + name[1..];
    }
  }

  lemma BlankJoins(left: string, right: string)
    requires Blank(left) && Blank(right)
    ensures Blank(left + right)
  {
  }

  lemma Stripped(left: string, core: string, right: string)
    requires Blank(left) && Blank(right) && (core != "" ==> !IsSpace(core[0]) && !IsSpace(core[|core| - 1]))
    ensures StripRight(StripLeft(left + core + right)) == core
  {
    hide StripLeft, StripRight;
    assert left + core + right == left + (core + right);
    if core == "" {
      BlankJoins(left, right);
      LeftStripped(left + right, "");
      assert left + core + right == (left + right) + "";
      RightStripped("", "");
      assert "" + "" == "";
    } else {
      LeftStripped(left, core + right);
      RightStripped(core, right);
    }
  }

  /** Normalizing gives the name, and what is ignored is no name, a conflict at the very front, or a path. */
  lemma NormalizedIs(left: string, core: string, right: string, conflict: bool, name: string, version: string)
    requires Blank(left) && Blank(right) && Reads(core, conflict, name, version)
    ensures Normalize(left + core + right) == name
    ensures Ignored(left + core + right) <==> name == "" || name[0] == '/' || (conflict && left == "")
  {
    hide StripLeft, StripRight, Unversioned;
    Stripped(left, core, right);
    VersionDropped(name, version);
    assert conflict ==> core[1..] == name + version;
    assert !conflict ==> core == name + version;
    var value := left + core + right;
    assert value != "" ==> value[0] == if left != "" then left[0] else if core != "" then core[0] else right[0];
  }

  // What the plan is made of

  /** The dependency leads to that record, and nothing settles it beforehand. */
  ghost predicate FindsRecord(index: Index, installed: set<string>, d: string, p: Package) {
    !Ignored(d) && Normalize(d) !in installed && Lookup(index, Normalize(d)) == Some(p)
  }

  ghost predicate Asked(queue: seq<string>, plan: seq<Package>, d: string) {
    d in queue || exists q :: q in plan && d in q.depends
  }

  ghost predicate Needed(queue: seq<string>, plan: seq<Package>, index: Index, installed: set<string>, p: Package) {
    exists d :: Asked(queue, plan, d) && FindsRecord(index, installed, d, p)
  }

  /** Nothing is planned that no request and no dependency of a planned package leads to. */
  lemma {:induction false} ClosureNeeds(queue: seq<string>, plan: seq<Package>, index: Index, installed: set<string>)
    requires Closure(queue, plan, index, installed).Some?
    ensures var r := Closure(queue, plan, index, installed).value;
            plan <= r && forall i :: |plan| <= i < |r| ==> Needed(queue, r, index, installed, r[i])
    decreases |AllNames(index) - Names(plan)|, |queue|
  {
    hide Ignored, Normalize, Lookup, Provisions, Provided, Names, AllNames, Closure, FindsRecord;
    if queue == [] {
      ClosureEnds(plan, index, installed);
    } else {
      ClosureStep(queue, plan, index, installed);
      var found := Lookup(index, Normalize(queue[0]));
      var r := Closure(queue, plan, index, installed).value;
      if Settled(queue[0], plan, installed) || found.value.name in Names(plan) {
        ClosureNeeds(queue[1..], plan, index, installed);
        assert forall d :: Asked(queue[1..], r, d) ==> Asked(queue, r, d);
      } else {
        var p := found.value;
        AnotherName(index, plan, Normalize(queue[0]));
        ClosureNeeds(queue[1..] + p.depends, plan + [p], index, installed);
        assert p == r[|plan|];
        assert forall d :: Asked(queue[1..] + p.depends, r, d) ==> Asked(queue, r, d);
        UnsettledLeads(queue[0], plan, index, installed);
        assert Asked(queue, r, queue[0]);
      }
    }
  }

  lemma UnsettledLeads(d: string, plan: seq<Package>, index: Index, installed: set<string>)
    requires !Settled(d, plan, installed) && Lookup(index, Normalize(d)).Some?
    ensures FindsRecord(index, installed, d, Lookup(index, Normalize(d)).value)
  {
  }

  /** A name that is asked for, not installed, and neither a package nor provided by one. */
  ghost predicate Missing(queue: seq<string>, plan: seq<Package>, index: Index, installed: set<string>, d: string) {
    Asked(queue, plan, d) && !Ignored(d) && Normalize(d) !in installed && Lookup(index, Normalize(d)).None?
  }

  /** Resolution fails only for a missing name, of a request or of a package that was needed. */
  lemma {:induction false} ClosureFails(queue: seq<string>, plan: seq<Package>, index: Index, installed: set<string>)
    returns (r: seq<Package>, d: string)
    requires Closure(queue, plan, index, installed).None?
    ensures plan <= r && Missing(queue, r, index, installed, d)
    ensures forall i :: |plan| <= i < |r| ==> Needed(queue, r, index, installed, r[i])
    decreases |AllNames(index) - Names(plan)|, |queue|
  {
    hide Ignored, Normalize, Lookup, Provisions, Provided, Names, AllNames, Closure, FindsRecord;
    if queue == [] {
      ClosureEnds(plan, index, installed);
      assert false;
    }
    ClosureStep(queue, plan, index, installed);
    var found := Lookup(index, Normalize(queue[0]));
    if Settled(queue[0], plan, installed) || (found.Some? && found.value.name in Names(plan)) {
      r, d := ClosureFails(queue[1..], plan, index, installed);
      assert forall e :: Asked(queue[1..], r, e) ==> Asked(queue, r, e);
    } else if found.None? {
      r, d := plan, queue[0];
    } else {
      var p := found.value;
      AnotherName(index, plan, Normalize(queue[0]));
      r, d := ClosureFails(queue[1..] + p.depends, plan + [p], index, installed);
      assert p == r[|plan|];
      assert forall e :: Asked(queue[1..] + p.depends, r, e) ==> Asked(queue, r, e);
      UnsettledLeads(queue[0], plan, index, installed);
      assert Asked(queue, r, queue[0]);
    }
  }
}
