/**
 Package plans end to end (scripts/materialize-alpine-rootfs.py, `load_package_indexes` and `resolve_packages`): from
 the records of the repositories to the order of installation.
 */
module ApkPlans {
  import opened Ranges
  import opened ApkResolver
  import opened ApkOrdering

  // Indexes

  /** The providers once the first `n` supplies of a package are known; whoever came first stays. */
  function WithSupplies(providers: map<string, Package>, p: Package, n: nat): map<string, Package>
    requires n <= |p.supplies|
  {
    if n == 0 then providers
    else
      var before := WithSupplies(providers, p, n - 1);
      var name := Normalize(p.supplies[n - 1]);
      if name in before then before else before[name := p]
  }

  /** The indexes of the repositories' records, in order. */
  function IndexOf(records: seq<Package>): Index {
    if records == [] then Index(map[], map[])
    else
      var before, p := IndexOf(records[..|records| - 1]), records[|records| - 1];
      Index(if p.name in before.packages then before.packages else before.packages[p.name := p],
            WithSupplies(before.providers, p, |p.supplies|))
  }

  method LoadIndexes(records: seq<Package>) returns (index: Index)
    ensures index == IndexOf(records)
  {
    var packages: map<string, Package>, providers: map<string, Package> := map[], map[];
    for i := 0 to |records|
      invariant Index(packages, providers) == IndexOf(records[..i])
    {
      var p := records[i];
      assert records[..i + 1][..i] == records[..i];
      if p.name !in packages {
        packages := packages[p.name := p];
      }
      ghost var before := providers;
      for n := 0 to |p.supplies|
        invariant providers == WithSupplies(before, p, n)
      {
        var name := Normalize(p.supplies[n]);
        if name !in providers {
          providers := providers[name := p];
        }
      }
    }
    assert records[..|records|] == records;
    index := Index(packages, providers);
  }

  /** Every entry is a record of the repositories that has or provides the name it is entered under. */
  ghost predicate Entered(index: Index, records: seq<Package>) {
    && (forall n :: n in index.packages ==> index.packages[n] in records && index.packages[n].name == n)
    && (forall n :: n in index.providers ==> index.providers[n] in records && n in Provisions(index.providers[n]))
  }

  lemma {:induction false} SuppliesEntered(providers: map<string, Package>, p: Package, n: nat, records: seq<Package>)
    requires n <= |p.supplies| && p in records
    requires forall m :: m in providers ==> providers[m] in records && m in Provisions(providers[m])
    ensures forall m :: m in WithSupplies(providers, p, n) ==>
              WithSupplies(providers, p, n)[m] in records && m in Provisions(WithSupplies(providers, p, n)[m])
  {
    hide Normalize;
    if n > 0 {
      SuppliesEntered(providers, p, n - 1, records);
    }
  }

  lemma {:induction false} AllEntered(records: seq<Package>)
    ensures Entered(IndexOf(records), records)
  {
    hide Provisions, WithSupplies;
    if records != [] {
      var before, p := records[..|records| - 1], records[|records| - 1];
      AllEntered(before);
      SuppliesEntered(IndexOf(before).providers, p, |p.supplies|, records);
    }
  }

  /** Repositories that name no package twice give consistent indexes, with one record per name. */
  lemma DistinctIsConsistent(records: seq<Package>)
    requires Distinct(records)
    ensures Consistent(IndexOf(records))
  {
    hide IndexOf, Provisions, Consistent;
    AllEntered(records);
    KeyedIsConsistent(IndexOf(records));
  }

  const FIRST := Package("a", "1", "main", [], [])
  const SECOND := Package("a", "2", "community", [], ["x"])

  lemma TwoRecordsIndex()
    ensures Normalize("a") == "a" && Normalize("x") == "x" && !Ignored("a") && !Ignored("x")
    ensures IndexOf([FIRST, SECOND]) == Index(map["a" := FIRST], map["x" := SECOND])
  {
    assert [FIRST, SECOND][..1] == [FIRST];
    assert WithSupplies(map[], FIRST, 0) == map[];
    assert IndexOf([FIRST]) == Index(map["a" := FIRST], map[]);
    assert WithSupplies(map[], SECOND, 0) == map[];
  }

  /** Two repositories with packages of one name need not: "a" is taken from one, and "x" is left to the other. */
  lemma TwoRecordsInconsistent()
    ensures var index := IndexOf([FIRST, SECOND]);
            && !Consistent(index) && Closure(["a", "x"], [], index, {}) == Some([FIRST])
            && !Satisfied(["a", "x"], [FIRST], {})
  {
    hide IndexOf, Normalize, Ignored, Names, Provided, Closure, Consistent, WithSupplies;
    var index := IndexOf([FIRST, SECOND]);
    TwoRecordsIndex();
    PlanOne(FIRST);
    assert ["a", "x"][1..] + FIRST.depends == ["x"] && [] + [FIRST] == [FIRST] && ["x"][1..] == [];
    ClosureStep(["a", "x"], [], index, {});
    ClosureStep(["x"], [FIRST], index, {});
    ClosureEnds([FIRST], index, {});
    assert !Settled(["a", "x"][1], [FIRST], {});
    SafeExactlyWhenConsistent(index);
  }

  // Plans

  /** With one record per name, whatever the sort may visit is in the plan. */
  lemma PlanIsUniform(records: seq<Package>, plan: seq<Package>, installed: set<string>)
    requires Distinct(records) && Planned(plan, IndexOf(records))
    ensures Uniform(plan, IndexOf(records), installed)
  {
    hide IndexOf, Provisions, Normalize, Ignored;
    var index := IndexOf(records);
    AllEntered(records);
    forall i | 0 <= i < |plan|
      ensures plan[i] in records
    {
      assert FoundIn(index, plan[i]);
    }
    forall d: string | Target(d, plan, index, installed).Some?
      ensures Target(d, plan, index, installed).value in plan
    {
      var p := Target(d, plan, index, installed).value;
      var i :| 0 <= i < |plan| && plan[i].name == p.name;
      assert p in plan || p in records;
    }
  }

  lemma SameRecordsSatisfy(requests: seq<string>, plan: seq<Package>, ordered: seq<Package>, installed: set<string>)
    requires (forall p :: p in ordered <==> p in plan) && Satisfied(requests, plan, installed)
    ensures Satisfied(requests, ordered, installed)
  {
    ProvidedBy(plan, ordered);
    ProvidedBy(ordered, plan);
    hide Provided, Ignored, Normalize;
    assert forall d :: Settled(d, plan, installed) ==> Settled(d, ordered, installed);
  }

  lemma ProvidedBy(some: seq<Package>, more: seq<Package>)
    requires forall p :: p in some ==> p in more
    ensures Provided(some) <= Provided(more)
  {
    forall n | n in Provided(some)
      ensures n in Provided(more)
    {
      var i :| 0 <= i < |some| && n in Provisions(some[i]);
      assert some[i] in more;
      var j :| 0 <= j < |more| && more[j] == some[i];
    }
  }

  // What comes first

  const SPARE := Package("a", "1", "main", [], ["x"])
  const CHOSEN := Package("b", "1", "main", [], ["x"])
  const NEEDY := Package("c", "1", "main", ["x"], [])

  lemma PlainNames()
    ensures Normalize("b") == "b" && Normalize("c") == "c" && Normalize("x") == "x"
    ensures !Ignored("b") && !Ignored("c") && !Ignored("x")
  {
  }

  lemma SpareIndex()
    ensures Normalize("b") == "b" && Normalize("c") == "c" && Normalize("x") == "x"
    ensures !Ignored("b") && !Ignored("c") && !Ignored("x")
    ensures IndexOf([SPARE, CHOSEN, NEEDY]) ==
            Index(map["a" := SPARE, "b" := CHOSEN, "c" := NEEDY], map["x" := SPARE])
  {
    PlainNames();
    hide Normalize, Ignored;
    assert [SPARE, CHOSEN, NEEDY][..2] == [SPARE, CHOSEN] && [SPARE, CHOSEN][..1] == [SPARE];
    assert WithSupplies(map[], SPARE, 0) == map[] && [SPARE][..0] == [];
    assert WithSupplies(map[], SPARE, 1) == map["x" := SPARE];
    assert IndexOf([SPARE]) == Index(map["a" := SPARE], map["x" := SPARE]);
    assert WithSupplies(map["x" := SPARE], CHOSEN, 0) == map["x" := SPARE];
    assert IndexOf([SPARE, CHOSEN]) == Index(map["a" := SPARE, "b" := CHOSEN], map["x" := SPARE]);
    assert WithSupplies(map["x" := SPARE], NEEDY, 0) == map["x" := SPARE];
  }

  lemma SparePlan()
    ensures Closure(["c", "b"], [], IndexOf([SPARE, CHOSEN, NEEDY]), {}) == Some([NEEDY, CHOSEN])
  {
    hide IndexOf, Normalize, Ignored, Names, Provided, Closure;
    var index := IndexOf([SPARE, CHOSEN, NEEDY]);
    SpareIndex();
    PlanOne(NEEDY);
    assert [] + [NEEDY] == [NEEDY] && [NEEDY] + [CHOSEN] == [NEEDY, CHOSEN];
    NamesGrow([NEEDY], CHOSEN);
    ProvidedGrows([NEEDY], CHOSEN);
    assert ["c", "b"][1..] + NEEDY.depends == ["b", "x"] && ["b", "x"][1..] + CHOSEN.depends == ["x"];
    assert ["x"][1..] == [];
    ClosureStep(["c", "b"], [], index, {});
    ClosureStep(["b", "x"], [NEEDY], index, {});
    assert Normalize(CHOSEN.supplies[0]) in Provisions(CHOSEN);
    ClosureStep(["x"], [NEEDY, CHOSEN], index, {});
    ClosureEnds([NEEDY, CHOSEN], index, {});
  }

  /**
   A package comes before the only planned provider of its dependency, without any cycle: the provider on record is
   another one, which the plan does without.
   */
  lemma ProviderComesLate()
    ensures var records := [SPARE, CHOSEN, NEEDY];
            var g := Graph([NEEDY, CHOSEN], IndexOf(records), {});
            && Distinct(records) && Closure(["c", "b"], [], IndexOf(records), {}) == Some(g.plan)
            && Acyclic(g) && Order(g) == g.plan && !ProvidersFirst(Order(g), {})
  {
    hide Closure, IndexOf;
    var g := Graph([NEEDY, CHOSEN], IndexOf([SPARE, CHOSEN, NEEDY]), {});
    SparePlan();
    SpareIndex();
    SpareOrder(g);
    assert "x" in g.plan[0].depends;
    assert !Settled("x", g.plan[..1], {}) by {
      assert g.plan[..1] == [NEEDY];
      PlanOne(NEEDY);
    }
  }

  lemma SpareOrder(g: Graph)
    requires g.plan == [NEEDY, CHOSEN] && g.installed == {}
    requires g.index == Index(map["a" := SPARE, "b" := CHOSEN, "c" := NEEDY], map["x" := SPARE])
    requires Normalize("x") == "x" && !Ignored("x")
    ensures Acyclic(g) && Order(g) == g.plan
  {
    hide Normalize, Ignored;
    assert [NEEDY] + [CHOSEN] == [NEEDY, CHOSEN];
    PlanOne(NEEDY);
    NamesGrow([NEEDY], CHOSEN);
    hide Names;
    assert Target("x", g.plan, g.index, g.installed).None?;
    assert VisitedFor(g, [], {"c"}, NEEDY, 0) == [];
    assert VisitedFor(g, [], {"c"}, NEEDY, 1) == [];
    assert {} + {"c"} == {"c"} && {} + {"b"} == {"b"};
    assert Visited(g, [], {}, NEEDY) == [] + [NEEDY] == [NEEDY];
    assert OrderOf(g, 0) == [] && OrderOf(g, 1) == [NEEDY];
    assert VisitedFor(g, [NEEDY], {"b"}, CHOSEN, 0) == [NEEDY];
    assert Visited(g, [NEEDY], {}, CHOSEN) == [NEEDY] + [CHOSEN];
    assert OrderOf(g, 2) == [NEEDY] + [CHOSEN];
    forall a, b
      ensures !Edge(g, a, b)
    {
    }
    hide Edge;
    forall path: seq<string>
      ensures !Cycle(g, path)
    {
      if |path| >= 2 {
        assert !Step(g, path, 0);
      }
    }
  }

  /** No two records have or provide the same name. */
  ghost predicate OneProvider(records: seq<Package>) {
    forall i, j, n ::
      0 <= i < |records| && 0 <= j < |records| && n in Provisions(records[i]) && n in Provisions(records[j]) ==> i == j
  }

  lemma {:induction false} SupplyEntered(providers: map<string, Package>, p: Package, n: nat, k: nat)
    requires k < n <= |p.supplies|
    ensures Normalize(p.supplies[k]) in WithSupplies(providers, p, n)
  {
    hide Normalize;
    if k < n - 1 {
      SupplyEntered(providers, p, n - 1, k);
    }
  }

  lemma {:induction false} SuppliesStay(providers: map<string, Package>, p: Package, n: nat)
    requires n <= |p.supplies|
    ensures providers.Keys <= WithSupplies(providers, p, n).Keys
  {
    hide Normalize;
    if n > 0 {
      SuppliesStay(providers, p, n - 1);
    }
  }

  /** Whatever a record provides has a provider on record. */
  lemma {:induction false} EverySupplyEntered(records: seq<Package>, i: nat, k: nat)
    requires i < |records| && k < |records[i].supplies|
    ensures Normalize(records[i].supplies[k]) in IndexOf(records).providers
  {
    hide Normalize, WithSupplies;
    var before, p := records[..|records| - 1], records[|records| - 1];
    if i == |records| - 1 {
      SupplyEntered(IndexOf(before).providers, p, |p.supplies|, k);
    } else {
      EverySupplyEntered(before, i, k);
      SuppliesStay(IndexOf(before).providers, p, |p.supplies|);
    }
  }

  /** A planned package that provides a name is the one the sort visits for it. */
  lemma OneProviderIsTarget(records: seq<Package>, plan: seq<Package>, installed: set<string>, q: Package, d: string)
    requires OneProvider(records) && Distinct(plan) && (forall p :: p in plan ==> p in records)
    requires q in plan && Normalize(d) in Provisions(q) && !Ignored(d) && Normalize(d) !in installed
    ensures Target(d, plan, IndexOf(records), installed) == Some(q)
  {
    hide IndexOf, Normalize, Ignored, Names, RecordOf;
    var n, index := Normalize(d), IndexOf(records);
    RecordIs(plan, q);
    var at :| 0 <= at < |records| && records[at] == q;
    if n in Names(plan) {
      var other := RecordOf(plan, n);
      var i :| 0 <= i < |records| && records[i] == other;
      assert n in Provisions(records[i]) && n in Provisions(records[at]);
    } else {
      var k :| 0 <= k < |q.supplies| && Normalize(q.supplies[k]) == n;
      EverySupplyEntered(records, at, k);
      AllEntered(records);
      var i :| 0 <= i < |records| && records[i] == index.providers[n];
      assert n in Provisions(records[i]) && n in Provisions(records[at]);
    }
  }

  /** Then the sort gets to a provider of every dependency that is met. */
  lemma OneProviderReached(records: seq<Package>, plan: seq<Package>, installed: set<string>)
    requires OneProvider(records) && Distinct(plan) && (forall p :: p in plan ==> p in records)
    requires Satisfied([], plan, installed)
    ensures ProvidersReached(Graph(plan, IndexOf(records), installed))
  {
    hide IndexOf, Normalize, Ignored, Reaches, Target, OneProvider;
    var g := Graph(plan, IndexOf(records), installed);
    forall p, d | p in plan && d in p.depends && !Ignored(d) && Normalize(d) !in installed
      ensures ReachesProvider(g, p, d)
    {
      assert Settled(d, plan, installed);
      var i :| 0 <= i < |plan| && Normalize(d) in Provisions(plan[i]);
      OneProviderIsTarget(records, plan, installed, plan[i], d);
      RecordIs(plan, p);
      ReachesItself(g, plan[i].name);
      if plan[i].name != p.name {
        assert LeadsTo(g, d, plan[i].name);
        ReachesFarther(g, p.name, plan[i].name, plan[i].name);
      }
    }
  }

  /** A plan of the indexes holds records of the repositories. */
  lemma PlannedAreRecords(records: seq<Package>, plan: seq<Package>)
    requires Planned(plan, IndexOf(records))
    ensures Distinct(plan) && forall p :: p in plan ==> p in records
  {
    hide IndexOf, Usable, Provisions;
    AllEntered(records);
    assert forall i :: 0 <= i < |plan| ==> FoundIn(IndexOf(records), plan[i]);
  }

  /**
   The packages to install, in order. With repositories that name no package twice each planned package comes once and
   all requests and dependencies are satisfied; without cycles of visits a provider of each dependency comes first
   whenever the sort gets to one, and always if no two packages provide the same name.
   */
  method ResolvePackages(requests: seq<string>, records: seq<Package>, installed: set<string>)
    returns (r: Option<seq<Package>>)
    ensures r.Some? <==> Closure(requests, [], IndexOf(records), installed).Some?
    ensures r.None? ==> exists plan, d ::
              && Missing(requests, plan, IndexOf(records), installed, d)
              && forall p :: p in plan ==> Needed(requests, plan, IndexOf(records), installed, p)
    ensures r.Some? ==>
              var plan := Closure(requests, [], IndexOf(records), installed).value;
              forall p :: p in plan ==> Needed(requests, plan, IndexOf(records), installed, p)
    ensures r.Some? ==>
              var g := Graph(Closure(requests, [], IndexOf(records), installed).value, IndexOf(records), installed);
              && r.value == Order(g) && Distinct(r.value) && Names(r.value) == Names(g.plan)
              && (Distinct(records) ==>
                    && (forall p :: p in r.value <==> p in g.plan)
                    && Satisfied(requests, r.value, installed)
                    && (TargetsFirst(g, r.value) <==> Acyclic(g))
                    && (Acyclic(g) && (ProvidersReached(g) || OneProvider(records)) ==>
                          ProvidersFirst(r.value, installed)))
  {
    hide Closure, IndexOf, Satisfied, TargetsFirst, Acyclic, Names, Distinct, Uniform, Consistent, Order;
    hide ProvidersReached, OneProvider, ProvidersFirst, Planned, Missing, Needed;
    var index := LoadIndexes(records);
    var plan := ResolveClosure(requests, index, installed);
    if plan.None? {
      ghost var some, d := ClosureFails(requests, [], index, installed);
      assert Missing(requests, some, index, installed, d);
      return None;
    }
    ClosureNeeds(requests, [], index, installed);
    NothingPlannedYet(index);
    ClosureSatisfies(requests, [], index, installed);
    var ordered := TopoSort(plan.value, index, installed);
    r := Some(ordered);
    if Distinct(records) {
      ghost var g := Graph(plan.value, index, installed);
      PlanIsUniform(records, plan.value, installed);
      DistinctIsConsistent(records);
      NothingPending(requests, installed);
      SameRecordsSatisfy(requests, plan.value, ordered, installed);
      if OneProvider(records) {
        SatisfiedDependencies(requests, plan.value, installed);
        PlannedAreRecords(records, plan.value);
        OneProviderReached(records, plan.value, installed);
      }
      if Acyclic(g) && ProvidersReached(g) {
        ReachedComesFirst(g);
      }
    }
  }

  lemma NothingPlannedYet(index: Index)
    ensures Planned([], index)
  {
  }

  lemma NothingPending(requests: seq<string>, installed: set<string>)
    ensures Pending(requests, [], installed)
  {
  }

  lemma SatisfiedDependencies(requests: seq<string>, plan: seq<Package>, installed: set<string>)
    requires Satisfied(requests, plan, installed)
    ensures Satisfied([], plan, installed)
  {
    hide Settled;
  }

  /** A package is found under its own name, whoever else provides it. */
  lemma {:induction false} OwnNameWins(records: seq<Package>, i: nat)
    requires Distinct(records) && i < |records|
    ensures Lookup(IndexOf(records), records[i].name) == Some(records[i])
    decreases |records|
  {
    hide WithSupplies;
    var n := |records| - 1;
    AllEntered(records[..n]);
    if i < n {
      OwnNameWins(records[..n], i);
      NamesEntered(records[..n], i);
    }
  }

  lemma {:induction false} NamesEntered(records: seq<Package>, i: nat)
    requires i < |records|
    ensures records[i].name in IndexOf(records).packages
    decreases |records|
  {
    var n := |records| - 1;
    if i < n {
      NamesEntered(records[..n], i);
    }
  }

  /** A name no record has is found at the first record that supplies it. */
  lemma {:induction false} FirstSupplierWins(records: seq<Package>, i: nat, k: nat)
    requires i < |records| && k < |records[i].supplies|
    requires forall j :: 0 <= j < i ==> forall s :: s in records[j].supplies ==>
               Normalize(s) != Normalize(records[i].supplies[k])
    ensures var name := Normalize(records[i].supplies[k]);
            name in IndexOf(records).providers && IndexOf(records).providers[name] == records[i]
    decreases |records|
  {
    hide Normalize;
    var n, name := |records| - 1, Normalize(records[i].supplies[k]);
    if i < n {
      FirstSupplierWins(records[..n], i, k);
      SuppliesKept(IndexOf(records[..n]).providers, records[n], |records[n].supplies|, name);
    } else {
      NotSupplied(records[..n], name);
      SuppliesAdded(IndexOf(records[..n]).providers, records[n], |records[n].supplies|, k);
    }
  }

  lemma {:induction false} SuppliesKept(providers: map<string, Package>, p: Package, n: nat, name: string)
    requires n <= |p.supplies| && name in providers
    ensures name in WithSupplies(providers, p, n) && WithSupplies(providers, p, n)[name] == providers[name]
  {
    hide Normalize;
    if n > 0 {
      SuppliesKept(providers, p, n - 1, name);
    }
  }

  lemma {:induction false} SuppliesAdded(providers: map<string, Package>, p: Package, n: nat, k: nat)
    requires k < n <= |p.supplies| && Normalize(p.supplies[k]) !in providers
    ensures var name := Normalize(p.supplies[k]);
            name in WithSupplies(providers, p, n) && WithSupplies(providers, p, n)[name] == p
  {
    hide Normalize;
    var name := Normalize(p.supplies[k]);
    if k < n - 1 {
      SuppliesAdded(providers, p, n - 1, k);
    } else {
      OwnSupplies(providers, p, n - 1, name);
    }
  }

  /** A name that was not provided before can only have come from the package itself. */
  lemma {:induction false} OwnSupplies(providers: map<string, Package>, p: Package, n: nat, name: string)
    requires n <= |p.supplies| && name !in providers
    ensures name in WithSupplies(providers, p, n) ==> WithSupplies(providers, p, n)[name] == p
    ensures name in WithSupplies(providers, p, n) ==> exists s :: s in p.supplies && Normalize(s) == name
  {
    hide Normalize;
    if n > 0 {
      OwnSupplies(providers, p, n - 1, name);
      assert p.supplies[n - 1] in p.supplies;
    }
  }

  lemma {:induction false} NotSupplied(records: seq<Package>, name: string)
    requires forall j :: 0 <= j < |records| ==> forall s :: s in records[j].supplies ==> Normalize(s) != name
    ensures name !in IndexOf(records).providers
  {
    hide Normalize;
    if records != [] {
      var n := |records| - 1;
      NotSupplied(records[..n], name);
      OwnSupplies(IndexOf(records[..n]).providers, records[n], |records[n].supplies|, name);
    }
  }
}
