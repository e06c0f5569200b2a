/**
 The installation order of a resolved plan (scripts/materialize-alpine-rootfs.py, `topo_sort_packages`): a
 depth-first postorder that skips packages already on the stack.
 */
module ApkOrdering {
  import opened Ranges
  import opened ApkResolver

  /** The planned record of that name. */
  function RecordOf(plan: seq<Package>, name: string): (p: Package)
    requires name in Names(plan)
    ensures p in plan && p.name == name
  {
    if plan[0].name == name then plan[0] else
    InTail(plan, name);
    RecordOf(plan[1..], name)
  }

  lemma InTail(plan: seq<Package>, name: string)
    requires name in Names(plan) && plan[0].name != name
    ensures name in Names(plan[1..])
  {
    var i :| 0 <= i < |plan| && plan[i].name == name;
    assert plan[1..][i - 1].name == name;
  }

  /** Which package the sort visits for a dependency, if any. */
  function Target(dependency: string, plan: seq<Package>, index: Index, installed: set<string>): (r: Option<Package>)
    ensures r.Some? ==> r.value.name in Names(plan)
  {
    var n := Normalize(dependency);
    if Ignored(dependency) || n in installed then None
    else if n in Names(plan) then Some(RecordOf(plan, n))
    else if n in index.providers && index.providers[n].name in Names(plan) then Some(index.providers[n])
    else if n in index.packages && index.packages[n].name in Names(plan) then Some(index.packages[n])
    else None
  }

  /** Records of the same name are the same record, in the plan and in what the sort may visit. */
  ghost predicate Uniform(plan: seq<Package>, index: Index, installed: set<string>) {
    && Distinct(plan)
    && forall d: string :: Target(d, plan, index, installed).Some? ==> Target(d, plan, index, installed).value in plan
  }

  datatype Graph = Graph(plan: seq<Package>, index: Index, installed: set<string>)

  /** For a dependency of the package named `a` the sort visits another package, named `b`. */
  ghost predicate Edge(g: Graph, a: string, b: string) {
    && a in Names(g.plan) && a != b
    && exists d :: d in RecordOf(g.plan, a).depends && LeadsTo(g, d, b)
  }

  ghost predicate LeadsTo(g: Graph, d: string, b: string) {
    var target := Target(d, g.plan, g.index, g.installed);
    target.Some? && target.value.name == b
  }

  ghost predicate Path(g: Graph, path: seq<string>) {
    forall i :: 0 <= i < |path| - 1 ==> Step(g, path, i)
  }

  ghost predicate Step(g: Graph, path: seq<string>, i: nat)
    requires i + 1 < |path|
  {
    Edge(g, path[i], path[i + 1])
  }

  ghost predicate Acyclic(g: Graph) {
    !exists path: seq<string> :: Cycle(g, path)
  }

  ghost predicate Cycle(g: Graph, path: seq<string>) {
    |path| >= 2 && Path(g, path) && path[0] == path[|path| - 1]
  }

  /** Every package comes after the packages the sort visits for its dependencies. */
  ghost predicate TargetsFirst(g: Graph, ordered: seq<Package>) {
    forall i :: 0 <= i < |ordered| ==> Follows(g, ordered, i)
  }

  ghost predicate Follows(g: Graph, ordered: seq<Package>, i: nat)
    requires i < |ordered|
  {
    forall b: string :: Edge(g, ordered[i].name, b) ==> b in Names(ordered[..i])
  }

  // Order and cycles

  /** An order that puts what it visits first leaves no room for a cycle. */
  lemma {:induction false} OrderRulesOutCycles(g: Graph, ordered: seq<Package>, path: seq<string>)
    requires Distinct(ordered) && Names(ordered) == Names(g.plan) && TargetsFirst(g, ordered)
    requires Path(g, path) && |path| >= 2
    ensures path[0] != path[|path| - 1]
  {
    var i := PathDescends(g, ordered, path, |path| - 1);
  }

  /** Along a path positions in the order fall strictly. */
  lemma {:induction false} PathDescends(g: Graph, ordered: seq<Package>, path: seq<string>, k: nat) returns (at: nat)
    requires Distinct(ordered) && Names(ordered) == Names(g.plan) && TargetsFirst(g, ordered)
    requires Path(g, path) && 0 < k < |path|
    ensures at < |ordered| && ordered[at].name == path[k]
    ensures forall i :: 0 <= i < |ordered| && ordered[i].name == path[0] ==> at < i
  {
    assert Step(g, path, k - 1);
    var before: nat;
    if k == 1 {
      before :| before < |ordered| && ordered[before].name == path[0];
    } else {
      before := PathDescends(g, ordered, path, k - 1);
    }
    assert Follows(g, ordered, before);
    assert path[k] in Names(ordered[..before]);
    at :| 0 <= at < before && ordered[..before][at].name == path[k];
  }

  // What the sort computes

  /** The order once `package` has been visited, with the packages of `visiting` on the stack. */
  function Visited(g: Graph, ordered: seq<Package>, visiting: set<string>, package: Package): seq<Package>
    requires package.name in Names(g.plan)
    decreases Names(g.plan) - visiting, 1, 0
  {
    if package.name in Names(ordered) || package.name in visiting then ordered
    else VisitedFor(g, ordered, visiting + {package.name}, package, |package.depends|) + [package]
  }

  /** The order once its first `n` dependencies have been visited. */
  function VisitedFor(g: Graph, ordered: seq<Package>, visiting: set<string>, package: Package, n: nat): seq<Package>
    requires n <= |package.depends|
    decreases Names(g.plan) - visiting, 2, n
  {
    if n == 0 then ordered
    else
      var before := VisitedFor(g, ordered, visiting, package, n - 1);
      var target := Target(package.depends[n - 1], g.plan, g.index, g.installed);
      if target.None? then before else Visited(g, before, visiting, target.value)
  }

  /** The order once the first `n` packages of the plan have been visited. */
  function OrderOf(g: Graph, n: nat): seq<Package>
    requires n <= |g.plan|
  {
    if n == 0 then [] else
    assert g.plan[n - 1].name in Names(g.plan);
    Visited(g, OrderOf(g, n - 1), {}, g.plan[n - 1])
  }

  function Order(g: Graph): seq<Package> {
    OrderOf(g, |g.plan|)
  }

  // The sort

  class Sorter {
    const plan: seq<Package>
    const index: Index
    const installed: set<string>
    var ordered: seq<Package>
    var visiting: set<string>
    var visited: set<string>

    ghost function G(): Graph {
      Graph(plan, index, installed)
    }

    ghost predicate Valid()
      reads this
    {
      visited == Names(ordered)
    }

    constructor (plan: seq<Package>, index: Index, installed: set<string>)
      ensures this.plan == plan && this.index == index && this.installed == installed
      ensures Valid() && visiting == {} && ordered == []
    {
      this.plan, this.index, this.installed := plan, index, installed;
      ordered, visiting, visited := [], {}, {};
    }

    /** Visits a package and what it depends on. */
    method Visit(package: Package)
      requires Valid() && package.name in Names(plan)
      modifies this`ordered, this`visiting, this`visited
      ensures Valid() && visiting == old(visiting)
      ensures ordered == Visited(G(), old(ordered), old(visiting), package)
      decreases Names(plan) - visiting, 0
    {
      hide Names;
      if package.name in visited || package.name in visiting {
        return;
      }
      ghost var stack := visiting;
      visiting := visiting + {package.name};
      VisitDependencies(package);
      NamesGrow(ordered, package);
      visiting := visiting - {package.name};
      visited := visited + {package.name};
      ordered := ordered + [package];
      assert visiting == stack;
    }

    method VisitDependencies(package: Package)
      requires Valid() && package.name in Names(plan)
      modifies this`ordered, this`visiting, this`visited
      ensures Valid() && visiting == old(visiting)
      ensures ordered == VisitedFor(G(), old(ordered), old(visiting), package, |package.depends|)
      decreases Names(plan) - visiting, 1
    {
      hide Names, Target, Visited;
      for i := 0 to |package.depends|
        invariant Valid() && visiting == old(visiting)
        invariant ordered == VisitedFor(G(), old(ordered), visiting, package, i)
      {
        var target := Target(package.depends[i], plan, index, installed);
        if target.Some? {
          Visit(target.value);
        }
      }
    }
  }

  /**
   The installation order holds each planned name exactly once; when records are uniform it is a reordering of the
   plan, and every package comes after those visited for it exactly when there is no cycle of such visits. These are
   not all the packages that may provide a dependency: `ProvidersFirstExactly` says when one of those comes first.
   */
  method TopoSort(plan: seq<Package>, index: Index, installed: set<string>) returns (ordered: seq<Package>)
    ensures ordered == Order(Graph(plan, index, installed))
    ensures Distinct(ordered) && Names(ordered) == Names(plan)
    ensures Uniform(plan, index, installed) ==> forall p :: p in ordered <==> p in plan
    ensures Uniform(plan, index, installed) ==>
              (TargetsFirst(Graph(plan, index, installed), ordered) <==> Acyclic(Graph(plan, index, installed)))
  {
    hide Uniform, Acyclic, TargetsFirst, Path, Visited;
    var sorter := new Sorter(plan, index, installed);
    for i := 0 to |plan|
      invariant sorter.Valid() && sorter.visiting == {} && sorter.ordered == OrderOf(sorter.G(), i)
    {
      sorter.Visit(plan[i]);
    }
    ordered := sorter.ordered;
    OrderNames(sorter.G());
    if Uniform(plan, index, installed) {
      OrderUniform(sorter.G());
    }
  }

  // Each planned name once

  /** No name twice, only planned ones, and none of those on the stack. */
  ghost predicate Partial(g: Graph, ordered: seq<Package>, visiting: set<string>) {
    Distinct(ordered) && Names(ordered) <= Names(g.plan) && Names(ordered) !! visiting
  }

  lemma {:induction false} VisitedNames(g: Graph, ordered: seq<Package>, visiting: set<string>, package: Package)
    requires package.name in Names(g.plan) && Partial(g, ordered, visiting)
    ensures var r := Visited(g, ordered, visiting, package);
            && Partial(g, r, visiting) && ordered <= r && Names(ordered) <= Names(r)
            && (package.name in Names(r) || package.name in visiting)
    decreases Names(g.plan) - visiting, 1, 0
  {
    hide Names, Distinct, Target;
    if package.name !in Names(ordered) && package.name !in visiting {
      VisitedForNames(g, ordered, visiting + {package.name}, package, |package.depends|);
      var before := VisitedFor(g, ordered, visiting + {package.name}, package, |package.depends|);
      NamesGrow(before, package);
      DistinctGrows(before, package);
    }
  }

  lemma DistinctGrows(ordered: seq<Package>, package: Package)
    requires Distinct(ordered) && package.name !in Names(ordered)
    ensures Distinct(ordered + [package])
  {
    assert forall i :: 0 <= i < |ordered| ==> ordered[i].name in Names(ordered);
  }

  lemma {:induction false} VisitedForNames(g: Graph, ordered: seq<Package>, visiting: set<string>, package: Package,
                                           n: nat)
    requires n <= |package.depends| && package.name in visiting && Partial(g, ordered, visiting)
    ensures var r := VisitedFor(g, ordered, visiting, package, n);
            && Partial(g, r, visiting) && ordered <= r && Names(ordered) <= Names(r)
            && forall j, b :: 0 <= j < n && LeadsTo(g, package.depends[j], b) ==> b in Names(r) || b in visiting
    decreases Names(g.plan) - visiting, 2, n
  {
    hide Names, Distinct, Target, Visited;
    if n > 0 {
      VisitedForNames(g, ordered, visiting, package, n - 1);
      var before := VisitedFor(g, ordered, visiting, package, n - 1);
      var target := Target(package.depends[n - 1], g.plan, g.index, g.installed);
      if target.Some? {
        VisitedNames(g, before, visiting, target.value);
      }
    }
  }

  lemma {:induction false} OrderOfNames(g: Graph, n: nat)
    requires n <= |g.plan|
    ensures Partial(g, OrderOf(g, n), {}) && Names(g.plan[..n]) <= Names(OrderOf(g, n))
    ensures forall m :: 0 <= m <= n ==> OrderOf(g, m) <= OrderOf(g, n)
  {
    if n > 0 {
      OrderOfNames(g, n - 1);
      assert g.plan[n - 1].name in Names(g.plan);
      VisitedNames(g, OrderOf(g, n - 1), {}, g.plan[n - 1]);
      assert g.plan[..n] == g.plan[..n - 1] + [g.plan[n - 1]];
      NamesGrow(g.plan[..n - 1], g.plan[n - 1]);
    }
  }

  lemma OrderNames(g: Graph)
    ensures Distinct(Order(g)) && Names(Order(g)) == Names(g.plan)
  {
    OrderOfNames(g, |g.plan|);
    assert g.plan[..|g.plan|] == g.plan;
  }

  // What comes first

  ghost predicate GraphUniform(g: Graph) {
    Uniform(g.plan, g.index, g.installed)
  }

  ghost predicate Reaches(g: Graph, a: string, b: string) {
    exists path: seq<string> :: Leads(g, path, a, b)
  }

  ghost predicate Leads(g: Graph, path: seq<string>, a: string, b: string) {
    path != [] && Path(g, path) && path[0] == a && path[|path| - 1] == b
  }

  lemma ReachesItself(g: Graph, a: string)
    ensures Reaches(g, a, a)
  {
    assert Leads(g, [a], a, a);
  }

  lemma ReachesFarther(g: Graph, a: string, b: string, c: string)
    requires Edge(g, a, b) && Reaches(g, b, c)
    ensures Reaches(g, a, c)
  {
    hide Edge;
    var path: seq<string> :| Leads(g, path, b, c);
    var longer := [a] + path;
    forall i | 0 <= i < |longer| - 1
      ensures Step(g, longer, i)
    {
      assert i > 0 ==> Step(g, path, i - 1);
    }
    assert Leads(g, longer, a, c);
  }

  /** The packages of the plan ordered so far, each after those visited for it if there are no cycles. */
  ghost predicate Placed(g: Graph, ordered: seq<Package>) {
    (forall p :: p in ordered ==> p in g.plan) && (Acyclic(g) ==> TargetsFirst(g, ordered))
  }

  /** What was added is reached from `a`. */
  ghost predicate AddsReached(g: Graph, ordered: seq<Package>, r: seq<Package>, a: string) {
    forall p :: p in r ==> p in ordered || Reaches(g, a, p.name)
  }

  /** The packages on the stack form a chain of visits that leads to `name`. */
  ghost predicate Chain(g: Graph, visiting: set<string>, trail: seq<string>, name: string) {
    && (forall n :: n in visiting <==> n in trail)
    && (name !in trail ==> Path(g, trail + [name]))
  }

  lemma {:induction false} VisitedPlaced(g: Graph, ordered: seq<Package>, visiting: set<string>, package: Package,
                                         trail: seq<string>)
    requires GraphUniform(g) && package in g.plan && package.name in Names(g.plan)
    requires Partial(g, ordered, visiting) && Placed(g, ordered) && Chain(g, visiting, trail, package.name)
    ensures var r := Visited(g, ordered, visiting, package);
            Placed(g, r) && AddsReached(g, ordered, r, package.name)
    decreases Names(g.plan) - visiting, 1, 0
  {
    hide Names, Distinct, Target, GraphUniform, Acyclic, TargetsFirst, Path, Reaches;
    if package.name !in Names(ordered) && package.name !in visiting {
      var stack, longer := visiting + {package.name}, trail + [package.name];
      VisitedForNames(g, ordered, stack, package, |package.depends|);
      VisitedForPlaced(g, ordered, stack, package, |package.depends|, longer);
      var before := VisitedFor(g, ordered, stack, package, |package.depends|);
      Finished(g, before, stack, package, longer);
      ReachesItself(g, package.name);
    }
  }

  lemma {:induction false} VisitedForPlaced(g: Graph, ordered: seq<Package>, visiting: set<string>, package: Package,
                                            n: nat, trail: seq<string>)
    requires n <= |package.depends| && GraphUniform(g) && package in g.plan && package.name in visiting
    requires Partial(g, ordered, visiting) && Placed(g, ordered)
    requires trail != [] && trail[|trail| - 1] == package.name && Path(g, trail)
    requires forall m :: m in visiting <==> m in trail
    ensures var r := VisitedFor(g, ordered, visiting, package, n);
            Placed(g, r) && AddsReached(g, ordered, r, package.name)
    decreases Names(g.plan) - visiting, 2, n
  {
    hide Names, Distinct, Target, Visited, GraphUniform, Acyclic, TargetsFirst, Path, Reaches;
    if n > 0 {
      VisitedForPlaced(g, ordered, visiting, package, n - 1, trail);
      VisitedForNames(g, ordered, visiting, package, n - 1);
      var before := VisitedFor(g, ordered, visiting, package, n - 1);
      var d := package.depends[n - 1];
      var target := Target(d, g.plan, g.index, g.installed);
      if target.Some? {
        NextOnTrail(g, package, d, trail);
        VisitedPlaced(g, before, visiting, target.value, trail);
        forall p | p in Visited(g, before, visiting, target.value) && p !in ordered
          ensures Reaches(g, package.name, p.name)
        {
          if p !in before {
            VisitedSelf(g, before, visiting, target.value);
            ReachesFarther(g, package.name, target.value.name, p.name);
          }
        }
      }
    }
  }

  /** Visiting a package on the stack adds nothing. */
  lemma VisitedSelf(g: Graph, ordered: seq<Package>, visiting: set<string>, package: Package)
    requires package.name in Names(g.plan)
    ensures package.name in visiting ==> Visited(g, ordered, visiting, package) == ordered
  {
  }

  lemma NextOnTrail(g: Graph, package: Package, d: string, trail: seq<string>)
    requires GraphUniform(g) && package in g.plan && d in package.depends
    requires Target(d, g.plan, g.index, g.installed).Some?
    requires trail != [] && trail[|trail| - 1] == package.name && Path(g, trail)
    ensures var b := Target(d, g.plan, g.index, g.installed).value;
            && b in g.plan && (b.name != package.name ==> Edge(g, package.name, b.name))
            && (b.name !in trail ==> Path(g, trail + [b.name]))
  {
    var b := Target(d, g.plan, g.index, g.installed).value.name;
    RecordIs(g.plan, package);
    hide Target, Names;
    assert LeadsTo(g, d, b);
    if b !in trail {
      var longer := trail + [b];
      forall i | 0 <= i < |longer| - 1
        ensures Step(g, longer, i)
      {
        assert i < |trail| - 1 ==> Step(g, trail, i);
      }
    }
  }

  lemma RecordIs(plan: seq<Package>, p: Package)
    requires Distinct(plan) && p in plan
    ensures p.name in Names(plan) && RecordOf(plan, p.name) == p
  {
    var i :| 0 <= i < |plan| && plan[i] == p;
    assert plan[i].name in Names(plan);
    var q := RecordOf(plan, p.name);
    var j :| 0 <= j < |plan| && plan[j] == q;
    assert i == j;
  }

  /** Appending a package whose dependencies have all been visited, or are being visited. */
  lemma Finished(g: Graph, ordered: seq<Package>, visiting: set<string>, package: Package, trail: seq<string>)
    requires GraphUniform(g) && package in g.plan && Path(g, trail) && Placed(g, ordered)
    requires trail != [] && trail[|trail| - 1] == package.name && forall n :: n in visiting <==> n in trail
    requires forall j, b :: 0 <= j < |package.depends| && LeadsTo(g, package.depends[j], b) ==>
               b in Names(ordered) || b in visiting
    ensures Placed(g, ordered + [package])
  {
    hide Names, GraphUniform, LeadsTo, Acyclic;
    var more := ordered + [package];
    if Acyclic(g) {
      forall i | 0 <= i < |more|
        ensures Follows(g, more, i)
      {
        assert more[..i] == ordered[..i];
        if i < |ordered| {
          assert Follows(g, ordered, i);
        } else {
          assert ordered[..i] == ordered;
          forall b: string | Edge(g, package.name, b)
            ensures b in Names(ordered)
          {
            EdgeTargets(g, package, b, trail);
          }
        }
      }
    }
  }

  /** A dependency that is still being visited would close a cycle. */
  lemma EdgeTargets(g: Graph, package: Package, b: string, trail: seq<string>)
    requires GraphUniform(g) && Acyclic(g) && package in g.plan && Path(g, trail) && Edge(g, package.name, b)
    requires trail != [] && trail[|trail| - 1] == package.name
    ensures b !in trail && exists j :: 0 <= j < |package.depends| && LeadsTo(g, package.depends[j], b)
  {
    RecordIs(g.plan, package);
    hide Names, LeadsTo;
    var d :| d in package.depends && LeadsTo(g, d, b);
    var j :| 0 <= j < |package.depends| && package.depends[j] == d;
    if b in trail {
      var k :| 0 <= k < |trail| && trail[k] == b;
      ClosedTrail(g, trail, k);
    }
  }

  lemma ClosedTrail(g: Graph, trail: seq<string>, k: nat)
    requires Path(g, trail) && k < |trail| && Edge(g, trail[|trail| - 1], trail[k])
    ensures Cycle(g, trail[k..] + [trail[k]])
  {
    hide Edge;
    var cycle := trail[k..] + [trail[k]];
    forall i | 0 <= i < |cycle| - 1
      ensures Step(g, cycle, i)
    {
      assert k + i < |trail| - 1 ==> Step(g, trail, k + i);
    }
  }

  lemma {:induction false} OrderOfPlaced(g: Graph, n: nat)
    requires GraphUniform(g) && n <= |g.plan|
    ensures Placed(g, OrderOf(g, n))
  {
    hide GraphUniform, Visited;
    if n > 0 {
      OrderOfPlaced(g, n - 1);
      OrderOfNames(g, n - 1);
      assert g.plan[n - 1].name in Names(g.plan);
      assert Path(g, [] + [g.plan[n - 1].name]);
      VisitedPlaced(g, OrderOf(g, n - 1), {}, g.plan[n - 1], []);
    }
  }

  /** The order of uniform records is a reordering of the plan, with what is visited first exactly without cycles. */
  lemma OrderUniform(g: Graph)
    requires GraphUniform(g)
    ensures forall p :: p in Order(g) <==> p in g.plan
    ensures TargetsFirst(g, Order(g)) <==> Acyclic(g)
  {
    hide OrderOf, Acyclic, TargetsFirst;
    OrderOfPlaced(g, |g.plan|);
    OrderNames(g);
    SameNamesSameRecords(g.plan, Order(g));
    OrderedIsAcyclic(g, Order(g));
  }

  lemma SameNamesSameRecords(plan: seq<Package>, ordered: seq<Package>)
    requires Distinct(plan) && Names(ordered) == Names(plan) && forall p :: p in ordered ==> p in plan
    ensures forall p :: p in ordered <==> p in plan
  {
    forall p | p in plan
      ensures p in ordered
    {
      RecordIs(plan, p);
      var i :| 0 <= i < |ordered| && ordered[i].name == p.name;
      RecordIs(plan, ordered[i]);
    }
  }

  lemma OrderedIsAcyclic(g: Graph, ordered: seq<Package>)
    requires Distinct(ordered) && Names(ordered) == Names(g.plan)
    ensures TargetsFirst(g, ordered) ==> Acyclic(g)
  {
    if TargetsFirst(g, ordered) {
      forall path: seq<string> | |path| >= 2 && Path(g, path)
        ensures path[0] != path[|path| - 1]
      {
        OrderRulesOutCycles(g, ordered, path);
      }
    }
  }

  // Providers

  /** Every dependency is ignored, installed, or provided by its package or one that comes before. */
  ghost predicate ProvidersFirst(ordered: seq<Package>, installed: set<string>) {
    forall i, d :: 0 <= i < |ordered| && d in ordered[i].depends ==> Settled(d, ordered[..i + 1], installed)
  }

  /** The sort gets from the package to one that provides the dependency. */
  ghost predicate ReachesProvider(g: Graph, p: Package, d: string) {
    || Ignored(d) || Normalize(d) in g.installed
    || exists q :: q in g.plan && Normalize(d) in Provisions(q) && Reaches(g, p.name, q.name)
  }

  ghost predicate ProvidersReached(g: Graph) {
    forall p, d :: p in g.plan && d in p.depends ==> ReachesProvider(g, p, d)
  }

  /** A plan with the same packages, in whatever order. */
  ghost predicate Reorders(g: Graph, h: Graph) {
    h == g.(plan := h.plan) && Distinct(h.plan) && forall p :: p in h.plan <==> p in g.plan
  }

  /** Without cycles of visits, a reached provider comes first. */
  lemma ReachedComesFirst(g: Graph)
    requires GraphUniform(g) && Acyclic(g) && ProvidersReached(g)
    ensures ProvidersFirst(Order(g), g.installed)
  {
    hide Acyclic, Order, Settled, Ignored, Normalize;
    OrderNames(g);
    OrderUniform(g);
    var ordered := Order(g);
    forall i, d | 0 <= i < |ordered| && d in ordered[i].depends
      ensures Settled(d, ordered[..i + 1], g.installed)
    {
      assert ordered[i] in g.plan;
      assert ReachesProvider(g, ordered[i], d);
      ReachedSettles(g, ordered, i, d);
    }
  }

  lemma ReachedSettles(g: Graph, ordered: seq<Package>, i: nat, d: string)
    requires Distinct(ordered) && Names(ordered) == Names(g.plan) && TargetsFirst(g, ordered) && i < |ordered|
    requires (forall p :: p in ordered <==> p in g.plan) && ReachesProvider(g, ordered[i], d)
    ensures Settled(d, ordered[..i + 1], g.installed)
  {
    hide Ignored, Normalize, TargetsFirst;
    var n := Normalize(d);
    if !Ignored(d) && n !in g.installed {
      var q :| q in g.plan && n in Provisions(q) && Reaches(g, ordered[i].name, q.name);
      var path: seq<string> :| Leads(g, path, ordered[i].name, q.name);
      var at := i;
      if |path| > 1 {
        at := PathDescends(g, ordered, path, |path| - 1);
      }
      assert q in ordered;
      var k :| 0 <= k < |ordered| && ordered[k] == q;
      assert k == at;
      assert ordered[..i + 1][k] == q;
      assert n in Provided(ordered[..i + 1]);
    }
  }

  /** Reordering a plan changes no visit. */
  lemma ReordersSame(g: Graph, h: Graph)
    requires GraphUniform(g) && Reorders(g, h)
    ensures GraphUniform(h) && Names(h.plan) == Names(g.plan)
    ensures forall a, b :: Edge(g, a, b) <==> Edge(h, a, b)
  {
    SameNames(g.plan, h.plan);
    forall n | n in Names(g.plan)
      ensures RecordOf(g.plan, n) == RecordOf(h.plan, n)
    {
      RecordIs(h.plan, RecordOf(g.plan, n));
    }
    hide RecordOf, Names;
    forall d: string
      ensures Target(d, h.plan, h.index, h.installed) == Target(d, g.plan, g.index, g.installed)
    {
    }
  }

  lemma SameNames(plan: seq<Package>, other: seq<Package>)
    requires forall p :: p in other <==> p in plan
    ensures Names(other) == Names(plan)
  {
    forall n | n in Names(plan)
      ensures n in Names(other)
    {
      var i :| 0 <= i < |plan| && plan[i].name == n;
      assert plan[i] in other;
    }
    forall n | n in Names(other)
      ensures n in Names(plan)
    {
      var i :| 0 <= i < |other| && other[i].name == n;
      assert other[i] in plan;
    }
  }

  lemma ReachesSame(g: Graph, h: Graph, a: string, b: string)
    requires forall x, y :: Edge(g, x, y) <==> Edge(h, x, y)
    ensures Reaches(g, a, b) <==> Reaches(h, a, b)
    ensures Acyclic(g) <==> Acyclic(h)
  {
    hide Edge;
    forall path: seq<string>
      ensures Path(g, path) <==> Path(h, path)
    {
      assert forall i :: 0 <= i < |path| - 1 ==> (Step(g, path, i) <==> Step(h, path, i));
    }
    hide Path;
    assert forall path: seq<string> :: Leads(g, path, a, b) <==> Leads(h, path, a, b);
    assert forall path: seq<string> :: Cycle(g, path) <==> Cycle(h, path);
  }

  lemma ReachesProviderSame(g: Graph, h: Graph, p: Package, d: string)
    requires GraphUniform(g) && Reorders(g, h)
    ensures ReachesProvider(g, p, d) <==> ReachesProvider(h, p, d)
  {
    hide GraphUniform, Reaches, Edge, Ignored, Normalize, Provisions;
    ReordersSame(g, h);
    forall q
      ensures Reaches(g, p.name, q) <==> Reaches(h, p.name, q)
    {
      ReachesSame(g, h, p.name, q);
    }
  }

  /** A package whose provider is not reached, put first: what comes before it is what it reaches. */
  lemma UnreachedComesLate(h: Graph, d: string)
    requires GraphUniform(h) && h.plan != [] && d in h.plan[0].depends && !ReachesProvider(h, h.plan[0], d)
    ensures !ProvidersFirst(Order(h), h.installed)
  {
    hide GraphUniform, Ignored, Normalize, Reaches, Acyclic, Target;
    var p := h.plan[0];
    assert p.name in Names(h.plan);
    assert Path(h, [] + [p.name]);
    var r := Visited(h, [], {}, p);
    VisitedPlaced(h, [], {}, p, []);
    assert OrderOf(h, 1) == r && OrderOf(h, 0) == [];
    OrderOfNames(h, |h.plan|);
    var last := |r| - 1;
    assert r[last] == p && Order(h)[..last + 1] == r && Order(h)[last] == p;
    hide Visited, OrderOf;
    forall k | 0 <= k < |r|
      ensures Normalize(d) !in Provisions(r[k])
    {
      assert r[k] in r;
    }
  }

  /** The plan with one of its packages put first. */
  lemma PutFirst(g: Graph, p: Package) returns (h: Graph)
    requires Distinct(g.plan) && p in g.plan
    ensures Reorders(g, h) && h.plan != [] && h.plan[0] == p
  {
    var i :| 0 <= i < |g.plan| && g.plan[i] == p;
    var plan := [p] + g.plan[..i] + g.plan[i + 1..];
    h := g.(plan := plan);
    assert forall j :: 0 <= j < |plan| ==> plan[j] == g.plan[if j == 0 then i else if j <= i then j - 1 else j];
    forall q | q in g.plan
      ensures q in plan
    {
      var j :| 0 <= j < |g.plan| && g.plan[j] == q;
      assert plan[if j == i then 0 else if j < i then j + 1 else j] == q;
    }
  }

  /** Whatever order the plan has, providers come first. */
  ghost predicate AlwaysProvidersFirst(g: Graph) {
    forall h :: Reorders(g, h) ==> ProvidersFirst(Order(h), g.installed)
  }

  /** Whatever order the plan has, so does what is visited. */
  ghost predicate AlwaysTargetsFirst(g: Graph) {
    forall h :: Reorders(g, h) ==> TargetsFirst(h, Order(h))
  }

  /**
   Without cycles of visits every order of the plan is installed with providers first, if and only if the sort gets
   from each package to a provider of each of its dependencies. With cycles the condition is necessary still.
   */
  lemma ProvidersFirstExactly(g: Graph)
    requires GraphUniform(g)
    ensures AlwaysProvidersFirst(g) ==> ProvidersReached(g)
    ensures Acyclic(g) ==> (AlwaysProvidersFirst(g) <==> ProvidersReached(g))
    ensures AlwaysTargetsFirst(g) && AlwaysProvidersFirst(g) <==> Acyclic(g) && ProvidersReached(g)
  {
    hide Acyclic, Edge, ReachesProvider, ProvidersFirst, Order, TargetsFirst;
    forall h | Reorders(g, h)
      ensures TargetsFirst(h, Order(h)) <==> Acyclic(g)
      ensures Acyclic(g) && ProvidersReached(g) ==> ProvidersFirst(Order(h), g.installed)
    {
      ReordersSame(g, h);
      ReachesSame(g, h, "", "");
      OrderUniform(h);
      if Acyclic(g) && ProvidersReached(g) {
        forall p, d | p in h.plan && d in p.depends
          ensures ReachesProvider(h, p, d)
        {
          ReachesProviderSame(g, h, p, d);
        }
        ReachedComesFirst(h);
      }
    }
    if !ProvidersReached(g) {
      var p, d :| p in g.plan && d in p.depends && !ReachesProvider(g, p, d);
      var h := PutFirst(g, p);
      ReordersSame(g, h);
      ReachesProviderSame(g, h, p, d);
      UnreachedComesLate(h, d);
    }
    assert Reorders(g, g);
  }
}
