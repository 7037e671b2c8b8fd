/** The installed-package store of arch-linux/pacman_graph.py (`PacmanInstalledSet`):
    building it, resolving aliases, finalising the dependency sets into a reverse-dependency
    index, and the retained / adjusted / uniquely retained size computations. */
module PacmanGraph {
  import opened Wrappers
  import opened PyExceptions
  import opened PacmanValues
  import opened DependencyClosure

  /** The three pieces of state `resolve_alias` consults. */
  datatype AliasTable = AliasTable(installed: set<string>, unknowns: set<string>,
                                   aliases: map<string, string>)
  {
    /** `resolve_alias`: an installed package or a recorded unknown is its own name (a package
        wins over an alias of the same name); otherwise an alias maps to its target and any
        other name stays as it is. */
    function Resolve(name: string): (r: string)
      ensures name in installed || name in unknowns ==> r == name
      ensures name !in installed && name !in unknowns && name in aliases ==> r == aliases[name]
      ensures name !in installed && name !in unknowns && name !in aliases ==> r == name
    {
      if name in installed || name in unknowns then name
      else if name in aliases then aliases[name]
      else name
    }

    /** The image of a set of names under Resolve. */
    function ResolveAll(names: set<string>): (r: set<string>)
      ensures forall n :: n in names ==> Resolve(n) in r
      ensures forall m :: m in r ==> exists n :: n in names && Resolve(n) == m
    {
      set n | n in names :: Resolve(n)
    }

    /** No alias leads to another alias: every target resolves to itself. */
    ghost predicate Chainless() {
      forall a :: a in aliases ==> Resolve(aliases[a]) == aliases[a]
    }

    /** Every alias target is an installed package. */
    ghost predicate TargetsInstalled() {
      forall a :: a in aliases ==> aliases[a] in installed
    }
  }

  /** Resolving twice is resolving once, as long as no alias points at another alias. */
  lemma ResolveIdempotent(t: AliasTable, name: string)
    requires t.Chainless()
    ensures t.Resolve(t.Resolve(name)) == t.Resolve(name)
  {
    if name !in t.installed && name !in t.unknowns && name in t.aliases {
      assert t.Resolve(t.aliases[name]) == t.aliases[name];
    }
  }

  /** Aliases whose targets are installed packages never chain. */
  lemma TargetsInstalledChainless(t: AliasTable)
    requires t.TargetsInstalled()
    ensures t.Chainless()
  {
  }

  /** The dependency graph of a package map. */
  function GraphOf(packages: map<string, Package>): (g: Graph)
    ensures g.Keys == packages.Keys
    ensures forall p :: p in g ==> g[p] == packages[p].dependencies
  {
    map p | p in packages :: packages[p].dependencies
  }

  /** Every name some package of the map depends on. */
  ghost function ReferencedBy(packages: map<string, Package>): set<string> {
    set p, d | p in packages && d in packages[p].dependencies :: d
  }

  /** Changing anything but dependency sets leaves the referenced names alone. */
  lemma ReferencedKeepsDeps(before: map<string, Package>, after: map<string, Package>)
    requires after.Keys == before.Keys
    requires forall p :: p in after ==> after[p].dependencies == before[p].dependencies
    ensures ReferencedBy(after) == ReferencedBy(before)
  {
    forall d | d in ReferencedBy(after) ensures d in ReferencedBy(before) {
      var p :| p in after && d in after[p].dependencies;
      assert p in before && d in before[p].dependencies;
    }
    forall d | d in ReferencedBy(before) ensures d in ReferencedBy(after) {
      var p :| p in before && d in before[p].dependencies;
      assert p in after && d in after[p].dependencies;
    }
  }

  /** The package `finalise_dependency_sets` leaves in place of `pkg`: dependencies resolved,
      optional dependencies resolved and restricted to installed packages. */
  function FinalisedPackage(t: AliasTable, pkg: Package): (r: Package)
    ensures r.name == pkg.name && r.size == pkg.size
    ensures forall d :: d in r.dependencies <==> exists n :: n in pkg.dependencies && t.Resolve(n) == d
    ensures forall d :: d in r.optionalDependencies <==>
              d in t.installed && exists n :: n in pkg.optionalDependencies && t.Resolve(n) == d
  {
    pkg.(dependencies := t.ResolveAll(pkg.dependencies),
         optionalDependencies := t.ResolveAll(pkg.optionalDependencies) * t.installed)
  }

  /** Packages are stored under their own names, and an unknown is a dependency name that is
      neither a package nor an alias. */
  ghost predicate ValidState(packages: map<string, Package>, unknowns: set<string>,
                             aliases: map<string, string>)
  {
    (forall n :: n in packages ==> packages[n].name == n)
    && unknowns <= ReferencedBy(packages) - packages.Keys - aliases.Keys
  }

  /** Every dependency name that is neither a package nor an alias is an unknown. */
  ghost predicate UnknownsCover(packages: map<string, Package>, unknowns: set<string>,
                                aliases: map<string, string>)
  {
    ReferencedBy(packages) - packages.Keys - aliases.Keys <= unknowns
  }

  /** Every dependency name resolves to itself. */
  ghost predicate ResolvedDeps(t: AliasTable, packages: map<string, Package>) {
    forall p, d :: p in packages && d in packages[p].dependencies ==> t.Resolve(d) == d
  }

  /** The package maps before and after finalisation. */
  ghost predicate FinalisedFrom(t: AliasTable, before: map<string, Package>, after: map<string, Package>) {
    after.Keys == before.Keys &&
    forall p :: p in after ==> after[p] == FinalisedPackage(t, before[p])
  }

  /** Finalisation keeps every recorded unknown among the dependency names. */
  lemma FinaliseKeepsUnknowns(t: AliasTable, before: map<string, Package>, after: map<string, Package>)
    requires FinalisedFrom(t, before, after)
    requires t.unknowns <= ReferencedBy(before)
    ensures t.unknowns <= ReferencedBy(after)
  {
    forall u | u in t.unknowns ensures u in ReferencedBy(after) {
      var q :| q in before && u in before[q].dependencies;
      assert u in after[q].dependencies;
    }
  }

  /** Without alias chains, finalised dependency names resolve to themselves. */
  lemma FinaliseResolves(t: AliasTable, before: map<string, Package>, after: map<string, Package>)
    requires FinalisedFrom(t, before, after) && t.Chainless()
    ensures forall q, d :: q in after && d in after[q].dependencies ==> t.Resolve(d) == d
  {
    forall q, d | q in after && d in after[q].dependencies ensures t.Resolve(d) == d {
      var n :| n in before[q].dependencies && t.Resolve(n) == d;
      ResolveIdempotent(t, n);
    }
  }

  /** With every alias target installed, a finalised dependency name that is neither a package
      nor an alias was already a recorded unknown. */
  lemma FinaliseKeepsUnknownsComplete(t: AliasTable, before: map<string, Package>,
                                      after: map<string, Package>)
    requires FinalisedFrom(t, before, after) && t.installed == before.Keys && t.TargetsInstalled()
    requires ReferencedBy(before) - before.Keys - t.aliases.Keys <= t.unknowns
    ensures ReferencedBy(after) - after.Keys - t.aliases.Keys <= t.unknowns
  {
    forall d | d in ReferencedBy(after) - after.Keys - t.aliases.Keys ensures d in t.unknowns {
      var q :| q in after && d in after[q].dependencies;
      var n :| n in before[q].dependencies && t.Resolve(n) == d;
      assert n in ReferencedBy(before);
    }
  }

  /** `revdep_cache[d].add(name)` for every d in deps. */
  method AddRevdeps(rc: map<string, set<string>>, deps: set<string>, name: string)
    returns (rc': map<string, set<string>>)
    ensures forall d, q :: q in SetLookup(rc', d) <==> q in SetLookup(rc, d) || (q == name && d in deps)
  {
    rc' := rc;
    var rest := deps;
    while rest != {}
      invariant rest <= deps
      invariant forall d, q :: q in SetLookup(rc', d) <==>
                  q in SetLookup(rc, d) || (q == name && d in deps - rest)
      decreases rest
    {
      var d :| d in rest;
      rc' := rc'[d := SetLookup(rc', d) + {name}];
      rest := rest - {d};
    }
  }

  /** Finalisation keeps the names, the recorded unknowns and their completeness, and, without
      alias chains, leaves every dependency name resolved. */
  lemma FinaliseKeepsState(t: AliasTable, before: map<string, Package>, after: map<string, Package>)
    requires FinalisedFrom(t, before, after) && t.installed == before.Keys
    requires ValidState(before, t.unknowns, t.aliases)
    ensures ValidState(after, t.unknowns, t.aliases)
    ensures t.Chainless() ==> ResolvedDeps(t, after)
    ensures UnknownsCover(before, t.unknowns, t.aliases) && t.TargetsInstalled() ==>
              UnknownsCover(after, t.unknowns, t.aliases)
  {
    FinaliseKeepsUnknowns(t, before, after);
    if t.Chainless() {
      FinaliseResolves(t, before, after);
    }
    if UnknownsCover(before, t.unknowns, t.aliases) && t.TargetsInstalled() {
      FinaliseKeepsUnknownsComplete(t, before, after);
    }
  }

  /** The loop of `finalise_dependency_sets` on the package map: finalise every package and
      index the reverse dependencies of the finalised sets. */
  method FinaliseAll(t: AliasTable, before: map<string, Package>)
    returns (after: map<string, Package>, rc: map<string, set<string>>)
    requires forall n :: n in before ==> before[n].name == n
    ensures FinalisedFrom(t, before, after)
    ensures forall d, q :: q in SetLookup(rc, d) <==> q in after && d in after[q].dependencies
  {
    after := before;
    rc := map[];
    var todo := before.Keys;
    ghost var done: set<string> := {};
    while todo != {}
      invariant todo !! done && todo + done == before.Keys && after.Keys == before.Keys
      invariant forall p :: p in todo ==> after[p] == before[p]
      invariant forall p :: p in done ==> after[p] == FinalisedPackage(t, before[p])
      invariant forall d, q :: q in SetLookup(rc, d) <==> q in done && d in after[q].dependencies
      decreases todo
    {
      var p :| p in todo;
      var pkg := FinalisedPackage(t, after[p]);
      after := after[p := pkg];
      rc := AddRevdeps(rc, pkg.dependencies, pkg.name);
      todo := todo - {p};
      done := done + {p};
    }
  }

  /** A set of packages that holds the dependencies of each of its members is closed. */
  lemma ClosedFromDeps(packages: map<string, Package>, R: set<string>)
    requires R <= packages.Keys
    requires forall q :: q in R ==> packages[q].dependencies <= R
    ensures Closed(GraphOf(packages), map[], R)
  {
    forall p, d | p in R && p in GraphOf(packages) && d in GraphOf(packages)[p] &&
                  SetLookup(map[], d) <= R
      ensures d in R
    {
    }
  }

  /** The converse: a closed set of installed packages holds the dependencies of its members. */
  lemma DepsFromClosed(packages: map<string, Package>, R: set<string>)
    requires R <= packages.Keys && Closed(GraphOf(packages), map[], R)
    ensures forall q :: q in R ==> packages[q].dependencies <= R
  {
    forall q, d | q in R && d in packages[q].dependencies ensures d in R {
      ClosedUnderEdges(GraphOf(packages), R, q, d);
    }
  }

  /** Resolving a set of names that is already resolved changes nothing. */
  lemma ResolveAllIdempotent(t: AliasTable, names: set<string>)
    requires t.Chainless()
    ensures forall n :: n in t.ResolveAll(names) ==> t.Resolve(n) == n
    ensures t.ResolveAll(t.ResolveAll(names)) == t.ResolveAll(names)
  {
    forall n | n in t.ResolveAll(names) ensures t.Resolve(n) == n {
      var m :| m in names && t.Resolve(m) == n;
      ResolveIdempotent(t, m);
    }
  }

  /** `queue.extend(s)`: the members of a set, in some order. */
  method SetToSeq(s: set<string>) returns (q: seq<string>)
    ensures forall x :: x in q <==> x in s
    ensures s == {} ==> q == []
  {
    q := [];
    var rest := s;
    while rest != {}
      invariant rest <= s
      invariant forall x :: x in q <==> x in s - rest
      invariant s == {} ==> q == []
      decreases rest
    {
      var x :| x in rest;
      q := q + [x];
      rest := rest - {x};
    }
  }

  /** Each package's own size, `size or 0`; names that are not packages weigh nothing. */
  function OwnSize(packages: map<string, Package>): string -> real {
    q => if q in packages then packages[q].SizeOr0() as real else 0.0
  }

  /** `size * (part / whole)`: a size weighted by a fraction. */
  function Portion(size: real, part: nat, whole: nat): real
    requires whole != 0
  {
    size * ((part as real) / (whole as real))
  }

  /** A portion by a fraction of at most one lies between nothing and the whole size. */
  lemma PortionBounds(size: real, part: nat, whole: nat)
    requires whole != 0 && part <= whole && 0.0 <= size
    ensures 0.0 <= Portion(size, part, whole) <= size
  {
    var w := (part as real) / (whole as real);
    assert 0.0 <= w <= 1.0;
    assert size * w <= size * 1.0;
  }

  /** The part of q's size that a retained set R accounts for in the adjusted size: the size
      times the fraction of q's reverse dependencies that lie in R (nothing when q has none). */
  function RevdepShare(packages: map<string, Package>, rc: map<string, set<string>>,
                       R: set<string>): string -> real
  {
    q => var rev := SetLookup(rc, q);
         if |rev| == 0 then 0.0
         else Portion(OwnSize(packages)(q), |rev * R|, |rev|)
  }

  /** The share of an installed package with reverse dependencies, spelled out. */
  lemma ShareOf(packages: map<string, Package>, rc: map<string, set<string>>, R: set<string>,
                q: string)
    requires q in packages && |SetLookup(rc, q)| != 0
    ensures RevdepShare(packages, rc, R)(q) ==
            Portion(packages[q].SizeOr0() as real, |SetLookup(rc, q) * R|, |SetLookup(rc, q)|)
  {
    assert OwnSize(packages)(q) == packages[q].SizeOr0() as real;
  }

  /** A share is never negative and never more than the package's own size. */
  lemma RevdepShareBounds(packages: map<string, Package>, rc: map<string, set<string>>,
                          R: set<string>, q: string)
    ensures 0.0 <= RevdepShare(packages, rc, R)(q) <= OwnSize(packages)(q)
  {
    var rev := SetLookup(rc, q);
    if |rev| != 0 {
      SubsetNotLarger(rev * R, rev);
      PortionBounds(OwnSize(packages)(q), |rev * R|, |rev|);
    }
  }

  /** The adjusted size before truncation: the start packages at full size, every other retained
      package at its share. */
  ghost function AdjustedTotal(packages: map<string, Package>, rc: map<string, set<string>>,
                               start: set<string>, retained: set<string>): real
  {
    SumOver(start, OwnSize(packages)) + SumOver(retained - start, RevdepShare(packages, rc, retained))
  }

  /** The adjusted size lies between the start packages' own sizes and the retained size. */
  lemma AdjustedTotalBounds(packages: map<string, Package>, rc: map<string, set<string>>,
                            start: set<string>, retained: set<string>)
    requires start <= retained
    ensures SumOver(start, OwnSize(packages)) <= AdjustedTotal(packages, rc, start, retained)
    ensures AdjustedTotal(packages, rc, start, retained) <= SumOver(retained, OwnSize(packages))
  {
    var share := RevdepShare(packages, rc, retained);
    forall q | q in retained - start
      ensures 0.0 <= share(q) && share(q) <= OwnSize(packages)(q)
    {
      RevdepShareBounds(packages, rc, retained, q);
    }
    SumOverNonneg(retained - start, share);
    SumOverLe(retained - start, share, OwnSize(packages));
    SumOverUnion(start, retained - start, OwnSize(packages));
    assert start + (retained - start) == retained;
  }

  /** The truncated adjusted size, assembled from the start packages' sizes and the shares. */
  lemma AdjustedFloor(packages: map<string, Package>, rc: map<string, set<string>>,
                      start: set<string>, retained: set<string>, own: nat, shares: real)
    requires start <= retained
    requires own as real == SumOver(start, OwnSize(packages))
    requires shares == SumOver(retained - start, RevdepShare(packages, rc, retained))
    ensures var v := (own as real + shares).Floor;
            0 <= v && v == AdjustedTotal(packages, rc, start, retained).Floor &&
            SumOver(start, OwnSize(packages)) <= v as real <= SumOver(retained, OwnSize(packages))
  {
    var total := AdjustedTotal(packages, rc, start, retained);
    assert total == own as real + shares;
    AdjustedTotalBounds(packages, rc, start, retained);
    FloorBetween(own, total, SumOver(retained, OwnSize(packages)));
  }

  /** Truncating a value that lies above a whole number keeps it above that number. */
  lemma FloorBetween(lo: nat, x: real, hi: real)
    requires lo as real <= x <= hi
    ensures 0 <= x.Floor && lo <= x.Floor && x.Floor as real <= hi
  {
  }

  /** What `compute_adjusted_size` promises for resolved start names: on success the retained
      set is installed and the result is the truncated adjusted total, between the start
      packages' own sizes and the retained size (and equal to the plain sum when started from
      every package); it fails only with KeyError for an uninstalled retained name or with
      ZeroDivisionError for a retained package without reverse dependencies (only once the
      whole retained set is known to be installed, since the KeyErrors come first), and it succeeds
      whenever neither can happen. */
  ghost predicate AdjustedOutcome(packages: map<string, Package>, rc: map<string, set<string>>,
                                  start: set<string>, r: Result<nat, Exception>)
  {
    var retained := Reach(GraphOf(packages), start);
    (r.Ok? ==> retained <= packages.Keys &&
               r.value == AdjustedTotal(packages, rc, start, retained).Floor &&
               SumOver(start, OwnSize(packages)) <= r.value as real <= SumOver(retained, OwnSize(packages)) &&
               (start == packages.Keys ==> r.value as real == SumOver(start, OwnSize(packages)))) &&
    (r.Err? ==> (r.error.KeyError? && r.error.key in retained - packages.Keys) ||
                (r.error == ZeroDivisionError && retained <= packages.Keys &&
                 exists q :: q in retained - start && SetLookup(rc, q) == {})) &&
    ((retained <= packages.Keys && forall q :: q in retained - start ==> SetLookup(rc, q) != {}) ==> r.Ok?)
  }

  /** Started from every package, the adjusted size is the plain sum of own sizes. */
  lemma AdjustedSizeOfEverything(packages: map<string, Package>, rc: map<string, set<string>>)
    requires Reach(GraphOf(packages), packages.Keys) <= packages.Keys
    ensures AdjustedTotal(packages, rc, packages.Keys, Reach(GraphOf(packages), packages.Keys))
            == SumOver(packages.Keys, OwnSize(packages))
  {
    assert Reach(GraphOf(packages), packages.Keys) - packages.Keys == {};
  }

  class PacmanInstalledSet {
    var packages: map<string, Package>
    var unknowns: set<string>
    var aliases: map<string, string>
    var revdepCache: Option<map<string, set<string>>>
    var retainedSetCache: map<string, set<string>>

    function Table(): AliasTable
      reads this`packages, this`unknowns, this`aliases
    {
      AliasTable(packages.Keys, unknowns, aliases)
    }

    /** Every name some package depends on. */
    ghost function Referenced(): set<string>
      reads this`packages
    {
      ReferencedBy(packages)
    }

    /** Packages are stored under their own names, and an unknown is a dependency name that is
        neither a package nor an alias. */
    ghost predicate Valid()
      reads this`packages, this`unknowns, this`aliases
    {
      ValidState(packages, unknowns, aliases)
    }

    /** Every dependency name that is neither a package nor an alias is recorded as unknown. */
    ghost predicate UnknownsComplete()
      reads this`packages, this`unknowns, this`aliases
    {
      UnknownsCover(packages, unknowns, aliases)
    }

    /** Every dependency name is already in resolved form. */
    ghost predicate DepsResolved()
      reads this`packages, this`unknowns, this`aliases
    {
      ResolvedDeps(Table(), packages)
    }

    /** The reverse-dependency index holds exactly the inverse of the dependency relation. */
    ghost predicate RevdepExact()
      reads this`packages, this`revdepCache
    {
      revdepCache.Some? &&
      forall d, p :: p in SetLookup(revdepCache.value, d) <==>
                     p in packages && d in packages[p].dependencies
    }

    /** The packages a name retains: the transitive dependency closure of the name. */
    ghost function Closure(name: string): set<string>
      reads this`packages
    {
      Reach(GraphOf(packages), {name})
    }

    /** Every cache entry, alias keys included, is the closure of its resolved key and consists
        of installed packages. */
    ghost predicate CacheSound()
      reads this`packages, this`unknowns, this`aliases, this`retainedSetCache
    {
      forall k :: k in retainedSetCache ==>
        retainedSetCache[k] == Closure(Table().Resolve(k)) && retainedSetCache[k] <= packages.Keys
    }

    constructor ()
      ensures packages == map[] && unknowns == {} && aliases == map[]
      ensures revdepCache == None && retainedSetCache == map[]
      ensures Valid() && UnknownsComplete() && Table().TargetsInstalled()
    {
      packages := map[];
      unknowns := {};
      aliases := map[];
      revdepCache := None;
      retainedSetCache := map[];
    }

    /** `resolve_alias`. */
    function ResolveAlias(name: string): (r: string)
      reads this`packages, this`unknowns, this`aliases
      ensures name in packages || name in unknowns ==> r == name
      ensures name !in packages && name !in unknowns ==> r == if name in aliases then aliases[name] else name
    {
      Table().Resolve(name)
    }

    /** `add_package`: a duplicate name is refused; a new package starts with no dependencies
        and no size, and its name stops being an unknown. */
    method AddPackage(name: string) returns (r: Result<(), Exception>)
      requires Valid()
      modifies this`packages, this`unknowns
      ensures Valid()
      ensures old(UnknownsComplete()) ==> UnknownsComplete()
      ensures old(Table().TargetsInstalled()) ==> Table().TargetsInstalled()
      ensures name in old(packages) ==>
                r == Err(ValueError("Package " + name + " already added")) &&
                packages == old(packages) && unknowns == old(unknowns)
      ensures name !in old(packages) ==>
                r == Ok(()) && packages == old(packages)[name := NewPackage(name)] &&
                unknowns == old(unknowns) - {name}
    {
      if name in packages {
        return Err(ValueError("Package " + name + " already added"));
      }
      packages := packages[name := NewPackage(name)];
      unknowns := unknowns - {name};
      assert Referenced() == old(Referenced()) by {
        forall d | d in Referenced() ensures d in old(Referenced()) {
          var p :| p in packages && d in packages[p].dependencies;
          assert p != name;
        }
        forall d | d in old(Referenced()) ensures d in Referenced() {
          var p :| p in old(packages) && d in old(packages)[p].dependencies;
          assert p in packages && d in packages[p].dependencies;
        }
      }
      return Ok(());
    }

    /** `add_dependency`: refused for a package never added; a dependency that is neither a
        package nor an alias is recorded as unknown. */
    method AddDependency(package: string, dependency: string) returns (r: Result<(), Exception>)
      requires Valid()
      modifies this`packages, this`unknowns
      ensures Valid()
      ensures old(UnknownsComplete()) ==> UnknownsComplete()
      ensures old(Table().TargetsInstalled()) ==> Table().TargetsInstalled()
      ensures package !in old(packages) ==>
                r == Err(ValueError("Package " + package + " not added yet")) &&
                packages == old(packages) && unknowns == old(unknowns)
      ensures package in old(packages) ==>
                var pkg := old(packages)[package];
                r == Ok(()) &&
                packages == old(packages)[package := pkg.(dependencies := pkg.dependencies + {dependency})] &&
                unknowns == if dependency in old(packages) || dependency in aliases
                            then old(unknowns) else old(unknowns) + {dependency}
    {
      if package !in packages {
        return Err(ValueError("Package " + package + " not added yet"));
      }
      if dependency !in packages && dependency !in aliases {
        unknowns := unknowns + {dependency};
      }
      var pkg := packages[package];
      packages := packages[package := pkg.(dependencies := pkg.dependencies + {dependency})];
      assert Referenced() == old(Referenced()) + {dependency} by {
        forall d | d in Referenced() ensures d in old(Referenced()) + {dependency} {
          var p :| p in packages && d in packages[p].dependencies;
          if p != package || d != dependency {
            assert p in old(packages) && d in old(packages)[p].dependencies;
          }
        }
        forall d | d in old(Referenced()) + {dependency} ensures d in Referenced() {
          if d != dependency {
            var p :| p in old(packages) && d in old(packages)[p].dependencies;
            assert p in packages && d in packages[p].dependencies;
          } else {
            assert package in packages && d in packages[package].dependencies;
          }
        }
      }
      return Ok(());
    }

    /** `add_optional_dependency`: refused for a package never added; otherwise only the
        package's optional set grows. */
    method AddOptionalDependency(package: string, dependency: string) returns (r: Result<(), Exception>)
      requires Valid()
      modifies this`packages
      ensures Valid()
      ensures old(UnknownsComplete()) ==> UnknownsComplete()
      ensures package !in old(packages) ==>
                r == Err(ValueError("Package " + package + " not added yet")) &&
                packages == old(packages)
      ensures package in old(packages) ==>
                var pkg := old(packages)[package];
                r == Ok(()) &&
                packages == old(packages)[package := pkg.(optionalDependencies := pkg.optionalDependencies + {dependency})]
    {
      if package !in packages {
        return Err(ValueError("Package " + package + " not added yet"));
      }
      var pkg := packages[package];
      packages := packages[package := pkg.(optionalDependencies := pkg.optionalDependencies + {dependency})];
      ReferencedKeepsDeps(old(packages), packages);
      return Ok(());
    }

    /** `add_alias`: the alias (re)points at the target and stops being an unknown. */
    method AddAlias(alias: string, target: string)
      requires Valid()
      modifies this`aliases, this`unknowns
      ensures aliases == old(aliases)[alias := target]
      ensures unknowns == old(unknowns) - {alias}
      ensures Valid()
      ensures old(UnknownsComplete()) ==> UnknownsComplete()
      ensures old(Table().TargetsInstalled()) && target in packages ==> Table().TargetsInstalled()
    {
      aliases := aliases[alias := target];
      unknowns := unknowns - {alias};
    }

    /** `__getitem__`: a name that is an alias and not a package is looked up as its target. */
    function GetItem(key: string): (r: Result<Package, Exception>)
      reads this`packages, this`aliases
      ensures r.Ok? ==> r.value in packages.Values
      ensures key in packages ==> r == Ok(packages[key])
      ensures key !in packages && key in aliases ==>
                r == if aliases[key] in packages then Ok(packages[aliases[key]]) else Err(KeyError(aliases[key]))
      ensures key !in packages && key !in aliases ==> r == Err(KeyError(key))
    {
      var k := if key in aliases && key !in packages then aliases[key] else key;
      if k in packages then Ok(packages[k]) else Err(KeyError(k))
    }

    /** Looking an item up agrees with resolving the name first. */
    lemma GetItemResolves(key: string)
      requires Valid()
      ensures var n := ResolveAlias(key);
              GetItem(key) == if n in packages then Ok(packages[n]) else Err(KeyError(n))
    {
    }

    /** `finalise_dependency_sets`: resolve every dependency set, keep only installed optional
        dependencies, and build the reverse-dependency index. */
    method FinaliseDependencySets()
      requires Valid()
      modifies this`packages, this`revdepCache
      ensures FinalisedFrom(Table(), old(packages), packages)
      ensures RevdepExact()
      ensures Valid()
      ensures Table().Chainless() ==> DepsResolved()
      ensures old(UnknownsComplete()) && Table().TargetsInstalled() ==> UnknownsComplete()
    {
      var t := Table();
      ghost var before := packages;
      var after, rc := FinaliseAll(t, packages);
      FinaliseKeepsState(t, before, after);
      packages := after;
      revdepCache := Some(rc);
      assert Table() == t;
    }

    /** `compute_retained_set_internal`: the packages `package` retains, together with the
        ancestors (members of `parents`) that some retained package depends on. A result whose
        ancestor set is empty is the whole closure and is cached; an alias whose target is
        cached gets its own cache entry. A reachable name that is not an installed package
        raises KeyError. */
    method RetainedSetInternal(package: string, parents: set<string>)
      returns (r: Result<(set<string>, set<string>), Exception>)
      requires CacheSound() && DepsResolved() && Table().Chainless()
      requires parents <= packages.Keys && ResolveAlias(package) !in parents
      modifies this`retainedSetCache
      ensures CacheSound()
      ensures r.Ok? ==>
                var p := ResolveAlias(package);
                var retained := r.value.0;
                var cycle := r.value.1;
                p in retained && retained <= Closure(p) && retained <= packages.Keys &&
                cycle <= parents &&
                (forall q :: q in retained ==> packages[q].dependencies <= retained + cycle) &&
                (cycle == {} ==> retained == Closure(p))
      ensures r.Err? ==>
                r.error.KeyError? && r.error.key in Closure(ResolveAlias(package)) - packages.Keys
      ensures forall k :: k in old(retainedSetCache) ==>
                k in retainedSetCache && retainedSetCache[k] == old(retainedSetCache)[k]
      ensures ResolveAlias(package) in old(retainedSetCache) ==> package in retainedSetCache
      ensures r.Ok? && r.value.1 == {} ==>
                package in retainedSetCache || ResolveAlias(package) in retainedSetCache
      ensures forall k :: k in retainedSetCache && k !in old(retainedSetCache) ==>
                k !in parents && (k == ResolveAlias(package) ==> r.Ok? && r.value.1 == {})
      decreases packages.Keys - parents, 2
    {
      if package in retainedSetCache {
        ResolveIdempotent(Table(), package);
        DepsFromClosed(packages, retainedSetCache[package]);
        return Ok((retainedSetCache[package], {}));
      }
      var oldName := package;
      var p := ResolveAlias(package);
      ResolveIdempotent(Table(), package);
      if p in retainedSetCache {
        retainedSetCache := retainedSetCache[oldName := retainedSetCache[p]];
        DepsFromClosed(packages, retainedSetCache[p]);
        return Ok((retainedSetCache[p], {}));
      }
      if p !in packages {
        return Err(KeyError(p));
      }
      r := RetainedFromDeps(p, parents);
    }

    /** The uncached part of `compute_retained_set_internal` for an installed package p: walk
        the dependencies, drop p itself from the ancestors they ran into, and cache the result
        under p exactly when no cycle through an earlier ancestor was cut. Earlier cache entries
        stay, and no ancestor gets a new entry. */
    method RetainedFromDeps(p: string, parents: set<string>)
      returns (r: Result<(set<string>, set<string>), Exception>)
      requires CacheSound() && DepsResolved() && Table().Chainless()
      requires parents <= packages.Keys && p in packages && p !in parents
      modifies this`retainedSetCache
      ensures CacheSound()
      ensures r.Ok? ==>
                var retained := r.value.0;
                var cycle := r.value.1;
                p in retained && retained <= Closure(p) && retained <= packages.Keys &&
                cycle <= parents &&
                (forall q :: q in retained ==> packages[q].dependencies <= retained + cycle) &&
                (cycle == {} ==> retained == Closure(p))
      ensures r.Err? ==> r.error.KeyError? && r.error.key in Closure(p) - packages.Keys
      ensures forall k :: k in old(retainedSetCache) ==>
                k in retainedSetCache && retainedSetCache[k] == old(retainedSetCache)[k]
      ensures r.Ok? && r.value.1 == {} ==> p in retainedSetCache
      ensures forall k :: k in retainedSetCache && k !in old(retainedSetCache) ==>
                k !in parents && (k == p ==> r.Ok? && r.value.1 == {})
      decreases packages.Keys - parents, 1
    {
      var walked := WalkDependencies(p, parents);
      if walked.Err? {
        return Err(walked.error);
      }
      var retained := walked.value.0;
      var cycle := walked.value.1 - {p};
      if cycle == {} {
        ClosedFromDeps(packages, retained);
        SaturateLeast(GraphOf(packages), map[], {p}, retained);
        retainedSetCache := retainedSetCache[p := retained];
      }
      return Ok((retained, cycle));
    }

    /** The loop of `compute_retained_set_internal`: starting from {p}, merge what each
        dependency outside the ancestors retains and which ancestors it ran into (p among them).
        Earlier cache entries stay, and neither p nor any other ancestor gets a new entry. */
    method WalkDependencies(p: string, parents: set<string>)
      returns (r: Result<(set<string>, set<string>), Exception>)
      requires CacheSound() && DepsResolved() && Table().Chainless()
      requires parents <= packages.Keys && p in packages && p !in parents
      modifies this`retainedSetCache
      ensures CacheSound()
      ensures r.Ok? ==>
                var retained := r.value.0;
                var cycle := r.value.1;
                p in retained && retained <= Closure(p) && retained <= packages.Keys &&
                cycle <= parents + {p} &&
                (forall q :: q in retained ==> packages[q].dependencies <= retained + cycle)
      ensures r.Err? ==> r.error.KeyError? && r.error.key in Closure(p) - packages.Keys
      ensures forall k :: k in old(retainedSetCache) ==>
                k in retainedSetCache && retainedSetCache[k] == old(retainedSetCache)[k]
      ensures forall k :: k in retainedSetCache && k !in old(retainedSetCache) ==>
                k !in parents + {p}
      decreases packages.Keys - parents, 0
    {
      var g := GraphOf(packages);
      var retained := {p};
      var ancestors := parents + {p};
      var deps := packages[p].dependencies;
      var cycle := deps * ancestors;
      var todo := deps - cycle;
      while todo != {}
        invariant CacheSound()
        invariant todo <= deps && todo !! ancestors
        invariant p in retained && retained <= Closure(p) && retained <= packages.Keys
        invariant cycle <= ancestors
        invariant forall d :: d in deps && d !in todo ==> d in retained + cycle
        invariant forall q :: q in retained && q != p ==> packages[q].dependencies <= retained + cycle
        invariant forall k :: k in old(retainedSetCache) ==>
                    k in retainedSetCache && retainedSetCache[k] == old(retainedSetCache)[k]
        invariant forall k :: k in retainedSetCache && k !in old(retainedSetCache) ==> k !in ancestors
        decreases todo
      {
        var d :| d in todo;
        var sub := RetainedSetInternal(d, ancestors);
        ReachEdge(g, p, d);
        if sub.Err? {
          return Err(sub.error);
        }
        retained := retained + sub.value.0;
        cycle := cycle + sub.value.1;
        todo := todo - {d};
      }
      return Ok((retained, cycle));
    }

    /** One term of the union in `compute_retained_set`: the first component of
        `compute_retained_set_internal(n, frozenset())`, which is the whole closure of the
        resolved name, or KeyError for an uninstalled name in it. */
    method RetainedOfName(n: string) returns (r: Result<set<string>, Exception>)
      requires CacheSound() && DepsResolved() && Table().Chainless()
      modifies this`retainedSetCache
      ensures CacheSound()
      ensures r.Ok? <==> Closure(ResolveAlias(n)) <= packages.Keys
      ensures r.Ok? ==> r.value == Closure(ResolveAlias(n))
      ensures r.Err? ==> r.error.KeyError? && r.error.key in Closure(ResolveAlias(n)) - packages.Keys
    {
      var sub := RetainedSetInternal(n, {});
      if sub.Err? {
        return Err(sub.error);
      }
      return Ok(sub.value.0);
    }

    /** `compute_retained_set`: everything the resolved names reach through dependency edges.
        It succeeds exactly when all of that is installed; otherwise it raises KeyError for a
        reachable name that is not. */
    method RetainedSet(names: set<string>) returns (r: Result<set<string>, Exception>)
      requires CacheSound() && DepsResolved() && Table().Chainless()
      modifies this`retainedSetCache
      ensures CacheSound()
      ensures var target := Reach(GraphOf(packages), Table().ResolveAll(names));
              (r.Ok? <==> target <= packages.Keys) &&
              (r.Ok? ==> r.value == target) &&
              (r.Err? ==> r.error.KeyError? && r.error.key in target - packages.Keys)
    {
      var g := GraphOf(packages);
      var all := Table().ResolveAll(names);
      var union: set<string> := {};
      var todo := names;
      ghost var started: set<string> := {};
      while todo != {}
        invariant CacheSound()
        invariant todo <= names
        invariant started <= all
        invariant forall n :: n in names && n !in todo ==> Table().Resolve(n) in started
        invariant union == Reach(g, started) && union <= packages.Keys
        decreases todo
      {
        var n :| n in todo;
        var sub := RetainedOfName(n);
        SaturateMonotone(g, map[], {Table().Resolve(n)}, all);
        if sub.Err? {
          return Err(sub.error);
        }
        ReachUnion(g, started, {Table().Resolve(n)});
        union := union + sub.value;
        started := started + {Table().Resolve(n)};
        todo := todo - {n};
      }
      assert started == all;
      return Ok(union);
    }

    /** The sum of `size or 0` over a set of installed packages. */
    method SizeTotal(names: set<string>) returns (total: nat)
      requires names <= packages.Keys
      ensures total as real == SumOver(names, OwnSize(packages))
    {
      total := 0;
      var todo := names;
      while todo != {}
        invariant todo <= names
        invariant total as real + SumOver(todo, OwnSize(packages)) == SumOver(names, OwnSize(packages))
        decreases todo
      {
        var q :| q in todo;
        SumOverRemove(todo, OwnSize(packages), q);
        total := total + packages[q].SizeOr0();
        todo := todo - {q};
      }
    }

    /** `compute_retained_size`: the summed own sizes of the retained set. */
    method RetainedSize(names: set<string>) returns (r: Result<nat, Exception>)
      requires CacheSound() && DepsResolved() && Table().Chainless()
      modifies this`retainedSetCache
      ensures CacheSound()
      ensures var target := Reach(GraphOf(packages), Table().ResolveAll(names));
              (r.Ok? <==> target <= packages.Keys) &&
              (r.Ok? ==> r.value as real == SumOver(target, OwnSize(packages))) &&
              (r.Err? ==> r.error.KeyError? && r.error.key in target - packages.Keys)
    {
      var retained := RetainedSet(names);
      if retained.Err? {
        return Err(retained.error);
      }
      var total := SizeTotal(retained.value);
      return Ok(total);
    }

    /** `sum(self[p].size or 0 for p in start)` over resolved names: KeyError for the first
        name that is not an installed package. */
    method StartSizeTotal(start: set<string>) returns (r: Result<nat, Exception>)
      requires Valid()
      requires forall p :: p in start ==> ResolveAlias(p) == p
      ensures r.Ok? <==> start <= packages.Keys
      ensures r.Ok? ==> r.value as real == SumOver(start, OwnSize(packages))
      ensures r.Err? ==> r.error.KeyError? && r.error.key in start - packages.Keys
    {
      var total: nat := 0;
      var todo := start;
      while todo != {}
        invariant todo <= start && start - todo <= packages.Keys
        invariant total as real + SumOver(todo, OwnSize(packages)) == SumOver(start, OwnSize(packages))
        decreases todo
      {
        var q :| q in todo;
        var item := GetItem(q);
        GetItemResolves(q);
        if item.Err? {
          return Err(item.error);
        }
        SumOverRemove(todo, OwnSize(packages), q);
        total := total + item.value.SizeOr0();
        todo := todo - {q};
      }
      return Ok(total);
    }

    /** The loop of `compute_adjusted_size`: the summed shares of the retained packages outside
        the start set, or ZeroDivisionError for one without reverse dependencies. */
    method ShareTotal(rc: map<string, set<string>>, start: set<string>, retained: set<string>)
      returns (r: Result<real, Exception>)
      requires retained <= packages.Keys
      ensures r.Ok? ==> r.value == SumOver(retained - start, RevdepShare(packages, rc, retained))
      ensures r.Err? ==> r.error == ZeroDivisionError &&
                         exists q :: q in retained - start && SetLookup(rc, q) == {}
      ensures (forall q :: q in retained - start ==> SetLookup(rc, q) != {}) ==> r.Ok?
    {
      ghost var share := RevdepShare(packages, rc, retained);
      var adjusted := 0.0;
      var todo := retained - start;
      while todo != {}
        invariant todo <= retained - start
        invariant adjusted + SumOver(todo, share) == SumOver(retained - start, share)
        decreases todo
      {
        var q :| q in todo;
        var revdeps := SetLookup(rc, q);
        if |revdeps| == 0 {
          return Err(ZeroDivisionError);
        }
        var item := GetItem(q);
        var size := item.value.SizeOr0();
        ShareOf(packages, rc, retained, q);
        SumOverRemove(todo, share, q);
        adjusted := adjusted + Portion(size as real, |revdeps * retained|, |revdeps|);
        todo := todo - {q};
      }
      return Ok(adjusted);
    }

    /** `compute_adjusted_size`: the start packages count in full, every other retained package
        by the fraction of its reverse dependencies that are retained, and the total is
        truncated. It refuses an unfinalised store, raises KeyError for an uninstalled name the
        start reaches, and divides by zero only for a retained package without reverse
        dependencies. */
    method AdjustedSize(names: set<string>) returns (r: Result<nat, Exception>)
      requires Valid() && CacheSound() && Table().Chainless()
      requires revdepCache.Some? ==> DepsResolved()
      modifies this`retainedSetCache
      ensures CacheSound()
      ensures revdepCache.None? ==> r == Err(ValueError("Dependency sets not finalised"))
      ensures revdepCache.Some? ==>
                AdjustedOutcome(packages, revdepCache.value, Table().ResolveAll(names), r)
    {
      if revdepCache.None? {
        return Err(ValueError("Dependency sets not finalised"));
      }
      var start := Table().ResolveAll(names);
      ResolveAllIdempotent(Table(), names);
      ghost var t := Table();
      r := AdjustedFrom(revdepCache.value, start);
      assert Table() == t;
    }

    /** The body of `compute_adjusted_size` once the names are resolved. */
    method AdjustedFrom(rc: map<string, set<string>>, start: set<string>)
      returns (r: Result<nat, Exception>)
      requires Valid() && CacheSound() && Table().Chainless() && DepsResolved()
      requires forall p :: p in start ==> Table().Resolve(p) == p
      requires Table().ResolveAll(start) == start
      modifies this`retainedSetCache
      ensures CacheSound()
      ensures AdjustedOutcome(packages, rc, start, r)
    {
      ghost var g := GraphOf(packages);
      var own := StartSizeTotal(start);
      if own.Err? {
        SaturateMonotone(g, map[], {}, start);
        return Err(own.error);
      }
      var rs := RetainedSet(start);
      if rs.Err? {
        return Err(rs.error);
      }
      var retained := rs.value;
      var shares := ShareTotal(rc, start, retained);
      if shares.Err? {
        return Err(shares.error);
      }
      var adjusted := own.value as real + shares.value;
      AdjustedFloor(packages, rc, start, retained, own.value, shares.value);
      if start == packages.Keys {
        AdjustedSizeOfEverything(packages, rc);
      }
      return Ok(adjusted.Floor);
    }

    /** With an exact reverse-dependency index, every package the start reaches beyond itself
        has a reverse dependency, so the adjusted size never divides by zero. */
    lemma RetainedHaveRevdeps(start: set<string>, q: string)
      requires RevdepExact()
      requires q in Reach(GraphOf(packages), start) - start
      ensures SetLookup(revdepCache.value, q) != {}
    {
      SaturateHasReason(GraphOf(packages), map[], start, q);
      var p :| p in Reach(GraphOf(packages), start) && p in GraphOf(packages) &&
               q in GraphOf(packages)[p];
      assert p in SetLookup(revdepCache.value, q);
    }

    /** One outer pass of `compute_uniquely_retained_size`: every member is taken off a queue
        once, and each dependency of it whose reverse dependencies are all members joins the set
        and the queue. A pass that adds nothing has reached a closed set. */
    method UniquePass(rc: map<string, set<string>>, unique: set<string>, ghost target: set<string>)
      returns (r: Result<set<string>, Exception>)
      requires unique <= target && Closed(GraphOf(packages), rc, target)
      ensures r.Ok? ==> unique <= r.value <= target
      ensures r.Ok? && |r.value| == |unique| ==>
                Closed(GraphOf(packages), rc, r.value) && r.value <= packages.Keys
      ensures r.Err? ==> r.error.KeyError? && r.error.key in target - packages.Keys
    {
      ghost var g := GraphOf(packages);
      ghost var done: set<string> := {};
      var grown := unique;
      var queue := SetToSeq(unique);
      while queue != []
        invariant unique <= grown <= target
        invariant forall x :: x in queue ==> x in grown
        invariant forall x :: x in grown ==> x in done || x in queue
        invariant done <= grown && done <= packages.Keys
        invariant grown == unique ==>
                    forall p, d :: (p in done && d in packages[p].dependencies &&
                                    SetLookup(rc, d) <= grown) ==> d in grown
        decreases target - grown, |queue|
      {
        var package := queue[|queue| - 1];
        queue := queue[..|queue| - 1];
        if package !in packages {
          return Err(KeyError(package));
        }
        var uniqueDeps := set dep | dep in packages[package].dependencies && SetLookup(rc, dep) <= grown;
        forall d | d in uniqueDeps ensures d in target {
          assert package in g && d in g[package];
        }
        var added := SetToSeq(uniqueDeps - grown);
        queue := queue + added;
        grown := grown + uniqueDeps;
        done := done + {package};
      }
      if |grown| == |unique| {
        if grown != unique {
          StrictSubsetSmaller(unique, grown);
        }
        forall p, d | p in grown && p in g && d in g[p] && SetLookup(rc, d) <= grown
          ensures d in grown
        {
          assert p in done;
        }
      }
      return Ok(grown);
    }

    /** The outer loop of `compute_uniquely_retained_size`: passes run while the last one grew
        the set. */
    method UniqueFixpoint(rc: map<string, set<string>>, start: set<string>, ghost target: set<string>)
      returns (r: Result<set<string>, Exception>)
      requires start <= target && Closed(GraphOf(packages), rc, target)
      requires target <= start + Universe(GraphOf(packages))
      ensures r.Ok? ==> start <= r.value <= target && r.value <= packages.Keys &&
                        Closed(GraphOf(packages), rc, r.value)
      ensures r.Err? ==> r.error.KeyError? && r.error.key in target - packages.Keys
    {
      ghost var bound := start + Universe(GraphOf(packages));
      var unique := start;
      var oldLength := 0;
      assert |unique| == oldLength ==> unique == {};
      while |unique| > oldLength
        invariant start <= unique <= target
        invariant oldLength <= |unique|
        invariant |unique| == oldLength ==>
                    Closed(GraphOf(packages), rc, unique) && unique <= packages.Keys
        decreases |bound| - oldLength
      {
        SubsetNotLarger(unique, bound);
        oldLength := |unique|;
        var pass := UniquePass(rc, unique, target);
        if pass.Err? {
          return Err(pass.error);
        }
        SubsetNotLarger(unique, pass.value);
        unique := pass.value;
      }
      return Ok(unique);
    }

    /** `compute_uniquely_retained_size`: grow the resolved start set by every dependency of a
        member whose reverse dependencies are all members, pass after pass until a pass adds
        nothing, then sum the own sizes. The result is the guarded closure of the start set. */
    method UniquelyRetainedSize(names: set<string>) returns (r: Result<nat, Exception>)
      ensures revdepCache.None? ==> r == Err(ValueError("Dependency sets not finalised"))
      ensures revdepCache.Some? ==>
                var unique := Saturate(GraphOf(packages), revdepCache.value, Table().ResolveAll(names));
                (r.Ok? <==> unique <= packages.Keys) &&
                (r.Ok? ==> r.value as real == SumOver(unique, OwnSize(packages))) &&
                (r.Err? ==> r.error.KeyError? && r.error.key in unique - packages.Keys)
    {
      var start := Table().ResolveAll(names);
      if revdepCache.None? {
        return Err(ValueError("Dependency sets not finalised"));
      }
      var rc := revdepCache.value;
      ghost var target := Saturate(GraphOf(packages), rc, start);
      SaturateWithinUniverse(GraphOf(packages), rc, start);
      var unique := UniqueFixpoint(rc, start, target);
      if unique.Err? {
        return Err(unique.error);
      }
      SaturateLeast(GraphOf(packages), rc, start, unique.value);
      assert unique.value == target;
      var total := SizeTotal(unique.value);
      return Ok(total);
    }
  }
}
