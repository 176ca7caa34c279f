/** The parsed lock file and the selection of one locked package per dependency. */
module Lock {
  import opened Ordering

  /** A `marker` value: absent (or otherwise falsy), an expression, or a truthy value of another type. */
  datatype Marker = Unconditional | Expression(text: string) | NotAString

  /** `resolution-markers`: a list (empty when absent), or a truthy value of another type. */
  datatype MarkerField = Markers(markers: seq<Marker>) | NotAList

  /** One dependency table; `version` is "" when the table pins none. */
  datatype Dependency = Dependency(name: string, version: string, marker: Marker, extras: seq<string>)

  /** One element of a lock list: `lock_mappings` keeps only the tables. */
  datatype LockValue = Table(dependency: Dependency) | Scalar

  datatype GroupValue = Members(values: seq<LockValue>) | NotAGroup

  datatype Package = Package(
    name: string,
    version: string,
    resolutionMarkers: MarkerField,
    dependencies: seq<LockValue>,
    optional: map<string, seq<LockValue>>,
    groups: map<string, GroupValue>)

  /** One element of the lock's `package` list: `Ignored` when it is no table or has no string name. */
  datatype LockEntry = Named(package: Package) | Ignored

  /** Which marker expressions hold on the target; the evaluator itself is a parameter. */
  type Environment = string -> bool

  type Index = map<string, seq<Package>>

  predicate Matches(marker: Marker, env: Environment)
  {
    match marker
    case Unconditional => true
    case Expression(text) => env(text)
    case NotAString => false
  }

  predicate PackageApplies(p: Package, env: Environment)
  {
    match p.resolutionMarkers
    case Markers(markers) => markers == [] || exists i :: 0 <= i < |markers| && Matches(markers[i], env)
    case NotAList => false
  }

  function Tables(values: seq<LockValue>): (r: seq<Dependency>)
    ensures forall d :: d in r <==> Table(d) in values
  {
    if values == [] then []
    else
      assert values == [values[0]] + values[1..];
      (if values[0].Table? then [values[0].dependency] else []) + Tables(values[1..])
  }

  predicate IsCandidate(p: Package, d: Dependency, env: Environment)
  {
    PackageApplies(p, env) && (d.version == "" || p.version == d.version)
  }

  function Filter(packages: seq<Package>, d: Dependency, env: Environment): (r: seq<Package>)
    ensures forall p :: p in r <==> p in packages && IsCandidate(p, d, env)
  {
    if packages == [] then []
    else
      assert packages == [packages[0]] + packages[1..];
      (if IsCandidate(packages[0], d, env) then [packages[0]] else []) + Filter(packages[1..], d, env)
  }

  function Filed(index: Index, name: string): seq<Package>
  {
    if name in index then index[name] else []
  }

  /** The package a dependency selects: the only candidate, or nothing. */
  function Selected(index: Index, d: Dependency, env: Environment): (r: Option<Package>)
    ensures r.Some? ==> r.value in Filed(index, d.name) && IsCandidate(r.value, d, env)
  {
    var candidates := Filter(Filed(index, d.name), d, env);
    if |candidates| == 1 then Some(candidates[0]) else None
  }

  ghost predicate OnlyCandidate(packages: seq<Package>, k: nat, d: Dependency, env: Environment) {
    && k < |packages| && IsCandidate(packages[k], d, env)
    && forall j :: 0 <= j < |packages| && IsCandidate(packages[j], d, env) ==> j == k
  }

  lemma {:induction false} NoneFiltered(packages: seq<Package>, d: Dependency, env: Environment)
    ensures Filter(packages, d, env) == [] <==> forall j :: 0 <= j < |packages| ==> !IsCandidate(packages[j], d, env)
  {
    if packages != [] {
      NoneFiltered(packages[1..], d, env);
      assert forall j :: 0 < j < |packages| ==> packages[j] == packages[1..][j - 1];
    }
  }

  lemma {:induction false} OneFiltered(packages: seq<Package>, k: nat, d: Dependency, env: Environment)
    requires OnlyCandidate(packages, k, d, env)
    ensures Filter(packages, d, env) == [packages[k]]
  {
    var rest := packages[1..];
    assert forall j :: 0 < j < |packages| ==> packages[j] == rest[j - 1];
    if k == 0 { NoneFiltered(rest, d, env); } else { OneFiltered(rest, k - 1, d, env); }
  }

  lemma {:induction false} FilteredOne(packages: seq<Package>, d: Dependency, env: Environment) returns (k: nat)
    requires |Filter(packages, d, env)| == 1
    ensures OnlyCandidate(packages, k, d, env)
  {
    var rest := packages[1..];
    assert forall j :: 0 < j < |packages| ==> packages[j] == rest[j - 1];
    if IsCandidate(packages[0], d, env) {
      NoneFiltered(rest, d, env);
      k := 0;
    } else {
      k := FilteredOne(rest, d, env);
      k := k + 1;
    }
  }

  /** A package is selected exactly when it is the one filed package that applies and fits the version. */
  lemma SelectsTheOnlyCandidate(index: Index, d: Dependency, env: Environment, p: Package)
    ensures Selected(index, d, env) == Some(p) <==>
      exists k: nat :: OnlyCandidate(Filed(index, d.name), k, d, env) && Filed(index, d.name)[k] == p
  {
    var packages := Filed(index, d.name);
    if Selected(index, d, env).Some? {
      var k := FilteredOne(packages, d, env);
      OneFiltered(packages, k, d, env);
    }
    forall k: nat | OnlyCandidate(packages, k, d, env) ensures Selected(index, d, env) == Some(packages[k]) {
      OneFiltered(packages, k, d, env);
    }
  }

  /** Every package is filed under its own name. */
  ghost predicate WellIndexed(index: Index)
  {
    forall name :: name in index ==> forall p :: p in index[name] ==> p.name == name
  }

  /** The packages of a lock that carry one name, in lock order. */
  function PackagesNamed(lock: seq<LockEntry>, name: string): seq<Package>
  {
    if lock == [] then []
    else
      var last := lock[|lock| - 1];
      PackagesNamed(lock[..|lock| - 1], name)
      + (if last.Named? && last.package.name == name then [last.package] else [])
  }

  lemma {:induction false} PackagesNamedMembers(lock: seq<LockEntry>, name: string, p: Package)
    ensures p in PackagesNamed(lock, name) <==> LockEntry.Named(p) in lock && p.name == name
  {
    if lock != [] {
      assert lock == lock[..|lock| - 1] + [lock[|lock| - 1]];
      PackagesNamedMembers(lock[..|lock| - 1], name, p);
    }
  }

  ghost function NamesIn(lock: seq<LockEntry>): set<string> {
    set e | e in lock && e.Named? :: e.package.name
  }

  /** Every name of the lock with the packages that carry it. */
  ghost function IndexOf(lock: seq<LockEntry>): (index: Index)
  {
    map name | name in NamesIn(lock) :: PackagesNamed(lock, name)
  }

  lemma IndexIsWellIndexed(lock: seq<LockEntry>)
    ensures WellIndexed(IndexOf(lock))
    ensures forall name :: Filed(IndexOf(lock), name) == PackagesNamed(lock, name)
  {
    forall name ensures Filed(IndexOf(lock), name) == PackagesNamed(lock, name) {
      if p :| p in PackagesNamed(lock, name) {
        PackagesNamedMembers(lock, name, p);
        assert LockEntry.Named(p).package.name in NamesIn(lock);
      } else {
        NonemptyHasElement(PackagesNamed(lock, name));
      }
    }
    forall name, p | name in IndexOf(lock) && p in IndexOf(lock)[name] ensures p.name == name {
      PackagesNamedMembers(lock, name, p);
    }
  }

  /** `_lock_packages`: file every named package under its name, keeping lock order. */
  method LockPackages(lock: seq<LockEntry>) returns (index: Index)
    ensures index == IndexOf(lock)
  {
    index := map[];
    for i := 0 to |lock|
      invariant index.Keys == NamesIn(lock[..i])
      invariant forall name :: Filed(index, name) == PackagesNamed(lock[..i], name)
    {
      OneMoreName(lock, i);
      ghost var before := index;
      if lock[i].Named? {
        var p := lock[i].package;
        index := index[p.name := Filed(index, p.name) + [p]];
      }
      forall name ensures Filed(index, name) == PackagesNamed(lock[..i + 1], name) {
        OneMoreOfAName(lock, i, name);
        assert Filed(before, name) == PackagesNamed(lock[..i], name);
      }
    }
    assert lock[..|lock|] == lock;
    IndexIsWellIndexed(lock);
    assert forall name :: Filed(index, name) == Filed(IndexOf(lock), name);
    assert forall name :: name in index ==> index[name] == Filed(index, name);
  }

  lemma OneMoreOfAName(lock: seq<LockEntry>, i: nat, name: string)
    requires i < |lock|
    ensures PackagesNamed(lock[..i + 1], name) == PackagesNamed(lock[..i], name)
            + (if lock[i].Named? && lock[i].package.name == name then [lock[i].package] else [])
  {
    assert lock[..i + 1][..i] == lock[..i];
  }

  lemma OneMoreName(lock: seq<LockEntry>, i: nat)
    requires i < |lock|
    ensures NamesIn(lock[..i + 1]) == NamesIn(lock[..i]) + (if lock[i].Named? then {lock[i].package.name} else {})
  {
    assert lock[..i + 1] == lock[..i] + [lock[i]];
    assert lock[i] in lock[..i + 1];
  }

  /**
   * Two dependencies that settle on the same name and version settle on the same package: each
   * demands exactly one candidate, so the unpinned one already sees a single applicable package.
   */
  lemma SameVersionSamePackage(index: Index, d1: Dependency, d2: Dependency, env: Environment)
    requires WellIndexed(index)
    requires Selected(index, d1, env).Some? && Selected(index, d2, env).Some?
    requires Selected(index, d1, env).value.name == Selected(index, d2, env).value.name
    requires Selected(index, d1, env).value.version == Selected(index, d2, env).value.version
    ensures Selected(index, d1, env) == Selected(index, d2, env)
  {
    var p1, p2 := Selected(index, d1, env).value, Selected(index, d2, env).value;
    assert d1.name == d2.name;
    var packages := Filed(index, d1.name);
    if d1.version == "" {
      assert p2 in Filter(packages, d1, env);
    } else {
      assert p1 in Filter(packages, d2, env);
    }
  }
}
