/** The build group resolved for every supported runtime, one version per name over all of them. */
module BuildConstraints {
  import opened Ordering
  import opened Lock
  import opened Closure
  import opened ClosureResolver

  /** One walk for each runtime, all from the same dependencies. */
  datatype Build = Build(lock: seq<LockEntry>, rootName: string, envs: seq<Environment>, dependencies: seq<LockValue>)
  {
    ghost function At(i: nat): Problem
      requires i < |envs|
    {
      Problem(IndexOf(lock), envs[i], dependencies)
    }

    /** Some runtime below `n` needs `p`. */
    ghost predicate NeededBelow(n: nat, p: Package)
      requires n <= |envs|
    {
      exists i :: 0 <= i < n && At(i).Needed(p)
    }

    /** The runtimes below `n` resolve, and agree on the version of every name. */
    ghost predicate AgreesBelow(n: nat)
      requires n <= |envs|
    {
      && (forall i :: 0 <= i < n ==> !At(i).Doomed())
      && forall p, q :: NeededBelow(n, p) && NeededBelow(n, q) && p.name == q.name ==> p.version == q.version
    }

    /** A package for every name needed below `n`, of the version that is needed there. */
    ghost predicate CollectsBelow(n: nat, selected: map<string, Package>)
      requires n <= |envs|
    {
      && (forall name :: name in selected ==> selected[name].name == name && NeededBelow(n, selected[name]))
      && (forall p :: NeededBelow(n, p) ==> p.name in selected && selected[p.name].version == p.version)
    }
  }

  /**
   * `_build_constraint_packages`, given the build group: it succeeds exactly when the root is unique,
   * every runtime resolves, and no name has two versions over all of them.
   */
  method BuildConstraintPackages(b: Build) returns (r: Result<map<string, Package>>)
    requires b.envs != []
    ensures r.Success? <==> |PackagesNamed(b.lock, b.rootName)| == 1 && b.AgreesBelow(|b.envs|)
    ensures r.Success? ==> b.CollectsBelow(|b.envs|, r.value)
  {
    var selected: map<string, Package> := map[];
    for i := 0 to |b.envs|
      invariant i > 0 ==> |PackagesNamed(b.lock, b.rootName)| == 1
      invariant b.AgreesBelow(i) && b.CollectsBelow(i, selected)
    {
      var closure := LockedClosure(b.lock, b.envs[i], b.rootName, false, [], Some(b.dependencies));
      if closure.Failure? {
        if |PackagesNamed(b.lock, b.rootName)| == 1 { UnresolvedAt(b, i); }
        return Failure;
      }
      var root := PackagesNamed(b.lock, b.rootName)[0];
      assert AreRoots(root, false, [], Some(b.dependencies), b.dependencies);
      assert b.At(i).IsClosure(closure.value);
      var merged := Merge(selected, closure.value);
      MergeAgrees(b, i, selected, closure.value);
      if merged.Failure? {
        DisagreesLater(b, i + 1);
        return Failure;
      }
      selected := merged.value;
    }
    return Success(selected);
  }

  /** The inner loop: keep the first package of a name, refuse another version of it. */
  method Merge(selected: map<string, Package>, packages: seq<Package>) returns (r: Result<map<string, Package>>)
    ensures r.Success? <==> Mergeable(selected, packages)
    ensures r.Success? ==> r.value == Merged(selected, packages)
  {
    var kept := selected;
    for k := 0 to |packages|
      invariant Mergeable(selected, packages[..k]) && kept == Merged(selected, packages[..k])
    {
      assert packages[..k + 1][..k] == packages[..k];
      var p := packages[k];
      var first := if p.name in kept then kept[p.name] else p;
      if first.version != p.version {
        NotMergeable(selected, packages, k + 1);
        return Failure;
      }
      kept := kept[p.name := first];
    }
    assert packages[..|packages|] == packages;
    return Success(kept);
  }

  function Merged(selected: map<string, Package>, packages: seq<Package>): map<string, Package> {
    if packages == [] then selected
    else
      var kept, p := Merged(selected, packages[..|packages| - 1]), packages[|packages| - 1];
      if p.name in kept then kept else kept[p.name := p]
  }

  predicate Mergeable(selected: map<string, Package>, packages: seq<Package>) {
    packages == [] ||
      var front, p := packages[..|packages| - 1], packages[|packages| - 1];
      && Mergeable(selected, front)
      && (p.name in Merged(selected, front) ==> Merged(selected, front)[p.name].version == p.version)
  }

  lemma {:induction false} NotMergeable(selected: map<string, Package>, packages: seq<Package>, n: nat)
    requires n <= |packages| && !Mergeable(selected, packages[..n])
    ensures !Mergeable(selected, packages)
  {
    if n == |packages| {
      assert packages[..n] == packages;
    } else {
      assert packages[..|packages| - 1][..n] == packages[..n];
      NotMergeable(selected, packages[..|packages| - 1], n);
    }
  }

  /** `m` extends `selected` by the given packages, keeping the first of each name. */
  ghost predicate Extends(selected: map<string, Package>, packages: seq<Package>, m: map<string, Package>) {
    && (forall n :: n in selected ==> n in m && m[n] == selected[n])
    && (forall p :: p in packages ==> p.name in m)
    && (forall n :: n in m ==> m[n].name == n)
    && (forall n :: n in m && n !in selected ==> m[n] in packages)
  }

  lemma {:induction false} MergedMembers(selected: map<string, Package>, packages: seq<Package>)
    requires forall n :: n in selected ==> selected[n].name == n
    ensures Extends(selected, packages, Merged(selected, packages))
  {
    if packages != [] {
      var front, p := packages[..|packages| - 1], packages[|packages| - 1];
      MergedMembers(selected, front);
      assert packages == front + [p];
    }
  }

  lemma {:induction false} MergeableMembers(selected: map<string, Package>, packages: seq<Package>)
    requires forall n :: n in selected ==> selected[n].name == n
    ensures Mergeable(selected, packages) <==> SameVersions(packages, Merged(selected, packages))
  {
    if packages != [] {
      var front, p := packages[..|packages| - 1], packages[|packages| - 1];
      MergeableMembers(selected, front);
      MergedMembers(selected, front);
      assert packages == front + [p];
      MergedStep(selected, packages);
    }
  }

  lemma MergedStep(selected: map<string, Package>, packages: seq<Package>)
    requires packages != []
    ensures var front, p := packages[..|packages| - 1], packages[|packages| - 1];
      && (forall n :: n in Merged(selected, front) ==>
            n in Merged(selected, packages) && Merged(selected, packages)[n] == Merged(selected, front)[n])
      && p.name in Merged(selected, packages)
      && (p.name !in Merged(selected, front) ==> Merged(selected, packages)[p.name] == p)
  {
  }

  /** After one more runtime the collection and the agreement extend, or the agreement ends. */
  lemma MergeAgrees(b: Build, i: nat, selected: map<string, Package>, packages: seq<Package>)
    requires i < |b.envs| && b.AgreesBelow(i) && b.CollectsBelow(i, selected)
    requires !b.At(i).Doomed() && b.At(i).IsClosure(packages)
    ensures Mergeable(selected, packages) <==> b.AgreesBelow(i + 1)
    ensures Mergeable(selected, packages) ==> b.CollectsBelow(i + 1, Merged(selected, packages))
  {
    hide Merged, Mergeable, Build.NeededBelow, Extends, Problem.Needed, Problem.Doomed;
    MergedMembers(selected, packages);
    MergeableMembers(selected, packages);
    ClosureIsOneMore(b, i, packages);
    AgreementExtends(b, i, selected, packages, Merged(selected, packages));
  }

  /** The packages agree with what is kept under their names. */
  ghost predicate SameVersions(packages: seq<Package>, m: map<string, Package>) {
    forall p :: p in packages ==> p.name in m && m[p.name].version == p.version
  }

  ghost predicate OneMore(b: Build, i: nat, packages: seq<Package>)
    requires i < |b.envs|
  {
    forall p :: b.NeededBelow(i + 1, p) <==> b.NeededBelow(i, p) || p in packages
  }

  lemma KeptIsNeeded(b: Build, i: nat, selected: map<string, Package>, packages: seq<Package>, m: map<string,
                     Package>, n: string)
    requires i < |b.envs| && b.CollectsBelow(i, selected) && Extends(selected, packages, m) && OneMore(b, i, packages)
    requires n in m
    ensures m[n].name == n && b.NeededBelow(i + 1, m[n])
  {
    hide Build.NeededBelow;
  }

  lemma NeededIsKept(b: Build, i: nat, selected: map<string, Package>, packages: seq<Package>, m: map<string,
                     Package>, p: Package)
    requires i < |b.envs| && b.CollectsBelow(i, selected) && Extends(selected, packages, m) && OneMore(b, i, packages)
    requires SameVersions(packages, m) && b.NeededBelow(i + 1, p)
    ensures p.name in m && m[p.name].version == p.version
  {
    hide Build.NeededBelow;
  }

  lemma AgreementExtends(b: Build, i: nat, selected: map<string, Package>, packages: seq<Package>, m: map<string,
                         Package>)
    requires i < |b.envs| && b.AgreesBelow(i) && b.CollectsBelow(i, selected) && !b.At(i).Doomed()
    requires Extends(selected, packages, m) && OneMore(b, i, packages)
    ensures SameVersions(packages, m) <==> b.AgreesBelow(i + 1)
    ensures SameVersions(packages, m) ==> b.CollectsBelow(i + 1, m)
  {
    hide Build.NeededBelow;
    forall n | n in m ensures m[n].name == n && b.NeededBelow(i + 1, m[n]) {
      KeptIsNeeded(b, i, selected, packages, m, n);
    }
    if b.AgreesBelow(i + 1) {
      forall p | p in packages ensures p.name in m && m[p.name].version == p.version {
        assert b.NeededBelow(i + 1, p) && b.NeededBelow(i + 1, m[p.name]);
      }
    }
    if SameVersions(packages, m) {
      forall p | b.NeededBelow(i + 1, p) ensures p.name in m && m[p.name].version == p.version {
        NeededIsKept(b, i, selected, packages, m, p);
      }
    }
  }

  lemma ClosureIsOneMore(b: Build, i: nat, packages: seq<Package>)
    requires i < |b.envs| && b.At(i).IsClosure(packages)
    ensures OneMore(b, i, packages)
  {
    hide Build.NeededBelow, Problem.Needed, Build.At;
    forall p { OneMoreRuntime(b, i, p); }
  }

  lemma OneMoreRuntime(b: Build, i: nat, p: Package)
    requires i < |b.envs|
    ensures b.NeededBelow(i + 1, p) <==> b.NeededBelow(i, p) || b.At(i).Needed(p)
  {
  }

  lemma DisagreesLater(b: Build, n: nat)
    requires n <= |b.envs| && !b.AgreesBelow(n)
    ensures !b.AgreesBelow(|b.envs|)
  {
    if b.AgreesBelow(|b.envs|) {
      forall p | b.NeededBelow(n, p) ensures b.NeededBelow(|b.envs|, p) {
        var i :| 0 <= i < n && b.At(i).Needed(p);
      }
      assert false;
    }
  }

  lemma UnresolvedAt(b: Build, i: nat)
    requires i < |b.envs| && b.At(i).Doomed()
    ensures !b.AgreesBelow(|b.envs|)
  {
  }
}
