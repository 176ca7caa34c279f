/** What marks, versions and candidates mean for the closure, told by the fields of the lock alone. */
module ClosureLaws {
  import opened Ordering
  import opened Lock
  import opened Closure

  /** An unmarked dependency without a version whose name has one package, which has no markers either. */
  predicate Plainly(prob: Problem, d: Dependency, p: Package) {
    && d.marker == Unconditional && d.version == ""
    && d.name in prob.index && prob.index[d.name] == [p]
    && p.resolutionMarkers == Markers([])
  }

  lemma PlainlySelected(prob: Problem, d: Dependency, p: Package)
    requires Plainly(prob, d, p)
    ensures prob.Selects(d, p)
  {
    assert [p][1..] == [];
    assert Filter([p], d, prob.env) == [p];
  }

  // ---------------------------------------------------------------- what is needed

  /** Such a dependency of the root brings its package in. */
  lemma PlainRootIsNeeded(prob: Problem, d: Dependency, p: Package)
    requires Table(d) in prob.roots && Plainly(prob, d, p)
    ensures prob.Needed(p)
  {
    RootIsReachable(prob, d);
    PlainlySelected(prob, d, p);
  }

  /** Such a dependency of a needed package does so too. */
  lemma PlainDependencyIsNeeded(prob: Problem, p: Package, e: Dependency, q: Package)
    requires prob.Needed(p) && Table(e) in p.dependencies && Plainly(prob, e, q)
    ensures prob.Needed(q)
  {
    var d :| prob.Reachable(d) && prob.Selects(d, p);
    RequestIsReachable(prob, d, e);
    PlainlySelected(prob, e, q);
  }

  /** And one of an extra of it, once a plain dependency of the root asks for the extra. */
  lemma PlainExtraIsNeeded(prob: Problem, d: Dependency, p: Package, x: string, e: Dependency, q: Package)
    requires Table(d) in prob.roots && Plainly(prob, d, p) && x in d.extras
    requires x in p.optional && Table(e) in p.optional[x] && Plainly(prob, e, q)
    ensures prob.Needed(q)
  {
    RootIsReachable(prob, d);
    PlainlySelected(prob, d, p);
    RequestIsReachable(prob, d, e);
    PlainlySelected(prob, e, q);
  }

  /** Without dependencies of the root the closure is empty. */
  lemma NoRootsNoPackages(prob: Problem)
    requires forall v :: v in prob.roots ==> v.Scalar?
    ensures !prob.Doomed() && prob.IsClosure([])
  {
    forall d ensures !prob.Reachable(d) {
      if prob.Reachable(d) { SomeRoot(prob, d); }
    }
  }

  lemma SomeRoot(prob: Problem, d: Dependency)
    requires prob.Reachable(d)
    ensures exists v :: v in prob.roots && v.Table?
  {
    var path :| prob.IsPath(path) && path[|path| - 1] == d;
    assert Table(path[0]) in prob.roots;
  }

  /** One plain dependency of the root on a package without dependencies gives a closure of just that package. */
  lemma OnePlainPackage(prob: Problem, d: Dependency, p: Package)
    requires prob.roots == [Table(d)] && Plainly(prob, d, p) && p.dependencies == [] && p.optional == map[]
    ensures !prob.Doomed() && prob.IsClosure([p])
  {
    hide Filter, Matches;
    PlainRootIsNeeded(prob, d, p);
    PlainlySelected(prob, d, p);
    forall e | prob.Reachable(e) ensures e == d {
      var path :| prob.IsPath(path) && path[|path| - 1] == e;
      assert Table(path[0]) in prob.roots;
      assert |path| > 1 ==> prob.Requests(path[0], path[1]);
    }
  }

  // ---------------------------------------------------------------- what fails

  /** A plain dependency of the root on a name without packages, or with two plain ones, is an error. */
  lemma NoUniqueCandidate(prob: Problem, d: Dependency, p: Package, q: Package)
    requires Table(d) in prob.roots && d.marker == Unconditional && d.version == ""
    requires d.name !in prob.index || (
      && prob.index[d.name] == [p, q]
      && p.resolutionMarkers == Markers([]) && q.resolutionMarkers == Markers([]))
    ensures prob.Doomed()
  {
    RootIsReachable(prob, d);
    if d.name in prob.index {
      assert [p, q][1..] == [q] && [q][1..] == [];
      assert Filter([q], d, prob.env) == [q];
      assert Filter([p, q], d, prob.env) == [p, q];
    }
    assert prob.Reachable(d) && prob.Applies(d) && prob.Pick(d).None?;
  }

  /** Two plain packages of one name and different versions, under two names of the lock, are an error. */
  lemma TwoVersions(prob: Problem, d: Dependency, p: Package, e: Dependency, q: Package)
    requires Table(d) in prob.roots && Plainly(prob, d, p)
    requires Table(e) in prob.roots && Plainly(prob, e, q)
    requires p.name == q.name && p.version != q.version
    ensures prob.Doomed()
  {
    PlainRootIsNeeded(prob, d, p);
    PlainRootIsNeeded(prob, e, q);
  }

  // ---------------------------------------------------------------- markers and versions

  /** A dependency whose marker does not hold, or is of another type than text. */
  predicate Idle(d: Dependency, env: Environment) {
    (d.marker.Expression? && !env(d.marker.text)) || d.marker.NotAString?
  }

  /** As a dependency of the root it changes nothing. */
  lemma IdleRootChangesNothing(prob: Problem, other: Problem, d: Dependency)
    requires other == prob.(roots := prob.roots + [Table(d)]) && Idle(d, prob.env)
    ensures prob.Doomed() <==> other.Doomed()
    ensures forall packages :: prob.IsClosure(packages) <==> other.IsClosure(packages)
  {
    hide Filter;
    assert !prob.Applies(d);
    forall e, f ensures prob.Requests(e, f) <==> other.Requests(e, f) { }
    forall e | prob.Reachable(e) ensures other.Reachable(e) {
      var path :| prob.IsPath(path) && path[|path| - 1] == e;
      assert other.IsPath(path);
    }
    forall e | other.Reachable(e) && e != d ensures prob.Reachable(e) {
      var path :| other.IsPath(path) && path[|path| - 1] == e;
      assert |path| > 1 ==> other.Requests(path[0], path[1]);
      assert prob.IsPath(path);
    }
    SameAfterwards(prob, other, d);
  }

  lemma SameAfterwards(prob: Problem, other: Problem, d: Dependency)
    requires prob.index == other.index && prob.env == other.env && !prob.Applies(d)
    requires forall e :: prob.Reachable(e) ==> other.Reachable(e)
    requires forall e :: other.Reachable(e) && e != d ==> prob.Reachable(e)
    ensures prob.Doomed() <==> other.Doomed()
    ensures forall packages :: prob.IsClosure(packages) <==> other.IsClosure(packages)
  {
    hide Selected, Matches;
    forall p ensures prob.Needed(p) <==> other.Needed(p) {
      if other.Needed(p) {
        var e :| other.Reachable(e) && other.Selects(e, p);
        assert prob.Reachable(e) && prob.Selects(e, p);
      }
      if prob.Needed(p) {
        var e :| prob.Reachable(e) && prob.Selects(e, p);
        assert other.Reachable(e) && other.Selects(e, p);
      }
    }
    if prob.Ambiguous() {
      var e :| prob.Reachable(e) && prob.Applies(e) && prob.Pick(e).None?;
      assert other.Reachable(e) && other.Applies(e) && other.Pick(e).None?;
    }
    if other.Ambiguous() {
      var e :| other.Reachable(e) && other.Applies(e) && other.Pick(e).None?;
      assert prob.Reachable(e) && prob.Applies(e) && prob.Pick(e).None?;
    }
  }

  /** A marker that holds is as good as none. */
  lemma HoldingMarkerIsNone(prob: Problem, d: Dependency, p: Package)
    requires d.marker.Expression? && prob.env(d.marker.text)
    ensures prob.Selects(d, p) <==> prob.Selects(d.(marker := Unconditional), p)
  {
    hide Filter;
    SelectionIgnoresMarker(prob.index, d, prob.env);
  }

  lemma SelectionIgnoresMarker(index: Index, d: Dependency, env: Environment)
    ensures Selected(index, d, env) == Selected(index, d.(marker := Unconditional), env)
  {
    FilterIgnoresMarker(Filed(index, d.name), d, env);
  }

  lemma {:induction false} FilterIgnoresMarker(packages: seq<Package>, d: Dependency, env: Environment)
    ensures Filter(packages, d, env) == Filter(packages, d.(marker := Unconditional), env)
  {
    if packages != [] { FilterIgnoresMarker(packages[1..], d, env); }
  }

  /** One of several resolution markers is enough; none at all is no condition; other values never fit. */
  lemma ResolutionMarkersAreAlternatives(p: Package, a: seq<Marker>, b: seq<Marker>, d: Dependency, env: Environment)
    ensures a != [] && b != [] ==>
      (IsCandidate(p.(resolutionMarkers := Markers(a + b)), d, env) <==>
        || IsCandidate(p.(resolutionMarkers := Markers(a)), d, env)
        || IsCandidate(p.(resolutionMarkers := Markers(b)), d, env))
    ensures !IsCandidate(p.(resolutionMarkers := NotAList), d, env)
    ensures IsCandidate(p.(resolutionMarkers := Markers([])), d, env) <==> d.version == "" || d.version == p.version
  {
    hide Matches;
    if i :| 0 <= i < |a| && Matches(a[i], env) { assert (a + b)[i] == a[i]; }
    if i :| 0 <= i < |b| && Matches(b[i], env) { assert (a + b)[|a| + i] == b[i]; }
  }

  /** A single resolution marker fits when it is empty or holds. */
  lemma OneResolutionMarker(p: Package, m: Marker, d: Dependency, env: Environment)
    ensures IsCandidate(p.(resolutionMarkers := Markers([m])), d, env) <==>
      (m == Unconditional || (m.Expression? && env(m.text))) && (d.version == "" || d.version == p.version)
  {
    assert [m][0] == m;
  }

  // ---------------------------------------------------------------- runs of the walk

  /** A run goes on with any pending dependency that raises nothing. */
  lemma RunGoesOn(prob: Problem, run: seq<Walk>, d: Dependency)
    requires IsRun(prob, run) && d in run[|run| - 1].pending && Visit(prob, run[|run| - 1], d).Some?
    ensures IsRun(prob, run + [Visit(prob, run[|run| - 1], d).value])
  {
    hide Visit;
    var more := run + [Visit(prob, run[|run| - 1], d).value];
    forall i | 0 <= i < |more| - 1 ensures Turn(prob, more[i], more[i + 1]) {
      if i < |run| - 1 { assert Turn(prob, run[i], run[i + 1]); }
    }
  }

  /** Every run can be brought to an end, and it ends with nothing pending exactly when nothing is doomed. */
  lemma {:induction false} EveryRunEnds(prob: Problem, run: seq<Walk>) returns (end: seq<Walk>)
    requires WellIndexed(prob.index) && IsRun(prob, run)
    ensures IsRun(prob, end) && run <= end
    ensures end[|end| - 1].pending == multiset{} <==> !prob.Doomed()
    decreases var w := run[|run| - 1]; |UnopenedNames(prob, w)|,
      var w := run[|run| - 1]; |UnaskedGroups(prob, w)|, |run[|run| - 1].pending|
  {
    hide Visit, UnaskedGroups, UnopenedNames, IsRun;
    NonemptyRun(prob, run);
    AnyDiscipline(prob, run);
    var w := run[|run| - 1];
    if w.pending == multiset{} {
      end := run;
    } else {
      var d :| d in w.pending;
      if Visit(prob, w, d).None? {
        end := run;
      } else {
        VisitMakesProgress(prob, w, d);
        RunGoesOn(prob, run, d);
        end := EveryRunEnds(prob, run + [Visit(prob, w, d).value]);
        assert run <= run + [Visit(prob, w, d).value] <= end;
      }
    }
  }

  lemma NonemptyRun(prob: Problem, run: seq<Walk>)
    requires IsRun(prob, run)
    ensures run != []
  {
  }
}
