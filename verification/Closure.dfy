/** The locked dependency closure: what it is, and that any order of walking the graph finds it. */
module Closure {
  import opened Ordering
  import opened Lock

  datatype Problem = Problem(index: Index, env: Environment, roots: seq<LockValue>)
  {
    predicate Applies(d: Dependency) { Matches(d.marker, env) }

    function Pick(d: Dependency): Option<Package> { Selected(index, d, env) }

    /** `d` applies and selects `p`. */
    predicate Selects(d: Dependency, p: Package) { Applies(d) && Pick(d) == Some(p) }

    /** Following `d` brings up `e`: a dependency of the package, or one of an extra that `d` asks for. */
    ghost predicate Requests(d: Dependency, e: Dependency) {
      && Applies(d) && Pick(d).Some?
      && var p := Pick(d).value;
      || Table(e) in p.dependencies
      || exists x :: x in d.extras && x in p.optional && Table(e) in p.optional[x]
    }

    ghost predicate IsPath(path: seq<Dependency>) {
      && path != []
      && Table(path[0]) in roots
      && forall i :: 0 <= i < |path| - 1 ==> Requests(path[i], path[i + 1])
    }

    ghost predicate Reachable(d: Dependency) {
      exists path :: IsPath(path) && path[|path| - 1] == d
    }

    /** `p` belongs to the closure: a reachable dependency that applies selects it. */
    ghost predicate Needed(p: Package) {
      exists d :: Reachable(d) && Selects(d, p)
    }

    /** A set of dependencies that holds the roots and everything its members request. */
    ghost predicate ClosedUnderRequests(s: set<Dependency>) {
      && (forall d :: Table(d) in roots ==> d in s)
      && (forall d, e :: d in s && Requests(d, e) ==> e in s)
    }

    /** A reachable dependency that applies has no unique candidate. */
    ghost predicate Ambiguous() {
      exists d :: Reachable(d) && Applies(d) && Pick(d).None?
    }

    /** Two versions of one name are needed. */
    ghost predicate Conflicting() {
      exists p, q :: Needed(p) && Needed(q) && p.name == q.name && p.version != q.version
    }

    ghost predicate Doomed() { Ambiguous() || Conflicting() }

    /** Exactly the needed packages, ascending by name and so one for each name. */
    ghost predicate IsClosure(packages: seq<Package>) {
      && Ascending(packages, NameLess)
      && forall p :: p in packages <==> Needed(p)
    }
  }

  predicate NameLess(p: Package, q: Package) { Less(p.name, q.name) }

  lemma NameLessIsStrictOrder()
    ensures StrictOrder(NameLess)
  {
    LessIsStrictTotalOrder();
  }

  // ---------------------------------------------------------------- reachability

  lemma RootIsReachable(prob: Problem, d: Dependency)
    requires Table(d) in prob.roots
    ensures prob.Reachable(d)
  {
    assert prob.IsPath([d]);
  }

  lemma RequestIsReachable(prob: Problem, d: Dependency, e: Dependency)
    requires prob.Reachable(d) && prob.Requests(d, e)
    ensures prob.Reachable(e)
  {
    var path :| prob.IsPath(path) && path[|path| - 1] == d;
    assert prob.IsPath(path + [e]);
    assert (path + [e])[|path|] == e;
  }

  lemma {:induction false} PathStaysInside(prob: Problem, s: set<Dependency>, path: seq<Dependency>)
    requires prob.ClosedUnderRequests(s) && prob.IsPath(path)
    ensures path[|path| - 1] in s
    decreases |path|
  {
    if |path| > 1 {
      var prefix := path[..|path| - 1];
      assert prob.IsPath(prefix) by {
        forall i | 0 <= i < |prefix| - 1 ensures prob.Requests(prefix[i], prefix[i + 1]) {
          assert prob.Requests(path[i], path[i + 1]);
        }
      }
      PathStaysInside(prob, s, prefix);
      assert prob.Requests(path[|path| - 2], path[|path| - 1]);
    }
  }

  /** Reachability is the least closed set: every closed set selects at least the needed packages. */
  lemma ClosureIsLeast(prob: Problem, s: set<Dependency>, p: Package)
    requires prob.ClosedUnderRequests(s) && prob.Needed(p)
    ensures exists d :: d in s && prob.Selects(d, p)
  {
    var d :| prob.Reachable(d) && prob.Selects(d, p);
    var path :| prob.IsPath(path) && path[|path| - 1] == d;
    PathStaysInside(prob, s, path);
  }

  // ---------------------------------------------------------------- the walk, in any order

  /**
   * The walk's variables. `pending` is a bag, so that nothing is said about which entry is taken
   * next; `seen` records the entries already taken.
   */
  datatype Walk = Walk(
    pending: multiset<Dependency>,
    selected: map<string, Package>,
    expanded: set<string>,
    extras: map<string, set<string>>,
    seen: set<Dependency>)
  {
    function Asked(name: string): set<string> { if name in extras then extras[name] else {} }

    ghost predicate Known(d: Dependency) { d in pending || d in seen }

    ghost predicate AllKnown(values: seq<LockValue>) {
      forall d :: Table(d) in values ==> Known(d)
    }
  }

  function Start(prob: Problem): Walk {
    Walk(multiset(Tables(prob.roots)), map[], {}, map[], {})
  }

  /** The tables of the given extras of `p`, in the order given. */
  function ExtraTables(p: Package, names: seq<string>): (r: seq<Dependency>)
    ensures forall d :: d in r <==> exists x :: x in names && x in p.optional && Table(d) in p.optional[x]
  {
    if names == [] then []
    else
      assert names == [names[0]] + names[1..];
      (if names[0] in p.optional then Tables(p.optional[names[0]]) else []) + ExtraTables(p, names[1..])
  }

  /** The worklist after `d` was taken: what was left of it, the package's own dependencies the first time
      its name comes up, and the groups of the extras newly asked for. */
  function Requeue(w: Walk, d: Dependency, p: Package, extra: seq<Dependency>): (r: multiset<Dependency>)
    requires d in w.pending
    ensures forall e :: e in w.pending && e != d ==> e in r
    ensures forall e :: e in extra ==> e in r
    ensures p.name !in w.expanded ==> forall e :: Table(e) in p.dependencies ==> e in r
    ensures forall e :: e in r ==> e in w.pending || Table(e) in p.dependencies || e in extra
    ensures p.name in w.expanded && extra == [] ==> |r| == |w.pending| - 1
  {
    var own := if p.name in w.expanded then [] else Tables(p.dependencies);
    w.pending - multiset{d} + multiset(own) + multiset(extra)
  }

  /** The extras `d` asks for that were not asked of this name before. */
  function NewExtras(w: Walk, d: Dependency, name: string): set<string> {
    (set x | x in d.extras) - w.Asked(name)
  }

  /** One turn of the loop on the pending entry `d`; `None` is a raised error. */
  function Visit(prob: Problem, w: Walk, d: Dependency): Option<Walk>
    requires d in w.pending
  {
    if !prob.Applies(d) then Some(w.(pending := w.pending - multiset{d}, seen := w.seen + {d}))
    else if prob.Pick(d).None? then None
    else
      var p := prob.Pick(d).value;
      if p.name in w.selected && w.selected[p.name] != p && w.selected[p.name].version != p.version then None
      else
        var requested := NewExtras(w, d, p.name);
        Some(Walk(
          Requeue(w, d, p, ExtraTables(p, SortedNames(requested))),
          if p.name in w.selected then w.selected else w.selected[p.name := p],
          w.expanded + {p.name},
          w.extras[p.name := w.Asked(p.name) + requested],
          w.seen + {d}))
  }

  /** A seen entry that applies has its package selected and everything it requests known. */
  ghost predicate Settled(prob: Problem, w: Walk, d: Dependency)
  {
    prob.Applies(d) ==>
      && prob.Pick(d).Some?
      && var p := prob.Pick(d).value;
      && p.name in w.expanded
      && p.name in w.selected && w.selected[p.name] == p
      && forall x :: x in d.extras ==> x in w.Asked(p.name)
  }

  ghost predicate OnlyReachable(prob: Problem, w: Walk) { forall d :: w.Known(d) ==> prob.Reachable(d) }

  ghost predicate SeenIsSettled(prob: Problem, w: Walk) { forall d :: d in w.seen ==> Settled(prob, w, d) }

  ghost predicate SelectionIsWitnessed(prob: Problem, w: Walk) {
    forall n :: n in w.selected ==> w.selected[n].name == n && Witnessed(prob, w, w.selected[n])
  }

  ghost predicate ExpandedIsKnown(w: Walk) {
    forall n :: n in w.expanded ==> n in w.selected && w.AllKnown(w.selected[n].dependencies)
  }

  ghost predicate AskedIsKnown(w: Walk) {
    forall n, x :: n in w.selected && x in w.Asked(n) && x in w.selected[n].optional
      ==> w.AllKnown(w.selected[n].optional[x])
  }

  ghost predicate Invariant(prob: Problem, w: Walk)
  {
    && WellIndexed(prob.index)
    && OnlyReachable(prob, w)
    && w.AllKnown(prob.roots)
    && SeenIsSettled(prob, w)
    && SelectionIsWitnessed(prob, w)
    && ExpandedIsKnown(w)
    && AskedIsKnown(w)
    && w.extras.Keys <= w.selected.Keys
  }

  ghost predicate Witnessed(prob: Problem, w: Walk, p: Package) {
    exists d :: d in w.seen && prob.Selects(d, p)
  }

  lemma StartIsInvariant(prob: Problem)
    requires WellIndexed(prob.index)
    ensures Invariant(prob, Start(prob))
  {
    var w := Start(prob);
    forall d | w.Known(d) ensures prob.Reachable(d) {
      assert d in Tables(prob.roots);
      RootIsReachable(prob, d);
    }
  }

  /** An error is raised only when the problem itself is doomed. */
  lemma ErrorMeansDoomed(prob: Problem, w: Walk, d: Dependency)
    requires Invariant(prob, w) && d in w.pending && Visit(prob, w, d).None?
    ensures prob.Doomed()
  {
    assert w.Known(d);
    if prob.Pick(d).Some? {
      var p := prob.Pick(d).value;
      var q := w.selected[p.name];
      assert Witnessed(prob, w, q);
      var e :| e in w.seen && prob.Selects(e, q);
      assert w.Known(e);
      assert prob.Selects(d, p);
      assert prob.Needed(p) && prob.Needed(q);
    }
  }

  /** A name that is already selected keeps the very package that `d` selects. */
  lemma SelectionAgrees(prob: Problem, w: Walk, d: Dependency)
    requires Invariant(prob, w) && d in w.pending && prob.Applies(d) && Visit(prob, w, d).Some?
    ensures prob.Pick(d).Some?
    ensures var p := prob.Pick(d).value; p.name in w.selected ==> w.selected[p.name] == p
  {
    var p := prob.Pick(d).value;
    if p.name in w.selected && w.selected[p.name] != p {
      var q := w.selected[p.name];
      assert Witnessed(prob, w, q);
      var e :| e in w.seen && prob.Selects(e, q);
      SameVersionSamePackage(prob.index, d, e, prob.env);
    }
  }

  /** A turn forgets nothing. */
  ghost predicate Grows(w: Walk, w': Walk) {
    && (forall e :: w.Known(e) ==> w'.Known(e))
    && (forall n :: n in w.selected ==> n in w'.selected && w'.selected[n] == w.selected[n])
    && w.expanded <= w'.expanded
    && (forall n, x :: x in w.Asked(n) ==> x in w'.Asked(n))
  }

  lemma VisitForgetsNoEntry(prob: Problem, w: Walk, d: Dependency, e: Dependency)
    requires d in w.pending && Visit(prob, w, d).Some? && w.Known(e)
    ensures Visit(prob, w, d).value.Known(e)
  {
  }

  lemma VisitForgetsNoSelection(prob: Problem, w: Walk, d: Dependency, n: string)
    requires d in w.pending && Visit(prob, w, d).Some? && n in w.selected
    ensures n in Visit(prob, w, d).value.selected
    ensures Visit(prob, w, d).value.selected[n] == w.selected[n]
  {
    hide Selected, Requeue, ExtraTables, SortedNames;
  }

  lemma VisitForgetsNoExtra(prob: Problem, w: Walk, d: Dependency, n: string, x: string)
    requires d in w.pending && Visit(prob, w, d).Some? && x in w.Asked(n)
    ensures x in Visit(prob, w, d).value.Asked(n)
  {
  }

  lemma VisitGrows(prob: Problem, w: Walk, d: Dependency)
    requires d in w.pending && Visit(prob, w, d).Some?
    ensures Grows(w, Visit(prob, w, d).value)
    ensures Visit(prob, w, d).value.seen == w.seen + {d}
  {
    forall e | w.Known(e) { VisitForgetsNoEntry(prob, w, d, e); }
    forall n | n in w.selected { VisitForgetsNoSelection(prob, w, d, n); }
    forall n, x | x in w.Asked(n) { VisitForgetsNoExtra(prob, w, d, n, x); }
  }

  lemma VisitKeepsReachable(prob: Problem, w: Walk, d: Dependency)
    requires Invariant(prob, w) && d in w.pending && Visit(prob, w, d).Some?
    ensures OnlyReachable(prob, Visit(prob, w, d).value)
  {
    var w' := Visit(prob, w, d).value;
    assert w.Known(d);
    forall e | w'.Known(e) ensures prob.Reachable(e) {
      if !w.Known(e) {
        var p := prob.Pick(d).value;
        assert e in Tables(p.dependencies) || e in ExtraTables(p, SortedNames(NewExtras(w, d, p.name)));
        assert prob.Requests(d, e);
        RequestIsReachable(prob, d, e);
      }
    }
  }

  lemma VisitKeepsWitnesses(prob: Problem, w: Walk, d: Dependency)
    requires Invariant(prob, w) && d in w.pending && Visit(prob, w, d).Some?
    ensures SelectionIsWitnessed(prob, Visit(prob, w, d).value)
  {
    var w' := Visit(prob, w, d).value;
    VisitGrows(prob, w, d);
    forall n | n in w'.selected ensures w'.selected[n].name == n && Witnessed(prob, w', w'.selected[n]) {
      if n in w.selected {
        assert Witnessed(prob, w, w.selected[n]);
        var e :| e in w.seen && prob.Selects(e, w.selected[n]);
        assert e in w'.seen;
      } else {
        assert d in w'.seen && prob.Selects(d, w'.selected[n]);
      }
    }
  }

  lemma VisitKeepsSettled(prob: Problem, w: Walk, d: Dependency)
    requires Invariant(prob, w) && d in w.pending && Visit(prob, w, d).Some?
    ensures SeenIsSettled(prob, Visit(prob, w, d).value)
  {
    var w' := Visit(prob, w, d).value;
    VisitGrows(prob, w, d);
    forall e | e in w'.seen ensures Settled(prob, w', e) {
      if e in w.seen {
        assert Settled(prob, w, e);
      } else if prob.Applies(d) {
        SelectionAgrees(prob, w, d);
      }
    }
  }

  lemma VisitKeepsExpanded(prob: Problem, w: Walk, d: Dependency)
    requires Invariant(prob, w) && d in w.pending && Visit(prob, w, d).Some?
    ensures ExpandedIsKnown(Visit(prob, w, d).value)
  {
    var w' := Visit(prob, w, d).value;
    VisitGrows(prob, w, d);
    forall n | n in w'.expanded ensures n in w'.selected && w'.AllKnown(w'.selected[n].dependencies) {
      if n in w.expanded {
        assert w.AllKnown(w.selected[n].dependencies);
      } else {
        SelectionAgrees(prob, w, d);
        var p := prob.Pick(d).value;
        forall e | Table(e) in p.dependencies ensures w'.Known(e) {
          assert e in Tables(p.dependencies);
        }
      }
    }
  }

  /** The groups newly asked for are on the worklist. */
  lemma NewGroupsAreKnown(prob: Problem, w: Walk, d: Dependency, x: string)
    requires d in w.pending && Visit(prob, w, d).Some? && prob.Applies(d)
    requires x in NewExtras(w, d, prob.Pick(d).value.name) && x in prob.Pick(d).value.optional
    ensures Visit(prob, w, d).value.AllKnown(prob.Pick(d).value.optional[x])
  {
    hide Selected;
    var p := prob.Pick(d).value;
    var names := SortedNames(NewExtras(w, d, p.name));
    assert x in names;
    forall e | Table(e) in p.optional[x] ensures Visit(prob, w, d).value.Known(e) {
      assert e in ExtraTables(p, names);
    }
  }

  lemma GroupStaysKnown(prob: Problem, w: Walk, d: Dependency, n: string, x: string)
    requires Invariant(prob, w) && d in w.pending && Visit(prob, w, d).Some?
    requires var w' := Visit(prob, w, d).value;
      n in w'.selected && x in w'.Asked(n) && x in w'.selected[n].optional
    ensures var w' := Visit(prob, w, d).value; w'.AllKnown(w'.selected[n].optional[x])
  {
    hide Selected, Requeue, ExtraTables, SortedNames;
    VisitGrows(prob, w, d);
    if x in w.Asked(n) {
      assert w.AllKnown(w.selected[n].optional[x]);
    } else {
      SelectionAgrees(prob, w, d);
      NewGroupsAreKnown(prob, w, d, x);
    }
  }

  lemma VisitKeepsAsked(prob: Problem, w: Walk, d: Dependency)
    requires Invariant(prob, w) && d in w.pending && Visit(prob, w, d).Some?
    ensures AskedIsKnown(Visit(prob, w, d).value)
  {
    hide Visit, Invariant;
    var w' := Visit(prob, w, d).value;
    forall n, x | n in w'.selected && x in w'.Asked(n) && x in w'.selected[n].optional {
      GroupStaysKnown(prob, w, d, n, x);
    }
  }

  lemma VisitKeepsInvariant(prob: Problem, w: Walk, d: Dependency)
    requires Invariant(prob, w) && d in w.pending && Visit(prob, w, d).Some?
    ensures Invariant(prob, Visit(prob, w, d).value)
  {
    VisitGrows(prob, w, d);
    VisitKeepsReachable(prob, w, d);
    VisitKeepsWitnesses(prob, w, d);
    VisitKeepsSettled(prob, w, d);
    VisitKeepsExpanded(prob, w, d);
    VisitKeepsAsked(prob, w, d);
  }

  /** With nothing pending, the entries seen are closed, so they are all the reachable ones. */
  lemma SeenIsClosed(prob: Problem, w: Walk)
    requires Invariant(prob, w) && w.pending == multiset{}
    ensures prob.ClosedUnderRequests(w.seen)
    ensures forall d :: prob.Reachable(d) <==> d in w.seen
  {
    forall d | Table(d) in prob.roots ensures d in w.seen { assert w.Known(d); }
    forall d, e | d in w.seen && prob.Requests(d, e) ensures e in w.seen {
      assert Settled(prob, w, d);
      var p := prob.Pick(d).value;
      if Table(e) in p.dependencies {
        assert w.AllKnown(w.selected[p.name].dependencies);
      } else {
        var x :| x in d.extras && x in p.optional && Table(e) in p.optional[x];
        assert w.AllKnown(w.selected[p.name].optional[x]);
      }
      assert w.Known(e);
    }
    forall d | prob.Reachable(d) ensures d in w.seen {
      var path :| prob.IsPath(path) && path[|path| - 1] == d;
      PathStaysInside(prob, w.seen, path);
    }
    forall d | d in w.seen ensures prob.Reachable(d) { assert w.Known(d); }
  }

  /** A finished walk has selected the needed packages and nothing else. */
  lemma FinishedWalkSelects(prob: Problem, w: Walk, p: Package)
    requires Invariant(prob, w) && w.pending == multiset{}
    ensures prob.Needed(p) <==> p.name in w.selected && w.selected[p.name] == p
  {
    SeenIsClosed(prob, w);
    if prob.Needed(p) {
      var d :| prob.Reachable(d) && prob.Selects(d, p);
      assert Settled(prob, w, d);
    }
    if p.name in w.selected && w.selected[p.name] == p {
      assert Witnessed(prob, w, w.selected[p.name]);
      var d :| d in w.seen && prob.Selects(d, p);
    }
  }

  /** A finished walk met no obstacle because there is none. */
  lemma FinishedWalkIsNotDoomed(prob: Problem, w: Walk)
    requires Invariant(prob, w) && w.pending == multiset{}
    ensures !prob.Doomed()
  {
    SeenIsClosed(prob, w);
    forall d | prob.Reachable(d) && prob.Applies(d) ensures prob.Pick(d).Some? {
      assert Settled(prob, w, d);
    }
    forall p, q | prob.Needed(p) && prob.Needed(q) && p.name == q.name ensures p.version == q.version {
      FinishedWalkSelects(prob, w, p);
      FinishedWalkSelects(prob, w, q);
    }
  }

  // ---------------------------------------------------------------- any worklist discipline

  /** A run: every turn takes some pending entry, and no turn raises. */
  ghost predicate IsRun(prob: Problem, run: seq<Walk>) {
    && run != [] && run[0] == Start(prob)
    && forall i :: 0 <= i < |run| - 1 ==> Turn(prob, run[i], run[i + 1])
  }

  ghost predicate Turn(prob: Problem, w: Walk, w': Walk) {
    exists d :: d in w.pending && Visit(prob, w, d) == Some(w')
  }

  lemma {:induction false} RunKeepsInvariant(prob: Problem, run: seq<Walk>)
    requires WellIndexed(prob.index) && IsRun(prob, run)
    ensures Invariant(prob, run[|run| - 1])
    decreases |run|
  {
    if |run| == 1 {
      StartIsInvariant(prob);
    } else {
      var prefix := run[..|run| - 1];
      assert IsRun(prob, prefix) by {
        forall i | 0 <= i < |prefix| - 1 ensures Turn(prob, prefix[i], prefix[i + 1]) {
          assert Turn(prob, run[i], run[i + 1]);
        }
      }
      RunKeepsInvariant(prob, prefix);
      assert Turn(prob, run[|run| - 2], run[|run| - 1]);
      var d :| d in run[|run| - 2].pending && Visit(prob, run[|run| - 2], d) == Some(run[|run| - 1]);
      VisitKeepsInvariant(prob, run[|run| - 2], d);
    }
  }

  /**
   * Whatever entry each turn takes, a run that empties the worklist selects exactly the needed
   * packages, and a run that raises does so on a doomed problem only.
   */
  lemma AnyDiscipline(prob: Problem, run: seq<Walk>)
    requires WellIndexed(prob.index) && IsRun(prob, run)
    ensures var w := run[|run| - 1];
      && (w.pending == multiset{} ==>
            !prob.Doomed() && forall p :: prob.Needed(p) <==> p.name in w.selected && w.selected[p.name] == p)
      && (forall d :: d in w.pending && Visit(prob, w, d).None? ==> prob.Doomed())
  {
    RunKeepsInvariant(prob, run);
    var w := run[|run| - 1];
    if w.pending == multiset{} {
      FinishedWalkIsNotDoomed(prob, w);
      forall p { FinishedWalkSelects(prob, w, p); }
    }
    forall d | d in w.pending && Visit(prob, w, d).None? ensures prob.Doomed() {
      ErrorMeansDoomed(prob, w, d);
    }
  }

  /** The names and the optional-dependency groups that a walk has still to open. */
  ghost function UnopenedNames(prob: Problem, w: Walk): set<string> { prob.index.Keys - w.expanded }

  ghost function AllGroups(packages: seq<Package>): set<(string, string)> {
    if packages == [] then {}
    else (set x | x in packages[0].optional :: (packages[0].name, x)) + AllGroups(packages[1..])
  }

  ghost function IndexGroups(index: Index): set<(string, string)> {
    set n, g | n in index && g in AllGroups(index[n]) :: g
  }

  ghost function UnaskedGroups(prob: Problem, w: Walk): set<(string, string)> {
    set g | g in IndexGroups(prob.index) && g.1 !in w.Asked(g.0)
  }

  lemma {:induction false} GroupIsListed(packages: seq<Package>, p: Package, x: string)
    requires p in packages && x in p.optional
    ensures (p.name, x) in AllGroups(packages)
  {
    if packages[0] != p { GroupIsListed(packages[1..], p, x); }
  }

  ghost predicate Progress(prob: Problem, w: Walk, w': Walk) {
    || |UnopenedNames(prob, w')| < |UnopenedNames(prob, w)|
    || (&& UnopenedNames(prob, w') == UnopenedNames(prob, w)
        && |UnaskedGroups(prob, w')| < |UnaskedGroups(prob, w)|)
    || (&& UnopenedNames(prob, w') == UnopenedNames(prob, w)
        && UnaskedGroups(prob, w') == UnaskedGroups(prob, w)
        && |w'.pending| < |w.pending|)
  }

  lemma OpeningANameIsProgress(prob: Problem, w: Walk, d: Dependency)
    requires WellIndexed(prob.index) && d in w.pending && Visit(prob, w, d).Some?
    requires prob.Applies(d) && prob.Pick(d).value.name !in w.expanded
    ensures |UnopenedNames(prob, Visit(prob, w, d).value)| < |UnopenedNames(prob, w)|
  {
    var p := prob.Pick(d).value;
    assert p in prob.index[d.name];
    assert p.name in UnopenedNames(prob, w);
    assert UnopenedNames(prob, Visit(prob, w, d).value) == UnopenedNames(prob, w) - {p.name};
  }

  lemma AskingAnExtraIsProgress(prob: Problem, w: Walk, d: Dependency, x: string)
    requires WellIndexed(prob.index) && d in w.pending && Visit(prob, w, d).Some?
    requires prob.Applies(d)
    requires x in NewExtras(w, d, prob.Pick(d).value.name) && x in prob.Pick(d).value.optional
    ensures |UnaskedGroups(prob, Visit(prob, w, d).value)| < |UnaskedGroups(prob, w)|
  {
    var p := prob.Pick(d).value;
    VisitGrows(prob, w, d);
    assert p in prob.index[d.name];
    GroupIsListed(prob.index[d.name], p, x);
    assert (p.name, x) in IndexGroups(prob.index);
    assert (p.name, x) in UnaskedGroups(prob, w) && (p.name, x) !in UnaskedGroups(prob, Visit(prob, w, d).value);
    ProperSubsetIsSmaller(UnaskedGroups(prob, Visit(prob, w, d).value), UnaskedGroups(prob, w));
  }

  lemma NothingNewIsShorter(prob: Problem, w: Walk, d: Dependency)
    requires d in w.pending && Visit(prob, w, d).Some?
    requires prob.Applies(d) ==>
      && prob.Pick(d).value.name in w.expanded
      && NewExtras(w, d, prob.Pick(d).value.name) !! prob.Pick(d).value.optional.Keys
    ensures |Visit(prob, w, d).value.pending| < |w.pending|
  {
    if prob.Applies(d) {
      var p := prob.Pick(d).value;
      var added := ExtraTables(p, SortedNames(NewExtras(w, d, p.name)));
      assert added == [] by { NonemptyHasElement(added); }
    }
  }

  lemma AskedGroupsOnlyGrow(prob: Problem, w: Walk, d: Dependency)
    requires d in w.pending && Visit(prob, w, d).Some?
    ensures UnaskedGroups(prob, Visit(prob, w, d).value) <= UnaskedGroups(prob, w)
  {
    VisitGrows(prob, w, d);
  }

  lemma SmallerOrSame<T>(a: set<T>, b: set<T>)
    requires a <= b
    ensures a == b || |a| < |b|
  {
    if a != b { ProperSubsetIsSmaller(a, b); }
  }

  /**
   * Every turn makes progress in one fixed well-founded order, so every run is finite, cycles and
   * mutually requested extras included.
   */
  lemma VisitMakesProgress(prob: Problem, w: Walk, d: Dependency)
    requires WellIndexed(prob.index) && d in w.pending && Visit(prob, w, d).Some?
    ensures Progress(prob, w, Visit(prob, w, d).value)
  {
    if prob.Applies(d) && prob.Pick(d).value.name !in w.expanded {
      OpeningANameIsProgress(prob, w, d);
    } else {
      OpenNamesStay(prob, w, d);
      if x :| prob.Applies(d) && x in NewExtras(w, d, prob.Pick(d).value.name) && x in prob.Pick(d).value.optional {
        AskingAnExtraIsProgress(prob, w, d, x);
      } else {
        NothingNewIsShorter(prob, w, d);
        AskedGroupsOnlyGrow(prob, w, d);
        SmallerOrSame(UnaskedGroups(prob, Visit(prob, w, d).value), UnaskedGroups(prob, w));
      }
    }
  }

  lemma OpenNamesStay(prob: Problem, w: Walk, d: Dependency)
    requires d in w.pending && Visit(prob, w, d).Some?
    requires prob.Applies(d) ==> prob.Pick(d).value.name in w.expanded
    ensures UnopenedNames(prob, Visit(prob, w, d).value) == UnopenedNames(prob, w)
  {
  }

  // ---------------------------------------------------------------- the closure is unique

  lemma ClosureIsUnique(prob: Problem, a: seq<Package>, b: seq<Package>)
    requires prob.IsClosure(a) && prob.IsClosure(b)
    ensures a == b
  {
    NameLessIsStrictOrder();
    AscendingIsUnique(a, b, NameLess);
  }

  /** Only which tables are roots matters, not their order, repetition or the other list elements. */
  lemma RootOrderIsIrrelevant(prob: Problem, other: Problem)
    requires prob.index == other.index && prob.env == other.env
    requires forall d :: Table(d) in prob.roots <==> Table(d) in other.roots
    ensures prob.Doomed() <==> other.Doomed()
    ensures forall packages :: prob.IsClosure(packages) <==> other.IsClosure(packages)
  {
    forall d ensures prob.Reachable(d) <==> other.Reachable(d) {
      if prob.Reachable(d) { SameRootsReachTheSame(prob, other, d); }
      if other.Reachable(d) { SameRootsReachTheSame(other, prob, d); }
    }
    assert forall d, p :: prob.Selects(d, p) <==> other.Selects(d, p);
    assert forall p :: prob.Needed(p) <==> other.Needed(p);
    assert prob.Ambiguous() <==> other.Ambiguous();
  }

  lemma SameRootsReachTheSame(prob: Problem, other: Problem, d: Dependency)
    requires prob.index == other.index && prob.env == other.env
    requires forall d :: Table(d) in prob.roots <==> Table(d) in other.roots
    requires prob.Reachable(d)
    ensures other.Reachable(d)
  {
    var path :| prob.IsPath(path) && path[|path| - 1] == d;
    assert other.IsPath(path) by {
      forall i | 0 <= i < |path| - 1 ensures other.Requests(path[i], path[i + 1]) {
        assert prob.Requests(path[i], path[i + 1]);
      }
    }
  }
}
