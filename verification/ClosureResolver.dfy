/** The closure walk as the program runs it: a deque, a dictionary and two processed sets. */
module ClosureResolver {
  import opened Ordering
  import opened Lock
  import opened Closure

  /** `_record_selection`: keep the first package of a name, refuse another version of it. */
  method RecordSelection(selected: map<string, Package>, p: Package) returns (r: Result<map<string, Package>>)
    ensures r.Failure? <==> p.name in selected && selected[p.name].version != p.version
    ensures r.Success? ==> r.value == if p.name in selected then selected else selected[p.name := p]
  {
    var kept := selected;
    if p.name !in kept { kept := kept[p.name := p]; }
    if kept[p.name] != p && kept[p.name].version != p.version {
      return Failure;
    }
    return Success(kept);
  }

  function Group(p: Package, extra: string): seq<Dependency> {
    if extra in p.optional then Tables(p.optional[extra]) else []
  }

  lemma NextGroup(p: Package, names: seq<string>, i: nat)
    requires i < |names|
    ensures ExtraTables(p, names[i..]) == Group(p, names[i]) + ExtraTables(p, names[i + 1..])
  {
    assert names[i..][0] == names[i] && names[i..][1..] == names[i + 1..];
  }

  /** `_queue_requested_extras`: append the groups of the extras newly asked for, in sorted order. */
  method QueueRequestedExtras(pending: seq<Dependency>, p: Package, d: Dependency, processed: set<string>)
    returns (queue: seq<Dependency>, asked: set<string>)
    ensures var requested := (set x | x in d.extras) - processed;
      && queue == pending + ExtraTables(p, SortedNames(requested))
      && asked == processed + requested
  {
    var requested := (set x | x in d.extras) - processed;
    var names := SortedNames(requested);
    queue := QueueGroups(pending, p, names);
    asked := processed + requested;
  }

  method QueueGroups(pending: seq<Dependency>, p: Package, names: seq<string>) returns (queue: seq<Dependency>)
    ensures queue == pending + ExtraTables(p, names)
  {
    queue := pending;
    for i := 0 to |names|
      invariant queue + ExtraTables(p, names[i..]) == pending + ExtraTables(p, names)
    {
      NextGroup(p, names, i);
      var group := Group(p, names[i]);
      Regroup(queue, group, ExtraTables(p, names[i + 1..]));
      queue := queue + group;
    }
  }

  lemma Regroup<T>(a: seq<T>, b: seq<T>, c: seq<T>)
    ensures a + (b + c) == (a + b) + c
  {
  }

  /** The walk's local variables, with the entries already taken as history. */
  datatype Locals = Locals(
    pending: seq<Dependency>,
    selected: map<string, Package>,
    expanded: set<string>,
    extras: map<string, set<string>>)
  {
    ghost function With(seen: set<Dependency>): Walk { Walk(multiset(pending), selected, expanded, extras, seen) }
  }

  lemma QueueIsRequeued(w: Walk, d: Dependency, p: Package, rest: seq<Dependency>, extra: seq<Dependency>)
    requires w.pending == multiset([d] + rest)
    ensures multiset(if p.name in w.expanded then rest + extra else rest + Tables(p.dependencies) + extra)
            == Requeue(w, d, p, extra)
  {
  }

  ghost predicate TurnIsVisit(prob: Problem, w: Walk, d: Dependency, r: Result<Locals>)
    requires d in w.pending
  {
    match r
    case Failure => Visit(prob, w, d) == None
    case Success(l) => Visit(prob, w, d) == Some(l.With(w.seen + {d}))
  }

  /** The body of the loop, for the entry at the head of the deque. */
  method TakeTurn(prob: Problem, l: Locals, ghost seen: set<Dependency>) returns (r: Result<Locals>)
    requires l.pending != []
    ensures TurnIsVisit(prob, l.With(seen), l.pending[0], r)
  {
    var d, rest := l.pending[0], l.pending[1..];
    assert l.pending == [d] + rest;
    if Matches(d.marker, prob.env) {
      var choice := Selected(prob.index, d, prob.env);
      if choice.None? { return Failure; }
      r := Follow(prob, l, rest, d, choice.value, seen);
    } else {
      assert multiset(l.pending) - multiset{d} == multiset(rest);
      r := Success(l.(pending := rest));
    }
  }

  method Follow(prob: Problem, l: Locals, rest: seq<Dependency>, d: Dependency, p: Package, ghost seen: set<Dependency>)
    returns (r: Result<Locals>)
    requires l.pending == [d] + rest && prob.Selects(d, p)
    ensures TurnIsVisit(prob, l.With(seen), d, r)
  {
    var recorded := RecordSelection(l.selected, p);
    if recorded.Failure? { return Failure; }
    var queue, expanded, extras := Expand(l, rest, p, d, seen);
    r := Success(Locals(queue, recorded.value, expanded, extras));
  }

  /** The half of the turn that fills the deque. */
  method Expand(l: Locals, rest: seq<Dependency>, p: Package, d: Dependency, ghost seen: set<Dependency>)
    returns (queue: seq<Dependency>, expanded: set<string>, extras: map<string, set<string>>)
    requires l.pending == [d] + rest
    ensures var w := l.With(seen); var requested := NewExtras(w, d, p.name);
      && multiset(queue) == Requeue(w, d, p, ExtraTables(p, SortedNames(requested)))
      && expanded == w.expanded + {p.name}
      && extras == w.extras[p.name := w.Asked(p.name) + requested]
  {
    ghost var w := l.With(seen);
    QueueIsRequeued(w, d, p, rest, ExtraTables(p, SortedNames(NewExtras(w, d, p.name))));
    queue, expanded := rest, l.expanded;
    if p.name !in expanded {
      queue := queue + Tables(p.dependencies);
      expanded := expanded + {p.name};
    }
    var processed := if p.name in l.extras then l.extras[p.name] else {};
    queue, processed := QueueRequestedExtras(queue, p, d, processed);
    extras := l.extras[p.name := processed];
  }

  /**
   * `_resolve_closure`: first in, first out. It returns the closure, or raises, and raises exactly
   * on a doomed problem; it always stops.
   */
  method ResolveClosure(prob: Problem) returns (r: Result<seq<Package>>)
    requires WellIndexed(prob.index)
    ensures r.Success? <==> !prob.Doomed()
    ensures r.Success? ==> prob.IsClosure(r.value)
  {
    hide Visit, UnopenedNames, UnaskedGroups, ByName, SortedNames;
    var l := Locals(Tables(prob.roots), map[], {}, map[]);
    ghost var seen: set<Dependency> := {};
    StartIsInvariant(prob);
    while l.pending != []
      invariant Invariant(prob, l.With(seen))
      decreases |UnopenedNames(prob, l.With(seen))|, |UnaskedGroups(prob, l.With(seen))|, |l.pending|
    {
      var d := l.pending[0];
      var turn := TakeTurn(prob, l, seen);
      if turn.Failure? {
        assert TurnIsVisit(prob, l.With(seen), d, turn);
        ErrorMeansDoomed(prob, l.With(seen), d);
        return Failure;
      }
      VisitKeepsInvariant(prob, l.With(seen), d);
      VisitMakesProgress(prob, l.With(seen), d);
      l, seen := turn.value, seen + {d};
    }
    FinishedWalkIsNotDoomed(prob, l.With(seen));
    var packages := ByName(l.selected);
    forall p ensures p in packages <==> prob.Needed(p) {
      FinishedWalkSelects(prob, l.With(seen), p);
      ByNameHoldsEach(l.selected, p);
    }
    ByNameAscends(l.selected);
    return Success(packages);
  }

  /** `[selected[name] for name in sorted(selected)]` */
  function ByName(selected: map<string, Package>): (packages: seq<Package>)
    ensures |packages| == |SortedNames(selected.Keys)|
    ensures forall i :: 0 <= i < |packages| ==> packages[i] == selected[SortedNames(selected.Keys)[i]]
  {
    var names := SortedNames(selected.Keys);
    seq(|names|, i requires 0 <= i < |names| => selected[names[i]])
  }

  lemma ByNameHoldsEach(selected: map<string, Package>, p: Package)
    requires forall n :: n in selected ==> selected[n].name == n
    ensures p in ByName(selected) <==> p.name in selected && selected[p.name] == p
  {
    var names := SortedNames(selected.Keys);
    if p.name in selected && selected[p.name] == p {
      var i :| 0 <= i < |names| && names[i] == p.name;
      assert ByName(selected)[i] == p;
    }
  }

  lemma ByNameAscends(selected: map<string, Package>)
    requires forall n :: n in selected ==> selected[n].name == n
    ensures Ascending(ByName(selected), NameLess)
  {
    SortedNamesAscend(selected.Keys);
    var names, packages := SortedNames(selected.Keys), ByName(selected);
    forall i, j | 0 <= i < j < |packages| ensures NameLess(packages[i], packages[j]) {
      assert Less(names[i], names[j]);
    }
  }

  ghost predicate InOptional(root: Package, names: seq<string>, v: LockValue) {
    exists g :: g in names && g in root.optional && v in root.optional[g]
  }

  ghost predicate InGroups(root: Package, groups: seq<string>, v: LockValue) {
    exists g :: g in groups && g in root.groups && root.groups[g].Members? && v in root.groups[g].values
  }

  /** The entries a walk starts from: the root's own, its optional ones if wanted, and the given groups. */
  ghost predicate IsRootValue(root: Package, includeOptional: bool, groups: seq<string>, v: LockValue) {
    || v in root.dependencies
    || (includeOptional && exists g :: g in root.optional && v in root.optional[g])
    || InGroups(root, groups, v)
  }

  ghost predicate HasBadGroup(root: Package, groups: seq<string>) {
    exists g :: g in groups && g in root.groups && root.groups[g].NotAGroup?
  }

  /** `_root_dependencies`: an error exactly when a requested group is no list. */
  method RootDependencies(root: Package, includeOptional: bool, groups: seq<string>) returns (r: Result<seq<LockValue>>)
    ensures r.Failure? <==> HasBadGroup(root, groups)
    ensures r.Success? ==> forall v :: v in r.value <==> IsRootValue(root, includeOptional, groups, v)
  {
    var values := root.dependencies;
    if includeOptional {
      var optional := OptionalValues(root, SortedNames(root.optional.Keys));
      values := values + optional;
    }
    var grouped := GroupValues(root, groups);
    if grouped.Failure? { return Failure; }
    return Success(values + grouped.value);
  }

  method OptionalValues(root: Package, names: seq<string>) returns (values: seq<LockValue>)
    requires forall g :: g in names ==> g in root.optional
    ensures forall v :: v in values <==> InOptional(root, names, v)
  {
    values := [];
    for i := 0 to |names|
      invariant forall v :: v in values <==> InOptional(root, names[..i], v)
    {
      assert names[..i + 1] == names[..i] + [names[i]];
      assert forall v :: InOptional(root, names[..i + 1], v) <==>
        InOptional(root, names[..i], v) || v in root.optional[names[i]];
      values := values + root.optional[names[i]];
    }
    assert names[..|names|] == names;
  }

  method GroupValues(root: Package, groups: seq<string>) returns (r: Result<seq<LockValue>>)
    ensures r.Failure? <==> HasBadGroup(root, groups)
    ensures r.Success? ==> forall v :: v in r.value <==> InGroups(root, groups, v)
  {
    var values := [];
    for i := 0 to |groups|
      invariant !HasBadGroup(root, groups[..i])
      invariant forall v :: v in values <==> InGroups(root, groups[..i], v)
    {
      assert groups[..i + 1] == groups[..i] + [groups[i]];
      var group := if groups[i] in root.groups then root.groups[groups[i]] else Members([]);
      if group.NotAGroup? {
        assert groups[i] in groups;
        return Failure;
      }
      assert forall v :: InGroups(root, groups[..i + 1], v) <==> InGroups(root, groups[..i], v) || v in group.values;
      values := values + group.values;
    }
    assert groups[..|groups|] == groups;
    return Success(values);
  }

  /** The roots of one closure: the given dependencies, or those the root package declares. */
  ghost predicate AreRoots(root: Package, includeOptional: bool, groups: seq<string>,
                           initial: Option<seq<LockValue>>, values: seq<LockValue>)
  {
    match initial
    case Some(given) => forall d :: Table(d) in values <==> Table(d) in given
    case None => forall d :: Table(d) in values <==> IsRootValue(root, includeOptional, groups, Table(d))
  }

  /**
   * `locked_closure`: whatever list of the right roots one starts from, the result is its closure,
   * and an error means that the root or a group is unusable or that every such problem is doomed.
   */
  method LockedClosure(lock: seq<LockEntry>, env: Environment, rootName: string, includeOptional: bool,
                       groups: seq<string>, initial: Option<seq<LockValue>>) returns (r: Result<seq<Package>>)
    ensures |PackagesNamed(lock, rootName)| != 1 ==> r.Failure?
    ensures |PackagesNamed(lock, rootName)| == 1 ==>
      var root := PackagesNamed(lock, rootName)[0];
      if initial.None? && HasBadGroup(root, groups) then r.Failure?
      else forall values :: AreRoots(root, includeOptional, groups, initial, values) ==>
        var prob := Problem(IndexOf(lock), env, values);
        && (r.Success? <==> !prob.Doomed())
        && (r.Success? ==> prob.IsClosure(r.value))
  {
    IndexIsWellIndexed(lock);
    var index := LockPackages(lock);
    var candidates := Filed(index, rootName);
    if |candidates| != 1 { return Failure; }
    var root := candidates[0];
    var roots;
    match initial {
      case Some(given) => roots := Success(given);
      case None => roots := RootDependencies(root, includeOptional, groups);
    }
    if roots.Failure? { return Failure; }
    var prob := Problem(index, env, roots.value);
    r := ResolveClosure(prob);
    forall values | AreRoots(root, includeOptional, groups, initial, values)
      ensures var other := Problem(IndexOf(lock), env, values);
        (r.Success? <==> !other.Doomed()) && (r.Success? ==> other.IsClosure(r.value))
    {
      RootOrderIsIrrelevant(prob, Problem(IndexOf(lock), env, values));
    }
  }
}
