/** Validation targets in batches, checked by a pool of workers. */
module Batches {
  import opened Ordering

  datatype Mode = Metaschema | Schema

  datatype Target = Target(path: string, schema: Option<string>, mode: Mode)

  /** A batch has one schema for all its paths, or checks them against their metaschema. */
  datatype Batch = Batch(paths: seq<string>, schema: Option<string>, mode: Mode)

  /** A target that names the schema it is checked against, as all of mode `Schema` must. */
  predicate WellFormed(t: Target) { t.mode == Schema ==> t.schema.Some? }

  /** The schema that counts for a target: none in mode `Metaschema`. */
  function SchemaFor(t: Target): Option<string> { if t.mode == Schema then t.schema else None }

  predicate Covers(b: Batch, t: Target) {
    b.mode == t.mode && b.schema == SchemaFor(t) && t.path in b.paths
  }

  // ---------------------------------------------------------------- removing repeats

  /** `(item.mode, item.path)` as a sort key; the text "metaschema" comes before "schema". */
  predicate NotAfter(a: Target, b: Target) {
    if a.mode == b.mode then LessEq(a.path, b.path) else a.mode == Metaschema
  }

  predicate SameKey(a: Target, b: Target) { a.mode == b.mode && a.path == b.path }

  function Insert(t: Target, s: seq<Target>): seq<Target> {
    if s == [] then [t]
    else if NotAfter(t, s[0]) then [t] + s
    else [s[0]] + Insert(t, s[1..])
  }

  /** `ordered.sort(key=…)` */
  function Sorted(targets: seq<Target>): seq<Target> {
    if targets == [] then [] else Insert(targets[0], Sorted(targets[1..]))
  }

  ghost predicate InKeyOrder(s: seq<Target>) {
    forall i, j :: 0 <= i < j < |s| ==> NotAfter(s[i], s[j])
  }

  /** That is, the metaschema targets come first, and within a mode no path comes after a greater one. */
  lemma KeyOrderMeans(s: seq<Target>)
    ensures InKeyOrder(s) <==> forall i, j :: 0 <= i < j < |s| ==>
      !(s[i].mode == Schema && s[j].mode == Metaschema) && (s[i].mode == s[j].mode ==> !Less(s[j].path, s[i].path))
  {
    hide Less;
    forall a, b ensures LessEq(a, b) <==> !Less(b, a) {
      LessIsTotal(a, b);
      if Less(b, a) {
        if Less(a, b) { LessIsTransitive(a, b, a); }
        LessIsIrreflexive(a);
      }
    }
  }

  /** The targets with the key of `k`, in order. */
  function WithKey(s: seq<Target>, k: Target): seq<Target> {
    if s == [] then [] else (if SameKey(s[0], k) then [s[0]] else []) + WithKey(s[1..], k)
  }

  lemma NotAfterIsTotalOrder(a: Target, b: Target, c: Target)
    ensures NotAfter(a, b) || NotAfter(b, a)
    ensures NotAfter(a, b) && NotAfter(b, c) ==> NotAfter(a, c)
    ensures SameKey(a, b) ==> NotAfter(a, b)
  {
    hide Less;
    LessIsTotal(a.path, b.path);
    if Less(a.path, b.path) && Less(b.path, c.path) { LessIsTransitive(a.path, b.path, c.path); }
  }

  lemma {:induction false} InsertKeepsElements(t: Target, s: seq<Target>)
    ensures multiset(Insert(t, s)) == multiset{t} + multiset(s)
  {
    hide NotAfter;
    if s != [] && !NotAfter(t, s[0]) {
      InsertKeepsElements(t, s[1..]);
      assert s == [s[0]] + s[1..];
    }
  }

  lemma {:induction false} InsertKeepsOrder(t: Target, s: seq<Target>)
    requires InKeyOrder(s)
    ensures InKeyOrder(Insert(t, s))
  {
    hide NotAfter, InKeyOrder;
    if s == [] {
      OrderedAtHead(t, []);
      assert [t] + [] == [t];
    } else {
      OrderedTail(s);
      NotAfterIsTotalOrder(t, s[0], s[0]);
      if NotAfter(t, s[0]) {
        forall k | 0 <= k < |s| ensures NotAfter(t, s[k]) {
          OrderedFrom(s, k);
          NotAfterIsTotalOrder(t, s[0], s[k]);
        }
        OrderedAtHead(t, s);
      } else {
        var rest := Insert(t, s[1..]);
        InsertKeepsOrder(t, s[1..]);
        InsertKeepsElements(t, s[1..]);
        forall k | 0 <= k < |rest| ensures NotAfter(s[0], rest[k]) {
          assert rest[k] in multiset(rest);
          if rest[k] != t {
            var m :| 0 <= m < |s[1..]| && s[1..][m] == rest[k];
            OrderedFrom(s, m + 1);
          }
        }
        OrderedAtHead(s[0], rest);
      }
    }
  }

  lemma OrderedAtHead(t: Target, s: seq<Target>)
    requires s == [] || (InKeyOrder(s) && forall k :: 0 <= k < |s| ==> NotAfter(t, s[k]))
    ensures InKeyOrder([t] + s)
  {
    hide NotAfter;
  }

  lemma OrderedTail(s: seq<Target>)
    requires InKeyOrder(s) && s != []
    ensures InKeyOrder(s[1..])
  {
    hide NotAfter;
  }

  lemma OrderedFrom(s: seq<Target>, k: nat)
    requires InKeyOrder(s) && k < |s|
    ensures NotAfter(s[0], s[k])
  {
    NotAfterIsTotalOrder(s[0], s[0], s[0]);
  }

  lemma {:induction false} InsertKeepsEquals(t: Target, s: seq<Target>, k: Target)
    ensures WithKey(Insert(t, s), k) == (if SameKey(t, k) then [t] else []) + WithKey(s, k)
  {
    hide NotAfter;
    if s == [] {
      assert [t][1..] == [];
    } else if NotAfter(t, s[0]) {
      assert ([t] + s)[1..] == s;
    } else {
      NotAfterIsTotalOrder(t, s[0], s[0]);
      InsertKeepsEquals(t, s[1..], k);
      assert ([s[0]] + Insert(t, s[1..]))[1..] == Insert(t, s[1..]);
    }
  }

  /** The sort is one, and a stable one: it moves no target past another of the same mode and path. */
  lemma {:induction false} SortedIsStable(targets: seq<Target>)
    ensures InKeyOrder(Sorted(targets)) && multiset(Sorted(targets)) == multiset(targets)
    ensures forall k :: WithKey(Sorted(targets), k) == WithKey(targets, k)
  {
    if targets != [] {
      var rest := targets[1..];
      SortedIsStable(rest);
      InsertKeepsOrder(targets[0], Sorted(rest));
      InsertKeepsElements(targets[0], Sorted(rest));
      assert targets == [targets[0]] + rest;
      forall k ensures WithKey(Sorted(targets), k) == WithKey(targets, k) {
        InsertKeepsEquals(targets[0], Sorted(rest), k);
      }
    }
  }

  /** `_dedupe_targets` */
  method DedupeTargets(targets: seq<Target>) returns (ordered: seq<Target>)
    ensures ordered == Sorted(Distinct(targets))
  {
    var seen: set<Target> := {};
    ordered := [];
    for i := 0 to |targets|
      invariant ordered == Distinct(targets[..i])
      invariant forall t :: t in seen <==> t in targets[..i]
    {
      assert targets[..i + 1] == targets[..i] + [targets[i]];
      if targets[i] in seen { continue; }
      seen := seen + {targets[i]};
      ordered := ordered + [targets[i]];
    }
    assert targets[..|targets|] == targets;
    ordered := Sorted(ordered);
  }

  /** So every target is there once, and no other: sorted by mode and path. */
  lemma EachTargetOnce(targets: seq<Target>)
    ensures InKeyOrder(Sorted(Distinct(targets)))
    ensures forall t :: multiset(Sorted(Distinct(targets)))[t] == if t in targets then 1 else 0
  {
    var d := Distinct(targets);
    SortedIsStable(d);
    forall t ensures multiset(d)[t] == if t in targets then 1 else 0 { CountedOnce(targets, t); }
  }

  lemma {:induction false} CountedOnce(targets: seq<Target>, t: Target)
    ensures multiset(Distinct(targets))[t] == if t in targets then 1 else 0
  {
    if targets != [] {
      var front, last := targets[..|targets| - 1], targets[|targets| - 1];
      assert targets == front + [last];
      CountedOnce(front, t);
    }
  }

  // ---------------------------------------------------------------- batches

  /** The paths of the targets of one mode and schema, in order. */
  function PathsOf(targets: seq<Target>, mode: Mode, schema: Option<string>): (r: seq<string>)
    ensures forall p :: p in r <==> exists t :: t in targets && t.mode == mode && SchemaFor(t) == schema && t.path == p
  {
    if targets == [] then []
    else
      var front, last := targets[..|targets| - 1], targets[|targets| - 1];
      assert targets == front + [last];
      PathsOf(front, mode, schema) + (if last.mode == mode && SchemaFor(last) == schema then [last.path] else [])
  }

  function SchemasOf(targets: seq<Target>): set<string> {
    set t | t in targets && t.mode == Schema && t.schema.Some? :: t.schema.value
  }

  /** `_validation_batches`: the metaschema batch first, if any, then one batch for each schema. */
  method ValidationBatches(targets: seq<Target>) returns (batches: seq<Batch>)
    requires forall t :: t in targets ==> WellFormed(t)
    ensures AreBatches(targets, batches)
  {
    hide SortList, SortedNames, PathsOf, SchemasOf, AreBatches, Less;
    var metaschemaPaths, groups := GroupTargets(targets);
    var first: seq<Batch> := if metaschemaPaths == [] then [] else [Batch(SortList(metaschemaPaths), None, Metaschema)];
    var names := SortedNames(groups.Keys);
    batches := SchemaBatches(first, names, groups);
    SortedNamesAscend(groups.Keys);
    BatchesFit(targets, names, first, batches);
  }

  method SchemaBatches(first: seq<Batch>, names: seq<string>, groups: map<string, seq<string>>)
    returns (batches: seq<Batch>)
    requires forall s :: s in names ==> s in groups
    ensures |batches| == |first| + |names| && first <= batches
    ensures forall j :: |first| <= j < |batches| ==>
      batches[j] == Batch(SortList(groups[names[j - |first|]]), Some(names[j - |first|]), Schema)
  {
    hide SortList;
    batches := first;
    for k := 0 to |names|
      invariant |batches| == |first| + k && first <= batches
      invariant forall j :: |first| <= j < |batches| ==>
        batches[j] == Batch(SortList(groups[names[j - |first|]]), Some(names[j - |first|]), Schema)
    {
      batches := batches + [Batch(SortList(groups[names[k]]), Some(names[k]), Schema)];
    }
  }

  /** The first two loops: the metaschema paths, and the paths of each schema. */
  method GroupTargets(targets: seq<Target>) returns (metaschemaPaths: seq<string>, groups: map<string, seq<string>>)
    requires forall t :: t in targets ==> WellFormed(t)
    ensures metaschemaPaths == PathsOf(targets, Metaschema, None)
    ensures groups.Keys == SchemasOf(targets)
    ensures forall s :: s in groups ==> groups[s] == PathsOf(targets, Schema, Some(s))
  {
    hide PathsOf, SchemasOf;
    metaschemaPaths, groups := [], map[];
    NothingGrouped();
    for i := 0 to |targets|
      invariant metaschemaPaths == PathsOf(targets[..i], Metaschema, None)
      invariant groups.Keys == SchemasOf(targets[..i])
      invariant forall s :: s in groups ==> groups[s] == PathsOf(targets[..i], Schema, Some(s))
    {
      var t := targets[i];
      assert t in targets;
      SchemasStep(targets, i);
      PathsStep(targets, i, Metaschema, None);
      forall s { PathsStep(targets, i, Schema, Some(s)); }
      if t.mode == Metaschema {
        metaschemaPaths := metaschemaPaths + [t.path];
      } else {
        var s := t.schema.value;
        EmptyUnlessListed(targets[..i], s);
        groups := groups[s := (if s in groups then groups[s] else []) + [t.path]];
      }
    }
    assert targets[..|targets|] == targets;
  }

  lemma NothingGrouped()
    ensures PathsOf([], Metaschema, None) == [] && SchemasOf([]) == {}
  {
  }

  lemma PathsStep(targets: seq<Target>, i: nat, mode: Mode, schema: Option<string>)
    requires i < |targets|
    ensures PathsOf(targets[..i + 1], mode, schema) == PathsOf(targets[..i], mode, schema)
      + (if targets[i].mode == mode && SchemaFor(targets[i]) == schema then [targets[i].path] else [])
  {
    assert targets[..i + 1][..i] == targets[..i];
  }

  lemma SchemasStep(targets: seq<Target>, i: nat)
    requires i < |targets|
    ensures SchemasOf(targets[..i + 1]) == SchemasOf(targets[..i])
      + (if targets[i].mode == Schema && targets[i].schema.Some? then {targets[i].schema.value} else {})
  {
    assert targets[..i + 1] == targets[..i] + [targets[i]];
    assert targets[i] in targets[..i + 1];
  }

  lemma EmptyUnlessListed(targets: seq<Target>, s: string)
    ensures s !in SchemasOf(targets) ==> PathsOf(targets, Schema, Some(s)) == []
  {
    if PathsOf(targets, Schema, Some(s)) != [] {
      assert PathsOf(targets, Schema, Some(s))[0] in PathsOf(targets, Schema, Some(s));
      var t :| t in targets && t.mode == Schema && SchemaFor(t) == Some(s);
      assert t.schema.value in SchemasOf(targets);
    }
  }

  /** Every batch is exactly one mode and schema of the targets, sorted, and no two are the same one. */
  ghost predicate AreBatches(targets: seq<Target>, batches: seq<Batch>) {
    && (forall b :: b in batches ==> b.paths != [] && b.paths == SortList(PathsOf(targets, b.mode, b.schema)))
    && (forall i, j :: 0 <= i < j < |batches| ==>
        batches[i].mode != batches[j].mode || batches[i].schema != batches[j].schema)
    && (forall t :: t in targets ==> exists b :: b in batches && b.mode == t.mode && b.schema == SchemaFor(t))
  }

  lemma SortKeepsElements(xs: seq<string>)
    ensures forall x :: x in SortList(xs) <==> x in xs
    ensures SortList(xs) == [] <==> xs == []
  {
    forall x ensures x in SortList(xs) <==> x in xs {
      assert x in multiset(SortList(xs)) <==> x in multiset(xs);
    }
    assert |multiset(SortList(xs))| == |multiset(xs)|;
  }

  lemma BatchesFit(targets: seq<Target>, names: seq<string>, first: seq<Batch>, batches: seq<Batch>)
    requires forall t :: t in targets ==> WellFormed(t)
    requires (forall s :: s in names <==> s in SchemasOf(targets)) && Ascending(names, Less)
    requires var meta := PathsOf(targets, Metaschema, None);
      first == if meta == [] then [] else [Batch(SortList(meta), None, Metaschema)]
    requires |batches| == |first| + |names| && first <= batches
    requires forall j :: |first| <= j < |batches| ==>
      batches[j] == Batch(
        SortList(PathsOf(targets, Schema, Some(names[j - |first|]))), Some(names[j - |first|]), Schema)
    ensures AreBatches(targets, batches)
  {
    hide SortList, Less, PathsOf;
    forall i | 0 <= i < |batches|
      ensures batches[i].paths != []
      ensures batches[i].paths == SortList(PathsOf(targets, batches[i].mode, batches[i].schema))
    {
      SortKeepsElements(PathsOf(targets, batches[i].mode, batches[i].schema));
      if i >= |first| {
        var s := names[i - |first|];
        assert s in names;
        ListedHasPath(targets, s);
      }
    }
    forall i, j | 0 <= i < j < |batches|
      ensures batches[i].mode != batches[j].mode || batches[i].schema != batches[j].schema {
      assert |first| <= 1;
      assert batches[j].mode == Schema;
      if i >= |first| {
        assert Less(names[i - |first|], names[j - |first|]);
        LessIsIrreflexive(names[i - |first|]);
      } else {
        assert batches[i] == first[i] && first[i].mode == Metaschema;
      }
    }
    forall t | t in targets ensures exists b :: b in batches && b.mode == t.mode && b.schema == SchemaFor(t) {
      if t.mode == Metaschema {
        assert t.path in PathsOf(targets, Metaschema, None);
        assert batches[0] in batches;
      } else {
        assert t.schema.value in SchemasOf(targets) && t.schema.value in names;
        var j :| 0 <= j < |names| && names[j] == t.schema.value;
        assert batches[|first| + j] in batches && batches[|first| + j].schema == Some(names[j]);
      }
    }
  }

  lemma ListedHasPath(targets: seq<Target>, s: string)
    requires s in SchemasOf(targets)
    ensures PathsOf(targets, Schema, Some(s)) != []
  {
    var t :| t in targets && t.mode == Schema && t.schema == Some(s);
    assert t.path in PathsOf(targets, Schema, Some(s));
  }

  /** Every target lies in exactly one batch, the one with its own mode and schema. */
  lemma ExactlyOneBatch(targets: seq<Target>, batches: seq<Batch>, t: Target)
    requires AreBatches(targets, batches) && t in targets
    ensures exists i :: OnlyCover(batches, i, t)
  {
    hide SortList, PathsOf;
    var b :| b in batches && b.mode == t.mode && b.schema == SchemaFor(t);
    var i :| 0 <= i < |batches| && batches[i] == b;
    SortKeepsElements(PathsOf(targets, b.mode, b.schema));
    assert t.path in PathsOf(targets, b.mode, b.schema);
    assert OnlyCover(batches, i, t);
  }

  ghost predicate OnlyCover(batches: seq<Batch>, i: nat, t: Target) {
    i < |batches| && Covers(batches[i], t) && forall j :: 0 <= j < |batches| && Covers(batches[j], t) ==> j == i
  }

  // ---------------------------------------------------------------- running them

  /** Whether one path passes by itself; a batch exits with zero exactly when all its paths pass. */
  type Verdict = (Mode, Option<string>, string) -> bool

  predicate BatchPasses(verdict: Verdict, b: Batch) {
    forall i :: 0 <= i < |b.paths| ==> verdict(b.mode, b.schema, b.paths[i])
  }

  predicate TargetPasses(verdict: Verdict, t: Target) { verdict(t.mode, SchemaFor(t), t.path) }

  /** Every index below `n` comes up in the order in which the workers finish. */
  ghost predicate IsOrder(order: seq<nat>, n: nat) {
    (forall i :: 0 <= i < |order| ==> order[i] < n) && forall k :: 0 <= k < n ==> k in order
  }

  /** Workers may finish first to last, or last to first. */
  lemma OrdersExist(n: nat)
    ensures IsOrder(seq(n, i requires 0 <= i < n => i), n)
    ensures IsOrder(seq(n, i requires 0 <= i < n => n - 1 - i), n)
  {
    var there, back := seq(n, i requires 0 <= i < n => i), seq(n, i requires 0 <= i < n => n - 1 - i);
    forall k | 0 <= k < n ensures k in there && k in back {
      assert there[k] == k && back[n - 1 - k] == k;
    }
  }

  /** `list(executor.map(…))`: whatever finishes first, the results stand in batch order. */
  method RunBatches(verdict: Verdict, batches: seq<Batch>, order: seq<nat>) returns (results: seq<bool>)
    requires IsOrder(order, |batches|)
    ensures |results| == |batches|
    ensures forall k :: 0 <= k < |batches| ==> (results[k] <==> BatchPasses(verdict, batches[k]))
  {
    var slots := new bool[|batches|](_ => false);
    for i := 0 to |order|
      invariant forall j :: 0 <= j < i ==> (slots[order[j]] <==> BatchPasses(verdict, batches[order[j]]))
    {
      slots[order[i]] := BatchPasses(verdict, batches[order[i]]);
    }
    results := slots[..];
    forall k | 0 <= k < |batches| ensures results[k] <==> BatchPasses(verdict, batches[k]) {
      assert k in order;
      var j :| 0 <= j < |order| && order[j] == k;
      assert slots[order[j]] <==> BatchPasses(verdict, batches[order[j]]);
    }
  }

  /**
   * `validate_targets`: no failure exactly when every target passes by itself, whatever order the
   * workers finish in.
   */
  method ValidateTargets(verdict: Verdict, targets: seq<Target>, schedule: nat -> seq<nat>)
    returns (failures: seq<Batch>)
    requires forall n: nat :: IsOrder(schedule(n), n)
    requires forall t :: t in targets ==> WellFormed(t)
    ensures failures == [] <==> forall t :: t in targets ==> TargetPasses(verdict, t)
    ensures forall b :: b in failures ==> exists t :: t in targets && Covers(b, t) && !TargetPasses(verdict, t)
  {
    hide PathsOf, BatchPasses, AreBatches, Covers, TargetPasses;
    var batches := ValidationBatches(targets);
    var results := RunBatches(verdict, batches, schedule(|batches|));
    failures := [];
    for k := 0 to |batches|
      invariant forall b :: b in failures <==>
        exists j :: 0 <= j < k && batches[j] == b && !BatchPasses(verdict, batches[j])
    {
      if results[k] { continue; }
      failures := failures + [batches[k]];
    }
    FailuresAreTargets(verdict, targets, batches, failures);
  }

  /** Reading the failing batches as failing targets. */
  lemma FailuresAreTargets(verdict: Verdict, targets: seq<Target>, batches: seq<Batch>, failures: seq<Batch>)
    requires AreBatches(targets, batches)
    requires forall b :: b in failures <==>
      exists j :: 0 <= j < |batches| && batches[j] == b && !BatchPasses(verdict, batches[j])
    ensures failures == [] <==> forall t :: t in targets ==> TargetPasses(verdict, t)
    ensures forall b :: b in failures ==> exists t :: t in targets && Covers(b, t) && !TargetPasses(verdict, t)
  {
    hide PathsOf, BatchPasses, AreBatches, Covers, SortList;
    forall b | b in failures ensures exists t :: t in targets && Covers(b, t) && !TargetPasses(verdict, t) {
      BatchIsItsTargets(verdict, targets, batches, b);
    }
    NonemptyHasElement(failures);
    if failures == [] {
      forall t | t in targets ensures TargetPasses(verdict, t) {
        ExactlyOneBatch(targets, batches, t);
        var i: nat :| OnlyCover(batches, i, t);
        assert batches[i] in batches && (batches[i] in failures || BatchPasses(verdict, batches[i]));
        BatchIsItsTargets(verdict, targets, batches, batches[i]);
      }
    }
  }

  lemma BatchIsItsTargets(verdict: Verdict, targets: seq<Target>, batches: seq<Batch>, b: Batch)
    requires AreBatches(targets, batches) && b in batches
    ensures BatchPasses(verdict, b) <==> forall t :: t in targets && Covers(b, t) ==> TargetPasses(verdict, t)
  {
    hide SortList, PathsOf;
    SortKeepsElements(PathsOf(targets, b.mode, b.schema));
    if forall t :: t in targets && Covers(b, t) ==> TargetPasses(verdict, t) {
      forall i | 0 <= i < |b.paths| ensures verdict(b.mode, b.schema, b.paths[i]) {
        assert b.paths[i] in PathsOf(targets, b.mode, b.schema);
        var t :| t in targets && t.mode == b.mode && SchemaFor(t) == b.schema && t.path == b.paths[i];
        assert Covers(b, t);
      }
    }
  }
}
