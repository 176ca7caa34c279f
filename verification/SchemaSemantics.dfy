/**
 * What the compatibility check guarantees about instances, read with the validation rules of JSON
 * Schema 2020-12 (Core sections 10.3.2.1 to 10.3.2.3; Validation sections 6.1.2 and 6.5.3).
 */
module SchemaSemantics {
  import opened Ordering
  import opened Json
  import opened SchemaNodes
  import opened SchemaCompat
  import opened SchemaTree

  /** The verdict of every keyword that is not spelled out below, and of a regular expression on a name. */
  datatype Semantics = Semantics(asserts: (string, Json, Json) -> bool, matches: (string, string) -> bool)

  /** A scalar keyword does not distinguish two spellings of one number. */
  ghost predicate ReadsNumbersByValue(sem: Semantics) {
    forall k, v, w, i :: IsScalar(v) && JsonEqual(v, w) ==> (sem.asserts(k, v, i) <==> sem.asserts(k, w, i))
  }

  // ---------------------------------------------------------------- validity

  /**
   * Keywords without a verdict of their own: the five spelled out below, and those that the standard
   * gives to annotation, identification and content (Core section 8, Validation sections 8 and 9).
   */
  const SILENT: set<string> := {
    "properties", "patternProperties", "additionalProperties", "required", "enum",
    "title", "description", "default", "deprecated", "readOnly", "writeOnly", "examples",
    "$schema", "$id", "$comment", "$anchor", "$dynamicAnchor", "$vocabulary", "$defs",
    "contentEncoding", "contentMediaType", "contentSchema"}

  predicate HasVerdict(k: string) { k !in SILENT }

  predicate EnumAccepts(m: Members, i: Json) {
    "enum" in m && m["enum"].Arr? ==>
      exists e :: 0 <= e < |m["enum"].items| && JsonEqual(m["enum"].items[e], i)
  }

  predicate CoreAccepts(sem: Semantics, m: Members, i: Json) {
    forall k :: k in m && HasVerdict(k) ==> sem.asserts(k, m[k], i)
  }

  /** The keywords that apply to every instance. */
  predicate OwnAccepts(sem: Semantics, m: Members, i: Json) { EnumAccepts(m, i) && CoreAccepts(sem, m, i) }

  predicate RequiredAccepts(m: Members, i: Members) {
    "required" in m && m["required"].Arr? ==>
      forall v :: v in m["required"].items && v.Str? ==> v.text in i
  }

  predicate Declared(m: Members, n: string) {
    "properties" in m && m["properties"].Obj? && n in m["properties"].members
  }

  function Patterns(m: Members): Members {
    if "patternProperties" in m && m["patternProperties"].Obj? then m["patternProperties"].members else map[]
  }

  predicate MatchesSome(sem: Semantics, m: Members, name: string) {
    exists r :: r in Patterns(m) && sem.matches(r, name)
  }

  predicate Valid(sem: Semantics, s: Json, i: Json)
    decreases s
  {
    match s
    case Bool(accept) => accept
    case Obj(m) =>
      OwnAccepts(sem, m, i) && (i.Obj? ==> (
        && RequiredAccepts(m, i.members)
        && (forall n :: Declared(m, n) && n in i.members ==> Valid(sem, m["properties"].members[n], i.members[n]))
        && (forall r, n :: r in Patterns(m) && n in i.members && sem.matches(r, n) ==>
              Valid(sem, Patterns(m)[r], i.members[n]))
        && ("additionalProperties" in m ==>
              forall n :: n in i.members && !Declared(m, n) && !MatchesSome(sem, m, n) ==>
                Valid(sem, m["additionalProperties"], i.members[n]))))
    case _ => false
  }

  // ---------------------------------------------------------------- the check's reading of a schema

  /** The check reads enumerations, required names and properties as the standard does. */
  lemma ReadAlike(m: Members, i: Json, o: Members, n: string)
    ensures EnumAccepts(m, i) <==>
      (EnumValues(m).None? || exists e :: 0 <= e < |EnumValues(m).value| && JsonEqual(EnumValues(m).value[e], i))
    ensures RequiredAccepts(m, o) <==> RequiredNames(m) <= o.Keys
    ensures Declared(m, n) <==> n in Properties(m)
    ensures Declared(m, n) ==> m["properties"].members[n] == Properties(m)[n]
  {
    hide JsonEqual;
    if RequiredAccepts(m, o) {
      forall q | q in RequiredNames(m) ensures q in o { assert Str(q) in m["required"].items; }
    }
    if RequiredNames(m) <= o.Keys && "required" in m && m["required"].Arr? {
      forall v | v in m["required"].items && v.Str? ensures v.text in o { assert v.text in RequiredNames(m); }
    }
  }

  /** It compares every keyword that has a verdict. */
  lemma VerdictsAreCompared(k: string)
    ensures HasVerdict(k) ==> IsCoreKey(k)
  {
  }

  // ---------------------------------------------------------------- what the check does not look at

  /** The object keywords of a schema, on an object instance. */
  predicate ObjectAccepts(sem: Semantics, s: Json, i: Json) {
    s.Obj? && i.Obj? ==>
      && RequiredNames(s.members) <= i.members.Keys
      && (forall n :: n in Properties(s.members) && n in i.members ==>
          Valid(sem, Properties(s.members)[n], i.members[n]))
      && PatternsAccept(sem, s.members, i.members)
      && ("additionalProperties" in s.members ==>
          forall n :: n in i.members && n !in Properties(s.members) && !MatchesSome(sem, s.members, n) ==>
            Valid(sem, s.members["additionalProperties"], i.members[n]))
  }

  predicate PatternsAccept(sem: Semantics, m: Members, i: Members) {
    forall r, n :: r in Patterns(m) && n in i && sem.matches(r, n) ==> Valid(sem, Patterns(m)[r], i[n])
  }

  /** Keywords that Python took for unchanged although a boolean became a number or the reverse. */
  ghost predicate FlippedAccept(sem: Semantics, base: Members, head: Members, i: Json) {
    forall k :: k in base && HasVerdict(k) && k in head && !JsonEqual(base[k], head[k]) ==> sem.asserts(k, head[k], i)
  }

  /**
   * The verdict on `i` of everything in `head` that the check never compared: keywords flipped
   * between boolean and number, `patternProperties`, and object keywords that a schema without any
   * has gained.
   */
  ghost predicate UncheckedAccept(sem: Semantics, base: Json, head: Json, i: Json)
    requires base.Obj? && head.Obj?
    decreases base
  {
    && FlippedAccept(sem, base.members, head.members, i)
    && UncheckedInObject(sem, base, head, i)
  }

  ghost predicate UncheckedInObject(sem: Semantics, base: Json, head: Json, i: Json)
    requires base.Obj? && head.Obj?
    decreases base, 0
  {
    i.Obj? ==>
      if IsObjectNode(base.members) then
        && PatternsAccept(sem, head.members, i.members)
        && forall n :: n in Properties(base.members) && n in Properties(head.members) && n in i.members
             && Properties(base.members)[n].Obj? && Properties(head.members)[n].Obj?
             ==> UncheckedAccept(sem, Properties(base.members)[n], Properties(head.members)[n], i.members[n])
      else ObjectAccepts(sem, head, i)
  }

  // ---------------------------------------------------------------- own keywords

  lemma CoreOfScalars(m: Members)
    requires forall k :: k in m && HasVerdict(k) ==> IsScalar(m[k])
    ensures forall k :: HasVerdict(k) ==> (k in m <==> k in PropertyCore(m).members)
    ensures forall k :: k in m && HasVerdict(k) ==> Normal(PropertyCore(m)).members[k] == Normal(m[k])
  {
    forall k | HasVerdict(k) ensures IsCoreKey(k) { VerdictsAreCompared(k); }
  }

  /** With the core unchanged for Python, the core of both revisions has the same keywords, pairwise equal. */
  lemma SameCore(base: Members, head: Members)
    requires PyEqual(PropertyCore(base), PropertyCore(head))
    requires forall k :: k in base && HasVerdict(k) ==> IsScalar(base[k])
    ensures forall k :: HasVerdict(k) ==> (k in base <==> k in head)
    ensures forall k :: k in base && HasVerdict(k) ==> IsScalar(head[k]) && PyEqual(base[k], head[k])
  {
    hide IsCoreKey, HasVerdict;
    CoreOfScalars(base);
    forall k | HasVerdict(k) ensures IsCoreKey(k) { VerdictsAreCompared(k); }
    var b, h := Normal(PropertyCore(base)).members, Normal(PropertyCore(head)).members;
    assert b == h;
    forall k | HasVerdict(k) ensures k in base <==> k in head {
      assert k in base <==> k in b;
      assert k in head <==> k in h;
    }
    forall k | k in base && HasVerdict(k) ensures IsScalar(head[k]) && PyEqual(base[k], head[k]) {
      assert b[k] == Normal(base[k]);
      assert h[k] == Normal(WithoutAnnotations(head[k]));
    }
  }

  /** A kept keyword differs, as JSON compares, exactly when a boolean became the equal number or the reverse. */
  lemma FlipsAreBooleans(base: Json, head: Json, k: string)
    requires InFragment(base) && head.Obj? && PropertyKept(base, head) && k in base.members && HasVerdict(k)
    ensures k in head.members
    ensures !JsonEqual(base.members[k], head.members[k]) <==>
      BooleanAsNumber(base.members[k], head.members[k]) || BooleanAsNumber(head.members[k], base.members[k])
  {
    hide JsonEqual, BooleanAsNumber, InFragment, PropertyKept, PyEqual;
    KeptKeyword(base, head, k);
    ScalarEqualities(base.members[k], head.members[k]);
    if BooleanAsNumber(base.members[k], head.members[k]) || BooleanAsNumber(head.members[k], base.members[k]) {
      BooleansAreNoNumbers(base.members[k], head.members[k]);
    }
  }

  lemma KeptKeyword(base: Json, head: Json, k: string)
    requires InFragment(base) && head.Obj? && PropertyKept(base, head) && k in base.members && HasVerdict(k)
    ensures base.Obj? && k in head.members && IsScalar(base.members[k]) && PyEqual(base.members[k], head.members[k])
  {
    hide PyEqual;
    SameCore(base.members, head.members);
  }

  lemma BooleansAreNoNumbers(a: Json, b: Json)
    requires BooleanAsNumber(a, b) || BooleanAsNumber(b, a)
    ensures !JsonEqual(a, b)
  {
  }

  /** On an instance the old keywords accept, the new ones accept it exactly when the flipped ones do. */
  lemma OwnKeywordsKept(sem: Semantics, base: Json, head: Json, i: Json)
    requires ReadsNumbersByValue(sem)
    requires InFragment(base) && head.Obj? && PropertyKept(base, head)
    requires OwnAccepts(sem, base.members, i)
    ensures OwnAccepts(sem, head.members, i) <==> FlippedAccept(sem, base.members, head.members, i)
  {
    var b, h := base.members, head.members;
    SameCore(b, h);
    assert EnumAccepts(h, i) by {
      if EnumValues(b).Some? {
        var e :| 0 <= e < |EnumValues(b).value| && JsonEqual(EnumValues(b).value[e], i);
        var v := EnumValues(b).value[e];
        assert v in EnumValues(h).value;
      }
    }
    forall k | k in b && HasVerdict(k) && JsonEqual(b[k], h[k]) ensures sem.asserts(k, h[k], i) {
      assert sem.asserts(k, b[k], i);
    }
  }

  // ---------------------------------------------------------------- down the tree

  /** A closed object accepts only names that it declares. */
  lemma ClosedMeansDeclared(sem: Semantics, s: Json, i: Json, n: string)
    requires InFragment(s) && IsObjectNode(s.members) && Valid(sem, s, i) && i.Obj? && n in i.members
    ensures n in Properties(s.members) && Valid(sem, Properties(s.members)[n], i.members[n])
  {
    assert Patterns(s.members) == map[];
    assert !MatchesSome(sem, s.members, n);
    assert !Valid(sem, Bool(false), i.members[n]);
  }

  lemma ValidIsOwnAndObject(sem: Semantics, s: Json, i: Json)
    requires s.Obj?
    ensures Valid(sem, s, i) <==> OwnAccepts(sem, s.members, i) && ObjectAccepts(sem, s, i)
  {
    hide OwnAccepts, MatchesSome, RequiredAccepts, RequiredNames;
    if i.Obj? { ReadAlike(s.members, i, i.members, ""); }
  }

  /**
   * On every instance the old schema accepts, the new schema accepts it if and only if the keywords
   * that the check never compared do.
   */
  lemma {:induction false} ContainmentBelow(sem: Semantics, base: Json, head: Json, i: Json)
    requires ReadsNumbersByValue(sem)
    requires InFragment(base) && head.Obj? && KeptTree(base, head) && PropertyKept(base, head)
    requires Valid(sem, base, i)
    ensures Valid(sem, head, i) <==> UncheckedAccept(sem, base, head, i)
    decreases base, 1
  {
    hide KeptTree, PropertyKept, OwnAccepts, FlippedAccept;
    ValidIsOwnAndObject(sem, base, i);
    OwnKeywordsKept(sem, base, head, i);
    ObjectContainment(sem, base, head, i);
    ValidIsOwnAndObject(sem, head, i);
  }

  /** The same for the object keywords alone, which is all the check looks at in a root schema. */
  lemma {:induction false} ObjectContainment(sem: Semantics, base: Json, head: Json, i: Json)
    requires ReadsNumbersByValue(sem)
    requires InFragment(base) && head.Obj? && KeptTree(base, head)
    requires Valid(sem, base, i)
    ensures ObjectAccepts(sem, head, i) <==> UncheckedInObject(sem, base, head, i)
    decreases base, 0
  {
    hide NodeKept;
    if i.Obj? && IsObjectNode(base.members) {
      var b, h := Properties(base.members), Properties(head.members);
      forall n | n in i.members
        ensures n in b && n in h && b[n].Obj? && h[n].Obj?
        ensures Valid(sem, h[n], i.members[n]) <==> UncheckedAccept(sem, b[n], h[n], i.members[n])
      {
        ClosedMeansDeclared(sem, base, i, n);
        KeptHasProperty(base.members, head.members, n);
        KeptDictionary(b[n], h[n]);
        ContainmentBelow(sem, b[n], h[n], i.members[n]);
      }
      RequiredStillHolds(sem, base, head, i);
      AllNamesDeclared(sem, base, head, i);
    }
  }

  lemma RequiredStillHolds(sem: Semantics, base: Json, head: Json, i: Json)
    requires base.Obj? && head.Obj? && i.Obj? && Valid(sem, base, i) && NodeKept(base.members, head.members)
    ensures RequiredNames(head.members) <= i.members.Keys
  {
  }

  /** Once every name is declared, what is left of the object keywords is the declared and patterned ones. */
  lemma AllNamesDeclared(sem: Semantics, base: Json, head: Json, i: Json)
    requires base.Obj? && head.Obj? && i.Obj? && IsObjectNode(base.members)
    requires RequiredNames(head.members) <= i.members.Keys
    requires forall n :: n in i.members ==>
      && n in Properties(base.members) && n in Properties(head.members)
      && Properties(base.members)[n].Obj? && Properties(head.members)[n].Obj?
      && (Valid(sem, Properties(head.members)[n], i.members[n]) <==>
          UncheckedAccept(sem, Properties(base.members)[n], Properties(head.members)[n], i.members[n]))
    ensures ObjectAccepts(sem, head, i) <==> UncheckedInObject(sem, base, head, i)
  {
    hide Valid, UncheckedAccept, MatchesSome, PatternsAccept, RequiredAccepts, Properties;
  }

  // ---------------------------------------------------------------- the root

  /**
   * The check compares no keyword of the root itself. So for documents of the fragment that pass it,
   * an instance valid under the old schema stays valid exactly when the new root's own keywords
   * accept it and the unchecked keywords below do.
   */
  lemma Containment(sem: Semantics, base: Json, head: Json, i: Json)
    requires ReadsNumbersByValue(sem)
    requires NonEmptyKeys(base) && NonEmptyKeys(head) && InFragment(base) && head.Obj?
    requires SchemaChanges(base, head) == []
    requires Valid(sem, base, i)
    ensures Valid(sem, head, i) <==> OwnAccepts(sem, head.members, i) && UncheckedInObject(sem, base, head, i)
  {
    hide KeptTree, SchemaChanges, OwnAccepts;
    FlatCheckIsTreeCheck(base, head);
    ObjectContainment(sem, base, head, i);
    ValidIsOwnAndObject(sem, head, i);
  }

  /** Nothing for the unchecked keywords to say: a condition on the two documents alone. */
  ghost predicate Undisturbed(base: Json, head: Json)
    requires base.Obj? && head.Obj?
    decreases base
  {
    && (forall k :: k in base.members && HasVerdict(k) && k in head.members ==>
        JsonEqual(base.members[k], head.members[k]))
    && (if IsObjectNode(base.members) then
          && "patternProperties" !in head.members
          && forall n :: n in Properties(base.members) && n in Properties(head.members)
               && Properties(base.members)[n].Obj? && Properties(head.members)[n].Obj?
               ==> Undisturbed(Properties(base.members)[n], Properties(head.members)[n])
        else !IsObjectNode(head.members))
  }

  lemma {:induction false} UndisturbedAccepts(sem: Semantics, base: Json, head: Json, i: Json)
    requires base.Obj? && head.Obj? && Undisturbed(base, head)
    ensures UncheckedAccept(sem, base, head, i)
    decreases base
  {
    if i.Obj? {
      if IsObjectNode(base.members) {
        assert Patterns(head.members) == map[];
        forall n | n in Properties(base.members) && n in Properties(head.members) && n in i.members
          && Properties(base.members)[n].Obj? && Properties(head.members)[n].Obj?
        {
          UndisturbedAccepts(sem, Properties(base.members)[n], Properties(head.members)[n], i.members[n]);
        }
      } else {
        NoObjectKeywords(sem, head, i);
      }
    }
  }

  lemma NoObjectKeywords(sem: Semantics, s: Json, i: Json)
    requires s.Obj? && !IsObjectNode(s.members)
    ensures ObjectAccepts(sem, s, i)
  {
    var m := s.members;
    assert forall k :: k in CHILD_KEYS ==> k !in m by {
      forall k | k in CHILD_KEYS ensures k !in m { assert k !in m.Keys * CHILD_KEYS; }
    }
    assert Properties(m) == map[] && Patterns(m) == map[] && RequiredNames(m) == {};
  }

  /**
   * A revision that passes the check, keeps the root's own keywords and disturbs no unchecked keyword
   * accepts every instance that the old revision accepted.
   */
  lemma UndisturbedStaysValid(sem: Semantics, base: Json, head: Json, i: Json)
    requires ReadsNumbersByValue(sem)
    requires NonEmptyKeys(base) && NonEmptyKeys(head) && InFragment(base) && head.Obj?
    requires SchemaChanges(base, head) == []
    requires PropertyKept(base, head) && Undisturbed(base, head)
    requires Valid(sem, base, i)
    ensures Valid(sem, head, i)
  {
    hide SchemaChanges, PropertyKept, Undisturbed, OwnAccepts, UncheckedInObject;
    Containment(sem, base, head, i);
    UndisturbedAccepts(sem, base, head, i);
    ValidIsOwnAndObject(sem, base, i);
    OwnKeywordsKept(sem, base, head, i);
  }

  // ---------------------------------------------------------------- each condition is needed

  /** A semantics with `const` and with patterns that match every name. */
  const SAMPLE: Semantics := Semantics((k, v, i) => k == "const" ==> JsonEqual(v, i), (r, n) => true)

  lemma SampleReadsNumbersByValue()
    ensures ReadsNumbersByValue(SAMPLE)
  {
  }

  /** A closed object schema with the given properties and further keywords. */
  function Closed(properties: Members, more: Members): Json {
    Obj(map["additionalProperties" := Bool(false), "properties" := Obj(properties)] + more)
  }

  /** Everything the guarantee asks of the two documents except its last two conditions. */
  ghost predicate PassesCheck(base: Json, head: Json) {
    && NonEmptyKeys(base) && NonEmptyKeys(head) && InFragment(base) && head.Obj?
    && SchemaChanges(base, head) == []
  }

  lemma ClosedIsNode(properties: Members, more: Members)
    requires "properties" !in more && "additionalProperties" !in more
    ensures var m := Closed(properties, more).members;
      IsObjectNode(m) && IsClosed(m) && Properties(m) == properties
    ensures forall k :: k in more ==> Closed(properties, more).members[k] == more[k]
    ensures Closed(properties, more).members.Keys == more.Keys + {"properties", "additionalProperties"}
  {
    assert "properties" in Closed(properties, more).members.Keys * CHILD_KEYS;
  }

  lemma ClosedInFragment(properties: Members)
    requires forall n :: n in properties ==> InFragment(properties[n])
    ensures InFragment(Closed(properties, map[]))
  {
    ClosedIsNode(properties, map[]);
  }

  lemma ClosedIsNonEmpty(properties: Members, more: Members)
    requires "properties" !in more && "additionalProperties" !in more
    requires forall n :: n in properties ==> n != "" && NonEmptyKeys(properties[n])
    requires forall n :: n in more ==> n != "" && NonEmptyKeys(more[n])
    ensures NonEmptyKeys(Closed(properties, more))
  {
    var s := Closed(properties, more);
    assert NonEmptyKeys(Obj(properties));
    forall k | k in s.members ensures k != "" && NonEmptyKeys(s.members[k]) {
      if k in more { assert s.members[k] == more[k]; }
    }
  }

  lemma ClosedAccepts(sem: Semantics, properties: Members, i: Members)
    requires forall n :: n in i ==> n in properties && Valid(sem, properties[n], i[n])
    ensures Valid(sem, Closed(properties, map[]), Obj(i))
  {
    var s := Closed(properties, map[]);
    ClosedIsNode(properties, map[]);
    assert RequiredNames(s.members) == {} && Patterns(s.members) == map[];
    assert EnumValues(s.members) == None;
    assert forall k :: k in s.members ==> !HasVerdict(k);
    assert OwnAccepts(sem, s.members, Obj(i));
  }

  /** Two closed schemas over the same names pass the check when their properties do. */
  lemma ClosedPasses(properties: Members, changed: Members, more: Members)
    requires "properties" !in more && "additionalProperties" !in more && "required" !in more
    requires properties.Keys == changed.Keys && properties.Keys !! CHILD_KEYS
    requires forall n :: n in properties ==> n != "" && InFragment(properties[n])
    requires forall n :: n in properties ==> NonEmptyKeys(properties[n]) && NonEmptyKeys(changed[n])
    requires forall n :: n in properties ==>
      PropertyKept(properties[n], changed[n]) && KeptTree(properties[n], changed[n])
    requires forall n :: n in more ==> n != "" && NonEmptyKeys(more[n])
    ensures PassesCheck(Closed(properties, map[]), Closed(changed, more))
  {
    hide SchemaChanges, InFragment, NonEmptyKeys, PropertyKept;
    var base, head := Closed(properties, map[]), Closed(changed, more);
    ClosedInFragment(properties);
    ClosedIsNonEmpty(properties, map[]);
    ClosedIsNonEmpty(changed, more);
    ClosedKeepsTree(properties, changed, more);
    hide KeptTree;
    FlatCheckIsTreeCheck(base, head);
  }

  lemma ClosedKeepsTree(properties: Members, changed: Members, more: Members)
    requires "properties" !in more && "additionalProperties" !in more && "required" !in more
    requires properties.Keys == changed.Keys && properties.Keys !! CHILD_KEYS
    requires forall n :: n in properties ==>
      PropertyKept(properties[n], changed[n]) && KeptTree(properties[n], changed[n])
    ensures KeptTree(Closed(properties, map[]), Closed(changed, more))
  {
    hide PropertyKept;
    var base, head := Closed(properties, map[]), Closed(changed, more);
    ClosedIsNode(properties, map[]);
    ClosedIsNode(changed, more);
    assert RequiredNames(head.members) == {};
    assert NodeKept(base.members, head.members);
    assert !IsObjectNode(properties);
  }

  lemma PlainLeaf(leaf: Json)
    requires leaf.Obj? && leaf.members.Keys <= {"const"} && forall k :: k in leaf.members ==> IsScalar(leaf.members[k])
    ensures InFragment(leaf) && NonEmptyKeys(leaf) && !IsObjectNode(leaf.members) && KeptTree(leaf, leaf)
  {
    assert leaf.members.Keys * CHILD_KEYS == {};
  }

  lemma LeafTree(leaf: Json, changed: Json)
    requires leaf.Obj? && !IsObjectNode(leaf.members)
    ensures KeptTree(leaf, changed)
  {
  }

  /** A constraint added at the root is not noticed. */
  lemma RootKeywordsAreUnchecked(base: Json, head: Json, i: Json)
    requires base == Closed(map[], map[]) && head == Closed(map[], map["const" := Null]) && i == Obj(map[])
    ensures PassesCheck(base, head) && Undisturbed(base, head)
    ensures ReadsNumbersByValue(SAMPLE) && Valid(SAMPLE, base, i) && !Valid(SAMPLE, head, i)
  {
    hide PassesCheck, Valid, PropertyKept, KeptTree, InFragment, ReadsNumbersByValue;
    SampleReadsNumbersByValue();
    ClosedPasses(map[], map[], map["const" := Null]);
    ClosedIsNode(map[], map[]);
    ClosedIsNode(map[], map["const" := Null]);
    ClosedAccepts(SAMPLE, map[], map[]);
    RejectedBy(SAMPLE, head, i, "const");
  }

  lemma RejectedBy(sem: Semantics, s: Json, i: Json, k: string)
    requires s.Obj? && k in s.members && HasVerdict(k) && !sem.asserts(k, s.members[k], i)
    ensures !Valid(sem, s, i)
  {
    assert !CoreAccepts(sem, s.members, i);
  }

  /** Patterns added to a closed object are not noticed. */
  lemma PatternPropertiesAreUnchecked(properties: Members, patterns: Json, base: Json, head: Json, i: Json)
    requires properties == map["a" := Obj(map[])] && patterns == Obj(map["^a" := Bool(false)])
    requires base == Closed(properties, map[]) && head == Closed(properties, map["patternProperties" := patterns])
    requires i == Obj(map["a" := Null])
    ensures PassesCheck(base, head) && PropertyKept(base, head)
    ensures ReadsNumbersByValue(SAMPLE) && Valid(SAMPLE, base, i) && !Valid(SAMPLE, head, i)
  {
    hide PassesCheck, PropertyKept, KeptTree, InFragment, Valid, ReadsNumbersByValue;
    SampleReadsNumbersByValue();
    var more := map["patternProperties" := patterns];
    KeptIsReflexive(properties["a"]);
    PlainLeaf(properties["a"]);
    NonEmptyPattern(patterns);
    ClosedPasses(properties, properties, more);
    ClosedIsNode(properties, map[]);
    ClosedIsNode(properties, more);
    AcceptsAnything(SAMPLE, properties["a"], Null);
    ClosedAccepts(SAMPLE, properties, i.members);
    ClosedCores(properties, properties, more);
    RejectedByPattern(SAMPLE, head, i, "^a", "a");
  }

  lemma RejectedByPattern(sem: Semantics, s: Json, i: Json, r: string, n: string)
    requires s.Obj? && i.Obj? && n in i.members && r in Patterns(s.members) && Patterns(s.members)[r] == Bool(false)
    requires sem.matches(r, n)
    ensures !Valid(sem, s, i)
  {
    hide OwnAccepts;
    assert !Valid(sem, Bool(false), i.members[n]);
    assert !PatternsAccept(sem, s.members, i.members);
    ValidIsOwnAndObject(sem, s, i);
  }

  lemma KeptIsReflexive(s: Json)
    ensures PropertyKept(s, s)
  {
  }

  lemma NonEmptyPattern(patterns: Json)
    requires patterns == Obj(map["^a" := Bool(false)])
    ensures NonEmptyKeys(patterns)
  {
  }

  lemma AcceptsAnything(sem: Semantics, s: Json, i: Json)
    requires s == Obj(map[])
    ensures Valid(sem, s, i)
  {
    assert RequiredNames(s.members) == {};
  }

  lemma ClosedCores(properties: Members, changed: Members, more: Members)
    requires more.Keys <= CHILD_KEYS && "properties" !in more && "additionalProperties" !in more
    ensures PropertyKept(Closed(properties, map[]), Closed(changed, more))
  {
    assert PropertyCore(Closed(properties, map[]).members) == Obj(map[]);
    assert PropertyCore(Closed(changed, more).members) == Obj(map[]);
    ClosedIsNode(properties, map[]);
    ClosedIsNode(changed, more);
  }

  /** One property altered without the check noticing, and a value that only the old one accepts. */
  lemma OneLeafChanged(leaf: Json, changed: Json, v: Json, properties: Members, altered: Members)
    requires leaf.Obj? && leaf.members.Keys <= {"const"} && (forall k :: k in leaf.members ==>
      IsScalar(leaf.members[k]))
    requires NonEmptyKeys(changed) && PropertyKept(leaf, changed)
    requires Valid(SAMPLE, leaf, v) && !Valid(SAMPLE, changed, v)
    requires properties == map["a" := leaf] && altered == map["a" := changed]
    ensures var base, head, i := Closed(properties, map[]), Closed(altered, map[]), Obj(map["a" := v]);
      && PassesCheck(base, head) && PropertyKept(base, head)
      && ReadsNumbersByValue(SAMPLE) && Valid(SAMPLE, base, i) && !Valid(SAMPLE, head, i)
  {
    hide PassesCheck, PropertyKept, NonEmptyKeys, KeptTree, InFragment, Valid, ReadsNumbersByValue;
    SampleReadsNumbersByValue();
    PlainLeaf(leaf);
    LeafTree(leaf, changed);
    assert properties.Keys == {"a"} == altered.Keys;
    ClosedPasses(properties, altered, map[]);
    ClosedCores(properties, altered, map[]);
    ClosedAccepts(SAMPLE, properties, map["a" := v]);
    ClosedRejects(SAMPLE, altered, map["a" := v], "a");
  }

  lemma ClosedRejects(sem: Semantics, properties: Members, i: Members, n: string)
    requires n in i && n in properties && !Valid(sem, properties[n], i[n])
    ensures !Valid(sem, Closed(properties, map[]), Obj(i))
  {
    ClosedIsNode(properties, map[]);
    var m := Closed(properties, map[]).members;
    assert n in Properties(m) && !Valid(sem, Properties(m)[n], i[n]);
  }

  /** A property without object keywords may gain them unnoticed. */
  lemma GainedObjectKeywordsAreUnchecked(leaf: Json, gained: Json, properties: Members, altered: Members)
    requires leaf == Obj(map[]) && gained == Obj(map["required" := Arr([Str("x")])])
    requires properties == map["a" := leaf] && altered == map["a" := gained]
    ensures var base, head, i := Closed(properties, map[]), Closed(altered, map[]), Obj(map["a" := leaf]);
      && PassesCheck(base, head) && PropertyKept(base, head)
      && ReadsNumbersByValue(SAMPLE) && Valid(SAMPLE, base, i) && !Valid(SAMPLE, head, i)
  {
    hide PassesCheck, KeptTree, InFragment, ReadsNumbersByValue;
    assert PropertyCore(gained.members) == Obj(map[]) == PropertyCore(leaf.members);
    AcceptsAnything(SAMPLE, leaf, leaf);
    assert Str("x") in gained.members["required"].items;
    assert "x" in RequiredNames(gained.members);
    OneLeafChanged(leaf, gained, leaf, properties, altered);
  }

  /** A boolean keyword may become a number unnoticed. */
  lemma FlippedKeywordsAreUnchecked(leaf: Json, flipped: Json, properties: Members, altered: Members)
    requires leaf == Obj(map["const" := Bool(true)]) && flipped == Obj(map["const" := Int(1)])
    requires properties == map["a" := leaf] && altered == map["a" := flipped]
    ensures var base, head, i := Closed(properties, map[]), Closed(altered, map[]), Obj(map["a" := Bool(true)]);
      && PassesCheck(base, head) && PropertyKept(base, head)
      && ReadsNumbersByValue(SAMPLE) && Valid(SAMPLE, base, i) && !Valid(SAMPLE, head, i)
  {
    hide PassesCheck, PropertyKept, Valid, ReadsNumbersByValue;
    FlipIsKept(leaf, flipped);
    ConstAccepts(leaf, Bool(true));
    RejectedBy(SAMPLE, flipped, Bool(true), "const");
    OneLeafChanged(leaf, flipped, Bool(true), properties, altered);
  }

  lemma FlipIsKept(leaf: Json, flipped: Json)
    requires leaf == Obj(map["const" := Bool(true)]) && flipped == Obj(map["const" := Int(1)])
    ensures PropertyKept(leaf, flipped) && NonEmptyKeys(flipped)
  {
    CoreOfScalars(leaf.members);
    CoreOfScalars(flipped.members);
    assert Normal(PropertyCore(leaf.members)) == Normal(PropertyCore(flipped.members));
  }

  lemma ConstAccepts(s: Json, v: Json)
    requires s == Obj(map["const" := v]) && !v.Obj?
    ensures Valid(SAMPLE, s, v)
  {
    assert forall k :: k in s.members ==> k == "const";
  }
}
