/**
 * Exactly when every instance of a schema of the fragment is an instance of another schema, whatever
 * the verdicts of the keywords and of the regular expressions that are not spelled out.
 */
module SchemaContainment {
  import opened Json
  import opened SchemaNodes
  import opened SchemaCompat
  import opened SchemaTree
  import opened SchemaSemantics
  import opened Ordering

  /** Under every semantics, each instance of `b` is one of `s`. */
  ghost predicate Contains(b: Json, s: Json) {
    forall sem, i :: ReadsNumbersByValue(sem) && Valid(sem, b, i) ==> Valid(sem, s, i)
  }

  // ---------------------------------------------------------------- the condition: own keywords

  /** The enumeration of a schema, if it has one, is not empty. */
  predicate Inhabited(s: Json) { s.Obj? && EnumValues(s.members) != Some([]) }

  /** No other value is the same number: an integral number can be written in two ways. */
  predicate OneForm(v: Json) { !v.Int? && !(v.Float? && v.value.Floor as real == v.value) }

  /** The enumeration allows `x` and nothing else. */
  predicate OnlyTakes(s: Json, x: Json) {
    s.Obj? && OneForm(x) && match EnumValues(s.members)
      case None => false
      case Some(values) => values != [] && forall v :: v in values ==> v == x
  }

  /** Every instance of `s` puts the keyword `k: v` to the value `x`. */
  predicate Forces(s: Json, k: string, v: Json, x: Json) {
    OnlyTakes(s, x) && HasVerdict(k) && k in s.members && JsonEqual(s.members[k], v)
  }

  /**
   * Required properties along the way to a schema have instances of their own. So where `k: v` is put
   * to `x` by one of these, the semantics has it accept `x`.
   */
  ghost predicate Forced(company: set<Json>, k: string, v: Json, x: Json) {
    exists r :: r in company && Forces(r, k, v, x)
  }

  predicate EnumWithin(b: Members, m: Members) {
    match (EnumValues(b), EnumValues(m))
    case (_, None) => true
    case (None, Some(_)) => false
    case (Some(known), Some(values)) => forall v :: v in known ==> Listed(values, v)
  }

  predicate Listed(values: seq<Json>, v: Json) { exists w :: w in values && JsonEqual(w, v) }

  /** A keyword rejects no instance of `b`: it is one of `b`, or forced at all values of the enumeration. */
  ghost predicate KeywordWithin(b: Members, k: string, v: Json, company: set<Json>) {
    || (k in b && JsonEqual(b[k], v))
    || (EnumValues(b).Some? && forall e :: e in EnumValues(b).value ==> Forced(company, k, v, e))
  }

  ghost predicate OwnWithin(b: Members, m: Members, company: set<Json>) {
    && EnumWithin(b, m)
    && forall k :: k in m && HasVerdict(k) ==> KeywordWithin(b, k, m[k], company)
  }

  // ---------------------------------------------------------------- the condition: objects

  /** A schema without any say. */
  ghost predicate TakesAll(s: Json)
    decreases s, 1
  {
    match s
    case Bool(accept) => accept
    case Obj(m) => EnumValues(m).None? && (forall k :: k in m ==> !HasVerdict(k)) && TakesAllObjects(s)
    case _ => false
  }

  ghost predicate TakesAllObjects(s: Json)
    decreases s, 0
  {
    s.Obj? ==>
      && RequiredNames(s.members) == {}
      && (forall n :: n in Properties(s.members) ==> TakesAll(Properties(s.members)[n]))
      && (forall r :: r in Patterns(s.members) ==> TakesAll(Patterns(s.members)[r]))
      && ("additionalProperties" in s.members ==> TakesAll(s.members["additionalProperties"]))
  }

  /** Some object is an instance: no enumeration, and the required names are declared and inhabited. */
  predicate TakesObjects(b: Json)
    requires b.Obj?
  {
    && EnumValues(b.members).None?
    && forall n :: n in RequiredNames(b.members) ==>
         n in Properties(b.members) && Inhabited(Properties(b.members)[n])
  }

  /** The properties that an object carries along with the property `n`. */
  function Beside(m: Members, n: string): set<Json> {
    set r | r in RequiredNames(m) && r in Properties(m) && r != n :: Properties(m)[r]
  }

  /** A pattern and a name. */
  type Pin = (string, string)

  function PinsOf(m: Members, n: string): set<Pin> { set r | r in Patterns(m) :: (r, n) }

  /**
   * The condition. `company` are the required properties beside the way down to `b`; on this way the
   * patterns were taken to match the names in `on` and not those in `off`.
   */
  ghost predicate Within(b: Json, s: Json, company: set<Json>, on: set<Pin>, off: set<Pin>)
    requires InFragment(b)
    decreases b, 2
  {
    Inhabited(b) ==>
      match s
      case Bool(accept) => accept
      case Obj(m) => OwnWithin(b.members, m, company) && (TakesObjects(b) ==> ObjectsWithin(b, m, company, on, off))
      case _ => false
  }

  ghost predicate ObjectsWithin(b: Json, m: Members, company: set<Json>, on: set<Pin>, off: set<Pin>)
    requires InFragment(b)
    decreases b, 1
  {
    if IsObjectNode(b.members) then
      && RequiredNames(m) <= RequiredNames(b.members)
      && forall n :: n in Properties(b.members) ==> NameWithin(b, n, m, company + Beside(b.members, n), on, off)
    else TakesAllObjects(Obj(m))
  }

  /** The value of one name meets every schema that may apply to it. */
  ghost predicate NameWithin(b: Json, n: string, m: Members, company: set<Json>, on: set<Pin>, off: set<Pin>)
    requires InFragment(b) && IsObjectNode(b.members) && n in Properties(b.members)
    decreases b, 0
  {
    var p := Properties(b.members)[n];
    && (n in Properties(m) ==> Within(p, Properties(m)[n], company, on, off))
    && (forall r :: r in Patterns(m) && (r, n) !in off ==> Within(p, Patterns(m)[r], company, on + {(r, n)}, off))
    && ("additionalProperties" in m && n !in Properties(m) && PinsOf(m, n) !! on ==>
          Within(p, m["additionalProperties"], company, on, off + PinsOf(m, n)))
  }

  // ---------------------------------------------------------------- the condition is enough

  ghost predicate Obeys(sem: Semantics, on: set<Pin>, off: set<Pin>) {
    && (forall p :: p in on ==> sem.matches(p.0, p.1))
    && (forall p :: p in off ==> !sem.matches(p.0, p.1))
  }

  ghost predicate Accompanied(sem: Semantics, company: set<Json>) {
    forall r :: r in company ==> InFragment(r) && exists y :: Valid(sem, r, y)
  }

  lemma {:induction false} AllAreAccepted(sem: Semantics, s: Json, i: Json)
    requires TakesAll(s)
    ensures Valid(sem, s, i)
    decreases s, 1
  {
    if s.Obj? {
      AllObjectsAreAccepted(sem, s, i);
      ValidIsOwnAndObject(sem, s, i);
    }
  }

  lemma {:induction false} AllObjectsAreAccepted(sem: Semantics, s: Json, i: Json)
    requires s.Obj? && TakesAllObjects(s)
    ensures ObjectAccepts(sem, s, i)
    decreases s, 0
  {
    hide Valid, MatchesSome;
    if i.Obj? {
      var m := s.members;
      forall n | n in Properties(m) && n in i.members { AllAreAccepted(sem, Properties(m)[n], i.members[n]); }
      forall r, n | r in Patterns(m) && n in i.members { AllAreAccepted(sem, Patterns(m)[r], i.members[n]); }
      forall n | n in i.members && "additionalProperties" in m {
        AllAreAccepted(sem, m["additionalProperties"], i.members[n]);
      }
    }
  }

  lemma OneFormIsAlone(v: Json, w: Json)
    requires IsScalar(v) && OneForm(v) && JsonEqual(v, w)
    ensures v == w
  {
  }

  lemma ForcedIsAccepted(sem: Semantics, company: set<Json>, k: string, v: Json, x: Json)
    requires ReadsNumbersByValue(sem) && Accompanied(sem, company) && Forced(company, k, v, x)
    ensures IsScalar(x) && OneForm(x) && sem.asserts(k, v, x)
  {
    hide JsonEqual, OneForm;
    var r :| r in company && Forces(r, k, v, x);
    var y :| Valid(sem, r, y);
    ValidIsOwnAndObject(sem, r, y);
    var values := EnumValues(r.members).value;
    assert values[0] in values;
    var e :| 0 <= e < |values| && JsonEqual(values[e], y);
    assert values[e] in values;
    OneFormIsAlone(x, y);
    assert sem.asserts(k, r.members[k], y);
  }

  lemma OwnIsAccepted(sem: Semantics, b: Json, m: Members, company: set<Json>, i: Json)
    requires ReadsNumbersByValue(sem) && Accompanied(sem, company)
    requires InFragment(b) && OwnAccepts(sem, b.members, i) && OwnWithin(b.members, m, company)
    ensures OwnAccepts(sem, m, i)
  {
    hide Accompanied, Forced, OneForm;
    if EnumValues(m).Some? {
      var values := EnumValues(b.members).value;
      var e :| 0 <= e < |values| && JsonEqual(values[e], i);
      assert values[e] in values && Listed(EnumValues(m).value, values[e]);
      var w :| w in EnumValues(m).value && JsonEqual(w, values[e]);
      var j :| 0 <= j < |EnumValues(m).value| && EnumValues(m).value[j] == w;
      assert JsonEqual(EnumValues(m).value[j], i);
    }
    forall k | k in m && HasVerdict(k) ensures sem.asserts(k, m[k], i) {
      if k in b.members && JsonEqual(b.members[k], m[k]) {
        assert sem.asserts(k, b.members[k], i);
      } else {
        var values := EnumValues(b.members).value;
        var e :| 0 <= e < |values| && JsonEqual(values[e], i);
        assert values[e] in values;
        ForcedIsAccepted(sem, company, k, m[k], values[e]);
        OneFormIsAlone(values[e], i);
      }
    }
  }

  lemma ValidMeansInhabited(sem: Semantics, b: Json, i: Json)
    requires InFragment(b) && Valid(sem, b, i)
    ensures Inhabited(b)
  {
  }

  lemma AnObjectMeansTakesObjects(sem: Semantics, b: Json, i: Json)
    requires InFragment(b) && Valid(sem, b, i) && i.Obj?
    ensures TakesObjects(b)
  {
    hide JsonEqual, CoreAccepts, MatchesSome;
    if EnumValues(b.members).Some? {
      var values := EnumValues(b.members).value;
      var e :| 0 <= e < |values| && JsonEqual(values[e], i);
      assert values[e] in values;
      ScalarIsNoObject(values[e], i);
    }
    if IsObjectNode(b.members) {
      forall n | n in RequiredNames(b.members)
        ensures n in Properties(b.members) && Inhabited(Properties(b.members)[n])
      {
        assert n in i.members;
        ClosedMeansDeclared(sem, b, i, n);
        ValidMeansInhabited(sem, Properties(b.members)[n], i.members[n]);
      }
    } else {
      assert "required" !in b.members.Keys * CHILD_KEYS;
    }
  }

  lemma ScalarIsNoObject(v: Json, w: Json)
    requires IsScalar(v) && JsonEqual(v, w)
    ensures IsScalar(w)
  {
  }

  lemma MoreCompany(sem: Semantics, b: Json, i: Json, company: set<Json>, n: string)
    requires b.Obj? && InFragment(b) && IsObjectNode(b.members)
    requires Valid(sem, b, i) && i.Obj? && Accompanied(sem, company)
    ensures Accompanied(sem, company + Beside(b.members, n))
  {
    hide InFragment;
    forall r | r in RequiredNames(b.members) && r in Properties(b.members)
      ensures InFragment(Properties(b.members)[r]) && exists y :: Valid(sem, Properties(b.members)[r], y)
    {
      PropertyInFragment(b, r);
      assert r in i.members;
      assert Valid(sem, Properties(b.members)[r], i.members[r]);
    }
  }

  lemma PropertyInFragment(b: Json, n: string)
    requires InFragment(b) && IsObjectNode(b.members) && n in Properties(b.members)
    ensures InFragment(Properties(b.members)[n])
  {
  }

  /** Under the condition every instance of `b` is one of `s`. */
  lemma {:induction false} WithinIsAccepted(sem: Semantics, b: Json, s: Json, company: set<Json>,
                                            on: set<Pin>, off: set<Pin>, i: Json)
    requires ReadsNumbersByValue(sem) && Obeys(sem, on, off) && Accompanied(sem, company)
    requires InFragment(b) && Within(b, s, company, on, off) && Valid(sem, b, i)
    ensures Valid(sem, s, i)
    decreases b, 2
  {
    hide OwnAccepts, OwnWithin, ObjectsWithin, Accompanied, ReadsNumbersByValue, Obeys, InFragment, TakesObjects;
    ValidMeansInhabited(sem, b, i);
    if s.Obj? {
      ValidIsOwnAndObject(sem, b, i);
      OwnIsAccepted(sem, b, s.members, company, i);
      if i.Obj? {
        AnObjectMeansTakesObjects(sem, b, i);
        ObjectIsAccepted(sem, b, s, company, on, off, i);
      }
      ValidIsOwnAndObject(sem, s, i);
    }
  }

  lemma {:induction false} ObjectIsAccepted(sem: Semantics, b: Json, s: Json, company: set<Json>,
                                            on: set<Pin>, off: set<Pin>, i: Json)
    requires ReadsNumbersByValue(sem) && Obeys(sem, on, off) && Accompanied(sem, company)
    requires b.Obj? && InFragment(b) && s.Obj? && i.Obj?
    requires ObjectsWithin(b, s.members, company, on, off) && Valid(sem, b, i)
    ensures ObjectAccepts(sem, s, i)
    decreases b, 1
  {
    hide Within, Accompanied, ReadsNumbersByValue, Obeys, OwnAccepts, NameWithin, TakesAllObjects, Valid, InFragment;
    if IsObjectNode(b.members) {
      ValidIsOwnAndObject(sem, b, i);
      var m := s.members;
      forall n | n in i.members
        ensures n in Properties(m) ==> Valid(sem, Properties(m)[n], i.members[n])
        ensures forall r :: r in Patterns(m) && sem.matches(r, n) ==> Valid(sem, Patterns(m)[r], i.members[n])
        ensures "additionalProperties" in m && n !in Properties(m) && !MatchesSome(sem, m, n) ==>
          Valid(sem, m["additionalProperties"], i.members[n])
      {
        ClosedMeansDeclared(sem, b, i, n);
        MoreCompany(sem, b, i, company, n);
        NameIsAccepted(sem, b, n, m, company + Beside(b.members, n), on, off, i.members[n]);
      }
    } else {
      AllObjectsAreAccepted(sem, Obj(s.members), i);
    }
  }

  lemma {:induction false} NameIsAccepted(sem: Semantics, b: Json, n: string, m: Members, company: set<Json>,
                                          on: set<Pin>, off: set<Pin>, x: Json)
    requires ReadsNumbersByValue(sem) && Obeys(sem, on, off) && Accompanied(sem, company)
    requires b.Obj? && InFragment(b) && IsObjectNode(b.members) && n in Properties(b.members)
    requires NameWithin(b, n, m, company, on, off) && Valid(sem, Properties(b.members)[n], x)
    ensures n in Properties(m) ==> Valid(sem, Properties(m)[n], x)
    ensures forall r :: r in Patterns(m) && sem.matches(r, n) ==> Valid(sem, Patterns(m)[r], x)
    ensures "additionalProperties" in m && n !in Properties(m) && !MatchesSome(sem, m, n) ==>
      Valid(sem, m["additionalProperties"], x)
    decreases b, 0
  {
    hide Within, Accompanied, ReadsNumbersByValue, InFragment, Valid;
    PropertyInFragment(b, n);
    var p := Properties(b.members)[n];
    if n in Properties(m) { WithinIsAccepted(sem, p, Properties(m)[n], company, on, off, x); }
    forall r | r in Patterns(m) && sem.matches(r, n) ensures Valid(sem, Patterns(m)[r], x) {
      WithinIsAccepted(sem, p, Patterns(m)[r], company, on + {(r, n)}, off, x);
    }
    if "additionalProperties" in m && n !in Properties(m) && !MatchesSome(sem, m, n) {
      WithinIsAccepted(sem, p, m["additionalProperties"], company, on, off + PinsOf(m, n), x);
    }
  }
}
