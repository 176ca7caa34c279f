/**
 * The condition of `SchemaContainment` is exact: where it fails, some semantics has an instance of the
 * one schema that is none of the other. So it also decides when a revision keeps all old instances.
 */
module SchemaSeparation {
  import opened Json
  import opened SchemaNodes
  import opened SchemaCompat
  import opened SchemaTree
  import opened SchemaSemantics
  import opened SchemaContainment

  /** A semantics in which the keyword `key: value` refuses `at`, nothing else is refused, and only `on` matches. */
  datatype Refusal = Refusal(on: set<Pin>, key: string, value: Json, at: Json)
  {
    ghost function Sem(): Semantics {
      Semantics((k, v, i) => !(k == this.key && JsonEqual(v, this.value) && i == this.at),
                (r, n) => (r, n) in this.on)
    }

    ghost predicate Fits(company: set<Json>, on: set<Pin>, off: set<Pin>) {
      on <= this.on && this.on !! off && !at.Obj? && !Forced(company, key, value, at)
    }

    /** The instance `y` of `b` is none of `s`. */
    ghost predicate Separates(b: Json, s: Json, y: Json) {
      Valid(Sem(), b, y) && !Valid(Sem(), s, y)
    }
  }

  /** A refusal that matters to lists only. */
  function Plain(on: set<Pin>): Refusal { Refusal(on, "", Null, Arr([])) }

  lemma ReadsByValue(w: Refusal)
    ensures ReadsNumbersByValue(w.Sem())
  {
  }

  lemma NothingForcesLists(company: set<Json>, k: string, v: Json)
    requires forall r :: r in company ==> InFragment(r)
    ensures !Forced(company, k, v, Arr([]))
  {
    hide InFragment;
    forall r | r in company { OnlyListsNoList(r); }
  }

  lemma OnlyListsNoList(r: Json)
    requires InFragment(r)
    ensures !OnlyTakes(r, Arr([]))
  {
    var values := if EnumValues(r.members).Some? then EnumValues(r.members).value else [];
    assert values != [] ==> values[0] in values;
  }

  // ---------------------------------------------------------------- simple instances

  /** `y` meets the enumeration of `b` and is not refused by its own keywords. */
  ghost predicate Escapes(w: Refusal, b: Members, y: Json) {
    EnumAccepts(b, y) && (y != w.at || !(w.key in b && HasVerdict(w.key) && JsonEqual(b[w.key], w.value)))
  }

  lemma EscapingIsValid(w: Refusal, b: Json, y: Json)
    requires b.Obj? && InFragment(b) && Escapes(w, b.members, y) && !y.Obj?
    ensures Valid(w.Sem(), b, y)
  {
    hide InFragment, JsonEqual, EnumAccepts;
    ValidIsOwnAndObject(w.Sem(), b, y);
  }

  function SomeValue(b: Json): Json
    requires Inhabited(b)
  {
    match EnumValues(b.members)
    case None => Null
    case Some(values) => values[0]
  }

  lemma ValuesAreAccepted(b: Json, e: Json)
    requires InFragment(b) && Inhabited(b)
    requires EnumValues(b.members).Some? ==> e in EnumValues(b.members).value
    ensures EnumAccepts(b.members, e)
    ensures EnumValues(b.members).Some? ==> IsScalar(e)
  {
    if EnumValues(b.members).Some? {
      var values := EnumValues(b.members).value;
      var j :| 0 <= j < |values| && values[j] == e;
      assert JsonEqual(values[j], e);
    }
  }

  /** The other way to write an integral number. */
  function OtherForm(v: Json): (r: Json)
    requires IsScalar(v) && !OneForm(v)
    ensures r != v && JsonEqual(v, r) && !r.Obj?
  {
    if v.Int? then Float(v.number as real) else Int(v.value.Floor)
  }

  /** A property beside the way has an instance unless it forces just what the witness refuses. */
  lemma CompanionExists(w: Refusal, r: Json)
    requires InFragment(r) && Inhabited(r) && !Forces(r, w.key, w.value, w.at)
    ensures exists y :: Valid(w.Sem(), r, y)
  {
    hide InFragment, JsonEqual, OneForm;
    var y := SomeValue(r);
    ValuesAreAccepted(r, y);
    if !Escapes(w, r.members, y) {
      y := AnotherValue(r, w.at);
    }
    EscapingIsValid(w, r, y);
  }

  lemma AnotherValue(r: Json, at: Json) returns (y: Json)
    requires InFragment(r) && Inhabited(r) && !OnlyTakes(r, at)
    ensures EnumAccepts(r.members, y) && y != at && !y.Obj?
  {
    hide JsonEqual, OneForm;
    if EnumValues(r.members).None? {
      y := if at == Null then Arr([]) else Null;
    } else {
      var values := EnumValues(r.members).value;
      if v :| v in values && v != at {
        y := v;
        ValuesAreAccepted(r, y);
      } else {
        assert values[0] in values && values[0] == at;
        ValuesAreAccepted(r, at);
        y := OtherForm(at);
      }
    }
  }

  // ---------------------------------------------------------------- fresh names and values

  lemma {:induction false} FreshName(names: set<string>) returns (n: string)
    ensures n !in names && forall m :: m in names ==> |m| < |n|
  {
    if names == {} {
      n := "x";
    } else {
      var m :| m in names;
      n := FreshName(names - {m});
      if |m| >= |n| { n := m + "x"; }
    }
  }

  /** A text that a finite enumeration does not list. */
  lemma FreshValue(values: seq<Json>) returns (y: Json)
    ensures y.Str? && !Listed(values, y)
  {
    var n := FreshName(set v | v in values && v.Str? :: v.text);
    y := Str(n);
    forall w | w in values ensures !JsonEqual(w, y) { TextsAreThemselves(w, y); }
  }

  lemma TextsAreThemselves(w: Json, y: Json)
    requires y.Str?
    ensures JsonEqual(w, y) <==> w == y
  {
  }

  lemma UnlistedIsRejected(sem: Semantics, s: Json, y: Json)
    requires s.Obj? && EnumValues(s.members).Some? && !Listed(EnumValues(s.members).value, y)
    ensures !Valid(sem, s, y)
  {
    hide JsonEqual, CoreAccepts;
    var values := EnumValues(s.members).value;
    assert forall e :: 0 <= e < |values| ==> values[e] in values;
  }

  function NamesOf(pins: set<Pin>): set<string> { set p | p in pins :: p.1 }

  // ---------------------------------------------------------------- schemas that refuse something

  /** A schema with any say refuses some value. */
  lemma {:induction false} RefusesSomething(s: Json, on: set<Pin>, off: set<Pin>) returns (w: Refusal, y: Json)
    requires !TakesAll(s) && on !! off
    ensures on <= w.on && w.on !! off && w.at == Arr([]) && !Valid(w.Sem(), s, y)
    decreases s, 1
  {
    hide Valid, TakesAllObjects;
    w, y := Plain(on), Null;
    if !s.Obj? {
      NonSchemaRefuses(w.Sem(), s, y);
    } else if EnumValues(s.members).Some? {
      y := FreshValue(EnumValues(s.members).value);
      UnlistedIsRejected(w.Sem(), s, y);
    } else if k :| k in s.members && HasVerdict(k) {
      w, y := Refusal(on, k, s.members[k], Arr([])), Arr([]);
      EqualToItself(s.members[k]);
      RejectedBy(w.Sem(), s, y, k);
    } else {
      w, y := RefusesSomeObject(s, on, off);
    }
  }

  lemma NonSchemaRefuses(sem: Semantics, s: Json, y: Json)
    requires !s.Obj? && s != Bool(true)
    ensures !Valid(sem, s, y)
  {
  }

  lemma {:induction false} RefusesSomeObject(s: Json, on: set<Pin>, off: set<Pin>) returns (w: Refusal, y: Json)
    requires s.Obj? && !TakesAllObjects(s) && on !! off
    ensures on <= w.on && w.on !! off && w.at == Arr([]) && y.Obj? && !Valid(w.Sem(), s, y)
    decreases s, 0
  {
    hide Valid, TakesAll;
    var m := s.members;
    var x: Json;
    if q :| q in RequiredNames(m) {
      w, y := Plain(on), Obj(map[]);
      MissingIsRejected(w.Sem(), s, y, q);
    } else if n :| n in Properties(m) && !TakesAll(Properties(m)[n]) {
      w, x := RefusesSomething(Properties(m)[n], on, off);
      y := Obj(map[n := x]);
      NamedIsRejected(w, s, y, n);
    } else if r :| r in Patterns(m) && !TakesAll(Patterns(m)[r]) {
      var n := FreshName(NamesOf(on) + NamesOf(off));
      NotPinned(on + off, n);
      w, x := RefusesSomething(Patterns(m)[r], on + {(r, n)}, off);
      y := Obj(map[n := x]);
      MatchedIsRejected(w, s, y, r, n);
    } else {
      var n := FreshName(NamesOf(on) + NamesOf(off) + Properties(m).Keys);
      NotPinned(on + off, n);
      w, x := RefusesSomething(m["additionalProperties"], on, off + PinsOf(m, n));
      y := Obj(map[n := x]);
      AdditionalIsRejected(w, s, y, n);
    }
  }

  lemma NotPinned(pins: set<Pin>, n: string)
    requires n !in NamesOf(pins)
    ensures forall r :: (r, n) !in pins
  {
    assert forall p :: p in pins ==> p.1 in NamesOf(pins);
    assert forall r :: (r, n) in pins ==> (r, n).1 == n;
  }

  lemma MissingIsRejected(sem: Semantics, s: Json, i: Json, q: string)
    requires s.Obj? && i.Obj? && q in RequiredNames(s.members) && q !in i.members
    ensures !Valid(sem, s, i)
  {
    hide OwnAccepts, MatchesSome;
    ValidIsOwnAndObject(sem, s, i);
  }

  lemma NamedIsRejected(w: Refusal, s: Json, i: Json, n: string)
    requires s.Obj? && i.Obj? && n in i.members && n in Properties(s.members)
    requires !Valid(w.Sem(), Properties(s.members)[n], i.members[n])
    ensures !Valid(w.Sem(), s, i)
  {
    hide OwnAccepts, MatchesSome;
    ValidIsOwnAndObject(w.Sem(), s, i);
  }

  lemma MatchedIsRejected(w: Refusal, s: Json, i: Json, r: string, n: string)
    requires s.Obj? && i.Obj? && n in i.members && r in Patterns(s.members) && (r, n) in w.on
    requires !Valid(w.Sem(), Patterns(s.members)[r], i.members[n])
    ensures !Valid(w.Sem(), s, i)
  {
    hide OwnAccepts, MatchesSome;
    assert w.Sem().matches(r, n);
    ValidIsOwnAndObject(w.Sem(), s, i);
  }

  lemma AdditionalIsRejected(w: Refusal, s: Json, i: Json, n: string)
    requires s.Obj? && i.Obj? && n in i.members && "additionalProperties" in s.members
    requires n !in Properties(s.members) && PinsOf(s.members, n) !! w.on
    requires !Valid(w.Sem(), s.members["additionalProperties"], i.members[n])
    ensures !Valid(w.Sem(), s, i)
  {
    hide OwnAccepts;
    forall r | r in Patterns(s.members) ensures !w.Sem().matches(r, n) { assert (r, n) in PinsOf(s.members, n); }
    assert !MatchesSome(w.Sem(), s.members, n);
    ValidIsOwnAndObject(w.Sem(), s, i);
  }

  // ---------------------------------------------------------------- the condition is needed

  ghost predicate IsCompany(company: set<Json>) {
    forall r :: r in company ==> InFragment(r) && Inhabited(r)
  }

  /** Where the own keywords are not within those of `b`, some value of `b` is refused by them. */
  lemma OwnSeparates(b: Json, s: Json, company: set<Json>, on: set<Pin>, off: set<Pin>) returns (w: Refusal, y: Json)
    requires b.Obj? && InFragment(b) && Inhabited(b) && s.Obj? && IsCompany(company) && on !! off
    requires !OwnWithin(b.members, s.members, company)
    ensures w.Fits(company, on, off) && w.Separates(b, s, y)
  {
    hide InFragment, JsonEqual, Forced, Valid, EnumAccepts;
    var m := s.members;
    if !EnumWithin(b.members, m) {
      w := Plain(on);
      EnumSeparates(b, m, w);
      y :| !y.Arr? && !y.Obj? && EnumAccepts(b.members, y) && !Listed(EnumValues(m).value, y);
      NothingForcesLists(company, w.key, w.value);
      UnlistedIsRejected(w.Sem(), s, y);
    } else {
      var k :| k in m && HasVerdict(k) && !KeywordWithin(b.members, k, m[k], company);
      y := Arr([]);
      NothingForcesLists(company, k, m[k]);
      if EnumValues(b.members).Some? {
        y :| y in EnumValues(b.members).value && !Forced(company, k, m[k], y);
      }
      ValueEscapes(b, y);
      w := Refusal(on, k, m[k], y);
      assert JsonEqual(m[k], m[k]) by { EqualToItself(m[k]); }
      RejectedBy(w.Sem(), s, y, k);
    }
    EscapingIsValid(w, b, y);
  }

  lemma EqualToItself(v: Json)
    ensures JsonEqual(v, v)
  {
  }

  lemma ValueEscapes(b: Json, y: Json)
    requires InFragment(b) && Inhabited(b)
    requires if EnumValues(b.members).Some? then y in EnumValues(b.members).value else y == Arr([])
    ensures EnumAccepts(b.members, y) && !y.Obj?
  {
    ValuesAreAccepted(b, y);
  }

  lemma EnumSeparates(b: Json, m: Members, w: Refusal)
    requires InFragment(b) && Inhabited(b) && !EnumWithin(b.members, m)
    ensures EnumValues(m).Some?
    ensures exists y: Json :: !y.Arr? && !y.Obj? && EnumAccepts(b.members, y) && !Listed(EnumValues(m).value, y)
  {
    hide JsonEqual, InFragment;
    var y: Json;
    if EnumValues(b.members).None? {
      y := FreshValue(EnumValues(m).value);
    } else {
      y :| y in EnumValues(b.members).value && !Listed(EnumValues(m).value, y);
    }
    ValuesAreAccepted(b, y);
  }

  /** Some instance of a schema, if it has one. */
  ghost function Chosen(sem: Semantics, r: Json): Json {
    if exists y :: Valid(sem, r, y) then (var y :| Valid(sem, r, y); y) else Null
  }

  /** The required properties of `b`, each with some instance. */
  ghost function Along(sem: Semantics, b: Members): Members {
    map r | r in RequiredNames(b) && r in Properties(b) :: Chosen(sem, Properties(b)[r])
  }

  lemma ObjectEscapes(w: Refusal, b: Members, i: Json)
    requires EnumValues(b).None? && i.Obj? && !w.at.Obj?
    ensures OwnAccepts(w.Sem(), b, i)
  {
    hide JsonEqual;
  }

  lemma NoPatterns(b: Json)
    requires b.Obj? && InFragment(b) && IsObjectNode(b.members)
    ensures Patterns(b.members) == map[]
  {
  }

  lemma ObjectOfInstances(w: Refusal, b: Json, i: Json)
    requires b.Obj? && InFragment(b) && IsObjectNode(b.members) && EnumValues(b.members).None? && !w.at.Obj?
    requires i.Obj? && RequiredNames(b.members) <= i.members.Keys
    requires forall n :: n in i.members ==>
      n in Properties(b.members) && Valid(w.Sem(), Properties(b.members)[n], i.members[n])
    ensures Valid(w.Sem(), b, i)
  {
    hide Valid, OwnAccepts, MatchesSome, InFragment;
    NoPatterns(b);
    ObjectEscapes(w, b.members, i);
    ValidIsOwnAndObject(w.Sem(), b, i);
  }

  lemma LeafTakesObject(w: Refusal, b: Json, i: Json)
    requires b.Obj? && InFragment(b) && !IsObjectNode(b.members) && EnumValues(b.members).None?
    requires i.Obj? && !w.at.Obj?
    ensures Valid(w.Sem(), b, i)
  {
    hide Valid, OwnAccepts, ObjectAccepts;
    ObjectEscapes(w, b.members, i);
    NoObjectKeywords(w.Sem(), b, i);
    ValidIsOwnAndObject(w.Sem(), b, i);
  }

  /** Every required property beside `n` has an instance under a semantics that fits the company. */
  lemma BesideIsInhabited(w: Refusal, b: Json, company: set<Json>, n: string)
    requires b.Obj? && InFragment(b) && IsObjectNode(b.members) && TakesObjects(b)
    requires !Forced(company + Beside(b.members, n), w.key, w.value, w.at)
    ensures forall r :: r in RequiredNames(b.members) && r != n ==>
      r in Properties(b.members) && Valid(w.Sem(), Properties(b.members)[r], Along(w.Sem(), b.members)[r])
  {
    hide Valid, InFragment, Forces, JsonEqual;
    forall r | r in RequiredNames(b.members) && r != n
      ensures r in Properties(b.members) && Valid(w.Sem(), Properties(b.members)[r], Along(w.Sem(), b.members)[r])
    {
      PropertyInFragment(b, r);
      assert Properties(b.members)[r] in Beside(b.members, n);
      CompanionExists(w, Properties(b.members)[r]);
    }
  }

  lemma CompanyGrows(b: Json, company: set<Json>, n: string)
    requires b.Obj? && InFragment(b) && IsObjectNode(b.members) && TakesObjects(b) && IsCompany(company)
    ensures IsCompany(company + Beside(b.members, n))
  {
    hide InFragment;
    forall r | r in RequiredNames(b.members) && r in Properties(b.members) { PropertyInFragment(b, r); }
  }

  lemma LessCompany(company: set<Json>, more: set<Json>, k: string, v: Json, x: Json)
    requires !Forced(company + more, k, v, x)
    ensures !Forced(company, k, v, x)
  {
    hide Forces;
  }

  /** Where the condition fails, an instance of `b` is none of `s`. */
  lemma {:induction false} Separate(b: Json, s: Json, company: set<Json>, on: set<Pin>, off: set<Pin>)
    returns (w: Refusal, y: Json)
    requires b.Obj? && InFragment(b) && IsCompany(company) && on !! off && !Within(b, s, company, on, off)
    ensures w.Fits(company, on, off) && w.Separates(b, s, y)
    decreases b, 2
  {
    hide InFragment, Valid, OwnWithin, ObjectsWithin, TakesObjects, Forced, EnumAccepts;
    if !s.Obj? {
      w, y := Plain(on), SomeValue(b);
      NothingForcesLists(company, w.key, w.value);
      ValuesAreAccepted(b, y);
      EscapingIsValid(w, b, y);
      NonSchemaRefuses(w.Sem(), s, y);
    } else if !OwnWithin(b.members, s.members, company) {
      w, y := OwnSeparates(b, s, company, on, off);
    } else {
      w, y := SeparateObjects(b, s, company, on, off);
    }
  }

  lemma {:induction false} SeparateObjects(b: Json, s: Json, company: set<Json>, on: set<Pin>, off: set<Pin>)
    returns (w: Refusal, y: Json)
    requires b.Obj? && InFragment(b) && IsCompany(company) && on !! off && s.Obj?
    requires TakesObjects(b) && !ObjectsWithin(b, s.members, company, on, off)
    ensures w.Fits(company, on, off) && w.Separates(b, s, y)
    decreases b, 1
  {
    hide InFragment, Valid, NameWithin, Forced, TakesAllObjects, IsCompany;
    var m := s.members;
    if !IsObjectNode(b.members) {
      w, y := RefusesSomeObject(s, on, off);
      CompanyForcesNoLists(company, w.key, w.value);
      LeafTakesObject(w, b, y);
    } else if q :| q in RequiredNames(m) && q !in RequiredNames(b.members) {
      w := Plain(on);
      CompanyGrows(b, company, q);
      CompanyForcesNoLists(company + Beside(b.members, q), w.key, w.value);
      LessCompany(company, Beside(b.members, q), w.key, w.value, w.at);
      BesideIsInhabited(w, b, company, q);
      y := Obj(Along(w.Sem(), b.members));
      ObjectOfInstances(w, b, y);
      MissingIsRejected(w.Sem(), s, y, q);
    } else {
      var n :| n in Properties(b.members) && !NameWithin(b, n, m, company + Beside(b.members, n), on, off);
      CompanyGrows(b, company, n);
      var x: Json;
      w, x := SeparateName(b, n, s, company + Beside(b.members, n), on, off);
      LessCompany(company, Beside(b.members, n), w.key, w.value, w.at);
      BesideIsInhabited(w, b, company, n);
      y := Obj(Along(w.Sem(), b.members)[n := x]);
      assert Carries(y, n, x);
      ObjectOfInstances(w, b, y);
    }
  }

  lemma CompanyForcesNoLists(company: set<Json>, k: string, v: Json)
    requires IsCompany(company)
    ensures !Forced(company, k, v, Arr([]))
  {
    NothingForcesLists(company, k, v);
  }

  predicate Carries(i: Json, n: string, x: Json) { i.Obj? && n in i.members && i.members[n] == x }

  /** A value of one name that a schema applying to it refuses, in whatever object it stands. */
  lemma {:induction false} SeparateName(b: Json, n: string, s: Json, company: set<Json>, on: set<Pin>, off: set<Pin>)
    returns (w: Refusal, x: Json)
    requires b.Obj? && InFragment(b) && IsObjectNode(b.members) && n in Properties(b.members) && s.Obj?
    requires IsCompany(company) && on !! off && !NameWithin(b, n, s.members, company, on, off)
    ensures w.Fits(company, on, off) && Valid(w.Sem(), Properties(b.members)[n], x)
    ensures forall i :: Carries(i, n, x) ==> !Valid(w.Sem(), s, i)
    decreases b, 0
  {
    hide InFragment, Valid, Within, Forced, IsCompany;
    PropertyInFragment(b, n);
    PropertyIsObject(b, n);
    var p, m := Properties(b.members)[n], s.members;
    if n in Properties(m) && !Within(p, Properties(m)[n], company, on, off) {
      w, x := Separate(p, Properties(m)[n], company, on, off);
      forall i | Carries(i, n, x) ensures !Valid(w.Sem(), s, i) {
        NamedIsRejected(w, s, i, n);
      }
    } else if r :| r in Patterns(m) && (r, n) !in off && !Within(p, Patterns(m)[r], company, on + {(r, n)}, off) {
      w, x := Separate(p, Patterns(m)[r], company, on + {(r, n)}, off);
      forall i | Carries(i, n, x) ensures !Valid(w.Sem(), s, i) {
        MatchedIsRejected(w, s, i, r, n);
      }
    } else {
      w, x := Separate(p, m["additionalProperties"], company, on, off + PinsOf(m, n));
      forall i | Carries(i, n, x) ensures !Valid(w.Sem(), s, i) {
        AdditionalIsRejected(w, s, i, n);
      }
    }
  }

  // ---------------------------------------------------------------- exactly

  /**
   * A schema of the fragment is contained in any other document, under every semantics, if and only if
   * the condition holds.
   */
  lemma ContainsExactly(b: Json, s: Json)
    requires InFragment(b)
    ensures Contains(b, s) <==> Within(b, s, {}, {}, {})
  {
    hide Within, InFragment, Valid, ReadsNumbersByValue;
    if Within(b, s, {}, {}, {}) {
      forall sem, i | ReadsNumbersByValue(sem) && Valid(sem, b, i) ensures Valid(sem, s, i) {
        WithinIsAccepted(sem, b, s, {}, {}, {}, i);
      }
    } else {
      InFragmentIsObject(b);
      var w, y := Separate(b, s, {}, {}, {});
      ReadsByValue(w);
      assert ReadsNumbersByValue(w.Sem()) && Valid(w.Sem(), b, y);
    }
  }

  lemma InFragmentIsObject(b: Json)
    requires InFragment(b)
    ensures b.Obj?
  {
  }

  // ---------------------------------------------------------------- revisions that pass the check

  /**
   * What is left of the condition for a revision that passes the check: for each old property that an
   * instance can have, keywords flipped between boolean and number, `patternProperties`, and object
   * keywords gained by a property without any.
   */
  ghost predicate UncheckedWithin(b: Json, h: Json, company: set<Json>, on: set<Pin>, off: set<Pin>)
    requires InFragment(b)
    decreases b, 2
  {
    Inhabited(b) && h.Obj? ==>
      && (forall k :: k in b.members && HasVerdict(k) && k in h.members ==>
            KeywordWithin(b.members, k, h.members[k], company))
      && (TakesObjects(b) ==> UncheckedObjects(b, h.members, company, on, off))
  }

  ghost predicate UncheckedObjects(b: Json, m: Members, company: set<Json>, on: set<Pin>, off: set<Pin>)
    requires InFragment(b)
    decreases b, 1
  {
    if IsObjectNode(b.members) then
      forall n :: n in Properties(b.members) && n in Properties(m) ==>
        UncheckedName(b, n, m, company + Beside(b.members, n), on, off)
    else TakesAllObjects(Obj(m))
  }

  ghost predicate UncheckedName(b: Json, n: string, m: Members, company: set<Json>, on: set<Pin>, off: set<Pin>)
    requires InFragment(b) && IsObjectNode(b.members) && n in Properties(b.members) && n in Properties(m)
    decreases b, 0
  {
    var p := Properties(b.members)[n];
    && UncheckedWithin(p, Properties(m)[n], company, on, off)
    && forall r :: r in Patterns(m) && (r, n) !in off ==> Within(p, Patterns(m)[r], company, on + {(r, n)}, off)
  }

  lemma {:induction false} KeptLeavesUnchecked(b: Json, h: Json, company: set<Json>, on: set<Pin>, off: set<Pin>)
    requires InFragment(b) && h.Obj? && KeptTree(b, h) && PropertyKept(b, h)
    ensures Within(b, h, company, on, off) <==> UncheckedWithin(b, h, company, on, off)
    decreases b, 2
  {
    hide InFragment, KeptTree, PropertyKept, ObjectsWithin, UncheckedObjects, OwnWithin, KeywordWithin;
    InFragmentIsObject(b);
    KeptEnumIsWithin(b, h);
    CoreIsShared(b, h);
    assert OwnWithin(b.members, h.members, company) <==>
      forall k :: k in b.members && HasVerdict(k) && k in h.members ==>
        KeywordWithin(b.members, k, h.members[k], company)
    by { OwnIsCore(b.members, h.members, company); }
    KeptLeavesObjects(b, h, company, on, off);
  }

  lemma OwnIsCore(b: Members, h: Members, company: set<Json>)
    requires EnumWithin(b, h) && forall k :: HasVerdict(k) ==> (k in b <==> k in h)
    ensures OwnWithin(b, h, company) <==>
      forall k :: k in b && HasVerdict(k) && k in h ==> KeywordWithin(b, k, h[k], company)
  {
    hide EnumWithin, KeywordWithin;
  }

  lemma CoreIsShared(b: Json, h: Json)
    requires InFragment(b) && h.Obj? && PropertyKept(b, h)
    ensures forall k :: HasVerdict(k) ==> (k in b.members <==> k in h.members)
  {
    SameCore(b.members, h.members);
  }

  lemma KeptEnumIsWithin(b: Json, h: Json)
    requires InFragment(b) && h.Obj? && PropertyKept(b, h)
    ensures EnumWithin(b.members, h.members)
  {
    hide JsonEqual, IsScalarList;
    if EnumValues(b.members).Some? {
      forall v | v in EnumValues(b.members).value ensures Listed(EnumValues(h.members).value, v) {
        EqualToItself(v);
        assert v in EnumValues(h.members).value;
      }
    }
  }

  lemma {:induction false} KeptLeavesObjects(b: Json, h: Json, company: set<Json>, on: set<Pin>, off: set<Pin>)
    requires InFragment(b) && h.Obj? && KeptTree(b, h)
    ensures ObjectsWithin(b, h.members, company, on, off) <==> UncheckedObjects(b, h.members, company, on, off)
    decreases b, 1
  {
    hide NodeKept, NameWithin, UncheckedName, TakesAllObjects;
    InFragmentIsObject(b);
    if IsObjectNode(b.members) {
      var m := h.members;
      assert RequiredNames(m) <= RequiredNames(b.members) by { KeptRequires(b.members, m); }
      forall n | n in Properties(b.members)
        ensures n in Properties(m)
        ensures NameWithin(b, n, m, company + Beside(b.members, n), on, off)
           <==> UncheckedName(b, n, m, company + Beside(b.members, n), on, off)
      {
        KeptHasProperty(b.members, m, n);
        PropertyInFragment(b, n);
        PropertyIsObject(b, n);
        KeptDictionary(Properties(b.members)[n], Properties(m)[n]);
        KeptLeavesUnchecked(Properties(b.members)[n], Properties(m)[n], company + Beside(b.members, n), on, off);
        DeclaredName(b, n, m, company + Beside(b.members, n), on, off);
      }
    }
  }

  lemma KeptRequires(b: Members, m: Members)
    requires NodeKept(b, m)
    ensures RequiredNames(m) <= RequiredNames(b)
  {
  }

  lemma DeclaredName(b: Json, n: string, m: Members, company: set<Json>, on: set<Pin>, off: set<Pin>)
    requires InFragment(b) && IsObjectNode(b.members) && n in Properties(b.members) && n in Properties(m)
    requires Within(Properties(b.members)[n], Properties(m)[n], company, on, off)
        <==> UncheckedWithin(Properties(b.members)[n], Properties(m)[n], company, on, off)
    ensures NameWithin(b, n, m, company, on, off) <==> UncheckedName(b, n, m, company, on, off)
  {
    hide InFragment, Within, UncheckedWithin;
  }

  /** The condition on a revision that passes the check: the root's own keywords, and the unchecked ones below. */
  ghost predicate RevisionWithin(base: Json, head: Json)
    requires InFragment(base) && head.Obj?
  {
    Inhabited(base) ==>
      && OwnWithin(base.members, head.members, {})
      && (TakesObjects(base) ==> UncheckedObjects(base, head.members, {}, {}, {}))
  }

  /**
   * The guarantee. A revision that passes the check accepts every old instance, under every semantics,
   * if and only if the root's own keywords and the unchecked keywords below it let them through; so it
   * does whenever the former are kept and the latter undisturbed.
   */
  lemma OldInstancesStayValid(base: Json, head: Json)
    requires NonEmptyKeys(base) && NonEmptyKeys(head) && InFragment(base) && head.Obj?
    requires SchemaChanges(base, head) == []
    ensures Contains(base, head) <==> RevisionWithin(base, head)
    ensures PropertyKept(base, head) && Undisturbed(base, head) ==> RevisionWithin(base, head)
  {
    hide SchemaChanges, KeptTree, InFragment, Within, RevisionWithin, Undisturbed, PropertyKept, Valid, NonEmptyKeys;
    hide ReadsNumbersByValue;
    InFragmentIsObject(base);
    FlatCheckIsTreeCheck(base, head);
    ContainsExactly(base, head);
    RootIsWithin(base, head);
    if PropertyKept(base, head) && Undisturbed(base, head) {
      forall sem, i | ReadsNumbersByValue(sem) && Valid(sem, base, i) ensures Valid(sem, head, i) {
        UndisturbedStaysValid(sem, base, head, i);
      }
    }
  }

  lemma RootIsWithin(base: Json, head: Json)
    requires InFragment(base) && head.Obj? && KeptTree(base, head)
    ensures Within(base, head, {}, {}, {}) <==> RevisionWithin(base, head)
  {
    hide InFragment, KeptTree, OwnWithin, ObjectsWithin, UncheckedObjects, TakesObjects;
    KeptLeavesObjects(base, head, {}, {}, {});
  }
}
