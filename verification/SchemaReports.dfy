/** What the compatibility check reports, told by the documents alone: every keyword by its name. */
module SchemaReports {
  import opened Ordering
  import opened Json
  import opened JsonPointer
  import opened SchemaNodes
  import opened SchemaCompat
  import opened SchemaTree

  // ---------------------------------------------------------------- equality

  /** The number that a boolean or a number is to Python. */
  function NumberOf(v: Json): Option<real> {
    match v
    case Bool(flag) => Some(if flag then 1.0 else 0.0)
    case Int(n) => Some(n as real)
    case Float(x) => Some(x)
    case _ => None
  }

  /** A keyword that only documents or identifies. */
  predicate Documents(k: string) {
    k in {"$comment", "$id", "$schema", "deprecated", "description", "examples", "readOnly", "title", "writeOnly"}
  }

  /** Equal to Python, apart from documenting keys at any depth. */
  ghost predicate Alike(a: Json, b: Json)
    decreases a
  {
    match (a, b)
    case (Obj(m), Obj(o)) =>
      forall k :: !Documents(k) ==> (k in m <==> k in o) && (k in m && k in o ==> Alike(m[k], o[k]))
    case (Arr(x), Arr(y)) => |x| == |y| && forall i :: 0 <= i < |x| && i < |y| ==> Alike(x[i], y[i])
    case _ => if NumberOf(a).Some? then NumberOf(a) == NumberOf(b) else a == b && IsScalar(a)
  }

  lemma {:induction false} AlikeIsEqual(a: Json, b: Json)
    ensures PyEqual(WithoutAnnotations(a), WithoutAnnotations(b)) <==> Alike(a, b)
    decreases a
  {
    hide PyEqual, WithoutAnnotations, Alike;
    if a.Obj? && b.Obj? {
      forall k | k in a.members && k in b.members
        ensures PyEqual(WithoutAnnotations(a.members[k]), WithoutAnnotations(b.members[k])) <==>
          Alike(a.members[k], b.members[k])
      {
        AlikeIsEqual(a.members[k], b.members[k]);
      }
      ObjectsFollow(a, b);
    } else if a.Arr? && b.Arr? {
      forall i | 0 <= i < |a.items| && i < |b.items|
        ensures PyEqual(WithoutAnnotations(a.items[i]), WithoutAnnotations(b.items[i])) <==>
          Alike(a.items[i], b.items[i])
      {
        AlikeIsEqual(a.items[i], b.items[i]);
      }
      ListsFollow(a, b);
    } else {
      ScalarsAreEqual(a, b);
    }
  }

  lemma Plain(a: Json)
    ensures a.Obj? ==>
      && WithoutAnnotations(a).Obj?
      && (forall k :: k in WithoutAnnotations(a).members <==> k in a.members && !Documents(k))
      && forall k :: k in WithoutAnnotations(a).members ==>
           WithoutAnnotations(a).members[k] == WithoutAnnotations(a.members[k])
    ensures a.Arr? ==>
      && WithoutAnnotations(a).Arr? && |WithoutAnnotations(a).items| == |a.items|
      && forall i :: 0 <= i < |a.items| ==> WithoutAnnotations(a).items[i] == WithoutAnnotations(a.items[i])
  {
  }

  lemma AlikeObjects(a: Json, b: Json)
    requires a.Obj? && b.Obj?
    ensures Alike(a, b) <==> forall k :: !Documents(k) ==>
      (k in a.members <==> k in b.members)
      && (k in a.members && k in b.members ==> Alike(a.members[k], b.members[k]))
  {
  }

  lemma AlikeLists(a: Json, b: Json)
    requires a.Arr? && b.Arr?
    ensures Alike(a, b) <==>
      |a.items| == |b.items| && forall i :: 0 <= i < |a.items| && i < |b.items| ==> Alike(a.items[i], b.items[i])
  {
  }

  lemma ObjectsFollow(a: Json, b: Json)
    requires a.Obj? && b.Obj?
    requires forall k :: k in a.members && k in b.members ==>
      (PyEqual(WithoutAnnotations(a.members[k]), WithoutAnnotations(b.members[k])) <==>
        Alike(a.members[k], b.members[k]))
    ensures PyEqual(WithoutAnnotations(a), WithoutAnnotations(b)) <==> Alike(a, b)
  {
    hide PyEqual, WithoutAnnotations, Alike, Documents;
    Plain(a);
    Plain(b);
    AlikeObjects(a, b);
    ObjectsAreEqual(WithoutAnnotations(a), WithoutAnnotations(b));
    var m, o := WithoutAnnotations(a).members, WithoutAnnotations(b).members;
    assert m.Keys == o.Keys <==> forall k :: !Documents(k) ==> (k in a.members <==> k in b.members);
  }

  lemma ListsFollow(a: Json, b: Json)
    requires a.Arr? && b.Arr?
    requires forall i :: 0 <= i < |a.items| && i < |b.items| ==>
      (PyEqual(WithoutAnnotations(a.items[i]), WithoutAnnotations(b.items[i])) <==> Alike(a.items[i], b.items[i]))
    ensures PyEqual(WithoutAnnotations(a), WithoutAnnotations(b)) <==> Alike(a, b)
  {
    hide PyEqual, WithoutAnnotations, Alike;
    Plain(a);
    Plain(b);
    AlikeLists(a, b);
    ListsAreEqual(WithoutAnnotations(a), WithoutAnnotations(b));
  }

  /** Elsewhere a number or a boolean equals what is the same number, and the rest only itself. */
  lemma ScalarsAreEqual(a: Json, b: Json)
    requires !(a.Obj? && b.Obj?) && !(a.Arr? && b.Arr?)
    ensures PyEqual(WithoutAnnotations(a), WithoutAnnotations(b)) <==> Alike(a, b)
    ensures PyEqual(a, b) <==> Alike(a, b)
  {
    assert a.Obj? ==> Normal(a).Obj? && Normal(WithoutAnnotations(a)).Obj?;
    assert b.Obj? ==> Normal(b).Obj? && Normal(WithoutAnnotations(b)).Obj?;
    assert a.Arr? ==> Normal(a).Arr? && Normal(WithoutAnnotations(a)).Arr?;
    assert b.Arr? ==> Normal(b).Arr? && Normal(WithoutAnnotations(b)).Arr?;
  }

  /** Python compares dictionaries key by key. */
  lemma ObjectsAreEqual(a: Json, b: Json)
    requires a.Obj? && b.Obj?
    ensures PyEqual(a, b) <==>
      a.members.Keys == b.members.Keys && forall k :: k in a.members ==> PyEqual(a.members[k], b.members[k])
  {
    var m, o := Normal(a).members, Normal(b).members;
    assert m.Keys == a.members.Keys && o.Keys == b.members.Keys;
    if m == o {
      forall k | k in a.members ensures PyEqual(a.members[k], b.members[k]) { assert m[k] == o[k]; }
    }
    if a.members.Keys == b.members.Keys && forall k :: k in a.members ==> PyEqual(a.members[k], b.members[k]) {
      assert m == o;
    }
  }

  /** And lists item by item. */
  lemma ListsAreEqual(a: Json, b: Json)
    requires a.Arr? && b.Arr?
    ensures PyEqual(a, b) <==>
      |a.items| == |b.items| && forall i :: 0 <= i < |a.items| ==> PyEqual(a.items[i], b.items[i])
  {
    var x, y := Normal(a).items, Normal(b).items;
    if x == y {
      forall i | 0 <= i < |a.items| ensures PyEqual(a.items[i], b.items[i]) { assert x[i] == y[i]; }
    }
    if |a.items| == |b.items| && forall i :: 0 <= i < |a.items| ==> PyEqual(a.items[i], b.items[i]) {
      assert x == y;
    }
  }

  // ---------------------------------------------------------------- one property, one node

  /** A keyword of a property that is compared as it stands. */
  predicate Compared(k: string) {
    !Documents(k) && k !in {"additionalProperties", "patternProperties", "properties", "required", "default", "enum"}
  }

  ghost predicate SameDefault(m: Members, o: Members) {
    if "default" in m && "default" in o then PyEqual(m["default"], o["default"])
    else "default" !in m && "default" !in o
  }

  predicate HasEnum(m: Members) { "enum" in m && m["enum"].Arr? }

  /** No value goes, and neither does the enumeration come or go. */
  ghost predicate EnumOnlyGrows(m: Members, o: Members) {
    && (HasEnum(m) <==> HasEnum(o))
    && (HasEnum(m) && HasEnum(o) ==> forall v :: v in m["enum"].items ==> v in o["enum"].items)
  }

  ghost predicate ComparedAlike(m: Members, o: Members) {
    forall k :: Compared(k) ==> (k in m <==> k in o) && (k in m && k in o ==> Alike(m[k], o[k]))
  }

  ghost predicate PropertyStays(base: Json, head: Json) {
    if base.Obj? && head.Obj? then
      && SameDefault(base.members, head.members)
      && EnumOnlyGrows(base.members, head.members)
      && ComparedAlike(base.members, head.members)
    else Alike(base, head)
  }

  /** A property is passed over exactly when its default, enumeration and compared keywords stay in this sense. */
  lemma PropertyIsPassed(pointer: string, base: Json, head: Json)
    ensures PropertyChanges(pointer, base, head) == [] <==> PropertyStays(base, head)
  {
    hide Alike, PyEqual, WithoutAnnotations, PropertyCore;
    NoPropertyChanges(pointer, base, head);
    if base.Obj? && head.Obj? {
      CoresAreAlike(base.members, head.members);
      DefaultsAreEqual(base.members, head.members);
    } else {
      AlikeIsEqual(base, head);
    }
  }

  lemma DefaultsAreEqual(m: Members, o: Members)
    ensures DefaultOf(m) == DefaultOf(o) <==> SameDefault(m, o)
  {
  }

  lemma CoresAreAlike(m: Members, o: Members)
    ensures PyEqual(PropertyCore(m), PropertyCore(o)) <==> ComparedAlike(m, o)
  {
    hide Alike, PyEqual, WithoutAnnotations;
    ObjectsAreEqual(PropertyCore(m), PropertyCore(o));
    var c, d := PropertyCore(m).members, PropertyCore(o).members;
    forall k ensures (k in c <==> k in m && Compared(k)) && (k in d <==> k in o && Compared(k)) { CoreKeys(k); }
    assert c.Keys == d.Keys <==> forall k :: Compared(k) ==> (k in m <==> k in o);
    forall k | k in m && k in o
      ensures PyEqual(WithoutAnnotations(m[k]), WithoutAnnotations(o[k])) <==> Alike(m[k], o[k])
    {
      AlikeIsEqual(m[k], o[k]);
    }
  }

  lemma CoreKeys(k: string)
    ensures IsCoreKey(k) <==> Compared(k)
  {
  }

  predicate Names(m: Members, n: string) { "properties" in m && m["properties"].Obj? && n in m["properties"].members }

  predicate Requires(m: Members, n: string) { "required" in m && m["required"].Arr? && Str(n) in m["required"].items }

  predicate Closes(m: Members) { "additionalProperties" in m && m["additionalProperties"] == Bool(false) }

  /** A dictionary is looked at as an object schema when one of four keys is in it. */
  predicate IsLookedAt(m: Members) {
    "additionalProperties" in m || "patternProperties" in m || "properties" in m || "required" in m
  }

  lemma LookedAt(m: Members)
    ensures IsObjectNode(m) <==> IsLookedAt(m)
  {
    if IsObjectNode(m) { var k :| k in m.Keys * CHILD_KEYS; }
    if IsLookedAt(m) {
      assert "additionalProperties" in m || "patternProperties" in m || "properties" in m || "required" in m;
      var k :| k in m && k in {"additionalProperties", "patternProperties", "properties", "required"};
      assert k in m.Keys * CHILD_KEYS;
    }
  }

  ghost predicate NodeStays(m: Members, o: Members) {
    && (forall n :: Names(m, n) ==>
          Names(o, n) && PropertyStays(m["properties"].members[n], o["properties"].members[n]))
    && (forall n :: Requires(o, n) ==> Requires(m, n))
    && (Closes(o) ==> Closes(m))
  }

  lemma NodeIsPassed(pointer: string, m: Members, o: Members)
    ensures NodeChanges(pointer, m, o) == [] <==> NodeStays(m, o)
  {
    hide PropertyStays, PropertyKept, PropertyChanges, NodeChanges;
    NoNodeChanges(pointer, m, o);
    forall n | n in Properties(m) && n in Properties(o)
      ensures PropertyKept(Properties(m)[n], Properties(o)[n]) <==> PropertyStays(Properties(m)[n], Properties(o)[n])
    {
      NoPropertyChanges("", Properties(m)[n], Properties(o)[n]);
      PropertyIsPassed("", Properties(m)[n], Properties(o)[n]);
    }
    RequiredNamesAreListed(m);
    RequiredNamesAreListed(o);
    assert forall n :: Names(m, n) <==> n in Properties(m);
    assert forall n :: Names(o, n) <==> n in Properties(o);
  }

  lemma RequiredNamesAreListed(m: Members)
    ensures forall n :: n in RequiredNames(m) <==> Requires(m, n)
  {
    forall n ensures n in RequiredNames(m) <==> Requires(m, n) {
      if Requires(m, n) { assert Str(n).text in RequiredNames(m); }
    }
  }

  /** Where a walk through dictionaries and the dictionaries in lists comes to an object schema. */
  ghost predicate SchemaAt(v: Json, parts: seq<string>, m: Members) {
    Walk(v, parts) == Some(Obj(m)) && IsLookedAt(m)
  }

  /**
   * The check in these terms: it is silent exactly when every object schema of the old document has
   * one at the same place of the new one, in which its properties, required names and closedness stay.
   */
  lemma CheckIsSilent(base: Json, head: Json)
    requires NonEmptyKeys(base) && NonEmptyKeys(head)
    ensures SchemaChanges(base, head) == [] <==>
      forall parts, m :: SchemaAt(base, parts, m) ==> exists o :: SchemaAt(head, parts, o) && NodeStays(m, o)
  {
    hide NodeStays, NodeKept, SchemaChanges, Compatible, Walk, NonEmptyKeys, IsLookedAt, IsObjectNode;
    NoChangesMeansCompatible(base, head);
    PointersArePositionsKept(base, head);
    forall m, o ensures NodeKept(m, o) <==> NodeStays(m, o) { NodeIsPassed("", m, o); NoNodeChanges("", m, o); }
    forall m ensures IsObjectNode(m) <==> IsLookedAt(m) { LookedAt(m); }
    forall v, parts, m ensures SchemaAt(v, parts, m) <==> NodeAt(v, parts) == Some(m) { }
    if PositionsKept(base, head) {
      forall parts, m | SchemaAt(base, parts, m) ensures exists o :: SchemaAt(head, parts, o) && NodeStays(m, o) {
        assert NodeAt(base, parts) == Some(m);
        assert SchemaAt(head, parts, NodeAt(head, parts).value);
      }
    }
    if forall parts, m :: SchemaAt(base, parts, m) ==> exists o :: SchemaAt(head, parts, o) && NodeStays(m, o) {
      forall parts | NodeAt(base, parts).Some?
        ensures NodeAt(head, parts).Some? && NodeKept(NodeAt(base, parts).value, NodeAt(head, parts).value)
      {
        assert SchemaAt(base, parts, NodeAt(base, parts).value);
        var o :| SchemaAt(head, parts, o) && NodeStays(NodeAt(base, parts).value, o);
        assert NodeAt(head, parts) == Some(o);
      }
    }
  }

  // ---------------------------------------------------------------- documents with one object schema

  /** Neither a dictionary here nor one that the walk comes to is looked at. */
  ghost predicate Bare(v: Json)
    decreases v
  {
    v.Obj? ==>
      && !IsLookedAt(v.members)
      && forall k :: k in v.members ==> BareBelow(v.members[k])
  }

  ghost predicate BareBelow(w: Json)
    decreases w
  {
    match w
    case Obj(m) => !IsLookedAt(m) && forall k :: k in m ==> BareBelow(m[k])
    case Arr(items) => forall i :: 0 <= i < |items| && items[i].Obj? ==> BareBelow(items[i])
    case _ => true
  }

  ghost predicate RootOnly(v: Json) {
    v.Obj? && IsLookedAt(v.members) && forall k :: k in v.members ==> BareBelow(v.members[k])
  }

  lemma {:induction false} BareHasNoNode(v: Json, parts: seq<string>)
    requires BareBelow(v) && v.Obj?
    ensures NodeAt(v, parts).None?
    decreases v
  {
    LookedAt(v.members);
    if parts != [] && Walk(v, parts).Some? {
      var w := v.members[parts[0]];
      if w.Obj? {
        BareHasNoNode(w, parts[1..]);
      } else {
        BareHasNoNode(w.items[ToNat(parts[1])], parts[2..]);
      }
    }
  }

  lemma RootIsTheNode(v: Json, parts: seq<string>)
    requires RootOnly(v)
    ensures NodeAt(v, parts) == if parts == [] then Some(v.members) else None
  {
    LookedAt(v.members);
    if parts != [] && Walk(v, parts).Some? {
      var w := v.members[parts[0]];
      if w.Obj? {
        BareHasNoNode(w, parts[1..]);
      } else {
        BareHasNoNode(w.items[ToNat(parts[1])], parts[2..]);
      }
    }
  }

  lemma OneNode(v: Json)
    requires RootOnly(v)
    ensures ObjectNodes(v, "") == map["" := v.members]
  {
    hide ObjectNodes, NodeAt, RootOnly, Emitted;
    RootIsObject(v);
    assert Emitted([]) == "" by { EmittedRoot(); }
    forall p ensures p in ObjectNodes(v, "") <==> p == "" {
      NodesAreEmitted(v, p);
      RootIsTheNode(v, []);
      if p in ObjectNodes(v, "") {
        var parts :| NodeAt(v, parts) == Some(ObjectNodes(v, "")[p]) && p == Emitted(parts);
        RootIsTheNode(v, parts);
      }
    }
    NodesAreEmitted(v, "");
    var parts :| NodeAt(v, parts) == Some(ObjectNodes(v, "")[""]) && "" == Emitted(parts);
    RootIsTheNode(v, parts);
  }

  lemma RootIsObject(v: Json)
    requires RootOnly(v)
    ensures v.Obj?
  {
  }

  lemma EmittedRoot()
    ensures Emitted([]) == ""
  {
  }

  /** Then the changes are those of the roots. */
  lemma ChangesOfRoots(base: Json, head: Json)
    requires RootOnly(base) && RootOnly(head)
    ensures SchemaChanges(base, head) == NodeChanges("", base.members, head.members)
  {
    hide ObjectNodes, RootOnly, NodeChanges, SortedNames;
    RootIsObject(base);
    RootIsObject(head);
    OneNode(base);
    OneNode(head);
    OneName("");
    var nodes := ObjectNodes(base, "");
    assert nodes.Keys == {""};
    assert [""][..0] == [];
    assert ChangesOver([], nodes, ObjectNodes(head, "")) == [];
    assert ChangesOver([""], nodes, ObjectNodes(head, "")) == ChangesAt("", base.members, ObjectNodes(head, ""));
  }

  /** The four groups of changes at the root, with their names sorted. */
  lemma ChangesAtRoot(base: Json, head: Json, gone: seq<string>, both: seq<string>, demanded: seq<string>)
    requires RootOnly(base) && RootOnly(head) && base.Obj? && head.Obj?
    requires gone == SortedNames(Properties(base.members).Keys - Properties(head.members).Keys)
    requires both == SortedNames(Properties(base.members).Keys * Properties(head.members).Keys)
    requires demanded == SortedNames(RequiredNames(head.members) - RequiredNames(base.members))
    ensures SchemaChanges(base, head) ==
      RemovedChanges("", gone) + KeptChanges("", both, Properties(base.members), Properties(head.members))
      + RequiredChanges("", demanded)
      + (if !IsClosed(base.members) && IsClosed(head.members) then [Tightened("")] else [])
  {
    hide RootOnly, SchemaChanges, SortedNames, RemovedChanges, KeptChanges, RequiredChanges, IsClosed;
    ChangesOfRoots(base, head);
  }

  lemma OneName(n: string)
    ensures SortedNames({n}) == [n] && SortedNames({}) == []
  {
    assert |SortedNames({n})| == 1 && n in SortedNames({n});
  }

  // ---------------------------------------------------------------- pointers in reports

  lemma {:induction false} EscapePlain(s: string)
    requires '~' !in s && '/' !in s
    ensures Escape(s) == s
  {
    if s != "" {
      EscapeStep(s);
      EscapePlain(s[1..]);
      assert s == [s[0]] + s[1..];
    }
  }

  /** A report on a property or a required name of the root points to it. */
  lemma PointsTo(key: string, n: string)
    requires key != "" && n != "" && '~' !in key && '/' !in key
    ensures JsonPath("", [key, n]) == key + "/" + Escape(n)
  {
    hide Escape, JsonPath;
    EscapePlain(key);
    TwoParts("", key, n);
  }

  // ---------------------------------------------------------------- what is reported

  /** A closed object schema with one property. */
  function OneProperty(n: string, p: Json): Json {
    Obj(map["additionalProperties" := Bool(false), "properties" := Obj(map[n := p])])
  }

  lemma OnePropertyIsRootOnly(n: string, p: Json)
    requires n !in {"additionalProperties", "patternProperties", "properties", "required"} && BareBelow(p)
    ensures RootOnly(OneProperty(n, p))
  {
    var m := OneProperty(n, p).members;
    assert BareBelow(m["properties"]);
    assert BareBelow(m["additionalProperties"]);
  }

  /** One property altered, with no object schema in it: the report is that on the property, at its pointer. */
  lemma AlteredProperty(n: string, p: Json, q: Json)
    requires n != "" && n !in {"additionalProperties", "patternProperties", "properties", "required"}
    requires BareBelow(p) && BareBelow(q)
    ensures SchemaChanges(OneProperty(n, p), OneProperty(n, q)) == PropertyChanges("properties" + "/" + Escape(n), p, q)
  {
    hide RootOnly, PropertyChanges, JsonPath, SchemaChanges, SortedNames, BareBelow;
    OnePropertyIsRootOnly(n, p);
    OnePropertyIsRootOnly(n, q);
    var base, head := OneProperty(n, p), OneProperty(n, q);
    ChangesOfRoots(base, head);
    PointsTo("properties", n);
    OneName(n);
    var b, h := Properties(base.members), Properties(head.members);
    assert b.Keys == {n} == h.Keys;
    assert b.Keys - h.Keys == {} && b.Keys * h.Keys == {n};
    assert RequiredNames(head.members) - RequiredNames(base.members) == {};
    assert IsClosed(base.members);
    assert [n][..0] == [];
    assert KeptChanges("", [], b, h) == [];
    assert KeptChanges("", [n], b, h) == PropertyChanges("properties" + "/" + Escape(n), p, q);
  }

  lemma OneRemoved(n: string)
    requires n != ""
    ensures RemovedChanges("", [n]) == [PropertyRemoved("properties" + "/" + Escape(n))]
  {
    PointsTo("properties", n);
  }

  lemma OneRequired(n: string)
    requires n != ""
    ensures RequiredChanges("", [n]) == [NewlyRequired("required" + "/" + Escape(n))]
  {
    PointsTo("required", n);
  }

  lemma NoneLeft(b: Members, h: Members)
    ensures KeptChanges("", [], b, h) == [] == RemovedChanges("", []) == RequiredChanges("", [])
  {
  }

  /** The property is gone. */
  lemma RemovedProperty(n: string, p: Json)
    requires n != "" && n !in {"additionalProperties", "patternProperties", "properties", "required"} && BareBelow(p)
    ensures SchemaChanges(OneProperty(n, p), Closing(map[], [])) == [PropertyRemoved("properties" + "/" + Escape(n))]
  {
    hide RootOnly, JsonPath, SchemaChanges, SortedNames, BareBelow, PropertyChanges, Escape;
    hide RemovedChanges, KeptChanges, RequiredChanges;
    OnePropertyIsRootOnly(n, p);
    ClosingIsRootOnly([]);
    var base, head := OneProperty(n, p), Closing(map[], []);
    PointsTo("properties", n);
    OneName(n);
    var b, h := Properties(base.members), Properties(head.members);
    assert b.Keys - h.Keys == {n} && b.Keys * h.Keys == {};
    assert RequiredNames(head.members) - RequiredNames(base.members) == {};
    ChangesAtRoot(base, head, [n], [], []);
    OneRemoved(n);
    NoneLeft(b, h);
  }

  /** A closed object schema with properties and required names. */
  function Closing(properties: Members, names: seq<Json>): Json {
    Obj(map["additionalProperties" := Bool(false), "properties" := Obj(properties), "required" := Arr(names)])
  }

  lemma ClosingIsRootOnly(names: seq<Json>)
    requires forall x :: x in names ==> x.Str?
    ensures RootOnly(Closing(map[], names))
  {
    var m := Closing(map[], names).members;
    assert !IsLookedAt(map[]);
    assert BareBelow(m["properties"]);
    assert BareBelow(m["additionalProperties"]);
    forall i | 0 <= i < |names| ensures !names[i].Obj? { assert names[i] in names; }
    assert BareBelow(m["required"]);
  }

  /** A name is newly required; one that no longer is raises nothing. */
  lemma NewlyRequiredName(n: string)
    requires n != ""
    ensures SchemaChanges(Closing(map[], []), Closing(map[], [Str(n)])) == [NewlyRequired("required" + "/" + Escape(n))]
    ensures SchemaChanges(Closing(map[], [Str(n)]), Closing(map[], [])) == []
  {
    hide RootOnly, JsonPath, SchemaChanges, SortedNames, BareBelow, PropertyChanges, Escape;
    hide RemovedChanges, KeptChanges, RequiredChanges;
    ClosingIsRootOnly([]);
    ClosingIsRootOnly([Str(n)]);
    var with, without := Closing(map[], [Str(n)]), Closing(map[], []);
    PointsTo("required", n);
    OneName(n);
    assert Str(n) in with.members["required"].items;
    assert RequiredNames(with.members) == {n} && RequiredNames(without.members) == {};
    assert Properties(with.members) == map[] == Properties(without.members);
    assert {n} - {} == {n} && {} - {n} == {};
    ChangesAtRoot(without, with, [], [], [n]);
    ChangesAtRoot(with, without, [], [], []);
    OneRequired(n);
    NoneLeft(map[], map[]);
  }

  /** An object schema is closed; one that is opened raises nothing. */
  lemma ClosedObject(rest: Json)
    requires rest != Bool(false) && BareBelow(rest)
    ensures SchemaChanges(Obj(map["additionalProperties" := rest]), Obj(map["additionalProperties" := Bool(false)]))
      == [Tightened("")]
    ensures SchemaChanges(Obj(map["additionalProperties" := Bool(false)]), Obj(map["additionalProperties" := rest]))
      == []
  {
    hide JsonPath, SchemaChanges, SortedNames, PropertyChanges, NodeChanges;
    hide RemovedChanges, KeptChanges, RequiredChanges;
    var open, closed := Obj(map["additionalProperties" := rest]), Obj(map["additionalProperties" := Bool(false)]);
    OneName("");
    assert Properties(open.members) == map[] == Properties(closed.members);
    assert RequiredNames(open.members) == {} == RequiredNames(closed.members);
    assert RootOnly(open) && RootOnly(closed);
    hide RootOnly;
    ChangesAtRoot(open, closed, [], [], []);
    ChangesAtRoot(closed, open, [], [], []);
    NoneLeft(map[], map[]);
  }

  /** An object schema is reported as gone exactly when it was at a pointer that has none any more. */
  lemma LostObject(base: Json, head: Json, p: string)
    ensures ObjectRemoved(p) in SchemaChanges(base, head) <==> p in ObjectNodes(base, "") && p !in ObjectNodes(head, "")
  {
    hide ObjectNodes, ChangesOver, SortedNames;
    LostAmong(SortedNames(ObjectNodes(base, "").Keys), ObjectNodes(base, ""), ObjectNodes(head, ""), p);
  }

  lemma {:induction false} LostAmong(pointers: seq<string>, baseNodes: map<string, Members>,
                                     headNodes: map<string, Members>, p: string)
    requires forall q :: q in pointers ==> q in baseNodes
    ensures ObjectRemoved(p) in ChangesOver(pointers, baseNodes, headNodes) <==> p in pointers && p !in headNodes
  {
    hide ChangesAt;
    if pointers != [] {
      var last := pointers[|pointers| - 1];
      LostAmong(pointers[..|pointers| - 1], baseNodes, headNodes, p);
      LostAt(last, baseNodes[last], headNodes, p);
      assert pointers == pointers[..|pointers| - 1] + [last];
    }
  }

  lemma LostAt(q: string, m: Members, headNodes: map<string, Members>, p: string)
    ensures ObjectRemoved(p) in ChangesAt(q, m, headNodes) <==> p == q && q !in headNodes
  {
    hide KeptChanges, RemovedChanges, RequiredChanges, SortedNames;
    if q in headNodes {
      var o := headNodes[q];
      NoNameIsLost(q, SortedNames(Properties(m).Keys - Properties(o).Keys), p);
      NoNameIsLost(q, SortedNames(RequiredNames(o) - RequiredNames(m)), p);
      NoneKeptIsLost(q, SortedNames(Properties(m).Keys * Properties(o).Keys), Properties(m), Properties(o), p);
    }
  }

  lemma NoNameIsLost(q: string, names: seq<string>, p: string)
    ensures ObjectRemoved(p) !in RemovedChanges(q, names) && ObjectRemoved(p) !in RequiredChanges(q, names)
  {
    hide JsonPath;
  }

  lemma {:induction false} NoneKeptIsLost(q: string, names: seq<string>, b: Members, h: Members, p: string)
    requires forall k :: k in names ==> k in b && k in h
    ensures ObjectRemoved(p) !in KeptChanges(q, names, b, h)
  {
    hide JsonPath, PropertyChanges;
    if names != [] {
      var last := names[|names| - 1];
      NoneKeptIsLost(q, names[..|names| - 1], b, h, p);
      NoPropertyIsLost(JsonPath(q, ["properties", last]), b[last], h[last], p);
    }
  }

  lemma NoPropertyIsLost(pointer: string, b: Json, h: Json, p: string)
    ensures ObjectRemoved(p) !in PropertyChanges(pointer, b, h)
  {
    hide PyEqual, MissingValues, WithoutAnnotations, PropertyCore;
  }

  // ---------------------------------------------------------------- one keyword

  /** The pointer of a property of the root. */
  function At(n: string): string { "properties" + "/" + Escape(n) }

  lemma OneKeywordIsBare(k: string, v: Json)
    requires IsScalar(v) || (v.Arr? && forall x :: x in v.items ==> IsScalar(x))
    requires k !in {"additionalProperties", "patternProperties", "properties", "required"}
    ensures BareBelow(Obj(map[k := v])) && BareBelow(Obj(map[]))
  {
    if v.Arr? {
      forall i | 0 <= i < |v.items| ensures !v.items[i].Obj? { assert v.items[i] in v.items; }
    }
  }

  /** Enumerations that come, go or change: what is lost is named, in the old order. */
  lemma AlteredEnum(n: string, given: seq<Json>, now: seq<Json>)
    requires n != "" && n !in {"additionalProperties", "patternProperties", "properties", "required"}
    requires (forall x :: x in given ==> IsScalar(x)) && (forall x :: x in now ==> IsScalar(x))
    ensures SchemaChanges(OneProperty(n, Obj(map[])), OneProperty(n, Obj(map["enum" := Arr(now)])))
      == [EnumAdded(At(n))]
    ensures SchemaChanges(OneProperty(n, Obj(map["enum" := Arr(given)])), OneProperty(n, Obj(map[])))
      == [EnumRemoved(At(n))]
    ensures SchemaChanges(OneProperty(n, Obj(map["enum" := Arr(given)])), OneProperty(n, Obj(map["enum" := Arr(now)])))
      == if forall v :: v in given ==> v in now then [] else [EnumValuesRemoved(At(n), MissingValues(given, now))]
  {
    hide SchemaChanges, BareBelow, Escape, PyEqual;
    var none, was, later := Obj(map[]), Obj(map["enum" := Arr(given)]), Obj(map["enum" := Arr(now)]);
    OneKeywordIsBare("enum", was.members["enum"]);
    OneKeywordIsBare("enum", later.members["enum"]);
    AlteredProperty(n, none, later);
    AlteredProperty(n, was, none);
    AlteredProperty(n, was, later);
    assert PropertyCore(was.members) == Obj(map[]) == PropertyCore(later.members) == PropertyCore(none.members);
    SameIsEqual(Obj(map[]));
  }

  lemma SameIsEqual(v: Json)
    ensures PyEqual(v, v)
  {
  }

  /** The values lost are listed one after the other. */
  lemma {:induction false} LostInOrder(a: seq<Json>, b: seq<Json>, now: seq<Json>)
    ensures MissingValues(a + b, now) == MissingValues(a, now) + MissingValues(b, now)
  {
    hide MissingValues;
    if a == [] {
      assert a + b == b;
      NothingLost(now);
    } else {
      LostInOrder(a[1..], b, now);
      LostFirst(a[0], a[1..], now);
      LostFirst(a[0], a[1..] + b, now);
      assert a == [a[0]] + a[1..] && a + b == [a[0]] + (a[1..] + b);
      Regroup(if a[0] in now then [] else [a[0]], MissingValues(a[1..], now), MissingValues(b, now));
    }
  }

  lemma NothingLost(now: seq<Json>)
    ensures MissingValues([], now) == []
  {
  }

  lemma Regroup<T>(a: seq<T>, b: seq<T>, c: seq<T>)
    ensures a + (b + c) == a + b + c
  {
  }

  lemma LostFirst(v: Json, rest: seq<Json>, now: seq<Json>)
    ensures MissingValues([v] + rest, now) == (if v in now then [] else [v]) + MissingValues(rest, now)
  {
    assert ([v] + rest)[1..] == rest;
  }

  /**
   * One scalar keyword of one property is set to another value. It is reported if and only if the
   * keyword is none of the nine that document, the four that are looked at elsewhere, and `enum`, or
   * it closes the property's schema.
   */
  lemma AlteredKeyword(n: string, k: string, v: Json, w: Json)
    requires n != "" && n !in {"additionalProperties", "patternProperties", "properties", "required"} && k != ""
    requires IsScalar(v) && IsScalar(w) && !PyEqual(v, w)
    ensures SchemaChanges(OneProperty(n, Obj(map[k := v])), OneProperty(n, Obj(map[k := w]))) != [] <==>
      (|| k !in {"$comment", "$id", "$schema", "deprecated", "description", "examples", "readOnly", "title",
                 "writeOnly", "additionalProperties", "patternProperties", "properties", "required", "enum"}
       || (k == "additionalProperties" && w == Bool(false)))
  {
    hide SchemaChanges, BareBelow, Escape;
    var p, q := Obj(map[k := v]), Obj(map[k := w]);
    ScalarsAreEqual(v, w);
    if k in {"additionalProperties", "patternProperties", "properties", "required"} {
      AlteredNodeKeyword(n, k, v, w);
    } else {
      OneKeywordIsBare(k, v);
      OneKeywordIsBare(k, w);
      AlteredProperty(n, p, q);
      PropertyIsPassed("properties" + "/" + Escape(n), p, q);
      hide PropertyChanges;
      KeywordStays(k, v, w);
    }
  }

  lemma KeywordStays(k: string, v: Json, w: Json)
    requires IsScalar(v) && IsScalar(w) && !PyEqual(v, w) && !Alike(v, w)
    ensures PropertyStays(Obj(map[k := v]), Obj(map[k := w])) <==> !Compared(k) && k != "default"
  {
    hide PyEqual, Alike, Documents;
    var m, o: Members := map[k := v], map[k := w];
    assert ComparedAlike(m, o) <==> !Compared(k) by {
      if Compared(k) { assert !Alike(m[k], o[k]); }
    }
  }

  lemma AlteredNodeKeyword(n: string, k: string, v: Json, w: Json)
    requires n != "" && n !in {"additionalProperties", "patternProperties", "properties", "required"}
    requires k in {"additionalProperties", "patternProperties", "properties", "required"}
    requires IsScalar(v) && IsScalar(w) && !PyEqual(v, w)
    ensures SchemaChanges(OneProperty(n, Obj(map[k := v])), OneProperty(n, Obj(map[k := w]))) == [] <==>
      !(k == "additionalProperties" && w == Bool(false))
  {
    hide SchemaChanges, NonEmptyKeys, SchemaAt, NodeStays;
    var base, head := OneProperty(n, Obj(map[k := v])), OneProperty(n, Obj(map[k := w]));
    NoEmptyKeys(n, k, v);
    NoEmptyKeys(n, k, w);
    CheckIsSilent(base, head);
    SchemasInside(n, k, v);
    SchemasInside(n, k, w);
    RootStays(n, k, v, w);
    InnerStays(k, v, w);
    if !(k == "additionalProperties" && w == Bool(false)) {
      forall parts, m | SchemaAt(base, parts, m) ensures exists o :: SchemaAt(head, parts, o) && NodeStays(m, o) {
        if parts == [] {
          assert SchemaAt(head, parts, head.members);
        } else {
          assert SchemaAt(head, parts, map[k := w]);
        }
      }
    } else {
      assert SchemaAt(base, ["properties", n], map[k := v]);
      forall o | SchemaAt(head, ["properties", n], o) ensures !NodeStays(map[k := v], o) { }
    }
  }

  lemma NoEmptyKeys(n: string, k: string, v: Json)
    requires n != "" && k != "" && IsScalar(v)
    ensures NonEmptyKeys(OneProperty(n, Obj(map[k := v])))
  {
    assert NonEmptyKeys(Obj(map[k := v]));
    assert NonEmptyKeys(Obj(map[n := Obj(map[k := v])]));
  }

  lemma SchemasInside(n: string, k: string, v: Json)
    requires n !in {"additionalProperties", "patternProperties", "properties", "required"}
    requires k in {"additionalProperties", "patternProperties", "properties", "required"} && IsScalar(v)
    ensures var s := OneProperty(n, Obj(map[k := v])); forall parts, m ::
      SchemaAt(s, parts, m) <==>
        (parts == [] && m == s.members) || (parts == ["properties", n] && m == map[k := v])
  {
    var s, p := OneProperty(n, Obj(map[k := v])), Obj(map[k := v]);
    var dictionary := Obj(map[n := p]);
    assert IsLookedAt(s.members) && IsLookedAt(p.members) && !IsLookedAt(dictionary.members);
    forall parts, m ensures SchemaAt(s, parts, m) <==>
      (parts == [] && m == s.members) || (parts == ["properties", n] && m == map[k := v])
    {
      if parts != [] && parts[0] == "properties" {
        assert Walk(s, parts) == Walk(dictionary, parts[1..]);
        if |parts| > 1 && parts[1] == n {
          assert parts[1..][1..] == parts[2..];
          assert Walk(dictionary, parts[1..]) == Walk(p, parts[2..]);
          assert parts == ["properties", n] + parts[2..];
        }
      }
    }
  }

  lemma RootStays(n: string, k: string, v: Json, w: Json)
    requires k in {"additionalProperties", "patternProperties", "properties", "required"}
    ensures NodeStays(OneProperty(n, Obj(map[k := v])).members, OneProperty(n, Obj(map[k := w])).members)
  {
    var m, o := OneProperty(n, Obj(map[k := v])).members, OneProperty(n, Obj(map[k := w])).members;
    assert PropertyStays(Obj(map[k := v]), Obj(map[k := w]));
    assert forall x :: Names(m, x) <==> x == n;
  }

  lemma InnerStays(k: string, v: Json, w: Json)
    requires IsScalar(v) && IsScalar(w) && !PyEqual(v, w)
    ensures NodeStays(map[k := v], map[k := w]) <==> !(k == "additionalProperties" && w == Bool(false))
  {
    hide PropertyStays, PyEqual;
    SameIsEqual(v);
  }
}
