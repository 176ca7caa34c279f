/** Which additive revisions the compatibility check lets through. */
module SchemaEvolution {
  import opened Json
  import opened SchemaNodes
  import opened SchemaCompat
  import opened SchemaTree
  import opened SchemaSemantics

  /**
   * An additive revision: at every level the keywords, defaults and old properties stay, while
   * enumerations may grow, required names may be dropped and optional properties of any kind may be added.
   */
  ghost predicate Widens(base: Json, head: Json)
    decreases base
  {
    && base.Obj? && head.Obj? && PropertyKept(base, head)
    && (IsObjectNode(base.members) ==>
          && IsObjectNode(head.members)
          && RequiredNames(head.members) <= RequiredNames(base.members)
          && forall n :: n in Properties(base.members) ==>
               n in Properties(head.members) && Widens(Properties(base.members)[n], Properties(head.members)[n]))
  }

  /** Each keyword of the old dictionary is kept as if it were a property of its own. */
  ghost predicate KeywordsKept(base: Members, head: Members) {
    forall k :: k in base ==> k in head && PropertyKept(base[k], head[k])
  }

  /**
   * A property with the name of a child key makes the walk take the dictionary of properties for an
   * object schema. Its keywords are then the properties: one called "properties" must keep each of its
   * own keywords, and none called "additionalProperties" may be `false` or "required" a list of names.
   */
  ghost predicate DictionaryKept(base: Members, head: Members) {
    IsObjectNode(base) ==>
      && !IsClosed(head) && RequiredNames(head) == {}
      && ("properties" in base && base["properties"].Obj? && "properties" in head && head["properties"].Obj? ==>
            KeywordsKept(base["properties"].members, head["properties"].members))
  }

  ghost predicate DictionariesKept(base: Json, head: Json)
    decreases base
  {
    base.Obj? && head.Obj? && IsObjectNode(base.members) ==>
      && DictionaryKept(Properties(base.members), Properties(head.members))
      && forall n :: n in Properties(base.members) && n in Properties(head.members) ==>
           DictionariesKept(Properties(base.members)[n], Properties(head.members)[n])
  }

  /** What the dictionary of properties amounts to when it is read as an object schema. */
  lemma DictionaryAsNode(base: Members, head: Members)
    requires base.Keys <= head.Keys && IsObjectNode(base)
    requires forall n :: n in base ==> base[n].Obj? && head[n].Obj?
    ensures IsObjectNode(head)
    ensures NodeKept(base, head) <==> DictionaryKept(base, head)
  {
    hide PropertyKept;
    var k :| k in base.Keys * CHILD_KEYS;
    assert k in head.Keys * CHILD_KEYS;
    assert RequiredNames(base) == {} && !IsClosed(base);
    if "properties" in base {
      assert Properties(base) == base["properties"].members && Properties(head) == head["properties"].members;
    } else {
      assert Properties(base) == map[];
    }
  }

  lemma {:induction false} WideningTree(base: Json, head: Json)
    requires InFragment(base) && Widens(base, head)
    ensures KeptTree(base, head) <==> DictionariesKept(base, head)
    decreases base
  {
    hide PropertyKept;
    if IsObjectNode(base.members) {
      var b, h := Properties(base.members), Properties(head.members);
      forall n | n in b ensures KeptTree(b[n], h[n]) <==> DictionariesKept(b[n], h[n]) {
        assert InFragment(b[n]);
        WideningTree(b[n], h[n]);
      }
      forall n | n in b ensures PropertyKept(b[n], h[n]) { assert Widens(b[n], h[n]); }
      assert NodeKept(base.members, head.members);
      DictionaryReading(base, head);
    }
  }

  lemma DictionaryReading(base: Json, head: Json)
    requires InFragment(base) && Widens(base, head) && IsObjectNode(base.members)
    ensures var b, h := Properties(base.members), Properties(head.members);
      (IsObjectNode(b) ==> IsObjectNode(h) && NodeKept(b, h)) <==> DictionaryKept(b, h)
  {
    hide PropertyKept, NodeKept, KeywordsKept;
    var b, h := Properties(base.members), Properties(head.members);
    forall n | n in b ensures b[n].Obj? && n in h && h[n].Obj? {
      assert InFragment(b[n]) && Widens(b[n], h[n]);
    }
    if IsObjectNode(b) { DictionaryAsNode(b, h); }
  }

  /**
   * An additive revision passes exactly when every dictionary of properties that the walk takes for an
   * object schema is kept as one. So it always passes when no property is called "properties" and,
   * beside a property with the name of another child key, all properties are dictionaries.
   */
  lemma WideningPasses(base: Json, head: Json)
    requires NonEmptyKeys(base) && NonEmptyKeys(head) && InFragment(base) && Widens(base, head)
    ensures SchemaChanges(base, head) == [] <==> DictionariesKept(base, head)
    ensures NothingMistaken(base, head) ==> SchemaChanges(base, head) == []
  {
    hide SchemaChanges, KeptTree, InFragment, Widens, DictionariesKept, NothingMistaken;
    FlatCheckIsTreeCheck(base, head);
    WideningTree(base, head);
    if NothingMistaken(base, head) { MistakesOnly(base, head); }
  }

  /**
   * At each level either no property has the name of a child key, or none is called "properties" and
   * all are dictionaries.
   */
  ghost predicate NothingMistaken(base: Json, head: Json)
    decreases base
  {
    base.Obj? && head.Obj? && IsObjectNode(base.members) ==>
      && "properties" !in Properties(base.members)
      && (IsObjectNode(Properties(base.members)) ==>
            forall n :: n in Properties(head.members) ==> Properties(head.members)[n].Obj?)
      && forall n :: n in Properties(base.members) && n in Properties(head.members) ==>
           NothingMistaken(Properties(base.members)[n], Properties(head.members)[n])
  }

  lemma {:induction false} MistakesOnly(base: Json, head: Json)
    requires NothingMistaken(base, head)
    ensures DictionariesKept(base, head)
    decreases base
  {
    if base.Obj? && head.Obj? && IsObjectNode(base.members) {
      forall n | n in Properties(base.members) && n in Properties(head.members) {
        MistakesOnly(Properties(base.members)[n], Properties(head.members)[n]);
      }
    }
  }

  // ---------------------------------------------------------------- additive revisions that are reported

  /**
   * One more value in the enumeration of a property called "properties" is reported, although the same
   * change of any other property is not.
   */
  lemma WidenedShadowIsReported(base: Json, head: Json, s: Json, t: Json)
    requires NonEmptyKeys(base) && NonEmptyKeys(head) && InFragment(base) && Widens(base, head)
    requires IsObjectNode(base.members)
    requires "properties" in Properties(base.members) && s == Properties(base.members)["properties"]
    requires "properties" in Properties(head.members) && t == Properties(head.members)["properties"]
    requires s.Obj? && t.Obj? && "enum" in s.members && "enum" in t.members
    requires s.members["enum"].Arr? && t.members["enum"].Arr?
    requires |t.members["enum"].items| > |s.members["enum"].items|
    ensures SchemaChanges(base, head) != []
  {
    hide SchemaChanges, InFragment, PropertyKept, NonEmptyKeys;
    LongerListIsChanged(s.members["enum"], t.members["enum"]);
    assert !KeywordsKept(s.members, t.members);
    assert "properties" in Properties(base.members).Keys * CHILD_KEYS;
    assert !DictionaryKept(Properties(base.members), Properties(head.members));
    WideningPasses(base, head);
  }

  /** Such a pair: the enumeration of the property "properties" grows from one value to two. */
  lemma GrownEnumIsReported(base: Json, head: Json, s: Json, t: Json)
    requires s == Obj(map["enum" := Arr([Str("x")])]) && t == Obj(map["enum" := Arr([Str("x"), Str("y")])])
    requires base == Closed(map["properties" := s], map[]) && head == Closed(map["properties" := t], map[])
    ensures NonEmptyKeys(base) && NonEmptyKeys(head) && InFragment(base) && Widens(base, head)
    ensures SchemaChanges(base, head) != []
  {
    hide SchemaChanges, PropertyKept;
    var b, h := map["properties" := s], map["properties" := t];
    EnumLeaf(s, [Str("x")]);
    EnumLeaf(t, [Str("x"), Str("y")]);
    GrownEnumIsKept(s, t, [Str("x")], [Str("x"), Str("y")]);
    ClosedWidens(b, h);
    ClosedIsNode(b, map[]);
    ClosedIsNode(h, map[]);
    WidenedShadowIsReported(base, head, s, t);
  }

  lemma EnumLeaf(s: Json, values: seq<Json>)
    requires s == Obj(map["enum" := Arr(values)]) && forall v :: v in values ==> v.Str?
    ensures InFragment(s) && NonEmptyKeys(s) && !IsObjectNode(s.members)
  {
    assert s.members.Keys * CHILD_KEYS == {};
  }

  lemma GrownEnumIsKept(s: Json, t: Json, values: seq<Json>, more: seq<Json>)
    requires s == Obj(map["enum" := Arr(values)]) && t == Obj(map["enum" := Arr(more)])
    requires forall v :: v in values ==> v in more
    ensures PropertyKept(s, t)
  {
    assert PropertyCore(s.members) == Obj(map[]) == PropertyCore(t.members);
  }

  /** Two closed schemas, the second with further properties, widen when their properties do. */
  lemma ClosedWidens(b: Members, h: Members)
    requires forall n :: n in b ==> InFragment(b[n]) && n in h && Widens(b[n], h[n])
    requires forall n :: n in b ==> n != "" && NonEmptyKeys(b[n])
    requires forall n :: n in h ==> n != "" && NonEmptyKeys(h[n])
    ensures var base, head := Closed(b, map[]), Closed(h, map[]);
      NonEmptyKeys(base) && NonEmptyKeys(head) && InFragment(base) && Widens(base, head)
  {
    hide InFragment, NonEmptyKeys, PropertyKept;
    ClosedIsNode(b, map[]);
    ClosedIsNode(h, map[]);
    ClosedInFragment(b);
    ClosedIsNonEmpty(b, map[]);
    ClosedIsNonEmpty(h, map[]);
    ClosedCores(b, h, map[]);
    assert RequiredNames(Closed(h, map[]).members) == {};
  }

  /**
   * Adding an optional property "additionalProperties" with the schema `false` is reported beside a
   * property called "required", because the dictionary around the two then seems to have been closed.
   */
  lemma AddedFalseIsReported(base: Json, head: Json, b: Members, h: Members)
    requires b == map["required" := Obj(map[])] && h == b["additionalProperties" := Bool(false)]
    requires base == Closed(b, map[]) && head == Closed(h, map[])
    ensures NonEmptyKeys(base) && NonEmptyKeys(head) && InFragment(base) && Widens(base, head)
    ensures "properties" !in b && SchemaChanges(base, head) != []
  {
    hide SchemaChanges, PropertyKept, InFragment, NonEmptyKeys, KeptTree, DictionariesKept;
    PlainLeaf(b["required"]);
    KeptIsReflexive(b["required"]);
    BooleanHasNoKeys(false);
    ClosedWidens(b, h);
    ClosedIsNode(b, map[]);
    ClosedIsNode(h, map[]);
    assert "required" in b.Keys * CHILD_KEYS;
    assert !DictionaryKept(b, h);
    DictionaryDecides(base, head);
    WideningPasses(base, head);
  }

  lemma BooleanHasNoKeys(flag: bool)
    ensures NonEmptyKeys(Bool(flag))
  {
  }

  lemma DictionaryDecides(base: Json, head: Json)
    requires base.Obj? && head.Obj? && IsObjectNode(base.members)
    requires !DictionaryKept(Properties(base.members), Properties(head.members))
    ensures !DictionariesKept(base, head)
  {
  }

  lemma LongerListIsChanged(base: Json, head: Json)
    requires base.Arr? && head.Arr? && |base.items| != |head.items|
    ensures !PropertyKept(base, head)
  {
    assert |Normal(WithoutAnnotations(base)).items| == |base.items|;
    assert |Normal(WithoutAnnotations(head)).items| == |head.items|;
  }
}
