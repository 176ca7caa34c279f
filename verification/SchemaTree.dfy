/** On closed scalar schemas the flat pointer-indexed check is a recursive check of the nested tree. */
module SchemaTree {
  import opened Ordering
  import opened Json
  import opened JsonPointer
  import opened SchemaNodes
  import opened SchemaCompat

  /** Keywords whose verdict depends on keywords beside them or on the rest of the document. */
  const CONTEXT_KEYS: set<string> :=
    {"$ref", "$dynamicRef", "if", "then", "else", "contains", "minContains", "maxContains", "items",
     "unevaluatedProperties", "unevaluatedItems"}

  predicate IsScalarList(v: Json) { v.Arr? && forall x :: x in v.items ==> IsScalar(x) }

  /**
   * A schema with scalar keywords only, apart from an enumeration and a list of examples, and
   * closed wherever it describes an object.
   */
  ghost predicate InFragment(s: Json)
    decreases s
  {
    && s.Obj?
    && s.members.Keys !! CONTEXT_KEYS
    && (forall k :: k in s.members && k != "properties" && k != "required" && k != "enum" ==>
          IsScalar(s.members[k]) || (k == "examples" && IsScalarList(s.members[k])))
    && ("enum" in s.members ==> IsScalarList(s.members["enum"]))
    && (IsObjectNode(s.members) ==>
          && IsClosed(s.members)
          && "patternProperties" !in s.members
          && ("required" in s.members ==>
              s.members["required"].Arr? && forall v :: v in s.members["required"].items ==> v.Str?)
          && "properties" in s.members && s.members["properties"].Obj?
          && forall n :: n in s.members["properties"].members ==> InFragment(s.members["properties"].members[n]))
  }

  // ---------------------------------------------------------------- by pointer, by position

  /** Every node position of the old document holds a node of the new one that keeps it. */
  ghost predicate PositionsKept(base: Json, head: Json) {
    forall parts :: NodeAt(base, parts).Some? ==>
      NodeAt(head, parts).Some? && NodeKept(NodeAt(base, parts).value, NodeAt(head, parts).value)
  }

  /** Comparing by pointer text is comparing by position. */
  lemma PointersArePositionsKept(base: Json, head: Json)
    requires NonEmptyKeys(base) && NonEmptyKeys(head)
    ensures Compatible(base, head) <==> PositionsKept(base, head)
  {
    hide ObjectNodes, NodeAt, NodeKept, Pointer, NonEmptyKeys;
    if Compatible(base, head) {
      forall parts | NodeAt(base, parts).Some?
        ensures NodeAt(head, parts).Some? && NodeKept(NodeAt(base, parts).value, NodeAt(head, parts).value)
      {
        SegmentsOfNode(base, parts);
        NodesByPosition(base, parts);
        NodesByPosition(head, parts);
      }
    }
    if PositionsKept(base, head) {
      forall p | p in ObjectNodes(base, "")
        ensures p in ObjectNodes(head, "") && NodeKept(ObjectNodes(base, "")[p], ObjectNodes(head, "")[p])
      {
        PointersArePositions(base, p);
        var parts :| Segments(parts) && p == Pointer(parts) && NodeAt(base, parts) == Some(ObjectNodes(base, "")[p]);
        NodesByPosition(head, parts);
      }
    }
  }

  lemma SegmentsOfNode(v: Json, parts: seq<string>)
    requires NonEmptyKeys(v) && NodeAt(v, parts).Some?
    ensures Segments(parts)
  {
    NodeHasSegments(v, parts);
  }

  // ---------------------------------------------------------------- by position, by recursion

  /**
   * The recursive reading. The dictionary of properties is itself visited by the walk: when one of
   * the properties is named like a child key it counts as an object node too.
   */
  ghost predicate KeptTree(base: Json, head: Json)
    decreases base
  {
    base.Obj? && IsObjectNode(base.members) ==>
      && head.Obj? && IsObjectNode(head.members) && NodeKept(base.members, head.members)
      && (IsObjectNode(Properties(base.members)) ==>
            IsObjectNode(Properties(head.members)) && NodeKept(Properties(base.members), Properties(head.members)))
      && forall n :: n in Properties(base.members) && n in Properties(head.members) ==>
           KeptTree(Properties(base.members)[n], Properties(head.members)[n])
  }

  /** Reading one property of a schema at the position of that property. */
  lemma PropertyBelow(s: Json, n: string, rest: seq<string>)
    requires s.Obj? && n in Properties(s.members) && Properties(s.members)[n].Obj?
    ensures NodeAt(s, ["properties", n] + rest) == NodeAt(Properties(s.members)[n], rest)
  {
    var parts := ["properties", n] + rest;
    assert parts[1..] == [n] + rest && parts[1..][1..] == rest;
    assert Walk(s, parts) == Walk(s.members["properties"], [n] + rest);
  }

  lemma NodesHere(s: Json)
    requires s.Obj? && IsObjectNode(s.members)
    ensures NodeAt(s, []) == Some(s.members)
    ensures "properties" in s.members && s.members["properties"].Obj? && IsObjectNode(Properties(s.members))
      ==> NodeAt(s, ["properties"]) == Some(Properties(s.members))
  {
    assert ["properties"][1..] == [];
    assert Walk(s, []) == Some(s);
    if "properties" in s.members && s.members["properties"].Obj? {
      assert Walk(s, ["properties"]) == Walk(s.members["properties"], []);
    }
  }

  /** In the fragment the lists are enums and required names, which hold no objects. */
  lemma ListsHoldNoObjects(s: Json, key: string)
    requires InFragment(s) && key in s.members && s.members[key].Arr?
    ensures forall k :: 0 <= k < |s.members[key].items| ==> !s.members[key].items[k].Obj?
  {
    var m := s.members;
    assert "required" in m ==> "required" in m.Keys * CHILD_KEYS;
    assert "properties" in m ==> "properties" in m.Keys * CHILD_KEYS;
    assert forall k :: 0 <= k < |m[key].items| ==> m[key].items[k] in m[key].items;
  }

  /** In the fragment the first step of a walk can only enter the properties dictionary. */
  lemma FirstStep(s: Json, parts: seq<string>)
    requires InFragment(s) && Walk(s, parts).Some? && parts != []
    ensures parts[0] == "properties" && s.members["properties"].Obj?
    ensures IsObjectNode(s.members)
    ensures Walk(s, parts) == Walk(s.members["properties"], parts[1..])
  {
    var m := s.members;
    assert "required" in m ==> "required" in m.Keys * CHILD_KEYS;
    assert "properties" in m ==> "properties" in m.Keys * CHILD_KEYS;
    if m[parts[0]].Arr? { ListsHoldNoObjects(s, parts[0]); }
  }

  lemma SecondStep(s: Json, parts: seq<string>)
    requires InFragment(s) && IsObjectNode(s.members) && |parts| >= 2 && parts[0] == "properties"
    requires Walk(s, parts).Some?
    ensures parts[1] in Properties(s.members) && Properties(s.members)[parts[1]].Obj?
    ensures parts == ["properties", parts[1]] + parts[2..]
    ensures NodeAt(s, parts) == NodeAt(Properties(s.members)[parts[1]], parts[2..])
  {
    hide InFragment, NodeAt;
    FirstStep(s, parts);
    KeyOfStep(s.members["properties"], parts[1..]);
    PropertyIsObject(s, parts[1]);
    assert parts == ["properties", parts[1]] + parts[2..];
    PropertyBelow(s, parts[1], parts[2..]);
  }

  lemma KeyOfStep(v: Json, parts: seq<string>)
    requires v.Obj? && parts != [] && Walk(v, parts).Some?
    ensures parts[0] in v.members
  {
  }

  lemma PropertyIsObject(s: Json, n: string)
    requires InFragment(s) && IsObjectNode(s.members) && n in Properties(s.members)
    ensures Properties(s.members)[n].Obj?
  {
  }

  lemma {:induction false} TreeKeepsPositions(base: Json, head: Json, parts: seq<string>)
    requires InFragment(base) && KeptTree(base, head) && NodeAt(base, parts).Some?
    ensures NodeAt(head, parts).Some? && NodeKept(NodeAt(base, parts).value, NodeAt(head, parts).value)
    decreases base
  {
    hide NodeKept;
    if parts == [] {
      NodesHere(head);
    } else {
      FirstStep(base, parts);
      NodesHere(head);
      if |parts| == 1 {
        assert parts == ["properties"];
        NodesHere(base);
      } else {
        SecondStep(base, parts);
        var n := parts[1];
        KeptHasProperty(base.members, head.members, n);
        TreeKeepsPositions(Properties(base.members)[n], Properties(head.members)[n], parts[2..]);
        NodeMeansObject(Properties(head.members)[n], parts[2..]);
        PropertyBelow(head, n, parts[2..]);
      }
    }
  }

  lemma NodeMeansObject(v: Json, parts: seq<string>)
    requires NodeAt(v, parts).Some?
    ensures v.Obj?
  {
  }

  lemma KeptHasProperty(base: Members, head: Members, n: string)
    requires NodeKept(base, head) && n in Properties(base)
    ensures n in Properties(head) && PropertyKept(Properties(base)[n], Properties(head)[n])
  {
  }

  lemma KeptDictionary(base: Json, head: Json)
    requires base.Obj? && PropertyKept(base, head)
    ensures head.Obj?
  {
  }

  lemma PositionsKeptBelow(base: Json, head: Json, n: string)
    requires PositionsKept(base, head)
    requires base.Obj? && n in Properties(base.members) && Properties(base.members)[n].Obj?
    requires head.Obj? && n in Properties(head.members) && Properties(head.members)[n].Obj?
    ensures PositionsKept(Properties(base.members)[n], Properties(head.members)[n])
  {
    hide NodeAt, NodeKept;
    var b, h := Properties(base.members)[n], Properties(head.members)[n];
    forall rest | NodeAt(b, rest).Some?
      ensures NodeAt(h, rest).Some? && NodeKept(NodeAt(b, rest).value, NodeAt(h, rest).value)
    {
      PropertyBelow(base, n, rest);
      PropertyBelow(head, n, rest);
      assert NodeAt(base, ["properties", n] + rest).Some?;
    }
  }

  lemma {:induction false} PositionsMakeTree(base: Json, head: Json)
    requires InFragment(base) && PositionsKept(base, head)
    ensures KeptTree(base, head)
    decreases base
  {
    hide NodeKept;
    if IsObjectNode(base.members) {
      NodesHere(base);
      assert NodeAt(head, []).Some?;
      assert Walk(head, []) == Some(head);
      if IsObjectNode(Properties(base.members)) {
        assert NodeAt(base, ["properties"]).Some?;
        PropertiesNode(head);
      }
      forall n | n in Properties(base.members) && n in Properties(head.members)
        ensures KeptTree(Properties(base.members)[n], Properties(head.members)[n])
      {
        KeptHasProperty(base.members, head.members, n);
        KeptDictionary(Properties(base.members)[n], Properties(head.members)[n]);
        PositionsKeptBelow(base, head, n);
        PositionsMakeTree(Properties(base.members)[n], Properties(head.members)[n]);
      }
    }
  }

  lemma PropertiesNode(s: Json)
    requires NodeAt(s, ["properties"]).Some?
    ensures s.Obj? && NodeAt(s, ["properties"]) == Some(Properties(s.members)) && IsObjectNode(Properties(s.members))
  {
    assert ["properties"][1..] == [];
    assert Walk(s, ["properties"]) == Walk(s.members["properties"], []);
  }

  /**
   * For an old schema of the fragment, the check passes exactly when the recursive check does,
   * although it only compares two flat maps of pointers.
   */
  lemma FlatCheckIsTreeCheck(base: Json, head: Json)
    requires NonEmptyKeys(base) && NonEmptyKeys(head) && InFragment(base)
    ensures SchemaChanges(base, head) == [] <==> KeptTree(base, head)
  {
    hide SchemaChanges, Compatible, KeptTree, NonEmptyKeys, InFragment, NodeAt, NodeKept;
    NoChangesMeansCompatible(base, head);
    PointersArePositionsKept(base, head);
    if KeptTree(base, head) {
      forall parts | NodeAt(base, parts).Some? { TreeKeepsPositions(base, head, parts); }
    }
    if PositionsKept(base, head) { PositionsMakeTree(base, head); }
  }
}
