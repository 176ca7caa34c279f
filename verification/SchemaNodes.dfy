/** The object nodes of a schema document, indexed by pointer, and where each one sits. */
module SchemaNodes {
  import opened Ordering
  import opened Json
  import opened JsonPointer

  type Members = map<string, Json>

  const CHILD_KEYS: set<string> := {"additionalProperties", "patternProperties", "properties", "required"}

  /** A dictionary counts as an object schema when it has one of the compatibility child keys. */
  predicate IsObjectNode(m: Members) { m.Keys * CHILD_KEYS != {} }

  /** `_object_schema_nodes`: later entries replace earlier ones at the same pointer. */
  function ObjectNodes(v: Json, path: string): map<string, Members>
    decreases v, 3, 0
  {
    match v
    case Obj(m) =>
      (if IsObjectNode(m) then map[path := m] else map[]) + MemberNodes(v, SortedNames(m.Keys), path)
    case _ => map[]
  }

  function MemberNodes(v: Json, keys: seq<string>, path: string): map<string, Members>
    requires v.Obj? && forall k :: k in keys ==> k in v.members
    decreases v, 2, |keys|
  {
    if keys == [] then map[]
    else
      var last := keys[|keys| - 1];
      MemberNodes(v, keys[..|keys| - 1], path) + ValueNodes(v.members[last], last, path)
  }

  function ValueNodes(v: Json, key: string, path: string): map<string, Members>
    decreases v, 4, 0
  {
    match v
    case Obj(_) => ObjectNodes(v, JsonPath(path, [key]))
    case Arr(items) => ItemNodes(v, |items|, key, path)
    case _ => map[]
  }

  /** The nodes of the first `n` items of a list. */
  function ItemNodes(v: Json, n: nat, key: string, path: string): map<string, Members>
    requires v.Arr? && n <= |v.items|
    decreases v, 1, n
  {
    if n == 0 then map[]
    else ItemNodes(v, n - 1, key, path) + ObjectNodes(v.items[n - 1], JsonPath(path, [key, Decimal(n - 1)]))
  }

  /** The walk as the program makes it, with a dictionary that every branch updates. */
  method ObjectSchemaNodes(v: Json, path: string) returns (nodes: map<string, Members>)
    ensures nodes == ObjectNodes(v, path)
    decreases v, 3
  {
    nodes := map[];
    if v.Obj? {
      if IsObjectNode(v.members) { nodes := nodes[path := v.members]; }
      var inner := NodesOfMembers(v, SortedNames(v.members.Keys), path);
      nodes := nodes + inner;
    }
  }

  method NodesOfMembers(v: Json, keys: seq<string>, path: string) returns (nodes: map<string, Members>)
    requires v.Obj? && forall k :: k in keys ==> k in v.members
    ensures nodes == MemberNodes(v, keys, path)
    decreases v, 1
  {
    hide ObjectNodes, ValueNodes, JsonPath;
    nodes := map[];
    for i := 0 to |keys|
      invariant nodes == MemberNodes(v, keys[..i], path)
    {
      assert keys[..i + 1][..i] == keys[..i];
      var inner := NodesOfValue(v.members[keys[i]], keys[i], path);
      nodes := nodes + inner;
    }
    assert keys[..|keys|] == keys;
  }

  /** The body of the loop over the keys: a nested dictionary, or the items of a list. */
  method NodesOfValue(value: Json, key: string, path: string) returns (nodes: map<string, Members>)
    ensures nodes == ValueNodes(value, key, path)
    decreases value, 4
  {
    hide JsonPath;
    nodes := map[];
    if value.Obj? {
      nodes := ObjectSchemaNodes(value, JsonPath(path, [key]));
    } else if value.Arr? {
      for j := 0 to |value.items|
        invariant nodes == ItemNodes(value, j, key, path)
      {
        var inner := ObjectSchemaNodes(value.items[j], JsonPath(path, [key, Decimal(j)]));
        nodes := nodes + inner;
      }
    }
  }

  // ---------------------------------------------------------------- positions

  /** A list index written as the walk writes it. */
  predicate IsIndex(part: string, n: nat) {
    IsDigits(part) && ToNat(part) < n && Decimal(ToNat(part)) == part
  }

  /**
   * Going from a dictionary to a value of the walk: one segment to a nested dictionary, or two to a
   * dictionary inside a list. Lists directly inside lists are not entered.
   */
  function Walk(v: Json, parts: seq<string>): Option<Json>
    decreases v
  {
    if parts == [] then Some(v)
    else if !v.Obj? || parts[0] !in v.members then None
    else
      var w := v.members[parts[0]];
      if w.Obj? then Walk(w, parts[1..])
      else if w.Arr? && |parts| >= 2 && IsIndex(parts[1], |w.items|) && w.items[ToNat(parts[1])].Obj? then
        Walk(w.items[ToNat(parts[1])], parts[2..])
      else None
  }

  /** The object node at a position, if there is one. */
  function NodeAt(v: Json, parts: seq<string>): Option<Members>
  {
    match Walk(v, parts)
    case Some(Obj(m)) => if IsObjectNode(m) then Some(m) else None
    case _ => None
  }

  /** No key of the document, at any depth, is the empty string. */
  predicate NonEmptyKeys(v: Json)
  {
    match v
    case Obj(m) => forall k :: k in m ==> k != "" && NonEmptyKeys(m[k])
    case Arr(items) => forall i :: 0 <= i < |items| ==> NonEmptyKeys(items[i])
    case _ => true
  }

  /** A walk only leads to where a pointer decoder would also go. */
  lemma {:induction false} WalkIsFollow(v: Json, parts: seq<string>)
    requires Walk(v, parts).Some?
    ensures Follow(v, parts) == Walk(v, parts)
    decreases v
  {
    if parts != [] {
      var w := v.members[parts[0]];
      if w.Obj? {
        WalkIsFollow(w, parts[1..]);
      } else {
        WalkIsFollow(w.items[ToNat(parts[1])], parts[2..]);
        assert parts[1..][1..] == parts[2..];
      }
    }
  }

  lemma {:induction false} WalkHasSegments(v: Json, parts: seq<string>)
    requires NonEmptyKeys(v) && Walk(v, parts).Some?
    ensures Segments(parts) && NonEmpty(parts) == parts
    decreases v
  {
    if parts != [] {
      var w := v.members[parts[0]];
      if w.Obj? {
        WalkHasSegments(w, parts[1..]);
        SegmentsCons(parts, 1);
      } else {
        WalkHasSegments(w.items[ToNat(parts[1])], parts[2..]);
        SegmentsCons(parts, 2);
      }
    }
    NonEmptyKeepsSegments(parts);
  }

  lemma SegmentsCons(parts: seq<string>, n: nat)
    requires n <= |parts| && Segments(parts[n..]) && forall i :: 0 <= i < n ==> parts[i] != ""
    ensures Segments(parts)
  {
    forall i | 0 <= i < |parts| ensures parts[i] != "" {
      if i >= n { assert parts[i] == parts[n..][i - n]; }
    }
  }

  lemma NodeBelowKey(v: Json, key: string, parts: seq<string>)
    requires v.Obj? && key in v.members && v.members[key].Obj?
    ensures NodeAt(v, [key] + parts) == NodeAt(v.members[key], parts)
  {
    assert ([key] + parts)[1..] == parts;
  }

  lemma NodeBelowItem(v: Json, key: string, i: nat, parts: seq<string>)
    requires v.Obj? && key in v.members && v.members[key].Arr? && i < |v.members[key].items|
    requires v.members[key].items[i].Obj?
    ensures NodeAt(v, [key, Decimal(i)] + parts) == NodeAt(v.members[key].items[i], parts)
  {
    assert ([key, Decimal(i)] + parts)[2..] == parts;
  }

  /** `p` is what the walk emits, below `before`, for a position of `v` where the node `m` sits. */
  ghost predicate Placed(v: Json, before: seq<string>, p: string, m: Members) {
    exists parts :: NodeAt(v, parts) == Some(m) && p == Emitted(before + parts)
  }

  /** Everything the walk records is a node of the document at a position its pointer was emitted for. */
  lemma {:induction false} RecordedIsPlaced(v: Json, before: seq<string>, p: string)
    requires p in ObjectNodes(v, Emitted(before))
    ensures Placed(v, before, p, ObjectNodes(v, Emitted(before))[p])
    decreases v, 3, 0
  {
    hide JsonPath, Emitted, SortedNames;
    var path := Emitted(before);
    var keys := SortedNames(v.members.Keys);
    if p in MemberNodes(v, keys, path) {
      MemberIsPlaced(v, keys, before, p);
    } else {
      assert NodeAt(v, []) == Some(v.members) && before + [] == before;
    }
  }

  lemma {:induction false} MemberIsPlaced(v: Json, keys: seq<string>, before: seq<string>, p: string)
    requires v.Obj? && (forall k :: k in keys ==> k in v.members)
    requires p in MemberNodes(v, keys, Emitted(before))
    ensures Placed(v, before, p, MemberNodes(v, keys, Emitted(before))[p])
    decreases v, 2, |keys|
  {
    hide JsonPath, Emitted, SortedNames;
    var path := Emitted(before);
    var last := keys[|keys| - 1];
    if p in ValueNodes(v.members[last], last, path) {
      ValueIsPlaced(v, last, before, p);
    } else {
      MemberIsPlaced(v, keys[..|keys| - 1], before, p);
    }
  }

  lemma PlacedBelowKey(v: Json, key: string, before: seq<string>, p: string, m: Members)
    requires v.Obj? && key in v.members && v.members[key].Obj?
    requires Placed(v.members[key], before + [key], p, m)
    ensures Placed(v, before, p, m)
  {
    hide Emitted, NodeAt;
    var parts :| NodeAt(v.members[key], parts) == Some(m) && p == Emitted(before + [key] + parts);
    NodeBelowKey(v, key, parts);
    assert before + ([key] + parts) == before + [key] + parts;
  }

  lemma PlacedBelowItem(v: Json, key: string, i: nat, before: seq<string>, p: string, m: Members)
    requires v.Obj? && key in v.members && v.members[key].Arr? && i < |v.members[key].items|
    requires v.members[key].items[i].Obj?
    requires Placed(v.members[key].items[i], before + [key, Decimal(i)], p, m)
    ensures Placed(v, before, p, m)
  {
    hide Emitted, NodeAt;
    var parts :| NodeAt(v.members[key].items[i], parts) == Some(m)
      && p == Emitted(before + [key, Decimal(i)] + parts);
    NodeBelowItem(v, key, i, parts);
    assert before + ([key, Decimal(i)] + parts) == before + [key, Decimal(i)] + parts;
  }

  lemma {:induction false} ValueIsPlaced(v: Json, key: string, before: seq<string>, p: string)
    requires v.Obj? && key in v.members
    requires p in ValueNodes(v.members[key], key, Emitted(before))
    ensures Placed(v, before, p, ValueNodes(v.members[key], key, Emitted(before))[p])
    decreases v, 1, 0
  {
    hide JsonPath, Emitted, SortedNames, NodeAt, Placed;
    var w := v.members[key];
    if w.Obj? {
      PathIsPointer(before, key);
      RecordedIsPlaced(w, before + [key], p);
      PlacedBelowKey(v, key, before, p, ObjectNodes(w, Emitted(before + [key]))[p]);
    } else {
      ItemIsPlaced(v, key, |w.items|, before, p);
    }
  }

  lemma OnlyObjectsHaveNodes(v: Json, path: string, p: string)
    requires p in ObjectNodes(v, path)
    ensures v.Obj?
  {
  }

  lemma {:induction false} ItemIsPlaced(v: Json, key: string, n: nat, before: seq<string>, p: string)
    requires v.Obj? && key in v.members && v.members[key].Arr? && n <= |v.members[key].items|
    requires p in ItemNodes(v.members[key], n, key, Emitted(before))
    ensures Placed(v, before, p, ItemNodes(v.members[key], n, key, Emitted(before))[p])
    decreases v, 0, n
  {
    hide JsonPath, Emitted, NodeAt, Placed, ObjectNodes, IsDigits, ToNat;
    var x, index := v.members[key].items[n - 1], Decimal(n - 1);
    PathWithIndexIsPointer(before, key, index);
    if p in ObjectNodes(x, Emitted(before + [key, index])) {
      RecordedIsPlaced(x, before + [key, index], p);
      OnlyObjectsHaveNodes(x, Emitted(before + [key, index]), p);
      PlacedBelowItem(v, key, n - 1, before, p, ObjectNodes(x, Emitted(before + [key, index]))[p]);
    } else {
      ItemIsPlaced(v, key, n - 1, before, p);
    }
  }

  /** Every node of the document is recorded under the pointer emitted for it. */
  lemma {:induction false} NodeIsRecorded(v: Json, before: seq<string>, parts: seq<string>)
    requires NodeAt(v, parts).Some?
    ensures Emitted(before + parts) in ObjectNodes(v, Emitted(before))
    decreases v, 1
  {
    hide JsonPath, Emitted, SortedNames;
    if parts == [] {
      assert before + [] == before;
    } else {
      NodeInValueIsRecorded(v, before, parts);
      MemberNodesHold(v, SortedNames(v.members.Keys), parts[0], Emitted(before), Emitted(before + parts));
    }
  }

  lemma {:induction false} NodeInValueIsRecorded(v: Json, before: seq<string>, parts: seq<string>)
    requires NodeAt(v, parts).Some? && parts != []
    ensures Emitted(before + parts) in ValueNodes(v.members[parts[0]], parts[0], Emitted(before))
    decreases v, 0
  {
    hide JsonPath, Emitted, ObjectNodes, SortedNames, Decimal;
    var key := parts[0];
    var w := v.members[key];
    if w.Obj? {
      PathIsPointer(before, key);
      NodeIsRecorded(w, before + [key], parts[1..]);
      assert before + [key] + parts[1..] == before + parts;
    } else {
      var i := ToNat(parts[1]);
      PathWithIndexIsPointer(before, key, parts[1]);
      NodeIsRecorded(w.items[i], before + [key, parts[1]], parts[2..]);
      assert before + [key, parts[1]] + parts[2..] == before + parts;
      ItemNodesGrow(w, i + 1, |w.items|, key, Emitted(before), Emitted(before + parts));
    }
  }

  lemma {:induction false} ItemNodesGrow(w: Json, i: nat, n: nat, key: string, path: string, p: string)
    requires w.Arr? && i <= n <= |w.items| && p in ItemNodes(w, i, key, path)
    ensures p in ItemNodes(w, n, key, path)
  {
    if i < n { ItemNodesGrow(w, i, n - 1, key, path, p); }
  }

  lemma {:induction false} MemberNodesHold(v: Json, keys: seq<string>, key: string, path: string, p: string)
    requires v.Obj? && (forall k :: k in keys ==> k in v.members)
    requires key in keys && p in ValueNodes(v.members[key], key, path)
    ensures p in MemberNodes(v, keys, path)
  {
    if keys[|keys| - 1] != key {
      MemberNodesHold(v, keys[..|keys| - 1], key, path, p);
    }
  }

  /** For any document, the recorded pointers are exactly those emitted for the positions of its nodes. */
  lemma NodesAreEmitted(v: Json, p: string)
    ensures p in ObjectNodes(v, "") <==> exists parts :: NodeAt(v, parts).Some? && p == Emitted(parts)
    ensures p in ObjectNodes(v, "") ==>
      exists parts :: NodeAt(v, parts) == Some(ObjectNodes(v, "")[p]) && p == Emitted(parts)
  {
    hide ObjectNodes, NodeAt;
    assert Emitted([]) == "";
    if p in ObjectNodes(v, "") {
      RecordedIsPlaced(v, [], p);
      var parts :| NodeAt(v, parts) == Some(ObjectNodes(v, "")[p]) && p == Emitted([] + parts);
      assert [] + parts == parts;
    }
    forall parts | NodeAt(v, parts).Some? ensures Emitted(parts) in ObjectNodes(v, "") {
      NodeIsRecorded(v, [], parts);
      assert [] + parts == parts;
    }
  }

  /** No two nodes of the document share a pointer. */
  ghost predicate DistinctPointers(v: Json) {
    forall a, b :: NodeAt(v, a).Some? && NodeAt(v, b).Some? && Emitted(a) == Emitted(b) ==> a == b
  }

  /** No two nodes sit at positions that agree but for empty keys. */
  ghost predicate NoEmptyKeyCollision(v: Json) {
    forall a, b :: NodeAt(v, a).Some? && NodeAt(v, b).Some? && NonEmpty(a) == NonEmpty(b) ==> a == b
  }

  /**
   * Distinct nodes have distinct pointers if and only if no two positions of nodes become one when
   * their empty keys are dropped; then, and so whenever no key is empty, each node is found under the
   * pointer emitted for it.
   */
  lemma DistinctNodesDistinctPointers(v: Json)
    ensures DistinctPointers(v) <==> NoEmptyKeyCollision(v)
    ensures NonEmptyKeys(v) ==> DistinctPointers(v)
    ensures DistinctPointers(v) ==> forall parts :: NodeAt(v, parts).Some? ==>
      Emitted(parts) in ObjectNodes(v, "") && ObjectNodes(v, "")[Emitted(parts)] == NodeAt(v, parts).value
  {
    hide NodeAt, Emitted, ObjectNodes, NonEmptyKeys;
    forall a, b ensures Emitted(a) == Emitted(b) <==> NonEmpty(a) == NonEmpty(b) { EmittedAgree(a, b); }
    if NonEmptyKeys(v) {
      forall parts | NodeAt(v, parts).Some? ensures NonEmpty(parts) == parts { NodeHasSegments(v, parts); }
    }
    if DistinctPointers(v) {
      forall parts | NodeAt(v, parts).Some?
        ensures Emitted(parts) in ObjectNodes(v, "") && ObjectNodes(v, "")[Emitted(parts)] == NodeAt(v, parts).value
      {
        NodesAreEmitted(v, Emitted(parts));
      }
    }
  }

  lemma NodeHasSegments(v: Json, parts: seq<string>)
    requires NonEmptyKeys(v) && NodeAt(v, parts).Some?
    ensures Segments(parts) && NonEmpty(parts) == parts
  {
    WalkHasSegments(v, parts);
  }

  /** Without empty keys the pointer of a position leads to the node there, and to nothing if there is none. */
  lemma NodesByPosition(v: Json, parts: seq<string>)
    requires NonEmptyKeys(v) && Segments(parts)
    ensures Pointer(parts) in ObjectNodes(v, "") <==> NodeAt(v, parts).Some?
    ensures NodeAt(v, parts).Some? ==> ObjectNodes(v, "")[Pointer(parts)] == NodeAt(v, parts).value
  {
    hide ObjectNodes, NodeAt, NonEmptyKeys;
    NonEmptyKeepsSegments(parts);
    DistinctNodesDistinctPointers(v);
    NodesAreEmitted(v, Pointer(parts));
    if Pointer(parts) in ObjectNodes(v, "") {
      var other :| NodeAt(v, other).Some? && Pointer(parts) == Emitted(other);
      NodeHasSegments(v, other);
      PointerIsInjective(parts, other);
    }
  }

  lemma PointersArePositions(v: Json, p: string)
    requires NonEmptyKeys(v) && p in ObjectNodes(v, "")
    ensures exists parts :: Segments(parts) && p == Pointer(parts) && NodeAt(v, parts) == Some(ObjectNodes(v, "")[p])
  {
    hide ObjectNodes, NodeAt, NonEmptyKeys;
    NodesAreEmitted(v, p);
    var parts :| NodeAt(v, parts) == Some(ObjectNodes(v, "")[p]) && p == Emitted(parts);
    NodeHasSegments(v, parts);
  }

  /** The fragment identifier for a pointer of the map. */
  function Fragment(p: string): string {
    if p == "" then "#" else "#/" + p
  }

  /** From any document, the decoder follows an emitted pointer along the position without its empty keys. */
  lemma EmittedResolves(v: Json, parts: seq<string>)
    ensures Resolve(v, Fragment(Emitted(parts))) == Follow(v, NonEmpty(parts))
  {
    hide UnescapeAll, Split, Pointer;
    var kept := NonEmpty(parts);
    NonEmptyKeepsSegments(parts);
    PointerIsEmptyAtRoot(kept);
    if kept != [] {
      DecodedPointer(kept);
      assert Fragment(Pointer(kept))[2..] == Pointer(kept);
    }
  }

  /** The lineage decoder resolves every recorded pointer, and to the very node recorded there. */
  lemma PointerRoundTrip(v: Json, p: string)
    requires NonEmptyKeys(v) && p in ObjectNodes(v, "")
    ensures Resolve(v, Fragment(p)) == Some(Obj(ObjectNodes(v, "")[p]))
  {
    hide ObjectNodes, Resolve, Emitted, Fragment;
    NodesAreEmitted(v, p);
    var parts :| NodeAt(v, parts) == Some(ObjectNodes(v, "")[p]) && p == Emitted(parts);
    NodeHasSegments(v, parts);
    EmittedResolves(v, parts);
    WalkIsFollow(v, parts);
  }

  const INNER: Json := Obj(map["required" := Null])
  const WITH_EMPTY_KEY: Json := Obj(map["" := INNER, "properties" := Null])

  /** With an empty key the walk drops the segment, so two nodes share one pointer and one is lost. */
  lemma EmptyKeyLosesANode()
    ensures !NonEmptyKeys(WITH_EMPTY_KEY)
    ensures NodeAt(WITH_EMPTY_KEY, []).Some? && NodeAt(WITH_EMPTY_KEY, [""]).Some?
    ensures ObjectNodes(WITH_EMPTY_KEY, "").Keys == {""}
  {
    hide JsonPath, SortedNames, MemberNodes, Decimal, IsDigits, ToNat;
    var v := WITH_EMPTY_KEY;
    assert "required" in INNER.members.Keys * CHILD_KEYS;
    assert "properties" in v.members.Keys * CHILD_KEYS;
    assert NodeAt(INNER, []).Some?;
    NodeBelowKey(v, "", []);
    assert [""] + [] == [""];
    LostNodes(v, INNER, SortedNames(v.members.Keys));
    assert "" in v.members;
  }

  lemma {:induction false} LostNodes(v: Json, inner: Json, keys: seq<string>)
    requires inner == Obj(map["required" := Null]) && v == Obj(map["" := inner, "properties" := Null])
    requires forall k :: k in keys ==> k in v.members
    ensures MemberNodes(v, keys, "").Keys <= {""}
  {
    hide JsonPath, SortedNames;
    if keys != [] {
      LostNodes(v, inner, keys[..|keys| - 1]);
      EmptyPart("");
      NoInnerNodes(inner, SortedNames(inner.members.Keys));
    }
  }

  lemma {:induction false} NoInnerNodes(inner: Json, keys: seq<string>)
    requires inner == Obj(map["required" := Null]) && forall k :: k in keys ==> k in inner.members
    ensures MemberNodes(inner, keys, "") == map[]
  {
    if keys != [] { NoInnerNodes(inner, keys[..|keys| - 1]); }
  }
}
