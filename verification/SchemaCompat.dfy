/** The compatibility check between two revisions of a published schema. */
module SchemaCompat {
  import opened Ordering
  import opened Json
  import opened JsonPointer
  import opened SchemaNodes

  const ANNOTATION_KEYS: set<string> :=
    {"$comment", "$id", "$schema", "deprecated", "description", "examples", "readOnly", "title", "writeOnly"}
  const SPECIAL_KEYS: set<string> := {"default", "enum"}

  /** `_without_annotations`: drop annotation keys at every depth. */
  function WithoutAnnotations(v: Json): Json
  {
    match v
    case Obj(m) => Obj(map k | k in m && k !in ANNOTATION_KEYS :: WithoutAnnotations(m[k]))
    case Arr(items) => Arr(seq(|items|, i requires 0 <= i < |items| => WithoutAnnotations(items[i])))
    case _ => v
  }

  /** The keywords of a property schema that are compared as a whole. */
  predicate IsCoreKey(k: string) {
    k !in ANNOTATION_KEYS && k !in CHILD_KEYS && k !in SPECIAL_KEYS
  }

  /** `_property_core` of a dictionary. */
  function PropertyCore(m: Members): Json {
    Obj(map k | k in m && IsCoreKey(k) :: WithoutAnnotations(m[k]))
  }

  function EnumValues(m: Members): Option<seq<Json>> {
    if "enum" in m && m["enum"].Arr? then Some(m["enum"].items) else None
  }

  /** `_enum_missing_values`: the canonical texts of two values are equal when the values are the same. */
  function MissingValues(base: seq<Json>, head: seq<Json>): (r: seq<Json>)
    ensures r == [] <==> forall v :: v in base ==> v in head
    ensures forall v :: v in r <==> v in base && v !in head
  {
    if base == [] then []
    else
      assert base == [base[0]] + base[1..];
      (if base[0] in head then [] else [base[0]]) + MissingValues(base[1..], head)
  }

  function Properties(m: Members): Members {
    if "properties" in m && m["properties"].Obj? then m["properties"].members else map[]
  }

  function RequiredNames(m: Members): set<string> {
    if "required" in m && m["required"].Arr? then set v | v in m["required"].items && v.Str? :: v.text else {}
  }

  predicate IsClosed(m: Members) {
    "additionalProperties" in m && m["additionalProperties"] == Bool(false)
  }

  datatype Change =
    | SchemaChanged(pointer: string)
    | DefaultChanged(pointer: string)
    | EnumAdded(pointer: string)
    | EnumRemoved(pointer: string)
    | EnumValuesRemoved(pointer: string, values: seq<Json>)
    | ObjectRemoved(pointer: string)
    | PropertyRemoved(pointer: string)
    | NewlyRequired(pointer: string)
    | Tightened(pointer: string)

  function DefaultOf(m: Members): Option<Json> {
    if "default" in m then Some(Normal(m["default"])) else None
  }

  /** `_property_breaking_changes` */
  function PropertyChanges(pointer: string, base: Json, head: Json): seq<Change>
  {
    if !base.Obj? || !head.Obj? then
      if PyEqual(WithoutAnnotations(base), WithoutAnnotations(head)) then [] else [SchemaChanged(pointer)]
    else
      var (o, n) := (base.members, head.members);
      (if DefaultOf(o) != DefaultOf(n) then [DefaultChanged(pointer)] else [])
      + (match (EnumValues(o), EnumValues(n))
         case (None, Some(_)) => [EnumAdded(pointer)]
         case (Some(_), None) => [EnumRemoved(pointer)]
         case (Some(a), Some(b)) =>
           if MissingValues(a, b) != [] then [EnumValuesRemoved(pointer, MissingValues(a, b))] else []
         case (None, None) => [])
      + (if PyEqual(PropertyCore(o), PropertyCore(n)) then [] else [SchemaChanged(pointer)])
  }

  function RemovedChanges(pointer: string, names: seq<string>): (r: seq<Change>)
    ensures |r| == |names|
  {
    seq(|names|, i requires 0 <= i < |names| => PropertyRemoved(JsonPath(pointer, ["properties", names[i]])))
  }

  function RequiredChanges(pointer: string, names: seq<string>): (r: seq<Change>)
    ensures |r| == |names|
  {
    seq(|names|, i requires 0 <= i < |names| => NewlyRequired(JsonPath(pointer, ["required", names[i]])))
  }

  function KeptChanges(pointer: string, names: seq<string>, base: Members, head: Members): seq<Change>
    requires forall k :: k in names ==> k in base && k in head
  {
    if names == [] then []
    else
      var last := names[|names| - 1];
      KeptChanges(pointer, names[..|names| - 1], base, head)
      + PropertyChanges(JsonPath(pointer, ["properties", last]), base[last], head[last])
  }

  /** The changes at one node that both revisions have. */
  function NodeChanges(pointer: string, base: Members, head: Members): seq<Change> {
    RemovedChanges(pointer, SortedNames(Properties(base).Keys - Properties(head).Keys))
    + KeptChanges(pointer, SortedNames(Properties(base).Keys * Properties(head).Keys),
                  Properties(base), Properties(head))
    + RequiredChanges(pointer, SortedNames(RequiredNames(head) - RequiredNames(base)))
    + (if !IsClosed(base) && IsClosed(head) then [Tightened(pointer)] else [])
  }

  function ChangesAt(pointer: string, base: Members, headNodes: map<string, Members>): seq<Change> {
    if pointer in headNodes then NodeChanges(pointer, base, headNodes[pointer]) else [ObjectRemoved(pointer)]
  }

  function ChangesOver(pointers: seq<string>, baseNodes: map<string, Members>, headNodes: map<string,
                       Members>): seq<Change>
    requires forall p :: p in pointers ==> p in baseNodes
  {
    if pointers == [] then []
    else
      var last := pointers[|pointers| - 1];
      ChangesOver(pointers[..|pointers| - 1], baseNodes, headNodes) + ChangesAt(last, baseNodes[last], headNodes)
  }

  /** All changes between two documents, by ascending pointer. */
  function SchemaChanges(base: Json, head: Json): seq<Change> {
    var nodes := ObjectNodes(base, "");
    ChangesOver(SortedNames(nodes.Keys), nodes, ObjectNodes(head, ""))
  }

  /** `_schema_breaking_changes`, with the list that its loops fill. */
  method SchemaBreakingChanges(base: Json, head: Json) returns (changes: seq<Change>)
    ensures changes == SchemaChanges(base, head)
    ensures changes == [] <==> Compatible(base, head)
  {
    hide ObjectNodes, NodeChanges, Compatible, SortedNames;
    changes := [];
    var baseNodes := ObjectSchemaNodes(base, "");
    var headNodes := ObjectSchemaNodes(head, "");
    var pointers := SortedNames(baseNodes.Keys);
    for i := 0 to |pointers|
      invariant changes == ChangesOver(pointers[..i], baseNodes, headNodes)
    {
      var pointer := pointers[i];
      assert pointers[..i + 1][..i] == pointers[..i];
      if pointer !in headNodes {
        changes := changes + [ObjectRemoved(pointer)];
        continue;
      }
      var here := NodeBreakingChanges(pointer, baseNodes[pointer], headNodes[pointer]);
      changes := changes + here;
    }
    assert pointers[..|pointers|] == pointers;
    NoChangesMeansCompatible(base, head);
  }

  method NodeBreakingChanges(pointer: string, base: Members, head: Members) returns (changes: seq<Change>)
    ensures changes == NodeChanges(pointer, base, head)
  {
    hide RemovedChanges, KeptChanges, RequiredChanges, SortedNames, Properties, RequiredNames, IsClosed;
    var baseProperties, headProperties := Properties(base), Properties(head);
    var gone := SortedNames(baseProperties.Keys - headProperties.Keys);
    changes := ReportRemoved(pointer, gone);
    var common := SortedNames(baseProperties.Keys * headProperties.Keys);
    var kept := ReportKept(pointer, common, baseProperties, headProperties);
    changes := changes + kept;
    var required := ReportRequired(pointer, SortedNames(RequiredNames(head) - RequiredNames(base)));
    changes := changes + required;
    if !IsClosed(base) && IsClosed(head) {
      changes := changes + [Tightened(pointer)];
    }
  }

  method ReportRemoved(pointer: string, names: seq<string>) returns (changes: seq<Change>)
    ensures changes == RemovedChanges(pointer, names)
  {
    hide JsonPath;
    changes := [];
    for i := 0 to |names|
      invariant changes == RemovedChanges(pointer, names[..i])
    {
      changes := changes + [PropertyRemoved(JsonPath(pointer, ["properties", names[i]]))];
    }
    assert names[..|names|] == names;
  }

  method ReportKept(pointer: string, names: seq<string>, base: Members, head: Members) returns (changes: seq<Change>)
    requires forall k :: k in names ==> k in base && k in head
    ensures changes == KeptChanges(pointer, names, base, head)
  {
    hide JsonPath, PropertyChanges;
    changes := [];
    for i := 0 to |names|
      invariant changes == KeptChanges(pointer, names[..i], base, head)
    {
      assert names[..i + 1][..i] == names[..i];
      changes := changes + PropertyChanges(JsonPath(pointer, ["properties", names[i]]), base[names[i]], head[names[i]]);
    }
    assert names[..|names|] == names;
  }

  method ReportRequired(pointer: string, names: seq<string>) returns (changes: seq<Change>)
    ensures changes == RequiredChanges(pointer, names)
  {
    hide JsonPath;
    changes := [];
    for i := 0 to |names|
      invariant changes == RequiredChanges(pointer, names[..i])
    {
      changes := changes + [NewlyRequired(JsonPath(pointer, ["required", names[i]]))];
    }
    assert names[..|names|] == names;
  }

  // ---------------------------------------------------------------- what an empty list means

  ghost predicate EnumKept(base: Option<seq<Json>>, head: Option<seq<Json>>) {
    match (base, head)
    case (None, None) => true
    case (Some(a), Some(b)) => forall v :: v in a ==> v in b
    case _ => false
  }

  /** A property keeps its default and core, and its enumeration only grows. */
  ghost predicate PropertyKept(base: Json, head: Json) {
    if base.Obj? && head.Obj? then
      && DefaultOf(base.members) == DefaultOf(head.members)
      && EnumKept(EnumValues(base.members), EnumValues(head.members))
      && PyEqual(PropertyCore(base.members), PropertyCore(head.members))
    else PyEqual(WithoutAnnotations(base), WithoutAnnotations(head))
  }

  ghost predicate NodeKept(base: Members, head: Members) {
    && (forall n :: n in Properties(base) ==>
        n in Properties(head) && PropertyKept(Properties(base)[n], Properties(head)[n]))
    && RequiredNames(head) <= RequiredNames(base)
    && (IsClosed(head) ==> IsClosed(base))
  }

  ghost predicate Compatible(base: Json, head: Json) {
    forall p :: p in ObjectNodes(base, "") ==>
      p in ObjectNodes(head, "") && NodeKept(ObjectNodes(base, "")[p], ObjectNodes(head, "")[p])
  }

  lemma NoPropertyChanges(pointer: string, base: Json, head: Json)
    ensures PropertyChanges(pointer, base, head) == [] <==> PropertyKept(base, head)
  {
  }

  lemma {:induction false} NoKeptChanges(pointer: string, names: seq<string>, base: Members, head: Members)
    requires forall k :: k in names ==> k in base && k in head
    ensures KeptChanges(pointer, names, base, head) == [] <==> forall k :: k in names ==> PropertyKept(base[k], head[k])
  {
    hide JsonPath, PropertyChanges, PropertyKept;
    if names != [] {
      var last := names[|names| - 1];
      assert names == names[..|names| - 1] + [last];
      NoKeptChanges(pointer, names[..|names| - 1], base, head);
      NoPropertyChanges(JsonPath(pointer, ["properties", last]), base[last], head[last]);
    }
  }

  lemma NoNamesLeft(names: set<string>)
    ensures SortedNames(names) == [] <==> names == {}
  {
    NonemptyHasElement(SortedNames(names));
  }

  lemma NothingLeftOver<T>(a: set<T>, b: set<T>)
    ensures a - b == {} <==> a <= b
  {
    if a - b == {} {
      forall x | x in a ensures x in b { assert x !in a - b; }
    }
  }

  lemma NoNodeChanges(pointer: string, base: Members, head: Members)
    ensures NodeChanges(pointer, base, head) == [] <==> NodeKept(base, head)
  {
    hide RemovedChanges, KeptChanges, RequiredChanges, PropertyKept, SortedNames, Properties, RequiredNames, IsClosed;
    var o, n := Properties(base), Properties(head);
    NoNamesLeft(o.Keys - n.Keys);
    NoNamesLeft(RequiredNames(head) - RequiredNames(base));
    NoKeptChanges(pointer, SortedNames(o.Keys * n.Keys), o, n);
    NothingLeftOver(o.Keys, n.Keys);
    NothingLeftOver(RequiredNames(head), RequiredNames(base));
  }

  lemma {:induction false} NoChangesOver(pointers: seq<string>, baseNodes: map<string, Members>,
                                         headNodes: map<string, Members>)
    requires forall p :: p in pointers ==> p in baseNodes
    ensures ChangesOver(pointers, baseNodes, headNodes) == [] <==>
      forall p :: p in pointers ==> p in headNodes && NodeKept(baseNodes[p], headNodes[p])
  {
    hide NodeChanges, NodeKept;
    if pointers != [] {
      var last := pointers[|pointers| - 1];
      assert pointers == pointers[..|pointers| - 1] + [last];
      NoChangesOver(pointers[..|pointers| - 1], baseNodes, headNodes);
      if last in headNodes { NoNodeChanges(last, baseNodes[last], headNodes[last]); }
    }
  }

  /** The list is empty exactly when every node of the base document is kept by the new one. */
  lemma NoChangesMeansCompatible(base: Json, head: Json)
    ensures SchemaChanges(base, head) == [] <==> Compatible(base, head)
  {
    hide NodeKept, ObjectNodes;
    var nodes := ObjectNodes(base, "");
    NoChangesOver(SortedNames(nodes.Keys), nodes, ObjectNodes(head, ""));
  }

  // ---------------------------------------------------------------- the check is a preorder

  lemma PropertyKeptIsTransitive(a: Json, b: Json, c: Json)
    requires PropertyKept(a, b) && PropertyKept(b, c)
    ensures PropertyKept(a, c)
  {
  }

  lemma NodeKeptIsTransitive(a: Members, b: Members, c: Members)
    requires NodeKept(a, b) && NodeKept(b, c)
    ensures NodeKept(a, c)
  {
    hide PropertyKept;
    forall n | n in Properties(a) ensures n in Properties(c) && PropertyKept(Properties(a)[n], Properties(c)[n]) {
      PropertyKeptIsTransitive(Properties(a)[n], Properties(b)[n], Properties(c)[n]);
    }
  }

  lemma NodeKeptIsReflexive(a: Members)
    ensures NodeKept(a, a)
  {
  }

  /** An unchanged document has no breaking changes. */
  lemma NoBreakingChangesIsReflexive(a: Json)
    ensures SchemaChanges(a, a) == []
  {
    hide SchemaChanges, ObjectNodes, NodeKept;
    forall p | p in ObjectNodes(a, "") { NodeKeptIsReflexive(ObjectNodes(a, "")[p]); }
    NoChangesMeansCompatible(a, a);
  }

  /** Two compatible steps make a compatible step, on any JSON documents whatever. */
  lemma NoBreakingChangesIsTransitive(a: Json, b: Json, c: Json)
    requires SchemaChanges(a, b) == [] && SchemaChanges(b, c) == []
    ensures SchemaChanges(a, c) == []
  {
    hide SchemaChanges, ObjectNodes, NodeKept;
    NoChangesMeansCompatible(a, b);
    NoChangesMeansCompatible(b, c);
    forall p | p in ObjectNodes(a, "")
      ensures p in ObjectNodes(c, "") && NodeKept(ObjectNodes(a, "")[p], ObjectNodes(c, "")[p])
    {
      NodeKeptIsTransitive(ObjectNodes(a, "")[p], ObjectNodes(b, "")[p], ObjectNodes(c, "")[p]);
    }
    NoChangesMeansCompatible(a, c);
  }
}
