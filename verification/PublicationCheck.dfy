/** The manifest check as the program runs it: loops that fill one list of failures. */
module PublicationCheck {
  import opened Ordering
  import opened Json
  import opened SchemaCompat
  import opened Publication

  datatype Kind =
    | ManifestMissing | WrongVersion | WrongAlgorithm | NoSchemas
    | NotAnEntry | BadId | BadPath | BadStability | BadDigest | NotSorted | DuplicateId | DuplicatePath
    | NotNormalized | OutsideSchemas | NotJson | Escapes | FileMissing
    | StemDiffers | FileUnparsable | DigestDiffers | BadChange
    | Unlisted | Unpublished | BadTombstones | StillPublished
    | BaseMissing | PathMoved | BaseFileMissing | BaseFileUnparsable | Incompatible
    | ChangeNotDescribed | RemovalNotDescribed

  datatype Finding = Finding(kind: Kind, subject: string)

  /** The variables of the loop over the entries. */
  datatype Scan = Scan(
    failures: seq<Finding>,
    manifestPaths: set<string>,
    seen: set<string>,
    ids: set<string>,
    previous: string,
    validated: seq<Entry>)
  {
    function Fail(kind: Kind, subject: string): Scan { this.(failures := failures + [Finding(kind, subject)]) }

    function FailIf(faulty: bool, kind: Kind, subject: string): (r: Scan)
      ensures forall f :: f in r.failures <==> f in failures || (faulty && f == Finding(kind, subject))
      ensures r.failures == [] <==> failures == [] && !faulty
      ensures r == this.(failures := r.failures)
    {
      if faulty then Fail(kind, subject) else this
    }
  }

  /** `e` has no fault of its own and fits after the entries scanned so far. */
  ghost predicate Admits(r: Revision, st: Scan, e: RawEntry) {
    && e.Object? && EntryFits(r, e.entry)
    && Less(st.previous, e.entry.id.value)
    && e.entry.id.value !in st.ids && e.entry.path.value !in st.seen
  }

  function Admitted(st: Scan, e: Entry): Scan
    requires e.id.Some? && e.path.Some?
  {
    Scan(st.failures, st.manifestPaths + {e.path.value}, st.seen + {e.path.value}, st.ids + {e.id.value}, e.id.value,
         st.validated + [e])
  }

  // ---------------------------------------------------------------- what is reported for an entry

  /** The entry has a contract identifier and a path, so it is looked at further. */
  predicate Located(raw: RawEntry) {
    && raw.Object? && raw.entry.id.Some? && raw.entry.id.value != ""
    && raw.entry.path.Some? && raw.entry.path.value != ""
  }

  /** What an entry is reported for after others, of which the scan keeps identifiers and paths. */
  predicate Raises(r: Revision, ids: set<string>, seen: set<string>, previous: string, raw: RawEntry, f: Finding) {
    if raw.NotAnObject? then f == Finding(NotAnEntry, "")
    else if raw.entry.id.None? || raw.entry.id.value == "" then f == Finding(BadId, "")
    else if !Located(raw) then f == Finding(BadPath, raw.entry.id.value)
    else LocatedRaises(r, ids, seen, previous, raw.entry, f)
  }

  predicate LocatedRaises(r: Revision, ids: set<string>, seen: set<string>, previous: string, e: Entry, f: Finding)
    requires Located(Object(e))
  {
    HeaderRaises(ids, seen, previous, e, f) || RaisesInFile(r, e, f)
  }

  /** What its other fields and its place among the entries are reported for. */
  predicate HeaderRaises(ids: set<string>, seen: set<string>, previous: string, e: Entry, f: Finding)
    requires Located(Object(e))
  {
    match f.kind
    case BadStability => f.subject == e.id.value && e.stability == Unknown
    case BadDigest => f.subject == e.id.value && e.digest.None?
    case NotSorted => f.subject == e.id.value && !Less(previous, e.id.value)
    case DuplicateId => f.subject == e.id.value && e.id.value in ids
    case DuplicatePath => f.subject == e.path.value && e.path.value in seen
    case _ => false
  }

  /** What its path and its file are reported for. */
  predicate RaisesInFile(r: Revision, e: Entry, f: Finding)
    requires e.id.Some? && e.path.Some?
  {
    var id, path := e.id.value, e.path.value;
    if !PathFits(r, path) then
      f == Finding(if !Normalized(path) then NotNormalized
                   else if !(PREFIX <= path) then OutsideSchemas
                   else if !EndsWith(path, SUFFIX) then NotJson
                   else Escapes, path)
    else if path !in r.files then f == Finding(FileMissing, path)
    else
      match f.kind
      case StemDiffers => f.subject == id && Stem(path) != id
      case FileUnparsable => f.subject == path && r.files[path].Unparsable?
      case DigestDiffers =>
        && f.subject == id && r.files[path].Parsed? && e.digest.Some?
        && e.digest.value != ContentDigest(r.files[path].schema)
      case BadChange =>
        f.subject == id && r.files[path].Parsed? && e.digest.Some? && !ChangeFits(e.change, e.digest.value)
      case _ => false
  }

  /** The body of the loop over the entries. */
  method CheckEntry(r: Revision, st: Scan, raw: RawEntry) returns (out: Scan)
    ensures forall f :: f in out.failures <==> f in st.failures || Raises(r, st.ids, st.seen, st.previous, raw, f)
    ensures if Located(raw)
      then out.ids == st.ids + {raw.entry.id.value} && out.seen == st.seen + {raw.entry.path.value}
           && out.previous == raw.entry.id.value
      else out.ids == st.ids && out.seen == st.seen && out.previous == st.previous
    ensures out.failures == [] <==> st.failures == [] && Admits(r, st, raw)
    ensures out.failures == [] ==> out == Admitted(st, raw.entry)
  {
    hide LocatedRaises;
    out := st;
    if raw.NotAnObject? { return out.Fail(NotAnEntry, ""); }
    var e := raw.entry;
    if e.id.None? || e.id.value == "" { return out.Fail(BadId, ""); }
    if e.path.None? || e.path.value == "" { return out.Fail(BadPath, e.id.value); }
    out := CheckLocated(r, st, e);
  }

  /** The rest of the body, for an entry with an identifier and a path. */
  method CheckLocated(r: Revision, st: Scan, e: Entry) returns (out: Scan)
    requires Located(Object(e))
    ensures forall f :: f in out.failures <==> f in st.failures || LocatedRaises(r, st.ids, st.seen, st.previous, e, f)
    ensures out.ids == st.ids + {e.id.value} && out.seen == st.seen + {e.path.value} && out.previous == e.id.value
    ensures out.failures == [] <==> st.failures == [] && Admits(r, st, Object(e))
    ensures out.failures == [] ==> out == Admitted(st, e)
  {
    hide Normalized, Stem, Less, EndsWith, PathFits, FileFits, EntryFits, ChangeFits, RaisesInFile, HeaderRaises;
    out := CheckHeader(st, e);
    FitsInFile(r, e);
    out := CheckFile(r, out, e);
  }

  /** Its first half, up to the path's shape. */
  method CheckHeader(st: Scan, e: Entry) returns (out: Scan)
    requires Located(Object(e))
    ensures forall f :: f in out.failures <==> f in st.failures || HeaderRaises(st.ids, st.seen, st.previous, e, f)
    ensures out == st.(failures := out.failures, previous := e.id.value, ids := st.ids + {e.id.value},
                       seen := st.seen + {e.path.value})
    ensures out.failures == [] <==>
      && st.failures == [] && e.stability != Unknown && e.digest.Some? && Less(st.previous, e.id.value)
      && e.id.value !in st.ids && e.path.value !in st.seen
  {
    hide Less, Scan.FailIf;
    var id, path := e.id.value, e.path.value;
    out := st.FailIf(e.stability == Unknown, BadStability, id);
    out := out.FailIf(e.digest.None?, BadDigest, id);
    out := out.FailIf(!Less(out.previous, id), NotSorted, id);
    out := out.(previous := id);
    out := out.FailIf(id in out.ids, DuplicateId, id);
    out := out.(ids := out.ids + {id});
    out := out.FailIf(path in out.seen, DuplicatePath, path);
    out := out.(seen := out.seen + {path});
  }

  lemma FitsInFile(r: Revision, e: Entry)
    requires Located(Object(e))
    ensures e.digest.Some? && e.stability != Unknown ==> (FileFits(r, e) <==> EntryFits(r, e))
    ensures EntryFits(r, e) ==> e.digest.Some? && e.stability != Unknown
  {
  }

  /** The rest of the body, from the path's shape on. */
  method CheckFile(r: Revision, st: Scan, e: Entry) returns (out: Scan)
    requires e.id.Some? && e.path.Some? && (st.failures == [] ==> e.digest.Some? && e.stability != Unknown)
    ensures forall f :: f in out.failures <==> f in st.failures || RaisesInFile(r, e, f)
    ensures out.ids == st.ids && out.seen == st.seen && out.previous == st.previous
    ensures out.failures == [] <==> st.failures == [] && FileFits(r, e)
    ensures out.failures == [] ==>
      out == st.(manifestPaths := st.manifestPaths + {e.path.value}, validated := st.validated + [e])
  {
    hide Normalized, Stem, EndsWith, ChangeFits;
    var id, path := e.id.value, e.path.value;
    out := st;
    if !Normalized(path) { return out.Fail(NotNormalized, path); }
    if !(PREFIX <= path) { return out.Fail(OutsideSchemas, path); }
    if !EndsWith(path, SUFFIX) { return out.Fail(NotJson, path); }
    if path in r.escaping { return out.Fail(Escapes, path); }
    out := out.(manifestPaths := out.manifestPaths + {path});
    if path !in r.files { return out.Fail(FileMissing, path); }
    if Stem(path) != id { out := out.Fail(StemDiffers, id); }
    if r.files[path].Unparsable? { return out.Fail(FileUnparsable, path); }
    if e.digest.Some? {
      if e.digest.value != ContentDigest(r.files[path].schema) { out := out.Fail(DigestDiffers, id); }
      if !ChangeFits(e.change, e.digest.value) { out := out.Fail(BadChange, id); }
    }
    if e.stability != Unknown && e.digest.Some? {
      out := out.(validated := out.validated + [e]);
    }
  }

  predicate FileFits(r: Revision, e: Entry)
    requires e.id.Some? && e.path.Some?
  {
    && PathFits(r, e.path.value)
    && e.path.value in r.files && r.files[e.path.value].Parsed?
    && Stem(e.path.value) == e.id.value
    && (e.digest.Some? ==>
          e.digest.value == ContentDigest(r.files[e.path.value].schema) && ChangeFits(e.change, e.digest.value))
  }

  /** What the scan knows once it has met no failure. */
  ghost predicate ScanOf(entries: seq<RawEntry>, st: Scan)
    requires forall i :: 0 <= i < |entries| ==>
      entries[i].Object? && entries[i].entry.id.Some? && entries[i].entry.path.Some?
  {
    && st.manifestPaths == st.seen == EntryPaths(entries)
    && (forall id :: id in st.ids <==> exists i :: 0 <= i < |entries| && entries[i].entry.id.value == id)
    && st.previous == (if entries == [] then "" else entries[|entries| - 1].entry.id.value)
    && |st.validated| == |entries| && forall i :: 0 <= i < |entries| ==> st.validated[i] == entries[i].entry
  }

  lemma NothingBelowEmpty(a: string)
    ensures Less("", a) <==> a != ""
  {
    if a != "" { assert LessAt("", a, 0); }
  }

  /** Fitting after the previous entry is fitting after all of them. */
  lemma OneMoreFits(r: Revision, entries: seq<RawEntry>, st: Scan, e: RawEntry)
    requires EntriesFit(r, entries) && ScanOf(entries, st)
    ensures Admits(r, st, e) <==> EntriesFit(r, entries + [e])
  {
    hide PathFits, Stem, Less;
    var more := entries + [e];
    if Admits(r, st, e) {
      forall i, j | 0 <= i < j < |more| ensures InOrder(more[i].entry, more[j].entry) {
        if j < |entries| {
          assert InOrder(entries[i].entry, entries[j].entry);
        } else {
          BelowTheLast(r, entries, i, e.entry.id.value);
          assert entries[i] in entries && entries[i].entry.path.value in EntryPaths(entries);
        }
      }
    }
    if EntriesFit(r, more) {
      assert more[|entries|] == e;
      if entries == [] {
        NothingBelowEmpty(e.entry.id.value);
      } else {
        assert InOrder(more[|entries| - 1].entry, more[|entries|].entry);
      }
      forall i | 0 <= i < |entries|
        ensures entries[i].entry.id.value != e.entry.id.value && entries[i].entry.path != e.entry.path
      {
        assert InOrder(more[i].entry, more[|entries|].entry);
        LessIsIrreflexive(e.entry.id.value);
      }
    }
  }

  lemma BelowTheLast(r: Revision, entries: seq<RawEntry>, i: nat, id: string)
    requires EntriesFit(r, entries) && i < |entries| && Less(entries[|entries| - 1].entry.id.value, id)
    ensures Less(entries[i].entry.id.value, id)
  {
    hide PathFits, Stem, Less;
    if i < |entries| - 1 {
      assert InOrder(entries[i].entry, entries[|entries| - 1].entry);
      LessIsTransitive(entries[i].entry.id.value, entries[|entries| - 1].entry.id.value, id);
    }
  }

  lemma ScanGrows(entries: seq<RawEntry>, st: Scan, e: RawEntry)
    requires forall i :: 0 <= i < |entries| ==>
      entries[i].Object? && entries[i].entry.id.Some? && entries[i].entry.path.Some?
    requires ScanOf(entries, st) && e.Object? && e.entry.id.Some? && e.entry.path.Some?
    ensures ScanOf(entries + [e], Admitted(st, e.entry))
  {
    var more := entries + [e];
    assert EntryPaths(more) == EntryPaths(entries) + {e.entry.path.value} by { assert more[|entries|] == e; }
    forall id | id in st.ids + {e.entry.id.value}
      ensures exists i :: 0 <= i < |more| && more[i].entry.id.value == id
    {
      if id in st.ids {
        var i :| 0 <= i < |entries| && entries[i].entry.id.value == id;
        assert more[i].entry.id.value == id;
      } else {
        assert more[|entries|].entry.id.value == id;
      }
    }
  }

  lemma PrefixFits(r: Revision, entries: seq<RawEntry>, e: RawEntry)
    requires EntriesFit(r, entries + [e])
    ensures EntriesFit(r, entries)
  {
    hide EntryFits, InOrder;
    var more := entries + [e];
    forall i | 0 <= i < |entries| ensures entries[i].Object? && EntryFits(r, entries[i].entry) {
      assert more[i] == entries[i];
    }
    forall i, j | 0 <= i < j < |entries| ensures entries[i].entry.id.Some? && entries[j].entry.id.Some?
      && InOrder(entries[i].entry, entries[j].entry)
    {
      assert more[i] == entries[i] && more[j] == entries[j];
      IdsOf(r, more, i);
      IdsOf(r, more, j);
    }
  }

  lemma IdsOf(r: Revision, entries: seq<RawEntry>, i: nat)
    requires EntriesFit(r, entries) && i < |entries|
    ensures entries[i].Object? && entries[i].entry.id.Some? && entries[i].entry.path.Some?
  {
  }

  /** Entry `i` is reported for `f`, given the entries before it. */
  ghost predicate RaisedAt(r: Revision, entries: seq<RawEntry>, i: nat, f: Finding) {
    i < |entries| && Raises(r, IdsIn(entries[..i]), PathsIn(entries[..i]), LastId(entries[..i]), entries[i], f)
  }

  function IdsIn(entries: seq<RawEntry>): set<string> {
    set x | x in entries && Located(x) :: x.entry.id.value
  }

  function PathsIn(entries: seq<RawEntry>): set<string> {
    set x | x in entries && Located(x) :: x.entry.path.value
  }

  /** The identifier of the last entry that was looked at further. */
  function LastId(entries: seq<RawEntry>): string {
    if entries == [] then ""
    else
      var last := entries[|entries| - 1];
      if Located(last) then last.entry.id.value else LastId(entries[..|entries| - 1])
  }

  lemma OneMoreEntry(entries: seq<RawEntry>, e: RawEntry)
    ensures IdsIn(entries + [e]) == IdsIn(entries) + (if Located(e) then {e.entry.id.value} else {})
    ensures PathsIn(entries + [e]) == PathsIn(entries) + (if Located(e) then {e.entry.path.value} else {})
    ensures LastId(entries + [e]) == if Located(e) then e.entry.id.value else LastId(entries)
  {
    hide Located;
    assert (entries + [e])[..|entries|] == entries;
    assert forall x :: x in entries + [e] <==> x in entries || x == e;
    assert (entries + [e])[|entries|] == e;
  }

  method CheckEntries(r: Revision, entries: seq<RawEntry>) returns (st: Scan)
    ensures forall f :: f in st.failures <==> exists i :: 0 <= i < |entries| && RaisedAt(r, entries, i, f)
    ensures st.failures == [] <==> EntriesFit(r, entries)
    ensures st.failures == [] ==> ScanOf(entries, st)
  {
    hide Admits, Admitted, EntriesFit, ScanOf, Raises, Located, IdsIn, PathsIn, LastId;
    st := Scan([], {}, {}, {}, "", []);
    EmptyScan(r, st);
    for i := 0 to |entries|
      invariant forall f :: f in st.failures <==> exists j :: 0 <= j < i && RaisedAt(r, entries, j, f)
      invariant st.ids == IdsIn(entries[..i]) && st.seen == PathsIn(entries[..i]) && st.previous == LastId(entries[..i])
      invariant st.failures == [] <==> EntriesFit(r, entries[..i])
      invariant st.failures == [] ==> Readable(entries[..i]) && ScanOf(entries[..i], st)
    {
      assert entries[..i + 1] == entries[..i] + [entries[i]];
      OneMoreEntry(entries[..i], entries[i]);
      ghost var before := st;
      forall f ensures RaisedAt(r, entries, i, f) <==>
        Raises(r, before.ids, before.seen, before.previous, entries[i], f) { }
      var next := CheckEntry(r, st, entries[i]);
      if st.failures == [] {
        OneMoreFits(r, entries[..i], st, entries[i]);
        if next.failures == [] {
          AdmittedIsReadable(r, entries[..i], st, entries[i]);
          ScanGrows(entries[..i], st, entries[i]);
        }
      } else if EntriesFit(r, entries[..i + 1]) {
        PrefixFits(r, entries[..i], entries[i]);
      }
      st := next;
    }
    assert entries[..|entries|] == entries;
  }

  ghost predicate Readable(entries: seq<RawEntry>) {
    forall i :: 0 <= i < |entries| ==> entries[i].Object? && entries[i].entry.id.Some? && entries[i].entry.path.Some?
  }

  lemma EmptyScan(r: Revision, st: Scan)
    requires st == Scan([], {}, {}, {}, "", [])
    ensures EntriesFit(r, []) && ScanOf([], st) && IdsIn([]) == {} && PathsIn([]) == {} && LastId([]) == ""
  {
  }

  lemma AdmittedIsReadable(r: Revision, entries: seq<RawEntry>, st: Scan, e: RawEntry)
    requires Readable(entries) && Admits(r, st, e)
    ensures Readable(entries + [e]) && e.Object? && e.entry.id.Some? && e.entry.path.Some?
  {
  }

  // ---------------------------------------------------------------- tombstones

  /** `_removal_ledger` */
  method RemovalLedger(t: Tombstones) returns (tombstones: set<string>, failures: seq<Finding>)
    ensures tombstones == TombstonePaths(t)
    ensures failures == [] <==> TombstonesFit(t)
  {
    tombstones, failures := {}, [];
    match t {
      case NoneRecorded =>
      case NotAnArray => failures := [Finding(BadTombstones, "")];
      case Listed(items) =>
        for i := 0 to |items|
          invariant tombstones == TombstonePaths(Listed(items[..i]))
          invariant failures == [] <==> TombstonesFit(Listed(items[..i]))
        {
          assert items[..i + 1] == items[..i] + [items[i]];
          var x := items[i];
          if x.NotATable? || x.path.None? || x.path.value == "" {
            failures := failures + [Finding(BadTombstones, "")];
          } else if !x.hasSummary {
            failures := failures + [Finding(BadTombstones, x.path.value)];
          } else {
            tombstones := tombstones + {x.path.value};
          }
        }
        assert items[..|items|] == items;
    }
  }

  /** One failure for each name of a set, in sorted order. */
  method ReportAll(kind: Kind, names: set<string>) returns (failures: seq<Finding>)
    ensures forall f :: f in failures <==> f.kind == kind && f.subject in names
    ensures failures == [] <==> names == {}
    ensures |failures| == |names|
  {
    hide SortedNames;
    failures := [];
    var list := SortedNames(names);
    for i := 0 to |list|
      invariant |failures| == i
      invariant forall f :: f in failures <==> f.kind == kind && f.subject in list[..i]
    {
      failures := failures + [Finding(kind, list[i])];
    }
  }

  // ---------------------------------------------------------------- against the base

  ghost predicate StableEntryKept(base: Revision, head: Revision, e: Entry)
    requires EntryFits(head, e) && base.manifest.Some?
  {
    e.stability == Stable ==> StableKept(base, e, head.files[e.path.value].schema)
  }

  /** `_check_stable_schema_changes` */
  method CheckStableSchemaChanges(base: Revision, head: Revision, validated: seq<Entry>)
    returns (failures: seq<Finding>)
    requires forall i :: 0 <= i < |validated| ==> EntryFits(head, validated[i])
    ensures failures == [] <==>
      && ((exists i :: 0 <= i < |validated| && validated[i].stability == Stable) ==> base.manifest.Some?)
      && (base.manifest.Some? ==> forall i :: 0 <= i < |validated| ==> StableEntryKept(base, head, validated[i]))
  {
    hide StableKept, PathFits, Stem;
    failures := [];
    if base.manifest.None? {
      if exists i :: 0 <= i < |validated| && validated[i].stability == Stable {
        failures := [Finding(BaseMissing, "")];
      }
      return;
    }
    for i := 0 to |validated|
      invariant failures == [] <==> forall j :: 0 <= j < i ==> StableEntryKept(base, head, validated[j])
    {
      var e := validated[i];
      if e.stability == Stable {
        var found := CheckStableEntry(base, e, head.files[e.path.value].schema);
        failures := failures + found;
      }
    }
  }

  method CheckStableEntry(base: Revision, e: Entry, schema: Json) returns (failures: seq<Finding>)
    requires base.manifest.Some? && e.id.Some? && e.path.Some? && e.digest == Some(ContentDigest(schema))
    ensures failures == [] <==> StableKept(base, e, schema)
  {
    hide SchemaChanges, Compatible, LastWithId;
    failures := [];
    var found := LastWithId(BaseEntries(base), e.id.value);
    if found.None? || found.value.stability != Stable || found.value.path.None? { return; }
    var path := found.value.path.value;
    if path != e.path.value { return [Finding(PathMoved, e.id.value)]; }
    if path !in base.files { return [Finding(BaseFileMissing, e.id.value)]; }
    if base.files[path].Unparsable? { return [Finding(BaseFileUnparsable, e.id.value)]; }
    var was := base.files[path].schema;
    if Some(ContentDigest(was)) == e.digest { return; }
    var changes := SchemaBreakingChanges(was, schema);
    if changes != [] { failures := [Finding(Incompatible, e.id.value)]; }
  }

  /** The file of the entry is new or changed since the base, and the entry says nothing of it. */
  predicate Undescribed(base: Revision, e: Entry, path: string)
    requires e.path.Some? && e.digest.Some?
  {
    e.path.value == path && !Unchanged(base, path, e.digest.value) && e.change.Unrecorded?
  }

  /** `_check_change_ledger`, its first loop. */
  method CheckChangeLedger(base: Revision, validated: seq<Entry>) returns (failures: seq<Finding>)
    requires forall i :: 0 <= i < |validated| ==> validated[i].path.Some? && validated[i].digest.Some?
    ensures forall f :: f in failures <==> (
      f.kind == ChangeNotDescribed && exists i :: 0 <= i < |validated| && Undescribed(base, validated[i], f.subject))
    ensures failures == [] <==> forall i :: 0 <= i < |validated| ==>
      Unchanged(base, validated[i].path.value, validated[i].digest.value) || !validated[i].change.Unrecorded?
  {
    hide Unchanged;
    failures := [];
    for i := 0 to |validated|
      invariant forall f :: f in failures <==> (
        f.kind == ChangeNotDescribed && exists j :: 0 <= j < i && Undescribed(base, validated[j], f.subject))
      invariant failures == [] <==> forall j :: 0 <= j < i ==>
        Unchanged(base, validated[j].path.value, validated[j].digest.value) || !validated[j].change.Unrecorded?
    {
      var e := validated[i];
      if !Unchanged(base, e.path.value, e.digest.value) && e.change.Unrecorded? {
        failures := failures + [Finding(ChangeNotDescribed, e.path.value)];
      }
    }
  }

  function BasePathOf(entries: seq<RawEntry>, id: string): Option<string> {
    match LastWithId(entries, id)
    case Some(b) => b.path
    case None => None
  }

  /** The schema paths of the indexed base entries. */
  function BasePaths(entries: seq<RawEntry>): set<string> {
    set x | x in entries && x.Object? && x.entry.id.Some?
      && BasePathOf(entries, x.entry.id.value).Some? && PREFIX <= BasePathOf(entries, x.entry.id.value).value
      :: BasePathOf(entries, x.entry.id.value).value
  }

  lemma {:induction false} IndexedIdIsListed(entries: seq<RawEntry>, id: string)
    requires LastWithId(entries, id).Some?
    ensures exists x :: x in entries && x.Object? && x.entry.id == Some(id)
  {
    var e := entries[|entries| - 1];
    if !(e.Object? && e.entry.id == Some(id)) {
      IndexedIdIsListed(entries[..|entries| - 1], id);
    }
  }

  lemma BasePathsAreNamed(base: Revision, path: string)
    requires base.manifest.Some?
    ensures path in BasePaths(BaseEntries(base)) <==> NamedAtBase(base, path)
  {
    var entries := BaseEntries(base);
    if path in BasePaths(entries) {
      var x :| x in entries && x.Object? && x.entry.id.Some? && BasePathOf(entries, x.entry.id.value) == Some(path);
      assert NamedBy(base, x.entry.id.value, path);
    }
    if NamedAtBase(base, path) {
      var id :| NamedBy(base, id, path);
      IndexedIdIsListed(entries, id);
      assert BasePathOf(entries, id) == Some(path);
    }
  }

  /** `_check_removal_ledger` */
  method CheckRemovalLedger(base: Revision, currentPaths: set<string>, tombstones: set<string>)
    returns (failures: seq<Finding>)
    ensures forall f :: f in failures <==>
      && f.kind == RemovalNotDescribed && base.manifest.Some? && NamedAtBase(base, f.subject)
      && f.subject !in currentPaths && f.subject !in tombstones
    ensures failures == [] <==>
      (base.manifest.Some? ==> forall path :: NamedAtBase(base, path) ==> path in currentPaths || path in tombstones)
  {
    hide NamedAtBase, BasePaths;
    failures := [];
    if base.manifest.Some? {
      var gone := BasePaths(BaseEntries(base)) - currentPaths - tombstones;
      failures := ReportAll(RemovalNotDescribed, gone);
      forall path ensures path in gone <==> NamedAtBase(base, path) && path !in currentPaths && path !in tombstones {
        BasePathsAreNamed(base, path);
      }
      assert gone == {} <==> forall path :: path !in gone;
    }
  }

  // ---------------------------------------------------------------- the whole check

  /** The part of `validate_schema_publication_manifest` that looks at one revision. */
  method CheckRevision(r: Revision) returns (failures: seq<Finding>, validated: seq<Entry>, tombstones: set<string>)
    ensures failures == [] <==> Consistent(r)
    ensures failures == [] ==> tombstones == TombstonePaths(r.manifest.value.removed)
    ensures failures == [] ==> var entries := r.manifest.value.entries.value;
      |validated| == |entries| && forall i :: 0 <= i < |entries| ==> entries[i] == Object(validated[i])
  {
    hide EntryFits, InOrder, PublishedPaths, EntryPaths, TombstonePaths, TombstonesFit;
    failures, validated, tombstones := [], [], {};
    if r.manifest.None? { return [Finding(ManifestMissing, "")], validated, tombstones; }
    var m := r.manifest.value;
    if !m.versionKnown { failures := failures + [Finding(WrongVersion, "")]; }
    if !m.algorithmKnown { failures := failures + [Finding(WrongAlgorithm, "")]; }
    if m.entries.None? || m.entries.value == [] {
      failures := failures + [Finding(NoSchemas, "")];
      return;
    }
    var entries := m.entries.value;
    var st := CheckEntries(r, entries);
    failures, validated := failures + st.failures, st.validated;
    var published := PublishedPaths(r);
    var unlisted := ReportAll(Unlisted, published - st.manifestPaths);
    var unpublished := ReportAll(Unpublished, st.manifestPaths - published);
    var found: seq<Finding>;
    tombstones, found := RemovalLedger(m.removed);
    var standing := ReportAll(StillPublished, tombstones * st.manifestPaths);
    failures := failures + unlisted + unpublished + found + standing;
    SameSet(published, st.manifestPaths);
  }

  lemma SameSet<T>(a: set<T>, b: set<T>)
    ensures a - b == {} && b - a == {} <==> a == b
  {
    if a - b == {} && b - a == {} {
      forall x ensures x in a <==> x in b {
        assert x !in a - b && x !in b - a;
      }
    }
  }

  /** `validate_schema_publication_manifest`: no failure exactly when the revision is accepted. */
  method ValidateManifest(head: Revision, base: Option<Revision>) returns (failures: seq<Finding>)
    ensures failures == [] <==> Accepted(head, base)
  {
    hide Consistent;
    var found, validated, tombstones := CheckRevision(head);
    failures := found;
    if failures == [] && base.Some? {
      var later := CheckAgainstBase(base.value, head, validated, tombstones);
      failures := failures + later;
    }
  }

  method CheckAgainstBase(base: Revision, head: Revision, validated: seq<Entry>, tombstones: set<string>)
    returns (failures: seq<Finding>)
    requires Consistent(head) && tombstones == TombstonePaths(head.manifest.value.removed)
    requires var entries := head.manifest.value.entries.value;
      |validated| == |entries| && forall i :: 0 <= i < |entries| ==> entries[i] == Object(validated[i])
    ensures failures == [] <==> Follows(base, head)
  {
    hide PathFits, Stem, StableKept, Unchanged, TombstonePaths;
    var entries := head.manifest.value.entries.value;
    assert forall i :: 0 <= i < |validated| ==> EntryFits(head, validated[i]) by {
      forall i | 0 <= i < |validated| ensures EntryFits(head, validated[i]) {
        assert entries[i].Object? && EntryFits(head, entries[i].entry);
      }
    }
    var stable := CheckStableSchemaChanges(base, head, validated);
    var changed := CheckChangeLedger(base, validated);
    var currentPaths := set i | 0 <= i < |validated| :: validated[i].path.value;
    var removed := CheckRemovalLedger(base, currentPaths, tombstones);
    failures := stable + changed + removed;
    ListedIsIndexed(entries, validated);
  }

  /** Reading the entries one by one is reading the validated ones. */
  lemma ListedIsIndexed(entries: seq<RawEntry>, validated: seq<Entry>)
    requires |validated| == |entries| && forall i :: 0 <= i < |entries| ==> entries[i] == Object(validated[i])
    requires forall i :: 0 <= i < |validated| ==> validated[i].path.Some?
    ensures forall e :: Object(e) in entries <==> e in validated
    ensures EntryPaths(entries) == set i | 0 <= i < |validated| :: validated[i].path.value
  {
    forall e | e in validated ensures Object(e) in entries {
      var i :| 0 <= i < |validated| && validated[i] == e;
      assert entries[i] == Object(e);
    }
    forall path | path in EntryPaths(entries)
      ensures exists i :: 0 <= i < |validated| && validated[i].path.value == path {
      var x :| x in entries && x.Object? && x.entry.path.Some? && x.entry.path.value == path;
      var i :| 0 <= i < |entries| && entries[i] == x;
      assert validated[i].path.value == path;
    }
    forall i | 0 <= i < |validated| ensures validated[i].path.value in EntryPaths(entries) {
      assert entries[i] in entries;
    }
  }
}
