/** The schema publication manifest: what one revision must satisfy, and what a change to it must. */
module Publication {
  import opened Ordering
  import opened Json
  import opened JsonPointer
  import opened SchemaCompat

  /** A hex digest: that of some document, or one that no document in sight has. */
  datatype Digest = Sha256(content: Json) | Other(text: string)

  /** `_schema_content_digest`: equal for documents with the same canonical text, that is, the same value. */
  function ContentDigest(schema: Json): Digest { Sha256(schema) }

  datatype Stability = Draft | Stable | Unknown

  datatype LastChange = Unrecorded | Malformed | Record(hasSummary: bool, digest: Option<Digest>)

  /** A manifest entry as read: an absent or ill-typed field is `None`. */
  datatype Entry = Entry(
    id: Option<string>, path: Option<string>, stability: Stability, digest: Option<Digest>, change: LastChange)

  datatype RawEntry = NotAnObject | Object(entry: Entry)

  datatype RawTombstone = NotATable | Tombstone(path: Option<string>, hasSummary: bool)

  datatype Tombstones = NoneRecorded | NotAnArray | Listed(items: seq<RawTombstone>)

  datatype Manifest = Manifest(
    versionKnown: bool,
    algorithmKnown: bool,
    entries: Option<seq<RawEntry>>,
    removed: Tombstones)

  datatype File = Parsed(schema: Json) | Unparsable

  /**
   * One revision: the manifest (`None` when it cannot be loaded), the files, and which path texts
   * resolve outside the schema directory.
   */
  datatype Revision = Revision(manifest: Option<Manifest>, files: map<string, File>, escaping: set<string>)

  // ---------------------------------------------------------------- paths

  const PREFIX: string := "contracts/schemas/"
  const SUFFIX: string := ".json"

  predicate EndsWith(s: string, suffix: string) {
    |suffix| <= |s| && s[|s| - |suffix|..] == suffix
  }

  /** The path is its own normal form and is neither absolute nor starts above the repository. */
  predicate Normalized(path: string) {
    && (forall i :: 0 <= i < |Split(path)| ==> Split(path)[i] != "" && Split(path)[i] != ".")
    && !("../" <= path)
  }

  predicate PathFits(r: Revision, path: string) {
    Normalized(path) && PREFIX <= path && EndsWith(path, SUFFIX) && path !in r.escaping
  }

  /** The file name without its last suffix. */
  function Stem(path: string): string {
    var parts := Split(path);
    var name := parts[|parts| - 1];
    if name != SUFFIX && EndsWith(name, SUFFIX) then name[..|name| - |SUFFIX|] else name
  }

  /** The schema files on disk. */
  function PublishedPaths(r: Revision): set<string> {
    set path | path in r.files && PREFIX <= path && EndsWith(path, SUFFIX)
  }

  // ---------------------------------------------------------------- one entry

  predicate ChangeFits(change: LastChange, digest: Digest) {
    change.Unrecorded? || (change.Record? && change.hasSummary && change.digest == Some(digest))
  }

  /** An entry without any fault of its own. */
  predicate EntryFits(r: Revision, e: Entry) {
    && e.id.Some? && e.id.value != ""
    && e.path.Some? && e.path.value != ""
    && e.stability != Unknown
    && e.digest.Some?
    && PathFits(r, e.path.value)
    && e.path.value in r.files && r.files[e.path.value].Parsed?
    && Stem(e.path.value) == e.id.value
    && e.digest.value == ContentDigest(r.files[e.path.value].schema)
    && ChangeFits(e.change, e.digest.value)
  }

  predicate InOrder(a: Entry, b: Entry)
    requires a.id.Some? && b.id.Some?
  {
    Less(a.id.value, b.id.value) && a.path != b.path
  }

  /** Entries without fault, ascending by contract and each with a path of its own. */
  ghost predicate EntriesFit(r: Revision, entries: seq<RawEntry>) {
    && (forall i :: 0 <= i < |entries| ==> entries[i].Object? && EntryFits(r, entries[i].entry))
    && (forall i, j :: 0 <= i < j < |entries| ==> InOrder(entries[i].entry, entries[j].entry))
  }

  function EntryPaths(entries: seq<RawEntry>): set<string> {
    set e | e in entries && e.Object? && e.entry.path.Some? :: e.entry.path.value
  }

  /** The paths of the tombstones that carry a summary. */
  function TombstonePaths(t: Tombstones): set<string> {
    if t.Listed? then
      set x | x in t.items && x.Tombstone? && x.path.Some? && x.path.value != "" && x.hasSummary :: x.path.value
    else {}
  }

  predicate TombstonesFit(t: Tombstones) {
    match t
    case NoneRecorded => true
    case NotAnArray => false
    case Listed(items) => forall x :: x in items ==> x.Tombstone? && x.path.Some? && x.path.value != "" && x.hasSummary
  }

  /** A revision whose manifest, files and tombstones agree. */
  ghost predicate Consistent(r: Revision) {
    && r.manifest.Some?
    && r.manifest.value.versionKnown && r.manifest.value.algorithmKnown
    && r.manifest.value.entries.Some? && r.manifest.value.entries.value != []
    && EntriesFit(r, r.manifest.value.entries.value)
    && EntryPaths(r.manifest.value.entries.value) == PublishedPaths(r)
    && TombstonesFit(r.manifest.value.removed)
    && TombstonePaths(r.manifest.value.removed) !! PublishedPaths(r)
  }

  // ---------------------------------------------------------------- against a base revision

  /** `_manifest_entries`: the last entry with a contract identifier counts. */
  function LastWithId(entries: seq<RawEntry>, id: string): Option<Entry> {
    if entries == [] then None
    else
      var e := entries[|entries| - 1];
      if e.Object? && e.entry.id == Some(id) then Some(e.entry) else LastWithId(entries[..|entries| - 1], id)
  }

  function BaseEntries(base: Revision): seq<RawEntry>
    requires base.manifest.Some?
  {
    if base.manifest.value.entries.Some? then base.manifest.value.entries.value else []
  }

  /** A stable contract that was stable at the base keeps its path and a compatible schema. */
  ghost predicate StableKept(base: Revision, e: Entry, schema: Json)
    requires e.id.Some? && e.path.Some? && base.manifest.Some?
  {
    match LastWithId(BaseEntries(base), e.id.value)
    case None => true
    case Some(b) =>
      b.stability == Stable && b.path.Some? ==>
        && b.path == e.path
        && b.path.value in base.files && base.files[b.path.value].Parsed?
        && var was := base.files[b.path.value].schema;
        (ContentDigest(was) == ContentDigest(schema) || SchemaChanges(was, schema) == [])
  }

  /** The base has the same content at this path (a file holding `null` does not count). */
  predicate Unchanged(base: Revision, path: string, digest: Digest) {
    && path in base.files && base.files[path].Parsed? && base.files[path].schema != Null
    && ContentDigest(base.files[path].schema) == digest
  }

  ghost predicate ChangeRecorded(base: Revision, e: Entry)
    requires e.path.Some? && e.digest.Some?
  {
    Unchanged(base, e.path.value, e.digest.value) || e.change.Record?
  }

  /** The schema paths that the base manifest names, entry by entry as the tool indexes them. */
  ghost predicate NamedAtBase(base: Revision, path: string)
    requires base.manifest.Some?
  {
    exists id :: NamedBy(base, id, path)
  }

  ghost predicate NamedBy(base: Revision, id: string, path: string)
    requires base.manifest.Some?
  {
    && LastWithId(BaseEntries(base), id).Some?
    && LastWithId(BaseEntries(base), id).value.path == Some(path)
    && PREFIX <= path
  }

  ghost predicate RemovalsRecorded(base: Revision, entries: seq<RawEntry>, tombstones: set<string>) {
    base.manifest.Some? ==> forall path :: NamedAtBase(base, path) ==> path in EntryPaths(entries) || path in tombstones
  }

  /** `head` may follow `base`. */
  ghost predicate Follows(base: Revision, head: Revision)
    requires Consistent(head)
  {
    var entries := head.manifest.value.entries.value;
    && ((exists e :: Object(e) in entries && e.stability == Stable) ==> base.manifest.Some?)
    && (base.manifest.Some? ==> forall e :: Object(e) in entries && e.stability == Stable ==>
          StableKept(base, e, head.files[e.path.value].schema))
    && (forall e :: Object(e) in entries ==> ChangeRecorded(base, e))
    && RemovalsRecorded(base, entries, TombstonePaths(head.manifest.value.removed))
  }

  ghost predicate Accepted(head: Revision, base: Option<Revision>) {
    Consistent(head) && (base.Some? ==> Follows(base.value, head))
  }

  // ---------------------------------------------------------------- what acceptance gives

  lemma EntryOfAFit(r: Revision, entries: seq<RawEntry>, e: Entry)
    requires EntriesFit(r, entries) && Object(e) in entries
    ensures EntryFits(r, e)
  {
  }

  lemma {:induction false} LastWithIdIsTheOne(r: Revision, entries: seq<RawEntry>, e: Entry)
    requires EntriesFit(r, entries) && Object(e) in entries
    ensures e.id.Some? && LastWithId(entries, e.id.value) == Some(e)
  {
    hide Less, PathFits, Stem;
    EntryOfAFit(r, entries, e);
    assert e.id.Some? by { EntryHasId(r, e); }
    var last := entries[|entries| - 1];
    if last != Object(e) {
      assert entries == entries[..|entries| - 1] + [last];
      var i :| 0 <= i < |entries| - 1 && entries[i] == Object(e);
      assert InOrder(entries[i].entry, entries[|entries| - 1].entry);
      LessIsIrreflexive(e.id.value);
      LastWithIdIsTheOne(r, entries[..|entries| - 1], e);
    }
  }

  lemma EntryHasId(r: Revision, e: Entry)
    requires EntryFits(r, e)
    ensures e.id.Some? && e.path.Some?
  {
  }

  /**
   * Between two consistent revisions, every schema published at the base is either still published
   * or has a tombstone, and never both.
   */
  lemma PublishedOrBuried(base: Revision, head: Revision, path: string)
    requires Consistent(base) && Accepted(head, Some(base)) && path in PublishedPaths(base)
    ensures path in PublishedPaths(head) <==> path !in TombstonePaths(head.manifest.value.removed)
  {
    var entries := BaseEntries(base);
    assert path in EntryPaths(entries);
    var x :| x in entries && x.Object? && x.entry.path == Some(path);
    LastWithIdIsTheOne(base, entries, x.entry);
    assert NamedBy(base, x.entry.id.value, path);
    assert NamedAtBase(base, path);
  }

  /** Every schema that is new or changed carries a summary bound to its present content. */
  lemma ChangesAreDescribed(base: Revision, head: Revision, path: string)
    requires Accepted(head, Some(base)) && path in PublishedPaths(head)
    requires path !in base.files || base.files[path] != head.files[path]
    ensures head.files[path].Parsed?
    ensures exists e :: (
      && Object(e) in head.manifest.value.entries.value && e.path == Some(path)
      && e.change == Record(true, Some(ContentDigest(head.files[path].schema))))
  {
    var entries := head.manifest.value.entries.value;
    assert path in EntryPaths(entries);
    var x :| x in entries && x.Object? && x.entry.path == Some(path);
    var e := x.entry;
    EntryOfAFit(head, entries, e);
    assert Object(e) in entries && ChangeRecorded(base, e);
  }

  ghost predicate StableAt(r: Revision, id: string, e: Entry) {
    Consistent(r) && Object(e) in r.manifest.value.entries.value && e.id == Some(id) && e.stability == Stable
  }

  function SchemaOf(r: Revision, e: Entry): Json {
    if e.path.Some? && e.path.value in r.files && r.files[e.path.value].Parsed? then r.files[e.path.value].schema
    else Null
  }

  /** One accepted step of a contract that is stable on both sides. */
  lemma StableStep(base: Revision, head: Revision, id: string, b: Entry, h: Entry)
    requires StableAt(base, id, b) && StableAt(head, id, h) && Accepted(head, Some(base))
    ensures b.path == h.path && SchemaChanges(SchemaOf(base, b), SchemaOf(head, h)) == []
  {
    hide SchemaChanges, PathFits, Stem;
    LastWithIdIsTheOne(base, base.manifest.value.entries.value, b);
    EntryOfAFit(base, base.manifest.value.entries.value, b);
    EntryOfAFit(head, head.manifest.value.entries.value, h);
    assert StableKept(base, h, head.files[h.path.value].schema);
    NoBreakingChangesIsReflexive(SchemaOf(base, b));
  }

  /**
   * Along any chain of accepted revisions in which a contract stays stable, its path never moves and
   * its last schema is compatible with its first.
   */
  lemma {:induction false} StableChain(chain: seq<Revision>, entries: seq<Entry>, id: string)
    requires |chain| == |entries| > 0
    requires forall i :: 0 <= i < |chain| ==> StableAt(chain[i], id, entries[i])
    requires forall i :: 0 <= i < |chain| - 1 ==> Accepted(chain[i + 1], Some(chain[i]))
    ensures forall i :: 0 <= i < |chain| ==> entries[i].path == entries[0].path
    ensures SchemaChanges(SchemaOf(chain[0], entries[0]), SchemaOf(chain[|chain| - 1], entries[|chain| - 1])) == []
  {
    hide SchemaChanges, StableAt, Accepted, SchemaOf;
    var n := |chain| - 1;
    if n == 0 {
      NoBreakingChangesIsReflexive(SchemaOf(chain[0], entries[0]));
    } else {
      StableChain(chain[..n], entries[..n], id);
      StableStep(chain[n - 1], chain[n], id, entries[n - 1], entries[n]);
      NoBreakingChangesIsTransitive(
        SchemaOf(chain[0], entries[0]), SchemaOf(chain[n - 1], entries[n - 1]), SchemaOf(chain[n], entries[n]));
      forall i | 0 <= i < |chain| ensures entries[i].path == entries[0].path {
        assert entries[..n][n - 1].path == entries[..n][0].path;
        if i < n { assert entries[..n][i].path == entries[..n][0].path; }
      }
    }
  }
}
