/** Which revisions are accepted: the other direction of what acceptance gives. */
module PublicationLaws {
  import opened Ordering
  import opened Json
  import opened JsonPointer
  import opened SchemaCompat
  import opened Publication

  // ---------------------------------------------------------------- one contract

  /** What a single manifest entry amounts to beside the one schema file `contracts/schemas/<name>.json`. */
  lemma OneContract(name: string, schema: Json, e: Entry, path: string, r: Revision)
    requires name != "" && '/' !in name && path == "contracts/schemas/" + name + ".json"
    requires r == Revision(Some(Manifest(true, true, Some([Object(e)]), NoneRecorded)), map[path := Parsed(schema)], {})
    ensures Accepted(r, None) <==>
      && e.id == Some(name) && e.path == Some(path) && e.digest == Some(Sha256(schema))
      && (e.stability == Draft || e.stability == Stable)
      && (e.change == Unrecorded || e.change == Record(true, Some(Sha256(schema))))
  {
    hide Normalized, Stem, Less, EndsWith;
    PathOfName(name, path, r);
    var entries := [Object(e)];
    assert PublishedPaths(r) == {path};
    if e.path.Some? {
      assert EntryPaths(entries) == {e.path.value} by { assert Object(e) in entries; }
    } else {
      assert EntryPaths(entries) == {};
    }
  }

  lemma PathOfName(name: string, path: string, r: Revision)
    requires name != "" && '/' !in name && path == "contracts/schemas/" + name + ".json" && r.escaping == {}
    ensures PathFits(r, path) && Stem(path) == name && PREFIX <= path && EndsWith(path, SUFFIX)
  {
    var last := name + ".json";
    assert path == "contracts/schemas/" + last;
    SplitOfPath(last);
    assert last[|last| - 5..] == ".json" && last[..|last| - 5] == name;
    assert path[|path| - 5..] == ".json";
    hide Split;
  }

  lemma SplitOfPath(last: string)
    requires '/' !in last
    ensures Split("contracts/schemas/" + last) == ["contracts", "schemas", last]
  {
    hide Split;
    assert "contracts/schemas/" + last == "contracts" + "/" + ("schemas" + "/" + last);
    SplitAtSlash("contracts", "schemas" + "/" + last);
    SplitAtSlash("schemas", last);
    SplitWithoutSlash(last);
  }

  /** A path is its own normal form when no part of it is empty or a dot and it does not lead upwards. */
  lemma NormalForm(parts: seq<string>)
    requires parts != [] && forall p :: p in parts ==> '/' !in p
    ensures Normalized(Join(parts)) <==>
      && (forall i :: 0 <= i < |parts| ==> parts[i] != "" && parts[i] != ".")
      && !(parts[0] == ".." && |parts| > 1)
  {
    SplitJoin(parts);
    hide Split;
    var path := Join(parts);
    if |parts| == 1 {
      LeadsUpwardsBySlash(path);
    } else {
      assert path == parts[0] + "/" + Join(parts[1..]);
      UpwardsFirst(parts[0], Join(parts[1..]));
    }
  }

  lemma LeadsUpwardsBySlash(s: string)
    requires '/' !in s
    ensures !("../" <= s)
  {
    assert |s| > 2 ==> s[2] in s;
  }

  lemma UpwardsFirst(first: string, rest: string)
    requires '/' !in first
    ensures "../" <= first + "/" + rest <==> first == ".."
  {
    var path := first + "/" + rest;
    assert path[|first|] == '/';
    assert forall k :: 0 <= k < |first| ==> path[k] == first[k] && first[k] in first;
    assert "../" <= path ==> path[0] == '.' && path[1] == '.' && path[2] == '/';
    assert first == ".." ==> path[..3] == "../";
  }

  // ---------------------------------------------------------------- against a base

  /** The entry of a published path; a consistent revision has exactly one. */
  ghost predicate IsEntryOf(r: Revision, path: string, e: Entry)
    requires Consistent(r)
  {
    Object(e) in r.manifest.value.entries.value && e.path == Some(path)
  }

  lemma OneEntryEach(r: Revision, path: string) returns (e: Entry)
    requires Consistent(r) && path in PublishedPaths(r)
    ensures IsEntryOf(r, path, e) && EntryFits(r, e)
    ensures forall f :: IsEntryOf(r, path, f) ==> f == e
  {
    hide EntryFits, Less;
    var entries := r.manifest.value.entries.value;
    assert path in EntryPaths(entries);
    var x :| x in entries && x.Object? && x.entry.path == Some(path);
    e := x.entry;
    EntryOfAFit(r, entries, e);
    forall f | IsEntryOf(r, path, f) ensures f == e {
      var i :| 0 <= i < |entries| && entries[i] == Object(e);
      var j :| 0 <= j < |entries| && entries[j] == Object(f);
    }
  }

  /** The file of the path is not what it was at the base; a file holding `null` never counts as that. */
  predicate Differs(base: Revision, head: Revision, path: string)
    requires path in head.files
  {
    path !in base.files || base.files[path] != head.files[path] || head.files[path] == Parsed(Null)
  }

  ghost predicate StableContractsKept(base: Revision, head: Revision) {
    forall id, b, h :: StableAt(base, id, b) && StableAt(head, id, h) ==>
      b.path == h.path && SchemaChanges(SchemaOf(base, b), SchemaOf(head, h)) == []
  }

  ghost predicate DifferencesDescribed(base: Revision, head: Revision)
    requires Consistent(head)
  {
    forall path, e :: path in PublishedPaths(head) && Differs(base, head, path) && IsEntryOf(head, path, e) ==>
      e.change.Record?
  }

  ghost predicate NothingJustGone(base: Revision, head: Revision)
    requires Consistent(head)
  {
    forall path :: path in PublishedPaths(base) ==>
      path in PublishedPaths(head) || path in TombstonePaths(head.manifest.value.removed)
  }

  /**
   * Between consistent revisions acceptance is no less and no more than this: contracts stable on both
   * sides keep path and compatibility, every difference is described, and nothing is just gone.
   */
  lemma AcceptedExactly(base: Revision, head: Revision)
    requires Consistent(base) && Consistent(head)
    ensures Accepted(head, Some(base)) <==>
      StableContractsKept(base, head) && DifferencesDescribed(base, head) && NothingJustGone(base, head)
  {
    hide SchemaChanges, EntryFits, PathFits, Stem, Less, EntriesFit, StableKept, ChangeRecorded, PublishedPaths;
    hide RemovalsRecorded, StableContractsKept, DifferencesDescribed, NothingJustGone, EntryPaths, TombstonePaths;
    StableSide(base, head);
    DescribedSide(base, head);
    RemovedSide(base, head);
  }

  lemma EntryOfId(r: Revision, e: Entry)
    requires Consistent(r) && Object(e) in r.manifest.value.entries.value
    ensures e.id.Some? && e.path.Some? && e.digest.Some? && LastWithId(BaseEntries(r), e.id.value) == Some(e)
    ensures e.path.value in r.files && r.files[e.path.value].Parsed? && e.path.value in PublishedPaths(r)
    ensures e.digest.value == ContentDigest(r.files[e.path.value].schema)
    ensures SchemaOf(r, e) == r.files[e.path.value].schema
  {
    hide Less, Stem, Normalized;
    EntryOfAFit(r, r.manifest.value.entries.value, e);
    LastWithIdIsTheOne(r, r.manifest.value.entries.value, e);
  }

  /** A stable contract is let through exactly with its old path and no breaking change, if it was stable before. */
  lemma StableExactly(base: Revision, head: Revision, h: Entry)
    requires Consistent(base) && Consistent(head) && Object(h) in head.manifest.value.entries.value
    ensures h.id.Some? && h.path.Some? && h.path.value in head.files && head.files[h.path.value].Parsed?
    ensures StableKept(base, h, head.files[h.path.value].schema) <==>
      forall b :: StableAt(base, h.id.value, b) ==>
        b.path == h.path && SchemaChanges(SchemaOf(base, b), SchemaOf(head, h)) == []
  {
    hide SchemaChanges, Consistent;
    BaseEntriesAre(base);
    BaseEntriesAre(head);
    EntryOfId(head, h);
    var found := LastWithId(BaseEntries(base), h.id.value);
    if found.Some? {
      LastIsListed(BaseEntries(base), h.id.value);
      EntryOfId(base, found.value);
      NoBreakingChangesIsReflexive(SchemaOf(base, found.value));
    }
    forall b | StableAt(base, h.id.value, b) ensures found == Some(b) { EntryOfId(base, b); }
  }

  lemma BaseEntriesAre(r: Revision)
    requires Consistent(r)
    ensures r.manifest.Some? && r.manifest.value.entries.Some? && BaseEntries(r) == r.manifest.value.entries.value
  {
  }

  lemma {:induction false} LastIsListed(entries: seq<RawEntry>, id: string)
    requires LastWithId(entries, id).Some?
    ensures Object(LastWithId(entries, id).value) in entries && LastWithId(entries, id).value.id == Some(id)
  {
    var e := entries[|entries| - 1];
    if !(e.Object? && e.entry.id == Some(id)) { LastIsListed(entries[..|entries| - 1], id); }
  }

  lemma StableSide(base: Revision, head: Revision)
    requires Consistent(base) && Consistent(head)
    ensures forall e :: Object(e) in head.manifest.value.entries.value ==>
      e.id.Some? && e.path.Some? && e.path.value in head.files && head.files[e.path.value].Parsed?
    ensures StableContractsKept(base, head) <==>
      forall e :: Object(e) in head.manifest.value.entries.value && e.stability == Stable ==>
        StableKept(base, e, head.files[e.path.value].schema)
  {
    hide SchemaChanges, StableKept, Consistent, SchemaOf;
    BaseEntriesAre(base);
    BaseEntriesAre(head);
    var entries := head.manifest.value.entries.value;
    forall e | Object(e) in entries
      ensures e.id.Some? && e.path.Some? && e.path.value in head.files && head.files[e.path.value].Parsed?
      ensures StableKept(base, e, head.files[e.path.value].schema) <==>
        forall b :: StableAt(base, e.id.value, b) ==>
          b.path == e.path && SchemaChanges(SchemaOf(base, b), SchemaOf(head, e)) == []
    {
      StableExactly(base, head, e);
    }
    if forall e :: Object(e) in entries && e.stability == Stable ==>
         StableKept(base, e, head.files[e.path.value].schema)
    {
      forall id, b, h | StableAt(base, id, b) && StableAt(head, id, h)
        ensures b.path == h.path && SchemaChanges(SchemaOf(base, b), SchemaOf(head, h)) == []
      {
        assert Object(h) in entries && StableAt(base, h.id.value, b);
      }
    }
    if StableContractsKept(base, head) {
      forall e | Object(e) in entries && e.stability == Stable
        ensures StableKept(base, e, head.files[e.path.value].schema)
      {
        assert StableAt(head, e.id.value, e);
      }
    }
  }

  lemma DescribedSide(base: Revision, head: Revision)
    requires Consistent(head)
    ensures forall e :: Object(e) in head.manifest.value.entries.value ==> e.path.Some? && e.digest.Some?
    ensures DifferencesDescribed(base, head) <==>
      forall e :: Object(e) in head.manifest.value.entries.value ==> ChangeRecorded(base, e)
  {
    hide Consistent, PublishedPaths;
    BaseEntriesAre(head);
    var entries := head.manifest.value.entries.value;
    forall e | Object(e) in entries
      ensures e.path.Some? && e.digest.Some? && e.path.value in PublishedPaths(head) && e.path.value in head.files
      ensures ChangeRecorded(base, e) <==> !Differs(base, head, e.path.value) || e.change.Record?
    {
      EntryOfId(head, e);
    }
  }

  lemma RemovedSide(base: Revision, head: Revision)
    requires Consistent(base) && Consistent(head)
    ensures NothingJustGone(base, head) <==>
      RemovalsRecorded(base, head.manifest.value.entries.value, TombstonePaths(head.manifest.value.removed))
  {
    hide EntriesFit, EntryPaths, PublishedPaths, TombstonePaths, NamedBy;
    forall path ensures NamedAtBase(base, path) <==> path in PublishedPaths(base) { NamedArePublished(base, path); }
  }

  lemma NamedArePublished(r: Revision, path: string)
    requires Consistent(r)
    ensures NamedAtBase(r, path) <==> path in PublishedPaths(r)
  {
    hide Consistent, LastWithId;
    BaseEntriesAre(r);
    if path in PublishedPaths(r) {
      var e := OneEntryEach(r, path);
      EntryOfId(r, e);
      assert NamedBy(r, e.id.value, path);
    }
    if NamedAtBase(r, path) {
      var id :| NamedBy(r, id, path);
      LastIsListed(BaseEntries(r), id);
      EntryOfId(r, LastWithId(BaseEntries(r), id).value);
    }
  }

  /** A consistent revision may follow itself, as long as every schema that is `null` carries a change record. */
  lemma FollowsItself(r: Revision)
    requires Consistent(r)
    ensures Accepted(r, Some(r)) <==>
      forall path, e :: path in PublishedPaths(r) && IsEntryOf(r, path, e) && r.files[path] == Parsed(Null) ==>
        e.change.Record?
  {
    hide SchemaChanges, Consistent, PublishedPaths, IsEntryOf;
    AcceptedExactly(r, r);
    forall id, b, h | StableAt(r, id, b) && StableAt(r, id, h)
      ensures b.path == h.path && SchemaChanges(SchemaOf(r, b), SchemaOf(r, h)) == []
    {
      BaseEntriesAre(r);
      EntryOfId(r, b);
      EntryOfId(r, h);
      NoBreakingChangesIsReflexive(SchemaOf(r, b));
    }
    PublishedIsThere(r);
  }

  lemma PublishedIsThere(r: Revision)
    ensures forall path :: path in PublishedPaths(r) ==> path in r.files
  {
  }
}
