# Models of the repository's governance tools

The repository keeps specifications, schemas and records honest with a layer of Python tools. This
project models the tools that hold real algorithms and proves what they are relied on for.

- **Locked dependency closures** (`Lock`, `ClosureResolver`, `Closure`, `ClosureLaws`,
  `BuildConstraints`). The
  worklist over a cyclic, marker-filtered lock is a loop over the tool's own locals. Apart from it
  stand the dependencies that any order of work reaches, given as an inductive relation. The resolver
  succeeds exactly when none of those is doomed, and then returns exactly the packages they select.
  Marker evaluation is a parameter.
- **Schema publication** (`Json`, `JsonPointer`, `SchemaNodes`, `SchemaCompat`, `SchemaReports`,
  `SchemaTree`, `SchemaSemantics`, `SchemaContainment`, `SchemaSeparation`, `SchemaEvolution`,
  `Publication`, `PublicationCheck`, `PublicationLaws`). The breaking-change check compares flat maps
  from pointers to object nodes. It is shown to be a preorder on all JSON, to agree with a comparison
  of the two trees, to report what the documents alone call for, and to mean something for instances.
  The meaning of a schema is written down from JSON Schema 2020-12 and shares no keyword list with the
  check (Core sections 8 and 10.3.2.1 to 10.3.2.3, Validation sections 6.1.2, 6.5.3, 8 and 9); pointers
  follow RFC 6901, sections 3 and 4.
- **Shared cache install** (`CacheInstall`, `CacheLaws`). Any number of processes step through look, hash, unlink,
  acquire, write, chmod and replace, interleaved in any way and crashing anywhere.
- **Comparison of related work** (`Comparison`, `Observations`), **amendments to decision records**
  (`TextLines`, `Amendments`, `ContentPins`, `AmendmentLaws`), **wheel choice and projected closures** (`Wheels`,
  `Projection`), **mirror download** (`Download`), **batched validation** (`Batches`) and **root
  categories** (`Roots`).

Code that updates variables in loops is a method here, proved against a function or a predicate; what
matters about that function or predicate is then a lemma. `Ordering` holds the sorting order and
`Digests` the bytes and digests that several modules share. The modules called `Laws`, and
`SchemaReports`, say what the specifications themselves mean in terms of their inputs: fields of the
lock, keywords of a document, characters of a line, a process left to itself.

## What turned out to need a condition

- *An accepted revision accepts every old instance.* This is not so on the closed-object fragment
  without more. The check never compares the root's own keywords, does not look at `patternProperties`
  added to an object, does not look at object keywords gained by a leaf, and compares keyword values
  as Python does, for which `true` equals `1`. One lemma for each of the four gives a pair of schemas
  and an instance. `SchemaSemantics.Containment` is the exact condition for one instance, and
  `SchemaSeparation.OldInstancesStayValid` the exact condition on the two documents: under every reading
  of keywords and patterns all old instances stay valid if and only if `RevisionWithin` holds. It asks
  only about schemas that instances reach, and takes into account what the required properties beside
  them already put to the same keywords. Behind this stands `SchemaSeparation.ContainsExactly`, which decides when a
  schema of the fragment is contained in any other document, check or no check.
- *Adding optional properties, dropping required names and widening enums always passes.* A property
  with the name of a child key (`properties`, `required`, `additionalProperties`, `patternProperties`)
  makes the walk take the dictionary of properties for an object schema, and its keywords for
  properties. Then a grown enumeration of a property named `properties` is reported, and so is a new
  property `additionalProperties: false`. `SchemaEvolution.WideningPasses` says exactly when a widening
  passes; two lemmas give the failing inputs.
- *The first-ranked system is on the frontier.* `Comparison.WinnerAlwaysOnFrontier`: for
  non-negative weights this holds for all tables of scores if and only if the weights are positive on
  exactly the compared axes, apart from the cases of no axes and of a single system.
- *The shared path holds the locked binary in the end.* `CacheInstall.EndsGood`: once a process has
  returned, it does if and only if the last change of the path was not an unlink. A process that
  unlinks on a stale verdict and then dies leaves nothing (`CacheInstall.StaleVerdictThenCrash`).
- *Distinct object nodes get distinct pointers.* An empty key leaves no trace in a pointer, so a node
  can be lost (`SchemaNodes.EmptyKeyLosesANode`). It holds if and only if no two positions of nodes
  agree once their empty keys are dropped (`SchemaNodes.DistinctNodesDistinctPointers`), so in every
  document without empty keys.

## Model

| member | source | states |
|---|---|---|
| ClosureLaws.PlainRootIsNeeded | tools/generate_python_closures_locks.py:30-52 | an unmarked root dependency without version, whose name has one package without markers, brings it in |
| ClosureLaws.PlainDependencyIsNeeded | tools/generate_python_closures_locks.py:115-136 | such a dependency of a needed package does too |
| ClosureLaws.PlainExtraIsNeeded | tools/generate_python_closures_locks.py:101-112 | and one of an extra that such a dependency asks for |
| ClosureLaws.OnePlainPackage | tools/generate_python_closures_locks.py:115-136 | then, without further dependencies, the closure is just that package |
| ClosureLaws.NoUniqueCandidate | tools/generate_python_closures_locks.py:44-52 | a name without packages, or with two that fit, is an error |
| ClosureLaws.TwoVersions | tools/generate_python_closures_locks.py:91-98 | two versions of one package name are an error |
| ClosureLaws.IdleRootChangesNothing | tools/generate_python_closures_locks.py:30-31 | a root dependency whose marker is false, or no text, changes neither failure nor the closure |
| ClosureLaws.HoldingMarkerIsNone | tools/generate_python_closures_locks.py:30-31 | a marker that is true is as good as none |
| ClosureLaws.ResolutionMarkersAreAlternatives | tools/generate_python_closures_locks.py:34-36 | one of several resolution markers is enough, none is no condition, and a value that is no list never fits |
| ClosureLaws.OneResolutionMarker | tools/generate_python_closures_locks.py:34-49 | a candidate with one resolution marker, spelled out by marker and version |
| Closure.ClosureIsLeast | tools/generate_python_closures_locks.py:115-136 | a needed package is selected in every set of dependencies closed under requests, so the closure is the least one |
| Closure.AnyDiscipline | tools/generate_python_closures_locks.py:122-135 | a run that visits pending dependencies in any order whatever: when nothing is pending nothing is doomed and exactly the needed packages are selected; a visit fails only if something is doomed |
| Closure.RootOrderIsIrrelevant | tools/generate_python_closures_locks.py:71-88 | order and repeats among the root dependencies change neither failure nor the closure |
| Closure.ClosureIsUnique | tools/generate_python_closures_locks.py:136 | two lists that are closures of the same problem, sorted by name, are equal |
| ClosureLaws.EveryRunEnds | tools/generate_python_closures_locks.py:122-135 | every run, in any order, can be brought to an end, and then nothing is pending iff nothing is doomed |
| Ordering.FirstDifferenceDecides | tools/generate_python_closures_locks.py:136 | in the order of names the first differing character decides, and a longer text comes after its beginning |
| Closure.VisitMakesProgress | tools/generate_python_closures_locks.py:126-135 | each turn lowers a measure over the finite lock, cycles and mutually requested extras included, so the worklist ends |
| ClosureResolver.ResolveClosure | tools/generate_python_closures_locks.py:115-136 | succeeds iff no reachable applicable dependency lacks a unique candidate and no two select different versions of a name; the result is the closure, sorted by name, one version a name |
| ClosureResolver.TakeTurn | tools/generate_python_closures_locks.py:126-135 | one turn on deque and sets is one visit of the abstract walk, with the same failure |
| ClosureResolver.RecordSelection | tools/generate_python_closures_locks.py:91-98 | fails iff the name is held by another version; otherwise the first package of a name stays |
| ClosureResolver.QueueRequestedExtras | tools/generate_python_closures_locks.py:101-112 | the tables of exactly the extras not asked before join the queue, in name order |
| ClosureResolver.RootDependencies | tools/generate_python_closures_locks.py:71-88 | fails iff a requested group is not a list; otherwise exactly the root's own, wanted optional and grouped dependencies |
| ClosureResolver.LockedClosure | tools/generate_python_closures_locks.py:139-161 | fails without exactly one root package or with a requested group that is no list; otherwise succeeds iff the problem of its roots is not doomed, and returns its closure |
| Lock.LockPackages | tools/generate_python_closures_locks.py:61-68 | files each package under its name, in lock order |
| Lock.SelectsTheOnlyCandidate | tools/generate_python_closures_locks.py:39-52 | a package is selected iff it is the one package filed under the name that applies and fits the version |
| Lock.SameVersionSamePackage | tools/generate_python_closures_locks.py:44-52 | two dependencies that select one name and version select the same package object |
| BuildConstraints.BuildConstraintPackages | tools/generate_python_closures.py:85-101 | succeeds iff the root is unique, every environment's closure exists and they agree on the version of each name; the result collects all of them |
| JsonPointer.PathIsPointer | tools/check_schema_publication.py:247-249 | extending the path of any position by any key, empty ones included, gives the path of the longer position |
| JsonPointer.EmittedAgree | tools/check_schema_publication.py:247-249 | two positions get the same pointer iff they agree once their empty segments are dropped |
| JsonPointer.UnescapeEscape | tools/check_sdl_lineage.py:123 | the decoder's replacement of `~1` and then `~0` undoes the escaping |
| JsonPointer.DecodedPointer | tools/check_sdl_lineage.py:119-123 | splitting and unescaping a pointer gives back its path |
| JsonPointer.IndexText | tools/check_sdl_lineage.py:124-129 | a list index is written in the ten digits, most significant first, and zeros in front are let through |
| JsonPointer.ResolveJsonPointer | tools/check_sdl_lineage.py:116-130 | the segment loop finds a value iff the recursive reading of the pointer does, and the same one |
| SchemaNodes.ObjectSchemaNodes | tools/check_schema_publication.py:252-263 | the walk that fills a map returns the recursive collection of nodes |
| SchemaNodes.NodesAreEmitted | tools/check_schema_publication.py:252-263 | for any document, a pointer is collected iff it is the one emitted for the position of some object node, and it holds such a node |
| SchemaNodes.DistinctNodesDistinctPointers | tools/check_schema_publication.py:252-263 | distinct nodes get distinct pointers iff no two node positions agree without their empty keys, so whenever no key is empty; then every node is found under its pointer |
| SchemaNodes.EmittedResolves | tools/check_schema_publication.py:247-263 | from any document the decoder follows an emitted pointer along its position without the empty keys |
| SchemaNodes.PointerRoundTrip | tools/check_schema_publication.py:247-263 | with non-empty keys the lineage decoder resolves every emitted pointer to the node it was emitted for |
| SchemaNodes.EmptyKeyLosesANode | tools/check_schema_publication.py:247-249 | a document with an empty key where two object nodes share one pointer |
| SchemaCompat.SchemaBreakingChanges | tools/check_schema_publication.py:347-382 | the loops report exactly the specified changes in order, and none iff every old node is kept |
| SchemaCompat.NodeBreakingChanges | tools/check_schema_publication.py:359-380 | the reports for one pointer: removed properties, changed ones, new required names, a newly closed object |
| SchemaReports.PropertyIsPassed | tools/check_schema_publication.py:304-330 | a property is passed iff default, enumeration and each compared keyword stay, the keywords given by name and equality spelled out for numbers, lists and dictionaries |
| SchemaReports.CheckIsSilent | tools/check_schema_publication.py:347-382 | the check is silent iff every object schema has one at the same place whose properties, required names and closedness stay, all by name |
| SchemaReports.AlteredKeyword | tools/check_schema_publication.py:275-281 | one scalar keyword of a property is altered: reported iff it is none of fourteen names, or closes the property |
| SchemaReports.AlteredProperty | tools/check_schema_publication.py:304-330 | an altered property is reported at its own pointer and nothing else is |
| SchemaReports.AlteredEnum | tools/check_schema_publication.py:316-326 | an enumeration that comes, goes or loses values is reported as such, with the values lost |
| SchemaReports.LostInOrder | tools/check_schema_publication.py:293-295 | the values lost are listed one after the other |
| SchemaReports.RemovedProperty | tools/check_schema_publication.py:361-362 | a removed property is reported at its pointer |
| SchemaReports.NewlyRequiredName | tools/check_schema_publication.py:374-375 | a newly required name is reported at its pointer; one dropped is not |
| SchemaReports.ClosedObject | tools/check_schema_publication.py:377-380 | closing an object is reported; opening it is not |
| SchemaReports.LostObject | tools/check_schema_publication.py:352-357 | an object schema is reported as removed iff its pointer has none any more |
| SchemaCompat.NoChangesMeansCompatible | tools/check_schema_publication.py:347-382 | the list is empty iff every old node is still there and kept |
| SchemaCompat.NoBreakingChangesIsReflexive | tools/check_schema_publication.py:304-382 | any JSON against itself raises nothing |
| SchemaCompat.NoBreakingChangesIsTransitive | tools/check_schema_publication.py:304-382 | passing from a to b and from b to c means passing from a to c, for any JSON |
| SchemaTree.FlatCheckIsTreeCheck | tools/check_schema_publication.py:347-382 | on the fragment the comparison of flat pointer maps is a recursive comparison of the two schemas |
| SchemaSemantics.Containment | tools/check_schema_publication.py:304-382 | after a pass, an instance valid under the old schema is valid under the new one iff it satisfies the keywords the check does not compare |
| SchemaSemantics.ContainmentBelow | tools/check_schema_publication.py:304-330 | the same for a nested property that is kept, by induction over the schemas |
| SchemaSeparation.OldInstancesStayValid | tools/check_schema_publication.py:304-382 | after a pass all old instances stay valid under every semantics iff the root's own keywords and the unchecked ones below let them through; enough for this is that the former are kept and the latter undisturbed |
| SchemaSeparation.ContainsExactly | tools/check_schema_publication.py:304-382 | a schema of the fragment is contained in any other document under every semantics iff the recursive condition on the two documents holds |
| SchemaContainment.WithinIsAccepted | tools/check_schema_publication.py:304-382 | the condition is enough: each instance of the one schema is one of the other |
| SchemaSeparation.Separate | tools/check_schema_publication.py:304-382 | the condition is needed: where it fails, a semantics and an instance tell the schemas apart |
| SchemaSeparation.KeptLeavesUnchecked | tools/check_schema_publication.py:304-382 | for a kept property the condition comes down to flipped keywords, patterns and gained object keywords |
| SchemaSemantics.FlipsAreBooleans | tools/check_schema_publication.py:275-281 | a keyword of a kept property changes its JSON value iff a boolean became the equal number or the reverse |
| SchemaSemantics.VerdictsAreCompared | tools/check_schema_publication.py:266-281 | every keyword that has a verdict by the standard is compared |
| SchemaSemantics.ReadAlike | tools/check_schema_publication.py:284-345 | the check reads enumerations, required names and properties as the standard does |
| SchemaSemantics.RootKeywordsAreUnchecked | tools/check_schema_publication.py:359-380 | a pass that narrows the root by a keyword of its own |
| SchemaSemantics.PatternPropertiesAreUnchecked | tools/check_schema_publication.py:275-281 | a pass that narrows a closed object by `patternProperties` |
| SchemaSemantics.GainedObjectKeywordsAreUnchecked | tools/check_schema_publication.py:275-281 | a pass in which a leaf gains `required` |
| SchemaSemantics.FlippedKeywordsAreUnchecked | tools/check_schema_publication.py:304-330 | a pass in which `const` goes from `true` to `1` |
| SchemaEvolution.WideningPasses | tools/check_schema_publication.py:347-382 | a widening passes iff every dictionary of properties that the walk takes for an object schema is kept as one; so it passes when no property is called `properties` and, beside one with another child key's name, all are dictionaries |
| SchemaEvolution.WidenedShadowIsReported | tools/check_schema_publication.py:252-263 | widening the enum of a property named `properties` is always reported |
| SchemaEvolution.GrownEnumIsReported | tools/check_schema_publication.py:252-263 | a pair of schemas for which this happens |
| SchemaEvolution.AddedFalseIsReported | tools/check_schema_publication.py:377-380 | a pair of schemas where only an optional property `additionalProperties: false` was added, and it is reported |
| Publication.PublishedOrBuried | tools/check_schema_publication.py:546-577 | a path published at an accepted base is at head either published or tombstoned, and never both |
| Publication.ChangesAreDescribed | tools/check_schema_publication.py:499-543 | a new or changed published schema has an entry whose change record is bound to its current digest |
| PublicationLaws.AcceptedExactly | tools/check_schema_publication.py:416-577 | between consistent revisions acceptance is exactly this: contracts stable on both sides keep path and compatibility, every difference is described, nothing is just gone |
| PublicationLaws.StableExactly | tools/check_schema_publication.py:416-459 | a stable contract is let through iff, where it was stable before, its path is the old one and nothing breaks |
| PublicationLaws.FollowsItself | tools/check_schema_publication.py:499-543 | a consistent revision may follow itself iff every schema that is `null` carries a change record |
| PublicationLaws.OneContract | tools/check_schema_publication.py:617-698 | a manifest of one entry beside one schema file is accepted iff identifier, path, digest, stability and change record are the ones for that file |
| PublicationLaws.NormalForm | tools/check_schema_publication.py:651 | a path is normal iff no part is empty or a dot and it does not lead upwards |
| Publication.StableStep | tools/check_schema_publication.py:416-459 | a contract stable at base and head keeps its path and raises no breaking change |
| Publication.StableChain | tools/check_schema_publication.py:416-459 | along any chain of accepted revisions the last schema of a stable contract is compatible with its first, and its path never moved |
| PublicationCheck.CheckEntry | tools/check_schema_publication.py:617-698 | exactly which findings an entry adds, given the identifiers and paths before it; none iff it is admitted, and then the scan grows by exactly that entry |
| PublicationCheck.CheckEntries | tools/check_schema_publication.py:617-698 | the findings are exactly those of the entries at their places; none iff all entries fit, ids strictly ascending and paths distinct, and the scan then holds them all |
| PublicationCheck.RemovalLedger | tools/check_schema_publication.py:462-496 | exactly the paths of well-formed tombstones, and no failure iff the ledger is absent or a list of nothing but those |
| PublicationCheck.CheckStableSchemaChanges | tools/check_schema_publication.py:416-459 | no failure iff a base is known whenever something is stable, and every stable entry is kept |
| PublicationCheck.CheckChangeLedger | tools/check_schema_publication.py:499-543 | reports exactly the paths that are new or changed since base and carry no change record |
| PublicationCheck.CheckRemovalLedger | tools/check_schema_publication.py:546-577 | reports exactly the paths named at base that are neither current nor tombstoned |
| PublicationCheck.CheckRevision | tools/check_schema_publication.py:591-713 | no failure iff manifest, files, entries and tombstones are consistent with each other |
| PublicationCheck.ValidateManifest | tools/check_schema_publication.py:591-728 | no failure iff the revision is consistent and follows its base |
| CacheLaws.GoodCacheIsKept | tools/osv_scanner_tool.py:94-120 | where the locked binary is at first, no run ever touches or refetches it, and whoever stops undisturbed has a hit |
| CacheLaws.AloneOutcome | tools/osv_scanner_tool.py:94-182 | what a process by itself makes of each kind of entry: hit, refusal, repair, or nothing left after a wrong fetch |
| CacheLaws.NeverStuck | tools/osv_scanner_tool.py:94-182 | a process that has not stopped can always go on |
| CacheLaws.VanishedEntryRaises | tools/osv_scanner_tool.py:106-120 | a process that saw something and finds it gone raises |
| CacheLaws.AloneInstallsAfterUnlinking | tools/osv_scanner_tool.py:146-182 | a process that ended by installing has replaced what it unlinked |
| CacheInstall.NeverPartial | tools/osv_scanner_tool.py:94-143 | in every interleaving with crashes the path holds nothing, its first content or the locked executable bytes; after the first replace only nothing or those bytes |
| CacheInstall.HitWasGood | tools/osv_scanner_tool.py:94-120 | a process that reports a hit found the locked executable bytes |
| CacheInstall.EndsGood | tools/osv_scanner_tool.py:94-182 | once some process has returned, the path is good iff its last change was not an unlink |
| CacheInstall.InstallersLeaveItGood | tools/osv_scanner_tool.py:146-182 | if each process that unlinked also replaced, and one returned, the path is good |
| CacheInstall.StaleVerdictThenCrash | tools/osv_scanner_tool.py:112-120 | a run that ends with nothing at the path: a stale verdict, an unlink of the good file and a crash |
| Comparison.ParetoFrontier | tools/check_related_work_comparison.py:828-850 | the nested loops return the frontier, missing scores included |
| Comparison.FrontierIsUndominated | tools/check_related_work_comparison.py:828-850 | the frontier is sorted and holds exactly the undominated systems, as often as listed |
| Comparison.LeftOutIsDominatedFromFrontier | tools/check_related_work_comparison.py:828-850 | whatever is dominated is dominated by an undominated system |
| Comparison.FrontierIsNonempty | tools/check_related_work_comparison.py:828-850 | some system is on the frontier if there is any |
| Comparison.MissingScoresShield | tools/check_related_work_comparison.py:828-850 | a system that lacks a score, or is challenged only by such, is on the frontier |
| Comparison.BetterScoresDominate | tools/check_related_work_comparison.py:828-850 | a system fully scored and outscored by another is not |
| Comparison.WeightedTotals | tools/check_related_work_comparison.py:853-867 | the running totals are the weighted sums, a missing score counting nothing |
| Comparison.TotalAddsUp | tools/check_related_work_comparison.py:853-867 | the total adds score times weight, axis by axis, where there is a score |
| Comparison.RankingIsUnique | tools/check_related_work_comparison.py:870-871 | a list is the ranking iff it is a permutation by falling total and then id |
| Comparison.WinnerIsOnFrontier | tools/check_related_work_comparison.py:828-871 | with weights positive on exactly the axes the first-ranked system is on the frontier, missing scores allowed |
| Comparison.SomeWinnerIsOnFrontier | tools/check_related_work_comparison.py:828-871 | with non-negative weights on the axes some system with the greatest total is on the frontier |
| Comparison.WinnerAlwaysOnFrontier | tools/check_related_work_comparison.py:828-871 | exactly when the first-ranked system is on the frontier for every table of scores |
| Observations.ValidateObservations | tools/check_related_work_comparison.py:547-727 | which kinds of failure are reported and why, down to rationale, limitations and evidence; none iff every observation fits, no cell repeats and all are covered; each cell keeps its first score |
| Observations.OneCell | tools/check_related_work_comparison.py:547-727 | what a table of one cell must hold, field by field, with the limits and the four measures |
| Observations.TableIsRectangular | tools/check_related_work_comparison.py:645-727 | without failures observations and cells correspond one to one, number systems times axes, and lack a score exactly when out of scope |
| Amendments.AmendmentsSectionBounds | tools/check_adr_immutability.py:80-110 | the loop over lines with fence state and offsets computes the specified bounds |
| Amendments.StripRemovesTheSection | tools/check_adr_immutability.py:113-119 | text before, one Amendments section with closed fences, text after: stripping leaves exactly before and after |
| Amendments.BoundsDecompose | tools/check_adr_immutability.py:80-110 | conversely, whenever bounds are found the text decomposes at them in just that way |
| Amendments.StripKeepsOtherTexts | tools/check_adr_immutability.py:113-119 | stripping leaves a text as it is iff it has no Amendments heading outside fences |
| AmendmentLaws.AmendmentsLines | tools/check_adr_immutability.py:68 | the heading is two hashes, white space, the word and white space |
| AmendmentLaws.SectionLines | tools/check_adr_immutability.py:69 | a level-two heading starts with two hashes and a white space |
| AmendmentLaws.FenceLines | tools/check_adr_immutability.py:97 | a fence line is white space and then three backticks |
| ContentPins.PinsCompareRows | tools/check_adr_immutability.py:122-132 | two pins are equal iff the stripped texts agree line by line up to trailing space and blank lines at the end |
| ContentPins.AmendingKeepsThePin | tools/check_adr_immutability.py:122-132 | replacing the section by any other leaves the pinned content unchanged |
| AmendmentLaws.PinComparesLines | tools/check_adr_immutability.py:122-132 | one line put for another is seen iff they differ before the white space at their ends |
| AmendmentLaws.PinSeesBlankLines | tools/check_adr_immutability.py:122-132 | a blank line more before other text is seen |
| AmendmentLaws.PinIgnoresFinalNewline | tools/check_adr_immutability.py:122-132 | a newline at the very end is not |
| ContentPins.AmendmentRefs | tools/check_adr_immutability.py:139-161 | the loop returns the references of the table rows of the section, in order |
| AmendmentLaws.RowGivesReference | tools/check_adr_immutability.py:149-160 | a line of cells between bars gives its second cell without outer white space, unless there are fewer than three, the first is the header word, or all are rulings |
| AmendmentLaws.NoBarNoReference | tools/check_adr_immutability.py:149-152 | a line that does not start with a bar gives none |
| AmendmentLaws.RefsOfLines | tools/check_adr_immutability.py:149-160 | lines are read one after the other |
| ContentPins.RefsAreTheRows | tools/check_adr_immutability.py:139-161 | a reference is collected iff some line is a row of the table with it |
| ContentPins.CheckUnrecordedEdits | tools/check_adr_immutability.py:263-294 | reported are exactly the records present in both revisions whose pinned content changed while no amendment reference was added |
| ContentPins.UnrecordedMeansNoNewRow | tools/check_adr_immutability.py:263-294 | that is, whose pin changed while every row of the section has a reference that a row had before |
| ContentPins.SectionEditsPass | tools/check_adr_immutability.py:263-294 | an edit inside the section is never an unrecorded one |
| AmendmentLaws.NewRowIsARecord | tools/check_adr_immutability.py:263-294 | an edit that comes with a row of a new reference is never reported |
| ContentPins.BareEditsFail | tools/check_adr_immutability.py:263-294 | an edit outside it with the section as it was is always reported |
| Wheels.SelectWheel | tools/generate_python_closures.py:164-179 | the first wheel in lock order with the earliest supported tag any wheel carries; fails iff no tag is carried |
| Wheels.DedupeKeepsTheChoice | tools/generate_python_closures.py:147-161 | removing repeated tags never changes the choice |
| Wheels.BestIsUnique | tools/generate_python_closures.py:164-179 | there is only one such wheel |
| Projection.Tree.WriteIfChanged | tools/generate_python_closures.py:254-262 | reports a change iff the file does not hold the content; afterwards it does, except in a check, which writes nothing |
| Projection.Tree.WriteAll | tools/generate_python_closures.py:272-304 | with distinct paths, a change iff some file differed at the start; all files then hold their content |
| Projection.Tree.Generate | tools/generate_python_closures.py:307-332 | current iff all files held their rendered content; a check changes no file; a failing write run leaves what the definitions before the failing one render to |
| Projection.FailsOnce | tools/generate_python_closures.py:307-332 | there is one failing definition iff not all render |
| Projection.RenderedIsAll | tools/generate_python_closures.py:272-304 | all renders iff each definition does, and then holds what each yields from its lock and nothing else |
| Projection.WrittenHolds | tools/generate_python_closures.py:254-304 | files written at distinct paths all hold their content afterwards |
| Projection.RenderedAgain | tools/generate_python_closures.py:307-332 | writing outputs that are no locks does not change what is rendered |
| Projection.WriteThenCheck | tools/generate_python_closures.py:307-332 | a write run followed by a check run reports current |
| Download.Cache.FromMirror | tools/isabelle_tool.py:109-127 | returns iff the mirror supplies locked size and digest, lets an error out iff it is of no caught type; the temporary file never exceeds the size |
| Download.Cache.DownloadArchive | tools/isabelle_tool.py:130-156 | the destination gets the bytes of the first mirror that supplies them before any uncaught error, or stays as it was; a temporary file remains only behind an uncaught error |
| Batches.DedupeTargets | tools/check_json_artifacts.py:272-282 | each target once, in order of first appearance, then sorted |
| Batches.SortedIsStable | tools/check_json_artifacts.py:281 | the sort is by mode and path, keeps all targets, and moves none past another of the same mode and path |
| Batches.KeyOrderMeans | tools/check_json_artifacts.py:281 | in key order metaschema targets come first, and paths ascend within a mode |
| Batches.EachTargetOnce | tools/check_json_artifacts.py:272-282 | the result is in key order and holds every target exactly once and no other |
| Batches.ValidationBatches | tools/check_json_artifacts.py:295-311 | one sorted batch for the metaschema mode and one for each schema, none empty and no two alike |
| Batches.ExactlyOneBatch | tools/check_json_artifacts.py:295-311 | every target lies in exactly one batch, that of its own mode and schema |
| Batches.OrdersExist | tools/check_json_artifacts.py:332-333 | finishing first to last and last to first are among the orders allowed |
| Batches.RunBatches | tools/check_json_artifacts.py:332-333 | whatever order the workers finish in, each result belongs to its batch |
| Batches.ValidateTargets | tools/check_json_artifacts.py:321-341 | no failure iff every target passes by itself; each failing batch covers a failing target |
| Roots.CheckOverlap | tools/check_authority_boundary.py:953-1052 | reports every collision, legacy segment and ancestor pair, and nothing else; none iff the categories are disjoint |
| Roots.NoPathUnderBoth | tools/check_authority_boundary.py:1018-1050 | no root is a prefix of one in the other category iff no path lies under both |
| Roots.FirstSegmentIs | tools/check_authority_boundary.py:1000-1001 | the legacy test looks at what stands before the first slash |

## Left out

- PublicationCheck.CheckRevision: states when anything is reported; which findings there are is stated for the entries, the change and removal ledgers and the set differences, but not for the joined list, the tombstones and the stable schemas.
- Projection.Tree.Generate: a definition is one target, or the build constraints, and reads its lock by itself where the tool parses it once for all targets.
- Batches.ValidateTargets: the number of workers is not modelled.
- Roots.CheckOverlap: the shape of each root path and the checks within one list are left out, since they are single comparisons; failures carry roots without entry ids.
- Observations.ValidateObservations: a value that cannot be iterated as evidence makes the tool raise at the delivery rule and is taken for no evidence here; a Boolean score is the integer it equals.
- CacheInstall.NeverPartial: hashing a file is one step, since files are replaced and never modified in place; symbolic links among the parents and `fsync` are not modelled.
- Markers: parsing and evaluation are a parameter, and an absent package version is not told apart from an empty one.
- Optional groups of the root are taken in name order; the order is proved to make no difference.
- The lookup of the build group and the rendering of build constraints as text.
- JSON numbers are exact and finite; the order of keys in an object is not modelled.
- Content digests are injective: the canonical text of a schema and its SHA-256 stand for the schema itself.
- Keywords not spelled out have a verdict on their own value and the instance alone. Those that look at keywords beside them or elsewhere (`$ref`, `$dynamicRef`, `if`, `contains`, `items`, the `unevaluated` ones) are kept out of the old schema and read in this way in the new one.
- Combinators and arrays of schemas in the old schema, in the statements about instances only; the preorder covers all JSON.
- Array indices in pointers are ASCII digits; `str.isdigit` accepts more.
- Loading manifests from disk and git, the two manifest versions and record directories; resolution of paths is a given set of those that escape.
- Wording of failure messages, command lines and exit codes.
- Lines end at the newline character only, and lower-casing is ASCII only.
- The recomputation of profiles, sensitivity and claims in `_validate_analysis`, which compares stored values with the functions modelled here.
- Parsing of wheel file names and generation of platform tags; a wheel comes with its tags.
- Mirrors are the chunks they deliver and how they end; HTTP, extraction of the archive and installation are not modelled.
- The other tools: vocabulary snapshots, positioning, documentation, profiles, and acquisition of anything but the shared binary.
