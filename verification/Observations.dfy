/** The observation table of the comparison: one cell for every system and axis. */
module Observations {
  import opened Ordering
  import opened TextLines

  /** A raw `score`: absent, an integer, or a value of another type. */
  datatype RawScore = NoScore | IntScore(value: int) | OtherScore

  /** A raw value where a text is expected. */
  datatype RawText = Text(text: string) | OtherText

  datatype RawTexts = Texts(items: seq<RawText>) | OtherTexts

  /** One evidence reference: `exact` says that it has exactly the expected keys. */
  datatype RawRef = NotATable | Ref(exact: bool, source: Option<string>, locator: RawText)

  datatype RawRefs = Refs(items: seq<RawRef>) | NotAList

  /** What is known of a source: whether it is primary, whose it is, and whether its evidence is executable. */
  datatype Source = Source(primary: bool, system: string, executable: bool)

  type Sources = map<string, Source>

  datatype Applicability = Applicable | OutOfScope | OtherApplicability

  /** One observation as read. `Misshapen` has not exactly the expected keys. */
  datatype Observation =
    | Misshapen
    | Observation(
        system: string,
        axis: string,
        applicability: Applicability,
        score: RawScore,
        measure: string,
        rationale: RawText,
        limitations: RawTexts,
        evidence: RawRefs)

  type Key = (string, string)

  datatype Kind =
    | Shape | Reference | Duplicate | BadScore
    | BadRationale | BadLimitations | BadEvidence | NotExecutable
    | NotRectangular

  const MEASURES: map<int, string> := map[0 := "absent", 1 := "limited", 2 := "substantial", 3 := "strong"]

  function KeyOf(o: Observation): Key
    requires o.Observation?
  {
    (o.system, o.axis)
  }

  /** A cell out of scope has no score; an applicable one has a score of 0 to 3 and the measure it stands for. */
  predicate CellFits(o: Observation)
    requires o.Observation?
  {
    match o.applicability
    case OutOfScope => o.score == NoScore && o.measure == "not-applicable"
    case Applicable => o.score.IntScore? && o.score.value in MEASURES && o.measure == MEASURES[o.score.value]
    case OtherApplicability => false
  }

  /** `_bounded_text` */
  predicate IsBounded(t: RawText, maximum: nat) { t.Text? && !AllSpace(t.text) && |t.text| <= maximum }

  /** `_bounded_text_list` */
  predicate AreBounded(ts: RawTexts) {
    ts.Texts? && 0 < |ts.items| <= 16 && forall i :: 0 <= i < |ts.items| ==> IsBounded(ts.items[i], 4000)
  }

  /** A reference to a primary source of the same system, with a bounded locator. */
  predicate RefFits(ref: RawRef, system: string, sources: Sources) {
    && ref.Ref? && ref.exact && IsBounded(ref.locator, 500)
    && ref.source.Some? && ref.source.value in sources
    && sources[ref.source.value].primary && sources[ref.source.value].system == system
  }

  predicate EvidenceFits(refs: RawRefs, system: string, sources: Sources) {
    refs.Refs? && refs.items != [] && forall i :: 0 <= i < |refs.items| ==> RefFits(refs.items[i], system, sources)
  }

  const HISTORICAL: string := "aces"
  const DELIVERED: set<string> := {"concrete-syntax-soundness", "implementation-maturity"}

  predicate IsExecutable(ref: RawRef, sources: Sources) {
    ref.Ref? && ref.source.Some? && ref.source.value in sources && sources[ref.source.value].executable
  }

  /** What was delivered is shown by something that runs. */
  predicate DeliveryFits(o: Observation, sources: Sources)
    requires o.Observation?
  {
    o.system == HISTORICAL && o.axis in DELIVERED ==>
      o.evidence.Refs? && exists i :: 0 <= i < |o.evidence.items| && IsExecutable(o.evidence.items[i], sources)
  }

  predicate IsSound(o: Observation, sources: Sources)
    requires o.Observation?
  {
    && IsBounded(o.rationale, 4000) && AreBounded(o.limitations)
    && EvidenceFits(o.evidence, o.system, sources) && DeliveryFits(o, sources)
  }

  function ScoreOf(o: Observation): Option<int>
    requires o.Observation?
  {
    if o.score.IntScore? then Some(o.score.value) else None
  }

  predicate Known(o: Observation, systems: set<string>, axes: set<string>) {
    o.Observation? && o.system in systems && o.axis in axes
  }

  /** An observation that raises nothing by itself. */
  predicate Fits(o: Observation, systems: set<string>, axes: set<string>, sources: Sources) {
    Known(o, systems, axes) && CellFits(o) && IsSound(o, sources)
  }

  /** Every observation fits and no cell is observed twice. */
  ghost predicate AllFit(obs: seq<Observation>, systems: set<string>, axes: set<string>, sources: Sources) {
    && (forall i :: 0 <= i < |obs| ==> Fits(obs[i], systems, axes, sources))
    && (forall i, j :: 0 <= i < j < |obs| ==> KeyOf(obs[i]) != KeyOf(obs[j]))
  }

  function Cells(systems: set<string>, axes: set<string>): set<Key> {
    set s, a | s in systems && a in axes :: (s, a)
  }

  /** The scores that the observations give, cell by cell. */
  ghost predicate Tabulates(obs: seq<Observation>, scores: map<Key, Option<int>>)
    requires forall i :: 0 <= i < |obs| ==> obs[i].Observation?
  {
    && (forall i :: 0 <= i < |obs| ==> KeyOf(obs[i]) in scores && scores[KeyOf(obs[i])] == ScoreOf(obs[i]))
    && (forall k :: k in scores ==> exists i :: 0 <= i < |obs| && KeyOf(obs[i]) == k)
  }

  /** Observation `i` is the first about its cell, which is one of the table. */
  ghost predicate IsFirst(obs: seq<Observation>, i: nat, systems: set<string>, axes: set<string>) {
    && i < |obs| && Known(obs[i], systems, axes)
    && forall j :: 0 <= j < i && Known(obs[j], systems, axes) ==> KeyOf(obs[j]) != KeyOf(obs[i])
  }

  /** What observation `i` is reported for. */
  ghost predicate Raises(obs: seq<Observation>, i: nat, kind: Kind, systems: set<string>, axes: set<string>,
                         sources: Sources)
    requires i < |obs|
  {
    match kind
    case Shape => !obs[i].Observation?
    case Reference => obs[i].Observation? && !Known(obs[i], systems, axes)
    case Duplicate => Known(obs[i], systems, axes) && !IsFirst(obs, i, systems, axes)
    case BadScore => IsFirst(obs, i, systems, axes) && !CellFits(obs[i])
    case BadRationale => IsFirst(obs, i, systems, axes) && !IsBounded(obs[i].rationale, 4000)
    case BadLimitations => IsFirst(obs, i, systems, axes) && !AreBounded(obs[i].limitations)
    case BadEvidence => IsFirst(obs, i, systems, axes) && !EvidenceFits(obs[i].evidence, obs[i].system, sources)
    case NotExecutable => IsFirst(obs, i, systems, axes) && !DeliveryFits(obs[i], sources)
    case NotRectangular => false
  }

  ghost predicate Reported(obs: seq<Observation>, n: nat, kind: Kind, systems: set<string>, axes: set<string>,
                           sources: Sources)
    requires n <= |obs|
  {
    exists i :: 0 <= i < n && Raises(obs, i, kind, systems, axes, sources)
  }

  /** The table so far: each cell holds the score of the first observation about it. */
  ghost predicate HoldsFirst(obs: seq<Observation>, n: nat, scores: map<Key, Option<int>>, systems: set<string>,
                             axes: set<string>)
    requires n <= |obs|
  {
    && (forall i :: 0 <= i < n && Known(obs[i], systems, axes) ==> KeyOf(obs[i]) in scores)
    && (forall k :: k in scores ==> exists i :: 0 <= i < n && Gives(obs, i, k, scores[k], systems, axes))
  }

  ghost predicate Gives(obs: seq<Observation>, i: nat, key: Key, score: Option<int>, systems: set<string>,
                        axes: set<string>) {
    IsFirst(obs, i, systems, axes) && KeyOf(obs[i]) == key && ScoreOf(obs[i]) == score
  }

  /** One turn of the loop of `_validate_observations`. */
  method CheckObservation(obs: seq<Observation>, n: nat, table: map<Key, Option<int>>, systems: set<string>,
                          axes: set<string>, sources: Sources)
    returns (scores: map<Key, Option<int>>, failures: seq<Kind>)
    requires n < |obs| && HoldsFirst(obs, n, table, systems, axes)
    ensures HoldsFirst(obs, n + 1, scores, systems, axes)
    ensures forall kind :: kind in failures <==> Raises(obs, n, kind, systems, axes, sources)
    ensures failures == [] <==> Fits(obs[n], systems, axes, sources) && KeyOf(obs[n]) !in table
    ensures failures == [] ==> scores == table[KeyOf(obs[n]) := ScoreOf(obs[n])]
  {
    hide CellFits, IsBounded, AreBounded, EvidenceFits, DeliveryFits;
    scores, failures := table, [];
    var o := obs[n];
    if !o.Observation? {
      failures := [Shape];
    } else if !Known(o, systems, axes) {
      failures := [Reference];
    } else if KeyOf(o) in scores {
      failures := [Duplicate];
    } else {
      if !CellFits(o) { failures := [BadScore]; }
      scores := scores[KeyOf(o) := ScoreOf(o)];
      if !IsBounded(o.rationale, 4000) { failures := failures + [BadRationale]; }
      if !AreBounded(o.limitations) { failures := failures + [BadLimitations]; }
      if !EvidenceFits(o.evidence, o.system, sources) { failures := failures + [BadEvidence]; }
      if !DeliveryFits(o, sources) { failures := failures + [NotExecutable]; }
      assert Gives(obs, n, KeyOf(o), ScoreOf(o), systems, axes);
    }
  }

  /** `_validate_observations` */
  method ValidateObservations(obs: seq<Observation>, systems: set<string>, axes: set<string>, sources: Sources)
    returns (scores: map<Key, Option<int>>, failures: seq<Kind>)
    ensures HoldsFirst(obs, |obs|, scores, systems, axes)
    ensures forall kind :: kind in failures <==>
      || Reported(obs, |obs|, kind, systems, axes, sources)
      || (kind == NotRectangular && scores.Keys != Cells(systems, axes))
    ensures failures == [] <==> AllFit(obs, systems, axes, sources) && Covers(obs, systems, axes)
    ensures failures == [] ==> Tabulates(obs, scores) && scores.Keys == Cells(systems, axes)
  {
    hide CellFits, HoldsFirst, Raises, Tabulates, Covers, Cells;
    scores, failures := map[], [];
    NothingObserved(obs, systems, axes, sources);
    for i := 0 to |obs|
      invariant HoldsFirst(obs, i, scores, systems, axes)
      invariant forall kind :: kind in failures <==> Reported(obs, i, kind, systems, axes, sources)
      invariant failures == [] <==> AllFit(obs[..i], systems, axes, sources)
      invariant failures == [] ==> Tabulates(obs[..i], scores)
    {
      assert obs[..i + 1] == obs[..i] + [obs[i]];
      if failures == [] {
        OneMoreFits(obs[..i], obs[i], scores, systems, axes, sources);
      } else {
        FewerFit(obs[..i], obs[i], systems, axes, sources);
      }
      var raised;
      scores, raised := CheckObservation(obs, i, scores, systems, axes, sources);
      failures := failures + raised;
    }
    assert obs[..|obs|] == obs;
    if failures == [] { KeysAreCells(obs, scores, systems, axes, sources); }
    if scores.Keys != Cells(systems, axes) {
      failures := failures + [NotRectangular];
    }
  }

  lemma NothingObserved(obs: seq<Observation>, systems: set<string>, axes: set<string>, sources: Sources)
    ensures AllFit(obs[..0], systems, axes, sources) && Tabulates(obs[..0], map[])
    ensures HoldsFirst(obs, 0, map[], systems, axes)
  {
  }

  /** Every system is observed on every axis. */
  ghost predicate Covers(obs: seq<Observation>, systems: set<string>, axes: set<string>) {
    forall s, a :: s in systems && a in axes ==> Observed(obs, (s, a))
  }

  ghost predicate Observed(obs: seq<Observation>, key: Key) {
    exists i :: 0 <= i < |obs| && obs[i].Observation? && KeyOf(obs[i]) == key
  }

  lemma OneMoreFits(obs: seq<Observation>, o: Observation, scores: map<Key, Option<int>>, systems: set<string>,
                    axes: set<string>, sources: Sources)
    requires AllFit(obs, systems, axes, sources) && Tabulates(obs, scores)
    ensures AllFit(obs + [o], systems, axes, sources) <==> Fits(o, systems, axes, sources) && KeyOf(o) !in scores
    ensures Fits(o, systems, axes, sources) && KeyOf(o) !in scores ==>
      Tabulates(obs + [o], scores[KeyOf(o) := ScoreOf(o)])
  {
    hide CellFits;
    var more := obs + [o];
    if AllFit(more, systems, axes, sources) {
      assert more[|obs|] == o;
      forall i | 0 <= i < |obs| ensures KeyOf(obs[i]) != KeyOf(o) { assert more[i] == obs[i]; }
    }
    if Fits(o, systems, axes, sources) && KeyOf(o) !in scores {
      var table := scores[KeyOf(o) := ScoreOf(o)];
      forall k | k in table ensures exists i :: 0 <= i < |more| && KeyOf(more[i]) == k {
        if k in scores {
          var i :| 0 <= i < |obs| && KeyOf(obs[i]) == k;
          assert KeyOf(more[i]) == k;
        } else {
          assert KeyOf(more[|obs|]) == k;
        }
      }
    }
  }

  lemma FewerFit(obs: seq<Observation>, o: Observation, systems: set<string>, axes: set<string>, sources: Sources)
    requires !AllFit(obs, systems, axes, sources)
    ensures !AllFit(obs + [o], systems, axes, sources)
  {
    hide Fits;
    var more := obs + [o];
    if AllFit(more, systems, axes, sources) {
      forall i | 0 <= i < |obs| ensures Fits(obs[i], systems, axes, sources) { assert more[i] == obs[i]; }
      AllFitAreObservations(more, systems, axes, sources);
      forall i, j | 0 <= i < j < |obs|
        ensures more[i] == obs[i] && more[j] == obs[j] && KeyOf(obs[i]) != KeyOf(obs[j]) {
        assert KeyOf(more[i]) != KeyOf(more[j]);
      }
    }
  }

  lemma AllFitAreObservations(obs: seq<Observation>, systems: set<string>, axes: set<string>, sources: Sources)
    requires forall i :: 0 <= i < |obs| ==> Fits(obs[i], systems, axes, sources)
    ensures forall i :: 0 <= i < |obs| ==> obs[i].Observation?
  {
  }

  lemma KeysAreCells(obs: seq<Observation>, scores: map<Key, Option<int>>, systems: set<string>, axes: set<string>,
                     sources: Sources)
    requires AllFit(obs, systems, axes, sources) && Tabulates(obs, scores)
    ensures scores.Keys == Cells(systems, axes) <==> Covers(obs, systems, axes)
  {
    hide CellFits;
    forall k | k in scores ensures k in Cells(systems, axes) {
      var i :| 0 <= i < |obs| && KeyOf(obs[i]) == k;
      assert Fits(obs[i], systems, axes, sources);
    }
    if Covers(obs, systems, axes) {
      forall k | k in Cells(systems, axes) ensures k in scores {
        assert Observed(obs, (k.0, k.1));
        var i :| 0 <= i < |obs| && obs[i].Observation? && KeyOf(obs[i]) == k;
        assert KeyOf(obs[i]) in scores;
      }
    }
    if scores.Keys == Cells(systems, axes) {
      forall s, a | s in systems && a in axes ensures Observed(obs, (s, a)) {
        assert (s, a) in Cells(systems, axes);
        var i :| 0 <= i < |obs| && KeyOf(obs[i]) == (s, a);
      }
    }
  }

  // ---------------------------------------------------------------- what an empty list means

  lemma {:induction false} CellCount(systems: set<string>, axes: set<string>)
    ensures |Cells(systems, axes)| == |systems| * |axes|
  {
    if systems == {} {
      assert Cells(systems, axes) == {};
    } else {
      var s :| s in systems;
      var rest := systems - {s};
      CellCount(rest, axes);
      RowCount(s, axes);
      var row := Cells({s}, axes);
      assert Cells(systems, axes) == Cells(rest, axes) + row;
      assert Cells(rest, axes) !! row;
      OneMoreRow(|rest|, |axes|);
    }
  }

  lemma OneMoreRow(n: nat, m: nat)
    ensures (n + 1) * m == n * m + m
  {
  }

  lemma {:induction false} RowCount(s: string, axes: set<string>)
    ensures |Cells({s}, axes)| == |axes|
  {
    if axes == {} {
      assert Cells({s}, axes) == {};
    } else {
      var a :| a in axes;
      RowCount(s, axes - {a});
      assert Cells({s}, axes) == Cells({s}, axes - {a}) + {(s, a)};
    }
  }

  function KeysOf(obs: seq<Observation>): set<Key> {
    set i | 0 <= i < |obs| && obs[i].Observation? :: KeyOf(obs[i])
  }

  lemma {:induction false} DistinctKeysCount(obs: seq<Observation>)
    requires forall i :: 0 <= i < |obs| ==> obs[i].Observation?
    requires forall i, j :: 0 <= i < j < |obs| ==> KeyOf(obs[i]) != KeyOf(obs[j])
    ensures |KeysOf(obs)| == |obs|
  {
    if obs != [] {
      var rest, last := obs[..|obs| - 1], obs[|obs| - 1];
      DistinctKeysCount(rest);
      assert obs == rest + [last];
      assert KeysOf(obs) == KeysOf(rest) + {KeyOf(last)} by {
        forall k | k in KeysOf(obs) ensures k in KeysOf(rest) + {KeyOf(last)} {
          var i :| 0 <= i < |obs| && KeyOf(obs[i]) == k;
          if i < |rest| { assert rest[i] == obs[i]; }
        }
        forall k | k in KeysOf(rest) ensures k in KeysOf(obs) {
          var i :| 0 <= i < |rest| && KeyOf(rest[i]) == k;
          assert obs[i] == rest[i];
        }
        assert obs[|rest|] == last;
      }
      assert KeyOf(last) !in KeysOf(rest);
    }
  }

  /** Observation `i`, and no other, is about this cell. */
  ghost predicate OnlyAbout(obs: seq<Observation>, i: nat, key: Key) {
    && i < |obs| && obs[i].Observation? && KeyOf(obs[i]) == key
    && forall j :: 0 <= j < |obs| && obs[j].Observation? && KeyOf(obs[j]) == key ==> j == i
  }

  /**
   * A table without failures is rectangular: its observations and the cells correspond one to one,
   * there are as many as systems times axes, and a cell has no score exactly when it is out of scope.
   */
  lemma TableIsRectangular(obs: seq<Observation>, systems: set<string>, axes: set<string>, sources: Sources)
    requires AllFit(obs, systems, axes, sources) && Covers(obs, systems, axes)
    ensures |obs| == |systems| * |axes|
    ensures forall s, a :: s in systems && a in axes ==> exists i :: OnlyAbout(obs, i, (s, a))
    ensures forall i :: 0 <= i < |obs| ==>
      obs[i].Observation? && (ScoreOf(obs[i]).None? <==> obs[i].applicability.OutOfScope?)
  {
    hide Cells;
    DistinctKeysCount(obs);
    CellCount(systems, axes);
    assert KeysOf(obs) == Cells(systems, axes) by { KeysCover(obs, systems, axes, sources); }
    forall s, a | s in systems && a in axes
      ensures exists i :: OnlyAbout(obs, i, (s, a))
    {
      assert Observed(obs, (s, a));
      var i :| 0 <= i < |obs| && obs[i].Observation? && KeyOf(obs[i]) == (s, a);
      assert OnlyAbout(obs, i, (s, a));
    }
  }

  lemma KeysCover(obs: seq<Observation>, systems: set<string>, axes: set<string>, sources: Sources)
    requires AllFit(obs, systems, axes, sources) && Covers(obs, systems, axes)
    ensures KeysOf(obs) == Cells(systems, axes)
  {
    hide CellFits;
    forall k | k in Cells(systems, axes) ensures k in KeysOf(obs) {
      assert Observed(obs, (k.0, k.1));
    }
    forall k | k in KeysOf(obs) ensures k in Cells(systems, axes) {
      var i :| 0 <= i < |obs| && obs[i].Observation? && KeyOf(obs[i]) == k;
      assert Fits(obs[i], systems, axes, sources);
    }
  }

  // ---------------------------------------------------------------- a table of one cell

  /** A text that is not blank and no longer than allowed. */
  ghost predicate SaysSomething(t: RawText, maximum: nat) {
    t.Text? && |t.text| <= maximum && exists i :: 0 <= i < |t.text| && !IsSpace(t.text[i])
  }

  /** What a table of one cell must hold, spelled out. */
  lemma OneCell(o: Observation, system: string, axis: string, sources: Sources)
    ensures AllFit([o], {system}, {axis}, sources) && Covers([o], {system}, {axis}) <==>
      && o.Observation? && o.system == system && o.axis == axis
      && (o.applicability == OutOfScope ==> o.score == NoScore && o.measure == "not-applicable")
      && (o.applicability == Applicable ==>
            || (o.score == IntScore(0) && o.measure == "absent") || (o.score == IntScore(1) && o.measure == "limited")
            || (o.score == IntScore(2) && o.measure == "substantial")
            || (o.score == IntScore(3) && o.measure == "strong"))
      && o.applicability != OtherApplicability
      && SaysSomething(o.rationale, 4000)
      && o.limitations.Texts? && 1 <= |o.limitations.items| <= 16
      && (forall i :: 0 <= i < |o.limitations.items| ==> SaysSomething(o.limitations.items[i], 4000))
      && OneCellEvidence(o, sources)
  {
    hide IsSpace;
    forall t: RawText, n: nat ensures IsBounded(t, n) <==> SaysSomething(t, n) { }
    hide IsBounded, SaysSomething;
    OneIsAll(o, system, axis, sources);
    if o.Observation? && o.system == system && o.axis == axis {
      OneCellFits(o);
      OneCellIsSupported(o, sources);
    }
  }

  ghost predicate OneCellEvidence(o: Observation, sources: Sources)
    requires o.Observation?
  {
    && o.evidence.Refs? && |o.evidence.items| >= 1
    && (forall i :: 0 <= i < |o.evidence.items| ==> (
          var ref := o.evidence.items[i];
          && ref.Ref? && ref.exact && ref.source.Some? && ref.source.value in sources
          && sources[ref.source.value].primary && sources[ref.source.value].system == o.system
          && SaysSomething(ref.locator, 500)))
    && (o.system == "aces" && (o.axis == "concrete-syntax-soundness" || o.axis == "implementation-maturity") ==>
          exists i :: 0 <= i < |o.evidence.items| && IsExecutable(o.evidence.items[i], sources))
  }

  lemma OneIsAll(o: Observation, system: string, axis: string, sources: Sources)
    ensures AllFit([o], {system}, {axis}, sources) && Covers([o], {system}, {axis}) <==>
      o.Observation? && o.system == system && o.axis == axis && CellFits(o) && IsSound(o, sources)
  {
    hide CellFits, IsSound;
    if AllFit([o], {system}, {axis}, sources) { assert Fits([o][0], {system}, {axis}, sources); }
    if Fits(o, {system}, {axis}, sources) {
      assert [o][0] == o;
      assert Observed([o], (system, axis));
    }
  }

  lemma OneCellFits(o: Observation)
    requires o.Observation?
    ensures CellFits(o) <==>
      && (o.applicability == OutOfScope ==> o.score == NoScore && o.measure == "not-applicable")
      && (o.applicability == Applicable ==>
            || (o.score == IntScore(0) && o.measure == "absent") || (o.score == IntScore(1) && o.measure == "limited")
            || (o.score == IntScore(2) && o.measure == "substantial")
            || (o.score == IntScore(3) && o.measure == "strong"))
      && o.applicability != OtherApplicability
  {
  }

  lemma OneCellIsSupported(o: Observation, sources: Sources)
    requires o.Observation?
    ensures IsSound(o, sources) <==>
      && SaysSomething(o.rationale, 4000)
      && o.limitations.Texts? && 1 <= |o.limitations.items| <= 16
      && (forall i :: 0 <= i < |o.limitations.items| ==> SaysSomething(o.limitations.items[i], 4000))
      && OneCellEvidence(o, sources)
  {
    hide IsSpace;
    forall t: RawText, n: nat ensures IsBounded(t, n) <==> SaysSomething(t, n) { }
    hide IsBounded, SaysSomething;
  }
}
