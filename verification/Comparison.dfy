/** Pareto frontiers, weighted totals and rankings of compared systems. */
module Comparison {
  import opened Ordering

  /** A cell may be missing from the table or hold no score. */
  type Scores = map<(string, string), Option<int>>

  function Score(scores: Scores, system: string, axis: string): Option<int> {
    if (system, axis) in scores then scores[(system, axis)] else None
  }

  // ---------------------------------------------------------------- the frontier

  /** `u` is scored on every axis where `c` is, and is nowhere worse and somewhere better. */
  predicate Dominates(scores: Scores, axes: seq<string>, u: string, c: string) {
    && u != c
    && (forall k :: 0 <= k < |axes| ==> Score(scores, u, axes[k]).Some? && Score(scores, c, axes[k]).Some?)
    && (forall k :: 0 <= k < |axes| ==> Score(scores, u, axes[k]).value >= Score(scores, c, axes[k]).value)
    && exists k :: 0 <= k < |axes| && Score(scores, u, axes[k]).value > Score(scores, c, axes[k]).value
  }

  predicate Dominated(scores: Scores, axes: seq<string>, systems: seq<string>, c: string) {
    exists k :: 0 <= k < |systems| && Dominates(scores, axes, systems[k], c)
  }

  /** The systems nobody dominates, in the order given. */
  function Undominated(scores: Scores, axes: seq<string>, all: seq<string>, systems: seq<string>): (r: seq<string>)
    ensures forall c :: c in r <==> c in systems && !Dominated(scores, axes, all, c)
  {
    if systems == [] then []
    else
      var last := systems[|systems| - 1];
      assert systems == systems[..|systems| - 1] + [last];
      Undominated(scores, axes, all, systems[..|systems| - 1])
      + (if Dominated(scores, axes, all, last) then [] else [last])
  }

  function Frontier(systems: seq<string>, axes: seq<string>, scores: Scores): seq<string> {
    SortList(Undominated(scores, axes, systems, systems))
  }

  /** `_pareto_frontier` */
  method ParetoFrontier(systems: seq<string>, axes: seq<string>, scores: Scores) returns (frontier: seq<string>)
    ensures frontier == Frontier(systems, axes, scores)
  {
    var kept: seq<string> := [];
    for i := 0 to |systems|
      invariant kept == Undominated(scores, axes, systems, systems[..i])
    {
      assert systems[..i + 1][..i] == systems[..i];
      var dominated := IsDominated(systems, axes, scores, systems[i]);
      if !dominated { kept := kept + [systems[i]]; }
    }
    assert systems[..|systems|] == systems;
    frontier := SortList(kept);
  }

  /** The inner loop: look for a challenger that dominates. */
  method IsDominated(systems: seq<string>, axes: seq<string>, scores: Scores, candidate: string)
    returns (dominated: bool)
    ensures dominated <==> Dominated(scores, axes, systems, candidate)
  {
    dominated := false;
    for k := 0 to |systems|
      invariant !dominated && forall j :: 0 <= j < k ==> !Dominates(scores, axes, systems[j], candidate)
    {
      var challenger := systems[k];
      if challenger == candidate { continue; }
      var left, right := Row(scores, candidate, axes), Row(scores, challenger, axes);
      if None in left + right { RowIsMissing(scores, axes, challenger, candidate); continue; }
      RowIsComplete(scores, axes, challenger, candidate);
      if (forall j :: 0 <= j < |axes| ==> right[j].value >= left[j].value)
         && (exists j :: 0 <= j < |axes| && right[j].value > left[j].value)
      {
        return true;
      }
    }
  }

  function Row(scores: Scores, system: string, axes: seq<string>): (r: seq<Option<int>>)
    ensures |r| == |axes|
    ensures forall k :: 0 <= k < |axes| ==> r[k] == Score(scores, system, axes[k])
  {
    seq(|axes|, k requires 0 <= k < |axes| => Score(scores, system, axes[k]))
  }

  lemma RowIsMissing(scores: Scores, axes: seq<string>, u: string, c: string)
    requires None in Row(scores, c, axes) + Row(scores, u, axes)
    ensures !Dominates(scores, axes, u, c)
  {
    var both := Row(scores, c, axes) + Row(scores, u, axes);
    var k :| 0 <= k < |both| && both[k] == None;
    if k < |axes| { assert Score(scores, c, axes[k]).None?; } else { assert Score(scores, u, axes[k - |axes|]).None?; }
  }

  lemma RowIsComplete(scores: Scores, axes: seq<string>, u: string, c: string)
    requires None !in Row(scores, c, axes) + Row(scores, u, axes)
    ensures forall k :: 0 <= k < |axes| ==> Score(scores, u, axes[k]).Some? && Score(scores, c, axes[k]).Some?
  {
    var both := Row(scores, c, axes) + Row(scores, u, axes);
    forall k | 0 <= k < |axes| ensures Score(scores, u, axes[k]).Some? && Score(scores, c, axes[k]).Some? {
      assert both[k] in both && both[k + |axes|] in both;
    }
  }

  /** The frontier is exactly the undominated systems, sorted, each as often as it was listed. */
  lemma FrontierIsUndominated(systems: seq<string>, axes: seq<string>, scores: Scores)
    ensures Nondecreasing(Frontier(systems, axes, scores))
    ensures forall c :: c in Frontier(systems, axes, scores) <==> c in systems && !Dominated(scores, axes, systems, c)
    ensures forall c :: (multiset(Frontier(systems, axes, scores))[c]
      == if Dominated(scores, axes, systems, c) then 0 else multiset(systems)[c])
  {
    var u := Undominated(scores, axes, systems, systems);
    forall c ensures c in SortList(u) <==> c in u {
      assert c in multiset(SortList(u)) <==> c in multiset(u);
    }
    forall c { UndominatedCounts(scores, axes, systems, systems, c); }
  }

  lemma CountOneMore(s: seq<string>, x: string, c: string)
    ensures multiset(s + [x])[c] == multiset(s)[c] + if x == c then 1 else 0
  {
  }

  lemma OneMoreSystem(scores: Scores, axes: seq<string>, all: seq<string>, before: seq<string>, last: string)
    ensures Undominated(scores, axes, all, before + [last]) ==
      Undominated(scores, axes, all, before) + if Dominated(scores, axes, all, last) then [] else [last]
  {
    hide Dominated;
    assert (before + [last])[..|before|] == before;
  }

  /** Counting `c` after a further system, which is dropped if it is dominated. */
  lemma CountStep(kept: seq<string>, before: seq<string>, last: string, c: string, dropLast: bool, dropped: bool)
    requires multiset(kept)[c] == if dropped then 0 else multiset(before)[c]
    requires last == c ==> dropLast == dropped
    ensures multiset(kept + if dropLast then [] else [last])[c] == if dropped then 0 else multiset(before + [last])[c]
  {
    CountOneMore(before, last, c);
    CountOneMore(kept, last, c);
    assert kept + [] == kept;
  }

  lemma {:induction false} UndominatedCounts(scores: Scores, axes: seq<string>, all: seq<string>, systems: seq<string>,
                                             c: string)
    ensures multiset(Undominated(scores, axes, all, systems))[c] ==
      if Dominated(scores, axes, all, c) then 0 else multiset(systems)[c]
  {
    hide Dominated;
    if systems != [] {
      var before, last := systems[..|systems| - 1], systems[|systems| - 1];
      UndominatedCounts(scores, axes, all, before, c);
      assert systems == before + [last];
      OneMoreSystem(scores, axes, all, before, last);
      CountStep(Undominated(scores, axes, all, before), before, last, c,
                Dominated(scores, axes, all, last), Dominated(scores, axes, all, c));
    }
  }

  lemma DominationIsTransitive(scores: Scores, axes: seq<string>, a: string, b: string, c: string)
    requires Dominates(scores, axes, a, b) && Dominates(scores, axes, b, c)
    ensures Dominates(scores, axes, a, c)
  {
    var k :| 0 <= k < |axes| && Score(scores, a, axes[k]).value > Score(scores, b, axes[k]).value;
    assert Score(scores, a, axes[k]).value > Score(scores, c, axes[k]).value;
  }

  ghost function Dominators(scores: Scores, axes: seq<string>, systems: seq<string>, c: string): set<string> {
    set u | u in systems && Dominates(scores, axes, u, c)
  }

  /** Every system left out of the frontier is dominated by a member of it. */
  lemma {:induction false} LeftOutIsDominatedFromFrontier(scores: Scores, axes: seq<string>, systems: seq<string>,
                                                          c: string)
    returns (u: string)
    requires Dominated(scores, axes, systems, c)
    ensures u in systems && !Dominated(scores, axes, systems, u) && Dominates(scores, axes, u, c)
    decreases |Dominators(scores, axes, systems, c)|
  {
    var k :| 0 <= k < |systems| && Dominates(scores, axes, systems[k], c);
    u := systems[k];
    if Dominated(scores, axes, systems, u) {
      var above, here := Dominators(scores, axes, systems, u), Dominators(scores, axes, systems, c);
      forall v | v in above ensures v in here { DominationIsTransitive(scores, axes, v, u, c); }
      assert u in here && u !in above;
      ProperSubsetIsSmaller(above, here);
      var v := LeftOutIsDominatedFromFrontier(scores, axes, systems, u);
      DominationIsTransitive(scores, axes, v, u, c);
      u := v;
    }
  }

  /** A comparison of at least one system has a frontier. */
  lemma FrontierIsNonempty(systems: seq<string>, axes: seq<string>, scores: Scores)
    requires systems != []
    ensures Frontier(systems, axes, scores) != []
  {
    FrontierIsUndominated(systems, axes, scores);
    assert systems[0] in systems;
    if Dominated(scores, axes, systems, systems[0]) {
      var u := LeftOutIsDominatedFromFrontier(scores, axes, systems, systems[0]);
      assert u in Frontier(systems, axes, scores);
    }
  }

  /** A cell that is missing or holds no score. */
  predicate NoScore(scores: Scores, s: string, axis: string) {
    (s, axis) !in scores || scores[(s, axis)] == None
  }

  /** Whoever lacks a score is on the frontier, and so is whoever is challenged only by such. */
  lemma MissingScoresShield(systems: seq<string>, axes: seq<string>, scores: Scores, c: string)
    requires c in systems
    requires forall u :: u in systems && u != c ==>
      exists k :: 0 <= k < |axes| && (NoScore(scores, c, axes[k]) || NoScore(scores, u, axes[k]))
    ensures c in Frontier(systems, axes, scores)
  {
    FrontierIsUndominated(systems, axes, scores);
    forall u | u in systems ensures !Dominates(scores, axes, u, c) {
      if u != c {
        var k :| 0 <= k < |axes| && (NoScore(scores, c, axes[k]) || NoScore(scores, u, axes[k]));
        assert Score(scores, c, axes[k]).None? || Score(scores, u, axes[k]).None?;
      }
    }
  }

  predicate ScoresAtLeast(scores: Scores, u: string, c: string, axis: string) {
    && !NoScore(scores, u, axis) && !NoScore(scores, c, axis)
    && scores[(u, axis)].value >= scores[(c, axis)].value
  }

  /** Whoever is challenged by one that scores no less anywhere and not the same everywhere is not. */
  lemma BetterScoresDominate(systems: seq<string>, axes: seq<string>, scores: Scores, c: string, u: string, better: nat)
    requires u in systems && better < |axes|
    requires forall k :: 0 <= k < |axes| ==> ScoresAtLeast(scores, u, c, axes[k])
    requires !ScoresAtLeast(scores, c, u, axes[better])
    ensures c !in Frontier(systems, axes, scores)
  {
    FrontierIsUndominated(systems, axes, scores);
    var j :| 0 <= j < |systems| && systems[j] == u;
    assert ScoresAtLeast(scores, u, c, axes[better]);
    forall k | 0 <= k < |axes|
      ensures Score(scores, u, axes[k]).Some? && Score(scores, c, axes[k]).Some?
      ensures Score(scores, u, axes[k]).value >= Score(scores, c, axes[k]).value
    {
      assert ScoresAtLeast(scores, u, c, axes[k]);
    }
    assert Score(scores, u, axes[better]).value > Score(scores, c, axes[better]).value;
    assert Dominates(scores, axes, systems[j], c);
  }

  // ---------------------------------------------------------------- totals and ranking

  /** A weight profile: the axes in file order with their weights. */
  type Weights = seq<(string, int)>

  function Points(scores: Scores, system: string, axis: string, weight: int): int {
    match Score(scores, system, axis)
    case Some(score) => score * weight
    case None => 0
  }

  function Total(weights: Weights, scores: Scores, system: string): int {
    if weights == [] then 0
    else
      var last := weights[|weights| - 1];
      Total(weights[..|weights| - 1], scores, system) + Points(scores, system, last.0, last.1)
  }

  /** The total adds score times weight, axis by axis, where there is a score. */
  lemma {:induction false} TotalAddsUp(a: Weights, b: Weights, axis: string, weight: int, scores: Scores, s: string)
    ensures Total([(axis, weight)], scores, s) ==
      if NoScore(scores, s, axis) then 0 else scores[(s, axis)].value * weight
    ensures Total(a + b, scores, s) == Total(a, scores, s) + Total(b, scores, s)
  {
    assert [(axis, weight)][..0] == [];
    if b == [] {
      assert a + b == a;
    } else {
      TotalAddsUp(a, b[..|b| - 1], axis, weight, scores, s);
      assert (a + b)[..|a + b| - 1] == a + b[..|b| - 1];
    }
  }

  /** `_weighted_totals` */
  method WeightedTotals(systems: seq<string>, weights: Weights, scores: Scores) returns (totals: map<string, int>)
    ensures totals == TotalsOf(systems, weights, scores)
  {
    totals := map[];
    for i := 0 to |systems|
      invariant totals == TotalsOf(systems[..i], weights, scores)
    {
      assert systems[..i + 1] == systems[..i] + [systems[i]];
      var total := 0;
      for k := 0 to |weights|
        invariant total == Total(weights[..k], scores, systems[i])
      {
        assert weights[..k + 1][..k] == weights[..k];
        var score := Score(scores, systems[i], weights[k].0);
        if score.Some? { total := total + score.value * weights[k].1; }
      }
      assert weights[..|weights|] == weights;
      totals := totals[systems[i] := total];
    }
    assert systems[..|systems|] == systems;
  }

  function TotalsOf(systems: seq<string>, weights: Weights, scores: Scores): map<string, int> {
    map s | s in systems :: Total(weights, scores, s)
  }

  function TotalIn(totals: map<string, int>, s: string): int {
    if s in totals then totals[s] else 0
  }

  /** Falling total, then rising identifier. */
  predicate RanksBefore(totals: map<string, int>, a: string, b: string) {
    TotalIn(totals, a) > TotalIn(totals, b) || (TotalIn(totals, a) == TotalIn(totals, b) && Less(a, b))
  }

  function RankOrder(totals: map<string, int>): (string, string) -> bool {
    (a, b) => RanksBefore(totals, a, b)
  }

  lemma RankOrderIsTotal(totals: map<string, int>)
    ensures StrictTotalOrder(RankOrder(totals))
  {
    hide Less;
    forall a { LessIsIrreflexive(a); }
    forall a, b ensures RankOrder(totals)(a, b) || a == b || RankOrder(totals)(b, a) { LessIsTotal(a, b); }
    forall a, b, c | RankOrder(totals)(a, b) && RankOrder(totals)(b, c) ensures RankOrder(totals)(a, c) {
      if Less(a, b) && Less(b, c) { LessIsTransitive(a, b, c); }
    }
  }

  /** `_ranking` */
  function Ranking(totals: map<string, int>): (r: seq<string>)
    ensures |r| == |totals| && forall s :: s in r <==> s in totals
  {
    RankOrderIsTotal(totals);
    SortBy(totals.Keys, RankOrder(totals))
  }

  ghost predicate IsRanking(totals: map<string, int>, r: seq<string>) {
    && (forall s :: s in r <==> s in totals)
    && forall i, j :: 0 <= i < j < |r| ==> RanksBefore(totals, r[i], r[j])
  }

  /** The ranking lists the systems by falling total then identifier, and no other list does. */
  lemma RankingIsUnique(totals: map<string, int>, r: seq<string>)
    ensures IsRanking(totals, r) <==> r == Ranking(totals)
  {
    hide RanksBefore, Ranking;
    var order := RankOrder(totals);
    RankOrderIsTotal(totals);
    RankingAscends(totals);
    if IsRanking(totals, r) {
      forall i, j | 0 <= i < j < |r| ensures order(r[i], r[j]) { assert RanksBefore(totals, r[i], r[j]); }
      AscendingIsUnique(r, Ranking(totals), order);
    }
  }

  lemma RankingAscends(totals: map<string, int>)
    ensures Ascending(Ranking(totals), RankOrder(totals)) && IsRanking(totals, Ranking(totals))
  {
    RankOrderIsTotal(totals);
    SortByAscends(totals.Keys, RankOrder(totals));
    var r := Ranking(totals);
    forall i, j | 0 <= i < j < |r| ensures RanksBefore(totals, r[i], r[j]) {
      assert RankOrder(totals)(r[i], r[j]);
    }
  }

  /** The first of a ranking has the largest total, and the least identifier among those. */
  lemma FirstRanked(totals: map<string, int>, s: string)
    requires s in totals
    ensures Ranking(totals) != []
    ensures Ranking(totals)[0] in totals
    ensures s == Ranking(totals)[0] || RanksBefore(totals, Ranking(totals)[0], s)
  {
    hide RanksBefore;
    RankingAscends(totals);
    var r := Ranking(totals);
    assert s in r;
    var i :| 0 <= i < |r| && r[i] == s;
  }

  // ---------------------------------------------------------------- winners and the frontier

  /** No weight is negative, and only the compared axes carry any. */
  ghost predicate WeighsOnly(weights: Weights, axes: seq<string>) {
    forall k :: 0 <= k < |weights| ==> weights[k].1 >= 0 && (weights[k].0 in axes || weights[k].1 == 0)
  }

  /** The weight an axis has in all. */
  function WeightOf(weights: Weights, axis: string): int {
    if weights == [] then 0
    else
      var last := weights[|weights| - 1];
      WeightOf(weights[..|weights| - 1], axis) + (if last.0 == axis then last.1 else 0)
  }

  lemma {:induction false} DominatorTotalsMore(weights: Weights, axes: seq<string>, scores: Scores, u: string,
                                               c: string, better: string)
    requires WeighsOnly(weights, axes) && Dominates(scores, axes, u, c)
    requires better in axes && Score(scores, u, better).Some? && Score(scores, c, better).Some?
    requires Score(scores, u, better).value > Score(scores, c, better).value
    ensures Total(weights, scores, u) >= Total(weights, scores, c)
    ensures WeightOf(weights, better) > 0 ==> Total(weights, scores, u) > Total(weights, scores, c)
    ensures WeightOf(weights, better) >= 0
  {
    if weights != [] {
      var last := weights[|weights| - 1];
      DominatorTotalsMore(weights[..|weights| - 1], axes, scores, u, c, better);
      if last.0 in axes {
        var k :| 0 <= k < |axes| && axes[k] == last.0;
        MorePoints(Score(scores, u, last.0).value, Score(scores, c, last.0).value, last.1);
      } else {
        NoPoints(scores, u, last.0);
        NoPoints(scores, c, last.0);
      }
    }
  }

  lemma MorePoints(a: int, b: int, w: int)
    requires a >= b && w >= 0
    ensures a * w >= b * w
    ensures a > b && w > 0 ==> a * w > b * w
  {
  }

  lemma NoPoints(scores: Scores, system: string, axis: string)
    ensures Points(scores, system, axis, 0) == 0
  {
  }

  /**
   * With no negative weight and none outside the compared axes, some system of maximal total is on the
   * frontier, whatever scores are missing.
   */
  lemma SomeWinnerIsOnFrontier(systems: seq<string>, axes: seq<string>, weights: Weights, scores: Scores)
    returns (m: string)
    requires systems != [] && WeighsOnly(weights, axes)
    ensures m in Frontier(systems, axes, scores)
    ensures forall s :: s in systems ==> Total(weights, scores, s) <= Total(weights, scores, m)
  {
    hide Total, Frontier, Dominated, Ranking;
    FrontierIsUndominated(systems, axes, scores);
    var totals := TotalsOf(systems, weights, scores);
    assert systems[0] in systems;
    FirstRanked(totals, systems[0]);
    m := Ranking(totals)[0];
    forall s | s in systems ensures Total(weights, scores, s) <= Total(weights, scores, m) {
      assert s in totals;
      FirstRanked(totals, s);
    }
    if Dominated(scores, axes, systems, m) {
      var u := LeftOutIsDominatedFromFrontier(scores, axes, systems, m);
      var k :| 0 <= k < |axes| && Score(scores, u, axes[k]).value > Score(scores, m, axes[k]).value;
      DominatorTotalsMore(weights, axes, scores, u, m, axes[k]);
      m := u;
    }
  }

  /** The first-ranked system. */
  function Winner(systems: seq<string>, weights: Weights, scores: Scores): string
    requires systems != []
  {
    var totals := TotalsOf(systems, weights, scores);
    assert systems[0] in totals;
    Ranking(totals)[0]
  }

  lemma WinnerIsFirst(systems: seq<string>, weights: Weights, scores: Scores, s: string)
    requires s in systems
    ensures Winner(systems, weights, scores) in systems
    ensures var w := Winner(systems, weights, scores);
      s == w || Total(weights, scores, w) > Total(weights, scores, s)
        || (Total(weights, scores, w) == Total(weights, scores, s) && Less(w, s))
  {
    hide Total, Less;
    var totals := TotalsOf(systems, weights, scores);
    assert s in totals;
    FirstRanked(totals, s);
  }

  /** Every compared axis carries weight and no other axis does. */
  ghost predicate WeighsExactly(weights: Weights, axes: seq<string>) {
    (forall a :: a in axes ==> WeightOf(weights, a) > 0) && (forall k :: 0 <= k < |weights| ==>
        weights[k].0 in axes || weights[k].1 == 0)
  }

  ghost predicate AllTheSame(systems: seq<string>) {
    forall s, t :: s in systems && t in systems ==> s == t
  }

  /** With weights on exactly the compared axes the winner is undominated, whatever scores are missing. */
  lemma WinnerIsOnFrontier(systems: seq<string>, axes: seq<string>, weights: Weights, scores: Scores)
    requires systems != [] && (forall k :: 0 <= k < |weights| ==> weights[k].1 >= 0)
    requires WeighsExactly(weights, axes) || axes == [] || AllTheSame(systems)
    ensures Winner(systems, weights, scores) in Frontier(systems, axes, scores)
  {
    hide Total, Frontier, Winner;
    var w := Winner(systems, weights, scores);
    assert systems[0] in systems;
    WinnerIsFirst(systems, weights, scores, systems[0]);
    FrontierIsUndominated(systems, axes, scores);
    if Dominated(scores, axes, systems, w) {
      var j :| 0 <= j < |systems| && Dominates(scores, axes, systems[j], w);
      var u := systems[j];
      assert u in systems && u != w && !AllTheSame(systems);
      var k :| 0 <= k < |axes| && Score(scores, u, axes[k]).value > Score(scores, w, axes[k]).value;
      assert WeighsExactly(weights, axes) && WeighsOnly(weights, axes);
      assert axes[k] in axes;
      DominatorTotalsMore(weights, axes, scores, u, w, axes[k]);
      WinnerIsFirst(systems, weights, scores, u);
    }
  }

  // ---------------------------------------------------------------- the condition is exact

  /** A table in which `high` scores on one axis, `low` possibly on another, and nobody else at all. */
  function Table(low: string, high: string, axes: set<string>, a: string, b: string, points: int): Scores {
    map s, x | s in {low, high} && x in axes ::
      (s, x) := Some(if s == high && x == a then 1 else if s == low && x == b then points else 0)
  }

  lemma TableScores(low: string, high: string, axes: set<string>, a: string, b: string, points: int, s: string,
                    x: string)
    requires low != high
    ensures Score(Table(low, high, axes, a, b, points), s, x) ==
      if (s == low || s == high) && x in axes
      then Some(if s == high && x == a then 1 else if s == low && x == b then points else 0) else None
  {
  }

  /** A system that scores on one axis only totals that score times the axis's weight. */
  lemma {:induction false} OneAxisTotal(weights: Weights, scores: Scores, s: string, x: string, points: int)
    requires forall y :: Score(scores, s, y) in {Some(0), None} || (y == x && Score(scores, s, y) == Some(points))
    requires Score(scores, s, x) == Some(points) || (points == 0)
    ensures Total(weights, scores, s) == points * WeightOf(weights, x)
  {
    if weights != [] {
      var last := weights[|weights| - 1];
      OneAxisTotal(weights[..|weights| - 1], scores, s, x, points);
      if last.0 == x {
        Distribute(points, WeightOf(weights[..|weights| - 1], x), last.1);
      }
    }
  }

  lemma Distribute(points: int, w: int, v: int)
    ensures points * (w + v) == points * w + points * v
  {
  }

  lemma {:induction false} WeightsAddUp(weights: Weights, k: nat)
    requires k < |weights| && (forall j :: 0 <= j < |weights| ==> weights[j].1 >= 0)
    ensures WeightOf(weights, weights[k].0) >= weights[k].1
  {
    NoNegativeWeight(weights[..|weights| - 1], weights[k].0);
    if k < |weights| - 1 { WeightsAddUp(weights[..|weights| - 1], k); }
  }

  lemma {:induction false} NoNegativeWeight(weights: Weights, x: string)
    requires forall j :: 0 <= j < |weights| ==> weights[j].1 >= 0
    ensures WeightOf(weights, x) >= 0
  {
    if weights != [] { NoNegativeWeight(weights[..|weights| - 1], x); }
  }

  /** `high` beats `low` on `a` and is level elsewhere, so it dominates, yet `low` wins. */
  lemma LoserWins(systems: seq<string>, axes: seq<string>, weights: Weights, low: string, high: string, a: string,
                  b: string,
                  points: nat, scores: Scores, known: set<string>)
    requires systems != [] && low in systems && high in systems && low != high
    requires forall s :: s in systems ==> s == low || Less(low, s)
    requires a in axes && (b !in axes || points == 0) && (forall x :: x in axes ==>
      x in known) && (b in known || points == 0)
    requires scores == Table(low, high, known, a, b, points)
    requires forall j :: 0 <= j < |weights| ==> weights[j].1 >= 0
    requires WeightOf(weights, a) <= points * WeightOf(weights, b)
    ensures Dominates(scores, axes, high, low)
    ensures Winner(systems, weights, scores) == low
  {
    hide Total, Less, Table, WeightOf, Winner;
    forall s, x { TableScores(low, high, known, a, b, points, s, x); }
    var k :| 0 <= k < |axes| && axes[k] == a;
    assert Score(scores, high, axes[k]).value > Score(scores, low, axes[k]).value;
    OneAxisTotal(weights, scores, high, a, 1);
    OneAxisTotal(weights, scores, low, b, points);
    NoNegativeWeight(weights, a);
    WinnerIsFirst(systems, weights, scores, low);
    var w := Winner(systems, weights, scores);
    if w != low {
      LessIsAsymmetric(low, w);
      if w != high { OneAxisTotal(weights, scores, w, a, 0); }
    }
  }

  lemma LessIsAsymmetric(a: string, b: string)
    ensures !(Less(a, b) && Less(b, a))
  {
    if Less(a, b) && Less(b, a) {
      LessIsTransitive(a, b, a);
      LessIsIrreflexive(a);
    }
  }

  lemma LeastSystem(systems: seq<string>) returns (low: string)
    requires systems != []
    ensures low in systems && forall s :: s in systems ==> s == low || Less(low, s)
  {
    hide Less;
    LessIsStrictTotalOrder();
    var all := set s | s in systems;
    assert systems[0] in all;
    low := LeastExists(all, Less);
    assert forall s :: s in systems ==> s in all;
  }

  /**
   * The winner is on the frontier for every table of scores if and only if nothing is compared, there
   * is only one system, or the weights lie on exactly the compared axes.
   */
  lemma WinnerAlwaysOnFrontier(systems: seq<string>, axes: seq<string>, weights: Weights)
    requires systems != [] && (forall k :: 0 <= k < |weights| ==> weights[k].1 >= 0)
    ensures (forall scores :: Winner(systems, weights, scores) in Frontier(systems, axes, scores)) <==>
      axes == [] || AllTheSame(systems) || WeighsExactly(weights, axes)
  {
    hide Winner, Frontier, WeighsExactly;
    if axes == [] || AllTheSame(systems) || WeighsExactly(weights, axes) {
      forall scores { WinnerIsOnFrontier(systems, axes, weights, scores); }
    } else {
      var scores := LosingTable(systems, axes, weights);
      assert Winner(systems, weights, scores) !in Frontier(systems, axes, scores);
    }
  }

  lemma LosingTable(systems: seq<string>, axes: seq<string>, weights: Weights) returns (scores: Scores)
    requires systems != [] && (forall k :: 0 <= k < |weights| ==> weights[k].1 >= 0)
    requires axes != [] && !AllTheSame(systems) && !WeighsExactly(weights, axes)
    ensures Winner(systems, weights, scores) !in Frontier(systems, axes, scores)
  {
    hide Less, Table, Winner, Frontier, WeightOf, Dominates;
    var low := LeastSystem(systems);
    var high :| high in systems && high != low;
    var known := set x | x in axes;
    if a :| a in axes && WeightOf(weights, a) <= 0 {
      scores := Table(low, high, known, a, a, 0);
      LoserWins(systems, axes, weights, low, high, a, a, 0, scores, known);
    } else {
      var k :| 0 <= k < |weights| && weights[k].0 !in axes && weights[k].1 != 0;
      var a, b := axes[0], weights[k].0;
      WeightsAddUp(weights, k);
      var points := WeightOf(weights, a);
      AtLeastItself(points, WeightOf(weights, b));
      scores := Table(low, high, known + {b}, a, b, points);
      LoserWins(systems, axes, weights, low, high, a, b, points, scores, known + {b});
    }
    FrontierIsUndominated(systems, axes, scores);
    var j :| 0 <= j < |systems| && systems[j] == high;
    assert Dominated(scores, axes, systems, low);
  }

  lemma AtLeastItself(a: int, b: int)
    requires a > 0 && b > 0
    ensures a <= a * b
  {
  }
}
