/** The choice of one wheel among those a locked package offers. */
module Wheels {
  import opened Ordering

  type Tag = string

  /** One entry of `wheels`: unusable (no table, no URL, or a malformed file name), or with its tags. */
  datatype Wheel = Unusable | Wheel(url: string, tags: set<Tag>)

  predicate Carries(w: Wheel, tag: Tag) { w.Wheel? && tag in w.tags }

  predicate IsCarried(wheels: seq<Wheel>, tag: Tag) {
    exists i :: 0 <= i < |wheels| && Carries(wheels[i], tag)
  }

  /**
   * `w` carries a supported tag that is earliest among the carried ones, and no wheel before it in
   * lock order carries that tag.
   */
  ghost predicate IsBest(wheels: seq<Wheel>, supported: seq<Tag>, w: Wheel) {
    exists t, i :: IsBestAt(wheels, supported, w, t, i)
  }

  ghost predicate IsBestAt(wheels: seq<Wheel>, supported: seq<Tag>, w: Wheel, t: nat, i: nat) {
    && t < |supported| && i < |wheels| && wheels[i] == w
    && Carries(w, supported[t])
    && (forall u :: 0 <= u < t ==> !IsCarried(wheels, supported[u]))
    && (forall j :: 0 <= j < i ==> !Carries(wheels[j], supported[t]))
  }

  function Usable(wheels: seq<Wheel>): (r: seq<Wheel>)
    ensures forall w :: w in r ==> w.Wheel?
  {
    if wheels == [] then []
    else
      var last := wheels[|wheels| - 1];
      Usable(wheels[..|wheels| - 1]) + (if last.Wheel? then [last] else [])
  }

  /** `_select_wheel`: an error exactly when no usable wheel carries a supported tag. */
  method SelectWheel(wheels: seq<Wheel>, supported: seq<Tag>) returns (r: Result<Wheel>)
    ensures r.Success? ==> IsBest(wheels, supported, r.value)
    ensures r.Failure? <==> forall t :: 0 <= t < |supported| ==> !IsCarried(wheels, supported[t])
  {
    var wheelTags: seq<Wheel> := [];
    for i := 0 to |wheels|
      invariant wheelTags == Usable(wheels[..i])
    {
      assert wheels[..i + 1][..i] == wheels[..i];
      if wheels[i].Unusable? { continue; }
      wheelTags := wheelTags + [wheels[i]];
    }
    assert wheels[..|wheels|] == wheels;
    for t := 0 to |supported|
      invariant forall u :: 0 <= u < t ==> !IsCarried(wheels, supported[u])
    {
      for k := 0 to |wheelTags|
        invariant forall m :: 0 <= m < k ==> !Carries(wheelTags[m], supported[t])
      {
        if supported[t] in wheelTags[k].tags {
          ghost var i := FirstUsable(wheels, supported[t], k);
          assert IsBestAt(wheels, supported, wheelTags[k], t, i);
          return Success(wheelTags[k]);
        }
      }
      NoneUsable(wheels, supported[t]);
    }
    return Failure;
  }

  /** The first usable wheel with a tag is the first wheel with it. */
  lemma {:induction false} FirstUsable(wheels: seq<Wheel>, tag: Tag, k: nat) returns (i: nat)
    requires k < |Usable(wheels)| && Carries(Usable(wheels)[k], tag)
    requires forall m :: 0 <= m < k ==> !Carries(Usable(wheels)[m], tag)
    ensures i < |wheels| && wheels[i] == Usable(wheels)[k]
    ensures forall j :: 0 <= j < i ==> !Carries(wheels[j], tag)
  {
    var front := wheels[..|wheels| - 1];
    if k < |Usable(front)| {
      forall m | 0 <= m <= k ensures Usable(front)[m] == Usable(wheels)[m] {
      }
      i := FirstUsable(front, tag, k);
    } else {
      i := |wheels| - 1;
      forall m | 0 <= m < |Usable(front)| ensures !Carries(Usable(front)[m], tag) {
        assert Usable(front)[m] == Usable(wheels)[m];
      }
      NoneUsable(front, tag);
      forall j | 0 <= j < i ensures !Carries(wheels[j], tag) { assert wheels[j] == front[j]; }
    }
  }

  lemma {:induction false} NoneUsable(wheels: seq<Wheel>, tag: Tag)
    requires forall m :: 0 <= m < |Usable(wheels)| ==> !Carries(Usable(wheels)[m], tag)
    ensures !IsCarried(wheels, tag)
  {
    if wheels != [] {
      var front := wheels[..|wheels| - 1];
      forall m | 0 <= m < |Usable(front)| ensures !Carries(Usable(front)[m], tag) {
        assert Usable(front)[m] == Usable(wheels)[m];
      }
      NoneUsable(front, tag);
      var last := wheels[|wheels| - 1];
      if last.Wheel? { assert Usable(wheels)[|Usable(front)|] == last; }
      forall i | 0 <= i < |wheels| ensures !Carries(wheels[i], tag) {
        if i < |front| { assert wheels[i] == front[i]; }
      }
    }
  }

  /** `tuple(dict.fromkeys(tags))` keeps the order of first occurrences: the same wheels are best. */
  lemma {:induction false} DedupeKeepsTheChoice(wheels: seq<Wheel>, tags: seq<Tag>, w: Wheel)
    ensures IsBest(wheels, tags, w) <==> IsBest(wheels, Distinct(tags), w)
  {
    if tags != [] {
      var front, last := tags[..|tags| - 1], tags[|tags| - 1];
      DedupeKeepsTheChoice(wheels, front, w);
      BestWithOneMoreTag(wheels, front, last, w);
      assert tags == front + [last];
      assert SomeCarried(wheels, Distinct(front)) <==> SomeCarried(wheels, front);
      assert Distinct(tags) == if last in front then Distinct(front) else Distinct(front) + [last];
      if last !in front { BestWithOneMoreTag(wheels, Distinct(front), last, w); }
    }
  }

  predicate SomeCarried(wheels: seq<Wheel>, tags: seq<Tag>) {
    exists t :: t in tags && IsCarried(wheels, t)
  }

  /** A further tag matters only when none before it is carried. */
  lemma BestWithOneMoreTag(wheels: seq<Wheel>, tags: seq<Tag>, last: Tag, w: Wheel)
    ensures IsBest(wheels, tags + [last], w) <==>
      IsBest(wheels, tags, w) || (!SomeCarried(wheels, tags) && IsBest(wheels, [last], w))
    ensures IsBest(wheels, tags, w) ==> SomeCarried(wheels, tags)
    ensures last in tags ==> (IsBest(wheels, tags + [last], w) <==> IsBest(wheels, tags, w))
  {
    var more := tags + [last];
    if IsBest(wheels, tags, w) {
      var t: nat, i: nat :| IsBestAt(wheels, tags, w, t, i);
      assert IsBestAt(wheels, more, w, t, i);
      assert tags[t] in tags && IsCarried(wheels, tags[t]);
    }
    if !SomeCarried(wheels, tags) && IsBest(wheels, [last], w) {
      var t: nat, i: nat :| IsBestAt(wheels, [last], w, t, i);
      forall u | 0 <= u < |tags| ensures !IsCarried(wheels, more[u]) { assert more[u] in tags; }
      assert IsBestAt(wheels, more, w, |tags|, i);
    }
    if IsBest(wheels, more, w) {
      var t: nat, i: nat :| IsBestAt(wheels, more, w, t, i);
      if t < |tags| {
        forall u | 0 <= u < t ensures !IsCarried(wheels, tags[u]) { assert more[u] == tags[u]; }
        assert IsBestAt(wheels, tags, w, t, i);
      } else {
        forall u | 0 <= u < |tags| ensures !IsCarried(wheels, tags[u]) { assert more[u] == tags[u]; }
        assert IsBestAt(wheels, [last], w, 0, i);
        assert IsCarried(wheels, last);
      }
    }
  }

  /** There is one best wheel value at most. */
  lemma BestIsUnique(wheels: seq<Wheel>, supported: seq<Tag>, v: Wheel, w: Wheel)
    requires IsBest(wheels, supported, v) && IsBest(wheels, supported, w)
    ensures v == w
  {
    var t: nat, i: nat :| IsBestAt(wheels, supported, v, t, i);
    var u: nat, j: nat :| IsBestAt(wheels, supported, w, u, j);
    assert Carries(wheels[i], supported[t]) && Carries(wheels[j], supported[u]);
    assert t == u;
  }
}
