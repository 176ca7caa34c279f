/** Roots of the authority map: no path may fall under two categories. */
module Roots {
  import JsonPointer

  datatype Category = Collision(root: string) | LegacySegment(root: string) | Ancestor(root: string, below: string)

  /** A root is a directory path that ends in a slash; a path lies under it when it starts with it. */
  predicate IsUnder(root: string, path: string) { root <= path }

  /** `Path(root).parts[0]`, for a relative path. */
  function FirstSegment(root: string): string { JsonPointer.Split(root)[0] }

  predicate IsStrictAncestor(parent: string, child: string) { child != parent && parent <= child }

  /** The roots of both categories keep apart from each other and from the legacy directories. */
  ghost predicate Disjoint(authority: seq<string>, nonNormative: seq<string>, legacy: set<string>) {
    && (forall a, b :: a in authority && b in nonNormative ==> !(a <= b) && !(b <= a))
    && (forall r :: r in authority || r in nonNormative ==> FirstSegment(r) == "" || FirstSegment(r) !in legacy)
  }

  /** What each kind of failure says about the roots. */
  ghost predicate Overlaps(f: Category, authority: seq<string>, nonNormative: seq<string>, legacy: set<string>) {
    match f
    case Collision(r) => r in authority && r in nonNormative
    case LegacySegment(r) => (r in authority || r in nonNormative) && FirstSegment(r) != "" && FirstSegment(r) in legacy
    case Ancestor(_, _) => IsAncestorAmong(f, authority, nonNormative)
  }

  /** One root lies above another, of the other category. */
  predicate IsAncestorAmong(f: Category, authority: seq<string>, nonNormative: seq<string>) {
    && f.Ancestor? && IsStrictAncestor(f.root, f.below)
    && ((f.root in authority && f.below in nonNormative) || (f.root in nonNormative && f.below in authority))
  }

  /** `_check_root_categorisation_overlap`: every overlap is reported as what it is, and nothing else is. */
  method CheckOverlap(authority: seq<string>, nonNormative: seq<string>, legacy: set<string>)
    returns (failures: seq<Category>)
    ensures forall f :: f in failures <==> Overlaps(f, authority, nonNormative, legacy)
    ensures failures == [] <==> Disjoint(authority, nonNormative, legacy)
  {
    hide FirstSegment, IsStrictAncestor;
    var collisions: seq<Category> := [];
    for i := 0 to |authority|
      invariant forall f :: f in collisions <==> f.Collision? && f.root in authority[..i] && f.root in nonNormative
    {
      assert authority[..i + 1] == authority[..i] + [authority[i]];
      if authority[i] in nonNormative { collisions := collisions + [Collision(authority[i])]; }
    }
    assert authority[..|authority|] == authority;
    var both := authority + nonNormative;
    var legacies: seq<Category> := [];
    for i := 0 to |both|
      invariant forall f :: f in legacies <==>
        f.LegacySegment? && f.root in both[..i] && FirstSegment(f.root) != "" && FirstSegment(f.root) in legacy
    {
      assert both[..i + 1] == both[..i] + [both[i]];
      var first := FirstSegment(both[i]);
      if first != "" && first in legacy { legacies := legacies + [LegacySegment(both[i])]; }
    }
    assert both[..|both|] == both;
    var ancestors := CheckAncestors(authority, nonNormative);
    failures := collisions + legacies + ancestors;
    assert forall r :: r in both <==> r in authority || r in nonNormative;
    NothingOverlaps(authority, nonNormative, legacy);
    assert failures != [] ==> failures[0] in failures;
  }

  /** The last loop, over the pairs of an authority root and a non-normative one. */
  method CheckAncestors(authority: seq<string>, nonNormative: seq<string>) returns (failures: seq<Category>)
    ensures forall f :: f in failures <==> IsAncestorAmong(f, authority, nonNormative)
  {
    failures := [];
    for i := 0 to |authority|
      invariant forall f :: f in failures <==> IsAncestorAmong(f, authority[..i], nonNormative)
    {
      assert authority[..i + 1] == authority[..i] + [authority[i]];
      ghost var before := failures;
      for j := 0 to |nonNormative|
        invariant forall f :: f in failures <==> (f in before || IsAncestorAmong(f, [authority[i]], nonNormative[..j]))
      {
        var a, b := authority[i], nonNormative[j];
        assert nonNormative[..j + 1] == nonNormative[..j] + [b];
        if IsStrictAncestor(a, b) {
          failures := failures + [Ancestor(a, b)];
        } else if IsStrictAncestor(b, a) {
          failures := failures + [Ancestor(b, a)];
        }
      }
      assert nonNormative[..|nonNormative|] == nonNormative;
    }
    assert authority[..|authority|] == authority;
  }

  lemma NothingOverlaps(authority: seq<string>, nonNormative: seq<string>, legacy: set<string>)
    ensures Disjoint(authority, nonNormative, legacy) <==> forall f :: !Overlaps(f, authority, nonNormative, legacy)
  {
    hide FirstSegment;
    if forall f :: !Overlaps(f, authority, nonNormative, legacy) {
      forall a, b | a in authority && b in nonNormative ensures !(a <= b) && !(b <= a) {
        assert !Overlaps(Collision(a), authority, nonNormative, legacy);
        assert !Overlaps(Ancestor(a, b), authority, nonNormative, legacy);
        assert !Overlaps(Ancestor(b, a), authority, nonNormative, legacy);
      }
      forall r | r in authority || r in nonNormative ensures FirstSegment(r) == "" || FirstSegment(r) !in legacy {
        assert !Overlaps(LegacySegment(r), authority, nonNormative, legacy);
      }
    }
  }

  /** The legacy test looks at what stands before the first slash. */
  lemma FirstSegmentIs(first: string, rest: string)
    requires '/' !in first
    ensures FirstSegment(first + "/" + rest) == first && FirstSegment(first) == first
  {
    JsonPointer.SplitAtSlash(first, rest);
    JsonPointer.SplitWithoutSlash(first);
  }

  /**
   * The prefix test is exact: an authority root and another root are unrelated if and only if no path
   * lies under both, so without a failure no path has two categories.
   */
  lemma NoPathUnderBoth(authority: seq<string>, nonNormative: seq<string>)
    ensures (forall a, b :: a in authority && b in nonNormative ==> !(a <= b) && !(b <= a)) <==>
      (forall a, b, path :: a in authority && b in nonNormative ==> !(IsUnder(a, path) && IsUnder(b, path)))
  {
    forall a, b, path | a in authority && b in nonNormative && IsUnder(a, path) && IsUnder(b, path)
      ensures a <= b || b <= a
    {
      assert path[..|a|] == a && path[..|b|] == b;
      if |a| <= |b| { assert path[..|b|][..|a|] == path[..|a|]; } else { assert path[..|a|][..|b|] == path[..|b|]; }
    }
    forall a, b | a in authority && b in nonNormative && (a <= b || b <= a)
      ensures exists path :: IsUnder(a, path) && IsUnder(b, path)
    {
      var path := if a <= b then b else a;
      assert IsUnder(a, path) && IsUnder(b, path);
    }
  }
}
