/** Orders and sorting shared by the other modules. */
module Ordering {

  datatype Option<+T> = None | Some(value: T)

  datatype Result<+T> = Success(value: T) | Failure

  /** `a` and `b` agree up to `k`, where `a` ends or has the smaller code point. */
  predicate LessAt(a: string, b: string, k: nat) {
    && k <= |a| && k < |b|
    && a[..k] == b[..k]
    && (k == |a| || a[k] < b[k])
  }

  /** Python's order on `str`: the first differing code point decides, a proper prefix is smaller. */
  predicate Less(a: string, b: string) {
    exists k :: 0 <= k <= |a| && LessAt(a, b, k)
  }

  lemma {:induction false} FirstDifference(a: string, b: string, k: nat)
    requires k <= |a| && k <= |b| && a[..k] == b[..k]
    ensures Less(a, b) || a == b || Less(b, a)
    decreases |a| - k
  {
    if k < |a| && k < |b| && a[k] == b[k] {
      assert a[..k + 1] == a[..k] + [a[k]] && b[..k + 1] == b[..k] + [b[k]];
      FirstDifference(a, b, k + 1);
    } else if k == |a| == |b| {
      assert a == a[..k] && b == b[..k];
    } else {
      assert LessAt(a, b, k) || LessAt(b, a, k);
    }
  }

  lemma LessIsTotal(a: string, b: string)
    ensures Less(a, b) || a == b || Less(b, a)
  {
    FirstDifference(a, b, 0);
  }

  lemma LessIsIrreflexive(a: string)
    ensures !Less(a, a)
  {
  }

  lemma LessIsTransitive(a: string, b: string, c: string)
    requires Less(a, b) && Less(b, c)
    ensures Less(a, c)
  {
    var i :| 0 <= i <= |a| && LessAt(a, b, i);
    var j :| 0 <= j <= |b| && LessAt(b, c, j);
    var k := if i < j then i else j;
    assert a[..k] == a[..i][..k] && b[..i][..k] == b[..k] == b[..j][..k] && c[..k] == c[..j][..k];
    if i < j { assert b[..j][i] == c[..j][i]; }
    if j < i { assert a[..i][j] == b[..i][j]; }
    assert LessAt(a, c, k);
  }

  /** The first differing character decides, and a longer text comes after its beginning. */
  lemma FirstDifferenceDecides(p: string, c: char, s: string, d: char, t: string)
    ensures c != d ==> (Less(p + [c] + s, p + [d] + t) <==> c < d)
    ensures Less(p, p + [c] + s) && !Less(p + [c] + s, p)
  {
    var a, b := p + [c] + s, p + [d] + t;
    assert a[..|p|] == p == b[..|p|] && a[|p|] == c && b[|p|] == d;
    assert LessAt(p, a, |p|) by { assert p[..|p|] == p; }
    if c < d { assert LessAt(a, b, |p|); }
    if Less(a, b) && d < c {
      assert LessAt(b, a, |p|);
      LessIsTransitive(a, b, a);
      LessIsIrreflexive(a);
    }
    if Less(a, p) {
      LessIsTransitive(a, p, a);
      LessIsIrreflexive(a);
    }
  }

  /** Irreflexive and transitive. */
  ghost predicate StrictOrder<T(!new)>(less: (T, T) -> bool) {
    && (forall a :: !less(a, a))
    && (forall a, b, c :: less(a, b) && less(b, c) ==> less(a, c))
  }

  ghost predicate StrictTotalOrder<T(!new)>(less: (T, T) -> bool) {
    && StrictOrder(less)
    && (forall a, b :: less(a, b) || a == b || less(b, a))
  }

  lemma LessIsStrictTotalOrder()
    ensures StrictTotalOrder(Less)
  {
    forall a { LessIsIrreflexive(a); }
    forall a, b { LessIsTotal(a, b); }
    forall a, b, c | Less(a, b) && Less(b, c) { LessIsTransitive(a, b, c); }
  }

  ghost predicate Ascending<T>(s: seq<T>, less: (T, T) -> bool) {
    forall i, j :: 0 <= i < j < |s| ==> less(s[i], s[j])
  }

  ghost predicate SameElements<T>(a: seq<T>, b: seq<T>) {
    (forall x :: x in a ==> x in b) && (forall x :: x in b ==> x in a)
  }

  lemma NonemptyHasElement<T>(s: seq<T>)
    ensures s == [] || exists x :: x in s
  {
    if s != [] { assert s[0] in s; }
  }

  lemma HeadComesFirst<T(!new)>(s: seq<T>, x: T, less: (T, T) -> bool)
    requires Ascending(s, less) && x in s
    ensures x == s[0] || less(s[0], x)
  {
    var i :| 0 <= i < |s| && s[i] == x;
  }

  /** A strictly ascending sequence is determined by its elements. */
  lemma {:induction false} AscendingIsUnique<T(!new)>(a: seq<T>, b: seq<T>, less: (T, T) -> bool)
    requires StrictOrder(less)
    requires Ascending(a, less) && Ascending(b, less)
    requires SameElements(a, b)
    ensures a == b
  {
    if a == [] {
      NonemptyHasElement(b);
    } else {
      assert a[0] in b;
      assert b[0] in a;
      HeadComesFirst(a, b[0], less);
      HeadComesFirst(b, a[0], less);
      assert a[0] == b[0];
      assert SameElements(a[1..], b[1..]) by { TailKeepsElements(a, b, less); }
      AscendingIsUnique(a[1..], b[1..], less);
      assert a == [a[0]] + a[1..] && b == [b[0]] + b[1..];
    }
  }

  lemma TailKeepsElements<T(!new)>(a: seq<T>, b: seq<T>, less: (T, T) -> bool)
    requires StrictOrder(less) && Ascending(a, less) && Ascending(b, less)
    requires SameElements(a, b) && a != [] && b != [] && a[0] == b[0]
    ensures SameElements(a[1..], b[1..])
  {
    forall x | x in a[1..] ensures x in b[1..] {
      var k :| 1 <= k < |a| && a[k] == x;
      assert less(a[0], a[k]);
      assert x in b;
      var m :| 0 <= m < |b| && b[m] == x;
      assert b[1..][m - 1] == x;
    }
    forall x | x in b[1..] ensures x in a[1..] {
      var k :| 1 <= k < |b| && b[k] == x;
      assert less(b[0], b[k]);
      assert x in a;
      var m :| 0 <= m < |a| && a[m] == x;
      assert a[1..][m - 1] == x;
    }
  }

  lemma {:induction false} LeastExists<T(!new)>(s: set<T>, less: (T, T) -> bool) returns (m: T)
    requires s != {} && StrictTotalOrder(less)
    ensures m in s && forall x :: x in s ==> x == m || less(m, x)
  {
    var c :| c in s;
    var rest := s - {c};
    if rest == {} {
      m := c;
      assert s == {c};
    } else {
      var n := LeastExists(rest, less);
      m := if less(n, c) then n else c;
      forall x | x in s ensures x == m || less(m, x) {
        assert x == c || x in rest;
        assert x != c && x != n && m == c ==> less(c, n) && less(n, x);
      }
    }
  }

  /** `sorted(s, key=…)` for a set: every element once, in the given order. */
  function SortBy<T(!new)>(s: set<T>, less: (T, T) -> bool): (r: seq<T>)
    requires StrictTotalOrder(less)
    ensures forall x :: x in r <==> x in s
    ensures |r| == |s|
  {
    if s == {} then []
    else
      assert exists m :: m in s && forall x :: x in s ==> x == m || less(m, x) by {
        var m := LeastExists(s, less);
      }
      var m :| m in s && forall x :: x in s ==> x == m || less(m, x);
      [m] + SortBy(s - {m}, less)
  }

  lemma {:induction false} SortByAscends<T(!new)>(s: set<T>, less: (T, T) -> bool)
    requires StrictTotalOrder(less)
    ensures Ascending(SortBy(s, less), less)
  {
    if s != {} {
      var r := SortBy(s, less);
      SortByAscends(s - {r[0]}, less);
      assert r[1..] == SortBy(s - {r[0]}, less);
      forall j | 1 <= j < |r| ensures less(r[0], r[j]) {
        assert r[j] == r[1..][j - 1] && r[j] in r[1..];
      }
      forall i, j | 0 <= i < j < |r| ensures less(r[i], r[j]) {
        if i > 0 { assert r[i] == r[1..][i - 1] && r[j] == r[1..][j - 1]; }
      }
    }
  }

  /** `sorted(names)` for a set of strings. */
  function SortedNames(s: set<string>): (r: seq<string>)
    ensures forall x :: x in r <==> x in s
    ensures |r| == |s|
  {
    LessIsStrictTotalOrder();
    SortBy(s, Less)
  }

  lemma SortedNamesAscend(s: set<string>)
    ensures Ascending(SortedNames(s), Less)
  {
    LessIsStrictTotalOrder();
    SortByAscends(s, Less);
  }

  predicate LessEq(a: string, b: string) { a == b || Less(a, b) }

  ghost predicate Nondecreasing(s: seq<string>) {
    forall i, j :: 0 <= i < j < |s| ==> LessEq(s[i], s[j])
  }

  /** `sorted(xs)` for a list of strings, repeats kept. */
  function SortList(xs: seq<string>): (r: seq<string>)
    ensures Nondecreasing(r)
    ensures multiset(r) == multiset(xs)
  {
    if xs == [] then []
    else
      assert xs == [xs[0]] + xs[1..];
      InsertInOrder(xs[0], SortList(xs[1..]))
  }

  function InsertInOrder(x: string, s: seq<string>): (r: seq<string>)
    requires Nondecreasing(s)
    ensures Nondecreasing(r)
    ensures multiset(r) == multiset{x} + multiset(s)
  {
    if s == [] then [x]
    else if LessEq(x, s[0]) then
      BelowHead(x, s);
      [x] + s
    else
      assert s == [s[0]] + s[1..];
      LessIsTotal(x, s[0]);
      var rest := InsertInOrder(x, s[1..]);
      AboveHead(s[0], x, s[1..], rest);
      [s[0]] + rest
  }

  lemma BelowHead(x: string, s: seq<string>)
    requires Nondecreasing(s) && s != [] && LessEq(x, s[0])
    ensures Nondecreasing([x] + s)
  {
    forall k | 0 <= k < |s| ensures LessEq(x, s[k]) {
      if k > 0 {
        assert LessEq(s[0], s[k]);
        if Less(x, s[0]) && Less(s[0], s[k]) { LessIsTransitive(x, s[0], s[k]); }
      }
    }
  }

  lemma AboveHead(h: string, x: string, tail: seq<string>, rest: seq<string>)
    requires Nondecreasing(rest) && Less(h, x) && Nondecreasing([h] + tail)
    requires multiset(rest) == multiset{x} + multiset(tail)
    ensures Nondecreasing([h] + rest)
  {
    forall k | 0 <= k < |rest| ensures LessEq(h, rest[k]) {
      assert rest[k] in multiset(rest);
      if rest[k] != x {
        assert rest[k] in tail;
        var m :| 0 <= m < |tail| && tail[m] == rest[k];
        assert ([h] + tail)[0] == h && ([h] + tail)[m + 1] == tail[m];
      }
    }
  }

  /** Each element once, in the order of first occurrences. */
  function Distinct<T(==, !new)>(xs: seq<T>): (r: seq<T>)
    ensures forall x :: x in r <==> x in xs
  {
    if xs == [] then []
    else
      var front, last := xs[..|xs| - 1], xs[|xs| - 1];
      assert xs == front + [last];
      Distinct(front) + (if last in front then [] else [last])
  }

  lemma ProperSubsetIsSmaller<T>(a: set<T>, b: set<T>)
    requires a < b
    ensures |a| < |b|
  {
    assert |b| == |a| + |b - a| by { assert b == a + (b - a); }
    assert b - a != {};
  }

  /** In a sorted list nothing comes after what is greater. */
  lemma SortListSorts(xs: seq<string>, i: nat, j: nat)
    requires i < j < |SortList(xs)|
    ensures !Less(SortList(xs)[j], SortList(xs)[i])
  {
    hide SortList, Less;
    var a, b := SortList(xs)[i], SortList(xs)[j];
    assert LessEq(a, b);
    if Less(b, a) {
      if a != b { LessIsTransitive(a, b, a); }
      LessIsIrreflexive(a);
    }
  }
}
