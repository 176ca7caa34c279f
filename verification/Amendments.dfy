/** Content pins of decision records: the Amendments section is stripped, everything else is pinned. */
module Amendments {
  import opened Ordering
  import opened TextLines

  const FENCE: string := "```"
  const TITLE: string := "Amendments"

  // ---------------------------------------------------------------- lines

  predicate IsFence(line: string) { FENCE <= LStrip(line) }

  /** `SECTION_HEADING_RE.match(body)`: two hashes and white space. */
  predicate IsSectionLine(line: string) {
    var body := RStripNewlines(line);
    |body| >= 3 && body[0] == '#' && body[1] == '#' && IsSpace(body[2])
  }

  /** `AMENDMENTS_HEADING_RE.fullmatch(body)` */
  predicate IsAmendmentsLine(line: string) {
    var body := RStripNewlines(line);
    IsSectionLine(line) && TITLE <= LStrip(body[2..]) && AllSpace(LStrip(body[2..])[|TITLE|..])
  }

  /** An odd number of fence lines has gone by. */
  predicate InFence(lines: seq<string>) {
    lines != [] && (InFence(lines[..|lines| - 1]) != IsFence(lines[|lines| - 1]))
  }

  /** Line `k` stands outside every fenced block. */
  predicate Unfenced(lines: seq<string>, k: nat)
    requires k < |lines|
  {
    !IsFence(lines[k]) && !InFence(lines[..k])
  }

  predicate HeadingAt(lines: seq<string>, k: nat)
    requires k < |lines|
  {
    Unfenced(lines, k) && IsAmendmentsLine(lines[k])
  }

  predicate SectionAt(lines: seq<string>, k: nat)
    requires k < |lines|
  {
    Unfenced(lines, k) && IsSectionLine(lines[k])
  }

  /** The first Amendments heading, or the number of lines. */
  function FirstHeading(lines: seq<string>, from: nat): (k: nat)
    requires from <= |lines|
    ensures from <= k <= |lines| && (k < |lines| ==> HeadingAt(lines, k))
    ensures forall j :: from <= j < k ==> !HeadingAt(lines, j)
    decreases |lines| - from
  {
    if from == |lines| || HeadingAt(lines, from) then from else FirstHeading(lines, from + 1)
  }

  /** The first level-two heading from a line on, or the number of lines. */
  function FirstSection(lines: seq<string>, from: nat): (k: nat)
    requires from <= |lines|
    ensures from <= k <= |lines| && (k < |lines| ==> SectionAt(lines, k))
    ensures forall j :: from <= j < k ==> !SectionAt(lines, j)
    decreases |lines| - from
  {
    if from == |lines| || SectionAt(lines, from) then from else FirstSection(lines, from + 1)
  }

  /** The bounds of the section as offsets into the text. */
  function Bounds(text: string): Option<(nat, nat)> {
    var lines := Lines(text);
    var h := FirstHeading(lines, 0);
    if h == |lines| then None
    else Some((Offset(lines, h), Offset(lines, FirstSection(lines, h + 1))))
  }

  /** `_amendments_section_bounds` */
  method AmendmentsSectionBounds(text: string) returns (r: Option<(nat, nat)>)
    ensures r == Bounds(text)
  {
    hide IsFence, IsAmendmentsLine, IsSectionLine, Lines;
    var lines := Lines(text);
    var starts, total := LineStarts(lines);
    var inFence := false;
    var heading: Option<nat> := None;
    for i := 0 to |lines|
      invariant inFence == InFence(lines[..i])
      invariant heading.None? ==> forall j :: 0 <= j < i ==> !HeadingAt(lines, j)
      invariant heading.Some? ==> (
        && heading.value < i && HeadingAt(lines, heading.value)
        && (forall j :: 0 <= j < heading.value ==> !HeadingAt(lines, j))
        && (forall j :: heading.value < j < i ==> !SectionAt(lines, j)))
    {
      assert lines[..i + 1][..i] == lines[..i];
      if IsFence(lines[i]) {
        inFence := !inFence;
        continue;
      }
      if inFence { continue; }
      if heading.None? {
        if IsAmendmentsLine(lines[i]) { heading := Some(i); }
      } else if IsSectionLine(lines[i]) {
        assert SectionAt(lines, i);
        assert FirstHeading(lines, 0) == heading.value && FirstSection(lines, heading.value + 1) == i;
        return Some((starts[heading.value], starts[i]));
      }
    }
    if heading.None? { return None; }
    return Some((starts[heading.value], total));
  }

  /** The first loop: where each line starts, and the length of the text. */
  method LineStarts(lines: seq<string>) returns (starts: seq<nat>, total: nat)
    ensures |starts| == |lines| && total == Offset(lines, |lines|)
    ensures forall k :: 0 <= k < |lines| ==> starts[k] == Offset(lines, k)
  {
    starts, total := [], 0;
    for i := 0 to |lines|
      invariant |starts| == i && total == Offset(lines, i)
      invariant forall k :: 0 <= k < i ==> starts[k] == Offset(lines, k)
    {
      OffsetStep(lines, i);
      starts := starts + [total];
      total := total + |lines[i]|;
    }
  }

  lemma OffsetStep(lines: seq<string>, k: nat)
    requires k < |lines|
    ensures Offset(lines, k + 1) == Offset(lines, k) + |lines[k]|
  {
    assert lines[..k + 1] == lines[..k] + [lines[k]];
    ConcatAppend(lines[..k], [lines[k]]);
    ConcatOne(lines[k]);
  }

  lemma {:induction false} OffsetsGrow(lines: seq<string>, j: nat, k: nat)
    requires j <= k <= |lines|
    ensures Offset(lines, j) <= Offset(lines, k)
  {
    if j < k {
      OffsetsGrow(lines, j, k - 1);
      OffsetStep(lines, k - 1);
    }
  }

  lemma BoundsAreInside(text: string)
    ensures Bounds(text).Some? ==> Bounds(text).value.0 <= Bounds(text).value.1 <= |text|
  {
    hide FirstHeading, FirstSection, Lines, Concat, HeadingAt, SectionAt;
    if Bounds(text).Some? {
      var lines := Lines(text);
      var h := FirstHeading(lines, 0);
      OffsetsGrow(lines, h, FirstSection(lines, h + 1));
      CutAtLine(text, FirstSection(lines, h + 1));
    }
  }

  /** `_strip_amendments` */
  function Strip(text: string): string {
    BoundsAreInside(text);
    match Bounds(text)
    case None => text
    case Some((start, end)) => text[..start] + text[end..]
  }

  // ---------------------------------------------------------------- what is stripped

  lemma {:induction false} FenceParity(a: seq<string>, b: seq<string>)
    ensures InFence(a + b) <==> (InFence(a) != InFence(b))
  {
    hide IsFence;
    if b == [] {
      assert a + b == a;
    } else {
      var n := |b| - 1;
      FenceParity(a, b[..n]);
      assert (a + b)[..|a + b| - 1] == a + b[..n];
      assert (a + b)[|a + b| - 1] == b[n];
    }
  }

  /** Behind closed fences lines keep their standing; before, they do not see what follows. */
  lemma LineStanding(a: seq<string>, b: seq<string>)
    ensures forall k :: 0 <= k < |a| ==> (Unfenced(a + b, k) <==> Unfenced(a, k))
    ensures !InFence(a) ==> forall k :: 0 <= k < |b| ==> (Unfenced(a + b, |a| + k) <==> Unfenced(b, k))
  {
    hide IsFence, InFence;
    forall k | 0 <= k < |a| ensures Unfenced(a + b, k) <==> Unfenced(a, k) {
      assert (a + b)[..k] == a[..k];
    }
    if !InFence(a) {
      forall k | 0 <= k < |b| ensures Unfenced(a + b, |a| + k) <==> Unfenced(b, k) {
        assert (a + b)[..|a| + k] == a + b[..k];
        FenceParity(a, b[..k]);
      }
    }
  }

  lemma {:induction false} SpacesThenText(s: string)
    ensures LStrip(s) == "" || !IsSpace(LStrip(s)[0])
  {
    if s != "" && IsSpace(s[0]) { SpacesThenText(s[1..]); }
  }

  /** A heading is no fence. */
  lemma SectionIsNoFence(line: string)
    requires IsSectionLine(line)
    ensures !IsFence(line)
  {
    RStripKeepsHead(line);
    assert LStrip(line) == line;
  }

  lemma {:induction false} RStripKeepsHead(line: string)
    ensures RStripNewlines(line) <= line
  {
    if line != "" && line[|line| - 1] == '\n' { RStripKeepsHead(line[..|line| - 1]); }
  }

  /** A text in which the fences are closed and no Amendments heading stands outside a fence. */
  ghost predicate IsBefore(text: string) {
    var lines := Lines(text);
    Complete(text) && !InFence(lines) && forall k :: 0 <= k < |lines| ==> !HeadingAt(lines, k)
  }

  /** An Amendments heading and all the lines up to the next level-two heading outside a fence. */
  ghost predicate IsSection(text: string) {
    var lines := Lines(text);
    lines != [] && IsAmendmentsLine(lines[0]) && forall k :: 1 <= k < |lines| ==> !SectionAt(lines, k)
  }

  /** What may follow that section: nothing, or a level-two heading where the section closed its fences. */
  ghost predicate MayFollow(section: string, after: string) {
    after != "" ==> Complete(section) && !InFence(Lines(section)) && IsSectionLine(Lines(after)[0])
  }

  ghost predicate Decomposes(before: string, section: string, after: string) {
    IsBefore(before) && IsSection(section) && MayFollow(section, after)
  }

  lemma HeadingStands(a: seq<string>, b: seq<string>)
    requires !InFence(a) && b != [] && IsSectionLine(b[0])
    ensures SectionAt(a + b, |a|)
  {
    hide IsFence, InFence, IsSectionLine;
    SectionIsNoFence(b[0]);
    assert (a + b)[..|a|] == a && (a + b)[|a|] == b[0];
  }

  lemma SectionLinesStay(a: seq<string>, b: seq<string>, c: seq<string>, k: nat)
    requires !InFence(a) && 1 <= k < |b| && !SectionAt(b, k)
    ensures !SectionAt(a + (b + c), |a| + k)
  {
    hide IsFence, InFence, IsSectionLine;
    LineStanding(a, b + c);
    LineStanding(b, c);
    assert (a + (b + c))[|a| + k] == (b + c)[k] == b[k];
  }

  lemma EarlierHeadings(a: seq<string>, b: seq<string>)
    ensures forall k :: 0 <= k < |a| ==> (HeadingAt(a + b, k) <==> HeadingAt(a, k))
  {
    hide IsFence, InFence, IsAmendmentsLine;
    LineStanding(a, b);
    forall k | 0 <= k < |a| ensures HeadingAt(a + b, k) <==> HeadingAt(a, k) { assert (a + b)[k] == a[k]; }
  }

  lemma HeadingHere(a: seq<string>, b: seq<string>)
    requires !InFence(a) && b != [] && IsAmendmentsLine(b[0])
    ensures HeadingAt(a + b, |a|)
  {
    hide IsFence, InFence, IsSectionLine;
    assert IsSectionLine(b[0]);
    HeadingStands(a, b);
    assert (a + b)[|a|] == b[0];
  }

  /** The two searches find these lines when nothing comes before them. */
  lemma SearchesFind(lines: seq<string>, h: nat, e: nat)
    requires h < e <= |lines| && HeadingAt(lines, h) && (e < |lines| ==> SectionAt(lines, e))
    requires forall k :: 0 <= k < h ==> !HeadingAt(lines, k)
    requires forall k :: h + 1 <= k < e ==> !SectionAt(lines, k)
    ensures FirstHeading(lines, 0) == h && FirstSection(lines, h + 1) == e
  {
    hide HeadingAt, SectionAt, FirstHeading, FirstSection;
  }

  lemma HeadingBetween(a: seq<string>, b: seq<string>, c: seq<string>)
    requires !InFence(a) && forall k :: 0 <= k < |a| ==> !HeadingAt(a, k)
    requires b != [] && IsAmendmentsLine(b[0]) && forall k :: 1 <= k < |b| ==> !SectionAt(b, k)
    requires c != [] ==> !InFence(b) && IsSectionLine(c[0])
    ensures FirstHeading(a + (b + c), 0) == |a|
    ensures FirstSection(a + (b + c), |a| + 1) == |a| + |b|
  {
    hide InFence, IsFence, IsSectionLine, IsAmendmentsLine, FirstHeading, FirstSection, HeadingAt, SectionAt, Unfenced;
    var lines := a + (b + c);
    assert (b + c)[0] == b[0];
    HeadingHere(a, b + c);
    EarlierHeadings(a, b + c);
    forall k | |a| + 1 <= k < |a| + |b| ensures !SectionAt(lines, k) {
      SectionLinesStay(a, b, c, k - |a|);
    }
    if c != [] {
      FenceParity(a, b);
      HeadingStands(a + b, c);
      assert (a + b) + c == lines;
    }
    SearchesFind(lines, |a|, |a| + |b|);
  }

  /** Stripping removes exactly the section. */
  lemma StripRemovesTheSection(before: string, section: string, after: string)
    requires Decomposes(before, section, after)
    ensures Bounds(before + section + after) == Some((|before|, |before| + |section|))
    ensures Strip(before + section + after) == before + after
  {
    hide InFence, FirstHeading, FirstSection, HeadingAt, SectionAt, Lines, Concat, IsSectionLine, IsAmendmentsLine;
    var text := before + section + after;
    var a, b, c := Lines(before), Lines(section), Lines(after);
    assert text == before + (section + after);
    LinesAppend(before, section + after);
    if after == "" { assert section + after == section; assert b + c == b; } else { LinesAppend(section, after); }
    HeadingBetween(a, b, c);
    var lines := Lines(text);
    assert lines[..|a|] == a;
    assert lines[..|a| + |b|] == a + b;
    LinesConcat(before);
    LinesConcat(section);
    ConcatAppend(a, b);
    assert text[..|before|] == before && text[|before| + |section|..] == after;
  }

  /** Every section found decomposes the text in this way, so the bounds are the only ones possible. */
  lemma BoundsDecompose(text: string)
    requires Bounds(text).Some?
    ensures var (x, y) := Bounds(text).value;
      x <= y <= |text| && Decomposes(text[..x], text[x..y], text[y..])
  {
    hide InFence, FirstHeading, FirstSection, Lines, Concat, IsSectionLine, IsAmendmentsLine, IsFence;
    BoundsAreInside(text);
    var lines := Lines(text);
    var h := FirstHeading(lines, 0);
    var e := FirstSection(lines, h + 1);
    var (x, y) := Bounds(text).value;
    CutAtLine(text, h);
    CutAtLine(text, e);
    var rest := text[x..];
    MiddleLines(text, h, e);
    var a, b, c := lines[..h], lines[h..e], lines[e..];
    assert lines == a + lines[h..] && lines[h..] == b + c;
    LineStanding(a, b + c);
    assert !InFence(a) by { assert Unfenced(lines, h); }
    LineStanding(b, c);
    forall k | 0 <= k < |a| ensures !HeadingAt(a, k) { assert lines[k] == a[k] && !HeadingAt(lines, k); }
    forall k | 1 <= k < |b| ensures !SectionAt(b, k) {
      assert lines[h + k] == b[k] == (b + c)[k] && !SectionAt(lines, h + k);
    }
    if c != [] {
      assert SectionAt(lines, e) && lines[e] == c[0];
      assert lines[..e] == a + b;
      FenceParity(a, b);
    }
  }

  lemma MiddleLines(text: string, h: nat, e: nat)
    requires h < e <= |Lines(text)|
    ensures var lines := Lines(text); var x, y := Offset(lines, h), Offset(lines, e);
      x <= y <= |text| && Lines(text[x..y]) == lines[h..e] && (e < |lines| ==> Complete(text[x..y]))
  {
    hide Lines, Concat;
    var lines := Lines(text);
    var x, y := Offset(lines, h), Offset(lines, e);
    OffsetsGrow(lines, h, e);
    CutAtLine(text, e);
    var front := text[..y];
    assert Lines(front) == lines[..e] && lines[..e][..h] == lines[..h];
    CutAtLine(front, h);
    assert Offset(Lines(front), h) == x;
    assert front[x..] == text[x..y];
    assert lines[..e][h..] == lines[h..e];
    if e < |lines| {
      NonEmptyMiddle(lines, text[x..y], h, e);
      assert front != "" && Complete(front);
      assert text[x..y] != "";
      assert text[x..y][y - x - 1] == front[y - 1];
    }
  }

  lemma NonEmptyMiddle(lines: seq<string>, middle: string, h: nat, e: nat)
    requires h < e <= |lines| && Lines(middle) == lines[h..e]
    ensures middle != ""
  {
  }

  /** A text is left alone exactly when no line of it is an Amendments heading outside fences. */
  lemma StripKeepsOtherTexts(text: string)
    ensures Strip(text) == text <==> forall k :: 0 <= k < |Lines(text)| ==> !HeadingAt(Lines(text), k)
  {
    hide Lines, HeadingAt;
    var lines := Lines(text);
    var h := FirstHeading(lines, 0);
    if h < |lines| {
      var e := FirstSection(lines, h + 1);
      BoundsAreInside(text);
      MiddleLines(text, h, e);
      NonEmptyMiddle(lines, text[Offset(lines, h)..Offset(lines, e)], h, e);
      assert |Strip(text)| < |text|;
      assert HeadingAt(lines, h);
    }
  }
}
