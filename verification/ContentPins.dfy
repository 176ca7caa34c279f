/** The pinned form of a record, its amendment references, and the gate on unrecorded edits. */
module ContentPins {
  import opened Ordering
  import opened TextLines
  import opened Amendments

  // ---------------------------------------------------------------- canonical content

  /** One line of `splitlines()` with its trailing white space removed. */
  function Trimmed(line: string): string { RStrip(RStripNewlines(line)) }

  function TrimmedRows(text: string): (r: seq<string>)
    ensures |r| == |Lines(text)|
  {
    seq(|Lines(text)|, i requires 0 <= i < |Lines(text)| => Trimmed(Lines(text)[i]))
  }

  /** `"\n".join(rows)` */
  function JoinRows(rows: seq<string>): string {
    if rows == [] then ""
    else if |rows| == 1 then rows[0]
    else JoinRows(rows[..|rows| - 1]) + "\n" + rows[|rows| - 1]
  }

  function Normalize(body: string): string {
    RStripNewlines(JoinRows(TrimmedRows(body))) + "\n"
  }

  /** `canonical_content`; the content hash is an injective function of it. */
  function CanonicalContent(text: string): string { Normalize(Strip(text)) }

  /** The rows without the empty ones at the end. */
  function Kept(rows: seq<string>): seq<string> {
    if rows != [] && rows[|rows| - 1] == "" then Kept(rows[..|rows| - 1]) else rows
  }

  ghost predicate Rows(rows: seq<string>) {
    forall i :: 0 <= i < |rows| ==> '\n' !in rows[i] && (rows[i] != "" ==> !IsSpace(rows[i][|rows[i]| - 1]))
  }

  lemma {:induction false} RStripEnd(s: string)
    ensures RStrip(s) <= s
    ensures RStrip(s) != "" ==> !IsSpace(RStrip(s)[|RStrip(s)| - 1])
  {
    if s != "" && IsSpace(s[|s| - 1]) { RStripEnd(s[..|s| - 1]); }
  }

  /** A newline can only be the last character of a line. */
  lemma {:induction false} NewlineIsLast(text: string, i: nat, k: nat)
    requires i < |Lines(text)| && k < |Lines(text)[i]| - 1
    ensures Lines(text)[i][k] != '\n'
  {
    var rest := Lines(text[1..]);
    if text[0] == '\n' {
      if i > 0 { NewlineIsLast(text[1..], i - 1, k); }
    } else if rest != [] {
      if i > 0 { NewlineIsLast(text[1..], i, k); }
      else if k > 0 { NewlineIsLast(text[1..], 0, k - 1); }
    }
  }

  lemma TrimmedHasNoNewline(text: string, i: nat)
    requires i < |Lines(text)|
    ensures '\n' !in RStripNewlines(Lines(text)[i])
  {
    var line := Lines(text)[i];
    forall k | 0 <= k < |line| - 1 ensures line[k] != '\n' { NewlineIsLast(text, i, k); }
    if line != "" && line[|line| - 1] == '\n' {
      StopsAtNonNewline(line[..|line| - 1]);
    }
  }

  lemma StopsAtNonNewline(s: string)
    requires '\n' !in s
    ensures RStripNewlines(s) == s
  {
  }

  lemma RowsOf(text: string)
    ensures Rows(TrimmedRows(text))
  {
    hide Lines, RStrip, RStripNewlines, IsSpace;
    forall i | 0 <= i < |TrimmedRows(text)|
      ensures var row := TrimmedRows(text)[i]; '\n' !in row && (row != "" ==> !IsSpace(row[|row| - 1]))
    {
      TrimmedHasNoNewline(text, i);
      RStripEnd(RStripNewlines(Lines(text)[i]));
    }
  }

  lemma {:induction false} KeptIsPrefix(rows: seq<string>)
    ensures Kept(rows) <= rows && (Kept(rows) == [] || Kept(rows)[|Kept(rows)| - 1] != "")
  {
    if rows != [] && rows[|rows| - 1] == "" { KeptIsPrefix(rows[..|rows| - 1]); }
  }

  lemma JoinEnd(rows: seq<string>)
    requires Rows(rows) && rows != []
    ensures rows[|rows| - 1] != "" ==> JoinRows(rows) != "" && JoinRows(rows)[|JoinRows(rows)| - 1] != '\n'
    ensures rows[|rows| - 1] == "" ==> RStripNewlines(JoinRows(rows)) == RStripNewlines(JoinRows(rows[..|rows| - 1]))
  {
    var last := rows[|rows| - 1];
    if |rows| > 1 {
      var front := JoinRows(rows[..|rows| - 1]);
      if last == "" {
        assert JoinRows(rows) == front + "\n";
        assert (front + "\n")[..|front + "\n"| - 1] == front;
      } else {
        assert JoinRows(rows)[|JoinRows(rows)| - 1] == last[|last| - 1];
      }
    }
  }

  /** Joining and cutting the final newlines keeps the rows up to the last one that is not empty. */
  lemma {:induction false} JoinKept(rows: seq<string>)
    requires Rows(rows)
    ensures RStripNewlines(JoinRows(rows)) == JoinRows(Kept(rows))
  {
    if rows != [] {
      JoinEnd(rows);
      if rows[|rows| - 1] == "" {
        JoinKept(rows[..|rows| - 1]);
      }
    }
  }

  function AddNewlines(rows: seq<string>): (r: seq<string>)
    ensures |r| == |rows|
  {
    seq(|rows|, i requires 0 <= i < |rows| => rows[i] + "\n")
  }

  lemma {:induction false} JoinIsConcat(rows: seq<string>)
    requires rows != []
    ensures JoinRows(rows) + "\n" == Concat(AddNewlines(rows))
  {
    var n := |rows| - 1;
    assert AddNewlines(rows) == AddNewlines(rows[..n]) + [rows[n] + "\n"];
    ConcatAppend(AddNewlines(rows[..n]), [rows[n] + "\n"]);
    ConcatOne(rows[n] + "\n");
    if n == 0 {
      assert AddNewlines(rows[..0]) == [];
    } else {
      JoinIsConcat(rows[..n]);
    }
  }

  lemma {:induction false} LinesOfRow(row: string)
    requires '\n' !in row
    ensures Lines(row + "\n") == [row + "\n"]
  {
    if row == "" {
      assert row + "\n" == "\n" && "\n"[1..] == "";
    } else {
      LinesOfRow(row[1..]);
      assert (row + "\n")[1..] == row[1..] + "\n";
      assert [row[0]] + (row[1..] + "\n") == row + "\n";
    }
  }

  lemma {:induction false} LinesOfRows(rows: seq<string>)
    requires forall i :: 0 <= i < |rows| ==> '\n' !in rows[i]
    ensures Lines(Concat(AddNewlines(rows))) == AddNewlines(rows)
    ensures Complete(Concat(AddNewlines(rows)))
  {
    hide Lines;
    if rows != [] {
      var n := |rows| - 1;
      var front := AddNewlines(rows[..n]);
      LinesOfRows(rows[..n]);
      assert AddNewlines(rows) == front + [rows[n] + "\n"];
      ConcatAppend(front, [rows[n] + "\n"]);
      ConcatOne(rows[n] + "\n");
      LinesAppend(Concat(front), rows[n] + "\n");
      LinesOfRow(rows[n]);
    }
  }

  lemma RowsAreDetermined(a: seq<string>, b: seq<string>)
    requires (forall i :: 0 <= i < |a| ==> '\n' !in a[i]) && (forall i :: 0 <= i < |b| ==> '\n' !in b[i])
    requires a == [] || a[|a| - 1] != ""
    requires b == [] || b[|b| - 1] != ""
    requires JoinRows(a) == JoinRows(b)
    ensures a == b
  {
    hide Lines, JoinRows;
    RowsOrNewline(a);
    RowsOrNewline(b);
    var x, y := AddNewlines(a), AddNewlines(b);
    assert a != [] ==> x[|a| - 1] == a[|a| - 1] + "\n";
    assert b != [] ==> y[|b| - 1] == b[|b| - 1] + "\n";
    if a != [] && b != [] {
      assert x == y;
      forall i | 0 <= i < |a| ensures a[i] == b[i] {
        assert a[i] == x[i][..|x[i]| - 1] && b[i] == y[i][..|y[i]| - 1];
      }
    }
  }

  lemma RowsOrNewline(rows: seq<string>)
    requires forall i :: 0 <= i < |rows| ==> '\n' !in rows[i]
    ensures Lines(JoinRows(rows) + "\n") == if rows == [] then ["\n"] else AddNewlines(rows)
  {
    if rows == [] {
      LinesOfRow("");
      assert "" + "\n" == "\n";
    } else {
      JoinIsConcat(rows);
      LinesOfRows(rows);
    }
  }

  /**
   * What the pin detects: two records have the same pinned content exactly when, section stripped,
   * their rows agree up to trailing white space and up to empty rows at the very end.
   */
  lemma PinsCompareRows(a: string, b: string)
    ensures CanonicalContent(a) == CanonicalContent(b)
      <==> Kept(TrimmedRows(Strip(a))) == Kept(TrimmedRows(Strip(b)))
  {
    hide Strip, Normalize, TrimmedRows;
    NormalizedCompares(Strip(a), Strip(b));
  }

  lemma NormalizedCompares(a: string, b: string)
    ensures Normalize(a) == Normalize(b) <==> Kept(TrimmedRows(a)) == Kept(TrimmedRows(b))
  {
    hide Lines, JoinRows, TrimmedRows, Normalize;
    PinOfRows(a);
    PinOfRows(b);
    var x, y := Kept(TrimmedRows(a)), Kept(TrimmedRows(b));
    if Normalize(a) == Normalize(b) {
      assert JoinRows(x) == Normalize(a)[..|Normalize(a)| - 1];
      assert JoinRows(y) == Normalize(b)[..|Normalize(b)| - 1];
      RowsAreDetermined(x, y);
    }
  }

  lemma PinOfRows(body: string)
    ensures Normalize(body) == JoinRows(Kept(TrimmedRows(body))) + "\n"
    ensures var kept := Kept(TrimmedRows(body));
      && (forall i :: 0 <= i < |kept| ==> '\n' !in kept[i])
      && (kept == [] || kept[|kept| - 1] != "")
  {
    hide JoinRows, TrimmedRows;
    RowsOf(body);
    JoinKept(TrimmedRows(body));
    KeptIsPrefix(TrimmedRows(body));
  }

  /** Replacing the section by any other one leaves the pinned content unchanged. */
  lemma AmendingKeepsThePin(before: string, earlier: string, later: string, after: string)
    requires Decomposes(before, earlier, after) && Decomposes(before, later, after)
    ensures CanonicalContent(before + earlier + after) == CanonicalContent(before + later + after)
  {
    hide Strip, Bounds, Normalize;
    StripRemovesTheSection(before, earlier, after);
    StripRemovesTheSection(before, later, after);
  }

  // ---------------------------------------------------------------- amendment references

  function StripSpace(s: string): string { RStrip(LStrip(s)) }

  /** `s.strip("|")` */
  function StripBars(s: string): string {
    if s != "" && s[0] == '|' then StripBars(s[1..])
    else if s != "" && s[|s| - 1] == '|' then StripBars(s[..|s| - 1])
    else s
  }

  /** `s.split("|")` */
  function SplitBars(s: string): (r: seq<string>)
    ensures r != []
  {
    if s == "" then [""]
    else
      var rest := SplitBars(s[1..]);
      if s[0] == '|' then [""] + rest else [[s[0]] + rest[0]] + rest[1..]
  }

  function Cells(line: string): (r: seq<string>)
    ensures r != []
  {
    var raw := SplitBars(StripBars(StripSpace(line)));
    seq(|raw|, i requires 0 <= i < |raw| => StripSpace(raw[i]))
  }

  function Lower(c: char): char {
    if 'A' <= c <= 'Z' then c - 'A' + 'a' else c
  }

  /** The header cell, in any letter case. */
  predicate IsDate(cell: string) {
    |cell| == 4 && Lower(cell[0]) == 'd' && Lower(cell[1]) == 'a' && Lower(cell[2]) == 't' && Lower(cell[3]) == 'e'
  }

  predicate IsRule(cells: seq<string>) {
    forall i :: 0 <= i < |cells| ==> forall k :: 0 <= k < |cells[i]| ==> cells[i][k] in {'-', ':', ' '}
  }

  /** The reference of one line of the section, if it is a row of the table. */
  function RefOf(line: string): Option<string> {
    if !("|" <= StripSpace(line)) then None
    else
      var cells := Cells(line);
      if |cells| < 3 || IsDate(cells[0]) || IsRule(cells) then None else Some(cells[1])
  }

  function RefsIn(lines: seq<string>): seq<string> {
    if lines == [] then []
    else
      RefsIn(lines[..|lines| - 1])
      + (match RefOf(lines[|lines| - 1]) case Some(r) => [r] case None => [])
  }

  /** Some line is a row of the table with this reference. */
  ghost predicate HasRow(lines: seq<string>, x: string) {
    exists i :: 0 <= i < |lines| && RefOf(lines[i]) == Some(x)
  }

  /** The references are those of exactly the rows of the table, wherever these stand. */
  lemma {:induction false} RefsAreTheRows(lines: seq<string>, x: string)
    ensures x in RefsIn(lines) <==> HasRow(lines, x)
  {
    hide RefOf;
    if lines != [] {
      var front, last := lines[..|lines| - 1], lines[|lines| - 1];
      RefsAreTheRows(front, x);
      assert lines == front + [last];
      if RefOf(last) == Some(x) { assert lines[|front|] == last; }
      if HasRow(front, x) {
        var i :| 0 <= i < |front| && RefOf(front[i]) == Some(x);
        assert lines[i] == front[i];
      }
    }
  }

  /** So a record is reported exactly when its pin changed and its section has no row with a new reference. */
  lemma UnrecordedMeansNoNewRow(r: Revised)
    requires r.base.Some? && r.head.Some?
    ensures Unrecorded(r) <==>
      && CanonicalContent(r.base.value) != CanonicalContent(r.head.value)
      && forall x :: HasRow(SectionLines(r.head.value), x) ==> HasRow(SectionLines(r.base.value), x)
  {
    hide HasRow, CanonicalContent, RefsIn, SectionLines, Refs;
    RefsOfSection(r.base.value);
    RefsOfSection(r.head.value);
    forall x ensures x in Refs(r.head.value) <==> HasRow(SectionLines(r.head.value), x) {
      RefsAreTheRows(SectionLines(r.head.value), x);
    }
    forall x ensures x in Refs(r.base.value) <==> HasRow(SectionLines(r.base.value), x) {
      RefsAreTheRows(SectionLines(r.base.value), x);
    }
  }

  /** The lines of the section, if there is one. */
  function SectionLines(text: string): seq<string> {
    BoundsAreInside(text);
    match Bounds(text)
    case None => []
    case Some((start, end)) => Lines(text[start..end])
  }

  lemma RefsOfSection(text: string)
    ensures Refs(text) == RefsIn(SectionLines(text))
  {
  }

  /** The references of a record: those of its section. */
  function Refs(text: string): seq<string> {
    BoundsAreInside(text);
    match Bounds(text)
    case None => []
    case Some((start, end)) => RefsIn(Lines(text[start..end]))
  }

  /** `amendment_refs` */
  method AmendmentRefs(text: string) returns (refs: seq<string>)
    ensures refs == Refs(text)
  {
    hide RefOf, Lines;
    var bounds := AmendmentsSectionBounds(text);
    if bounds.None? { return []; }
    BoundsAreInside(text);
    var lines := Lines(text[bounds.value.0..bounds.value.1]);
    refs := [];
    for i := 0 to |lines|
      invariant refs == RefsIn(lines[..i])
    {
      assert lines[..i + 1][..i] == lines[..i];
      var found := RefOf(lines[i]);
      if found.None? { continue; }
      refs := refs + [found.value];
    }
    assert lines[..|lines|] == lines;
  }

  // ---------------------------------------------------------------- unrecorded edits

  /** An accepted record and its texts in the two revisions, where present. */
  datatype Revised = Revised(id: string, base: Option<string>, head: Option<string>)

  /** The pinned content changed and no reference was added. */
  ghost predicate Unrecorded(r: Revised) {
    && r.base.Some? && r.head.Some?
    && CanonicalContent(r.base.value) != CanonicalContent(r.head.value)
    && forall x :: x in Refs(r.head.value) ==> x in Refs(r.base.value)
  }

  /** `_check_unrecorded_edits`: one failure for each record edited without a new amendment. */
  method CheckUnrecordedEdits(accepted: seq<Revised>) returns (failures: seq<string>)
    ensures forall id :: id in failures <==>
      exists i :: 0 <= i < |accepted| && accepted[i].id == id && Unrecorded(accepted[i])
  {
    hide CanonicalContent, Refs;
    failures := [];
    for i := 0 to |accepted|
      invariant forall id :: id in failures <==>
        exists j :: 0 <= j < i && accepted[j].id == id && Unrecorded(accepted[j])
    {
      var r := accepted[i];
      if r.base.None? { continue; }
      if r.head.None? || CanonicalContent(r.base.value) == CanonicalContent(r.head.value) { continue; }
      var headRefs := AmendmentRefs(r.head.value);
      var baseRefs := AmendmentRefs(r.base.value);
      var added := (set x | x in headRefs) - (set x | x in baseRefs);
      assert added == {} <==> forall x :: x in headRefs ==> x in baseRefs by {
        if added == {} { forall x | x in headRefs ensures x in baseRefs { assert x !in added; } }
      }
      if added != {} { continue; }
      failures := failures + [r.id];
    }
  }

  /** Working on the section alone is never reported. */
  lemma SectionEditsPass(id: string, before: string, earlier: string, later: string, after: string)
    requires Decomposes(before, earlier, after) && Decomposes(before, later, after)
    ensures !Unrecorded(Revised(id, Some(before + earlier + after), Some(before + later + after)))
  {
    hide CanonicalContent, Refs;
    AmendingKeepsThePin(before, earlier, later, after);
  }

  /** Changing the rest of a record while its section stays is always reported. */
  lemma BareEditsFail(id: string, before: string, after: string, section: string, before2: string, after2: string)
    requires Decomposes(before, section, after) && Decomposes(before2, section, after2)
    requires Kept(TrimmedRows(before + after)) != Kept(TrimmedRows(before2 + after2))
    ensures Unrecorded(Revised(id, Some(before + section + after), Some(before2 + section + after2)))
  {
    hide CanonicalContent, Strip, Bounds, TrimmedRows, Lines, Kept, RefsIn;
    var a, b := before + section + after, before2 + section + after2;
    StripRemovesTheSection(before, section, after);
    StripRemovesTheSection(before2, section, after2);
    PinsCompareRows(a, b);
    assert a[|before|..|before| + |section|] == section;
    assert b[|before2|..|before2| + |section|] == section;
  }
}
