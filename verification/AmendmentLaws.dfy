/** Headings, fences, table rows and pins, told by the characters of the text. */
module AmendmentLaws {
  import opened Ordering
  import opened TextLines
  import opened Amendments
  import opened ContentPins

  // ---------------------------------------------------------------- white space

  /** White space by code point. */
  lemma SpaceCodes(c: char)
    ensures IsSpace(c) <==>
      c as int in {9, 10, 11, 12, 13, 28, 29, 30, 31, 32, 133, 160, 5760, 8192, 8193, 8194, 8195, 8196, 8197, 8198,
                   8199, 8200, 8201, 8202, 8232, 8233, 8239, 8287, 12288}
  {
  }

  /** A text without white space at its ends. */
  predicate IsCore(s: string) { s == "" || (!IsSpace(s[0]) && !IsSpace(s[|s| - 1])) }

  lemma {:induction false} LStripDrops(l: string, s: string)
    requires AllSpace(l) && (s == "" || !IsSpace(s[0]))
    ensures LStrip(l + s) == s
  {
    hide IsSpace;
    if l == "" {
      assert l + s == s;
    } else {
      assert (l + s)[1..] == l[1..] + s && (l + s)[0] == l[0];
      LStripDrops(l[1..], s);
    }
  }

  lemma {:induction false} RStripDrops(s: string, r: string)
    requires AllSpace(r) && (s == "" || !IsSpace(s[|s| - 1]))
    ensures RStrip(s + r) == s
  {
    hide IsSpace;
    if r == "" {
      assert s + r == s;
    } else {
      var n := |s + r| - 1;
      assert (s + r)[..n] == s + r[..|r| - 1] && (s + r)[n] == r[|r| - 1];
      RStripDrops(s, r[..|r| - 1]);
    }
  }

  lemma {:induction false} RStripOfSpace(r: string)
    requires AllSpace(r)
    ensures RStrip(r) == ""
  {
    hide IsSpace;
    if r != "" { RStripOfSpace(r[..|r| - 1]); }
  }

  lemma {:induction false} LStripOfSpace(l: string)
    requires AllSpace(l)
    ensures LStrip(l) == ""
  {
    hide IsSpace;
    if l != "" { LStripOfSpace(l[1..]); }
  }

  /** Stripping leaves what stands between the outer white space. */
  lemma StrippedIsCore(l: string, core: string, r: string)
    requires AllSpace(l) && IsCore(core) && AllSpace(r)
    ensures StripSpace(l + core + r) == core
  {
    hide IsSpace;
    if core == "" {
      assert l + core + r == l + r;
      LStripOfSpace(l + r);
    } else {
      assert l + core + r == l + (core + r);
      LStripDrops(l, core + r);
      RStripDrops(core, r);
    }
  }

  // ---------------------------------------------------------------- rows of the table

  /** `cell` is `core` with white space around it, on one line and without a bar. */
  ghost predicate Cell(cell: string, core: string) {
    && '|' !in cell && '\n' !in cell && IsCore(core)
    && exists l, r :: AllSpace(l) && AllSpace(r) && cell == l + core + r
  }

  lemma CellIsStripped(cell: string, core: string)
    requires Cell(cell, core)
    ensures StripSpace(cell) == core
  {
    hide IsSpace;
    var l, r :| AllSpace(l) && AllSpace(r) && cell == l + core + r;
    StrippedIsCore(l, core, r);
  }

  lemma {:induction false} SplitNoBar(s: string)
    requires '|' !in s
    ensures SplitBars(s) == [s]
  {
    if s != "" {
      SplitNoBar(s[1..]);
      assert s == [s[0]] + s[1..];
    }
  }

  lemma {:induction false} SplitAtBar(first: string, rest: string)
    requires '|' !in first
    ensures SplitBars(first + "|" + rest) == [first] + SplitBars(rest)
  {
    var s := first + "|" + rest;
    if first == "" {
      assert s[1..] == rest;
    } else {
      assert s[1..] == first[1..] + "|" + rest;
      SplitAtBar(first[1..], rest);
      assert first == [first[0]] + first[1..];
    }
  }

  /** The bars at both ends go, and only these. */
  lemma BarsGo(inner: string)
    requires inner != "" && inner[0] != '|' && inner[|inner| - 1] != '|'
    ensures StripBars("|" + inner + "|") == inner
  {
    var s := "|" + inner + "|";
    assert s[1..] == inner + "|";
    assert (inner + "|")[0] == inner[0] && (inner + "|")[|inner|] == '|' && (inner + "|")[..|inner|] == inner;
    assert StripBars(inner) == inner;
    assert StripBars(inner + "|") == StripBars(inner);
  }

  /** The word of the header cell, in any letter case. */
  predicate IsHeaderWord(s: string) {
    |s| == 4 && s[0] in {'d', 'D'} && s[1] in {'a', 'A'} && s[2] in {'t', 'T'} && s[3] in {'e', 'E'}
  }

  /** Nothing but dashes, colons and spaces. */
  predicate IsRuling(s: string) { forall k :: 0 <= k < |s| ==> s[k] == '-' || s[k] == ':' || s[k] == ' ' }

  /** Cells with bars between them. */
  function Barred(cells: seq<string>): string
    requires cells != []
  {
    if |cells| == 1 then cells[0] else cells[0] + "|" + Barred(cells[1..])
  }

  lemma {:induction false} SplitOfBarred(cells: seq<string>)
    requires cells != [] && forall i :: 0 <= i < |cells| ==> '|' !in cells[i]
    ensures SplitBars(Barred(cells)) == cells
  {
    if |cells| == 1 {
      SplitNoBar(cells[0]);
    } else {
      SplitOfBarred(cells[1..]);
      SplitAtBar(cells[0], Barred(cells[1..]));
      assert cells == [cells[0]] + cells[1..];
    }
  }

  lemma {:induction false} BarredEnds(cells: seq<string>)
    requires cells != [] && cells[0] != "" && cells[|cells| - 1] != ""
    requires '|' !in cells[0] && '|' !in cells[|cells| - 1]
    ensures var s := Barred(cells); s != "" && s[0] != '|' && s[|s| - 1] != '|'
  {
    var first, last := cells[0], cells[|cells| - 1];
    assert first[0] in first && last[|last| - 1] in last;
    LastOfBarred(cells);
  }

  lemma {:induction false} LastOfBarred(cells: seq<string>)
    requires cells != [] && cells[|cells| - 1] != ""
    ensures Barred(cells) != "" && Barred(cells)[|Barred(cells)| - 1] == cells[|cells| - 1][|cells[|cells| - 1]| - 1]
  {
    if |cells| > 1 { LastOfBarred(cells[1..]); }
  }

  /**
   * A line `|…|…|…|` of the section yields the text of its second cell, unless there are fewer than
   * three, the first is the header word, or all are rulings.
   */
  lemma RowGivesReference(cells: seq<string>, cores: seq<string>, line: string, end: string)
    requires |cells| == |cores| > 0 && forall i :: 0 <= i < |cells| ==> Cell(cells[i], cores[i])
    requires cells[0] != "" && cells[|cells| - 1] != ""
    requires line == "|" + Barred(cells) + "|" + end && (end == "" || end == "\n")
    ensures RefsIn([line]) ==
      if |cores| < 3 || IsHeaderWord(cores[0]) || (forall i :: 0 <= i < |cores| ==> IsRuling(cores[i])) then []
      else [cores[1]]
  {
    hide IsSpace, Cells, Cell, Barred, SplitBars, StripSpace, IsRuling, IsHeaderWord, RefsIn, RefOf;
    forall i | 0 <= i < |cells| ensures '|' !in cells[i] { CellHasNoBar(cells[i], cores[i]); }
    SplitOfBarred(cells);
    BarredEnds(cells);
    assert AllSpace(end) by { NewlineIsSpace(); }
    CellsOfLine(line, Barred(cells), end);
    forall i | 0 <= i < |cells| ensures StripSpace(cells[i]) == cores[i] { CellIsStripped(cells[i], cores[i]); }
    assert Cells(line) == cores;
    OneRef(line);
    RefOfCells(line, cores);
  }

  lemma CellHasNoBar(cell: string, core: string)
    requires Cell(cell, core)
    ensures '|' !in cell
  {
  }

  lemma NewlineIsSpace()
    ensures IsSpace('\n')
  {
  }

  lemma CellsOfLine(line: string, inner: string, end: string)
    requires inner != "" && inner[0] != '|' && inner[|inner| - 1] != '|'
    requires line == "|" + inner + "|" + end && AllSpace(end)
    ensures "|" <= StripSpace(line)
    ensures |Cells(line)| == |SplitBars(inner)|
    ensures forall i :: 0 <= i < |Cells(line)| ==> Cells(line)[i] == StripSpace(SplitBars(inner)[i])
  {
    var core := "|" + inner + "|";
    assert !IsSpace('|');
    hide IsSpace;
    assert line == "" + core + end;
    StrippedIsCore("", core, end);
    BarsGo(inner);
  }

  lemma RefOfCells(line: string, cores: seq<string>)
    requires "|" <= StripSpace(line) && Cells(line) == cores
    ensures RefOf(line) ==
      if |cores| < 3 || IsHeaderWord(cores[0]) || (forall i :: 0 <= i < |cores| ==> IsRuling(cores[i])) then None
      else Some(cores[1])
  {
    hide Cells, StripSpace;
    HeaderWord(cores[0]);
    assert IsRule(cores) <==> forall i :: 0 <= i < |cores| ==> IsRuling(cores[i]);
  }

  lemma HeaderWord(s: string)
    ensures IsDate(s) <==> IsHeaderWord(s)
  {
  }

  lemma OneRef(line: string)
    ensures RefsIn([line]) == match RefOf(line) case None => [] case Some(x) => [x]
  {
    hide RefOf;
    assert [line][..0] == [];
    assert RefsIn([]) == [];
  }

  /** A line whose first character behind white space is no bar is no row. */
  lemma NoBarNoReference(l: string, core: string, r: string)
    requires AllSpace(l) && IsCore(core) && AllSpace(r) && (core == "" || core[0] != '|')
    ensures RefsIn([l + core + r]) == []
  {
    hide IsSpace, Cells;
    StrippedIsCore(l, core, r);
    OneRef(l + core + r);
  }

  /** Lines are read one after the other. */
  lemma {:induction false} RefsOfLines(a: seq<string>, b: seq<string>)
    ensures RefsIn(a + b) == RefsIn(a) + RefsIn(b)
  {
    hide RefOf;
    if b == [] {
      assert a + b == a;
    } else {
      RefsOfLines(a, b[..|b| - 1]);
      assert (a + b)[..|a + b| - 1] == a + b[..|b| - 1];
    }
  }

  /** An edit that comes with a row of a new reference at the end of the section is never reported. */
  lemma NewRowIsARecord(base: string, before: string, section: string, after: string,
                        cells: seq<string>, cores: seq<string>, row: string, id: string)
    requires |cells| == |cores| >= 3 && forall i :: 0 <= i < |cells| ==> Cell(cells[i], cores[i])
    requires cells[0] != "" && cells[|cells| - 1] != "" && row == "|" + Barred(cells) + "|" + "\n"
    requires !IsHeaderWord(cores[0]) && exists i :: 0 <= i < |cores| && !IsRuling(cores[i])
    requires Complete(section) && Decomposes(before, section + row, after)
    requires cores[1] !in Refs(base)
    ensures !Unrecorded(Revised(id, Some(base), Some(before + (section + row) + after)))
  {
    hide CanonicalContent, RefsIn, Decomposes, Lines;
    var head := before + (section + row) + after;
    StripRemovesTheSection(before, section + row, after);
    assert head[|before|..|before| + |section + row|] == section + row;
    assert Refs(head) == RefsIn(Lines(section + row)) by { RefsOfSection(head); }
    LinesAppend(section, row);
    RowIsOneLine(cells, cores, row);
    RefsOfLines(Lines(section), [row]);
    RowGivesReference(cells, cores, row, "\n");
    assert cores[1] in RefsIn([row]);
  }

  lemma {:induction false} BarredOnOneLine(cells: seq<string>)
    requires cells != [] && forall i :: 0 <= i < |cells| ==> '\n' !in cells[i]
    ensures '\n' !in Barred(cells)
  {
    if |cells| > 1 { BarredOnOneLine(cells[1..]); }
  }

  lemma RowIsOneLine(cells: seq<string>, cores: seq<string>, row: string)
    requires |cells| == |cores| > 0 && forall i :: 0 <= i < |cells| ==> Cell(cells[i], cores[i])
    requires row == "|" + Barred(cells) + "|" + "\n"
    ensures Lines(row) == [row]
  {
    BarredOnOneLine(cells);
    var text := "|" + Barred(cells) + "|";
    assert '\n' !in text;
    LinesOfRow(text);
  }

  // ---------------------------------------------------------------- headings and fences

  lemma {:induction false} NoNewlineToStrip(s: string)
    requires s == "" || s[|s| - 1] != '\n'
    ensures RStripNewlines(s) == s && RStripNewlines(s + "\n") == s
  {
    assert (s + "\n")[..|s|] == s;
  }

  /** A fence line is white space and then three backticks. */
  lemma FenceLines(line: string)
    ensures IsFence(line) <==> exists l :: AllSpace(l) && l + "```" <= line
  {
    hide IsSpace;
    if IsFence(line) {
      SpacesOff(line);
      var l :| AllSpace(l) && line == l + LStrip(line);
      assert l + "```" <= line;
    }
    if l :| AllSpace(l) && l + "```" <= line {
      var rest := line[|l|..];
      assert line == l + rest;
      assert rest[0] == '`' by { assert (l + "```")[|l|] == line[|l|]; }
      BacktickIsNoSpace();
      LStripDrops(l, rest);
      assert line[..|l| + 3] == l + "```";
      assert rest[..3] == line[|l|..|l| + 3] == "```";
    }
  }

  lemma BacktickIsNoSpace()
    ensures !IsSpace('`') && !IsSpace('A')
  {
  }

  lemma {:induction false} SpacesOff(s: string)
    ensures exists l :: AllSpace(l) && s == l + LStrip(s)
  {
    hide IsSpace;
    if s != "" && IsSpace(s[0]) {
      SpacesOff(s[1..]);
      var l :| AllSpace(l) && s[1..] == l + LStrip(s[1..]);
      assert s == ([s[0]] + l) + LStrip(s);
      assert AllSpace([s[0]] + l);
    } else {
      assert AllSpace("") && s == "" + LStrip(s);
    }
  }

  /** A heading of the second level starts with two hashes and a white space. */
  lemma SectionLines(body: string)
    requires '\n' !in body
    ensures IsSectionLine(body + "\n") <==> IsSectionLine(body)
    ensures IsSectionLine(body) <==> exists c, rest :: IsSpace(c) && body == "##" + [c] + rest
  {
    hide IsSpace;
    assert body == "" || body[|body| - 1] in body;
    NoNewlineToStrip(body);
    if IsSectionLine(body) { assert body == "##" + [body[2]] + body[3..]; }
  }

  /** The Amendments heading: two hashes, white space, the word, and white space. */
  lemma AmendmentsLines(body: string)
    requires '\n' !in body
    ensures IsAmendmentsLine(body + "\n") <==> IsAmendmentsLine(body)
    ensures IsAmendmentsLine(body) <==>
      exists l, r :: l != "" && AllSpace(l) && AllSpace(r) && body == "##" + l + "Amendments" + r
  {
    hide IsSpace, AllSpace, IsAmendmentsLine;
    assert body == "" || body[|body| - 1] in body;
    NoNewlineToStrip(body);
    SameLine(body);
    if IsAmendmentsLine(body) { HeadingParts(body); }
    if l, r :| l != "" && AllSpace(l) && AllSpace(r) && body == "##" + l + "Amendments" + r {
      PartsOfHeading(body, l, r);
    }
  }

  lemma SameLine(body: string)
    requires RStripNewlines(body) == body && RStripNewlines(body + "\n") == body
    ensures IsAmendmentsLine(body + "\n") <==> IsAmendmentsLine(body)
  {
    hide IsSpace, LStrip, AllSpace;
  }

  lemma HeadingParts(body: string)
    requires RStripNewlines(body) == body && IsAmendmentsLine(body)
    ensures exists l, r :: l != "" && AllSpace(l) && AllSpace(r) && body == "##" + l + "Amendments" + r
  {
    hide IsSpace;
    SpacesOff(body[2..]);
    var l :| AllSpace(l) && body[2..] == l + LStrip(body[2..]);
    var r := LStrip(body[2..])[|TITLE|..];
    assert LStrip(body[2..]) == "Amendments" + r;
    assert body == "##" + (l + ("Amendments" + r));
    assert body == "##" + l + "Amendments" + r;
    BacktickIsNoSpace();
    assert (l + ("Amendments" + r))[0] == if l == "" then 'A' else l[0];
    assert body[2] == (l + ("Amendments" + r))[0];
  }

  lemma PartsOfHeading(body: string, l: string, r: string)
    requires l != "" && AllSpace(l) && AllSpace(r) && body == "##" + l + "Amendments" + r
    requires RStripNewlines(body) == body
    ensures IsAmendmentsLine(body)
  {
    hide IsSpace;
    assert body[2..] == l + ("Amendments" + r);
    assert body[2] == l[0];
    BacktickIsNoSpace();
    LStripDrops(l, "Amendments" + r);
    assert ("Amendments" + r)[|TITLE|..] == r;
  }

  // ---------------------------------------------------------------- what the pin sees

  lemma RowsInMiddle(a: string, x: string, b: string)
    requires Complete(a) && '\n' !in x
    ensures TrimmedRows(a + ((x + "\n") + b)) == TrimmedRows(a) + [RStrip(x)] + TrimmedRows(b)
  {
    hide RStrip;
    var line := x + "\n";
    LinesAppend(a, line + b);
    LinesAppend(line, b);
    LinesOfRow(x);
    assert x == "" || x[|x| - 1] in x;
    NoNewlineToStrip(x);
    assert Lines(a + (line + b)) == Lines(a) + ([line] + Lines(b));
    hide Lines;
  }

  lemma {:induction false} KeptDetermines(a: seq<string>, b: seq<string>)
    requires |a| == |b| && Kept(a) == Kept(b)
    ensures a == b
  {
    if a != [] {
      var n := |a| - 1;
      KeptIsPrefix(a);
      KeptIsPrefix(b);
      if a[n] == "" && b[n] == "" {
        KeptDetermines(a[..n], b[..n]);
        assert a == a[..n] + [""] && b == b[..n] + [""];
      } else if a[n] == "" {
        KeptIsShorter(a);
      } else if b[n] == "" {
        KeptIsShorter(b);
      }
    }
  }

  lemma KeptIsShorter(rows: seq<string>)
    requires rows != [] && rows[|rows| - 1] == ""
    ensures |Kept(rows)| < |rows|
  {
    KeptIsPrefix(rows[..|rows| - 1]);
  }

  /** One line put for another is seen by the pin exactly when they differ before the white space at their ends. */
  lemma PinComparesLines(a: string, x: string, wx: string, y: string, wy: string, b: string)
    requires Complete(a) && AllSpace(wx) && AllSpace(wy) && '\n' !in x + wx && '\n' !in y + wy
    requires (x == "" || !IsSpace(x[|x| - 1])) && (y == "" || !IsSpace(y[|y| - 1]))
    ensures Normalize(a + ((x + wx + "\n") + b)) == Normalize(a + ((y + wy + "\n") + b)) <==> x == y
  {
    hide IsSpace, Normalize, TrimmedRows, Kept;
    RStripDrops(x, wx);
    RStripDrops(y, wy);
    RowsInMiddle(a, x + wx, b);
    RowsInMiddle(a, y + wy, b);
    NormalizedCompares(a + ((x + wx + "\n") + b), a + ((y + wy + "\n") + b));
    var rx, ry := TrimmedRows(a) + [x] + TrimmedRows(b), TrimmedRows(a) + [y] + TrimmedRows(b);
    if Kept(rx) == Kept(ry) {
      KeptDetermines(rx, ry);
      assert rx[|TrimmedRows(a)|] == x && ry[|TrimmedRows(a)|] == y;
    }
  }

  /** A blank line more before text that is not blank is seen. */
  lemma PinSeesBlankLines(a: string, x: string, wx: string, b: string)
    requires Complete(a) && AllSpace(wx) && '\n' !in x + wx && x != "" && !IsSpace(x[|x| - 1])
    ensures Normalize(a + (("" + "\n") + ((x + wx + "\n") + b))) != Normalize(a + ((x + wx + "\n") + b))
  {
    hide IsSpace, Normalize, TrimmedRows, Kept;
    var rest := (x + wx + "\n") + b;
    RStripDrops(x, wx);
    RowsInMiddle(a, x + wx, b);
    RowsInMiddle(a, "", rest);
    RowsInMiddle("", x + wx, b);
    assert "" + rest == rest;
    assert TrimmedRows("") == [] by { NoRows(); }
    NormalizedCompares(a + (("" + "\n") + rest), a + rest);
    var r := TrimmedRows(a);
    var more, less := r + [""] + ([x] + TrimmedRows(b)), r + [x] + TrimmedRows(b);
    assert TrimmedRows(rest) == [x] + TrimmedRows(b);
    KeptReaches(more, |r| + 1);
    KeptReaches(less, |r|);
    assert more[|r|] == "" && less[|r|] == x;
  }

  lemma NoRows()
    ensures TrimmedRows("") == []
  {
  }

  lemma {:induction false} KeptReaches(rows: seq<string>, k: nat)
    requires k < |rows| && rows[k] != ""
    ensures k < |Kept(rows)| && Kept(rows) <= rows
  {
    if rows[|rows| - 1] == "" { KeptReaches(rows[..|rows| - 1], k); }
  }

  /** A newline at the very end is not. */
  lemma PinIgnoresFinalNewline(a: string, x: string)
    requires Complete(a) && '\n' !in x
    ensures Normalize(a + x) == Normalize(a + (x + "\n"))
  {
    hide Normalize, RStrip, Kept, TrimmedRows;
    RowsInMiddle(a, x, "");
    NoRows();
    assert (x + "\n") + "" == x + "\n";
    LinesAppend(a, x);
    LineAlone(x);
    assert x == "" || x[|x| - 1] in x;
    NoNewlineToStrip(x);
    NormalizedCompares(a + x, a + (x + "\n"));
    var r := TrimmedRows(a);
    assert r + [RStrip(x)] + [] == r + [RStrip(x)];
    if x == "" {
      assert a + x == a;
      assert RStrip("") == "" by { RStripOfSpace(""); }
      KeptDropsEmpty(r);
    } else {
      RowsAtEnd(a, x);
    }
  }

  lemma KeptDropsEmpty(rows: seq<string>)
    ensures Kept(rows + [""]) == Kept(rows)
  {
    assert (rows + [""])[..|rows|] == rows;
  }

  lemma RowsAtEnd(a: string, x: string)
    requires Lines(a + x) == Lines(a) + [x] && RStripNewlines(x) == x
    ensures TrimmedRows(a + x) == TrimmedRows(a) + [RStrip(x)]
  {
    hide RStrip, Lines, RStripNewlines;
  }

  lemma {:induction false} LineAlone(x: string)
    requires '\n' !in x
    ensures Lines(x) == if x == "" then [] else [x]
  {
    if x != "" {
      LineAlone(x[1..]);
      assert x[0] in x && x == [x[0]] + x[1..];
      if x[1..] == "" {
        assert Lines(x) == [[x[0]]] && [x[0]] == x;
      } else {
        assert [x[1..]][1..] == [];
        assert Lines(x) == [[x[0]] + x[1..]];
      }
    }
  }
}
