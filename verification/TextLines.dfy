/** Lines, whitespace and joining, for text whose only line separator is the newline. */
module TextLines {

  /** Python's `str.isspace` for one character, which is also what `\s` matches. */
  predicate IsSpace(c: char) {
    || '\U{09}' <= c <= '\U{0D}' || '\U{1C}' <= c <= '\U{20}' || c == '\U{85}' || c == '\U{A0}' || c == '\U{1680}'
    || '\U{2000}' <= c <= '\U{200A}' || c == '\U{2028}' || c == '\U{2029}' || c == '\U{202F}'
    || c == '\U{205F}' || c == '\U{3000}'
  }

  function LStrip(s: string): string {
    if s != "" && IsSpace(s[0]) then LStrip(s[1..]) else s
  }

  function RStrip(s: string): string {
    if s != "" && IsSpace(s[|s| - 1]) then RStrip(s[..|s| - 1]) else s
  }

  /** `s.rstrip("\n")` */
  function RStripNewlines(s: string): string {
    if s != "" && s[|s| - 1] == '\n' then RStripNewlines(s[..|s| - 1]) else s
  }

  predicate AllSpace(s: string) { forall i :: 0 <= i < |s| ==> IsSpace(s[i]) }

  /** `text.splitlines(keepends=True)` */
  function Lines(text: string): (r: seq<string>)
    ensures r == [] <==> text == ""
  {
    if text == "" then []
    else
      var rest := Lines(text[1..]);
      if text[0] == '\n' then ["\n"] + rest
      else if rest == [] then [[text[0]]]
      else [[text[0]] + rest[0]] + rest[1..]
  }

  function Concat(lines: seq<string>): string {
    if lines == [] then "" else lines[0] + Concat(lines[1..])
  }

  lemma {:induction false} LinesConcat(text: string)
    ensures Concat(Lines(text)) == text
  {
    if text != "" {
      LinesConcat(text[1..]);
      var rest := Lines(text[1..]);
      assert text == [text[0]] + text[1..];
      if text[0] != '\n' && rest != [] {
        assert ([[text[0]] + rest[0]] + rest[1..])[1..] == rest[1..];
        assert [text[0]] + rest[0] + Concat(rest[1..]) == [text[0]] + (rest[0] + Concat(rest[1..]));
      } else if text[0] == '\n' {
        assert (["\n"] + rest)[1..] == rest;
      }
    }
  }

  /** The text is empty or ends a line, so that what follows starts a new one. */
  predicate Complete(text: string) { text == "" || text[|text| - 1] == '\n' }

  lemma {:induction false} LinesAppend(a: string, b: string)
    requires Complete(a)
    ensures Lines(a + b) == Lines(a) + Lines(b)
  {
    if a == "" {
      assert a + b == b;
    } else {
      assert (a + b)[1..] == a[1..] + b;
      if |a| == 1 {
        assert a == "\n" && a[1..] + b == b;
        assert Lines("\n") == ["\n"] by { assert "\n"[1..] == ""; }
      } else {
        LinesAppend(a[1..], b);
        if a[0] != '\n' {
          assert Lines(a[1..]) != [];
          assert (Lines(a[1..]) + Lines(b))[1..] == Lines(a[1..])[1..] + Lines(b);
        }
      }
    }
  }

  lemma {:induction false} ConcatAppend(a: seq<string>, b: seq<string>)
    ensures Concat(a + b) == Concat(a) + Concat(b)
  {
    if a == [] {
      assert a + b == b;
    } else {
      ConcatAppend(a[1..], b);
      assert (a + b)[1..] == a[1..] + b;
      assert a[0] + (Concat(a[1..]) + Concat(b)) == (a[0] + Concat(a[1..])) + Concat(b);
    }
  }

  /** Every line but possibly the last ends with its newline. */
  lemma {:induction false} LineEnds(text: string, i: nat)
    requires i < |Lines(text)| - 1
    ensures Lines(text)[i] != "" && Complete(Lines(text)[i])
  {
    var rest := Lines(text[1..]);
    if text[0] == '\n' {
      if i > 0 { LineEnds(text[1..], i - 1); }
    } else {
      LineEnds(text[1..], i);
    }
  }

  lemma {:induction false} LinesAreNonEmpty(text: string)
    ensures forall i :: 0 <= i < |Lines(text)| ==> Lines(text)[i] != ""
  {
    if text != "" { LinesAreNonEmpty(text[1..]); }
  }

  /** The offset at which line `k` starts. */
  function Offset(lines: seq<string>, k: nat): nat
    requires k <= |lines|
  {
    |Concat(lines[..k])|
  }

  lemma ConcatOne(line: string)
    ensures Concat([line]) == line
  {
    assert [line][1..] == [];
  }

  /** Whole lines that others follow end with a newline. */
  lemma PrefixIsComplete(text: string, k: nat)
    requires k < |Lines(text)|
    ensures Complete(Concat(Lines(text)[..k]))
  {
    var lines := Lines(text);
    if k > 0 {
      LineEnds(text, k - 1);
      assert lines[..k] == lines[..k - 1] + [lines[k - 1]];
      ConcatAppend(lines[..k - 1], [lines[k - 1]]);
      ConcatOne(lines[k - 1]);
      LastCharacter(Concat(lines[..k - 1]), lines[k - 1]);
    }
  }

  lemma LastCharacter(a: string, b: string)
    requires b != "" && Complete(b)
    ensures Complete(a + b)
  {
  }

  /** Lines put together again split into the same lines. */
  lemma {:induction false} LinesOfConcat(text: string, k: nat)
    requires k <= |Lines(text)|
    ensures Lines(Concat(Lines(text)[..k])) == Lines(text)[..k]
  {
    var lines := Lines(text);
    if k > 0 {
      LinesOfConcat(text, k - 1);
      assert lines[..k] == lines[..k - 1] + [lines[k - 1]];
      ConcatAppend(lines[..k - 1], [lines[k - 1]]);
      ConcatOne(lines[k - 1]);
      PrefixIsComplete(text, k - 1);
      LinesAppend(Concat(lines[..k - 1]), lines[k - 1]);
      OneLine(text, k - 1);
    }
  }

  lemma ConcatCut(text: string, k: nat)
    requires k <= |Lines(text)|
    ensures text == Concat(Lines(text)[..k]) + Concat(Lines(text)[k..])
  {
    LinesConcat(text);
    assert Lines(text) == Lines(text)[..k] + Lines(text)[k..];
    ConcatAppend(Lines(text)[..k], Lines(text)[k..]);
  }

  /** Cutting a text at the start of a line cuts its lines there. */
  lemma CutAtLine(text: string, k: nat)
    requires k <= |Lines(text)|
    ensures var lines := Lines(text); var n := Offset(lines, k);
      && n <= |text|
      && text[..n] == Concat(lines[..k]) && text[n..] == Concat(lines[k..])
      && (k < |lines| ==> Complete(text[..n]))
      && Lines(text[..n]) == lines[..k] && Lines(text[n..]) == lines[k..]
  {
    hide Lines, Concat;
    var lines := Lines(text);
    ConcatCut(text, k);
    LinesOfConcat(text, k);
    if k < |lines| {
      PrefixIsComplete(text, k);
      LinesAppend(Concat(lines[..k]), Concat(lines[k..]));
      assert lines == lines[..k] + lines[k..];
    } else {
      assert lines[..k] == lines && lines[k..] == [];
      LinesConcat(text);
    }
  }

  /** A line by itself is one line. */
  lemma {:induction false} OneLine(text: string, i: nat)
    requires i < |Lines(text)|
    ensures Lines(Lines(text)[i]) == [Lines(text)[i]]
  {
    var rest := Lines(text[1..]);
    if text[0] == '\n' {
      assert "\n"[1..] == "";
      if i > 0 { OneLine(text[1..], i - 1); }
    } else if rest == [] {
      assert [text[0]][1..] == "";
    } else {
      OneLine(text[1..], i);
      if i == 0 {
        assert ([text[0]] + rest[0])[1..] == rest[0];
      }
    }
  }
}
