/** JSON Pointer (RFC 6901): building pointers, splitting and decoding them, and following them. */
module JsonPointer {
  import opened Ordering
  import opened Json

  // ---------------------------------------------------------------- str.replace

  /** `s.replace(c, text)` for a one-character pattern. */
  function ReplaceChar(s: string, c: char, text: string): string {
    if s == "" then "" else (if s[0] == c then text else [s[0]]) + ReplaceChar(s[1..], c, text)
  }

  /** `s.replace(tilde-digit, text)` for the two-character pattern "~" + digit, scanning from the left. */
  function ReplacePair(s: string, digit: char, text: char): string {
    if s == "" then ""
    else if |s| >= 2 && s[0] == '~' && s[1] == digit then [text] + ReplacePair(s[2..], digit, text)
    else [s[0]] + ReplacePair(s[1..], digit, text)
  }

  function Escape(part: string): string {
    ReplaceChar(ReplaceChar(part, '~', "~0"), '/', "~1")
  }

  function Unescape(raw: string): string {
    ReplacePair(ReplacePair(raw, '1', '/'), '0', '~')
  }

  lemma ReplaceCharStep(c: char, rest: string, pattern: char, text: string)
    ensures ReplaceChar([c] + rest, pattern, text) ==
      (if c == pattern then text else [c]) + ReplaceChar(rest, pattern, text)
  {
    assert ([c] + rest)[1..] == rest;
  }

  lemma EscapeStep(part: string)
    requires part != ""
    ensures Escape(part) ==
      (if part[0] == '~' then "~0" else if part[0] == '/' then "~1" else [part[0]]) + Escape(part[1..])
  {
    var tail := ReplaceChar(part[1..], '~', "~0");
    if part[0] == '~' {
      assert ReplaceChar(part, '~', "~0") == ['~'] + (['0'] + tail);
      ReplaceCharStep('~', ['0'] + tail, '/', "~1");
      ReplaceCharStep('0', tail, '/', "~1");
      assert ['~'] + (['0'] + Escape(part[1..])) == "~0" + Escape(part[1..]);
    } else {
      assert ReplaceChar(part, '~', "~0") == [part[0]] + tail;
      ReplaceCharStep(part[0], tail, '/', "~1");
    }
  }

  /** Decoding `~1` first undoes exactly the second replacement of `Escape`. */
  lemma {:induction false} SlashesComeBack(part: string)
    ensures ReplacePair(Escape(part), '1', '/') == ReplaceChar(part, '~', "~0")
  {
    if part != "" {
      EscapeStep(part);
      SlashesComeBack(part[1..]);
      var rest := Escape(part[1..]);
      if part[0] == '~' {
        var s := "~0" + rest;
        assert s[1..] == "0" + rest && s[1..][1..] == rest;
        assert ReplacePair(s, '1', '/') == "~" + ("0" + ReplacePair(rest, '1', '/'));
      } else if part[0] == '/' {
        assert ("~1" + rest)[2..] == rest;
      } else {
        assert ([part[0]] + rest)[1..] == rest;
      }
    }
  }

  lemma {:induction false} TildesComeBack(part: string)
    ensures ReplacePair(ReplaceChar(part, '~', "~0"), '0', '~') == part
  {
    if part != "" {
      TildesComeBack(part[1..]);
      var rest := ReplaceChar(part[1..], '~', "~0");
      if part[0] == '~' {
        assert ("~0" + rest)[2..] == rest;
      } else {
        assert ([part[0]] + rest)[1..] == rest;
      }
      assert part == [part[0]] + part[1..];
    }
  }

  /** Escaping then unescaping one reference token gives the token back (RFC 6901, sections 3 and 4). */
  lemma UnescapeEscape(part: string)
    ensures Unescape(Escape(part)) == part
  {
    SlashesComeBack(part);
    TildesComeBack(part);
  }

  lemma {:induction false} EscapeHasNoSlash(part: string)
    ensures '/' !in Escape(part)
    ensures part != "" ==> Escape(part) != ""
  {
    if part != "" {
      EscapeStep(part);
      EscapeHasNoSlash(part[1..]);
    }
  }

  // ---------------------------------------------------------------- join and split

  /** `"/".join(parts)` */
  function Join(parts: seq<string>): string {
    if parts == [] then ""
    else if |parts| == 1 then parts[0]
    else parts[0] + "/" + Join(parts[1..])
  }

  /** `s.split("/")` */
  function Split(s: string): (r: seq<string>)
    ensures r != []
  {
    if s == "" then [""]
    else
      var rest := Split(s[1..]);
      if s[0] == '/' then [""] + rest else [[s[0]] + rest[0]] + rest[1..]
  }

  lemma {:induction false} SplitWithoutSlash(s: string)
    requires '/' !in s
    ensures Split(s) == [s]
  {
    if s != "" {
      SplitWithoutSlash(s[1..]);
      assert s == [s[0]] + s[1..];
    }
  }

  lemma {:induction false} SplitAtSlash(head: string, tail: string)
    requires '/' !in head
    ensures Split(head + "/" + tail) == [head] + Split(tail)
  {
    var s := head + "/" + tail;
    if head == "" {
      assert s[1..] == tail;
    } else {
      SplitAtSlash(head[1..], tail);
      assert s[1..] == head[1..] + "/" + tail;
      assert head == [head[0]] + head[1..];
    }
  }

  lemma {:induction false} SplitJoin(parts: seq<string>)
    requires parts != [] && forall p :: p in parts ==> '/' !in p
    ensures Split(Join(parts)) == parts
  {
    if |parts| == 1 {
      SplitWithoutSlash(parts[0]);
    } else {
      SplitJoin(parts[1..]);
      SplitAtSlash(parts[0], Join(parts[1..]));
      assert parts == [parts[0]] + parts[1..];
    }
  }

  // ---------------------------------------------------------------- pointers

  function EscapeAll(parts: seq<string>): (r: seq<string>)
    ensures |r| == |parts|
  {
    seq(|parts|, i requires 0 <= i < |parts| => Escape(parts[i]))
  }

  function NonEmpty(parts: seq<string>): seq<string> {
    if parts == [] then []
    else (if parts[0] == "" then [] else [parts[0]]) + NonEmpty(parts[1..])
  }

  /** `_json_path`: escape the parts, drop what is empty, and join. */
  function JsonPath(base: string, parts: seq<string>): string {
    Join(NonEmpty([base] + EscapeAll(parts)))
  }

  /** The pointer text (without "#/") of a position whose segments are all non-empty. */
  function Pointer(parts: seq<string>): string {
    Join(EscapeAll(parts))
  }

  /** The pointer text that the walk builds for a position: empty segments leave no trace in it. */
  function Emitted(parts: seq<string>): string {
    Pointer(NonEmpty(parts))
  }

  ghost predicate Segments(parts: seq<string>) {
    forall i :: 0 <= i < |parts| ==> parts[i] != ""
  }

  lemma {:induction false} JoinAppend(parts: seq<string>, last: string)
    ensures Join(parts + [last]) == if parts == [] then last else Join(parts) + "/" + last
  {
    if |parts| == 0 {
      assert parts + [last] == [last];
    } else if |parts| == 1 {
      assert (parts + [last])[1..] == [last];
    } else {
      JoinAppend(parts[1..], last);
      assert (parts + [last])[1..] == parts[1..] + [last];
      assert parts[0] + "/" + (Join(parts[1..]) + "/" + last) == (parts[0] + "/" + Join(parts[1..])) + "/" + last;
    }
  }

  lemma PointerIsEmptyAtRoot(parts: seq<string>)
    requires Segments(parts)
    ensures Pointer(parts) == "" <==> parts == []
  {
    if parts != [] {
      EscapeHasNoSlash(parts[0]);
    }
  }

  lemma JoinFew(a: string, b: string, c: string)
    ensures Join([a]) == a
    ensures Join([a, b]) == a + "/" + b
    ensures Join([a, b, c]) == a + "/" + (b + "/" + c)
  {
    assert [b, c][1..] == [c];
    assert Join([b, c]) == b + "/" + c == b + ("/" + c);
    assert [a, b][1..] == [b];
    assert [a, b, c][1..] == [b, c];
    assert Join([a, b, c]) == a + "/" + Join([b, c]);
    assert b + "/" + c == b + "/" + c;
  }

  lemma NonEmptyFew(a: string, b: string, c: string)
    requires b != "" && c != ""
    ensures NonEmpty([a, b]) == if a == "" then [b] else [a, b]
    ensures NonEmpty([a, b, c]) == if a == "" then [b, c] else [a, b, c]
  {
    assert [c][1..] == [];
    assert NonEmpty([c]) == [c];
    assert [b, c][1..] == [c];
    assert NonEmpty([b, c]) == [b, c];
    assert [a, b, c][1..] == [b, c];
    assert [b][1..] == [];
    assert NonEmpty([b]) == [b];
    assert [a, b][1..] == [b];
  }

  lemma NonEmptyCons(part: string, rest: seq<string>)
    ensures NonEmpty([part] + rest) == (if part == "" then [] else [part]) + NonEmpty(rest)
  {
    assert ([part] + rest)[1..] == rest;
  }

  lemma {:induction false} NonEmptyAppend(a: seq<string>, b: seq<string>)
    ensures NonEmpty(a + b) == NonEmpty(a) + NonEmpty(b)
  {
    if a == [] {
      assert a + b == b;
    } else {
      var rest := a[1..];
      NonEmptyAppend(rest, b);
      NonEmptyCons(a[0], rest);
      NonEmptyCons(a[0], rest + b);
      assert a == [a[0]] + rest && a + b == [a[0]] + (rest + b);
      RegroupNames(if a[0] == "" then [] else [a[0]], NonEmpty(rest), NonEmpty(b));
    }
  }

  lemma RegroupNames(a: seq<string>, b: seq<string>, c: seq<string>)
    ensures a + (b + c) == a + b + c
  {
  }

  lemma {:induction false} NonEmptyKeepsSegments(parts: seq<string>)
    ensures Segments(NonEmpty(parts))
    ensures Segments(parts) ==> NonEmpty(parts) == parts
  {
    if parts != [] {
      NonEmptyKeepsSegments(parts[1..]);
      if Segments(parts) {
        assert Segments(parts[1..]);
        assert parts == [parts[0]] + parts[1..];
      }
    }
  }

  lemma EmittedOneMore(before: seq<string>, key: string)
    ensures NonEmpty(before + [key]) == if key == "" then NonEmpty(before) else NonEmpty(before) + [key]
  {
    NonEmptyAppend(before, [key]);
    assert [key][1..] == [];
  }

  lemma JoinOne(s: string)
    ensures Join(NonEmpty([s])) == s
  {
    assert [s][1..] == [];
    assert NonEmpty([s]) == if s == "" then [] else [s];
  }

  /** An empty part leaves the path as it was. */
  lemma EmptyPart(base: string)
    ensures JsonPath(base, [""]) == base
  {
    assert [base] + EscapeAll([""]) == [base, ""];
    assert [base, ""][1..] == [""] && [""][1..] == [];
    assert NonEmpty([""]) == [];
    assert NonEmpty([base, ""]) == NonEmpty([base]) by { assert [base][1..] == []; }
    JoinOne(base);
  }

  lemma EmptyPartFirst(base: string, index: string)
    ensures JsonPath(base, ["", index]) == JsonPath(base, [index])
  {
    var i := Escape(index);
    assert ["", index][1] == index && Escape("") == "";
    assert EscapeAll(["", index]) == [""] + [i];
    assert EscapeAll([index]) == [i];
    assert [base] + EscapeAll(["", index]) == [base] + ([""] + [i]);
    assert [base] + EscapeAll([index]) == [base] + [i];
    NonEmptyCons(base, [""] + [i]);
    NonEmptyCons(base, [i]);
    NonEmptyCons("", [i]);
    assert NonEmpty([""] + [i]) == NonEmpty([i]);
    assert NonEmpty([base] + ([""] + [i])) == NonEmpty([base] + [i]);
    assert JsonPath(base, ["", index]) == Join(NonEmpty([base] + ([""] + [i])));
  }

  /** The path built one part at a time is what the walk emits for the position, empty parts included. */
  lemma PathIsPointer(before: seq<string>, key: string)
    ensures JsonPath(Emitted(before), [key]) == Emitted(before + [key])
  {
    EmittedOneMore(before, key);
    if key == "" {
      EmptyPart(Emitted(before));
    } else {
      NonEmptyKeepsSegments(before);
      SegmentIsAppended(NonEmpty(before), key);
    }
  }

  lemma SegmentIsAppended(before: seq<string>, key: string)
    requires Segments(before) && key != ""
    ensures JsonPath(Pointer(before), [key]) == Pointer(before + [key])
  {
    EscapeHasNoSlash(key);
    PointerIsEmptyAtRoot(before);
    assert EscapeAll(before + [key]) == EscapeAll(before) + [Escape(key)];
    JoinAppend(EscapeAll(before), Escape(key));
    var base := Pointer(before);
    assert [base] + EscapeAll([key]) == [base, Escape(key)];
    NonEmptyFew(base, Escape(key), Escape(key));
    JoinFew(base, Escape(key), Escape(key));
    JoinFew(Escape(key), Escape(key), Escape(key));
    assert EscapeAll(before) == [] <==> base == "";
  }

  /** Adding two parts at once is adding one after the other. */
  lemma PathWithIndexIsPointer(before: seq<string>, key: string, index: string)
    requires index != ""
    ensures JsonPath(Emitted(before), [key, index]) == Emitted(before + [key, index])
  {
    hide Emitted, JsonPath;
    PathIsPointer(before, key);
    PathIsPointer(before + [key], index);
    assert before + [key, index] == (before + [key]) + [index];
    if key == "" {
      EmptyPartFirst(Emitted(before), index);
      EmptyPart(Emitted(before));
    } else {
      TwoPartsAtOnce(Emitted(before), key, index);
    }
  }

  /** `base` followed by one more piece. */
  function Under(base: string, piece: string): string {
    if base == "" then piece else base + "/" + piece
  }

  lemma UnderTwice(base: string, first: string, second: string)
    requires first != ""
    ensures Under(base, first + "/" + second) == Under(Under(base, first), second)
  {
    assert base + "/" + (first + "/" + second) == (base + "/" + first) + "/" + second;
  }

  lemma OnePart(base: string, key: string)
    requires key != ""
    ensures JsonPath(base, [key]) == Under(base, Escape(key))
  {
    EscapeHasNoSlash(key);
    assert [base] + EscapeAll([key]) == [base, Escape(key)];
    NonEmptyFew(base, Escape(key), Escape(key));
    JoinFew(base, Escape(key), "");
    JoinFew(Escape(key), "", "");
  }

  lemma TwoParts(base: string, key: string, index: string)
    requires key != "" && index != ""
    ensures JsonPath(base, [key, index]) == Under(base, Escape(key) + "/" + Escape(index))
  {
    EscapeHasNoSlash(key);
    EscapeHasNoSlash(index);
    var k, i := Escape(key), Escape(index);
    assert [base] + EscapeAll([key, index]) == [base, k, i];
    NonEmptyFew(base, k, i);
    JoinFew(base, k, i);
    JoinFew(k, i, "");
    assert base + "/" + (k + "/" + i) == Under(base, k + "/" + i) || base == "";
  }

  lemma TwoPartsAtOnce(base: string, key: string, index: string)
    requires key != "" && index != ""
    ensures JsonPath(base, [key, index]) == JsonPath(JsonPath(base, [key]), [index])
  {
    hide JsonPath;
    EscapeHasNoSlash(key);
    TwoParts(base, key, index);
    OnePart(base, key);
    OnePart(Under(base, Escape(key)), index);
    UnderTwice(base, Escape(key), Escape(index));
  }

  lemma SplitPointer(parts: seq<string>)
    requires Segments(parts) && parts != []
    ensures Split(Pointer(parts)) == EscapeAll(parts)
  {
    forall p | p in EscapeAll(parts) ensures '/' !in p {
      var i :| 0 <= i < |parts| && p == Escape(parts[i]);
      EscapeHasNoSlash(parts[i]);
    }
    SplitJoin(EscapeAll(parts));
  }

  /** Different positions have different pointers. */
  lemma PointerIsInjective(a: seq<string>, b: seq<string>)
    requires Segments(a) && Segments(b) && Pointer(a) == Pointer(b)
    ensures a == b
  {
    PointerIsEmptyAtRoot(a);
    PointerIsEmptyAtRoot(b);
    if a != [] {
      SplitPointer(a);
      SplitPointer(b);
      assert |a| == |b|;
      forall i | 0 <= i < |a| ensures a[i] == b[i] {
        assert EscapeAll(a)[i] == EscapeAll(b)[i];
        UnescapeEscape(a[i]);
        UnescapeEscape(b[i]);
      }
    }
  }

  /** The walk emits one pointer for two positions exactly when they agree but for empty segments. */
  lemma EmittedAgree(a: seq<string>, b: seq<string>)
    ensures Emitted(a) == Emitted(b) <==> NonEmpty(a) == NonEmpty(b)
  {
    NonEmptyKeepsSegments(a);
    NonEmptyKeepsSegments(b);
    if Emitted(a) == Emitted(b) { PointerIsInjective(NonEmpty(a), NonEmpty(b)); }
  }

  // ---------------------------------------------------------------- list indices

  /** `str(n)` */
  function Decimal(n: nat): (r: string)
    ensures r != "" && IsDigits(r) && ToNat(r) == n
  {
    if n < 10 then ['0' + n as char]
    else
      var s := Decimal(n / 10) + ['0' + (n % 10) as char];
      assert s[..|s| - 1] == Decimal(n / 10);
      s
  }

  /** `part.isdigit()`, for ASCII text. */
  predicate IsDigits(part: string) {
    part != "" && forall i :: 0 <= i < |part| ==> '0' <= part[i] <= '9'
  }

  /** `int(part)` */
  function ToNat(part: string): nat
    requires IsDigits(part)
  {
    var last := (part[|part| - 1] - '0') as int;
    if |part| == 1 then last else ToNat(part[..|part| - 1]) * 10 + last
  }

  /** An index is written in decimal digits; zeros in front are let through. */
  lemma IndexText(part: string, c: char)
    ensures IsDigits(part) <==> part != "" && forall i :: 0 <= i < |part| ==>
      part[i] in {'0', '1', '2', '3', '4', '5', '6', '7', '8', '9'}
    ensures IsDigits([c]) ==> ToNat([c]) == c as int - '0' as int
    ensures IsDigits(part) && IsDigits([c]) ==>
      IsDigits(part + [c]) && ToNat(part + [c]) == 10 * ToNat(part) + ToNat([c])
  {
    assert IsDigits([c]) ==> '0' <= [c][0] <= '9';
    assert (part + [c])[..|part|] == part && (part + [c])[|part|] == c;
  }

  // ---------------------------------------------------------------- following a pointer

  /** One segment: a key of an object, or a decimal index into a list. */
  function Child(v: Json, part: string): Option<Json> {
    if v.Obj? && part in v.members then Some(v.members[part])
    else if v.Arr? && IsDigits(part) && ToNat(part) < |v.items| then Some(v.items[ToNat(part)])
    else None
  }

  function Follow(v: Json, parts: seq<string>): Option<Json> {
    if parts == [] then Some(v)
    else match Child(v, parts[0])
      case None => None
      case Some(w) => Follow(w, parts[1..])
  }

  lemma {:induction false} FollowAppend(v: Json, parts: seq<string>, last: string)
    ensures Follow(v, parts + [last]) ==
      match Follow(v, parts) case None => None case Some(w) => Child(w, last)
  {
    if parts == [] {
      assert parts + [last] == [last];
      assert Follow(v, [last]) == match Child(v, last) case None => None case Some(w) => Some(w);
    } else {
      assert (parts + [last])[1..] == parts[1..] + [last];
      if Child(v, parts[0]).Some? { FollowAppend(Child(v, parts[0]).value, parts[1..], last); }
    }
  }

  /** Where a fragment identifier leads: "#" to the document, "#/…" along the decoded segments. */
  function Resolve(document: Json, pointer: string): Option<Json> {
    if pointer == "#" then Some(document)
    else if "#/" <= pointer then Follow(document, UnescapeAll(Split(pointer[2..])))
    else None
  }

  /**
   * `_resolve_json_pointer`. The program answers only whether the pointer resolves; the value it
   * stopped at is returned as well, so that one can say where the pointer led.
   */
  method ResolveJsonPointer(document: Json, pointer: string) returns (found: bool, current: Json)
    ensures found <==> Resolve(document, pointer).Some?
    ensures found ==> Resolve(document, pointer) == Some(current)
  {
    current := document;
    if pointer == "#" { return true, current; }
    if !("#/" <= pointer) { return false, current; }
    var parts := Split(pointer[2..]);
    for i := 0 to |parts|
      invariant Follow(document, UnescapeAll(parts[..i])) == Some(current)
    {
      var part := Unescape(parts[i]);
      assert UnescapeAll(parts[..i + 1]) == UnescapeAll(parts[..i]) + [part];
      FollowAppend(document, UnescapeAll(parts[..i]), part);
      if current.Obj? && part in current.members {
        current := current.members[part];
      } else if current.Arr? && IsDigits(part) && ToNat(part) < |current.items| {
        current := current.items[ToNat(part)];
      } else {
        assert UnescapeAll(parts)[..i + 1] == UnescapeAll(parts[..i + 1]);
        FollowStopsEarly(document, UnescapeAll(parts), i + 1);
        return false, current;
      }
    }
    assert parts[..|parts|] == parts;
    return true, current;
  }

  function UnescapeAll(parts: seq<string>): (r: seq<string>)
    ensures |r| == |parts|
  {
    seq(|parts|, i requires 0 <= i < |parts| => Unescape(parts[i]))
  }

  lemma {:induction false} FollowStopsEarly(v: Json, parts: seq<string>, n: nat)
    requires n <= |parts| && Follow(v, parts[..n]).None?
    ensures Follow(v, parts).None?
  {
    if n > 0 {
      assert parts[..n][1..] == parts[1..][..n - 1];
      if Child(v, parts[0]).Some? { FollowStopsEarly(Child(v, parts[0]).value, parts[1..], n - 1); }
    }
  }

  /** The decoder follows the pointer of a position along exactly that position's segments. */
  lemma DecodedPointer(parts: seq<string>)
    requires Segments(parts) && parts != []
    ensures UnescapeAll(Split(Pointer(parts))) == parts
  {
    SplitPointer(parts);
    forall i | 0 <= i < |parts| ensures Unescape(Escape(parts[i])) == parts[i] {
      UnescapeEscape(parts[i]);
    }
  }
}
