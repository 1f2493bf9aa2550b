/**
 * The final deep cleaner of the raw transcription. Each line that is neither
 * blank nor a `#` comment loses everything up to its first `>` (the locus
 * tag). Then come, in this order: the bracketed spans `[…]`, `<…>`, `{…}`
 * and `(…)`; the note characters `! % $ ? ' * ,`; dots turned into spaces;
 * whitespace runs collapsed to one space; and the ends stripped. The
 * non-empty results are joined with newlines into the output text.
 *
 * Lines are modelled without their terminating newline: a line read from a
 * file ends with at most one, and the cleaning turns it into whitespace that
 * the final strip removes.
 */
module DeepClean {
  import opened Wrappers
  import opened Text
  import opened Spans
  import opened SpanSpacing

  /** `line.strip()` is empty or starts with `#`: the line is skipped at once. */
  predicate IsBlankOrComment(line: string) {
    var t := Strip(line);
    t == [] || t[0] == '#'
  }

  /** `line.split('>', 1)[1]`: what follows the first `>`; None for the IndexError of a line without one. */
  function TextPart(line: string): (r: Option<string>)
    ensures r.None? <==> '>' !in line
    ensures r.Some? ==> |r.value| < |line|
    ensures r.Some? ==>
      var k := |line| - |r.value| - 1;
      line[k] == '>' && '>' !in line[..k] && line[k + 1..] == r.value
  {
    if line == [] then None
    else if line[0] == '>' then Some(line[1..])
    else
      var r := TextPart(line[1..]);
      assert '>' in line <==> '>' in line[1..];
      if r.Some? then
        var k := |line| - |r.value| - 1;
        assert line[..k] == [line[0]] + line[1..][..k - 1];
        r
      else r
  }

  /** The four span removals, in the order the script applies them. */
  function DropMarkup(t: string): string {
    var a := RemoveSpans(t, '[', ']', true);
    var b := RemoveSpans(a, '<', '>', false);
    var c := RemoveSpans(b, '{', '}', true);
    RemoveSpans(c, '(', ')', true)
  }

  /** No complete span of any of the four kinds. */
  predicate NoMarkup(s: string) {
    NoSpan(s, '[', ']') && NoSpan(s, '<', '>') && NoSpan(s, '{', '}') && NoSpan(s, '(', ')')
  }

  /** The characters of `[!%$?\'*,]`. */
  predicate IsNoteChar(c: char) {
    c == '!' || c == '%' || c == '$' || c == '?' || c == '\'' || c == '*' || c == ','
  }

  /** `re.sub(r'[!%$?\'*,]', '', s)`. */
  function DropNoteChars(s: string): (r: string)
    ensures |r| <= |s|
    ensures forall i :: 0 <= i < |r| ==> !IsNoteChar(r[i]) && r[i] in s
  {
    if s == [] then []
    else
      assert forall c :: c in s[1..] ==> c in s;
      (if IsNoteChar(s[0]) then [] else [s[0]]) + DropNoteChars(s[1..])
  }

  /** `s.replace('.', ' ')`. */
  function DotsToSpaces(s: string): (r: string)
    ensures |r| == |s| && '.' !in r
    ensures forall i :: 0 <= i < |s| && s[i] != '.' ==> r[i] == s[i]
    ensures forall i :: 0 <= i < |s| && s[i] == '.' ==> r[i] == ' '
  {
    if s == [] then [] else [if s[0] == '.' then ' ' else s[0]] + DotsToSpaces(s[1..])
  }

  /** The cleaning of one text part. */
  function CleanText(t: string): string {
    Strip(Collapse(DotsToSpaces(DropNoteChars(DropMarkup(t)))))
  }

  /** No note character and no dot. */
  predicate NoteAndDotFree(s: string) {
    forall i :: 0 <= i < |s| ==> !IsNoteChar(s[i]) && s[i] != '.'
  }

  /** What the steps after the span removals guarantee. */
  predicate Tidy(s: string) {
    NoteAndDotFree(s) && OnlyPlainSpaces(s) && NoDoubleSpace(s) && NoSpaceAtEnds(s)
  }

  /** What a cleaned line looks like. */
  predicate IsClean(s: string) {
    NoMarkup(s) && Tidy(s)
  }

  /** One line of the loop: its cleaned text, or None when the line is skipped or cleans to nothing. */
  function CleanLine(line: string): (r: Option<string>)
    ensures IsBlankOrComment(line) || '>' !in line ==> r.None?
    ensures r.Some? ==> r.value != [] && r.value == CleanText(TextPart(line).value)
    ensures !IsBlankOrComment(line) && '>' in line && CleanText(TextPart(line).value) != [] ==> r.Some?
  {
    if IsBlankOrComment(line) then None
    else
      match TextPart(line)
      case None => None
      case Some(t) =>
        var c := CleanText(t);
        if c == [] then None else Some(c)
  }

  /** Deleting note characters keeps a string free of complete spans. */
  lemma {:induction false} DropNoteCharsKeepsNoSpan(s: string, open: char, close: char)
    requires NoSpan(s, open, close)
    ensures NoSpan(DropNoteChars(s), open, close)
  {
    if s != [] {
      NoSpanSlice(s, 1, |s|, open, close);
      DropNoteCharsKeepsNoSpan(s[1..], open, close);
      if s[0] == open {
        assert forall k :: 0 <= k < |s| - 1 ==> s[1..][k] == s[k + 1];
        assert close !in s[1..];
      }
      if IsNoteChar(s[0]) {
        assert DropNoteChars(s) == DropNoteChars(s[1..]);
      } else {
        NoSpanCons(s[0], DropNoteChars(s[1..]), open, close);
      }
    }
  }

  /** A string without note characters is left as it is. */
  lemma {:induction false} DropNoteCharsPlain(s: string)
    requires forall i :: 0 <= i < |s| ==> !IsNoteChar(s[i])
    ensures DropNoteChars(s) == s
  {
    if s != [] {
      assert forall i :: 0 <= i < |s| - 1 ==> s[1..][i] == s[i + 1];
      DropNoteCharsPlain(s[1..]);
      assert [s[0]] + s[1..] == s;
    }
  }

  /** Turning dots into spaces keeps a string free of complete spans. */
  lemma DotsKeepNoSpan(s: string, open: char, close: char)
    requires open != ' ' && close != ' '
    requires NoSpan(s, open, close)
    ensures NoSpan(DotsToSpaces(s), open, close)
  {
  }

  /** The span removals leave a newline-free text part with no complete span of any kind. */
  lemma DropMarkupLeavesNoMarkup(t: string)
    requires '\n' !in t
    ensures NoMarkup(DropMarkup(t)) && '\n' !in DropMarkup(t)
  {
    var a := RemoveSpans(t, '[', ']', true);
    RemoveSpansLeavesNoSpan(t, '[', ']', true);
    RemoveSpansChars(t, '[', ']', true);
    var b := RemoveSpans(a, '<', '>', false);
    RemoveSpansLeavesNoSpan(a, '<', '>', false);
    RemoveSpansKeepsNoSpan(a, '<', '>', false, '[', ']');
    RemoveSpansChars(a, '<', '>', false);
    var c := RemoveSpans(b, '{', '}', true);
    RemoveSpansLeavesNoSpan(b, '{', '}', true);
    RemoveSpansKeepsNoSpan(b, '{', '}', true, '[', ']');
    RemoveSpansKeepsNoSpan(b, '{', '}', true, '<', '>');
    RemoveSpansChars(b, '{', '}', true);
    RemoveSpansLeavesNoSpan(c, '(', ')', true);
    RemoveSpansKeepsNoSpan(c, '(', ')', true, '[', ']');
    RemoveSpansKeepsNoSpan(c, '(', ')', true, '<', '>');
    RemoveSpansKeepsNoSpan(c, '(', ')', true, '{', '}');
    RemoveSpansChars(c, '(', ')', true);
  }

  /** Each step after the span removals keeps a string free of complete spans of every kind. */
  lemma LaterStepsKeepNoMarkup(d: string)
    requires NoMarkup(d)
    ensures NoMarkup(DropNoteChars(d)) && NoMarkup(DotsToSpaces(d))
    ensures NoMarkup(Collapse(d)) && NoMarkup(Strip(d))
  {
    DropNoteCharsKeepsNoSpan(d, '[', ']');
    DropNoteCharsKeepsNoSpan(d, '<', '>');
    DropNoteCharsKeepsNoSpan(d, '{', '}');
    DropNoteCharsKeepsNoSpan(d, '(', ')');
    DotsKeepNoSpan(d, '[', ']');
    DotsKeepNoSpan(d, '<', '>');
    DotsKeepNoSpan(d, '{', '}');
    DotsKeepNoSpan(d, '(', ')');
    CollapseKeepsNoSpan(d, '[', ']');
    CollapseKeepsNoSpan(d, '<', '>');
    CollapseKeepsNoSpan(d, '{', '}');
    CollapseKeepsNoSpan(d, '(', ')');
    StripKeepsNoSpan(d, '[', ']');
    StripKeepsNoSpan(d, '<', '>');
    StripKeepsNoSpan(d, '{', '}');
    StripKeepsNoSpan(d, '(', ')');
  }

  /** Collapsing a string without note characters and dots leaves single plain spaces and adds neither. */
  lemma CollapseSpacing(f: string)
    requires NoteAndDotFree(f)
    ensures NoteAndDotFree(Collapse(f)) && OnlyPlainSpaces(Collapse(f)) && NoDoubleSpace(Collapse(f))
  {
    var g := Collapse(f);
    CollapseBlanks(f);
    CollapseSingle(f);
    CollapseKeepsAll(f, c => !IsNoteChar(c) && c != '.');
  }

  /** Stripping a string without note characters and dots whose only whitespace is single plain spaces leaves it tidy. */
  lemma StripTidy(g: string)
    requires NoteAndDotFree(g) && OnlyPlainSpaces(g) && NoDoubleSpace(g)
    ensures Tidy(Strip(g))
  {
    StripKeepsSpacing(g);
    StripKeepsChars(g);
    var r := Strip(g);
    forall i | 0 <= i < |r| ensures !IsNoteChar(r[i]) && r[i] != '.' {
      var j :| 0 <= j < |g| && g[j] == r[i];
    }
  }

  /**
   * Collapsing and then stripping a string without note characters and dots
   * leaves it tidy.
   */
  lemma StripCollapseTidy(f: string)
    requires NoteAndDotFree(f)
    ensures Tidy(Strip(Collapse(f)))
  {
    CollapseSpacing(f);
    StripTidy(Collapse(f));
  }

  /** Deleting note characters and turning dots into spaces leaves neither. */
  lemma NotesAndDotsGone(d: string)
    ensures NoteAndDotFree(DotsToSpaces(DropNoteChars(d)))
  {
    var e := DropNoteChars(d);
    var f := DotsToSpaces(e);
    forall i | 0 <= i < |f| ensures !IsNoteChar(f[i]) && f[i] != '.' {
      if e[i] != '.' {
        assert f[i] == e[i];
      }
    }
  }

  /**
   * A cleaned text part has no note characters, no dots, only single plain
   * spaces and none at its ends; when the text part has no newline, no
   * complete bracketed span is left either.
   */
  lemma CleanTextIsClean(t: string)
    ensures Tidy(CleanText(t)) && '\n' !in CleanText(t)
    ensures '\n' !in t ==> IsClean(CleanText(t))
  {
    var d := DropMarkup(t);
    NotesAndDotsGone(d);
    StripCollapseTidy(DotsToSpaces(DropNoteChars(d)));
    PlainSpacesNoNewline(CleanText(t));
    if '\n' !in t {
      CleanTextNoMarkup(t);
    }
  }

  /** On a newline-free text part, no complete bracketed span survives the cleaning. */
  lemma CleanTextNoMarkup(t: string)
    requires '\n' !in t
    ensures NoMarkup(CleanText(t))
  {
    var d := DropMarkup(t);
    DropMarkupLeavesNoMarkup(t);
    var e := DropNoteChars(d);
    LaterStepsKeepNoMarkup(d);
    var f := DotsToSpaces(e);
    LaterStepsKeepNoMarkup(e);
    var g := Collapse(f);
    LaterStepsKeepNoMarkup(f);
    LaterStepsKeepNoMarkup(g);
    assert CleanText(t) == Strip(g);
  }

  /** Cleaning leaves a clean string as it is. */
  lemma CleanTextKeepsClean(u: string)
    requires IsClean(u)
    ensures CleanText(u) == u
  {
    RemoveSpansNoSpan(u, '[', ']', true);
    RemoveSpansNoSpan(u, '<', '>', false);
    RemoveSpansNoSpan(u, '{', '}', true);
    RemoveSpansNoSpan(u, '(', ')', true);
    assert DropMarkup(u) == u;
    DropNoteCharsPlain(u);
    assert DotsToSpaces(u) == u;
    CollapseIdentity(u);
  }

  /** A string whose only whitespace is plain spaces has no newline. */
  lemma PlainSpacesNoNewline(s: string)
    requires OnlyPlainSpaces(s)
    ensures '\n' !in s
  {
    assert IsSpace('\n');
    assert forall i :: 0 <= i < |s| ==> s[i] != '\n';
  }

  /** The clean strings are exactly the fixed points of cleaning. */
  lemma CleanTextFixedPoints(u: string)
    ensures CleanText(u) == u <==> IsClean(u)
  {
    if IsClean(u) {
      CleanTextKeepsClean(u);
    }
    if CleanText(u) == u {
      CleanTextIsClean(u);
      PlainSpacesNoNewline(u);
    }
  }

  /** Cleaning a newline-free text part twice changes nothing. */
  lemma CleanTextIdempotent(t: string)
    requires '\n' !in t
    ensures CleanText(CleanText(t)) == CleanText(t)
  {
    CleanTextIsClean(t);
    CleanTextKeepsClean(CleanText(t));
  }

  /** The present results of `keep` over the lines, in order. */
  function KeptBy(keep: string -> Option<string>, lines: seq<string>): (r: seq<string>)
    ensures |r| <= |lines|
  {
    if lines == [] then []
    else
      var last := keep(lines[|lines| - 1]);
      KeptBy(keep, lines[..|lines| - 1]) + (if last.Some? then [last.value] else [])
  }

  /** A text is kept exactly when some line yields it. */
  lemma {:induction false} KeptByMembership(keep: string -> Option<string>, lines: seq<string>)
    ensures forall c :: c in KeptBy(keep, lines) <==> exists i :: 0 <= i < |lines| && keep(lines[i]) == Some(c)
  {
    if lines != [] {
      var init := lines[..|lines| - 1];
      KeptByMembership(keep, init);
      assert forall i :: 0 <= i < |init| ==> init[i] == lines[i];
    }
  }

  /** `cleaned_text_lines`: the non-empty cleaned lines, in file order. */
  function CleanedLines(lines: seq<string>): (r: seq<string>)
    ensures |r| <= |lines|
  {
    KeptBy(CleanLine, lines)
  }

  /** Each kept line is the cleaning of some source line, and every line that cleans to something is kept. */
  lemma CleanedLinesFromSource(lines: seq<string>)
    ensures forall c :: c in CleanedLines(lines) <==> exists i :: 0 <= i < |lines| && CleanLine(lines[i]) == Some(c)
  {
    KeptByMembership(CleanLine, lines);
  }

  /** Every kept line is non-empty and, for newline-free source lines, clean. */
  lemma CleanedLinesAreClean(lines: seq<string>)
    requires forall i :: 0 <= i < |lines| ==> '\n' !in lines[i]
    ensures forall c :: c in CleanedLines(lines) ==> c != [] && IsClean(c) && '\n' !in c
  {
    CleanedLinesFromSource(lines);
    forall c | c in CleanedLines(lines) ensures c != [] && IsClean(c) && '\n' !in c {
      var i :| 0 <= i < |lines| && CleanLine(lines[i]) == Some(c);
      CleanLineIsClean(lines[i]);
    }
  }

  /** A newline-free source line cleans to a clean line without newlines. */
  lemma CleanLineIsClean(line: string)
    requires '\n' !in line
    ensures CleanLine(line).Some? ==> IsClean(CleanLine(line).value) && '\n' !in CleanLine(line).value
  {
    if CleanLine(line).Some? {
      TextPartKeepsOut(line, '\n');
      CleanTextIsClean(TextPart(line).value);
    }
  }

  /** The text part holds no character the line does not. */
  lemma TextPartKeepsOut(line: string, x: char)
    requires x !in line
    ensures TextPart(line).Some? ==> x !in TextPart(line).value
  {
    if TextPart(line).Some? {
      var t := TextPart(line).value;
      var k := |line| - |t| - 1;
      assert forall j :: 0 <= j < |t| ==> t[j] == line[k + 1 + j];
    }
  }

  /**
   * `final_deep_cleaner`: the text written to the destination file, None when
   * the source file is missing and nothing is written.
   */
  method FinalDeepCleaner(source: Option<seq<string>>) returns (out: Option<string>)
    ensures out.None? <==> source.None?
    ensures out.Some? ==> out.value == Join(CleanedLines(source.value), '\n')
  {
    if source.None? {
      return None;
    }
    var lines := source.value;
    var cleaned := [];
    for i := 0 to |lines|
      invariant cleaned == CleanedLines(lines[..i])
    {
      assert lines[..i + 1][..i] == lines[..i];
      var line := lines[i];
      var stripped := Strip(line);
      if stripped == [] || stripped[0] == '#' {
        continue;
      }
      var part := TextPart(line);
      if part.None? {
        continue;
      }
      var c := CleanText(part.value);
      if c != [] {
        cleaned := cleaned + [c];
      }
    }
    assert lines[..|lines|] == lines;
    out := Some(Join(cleaned, '\n'));
  }

  /** Reading the output back line by line gives the kept lines; with none kept the output is empty. */
  lemma OutputLines(lines: seq<string>)
    requires forall i :: 0 <= i < |lines| ==> '\n' !in lines[i]
    ensures CleanedLines(lines) == [] ==> Join(CleanedLines(lines), '\n') == []
    ensures CleanedLines(lines) != [] ==> Split(Join(CleanedLines(lines), '\n'), '\n') == CleanedLines(lines)
  {
    var kept := CleanedLines(lines);
    if kept != [] {
      CleanedLinesAreClean(lines);
      assert forall k :: 0 <= k < |kept| ==> kept[k] in kept;
      SplitJoin(kept, '\n');
    }
  }
}
