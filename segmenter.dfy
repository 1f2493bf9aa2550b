/**
 * Manuscript segmentation: the transcription is split at its folio markers
 * (`<f12r>`, `<f102v>`), each folio name becomes a number (ten times the
 * folio, plus one for a verso), each page's text is cleaned and appended to
 * the thematic section whose folio range holds that number, and every
 * section that received text is saved.
 */
module Segmenter {
  import opened Wrappers
  import opened Text
  import opened Spans
  import opened SpanSpacing

  /** The length of the run of ASCII digits at the start of `s`. */
  function DigitRun(s: string): (n: nat)
    ensures n <= |s| && forall i :: 0 <= i < n ==> IsDigit(s[i])
    ensures n < |s| ==> !IsDigit(s[n])
  {
    if s != [] && IsDigit(s[0]) then 1 + DigitRun(s[1..]) else 0
  }

  predicate IsSide(c: char) {
    c == 'r' || c == 'v'
  }

  /**
   * `get_folio_id`: `re.match(r'f(\d+)([rv])', folio)` reads 'f', the digits
   * and a side at the start of the name (whatever follows is ignored);
   * the number is ten times the folio, plus one for 'v'.
   */
  function FolioId(folio: string): (r: Option<nat>)
    ensures r.Some? ==> r.value % 10 <= 1
  {
    if folio == [] || folio[0] != 'f' then None
    else
      var n := DigitRun(folio[1..]);
      if n == 0 || n + 1 >= |folio| || !IsSide(folio[n + 1]) then None
      else Some(DecimalValue(folio[1..n + 1]) * 10 + (if folio[n + 1] == 'v' then 1 else 0))
  }

  /** The name of folio `n`, side `side`, followed by anything, reads back as its number. */
  lemma FolioIdRoundTrip(n: nat, side: char, rest: string)
    requires IsSide(side)
    ensures FolioId("f" + Decimal(n) + [side] + rest) == Some(n * 10 + if side == 'v' then 1 else 0)
  {
    var digits := Decimal(n);
    var folio := "f" + digits + [side] + rest;
    assert folio[1..] == digits + ([side] + rest);
    DigitRunOf(digits, [side] + rest);
    assert DigitRun(folio[1..]) == |digits|;
    assert folio[0] == 'f' && folio[|digits| + 1] == side;
    assert folio[1..|digits| + 1] == digits;
    DecimalRoundTrip(n);
  }

  lemma {:induction false} DigitRunOf(digits: string, rest: string)
    requires forall i :: 0 <= i < |digits| ==> IsDigit(digits[i])
    requires rest == [] || !IsDigit(rest[0])
    ensures DigitRun(digits + rest) == |digits|
  {
    if digits != [] {
      assert (digits + rest)[1..] == digits[1..] + rest;
      DigitRunOf(digits[1..], rest);
    } else {
      assert digits + rest == rest;
    }
  }

  /** A folio number decodes back to the name it came from: its digits give the tenth, the side the last digit. */
  lemma FolioIdDecodes(folio: string)
    requires FolioId(folio).Some?
    ensures var n := DigitRun(folio[1..]);
      && folio[0] == 'f' && n >= 1 && n + 1 < |folio|
      && FolioId(folio).value / 10 == DecimalValue(folio[1..n + 1])
      && (FolioId(folio).value % 10 == 1 <==> folio[n + 1] == 'v')
      && (FolioId(folio).value % 10 == 0 <==> folio[n + 1] == 'r')
  {
  }

  /** Python's `s.strip('<>')`. */
  function StripBrackets(s: string): (r: string)
    ensures |r| <= |s|
  {
    if s != [] && (s[0] == '<' || s[0] == '>') then StripBrackets(s[1..])
    else if s != [] && (s[|s| - 1] == '<' || s[|s| - 1] == '>') then StripBrackets(s[..|s| - 1])
    else s
  }

  /** The length of the folio marker `<f\d+[rv]>` at the start of `s`, if there is one. */
  function MarkerLength(s: string): (r: Option<nat>)
    ensures r.Some? ==> 5 <= r.value <= |s|
  {
    if |s| < 2 || s[0] != '<' || s[1] != 'f' then None
    else
      var n := DigitRun(s[2..]);
      if n == 0 || n + 3 >= |s| || !IsSide(s[n + 2]) || s[n + 3] != '>' then None
      else Some(n + 4)
  }

  /**
   * `re.split(r'(<f\d+[rv]>)', text)` read as its leading text and its
   * (marker, text) pairs: markers are found left to right, without overlap.
   */
  function Chunks(s: string): (r: (string, seq<(string, string)>))
    ensures forall k :: 0 <= k < |r.1| ==> MarkerLength(r.1[k].0) == Some(|r.1[k].0|)
    decreases |s|
  {
    if s == [] then ([], [])
    else
      match MarkerLength(s)
      case Some(n) =>
        var rest := Chunks(s[n..]);
        MarkerAlone(s, n);
        var pages := [(s[..n], rest.0)] + rest.1;
        assert forall k :: 0 < k < |pages| ==> pages[k] == rest.1[k - 1];
        ([], pages)
      case None =>
        var rest := Chunks(s[1..]);
        ([s[0]] + rest.0, rest.1)
  }

  /** A marker found at the start of a string is found alone too. */
  lemma MarkerAlone(s: string, n: nat)
    requires MarkerLength(s) == Some(n)
    ensures MarkerLength(s[..n]) == Some(n)
  {
    var t := s[..n];
    var d := DigitRun(s[2..]);
    assert t[2..] == s[2..][..n - 2];
    DigitRunPrefix(s[2..], n - 2);
    assert t[0] == s[0] && t[1] == s[1] && t[d + 2] == s[d + 2] && t[d + 3] == s[d + 3];
  }

  /** The pieces of a split, put back together. */
  function Unsplit(before: string, pages: seq<(string, string)>): string
    decreases |pages|
  {
    if pages == [] then before else before + pages[0].0 + Unsplit(pages[0].1, pages[1..])
  }

  /** Splitting at the markers loses nothing: the pieces make up the whole text. */
  lemma {:induction false} ChunksLoseNothing(s: string)
    ensures Unsplit(Chunks(s).0, Chunks(s).1) == s
    decreases |s|
  {
    if s != [] {
      match MarkerLength(s)
      case Some(n) =>
        var rest := Chunks(s[n..]);
        assert Chunks(s) == ([], [(s[..n], rest.0)] + rest.1);
        UnsplitMarker(s[..n], rest.0, rest.1);
        ChunksLoseNothing(s[n..]);
        assert s[..n] + s[n..] == s;
      case None =>
        var rest := Chunks(s[1..]);
        assert Chunks(s) == ([s[0]] + rest.0, rest.1);
        UnsplitCons(s[0], rest.0, rest.1);
        ChunksLoseNothing(s[1..]);
        assert [s[0]] + s[1..] == s;
    }
  }

  /** A page in front puts its marker, then its text and the rest, after an empty leading text. */
  lemma UnsplitMarker(marker: string, text: string, pages: seq<(string, string)>)
    ensures Unsplit([], [(marker, text)] + pages) == marker + Unsplit(text, pages)
  {
    var ps := [(marker, text)] + pages;
    assert ps[0] == (marker, text) && ps[1..] == pages;
    assert [] + marker + Unsplit(text, pages) == marker + Unsplit(text, pages);
  }

  /** A character in front of the leading text stays in front of the whole. */
  lemma UnsplitCons(c: char, before: string, pages: seq<(string, string)>)
    ensures Unsplit([c] + before, pages) == [c] + Unsplit(before, pages)
  {
    if pages != [] {
      var u := Unsplit(pages[0].1, pages[1..]);
      assert [c] + before + pages[0].0 + u == [c] + (before + pages[0].0 + u);
    }
  }

  /** Stripping a marker's angle brackets leaves what is between them. */
  lemma StripMarker(marker: string)
    requires |marker| >= 3 && marker[0] == '<' && marker[|marker| - 1] == '>'
    requires marker[1] != '<' && marker[1] != '>' && marker[|marker| - 2] != '<' && marker[|marker| - 2] != '>'
    ensures StripBrackets(marker) == marker[1..|marker| - 1]
  {
    var tail := marker[1..];
    var inner := marker[1..|marker| - 1];
    assert StripBrackets(marker) == StripBrackets(tail);
    assert tail[..|tail| - 1] == inner;
    assert StripBrackets(tail) == StripBrackets(inner);
  }

  /** Every marker the split finds names a folio, once its angle brackets are stripped. */
  lemma MarkerNamesFolio(marker: string)
    requires MarkerLength(marker) == Some(|marker|)
    ensures FolioId(StripBrackets(marker)).Some?
  {
    var n := DigitRun(marker[2..]);
    assert n >= 1 && |marker| == n + 4 && IsSide(marker[n + 2]) && marker[n + 3] == '>';
    assert marker[1] == 'f' && marker[|marker| - 2] == marker[n + 2];
    StripMarker(marker);
    MarkerInnerFolio(marker, n);
  }

  /** Between the angle brackets of a marker is a folio name. */
  lemma MarkerInnerFolio(marker: string, n: nat)
    requires |marker| == n + 4 && n == DigitRun(marker[2..]) && n >= 1
    requires marker[1] == 'f' && IsSide(marker[n + 2])
    ensures FolioId(marker[1..|marker| - 1]).Some?
  {
    var digitsAndMore := marker[2..];
    var inner := marker[1..|marker| - 1];
    var name := digitsAndMore[..n + 1];
    assert inner[1..] == name;
    DigitRunPrefix(digitsAndMore, n + 1);
    assert inner[0] == 'f' && inner[n + 1] == marker[n + 2];
    FolioIdOf(inner, n);
  }

  lemma FolioIdOf(folio: string, n: nat)
    requires folio != [] && folio[0] == 'f'
    requires n == DigitRun(folio[1..]) && n >= 1 && n + 1 < |folio| && IsSide(folio[n + 1])
    ensures FolioId(folio).Some?
  {
  }

  /** Cutting a string after the end of its leading digit run keeps the run. */
  lemma {:induction false} DigitRunPrefix(s: string, k: nat)
    requires DigitRun(s) < k <= |s|
    ensures DigitRun(s[..k]) == DigitRun(s)
  {
    if IsDigit(s[0]) {
      assert s[..k][1..] == s[1..][..k - 1];
      DigitRunPrefix(s[1..], k - 1);
    }
  }


  datatype Section = Botanical | Astronomical | Biological | Pharmacological | TextOnly

  /** The sections in the order the mapping lists them. */
  const Sections: seq<Section> := [Botanical, Astronomical, Biological, Pharmacological, TextOnly]

  /** The inclusive folio-number range of each section. */
  function Bounds(section: Section): (nat, nat) {
    match section
    case Botanical => (11, 571)
    case Astronomical => (670, 731)
    case Biological => (750, 841)
    case Pharmacological => (870, 1021)
    case TextOnly => (1030, 1161)
  }

  predicate InSection(id: nat, section: Section) {
    Bounds(section).0 <= id <= Bounds(section).1
  }

  /** The first listed section whose range holds `id`. */
  function FirstSection(sections: seq<Section>, id: nat): (r: Option<Section>)
    ensures r.Some? ==> r.value in sections && InSection(id, r.value)
    ensures r.None? <==> forall s :: s in sections ==> !InSection(id, s)
  {
    if sections == [] then None
    else if InSection(id, sections[0]) then Some(sections[0])
    else FirstSection(sections[1..], id)
  }

  function SectionOf(id: nat): Option<Section> {
    FirstSection(Sections, id)
  }

  /** The ranges do not overlap, so a folio belongs to a section exactly when its number is in that range. */
  lemma SectionOfExactly(id: nat, section: Section)
    ensures SectionOf(id) == Some(section) <==> InSection(id, section)
  {
    assert section in Sections;
  }

  /** The first recto, f1r, and the folios between f57v and f67r belong to no section. */
  lemma UnmappedFolios(id: nat)
    requires id == 10 || 571 < id < 670
    ensures SectionOf(id) == None
  {
  }

  /** The inner loop over the mapping: the first section whose range holds `id`. */
  method FindSection(id: nat) returns (found: Option<Section>)
    ensures found == SectionOf(id)
  {
    found := None;
    for k := 0 to |Sections|
      invariant forall j :: 0 <= j < k ==> !InSection(id, Sections[j])
    {
      var (start, end) := Bounds(Sections[k]);
      if start <= id <= end {
        found := Some(Sections[k]);
        assert forall s :: s in Sections[..k] ==> !InSection(id, s);
        FirstSectionAfter(Sections, k, id);
        return;
      }
    }
  }

  lemma {:induction false} FirstSectionAfter(sections: seq<Section>, k: nat, id: nat)
    requires k < |sections| && InSection(id, sections[k])
    requires forall j :: 0 <= j < k ==> !InSection(id, sections[j])
    ensures FirstSection(sections, id) == Some(sections[k])
  {
    if k > 0 {
      FirstSectionAfter(sections[1..], k - 1, id);
    }
  }

  /**
   * How many characters of `t` the next match of `\{.*?\}|\[.*?\]|\n`
   * starting at its first character takes: the whole comment, the newline,
   * or (when nothing matches there) the one character kept.
   */
  function ScrubSkip(t: string): (n: nat)
    requires t != []
    ensures 1 <= n <= |t|
  {
    if t[0] == '{' && FindClose(t[1..], '}', true).Some? then FindClose(t[1..], '}', true).value + 2
    else if t[0] == '[' && FindClose(t[1..], ']', true).Some? then FindClose(t[1..], ']', true).value + 2
    else 1
  }

  /** What the first `ScrubSkip(t)` characters become: a space for a match, else the character itself. */
  function ScrubHead(t: string): (c: char)
    requires t != []
    ensures c != '\n' && (c == ' ' || c == t[0])
  {
    if ScrubSkip(t) > 1 || t[0] == '\n' then ' ' else t[0]
  }

  /** `re.sub(r'\{.*?\}|\[.*?\]|\n', ' ', t)`: each brace comment, bracket comment or newline becomes a space. */
  function Scrub(t: string): (r: string)
    ensures |r| <= |t| && '\n' !in r
    decreases |t|
  {
    if t == [] then [] else [ScrubHead(t)] + Scrub(t[ScrubSkip(t)..])
  }

  /** A page with no braces, brackets or newlines goes through scrubbing unchanged. */
  lemma {:induction false} ScrubPlain(t: string)
    requires '{' !in t && '[' !in t && '\n' !in t
    ensures Scrub(t) == t
  {
    if t != [] {
      ScrubPlain(t[1..]);
      assert [t[0]] + t[1..] == t;
    }
  }

  /** Scrubbing only deletes characters or turns them into spaces. */
  lemma {:induction false} ScrubChars(t: string)
    ensures forall c :: c in Scrub(t) ==> c in t || c == ' '
    decreases |t|
  {
    if t != [] {
      var n := ScrubSkip(t);
      ScrubChars(t[n..]);
      assert forall c :: c in t[n..] ==> c in t;
    }
  }

  /** On one line, scrubbing leaves no complete brace or bracket comment. */
  lemma {:induction false} ScrubLeavesNoSpan(t: string)
    requires '\n' !in t
    ensures NoSpan(Scrub(t), '{', '}') && NoSpan(Scrub(t), '[', ']')
    decreases |t|
  {
    if t != [] {
      var n := ScrubSkip(t);
      var rest := t[n..];
      assert forall c :: c in rest ==> c in t;
      ScrubLeavesNoSpan(rest);
      if n == 1 && t[0] in "{[" {
        ScrubChars(rest);
        FindCloseNoNewline(rest, '}');
        FindCloseNoNewline(rest, ']');
      }
      NoSpanCons(ScrubHead(t), Scrub(rest), '{', '}');
      NoSpanCons(ScrubHead(t), Scrub(rest), '[', ']');
    }
  }

  /** The first step on a line followed by a newline is the step on the line alone. */
  lemma ScrubStepBeforeNewline(a: string, b: string)
    requires '\n' !in a && a != []
    ensures ScrubSkip(a + "\n" + b) == ScrubSkip(a) && ScrubHead(a + "\n" + b) == ScrubHead(a)
  {
    assert (a + "\n" + b)[1..] == a[1..] + "\n" + b;
    assert forall c :: c in a[1..] ==> c in a;
    FindCloseBeforeNewline(a[1..], b, '}');
    FindCloseBeforeNewline(a[1..], b, ']');
  }

  /** A newline becomes a space and the lines on either side are scrubbed apart. */
  lemma {:induction false} ScrubLines(a: string, b: string)
    requires '\n' !in a
    ensures Scrub(a + "\n" + b) == Scrub(a) + " " + Scrub(b)
    decreases |a|
  {
    var t := a + "\n" + b;
    if a == [] {
      assert t[0] == '\n' && t[1..] == b;
    } else {
      ScrubStepBeforeNewline(a, b);
      var n := ScrubSkip(a);
      var tail := a[n..];
      assert Scrub(t[n..]) == Scrub(tail) + " " + Scrub(b) by {
        assert t[n..] == tail + "\n" + b;
        NoNewlineInTail(a, n);
        ScrubLines(tail, b);
      }
      AppendAround([ScrubHead(a)], Scrub(tail), Scrub(b));
    }
  }

  lemma AppendAround(h: string, x: string, y: string)
    ensures h + (x + " " + y) == (h + x) + " " + y
  {
  }

  lemma NoNewlineInTail(a: string, i: nat)
    requires '\n' !in a && i <= |a|
    ensures '\n' !in a[i..]
  {
    assert forall k :: 0 <= k < |a| - i ==> a[i..][k] == a[i + k];
  }

  /** Text with no comment opener and no newline is kept as it is. */
  lemma {:induction false} ScrubKeepsPrefix(u: string, w: string)
    requires '{' !in u && '[' !in u && '\n' !in u
    ensures Scrub(u + w) == u + Scrub(w)
  {
    if u != [] {
      var t := u + w;
      assert u[0] in u;
      assert t[0] == u[0] && t[1..] == u[1..] + w;
      assert ScrubSkip(t) == 1 && ScrubHead(t) == u[0];
      ScrubKeepsPrefix(u[1..], w);
      AppendAfterHead(u, Scrub(w));
    } else {
      assert u + w == w;
    }
  }

  lemma AppendAfterHead(u: string, r: string)
    requires u != []
    ensures [u[0]] + (u[1..] + r) == u + r
  {
    assert [u[0]] + u[1..] == u;
  }

  /** A one-line comment at the start becomes one space, and the text after it is scrubbed. */
  lemma ScrubComment(open: char, close: char, v: string, w: string)
    requires (open, close) == ('{', '}') || (open, close) == ('[', ']')
    requires close !in v && '\n' !in v
    ensures Scrub([open] + v + [close] + w) == " " + Scrub(w)
  {
    var t := [open] + v + [close] + w;
    assert t[0] == open && t[1..] == v + [close] + w;
    FindCloseAt(v, w, close, true);
    assert ScrubSkip(t) == |v| + 2 && ScrubHead(t) == ' ';
    assert t[|v| + 2..] == w;
  }

  /**
   * A one-line brace or bracket comment becomes one space, and what surrounds
   * it is kept: the text before it unchanged, the text after it scrubbed.
   */
  lemma ScrubAround(u: string, open: char, close: char, v: string, w: string)
    requires (open, close) == ('{', '}') || (open, close) == ('[', ']')
    requires '{' !in u && '[' !in u && '\n' !in u
    requires close !in v && '\n' !in v
    ensures Scrub(u + [open] + v + [close] + w) == u + " " + Scrub(w)
  {
    var comment := [open] + v + [close] + w;
    calc {
      Scrub(u + [open] + v + [close] + w);
    == { GroupAfter(u, [open], v, [close], w); }
      Scrub(u + comment);
    == { ScrubKeepsPrefix(u, comment); }
      u + Scrub(comment);
    == { ScrubComment(open, close, v, w); }
      u + (" " + Scrub(w));
    }
  }

  lemma GroupAfter(u: string, a: string, v: string, b: string, w: string)
    ensures u + a + v + b + w == u + (a + v + b + w)
  {
  }

  /** A comment broken by a line break is not removed: its newline becomes a space and its brackets stay. */
  lemma ScrubSplitComment()
    ensures Scrub("{a\n}") == "{a }"
  {
    var t := "{a\n}";
    assert t[1..] == "a\n}" && t[2..] == "\n}" && t[3..] == "}" && t[4..] == [];
    assert FindClose(t[1..], '}', true) == None;
    assert Scrub(t[4..]) == [];
    assert Scrub(t[3..]) == "}";
    assert Scrub(t[2..]) == " }";
    assert Scrub(t[1..]) == "a }";
  }

  /** The page cleaning: scrub, collapse whitespace, strip, and end with one space. */
  function CleanPage(t: string): (r: string)
    ensures |r| >= 1 && r[|r| - 1] == ' '
    ensures |r| <= |t| + 1
  {
    var scrubbed := Scrub(t);
    var collapsed := Collapse(scrubbed);
    Strip(collapsed) + " "
  }

  /** A cleaned page is its text on one line, single-spaced, with exactly one trailing space. */
  lemma CleanPageShape(t: string)
    ensures var r := CleanPage(t);
      && OnlyPlainSpaces(r)
      && NoDoubleSpace(r)
      && (|r| == 1 || !IsSpace(r[0]))
  {
    var c := Collapse(Scrub(t));
    CollapseBlanks(Scrub(t));
    CollapseSingle(Scrub(t));
    StripKeepsSpacing(c);
    SpaceAfterShape(Strip(c));
  }

  /** A cleaned one-line page holds no complete brace or bracket comment. */
  lemma CleanPageNoComments(t: string)
    requires '\n' !in t
    ensures NoSpan(CleanPage(t), '{', '}') && NoSpan(CleanPage(t), '[', ']')
  {
    ScrubLeavesNoSpan(t);
    var c := Collapse(Scrub(t));
    CollapseKeepsNoSpan(Scrub(t), '{', '}');
    CollapseKeepsNoSpan(Scrub(t), '[', ']');
    StripKeepsNoSpan(c, '{', '}');
    StripKeepsNoSpan(c, '[', ']');
    NoSpanSpaceAfter(Strip(c), '{', '}');
    NoSpanSpaceAfter(Strip(c), '[', ']');
  }

  /** A trailing space closes no span. */
  lemma NoSpanSpaceAfter(s: string, open: char, close: char)
    requires close != ' ' && NoSpan(s, open, close)
    ensures NoSpan(s + " ", open, close)
  {
    var r := s + " ";
    assert forall i :: 0 <= i < |s| ==> r[i] == s[i];
  }

  /** A single-spaced string without end spaces, followed by one space, is still single-spaced. */
  lemma SpaceAfterShape(core: string)
    requires OnlyPlainSpaces(core) && NoDoubleSpace(core) && NoSpaceAtEnds(core)
    ensures var r := core + " ";
      && OnlyPlainSpaces(r)
      && NoDoubleSpace(r)
      && (|r| == 1 || !IsSpace(r[0]))
  {
    var r := core + " ";
    assert forall i :: 0 <= i < |core| ==> r[i] == core[i];
  }

  /** Text that is already single-spaced on one line, with no comments, is kept as it is, plus the trailing space. */
  lemma CleanPagePlain(t: string)
    requires '{' !in t && '[' !in t && '\n' !in t
    requires NoSpaceAtEnds(t) && NoDoubleSpace(t) && OnlyPlainSpaces(t)
    ensures CleanPage(t) == t + " "
  {
    ScrubPlain(t);
    CollapseIdentity(t);
  }

  /** The section a page's marker assigns it to, if any. */
  function PageSection(marker: string): Option<Section> {
    match FolioId(StripBrackets(marker))
    case None => None
    case Some(id) => SectionOf(id)
  }

  /** The text accumulated for `section`: its pages' cleaned text, in order. */
  function SectionText(pages: seq<(string, string)>, section: Section): string {
    if pages == [] then []
    else
      var last := pages[|pages| - 1];
      SectionText(pages[..|pages| - 1], section) + if PageSection(last.0) == Some(section) then CleanPage(last.1) else []
  }

  /** The number of pages assigned to some section. */
  function Processed(pages: seq<(string, string)>): (n: nat)
    ensures n <= |pages|
  {
    if pages == [] then 0
    else Processed(pages[..|pages| - 1]) + if PageSection(pages[|pages| - 1].0).Some? then 1 else 0
  }

  /** The number of pages assigned to `section`. */
  function PagesIn(pages: seq<(string, string)>, section: Section): nat {
    if pages == [] then 0
    else PagesIn(pages[..|pages| - 1], section) + if PageSection(pages[|pages| - 1].0) == Some(section) then 1 else 0
  }

  /** Every processed page is counted in exactly one section. */
  lemma {:induction false} ProcessedIsSectionSum(pages: seq<(string, string)>)
    ensures Processed(pages) == PagesIn(pages, Botanical) + PagesIn(pages, Astronomical) + PagesIn(pages, Biological)
                                + PagesIn(pages, Pharmacological) + PagesIn(pages, TextOnly)
  {
    if pages != [] {
      ProcessedIsSectionSum(pages[..|pages| - 1]);
    }
  }

  /** Some page is assigned to `section`. */
  predicate HasPage(pages: seq<(string, string)>, section: Section) {
    exists k :: 0 <= k < |pages| && PageSection(pages[k].0) == Some(section)
  }

  /** A page is assigned to `section` in the earlier pages or it is the last one. */
  lemma HasPageLast(pages: seq<(string, string)>, section: Section)
    requires pages != []
    ensures HasPage(pages, section) <==> HasPage(pages[..|pages| - 1], section) || PageSection(pages[|pages| - 1].0) == Some(section)
  {
    assert pages == pages[..|pages| - 1] + [pages[|pages| - 1]];
    SomeLast(pages, pages[..|pages| - 1], pages[|pages| - 1], (page: (string, string)) => PageSection(page.0) == Some(section));
  }

  /** An element satisfying `p` is among the earlier elements or is the last one. */
  lemma SomeLast<T>(xs: seq<T>, init: seq<T>, last: T, p: T -> bool)
    requires xs == init + [last]
    ensures (exists k :: 0 <= k < |xs| && p(xs[k])) <==> (exists k :: 0 <= k < |init| && p(init[k])) || p(last)
  {
    if exists k :: 0 <= k < |xs| && p(xs[k]) {
      var k :| 0 <= k < |xs| && p(xs[k]);
      if k < |init| {
        assert init[k] == xs[k];
      }
    }
    if exists k :: 0 <= k < |init| && p(init[k]) {
      var k :| 0 <= k < |init| && p(init[k]);
      assert xs[k] == init[k];
    }
    assert xs[|init|] == last;
  }

  /** A section has text exactly when some page was assigned to it. */
  lemma {:induction false} SectionTextNonEmpty(pages: seq<(string, string)>, section: Section)
    ensures SectionText(pages, section) != [] <==> HasPage(pages, section)
  {
    if pages != [] {
      var init := pages[..|pages| - 1];
      var last := pages[|pages| - 1];
      SectionTextNonEmpty(init, section);
      HasPageLast(pages, section);
      assert SectionText(pages, section) ==
        SectionText(init, section) + if PageSection(last.0) == Some(section) then CleanPage(last.1) else [];
    }
  }

  /** The page loop: every section's accumulated text and the processed-page count. */
  method SegmentPages(pages: seq<(string, string)>) returns (texts: map<Section, string>, processed: nat)
    ensures forall s: Section :: s in texts && texts[s] == SectionText(pages, s)
    ensures processed == Processed(pages)
  {
    texts := map[Botanical := [], Astronomical := [], Biological := [], Pharmacological := [], TextOnly := []];
    processed := 0;
    assert pages[..0] == [];
    forall s: Section
      ensures s in texts && texts[s] == SectionText(pages[..0], s)
    {
      match s
      case Botanical =>
      case Astronomical =>
      case Biological =>
      case Pharmacological =>
      case TextOnly =>
    }
    for i := 0 to |pages|
      invariant forall s: Section :: s in texts && texts[s] == SectionText(pages[..i], s)
      invariant processed == Processed(pages[..i])
    {
      PageStep(pages, i);
      var (marker, content) := pages[i];
      var folio := StripBrackets(marker);
      var id := FolioId(folio);
      if id.None? {
        continue;
      }
      var cleaned := Strip(Collapse(Scrub(content))) + " ";
      var found := FindSection(id.value);
      assert found == PageSection(marker);
      if found.Some? {
        texts := texts[found.value := texts[found.value] + cleaned];
        processed := processed + 1;
      }
    }
    assert pages[..|pages|] == pages;
  }

  /** One more page adds its cleaned text to its section's text, and one to the count when it has a section. */
  lemma PageStep(pages: seq<(string, string)>, i: nat)
    requires i < |pages|
    ensures forall s ::
      SectionText(pages[..i + 1], s) == SectionText(pages[..i], s) + (if PageSection(pages[i].0) == Some(s) then CleanPage(pages[i].1) else [])
    ensures Processed(pages[..i + 1]) == Processed(pages[..i]) + if PageSection(pages[i].0).Some? then 1 else 0
  {
    assert pages[..i + 1][..i] == pages[..i];
  }

  /** The files saved: each section that received text, stripped. */
  function SavedSections(texts: map<Section, string>): map<Section, string> {
    map s | s in texts && texts[s] != [] :: Strip(texts[s])
  }

  /**
   * `segment_manuscript`: split, run the page loop, save. Nothing is saved
   * when the transcription is missing; otherwise a section is saved exactly
   * when one of its pages occurs.
   */
  method SegmentManuscript(transcription: Option<string>) returns (saved: Option<map<Section, string>>, processed: nat)
    ensures transcription.None? ==> saved.None? && processed == 0
    ensures transcription.Some? ==> var pages := Chunks(transcription.value).1;
      && processed == Processed(pages)
      && saved.Some?
      && (forall s: Section :: s in saved.value <==> HasPage(pages, s))
      && (forall s :: s in saved.value ==> saved.value[s] == Strip(SectionText(pages, s)))
  {
    if transcription.None? {
      return None, 0;
    }
    var pages := Chunks(transcription.value).1;
    var texts;
    texts, processed := SegmentPages(pages);
    saved := Some(SavedSections(texts));
    forall s: Section
      ensures s in saved.value <==> HasPage(pages, s)
    {
      SectionTextNonEmpty(pages, s);
    }
  }
}
