/**
 * The lift calculation for one target root and one folio's labels. Every
 * word of the clean baseline corpus is counted under its longest root (or
 * under None when it has none). So is every non-empty piece of the folio's
 * label texts. The lift compares the target's share of the context with its
 * share of the baseline. The floating-point division itself is not modelled:
 * a computed lift is reported as the four counts it is made of.
 */
module Lift {
  import opened Wrappers
  import opened Text
  import opened Counters
  import opened LongestRoot
  import opened RootTracker

  /** The keys `Counter(find_longest_root(w, all_roots) for w in words)` counts: one per word. */
  function RootsOf(words: seq<string>, roots: seq<string>): seq<Option<string>> {
    if words == [] then []
    else RootsOf(words[..|words| - 1], roots) + [LongestRootIn(words[|words| - 1], roots)]
  }

  /** Each word contributes exactly one key, so the counts over all keys add up to the number of words. */
  lemma {:induction false} RootsOfLength(words: seq<string>, roots: seq<string>)
    ensures |RootsOf(words, roots)| == |words|
    ensures forall i :: 0 <= i < |words| ==> RootsOf(words, roots)[i] == LongestRootIn(words[i], roots)
  {
    if words != [] {
      var init := words[..|words| - 1];
      RootsOfLength(init, roots);
    }
  }

  /**
   * The baseline Counter's counts add up to the number of baseline words, over
   * any duplicate-free listing of the keys it can hold (None among them).
   */
  lemma BaselineCountsSumToWords(words: seq<string>, roots: seq<string>, keys: seq<Option<string>>)
    requires Distinct(keys)
    requires forall w :: w in words ==> LongestRootIn(w, roots) in keys
    ensures SumCounts(RootsOf(words, roots), keys) == |words|
  {
    RootsOfLength(words, roots);
    var xs := RootsOf(words, roots);
    forall x | x in xs ensures x in keys {
      var i :| 0 <= i < |xs| && xs[i] == x;
      assert words[i] in words;
    }
    CountsSumToLength(xs, keys);
  }

  /** `context_words`: the pieces of every matched label text, in order, empty pieces included. */
  function ContextWords(texts: seq<string>): seq<string> {
    if texts == [] then []
    else ContextWords(texts[..|texts| - 1]) + LabelWords(texts[|texts| - 1])
  }

  /** Every text adds at least one piece, so the context is empty exactly when no label matched. */
  lemma {:induction false} ContextEmptyIffNoLabels(texts: seq<string>)
    ensures ContextWords(texts) == [] <==> texts == []
    ensures |ContextWords(texts)| >= |texts|
  {
    if texts != [] {
      ContextEmptyIffNoLabels(texts[..|texts| - 1]);
    }
  }

  /** The line loop that extends `context_words` with each matched label's pieces. */
  method CollectContext(texts: seq<string>) returns (words: seq<string>)
    ensures words == ContextWords(texts)
  {
    words := [];
    for i := 0 to |texts|
      invariant words == ContextWords(texts[..i])
    {
      assert texts[..i + 1][..i] == texts[..i];
      words := words + LabelWords(texts[i]);
    }
    assert texts[..|texts|] == texts;
  }

  /** The words kept by `if w`: the non-empty ones, in order. */
  function NonEmpty(words: seq<string>): (r: seq<string>)
    ensures |r| <= |words|
    ensures forall w :: w in r <==> w in words && w != []
  {
    if words == [] then []
    else
      var init := words[..|words| - 1];
      var w := words[|words| - 1];
      assert words == init + [w];
      NonEmpty(init) + if w != [] then [w] else []
  }

  /** The keys of the context Counter. */
  function ContextRoots(words: seq<string>, roots: seq<string>): seq<Option<string>> {
    RootsOf(NonEmpty(words), roots)
  }

  /** Empty pieces change no context count. */
  lemma EmptyPiecesUncounted(words: seq<string>, roots: seq<string>, k: Option<string>)
    ensures Count(ContextRoots(words + [[]], roots), k) == Count(ContextRoots(words, roots), k)
  {
    var ws := words + [[]];
    assert ws[..|ws| - 1] == words;
    assert NonEmpty(ws) == NonEmpty(words) + [];
    assert NonEmpty(words) + [] == NonEmpty(words);
  }

  /** A target counted in the context occurs in some non-empty context word. */
  lemma {:induction false} CountedRootOccurs(words: seq<string>, roots: seq<string>, target: string)
    requires Count(ContextRoots(words, roots), Some(target)) > 0
    ensures target in roots
    ensures exists w :: w in words && w != [] && Occurs(target, w)
  {
    var ws := NonEmpty(words);
    RootsOfLength(ws, roots);
    var i :| 0 <= i < |ws| && RootsOf(ws, roots)[i] == Some(target);
    assert ws[i] in ws;
  }

  /** `corpus.split()`: the maximal runs of non-whitespace characters, in order. */
  function SplitWords(corpus: string): seq<string> {
    NonEmpty(Split(Collapse(corpus), ' '))
  }

  /** Every piece of a split is made of characters of the string. */
  lemma {:induction false} SplitChar(s: string, sep: char, k: nat, c: char)
    requires k < |Split(s, sep)| && c in Split(s, sep)[k]
    ensures c in s
  {
    var rest := Split(s[1..], sep);
    if s[0] == sep {
      SplitChar(s[1..], sep, k - 1, c);
    } else if k > 0 {
      SplitChar(s[1..], sep, k, c);
    } else if c != s[0] {
      assert c in rest[0];
      SplitChar(s[1..], sep, 0, c);
    }
  }

  /** The words of `split()` are non-empty, hold no whitespace and take their characters from the corpus. */
  lemma SplitWordsAreWords(corpus: string)
    ensures forall w :: w in SplitWords(corpus) ==> w != [] && forall c :: c in w ==> c in corpus && !IsSpace(c)
  {
    var parts := Split(Collapse(corpus), ' ');
    forall w | w in SplitWords(corpus)
      ensures w != [] && forall c :: c in w ==> c in corpus && !IsSpace(c)
    {
      var k :| 0 <= k < |parts| && parts[k] == w;
      forall c | c in w
        ensures c in corpus && !IsSpace(c)
      {
        CollapsedChar(corpus, k, c);
      }
    }
  }

  /** A character of a piece of the collapsed corpus is a non-whitespace character of the corpus. */
  lemma CollapsedChar(corpus: string, k: nat, c: char)
    requires k < |Split(Collapse(corpus), ' ')| && c in Split(Collapse(corpus), ' ')[k]
    ensures c in corpus && !IsSpace(c)
  {
    var collapsed := Collapse(corpus);
    SplitChar(collapsed, ' ', k, c);
    var i :| 0 <= i < |collapsed| && collapsed[i] == c;
    CollapseBlanks(corpus);
    CollapseKeepsAll(corpus, x => x in corpus || x == ' ');
  }

  /** `split()` words put back together with single spaces give the collapsed, stripped corpus. */
  lemma SplitWordsJoin(corpus: string)
    ensures Join(SplitWords(corpus), ' ') == Strip(Collapse(corpus))
  {
    var g := Collapse(corpus);
    CollapseBlanks(corpus);
    CollapseSingle(corpus);
    SplitStripped(g);
    StripKeepsSpacing(g);
    JoinTidySplit(Strip(g));
  }

  /** Single-spaced text with no end spaces is its non-empty pieces joined by spaces. */
  lemma JoinTidySplit(m: string)
    requires OnlyPlainSpaces(m) && NoDoubleSpace(m) && NoSpaceAtEnds(m)
    ensures Join(NonEmpty(Split(m, ' ')), ' ') == m
  {
    if m == [] {
      assert Split(m, ' ') == [[]];
      assert NonEmpty([[]]) == NonEmpty([]) + [];
    } else {
      SplitPiecesNonEmpty(m);
      NonEmptyAll(Split(m, ' '));
      JoinSplit(m, ' ');
    }
  }

  /** The end spaces of a single-spaced string only add empty pieces to its split. */
  lemma SplitStripped(g: string)
    requires OnlyPlainSpaces(g) && NoDoubleSpace(g)
    ensures NonEmpty(Split(g, ' ')) == NonEmpty(Split(Strip(g), ' '))
  {
    var t := StripLeft(g);
    var m := StripRight(t);
    if |g| > |t| {
      assert |g| < 2 || !(IsSpace(g[0]) && IsSpace(g[1]));
      assert |g| - |t| == 1;
      assert g == [' '] + t;
      LeadingSpaceAddsEmpty(t);
    }
    if |t| > |m| {
      SliceKeepsNoDoubleSpace(g, |g| - |t|, |g|);
      SliceKeepsPlainSpaces(g, |g| - |t|, |g|);
      assert |t| < 2 || !IsSpace(t[|t| - 1]) || !IsSpace(t[|t| - 2]);
      assert |t| - |m| == 1;
      assert t == m + [' '];
      TrailingSpaceAddsEmpty(m);
    }
  }

  lemma LeadingSpaceAddsEmpty(t: string)
    ensures NonEmpty(Split([' '] + t, ' ')) == NonEmpty(Split(t, ' '))
  {
    SplitSepAppend([], t, ' ');
    assert [] + [' '] + t == [' '] + t;
    NonEmptyAppend([[]], Split(t, ' '));
    assert NonEmpty([[]]) == NonEmpty([]) + [];
  }

  lemma TrailingSpaceAddsEmpty(m: string)
    ensures NonEmpty(Split(m + [' '], ' ')) == NonEmpty(Split(m, ' '))
  {
    SplitSepAppend(m, [], ' ');
    assert m + [' '] + [] == m + [' '];
    NonEmptyAppend(Split(m, ' '), [[]]);
    assert NonEmpty([[]]) == NonEmpty([]) + [];
  }

  /** Keeping the non-empty words of two stretches keeps those of each. */
  lemma {:induction false} NonEmptyAppend(a: seq<string>, b: seq<string>)
    ensures NonEmpty(a + b) == NonEmpty(a) + NonEmpty(b)
  {
    if b == [] {
      assert a + b == a;
    } else {
      var init := b[..|b| - 1];
      NonEmptyAppend(a, init);
      assert (a + b)[..|a + b| - 1] == a + init;
    }
  }

  /** Words that are all non-empty are all kept. */
  lemma {:induction false} NonEmptyAll(words: seq<string>)
    requires forall k :: 0 <= k < |words| ==> words[k] != []
    ensures NonEmpty(words) == words
  {
    if words != [] {
      NonEmptyAll(words[..|words| - 1]);
    }
  }

  /** What `calculate_final_lift` reports. */
  datatype Outcome =
    | NoLexicon        // the roots lexicon is missing or has no entries
    | NoBaseline       // the baseline corpus is missing
    | NoTranscription  // the transcription is missing
    | NotComputable    // the target never occurs in the baseline, or there is no context word
    | ZeroLift         // the target never occurs in the context: the lift is set to 0
    | Lift(observed: nat, contextSize: nat, expected: nat, baselineSize: nat)
      // (observed / contextSize) / (expected / baselineSize)

  /** The target's count over the baseline words. */
  function Expected(target: string, roots: seq<string>, baseline: seq<string>): nat {
    Count(RootsOf(baseline, roots), Some(target))
  }

  /** The target's count over the non-empty context words. */
  function Observed(target: string, roots: seq<string>, texts: seq<string>): nat {
    Count(ContextRoots(ContextWords(texts), roots), Some(target))
  }

  /**
   * `calculate_final_lift`. `baseline` is the text of the baseline corpus,
   * `texts` the label texts the folio's marker pattern matched, each None
   * when its file is missing.
   */
  method CalculateLift(target: string, rootsFile: Option<seq<string>>, baseline: Option<string>, texts: Option<seq<string>>)
    returns (outcome: Outcome)
    ensures outcome == NoLexicon <==> rootsFile.None? || EntryKeys(rootsFile.value) == []
    ensures outcome == NoBaseline <==> outcome != NoLexicon && baseline.None?
    ensures outcome == NoTranscription <==> outcome != NoLexicon && baseline.Some? && texts.None?
    ensures outcome.NotComputable? || outcome.ZeroLift? || outcome.Lift? ==>
      rootsFile.Some? && baseline.Some? && texts.Some? && EntryKeys(rootsFile.value) != []
    ensures rootsFile.Some? && baseline.Some? && texts.Some? && EntryKeys(rootsFile.value) != [] ==>
      var roots := SortByLength(EntryKeys(rootsFile.value));
      var expected := Expected(target, roots, SplitWords(baseline.value));
      var observed := Observed(target, roots, texts.value);
      && (outcome.NotComputable? <==> expected == 0 || texts.value == [])
      && (outcome.ZeroLift? <==> expected > 0 && texts.value != [] && observed == 0)
      && (outcome.Lift? <==> expected > 0 && texts.value != [] && observed > 0)
      && (outcome.Lift? ==> outcome == Lift(observed, |ContextWords(texts.value)|, expected, |SplitWords(baseline.value)|))
  {
    var roots := LoadRoots(rootsFile);
    if roots.None? || roots.value == [] {
      if rootsFile.Some? {
        assert |multiset(roots.value)| == 0;
      }
      return NoLexicon;
    }
    assert |multiset(EntryKeys(rootsFile.value))| > 0;
    if baseline.None? {
      return NoBaseline;
    }
    var baselineWords := SplitWords(baseline.value);
    var baselineCounts := Tally(RootsOf(baselineWords, roots.value));
    if texts.None? {
      return NoTranscription;
    }
    var context := CollectContext(texts.value);
    ContextEmptyIffNoLabels(texts.value);
    var contextCounts := Tally(ContextRoots(context, roots.value));
    var observed := Get(contextCounts, Some(target));
    var expected := Get(baselineCounts, Some(target));
    if expected == 0 || context == [] {
      return NotComputable;
    }
    if observed == 0 {
      return ZeroLift;
    }
    outcome := Lift(observed, |context|, expected, |baselineWords|);
  }

  /** A computed lift has every count positive, so both frequencies and their ratio are defined. */
  lemma LiftCountsPositive(target: string, roots: seq<string>, baseline: seq<string>, texts: seq<string>)
    requires Expected(target, roots, baseline) > 0 && texts != []
    ensures |baseline| > 0 && |ContextWords(texts)| > 0
    ensures Observed(target, roots, texts) <= |ContextWords(texts)|
    ensures Expected(target, roots, baseline) <= |baseline|
  {
    RootsOfLength(baseline, roots);
    ContextEmptyIffNoLabels(texts);
    RootsOfLength(NonEmpty(ContextWords(texts)), roots);
  }
}
