/**
 * Lexicon construction: the unique lowercase words of the corpus are peeled
 * (whole-word fallback), every present prefix, root and suffix is counted once
 * per unique word, and each counter is saved as a lexicon of the morphemes
 * seen in at least `MinimumFrequency` words, most frequent first.
 */
module LexiconBuilder {
  import opened Wrappers
  import opened Text
  import opened Counters
  import opened Peeler
  import opened LexiconFile

  const MinimumFrequency: nat := 15

  /** `str.lower()` on ASCII letters. */
  function LowerChar(c: char): char {
    if 'A' <= c <= 'Z' then (c as int + 32) as char else c
  }

  function Lower(s: string): (r: string)
    ensures |r| == |s| && forall i :: 0 <= i < |s| ==> r[i] == LowerChar(s[i])
  {
    seq(|s|, i requires 0 <= i < |s| => LowerChar(s[i]))
  }

  predicate IsLetter(c: char) {
    'a' <= c <= 'z'
  }

  /** The lowercase letters of `s`, in order. */
  function Letters(s: string): string {
    if s == [] then [] else (if IsLetter(s[0]) then [s[0]] else []) + Letters(s[1..])
  }

  function Concat(ws: seq<string>): string {
    if ws == [] then [] else ws[0] + Concat(ws[1..])
  }

  /** The maximal runs of `[a-z]` in `s`, left to right, the first one continuing `cur`. */
  function Runs(s: string, cur: string): (r: seq<string>)
    requires IsLowerWord(cur)
    ensures forall i :: 0 <= i < |r| ==> r[i] != [] && IsLowerWord(r[i])
    decreases |s|
  {
    if s == [] then (if cur == [] then [] else [cur])
    else if IsLetter(s[0]) then Runs(s[1..], cur + [s[0]])
    else (if cur == [] then [] else [cur]) + Runs(s[1..], [])
  }

  /** `re.findall(r'[a-z]+', s)`. */
  function FindWords(s: string): (r: seq<string>)
    ensures forall i :: 0 <= i < |r| ==> r[i] != [] && IsLowerWord(r[i])
  {
    Runs(s, [])
  }

  lemma {:induction false} ConcatAppend(xs: seq<string>, ys: seq<string>)
    ensures Concat(xs + ys) == Concat(xs) + Concat(ys)
  {
    if xs != [] {
      assert (xs + ys)[1..] == xs[1..] + ys;
      ConcatAppend(xs[1..], ys);
    } else {
      assert xs + ys == ys;
    }
  }

  /** No letter is lost or invented: the words found, put together, are the letters of the text. */
  lemma {:induction false} RunsKeepLetters(s: string, cur: string)
    requires IsLowerWord(cur)
    ensures Concat(Runs(s, cur)) == cur + Letters(s)
    decreases |s|
  {
    if s == [] {
      assert cur + [] == cur;
    } else if IsLetter(s[0]) {
      RunsKeepLetters(s[1..], cur + [s[0]]);
    } else {
      RunsKeepLetters(s[1..], []);
      var pre: seq<string> := if cur == [] then [] else [cur];
      ConcatAppend(pre, Runs(s[1..], []));
      assert Concat(pre) == cur;
    }
  }

  lemma FindWordsKeepLetters(s: string)
    ensures Concat(FindWords(s)) == Letters(s)
  {
    RunsKeepLetters(s, []);
  }

  /** The word occurrences of the lowercased corpus, in order; None when the file is missing. */
  function LoadWordList(corpus: Option<string>): (r: Option<seq<string>>)
    ensures r.None? <==> corpus.None?
    ensures r.Some? ==> forall i :: 0 <= i < |r.value| ==> r.value[i] != [] && IsLowerWord(r.value[i])
  {
    if corpus.None? then None else Some(FindWords(Lower(corpus.value)))
  }

  /** `load_words` of the lexicon builder: the set of words of the lowercased corpus. */
  function LoadWords(corpus: Option<string>): (r: Option<set<string>>)
    ensures r.None? <==> corpus.None?
    ensures r.Some? ==> forall w :: w in r.value ==> w != [] && IsLowerWord(w)
  {
    if corpus.None? then None
    else
      var found := LoadWordList(corpus).value;
      Some(set w | w in found)
  }

  datatype Part = Prefix | Root | Suffix

  /** The component `part` of a segmentation when Python's truthiness holds for it. */
  function Component(seg: Segmentation, part: Part): Option<string> {
    var x := match part
      case Prefix => OrEmpty(seg.prefix)
      case Root => seg.root
      case Suffix => OrEmpty(seg.suffix);
    if x == [] then None else Some(x)
  }

  /** A word's `part` as the main loop sees it. */
  function Morpheme(part: Part, w: string): Option<string> {
    Component(PeelWhole(w), part)
  }

  function PartOf(part: Part): string -> Option<string> {
    w => Morpheme(part, w)
  }

  /** The keys incremented, in order, while counting `part` over `words`. */
  function Keys(words: seq<string>, part: Part): seq<string> {
    KeysBy(words, PartOf(part))
  }

  /** The words among `ws` whose `part` is `k`. */
  function WordsWith(ws: set<string>, part: Part, k: string): set<string> {
    KeyedBy(ws, PartOf(part), k)
  }

  /** The three counters of the main loop, one increment per present component of each word. */
  method CountMorphemes(words: seq<string>) returns (prefixes: map<string, nat>, roots: map<string, nat>, suffixes: map<string, nat>)
    ensures prefixes == Tally(Keys(words, Prefix))
    ensures roots == Tally(Keys(words, Root))
    ensures suffixes == Tally(Keys(words, Suffix))
  {
    prefixes, roots, suffixes := map[], map[], map[];
    for i := 0 to |words|
      invariant prefixes == Tally(Keys(words[..i], Prefix))
      invariant roots == Tally(Keys(words[..i], Root))
      invariant suffixes == Tally(Keys(words[..i], Suffix))
    {
      var prefix, root, suffix := PeelWordWhole(words[i]);
      PresentComponents(words[i], prefix, root, suffix);
      CountStep(words, i, Prefix);
      CountStep(words, i, Root);
      CountStep(words, i, Suffix);
      if prefix.Some? && prefix.value != [] {
        prefixes := Bump(prefixes, prefix.value);
      }
      if root != [] {
        roots := Bump(roots, root);
      }
      if suffix.Some? && suffix.value != [] {
        suffixes := Bump(suffixes, suffix.value);
      }
    }
    assert words[..|words|] == words;
  }

  /** The truthiness tests of the main loop pick out exactly the word's components. */
  lemma PresentComponents(w: string, prefix: Option<string>, root: string, suffix: Option<string>)
    requires Segmentation(prefix, root, suffix) == PeelWhole(w)
    ensures Morpheme(Prefix, w) == if prefix.Some? && prefix.value != [] then Some(prefix.value) else None
    ensures Morpheme(Root, w) == if root != [] then Some(root) else None
    ensures Morpheme(Suffix, w) == if suffix.Some? && suffix.value != [] then Some(suffix.value) else None
  {
  }

  /** One more word bumps its component, if present, and nothing else. */
  lemma CountStep(words: seq<string>, i: nat, part: Part)
    requires i < |words|
    ensures Tally(Keys(words[..i + 1], part)) ==
      match Morpheme(part, words[i])
      case Some(k) => Bump(Tally(Keys(words[..i], part)), k)
      case None => Tally(Keys(words[..i], part))
  {
    TallyStep(words, i, PartOf(part));
  }

  /** Over unique words, a morpheme's count is the number of words having it as that component. */
  lemma CountIsWordCount(words: seq<string>, part: Part, k: string)
    requires Distinct(words)
    ensures Count(Keys(words, part), k) == |WordsWith((set w | w in words), part, k)|
  {
    CountIsCardinality(words, PartOf(part), k);
  }

  /** The counters depend on the set of unique words, not on the order `list(set)` happens to give. */
  lemma CountsIgnoreOrder(xs: seq<string>, ys: seq<string>, part: Part)
    requires Distinct(xs) && Distinct(ys)
    requires forall w :: w in xs <==> w in ys
    ensures Tally(Keys(xs, part)) == Tally(Keys(ys, part))
  {
    TallyIgnoresOrder(xs, ys, PartOf(part));
  }

  /** Every non-empty word contributes exactly one root. */
  lemma {:induction false} OneRootPerWord(words: seq<string>)
    requires forall i :: 0 <= i < |words| ==> words[i] != []
    ensures |Keys(words, Root)| == |words|
  {
    if words != [] {
      OneRootPerWord(words[..|words| - 1]);
    }
  }

  /** Hence the root counts add up to the number of words, over any listing of the roots. */
  lemma RootCountsSumToWords(words: seq<string>, roots: seq<string>)
    requires forall i :: 0 <= i < |words| ==> words[i] != []
    requires Distinct(roots) && forall k :: k in Keys(words, Root) ==> k in roots
    ensures SumCounts(Keys(words, Root), roots) == |words|
  {
    OneRootPerWord(words);
    CountsSumToLength(Keys(words, Root), roots);
  }

  /** Only listed candidates are ever counted as prefixes or suffixes. */
  lemma {:induction false} AffixKeysAreCandidates(words: seq<string>)
    ensures forall k :: k in Keys(words, Prefix) ==> k in PrefixCandidates
    ensures forall k :: k in Keys(words, Suffix) ==> k in SuffixCandidates
  {
    if words != [] {
      var init := words[..|words| - 1];
      AffixKeysAreCandidates(init);
      var seg := PeelWhole(words[|words| - 1]);
      var peeled := Peel(words[|words| - 1]);
      assert seg.prefix.Some? ==> seg.prefix == peeled.prefix;
      assert seg.suffix.Some? ==> seg.suffix == peeled.suffix;
    }
  }

  lemma ComponentLower(w: string, part: Part)
    requires IsLowerWord(w)
    ensures Morpheme(part, w).Some? ==> IsLowerWord(Morpheme(part, w).value)
  {
    PartsOfLowerWord(PeelWhole(w));
  }

  lemma {:induction false} KeysLower(words: seq<string>, part: Part)
    requires forall i :: 0 <= i < |words| ==> IsLowerWord(words[i])
    ensures forall k :: k in Keys(words, part) ==> IsLowerWord(k)
  {
    if words != [] {
      KeysLower(words[..|words| - 1], part);
      ComponentLower(words[|words| - 1], part);
    }
  }

  /** `save_lexicon`: the header, then one line per listed morpheme reaching the threshold. */
  method SaveLexicon(entries: seq<(string, nat)>, header: string) returns (lines: seq<string>)
    ensures lines == LexiconHeader(header) + LexiconLines(Frequent(entries, MinimumFrequency))
  {
    var head := LexiconHeader(header);
    lines := head;
    for i := 0 to |entries|
      invariant lines == head + LexiconLines(Frequent(entries[..i], MinimumFrequency))
    {
      SavedLineStep(entries, i);
      ghost var before := LexiconLines(Frequent(entries[..i], MinimumFrequency));
      if entries[i].1 >= MinimumFrequency {
        var line := LexiconLine(entries[i].0, entries[i].1);
        assert head + before + [line] == head + (before + [line]);
        lines := lines + [line];
      }
    }
    assert entries[..|entries|] == entries;
  }

  /** One more listed entry adds its line exactly when its count reaches the threshold. */
  lemma SavedLineStep(entries: seq<(string, nat)>, i: nat)
    requires i < |entries|
    ensures LexiconLines(Frequent(entries[..i + 1], MinimumFrequency)) ==
      LexiconLines(Frequent(entries[..i], MinimumFrequency)) +
        (if entries[i].1 >= MinimumFrequency then [LexiconLine(entries[i].0, entries[i].1)] else [])
  {
    assert entries[..i + 1][..i] == entries[..i];
    var kept := Frequent(entries[..i], MinimumFrequency);
    if entries[i].1 >= MinimumFrequency {
      assert Frequent(entries[..i + 1], MinimumFrequency) == kept + [entries[i]];
      assert LexiconLines(kept + [entries[i]]) == LexiconLines(kept) + [LexiconLine(entries[i].0, entries[i].1)];
    }
  }

  /** A saved lexicon loads back as exactly the keys whose count reaches the threshold. */
  lemma SavedLexiconLoads(counter: map<string, nat>, entries: seq<(string, nat)>, header: string)
    requires IsMostCommon(entries, counter)
    requires forall k :: k in counter ==> IsLowerWord(k)
    ensures LoadLexicon(Some(LexiconHeader(header) + LexiconLines(Frequent(entries, MinimumFrequency))))
         == Some(set k | k in counter && counter[k] >= MinimumFrequency)
  {
    var lines := LexiconHeader(header) + LexiconLines(Frequent(entries, MinimumFrequency));
    var loaded := set line | line in lines && IsEntryLine(line) :: EntryKey(line);
    var want := set k | k in counter && counter[k] >= MinimumFrequency;
    LoadedAreFrequent(counter, entries, header);
    FrequentAreLoaded(counter, entries, header);
    assert loaded == want;
  }

  lemma LoadedAreFrequent(counter: map<string, nat>, entries: seq<(string, nat)>, header: string)
    requires IsMostCommon(entries, counter)
    requires forall k :: k in counter ==> IsLowerWord(k)
    ensures var lines := LexiconHeader(header) + LexiconLines(Frequent(entries, MinimumFrequency));
      forall line :: line in lines && IsEntryLine(line) ==>
        EntryKey(line) in counter && counter[EntryKey(line)] >= MinimumFrequency
  {
    var kept := Frequent(entries, MinimumFrequency);
    FrequentMembers(entries, MinimumFrequency);
    var lines := LexiconHeader(header) + LexiconLines(kept);
    HeaderNotEntries(header);
    assert !IsEntryLine(lines[0]) && !IsEntryLine(lines[1]) && !IsEntryLine(lines[2]);
    forall line | line in lines && IsEntryLine(line)
      ensures EntryKey(line) in counter && counter[EntryKey(line)] >= MinimumFrequency
    {
      var i :| 0 <= i < |lines| && lines[i] == line;
      KeptLineKey(kept, i - 3);
      assert kept[i - 3] in entries;
    }
  }

  /** None of the three header lines is an entry line. */
  lemma HeaderNotEntries(header: string)
    ensures var h := LexiconHeader(header); !IsEntryLine(h[0]) && !IsEntryLine(h[1]) && !IsEntryLine(h[2])
  {
    var h := LexiconHeader(header);
    assert h[0][0] == '#' && h[1][0] == '#';
    assert forall c :: c in h[2] ==> c == '=';
  }

  /** The line written for a kept entry reads back as that entry's key. */
  lemma KeptLineKey(kept: seq<(string, nat)>, k: nat)
    requires k < |kept| && IsLowerWord(kept[k].0)
    ensures LexiconLines(kept)[k] == LexiconLine(kept[k].0, kept[k].1)
    ensures IsEntryLine(LexiconLines(kept)[k]) && EntryKey(LexiconLines(kept)[k]) == kept[k].0
  {
    LexiconLineKey(kept[k].0, kept[k].1);
  }

  lemma FrequentAreLoaded(counter: map<string, nat>, entries: seq<(string, nat)>, header: string)
    requires IsMostCommon(entries, counter)
    requires forall k :: k in counter ==> IsLowerWord(k)
    ensures var lines := LexiconHeader(header) + LexiconLines(Frequent(entries, MinimumFrequency));
      forall k :: k in counter && counter[k] >= MinimumFrequency ==>
        exists line :: line in lines && IsEntryLine(line) && EntryKey(line) == k
  {
    var kept := Frequent(entries, MinimumFrequency);
    FrequentMembers(entries, MinimumFrequency);
    var lines := LexiconHeader(header) + LexiconLines(kept);
    forall k | k in counter && counter[k] >= MinimumFrequency
      ensures exists line :: line in lines && IsEntryLine(line) && EntryKey(line) == k
    {
      var e := (k, counter[k]);
      assert e in kept;
      var i :| 0 <= i < |kept| && kept[i] == e;
      assert lines[i + 3] == LexiconLine(k, counter[k]);
      LexiconLineKey(k, counter[k]);
    }
  }

  /** The three lexicon files, each a list of lines. */
  datatype Lexicons = Lexicons(prefixes: seq<string>, roots: seq<string>, suffixes: seq<string>)

  function FileOf(files: Lexicons, part: Part): seq<string> {
    match part
    case Prefix => files.prefixes
    case Root => files.roots
    case Suffix => files.suffixes
  }

  function HeaderOf(part: Part): string {
    match part
    case Prefix => "Voynich Language Prefixes"
    case Root => "Voynich Language Core Roots"
    case Suffix => "Voynich Language Suffixes"
  }

  /** The morphemes a lexicon keeps: those that are the `part` of at least `MinimumFrequency` of the words. */
  function Kept(ws: set<string>, part: Part): set<string> {
    set w | w in ws && Morpheme(part, w).Some? && |WordsWith(ws, part, Morpheme(part, w).value)| >= MinimumFrequency
      :: Morpheme(part, w).value
  }

  /**
   * The main program: load the unique words, count, and save the three
   * lexicons. Each saved lexicon loads back as exactly the morphemes found in
   * at least `MinimumFrequency` unique words; nothing is written when the
   * corpus is missing or has no words.
   */
  method BuildLexicons(corpus: Option<string>) returns (files: Option<Lexicons>)
    ensures files.None? <==> LoadWords(corpus) == None || LoadWords(corpus) == Some({})
    ensures files.Some? ==> forall part :: LoadLexicon(Some(FileOf(files.value, part))) == Some(Kept(LoadWords(corpus).value, part))
  {
    var loaded := LoadWords(corpus);
    if loaded.None? || loaded.value == {} {
      return None;
    }
    assert forall w :: w in loaded.value ==> IsLowerWord(w);
    var words := ListOf(loaded.value);
    var prefixes, roots, suffixes := CountMorphemes(words);
    var prefixEntries := MostCommon(prefixes);
    var prefixLines := SaveLexicon(prefixEntries, HeaderOf(Prefix));
    var rootEntries := MostCommon(roots);
    var rootLines := SaveLexicon(rootEntries, HeaderOf(Root));
    var suffixEntries := MostCommon(suffixes);
    var suffixLines := SaveLexicon(suffixEntries, HeaderOf(Suffix));
    files := Some(Lexicons(prefixLines, rootLines, suffixLines));
    SavedPartLoads(words, loaded.value, Prefix, prefixEntries);
    SavedPartLoads(words, loaded.value, Root, rootEntries);
    SavedPartLoads(words, loaded.value, Suffix, suffixEntries);
    forall part
      ensures LoadLexicon(Some(FileOf(files.value, part))) == Some(Kept(loaded.value, part))
    {
      match part
      case Prefix =>
      case Root =>
      case Suffix =>
    }
  }

  /** The lexicon saved for `part` loads back as `Kept(ws, part)`. */
  lemma SavedPartLoads(words: seq<string>, ws: set<string>, part: Part, entries: seq<(string, nat)>)
    requires Distinct(words) && forall w :: w in words <==> w in ws
    requires forall w :: w in ws ==> IsLowerWord(w)
    requires IsMostCommon(entries, Tally(Keys(words, part)))
    ensures LoadLexicon(Some(LexiconHeader(HeaderOf(part)) + LexiconLines(Frequent(entries, MinimumFrequency))))
         == Some(Kept(ws, part))
  {
    var counter := Tally(Keys(words, part));
    KeysLower(words, part);
    SavedLexiconLoads(counter, entries, HeaderOf(part));
    forall k
      ensures (k in counter && counter[k] >= MinimumFrequency) <==> k in Kept(ws, part)
    {
      FrequentIsKept(words, ws, part, k);
    }
    assert (set k | k in counter && counter[k] >= MinimumFrequency) == Kept(ws, part);
  }

  /** A morpheme counted at least `MinimumFrequency` times is one the lexicon keeps, and conversely. */
  lemma FrequentIsKept(words: seq<string>, ws: set<string>, part: Part, k: string)
    requires Distinct(words) && forall w :: w in words <==> w in ws
    ensures var counter := Tally(Keys(words, part));
      (k in counter && counter[k] >= MinimumFrequency) <==> k in Kept(ws, part)
  {
    var counter := Tally(Keys(words, part));
    assert (set w | w in words) == ws;
    CountIsWordCount(words, part, k);
    if k in Kept(ws, part) {
      var w :| w in ws && Morpheme(part, w) == Some(k) && |WordsWith(ws, part, k)| >= MinimumFrequency;
    }
    if k in counter && counter[k] >= MinimumFrequency {
      var w :| w in WordsWith(ws, part, k);
    }
  }
}
