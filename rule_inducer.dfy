/**
 * Grammar rule discovery: every word occurrence of the corpus is peeled
 * (whole-word fallback); a (prefix, root) pair is counted when both parts are
 * in their lexicons, a (root, suffix) pair likewise; pairs seen at least
 * `MinimumRuleFrequency` times are saved as rules, most frequent first.
 */
module RuleInducer {
  import opened Wrappers
  import opened Text
  import opened Counters
  import opened Peeler
  import opened LexiconFile
  import opened LexiconBuilder

  const MinimumRuleFrequency: nat := 5

  /** `x in lexicon` for an optional morpheme: `None` is never a member. */
  predicate Valid(x: Option<string>, lexicon: set<string>) {
    x.Some? && x.value in lexicon
  }

  /** The (prefix, root) pair a word occurrence contributes, if both parts are valid. */
  function PrefixRoot(prefixes: set<string>, roots: set<string>, w: string): Option<(string, string)> {
    var seg := PeelWhole(w);
    if Valid(seg.prefix, prefixes) && seg.root in roots then Some((seg.prefix.value, seg.root)) else None
  }

  /** The (root, suffix) pair a word occurrence contributes, if both parts are valid. */
  function RootSuffix(roots: set<string>, suffixes: set<string>, w: string): Option<(string, string)> {
    var seg := PeelWhole(w);
    if seg.root in roots && Valid(seg.suffix, suffixes) then Some((seg.root, seg.suffix.value)) else None
  }

  function PrefixRootOf(prefixes: set<string>, roots: set<string>): string -> Option<(string, string)> {
    w => PrefixRoot(prefixes, roots, w)
  }

  function RootSuffixOf(roots: set<string>, suffixes: set<string>): string -> Option<(string, string)> {
    w => RootSuffix(roots, suffixes, w)
  }

  /** The validity tests of the main loop in terms of the peeled parts. */
  lemma PairsOfPeel(prefixes: set<string>, roots: set<string>, suffixes: set<string>, w: string,
                    prefix: Option<string>, root: string, suffix: Option<string>)
    requires Segmentation(prefix, root, suffix) == PeelWhole(w)
    ensures PrefixRootOf(prefixes, roots)(w) ==
      if Valid(prefix, prefixes) && root in roots then Some((prefix.value, root)) else None
    ensures RootSuffixOf(roots, suffixes)(w) ==
      if root in roots && Valid(suffix, suffixes) then Some((root, suffix.value)) else None
  {
  }

  /** The main loop: both pair counters over all word occurrences. */
  method CountPairs(prefixes: set<string>, roots: set<string>, suffixes: set<string>, words: seq<string>)
    returns (prefixRoot: map<(string, string), nat>, rootSuffix: map<(string, string), nat>)
    ensures prefixRoot == Tally(KeysBy(words, PrefixRootOf(prefixes, roots)))
    ensures rootSuffix == Tally(KeysBy(words, RootSuffixOf(roots, suffixes)))
  {
    prefixRoot, rootSuffix := map[], map[];
    for i := 0 to |words|
      invariant prefixRoot == Tally(KeysBy(words[..i], PrefixRootOf(prefixes, roots)))
      invariant rootSuffix == Tally(KeysBy(words[..i], RootSuffixOf(roots, suffixes)))
    {
      var prefix, root, suffix := PeelWordWhole(words[i]);
      PairsOfPeel(prefixes, roots, suffixes, words[i], prefix, root, suffix);
      TallyStep(words, i, PrefixRootOf(prefixes, roots));
      TallyStep(words, i, RootSuffixOf(roots, suffixes));
      var prefixValid := prefix.Some? && prefix.value in prefixes;
      var rootValid := root in roots;
      var suffixValid := suffix.Some? && suffix.value in suffixes;
      if prefixValid && rootValid {
        prefixRoot := Bump(prefixRoot, (prefix.value, root));
      }
      if rootValid && suffixValid {
        rootSuffix := Bump(rootSuffix, (root, suffix.value));
      }
    }
    assert words[..|words|] == words;
  }

  /** A (prefix, root) pair is counted exactly when both parts are valid and some occurrence peels into them. */
  lemma PrefixRootCounted(prefixes: set<string>, roots: set<string>, words: seq<string>, p: string, r: string)
    ensures (p, r) in Tally(KeysBy(words, PrefixRootOf(prefixes, roots))) <==>
      p in prefixes && r in roots && exists w :: w in words && PeelWhole(w).prefix == Some(p) && PeelWhole(w).root == r
  {
    var f := PrefixRootOf(prefixes, roots);
    KeysByMembership(words, f, (p, r));
    if exists w :: w in words && f(w) == Some((p, r)) {
      var w :| w in words && f(w) == Some((p, r));
      assert PeelWhole(w).prefix == Some(p) && PeelWhole(w).root == r;
    }
    if p in prefixes && r in roots && exists w :: w in words && PeelWhole(w).prefix == Some(p) && PeelWhole(w).root == r {
      var w :| w in words && PeelWhole(w).prefix == Some(p) && PeelWhole(w).root == r;
      assert f(w) == Some((p, r));
    }
  }

  /** A (root, suffix) pair is counted exactly when both parts are valid and some occurrence peels into them. */
  lemma RootSuffixCounted(roots: set<string>, suffixes: set<string>, words: seq<string>, r: string, s: string)
    ensures (r, s) in Tally(KeysBy(words, RootSuffixOf(roots, suffixes))) <==>
      r in roots && s in suffixes && exists w :: w in words && PeelWhole(w).root == r && PeelWhole(w).suffix == Some(s)
  {
    var f := RootSuffixOf(roots, suffixes);
    KeysByMembership(words, f, (r, s));
    if exists w :: w in words && f(w) == Some((r, s)) {
      var w :| w in words && f(w) == Some((r, s));
      assert PeelWhole(w).root == r && PeelWhole(w).suffix == Some(s);
    }
    if r in roots && s in suffixes && exists w :: w in words && PeelWhole(w).root == r && PeelWhole(w).suffix == Some(s) {
      var w :| w in words && PeelWhole(w).root == r && PeelWhole(w).suffix == Some(s);
      assert f(w) == Some((r, s));
    }
  }

  /** Counting is per occurrence: the counts over two stretches of text add up. */
  lemma OccurrencesAdd(prefixes: set<string>, roots: set<string>, suffixes: set<string>,
                       xs: seq<string>, ys: seq<string>, pair: (string, string))
    ensures Get(Tally(KeysBy(xs + ys, PrefixRootOf(prefixes, roots))), pair)
         == Get(Tally(KeysBy(xs, PrefixRootOf(prefixes, roots))), pair) + Get(Tally(KeysBy(ys, PrefixRootOf(prefixes, roots))), pair)
    ensures Get(Tally(KeysBy(xs + ys, RootSuffixOf(roots, suffixes))), pair)
         == Get(Tally(KeysBy(xs, RootSuffixOf(roots, suffixes))), pair) + Get(Tally(KeysBy(ys, RootSuffixOf(roots, suffixes))), pair)
  {
    TallyAppend(xs, ys, PrefixRootOf(prefixes, roots), pair);
    TallyAppend(xs, ys, RootSuffixOf(roots, suffixes), pair);
  }

  /** A word made only of affixes falls back to a bare root and so contributes no pair. */
  lemma AllAffixWordsAddNoPair(prefixes: set<string>, roots: set<string>, suffixes: set<string>, w: string)
    requires Peel(w).root == []
    ensures PrefixRoot(prefixes, roots, w) == None
    ensures RootSuffix(roots, suffixes, w) == None
  {
  }

  /** `save_rules`: the header, then one line per listed pair reaching the threshold. */
  method SaveRules(entries: seq<((string, string), nat)>, header: string) returns (lines: seq<string>)
    ensures lines == RuleHeader(header) + RuleLines(Frequent(entries, MinimumRuleFrequency))
  {
    lines := RuleHeader(header);
    for i := 0 to |entries|
      invariant lines == RuleHeader(header) + RuleLines(Frequent(entries[..i], MinimumRuleFrequency))
    {
      var init := entries[..i + 1];
      assert init[..i] == entries[..i];
      var kept := Frequent(entries[..i], MinimumRuleFrequency);
      if entries[i].1 >= MinimumRuleFrequency {
        assert RuleLines(kept + [entries[i]]) == RuleLines(kept) + [RuleLine(entries[i].0, entries[i].1)];
        lines := lines + [RuleLine(entries[i].0, entries[i].1)];
      }
    }
    assert entries[..|entries|] == entries;
  }

  /** Rule lines of lowercase pairs load back as those pairs. */
  lemma {:induction false} RuleLinesLoad(kept: seq<((string, string), nat)>)
    requires forall e :: e in kept ==> IsLowerWord(e.0.0) && IsLowerWord(e.0.1)
    ensures RulesIn(RuleLines(kept)) == set e | e in kept :: e.0
  {
    if kept != [] {
      var init := kept[..|kept| - 1];
      var last := kept[|kept| - 1];
      assert kept == init + [last];
      assert forall e :: e in init ==> e in kept;
      RuleLinesLoad(init);
      RuleLinesSnoc(init, last);
      RulesInRuleLineSnoc(RuleLines(init), last);
      assert (set e | e in kept :: e.0) == (set e | e in init :: e.0) + {last.0};
    }
  }

  /** A saved rule file loads back as exactly the pairs whose count reaches the threshold. */
  lemma SavedRulesLoad(counter: map<(string, string), nat>, entries: seq<((string, string), nat)>, header: string)
    requires IsMostCommon(entries, counter)
    requires forall k :: k in counter ==> IsLowerWord(k.0) && IsLowerWord(k.1)
    ensures RulesIn(RuleHeader(header) + RuleLines(Frequent(entries, MinimumRuleFrequency)))
         == set k | k in counter && counter[k] >= MinimumRuleFrequency
  {
    var kept := Frequent(entries, MinimumRuleFrequency);
    FrequentMembers(entries, MinimumRuleFrequency);
    var head := RuleHeader(header);
    RulesInAppend(head, RuleLines(kept));
    RuleHeaderEmpty(header);
    RuleLinesLoad(kept);
    assert (set e | e in kept :: e.0) == set k | k in counter && counter[k] >= MinimumRuleFrequency by {
      forall k | k in counter && counter[k] >= MinimumRuleFrequency
        ensures k in set e | e in kept :: e.0
      {
        assert (k, counter[k]) in kept;
      }
    }
  }

  /** The pairs a counter keeps as rules: those counted at least `MinimumRuleFrequency` times. */
  function FrequentPairs(words: seq<string>, f: string -> Option<(string, string)>): set<(string, string)> {
    set k | k in KeysBy(words, f) && Count(KeysBy(words, f), k) >= MinimumRuleFrequency
  }

  /** `all([...])`: every input is present and non-empty. */
  predicate Ready(prefixes: Option<set<string>>, roots: Option<set<string>>, suffixes: Option<set<string>>,
                  words: Option<seq<string>>) {
    && prefixes.Some? && prefixes.value != {}
    && roots.Some? && roots.value != {}
    && suffixes.Some? && suffixes.value != {}
    && words.Some? && words.value != []
  }

  /** The two rule files, each a list of lines. */
  datatype RuleFiles = RuleFiles(prefixRoot: seq<string>, rootSuffix: seq<string>)

  /**
   * The main program: load the three lexicons and the word occurrences, count
   * the pairs, save the two rule files. Each saved file loads back as exactly
   * the pairs counted at least `MinimumRuleFrequency` times; nothing is
   * written unless every input is present and non-empty.
   */
  method InduceRules(prefixFile: Option<seq<string>>, rootFile: Option<seq<string>>, suffixFile: Option<seq<string>>,
                     corpus: Option<string>) returns (files: Option<RuleFiles>)
    ensures files.Some? <==> Ready(LoadLexicon(prefixFile), LoadLexicon(rootFile), LoadLexicon(suffixFile), LoadWordList(corpus))
    ensures files.Some? ==>
      var prefixes, roots, suffixes := LoadLexicon(prefixFile).value, LoadLexicon(rootFile).value, LoadLexicon(suffixFile).value;
      var words := LoadWordList(corpus).value;
      && RulesIn(files.value.prefixRoot) == FrequentPairs(words, PrefixRootOf(prefixes, roots))
      && RulesIn(files.value.rootSuffix) == FrequentPairs(words, RootSuffixOf(roots, suffixes))
  {
    var prefixes, roots, suffixes := LoadLexicon(prefixFile), LoadLexicon(rootFile), LoadLexicon(suffixFile);
    var words := LoadWordList(corpus);
    if !Ready(prefixes, roots, suffixes, words) {
      return None;
    }
    var prefixRoot, rootSuffix := CountPairs(prefixes.value, roots.value, suffixes.value, words.value);
    var prefixRootEntries := MostCommon(prefixRoot);
    var prefixRootLines := SaveRules(prefixRootEntries, "Prefix-Root Combination Rules");
    var rootSuffixEntries := MostCommon(rootSuffix);
    var rootSuffixLines := SaveRules(rootSuffixEntries, "Root-Suffix Combination Rules");
    files := Some(RuleFiles(prefixRootLines, rootSuffixLines));
    CountedPairsLower(prefixes.value, roots.value, suffixes.value, words.value);
    SavedPairsLoad(words.value, PrefixRootOf(prefixes.value, roots.value), prefixRootEntries, "Prefix-Root Combination Rules");
    SavedPairsLoad(words.value, RootSuffixOf(roots.value, suffixes.value), rootSuffixEntries, "Root-Suffix Combination Rules");
  }

  /** The pairs either counter produces from lowercase words are lowercase. */
  lemma PairsLower(prefixes: set<string>, roots: set<string>, suffixes: set<string>, w: string)
    requires IsLowerWord(w)
    ensures PrefixRoot(prefixes, roots, w).Some? ==>
      IsLowerWord(PrefixRoot(prefixes, roots, w).value.0) && IsLowerWord(PrefixRoot(prefixes, roots, w).value.1)
    ensures RootSuffix(roots, suffixes, w).Some? ==>
      IsLowerWord(RootSuffix(roots, suffixes, w).value.0) && IsLowerWord(RootSuffix(roots, suffixes, w).value.1)
  {
    PartsOfLowerWord(PeelWhole(w));
  }

  lemma CountedPairsLower(prefixes: set<string>, roots: set<string>, suffixes: set<string>, words: seq<string>)
    requires forall i :: 0 <= i < |words| ==> IsLowerWord(words[i])
    ensures forall w :: w in words ==> forall k :: PrefixRootOf(prefixes, roots)(w) == Some(k) ==> IsLowerWord(k.0) && IsLowerWord(k.1)
    ensures forall w :: w in words ==> forall k :: RootSuffixOf(roots, suffixes)(w) == Some(k) ==> IsLowerWord(k.0) && IsLowerWord(k.1)
  {
    forall w | w in words
      ensures forall k :: PrefixRootOf(prefixes, roots)(w) == Some(k) ==> IsLowerWord(k.0) && IsLowerWord(k.1)
      ensures forall k :: RootSuffixOf(roots, suffixes)(w) == Some(k) ==> IsLowerWord(k.0) && IsLowerWord(k.1)
    {
      PairsLower(prefixes, roots, suffixes, w);
    }
  }

  /** A saved rule file loads back as the frequent pairs of the counter it was saved from. */
  lemma SavedPairsLoad(words: seq<string>, f: string -> Option<(string, string)>, entries: seq<((string, string), nat)>, header: string)
    requires forall w :: w in words ==> forall k :: f(w) == Some(k) ==> IsLowerWord(k.0) && IsLowerWord(k.1)
    requires IsMostCommon(entries, Tally(KeysBy(words, f)))
    ensures RulesIn(RuleHeader(header) + RuleLines(Frequent(entries, MinimumRuleFrequency))) == FrequentPairs(words, f)
  {
    var counter := Tally(KeysBy(words, f));
    forall k | k in counter
      ensures IsLowerWord(k.0) && IsLowerWord(k.1)
    {
      KeysByMembership(words, f, k);
    }
    SavedRulesLoad(counter, entries, header);
    assert (set k | k in counter && counter[k] >= MinimumRuleFrequency) == FrequentPairs(words, f) by {
      forall k ensures (k in counter && counter[k] >= MinimumRuleFrequency) <==> k in FrequentPairs(words, f) {
        assert Get(counter, k) == Count(KeysBy(words, f), k);
      }
    }
  }
}
