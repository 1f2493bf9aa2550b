# Voynich generative analysis: a verified model of the morphology pipeline

This project models, in Dafny, the scripts of the Voynich generative-analysis
repository that induce and apply a morphological grammar for the Voynich
manuscript transcription:

- **Deep cleaning** (`deep_cleaning_voynich.py`) turns the raw transcription
  into the clean corpus. It drops locus tags and bracketed comments, drops note
  characters, turns dots into spaces and leaves single spaces.
- **Peeling** (`peel_word`) strips at most one prefix and then at most one
  suffix, each the first match in a fixed ordered candidate list. The
  validator's variant keeps both affixes of an all-affix word. The variant of
  the lexicon builder and rule inducer returns the whole word as root instead.
- **Lexicon construction** (`build_lexicon.py`) counts prefixes, roots and
  suffixes once per unique corpus word. It saves the morphemes seen in at
  least 15 words, most frequent first, as `text | count` lines under a
  three-line header.
- **Rule induction** (`find_grammar_rules.py`) counts, over every word
  occurrence, the (prefix, root) and (root, suffix) pairs whose parts are both
  in their lexicons. It saves the pairs seen at least 5 times.
- **Validation** (`validate_word.py`) is a class holding the five loaded
  sets and a readiness flag. Its check cascade accepts a known root, a known
  prefix plus a known suffix around nothing, or a known root whose present
  affixes are known and attested next to it.
- **Segmentation** (`segment_manuscript.py`) splits the transcription at its
  folio markers, numbers each folio (ten times the folio, plus one for a
  verso), cleans each page and appends it to the section whose folio range
  holds it.
- **Root tracking** (`track_root_patterns.py`) and **lift**
  (`calculate_lift_final.py`) find each word's longest root: the first root
  occurring in it, over the lexicon sorted longest first by a stable sort. The
  tracker files label numbers per folio and tracked root. The lift compares
  the share of a target root in a folio's labels with its share in the corpus.
- **Morphology survey** (`analyze_morphology.py`) reports the most common
  fixed-length affixes with their stems, and the most common character
  n-grams.

Files are modelled as sequences of lines, or as one string where the script
reads the whole file. A missing file is `None`. Console output is not
modelled. The two stages that parse the transcription with regular
expressions per line (root tracking and lift) take the matched label texts as
their input.

Three behaviours of the code are worth knowing when reading the model:

- The rule inducer counts a (prefix, root) pair only when the prefix is in
  the prefix lexicon (`find_grammar_rules.py:95-100`). A `None` prefix is
  never a member.
- "chedy" peels to `ch` + `e` + `dy`: `ch` is the first listed prefix it
  starts with, and `dy` the first listed suffix of `edy`
  (`Peeler.PeelExample`).
- The segmenter's comment removal works line by line: a `{…}` or `[…]`
  comment that spans a line break is kept, with its line break turned into a
  space (`Segmenter.ScrubSplitComment`).

## Model

| member | source | states |
|---|---|---|
| Matching.FirstFit | scripts/validate_word.py:45-55 | the index of the first candidate that fits the word, with no earlier candidate fitting; None exactly when no candidate fits |
| Matching.FirstFitAt | scripts/track_root_patterns.py:35-37 | a fitting candidate preceded only by non-fitting ones is the first fit |
| Matching.FirstFitIsLongest | scripts/build_lexicon.py:33-45 | over a list ordered longest first, the first fitting candidate is a longest fitting one |
| Peeler.PeelWith | scripts/validate_word.py:36-57 | the affixes come from the candidate lists; prefix, root and suffix put back together give the word, except that a fitting empty suffix candidate empties the root as `word[:-0]` does |
| Peeler.DropLast | scripts/validate_word.py:54 | `s[:-n]` leaves the part before the last `n` characters, and `s[:-0]` is empty |
| Peeler.EmptySuffixEmptiesRoot | scripts/validate_word.py:51-55 | an empty suffix candidate fits every remainder and leaves an empty root |
| Peeler.Peel | scripts/validate_word.py:36-62 | the validator's peel loses no character: its parts rejoin to the word |
| Peeler.PeelWordWith | scripts/validate_word.py:41-57 | the two scan-and-break loops compute the peel against the given candidate lists |
| Peeler.PeelWord | scripts/validate_word.py:36-62 | the loops of the validator's `peel_word` compute `Peel` |
| Peeler.PeelWhole | scripts/build_lexicon.py:24-55 | the builder's peel rejoins to the word; a non-empty word gets a non-empty root; an empty root only for the empty word, with no affixes |
| Peeler.WholeIfNoRoot | scripts/build_lexicon.py:52-55 | the whole-word fallback keeps the rejoin property and yields a non-empty root for a non-empty word |
| Peeler.PeelWordWhole | scripts/find_grammar_rules.py:34-63 | the loops of the builder's and inducer's `peel_word` compute `PeelWhole` |
| Peeler.PartsOfLowerWord | scripts/build_lexicon.py:78 | the parts of a lowercase word are lowercase |
| Peeler.PeelPicksFirstCandidates | scripts/validate_word.py:45-55 | the prefix is the first listed prefix the word starts with (None when none does); the suffix is the first listed suffix the remainder ends with |
| Peeler.PeelTakesLongestAffix | scripts/build_lexicon.py:5-8 | with the two-letter candidates listed first, the peeled prefix and suffix are longest matches, as the lists' comment intends |
| Peeler.PeelWithTakesLongest | scripts/build_lexicon.py:33-45 | over candidate lists ordered longest first, each peeled affix is a longest fitting one |
| Peeler.TwoLettersFirst | scripts/build_lexicon.py:7-8 | a list of two-letter entries followed by one-letter entries is ordered longest first |
| Peeler.PeelVariantsAgree | scripts/build_lexicon.py:50-55 | the two peel variants agree unless the root peels to nothing, when the builder's returns the whole word as root |
| Peeler.AllAffixWord | scripts/build_lexicon.py:50-53 | "dy" peels to d + "" + y for the validator and to the bare root "dy" for the builder |
| Peeler.PeelExample | scripts/validate_word.py:132 | "chedy" peels to ch + e + dy |
| Text.Strip | scripts/validate_word.py:12 | `strip()` leaves no whitespace at either end; it leaves a string without end whitespace unchanged; it gives empty exactly for all-whitespace strings |
| Text.Collapse | deep_cleaning_voynich.py:45 | collapsing never lengthens, keeps emptiness and keeps whether the first character is whitespace |
| Text.CollapseBlanks | deep_cleaning_voynich.py:45 | after collapsing every whitespace character is a plain space |
| Text.CollapseSingle | deep_cleaning_voynich.py:45 | after collapsing no two whitespace characters are adjacent |
| Text.CollapseIdentity | deep_cleaning_voynich.py:45 | text whose only whitespace is single plain spaces is left as it is |
| Text.CollapseKeepsAll | deep_cleaning_voynich.py:45 | a property shared by every character and by the space holds after collapsing |
| Text.CollapseKeepsNonSpace | deep_cleaning_voynich.py:45 | collapsing keeps every non-whitespace character, in order: only whitespace is changed |
| Text.SplitSepAppend | scripts/calculate_lift_final.py:42 | splitting at a separator splits the two sides independently |
| Text.SplitPiecesNonEmpty | scripts/calculate_lift_final.py:42 | single-spaced text with no end spaces splits into non-empty pieces only |
| Text.StripIsSlice | deep_cleaning_voynich.py:45 | `strip()` keeps a contiguous slice of the string |
| Text.StripKeepsSpacing | deep_cleaning_voynich.py:45 | stripping single-spaced text keeps it single-spaced |
| Text.Split | scripts/validate_word.py:12 | a split has at least one piece and no piece holds the separator |
| Text.JoinSplit | deep_cleaning_voynich.py:51 | joining the pieces of a split gives back the string |
| Text.SplitJoin | deep_cleaning_voynich.py:51 | splitting a join of separator-free pieces gives back the pieces |
| Text.Decimal | scripts/build_lexicon.py:66 | `str(count)` is a non-empty run of digits |
| Text.DecimalRoundTrip | scripts/segment_manuscript.py:22 | `int(str(n)) == n` |
| Text.OccursAt | scripts/track_root_patterns.py:36 | `root in word` holds exactly when the root sits at some position of the word |
| Text.PadRight | scripts/build_lexicon.py:66 | `f"{s:<w}"` is `s` followed by spaces up to width `w`, never truncated |
| Text.StripPadding | scripts/validate_word.py:12 | `strip()` removes exactly the padding added after a key without end whitespace |
| LexiconFile.LexiconLines | scripts/build_lexicon.py:64-66 | one line per saved entry |
| LexiconFile.LoadRules | scripts/validate_word.py:19-34 | the line loop adds exactly the well-formed pairs of the file; None for a missing file |
| LexiconFile.RulesInAppend | scripts/validate_word.py:24-29 | the rules of two stretches of lines are the union of their rules |
| LexiconFile.RuleHeaderEmpty | scripts/find_grammar_rules.py:68-70 | the header lines of a rule file hold no rule |
| LexiconFile.PaddedLineKey | scripts/validate_word.py:12 | a padded `key \| count` line is an entry line whose key is the original key |
| LexiconFile.LexiconLineKey | scripts/build_lexicon.py:66 | a saved line of a lowercase morpheme loads back as that morpheme |
| LexiconFile.RuleLineKey | scripts/find_grammar_rules.py:73-74 | a saved line of a lowercase pair loads back as that pair |
| LexiconFile.SplitPair | scripts/validate_word.py:26-29 | the joined key of a lowercase pair splits on '-' into exactly its two parts |
| Counters.ListOf | scripts/build_lexicon.py:19 | `list(set)` lists every element exactly once |
| Counters.Count | scripts/calculate_lift_final.py:69-70 | a count is at most the length and is positive exactly for present keys |
| Counters.CountAppend | scripts/calculate_lift_final.py:43 | counting over a concatenation adds the counts |
| Counters.KeysByMembership | scripts/build_lexicon.py:77-85 | a key is counted exactly when some element yields it |
| Counters.Tally | scripts/calculate_lift_final.py:43 | the Counter maps each key to its number of occurrences and holds exactly the occurring keys |
| Counters.TallyStep | scripts/build_lexicon.py:80-85 | one more element bumps the count of its key only |
| Counters.TallyAppend | scripts/find_grammar_rules.py:91-103 | counts over two stretches add up |
| Counters.CountIsCardinality | scripts/build_lexicon.py:77-85 | over unique elements a key's count is the number of elements having that key |
| Counters.TallyIgnoresOrder | scripts/build_lexicon.py:19 | counting unique elements does not depend on the order `list(set)` gives |
| Counters.CountsSumToLength | scripts/calculate_lift_final.py:43 | every element lands on exactly one key: the counts over all keys add up to the number of elements |
| Counters.InsertByCount | scripts/build_lexicon.py:64 | one insertion step of the listing keeps its members, its count order and its distinct keys |
| Counters.MostCommon | scripts/build_lexicon.py:64 | `most_common()` lists every key once with its count, highest counts first |
| Counters.Frequent | scripts/build_lexicon.py:64-65 | the threshold filter never lengthens the listing |
| Counters.FrequentMembers | scripts/build_lexicon.py:64-65 | the filter keeps exactly the listed entries whose count reaches the threshold |
| Counters.FrequentKeepsOrder | scripts/build_lexicon.py:63-66 | the saved entries stay sorted by frequency |
| Counters.FrequentMonotone | scripts/build_lexicon.py:9 | a lower threshold never drops an entry a higher one keeps |
| LexiconBuilder.Lower | scripts/build_lexicon.py:17 | `lower()` maps each character and keeps the length |
| LexiconBuilder.FindWords | scripts/build_lexicon.py:17 | `re.findall(r'[a-z]+')` yields non-empty lowercase words |
| LexiconBuilder.FindWordsKeepLetters | scripts/build_lexicon.py:17 | the words found are, together, exactly the lowercase letters of the text |
| LexiconBuilder.LoadWordList | scripts/find_grammar_rules.py:22-32 | every word occurrence is non-empty and lowercase; None exactly for a missing corpus |
| LexiconBuilder.LoadWords | scripts/build_lexicon.py:11-22 | the unique words are non-empty and lowercase; None exactly for a missing corpus |
| LexiconBuilder.CountMorphemes | scripts/build_lexicon.py:72-85 | the three counters count, per word, its present prefix, root and suffix |
| LexiconBuilder.PresentComponents | scripts/build_lexicon.py:78-85 | the truthiness tests pick out exactly the non-empty components of the peel |
| LexiconBuilder.CountIsWordCount | scripts/build_lexicon.py:77-85 | a morpheme's count is the number of unique words having it as that component |
| LexiconBuilder.CountsIgnoreOrder | scripts/build_lexicon.py:19 | the counters do not depend on the order of the unique words |
| LexiconBuilder.OneRootPerWord | scripts/build_lexicon.py:82-83 | every word contributes exactly one root |
| LexiconBuilder.RootCountsSumToWords | scripts/build_lexicon.py:82-83 | the root counts add up to the number of unique words |
| LexiconBuilder.AffixKeysAreCandidates | scripts/build_lexicon.py:80-85 | only listed candidates are counted as prefixes or suffixes |
| LexiconBuilder.KeysLower | scripts/build_lexicon.py:78-85 | every counted morpheme of lowercase words is lowercase |
| LexiconBuilder.SaveLexicon | scripts/build_lexicon.py:57-67 | the file is the header followed by one line per listed morpheme reaching the threshold, in listing order |
| LexiconBuilder.SavedLexiconLoads | scripts/build_lexicon.py:57-67 | a saved lexicon loads back as exactly the morphemes whose count reaches the threshold |
| LexiconBuilder.LoadedAreFrequent | scripts/build_lexicon.py:63-66 | every key loaded from a saved lexicon was counted at least 15 times |
| LexiconBuilder.FrequentAreLoaded | scripts/build_lexicon.py:63-66 | every morpheme counted at least 15 times has a line that loads as it |
| LexiconBuilder.SavedPartLoads | scripts/build_lexicon.py:93-95 | each saved lexicon loads back as the morphemes found in at least 15 unique words |
| LexiconBuilder.FrequentIsKept | scripts/build_lexicon.py:64-65 | a morpheme reaches the threshold exactly when at least 15 unique words have it |
| LexiconBuilder.BuildLexicons | scripts/build_lexicon.py:69-95 | no file is written for a missing or wordless corpus; otherwise each of the three lexicons loads back as its morphemes found in at least 15 unique words |
| RuleInducer.PairsOfPeel | scripts/find_grammar_rules.py:92-103 | a pair is recorded from a peel exactly when both of its parts are in their lexicons |
| RuleInducer.CountPairs | scripts/find_grammar_rules.py:87-103 | the two counters count the valid pairs of every word occurrence |
| RuleInducer.PrefixRootCounted | scripts/find_grammar_rules.py:95-100 | a (prefix, root) pair is counted exactly when both parts are in their lexicons and some occurrence peels into them |
| RuleInducer.RootSuffixCounted | scripts/find_grammar_rules.py:96-103 | a (root, suffix) pair is counted exactly when both parts are in their lexicons and some occurrence peels into them |
| RuleInducer.OccurrencesAdd | scripts/find_grammar_rules.py:91 | counting is per occurrence: counts over two stretches of text add up |
| RuleInducer.AllAffixWordsAddNoPair | scripts/find_grammar_rules.py:60-61 | an all-affix word falls back to a bare root and records no pair |
| RuleInducer.SaveRules | scripts/find_grammar_rules.py:65-75 | the file is the header followed by one line per listed pair reaching the threshold, in listing order |
| RuleInducer.RuleLinesLoad | scripts/find_grammar_rules.py:71-74 | rule lines of lowercase pairs load back as exactly those pairs |
| RuleInducer.SavedRulesLoad | scripts/find_grammar_rules.py:65-75 | a saved rule file loads back as exactly the pairs whose count reaches 5 |
| RuleInducer.CountedPairsLower | scripts/find_grammar_rules.py:92-103 | the pairs counted from lowercase words are lowercase |
| RuleInducer.SavedPairsLoad | scripts/find_grammar_rules.py:110-111 | a saved rule file loads back as the frequent pairs of its counter |
| RuleInducer.InduceRules | scripts/find_grammar_rules.py:77-111 | files are written exactly when all four inputs are present and non-empty; each then loads back as the pairs counted at least 5 times |
| Validator.VoynichValidator.constructor | scripts/validate_word.py:66-79 | the five sets are what the files load to, and the readiness flag is set exactly when all five are present and non-empty |
| Validator.VoynichValidator.Check | scripts/validate_word.py:81-124 | an unready validator rejects every word; a ready one accepts exactly the legal words |
| Validator.VoynichValidator.IsValidWord | scripts/validate_word.py:81-124 | the step-by-step cascade returns the verdict's acceptance, and accepts only legal words of a ready validator |
| Validator.JudgeIsLegal | scripts/validate_word.py:90-124 | the ordered cascade accepts exactly the words the order-free grammar calls legal |
| Validator.RejectionReasons | scripts/validate_word.py:105-121 | each rejection names the first failing check: every earlier check passed |
| Validator.AcceptanceMonotone | scripts/validate_word.py:90-124 | larger lexicons and rule sets never reject a word a smaller grammar accepts |
| Validator.AllAffixWords | scripts/validate_word.py:97-103 | an all-affix word that is not a known root is accepted exactly when both affixes are known |
| Validator.ChedyAccepted | scripts/validate_word.py:132 | "chedy" is accepted when ch, e, dy and both pairs are known |
| Validator.ChedyNeedsRule | scripts/validate_word.py:116-118 | "chedy" without the (ch, e) rule is rejected for that rule |
| Validator.DyAccepted | scripts/validate_word.py:97-103 | "dy" is accepted on the prefix-suffix branch when d and y are known |
| Segmenter.DigitRun | scripts/segment_manuscript.py:18 | `\d+` reads the maximal leading run of digits |
| Segmenter.FolioId | scripts/segment_manuscript.py:16-25 | a folio number ends in 0 (recto) or 1 (verso) |
| Segmenter.FolioIdRoundTrip | scripts/segment_manuscript.py:16-25 | the name of folio n, side r or v, followed by anything, reads back as 10n or 10n+1 |
| Segmenter.FolioIdDecodes | scripts/segment_manuscript.py:16-25 | a folio number's tenth is the decimal value of the name's digits and its last digit records the side |
| Segmenter.MarkerLength | scripts/segment_manuscript.py:47 | a marker found is at least five characters long |
| Segmenter.Chunks | scripts/segment_manuscript.py:47 | every marker the split returns is a whole `<f\d+[rv]>` marker |
| Segmenter.ChunksLoseNothing | scripts/segment_manuscript.py:47 | the leading text, markers and page texts of the split make up the whole transcription |
| Segmenter.MarkerNamesFolio | scripts/segment_manuscript.py:61-65 | every marker the split finds names a folio, so the `None` branch is never taken |
| Segmenter.StripMarker | scripts/segment_manuscript.py:61 | stripping a marker's angle brackets leaves what is between them |
| Segmenter.FirstSection | scripts/segment_manuscript.py:74-78 | the section found is listed and holds the folio; None exactly when no section does |
| Segmenter.SectionOfExactly | scripts/segment_manuscript.py:8-14 | the ranges do not overlap: a folio belongs to a section exactly when its number is in that range |
| Segmenter.UnmappedFolios | scripts/segment_manuscript.py:8-14 | f1r and the folios between f57v and f67r belong to no section |
| Segmenter.FindSection | scripts/segment_manuscript.py:73-78 | the mapping loop finds the section of the folio |
| Segmenter.Scrub | scripts/segment_manuscript.py:69 | comment removal never lengthens the page and leaves no newline |
| Segmenter.ScrubChars | scripts/segment_manuscript.py:69 | comment removal only deletes characters or turns them into spaces |
| Segmenter.ScrubLeavesNoSpan | scripts/segment_manuscript.py:69 | on one line, no complete `{…}` or `[…]` comment survives |
| Segmenter.ScrubStepBeforeNewline | scripts/segment_manuscript.py:69 | the lazy `.*?` does not cross a newline, so the first match on a line does not depend on what follows the line |
| Segmenter.ScrubLines | scripts/segment_manuscript.py:69 | a newline becomes a space and the lines on either side are scrubbed separately |
| Segmenter.ScrubSplitComment | scripts/segment_manuscript.py:69 | a comment broken by a line break is kept: `{a` newline `}` becomes `{a }` |
| Segmenter.ScrubPlain | scripts/segment_manuscript.py:69 | text without braces, brackets or newlines is not changed |
| Segmenter.ScrubKeepsPrefix | scripts/segment_manuscript.py:69 | text before the first brace, bracket or newline is kept unchanged |
| Segmenter.ScrubComment | scripts/segment_manuscript.py:69 | a one-line `{…}` or `[…]` comment at the start becomes a single space |
| Segmenter.ScrubAround | scripts/segment_manuscript.py:69 | a one-line comment becomes a single space, the text before it is kept and the text after it is scrubbed on its own |
| Segmenter.CleanPage | scripts/segment_manuscript.py:69-70 | a cleaned page ends in exactly one added space |
| Segmenter.CleanPageNoComments | scripts/segment_manuscript.py:69-70 | a cleaned one-line page holds no complete `{…}` or `[…]` comment |
| Segmenter.CleanPageShape | scripts/segment_manuscript.py:69-70 | a cleaned page is single-spaced with plain spaces and starts with a non-space unless it is just the space |
| Segmenter.CleanPagePlain | scripts/segment_manuscript.py:69-70 | already clean single-spaced text is kept, with one space added |
| Segmenter.Processed | scripts/segment_manuscript.py:80-81 | no more pages are processed than the split found |
| Segmenter.ProcessedIsSectionSum | scripts/segment_manuscript.py:73-81 | every processed page is counted in exactly one section |
| Segmenter.SectionTextNonEmpty | scripts/segment_manuscript.py:86-93 | a section has text exactly when one of its pages occurs |
| Segmenter.SegmentPages | scripts/segment_manuscript.py:57-81 | the page loop builds every section's text from its pages, in order, and counts the pages placed in a section |
| Segmenter.SegmentManuscript | scripts/segment_manuscript.py:27-95 | nothing is saved for a missing transcription; otherwise a section is saved exactly when one of its pages occurs, as its stripped text |
| LongestRoot.EntryKeysAreLexicon | scripts/track_root_patterns.py:25 | the listed keys are exactly the keys the set-building loader collects |
| LongestRoot.InsertByLength | scripts/track_root_patterns.py:26 | one step of the sort adds exactly the new entry |
| LongestRoot.SortByLength | scripts/track_root_patterns.py:26 | the sort is a permutation of the keys |
| LongestRoot.SortIsStable | scripts/track_root_patterns.py:26 | the sort orders longest first and keeps the file order among keys of equal length |
| LongestRoot.LoadRoots | scripts/track_root_patterns.py:21-31 | the loader returns the entry keys sorted longest first; None exactly for a missing file |
| LongestRoot.LoadedRoots | scripts/calculate_lift_final.py:15-23 | the loaded roots are ordered longest first and are exactly the lexicon's keys |
| LongestRoot.LongestRootIn | scripts/track_root_patterns.py:33-38 | the root found is listed and occurs in the word, and no earlier root occurs; None exactly when no root occurs |
| LongestRoot.FindLongestRoot | scripts/calculate_lift_final.py:25-30 | the loop with early return finds that root |
| LongestRoot.LongestRootIsLongest | scripts/track_root_patterns.py:34 | over roots sorted longest first the root found is a longest occurring root, as the docstring says |
| LongestRoot.EmptyRootMatchesAll | scripts/track_root_patterns.py:35-37 | a lexicon holding the empty key finds a root for every word |
| RootTracker.DropNoise | scripts/track_root_patterns.py:67 | removing `<!…>` comments and `? ! ,` never lengthens and leaves none of `? ! ,` |
| RootTracker.DropNoisePlain | scripts/track_root_patterns.py:67 | text with no comment opener or noise character is not changed |
| RootTracker.DropNoiseKeepsPrefix | scripts/track_root_patterns.py:67 | before the first `<`, exactly the characters `? ! ,` are dropped and the rest kept in order |
| RootTracker.DropNoiseComment | scripts/track_root_patterns.py:67 | a one-line `<!…>` comment at the start is removed whole |
| RootTracker.DropNoiseAround | scripts/track_root_patterns.py:67 | a one-line `<!…>` comment is removed, `? ! ,` before it dropped and every other character before it kept in order |
| RootTracker.LabelWords | scripts/track_root_patterns.py:67-68 | a label gives at least one word and no word holds a dot |
| RootTracker.TrackedRoot | scripts/track_root_patterns.py:71-72 | a word is filed exactly when its longest root is non-empty and tracked; the root then occurs in the word |
| RootTracker.ShadowedRootNotFiled | scripts/track_root_patterns.py:71-72 | a tracked root that occurs beside a longer listed root is not filed for that word |
| RootTracker.WordHitsMembership | scripts/track_root_patterns.py:70-73 | a label files a hit exactly when one of its words has that tracked root |
| RootTracker.LabelHitsMembership | scripts/track_root_patterns.py:61-73 | a folio's hits are exactly those of its labels' words |
| RootTracker.HitsMembership | scripts/track_root_patterns.py:58-73 | the hits are exactly those of the labels of the folios of interest |
| RootTracker.GroupIsFilter | scripts/track_root_patterns.py:56-73 | per folio and root the map keeps the label numbers of the matching hits in order, and holds no empty entry |
| RootTracker.FiledExactly | scripts/track_root_patterns.py:56-73 | a number is filed under a folio and root exactly when a label of that folio has a word with that root |
| RootTracker.TrackPatterns | scripts/track_root_patterns.py:58-73 | the folio loop builds the grouping of all hits |
| RootTracker.FileLabels | scripts/track_root_patterns.py:61-73 | the line loop files the hits of one folio's labels |
| RootTracker.FileWords | scripts/track_root_patterns.py:70-73 | the word loop files the hits of one label |
| RootTracker.InsertUnique | scripts/track_root_patterns.py:83 | adding a number to a strictly ascending list keeps it strictly ascending and adds only that number |
| RootTracker.SortedUnique | scripts/track_root_patterns.py:83 | `sorted(set(labels))` is strictly ascending with the same members |
| RootTracker.Report | scripts/track_root_patterns.py:77-84 | the report lists the same folios and roots as the map |
| RootTracker.ReportedLabels | scripts/track_root_patterns.py:77-84 | each reported list is strictly ascending and holds exactly the labels with a word filed under that folio and root |
| RootTracker.TrackRootPatterns | scripts/track_root_patterns.py:87-90 | there is a report exactly when the lexicon has entries and the transcription is present; it reports the filed labels |
| Lift.RootsOfLength | scripts/calculate_lift_final.py:43 | each word contributes exactly one key, its longest root |
| Lift.BaselineCountsSumToWords | scripts/calculate_lift_final.py:43 | the baseline counts over all keys add up to the number of baseline words |
| Lift.ContextEmptyIffNoLabels | scripts/calculate_lift_final.py:72 | the context is empty exactly when no label matched |
| Lift.CollectContext | scripts/calculate_lift_final.py:56-63 | the line loop collects every matched label's pieces in order |
| Lift.NonEmpty | scripts/calculate_lift_final.py:65 | `if w` keeps exactly the non-empty words |
| Lift.EmptyPiecesUncounted | scripts/calculate_lift_final.py:65 | empty pieces change no context count |
| Lift.CountedRootOccurs | scripts/calculate_lift_final.py:65-69 | a target counted in the context occurs in some non-empty context word |
| Lift.SplitWordsAreWords | scripts/calculate_lift_final.py:42 | the words of `split()` are non-empty, hold no whitespace and take their characters from the corpus |
| Lift.SplitWordsJoin | scripts/calculate_lift_final.py:42 | the words of `split()`, joined by single spaces, are the corpus collapsed and stripped: nothing but whitespace is lost |
| Lift.CalculateLift | scripts/calculate_lift_final.py:32-83 | each missing input gives its own outcome; the baseline is the `split()` words of the corpus text; no lift without a baseline occurrence and a context; a zero lift exactly when the target is absent from the context; otherwise the four counts of the ratio |
| Lift.LiftCountsPositive | scripts/calculate_lift_final.py:76-83 | when a lift is computed both word totals are positive and each count is at most its total |
| Morphology.Head | scripts/analyze_morphology.py:26 | `word[:n]` is a prefix of the word of the clamped length |
| Morphology.AffixIsWordEnd | scripts/analyze_morphology.py:26-30 | an affix read off a longer word has the surveyed length and rejoins with the stem to the word |
| Morphology.ZeroLengthSuffixIsWholeWord | scripts/analyze_morphology.py:30 | with length 0, `word[-0:]` is the whole word and `word[:-0]` is empty |
| Morphology.AffixesOfLongWords | scripts/analyze_morphology.py:23-34 | exactly the words longer than the length give an affix, each read off one of them; the list is empty exactly when none is longer |
| Morphology.StemsReassemble | scripts/analyze_morphology.py:42-45 | every stem with the affix put back is a corpus word |
| Morphology.Top | scripts/analyze_morphology.py:38 | `most_common(n)` is the first n entries of a most-common listing |
| Morphology.AnalyzeAffixes | scripts/analyze_morphology.py:17-50 | nothing is reported when no affix was extracted; otherwise the top affixes, each with its count among the affixes, its stem Counter and that Counter's top three |
| Morphology.DescribeAll | scripts/analyze_morphology.py:38-50 | the report loop describes each listed affix, in listing order |
| Morphology.DescribeAffix | scripts/analyze_morphology.py:42-50 | one affix's stem Counter and its three most common stems |
| Morphology.WordNGrams | scripts/analyze_morphology.py:60-62 | a word of length at least n gives len - n + 1 n-grams, a shorter one none |
| Morphology.NGramsAreSubstrings | scripts/analyze_morphology.py:62 | a word's n-grams are exactly its substrings of length n |
| Morphology.AllNGramsCount | scripts/analyze_morphology.py:58-66 | the n-gram total is the per-word counts summed, and it is empty exactly when every word is shorter than n |
| Morphology.CollectNGrams | scripts/analyze_morphology.py:58-63 | the word loop collects every n-gram in order |
| Morphology.NGramsHaveLength | scripts/analyze_morphology.py:62-63 | every collected n-gram has length n |
| Morphology.AnalyzeNGrams | scripts/analyze_morphology.py:52-72 | nothing is reported exactly when every word is shorter than n; otherwise the top n-grams, each of length n with a positive count |
| Spans.FindClose | deep_cleaning_voynich.py:33-36 | the span ends at the first closing character; a lazy span does not cross a newline |
| Spans.FindCloseBeforeNewline | deep_cleaning_voynich.py:33 | the lazy span search never looks past a newline |
| Spans.FindCloseNoNewline | deep_cleaning_voynich.py:34 | on a line without newlines the lazy and the `[^>]*` span end at the same place |
| Spans.RemoveSpans | deep_cleaning_voynich.py:33-36 | removing spans never lengthens the text |
| Spans.RemoveSpansChars | deep_cleaning_voynich.py:33-36 | removing spans only deletes characters |
| Spans.RemoveSpansPlain | deep_cleaning_voynich.py:33-36 | text without the opening character is not changed |
| Spans.RemoveSpansLeavesNoSpan | deep_cleaning_voynich.py:33-36 | on a newline-free line no complete span of that kind survives |
| Spans.RemoveSpansKeepsNoSpan | deep_cleaning_voynich.py:33-36 | a later removal does not recreate a span of another kind |
| Spans.RemoveSpansNoSpan | deep_cleaning_voynich.py:33-36 | text with no complete span is not changed |
| Spans.FindCloseAt | deep_cleaning_voynich.py:33-36 | the lazy match ends at the first closing character |
| Spans.RemoveSpansAtStart | deep_cleaning_voynich.py:33-36 | a complete span at the start of the text is deleted whole |
| Spans.RemoveSpansKeepsPrefix | deep_cleaning_voynich.py:33-36 | text before the first opening character is kept unchanged |
| Spans.RemoveSpansAround | deep_cleaning_voynich.py:33-36 | the first complete span is deleted whole, the text before it kept and the text after it processed on its own |
| DeepClean.TextPart | deep_cleaning_voynich.py:25-29 | the text after the first `>`; None exactly when the line has no `>` |
| DeepClean.TextPartKeepsOut | deep_cleaning_voynich.py:26 | the text part holds no character the line does not |
| DeepClean.DropNoteChars | deep_cleaning_voynich.py:39 | no note character is left and no character is added |
| DeepClean.DropNoteCharsPlain | deep_cleaning_voynich.py:39 | text without note characters is not changed |
| DeepClean.DotsToSpaces | deep_cleaning_voynich.py:42 | each dot becomes a space and every other character is kept |
| DeepClean.DropMarkupLeavesNoMarkup | deep_cleaning_voynich.py:33-36 | after the four removals a newline-free text part has no complete span of any kind |
| DeepClean.LaterStepsKeepNoMarkup | deep_cleaning_voynich.py:39-45 | the steps after the span removals recreate no span |
| DeepClean.StripCollapseTidy | deep_cleaning_voynich.py:45 | collapsing and stripping text without note characters and dots leaves it single-spaced with no end spaces |
| DeepClean.CleanTextIsClean | deep_cleaning_voynich.py:31-45 | a cleaned text part has no note character, no dot, no newline and only single inner spaces; for a newline-free part no complete span is left |
| DeepClean.CleanTextKeepsClean | deep_cleaning_voynich.py:31-45 | cleaning leaves clean text as it is |
| DeepClean.CleanTextFixedPoints | deep_cleaning_voynich.py:31-45 | the clean texts are exactly the fixed points of cleaning |
| DeepClean.CleanTextIdempotent | deep_cleaning_voynich.py:31-45 | cleaning a newline-free text part twice changes nothing |
| DeepClean.CleanLine | deep_cleaning_voynich.py:19-48 | blank, comment and tagless lines are skipped; a kept line is the non-empty cleaning of its text part; every line that cleans to something is kept |
| DeepClean.CleanLineIsClean | deep_cleaning_voynich.py:19-48 | a newline-free source line cleans to a clean line |
| DeepClean.KeptByMembership | deep_cleaning_voynich.py:47-48 | a text is kept exactly when some line yields it |
| DeepClean.CleanedLinesFromSource | deep_cleaning_voynich.py:18-48 | each output line is the cleaning of some source line, and every line that cleans to something is output |
| DeepClean.CleanedLinesAreClean | deep_cleaning_voynich.py:18-48 | every output line is non-empty and clean |
| DeepClean.FinalDeepCleaner | deep_cleaning_voynich.py:4-59 | nothing is written exactly when the source is missing; otherwise the cleaned lines joined by newlines |
| DeepClean.OutputLines | deep_cleaning_voynich.py:51 | reading the output back line by line gives the cleaned lines; no kept line gives an empty output |

## Left out

- Console output (`print`), `os.makedirs` and writing the files are not modelled. A saved file is returned as its sequence of lines.
- Missing files are modelled as `None` inputs. Opening, reading and encoding errors other than a missing file are not modelled. Neither is the catch-all `except Exception` of `final_deep_cleaner`.
- Whitespace, digits and letters are the ASCII ones (whitespace is the ten ASCII characters Python counts as such). Python's other Unicode whitespace (used by `strip()`, `split()` and `\s`), Unicode digits and Unicode lowercasing are not modelled.
- Root tracking and the lift take the label lines their regular expressions match as input, already parsed. For the tracker this is the folio, the label number and the text after the marker. For the lift it is the label text. The matching of `label_regex` against raw lines is not modelled.
- Lift.CalculateLift: it reports the lift as its four counts. The floating-point divisions and the printed rounding are not modelled.
- Segmenter.ScrubLeavesNoSpan: stated for one line only. A comment that spans a line break is not removed, as in the code (see `Segmenter.ScrubSplitComment`); `Segmenter.ScrubLines` applies the lemma line by line.
- Counters.MostCommon: `most_common()` orders keys of equal count by first insertion. The model states only that counts are non-increasing, with each key listed once.
- Morphology.Top: the order among equal counts is likewise not pinned down.
- LongestRoot.SortByLength: `list.sort` works in place. The model sorts as a function on sequences, specified as a stable sort, longest first.
- DeepClean.CleanTextIdempotent: the result depends on the text part having no newline. A lazy span cannot cross a newline, so a text part holding one could leave a span that a second pass removes. Lines read from a file end at their newline, so the model's lines carry none.
- DeepClean.DropNoteChars: the converse direction is not stated (every kept character of the input appears in the output in order). Only "no note character is left and none is added" is proved.
- The morphology survey's `load_corpus` and the `__main__` blocks with fixed arguments are not modelled separately. Word loading is modelled once, by `LexiconBuilder.LoadWordList`, and the survey functions take their parameters.
- `generate_lift_chart.py`, `map_keywords.py`, `analyze_correlations.py` and `analyze_voynich.py` are not part of this model.
