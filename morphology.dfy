/**
 * The morphology survey: fixed-length prefixes or suffixes of the corpus
 * words with the stems they attach to, and the character n-grams inside the
 * words. Each survey is counted with a Counter and its most common entries
 * are reported; nothing is reported when nothing was extracted.
 */
module Morphology {
  import opened Wrappers
  import opened Text
  import opened Counters

  /** `position='start'` or `position='end'`. */
  datatype Position = Start | End

  /** `word[:n]`, clamped. */
  function Head(word: string, n: nat): (r: string)
    ensures r <= word && |r| == if n <= |word| then n else |word|
  {
    if n <= |word| then word[..n] else word
  }

  /** `word[-n:]`, clamped; `word[-0:]` is the whole word, since `-0` is `0`. */
  function Tail(word: string, n: nat): (r: string)
  {
    if n == 0 || n > |word| then word else word[|word| - n..]
  }

  /** `word[n:]`, clamped. */
  function DropHead(word: string, n: nat): (r: string)
  {
    if n <= |word| then word[n..] else []
  }

  /** `word[:-n]`, clamped; `word[:-0]` is empty, since `-0` is `0`. */
  function DropTail(word: string, n: nat): (r: string)
  {
    if n == 0 || n > |word| then [] else word[..|word| - n]
  }

  /** The affix read off a word: `word[:length]` or `word[-length:]`. */
  function AffixOf(word: string, position: Position, length: nat): string {
    match position
    case Start => Head(word, length)
    case End => Tail(word, length)
  }

  /** An affix of a word longer than `length` is that word's first or last `length` characters (for a positive length at the end). */
  lemma AffixIsWordEnd(word: string, position: Position, length: nat)
    requires |word| > length
    requires position == End ==> length > 0
    ensures |AffixOf(word, position, length)| == length
    ensures position == Start ==> AffixOf(word, position, length) + DropHead(word, length) == word
    ensures position == End ==> DropTail(word, length) + AffixOf(word, position, length) == word
  {
  }

  /** With length 0, the end affix of a word is the word itself and its stem is empty. */
  lemma ZeroLengthSuffixIsWholeWord(word: string)
    ensures AffixOf(word, End, 0) == word && DropTail(word, 0) == []
    ensures AffixOf(word, Start, 0) == [] && DropHead(word, 0) == word
  {
  }

  /** The affix list: one affix per word strictly longer than `length`, in word order. */
  function Affixes(words: seq<string>, position: Position, length: nat): seq<string> {
    if words == [] then []
    else
      var w := words[|words| - 1];
      Affixes(words[..|words| - 1], position, length) + if |w| > length then [AffixOf(w, position, length)] else []
  }

  /** The words strictly longer than `length`. */
  function LongerThan(words: seq<string>, length: nat): nat {
    if words == [] then 0
    else LongerThan(words[..|words| - 1], length) + if |words[|words| - 1]| > length then 1 else 0
  }

  /** Exactly the words longer than `length` give an affix, and each affix is read off one of them. */
  lemma AffixesOfLongWords(words: seq<string>, position: Position, length: nat)
    ensures |Affixes(words, position, length)| == LongerThan(words, length)
    ensures forall a :: a in Affixes(words, position, length) <==>
      exists w :: w in words && |w| > length && a == AffixOf(w, position, length)
    ensures Affixes(words, position, length) == [] <==> forall w :: w in words ==> |w| <= length
  {
    AffixesCount(words, position, length);
    AffixesMembership(words, position, length);
    var xs := Affixes(words, position, length);
    if xs != [] {
      assert xs[0] in xs;
    }
    if exists w :: w in words && |w| > length {
      var w :| w in words && |w| > length;
      assert AffixOf(w, position, length) in xs;
    }
  }

  lemma {:induction false} AffixesCount(words: seq<string>, position: Position, length: nat)
    ensures |Affixes(words, position, length)| == LongerThan(words, length)
  {
    if words != [] {
      AffixesCount(words[..|words| - 1], position, length);
    }
  }

  lemma {:induction false} AffixesMembership(words: seq<string>, position: Position, length: nat)
    ensures forall a :: a in Affixes(words, position, length) <==>
      exists w :: w in words && |w| > length && a == AffixOf(w, position, length)
  {
    if words != [] {
      var init := words[..|words| - 1];
      var last := words[|words| - 1];
      AffixesMembership(init, position, length);
      assert words == init + [last];
      forall a ensures a in Affixes(words, position, length) <==>
        exists w :: w in words && |w| > length && a == AffixOf(w, position, length)
      {
        if exists w :: w in words && |w| > length && a == AffixOf(w, position, length) {
          var w :| w in words && |w| > length && a == AffixOf(w, position, length);
          if w != last {
            assert w in init;
          }
        }
        if a in Affixes(init, position, length) {
          var w :| w in init && |w| > length && a == AffixOf(w, position, length);
          assert w in words;
        }
      }
    }
  }

  /** Whether a word carries the affix: `word.startswith(affix)` or `word.endswith(affix)`. */
  predicate Carries(word: string, affix: string, position: Position) {
    match position
    case Start => affix <= word
    case End => |affix| <= |word| && word[|word| - |affix|..] == affix
  }

  /** The stem left after removing `length` characters: `word[length:]` or `word[:-length]`. */
  function StemOf(word: string, position: Position, length: nat): string {
    match position
    case Start => DropHead(word, length)
    case End => DropTail(word, length)
  }

  /** The stems of the words carrying `affix`, in word order. */
  function Stems(words: seq<string>, affix: string, position: Position, length: nat): seq<string> {
    if words == [] then []
    else
      var w := words[|words| - 1];
      Stems(words[..|words| - 1], affix, position, length) + if Carries(w, affix, position) then [StemOf(w, position, length)] else []
  }

  /**
   * For an affix of the surveyed length (every affix read off a word is one,
   * except at the end with length 0), each stem put back together with the
   * affix gives a word of the corpus.
   */
  lemma {:induction false} StemsReassemble(words: seq<string>, affix: string, position: Position, length: nat)
    requires |affix| == length
    requires position == End ==> length > 0
    ensures forall s :: s in Stems(words, affix, position, length) ==>
      exists w :: w in words && w == Reassembled(affix, s, position)
  {
    if words != [] {
      var init := words[..|words| - 1];
      var w := words[|words| - 1];
      StemsReassemble(init, affix, position, length);
      assert forall x :: x in init ==> x in words;
      assert w in words;
      if Carries(w, affix, position) {
        var stem := StemOf(w, position, length);
        assert Stems(words, affix, position, length) == Stems(init, affix, position, length) + [stem];
        assert Reassembled(affix, stem, position) == w;
      } else {
        assert Stems(words, affix, position, length) == Stems(init, affix, position, length) + [];
      }
    }
  }

  /** The affix put back on its stem: `affix + stem` or `stem + affix`. */
  function Reassembled(affix: string, stem: string, position: Position): string {
    match position
    case Start => affix + stem
    case End => stem + affix
  }

  /** `entries` are the first `n` entries of a most-common listing of `counter`. */
  ghost predicate IsTop<T(!new)>(entries: seq<(T, nat)>, counter: map<T, nat>, n: nat) {
    exists all :: IsMostCommon(all, counter) && entries == all[..if n <= |all| then n else |all|]
  }

  /** `most_common(n)`. */
  method Top<T(==,!new)>(counter: map<T, nat>, n: nat) returns (entries: seq<(T, nat)>)
    ensures IsTop(entries, counter, n)
    ensures |entries| <= n
    ensures forall e :: e in entries ==> e.0 in counter && e.1 == counter[e.0]
  {
    var all := MostCommon(counter);
    entries := all[..if n <= |all| then n else |all|];
    forall e | e in entries ensures e in all {
      var i :| 0 <= i < |entries| && entries[i] == e;
      assert all[i] == e;
    }
  }

  /** One reported affix: its count, the Counter of its stems and their three most common entries. */
  datatype AffixReport = AffixReport(affix: string, count: nat, stemCounts: map<string, nat>, topStems: seq<(string, nat)>)

  /** The listing of a report's affixes with their counts. */
  function AffixCounts(r: seq<AffixReport>): seq<(string, nat)> {
    seq(|r|, i requires 0 <= i < |r| => (r[i].affix, r[i].count))
  }

  /**
   * A reported affix is one read off the words, with its count among them,
   * the Counter of the stems of the words carrying it, and that Counter's
   * three most common entries.
   */
  ghost predicate Describes(e: AffixReport, words: seq<string>, position: Position, length: nat) {
    && e.affix in Affixes(words, position, length)
    && e.count == Count(Affixes(words, position, length), e.affix)
    && e.stemCounts == Tally(Stems(words, e.affix, position, length))
    && IsTop(e.topStems, e.stemCounts, 3)
  }

  /** `analyze_affixes`: None when no word is longer than `length` (the early return). */
  method AnalyzeAffixes(words: seq<string>, position: Position, length: nat, topN: nat)
    returns (report: Option<seq<AffixReport>>)
    ensures report.None? <==> Affixes(words, position, length) == []
    ensures report.Some? ==> IsTop(AffixCounts(report.value), Tally(Affixes(words, position, length)), topN)
    ensures report.Some? ==> forall e :: e in report.value ==> Describes(e, words, position, length)
  {
    var affixes := Affixes(words, position, length);
    if affixes == [] {
      return None;
    }
    var counts := Tally(affixes);
    var top := Top(counts, topN);
    assert forall e :: e in top ==> e.0 in affixes && e.1 == Count(affixes, e.0) by {
      assert forall k :: Get(counts, k) == Count(affixes, k);
    }
    var r := DescribeAll(words, top, position, length);
    report := Some(r);
  }

  /** The report loop of `analyze_affixes`: one stem survey per listed affix, in listing order. */
  method DescribeAll(words: seq<string>, top: seq<(string, nat)>, position: Position, length: nat)
    returns (r: seq<AffixReport>)
    requires forall e :: e in top ==> e.0 in Affixes(words, position, length) && e.1 == Count(Affixes(words, position, length), e.0)
    ensures AffixCounts(r) == top
    ensures forall e :: e in r ==> Describes(e, words, position, length)
  {
    r := [];
    for i := 0 to |top|
      invariant |r| == i
      invariant forall j :: 0 <= j < i ==> (r[j].affix, r[j].count) == top[j]
      invariant forall j :: 0 <= j < i ==> Describes(r[j], words, position, length)
    {
      assert top[i] in top;
      var entry := DescribeAffix(words, top[i].0, top[i].1, position, length);
      assert Describes(entry, words, position, length);
      AllDescribedSnoc(r, entry, words, position, length);
      r := r + [entry];
    }
    assert AffixCounts(r) == top;
    assert forall e :: e in r ==> exists j :: 0 <= j < |r| && r[j] == e;
  }

  lemma AllDescribedSnoc(r: seq<AffixReport>, entry: AffixReport, words: seq<string>, position: Position, length: nat)
    requires forall j :: 0 <= j < |r| ==> Describes(r[j], words, position, length)
    requires Describes(entry, words, position, length)
    ensures forall j :: 0 <= j < |r| + 1 ==> Describes((r + [entry])[j], words, position, length)
  {
    assert forall j :: 0 <= j < |r| ==> (r + [entry])[j] == r[j];
  }

  /** The stem survey of one reported affix: the Counter of its stems and their three most common. */
  method DescribeAffix(words: seq<string>, affix: string, count: nat, position: Position, length: nat)
    returns (entry: AffixReport)
    ensures entry.affix == affix && entry.count == count
    ensures entry.stemCounts == Tally(Stems(words, affix, position, length))
    ensures IsTop(entry.topStems, entry.stemCounts, 3)
  {
    var stemCounts := Tally(Stems(words, affix, position, length));
    var topStems := Top(stemCounts, 3);
    entry := AffixReport(affix, count, stemCounts, topStems);
  }

  /** The n-grams of one word: `[word[i:i+n] for i in range(len(word) - n + 1)]`, for a word at least `n` long. */
  function WordNGrams(word: string, n: nat): (grams: seq<string>)
    ensures |word| >= n ==> |grams| == |word| - n + 1
    ensures |word| < n ==> grams == []
  {
    if |word| >= n then seq(|word| - n + 1, i requires 0 <= i < |word| - n + 1 => word[i..i + n]) else []
  }

  /** The n-grams of a word are exactly its substrings of length `n`, each of length `n`. */
  lemma NGramsAreSubstrings(word: string, n: nat)
    ensures forall g :: g in WordNGrams(word, n) ==> |g| == n
    ensures forall g :: g in WordNGrams(word, n) <==> |g| == n && Occurs(g, word)
  {
    OccursAt(word, word);
    forall g ensures g in WordNGrams(word, n) <==> |g| == n && Occurs(g, word) {
      OccursAt(g, word);
      if |g| == n && Occurs(g, word) {
        var i :| SitsAt(g, word, i);
        assert WordNGrams(word, n)[i] == g;
      }
      if g in WordNGrams(word, n) {
        var i :| 0 <= i < |WordNGrams(word, n)| && WordNGrams(word, n)[i] == g;
        assert SitsAt(g, word, i);
      }
    }
  }

  /** All the n-grams, word by word. */
  function AllNGrams(words: seq<string>, n: nat): seq<string> {
    if words == [] then [] else AllNGrams(words[..|words| - 1], n) + WordNGrams(words[|words| - 1], n)
  }

  /** How many n-grams a word gives: `len(word) - n + 1`, or none for a shorter word. */
  function NGramCount(words: seq<string>, n: nat): nat {
    if words == [] then 0
    else
      var w := words[|words| - 1];
      NGramCount(words[..|words| - 1], n) + if |w| >= n then |w| - n + 1 else 0
  }

  /** Words shorter than `n` contribute nothing, the others `len - n + 1` each. */
  lemma AllNGramsCount(words: seq<string>, n: nat)
    ensures |AllNGrams(words, n)| == NGramCount(words, n)
    ensures AllNGrams(words, n) == [] <==> forall w :: w in words ==> |w| < n
  {
    AllNGramsLength(words, n);
    NGramCountZero(words, n);
  }

  lemma {:induction false} AllNGramsLength(words: seq<string>, n: nat)
    ensures |AllNGrams(words, n)| == NGramCount(words, n)
  {
    if words != [] {
      AllNGramsLength(words[..|words| - 1], n);
    }
  }

  /** No n-gram is counted exactly when every word is shorter than `n`. */
  lemma {:induction false} NGramCountZero(words: seq<string>, n: nat)
    ensures NGramCount(words, n) == 0 <==> forall w :: w in words ==> |w| < n
  {
    if words != [] {
      var init := words[..|words| - 1];
      NGramCountZero(init, n);
      assert words == init + [words[|words| - 1]];
    }
  }

  /** The loop of `analyze_ngrams` that extends `all_ngrams` word by word. */
  method CollectNGrams(words: seq<string>, n: nat) returns (all: seq<string>)
    ensures all == AllNGrams(words, n)
  {
    all := [];
    for k := 0 to |words|
      invariant all == AllNGrams(words[..k], n)
    {
      assert words[..k + 1][..k] == words[..k];
      var word := words[k];
      if |word| >= n {
        all := all + WordNGrams(word, n);
      } else {
        assert WordNGrams(word, n) == [];
        assert all + [] == all;
      }
    }
    assert words[..|words|] == words;
  }

  /** `analyze_ngrams`: None when there is no n-gram (the early return), else the `topN` most common. */
  method AnalyzeNGrams(words: seq<string>, n: nat, topN: nat) returns (top: Option<seq<(string, nat)>>)
    ensures top.None? <==> forall w :: w in words ==> |w| < n
    ensures top.Some? ==> IsTop(top.value, Tally(AllNGrams(words, n)), topN)
    ensures top.Some? ==> forall e :: e in top.value ==> |e.0| == n && e.1 > 0
  {
    var all := CollectNGrams(words, n);
    AllNGramsCount(words, n);
    if all == [] {
      return None;
    }
    var counts := Tally(all);
    var entries := Top(counts, topN);
    NGramsHaveLength(words, n);
    forall e | e in entries ensures |e.0| == n && e.1 > 0 {
      assert e.0 in counts && e.1 == Get(counts, e.0);
      assert Get(counts, e.0) == Count(all, e.0);
    }
    top := Some(entries);
  }

  lemma {:induction false} NGramsHaveLength(words: seq<string>, n: nat)
    ensures forall g :: g in AllNGrams(words, n) ==> |g| == n
  {
    if words != [] {
      NGramsHaveLength(words[..|words| - 1], n);
      NGramsAreSubstrings(words[|words| - 1], n);
    }
  }
}
