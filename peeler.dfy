/**
 * The word peeler: at most one prefix, then at most one suffix, each the first
 * match in a fixed ordered candidate list, the suffix sought in what the
 * prefix left. Two variants exist in the repository: the validator's keeps
 * both affixes of an all-affix word and returns an empty root (`Peel`); the
 * lexicon builder's and rule inducer's return the whole word as root in that
 * case (`PeelWhole`).
 */
module Peeler {
  import opened Wrappers
  import opened Matching
  import opened Text

  const PrefixCandidates: seq<string> := ["ch", "qo", "sh", "ok", "da", "o", "c", "q", "s", "d"]
  const SuffixCandidates: seq<string> := ["dy", "in", "ey", "ol", "ar", "y", "n", "l", "r", "m"]

  /** The `(prefix, root, suffix)` tuple; an absent affix is Python's `None`. */
  datatype Segmentation = Segmentation(prefix: Option<string>, root: string, suffix: Option<string>)

  /** `x or ""` for an optional affix. */
  function OrEmpty(o: Option<string>): string {
    if o.Some? then o.value else []
  }

  /** `(prefix or "") + root + (suffix or "")`. */
  function Joined(seg: Segmentation): string {
    OrEmpty(seg.prefix) + seg.root + OrEmpty(seg.suffix)
  }

  function Pick(cands: seq<string>, k: Option<nat>): (r: Option<string>)
    requires k.Some? ==> k.value < |cands|
  {
    if k.Some? then Some(cands[k.value]) else None
  }

  /** `s[:-n]`: all but the last `n` characters, except that `s[:-0]` is empty. */
  function DropLast(s: string, n: nat): (r: string)
    requires n <= |s|
    ensures n > 0 ==> r + s[|s| - n..] == s
    ensures n == 0 ==> r == []
  {
    if n == 0 then [] else s[..|s| - n]
  }

  /**
   * Peeling against any ordered prefix and suffix candidate lists. An empty
   * suffix candidate, when it is the first to fit, empties the root as
   * `word[:-0]` does; otherwise the parts rejoin to the word.
   */
  function PeelWith(prefixes: seq<string>, suffixes: seq<string>, word: string): (seg: Segmentation)
    ensures seg.prefix.Some? ==> seg.prefix.value in prefixes
    ensures seg.suffix.Some? ==> seg.suffix.value in suffixes
    ensures seg.suffix != Some([]) ==> Joined(seg) == word
    ensures seg.suffix == Some([]) ==> seg.root == [] && OrEmpty(seg.prefix) <= word
  {
    var prefix := Pick(prefixes, FirstFit(prefixes, word, AtStart));
    var rest := word[|OrEmpty(prefix)|..];
    var suffix := Pick(suffixes, FirstFit(suffixes, rest, AtEnd));
    var root := if suffix.Some? then DropLast(rest, |suffix.value|) else rest;
    if suffix != Some([]) then
      JoinParts(OrEmpty(prefix), root, OrEmpty(suffix), word);
      Segmentation(prefix, root, suffix)
    else
      Segmentation(prefix, root, suffix)
  }

  /** An empty suffix candidate always fits, and cutting it off empties the root. */
  lemma EmptySuffixEmptiesRoot(word: string)
    ensures PeelWith([], [[]], word) == Segmentation(None, [], Some([]))
  {
    FirstFitAt([[]], word, AtEnd, 0);
  }

  /** A prefix, then what is left cut into a root and a suffix, rejoins to the word. */
  lemma JoinParts(p: string, root: string, s: string, word: string)
    requires |p| <= |word| && p == word[..|p|]
    requires |root| + |s| == |word| - |p| && root == word[|p|..|word| - |s|] && s == word[|word| - |s|..]
    ensures p + root + s == word
  {
    assert word == word[..|p|] + word[|p|..|word| - |s|] + word[|word| - |s|..];
  }

  /** `peel_word` of the validator: an all-affix word keeps both affixes and an empty root. */
  function Peel(word: string): (seg: Segmentation)
    ensures Joined(seg) == word
  {
    assert [] !in SuffixCandidates;
    PeelWith(PrefixCandidates, SuffixCandidates, word)
  }

  /** The loops of `peel_word`: scan, strip, break. */
  method PeelWord(word: string) returns (prefix: Option<string>, root: string, suffix: Option<string>)
    ensures Segmentation(prefix, root, suffix) == Peel(word)
  {
    prefix, root, suffix := PeelWordWith(PrefixCandidates, SuffixCandidates, word);
  }

  method PeelWordWith(prefixes: seq<string>, suffixes: seq<string>, word: string)
    returns (prefix: Option<string>, root: string, suffix: Option<string>)
    ensures Segmentation(prefix, root, suffix) == PeelWith(prefixes, suffixes, word)
  {
    prefix, suffix := None, None;
    root := word;
    for k := 0 to |prefixes|
      invariant prefix == None && root == word
      invariant forall j :: 0 <= j < k ==> !Fits(prefixes[j], word, AtStart)
    {
      var p := prefixes[k];
      if p <= root {
        assert FirstFit(prefixes, word, AtStart) == Some(k);
        prefix := Some(p);
        root := root[|p|..];
        break;
      }
    }
    assert prefix == Pick(prefixes, FirstFit(prefixes, word, AtStart));
    ghost var rest := root;
    for k := 0 to |suffixes|
      invariant suffix == None && root == rest
      invariant forall j :: 0 <= j < k ==> !Fits(suffixes[j], rest, AtEnd)
    {
      var s := suffixes[k];
      if |s| <= |root| && root[|root| - |s|..] == s {
        assert FirstFit(suffixes, rest, AtEnd) == Some(k);
        suffix := Some(s);
        root := if |s| == 0 then [] else root[..|root| - |s|];
        break;
      }
    }
    assert suffix == Pick(suffixes, FirstFit(suffixes, rest, AtEnd));
  }

  /**
   * `peel_word` of the lexicon builder and the rule inducer: when stripping
   * empties the root, the whole word is returned as root with no affixes.
   */
  function PeelWhole(word: string): (seg: Segmentation)
    ensures Joined(seg) == word
    ensures word != [] ==> seg.root != []
    ensures seg.root == [] ==> seg == Segmentation(None, [], None)
  {
    WholeIfNoRoot(Peel(word), word)
  }

  /** The fallback of `peel_word`: a segmentation of `word` with an empty root gives way to the whole word. */
  function WholeIfNoRoot(seg: Segmentation, word: string): (r: Segmentation)
    requires Joined(seg) == word
    ensures Joined(r) == word
    ensures word != [] ==> r.root != []
    ensures r.root == [] ==> r == Segmentation(None, [], None)
  {
    if seg.root == [] then
      var w := Segmentation(None, word, None);
      assert Joined(w) == [] + word + [];
      assert [] + word + [] == word;
      w
    else seg
  }

  /** The loops of `peel_word` followed by the whole-word fallback. */
  method PeelWordWhole(word: string) returns (prefix: Option<string>, root: string, suffix: Option<string>)
    ensures Segmentation(prefix, root, suffix) == PeelWhole(word)
  {
    prefix, root, suffix := PeelWord(word);
    if root == [] {
      prefix, root, suffix := None, word, None;
    }
  }

  /** The parts of a lowercase word are lowercase. */
  lemma PartsOfLowerWord(seg: Segmentation)
    requires IsLowerWord(Joined(seg))
    ensures IsLowerWord(OrEmpty(seg.prefix)) && IsLowerWord(seg.root) && IsLowerWord(OrEmpty(seg.suffix))
  {
    var w := Joined(seg);
    var p, r, s := OrEmpty(seg.prefix), seg.root, OrEmpty(seg.suffix);
    assert forall i :: 0 <= i < |p| ==> p[i] == w[i];
    assert forall i :: 0 <= i < |r| ==> r[i] == w[|p| + i];
    assert forall i :: 0 <= i < |s| ==> s[i] == w[|p| + |r| + i];
  }

  /** The prefix is the first listed candidate the word starts with; the suffix the first one the remainder ends with. */
  lemma PeelPicksFirstCandidates(word: string)
    ensures var seg := Peel(word);
      && (seg.prefix == None <==> forall j :: 0 <= j < |PrefixCandidates| ==> !(PrefixCandidates[j] <= word))
      && (seg.prefix.Some? ==>
            exists i :: 0 <= i < |PrefixCandidates| && seg.prefix.value == PrefixCandidates[i] && PrefixCandidates[i] <= word
              && forall j :: 0 <= j < i ==> !(PrefixCandidates[j] <= word))
    ensures var seg := Peel(word); var rest := word[|OrEmpty(seg.prefix)|..];
      && (seg.suffix == None <==> forall j :: 0 <= j < |SuffixCandidates| ==> !Fits(SuffixCandidates[j], rest, AtEnd))
      && (seg.suffix.Some? ==>
            exists i :: 0 <= i < |SuffixCandidates| && seg.suffix.value == SuffixCandidates[i]
              && Fits(SuffixCandidates[i], rest, AtEnd) && forall j :: 0 <= j < i ==> !Fits(SuffixCandidates[j], rest, AtEnd))
  {
    var seg := Peel(word);
    var pk := FirstFit(PrefixCandidates, word, AtStart);
    if pk.Some? {
      assert seg.prefix.value == PrefixCandidates[pk.value];
    }
    var rest := word[|OrEmpty(seg.prefix)|..];
    var sk := FirstFit(SuffixCandidates, rest, AtEnd);
    if sk.Some? {
      assert seg.suffix.value == SuffixCandidates[sk.value];
    }
  }

  /** Both candidate lists put the two-letter entries first, so the first match is a longest match. */
  lemma PeelTakesLongestAffix(word: string)
    ensures var seg := Peel(word);
      forall j :: 0 <= j < |PrefixCandidates| && PrefixCandidates[j] <= word ==> |PrefixCandidates[j]| <= |OrEmpty(seg.prefix)|
    ensures var seg := Peel(word); var rest := word[|OrEmpty(seg.prefix)|..];
      forall j :: 0 <= j < |SuffixCandidates| && Fits(SuffixCandidates[j], rest, AtEnd) ==> |SuffixCandidates[j]| <= |OrEmpty(seg.suffix)|
  {
    TwoLettersFirst(PrefixCandidates, 5);
    TwoLettersFirst(SuffixCandidates, 5);
    PeelWithTakesLongest(PrefixCandidates, SuffixCandidates, word);
  }

  /** A list of two-letter entries followed by one-letter entries is ordered longest first. */
  lemma TwoLettersFirst(cands: seq<string>, k: nat)
    requires k <= |cands|
    requires forall i :: 0 <= i < k ==> |cands[i]| == 2
    requires forall i :: k <= i < |cands| ==> |cands[i]| == 1
    ensures LongestFirst(cands)
  {
  }

  /** Over candidate lists ordered longest first, each affix peeled is a longest fitting one. */
  lemma PeelWithTakesLongest(prefixes: seq<string>, suffixes: seq<string>, word: string)
    requires LongestFirst(prefixes) && LongestFirst(suffixes)
    ensures var seg := PeelWith(prefixes, suffixes, word);
      forall j :: 0 <= j < |prefixes| && prefixes[j] <= word ==> |prefixes[j]| <= |OrEmpty(seg.prefix)|
    ensures var seg := PeelWith(prefixes, suffixes, word); var rest := word[|OrEmpty(seg.prefix)|..];
      forall j :: 0 <= j < |suffixes| && Fits(suffixes[j], rest, AtEnd) ==> |suffixes[j]| <= |OrEmpty(seg.suffix)|
  {
    var pk := FirstFit(prefixes, word, AtStart);
    if pk.Some? {
      FirstFitIsLongest(prefixes, word, AtStart, pk.value);
    }
    var rest := word[|OrEmpty(PeelWith(prefixes, suffixes, word).prefix)|..];
    var sk := FirstFit(suffixes, rest, AtEnd);
    if sk.Some? {
      FirstFitIsLongest(suffixes, rest, AtEnd, sk.value);
    }
  }

  /** The two variants differ exactly on words that peel to an empty root. */
  lemma PeelVariantsAgree(word: string)
    ensures Peel(word).root != [] ==> PeelWhole(word) == Peel(word)
    ensures Peel(word).root == [] ==> PeelWhole(word) == Segmentation(None, word, None)
    ensures PeelWhole(word).root == word || PeelWhole(word) == Peel(word)
  {
  }

  lemma DyPrefix(w: string)
    requires w == "dy"
    ensures FirstFit(PrefixCandidates, w, AtStart) == Some(9)
  {
    assert w[0] == 'd' && w[1] == 'y';
    assert forall j :: 0 <= j < 9 ==> !Fits(PrefixCandidates[j], w, AtStart);
    FirstFitAt(PrefixCandidates, w, AtStart, 9);
  }

  lemma YSuffix(w: string)
    requires w == "y"
    ensures FirstFit(SuffixCandidates, w, AtEnd) == Some(5)
  {
    assert w[0] == 'y';
    assert forall j :: 0 <= j < 5 ==> !Fits(SuffixCandidates[j], w, AtEnd);
    FirstFitAt(SuffixCandidates, w, AtEnd, 5);
  }

  /** "dy" is all affixes: the validator keeps both, the builder keeps the whole word. */
  lemma AllAffixWord(w: string)
    requires w == "dy"
    ensures Peel(w) == Segmentation(Some("d"), "", Some("y"))
    ensures PeelWhole(w) == Segmentation(None, w, None)
  {
    DyPrefix(w);
    assert w[1..] == "y";
    YSuffix(w[1..]);
    PeelVariantsAgree(w);
  }

  /** "chedy": "ch" is listed before every other prefix and "dy" before "y". */
  lemma PeelExample(w: string)
    requires w == "chedy"
    ensures Peel(w) == Segmentation(Some("ch"), "e", Some("dy"))
  {
    assert w[0] == 'c' && w[1] == 'h';
    FirstFitAt(PrefixCandidates, w, AtStart, 0);
    var rest := w[2..];
    assert rest == "edy";
    FirstFitAt(SuffixCandidates, rest, AtEnd, 0);
    assert rest[..1] == "e";
  }
}
