/**
 * The grammatical validator: five sets loaded from the lexicon and rule
 * files, a readiness flag, and a cascade of checks deciding whether a word
 * follows the discovered grammar.
 */
module Validator {
  import opened Wrappers
  import opened Peeler
  import opened LexiconFile

  /** The five sets a ready validator holds. */
  datatype Grammar = Grammar(
    prefixes: set<string>, roots: set<string>, suffixes: set<string>,
    prefixRootRules: set<(string, string)>, rootSuffixRules: set<(string, string)>)

  /** Which branch of `is_valid_word` decided, in the order they are tried. */
  datatype Verdict =
    | NotReady
    | KnownRoot
    | PrefixSuffixOnly
    | UnknownRoot
    | UnknownPrefix
    | UnknownSuffix
    | NoPrefixRootRule
    | NoRootSuffixRule
    | FollowsRules
  {
    predicate Accepted() {
      this == KnownRoot || this == PrefixSuffixOnly || this == FollowsRules
    }
  }

  /** The cascade of `is_valid_word` for a ready validator; an affix counts only when it is non-empty (Python truthiness). */
  function Judge(g: Grammar, word: string): Verdict {
    if word in g.roots then KnownRoot
    else
      var seg := Peel(word);
      var prefix, root, suffix := OrEmpty(seg.prefix), seg.root, OrEmpty(seg.suffix);
      if prefix != [] && suffix != [] && root == [] && prefix in g.prefixes && suffix in g.suffixes then PrefixSuffixOnly
      else if root !in g.roots then UnknownRoot
      else if prefix != [] && prefix !in g.prefixes then UnknownPrefix
      else if suffix != [] && suffix !in g.suffixes then UnknownSuffix
      else if prefix != [] && (prefix, root) !in g.prefixRootRules then NoPrefixRootRule
      else if suffix != [] && (root, suffix) !in g.rootSuffixRules then NoRootSuffixRule
      else FollowsRules
  }

  /**
   * The grammar's notion of a legal word, stated without the order of the
   * checks: a known root; or prefix plus suffix around nothing, both known;
   * or a known root whose present affixes are known and attested next to it.
   */
  predicate Legal(g: Grammar, word: string) {
    var seg := Peel(word);
    var prefix, root, suffix := OrEmpty(seg.prefix), seg.root, OrEmpty(seg.suffix);
    || word in g.roots
    || (prefix != [] && suffix != [] && root == [] && prefix in g.prefixes && suffix in g.suffixes)
    || (&& root in g.roots
        && (prefix == [] || (prefix in g.prefixes && (prefix, root) in g.prefixRootRules))
        && (suffix == [] || (suffix in g.suffixes && (root, suffix) in g.rootSuffixRules)))
  }

  /** `all([...])` over the five loaded sets: each present and non-empty. */
  predicate AllLoaded(prefixes: Option<set<string>>, roots: Option<set<string>>, suffixes: Option<set<string>>,
                      prefixRootRules: Option<set<(string, string)>>, rootSuffixRules: Option<set<(string, string)>>) {
    && prefixes.Some? && prefixes.value != {}
    && roots.Some? && roots.value != {}
    && suffixes.Some? && suffixes.value != {}
    && prefixRootRules.Some? && prefixRootRules.value != {}
    && rootSuffixRules.Some? && rootSuffixRules.value != {}
  }

  /** What `load_rules` returns for a file that may be missing. */
  function LoadedRules(file: Option<seq<string>>): Option<set<(string, string)>> {
    if file.None? then None else Some(RulesIn(file.value))
  }

  class VoynichValidator {
    const prefixes: Option<set<string>>
    const roots: Option<set<string>>
    const suffixes: Option<set<string>>
    const prefixRootRules: Option<set<(string, string)>>
    const rootSuffixRules: Option<set<(string, string)>>
    const isReady: bool

    /** The readiness flag agrees with what was loaded. */
    ghost predicate Valid() {
      isReady == AllLoaded(prefixes, roots, suffixes, prefixRootRules, rootSuffixRules)
    }

    /** Loads the five files, each possibly missing. */
    constructor (prefixFile: Option<seq<string>>, rootFile: Option<seq<string>>, suffixFile: Option<seq<string>>,
                 prefixRootFile: Option<seq<string>>, rootSuffixFile: Option<seq<string>>)
      ensures Valid()
      ensures prefixes == LoadLexicon(prefixFile) && roots == LoadLexicon(rootFile) && suffixes == LoadLexicon(suffixFile)
      ensures prefixRootRules == LoadedRules(prefixRootFile) && rootSuffixRules == LoadedRules(rootSuffixFile)
    {
      var p, r, s := LoadLexicon(prefixFile), LoadLexicon(rootFile), LoadLexicon(suffixFile);
      var prefixRoot := LoadRules(prefixRootFile);
      var rootSuffix := LoadRules(rootSuffixFile);
      prefixes, roots, suffixes := p, r, s;
      prefixRootRules, rootSuffixRules := prefixRoot, rootSuffix;
      isReady := AllLoaded(p, r, s, prefixRoot, rootSuffix);
    }

    /** The grammar of a ready validator. */
    function GrammarOf(): Grammar
      requires isReady && Valid()
    {
      Grammar(prefixes.value, roots.value, suffixes.value, prefixRootRules.value, rootSuffixRules.value)
    }

    /** The verdict of `is_valid_word`: nothing is accepted before the validator is ready. */
    function Check(word: string): (v: Verdict)
      requires Valid()
      ensures !isReady ==> v == NotReady
      ensures isReady ==> (v.Accepted() <==> Legal(GrammarOf(), word))
    {
      if !isReady then NotReady
      else
        JudgeIsLegal(GrammarOf(), word);
        Judge(GrammarOf(), word)
    }

    /** `is_valid_word`, step by step. */
    method IsValidWord(word: string) returns (ok: bool)
      requires Valid()
      ensures ok == Check(word).Accepted()
      ensures ok ==> isReady && Legal(GrammarOf(), word)
    {
      if !isReady {
        return false;
      }
      if word in roots.value {
        return true;
      }
      var prefix, root, suffix := PeelWord(word);
      var p, s := OrEmpty(prefix), OrEmpty(suffix);
      if p != [] && s != [] && root == [] {
        if p in prefixes.value && s in suffixes.value {
          return true;
        }
      }
      if root !in roots.value {
        return false;
      }
      if p != [] && p !in prefixes.value {
        return false;
      }
      if s != [] && s !in suffixes.value {
        return false;
      }
      if p != [] && (p, root) !in prefixRootRules.value {
        return false;
      }
      if s != [] && (root, s) !in rootSuffixRules.value {
        return false;
      }
      return true;
    }
  }

  /** The cascade accepts exactly the legal words. */
  lemma JudgeIsLegal(g: Grammar, word: string)
    ensures Judge(g, word).Accepted() <==> Legal(g, word)
  {
  }

  /** Each rejection names the first check that failed: every earlier one passed. */
  lemma RejectionReasons(g: Grammar, word: string)
    ensures var seg := Peel(word); var prefix, root, suffix := OrEmpty(seg.prefix), seg.root, OrEmpty(seg.suffix);
      && (Judge(g, word) == UnknownRoot ==> word !in g.roots && root !in g.roots)
      && (Judge(g, word) == UnknownPrefix ==> root in g.roots && prefix != [] && prefix !in g.prefixes)
      && (Judge(g, word) == UnknownSuffix ==> root in g.roots && (prefix == [] || prefix in g.prefixes) && suffix !in g.suffixes)
      && (Judge(g, word) == NoPrefixRootRule ==>
            root in g.roots && prefix in g.prefixes && (suffix == [] || suffix in g.suffixes) && (prefix, root) !in g.prefixRootRules)
      && (Judge(g, word) == NoRootSuffixRule ==>
            root in g.roots && suffix in g.suffixes && (prefix == [] || (prefix, root) in g.prefixRootRules)
            && (root, suffix) !in g.rootSuffixRules)
  {
  }

  /** Larger lexicons and rule sets never reject a word a smaller grammar accepts. */
  lemma AcceptanceMonotone(g: Grammar, h: Grammar, word: string)
    requires g.prefixes <= h.prefixes && g.roots <= h.roots && g.suffixes <= h.suffixes
    requires g.prefixRootRules <= h.prefixRootRules && g.rootSuffixRules <= h.rootSuffixRules
    requires Judge(g, word).Accepted()
    ensures Judge(h, word).Accepted()
  {
    JudgeIsLegal(g, word);
    JudgeIsLegal(h, word);
  }

  /**
   * A word that is all affixes (its root peels to nothing) and is not itself a
   * known root is accepted exactly when both affixes are known, unless the
   * empty string was loaded as a root.
   */
  lemma AllAffixWords(g: Grammar, word: string)
    requires Peel(word).root == [] && word !in g.roots && [] !in g.roots
    ensures Judge(g, word).Accepted() <==>
      var seg := Peel(word);
      OrEmpty(seg.prefix) != [] && OrEmpty(seg.suffix) != [] && OrEmpty(seg.prefix) in g.prefixes && OrEmpty(seg.suffix) in g.suffixes
  {
  }

  /** "chedy" peels to ch + e + dy and is accepted when all three parts and both pairs are known. */
  lemma ChedyAccepted(g: Grammar, w: string)
    requires w == "chedy"
    requires "ch" in g.prefixes && "e" in g.roots && "dy" in g.suffixes
    requires ("ch", "e") in g.prefixRootRules && ("e", "dy") in g.rootSuffixRules
    ensures Judge(g, w) == (if w in g.roots then KnownRoot else FollowsRules)
  {
    PeelExample(w);
  }

  /** "chedy" with no ("ch", "e") rule is rejected for that rule unless it is itself a known root. */
  lemma ChedyNeedsRule(g: Grammar, w: string)
    requires w == "chedy" && w !in g.roots
    requires "ch" in g.prefixes && "e" in g.roots && "dy" in g.suffixes
    requires ("ch", "e") !in g.prefixRootRules
    ensures Judge(g, w) == NoPrefixRootRule
  {
    PeelExample(w);
  }

  /** "dy" is all affixes: d + y, accepted on the prefix-suffix branch when both are known. */
  lemma DyAccepted(g: Grammar, w: string)
    requires w == "dy"
    requires "d" in g.prefixes && "y" in g.suffixes
    ensures Judge(g, w).Accepted()
  {
    AllAffixWord(w);
  }
}
