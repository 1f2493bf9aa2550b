/**
 * First-match search over an ordered candidate list. `peel_word` looks for the
 * first prefix a word starts with and the first suffix it ends with;
 * `find_longest_root` looks for the first root the word contains.
 */
module Matching {
  import opened Wrappers
  import opened Text

  /** Where a candidate has to sit in the subject string. */
  datatype Anchor = AtStart | AtEnd | Anywhere

  /** `s.startswith(c)`, `s.endswith(c)` or `c in s`. */
  predicate Fits(c: string, s: string, anchor: Anchor) {
    match anchor
    case AtStart => c <= s
    case AtEnd => |c| <= |s| && s[|s| - |c|..] == c
    case Anywhere => Occurs(c, s)
  }

  /** The index of the first candidate, in list order, that fits `s`; None when none does. */
  function FirstFit(cands: seq<string>, s: string, anchor: Anchor): (r: Option<nat>)
    ensures r.Some? ==> r.value < |cands| && Fits(cands[r.value], s, anchor)
    ensures r.Some? ==> forall j :: 0 <= j < r.value ==> !Fits(cands[j], s, anchor)
    ensures r.None? <==> forall j :: 0 <= j < |cands| ==> !Fits(cands[j], s, anchor)
  {
    if cands == [] then None
    else if Fits(cands[0], s, anchor) then Some(0)
    else
      match FirstFit(cands[1..], s, anchor)
      case None => None
      case Some(i) => Some(i + 1)
  }

  /** A fitting candidate preceded only by unfitting ones is the first fit. */
  lemma FirstFitAt(cands: seq<string>, s: string, anchor: Anchor, k: nat)
    requires k < |cands| && Fits(cands[k], s, anchor)
    requires forall j :: 0 <= j < k ==> !Fits(cands[j], s, anchor)
    ensures FirstFit(cands, s, anchor) == Some(k)
  {
  }

  /** Candidates listed in non-increasing length order. */
  predicate LongestFirst(cands: seq<string>) {
    forall i, j :: 0 <= i < j < |cands| ==> |cands[i]| >= |cands[j]|
  }

  /** Over a list ordered longest first, the first fitting candidate is a longest fitting one. */
  lemma FirstFitIsLongest(cands: seq<string>, s: string, anchor: Anchor, k: nat)
    requires LongestFirst(cands)
    requires FirstFit(cands, s, anchor) == Some(k)
    ensures forall j :: 0 <= j < |cands| && Fits(cands[j], s, anchor) ==> |cands[j]| <= |cands[k]|
  {
  }
}
