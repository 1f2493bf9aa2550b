/**
 * The root-pattern tracker. For each folio of interest and each label on that
 * folio, the label text is cleaned and cut at the dots. A word whose longest
 * root is one of the tracked roots files the label's number under that folio
 * and root. The report then lists each root's label numbers once each, in
 * ascending order. The transcription is taken as its labels, already
 * parsed: the folio name, the label number and the text after the marker.
 */
module RootTracker {
  import opened Wrappers
  import opened Text
  import opened Matching
  import opened Spans
  import opened LongestRoot

  /** A label line of the transcription: `<folio.number,@…;…>` followed by its text. */
  datatype Label = Label(folio: string, number: nat, text: string)

  /** One append to `pattern_map[folio][root]`. */
  datatype Hit = Hit(folio: string, root: string, number: nat)

  /** `pattern_map`: folio to root to the label numbers, in the order they were filed. */
  type PatternMap = map<string, map<string, seq<nat>>>

  predicate IsNoise(c: char) {
    c == '?' || c == '!' || c == ','
  }

  /**
   * `re.sub(r'<!.*?>|[\?!,]', '', t)`: scanning from the left, a `<!…>`
   * comment (ending at the first `>`, on the same line) is removed, and so is
   * each of the characters `? ! ,`.
   */
  function DropNoise(t: string): (r: string)
    ensures |r| <= |t|
    ensures forall i :: 0 <= i < |r| ==> !IsNoise(r[i])
    decreases |t|
  {
    if t == [] then []
    else if |t| >= 2 && t[0] == '<' && t[1] == '!' && FindClose(t[2..], '>', true).Some? then
      DropNoise(t[FindClose(t[2..], '>', true).value + 3..])
    else if IsNoise(t[0]) then DropNoise(t[1..])
    else [t[0]] + DropNoise(t[1..])
  }

  /** Text with neither comments nor noise characters passes unchanged. */
  lemma {:induction false} DropNoisePlain(t: string)
    requires forall i :: 0 <= i < |t| ==> t[i] != '<' && !IsNoise(t[i])
    ensures DropNoise(t) == t
  {
    if t != [] {
      DropNoisePlain(t[1..]);
    }
  }

  /** The characters of `s` other than `? ! ,`, in order. */
  function WithoutNoise(s: string): string {
    if s == [] then [] else (if IsNoise(s[0]) then [] else [s[0]]) + WithoutNoise(s[1..])
  }

  /** Before the first '<', exactly the noise characters are dropped and the rest is kept in order. */
  lemma {:induction false} DropNoiseKeepsPrefix(u: string, w: string)
    requires '<' !in u
    ensures DropNoise(u + w) == WithoutNoise(u) + DropNoise(w)
  {
    if u != [] {
      var t := u + w;
      assert u[0] in u;
      assert t[0] == u[0] && t[1..] == u[1..] + w;
      DropNoiseKeepsPrefix(u[1..], w);
      var h := if IsNoise(u[0]) then [] else [u[0]];
      assert h + (WithoutNoise(u[1..]) + DropNoise(w)) == (h + WithoutNoise(u[1..])) + DropNoise(w);
    } else {
      assert u + w == w;
    }
  }

  /** A `<!…>` comment on one line at the start is removed whole. */
  lemma DropNoiseComment(v: string, w: string)
    requires '>' !in v && '\n' !in v
    ensures DropNoise("<!" + v + ">" + w) == DropNoise(w)
  {
    var t := "<!" + v + ">" + w;
    assert t[0] == '<' && t[1] == '!' && t[2..] == v + ">" + w;
    FindCloseAt(v, w, '>', true);
    assert t[|v| + 3..] == w;
  }

  /**
   * A `<!…>` comment is removed, the noise characters before it are dropped,
   * and every other character before it is kept in order.
   */
  lemma DropNoiseAround(u: string, v: string, w: string)
    requires '<' !in u && '>' !in v && '\n' !in v
    ensures DropNoise(u + "<!" + v + ">" + w) == WithoutNoise(u) + DropNoise(w)
  {
    var comment := "<!" + v + ">" + w;
    calc {
      DropNoise(u + "<!" + v + ">" + w);
    == { assert u + "<!" + v + ">" + w == u + comment; }
      DropNoise(u + comment);
    == { DropNoiseKeepsPrefix(u, comment); }
      WithoutNoise(u) + DropNoise(comment);
    == { DropNoiseComment(v, w); }
      WithoutNoise(u) + DropNoise(w);
    }
  }

  /** `re.sub(...).strip().split('.')`: the words of a label. */
  function LabelWords(text: string): (words: seq<string>)
    ensures |words| >= 1
    ensures forall k :: 0 <= k < |words| ==> '.' !in words[k]
  {
    Split(Strip(DropNoise(text)), '.')
  }

  /**
   * The root a label word is filed under: the word's longest root, provided
   * it is non-empty (`if longest_root`) and tracked.
   */
  function TrackedRoot(tracked: seq<string>, roots: seq<string>, word: string): (r: Option<string>)
    ensures r.Some? ==> r.value != [] && r.value in tracked && r.value in roots && Occurs(r.value, word)
    ensures r.Some? <==> LongestRootIn(word, roots).Some? && LongestRootIn(word, roots).value != [] && LongestRootIn(word, roots).value in tracked
  {
    match LongestRootIn(word, roots)
    case Some(root) => if root != [] && root in tracked then Some(root) else None
    case None => None
  }

  /** A tracked root that occurs in a word alongside a longer listed root is not filed for that word. */
  lemma ShadowedRootNotFiled(tracked: seq<string>, roots: seq<string>, word: string, root: string, longer: string)
    requires LongestFirst(roots)
    requires longer in roots && Occurs(longer, word) && |longer| > |root|
    ensures TrackedRoot(tracked, roots, word) != Some(root)
  {
    LongestRootIsLongest(word, roots);
  }

  /** The hits of the words of one label, in word order. */
  function WordHits(tracked: seq<string>, roots: seq<string>, lbl: Label, words: seq<string>): seq<Hit> {
    if words == [] then []
    else
      WordHits(tracked, roots, lbl, words[..|words| - 1]) +
        match TrackedRoot(tracked, roots, words[|words| - 1])
        case Some(root) => [Hit(lbl.folio, root, lbl.number)]
        case None => []
  }

  /** The hits of the labels of one folio, in line order. */
  function LabelHits(tracked: seq<string>, roots: seq<string>, folio: string, labels: seq<Label>): seq<Hit> {
    if labels == [] then []
    else
      var lbl := labels[|labels| - 1];
      LabelHits(tracked, roots, folio, labels[..|labels| - 1]) +
        if lbl.folio == folio then WordHits(tracked, roots, lbl, LabelWords(lbl.text)) else []
  }

  /** Every hit, folio by folio in the order of `folios`. */
  function Hits(tracked: seq<string>, roots: seq<string>, folios: seq<string>, labels: seq<Label>): seq<Hit> {
    if folios == [] then []
    else
      Hits(tracked, roots, folios[..|folios| - 1], labels) +
        LabelHits(tracked, roots, folios[|folios| - 1], labels)
  }

  lemma {:induction false} WordHitsMembership(tracked: seq<string>, roots: seq<string>, lbl: Label, words: seq<string>, h: Hit)
    ensures h in WordHits(tracked, roots, lbl, words) <==>
      h.folio == lbl.folio && h.number == lbl.number && AnyFiled(tracked, roots, words, h.root)
  {
    if words != [] {
      var init := words[..|words| - 1];
      WordHitsMembership(tracked, roots, lbl, init, h);
      assert words == init + [words[|words| - 1]];
    }
  }

  /** One of the words is filed under `root`. */
  predicate AnyFiled(tracked: seq<string>, roots: seq<string>, words: seq<string>, root: string) {
    exists w :: w in words && TrackedRoot(tracked, roots, w) == Some(root)
  }

  /** Some label of `folio` numbered `n` has a word filed under `root`. */
  predicate FiledUnder(tracked: seq<string>, roots: seq<string>, labels: seq<Label>, folio: string, root: string, n: nat) {
    exists l :: l in labels && l.folio == folio && l.number == n && AnyFiled(tracked, roots, LabelWords(l.text), root)
  }

  lemma FiledUnderSnoc(tracked: seq<string>, roots: seq<string>, labels: seq<Label>, lbl: Label, folio: string, root: string, n: nat)
    ensures FiledUnder(tracked, roots, labels + [lbl], folio, root, n) <==>
      FiledUnder(tracked, roots, labels, folio, root, n) ||
      (lbl.folio == folio && lbl.number == n && AnyFiled(tracked, roots, LabelWords(lbl.text), root))
  {
    if FiledUnder(tracked, roots, labels + [lbl], folio, root, n) {
      var l :| l in labels + [lbl] && l.folio == folio && l.number == n && AnyFiled(tracked, roots, LabelWords(l.text), root);
      if l != lbl {
        assert l in labels;
      }
    }
  }

  lemma {:induction false} LabelHitsMembership(tracked: seq<string>, roots: seq<string>, folio: string, labels: seq<Label>, h: Hit)
    ensures h in LabelHits(tracked, roots, folio, labels) <==>
      h.folio == folio && FiledUnder(tracked, roots, labels, folio, h.root, h.number)
  {
    if labels != [] {
      var init := labels[..|labels| - 1];
      var lbl := labels[|labels| - 1];
      assert labels == init + [lbl];
      assert LabelHits(tracked, roots, folio, labels) ==
        LabelHits(tracked, roots, folio, init) + if lbl.folio == folio then WordHits(tracked, roots, lbl, LabelWords(lbl.text)) else [];
      LabelHitsMembership(tracked, roots, folio, init, h);
      WordHitsMembership(tracked, roots, lbl, LabelWords(lbl.text), h);
      FiledUnderSnoc(tracked, roots, init, lbl, folio, h.root, h.number);
    }
  }

  lemma {:induction false} HitsMembership(tracked: seq<string>, roots: seq<string>, folios: seq<string>, labels: seq<Label>, h: Hit)
    ensures h in Hits(tracked, roots, folios, labels) <==>
      h.folio in folios && FiledUnder(tracked, roots, labels, h.folio, h.root, h.number)
  {
    if folios != [] {
      var init := folios[..|folios| - 1];
      var folio := folios[|folios| - 1];
      HitsMembership(tracked, roots, init, labels, h);
      LabelHitsMembership(tracked, roots, folio, labels, h);
      assert folios == init + [folio];
    }
  }

  /** `pattern_map[folio][root]`, an empty list when nothing was filed there. */
  function Lookup(m: PatternMap, folio: string, root: string): seq<nat> {
    if folio in m && root in m[folio] then m[folio][root] else []
  }

  /** `pattern_map[h.folio][h.root].append(h.number)`. */
  function File(m: PatternMap, h: Hit): PatternMap {
    var inner := if h.folio in m then m[h.folio] else map[];
    m[h.folio := inner[h.root := Lookup(m, h.folio, h.root) + [h.number]]]
  }

  /** `m` with the hits filed into it in order. */
  function FileAll(m: PatternMap, hits: seq<Hit>): PatternMap {
    if hits == [] then m else File(FileAll(m, hits[..|hits| - 1]), hits[|hits| - 1])
  }

  /** The map that filing the hits in order produces, from an empty one. */
  function Group(hits: seq<Hit>): PatternMap {
    FileAll(map[], hits)
  }

  lemma {:induction false} FileAllAppend(m: PatternMap, xs: seq<Hit>, ys: seq<Hit>)
    ensures FileAll(m, xs + ys) == FileAll(FileAll(m, xs), ys)
  {
    if ys == [] {
      assert xs + ys == xs;
    } else {
      var init := ys[..|ys| - 1];
      FileAllAppend(m, xs, init);
      assert (xs + ys)[..|xs + ys| - 1] == xs + init;
    }
  }

  /** The numbers of the hits on `folio` and `root`, in order. */
  function NumbersOf(hits: seq<Hit>, folio: string, root: string): seq<nat> {
    if hits == [] then []
    else
      var h := hits[|hits| - 1];
      NumbersOf(hits[..|hits| - 1], folio, root) + if h.folio == folio && h.root == root then [h.number] else []
  }

  /**
   * Filing keeps, per folio and root, exactly the numbers of the matching
   * hits in order; a folio is present only with at least one root and a root
   * only with at least one number, so the report's "no target roots" branch
   * is never taken.
   */
  lemma {:induction false} GroupIsFilter(hits: seq<Hit>)
    ensures forall folio, root :: Lookup(Group(hits), folio, root) == NumbersOf(hits, folio, root)
    ensures forall folio, root :: folio in Group(hits) && root in Group(hits)[folio] ==> Group(hits)[folio][root] != []
    ensures forall folio :: folio in Group(hits) ==> Group(hits)[folio] != map[]
  {
    if hits != [] {
      var init := hits[..|hits| - 1];
      var h := hits[|hits| - 1];
      GroupIsFilter(init);
      assert Group(hits) == File(Group(init), h);
      forall folio | folio in Group(hits) ensures Group(hits)[folio] != map[] {
        if folio == h.folio {
          assert h.root in Group(hits)[folio];
        } else {
          assert Group(hits)[folio] == Group(init)[folio];
        }
      }
    }
  }

  /** What the map of filed hits holds: a number under a folio and root exactly when one of its words was filed there. */
  lemma FiledExactly(tracked: seq<string>, roots: seq<string>, folios: seq<string>, labels: seq<Label>, folio: string, root: string, n: nat)
    ensures n in Lookup(Group(Hits(tracked, roots, folios, labels)), folio, root) <==>
      folio in folios && FiledUnder(tracked, roots, labels, folio, root, n)
  {
    var hits := Hits(tracked, roots, folios, labels);
    GroupIsFilter(hits);
    NumbersOfMembership(hits, folio, root, n);
    HitsMembership(tracked, roots, folios, labels, Hit(folio, root, n));
  }

  lemma {:induction false} NumbersOfMembership(hits: seq<Hit>, folio: string, root: string, n: nat)
    ensures n in NumbersOf(hits, folio, root) <==> Hit(folio, root, n) in hits
  {
    if hits != [] {
      var init := hits[..|hits| - 1];
      NumbersOfMembership(init, folio, root, n);
      assert hits == init + [hits[|hits| - 1]];
    }
  }

  /** The outer loop of `track_patterns_by_longest_root`: folio by folio, its labels are filed into the map. */
  method TrackPatterns(tracked: seq<string>, roots: seq<string>, folios: seq<string>, labels: seq<Label>)
    returns (patterns: PatternMap)
    ensures patterns == Group(Hits(tracked, roots, folios, labels))
  {
    patterns := map[];
    for i := 0 to |folios|
      invariant patterns == Group(Hits(tracked, roots, folios[..i], labels))
    {
      ghost var before := Hits(tracked, roots, folios[..i], labels);
      patterns := FileLabels(patterns, tracked, roots, folios[i], labels);
      FileAllAppend(map[], before, LabelHits(tracked, roots, folios[i], labels));
      assert folios[..i + 1][..i] == folios[..i];
    }
    assert folios[..|folios|] == folios;
  }

  /** The loop over the transcription's lines for one folio. */
  method FileLabels(m: PatternMap, tracked: seq<string>, roots: seq<string>, folio: string, labels: seq<Label>)
    returns (patterns: PatternMap)
    ensures patterns == FileAll(m, LabelHits(tracked, roots, folio, labels))
  {
    patterns := m;
    assert LabelHits(tracked, roots, folio, labels[..0]) == [];
    for j := 0 to |labels|
      invariant patterns == FileAll(m, LabelHits(tracked, roots, folio, labels[..j]))
    {
      var lbl := labels[j];
      ghost var done := LabelHits(tracked, roots, folio, labels[..j]);
      assert labels[..j + 1][..j] == labels[..j];
      if lbl.folio == folio {
        ghost var added := WordHits(tracked, roots, lbl, LabelWords(lbl.text));
        assert LabelHits(tracked, roots, folio, labels[..j + 1]) == done + added;
        patterns := FileWords(patterns, tracked, roots, lbl, LabelWords(lbl.text));
        FileAllAppend(m, done, added);
      } else {
        assert LabelHits(tracked, roots, folio, labels[..j + 1]) == done + [];
        assert done + [] == done;
      }
    }
    assert labels[..|labels|] == labels;
  }

  /** The loop over the words of one label: a word whose longest root is tracked files the label's number. */
  method FileWords(m: PatternMap, tracked: seq<string>, roots: seq<string>, lbl: Label, words: seq<string>)
    returns (patterns: PatternMap)
    ensures patterns == FileAll(m, WordHits(tracked, roots, lbl, words))
  {
    patterns := m;
    assert WordHits(tracked, roots, lbl, words[..0]) == [];
    for k := 0 to |words|
      invariant patterns == FileAll(m, WordHits(tracked, roots, lbl, words[..k]))
    {
      var root := FindLongestRoot(words[k], roots);
      ghost var done := WordHits(tracked, roots, lbl, words[..k]);
      WordHitsSnoc(tracked, roots, lbl, words, k);
      if root.Some? && root.value != [] && root.value in tracked {
        var h := Hit(lbl.folio, root.value, lbl.number);
        assert TrackedRoot(tracked, roots, words[k]) == Some(root.value);
        FileAllSnoc(m, done, h);
        patterns := File(patterns, h);
      } else {
        assert TrackedRoot(tracked, roots, words[k]) == None;
        assert done + [] == done;
      }
    }
    assert words[..|words|] == words;
  }

  lemma FileAllSnoc(m: PatternMap, hits: seq<Hit>, h: Hit)
    ensures FileAll(m, hits + [h]) == File(FileAll(m, hits), h)
  {
    assert (hits + [h])[..|hits|] == hits;
  }

  lemma WordHitsSnoc(tracked: seq<string>, roots: seq<string>, lbl: Label, words: seq<string>, k: nat)
    requires k < |words|
    ensures WordHits(tracked, roots, lbl, words[..k + 1]) ==
      WordHits(tracked, roots, lbl, words[..k]) +
        match TrackedRoot(tracked, roots, words[k])
        case Some(root) => [Hit(lbl.folio, root, lbl.number)]
        case None => []
  {
    assert words[..k + 1][..k] == words[..k];
  }

  /** `sorted` with `x` added unless it is already there; `sorted` ascending. */
  function InsertUnique(sorted: seq<nat>, x: nat): (r: seq<nat>)
    requires forall i, j :: 0 <= i < j < |sorted| ==> sorted[i] < sorted[j]
    ensures forall i, j :: 0 <= i < j < |r| ==> r[i] < r[j]
    ensures forall y :: y in r <==> y in sorted || y == x
  {
    if sorted == [] then [x]
    else if x == sorted[0] then sorted
    else if x < sorted[0] then [x] + sorted
    else
      var rest := InsertUnique(sorted[1..], x);
      AscendingTail(sorted);
      PrependBelow(sorted[0], rest);
      [sorted[0]] + rest
  }

  /** The tail of an ascending sequence is ascending, above its head, and with the head makes up its members. */
  lemma AscendingTail(sorted: seq<nat>)
    requires sorted != []
    requires forall i, j :: 0 <= i < j < |sorted| ==> sorted[i] < sorted[j]
    ensures forall i, j :: 0 <= i < j < |sorted[1..]| ==> sorted[1..][i] < sorted[1..][j]
    ensures forall y :: y in sorted[1..] ==> sorted[0] < y
    ensures forall y :: y in sorted <==> y == sorted[0] || y in sorted[1..]
  {
    var tail := sorted[1..];
    assert forall j :: 0 <= j < |tail| ==> tail[j] == sorted[j + 1];
    assert sorted == [sorted[0]] + tail;
  }

  /** An element below every member of an ascending sequence can go in front of it. */
  lemma PrependBelow(h: nat, rest: seq<nat>)
    requires forall i, j :: 0 <= i < j < |rest| ==> rest[i] < rest[j]
    requires forall y :: y in rest ==> h < y
    ensures forall i, j :: 0 <= i < j < |[h] + rest| ==> ([h] + rest)[i] < ([h] + rest)[j]
  {
    var r := [h] + rest;
    assert forall j :: 0 < j < |r| ==> r[j] == rest[j - 1] && rest[j - 1] in rest;
  }

  /** `sorted(list(set(labels)))`: each number once, ascending. */
  function SortedUnique(xs: seq<nat>): (r: seq<nat>)
    ensures forall i, j :: 0 <= i < j < |r| ==> r[i] < r[j]
    ensures forall y :: y in r <==> y in xs
  {
    if xs == [] then []
    else
      var init := xs[..|xs| - 1];
      assert xs == init + [xs[|xs| - 1]];
      InsertUnique(SortedUnique(init), xs[|xs| - 1])
  }

  /** The printed report: every folio and root of the map, with its labels deduplicated and sorted. */
  function Report(patterns: PatternMap): (report: PatternMap)
    ensures report.Keys == patterns.Keys
    ensures forall folio :: folio in report ==> report[folio].Keys == patterns[folio].Keys
  {
    map folio | folio in patterns :: map root | root in patterns[folio] :: SortedUnique(patterns[folio][root])
  }

  /**
   * The tracker's main block: nothing is tracked when the roots lexicon is
   * missing or has no entries, nor when the transcription is missing;
   * otherwise the report of the filed labels.
   */
  method TrackRootPatterns(tracked: seq<string>, rootsFile: Option<seq<string>>, folios: seq<string>, transcription: Option<seq<Label>>)
    returns (report: Option<PatternMap>)
    ensures report.Some? <==> rootsFile.Some? && EntryKeys(rootsFile.value) != [] && transcription.Some?
    ensures report.Some? ==>
      report.value == Report(Group(Hits(tracked, SortByLength(EntryKeys(rootsFile.value)), folios, transcription.value)))
  {
    var roots := LoadRoots(rootsFile);
    if roots.None? || roots.value == [] {
      if rootsFile.Some? {
        assert |multiset(roots.value)| == 0;
      }
      return None;
    }
    assert |multiset(EntryKeys(rootsFile.value))| > 0;
    if transcription.None? {
      return None;
    }
    var patterns := TrackPatterns(tracked, roots.value, folios, transcription.value);
    report := Some(Report(patterns));
  }

  /**
   * The report lists, under a folio and a tracked root, each label number of
   * that folio having a word whose longest root is that root, once each, in
   * ascending order.
   */
  lemma ReportedLabels(tracked: seq<string>, roots: seq<string>, folios: seq<string>, labels: seq<Label>, folio: string, root: string)
    ensures var report := Report(Group(Hits(tracked, roots, folios, labels)));
      var listed := if folio in report && root in report[folio] then report[folio][root] else [];
      && (forall i, j :: 0 <= i < j < |listed| ==> listed[i] < listed[j])
      && forall n :: n in listed <==> folio in folios && FiledUnder(tracked, roots, labels, folio, root, n)
  {
    var patterns := Group(Hits(tracked, roots, folios, labels));
    var report := Report(patterns);
    var listed := if folio in report && root in report[folio] then report[folio][root] else [];
    assert listed == SortedUnique(Lookup(patterns, folio, root));
    forall n ensures n in listed <==> folio in folios && FiledUnder(tracked, roots, labels, folio, root, n) {
      FiledExactly(tracked, roots, folios, labels, folio, root, n);
    }
  }
}
