/**
 * The "longest root" lookup shared by the root-pattern tracker and the lift
 * calculation. The roots lexicon is read in file order and sorted by length,
 * longest first, with a stable sort. A word's root is then the first listed
 * root that occurs in it.
 */
module LongestRoot {
  import opened Wrappers
  import opened Text
  import opened Matching
  import opened LexiconFile

  /** The keys of the entry lines, in file order: the list comprehension of `load_lexicon`. */
  function EntryKeys(lines: seq<string>): (keys: seq<string>)
    ensures |keys| <= |lines|
  {
    if lines == [] then []
    else
      var line := lines[|lines| - 1];
      EntryKeys(lines[..|lines| - 1]) + (if IsEntryLine(line) then [EntryKey(line)] else [])
  }

  /** The listed keys are exactly the keys the set-building loader collects. */
  lemma {:induction false} EntryKeysAreLexicon(lines: seq<string>)
    ensures forall k :: k in EntryKeys(lines) <==> k in LoadLexicon(Some(lines)).value
  {
    if lines != [] {
      var init := lines[..|lines| - 1];
      EntryKeysAreLexicon(init);
      assert lines == init + [lines[|lines| - 1]];
    }
  }

  /** The elements of `xs` of length `n`, in order. */
  function OfLength(xs: seq<string>, n: nat): seq<string> {
    if xs == [] then [] else (if |xs[0]| == n then [xs[0]] else []) + OfLength(xs[1..], n)
  }

  lemma {:induction false} OfLengthAppend(xs: seq<string>, ys: seq<string>, n: nat)
    ensures OfLength(xs + ys, n) == OfLength(xs, n) + OfLength(ys, n)
  {
    if xs != [] {
      OfLengthAppend(xs[1..], ys, n);
      assert (xs + ys)[1..] == xs[1..] + ys;
    } else {
      assert xs + ys == ys;
    }
  }

  /** `sorted` with `x` placed after every entry at least as long: one step of a stable sort, longest first. */
  function InsertByLength(sorted: seq<string>, x: string): (r: seq<string>)
    ensures |r| == |sorted| + 1
    ensures multiset(r) == multiset(sorted) + multiset{x}
  {
    if sorted == [] then [x]
    else if |sorted[0]| >= |x| then
      assert sorted == [sorted[0]] + sorted[1..];
      [sorted[0]] + InsertByLength(sorted[1..], x)
    else [x] + sorted
  }

  /** `xs.sort(key=len, reverse=True)`. */
  function SortByLength(xs: seq<string>): (r: seq<string>)
    ensures multiset(r) == multiset(xs)
  {
    if xs == [] then []
    else
      var init := xs[..|xs| - 1];
      assert xs == init + [xs[|xs| - 1]];
      InsertByLength(SortByLength(init), xs[|xs| - 1])
  }

  lemma {:induction false} InsertKeepsOrder(sorted: seq<string>, x: string)
    requires LongestFirst(sorted)
    ensures LongestFirst(InsertByLength(sorted, x))
  {
    var r := InsertByLength(sorted, x);
    if sorted == [] {
      assert r == [x];
    } else if |sorted[0]| >= |x| {
      var tail := sorted[1..];
      InsertKeepsOrder(tail, x);
      var rt := InsertByLength(tail, x);
      assert r == [sorted[0]] + rt;
      assert forall j :: 0 <= j < |tail| ==> tail[j] == sorted[j + 1];
      InsertBounded(tail, x, |sorted[0]|);
      assert forall j :: 0 < j < |r| ==> r[j] == rt[j - 1];
    } else {
      assert r == [x] + sorted;
      assert forall j :: 0 < j < |r| ==> r[j] == sorted[j - 1];
    }
  }

  /** Inserting into a list of strings no longer than `n` a string no longer than `n` keeps every entry within `n`. */
  lemma {:induction false} InsertBounded(sorted: seq<string>, x: string, n: nat)
    requires |x| <= n
    requires forall j :: 0 <= j < |sorted| ==> |sorted[j]| <= n
    ensures forall j :: 0 <= j < |InsertByLength(sorted, x)| ==> |InsertByLength(sorted, x)[j]| <= n
  {
    var r := InsertByLength(sorted, x);
    if sorted == [] {
      assert r == [x];
    } else if |sorted[0]| >= |x| {
      var tail := sorted[1..];
      InsertBounded(tail, x, n);
      var rt := InsertByLength(tail, x);
      assert r == [sorted[0]] + rt;
      assert forall j :: 0 < j < |r| ==> r[j] == rt[j - 1];
    } else {
      assert r == [x] + sorted;
      assert forall j :: 0 < j < |r| ==> r[j] == sorted[j - 1];
    }
  }

  lemma {:induction false} InsertOfLength(sorted: seq<string>, x: string, n: nat)
    requires LongestFirst(sorted)
    ensures OfLength(InsertByLength(sorted, x), n) == OfLength(sorted, n) + (if |x| == n then [x] else [])
  {
    var r := InsertByLength(sorted, x);
    if sorted == [] {
      assert r == [x] && r[1..] == [];
    } else if |sorted[0]| >= |x| {
      var tail := sorted[1..];
      assert LongestFirst(tail);
      InsertOfLength(tail, x, n);
      assert r[0] == sorted[0] && r[1..] == InsertByLength(tail, x);
    } else {
      assert r[0] == x && r[1..] == sorted;
      if |x| == n {
        ShorterHaveNone(sorted, n);
      }
    }
  }

  /** A list ordered longest first whose head is shorter than `n` has no entry of length `n`. */
  lemma {:induction false} ShorterHaveNone(sorted: seq<string>, n: nat)
    requires LongestFirst(sorted)
    requires sorted != [] ==> |sorted[0]| < n
    ensures OfLength(sorted, n) == []
  {
    if sorted != [] {
      assert LongestFirst(sorted[1..]);
      assert sorted[1..] != [] ==> |sorted[1..][0]| <= |sorted[0]|;
      ShorterHaveNone(sorted[1..], n);
    }
  }

  /** The sort orders its result longest first. */
  lemma {:induction false} SortIsOrdered(xs: seq<string>)
    ensures LongestFirst(SortByLength(xs))
  {
    if xs != [] {
      var init := xs[..|xs| - 1];
      SortIsOrdered(init);
      InsertKeepsOrder(SortByLength(init), xs[|xs| - 1]);
    }
  }

  /** The sort keeps the entries of length `n` in their order. */
  lemma {:induction false} SortKeepsLength(xs: seq<string>, n: nat)
    ensures OfLength(SortByLength(xs), n) == OfLength(xs, n)
  {
    if xs != [] {
      var init := xs[..|xs| - 1];
      var last := xs[|xs| - 1];
      SortKeepsLength(init, n);
      assert SortByLength(xs) == InsertByLength(SortByLength(init), last);
      SortIsOrdered(init);
      InsertOfLength(SortByLength(init), last, n);
      OfLengthLast(xs, n);
    }
  }

  /** The last entry adds itself to the entries of its length. */
  lemma OfLengthLast(xs: seq<string>, n: nat)
    requires xs != []
    ensures OfLength(xs, n) == OfLength(xs[..|xs| - 1], n) + (if |xs[|xs| - 1]| == n then [xs[|xs| - 1]] else [])
  {
    var last := xs[|xs| - 1];
    assert xs == xs[..|xs| - 1] + [last];
    OfLengthAppend(xs[..|xs| - 1], [last], n);
    assert OfLength([last], n) == (if |last| == n then [last] else []) + OfLength([], n);
  }

  /**
   * The sort is stable and longest first: the result is ordered by
   * non-increasing length, and the entries of each length keep their order.
   * With the multiset clause of `SortByLength`, this pins the result down.
   */
  lemma SortIsStable(xs: seq<string>)
    ensures LongestFirst(SortByLength(xs))
    ensures forall n :: OfLength(SortByLength(xs), n) == OfLength(xs, n)
  {
    SortIsOrdered(xs);
    forall n ensures OfLength(SortByLength(xs), n) == OfLength(xs, n) {
      SortKeepsLength(xs, n);
    }
  }

  /**
   * `load_lexicon` of the tracker and the lift calculation: the keys of the
   * entry lines in file order, sorted longest first; None when the file is missing.
   */
  method LoadRoots(file: Option<seq<string>>) returns (roots: Option<seq<string>>)
    ensures roots.None? <==> file.None?
    ensures roots.Some? ==> roots.value == SortByLength(EntryKeys(file.value))
  {
    if file.None? {
      return None;
    }
    var lines := file.value;
    var morphemes := [];
    for i := 0 to |lines|
      invariant morphemes == EntryKeys(lines[..i])
    {
      assert lines[..i + 1][..i] == lines[..i];
      if IsEntryLine(lines[i]) {
        morphemes := morphemes + [EntryKey(lines[i])];
      }
    }
    assert lines[..|lines|] == lines;
    roots := Some(SortByLength(morphemes));
  }

  /** The roots of a loaded file are the lexicon's keys, ordered longest first. */
  lemma LoadedRoots(lines: seq<string>)
    ensures LongestFirst(SortByLength(EntryKeys(lines)))
    ensures forall k :: k in SortByLength(EntryKeys(lines)) <==> k in LoadLexicon(Some(lines)).value
  {
    SortIsStable(EntryKeys(lines));
    EntryKeysAreLexicon(lines);
    var keys := EntryKeys(lines);
    assert forall k :: k in SortByLength(keys) <==> k in multiset(keys);
  }

  /** `find_longest_root`: the first listed root that occurs in the word, or None. */
  function LongestRootIn(word: string, roots: seq<string>): (r: Option<string>)
    ensures r.Some? ==> r.value in roots && Occurs(r.value, word)
    ensures r.Some? ==> exists k :: 0 <= k < |roots| && roots[k] == r.value && forall j :: 0 <= j < k ==> !Occurs(roots[j], word)
    ensures r.None? <==> forall root :: root in roots ==> !Occurs(root, word)
  {
    match FirstFit(roots, word, Anywhere)
    case None => None
    case Some(k) => Some(roots[k])
  }

  /** The loop of `find_longest_root`, returning at the first hit. */
  method FindLongestRoot(word: string, roots: seq<string>) returns (r: Option<string>)
    ensures r == LongestRootIn(word, roots)
  {
    for k := 0 to |roots|
      invariant forall j :: 0 <= j < k ==> !Fits(roots[j], word, Anywhere)
    {
      if Occurs(roots[k], word) {
        FirstFitAt(roots, word, Anywhere, k);
        return Some(roots[k]);
      }
    }
    return None;
  }

  /** Over a lexicon sorted longest first, the root found is a longest root occurring in the word. */
  lemma LongestRootIsLongest(word: string, roots: seq<string>)
    requires LongestFirst(roots)
    ensures LongestRootIn(word, roots).Some? ==>
      forall root :: root in roots && Occurs(root, word) ==> |root| <= |LongestRootIn(word, roots).value|
  {
    var f := FirstFit(roots, word, Anywhere);
    if f.Some? {
      FirstFitIsLongest(roots, word, Anywhere, f.value);
    }
  }

  /** An empty root occurs in every word, so a lexicon holding one finds a root for every word. */
  lemma EmptyRootMatchesAll(word: string, roots: seq<string>)
    requires [] in roots
    ensures LongestRootIn(word, roots).Some?
  {
    assert Occurs([], word);
  }
}
