/**
 * The text format of the lexicon and rule files. A writer puts comment lines
 * first and then one `text | count` line per entry; a loader keeps the lines
 * that do not start with '#' and contain '|', and takes the stripped text
 * before the first '|' as the key. A rule key is split on '-' and kept only
 * when it has exactly two parts. Files are sequences of lines.
 */
module LexiconFile {
  import opened Wrappers
  import opened Text
  import opened Counters

  /** The three comment lines `save_lexicon` writes first. */
  function LexiconHeader(header: string): seq<string> {
    ["# " + header, "# Morpheme | Frequency", seq(20, _ => '=')]
  }

  /** One lexicon entry: `f"{item:<10} | {count}"`. */
  function LexiconLine(item: string, count: nat): string {
    PadRight(item, 10) + " | " + Decimal(count)
  }

  function LexiconLines(entries: seq<(string, nat)>): (lines: seq<string>)
    ensures |lines| == |entries|
  {
    seq(|entries|, i requires 0 <= i < |entries| => LexiconLine(entries[i].0, entries[i].1))
  }

  /** The three comment lines `save_rules` writes first. */
  function RuleHeader(header: string): seq<string> {
    ["# " + header, "# Combination      | Frequency", seq(28, _ => '=')]
  }

  /** One rule entry: `f"{left}-{right}"` padded to 18, then ` | ` and the count. */
  function RuleLine(pair: (string, string), count: nat): string {
    PadRight(pair.0 + "-" + pair.1, 18) + " | " + Decimal(count)
  }

  function RuleLines(entries: seq<((string, string), nat)>): (lines: seq<string>)
    ensures |lines| == |entries|
  {
    seq(|entries|, i requires 0 <= i < |entries| => RuleLine(entries[i].0, entries[i].1))
  }

  /** A line the loaders keep: it does not start with '#' and it contains '|'. */
  predicate IsEntryLine(line: string) {
    !(|line| > 0 && line[0] == '#') && '|' in line
  }

  /** `line.split('|')[0].strip()`. */
  function EntryKey(line: string): string {
    Strip(Split(line, '|')[0])
  }

  /** `load_lexicon`: the set of keys of the entry lines, or None when the file is missing. */
  function LoadLexicon(file: Option<seq<string>>): Option<set<string>> {
    if file.None? then None
    else Some(set line | line in file.value && IsEntryLine(line) :: EntryKey(line))
  }

  /** The pair an entry line of a rule file denotes, if its key has exactly two '-'-separated parts. */
  function RuleOf(line: string): Option<(string, string)> {
    if !IsEntryLine(line) then None
    else
      var parts := Split(EntryKey(line), '-');
      if |parts| == 2 then Some((parts[0], parts[1])) else None
  }

  /** The rules the loop of `load_rules` has added after reading `lines`. */
  function RulesIn(lines: seq<string>): set<(string, string)> {
    if lines == [] then {}
    else
      var init := lines[..|lines| - 1];
      match RuleOf(lines[|lines| - 1])
      case Some(p) => RulesIn(init) + {p}
      case None => RulesIn(init)
  }

  /** `load_rules`: read line by line, adding each well-formed pair; None when the file is missing. */
  method LoadRules(file: Option<seq<string>>) returns (rules: Option<set<(string, string)>>)
    ensures file.None? ==> rules.None?
    ensures file.Some? ==> rules == Some(RulesIn(file.value))
  {
    if file.None? {
      return None;
    }
    var lines := file.value;
    var acc: set<(string, string)> := {};
    for i := 0 to |lines|
      invariant acc == RulesIn(lines[..i])
    {
      var line := lines[i];
      RulesInStep(lines, i);
      if IsEntryLine(line) {
        var parts := Split(EntryKey(line), '-');
        if |parts| == 2 {
          acc := acc + {(parts[0], parts[1])};
        }
      }
    }
    assert lines[..|lines|] == lines;
    return Some(acc);
  }

  lemma {:induction false} RulesInAppend(xs: seq<string>, ys: seq<string>)
    ensures RulesIn(xs + ys) == RulesIn(xs) + RulesIn(ys)
    decreases |ys|
  {
    if ys == [] {
      assert xs + ys == xs;
    } else {
      var init := ys[..|ys| - 1];
      assert (xs + ys)[..|xs + ys| - 1] == xs + init;
      assert (xs + ys)[|xs + ys| - 1] == ys[|ys| - 1];
      RulesInAppend(xs, init);
    }
  }

  lemma RulesInSnoc(lines: seq<string>, line: string)
    ensures RulesIn(lines + [line]) == RulesIn(lines) + (if RuleOf(line).Some? then {RuleOf(line).value} else {})
  {
    assert (lines + [line])[..|lines|] == lines;
  }

  lemma RulesInStep(lines: seq<string>, i: nat)
    requires i < |lines|
    ensures RulesIn(lines[..i + 1]) == RulesIn(lines[..i]) + (if RuleOf(lines[i]).Some? then {RuleOf(lines[i]).value} else {})
  {
    RulesInSnoc(lines[..i], lines[i]);
    assert lines[..i + 1] == lines[..i] + [lines[i]];
  }

  lemma RuleLinesSnoc(entries: seq<((string, string), nat)>, last: ((string, string), nat))
    ensures RuleLines(entries + [last]) == RuleLines(entries) + [RuleLine(last.0, last.1)]
  {
  }

  /** Appending the line of a lowercase pair adds exactly that pair. */
  lemma RulesInRuleLineSnoc(lines: seq<string>, last: ((string, string), nat))
    requires IsLowerWord(last.0.0) && IsLowerWord(last.0.1)
    ensures RulesIn(lines + [RuleLine(last.0, last.1)]) == RulesIn(lines) + {last.0}
  {
    RuleLineKey(last.0, last.1);
    RulesInSnoc(lines, RuleLine(last.0, last.1));
  }

  /** The comment lines of a rule file hold no rules. */
  lemma RuleHeaderEmpty(header: string)
    ensures RulesIn(RuleHeader(header)) == {}
  {
    var head := RuleHeader(header);
    assert head[0][0] == '#' && head[1][0] == '#';
    assert forall c :: c in head[2] ==> c == '=';
    assert RuleOf(head[0]) == None && RuleOf(head[1]) == None && RuleOf(head[2]) == None;
    RulesInSnoc([], head[0]);
    RulesInSnoc([head[0]], head[1]);
    RulesInSnoc([head[0], head[1]], head[2]);
    assert head == [head[0], head[1]] + [head[2]];
    assert [head[0], head[1]] == [head[0]] + [head[1]];
    assert [head[0]] == [] + [head[0]];
  }

  /** A key padded to a column, followed by ` | ` and a count, loads back as that key. */
  lemma PaddedLineKey(key: string, width: nat, count: nat)
    requires NoSpaceAtEnds(key) && '|' !in key && (key == [] || key[0] != '#')
    ensures var line := PadRight(key, width) + " | " + Decimal(count);
      IsEntryLine(line) && EntryKey(line) == key
  {
    var padded := PadRight(key, width);
    var line := padded + " | " + Decimal(count);
    var head := padded + " ";
    var tail := " " + Decimal(count);
    assert line == head + ['|'] + tail;
    assert '|' !in head;
    SplitAround(head, tail, '|');
    assert head == key + Spaces(|padded| - |key| + 1);
    StripPadding(key, |padded| - |key| + 1);
    assert Split(line, '|')[0] == head;
    assert EntryKey(line) == key;
    assert line[|head|] == '|';
    assert line[0] == head[0] && head[0] != '#';
  }

  /** A lexicon line of a lowercase morpheme is kept by the loader, with the morpheme as its key. */
  lemma LexiconLineKey(item: string, count: nat)
    requires IsLowerWord(item)
    ensures IsEntryLine(LexiconLine(item, count))
    ensures EntryKey(LexiconLine(item, count)) == item
  {
    PaddedLineKey(item, 10, count);
  }

  /** A rule line of two lowercase morphemes is kept by the loader and parses back to the pair. */
  lemma RuleLineKey(pair: (string, string), count: nat)
    requires IsLowerWord(pair.0) && IsLowerWord(pair.1)
    ensures IsEntryLine(RuleLine(pair, count))
    ensures RuleOf(RuleLine(pair, count)) == Some(pair)
  {
    var key := pair.0 + "-" + pair.1;
    RuleKeyShape(pair);
    PaddedLineKey(key, 18, count);
    SplitPair(pair);
  }

  /** The joined key of a lowercase pair has no end spaces, no '|', and does not start with '#'. */
  lemma RuleKeyShape(pair: (string, string))
    requires IsLowerWord(pair.0) && IsLowerWord(pair.1)
    ensures var key := pair.0 + "-" + pair.1;
      NoSpaceAtEnds(key) && '|' !in key && key != [] && key[0] != '#'
  {
    var key := pair.0 + "-" + pair.1;
    assert forall i :: 0 <= i < |key| ==> key[i] == if i < |pair.0| then pair.0[i] else if i == |pair.0| then '-' else pair.1[i - |pair.0| - 1];
    assert forall i :: 0 <= i < |key| ==> key[i] == '-' || 'a' <= key[i] <= 'z';
  }

  /** Splitting the joined key of a lowercase pair on '-' gives back its two parts. */
  lemma SplitPair(pair: (string, string))
    requires IsLowerWord(pair.0) && IsLowerWord(pair.1)
    ensures Split(pair.0 + "-" + pair.1, '-') == [pair.0, pair.1]
  {
    assert '-' !in pair.0 by {
      assert forall i :: 0 <= i < |pair.0| ==> pair.0[i] != '-';
    }
    assert '-' !in pair.1 by {
      assert forall i :: 0 <= i < |pair.1| ==> pair.1[i] != '-';
    }
    SplitAround(pair.0, pair.1, '-');
    SplitFree(pair.1, '-');
  }
}
