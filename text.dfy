/**
 * String helpers that mirror the Python built-ins the scripts rely on:
 * `str.strip()`, `re.sub(r'\s+', ' ', s)`, `str.split(sep)`, `sep.join(parts)`,
 * `str(n)` for a count, `int(digits)` and the substring test `part in s`.
 * Whitespace is the ASCII whitespace set.
 */
module Text {

  /**
   * Python's whitespace, restricted to ASCII: space, tab, newline, return,
   * vertical tab, form feed and the four separators \x1c to \x1f.
   */
  predicate IsSpace(c: char) {
    || c == ' ' || c == '\t' || c == '\n' || c == '\r' || c == '\U{000B}' || c == '\U{000C}'
    || ('\U{001C}' <= c <= '\U{001F}')
  }

  predicate IsDigit(c: char) {
    '0' <= c <= '9'
  }

  /** The characters of a morpheme as the corpus tokenizer `[a-z]+` produces them. */
  predicate IsLowerWord(s: string) {
    forall i :: 0 <= i < |s| ==> 'a' <= s[i] <= 'z'
  }

  predicate NoSpaceAtEnds(s: string) {
    s == [] || (!IsSpace(s[0]) && !IsSpace(s[|s| - 1]))
  }

  /** No two adjacent whitespace characters. */
  predicate NoDoubleSpace(s: string) {
    forall i :: 0 <= i < |s| - 1 ==> !(IsSpace(s[i]) && IsSpace(s[i + 1]))
  }

  /** `s` with its leading whitespace removed (a suffix of `s`). */
  function StripLeft(s: string): (r: string)
    ensures |r| <= |s| && r == s[|s| - |r|..]
    ensures r == [] || !IsSpace(r[0])
    ensures forall i :: 0 <= i < |s| - |r| ==> IsSpace(s[i])
  {
    if |s| > 0 && IsSpace(s[0]) then
      var r := StripLeft(s[1..]);
      assert s[1..][|s| - 1 - |r|..] == s[|s| - |r|..];
      assert forall i :: 1 <= i < |s| - |r| ==> s[i] == s[1..][i - 1];
      r
    else s
  }

  /** `s` with its trailing whitespace removed (a prefix of `s`). */
  function StripRight(s: string): (r: string)
    ensures |r| <= |s| && r == s[..|r|]
    ensures r == [] || !IsSpace(r[|r| - 1])
    ensures forall i :: |r| <= i < |s| ==> IsSpace(s[i])
  {
    if |s| > 0 && IsSpace(s[|s| - 1]) then
      var r := StripRight(s[..|s| - 1]);
      assert s[..|s| - 1][..|r|] == s[..|r|];
      assert forall i :: |r| <= i < |s| - 1 ==> s[i] == s[..|s| - 1][i];
      r
    else s
  }

  /** Python's `s.strip()`. */
  function Strip(s: string): (r: string)
    ensures NoSpaceAtEnds(r) && |r| <= |s|
    ensures NoSpaceAtEnds(s) ==> r == s
    ensures (forall i :: 0 <= i < |s| ==> IsSpace(s[i])) <==> r == []
  {
    var t := StripLeft(s);
    assert t != [] ==> !IsSpace(s[|s| - |t|]);
    StripRight(t)
  }

  /** What is left to collapse after the first character: the whitespace run it opens is skipped whole. */
  function CollapseRest(s: string): (t: string)
    requires s != []
    ensures |t| < |s| && t == s[|s| - |t|..]
  {
    if IsSpace(s[0]) then
      var t := StripLeft(s[1..]);
      assert s[1..][|s| - 1 - |t|..] == s[|s| - |t|..];
      t
    else s[1..]
  }

  /** Python's `re.sub(r'\s+', ' ', s)`: each maximal whitespace run becomes one space. */
  function Collapse(s: string): (r: string)
    ensures |r| <= |s| && (r == [] <==> s == [])
    ensures s != [] ==> (IsSpace(r[0]) <==> IsSpace(s[0]))
    decreases |s|
  {
    if s == [] then [] else [if IsSpace(s[0]) then ' ' else s[0]] + Collapse(CollapseRest(s))
  }

  /** The non-whitespace characters of `s`, in order. */
  function NonSpace(s: string): string {
    if s == [] then [] else (if IsSpace(s[0]) then [] else [s[0]]) + NonSpace(s[1..])
  }

  /** Removing leading whitespace keeps every non-whitespace character. */
  lemma {:induction false} NonSpaceStripLeft(s: string)
    ensures NonSpace(StripLeft(s)) == NonSpace(s)
  {
    if s != [] && IsSpace(s[0]) {
      NonSpaceStripLeft(s[1..]);
    }
  }

  /** Collapsing whitespace keeps every non-whitespace character, in order. */
  lemma {:induction false} CollapseKeepsNonSpace(s: string)
    ensures NonSpace(Collapse(s)) == NonSpace(s)
    decreases |s|
  {
    if s != [] {
      var t := CollapseRest(s);
      var r := Collapse(s);
      CollapseKeepsNonSpace(t);
      assert r[1..] == Collapse(t);
      if IsSpace(s[0]) {
        NonSpaceStripLeft(s[1..]);
      }
    }
  }

  /** Every whitespace character is a plain space. */
  predicate OnlyPlainSpaces(s: string) {
    forall i :: 0 <= i < |s| && IsSpace(s[i]) ==> s[i] == ' '
  }

  /** After collapsing, every whitespace character left is a plain space. */
  lemma {:induction false} CollapseBlanks(s: string)
    ensures OnlyPlainSpaces(Collapse(s))
    decreases |s|
  {
    if s != [] {
      var t := CollapseRest(s);
      CollapseBlanks(t);
      var c := Collapse(t);
      var r := Collapse(s);
      forall i | 0 <= i < |r| && IsSpace(r[i]) ensures r[i] == ' ' {
        if i > 0 {
          assert r[i] == c[i - 1];
        }
      }
    }
  }

  /** A property every character has, and a plain space has too, holds of every character after collapsing. */
  lemma {:induction false} CollapseKeepsAll(s: string, p: char -> bool)
    requires p(' ')
    requires forall i :: 0 <= i < |s| ==> p(s[i])
    ensures forall i :: 0 <= i < |Collapse(s)| ==> p(Collapse(s)[i])
    decreases |s|
  {
    if s != [] {
      var t := CollapseRest(s);
      assert forall i :: 0 <= i < |t| ==> t[i] == s[|s| - |t| + i];
      CollapseKeepsAll(t, p);
      var c := Collapse(t);
      var r := Collapse(s);
      forall i | 0 <= i < |r| ensures p(r[i]) {
        if i > 0 {
          assert r[i] == c[i - 1];
        }
      }
    }
  }

  /** Collapsing leaves no two whitespace characters side by side. */
  lemma {:induction false} CollapseSingle(s: string)
    ensures NoDoubleSpace(Collapse(s))
    decreases |s|
  {
    if s != [] {
      var t := CollapseRest(s);
      CollapseSingle(t);
      var c := Collapse(t);
      var r := Collapse(s);
      forall i | 0 <= i < |r| - 1 && IsSpace(r[i]) ensures !IsSpace(r[i + 1]) {
        if i > 0 {
          assert r[i] == c[i - 1] && r[i + 1] == c[i];
        } else if IsSpace(s[0]) {
          assert c != [] ==> !IsSpace(t[0]);
        }
      }
    }
  }

  /** A text whose only whitespace is single plain spaces is left as it is by collapsing. */
  lemma {:induction false} CollapseIdentity(s: string)
    requires OnlyPlainSpaces(s) && NoDoubleSpace(s)
    ensures Collapse(s) == s
    decreases |s|
  {
    if s != [] {
      var t := CollapseRest(s);
      assert t == s[1..] by {
        if IsSpace(s[0]) && |s| > 1 {
          assert !IsSpace(s[1]);
        }
      }
      assert OnlyPlainSpaces(t) && NoDoubleSpace(t) by {
        assert forall i :: 0 <= i < |t| ==> t[i] == s[i + 1];
      }
      CollapseIdentity(t);
      assert s == [s[0]] + t;
    }
  }

  /** What `strip()` keeps is a slice of the string. */
  lemma StripIsSlice(s: string)
    ensures exists a, b :: 0 <= a <= b <= |s| && Strip(s) == s[a..b]
  {
    var l := StripLeft(s);
    var r := StripRight(l);
    assert l == s[|s| - |l|..];
    assert r == l[..|r|];
    assert r == s[|s| - |l|..|s| - |l| + |r|];
  }

  /** A slice of a string without adjacent whitespace has none either. */
  lemma SliceKeepsNoDoubleSpace(s: string, a: nat, b: nat)
    requires a <= b <= |s|
    requires NoDoubleSpace(s)
    ensures NoDoubleSpace(s[a..b])
  {
    var r := s[a..b];
    assert forall i :: 0 <= i < |r| ==> r[i] == s[a + i];
  }

  /** A slice of a string whose only whitespace is plain spaces has no other whitespace either. */
  lemma SliceKeepsPlainSpaces(s: string, a: nat, b: nat)
    requires a <= b <= |s|
    requires OnlyPlainSpaces(s)
    ensures OnlyPlainSpaces(s[a..b])
  {
    var r := s[a..b];
    forall i | 0 <= i < |r| && IsSpace(r[i]) ensures r[i] == ' ' {
      assert r[i] == s[a + i];
    }
  }

  /** Every character of a slice is a character of the string. */
  lemma SliceKeepsChars(s: string, a: nat, b: nat)
    requires a <= b <= |s|
    ensures forall i :: 0 <= i < b - a ==> s[a..b][i] in s
  {
    var r := s[a..b];
    forall i | 0 <= i < |r| ensures r[i] in s {
      assert r[i] == s[a + i];
    }
  }

  /** What `strip()` keeps of a string holding only single plain spaces still holds only those. */
  lemma StripKeepsSpacing(g: string)
    requires OnlyPlainSpaces(g) && NoDoubleSpace(g)
    ensures OnlyPlainSpaces(Strip(g)) && NoDoubleSpace(Strip(g))
  {
    StripIsSlice(g);
    var a, b :| 0 <= a <= b <= |g| && Strip(g) == g[a..b];
    SliceKeepsNoDoubleSpace(g, a, b);
    SliceKeepsPlainSpaces(g, a, b);
  }

  /** Every character `strip()` keeps is a character of the string. */
  lemma StripKeepsChars(g: string)
    ensures forall i :: 0 <= i < |Strip(g)| ==> Strip(g)[i] in g
  {
    StripIsSlice(g);
    var a, b :| 0 <= a <= b <= |g| && Strip(g) == g[a..b];
    SliceKeepsChars(g, a, b);
  }

  /** Python's `s.split(sep)` for a one-character separator. */
  function Split(s: string, sep: char): (parts: seq<string>)
    ensures |parts| >= 1
    ensures forall k :: 0 <= k < |parts| ==> sep !in parts[k]
  {
    if s == [] then [[]]
    else
      var rest := Split(s[1..], sep);
      if s[0] == sep then [[]] + rest else [[s[0]] + rest[0]] + rest[1..]
  }

  /** Python's `sep.join(parts)` for a one-character separator. */
  function Join(parts: seq<string>, sep: char): string
  {
    if |parts| == 0 then []
    else if |parts| == 1 then parts[0]
    else parts[0] + [sep] + Join(parts[1..], sep)
  }

  /** Joining the pieces of a split gives back the string. */
  lemma {:induction false} JoinSplit(s: string, sep: char)
    ensures Join(Split(s, sep), sep) == s
  {
    if s != [] {
      var rest := Split(s[1..], sep);
      JoinSplit(s[1..], sep);
      if s[0] == sep {
        assert Split(s, sep) == [[]] + rest;
        assert Join([[]] + rest, sep) == [] + [sep] + Join(rest, sep);
      } else if |rest| == 1 {
        assert Split(s, sep) == [[s[0]] + rest[0]];
      } else {
        assert Split(s, sep) == [[s[0]] + rest[0]] + rest[1..];
        assert Join(rest, sep) == rest[0] + [sep] + Join(rest[1..], sep);
      }
    }
  }

  /** Splitting a join of separator-free pieces gives back the pieces. */
  lemma {:induction false} SplitJoin(parts: seq<string>, sep: char)
    requires |parts| >= 1
    requires forall k :: 0 <= k < |parts| ==> sep !in parts[k]
    ensures Split(Join(parts, sep), sep) == parts
  {
    if |parts| == 1 {
      SplitFree(parts[0], sep);
    } else {
      SplitJoin(parts[1..], sep);
      SplitAround(parts[0], Join(parts[1..], sep), sep);
    }
  }

  /** A separator splits the string into the pieces of either side. */
  lemma {:induction false} SplitSepAppend(a: string, b: string, sep: char)
    ensures Split(a + [sep] + b, sep) == Split(a, sep) + Split(b, sep)
  {
    var s := a + [sep] + b;
    if a == [] {
      assert s[0] == sep && s[1..] == b;
    } else {
      assert s[0] == a[0] && s[1..] == a[1..] + [sep] + b;
      SplitSepAppend(a[1..], b, sep);
    }
  }

  /** A single-spaced string without end spaces splits at its spaces into non-empty pieces. */
  lemma {:induction false} SplitPiecesNonEmpty(m: string)
    requires m != [] && OnlyPlainSpaces(m) && NoDoubleSpace(m) && NoSpaceAtEnds(m)
    ensures forall k :: 0 <= k < |Split(m, ' ')| ==> Split(m, ' ')[k] != []
    decreases |m|
  {
    var rest := Split(m[1..], ' ');
    assert m[0] != ' ';
    if |m| > 1 {
      if m[1] == ' ' {
        assert |m| > 2 && m[2] != ' ';
        var m2 := m[2..];
        SliceKeepsNoDoubleSpace(m, 2, |m|);
        SliceKeepsPlainSpaces(m, 2, |m|);
        assert m[1..][1..] == m2;
        SplitPiecesNonEmpty(m2);
        assert rest == [[]] + Split(m2, ' ');
        assert rest[0] == [] && rest[1..] == Split(m2, ' ');
        assert Split(m, ' ') == [[m[0]] + rest[0]] + rest[1..];
      } else {
        SliceKeepsNoDoubleSpace(m, 1, |m|);
        SliceKeepsPlainSpaces(m, 1, |m|);
        SplitPiecesNonEmpty(m[1..]);
      }
    }
  }

  lemma {:induction false} SplitFree(s: string, sep: char)
    requires sep !in s
    ensures Split(s, sep) == [s]
  {
    if s != [] {
      SplitFree(s[1..], sep);
      assert [s[0]] + s[1..] == s;
    }
  }

  /** A separator-free head followed by the separator splits off as the first piece. */
  lemma {:induction false} SplitAround(head: string, tail: string, sep: char)
    requires sep !in head
    ensures Split(head + [sep] + tail, sep) == [head] + Split(tail, sep)
  {
    var s := head + [sep] + tail;
    if head == [] {
      assert s[1..] == tail;
    } else {
      assert s[1..] == head[1..] + [sep] + tail;
      SplitAround(head[1..], tail, sep);
      assert s[0] == head[0] && [head[0]] + head[1..] == head;
    }
  }

  function DigitChar(d: nat): (c: char)
    requires d < 10
    ensures IsDigit(c)
  {
    (d + '0' as int) as char
  }

  function DigitValue(c: char): nat
    requires IsDigit(c)
  {
    c as int - '0' as int
  }

  /** Python's `str(n)` for a non-negative count. */
  function Decimal(n: nat): (r: string)
    ensures |r| >= 1
    ensures forall i :: 0 <= i < |r| ==> IsDigit(r[i])
  {
    if n < 10 then [DigitChar(n)] else Decimal(n / 10) + [DigitChar(n % 10)]
  }

  /** Python's `int(digits)` for ASCII digits. */
  function DecimalValue(s: string): nat
    requires forall i :: 0 <= i < |s| ==> IsDigit(s[i])
  {
    if s == [] then 0 else DecimalValue(s[..|s| - 1]) * 10 + DigitValue(s[|s| - 1])
  }

  /** `int(str(n)) == n`. */
  lemma {:induction false} DecimalRoundTrip(n: nat)
    ensures DecimalValue(Decimal(n)) == n
  {
    var r := Decimal(n);
    if n >= 10 {
      DecimalRoundTrip(n / 10);
      assert r[..|r| - 1] == Decimal(n / 10);
    }
  }

  /** Python's substring test `part in s`. */
  predicate Occurs(part: string, s: string)
  {
    part <= s || (s != [] && Occurs(part, s[1..]))
  }

  lemma {:induction false} OccursWithin(part: string, s: string)
    requires Occurs(part, s)
    ensures |part| <= |s|
  {
    if !(part <= s) {
      OccursWithin(part, s[1..]);
    }
  }

  /** `part` sits at index `i` of `s`. */
  predicate SitsAt(part: string, s: string, i: int) {
    0 <= i && i + |part| <= |s| && s[i..i + |part|] == part
  }

  /** `part in s` holds exactly when `part` sits at some position of `s`. */
  lemma {:induction false} OccursAt(part: string, s: string)
    ensures Occurs(part, s) <==> exists i :: SitsAt(part, s, i)
  {
    if part <= s {
      assert SitsAt(part, s, 0);
    }
    if s != [] {
      OccursAt(part, s[1..]);
      if exists i :: SitsAt(part, s, i) {
        var i :| SitsAt(part, s, i);
        if i > 0 {
          assert SitsAt(part, s[1..], i - 1) by {
            assert s[1..][i - 1..i - 1 + |part|] == s[i..i + |part|];
          }
        }
      }
      if Occurs(part, s[1..]) {
        var i :| SitsAt(part, s[1..], i);
        assert SitsAt(part, s, i + 1) by {
          assert s[1..][i..i + |part|] == s[i + 1..i + 1 + |part|];
        }
      }
    } else {
      if exists i :: SitsAt(part, s, i) {
        var i :| SitsAt(part, s, i);
        assert part == [];
      }
    }
  }

  /** `n` spaces. */
  function Spaces(n: nat): (r: string)
    ensures |r| == n && forall i :: 0 <= i < n ==> r[i] == ' '
  {
    seq(n, _ => ' ')
  }

  /** Python's `f"{s:<width}"`: left-justified, padded with spaces to at least `width`. */
  function PadRight(s: string, width: nat): (r: string)
    ensures |r| == if |s| >= width then |s| else width
    ensures r == s + Spaces(|r| - |s|)
  {
    if |s| >= width then (assert s + Spaces(0) == s; s) else s + Spaces(width - |s|)
  }

  /** Trailing padding is exactly what `strip()` takes off a string that has no whitespace at its ends. */
  lemma {:induction false} StripPadding(s: string, n: nat)
    requires NoSpaceAtEnds(s)
    ensures Strip(s + Spaces(n)) == s
  {
    var t := s + Spaces(n);
    if s == [] {
      assert t == Spaces(n);
      assert forall i :: 0 <= i < |t| ==> IsSpace(t[i]);
    } else {
      assert StripLeft(t) == t;
      StripRightPadding(s, n);
    }
  }

  lemma {:induction false} StripRightPadding(s: string, n: nat)
    requires s != [] && !IsSpace(s[|s| - 1])
    ensures StripRight(s + Spaces(n)) == s
  {
    if n == 0 {
      assert s + Spaces(0) == s;
    } else {
      var t := s + Spaces(n);
      assert t[..|t| - 1] == s + Spaces(n - 1);
      StripRightPadding(s, n - 1);
    }
  }
}
