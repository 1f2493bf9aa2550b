/**
 * Removal of bracketed spans, as the cleaning regular expressions do it: an
 * opening character starts a span that ends at the first closing character
 * after it. With `stopAtNewline` a newline before that closing character
 * means no span starts here (the lazy `.*?`); without it, anything may sit
 * in between (`[^>]*`).
 */
module Spans {
  import opened Wrappers

  /** The index in `s` of the first `close` that ends a span, if any. */
  function FindClose(s: string, close: char, stopAtNewline: bool): (r: Option<nat>)
    ensures r.Some? ==> r.value < |s| && s[r.value] == close
    ensures r.Some? ==> forall k :: 0 <= k < r.value ==> s[k] != close && !(stopAtNewline && s[k] == '\n')
    ensures r.None? && !stopAtNewline ==> close !in s
  {
    if s == [] then None
    else if s[0] == close then Some(0)
    else if stopAtNewline && s[0] == '\n' then None
    else
      match FindClose(s[1..], close, stopAtNewline)
      case None => None
      case Some(j) => Some(j + 1)
  }

  /** On a string without newlines, the lazy span ends at the first `close` wherever it is. */
  lemma {:induction false} FindCloseNoNewline(s: string, close: char)
    requires '\n' !in s
    ensures FindClose(s, close, true) == FindClose(s, close, false)
  {
    if s != [] && s[0] != close {
      FindCloseNoNewline(s[1..], close);
    }
  }

  /** The lazy search never looks past a newline: what follows the line does not matter. */
  lemma {:induction false} FindCloseBeforeNewline(s: string, rest: string, close: char)
    requires '\n' !in s && close != '\n'
    ensures FindClose(s + "\n" + rest, close, true) == FindClose(s, close, true)
  {
    if s != [] && s[0] != close {
      FindCloseBeforeNewline(s[1..], rest, close);
      assert (s + "\n" + rest)[1..] == s[1..] + "\n" + rest;
    }
  }

  /** `re.sub(<open>…<close>, '', s)`: every span, from the left, removed. */
  function RemoveSpans(s: string, open: char, close: char, stopAtNewline: bool): (r: string)
    ensures |r| <= |s|
    decreases |s|
  {
    if s == [] then []
    else if s[0] == open && FindClose(s[1..], close, stopAtNewline).Some? then
      RemoveSpans(s[FindClose(s[1..], close, stopAtNewline).value + 2..], open, close, stopAtNewline)
    else [s[0]] + RemoveSpans(s[1..], open, close, stopAtNewline)
  }

  /** A span whose inside holds no closing character (and, for the lazy form, no newline) ends at that closing character. */
  lemma {:induction false} FindCloseAt(v: string, w: string, close: char, stopAtNewline: bool)
    requires close !in v && (stopAtNewline ==> '\n' !in v)
    ensures FindClose(v + [close] + w, close, stopAtNewline) == Some(|v|)
  {
    if v != [] {
      assert (v + [close] + w)[1..] == v[1..] + [close] + w;
      assert v[0] in v;
      FindCloseAt(v[1..], w, close, stopAtNewline);
    }
  }

  /** Text before the first opening character is kept as it is. */
  lemma {:induction false} RemoveSpansKeepsPrefix(u: string, w: string, open: char, close: char, stopAtNewline: bool)
    requires open !in u
    ensures RemoveSpans(u + w, open, close, stopAtNewline) == u + RemoveSpans(w, open, close, stopAtNewline)
  {
    if u != [] {
      assert (u + w)[0] == u[0] && (u + w)[1..] == u[1..] + w;
      assert u[0] in u;
      RemoveSpansKeepsPrefix(u[1..], w, open, close, stopAtNewline);
      assert [u[0]] + u[1..] == u;
    } else {
      assert u + w == w;
    }
  }

  /**
   * A complete span is removed and what surrounds it is kept: the text
   * before it unchanged, the text after it with its own spans removed.
   */
  lemma RemoveSpansAround(u: string, v: string, w: string, open: char, close: char, stopAtNewline: bool)
    requires open !in u && close !in v && (stopAtNewline ==> '\n' !in v)
    ensures RemoveSpans(u + [open] + v + [close] + w, open, close, stopAtNewline)
      == u + RemoveSpans(w, open, close, stopAtNewline)
  {
    var span := [open] + v + [close] + w;
    calc {
      RemoveSpans(u + [open] + v + [close] + w, open, close, stopAtNewline);
    == { assert u + [open] + v + [close] + w == u + span; }
      RemoveSpans(u + span, open, close, stopAtNewline);
    == { RemoveSpansKeepsPrefix(u, span, open, close, stopAtNewline); }
      u + RemoveSpans(span, open, close, stopAtNewline);
    == { RemoveSpansAtStart(v, w, open, close, stopAtNewline); }
      u + RemoveSpans(w, open, close, stopAtNewline);
    }
  }

  /** A complete span at the start is deleted whole. */
  lemma RemoveSpansAtStart(v: string, w: string, open: char, close: char, stopAtNewline: bool)
    requires close !in v && (stopAtNewline ==> '\n' !in v)
    ensures RemoveSpans([open] + v + [close] + w, open, close, stopAtNewline) == RemoveSpans(w, open, close, stopAtNewline)
  {
    var span := [open] + v + [close] + w;
    assert span[0] == open && span[1..] == v + [close] + w;
    FindCloseAt(v, w, close, stopAtNewline);
    assert span[|v| + 2..] == w;
  }

  /** Removing spans only deletes characters. */
  lemma {:induction false} RemoveSpansChars(s: string, open: char, close: char, stopAtNewline: bool)
    ensures forall c :: c in RemoveSpans(s, open, close, stopAtNewline) ==> c in s
    decreases |s|
  {
    if s != [] {
      if s[0] == open && FindClose(s[1..], close, stopAtNewline).Some? {
        var j := FindClose(s[1..], close, stopAtNewline).value;
        RemoveSpansChars(s[j + 2..], open, close, stopAtNewline);
        assert forall c :: c in s[j + 2..] ==> c in s;
      } else {
        RemoveSpansChars(s[1..], open, close, stopAtNewline);
        assert forall c :: c in s[1..] ==> c in s;
      }
    }
  }

  /** A string with neither bracket character is left as it is. */
  lemma {:induction false} RemoveSpansPlain(s: string, open: char, close: char, stopAtNewline: bool)
    requires open !in s
    ensures RemoveSpans(s, open, close, stopAtNewline) == s
  {
    if s != [] {
      RemoveSpansPlain(s[1..], open, close, stopAtNewline);
      assert [s[0]] + s[1..] == s;
    }
  }

  /** No `open` is followed, anywhere later, by a `close`. */
  predicate NoSpan(s: string, open: char, close: char) {
    forall i, j :: 0 <= i < j < |s| && s[i] == open ==> s[j] != close
  }

  lemma NoSpanCons(c: char, s: string, open: char, close: char)
    requires NoSpan(s, open, close)
    requires c == open ==> close !in s
    ensures NoSpan([c] + s, open, close)
  {
    var t := [c] + s;
    forall i, j | 0 <= i < j < |t| && t[i] == open
      ensures t[j] != close
    {
      if i == 0 {
        assert t[j] == s[j - 1];
      } else {
        assert t[i] == s[i - 1] && t[j] == s[j - 1];
      }
    }
  }

  /** On a line without newlines, no complete span survives its removal. */
  lemma {:induction false} RemoveSpansLeavesNoSpan(s: string, open: char, close: char, stopAtNewline: bool)
    requires '\n' !in s
    ensures NoSpan(RemoveSpans(s, open, close, stopAtNewline), open, close)
    decreases |s|
  {
    if s != [] {
      assert forall c :: c in s[1..] ==> c in s;
      var f := FindClose(s[1..], close, stopAtNewline);
      if s[0] == open && f.Some? {
        assert forall c :: c in s[f.value + 2..] ==> c in s;
        RemoveSpansLeavesNoSpan(s[f.value + 2..], open, close, stopAtNewline);
      } else {
        RemoveSpansLeavesNoSpan(s[1..], open, close, stopAtNewline);
        if s[0] == open {
          FindCloseNoNewline(s[1..], close);
          RemoveSpansChars(s[1..], open, close, stopAtNewline);
        }
        NoSpanCons(s[0], RemoveSpans(s[1..], open, close, stopAtNewline), open, close);
      }
    }
  }

  /** Removing spans of one kind keeps a string free of complete spans of another kind. */
  lemma {:induction false} RemoveSpansKeepsNoSpan(s: string, open: char, close: char, stopAtNewline: bool, o: char, c: char)
    requires NoSpan(s, o, c)
    ensures NoSpan(RemoveSpans(s, open, close, stopAtNewline), o, c)
    decreases |s|
  {
    if s != [] {
      var f := FindClose(s[1..], close, stopAtNewline);
      if s[0] == open && f.Some? {
        var rest := s[f.value + 2..];
        assert forall i, j :: 0 <= i < j < |rest| ==> rest[i] == s[i + f.value + 2] && rest[j] == s[j + f.value + 2];
        RemoveSpansKeepsNoSpan(rest, open, close, stopAtNewline, o, c);
      } else {
        var rest := s[1..];
        assert forall i, j :: 0 <= i < j < |rest| ==> rest[i] == s[i + 1] && rest[j] == s[j + 1];
        RemoveSpansKeepsNoSpan(rest, open, close, stopAtNewline, o, c);
        RemoveSpansChars(rest, open, close, stopAtNewline);
        if s[0] == o {
          assert forall k :: 0 <= k < |rest| ==> rest[k] == s[k + 1];
          assert c !in rest;
        }
        NoSpanCons(s[0], RemoveSpans(rest, open, close, stopAtNewline), o, c);
      }
    }
  }
  /** A slice of a string without complete spans has none either. */
  lemma NoSpanSlice(s: string, a: nat, b: nat, open: char, close: char)
    requires a <= b <= |s|
    requires NoSpan(s, open, close)
    ensures NoSpan(s[a..b], open, close)
  {
    var t := s[a..b];
    assert forall i :: 0 <= i < |t| ==> t[i] == s[a + i];
  }

  /** A string without complete spans is left as it is. */
  lemma {:induction false} RemoveSpansNoSpan(s: string, open: char, close: char, stopAtNewline: bool)
    requires NoSpan(s, open, close)
    ensures RemoveSpans(s, open, close, stopAtNewline) == s
  {
    if s != [] {
      if s[0] == open {
        assert forall k :: 0 <= k < |s| - 1 ==> s[1..][k] == s[k + 1];
        assert close !in s[1..];
      }
      NoSpanSlice(s, 1, |s|, open, close);
      RemoveSpansNoSpan(s[1..], open, close, stopAtNewline);
      assert [s[0]] + s[1..] == s;
    }
  }
}
