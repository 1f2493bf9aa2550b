/**
 * How the whitespace steps that follow a span removal treat spans:
 * collapsing whitespace and stripping the ends create no span of
 * non-whitespace brackets.
 */
module SpanSpacing {
  import opened Text
  import opened Spans

  /** Collapsing whitespace keeps a string free of complete spans of non-whitespace brackets. */
  lemma {:induction false} CollapseKeepsNoSpan(s: string, open: char, close: char)
    requires !IsSpace(open) && !IsSpace(close)
    requires NoSpan(s, open, close)
    ensures NoSpan(Collapse(s), open, close)
    decreases |s|
  {
    if s != [] {
      var t := CollapseRest(s);
      NoSpanSlice(s, |s| - |t|, |s|, open, close);
      CollapseKeepsNoSpan(t, open, close);
      var x := if IsSpace(s[0]) then ' ' else s[0];
      if x == open {
        assert forall k :: 0 <= k < |t| ==> t[k] == s[|s| - |t| + k];
        CollapseKeepsAll(t, c => c != close);
        assert close !in Collapse(t);
      }
      NoSpanCons(x, Collapse(t), open, close);
    }
  }

  /** Stripping keeps a string free of complete spans. */
  lemma StripKeepsNoSpan(g: string, open: char, close: char)
    requires NoSpan(g, open, close)
    ensures NoSpan(Strip(g), open, close)
  {
    StripIsSlice(g);
    var a, b :| 0 <= a <= b <= |g| && Strip(g) == g[a..b];
    NoSpanSlice(g, a, b, open, close);
  }
}
