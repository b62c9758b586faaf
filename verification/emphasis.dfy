/**
 `bold` and `italics` of md_to_html.py: one substitution pass each, turning
 `**x**` into `<strong>x</strong>` and `*x*` into `<em>x</em>`.
 */
module EmphasisPass {
  import opened Text
  import opened Substitute
  import opened Patterns

  /** md_to_html.py:87-106: the text changes exactly when some line holds a `**x**` span. */
  function Bold(s: string): (r: string)
    ensures r == s <==> Unemphasized(Strong, s)
  {
    EmphasizeUnchangedIff(Strong, s);
    Sub(Emphasis(Strong), s)
  }

  /** md_to_html.py:65-84: the text changes exactly when some line holds a `*x*` span. */
  function Italics(s: string): (r: string)
    ensures r == s <==> Unemphasized(Em, s)
  {
    EmphasizeUnchangedIff(Em, s);
    Sub(Emphasis(Em), s)
  }

  /** No emphasis span of `style` starts at any position of `s`. */
  ghost predicate Unemphasized(style: Style, s: string) {
    forall k, q :: 0 <= k < |s| ==> !EmphasisShape(style, s[k..], q)
  }

  /** One emphasis pass, `bold` for `Strong` and `italics` for `Em`. */
  function Emphasize(style: Style, s: string): string {
    Sub(Emphasis(style), s)
  }

  lemma PassesAreEmphasize(s: string)
    ensures Bold(s) == Emphasize(Strong, s)
    ensures Italics(s) == Emphasize(Em, s)
  {
  }

  /** An emphasis span never crosses a newline: each line is rewritten on its own. */
  lemma EmphasizeSplitsAtNewline(style: Style, a: string, b: string)
    ensures Emphasize(style, a + "\n" + b) == Emphasize(style, a) + "\n" + Emphasize(style, b)
  {
    EmphasisConsumes(style);
    EmphasisSeesOneLine(style);
    SubSplitsAtNewline(Emphasis(style), a, b);
  }

  /**
   On one line, the span runs from the leftmost delimiter to the last one,
   provided at least one character lies between them; the text around the
   span is kept as it is.
   */
  lemma EmphasizeLine(style: Style, pre: string, mid: string, post: string)
    requires NewlineFree(pre + Delim(style) + mid + Delim(style) + post)
    requires |mid| >= 1
    requires forall q :: 0 <= q < |pre| ==> !OccursAt(pre + Delim(style) + mid + Delim(style) + post, Delim(style), q)
    requires forall q :: |pre| + |Delim(style)| + |mid| < q ==>
                         !OccursAt(pre + Delim(style) + mid + Delim(style) + post, Delim(style), q)
    ensures Emphasize(style, pre + Delim(style) + mid + Delim(style) + post)
            == pre + OpenStyle(style) + mid + CloseStyle(style) + post
  {
    var d := Delim(style);
    var span := d + mid + d;
    var out := OpenStyle(style) + mid + CloseStyle(style);
    SpanIsolated(style, pre, mid, post);
    EmphasizeOneSpan(style, pre, span, post, out);
    Associate(pre, d, mid, d, post);
    Associate(pre, OpenStyle(style), mid, CloseStyle(style), post);
  }

  /** The three facts about a lone span on which the substitution relies. */
  lemma SpanIsolated(style: Style, pre: string, mid: string, post: string)
    requires NewlineFree(pre + Delim(style) + mid + Delim(style) + post)
    requires |mid| >= 1
    requires forall q :: 0 <= q < |pre| ==> !OccursAt(pre + Delim(style) + mid + Delim(style) + post, Delim(style), q)
    requires forall q :: |pre| + |Delim(style)| + |mid| < q ==>
                         !OccursAt(pre + Delim(style) + mid + Delim(style) + post, Delim(style), q)
    ensures forall k :: 0 <= k < |pre| ==>
              Emphasis(style)(pre[k..] + (Delim(style) + mid + Delim(style) + post)).None?
    ensures Emphasis(style)(Delim(style) + mid + Delim(style) + post)
            == Some(Match(|Delim(style) + mid + Delim(style)|, OpenStyle(style) + mid + CloseStyle(style)))
    ensures NoMatch(Emphasis(style), post)
  {
    var d := Delim(style);
    var line := pre + d + mid + d + post;
    var span := d + mid + d;
    assert line == pre + (span + post);
    assert span + post == d + mid + d + post;
    NothingBefore(style, pre, span + post);
    SpanMatches(style, pre, mid, post);
    assert line[|pre| + |span|..] == post;
    NothingAfter(style, line, |pre| + |span|);
  }

  /** The substitution step of a lone span, with the facts about the span taken as given. */
  lemma EmphasizeOneSpan(style: Style, pre: string, span: string, post: string, out: string)
    requires 1 <= |span|
    requires forall k :: 0 <= k < |pre| ==> Emphasis(style)(pre[k..] + (span + post)).None?
    requires Emphasis(style)(span + post) == Some(Match(|span|, out))
    requires NoMatch(Emphasis(style), post)
    ensures Emphasize(style, pre + span + post) == pre + out + post
  {
    SubOneMatch(Emphasis(style), pre, span, post, out);
  }

  /** No delimiter before the span: no match starts there. */
  lemma NothingBefore(style: Style, pre: string, rest: string)
    requires forall q :: 0 <= q < |pre| ==> !OccursAt(pre + rest, Delim(style), q)
    ensures forall k :: 0 <= k < |pre| ==> Emphasis(style)(pre[k..] + rest).None?
  {
    forall k | 0 <= k < |pre|
      ensures MatchEmphasis(style, pre[k..] + rest).None?
    {
      EmphasisNoDelim(style, pre + rest, k);
      assert pre[k..] + rest == (pre + rest)[k..];
    }
  }

  /** No delimiter after the span: no match starts there. */
  lemma NothingAfter(style: Style, line: string, from: nat)
    requires from <= |line|
    requires forall q :: from <= q ==> !OccursAt(line, Delim(style), q)
    ensures NoMatch(Emphasis(style), line[from..])
  {
    forall k | 0 <= k < |line| - from
      ensures MatchEmphasis(style, line[from..][k..]).None?
    {
      assert line[from..][k..] == line[from + k..];
      assert !OccursAt(line, Delim(style), from + k);
      EmphasisNoDelim(style, line, from + k);
    }
  }

  /** The span itself is matched, and the match stops at its closing delimiter. */
  lemma SpanMatches(style: Style, pre: string, mid: string, post: string)
    requires NewlineFree(pre + Delim(style) + mid + Delim(style) + post)
    requires |mid| >= 1
    requires forall q :: |pre| + |Delim(style)| + |mid| < q ==>
                         !OccursAt(pre + Delim(style) + mid + Delim(style) + post, Delim(style), q)
    ensures MatchEmphasis(style, Delim(style) + mid + Delim(style) + post)
            == Some(Match(|Delim(style) + mid + Delim(style)|, OpenStyle(style) + mid + CloseStyle(style)))
  {
    DelimNewlineFree(style);
    DelimitedSpanMatches(Delim(style), OpenStyle(style), CloseStyle(style), pre, mid, post);
  }

  lemma DelimitedSpanMatches(d: string, open: string, close: string, pre: string, mid: string, post: string)
    requires NewlineFree(d) && NewlineFree(pre + d + mid + d + post) && |mid| >= 1
    requires forall q :: |pre| + |d| + |mid| < q ==> !OccursAt(pre + d + mid + d + post, d, q)
    ensures MatchDelimited(d, open, close, d + mid + d + post) == Some(Match(|d + mid + d|, open + mid + close))
  {
    var span := d + mid + d;
    assert pre + d + mid + d + post == (pre + d) + mid + (d + post);
    MidNewlineFree(pre + d, mid, d + post);
    DelimitedSpan(d, mid, post);
    SpanLast(d, pre, mid, post);
    DelimitedOfSpan(d, open, close, span + post, |span|);
  }

  lemma MidNewlineFree(a: string, mid: string, b: string)
    requires NewlineFree(a + mid + b)
    ensures NewlineFree(mid)
  {
    NewlineFreeConcat(a + mid, b);
    NewlineFreeConcat(a, mid);
  }

  lemma DelimitedSpan(d: string, mid: string, post: string)
    requires NewlineFree(mid) && |mid| >= 1
    ensures Delimited(d, d + mid + d + post, |d + mid + d|)
    ensures (d + mid + d + post)[|d|..|d + mid + d| - |d|] == mid
  {
    var rest := d + mid + d + post;
    var q := |d + mid + d|;
    assert q == |d| + |mid| + |d|;
    assert rest == d + (mid + (d + post));
    assert rest[..|d|] == d;
    assert rest[|d|..] == mid + (d + post);
    assert rest[|d|..q - |d|] == (mid + (d + post))[..|mid|] == mid;
    assert rest[|d| + |mid|..] == d + post;
    assert rest[q - |d|..q] == (d + post)[..|d|] == d;
  }

  /** No delimiter starts after the closing one when none does in the whole line. */
  lemma SpanLast(d: string, pre: string, mid: string, post: string)
    requires forall q :: |pre| + |d| + |mid| < q ==> !OccursAt(pre + d + mid + d + post, d, q)
    ensures forall j :: |d + mid + d| - |d| < j ==> !OccursAt(d + mid + d + post, d, j)
  {
    var line := pre + d + mid + d + post;
    var rest := d + mid + d + post;
    assert line == pre + rest;
    assert rest == line[|pre|..];
    forall j | |d + mid + d| - |d| < j
      ensures !OccursAt(rest, d, j)
    {
      OccursInSuffix(line, d, |pre|, j);
    }
  }

  /** `**x**` on its own becomes `<strong>x</strong>`, and `*x*` becomes `<em>x</em>`. */
  lemma EmphasizeWhole(style: Style, x: string)
    requires NewlineFree(x) && |x| >= 1
    ensures Emphasize(style, Delim(style) + x + Delim(style)) == OpenStyle(style) + x + CloseStyle(style)
  {
    var d := Delim(style);
    NewlineFreeConcat(d, x);
    NewlineFreeConcat(d + x, d);
    Unpadded(d, x, d);
    Unpadded(OpenStyle(style), x, CloseStyle(style));
    EmphasizeLine(style, [], x, []);
  }

  /**
   A line whose text outside one span holds no asterisk: the span between the
   two delimiters is converted, whatever asterisks it holds itself.
   */
  lemma EmphasizeBetween(style: Style, pre: string, mid: string, post: string)
    requires NewlineFree(pre) && NewlineFree(mid) && NewlineFree(post) && |mid| >= 1
    requires NoChar(pre, '*') && NoChar(post, '*')
    ensures Emphasize(style, pre + Delim(style) + mid + Delim(style) + post)
            == pre + OpenStyle(style) + mid + CloseStyle(style) + post
  {
    var d := Delim(style);
    var line := pre + d + mid + d + post;
    NewlineFreeConcat(pre, d);
    NewlineFreeConcat(pre + d, mid);
    NewlineFreeConcat(pre + d + mid, d);
    NewlineFreeConcat(pre + d + mid + d, post);
    forall q | 0 <= q < |pre|
      ensures !OccursAt(line, d, q)
    {
      OutsideMismatch(line, d, q, pre[q]);
    }
    var e := |pre| + |d| + |mid| + |d|;
    forall q | |pre| + |d| + |mid| < q
      ensures !OccursAt(line, d, q)
    {
      if q >= e && q < |line| {
        OutsideMismatch(line, d, q, post[q - e]);
      } else if q < e && q + |d| <= |line| {
        assert |d| == 2 && q == e - 1 && |post| >= 1;
        assert line[q + 1] == post[0];
        Mismatch(line, d, q, 1);
      }
    }
    EmphasizeLine(style, pre, mid, post);
  }

  /** A delimiter cannot start at a character that is not an asterisk. */
  lemma OutsideMismatch(line: string, d: string, q: nat, c: char)
    requires |d| >= 1 && d[0] == '*' && c != '*'
    requires q < |line| && line[q] == c
    ensures !OccursAt(line, d, q)
  {
    Mismatch(line, d, q, 0);
  }

  /**
   A pass leaves the text unchanged exactly when no line holds a delimiter,
   at least one character, and another delimiter.
   */
  lemma EmphasizeUnchangedIff(style: Style, s: string)
    ensures Emphasize(style, s) == s <==> Unemphasized(style, s)
  {
    if Unemphasized(style, s) {
      NoShapeUnchanged(style, s);
    }
    if Emphasize(style, s) == s {
      UnchangedNoMatch(style, s);
      forall k, q | 0 <= k < |s|
        ensures !EmphasisShape(style, s[k..], q)
      {
        assert MatchEmphasis(style, s[k..]).None?;
      }
    }
  }

  lemma NoShapeUnchanged(style: Style, s: string)
    requires forall k, q :: 0 <= k < |s| ==> !EmphasisShape(style, s[k..], q)
    ensures Emphasize(style, s) == s
  {
    forall k | 0 <= k < |s|
      ensures Emphasis(style)(s[k..]).None?
    {
      NoShapeNoMatch(style, s[k..]);
    }
    SubIdentity(Emphasis(style), s);
  }

  /** Every replacement lengthens the text, so an unchanged text had no match. */
  lemma UnchangedNoMatch(style: Style, s: string)
    requires Emphasize(style, s) == s
    ensures NoMatch(Emphasis(style), s)
  {
    EmphasisConsumes(style);
    EmphasisLengthens(style);
    SubGrows(Emphasis(style), s);
  }

  lemma NoShapeNoMatch(style: Style, t: string)
    requires forall q :: !EmphasisShape(style, t, q)
    ensures MatchEmphasis(style, t).None?
  {
  }

  /** Text without any asterisk passes through both emphasis passes unchanged. */
  lemma NoAsteriskUnchanged(style: Style, s: string)
    requires NoChar(s, '*')
    ensures Emphasize(style, s) == s
  {
    var m := Emphasis(style);
    var d := Delim(style);
    forall k | 0 <= k < |s|
      ensures m(s[k..]).None?
    {
      if k + |d| <= |s| {
        assert s[k..k + |d|][0] == s[k];
      }
      EmphasisNoDelim(style, s, k);
    }
    SubIdentity(m, s);
  }

  // ---------------------------------------------------------------------
  // The documented examples (md_to_html.py:80-82, 102-104)
  //
  // Each example receives its input as a parameter fixed by `requires` rather
  // than naming the literal inside `ensures`: the verifier then unfolds the
  // passes over a plain variable, which keeps these proofs cheap.

  lemma ItalicsExample(s: string)
    requires s == "*italic*"
    ensures Italics(s) == "<em>italic</em>"
  {
    WholeSpelled(Em, s, "italic", "<em>italic</em>");
  }

  lemma BoldExample(s: string)
    requires s == "**bold**"
    ensures Bold(s) == "<strong>bold</strong>"
  {
    WholeSpelled(Strong, s, "bold", "<strong>bold</strong>");
  }

  lemma WholeSpelled(style: Style, s: string, x: string, r: string)
    requires NewlineFree(x) && |x| >= 1
    requires s == Delim(style) + x + Delim(style)
    requires r == OpenStyle(style) + x + CloseStyle(style)
    ensures Emphasize(style, s) == r
  {
    EmphasizeWhole(style, x);
  }
}
