/**
 `paragraphs` of md_to_html.py: every separator (a newline, any whitespace,
 and a newline) becomes `</p>\n<p>`, and the whole text is wrapped in
 `<p>` … `</p>`.
 */
module ParagraphPass {
  import opened Text
  import opened Substitute
  import opened Patterns

  /**
   md_to_html.py:10-30. The text comes back merely wrapped in `<p>` … `</p>`
   exactly when it holds no separator.
   */
  function Paragraphs(s: string): (r: string)
    ensures r == "<p>" + s + "</p>" <==> NoSeparator(s)
  {
    WrapIff(s);
    "<p>" + Sub(MatchBlank, s) + "</p>"
  }

  /** The text between two paragraphs: a newline, whitespace, and a newline. */
  ghost predicate Gap(g: string) {
    BlankShape(g, |g|)
  }

  /** No separator starts anywhere in `p`. */
  ghost predicate NoSeparator(p: string) {
    forall k, q :: 0 <= k < |p| ==> !BlankShape(p[k..], q)
  }

  /** A gap before `p` ends where `p` begins: the whitespace `p` starts with holds no newline. */
  ghost predicate Opens(p: string) {
    NewlineFree(p[..Span(p, IsSpace)])
  }

  /** A gap after `p` starts where `p` ends: the whitespace `p` ends with holds no newline. */
  ghost predicate Closes(p: string) {
    NewlineFree(p[|p| - TrailingSpan(p, IsSpace)..])
  }

  /**
   Paragraphs that the gaps between them keep apart: none holds a separator,
   each after the first opens and each before the last closes where its gap
   ends or starts, and each in the middle holds a character that is not
   whitespace (otherwise the gaps on either side would run together). The
   first and the last may be empty.
   */
  ghost predicate Separable(paras: seq<string>) {
    forall i :: 0 <= i < |paras| ==> Fits(paras, i)
  }

  /** What `Separable` asks of the paragraph at index `i`. */
  ghost predicate Fits(paras: seq<string>, i: nat)
    requires i < |paras|
  {
    && NoSeparator(paras[i])
    && (0 < i ==> Opens(paras[i]))
    && (i < |paras| - 1 ==> Closes(paras[i]))
    && (0 < i < |paras| - 1 ==> Span(paras[i], IsSpace) < |paras[i]|)
  }

  /** Paragraphs with the gaps between them: `paras[0] + gaps[0] + paras[1] + …`. */
  function Interleave(paras: seq<string>, gaps: seq<string>): string
    decreases |paras|
  {
    if |paras| == 0 then []
    else if |paras| == 1 || |gaps| == 0 then paras[0]
    else paras[0] + gaps[0] + Interleave(paras[1..], gaps[1..])
  }

  /** Paragraphs joined by `sep`. */
  function JoinWith(paras: seq<string>, sep: string): string
    decreases |paras|
  {
    if |paras| == 0 then []
    else if |paras| == 1 then paras[0]
    else paras[0] + sep + JoinWith(paras[1..], sep)
  }

  /**
   Text made of paragraphs separated by gaps becomes those paragraphs, each
   between `<p>` and `</p>`, one per line, whatever whitespace the gaps held.
   */
  lemma {:induction false} ParagraphsOfGaps(paras: seq<string>, gaps: seq<string>)
    requires |paras| >= 1 && |gaps| == |paras| - 1
    requires Separable(paras)
    requires forall i :: 0 <= i < |gaps| ==> Gap(gaps[i])
    ensures Paragraphs(Interleave(paras, gaps)) == "<p>" + JoinWith(paras, "</p>\n<p>") + "</p>"
  {
    SubInterleave(paras, gaps);
  }

  lemma {:induction false} SubInterleave(paras: seq<string>, gaps: seq<string>)
    requires |paras| >= 1 && |gaps| == |paras| - 1
    requires Separable(paras)
    requires forall i :: 0 <= i < |gaps| ==> Gap(gaps[i])
    ensures Sub(MatchBlank, Interleave(paras, gaps)) == JoinWith(paras, "</p>\n<p>")
    decreases |paras|
  {
    if |paras| == 1 {
      assert Fits(paras, 0);
      NoSeparatorUnchanged(paras[0]);
    } else {
      var rest := Interleave(paras[1..], gaps[1..]);
      SeparableTail(paras);
      RestOpens(paras, gaps);
      assert Fits(paras, 0) && Gap(gaps[0]);
      GapStep(paras[0], gaps[0], rest);
      SubInterleave(paras[1..], gaps[1..]);
    }
  }

  /** Dropping the first paragraph keeps the rest separable. */
  lemma SeparableTail(paras: seq<string>)
    requires |paras| >= 1 && Separable(paras)
    ensures Separable(paras[1..])
  {
    var tail := paras[1..];
    forall i | 0 <= i < |tail|
      ensures Fits(tail, i)
    {
      assert tail[i] == paras[i + 1] && Fits(paras, i + 1);
    }
  }

  /** The text after the first gap opens as its first paragraph does. */
  lemma RestOpens(paras: seq<string>, gaps: seq<string>)
    requires |paras| >= 2 && |gaps| == |paras| - 1 && Separable(paras)
    ensures Opens(Interleave(paras[1..], gaps[1..]))
  {
    var p := paras[1];
    var rest := Interleave(paras[1..], gaps[1..]);
    assert Fits(paras, 1);
    if |paras| == 2 {
      assert rest == p;
    } else {
      InterleaveStart(paras[1..], gaps[1..]);
      SpaceRunWithin(p, rest[|p|..]);
      assert rest == p + rest[|p|..];
    }
  }

  /** The interleaving starts with the first paragraph. */
  lemma {:induction false} InterleaveStart(paras: seq<string>, gaps: seq<string>)
    requires |paras| >= 1
    ensures paras[0] <= Interleave(paras, gaps)
  {
  }

  /** A whitespace run that starts in `p` stops at `p`'s first other character. */
  lemma SpaceRunWithin(p: string, c: string)
    requires Span(p, IsSpace) < |p|
    ensures Span(p + c, IsSpace) == Span(p, IsSpace)
    ensures (p + c)[..Span(p + c, IsSpace)] == p[..Span(p, IsSpace)]
  {
    var n := Span(p, IsSpace);
    assert forall k :: 0 <= k < n ==> (p + c)[k] == p[k];
    assert (p + c)[n] == p[n];
    SpanExact(p + c, IsSpace, n);
  }

  /** A paragraph followed by a gap: the gap is replaced and scanning resumes after it. */
  lemma GapStep(a: string, g: string, b: string)
    requires NoSeparator(a) && Closes(a) && Gap(g) && Opens(b)
    ensures Sub(MatchBlank, a + g + b) == a + "</p>\n<p>" + Sub(MatchBlank, b)
  {
    SkipClosed(a, g + b);
    GapMatches(g, b);
    SubAtMatch(MatchBlank, g, b, "</p>\n<p>");
    assert a + g + b == a + (g + b);
  }

  /** A paragraph that closes cleanly is copied through, whatever follows it. */
  lemma SkipClosed(a: string, c: string)
    requires NoSeparator(a) && Closes(a)
    ensures Sub(MatchBlank, a + c) == a + Sub(MatchBlank, c)
  {
    forall k | 0 <= k < |a|
      ensures MatchBlank(a[k..] + c).None?
    {
      NoSeparatorAhead(a, k, c);
    }
    SubSkip(MatchBlank, a, c);
  }

  /**
   No separator starts in a paragraph that closes cleanly, whatever follows
   it: one that ran past its end would start at a newline followed only by
   whitespace, inside the whitespace the paragraph ends with.
   */
  lemma NoSeparatorAhead(a: string, k: nat, c: string)
    requires NoSeparator(a) && Closes(a) && k < |a|
    ensures MatchBlank(a[k..] + c).None?
  {
    var t := a[k..] + c;
    var n := TrailingSpan(a, IsSpace);
    forall q
      ensures !BlankShape(t, q)
    {
      if 0 <= q <= |a| - k {
        assert t[..q] == a[k..][..q];
        BlankShapePrefix(t, a[k..], q);
      } else if |a| - k < q <= |t| && t[0] == '\n' {
        assert t[0] == a[k];
        if k < |a| - n {
          assert t[|a| - 1 - n - k] == a[|a| - 1 - n];
        }
      }
    }
  }

  /** Whether `t[..q]` is a separator depends on `t[..q]` alone. */
  lemma BlankShapePrefix(t: string, u: string, q: nat)
    requires q <= |t| && q <= |u| && t[..q] == u[..q]
    ensures BlankShape(t, q) <==> BlankShape(u, q)
  {
    if 2 <= q {
      assert t[0] == t[..q][0] && u[0] == u[..q][0];
      assert t[q - 1] == t[..q][q - 1] && u[q - 1] == u[..q][q - 1];
      assert forall k :: 0 <= k < q ==> t[k] == t[..q][k] && u[k] == u[..q][k];
    }
  }

  /** A gap before text whose leading whitespace holds no newline is matched whole. */
  lemma GapMatches(g: string, b: string)
    requires Gap(g)
    requires NewlineFree(b[..Span(b, IsSpace)])
    ensures MatchBlank(g + b) == Some(Match(|g|, "</p>\n<p>"))
  {
    var t := g + b;
    assert t[..|g|] == g;
    BlankShapePrefix(t, g, |g|);
    var n := Span(b, IsSpace);
    forall q | |g| < q <= |t|
      ensures !BlankShape(t, q)
    {
      if q - 1 - |g| < n {
        assert t[q - 1] == b[..n][q - 1 - |g|];
      } else {
        assert t[|g| + n] == b[n];
      }
    }
  }

  /** A paragraph holds no separator, so the substitution leaves it as it is. */
  lemma NoSeparatorUnchanged(p: string)
    requires NoSeparator(p)
    ensures Sub(MatchBlank, p) == p
  {
    forall k | 0 <= k < |p|
      ensures MatchBlank(p[k..]).None?
    {
    }
    SubIdentity(MatchBlank, p);
  }

  /** The substitution inside `Paragraphs` leaves the text as it is exactly when it holds no separator. */
  lemma WrapIff(s: string)
    ensures "<p>" + Sub(MatchBlank, s) + "</p>" == "<p>" + s + "</p>" <==> NoSeparator(s)
  {
    var x := Sub(MatchBlank, s);
    if NoSeparator(s) {
      NoSeparatorUnchanged(s);
    }
    if "<p>" + x + "</p>" == "<p>" + s + "</p>" {
      assert x == ("<p>" + x + "</p>")[3..3 + |x|];
      assert |x| == |s|;
      assert s == ("<p>" + s + "</p>")[3..3 + |s|];
      SubBlankNewlines(s);
      forall k, q | 0 <= k < |s|
        ensures !BlankShape(s[k..], q)
      {
        assert MatchBlank(s[k..]).None?;
      }
    }
  }

  /** A single line holds no separator, so it is only wrapped. */
  lemma LineParagraph(p: string)
    requires NewlineFree(p)
    ensures Paragraphs(p) == "<p>" + p + "</p>"
  {
    forall k, q | 0 <= k < |p|
      ensures !BlankShape(p[k..], q)
    {
      assert p[k..][0] == p[k];
    }
  }

  /**
   Each separator holds at least two newlines and is replaced by text with
   one: the substitution never adds newlines, and it keeps their number only
   when it found no separator.
   */
  lemma {:induction false} SubBlankNewlines(s: string)
    ensures Newlines(Sub(MatchBlank, s)) <= Newlines(s)
    ensures Newlines(Sub(MatchBlank, s)) == Newlines(s) ==> NoMatch(MatchBlank, s)
    decreases |s|
  {
    if |s| > 0 {
      match MatchBlank(s)
      case Some(x) =>
        SubBlankNewlines(s[x.len..]);
        SeparatorStep(s, x.len);
      case None =>
        SubBlankNewlines(s[1..]);
        assert s == [s[0]] + s[1..];
        NewlinesAppend([s[0]], s[1..]);
        NewlinesAppend([s[0]], Sub(MatchBlank, s[1..]));
        if Newlines(Sub(MatchBlank, s)) == Newlines(s) {
          forall k | 0 <= k < |s|
            ensures MatchBlank(s[k..]).None?
          {
            if k > 0 {
              assert s[1..][k - 1..] == s[k..];
            }
          }
        }
    }
  }

  /** Replacing the separator at the start removes at least one newline. */
  lemma SeparatorStep(s: string, len: nat)
    requires MatchBlank(s) == Some(Match(len, "</p>\n<p>"))
    ensures Newlines(Sub(MatchBlank, s)) < Newlines(s[..len]) + Newlines(Sub(MatchBlank, s[len..]))
    ensures Newlines(s) == Newlines(s[..len]) + Newlines(s[len..])
  {
    assert s == s[..len] + s[len..];
    NewlinesAppend(s[..len], s[len..]);
    SeparatorNewlines(s[..len]);
    assert Sub(MatchBlank, s) == "</p>\n<p>" + Sub(MatchBlank, s[len..]);
    NewlinesAppend("</p>\n<p>", Sub(MatchBlank, s[len..]));
    BreakNewlines();
  }

  lemma BreakNewlines()
    ensures Newlines("</p>\n<p>") == 1
  {
    assert "</p>\n<p>" == "</p>" + "\n" + "<p>";
    NewlinesAppend("</p>", "\n");
    NewlinesAppend("</p>\n", "<p>");
  }

  /** A separator starts and ends with a newline. */
  lemma SeparatorNewlines(t: string)
    requires BlankShape(t, |t|)
    ensures Newlines(t) >= 2
  {
    assert t == [t[0]] + t[1..];
    NewlinesAppend([t[0]], t[1..]);
    assert t[1..][|t| - 2] == '\n';
  }

  /** The example of md_to_html.py:24-26. */
  lemma ParagraphsExample(s: string)
    requires s == "P1\n\nP2\nP2\n    \t   \n\n\n  \t\nP3"
    ensures Paragraphs(s) == "<p>P1</p>\n<p>P2\nP2</p>\n<p>P3</p>"
  {
    ExampleSplit(s, ["P1", "P2\nP2", "P3"], ["\n\n", "\n    \t   \n\n\n  \t\n"]);
  }

  lemma ExampleSplit(s: string, paras: seq<string>, gaps: seq<string>)
    requires s == "P1\n\nP2\nP2\n    \t   \n\n\n  \t\nP3"
    requires paras == ["P1", "P2\nP2", "P3"]
    requires gaps == ["\n\n", "\n    \t   \n\n\n  \t\n"]
    ensures Paragraphs(s) == "<p>P1</p>\n<p>P2\nP2</p>\n<p>P3</p>"
  {
    ExampleParts(paras, gaps);
    ExampleLayout(paras, gaps);
    ExampleJoin(paras);
    SeparatedText(s, paras, gaps, "<p>P1</p>\n<p>P2\nP2</p>\n<p>P3</p>");
  }

  /** `ParagraphsOfGaps` for a text and a result given by name. */
  lemma SeparatedText(s: string, paras: seq<string>, gaps: seq<string>, r: string)
    requires |paras| >= 1 && |gaps| == |paras| - 1
    requires Separable(paras)
    requires forall i :: 0 <= i < |gaps| ==> Gap(gaps[i])
    requires s == Interleave(paras, gaps) && r == "<p>" + JoinWith(paras, "</p>\n<p>") + "</p>"
    ensures Paragraphs(s) == r
  {
    ParagraphsOfGaps(paras, gaps);
  }

  lemma ExampleParts(paras: seq<string>, gaps: seq<string>)
    requires paras == ["P1", "P2\nP2", "P3"]
    requires gaps == ["\n\n", "\n    \t   \n\n\n  \t\n"]
    ensures Separable(paras)
    ensures forall i :: 0 <= i < |gaps| ==> Gap(gaps[i])
  {
    var a, b, c := paras[0], paras[1], paras[2];
    SolidBody(a);
    SolidBody(b);
    SolidBody(c);
    ThreeSeparable(a, b, c);
    assert paras == [a, b, c];
  }

  lemma ExampleLayout(paras: seq<string>, gaps: seq<string>)
    requires paras == ["P1", "P2\nP2", "P3"]
    requires gaps == ["\n\n", "\n    \t   \n\n\n  \t\n"]
    ensures Interleave(paras, gaps) == "P1\n\nP2\nP2\n    \t   \n\n\n  \t\nP3"
  {
    assert Interleave(paras[2..], gaps[2..]) == "P3";
    assert Interleave(paras[1..], gaps[1..]) == "P2\nP2" + "\n    \t   \n\n\n  \t\n" + "P3";
  }

  lemma ExampleJoin(paras: seq<string>)
    requires paras == ["P1", "P2\nP2", "P3"]
    ensures "<p>" + JoinWith(paras, "</p>\n<p>") + "</p>" == "<p>P1</p>\n<p>P2\nP2</p>\n<p>P3</p>"
  {
    assert JoinWith(paras[2..], "</p>\n<p>") == "P3";
    assert JoinWith(paras[1..], "</p>\n<p>") == "P2\nP2" + "</p>\n<p>" + "P3";
  }

  /**
   A text that starts and ends with a non-space and whose every newline is
   followed by a non-space can stand anywhere among separable paragraphs.
   */
  lemma SolidBody(p: string)
    requires |p| >= 1 && !IsSpace(p[0]) && !IsSpace(p[|p| - 1])
    requires forall k :: 0 <= k < |p| - 1 && p[k] == '\n' ==> !IsSpace(p[k + 1])
    ensures NoSeparator(p) && Opens(p) && Closes(p) && Span(p, IsSpace) < |p|
  {
    SpanExact(p, IsSpace, 0);
    forall k, q | 0 <= k < |p|
      ensures !BlankShape(p[k..], q)
    {
      if k < |p| - 1 {
        assert p[k..][1] == p[k + 1];
      }
    }
  }

  /** Two paragraphs are separable when the first closes and the second opens cleanly. */
  lemma TwoSeparable(a: string, b: string)
    requires NoSeparator(a) && Closes(a)
    requires NoSeparator(b) && Opens(b)
    ensures Separable([a, b])
  {
  }

  /** Three paragraphs are separable when, in addition, the middle one holds a non-space. */
  lemma ThreeSeparable(a: string, b: string, c: string)
    requires NoSeparator(a) && Closes(a)
    requires NoSeparator(b) && Opens(b) && Closes(b) && Span(b, IsSpace) < |b|
    requires NoSeparator(c) && Opens(c)
    ensures Separable([a, b, c])
  {
    var ps := [a, b, c];
    forall i | 0 <= i < 3
      ensures Fits(ps, i)
    {
      if i == 0 { assert ps[i] == a; } else if i == 1 { assert ps[i] == b; } else { assert ps[i] == c; }
    }
  }

  /** Two separable paragraphs around one gap. */
  lemma TwoParagraphs(s: string, a: string, g: string, b: string, r: string)
    requires s == a + g + b && Gap(g)
    requires NoSeparator(a) && Closes(a)
    requires NoSeparator(b) && Opens(b)
    requires r == "<p>" + a + "</p>\n<p>" + b + "</p>"
    ensures Paragraphs(s) == r
  {
    var ps, gs := [a, b], [g];
    TwoSeparable(a, b);
    InterleaveTwo(ps, gs);
    ParagraphsOfGaps(ps, gs);
    JoinWithTwo(ps, "</p>\n<p>");
    Assoc("<p>", a, "</p>\n<p>", b);
  }

  lemma InterleaveTwo(paras: seq<string>, gaps: seq<string>)
    requires |paras| == 2 && |gaps| == 1
    ensures Interleave(paras, gaps) == paras[0] + gaps[0] + paras[1]
  {
    assert Interleave(paras[1..], gaps[1..]) == paras[1];
  }

  lemma JoinWithTwo(paras: seq<string>, sep: string)
    requires |paras| == 2
    ensures JoinWith(paras, sep) == paras[0] + sep + paras[1]
  {
    assert JoinWith(paras[1..], sep) == paras[1];
  }

  // ---------------------------------------------------------------------
  // Paragraphs at the edges and paragraphs ending in blanks

  /** Blanks at the end of a paragraph stay inside it; the separator starts at the newline. */
  lemma TrailingBlankExample(s: string)
    requires s == "a \n\nb"
    ensures Paragraphs(s) == "<p>a </p>\n<p>b</p>"
  {
    EdgeParts("a ", "\n\n", "b");
    TwoParagraphs(s, "a ", "\n\n", "b", "<p>a </p>\n<p>b</p>");
  }

  /** A text that starts with a separator begins with an empty paragraph. */
  lemma LeadingGap(g: string, b: string)
    requires Gap(g) && NoSeparator(b) && Opens(b)
    ensures Paragraphs(g + b) == "<p></p>\n<p>" + b + "</p>"
  {
    EmptyParagraph([]);
    Unprefixed(g, b);
    EmptyFirst(b);
    TwoParagraphs(g + b, [], g, b, "<p></p>\n<p>" + b + "</p>");
  }

  /** A text that ends with a separator ends with an empty paragraph. */
  lemma TrailingGap(a: string, g: string)
    requires NoSeparator(a) && Closes(a) && Gap(g)
    ensures Paragraphs(a + g) == "<p>" + a + "</p>\n<p></p>"
  {
    EmptyParagraph([]);
    Unsuffixed(a + g);
    EmptyLast(a);
    TwoParagraphs(a + g, a, g, [], "<p>" + a + "</p>\n<p></p>");
  }

  lemma EmptyFirst(b: string)
    ensures "<p>" + [] + "</p>\n<p>" + b + "</p>" == "<p></p>\n<p>" + b + "</p>"
  {
    assert "<p>" + [] + "</p>\n<p>" == "<p></p>\n<p>";
  }

  lemma EmptyLast(a: string)
    ensures "<p>" + a + "</p>\n<p>" + [] + "</p>" == "<p>" + a + "</p>\n<p></p>"
  {
    assert "</p>\n<p>" + "</p>" == "</p>\n<p></p>";
    Unsuffixed("<p>" + a + "</p>\n<p>");
    Assoc("<p>", a, "</p>\n<p>", "</p>");
    Assoc("<p>", a, "</p>\n<p>" + "</p>", []);
  }

  /** The paragraphs and the gap of the example above. */
  lemma EdgeParts(a: string, g: string, b: string)
    requires a == "a " && g == "\n\n" && b == "b"
    ensures NoSeparator(a) && Closes(a) && Gap(g)
    ensures NoSeparator(b) && Opens(b)
  {
    BlankEnded(a);
    SolidBody(b);
  }

  /** `a ` holds no separator and closes cleanly: its trailing blank is not a newline. */
  lemma BlankEnded(a: string)
    requires a == "a "
    ensures NoSeparator(a) && Closes(a)
  {
    assert TrailingSpan(a, IsSpace) == 1 by {
      assert a[..1] == "a";
    }
    assert a[1..] == " ";
    forall k, q | 0 <= k < |a|
      ensures !BlankShape(a[k..], q)
    {
      assert a[k..][0] == a[k];
    }
  }

  /** The empty paragraph holds no separator and opens and closes cleanly. */
  lemma EmptyParagraph(p: string)
    requires p == []
    ensures NoSeparator(p) && Opens(p) && Closes(p)
  {
  }
}
