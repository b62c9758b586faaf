/**
 `html` of md_to_html.py: the passes run in the order headers, bold,
 italics, lists, paragraphs, and the result is put inside `<article>` …
 `</article>`.
 */
module Converter {
  import opened Text
  import opened Patterns
  import opened EmphasisPass
  import opened ListPass
  import opened ParagraphPass
  import opened HeaderPass

  /**
   md_to_html.py:145-167. Text with no hash, no asterisk, nothing the list
   passes touch and no separator is one paragraph inside the article.
   */
  function Html(s: string): (r: string)
    ensures NoChar(s, '#') && NoChar(s, '*') && Plain(s) && NoSeparator(s) ==> r == "<article><p>" + s + "</p></article>"
  {
    Unmarked(s);
    "<article>" + Paragraphs(Lists(Italics(Bold(Headers(s))))) + "</article>"
  }

  /** Without a hash and an asterisk the first three passes leave the text as it is. */
  lemma Unmarked(s: string)
    ensures NoChar(s, '#') && NoChar(s, '*') ==> Headers(s) == s && Bold(s) == s && Italics(s) == s
    ensures "<article>" + ("<p>" + s + "</p>") + "</article>" == "<article><p>" + s + "</p></article>"
  {
    NoHashUnchanged(s);
    if NoChar(s, '*') {
      NoAsteriskUnchanged(Strong, s);
      NoAsteriskUnchanged(Em, s);
    }
    Enclosed(s);
  }

  lemma Enclosed(body: string)
    ensures "<article>" + ("<p>" + body + "</p>") + "</article>" == "<article><p>" + body + "</p></article>"
  {
  }

  /**
   Paragraphs separated by blank lines, with no hash, no asterisk, no `<` and
   no list item: each paragraph becomes a `<p>` element on a line of its own,
   whatever whitespace separated them.
   */
  lemma HtmlOfParagraphs(paras: seq<string>, gaps: seq<string>)
    requires |paras| >= 1 && |gaps| == |paras| - 1
    requires Separable(paras)
    requires forall i :: 0 <= i < |gaps| ==> Gap(gaps[i])
    requires NoChar(Interleave(paras, gaps), '#') && NoChar(Interleave(paras, gaps), '*')
    requires Plain(Interleave(paras, gaps))
    ensures Html(Interleave(paras, gaps)) == "<article><p>" + JoinWith(paras, "</p>\n<p>") + "</p></article>"
  {
    var s := Interleave(paras, gaps);
    NoHashUnchanged(s);
    NoAsteriskUnchanged(Strong, s);
    NoAsteriskUnchanged(Em, s);
    ParagraphsOfGaps(paras, gaps);
    Enclosed(JoinWith(paras, "</p>\n<p>"));
  }

  /**
   A heading line whose text holds no asterisk and no list item becomes that
   heading, in a paragraph of its own.
   */
  lemma HtmlOfHeading(n: nat, blanks: string, text: string)
    requires 1 <= n <= 6
    requires |blanks| >= 1 && forall k :: 0 <= k < |blanks| ==> IsBlank(blanks[k])
    requires |text| >= 1 && !IsBlank(text[0]) && NewlineFree(text)
    requires NoChar(text, '*') && NoPair(text, IsBullet, ' ') && NoOrdinalMark(text)
    ensures Html(Repeat('#', n) + blanks + text)
            == "<article><p>" + OpenHeading(n) + text + CloseHeading(n) + "</p></article>"
  {
    var h := OpenHeading(n) + text + CloseHeading(n);
    HeadingLevels(n, blanks, text);
    HeadingInert(n, text);
    InnerPassesOnLine(h);
    Associate("<article><p>", OpenHeading(n), text, CloseHeading(n), "</p></article>");
  }

  /** After `headers`, a line the other passes find nothing in is only wrapped. */
  lemma InnerPassesOnLine(h: string)
    requires NewlineFree(h) && NoChar(h, '*') && NoPair(h, IsBullet, ' ') && NoOrdinalMark(h)
    ensures "<article>" + Paragraphs(Lists(Italics(Bold(h)))) + "</article>" == "<article><p>" + h + "</p></article>"
  {
    NoAsteriskUnchanged(Strong, h);
    NoAsteriskUnchanged(Em, h);
    LineParagraph(h);
    Enclosed(h);
  }

  /** A heading element adds no asterisk and no list item to its text. */
  lemma HeadingInert(n: Level, text: string)
    requires NewlineFree(text)
    requires NoChar(text, '*') && NoPair(text, IsBullet, ' ') && NoOrdinalMark(text)
    ensures NewlineFree(OpenHeading(n) + text + CloseHeading(n))
    ensures NoChar(OpenHeading(n) + text + CloseHeading(n), '*')
    ensures NoPair(OpenHeading(n) + text + CloseHeading(n), IsBullet, ' ')
    ensures NoOrdinalMark(OpenHeading(n) + text + CloseHeading(n))
  {
    var o, c := OpenHeading(n), CloseHeading(n);
    HeadingTag(n, text);
    NoCharConcat(o, text, '*');
    NoCharConcat(o + text, c, '*');
    NoPairConcat(o, text, IsBullet, ' ');
    NoPairConcat(o + text, c, IsBullet, ' ');
    NoOrdinalMarkConcat(o, text);
    NoOrdinalMarkConcat(o + text, c);
  }

  // ---------------------------------------------------------------------
  // The documented examples (md_to_html.py:159-164)
  //
  // Each example receives its input as a parameter fixed by `requires` rather
  // than naming the literal inside `ensures`: the verifier then unfolds the
  // passes over a plain variable, which keeps these proofs cheap.

  lemma ParagraphsListExample(s: string)
    requires s == "P1\n\nP2\n- 1\n- 2\nP2\n\nP3"
    ensures Html(s) == "<article><p>P1</p>\n<p>" + "P2\n<ul><li>1</li>\n<li>2</li></ul>\nP2" + "</p>\n<p>P3</p></article>"
  {
    var lb := ListBlock(Unordered, ["1", "2"]);
    var m := "P2\n" + lb + "\nP2";
    var paras, gaps := ["P1", m, "P3"], ["\n\n", "\n\n"];
    DocPasses(s);
    DocLists(s, "P1\n\nP2\n", "--", ["1", "2"], "\nP2\n\nP3");
    DocRegroup(lb);
    DocMiddle(lb, m);
    DocBodies(paras, gaps);
    InterleaveThree(paras, gaps);
    ParagraphsOfGaps(paras, gaps);
    JoinWithThree(paras, "</p>\n<p>");
    Chain(s, s, s, s, Interleave(paras, gaps), "<p>" + JoinWith(paras, "</p>\n<p>") + "</p>");
    DocEnclosed(m);
  }

  /** No hash and no asterisk: the first three passes leave the text. */
  lemma DocPasses(s: string)
    requires s == "P1\n\nP2\n- 1\n- 2\nP2\n\nP3"
    ensures Headers(s) == s && Bold(s) == s && Italics(s) == s
  {
    assert NoChar(s, '#') && NoChar(s, '*');
    NoHashUnchanged(s);
    NoAsteriskUnchanged(Strong, s);
    NoAsteriskUnchanged(Em, s);
  }

  /** The two bullet lines become one list between plain lines. */
  lemma DocLists(s: string, pre: string, marks: string, xs: seq<string>, post: string)
    requires s == "P1\n\nP2\n- 1\n- 2\nP2\n\nP3"
    requires pre == "P1\n\nP2\n" && marks == "--" && xs == ["1", "2"] && post == "\nP2\n\nP3"
    ensures Lists(s) == "P1\n\nP2\n" + ListBlock(Unordered, ["1", "2"]) + "\nP2\n\nP3"
  {
    DocItems(pre, marks, xs, post);
    DocLayout(s, pre, marks, xs, post);
    BulletList(pre, marks, xs, post);
  }

  lemma DocItems(pre: string, marks: string, xs: seq<string>, post: string)
    requires pre == "P1\n\nP2\n" && marks == "--" && xs == ["1", "2"] && post == "\nP2\n\nP3"
    ensures |xs| >= 1 && |marks| == |xs|
    ensures forall i :: 0 <= i < |xs| ==> IsBullet(marks[i]) && NewlineFree(xs[i])
    ensures forall i :: 0 <= i < |xs| ==> NoChar(xs[i], '<') && NoOrdinalMark(xs[i])
    ensures Surrounding(pre, post)
  {
  }

  lemma JoinTwo(lines: seq<string>)
    requires |lines| == 2
    ensures Join(lines) == lines[0] + "\n" + lines[1]
  {
    assert Join(lines[1..]) == lines[1];
  }

  lemma DocLayout(s: string, pre: string, marks: string, xs: seq<string>, post: string)
    requires s == "P1\n\nP2\n- 1\n- 2\nP2\n\nP3"
    requires pre == "P1\n\nP2\n" && marks == "--" && xs == ["1", "2"] && post == "\nP2\n\nP3"
    ensures s == pre + Join(BulletLines(marks, xs)) + post
  {
    var lines := BulletLines(marks, xs);
    JoinTwo(lines);
    DocLinesSpelled(lines[0], lines[1], s);
  }

  lemma DocLinesSpelled(a: string, b: string, s: string)
    requires a == ['-'] + " " + "1" && b == ['-'] + " " + "2"
    requires s == "P1\n\nP2\n- 1\n- 2\nP2\n\nP3"
    ensures s == "P1\n\nP2\n" + (a + "\n" + b) + "\nP2\n\nP3"
  {
  }

  /** The list ends up inside the middle paragraph. */
  lemma DocRegroup(lb: string)
    ensures "P1\n\nP2\n" + lb + "\nP2\n\nP3" == "P1" + "\n\n" + (("P2\n" + lb + "\nP2") + "\n\n" + "P3")
  {
  }

  lemma DocMiddle(lb: string, m: string)
    requires lb == ListBlock(Unordered, ["1", "2"]) && m == "P2\n" + lb + "\nP2"
    ensures lb == "<ul><li>1</li>\n<li>2</li></ul>"
    ensures m == "P2\n<ul><li>1</li>\n<li>2</li></ul>\nP2"
  {
    DocList(lb);
    DocMiddleSpelled(lb, m);
  }

  lemma DocList(lb: string)
    requires lb == ListBlock(Unordered, ["1", "2"])
    ensures lb == "<ul><li>1</li>\n<li>2</li></ul>"
  {
    var its := Items(["1", "2"]);
    JoinTwo(its);
    DocBlockSpelled(its[0], its[1], lb);
  }

  lemma DocMiddleSpelled(lb: string, m: string)
    requires lb == "<ul><li>1</li>\n<li>2</li></ul>" && m == "P2\n" + lb + "\nP2"
    ensures m == "P2\n<ul><li>1</li>\n<li>2</li></ul>\nP2"
  {
  }

  lemma DocBlockSpelled(a: string, b: string, lb: string)
    requires a == Item("1") && b == Item("2")
    requires lb == "<ul>" + (a + "\n" + b) + "</ul>"
    ensures lb == "<ul><li>1</li>\n<li>2</li></ul>"
  {
  }

  lemma DocBodies(paras: seq<string>, gaps: seq<string>)
    requires paras == ["P1", "P2\n<ul><li>1</li>\n<li>2</li></ul>\nP2", "P3"] && gaps == ["\n\n", "\n\n"]
    ensures Separable(paras)
    ensures forall i :: 0 <= i < |gaps| ==> Gap(gaps[i])
  {
    var a, b, c := paras[0], paras[1], paras[2];
    SolidBody(a);
    SolidBody(b);
    SolidBody(c);
    ThreeSeparable(a, b, c);
    assert paras == [a, b, c];
  }

  lemma InterleaveThree(paras: seq<string>, gaps: seq<string>)
    requires |paras| == 3 && |gaps| == 2
    ensures Interleave(paras, gaps) == paras[0] + gaps[0] + (paras[1] + gaps[1] + paras[2])
  {
    assert Interleave(paras[1..][1..], gaps[1..][1..]) == paras[2];
  }

  lemma JoinWithThree(paras: seq<string>, sep: string)
    requires |paras| == 3
    ensures JoinWith(paras, sep) == paras[0] + sep + (paras[1] + sep + paras[2])
  {
    assert JoinWith(paras[1..][1..], sep) == paras[2];
  }

  lemma DocEnclosed(m: string)
    ensures "<article>" + ("<p>" + ("P1" + "</p>\n<p>" + (m + "</p>\n<p>" + "P3")) + "</p>") + "</article>"
            == "<article><p>P1</p>\n<p>" + m + "</p>\n<p>P3</p></article>"
  {
  }

  lemma StrongEmExample(s: string)
    requires s == "***hello***"
    ensures Html(s) == "<article><p><strong><em>hello</em></strong></p></article>"
  {
    StrongEmParts(s, "<strong>*hello*</strong>", "<strong><em>hello</em></strong>");
  }

  lemma StrongEmParts(s: string, b: string, i: string)
    requires s == "***hello***"
    requires b == "<strong>*hello*</strong>"
    requires i == "<strong><em>hello</em></strong>"
    ensures Html(s) == "<article><p><strong><em>hello</em></strong></p></article>"
  {
    StrongEmHeaders(s);
    BoldStep(s, b);
    ItalicsStep(b, i);
    StrongEmInert(i);
    LineParagraph(i);
    Chain(s, s, b, i, i, "<p>" + i + "</p>");
    StrongEmSpelled(i);
  }

  /** The five passes one after another. */
  lemma Chain(s: string, h: string, b: string, i: string, l: string, p: string)
    requires Headers(s) == h && Bold(h) == b && Italics(b) == i && Lists(i) == l && Paragraphs(l) == p
    ensures Html(s) == "<article>" + p + "</article>"
  {
  }

  lemma StrongEmHeaders(s: string)
    requires s == "***hello***"
    ensures Headers(s) == s
  {
    assert NoChar(s, '#');
    NoHashUnchanged(s);
  }

  lemma StrongEmInert(i: string)
    requires i == "<strong><em>hello</em></strong>"
    ensures NewlineFree(i) && NoPair(i, IsBullet, ' ') && NoOrdinalMark(i)
  {
  }

  lemma StrongEmSpelled(i: string)
    requires i == "<strong><em>hello</em></strong>"
    ensures "<article>" + ("<p>" + i + "</p>") + "</article>" == "<article><p><strong><em>hello</em></strong></p></article>"
  {
    Enclosed(i);
    StrongEmHead(i, "<article><p>" + i);
    StrongEmTail("<article><p>" + i);
  }

  lemma StrongEmHead(i: string, head: string)
    requires i == "<strong><em>hello</em></strong>" && head == "<article><p>" + i
    ensures head == "<article><p><strong><em>hello</em></strong>"
  {
  }

  lemma StrongEmTail(head: string)
    requires head == "<article><p><strong><em>hello</em></strong>"
    ensures head + "</p></article>" == "<article><p><strong><em>hello</em></strong></p></article>"
  {
  }

  /** `**` `*hello*` `**`: the bold span runs to the last `**`. */
  lemma BoldStep(s: string, b: string)
    requires s == "***hello***"
    requires b == "<strong>*hello*</strong>"
    ensures Bold(s) == b
  {
    BoldSpelled(s, "*hello*", b);
    EmphasizeWhole(Strong, "*hello*");
  }

  lemma BoldSpelled(s: string, x: string, b: string)
    requires s == "***hello***" && x == "*hello*"
    requires b == "<strong>*hello*</strong>"
    ensures s == Delim(Strong) + x + Delim(Strong)
    ensures b == OpenStyle(Strong) + x + CloseStyle(Strong)
  {
  }

  /** The remaining asterisks surround `hello`, and none lies outside them. */
  lemma ItalicsStep(b: string, i: string)
    requires b == "<strong>*hello*</strong>"
    requires i == "<strong><em>hello</em></strong>"
    ensures Italics(b) == i
  {
    ItalicsSpelled(b, "<strong>", "hello", "</strong>", i);
    EmphasizeBetween(Em, "<strong>", "hello", "</strong>");
  }

  lemma ItalicsSpelled(b: string, pre: string, mid: string, post: string, i: string)
    requires b == "<strong>*hello*</strong>" && i == "<strong><em>hello</em></strong>"
    requires pre == "<strong>" && mid == "hello" && post == "</strong>"
    ensures b == pre + Delim(Em) + mid + Delim(Em) + post
    ensures i == pre + OpenStyle(Em) + mid + CloseStyle(Em) + post
    ensures NewlineFree(pre) && NewlineFree(mid) && NewlineFree(post)
    ensures NoChar(pre, '*') && NoChar(post, '*')
  {
  }
}
