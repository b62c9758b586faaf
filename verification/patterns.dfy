/**
 The regular expressions of md_to_html.py, one dedicated matcher each.

 A matcher looks at the remaining text `t` at the current scan position and
 says whether the pattern matches there, how many characters the match spans
 and what the replacement template expands to. Each matcher reproduces what
 Python's backtracking engine settles on for that one pattern. In every
 pattern but the header pattern, only one greedy quantifier has a choice,
 and backtracking gives it the longest extent that still lets the rest
 match. Any other quantifier is forced: in `(\d+\.) (.*)` the digit run must
 end at the dot, since a digit is never a dot. The header pattern has two
 free quantifiers. Its blank run `[ \t]+` comes first and takes the longest
 extent that leaves `[^\n]+` at least one character, and `[^\n]+` then runs
 to the end of the line. So each contract states the shape of the matched
 text and that no longer text of that shape exists.
 */
module Patterns {
  import opened Text
  import opened Substitute

  datatype ListKind = Unordered | Ordered

  datatype Style = Strong | Em

  /** The header levels the loop at md_to_html.py:139 runs through. */
  type Level = n: nat | 1 <= n <= 6 witness 1

  function OpenList(kind: ListKind): string {
    match kind
    case Unordered => "<ul>"
    case Ordered => "<ol>"
  }

  function CloseList(kind: ListKind): string {
    match kind
    case Unordered => "</ul>"
    case Ordered => "</ol>"
  }

  function Delim(style: Style): string {
    match style
    case Strong => "**"
    case Em => "*"
  }

  function OpenStyle(style: Style): string {
    match style
    case Strong => "<strong>"
    case Em => "<em>"
  }

  function CloseStyle(style: Style): string {
    match style
    case Strong => "</strong>"
    case Em => "</em>"
  }

  function LevelDigit(level: Level): char {
    (48 + level) as char
  }

  function OpenHeading(level: Level): string {
    "<h" + [LevelDigit(level)] + ">"
  }

  function CloseHeading(level: Level): string {
    "</h" + [LevelDigit(level)] + ">"
  }

  // ---------------------------------------------------------------------
  // '\n\s*\n' (md_to_html.py:28)

  /** `t[..q]` is a newline, any whitespace, and a newline. */
  ghost predicate BlankShape(t: string, q: int) {
    && 2 <= q <= |t|
    && t[0] == '\n' && t[q - 1] == '\n'
    && forall k :: 1 <= k < q - 1 ==> IsSpace(t[k])
  }

  function MatchBlank(t: string): (r: Option<Match>)
    ensures r.Some? ==> BlankShape(t, r.value.len) && r.value.out == "</p>\n<p>"
    ensures forall q :: BlankShape(t, q) ==> r.Some? && q <= r.value.len
  {
    if |t| == 0 || t[0] != '\n' then None
    else
      var run := 1 + Span(t[1..], IsSpace);
      BlankWithinRun(t, run);
      match LastOccurrence(t, "\n", 1, run)
      case None => None
      case Some(j) =>
        assert t[j] == t[j..j + 1][0];
        Some(Match(j + 1, "</p>\n<p>"))
  }

  /** Every candidate closing newline lies inside the whitespace run after the opening one. */
  lemma BlankWithinRun(t: string, run: nat)
    requires 1 <= |t| && run == 1 + Span(t[1..], IsSpace)
    ensures forall q :: BlankShape(t, q) ==> q <= run && OccursAt(t, "\n", q - 1)
  {
    forall q | BlankShape(t, q)
      ensures q <= run && OccursAt(t, "\n", q - 1)
    {
      SpanCovers(t[1..], IsSpace, q - 1);
      assert t[q - 1..q] == "\n";
    }
  }

  // ---------------------------------------------------------------------
  // '(-|\+|\*) (.*)' (md_to_html.py:55)

  /** `t[..q]` is a bullet character, a space, and newline-free text. */
  ghost predicate BulletShape(t: string, q: int) {
    && 2 <= q <= |t|
    && IsBullet(t[0]) && t[1] == ' '
    && NewlineFree(t[2..q])
  }

  function MatchBullet(t: string): (r: Option<Match>)
    ensures r.Some? ==> BulletShape(t, r.value.len)
    ensures r.Some? ==> r.value.out == "<ul><li>" + t[2..r.value.len] + "</li></ul>"
    ensures forall q :: BulletShape(t, q) ==> r.Some? && q <= r.value.len
  {
    var line := FirstLine(t);
    LineCovers(t);
    if |line| >= 2 && IsBullet(line[0]) && line[1] == ' ' then
      Some(Match(|line|, "<ul><li>" + line[2..] + "</li></ul>"))
    else None
  }

  /** Any newline-free prefix of `t` lies within its first line. */
  lemma LineCovers(t: string)
    ensures forall q :: 0 <= q <= |t| && NewlineFree(t[..q]) ==> q <= |FirstLine(t)|
    ensures forall a, q :: 0 <= a <= q <= |t| && NewlineFree(t[a..q]) && a <= |FirstLine(t)|
                           ==> q <= |FirstLine(t)|
  {
    var line := FirstLine(t);
    forall a, q | 0 <= a <= q <= |t| && NewlineFree(t[a..q]) && a <= |line|
      ensures q <= |line|
    {
    }
    forall q | 0 <= q <= |t| && NewlineFree(t[..q])
      ensures q <= |line|
    {
      assert t[..q] == t[0..q];
    }
  }

  // ---------------------------------------------------------------------
  // '(\d+\.) (.*)' (md_to_html.py:59)

  /** `t[..q]` is `d` digits, a dot, a space, and newline-free text. */
  ghost predicate OrdinalShape(t: string, d: int, q: int) {
    && 1 <= d && d + 2 <= q <= |t|
    && (forall k :: 0 <= k < d ==> IsDigit(t[k]))
    && t[d] == '.' && t[d + 1] == ' '
    && NewlineFree(t[d + 2..q])
  }

  function MatchOrdinal(t: string): (r: Option<Match>)
    ensures r.Some? ==> OrdinalShape(t, Span(t, IsDigit), r.value.len)
    ensures r.Some? ==> r.value.out == "<ol><li>" + t[Span(t, IsDigit) + 2..r.value.len] + "</li></ol>"
    ensures forall d, q :: OrdinalShape(t, d, q) ==> r.Some? && d == Span(t, IsDigit) && q <= r.value.len
  {
    var line := FirstLine(t);
    var d := Span(line, IsDigit);
    LineCovers(t);
    DigitsWithinLine(t);
    if d >= 1 && d + 2 <= |line| && line[d] == '.' && line[d + 1] == ' ' then
      Some(Match(|line|, "<ol><li>" + line[d + 2..] + "</li></ol>"))
    else None
  }

  /** Digits are not newlines, so the digit run of `t` is that of its first line. */
  lemma DigitsWithinLine(t: string)
    ensures Span(FirstLine(t), IsDigit) == Span(t, IsDigit)
    ensures forall d, q :: OrdinalShape(t, d, q) ==> d == Span(t, IsDigit)
  {
    var line := FirstLine(t);
    var n := Span(t, IsDigit);
    assert forall k :: 0 <= k < n ==> t[k] != '\n';
    LineCovers(t);
    assert NewlineFree(t[..n]);
    SpanExact(line, IsDigit, n);
    forall d, q | OrdinalShape(t, d, q)
      ensures d == n
    {
      SpanExact(t, IsDigit, d);
    }
  }

  // ---------------------------------------------------------------------
  // '</ul>\n(.*)<ul>' and '</ol>\n(.*)<ol>' (md_to_html.py:57, 61)

  /** `t[..q]` is the closing tag, a newline, newline-free text, and the opening tag. */
  ghost predicate AdjacentShape(kind: ListKind, t: string, q: int) {
    TagsAround(CloseList(kind), OpenList(kind), t, q)
  }

  /** `t[..q]` is `c`, a newline, newline-free text, and `o`. */
  ghost predicate TagsAround(c: string, o: string, t: string, q: int) {
    && |c| + 1 + |o| <= q <= |t|
    && t[..|c|] == c && t[|c|] == '\n'
    && NewlineFree(t[|c| + 1..q - |o|])
    && t[q - |o|..q] == o
  }

  function MatchAdjacent(kind: ListKind, t: string): (r: Option<Match>)
    ensures r.Some? ==> AdjacentShape(kind, t, r.value.len) && r.value.out == "\n"
    ensures forall q :: AdjacentShape(kind, t, q) ==> r.Some? && q <= r.value.len
  {
    OpenNewlineFree(kind);
    MatchTags(CloseList(kind), OpenList(kind), t)
  }

  lemma OpenNewlineFree(kind: ListKind)
    ensures NewlineFree(OpenList(kind))
  {
  }

  /** `c`, a newline, and the rest of that line up to its last `o`. */
  function MatchTags(c: string, o: string, t: string): (r: Option<Match>)
    requires NewlineFree(o)
    ensures r.Some? ==> TagsAround(c, o, t, r.value.len) && r.value.out == "\n"
    ensures forall q :: TagsAround(c, o, t, q) ==> r.Some? && q <= r.value.len
  {
    if |t| > |c| && t[..|c|] == c && t[|c|] == '\n' then
      var line := FirstLine(t[|c| + 1..]);
      TagsInLine(c, o, t, line);
      match LastOccurrence(line, o, 0, |line|)
      case None => None
      case Some(j) => Some(Match(|c| + 1 + j + |o|, "\n"))
    else None
  }

  /**
   After `c` and its newline, the matches end exactly after the occurrences
   of `o` in the next line.
   */
  lemma TagsInLine(c: string, o: string, t: string, line: string)
    requires |t| > |c| && t[..|c|] == c && t[|c|] == '\n'
    requires line == FirstLine(t[|c| + 1..]) && NewlineFree(o)
    ensures forall q :: TagsAround(c, o, t, q) ==> OccursAt(line, o, q - |c| - 1 - |o|)
    ensures forall j :: OccursAt(line, o, j) ==> TagsAround(c, o, t, |c| + 1 + j + |o|)
  {
    forall q | TagsAround(c, o, t, q)
      ensures OccursAt(line, o, q - |c| - 1 - |o|)
    {
      TagsOccur(c, o, t, line, q);
    }
    forall j | OccursAt(line, o, j)
      ensures TagsAround(c, o, t, |c| + 1 + j + |o|)
    {
      OccurTags(c, o, t, line, j);
    }
  }

  lemma TagsOccur(c: string, o: string, t: string, line: string, q: int)
    requires |t| > |c| && line == FirstLine(t[|c| + 1..]) && NewlineFree(o)
    requires TagsAround(c, o, t, q)
    ensures OccursAt(line, o, q - |c| - 1 - |o|)
  {
    var u := t[|c| + 1..];
    var e := q - |c| - 1;
    var mid := t[|c| + 1..q - |o|];
    assert u[..e] == mid + o;
    NewlineFreeConcat(mid, o);
    WithinFirstLine(u, e);
    assert line[e - |o|..e] == u[e - |o|..e];
    assert u[e - |o|..e] == t[q - |o|..q];
  }

  /** A newline-free prefix lies within the first line. */
  lemma WithinFirstLine(u: string, e: int)
    requires 0 <= e <= |u| && NewlineFree(u[..e])
    ensures e <= |FirstLine(u)| && FirstLine(u)[..e] == u[..e]
  {
    forall k | 0 <= k < e
      ensures u[k] != '\n'
    {
      assert u[..e][k] == u[k];
    }
  }

  lemma OccurTags(c: string, o: string, t: string, line: string, j: int)
    requires |t| > |c| && t[..|c|] == c && t[|c|] == '\n'
    requires line == FirstLine(t[|c| + 1..])
    requires OccursAt(line, o, j)
    ensures TagsAround(c, o, t, |c| + 1 + j + |o|)
  {
    assert t[|c| + 1..|c| + 1 + j] == line[..j];
    assert t[|c| + 1 + j..|c| + 1 + j + |o|] == line[j..j + |o|];
  }

  // ---------------------------------------------------------------------
  // '\*\*([^\n]+)\*\*' and '\*([^\n]+)\*' (md_to_html.py:106, 84)

  /** `t[..q]` is the delimiter, non-empty newline-free text, and the delimiter. */
  ghost predicate EmphasisShape(style: Style, t: string, q: int) {
    Delimited(Delim(style), t, q)
  }

  /** `t[..q]` is `d`, non-empty newline-free text, and `d`. */
  ghost predicate Delimited(d: string, t: string, q: int) {
    && 2 * |d| + 1 <= q <= |t|
    && t[..|d|] == d
    && NewlineFree(t[|d|..q - |d|])
    && t[q - |d|..q] == d
  }

  function MatchEmphasis(style: Style, t: string): (r: Option<Match>)
    ensures r.Some? ==> EmphasisShape(style, t, r.value.len)
    ensures r.Some? ==> r.value.out == OpenStyle(style) + t[|Delim(style)|..r.value.len - |Delim(style)|] + CloseStyle(style)
    ensures forall q :: EmphasisShape(style, t, q) ==> r.Some? && q <= r.value.len
  {
    DelimNewlineFree(style);
    MatchDelimited(Delim(style), OpenStyle(style), CloseStyle(style), t)
  }

  lemma DelimNewlineFree(style: Style)
    ensures NewlineFree(Delim(style))
  {
  }

  /** `d`, text to the last `d` of the line after at least one character, and `d`; the text goes between `open` and `close`. */
  function MatchDelimited(d: string, open: string, close: string, t: string): (r: Option<Match>)
    requires NewlineFree(d)
    ensures r.Some? ==> Delimited(d, t, r.value.len)
    ensures r.Some? ==> r.value.out == open + t[|d|..r.value.len - |d|] + close
    ensures forall q :: Delimited(d, t, q) ==> r.Some? && q <= r.value.len
  {
    var line := FirstLine(t);
    DelimitedWithinLine(d, t);
    if |line| >= |d| && line[..|d|] == d then
      match LastOccurrence(line, d, |d| + 1, |line|)
      case None => None
      case Some(j) =>
        DelimitedFromLine(d, t, j);
        Some(Match(j + |d|, open + line[|d|..j] + close))
    else None
  }

  /** A closing delimiter found on the first line completes a match of the whole pattern. */
  lemma DelimitedFromLine(d: string, t: string, j: nat)
    requires |FirstLine(t)| >= |d| && FirstLine(t)[..|d|] == d
    requires |d| + 1 <= j && OccursAt(FirstLine(t), d, j)
    ensures Delimited(d, t, j + |d|)
    ensures FirstLine(t)[|d|..j] == t[|d|..j]
  {
    var line := FirstLine(t);
    assert line == t[..|line|];
    assert t[|d|..j] == line[|d|..j];
  }

  /** Every match lies within the first line and ends with an occurrence of the delimiter there. */
  lemma DelimitedWithinLine(d: string, t: string)
    requires NewlineFree(d)
    ensures forall q :: Delimited(d, t, q) ==> q <= |FirstLine(t)| && OccursAt(FirstLine(t), d, q - |d|)
  {
    var line := FirstLine(t);
    LineCovers(t);
    assert line == t[..|line|];
    forall q | Delimited(d, t, q)
      ensures q <= |line| && OccursAt(line, d, q - |d|)
    {
      assert t[..q] == t[..|d|] + t[|d|..q - |d|] + t[q - |d|..q];
      NewlineFreeConcat(t[..|d|], t[|d|..q - |d|]);
      NewlineFreeConcat(t[..|d|] + t[|d|..q - |d|], t[q - |d|..q]);
      assert line[q - |d|..q] == t[q - |d|..q];
    }
  }

  /** A match begins with the delimiter. */
  lemma EmphasisNeedsDelim(style: Style, t: string)
    ensures MatchEmphasis(style, t).Some? ==> OccursAt(t, Delim(style), 0)
  {
    if MatchEmphasis(style, t).Some? {
      var d := Delim(style);
      assert EmphasisShape(style, t, MatchEmphasis(style, t).value.len);
      assert t[0..|d|] == t[..|d|];
    }
  }

  /** When no delimiter starts after the closing one, the match is exactly that span. */
  lemma EmphasisOfSpan(style: Style, t: string, q: nat)
    requires EmphasisShape(style, t, q)
    requires forall j :: q - |Delim(style)| < j ==> !OccursAt(t, Delim(style), j)
    ensures MatchEmphasis(style, t) == Some(Match(q, OpenStyle(style) + t[|Delim(style)|..q - |Delim(style)|] + CloseStyle(style)))
  {
    DelimNewlineFree(style);
    DelimitedOfSpan(Delim(style), OpenStyle(style), CloseStyle(style), t, q);
  }

  lemma DelimitedOfSpan(d: string, open: string, close: string, t: string, q: nat)
    requires NewlineFree(d) && Delimited(d, t, q)
    requires forall j :: q - |d| < j ==> !OccursAt(t, d, j)
    ensures MatchDelimited(d, open, close, t) == Some(Match(q, open + t[|d|..q - |d|] + close))
  {
    var x := MatchDelimited(d, open, close, t).value;
    assert Delimited(d, t, x.len);
    assert OccursAt(t, d, x.len - |d|);
  }

  /** Where the delimiter does not start, nothing matches. */
  lemma EmphasisNoDelim(style: Style, s: string, k: nat)
    requires k < |s| && !OccursAt(s, Delim(style), k)
    ensures MatchEmphasis(style, s[k..]).None?
  {
    EmphasisNeedsDelim(style, s[k..]);
    OccursInSuffix(s, Delim(style), k, 0);
  }

  /** The tags are longer than the delimiters they replace. */
  lemma EmphasisLengthens(style: Style)
    ensures forall t :: Emphasis(style)(t).Some? ==> |Emphasis(style)(t).value.out| > Emphasis(style)(t).value.len
  {
  }

  // ---------------------------------------------------------------------
  // '(^|\n)(#{i})[ \t]+([^\n]+)' (md_to_html.py:140)

  /**
   `line` starts with exactly `level` hashes and `line[level..w]` is a non-empty
   run of blanks that leaves at least one character for the heading text.
   */
  ghost predicate HeadingShape(level: Level, line: string, w: int) {
    && level < w < |line|
    && (forall k :: 0 <= k < level ==> line[k] == '#')
    && (forall k :: level <= k < w ==> IsBlank(line[k]))
  }

  /**
   The pattern without its `(^|\n)` prefix, at the start of `t`: the text runs to
   the end of the line, and the blank run is as long as it can be while leaving
   the text non-empty.
   */
  function AnchoredHeading(level: Level, t: string): (r: Option<Match>)
    ensures forall w :: HeadingShape(level, FirstLine(t), w) ==> r.Some?
    ensures r.Some? ==> r.value.len == |FirstLine(t)|
    ensures r.Some? ==> exists w :: && HeadingShape(level, FirstLine(t), w)
                                    && !HeadingShape(level, FirstLine(t), w + 1)
                                    && r.value.out == OpenHeading(level) + FirstLine(t)[w..] + CloseHeading(level)
  {
    var line := FirstLine(t);
    if |line| > level && (forall k :: 0 <= k < level ==> line[k] == '#') && IsBlank(line[level]) then
      var b := level + Span(line[level..], IsBlank);
      var w := TextStart(level, line);
      HeadingRun(level, line, b);
      if w > level then
        assert w == b || w == b - 1 == |line| - 1;
        assert HeadingShape(level, line, w) && !HeadingShape(level, line, w + 1);
        Some(Match(|line|, OpenHeading(level) + line[w..] + CloseHeading(level)))
      else None
    else None
  }

  /**
   Where the heading text starts: after the whole blank run that follows the
   hashes, or one blank earlier when that run reaches the end of the line,
   since the text must hold at least one character.
   */
  function TextStart(level: nat, line: string): (w: nat)
    requires level < |line|
    ensures w <= |line|
  {
    var b := level + Span(line[level..], IsBlank);
    if b < |line| || b == 0 then b else b - 1
  }

  /** The text is non-empty and follows at least one blank exactly when the line goes past its first blank. */
  lemma TextStartAfter(level: nat, line: string)
    requires level < |line| && IsBlank(line[level])
    ensures TextStart(level, line) > level <==> |line| > level + 1
  {
    assert line[level..][0] == line[level];
  }

  /** The blank run after the hashes ends at `b`; every shape ends inside it. */
  lemma HeadingRun(level: Level, line: string, b: nat)
    requires |line| > level && b == level + Span(line[level..], IsBlank)
    ensures b <= |line|
    ensures forall k :: level <= k < b ==> IsBlank(line[k])
    ensures b < |line| ==> !IsBlank(line[b])
    ensures forall w :: HeadingShape(level, line, w) ==> w <= b
    ensures !HeadingShape(level, line, b + 1)
  {
    forall w | HeadingShape(level, line, w)
      ensures w <= b
    {
      SpanCovers(line[level..], IsBlank, w - level);
    }
  }

  /**
   The `\n` alternative: a newline, then the rest of the pattern on the next
   line. It matches exactly when that line has a heading shape; it consumes the
   newline and the whole line, and the blank run it drops is the longest one
   that still leaves heading text.
   */
  function MatchHeading(level: Level, t: string): (r: Option<Match>)
    ensures r.Some? <==> |t| > 0 && t[0] == '\n' && exists w :: HeadingShape(level, FirstLine(t[1..]), w)
    ensures r.Some? ==> r.value.len == 1 + |FirstLine(t[1..])|
    ensures r.Some? ==> exists w :: && HeadingShape(level, FirstLine(t[1..]), w)
                                    && !HeadingShape(level, FirstLine(t[1..]), w + 1)
                                    && r.value.out == "\n" + OpenHeading(level) + FirstLine(t[1..])[w..] + CloseHeading(level)
  {
    if |t| > 0 && t[0] == '\n' then
      match AnchoredHeading(level, t[1..])
      case Some(m) => Some(Match(1 + m.len, "\n" + m.out))
      case None => None
    else None
  }

  // ---------------------------------------------------------------------

  /** The matcher of '</ul>\n(.*)<ul>' or '</ol>\n(.*)<ol>'. */
  function Adjacent(kind: ListKind): Matcher {
    t => MatchAdjacent(kind, t)
  }

  /** The matcher of '\*\*([^\n]+)\*\*' or '\*([^\n]+)\*'. */
  function Emphasis(style: Style): Matcher {
    t => MatchEmphasis(style, t)
  }

  /** The matcher of the '\n' alternative of the header pattern at one level. */
  function Heading(level: Level): Matcher {
    t => MatchHeading(level, t)
  }

  // Every pattern consumes at least one character per match.

  lemma BlankConsumes()
    ensures Consumes(MatchBlank)
  {
  }

  lemma BulletConsumes()
    ensures Consumes(MatchBullet)
  {
  }

  lemma OrdinalConsumes()
    ensures Consumes(MatchOrdinal)
  {
  }

  lemma AdjacentConsumes(kind: ListKind)
    ensures Consumes(Adjacent(kind))
  {
  }

  lemma EmphasisConsumes(style: Style)
    ensures Consumes(Emphasis(style))
  {
  }

  lemma HeadingConsumes(level: Level)
    ensures Consumes(Heading(level))
  {
  }

  /** The list-item and emphasis patterns never look past the end of a line. */
  lemma BulletSeesOneLine()
    ensures SeesOneLine(MatchBullet)
  {
    forall a, b
      ensures MatchBullet(a + "\n" + b) == MatchBullet(a)
    {
      FirstLineAfter(a, b);
    }
  }

  lemma OrdinalSeesOneLine()
    ensures SeesOneLine(MatchOrdinal)
  {
    forall a, b
      ensures MatchOrdinal(a + "\n" + b) == MatchOrdinal(a)
    {
      FirstLineAfter(a, b);
      OrdinalDependsOnLine(a + "\n" + b, a);
    }
  }

  lemma OrdinalDependsOnLine(t: string, u: string)
    requires FirstLine(t) == FirstLine(u)
    ensures MatchOrdinal(t) == MatchOrdinal(u)
  {
  }

  lemma EmphasisSeesOneLine(style: Style)
    ensures SeesOneLine(Emphasis(style))
  {
    forall a, b
      ensures MatchEmphasis(style, a + "\n" + b) == MatchEmphasis(style, a)
    {
      FirstLineAfter(a, b);
      EmphasisDependsOnLine(style, a + "\n" + b, a);
    }
  }

  lemma EmphasisDependsOnLine(style: Style, t: string, u: string)
    requires FirstLine(t) == FirstLine(u)
    ensures MatchEmphasis(style, t) == MatchEmphasis(style, u)
  {
    DelimNewlineFree(style);
    DelimitedDependsOnLine(Delim(style), OpenStyle(style), CloseStyle(style), t, u);
  }

  lemma DelimitedDependsOnLine(d: string, open: string, close: string, t: string, u: string)
    requires NewlineFree(d) && FirstLine(t) == FirstLine(u)
    ensures MatchDelimited(d, open, close, t) == MatchDelimited(d, open, close, u)
  {
  }
}
