/**
 `lists` of md_to_html.py: four substitution passes. The first wraps every
 bullet item (a bullet character and a space, anywhere in a line) in its own
 `<ul><li>` … `</li></ul>`; the second deletes each `</ul>` that ends a line,
 the newline after it, and the next line up to its last `<ul>`, leaving the
 newline; the third and fourth do the same for ordinal items (digits, a dot,
 a space) and `<ol>`.
 */
module ListPass {
  import opened Text
  import opened Substitute
  import opened Patterns

  /**
   md_to_html.py:33-62. Text with no `<`, no bullet item and no ordinal item
   passes through unchanged, and so does a single line with no item, tags and
   all.
   */
  function Lists(s: string): (r: string)
    ensures Plain(s) ==> r == s
    ensures NewlineFree(s) && NoPair(s, IsBullet, ' ') && NoOrdinalMark(s) ==> r == s
  {
    TaglessAbsent(s);
    MergeLists(Ordered, WrapOrdinals(MergeLists(Unordered, WrapBullets(s))))
  }

  /** md_to_html.py:55: the text changes exactly when a bullet character is followed by a space. */
  function WrapBullets(s: string): (r: string)
    ensures r == s <==> NoPair(s, IsBullet, ' ')
  {
    BulletsUnchangedIff(s);
    Sub(MatchBullet, s)
  }

  /** md_to_html.py:59: the text changes exactly when a digit is followed by a dot and a space. */
  function WrapOrdinals(s: string): (r: string)
    ensures r == s <==> NoOrdinalMark(s)
  {
    OrdinalsUnchangedIff(s);
    Sub(MatchOrdinal, s)
  }

  /**
   md_to_html.py:57 for `Unordered`, md_to_html.py:61 for `Ordered`: a merge
   needs the closing tag and the newline after it, so text without either
   is left alone.
   */
  function MergeLists(kind: ListKind, s: string): (r: string)
    ensures Absent(s, CloseList(kind)) ==> r == s
    ensures NewlineFree(s) ==> r == s
  {
    MergeUnchanged(kind, s);
    Sub(Adjacent(kind), s)
  }

  function Item(x: string): string {
    "<li>" + x + "</li>"
  }

  /** One item in a list of its own, as the wrapping passes write it. */
  function Wrapped(kind: ListKind, x: string): string {
    OpenList(kind) + Item(x) + CloseList(kind)
  }

  function Items(xs: seq<string>): (r: seq<string>)
    ensures |r| == |xs|
    ensures forall i :: 0 <= i < |xs| ==> r[i] == Item(xs[i])
  {
    if |xs| == 0 then [] else [Item(xs[0])] + Items(xs[1..])
  }

  function WrappedLines(kind: ListKind, xs: seq<string>): (r: seq<string>)
    ensures |r| == |xs|
    ensures forall i :: 0 <= i < |xs| ==> r[i] == Wrapped(kind, xs[i])
  {
    if |xs| == 0 then [] else [Wrapped(kind, xs[0])] + WrappedLines(kind, xs[1..])
  }

  /** One list holding the items, one per line. */
  function ListBlock(kind: ListKind, xs: seq<string>): string {
    OpenList(kind) + Join(Items(xs)) + CloseList(kind)
  }

  /** The lines `marks[i] + " " + xs[i]`. */
  function BulletLines(marks: string, xs: seq<string>): (r: seq<string>)
    requires |marks| == |xs|
    ensures |r| == |xs|
    ensures forall i :: 0 <= i < |xs| ==> r[i] == [marks[i]] + " " + xs[i]
  {
    if |xs| == 0 then [] else [[marks[0]] + " " + xs[0]] + BulletLines(marks[1..], xs[1..])
  }

  /** The lines `nums[i] + ". " + xs[i]`. */
  function OrdinalLines(nums: seq<string>, xs: seq<string>): (r: seq<string>)
    requires |nums| == |xs|
    ensures |r| == |xs|
    ensures forall i :: 0 <= i < |xs| ==> r[i] == nums[i] + ". " + xs[i]
  {
    if |xs| == 0 then [] else [nums[0] + ". " + xs[0]] + OrdinalLines(nums[1..], xs[1..])
  }

  /** No digit is followed by a dot and a space: the ordinal pattern finds nothing. */
  predicate NoOrdinalMark(s: string) {
    forall k :: 0 <= k < |s| - 2 ==> !(IsDigit(s[k]) && s[k + 1] == '.' && s[k + 2] == ' ')
  }

  /** Text none of the four passes touches: no `<`, no bullet item, no ordinal item. */
  predicate Plain(s: string) {
    NoChar(s, '<') && NoPair(s, IsBullet, ' ') && NoOrdinalMark(s)
  }

  /**
   Whole lines of plain text before and after a list: `pre` is empty or ends
   with a newline, `post` is empty or starts with one.
   */
  predicate Surrounding(pre: string, post: string) {
    && Plain(pre) && (pre == [] || pre[|pre| - 1] == '\n')
    && Plain(post) && (post == [] || post[0] == '\n')
  }

  // ---------------------------------------------------------------------
  // Where each pattern finds nothing

  lemma BulletNone(s: string)
    requires NoPair(s, IsBullet, ' ')
    ensures NoMatch(MatchBullet, s)
  {
    forall k | 0 <= k < |s|
      ensures MatchBullet(s[k..]).None?
    {
      if k + 1 < |s| {
        assert s[k..][0] == s[k] && s[k..][1] == s[k + 1];
      }
    }
  }

  lemma OrdinalNone(s: string)
    requires NoOrdinalMark(s)
    ensures NoMatch(MatchOrdinal, s)
  {
    forall k | 0 <= k < |s|
      ensures MatchOrdinal(s[k..]).None?
    {
      var t := s[k..];
      var d := Span(t, IsDigit);
      if 1 <= d && d + 2 <= |t| {
        assert t[d - 1] == s[k + d - 1] && t[d] == s[k + d] && t[d + 1] == s[k + d + 1];
      }
    }
  }

  lemma AdjacentNone(kind: ListKind, s: string)
    requires Absent(s, CloseList(kind))
    ensures NoMatch(Adjacent(kind), s)
  {
    forall k | 0 <= k < |s|
      ensures MatchAdjacent(kind, s[k..]).None?
    {
      OccursInSuffix(s, CloseList(kind), k, 0);
      if |CloseList(kind)| <= |s[k..]| {
        assert s[k..][0..|CloseList(kind)|] == s[k..][..|CloseList(kind)|];
      }
    }
  }

  /** Text without `<` holds no list tag, so the merge passes find nothing. */
  lemma MergeNone(kind: ListKind, s: string)
    requires NoChar(s, '<')
    ensures NoMatch(Adjacent(kind), s)
  {
    AbsentWithoutOpen(s, CloseList(kind));
    AdjacentNone(kind, s);
  }

  /** The merge patterns need a newline after the closing tag, so they find nothing within one line. */
  lemma AdjacentNoneOnLine(kind: ListKind, s: string)
    requires NewlineFree(s)
    ensures NoMatch(Adjacent(kind), s)
  {
    forall k | 0 <= k < |s|
      ensures MatchAdjacent(kind, s[k..]).None?
    {
      var c := CloseList(kind);
      if |s[k..]| > |c| {
        assert s[k..][|c|] == s[k + |c|];
      }
    }
  }

  /** A merge pass leaves text without its closing tag, or without a newline, as it is. */
  lemma MergeUnchanged(kind: ListKind, s: string)
    ensures Absent(s, CloseList(kind)) ==> Sub(Adjacent(kind), s) == s
    ensures NewlineFree(s) ==> Sub(Adjacent(kind), s) == s
  {
    if Absent(s, CloseList(kind)) {
      AdjacentNone(kind, s);
      SubIdentity(Adjacent(kind), s);
    }
    if NewlineFree(s) {
      AdjacentNoneOnLine(kind, s);
      SubIdentity(Adjacent(kind), s);
    }
  }

  /** Text without `<` holds neither closing tag. */
  lemma TaglessAbsent(s: string)
    ensures NoChar(s, '<') ==> Absent(s, CloseList(Unordered)) && Absent(s, CloseList(Ordered))
  {
    if NoChar(s, '<') {
      AbsentWithoutOpen(s, CloseList(Unordered));
      AbsentWithoutOpen(s, CloseList(Ordered));
    }
  }

  /** Every wrapped bullet item is longer than the text it replaces, so unchanged text held none. */
  lemma BulletsUnchangedIff(s: string)
    ensures Sub(MatchBullet, s) == s <==> NoPair(s, IsBullet, ' ')
  {
    if NoPair(s, IsBullet, ' ') {
      BulletNone(s);
      SubIdentity(MatchBullet, s);
    }
    if Sub(MatchBullet, s) == s {
      UnchangedUnmatched(s);
      UnmatchedNoBullet(s);
    }
  }

  lemma UnchangedUnmatched(s: string)
    requires Sub(MatchBullet, s) == s
    ensures NoMatch(MatchBullet, s)
  {
    BulletConsumes();
    SubGrows(MatchBullet, s);
  }

  lemma UnmatchedNoBullet(s: string)
    requires NoMatch(MatchBullet, s)
    ensures NoPair(s, IsBullet, ' ')
  {
    forall k | 0 <= k < |s| - 1
      ensures !(IsBullet(s[k]) && s[k + 1] == ' ')
    {
      assert s[k..][0] == s[k] && s[k..][1] == s[k + 1];
      BulletStarts(s[k..]);
    }
  }

  /** A bullet character and a space always start a bullet item. */
  lemma BulletStarts(t: string)
    ensures |t| >= 2 && IsBullet(t[0]) && t[1] == ' ' ==> MatchBullet(t).Some?
  {
    if |t| >= 2 && IsBullet(t[0]) && t[1] == ' ' {
      assert BulletShape(t, 2);
    }
  }

  /** Every wrapped ordinal item is longer than the text it replaces, so unchanged text held none. */
  lemma OrdinalsUnchangedIff(s: string)
    ensures Sub(MatchOrdinal, s) == s <==> NoOrdinalMark(s)
  {
    if NoOrdinalMark(s) {
      OrdinalNone(s);
      SubIdentity(MatchOrdinal, s);
    }
    if !NoOrdinalMark(s) {
      var k :| 0 <= k < |s| - 2 && IsDigit(s[k]) && s[k + 1] == '.' && s[k + 2] == ' ';
      assert s[k..][0] == s[k] && s[k..][1] == s[k + 1] && s[k..][2] == s[k + 2];
      OrdinalStarts(s[k..]);
      OrdinalConsumes();
      OrdinalRewrites();
      SubChanges(MatchOrdinal, s, k);
    }
  }

  /**
   An ordinal item starts with a digit and its replacement with `<`: a long
   numeral can make the replacement no longer than the item, but never equal
   to it.
   */
  lemma OrdinalRewrites()
    ensures forall t :: MatchOrdinal(t).Some? ==> |MatchOrdinal(t).value.out| > 0 && MatchOrdinal(t).value.out[0] != t[0]
  {
    forall t | MatchOrdinal(t).Some?
      ensures |MatchOrdinal(t).value.out| > 0 && MatchOrdinal(t).value.out[0] != t[0]
    {
      assert IsDigit(t[0]);
    }
  }

  /** A digit, a dot and a space always start an ordinal item. */
  lemma OrdinalStarts(t: string)
    ensures |t| >= 3 && IsDigit(t[0]) && t[1] == '.' && t[2] == ' ' ==> MatchOrdinal(t).Some?
  {
    if |t| >= 3 && IsDigit(t[0]) && t[1] == '.' && t[2] == ' ' {
      assert OrdinalShape(t, 1, 3);
    }
  }

  // ---------------------------------------------------------------------
  // The wrapping passes, line by line

  /** A bullet line becomes one item in a list of its own. */
  lemma WrapBulletLine(mark: char, x: string)
    requires IsBullet(mark) && NewlineFree(x)
    ensures WrapBullets([mark] + " " + x) == Wrapped(Unordered, x)
  {
    var line := [mark] + " " + x;
    NewlineFreeConcat([mark] + " ", x);
    FirstLineOfLines(line, []);
    assert line[2..] == x;
    BulletLineMatch(line, x);
    Unsuffixed(line);
    SubAtMatch(MatchBullet, line, [], Wrapped(Unordered, x));
  }

  lemma BulletLineMatch(line: string, x: string)
    requires |line| >= 2 && IsBullet(line[0]) && line[1] == ' ' && line[2..] == x
    requires FirstLine(line) == line
    ensures MatchBullet(line) == Some(Match(|line|, Wrapped(Unordered, x)))
  {
    WrappedSpelled(Unordered, x);
  }

  /** An ordinal line becomes one item in a list of its own. */
  lemma WrapOrdinalLine(num: string, x: string)
    requires |num| >= 1 && (forall k :: 0 <= k < |num| ==> IsDigit(num[k])) && NewlineFree(x)
    ensures WrapOrdinals(num + ". " + x) == Wrapped(Ordered, x)
  {
    var line := num + ". " + x;
    assert forall k :: 0 <= k < |num| ==> line[k] == num[k];
    assert line[|num|] == '.';
    SpanExact(line, IsDigit, |num|);
    NewlineFreeConcat(num + ". ", x);
    FirstLineOfLines(line, []);
    assert line[|num| + 2..] == x;
    OrdinalLineMatch(line, |num|, x);
    Unsuffixed(line);
    SubAtMatch(MatchOrdinal, line, [], Wrapped(Ordered, x));
  }

  lemma OrdinalLineMatch(line: string, d: nat, x: string)
    requires 1 <= d && d + 2 <= |line| && Span(line, IsDigit) == d
    requires line[d] == '.' && line[d + 1] == ' ' && line[d + 2..] == x
    requires FirstLine(line) == line
    ensures MatchOrdinal(line) == Some(Match(|line|, Wrapped(Ordered, x)))
  {
    WrappedSpelled(Ordered, x);
  }

  /** The replacement templates of md_to_html.py:55 and 59 spell out `Wrapped`. */
  lemma WrappedSpelled(kind: ListKind, x: string)
    ensures kind == Unordered ==> Wrapped(kind, x) == "<ul><li>" + x + "</li></ul>"
    ensures kind == Ordered ==> Wrapped(kind, x) == "<ol><li>" + x + "</li></ol>"
  {
  }

  /** Bullet lines become one single-item list each. */
  lemma {:induction false} WrapBulletRun(marks: string, xs: seq<string>)
    requires |xs| >= 1 && |marks| == |xs|
    requires forall i :: 0 <= i < |xs| ==> IsBullet(marks[i]) && NewlineFree(xs[i])
    ensures WrapBullets(Join(BulletLines(marks, xs))) == Join(WrappedLines(Unordered, xs))
    decreases |xs|
  {
    WrapBulletLine(marks[0], xs[0]);
    if |xs| >= 2 {
      WrapBulletRun(marks[1..], xs[1..]);
      var lines := BulletLines(marks, xs);
      var wrapped := WrappedLines(Unordered, xs);
      JoinCons(lines);
      JoinCons(wrapped);
      assert lines[1..] == BulletLines(marks[1..], xs[1..]);
      assert wrapped[1..] == WrappedLines(Unordered, xs[1..]);
      BulletConsumes();
      BulletSeesOneLine();
      SubSplitsAtNewline(MatchBullet, lines[0], Join(lines[1..]));
    }
  }

  /** Ordinal lines become one single-item list each. */
  lemma {:induction false} WrapOrdinalRun(nums: seq<string>, xs: seq<string>)
    requires |xs| >= 1 && |nums| == |xs|
    requires forall i :: 0 <= i < |xs| ==> Numeral(nums[i]) && NewlineFree(xs[i])
    ensures WrapOrdinals(Join(OrdinalLines(nums, xs))) == Join(WrappedLines(Ordered, xs))
    decreases |xs|
  {
    WrapOrdinalLine(nums[0], xs[0]);
    if |xs| >= 2 {
      WrapOrdinalRun(nums[1..], xs[1..]);
      var lines := OrdinalLines(nums, xs);
      var wrapped := WrappedLines(Ordered, xs);
      JoinCons(lines);
      JoinCons(wrapped);
      assert lines[1..] == OrdinalLines(nums[1..], xs[1..]);
      assert wrapped[1..] == WrappedLines(Ordered, xs[1..]);
      OrdinalConsumes();
      OrdinalSeesOneLine();
      SubSplitsAtNewline(MatchOrdinal, lines[0], Join(lines[1..]));
    }
  }

  /** A non-empty run of decimal digits. */
  predicate Numeral(num: string) {
    |num| >= 1 && forall k :: 0 <= k < |num| ==> IsDigit(num[k])
  }

  // ---------------------------------------------------------------------
  // The merging passes

  /** What md_to_html.py relies on about its list tags. */
  lemma TagFacts(kind: ListKind)
    ensures TagLike(OpenList(kind)) && TagLike(CloseList(kind))
    ensures NewlineFree(OpenList(kind)) && NewlineFree(CloseList(kind))
    ensures '\n' !in CloseList(kind) && '\n' !in OpenList(kind)
    ensures Absent(CloseList(kind), OpenList(kind))
    ensures Absent("<li>", CloseList(kind)) && Absent("</li>", CloseList(kind))
    ensures Absent("<li>", OpenList(kind)) && Absent("</li>", OpenList(kind))
    ensures |OpenList(kind)| >= 2 && OpenList(kind)[1] != '/'
  {
    var c := CloseList(kind);
    var o := OpenList(kind);
    forall j ensures !OccursAt(c, o, j) && !OccursAt("</li>", o, j) {
      if j == 0 {
        Mismatch(c, o, j, 1);
        Mismatch("</li>", o, j, 1);
      } else {
        Mismatch(c, o, j, 0);
        Mismatch("</li>", o, j, 0);
      }
    }
    forall j ensures !OccursAt("</li>", c, j) && !OccursAt("<li>", o, j) && !OccursAt("<li>", c, j) {
      Mismatch("</li>", c, j, 2);
      Mismatch("<li>", o, j, 1);
      Mismatch("<li>", c, j, 1);
    }
  }

  /** An item holds no list tag. */
  lemma ItemAbsent(x: string, w: string)
    requires NoChar(x, '<') && TagLike(w) && Absent("<li>", w) && Absent("</li>", w)
    ensures Absent(Item(x), w)
  {
    AbsentWithoutOpen(x, w);
    AbsentConcat("<li>", x, w);
    AbsentConcat("<li>" + x, "</li>", w);
  }

  /** No occurrence of a closing tag starts in `a`, which holds none and ends with `>`. */
  lemma NoneBeforeTagEnd(kind: ListKind, a: string, tail: string)
    requires |a| > 0 && a[|a| - 1] == '>' && Absent(a, CloseList(kind)) && TagLike(CloseList(kind))
    ensures forall k :: 0 <= k < |a| ==> MatchAdjacent(kind, a[k..] + tail).None?
  {
    var c := CloseList(kind);
    forall k | 0 <= k < |a|
      ensures MatchAdjacent(kind, a[k..] + tail).None?
    {
      if k + |c| <= |a| {
        OccursInParts(a, tail, c, k);
      } else {
        NoCrossing(a, tail, c, k);
      }
      assert a[k..] + tail == (a + tail)[k..];
      OccursInSuffix(a + tail, c, k, 0);
      if |c| <= |a[k..] + tail| {
        assert (a[k..] + tail)[0..|c|] == (a[k..] + tail)[..|c|];
      }
    }
  }

  /** A closing tag followed by whole lines without `<`: nothing to merge. */
  lemma CloseThenPlain(kind: ListKind, post: string)
    requires NoChar(post, '<') && (post == [] || post[0] == '\n')
    ensures NoMatch(Adjacent(kind), CloseList(kind) + post)
  {
    var c := CloseList(kind);
    var o := OpenList(kind);
    var t := c + post;
    TagFacts(kind);
    forall q | |c| + 1 + |o| <= q <= |t|
      ensures !AdjacentShape(kind, t, q)
    {
      assert t[q - |o|..q][0] == t[q - |o|] == post[q - |o| - |c|];
    }
    assert MatchAdjacent(kind, t).None?;
    forall k | 1 <= k < |t|
      ensures MatchAdjacent(kind, t[k..]).None?
    {
      if k < |c| {
        assert t[k] == c[k];
      } else {
        assert t[k] == post[k - |c|];
      }
      assert t[k..][0] == t[k];
    }
    assert t[0..] == t;
  }

  /**
   A closing tag at the end of a line, and the next line a single-item list:
   the merge deletes the closing tag, keeps the newline and deletes the
   opening tag.
   */
  lemma MergeAt(kind: ListKind, x: string, rest: string)
    requires NoChar(x, '<') && NewlineFree(x)
    requires rest == [] || rest[0] == '\n'
    ensures MatchAdjacent(kind, CloseList(kind) + "\n" + (OpenList(kind) + Item(x) + CloseList(kind) + rest))
            == Some(Match(|CloseList(kind)| + 1 + |OpenList(kind)|, "\n"))
  {
    var line := OpenList(kind) + Item(x) + CloseList(kind);
    TagFacts(kind);
    ListLineNewlineFree(kind, x);
    OpenOnlyAtStart(kind, x);
    assert line[0..|OpenList(kind)|] == OpenList(kind);
    AdjacentAt(kind, line, rest, 0);
  }

  /**
   A closing tag, a newline, and a line whose last opening tag starts at
   `at`: the match runs to the end of that opening tag, whatever precedes it
   on the line.
   */
  lemma AdjacentAt(kind: ListKind, line: string, rest: string, at: nat)
    requires NewlineFree(line) && (rest == [] || rest[0] == '\n')
    requires at + |OpenList(kind)| <= |line| && line[at..at + |OpenList(kind)|] == OpenList(kind)
    requires forall p :: at < p ==> !OccursAt(line, OpenList(kind), p)
    ensures MatchAdjacent(kind, CloseList(kind) + "\n" + (line + rest))
            == Some(Match(|CloseList(kind)| + 1 + at + |OpenList(kind)|, "\n"))
  {
    OpenNewlineFree(kind);
    assert OccursAt(line, OpenList(kind), at);
    TagsAt(CloseList(kind), OpenList(kind), line, rest, at);
  }

  /** `c`, a newline, and a line whose last `o` starts at `at`. */
  lemma TagsAt(c: string, o: string, line: string, rest: string, at: nat)
    requires NewlineFree(o) && NewlineFree(line) && (rest == [] || rest[0] == '\n')
    requires OccursAt(line, o, at) && forall p :: at < p ==> !OccursAt(line, o, p)
    ensures MatchTags(c, o, c + "\n" + (line + rest)) == Some(Match(|c| + 1 + at + |o|, "\n"))
  {
    var t := c + "\n" + (line + rest);
    AfterClose(c, line + rest);
    FirstLineBefore(line, rest);
    LastOccurrenceIs(line, o, 0, |line|, at);
    assert FirstLine(t[|c| + 1..]) == line;
  }

  lemma AfterClose(c: string, u: string)
    ensures |c + "\n" + u| > |c| && (c + "\n" + u)[..|c|] == c && (c + "\n" + u)[|c|] == '\n'
    ensures (c + "\n" + u)[|c| + 1..] == u
  {
  }

  lemma ListLineNewlineFree(kind: ListKind, x: string)
    requires NewlineFree(x) && NewlineFree(OpenList(kind)) && NewlineFree(CloseList(kind))
    ensures NewlineFree(OpenList(kind) + Item(x) + CloseList(kind))
  {
    NewlineFreeConcat(OpenList(kind), "<li>");
    NewlineFreeConcat(OpenList(kind) + "<li>", x);
    NewlineFreeConcat(OpenList(kind) + "<li>" + x, "</li>");
    NewlineFreeConcat(OpenList(kind) + "<li>" + x + "</li>", CloseList(kind));
    assert OpenList(kind) + Item(x) + CloseList(kind) == OpenList(kind) + "<li>" + x + "</li>" + CloseList(kind);
  }

  /** In the line of a single-item list the opening tag occurs only at the start. */
  lemma OpenOnlyAtStart(kind: ListKind, x: string)
    requires NoChar(x, '<')
    ensures forall p :: 1 <= p ==> !OccursAt(OpenList(kind) + Item(x) + CloseList(kind), OpenList(kind), p)
  {
    var c := CloseList(kind);
    var o := OpenList(kind);
    TagFacts(kind);
    ItemAbsent(x, o);
    AbsentConcat(Item(x), c, o);
    assert o + Item(x) + c == o + (Item(x) + c);
    forall p | 1 <= p
      ensures !OccursAt(o + (Item(x) + c), o, p)
    {
      if p < |o| {
        NoCrossing(o, Item(x) + c, o, p);
      } else {
        OccursInParts(o, Item(x) + c, o, p);
      }
    }
  }

  /**
   A closing tag followed by lines that each hold a single-item list: the
   merge leaves the items, one per line, and one closing tag at the end.
   */
  lemma {:induction false} MergeLinks(kind: ListKind, ys: seq<string>, post: string)
    requires forall i :: 0 <= i < |ys| ==> NewlineFree(ys[i]) && NoChar(ys[i], '<')
    requires NoChar(post, '<') && (post == [] || post[0] == '\n')
    ensures MergeLists(kind, CloseList(kind) + Trail(WrappedLines(kind, ys)) + post)
            == Trail(Items(ys)) + CloseList(kind) + post
    decreases |ys|
  {
    var c := CloseList(kind);
    if |ys| == 0 {
      MergeNothing(kind, post);
    } else {
      var tr := Trail(WrappedLines(kind, ys[1..]));
      LinkSplit(kind, ys, post);
      LineStart(tr, post);
      MergeLinkStep(kind, ys[0], tr + post);
      MergeLinks(kind, ys[1..], post);
      Assoc3(c, tr, post);
      ItemsTrail(kind, ys, post);
    }
  }

  lemma MergeNothing(kind: ListKind, post: string)
    requires NoChar(post, '<') && (post == [] || post[0] == '\n')
    ensures MergeLists(kind, CloseList(kind) + Trail(WrappedLines(kind, [])) + post)
            == Trail(Items([])) + CloseList(kind) + post
  {
    var c := CloseList(kind);
    CloseThenPlain(kind, post);
    SubIdentity(Adjacent(kind), c + post);
    assert WrappedLines(kind, []) == [] && Items([]) == [];
    assert c + [] + post == c + post && [] + c + post == c + post;
  }

  lemma LineStart(tr: string, post: string)
    requires tr == [] || tr[0] == '\n'
    requires post == [] || post[0] == '\n'
    ensures tr + post == [] || (tr + post)[0] == '\n'
  {
  }

  /** One link: the closing tag, newline and opening tag go, the item stays. */
  lemma MergeLinkStep(kind: ListKind, y: string, later: string)
    requires NewlineFree(y) && NoChar(y, '<')
    requires later == [] || later[0] == '\n'
    ensures MergeLists(kind, (CloseList(kind) + "\n" + OpenList(kind)) + (Item(y) + (CloseList(kind) + later)))
            == "\n" + (Item(y) + MergeLists(kind, CloseList(kind) + later))
  {
    var c := CloseList(kind);
    var head := c + "\n" + OpenList(kind);
    MergeAt(kind, y, later);
    LinkMatch(kind, y, later);
    SubAtMatch(Adjacent(kind), head, Item(y) + (c + later), "\n");
    TagFacts(kind);
    ItemAbsent(y, c);
    NoneBeforeTagEnd(kind, Item(y), c + later);
    SubSkip(Adjacent(kind), Item(y), c + later);
  }

  lemma LinkSplit(kind: ListKind, ys: seq<string>, post: string)
    requires |ys| >= 1
    ensures CloseList(kind) + Trail(WrappedLines(kind, ys)) + post
            == (CloseList(kind) + "\n" + OpenList(kind))
               + (Item(ys[0]) + (CloseList(kind) + (Trail(WrappedLines(kind, ys[1..])) + post)))
  {
    var lines := WrappedLines(kind, ys);
    assert lines[1..] == WrappedLines(kind, ys[1..]);
    Regroup5(CloseList(kind), OpenList(kind), Item(ys[0]), Trail(lines[1..]), post);
  }

  lemma LinkMatch(kind: ListKind, y: string, later: string)
    ensures CloseList(kind) + "\n" + (OpenList(kind) + Item(y) + CloseList(kind) + later)
            == (CloseList(kind) + "\n" + OpenList(kind)) + (Item(y) + (CloseList(kind) + later))
  {
    Regroup4(CloseList(kind), OpenList(kind), Item(y), later);
  }

  lemma ItemsTrail(kind: ListKind, ys: seq<string>, post: string)
    requires |ys| >= 1
    ensures "\n" + (Item(ys[0]) + (Trail(Items(ys[1..])) + CloseList(kind) + post))
            == Trail(Items(ys)) + CloseList(kind) + post
  {
    var items := Items(ys);
    assert items[1..] == Items(ys[1..]);
    Regroup3(Item(ys[0]), Trail(items[1..]), CloseList(kind), post);
  }

  /**
   Consecutive lines that each hold a single-item list, between whole lines
   without `<`, merge into one list.
   */
  lemma MergeRun(kind: ListKind, pre: string, xs: seq<string>, post: string)
    requires |xs| >= 1
    requires forall i :: 0 <= i < |xs| ==> NewlineFree(xs[i]) && NoChar(xs[i], '<')
    requires NoChar(pre, '<') && NoChar(post, '<') && (post == [] || post[0] == '\n')
    ensures MergeLists(kind, pre + Join(WrappedLines(kind, xs)) + post) == pre + ListBlock(kind, xs) + post
  {
    var c := CloseList(kind);
    var o := OpenList(kind);
    var head := pre + o + Item(xs[0]);
    var tail := c + Trail(WrappedLines(kind, xs[1..])) + post;
    TagFacts(kind);
    OpenAbsentClose(kind);
    ItemAbsent(xs[0], c);
    AbsentWithoutOpen(pre, c);
    AbsentConcat(o, Item(xs[0]), c);
    AbsentConcat(pre, o + Item(xs[0]), c);
    HeadRegroup(pre, o, xs[0]);
    NoneBeforeTagEnd(kind, head, tail);
    SubSkip(Adjacent(kind), head, tail);
    MergeLinks(kind, xs[1..], post);
    RunRegroup(kind, pre, xs, post);
  }

  lemma OpenAbsentClose(kind: ListKind)
    ensures Absent(OpenList(kind), CloseList(kind))
  {
  }

  lemma HeadRegroup(pre: string, o: string, x: string)
    ensures pre + (o + Item(x)) == pre + o + Item(x)
    ensures |pre + o + Item(x)| > 0 && (pre + o + Item(x))[|pre + o + Item(x)| - 1] == '>'
  {
  }

  lemma RunRegroup(kind: ListKind, pre: string, xs: seq<string>, post: string)
    requires |xs| >= 1
    ensures pre + Join(WrappedLines(kind, xs)) + post
            == (pre + OpenList(kind) + Item(xs[0])) + (CloseList(kind) + Trail(WrappedLines(kind, xs[1..])) + post)
    ensures pre + ListBlock(kind, xs) + post
            == (pre + OpenList(kind) + Item(xs[0])) + (Trail(Items(xs[1..])) + CloseList(kind) + post)
  {
    var lines := WrappedLines(kind, xs);
    var items := Items(xs);
    JoinTrail(lines);
    JoinTrail(items);
    assert lines[1..] == WrappedLines(kind, xs[1..]);
    assert items[1..] == Items(xs[1..]);
    RegroupRun(pre, OpenList(kind), Item(xs[0]), CloseList(kind), Trail(lines[1..]), post);
    RegroupBlock(pre, OpenList(kind), Item(xs[0]), CloseList(kind), Trail(items[1..]), post);
  }

  // ---------------------------------------------------------------------
  // Text the other passes leave alone

  lemma NoOrdinalMarkConcat(a: string, b: string)
    requires NoOrdinalMark(a) && NoOrdinalMark(b)
    requires |a| == 0 || |b| == 0 || (!IsDigit(a[|a| - 1]) && a[|a| - 1] != '.') || (b[0] != '.' && b[0] != ' ')
    ensures NoOrdinalMark(a + b)
  {
    var t := a + b;
    forall k | 0 <= k < |t| - 2
      ensures !(IsDigit(t[k]) && t[k + 1] == '.' && t[k + 2] == ' ')
    {
      if k + 2 < |a| {
        assert t[k] == a[k] && t[k + 1] == a[k + 1] && t[k + 2] == a[k + 2];
      } else if |a| <= k {
        assert t[k] == b[k - |a|] && t[k + 1] == b[k + 1 - |a|] && t[k + 2] == b[k + 2 - |a|];
      } else if k == |a| - 1 {
        assert t[k] == a[|a| - 1] && t[k + 1] == b[0];
      } else {
        assert t[k + 1] == a[|a| - 1] && t[k + 2] == b[0];
      }
    }
  }

  /** An item of a bullet list gives the ordered passes nothing to do. */
  lemma ItemInert(x: string)
    requires NoChar(x, '<') && NoOrdinalMark(x)
    ensures NoOrdinalMark(Item(x)) && Absent(Item(x), CloseList(Ordered))
    ensures Item(x)[0] == '<' && Item(x)[|Item(x)| - 1] == '>'
  {
    TagFacts(Ordered);
    ItemAbsent(x, CloseList(Ordered));
    assert NoOrdinalMark("<li>") && NoOrdinalMark("</li>");
    NoOrdinalMarkConcat("<li>", x);
    NoOrdinalMarkConcat("<li>" + x, "</li>");
  }

  lemma NewlineInert()
    ensures NoOrdinalMark("\n") && Absent("\n", CloseList(Ordered))
  {
  }

  lemma {:induction false} ItemsTrailInert(ys: seq<string>)
    requires forall i :: 0 <= i < |ys| ==> NoChar(ys[i], '<') && NoOrdinalMark(ys[i])
    ensures NoOrdinalMark(Trail(Items(ys))) && Absent(Trail(Items(ys)), CloseList(Ordered))
    decreases |ys|
  {
    if |ys| == 0 {
      assert Items(ys) == [];
    } else {
      var items := Items(ys);
      var head := "\n" + Item(ys[0]);
      var rest := Trail(Items(ys[1..]));
      assert items[1..] == Items(ys[1..]);
      assert Trail(items) == head + rest;
      TagFacts(Ordered);
      ItemInert(ys[0]);
      NewlineInert();
      ItemsTrailInert(ys[1..]);
      NoOrdinalMarkConcat("\n", Item(ys[0]));
      AbsentConcat("\n", Item(ys[0]), CloseList(Ordered));
      assert head[|head| - 1] == '>';
      NoOrdinalMarkConcat(head, rest);
      AbsentConcat(head, rest, CloseList(Ordered));
    }
  }

  /** A bullet list gives the ordered passes nothing to do. */
  lemma BlockInert(xs: seq<string>)
    requires |xs| >= 1
    requires forall i :: 0 <= i < |xs| ==> NoChar(xs[i], '<') && NoOrdinalMark(xs[i])
    ensures NoOrdinalMark(ListBlock(Unordered, xs)) && Absent(ListBlock(Unordered, xs), CloseList(Ordered))
    ensures ListBlock(Unordered, xs)[0] == '<' && ListBlock(Unordered, xs)[|ListBlock(Unordered, xs)| - 1] == '>'
  {
    var o := OpenList(Unordered);
    var c := CloseList(Unordered);
    var w := CloseList(Ordered);
    var items := Items(xs);
    var first := Item(xs[0]);
    var rest := Trail(Items(xs[1..]));
    JoinTrail(items);
    assert items[1..] == Items(xs[1..]);
    assert ListBlock(Unordered, xs) == o + first + rest + c;
    TagFacts(Ordered);
    ItemInert(xs[0]);
    ItemsTrailInert(xs[1..]);
    UlInert();
    NoOrdinalMarkConcat(o, first);
    AbsentConcat(o, first, w);
    NoOrdinalMarkConcat(o + first, rest);
    AbsentConcat(o + first, rest, w);
    NoOrdinalMarkConcat(o + first + rest, c);
    AbsentConcat(o + first + rest, c, w);
  }

  lemma UlInert()
    ensures NoOrdinalMark(OpenList(Unordered)) && Absent(OpenList(Unordered), CloseList(Ordered))
    ensures NoOrdinalMark(CloseList(Unordered)) && Absent(CloseList(Unordered), CloseList(Ordered))
  {
    Mismatch(CloseList(Unordered), CloseList(Ordered), 0, 2);
    assert forall j :: j != 0 ==> !OccursAt(CloseList(Unordered), CloseList(Ordered), j);
  }

  /** An ordinal line gives the bullet passes nothing to do. */
  lemma OrdinalLineInert(num: string, x: string)
    requires Numeral(num) && NoChar(x, '<') && NoPair(x, IsBullet, ' ')
    ensures NoChar(num + ". " + x, '<') && NoPair(num + ". " + x, IsBullet, ' ')
  {
    assert NoPair(num, IsBullet, ' ') by {
      assert forall k :: 0 <= k < |num| ==> !IsBullet(num[k]);
    }
    assert NoChar(num, '<') by {
      assert forall k :: 0 <= k < |num| ==> num[k] != '<';
    }
    NoPairConcat(num, ". ", IsBullet, ' ');
    NoPairConcat(num + ". ", x, IsBullet, ' ');
    NoCharConcat(num, ". ", '<');
    NoCharConcat(num + ". ", x, '<');
  }

  lemma {:induction false} OrdinalLinesInert(nums: seq<string>, xs: seq<string>)
    requires |nums| == |xs|
    requires forall i :: 0 <= i < |xs| ==> Numeral(nums[i]) && NoChar(xs[i], '<') && NoPair(xs[i], IsBullet, ' ')
    ensures NoChar(Join(OrdinalLines(nums, xs)), '<') && NoPair(Join(OrdinalLines(nums, xs)), IsBullet, ' ')
    decreases |xs|
  {
    var lines := OrdinalLines(nums, xs);
    if |xs| == 1 {
      OrdinalLineInert(nums[0], xs[0]);
    } else if |xs| >= 2 {
      var line := nums[0] + ". " + xs[0];
      var rest := Join(OrdinalLines(nums[1..], xs[1..]));
      assert lines[1..] == OrdinalLines(nums[1..], xs[1..]);
      assert Join(lines) == line + "\n" + rest;
      OrdinalLineInert(nums[0], xs[0]);
      OrdinalLinesInert(nums[1..], xs[1..]);
      NoPairConcat(line, "\n", IsBullet, ' ');
      NoPairConcat(line + "\n", rest, IsBullet, ' ');
      NoCharConcat(line, "\n", '<');
      NoCharConcat(line + "\n", rest, '<');
    }
  }

  // ---------------------------------------------------------------------
  // Whole lists

  /**
   Consecutive bullet lines, between whole lines of plain text, become one
   `<ul>` list with one item per line; the text around them is kept.
   */
  lemma BulletList(pre: string, marks: string, xs: seq<string>, post: string)
    requires |xs| >= 1 && |marks| == |xs|
    requires forall i :: 0 <= i < |xs| ==> IsBullet(marks[i]) && NewlineFree(xs[i])
    requires forall i :: 0 <= i < |xs| ==> NoChar(xs[i], '<') && NoOrdinalMark(xs[i])
    requires Surrounding(pre, post)
    ensures Lists(pre + Join(BulletLines(marks, xs)) + post) == pre + ListBlock(Unordered, xs) + post
  {
    BulletStage(pre, marks, xs, post);
    MergeRun(Unordered, pre, xs, post);
    BlockUntouched(pre, xs, post);
  }

  lemma BulletStage(pre: string, marks: string, xs: seq<string>, post: string)
    requires |xs| >= 1 && |marks| == |xs|
    requires forall i :: 0 <= i < |xs| ==> IsBullet(marks[i]) && NewlineFree(xs[i])
    requires Surrounding(pre, post)
    ensures WrapBullets(pre + Join(BulletLines(marks, xs)) + post) == pre + Join(WrappedLines(Unordered, xs)) + post
  {
    BulletConsumes();
    BulletSeesOneLine();
    BulletNone(pre);
    BulletNone(post);
    SubInContext(MatchBullet, pre, Join(BulletLines(marks, xs)), post);
    WrapBulletRun(marks, xs);
  }

  /** The ordered passes leave a bullet list, and the plain text around it, alone. */
  lemma BlockUntouched(pre: string, xs: seq<string>, post: string)
    requires |xs| >= 1
    requires forall i :: 0 <= i < |xs| ==> NoChar(xs[i], '<') && NoOrdinalMark(xs[i])
    requires Surrounding(pre, post)
    ensures WrapOrdinals(pre + ListBlock(Unordered, xs) + post) == pre + ListBlock(Unordered, xs) + post
    ensures MergeLists(Ordered, pre + ListBlock(Unordered, xs) + post) == pre + ListBlock(Unordered, xs) + post
  {
    var block := ListBlock(Unordered, xs);
    var w := CloseList(Ordered);
    var s := pre + block + post;
    TagFacts(Ordered);
    BlockInert(xs);
    AbsentWithoutOpen(pre, w);
    AbsentWithoutOpen(post, w);
    NoOrdinalMarkConcat(pre, block);
    AbsentConcat(pre, block, w);
    assert (pre + block)[|pre + block| - 1] == '>';
    NoOrdinalMarkConcat(pre + block, post);
    AbsentConcat(pre + block, post, w);
    OrdinalNone(s);
    SubIdentity(MatchOrdinal, s);
    AdjacentNone(Ordered, s);
    SubIdentity(Adjacent(Ordered), s);
  }

  /**
   Consecutive ordinal lines, between whole lines of plain text, become one
   `<ol>` list with one item per line, whatever their numbers; the text
   around them is kept.
   */
  lemma OrdinalList(pre: string, nums: seq<string>, xs: seq<string>, post: string)
    requires |xs| >= 1 && |nums| == |xs|
    requires forall i :: 0 <= i < |xs| ==> Numeral(nums[i]) && NewlineFree(xs[i])
    requires forall i :: 0 <= i < |xs| ==> NoChar(xs[i], '<') && NoPair(xs[i], IsBullet, ' ')
    requires Surrounding(pre, post)
    ensures Lists(pre + Join(OrdinalLines(nums, xs)) + post) == pre + ListBlock(Ordered, xs) + post
  {
    LinesUntouched(pre, nums, xs, post);
    OrdinalStage(pre, nums, xs, post);
    MergeRun(Ordered, pre, xs, post);
  }

  /** The bullet passes leave ordinal lines, and the plain text around them, alone. */
  lemma LinesUntouched(pre: string, nums: seq<string>, xs: seq<string>, post: string)
    requires |xs| >= 1 && |nums| == |xs|
    requires forall i :: 0 <= i < |xs| ==> Numeral(nums[i]) && NoChar(xs[i], '<') && NoPair(xs[i], IsBullet, ' ')
    requires Surrounding(pre, post)
    ensures WrapBullets(pre + Join(OrdinalLines(nums, xs)) + post) == pre + Join(OrdinalLines(nums, xs)) + post
    ensures MergeLists(Unordered, pre + Join(OrdinalLines(nums, xs)) + post) == pre + Join(OrdinalLines(nums, xs)) + post
  {
    var lines := Join(OrdinalLines(nums, xs));
    var s := pre + lines + post;
    OrdinalLinesInert(nums, xs);
    NoPairConcat(pre, lines, IsBullet, ' ');
    NoPairConcat(pre + lines, post, IsBullet, ' ');
    NoCharConcat(pre, lines, '<');
    NoCharConcat(pre + lines, post, '<');
    BulletNone(s);
    SubIdentity(MatchBullet, s);
    MergeNone(Unordered, s);
    SubIdentity(Adjacent(Unordered), s);
  }

  lemma OrdinalStage(pre: string, nums: seq<string>, xs: seq<string>, post: string)
    requires |xs| >= 1 && |nums| == |xs|
    requires forall i :: 0 <= i < |xs| ==> Numeral(nums[i]) && NewlineFree(xs[i])
    requires Surrounding(pre, post)
    ensures WrapOrdinals(pre + Join(OrdinalLines(nums, xs)) + post) == pre + Join(WrappedLines(Ordered, xs)) + post
  {
    OrdinalConsumes();
    OrdinalSeesOneLine();
    OrdinalNone(pre);
    OrdinalNone(post);
    SubInContext(MatchOrdinal, pre, Join(OrdinalLines(nums, xs)), post);
    WrapOrdinalRun(nums, xs);
  }

  // ---------------------------------------------------------------------
  // The doctests of md_to_html.py:47-52
  //
  // Each example receives its input as a parameter fixed by `requires` rather
  // than naming the literal inside `ensures`: the verifier then unfolds the
  // passes over a plain variable, which keeps these proofs cheap.

  lemma BulletExample(s: string)
    requires s == "- i1\n+ i2\n* i3"
    ensures Lists(s) == "<ul><li>i1</li>\n<li>i2</li>\n<li>i3</li></ul>"
  {
    BulletExampleParts(s, "-+*", ["i1", "i2", "i3"]);
  }

  lemma BulletExampleParts(s: string, marks: string, xs: seq<string>)
    requires s == "- i1\n+ i2\n* i3"
    requires marks == "-+*" && xs == ["i1", "i2", "i3"]
    ensures Lists(s) == "<ul><li>i1</li>\n<li>i2</li>\n<li>i3</li></ul>"
  {
    ExampleItems(xs);
    BulletExampleLayout(s, marks, xs);
    BlockSpelled(Unordered, xs, "<li>i1</li>\n<li>i2</li>\n<li>i3</li>");
    BulletListAlone(s, marks, xs);
  }

  lemma ExampleItems(xs: seq<string>)
    requires xs == ["i1", "i2", "i3"]
    ensures forall i :: 0 <= i < |xs| ==> NewlineFree(xs[i]) && NoChar(xs[i], '<')
    ensures forall i :: 0 <= i < |xs| ==> NoOrdinalMark(xs[i]) && NoPair(xs[i], IsBullet, ' ')
  {
  }

  lemma BulletListAlone(s: string, marks: string, xs: seq<string>)
    requires |xs| >= 1 && |marks| == |xs| && s == [] + Join(BulletLines(marks, xs)) + []
    requires forall i :: 0 <= i < |xs| ==> IsBullet(marks[i]) && NewlineFree(xs[i])
    requires forall i :: 0 <= i < |xs| ==> NoChar(xs[i], '<') && NoOrdinalMark(xs[i])
    ensures Lists(s) == [] + ListBlock(Unordered, xs) + []
  {
    BulletList([], marks, xs, []);
  }

  lemma OrdinalListAlone(s: string, nums: seq<string>, xs: seq<string>)
    requires |xs| >= 1 && |nums| == |xs| && s == [] + Join(OrdinalLines(nums, xs)) + []
    requires forall i :: 0 <= i < |xs| ==> Numeral(nums[i]) && NewlineFree(xs[i])
    requires forall i :: 0 <= i < |xs| ==> NoChar(xs[i], '<') && NoPair(xs[i], IsBullet, ' ')
    ensures Lists(s) == [] + ListBlock(Ordered, xs) + []
  {
    OrdinalList([], nums, xs, []);
  }

  lemma BulletExampleLayout(s: string, marks: string, xs: seq<string>)
    requires s == "- i1\n+ i2\n* i3"
    requires marks == "-+*" && xs == ["i1", "i2", "i3"]
    ensures s == [] + Join(BulletLines(marks, xs)) + []
  {
    var lines := BulletLines(marks, xs);
    assert lines[0] == "- i1" && lines[1] == "+ i2" && lines[2] == "* i3";
    JoinThree(lines);
    BulletLinesSpelled(lines[0], lines[1], lines[2], s);
  }

  lemma BlockSpelled(kind: ListKind, xs: seq<string>, items: string)
    requires xs == ["i1", "i2", "i3"]
    requires items == "<li>i1</li>\n<li>i2</li>\n<li>i3</li>"
    ensures kind == Unordered ==> [] + ListBlock(kind, xs) + [] == "<ul><li>i1</li>\n<li>i2</li>\n<li>i3</li></ul>"
    ensures kind == Ordered ==> [] + ListBlock(kind, xs) + [] == "<ol><li>i1</li>\n<li>i2</li>\n<li>i3</li></ol>"
  {
    ItemsSpelled(xs, items);
    Unpadded(OpenList(kind), items, CloseList(kind));
    if kind == Unordered {
      UlSpelled(items);
    } else {
      OlSpelled(items);
    }
  }

  lemma UlSpelled(items: string)
    requires items == "<li>i1</li>\n<li>i2</li>\n<li>i3</li>"
    ensures "<ul>" + items + "</ul>" == "<ul><li>i1</li>\n<li>i2</li>\n<li>i3</li></ul>"
  {
  }

  lemma OlSpelled(items: string)
    requires items == "<li>i1</li>\n<li>i2</li>\n<li>i3</li>"
    ensures "<ol>" + items + "</ol>" == "<ol><li>i1</li>\n<li>i2</li>\n<li>i3</li></ol>"
  {
  }

  lemma ItemsSpelled(xs: seq<string>, items: string)
    requires xs == ["i1", "i2", "i3"]
    requires items == "<li>i1</li>\n<li>i2</li>\n<li>i3</li>"
    ensures Join(Items(xs)) == items
  {
    var its := Items(xs);
    assert its[0] == "<li>i1</li>" && its[1] == "<li>i2</li>" && its[2] == "<li>i3</li>";
    JoinThree(its);
    ThreeItems(its[0], its[1], its[2], items);
  }

  lemma ThreeItems(a: string, b: string, c: string, items: string)
    requires a == "<li>i1</li>" && b == "<li>i2</li>" && c == "<li>i3</li>"
    requires items == "<li>i1</li>\n<li>i2</li>\n<li>i3</li>"
    ensures a + "\n" + b + "\n" + c == items
  {
  }

  lemma OrdinalExample(s: string)
    requires s == "2. i1\n69. i2\n1337. i3"
    ensures Lists(s) == "<ol><li>i1</li>\n<li>i2</li>\n<li>i3</li></ol>"
  {
    OrdinalExampleParts(s, ["2", "69", "1337"], ["i1", "i2", "i3"]);
  }

  lemma OrdinalExampleParts(s: string, nums: seq<string>, xs: seq<string>)
    requires s == "2. i1\n69. i2\n1337. i3"
    requires nums == ["2", "69", "1337"] && xs == ["i1", "i2", "i3"]
    ensures Lists(s) == "<ol><li>i1</li>\n<li>i2</li>\n<li>i3</li></ol>"
  {
    ExampleItems(xs);
    assert forall i :: 0 <= i < |nums| ==> Numeral(nums[i]);
    OrdinalExampleLayout(s, nums, xs);
    BlockSpelled(Ordered, xs, "<li>i1</li>\n<li>i2</li>\n<li>i3</li>");
    OrdinalListAlone(s, nums, xs);
  }

  lemma OrdinalExampleLayout(s: string, nums: seq<string>, xs: seq<string>)
    requires s == "2. i1\n69. i2\n1337. i3"
    requires nums == ["2", "69", "1337"] && xs == ["i1", "i2", "i3"]
    ensures s == [] + Join(OrdinalLines(nums, xs)) + []
  {
    var lines := OrdinalLines(nums, xs);
    assert lines[0] == "2. i1" && lines[1] == "69. i2" && lines[2] == "1337. i3";
    JoinThree(lines);
    OrdinalLinesSpelled(lines[0], lines[1], lines[2], s);
  }

  lemma BulletLinesSpelled(a: string, b: string, c: string, s: string)
    requires a == "- i1" && b == "+ i2" && c == "* i3" && s == "- i1\n+ i2\n* i3"
    ensures s == [] + (a + "\n" + b + "\n" + c) + []
  {
  }

  lemma OrdinalLinesSpelled(a: string, b: string, c: string, s: string)
    requires a == "2. i1" && b == "69. i2" && c == "1337. i3" && s == "2. i1\n69. i2\n1337. i3"
    ensures s == [] + (a + "\n" + b + "\n" + c) + []
  {
  }

  lemma JoinThree(lines: seq<string>)
    requires |lines| == 3
    ensures Join(lines) == lines[0] + "\n" + lines[1] + "\n" + lines[2]
  {
    assert lines[1..][1..] == lines[2..];
    assert Join(lines[2..]) == lines[2];
    assert Join(lines[1..]) == lines[1] + "\n" + lines[2];
  }

  // ---------------------------------------------------------------------
  // The merge deletes whatever lies between two lists on adjacent lines

  /**
   A one-item list, a newline, any text without `<`, and another one-item
   list: the merge joins the two lists and drops that text.
   */
  lemma MergeDeletes(kind: ListKind, x: string, junk: string, y: string)
    requires NewlineFree(x) && NoChar(x, '<') && NewlineFree(y) && NoChar(y, '<')
    requires NewlineFree(junk) && NoChar(junk, '<')
    ensures MergeLists(kind, Wrapped(kind, x) + "\n" + (junk + Wrapped(kind, y)))
            == OpenList(kind) + Item(x) + "\n" + Item(y) + CloseList(kind)
  {
    var o := OpenList(kind);
    var c := CloseList(kind);
    var head := o + Item(x);
    var line := junk + Wrapped(kind, y);
    TagFacts(kind);
    OpenAbsentClose(kind);
    ItemAbsent(x, c);
    AbsentConcat(o, Item(x), c);
    HeadRegroup([], o, x);
    NoneBeforeTagEnd(kind, head, c + "\n" + line);
    DeleteRegroup(head, c, line);
    SubSkip(Adjacent(kind), head, c + "\n" + line);
    JunkLine(kind, junk, y);
    AdjacentAt(kind, line, [], |junk|);
    MergeAfterJunk(kind, junk, y);
    Unsuffixed(line);
    SubAtMatch(Adjacent(kind), c + "\n" + junk + o, Item(y) + c, "\n");
    ItemAbsent(y, c);
    NoneBeforeTagEnd(kind, Item(y), c);
    Unsuffixed(c);
    SubSkip(Adjacent(kind), Item(y), c);
    CloseThenPlain(kind, []);
    SubIdentity(Adjacent(kind), c);
    Unsuffixed(c + []);
    DeleteResult(head, Item(y), c);
  }

  /** The line of the second list: its one opening tag comes right after the text. */
  lemma JunkLine(kind: ListKind, junk: string, y: string)
    requires NewlineFree(y) && NoChar(y, '<') && NewlineFree(junk) && NoChar(junk, '<')
    ensures NewlineFree(junk + Wrapped(kind, y))
    ensures |junk| + |OpenList(kind)| <= |junk + Wrapped(kind, y)|
    ensures (junk + Wrapped(kind, y))[|junk|..|junk| + |OpenList(kind)|] == OpenList(kind)
    ensures forall p :: |junk| < p ==> !OccursAt(junk + Wrapped(kind, y), OpenList(kind), p)
  {
    var w := Wrapped(kind, y);
    TagFacts(kind);
    ListLineNewlineFree(kind, y);
    NewlineFreeConcat(junk, w);
    OpenOnlyAtStart(kind, y);
    assert (junk + w)[|junk|..|junk| + |OpenList(kind)|] == w[..|OpenList(kind)|];
    forall p | |junk| < p
      ensures !OccursAt(junk + w, OpenList(kind), p)
    {
      OccursInParts(junk, w, OpenList(kind), p);
    }
  }

  lemma MergeAfterJunk(kind: ListKind, junk: string, y: string)
    ensures CloseList(kind) + "\n" + ((junk + Wrapped(kind, y)) + [])
            == (CloseList(kind) + "\n" + junk + OpenList(kind)) + (Item(y) + CloseList(kind))
    ensures |CloseList(kind) + "\n" + junk + OpenList(kind)| == |CloseList(kind)| + 1 + |junk| + |OpenList(kind)|
  {
  }

  /** The bullet pattern is not anchored: it also matches after other text on the line. */
  lemma WrapAfterText(junk: string, m: char, y: string)
    requires NoPair(junk, IsBullet, ' ') && IsBullet(m) && NewlineFree(y)
    ensures WrapBullets(junk + ([m] + " " + y)) == junk + Wrapped(Unordered, y)
  {
    var line := [m] + " " + y;
    forall k | 0 <= k < |junk|
      ensures MatchBullet(junk[k..] + line).None?
    {
      var t := junk[k..] + line;
      assert t[0] == junk[k];
      if k + 1 < |junk| {
        assert t[1] == junk[k + 1];
      } else {
        assert t[1] == m;
      }
    }
    SubSkip(MatchBullet, junk, line);
    WrapBulletLine(m, y);
  }

  /**
   A bullet line, then a line with text before its bullet: the text is
   dropped and both items end up in one list.
   */
  lemma ListsDeletes(m1: char, x: string, junk: string, m2: char, y: string)
    requires IsBullet(m1) && IsBullet(m2)
    requires NewlineFree(x) && NoChar(x, '<') && NoOrdinalMark(x)
    requires NewlineFree(y) && NoChar(y, '<') && NoOrdinalMark(y)
    requires NewlineFree(junk) && NoChar(junk, '<') && NoPair(junk, IsBullet, ' ')
    ensures Lists([m1] + " " + x + "\n" + (junk + ([m2] + " " + y))) == ListBlock(Unordered, [x, y])
  {
    DeleteWrap(m1, x, junk, m2, y);
    MergeDeletes(Unordered, x, junk, y);
    TwoItems(Unordered, x, y);
    TwoUntouched(x, y);
  }

  lemma DeleteWrap(m1: char, x: string, junk: string, m2: char, y: string)
    requires IsBullet(m1) && IsBullet(m2) && NewlineFree(x) && NewlineFree(y)
    requires NoPair(junk, IsBullet, ' ')
    ensures WrapBullets([m1] + " " + x + "\n" + (junk + ([m2] + " " + y)))
            == Wrapped(Unordered, x) + "\n" + (junk + Wrapped(Unordered, y))
  {
    BulletConsumes();
    BulletSeesOneLine();
    SubSplitsAtNewline(MatchBullet, [m1] + " " + x, junk + ([m2] + " " + y));
    WrapBulletLine(m1, x);
    WrapAfterText(junk, m2, y);
  }

  lemma TwoUntouched(x: string, y: string)
    requires NoChar(x, '<') && NoOrdinalMark(x) && NoChar(y, '<') && NoOrdinalMark(y)
    ensures WrapOrdinals(ListBlock(Unordered, [x, y])) == ListBlock(Unordered, [x, y])
    ensures MergeLists(Ordered, ListBlock(Unordered, [x, y])) == ListBlock(Unordered, [x, y])
  {
    assert forall i :: 0 <= i < |[x, y]| ==> NoChar([x, y][i], '<') && NoOrdinalMark([x, y][i]);
    assert Surrounding([], []);
    BlockUntouched([], [x, y], []);
    Unprefixed(ListBlock(Unordered, [x, y]), []);
    Unsuffixed(ListBlock(Unordered, [x, y]));
  }

  lemma TwoItems(kind: ListKind, x: string, y: string)
    ensures ListBlock(kind, [x, y]) == OpenList(kind) + Item(x) + "\n" + Item(y) + CloseList(kind)
  {
    var items := Items([x, y]);
    assert items[0] == Item(x) && items[1] == Item(y);
    assert items[1..] == [Item(y)];
    assert Join(items[1..]) == Item(y);
  }

  /** The text before the second bullet, `x `, is lost. */
  lemma DeletesExample(s: string)
    requires s == "- a\nx - b"
    ensures Lists(s) == "<ul><li>a</li>\n<li>b</li></ul>"
  {
    DeletesExampleParts(s, "a", "x ", "b");
  }

  lemma DeletesExampleParts(s: string, x: string, junk: string, y: string)
    requires s == "- a\nx - b" && x == "a" && junk == "x " && y == "b"
    ensures Lists(s) == "<ul><li>a</li>\n<li>b</li></ul>"
  {
    assert s == ['-'] + " " + x + "\n" + (junk + (['-'] + " " + y));
    assert NoPair(junk, IsBullet, ' ') && NoOrdinalMark(x) && NoOrdinalMark(y);
    ListsDeletes('-', x, junk, '-', y);
    TwoItems(Unordered, x, y);
    DeletesSpelled(x, y);
  }

  lemma DeletesSpelled(x: string, y: string)
    requires x == "a" && y == "b"
    ensures OpenList(Unordered) + Item(x) + "\n" + Item(y) + CloseList(Unordered) == "<ul><li>a</li>\n<li>b</li></ul>"
  {
  }

  // ---------------------------------------------------------------------
  // Regroupings of list text, kept apart so that proofs about `Sub` do not
  // have to rediscover the associativity of concatenation

  lemma Regroup5(c: string, o: string, i: string, tr: string, post: string)
    ensures c + ("\n" + (o + i + c) + tr) + post == (c + "\n" + o) + (i + (c + (tr + post)))
  {
  }

  lemma Regroup4(c: string, o: string, i: string, later: string)
    ensures c + "\n" + (o + i + c + later) == (c + "\n" + o) + (i + (c + later))
  {
  }

  lemma Regroup3(i: string, tr: string, c: string, post: string)
    ensures "\n" + (i + (tr + c + post)) == "\n" + i + tr + c + post
  {
  }

  lemma RegroupRun(pre: string, o: string, i: string, c: string, tr: string, post: string)
    ensures pre + (o + i + c + tr) + post == (pre + o + i) + (c + tr + post)
  {
  }

  lemma RegroupBlock(pre: string, o: string, i: string, c: string, tr: string, post: string)
    ensures pre + (o + (i + tr) + c) + post == (pre + o + i) + (tr + c + post)
  {
  }

  lemma DeleteRegroup(head: string, c: string, line: string)
    ensures head + c + "\n" + line == head + (c + "\n" + line)
  {
  }

  lemma DeleteResult(head: string, item: string, c: string)
    ensures head + ("\n" + (item + c)) == head + "\n" + item + c
  {
  }
}
