/**
 Character classes and small string utilities shared by the rewriters of
 md_to_html.py. Strings are `seq<char>`; every index is a code point.
 */
module Text {

  /** Python's `\s` on str patterns: the characters for which `str.isspace` holds. */
  predicate IsSpace(c: char) {
    || c == ' '
    || ('\t' <= c <= '\r')
    || ('\U{1C}' <= c <= '\U{1F}')
    || c == '\U{85}' || c == '\U{A0}' || c == '\U{1680}'
    || ('\U{2000}' <= c <= '\U{200A}')
    || c == '\U{2028}' || c == '\U{2029}' || c == '\U{202F}' || c == '\U{205F}'
    || c == '\U{3000}'
  }

  /** The class `[ \t]`. */
  predicate IsBlank(c: char) {
    c == ' ' || c == '\t'
  }

  /** The class `\d`, restricted to ASCII digits. */
  predicate IsDigit(c: char) {
    '0' <= c <= '9'
  }

  /** The class `[^\n]`, which is also what `.` matches without DOTALL. */
  predicate NotNewline(c: char) {
    c != '\n'
  }

  predicate IsHash(c: char) {
    c == '#'
  }

  /** The marker characters of an unordered list item, `(-|\+|\*)`. */
  predicate IsBullet(c: char) {
    c == '-' || c == '+' || c == '*'
  }

  predicate IsDot(c: char) {
    c == '.'
  }

  predicate NewlineFree(s: string) {
    forall k :: 0 <= k < |s| ==> s[k] != '\n'
  }

  predicate NoChar(s: string, c: char) {
    forall k :: 0 <= k < |s| ==> s[k] != c
  }

  /** `w` occurs in `t` starting at index `j`. */
  predicate OccursAt(t: string, w: string, j: int) {
    0 <= j && j + |w| <= |t| && t[j..j + |w|] == w
  }

  /** No character of class `first` is immediately followed by `second`. */
  predicate NoPair(s: string, first: char -> bool, second: char) {
    forall k :: 0 <= k < |s| - 1 ==> !(first(s[k]) && s[k + 1] == second)
  }

  /** Length of the longest prefix of `t` whose characters all satisfy `P`. */
  function Span(t: string, P: char -> bool): (n: nat)
    ensures n <= |t|
    ensures forall k :: 0 <= k < n ==> P(t[k])
    ensures n < |t| ==> !P(t[n])
  {
    if |t| == 0 || !P(t[0]) then 0 else 1 + Span(t[1..], P)
  }

  /** Length of the longest suffix of `t` whose characters all satisfy `P`. */
  function TrailingSpan(t: string, P: char -> bool): (n: nat)
    ensures n <= |t|
    ensures forall k :: |t| - n <= k < |t| ==> P(t[k])
    ensures n < |t| ==> !P(t[|t| - 1 - n])
  {
    if |t| == 0 || !P(t[|t| - 1]) then 0 else 1 + TrailingSpan(t[..|t| - 1], P)
  }

  /** Index of the first newline of `t`, or `|t|` if there is none. */
  function LineEnd(t: string): (e: nat)
    ensures e <= |t| && NewlineFree(t[..e])
    ensures e < |t| ==> t[e] == '\n'
  {
    Span(t, NotNewline)
  }

  /** The text of `t` up to, not including, its first newline. */
  function FirstLine(t: string): (line: string)
    ensures NewlineFree(line)
    ensures line <= t
    ensures |line| < |t| ==> t[|line|] == '\n'
  {
    t[..LineEnd(t)]
  }

  /**
   The largest `j` with `lo <= j` such that `w` occurs at `j` and ends by `hi`:
   where a greedy quantifier followed by the literal `w` settles after backtracking.
   */
  function LastOccurrence(t: string, w: string, lo: nat, hi: nat): (r: Option<nat>)
    requires hi <= |t|
    decreases hi
    ensures r.Some? ==> lo <= r.value && r.value + |w| <= hi && OccursAt(t, w, r.value)
    ensures r.Some? ==> forall j :: r.value < j && j + |w| <= hi ==> !OccursAt(t, w, j)
    ensures r.None? ==> forall j :: lo <= j && j + |w| <= hi ==> !OccursAt(t, w, j)
  {
    if hi < lo + |w| then None
    else if t[hi - |w|..hi] == w then Some(hi - |w|)
    else
      assert !OccursAt(t, w, hi - |w|);
      LastOccurrence(t, w, lo, hi - 1)
  }

  datatype Option<T> = None | Some(value: T)

  /** `n` copies of `c`. */
  function Repeat(c: char, n: nat): (s: string)
    ensures |s| == n
    ensures forall k :: 0 <= k < n ==> s[k] == c
  {
    if n == 0 then [] else [c] + Repeat(c, n - 1)
  }

  /** The lines of a document joined by single newlines. */
  function Join(lines: seq<string>): string {
    if |lines| == 0 then []
    else if |lines| == 1 then lines[0]
    else lines[0] + "\n" + Join(lines[1..])
  }

  /** Two or more lines: the first, a newline, and the rest joined. */
  lemma JoinCons(lines: seq<string>)
    requires |lines| >= 2
    ensures Join(lines) == lines[0] + "\n" + Join(lines[1..])
  {
  }

  /** Number of newlines in `s`. */
  function Newlines(s: string): (n: nat)
    ensures n <= |s|
    ensures n == 0 <==> NewlineFree(s)
  {
    if |s| == 0 then 0
    else (if s[0] == '\n' then 1 else 0) + Newlines(s[1..])
  }

  lemma NewlinesAppend(a: string, b: string)
    ensures Newlines(a + b) == Newlines(a) + Newlines(b)
  {
    if |a| > 0 {
      assert (a + b)[1..] == a[1..] + b;
      NewlinesAppend(a[1..], b);
    } else {
      assert a + b == b;
    }
  }

  /** The first line of a document does not look past its first newline. */
  lemma FirstLineOfLines(a: string, b: string)
    requires NewlineFree(a)
    ensures FirstLine(a + "\n" + b) == a
    ensures FirstLine(a) == a
  {
    var t := a + "\n" + b;
    assert forall k :: 0 <= k < |a| ==> t[k] == a[k];
    SpanExact(t, NotNewline, |a|);
    SpanExact(a, NotNewline, |a|);
  }

  /** Any prefix whose characters all satisfy `P` lies within the span. */
  lemma SpanCovers(t: string, P: char -> bool, n: nat)
    requires n <= |t|
    requires forall k :: 0 <= k < n ==> P(t[k])
    ensures n <= Span(t, P)
  {
  }

  /** `Span` is the unique length whose prefix satisfies `P` and is not extended by the next character. */
  lemma {:induction false} SpanExact(t: string, P: char -> bool, n: nat)
    requires n <= |t|
    requires forall k :: 0 <= k < n ==> P(t[k])
    requires n < |t| ==> !P(t[n])
    ensures Span(t, P) == n
  {
    if n > 0 {
      assert P(t[0]);
      SpanExact(t[1..], P, n - 1);
    }
  }

  /** Appending a newline and more text does not change the first line. */
  lemma FirstLineAfter(a: string, b: string)
    ensures FirstLine(a + "\n" + b) == FirstLine(a)
  {
    var line := FirstLine(a);
    if |line| < |a| {
      assert a == line + "\n" + a[|line| + 1..];
      FirstLineOfLines(line, a[|line| + 1..] + "\n" + b);
      FirstLineOfLines(line, a[|line| + 1..]);
      assert a + "\n" + b == line + "\n" + (a[|line| + 1..] + "\n" + b);
    } else {
      assert line == a;
      FirstLineOfLines(a, b);
    }
  }

  /** An occurrence in a suffix is an occurrence in the whole text, shifted. */
  lemma OccursInSuffix(s: string, w: string, k: nat, j: nat)
    requires k <= |s|
    ensures OccursAt(s[k..], w, j) <==> OccursAt(s, w, k + j)
  {
    if k + j + |w| <= |s| {
      assert s[k..][j..j + |w|] == s[k + j..k + j + |w|];
    }
  }

  lemma NewlineFreeConcat(a: string, b: string)
    ensures NewlineFree(a + b) <==> NewlineFree(a) && NewlineFree(b)
  {
    if NewlineFree(a) && NewlineFree(b) {
      forall k | 0 <= k < |a + b|
        ensures (a + b)[k] != '\n'
      {
        if k >= |a| {
          assert (a + b)[k] == b[k - |a|];
        }
      }
    }
    if NewlineFree(a + b) {
      forall k | 0 <= k < |b|
        ensures b[k] != '\n'
      {
        assert (a + b)[|a| + k] == b[k];
      }
      forall k | 0 <= k < |a|
        ensures a[k] != '\n'
      {
        assert (a + b)[k] == a[k];
      }
    }
  }

  /** Regrouping a five-part concatenation around its middle three parts. */
  lemma Associate(a: string, b: string, c: string, d: string, e: string)
    ensures a + b + c + d + e == a + (b + c + d) + e
  {
  }

  /** Empty text on both sides of a three-part concatenation changes nothing. */
  lemma Unpadded(b: string, c: string, d: string)
    ensures [] + b + c + d + [] == b + c + d
  {
  }

  /** `w` occurs nowhere in `s`. */
  ghost predicate Absent(s: string, w: string) {
    forall j :: !OccursAt(s, w, j)
  }

  /**
   A tag such as `</ul>`: it opens with `<`, closes with `>`, and neither
   character appears in between.
   */
  predicate TagLike(w: string) {
    && |w| >= 2 && w[0] == '<' && w[|w| - 1] == '>'
    && forall k :: 0 < k < |w| - 1 ==> w[k] != '<' && w[k] != '>'
  }

  /**
   No occurrence of a tag starts in `a` and runs into `b` when `a` ends in `>`
   or in a character the tag does not hold.
   */
  lemma NoCrossing(a: string, b: string, w: string, j: int)
    requires TagLike(w) && 0 <= j < |a| < j + |w|
    requires a[|a| - 1] == '>' || a[|a| - 1] !in w
    ensures !OccursAt(a + b, w, j)
  {
    if j + |w| <= |a + b| {
      assert (a + b)[j..j + |w|][|a| - 1 - j] == a[|a| - 1];
    }
  }

  /** The same, when `b` starts with `<` or with a character the tag does not hold. */
  lemma NoCrossingInto(a: string, b: string, w: string, j: int)
    requires TagLike(w) && 0 <= j < |a| < j + |w|
    requires |b| > 0 && (b[0] == '<' || b[0] !in w)
    ensures !OccursAt(a + b, w, j)
  {
    if j + |w| <= |a + b| {
      assert (a + b)[j..j + |w|][|a| - j] == b[0];
    }
  }

  /** An occurrence in `a + b` that does not straddle the boundary is one in `a` or in `b`. */
  lemma OccursInParts(a: string, b: string, w: string, j: int)
    ensures 0 <= j && j + |w| <= |a| ==> (OccursAt(a + b, w, j) <==> OccursAt(a, w, j))
    ensures |a| <= j ==> (OccursAt(a + b, w, j) <==> OccursAt(b, w, j - |a|))
  {
    if 0 <= j && j + |w| <= |a| {
      assert (a + b)[j..j + |w|] == a[j..j + |w|];
    }
    if |a| <= j && j + |w| <= |a + b| {
      assert (a + b)[j..j + |w|] == b[j - |a|..j - |a| + |w|];
    }
  }

  /** A tag absent from both parts is absent from their concatenation if it cannot straddle them. */
  lemma AbsentConcat(a: string, b: string, w: string)
    requires TagLike(w) && Absent(a, w) && Absent(b, w)
    requires |a| == 0 || |b| == 0 || a[|a| - 1] == '>' || a[|a| - 1] !in w || b[0] == '<' || b[0] !in w
    ensures Absent(a + b, w)
  {
    forall j
      ensures !OccursAt(a + b, w, j)
    {
      if 0 <= j < |a| < j + |w| && |b| > 0 {
        if a[|a| - 1] == '>' || a[|a| - 1] !in w {
          NoCrossing(a, b, w, j);
        } else {
          NoCrossingInto(a, b, w, j);
        }
      } else {
        OccursInParts(a, b, w, j);
      }
    }
  }

  /** A tag starts with `<`, so text without `<` holds none. */
  lemma AbsentWithoutOpen(s: string, w: string)
    requires |w| >= 1 && w[0] == '<' && NoChar(s, '<')
    ensures Absent(s, w)
  {
    forall j
      ensures !OccursAt(s, w, j)
    {
      if 0 <= j && j + |w| <= |s| {
        assert s[j..j + |w|][0] == s[j];
      }
    }
  }

  /** A pair absent from both parts is absent from their concatenation if it does not straddle them. */
  lemma NoPairConcat(a: string, b: string, first: char -> bool, second: char)
    requires NoPair(a, first, second) && NoPair(b, first, second)
    requires |a| == 0 || |b| == 0 || !first(a[|a| - 1]) || b[0] != second
    ensures NoPair(a + b, first, second)
  {
    forall k | 0 <= k < |a + b| - 1
      ensures !(first((a + b)[k]) && (a + b)[k + 1] == second)
    {
      if k < |a| - 1 {
        assert (a + b)[k] == a[k] && (a + b)[k + 1] == a[k + 1];
      } else if k == |a| - 1 {
        assert (a + b)[k] == a[k] && (a + b)[k + 1] == b[0];
      } else {
        assert (a + b)[k] == b[k - |a|] && (a + b)[k + 1] == b[k + 1 - |a|];
      }
    }
  }

  lemma NoCharConcat(a: string, b: string, c: char)
    ensures NoChar(a + b, c) <==> NoChar(a, c) && NoChar(b, c)
  {
    if NoChar(a + b, c) {
      assert forall k :: 0 <= k < |a| ==> a[k] == (a + b)[k];
      assert forall k :: 0 <= k < |b| ==> b[k] == (a + b)[|a| + k];
    }
  }

  /** An occurrence with none after it, up to `hi`, is the last occurrence. */
  lemma LastOccurrenceIs(t: string, w: string, lo: nat, hi: nat, j: nat)
    requires hi <= |t| && lo <= j && j + |w| <= hi && OccursAt(t, w, j)
    requires forall i :: j < i && i + |w| <= hi ==> !OccursAt(t, w, i)
    ensures LastOccurrence(t, w, lo, hi) == Some(j)
  {
  }

  /** One differing character rules an occurrence out. */
  lemma Mismatch(t: string, w: string, j: int, i: int)
    requires 0 <= i < |w| && (0 <= j && j + |w| <= |t| ==> t[j + i] != w[i])
    ensures !OccursAt(t, w, j)
  {
    if 0 <= j && j + |w| <= |t| {
      assert t[j..j + |w|][i] == t[j + i];
    }
  }

  /** A line followed by nothing or by a newline is the first line. */
  lemma FirstLineBefore(line: string, rest: string)
    requires NewlineFree(line) && (rest == [] || rest[0] == '\n')
    ensures FirstLine(line + rest) == line
  {
    if rest == [] {
      FirstLineOfLines(line, []);
      assert line + rest == line;
    } else {
      FirstLineOfLines(line, rest[1..]);
      assert line + rest == line + "\n" + rest[1..];
    }
  }

  /** Each line preceded by a newline: what follows the first line in `Join`. */
  function Trail(lines: seq<string>): (r: string)
    ensures r == [] <==> |lines| == 0
    ensures r != [] ==> r[0] == '\n'
  {
    if |lines| == 0 then [] else "\n" + lines[0] + Trail(lines[1..])
  }

  lemma {:induction false} JoinTrail(lines: seq<string>)
    requires |lines| >= 1
    ensures Join(lines) == lines[0] + Trail(lines[1..])
  {
    if |lines| >= 2 {
      JoinTrail(lines[1..]);
      assert lines[1..][1..] == lines[2..];
    }
  }

  /** Dropping a prefix of the first of two lines. */
  lemma DropInLine(a: string, b: string, n: nat)
    requires n <= |a|
    ensures (a + "\n" + b)[n..] == a[n..] + "\n" + b
  {
  }

  // Regroupings of concatenations, each stated once for plain strings

  lemma Assoc(a: string, b: string, c: string, d: string)
    ensures a + (b + c + d) == a + b + c + d
  {
  }

  lemma Assoc3(a: string, b: string, c: string)
    ensures a + b + c == a + (b + c)
  {
  }

  lemma Unprefixed(a: string, b: string)
    ensures [] + a + b == a + b
  {
  }

  lemma Unsuffixed(s: string)
    ensures s + [] == s
  {
  }

  /** `pre` ends in a newline: the text is the line before it, the newline, and the rest. */
  lemma Regroup(pre: string, mid: string, post: string)
    requires |pre| > 0 && pre[|pre| - 1] == '\n'
    ensures pre + mid + post == pre[..|pre| - 1] + "\n" + (mid + post)
  {
    assert pre == pre[..|pre| - 1] + "\n";
  }

  lemma Unnewlined(mid: string, post: string)
    requires |post| > 0 && post[0] == '\n'
    ensures mid + post == mid + "\n" + post[1..]
  {
    assert post == "\n" + post[1..];
  }
}
