/**
 `re.sub` over one compiled pattern, given as a matcher: scan left to right,
 and at each position either replace the match found there and resume after
 it, or copy one character and move on. None of the patterns of
 md_to_html.py matches the empty string, so this is Python's leftmost,
 non-overlapping substitution.
 */
module Substitute {
  import opened Text

  /** A match at the scan position: its length and the expanded replacement. */
  datatype Match = Match(len: nat, out: string)

  /** Tries one pattern at the start of the remaining text. */
  type Matcher = string -> Option<Match>

  /** Every match is non-empty and lies within the text it was tried on. */
  ghost predicate Consumes(m: Matcher) {
    forall t :: m(t).Some? ==> 1 <= m(t).value.len <= |t|
  }

  /** The matcher looks no further than the first newline. */
  ghost predicate SeesOneLine(m: Matcher) {
    forall a, b :: m(a + "\n" + b) == m(a)
  }

  /**
   A reported match that is empty or runs past the text is treated as no
   match; `Consumes` holds of every matcher of md_to_html.py, so for them this
   guard never fires.
   */
  function Sub(m: Matcher, s: string): (r: string)
    ensures Unmatched(m, s) ==> r == s
    decreases |s|
  {
    if |s| == 0 then []
    else
      match m(s)
      case Some(x) =>
        if 1 <= x.len <= |s| then x.out + Sub(m, s[x.len..])
        else [s[0]] + Sub(m, s[1..])
      case None => [s[0]] + Sub(m, s[1..])
  }

  /** The pattern matches at no position of `s`. */
  ghost predicate NoMatch(m: Matcher, s: string) {
    forall k :: 0 <= k < |s| ==> m(s[k..]).None?
  }

  /** The pattern matches at no position of `s`, position by position from the start. */
  ghost predicate Unmatched(m: Matcher, s: string)
    decreases |s|
  {
    |s| == 0 || (m(s).None? && Unmatched(m, s[1..]))
  }

  /** The two readings of "matches nowhere" agree. */
  lemma {:induction false} UnmatchedNowhere(m: Matcher, s: string)
    ensures Unmatched(m, s) <==> NoMatch(m, s)
  {
    if |s| > 0 {
      assert s[0..] == s;
      forall k | 0 <= k < |s| - 1
        ensures s[1..][k..] == s[k + 1..]
      {
      }
      UnmatchedNowhere(m, s[1..]);
      if NoMatch(m, s[1..]) && m(s).None? {
        forall k | 0 <= k < |s|
          ensures m(s[k..]).None?
        {
          if k > 0 {
            assert s[k..] == s[1..][k - 1..];
          }
        }
      }
    }
  }

  /** Text in which the pattern matches nowhere comes back unchanged. */
  lemma SubIdentity(m: Matcher, s: string)
    requires NoMatch(m, s)
    ensures Sub(m, s) == s
  {
    UnmatchedNowhere(m, s);
  }

  /** A prefix at none of whose positions the pattern matches is copied through. */
  lemma {:induction false} SubSkip(m: Matcher, a: string, b: string)
    requires forall k :: 0 <= k < |a| ==> m(a[k..] + b).None?
    ensures Sub(m, a + b) == a + Sub(m, b)
  {
    if |a| > 0 {
      assert a[0..] + b == a + b;
      assert (a + b)[1..] == a[1..] + b;
      forall k | 0 <= k < |a| - 1
        ensures m(a[1..][k..] + b).None?
      {
        assert a[1..][k..] == a[k + 1..];
      }
      SubSkip(m, a[1..], b);
    } else {
      assert a + b == b;
    }
  }

  /**
   When every replacement starts with a character the matched text does not
   start with, a single match anywhere changes the text: the output differs
   from the input at the leftmost match.
   */
  lemma SubChanges(m: Matcher, s: string, k0: nat)
    requires Consumes(m)
    requires forall t :: m(t).Some? ==> |m(t).value.out| > 0 && m(t).value.out[0] != t[0]
    requires k0 < |s| && m(s[k0..]).Some?
    ensures Sub(m, s) != s
  {
    var k := FirstMatch(m, s, k0);
    var x := m(s[k..]).value;
    SkipToFirst(m, s, k);
    SubAt(m, s[k..], x.len, x.out);
    assert s[k..][0] == s[k];
    DiffersAt(s, k, x.out + Sub(m, s[k..][x.len..]));
  }

  /** The text before the leftmost match is copied through. */
  lemma SkipToFirst(m: Matcher, s: string, k: nat)
    requires k <= |s|
    requires forall j :: 0 <= j < k ==> m(s[j..]).None?
    ensures Sub(m, s) == s[..k] + Sub(m, s[k..])
  {
    forall j | 0 <= j < k
      ensures m(s[..k][j..] + s[k..]).None?
    {
      Resplit(s, j, k);
    }
    SubSkip(m, s[..k], s[k..]);
    Resplit(s, 0, k);
  }

  lemma Resplit(s: string, j: nat, k: nat)
    requires j <= k <= |s|
    ensures s[..k][j..] + s[k..] == s[j..]
  {
  }

  lemma DiffersAt(s: string, k: nat, y: string)
    requires k < |s| && |y| > 0 && y[0] != s[k]
    ensures s[..k] + y != s
  {
    assert (s[..k] + y)[k] == y[0];
  }

  /** The leftmost position at which the pattern matches, given one at which it does. */
  lemma FirstMatch(m: Matcher, s: string, k0: nat) returns (k: nat)
    requires k0 < |s| && m(s[k0..]).Some?
    ensures k <= k0 && m(s[k..]).Some?
    ensures forall j :: 0 <= j < k ==> m(s[j..]).None?
  {
    k := 0;
    while k < k0 && m(s[k..]).None?
      invariant k <= k0
      invariant forall j :: 0 <= j < k ==> m(s[j..]).None?
    {
      k := k + 1;
    }
  }

  /** A match at the start is replaced and scanning resumes right after it. */
  lemma SubAtMatch(m: Matcher, a: string, b: string, out: string)
    requires 1 <= |a|
    requires m(a + b) == Some(Match(|a|, out))
    ensures Sub(m, a + b) == out + Sub(m, b)
  {
    assert (a + b)[|a|..] == b;
  }

  /**
   The matches of a pattern that sees one line never cross a newline:
   substituting in two pieces of text joined by a newline is substituting in
   each.
   */
  lemma {:induction false} SubSplitsAtNewline(m: Matcher, a: string, b: string)
    requires Consumes(m) && SeesOneLine(m)
    ensures Sub(m, a + "\n" + b) == Sub(m, a) + "\n" + Sub(m, b)
    decreases |a|
  {
    assert m(a + "\n" + b) == m(a);
    if |a| == 0 {
      assert a == [];
      SplitAtEmpty(m, b);
    } else {
      match m(a)
      case Some(x) =>
        SubSplitsAtNewline(m, a[x.len..], b);
        SplitAfterMatch(m, a, b, x.len, x.out);
      case None =>
        SubSplitsAtNewline(m, a[1..], b);
        SplitAfterCopy(m, a, b);
    }
  }

  lemma SplitAtEmpty(m: Matcher, b: string)
    requires Consumes(m) && SeesOneLine(m)
    ensures Sub(m, [] + "\n" + b) == Sub(m, []) + "\n" + Sub(m, b)
  {
    var t := [] + "\n" + b;
    assert m(t) == m([]);
    assert t[1..] == b;
    SubCopy(m, t);
  }

  lemma SplitAfterMatch(m: Matcher, a: string, b: string, n: nat, out: string)
    requires 1 <= n <= |a|
    requires m(a + "\n" + b) == Some(Match(n, out)) && m(a) == Some(Match(n, out))
    requires Sub(m, a[n..] + "\n" + b) == Sub(m, a[n..]) + "\n" + Sub(m, b)
    ensures Sub(m, a + "\n" + b) == Sub(m, a) + "\n" + Sub(m, b)
  {
    var t := a + "\n" + b;
    assert t[n..] == a[n..] + "\n" + b;
    SubAt(m, t, n, out);
    SubAt(m, a, n, out);
    Assoc(out, Sub(m, a[n..]), "\n", Sub(m, b));
  }

  lemma SplitAfterCopy(m: Matcher, a: string, b: string)
    requires |a| >= 1
    requires m(a + "\n" + b).None? && m(a).None?
    requires Sub(m, a[1..] + "\n" + b) == Sub(m, a[1..]) + "\n" + Sub(m, b)
    ensures Sub(m, a + "\n" + b) == Sub(m, a) + "\n" + Sub(m, b)
  {
    var t := a + "\n" + b;
    assert t[0] == a[0];
    assert t[1..] == a[1..] + "\n" + b;
    SubCopy(m, t);
    SubCopy(m, a);
    Assoc([a[0]], Sub(m, a[1..]), "\n", Sub(m, b));
  }

  /**
   When every replacement is longer than the text it replaces, the result is
   never shorter, and it has the same length only if nothing matched.
   */
  lemma {:induction false} SubGrows(m: Matcher, s: string)
    requires Consumes(m)
    requires forall t :: m(t).Some? ==> |m(t).value.out| > m(t).value.len
    ensures |Sub(m, s)| >= |s|
    ensures |Sub(m, s)| == |s| ==> NoMatch(m, s)
    decreases |s|
  {
    if |s| > 0 {
      match m(s)
      case Some(x) =>
        SubGrows(m, s[x.len..]);
      case None =>
        SubGrows(m, s[1..]);
        if |Sub(m, s)| == |s| {
          forall k | 0 <= k < |s|
            ensures m(s[k..]).None?
          {
            if k > 0 {
              assert s[1..][k - 1..] == s[k..];
            }
          }
        }
    }
  }

  /**
   Text with exactly one match: nothing matches before it, the match covers
   `span`, and nothing matches after it.
   */
  lemma SubOneMatch(m: Matcher, pre: string, span: string, post: string, out: string)
    requires 1 <= |span|
    requires forall k :: 0 <= k < |pre| ==> m(pre[k..] + (span + post)).None?
    requires m(span + post) == Some(Match(|span|, out))
    requires NoMatch(m, post)
    ensures Sub(m, pre + span + post) == pre + out + post
  {
    SubSkip(m, pre, span + post);
    SubAtMatch(m, span, post, out);
    SubIdentity(m, post);
    assert pre + span + post == pre + (span + post);
  }

  /**
   A pattern that sees one line and matches nowhere in the whole lines before
   and after `mid` rewrites `mid` alone.
   */
  lemma SubInContext(m: Matcher, pre: string, mid: string, post: string)
    requires Consumes(m) && SeesOneLine(m)
    requires pre == [] || pre[|pre| - 1] == '\n'
    requires post == [] || post[0] == '\n'
    requires NoMatch(m, pre) && NoMatch(m, post)
    ensures Sub(m, pre + mid + post) == pre + Sub(m, mid) + post
  {
    SubBeforeLines(m, mid, post);
    if pre == [] {
      Unprefixed(mid, post);
      Unprefixed(Sub(m, mid), post);
    } else {
      var p0 := pre[..|pre| - 1];
      LineBeforeNoMatch(m, pre);
      SubAfterLine(m, p0, mid + post);
      Regroup(pre, mid, post);
      Regroup(pre, Sub(m, mid), post);
    }
  }

  /** Text ending in a newline without a match leaves no match in the line before that newline. */
  lemma LineBeforeNoMatch(m: Matcher, pre: string)
    requires SeesOneLine(m)
    requires |pre| > 0 && pre[|pre| - 1] == '\n' && NoMatch(m, pre)
    ensures NoMatch(m, pre[..|pre| - 1])
  {
    var p0 := pre[..|pre| - 1];
    forall k | 0 <= k < |p0|
      ensures m(p0[k..]).None?
    {
      assert pre[k..] == p0[k..] + "\n" + [];
      assert m(p0[k..] + "\n" + []) == m(p0[k..]);
    }
  }

  /** A line without a match is copied, and substitution continues after its newline. */
  lemma SubAfterLine(m: Matcher, line: string, rest: string)
    requires Consumes(m) && SeesOneLine(m)
    requires NoMatch(m, line)
    ensures Sub(m, line + "\n" + rest) == line + "\n" + Sub(m, rest)
  {
    SubIdentity(m, line);
    SubSplitsAtNewline(m, line, rest);
  }

  /** A line without a match after a newline is copied. */
  lemma SubBeforeLine(m: Matcher, mid: string, line: string)
    requires Consumes(m) && SeesOneLine(m)
    requires NoMatch(m, line)
    ensures Sub(m, mid + "\n" + line) == Sub(m, mid) + "\n" + line
  {
    SubIdentity(m, line);
    SubSplitsAtNewline(m, mid, line);
  }

  lemma SubBeforeLines(m: Matcher, mid: string, post: string)
    requires Consumes(m) && SeesOneLine(m)
    requires post == [] || post[0] == '\n'
    requires NoMatch(m, post)
    ensures Sub(m, mid + post) == Sub(m, mid) + post
  {
    if post == [] {
      Unsuffixed(mid);
      Unsuffixed(Sub(m, mid));
    } else {
      LineAfterNoMatch(m, post);
      SubBeforeLine(m, mid, post[1..]);
      Unnewlined(mid, post);
      Unnewlined(Sub(m, mid), post);
    }
  }

  /** Text starting with a newline without a match leaves no match after that newline. */
  lemma LineAfterNoMatch(m: Matcher, post: string)
    requires |post| > 0 && NoMatch(m, post)
    ensures NoMatch(m, post[1..])
  {
    forall k | 0 <= k < |post| - 1
      ensures m(post[1..][k..]).None?
    {
      assert post[1..][k..] == post[k + 1..];
    }
  }

  /** One step of the scan: a match at the start. */
  lemma SubAt(m: Matcher, t: string, n: nat, out: string)
    requires 1 <= n <= |t| && m(t) == Some(Match(n, out))
    ensures Sub(m, t) == out + Sub(m, t[n..])
  {
  }

  /** One step of the scan: no match at the start. */
  lemma SubCopy(m: Matcher, t: string)
    requires |t| > 0 && m(t).None?
    ensures Sub(m, t) == [t[0]] + Sub(m, t[1..])
  {
  }
}
