/**
 `headers` of md_to_html.py: six substitution passes, for six hashes down to
 one, each turning a line of that many hashes, blanks and text into an HTML
 heading.
 */
module HeaderPass {
  import opened Text
  import opened Substitute
  import opened Patterns

  /**
   One pass of '(^|\n)(#{level})[ \t]+([^\n]+)' (md_to_html.py:139-141). The
   `^` alternative applies at the start of the text only, since the pattern is
   compiled without MULTILINE; the `\n` alternative at every newline.
   */
  function HeadingPass(level: Level, s: string): (r: string)
    ensures NewlineFree(s) ==> r == PassedAt(level, s)
  {
    OnOneLine(level, s);
    match AnchoredHeading(level, s)
    case Some(x) => if x.len <= |s| then x.out + Sub(Heading(level), s[x.len..]) else Sub(Heading(level), s)
    case None => Sub(Heading(level), s)
  }

  /** The passes for `level` hashes down to one hash, in that order, each made by `pass`. */
  function Passes(pass: (Level, string) -> string, level: nat, s: string): string
    requires level <= 6
  {
    if level == 0 then s else Passes(pass, level - 1, pass(level, s))
  }

  /**
   md_to_html.py:109-142: levels six down to one. On a single line the six
   passes together are the reference conversion, which counts the hashes and
   converts once.
   */
  function Headers(s: string): (r: string)
    ensures NewlineFree(s) ==> r == HeaderLine(s)
  {
    PassesOnOneLine(s);
    Passes(HeadingPass, 6, s)
  }

  // ---------------------------------------------------------------------
  // The reference: one line, converted by counting its hashes

  /**
   A line of one to six hashes, a blank and at least one more character
   becomes a heading of that level. Its text starts after the longest run of
   blanks that still leaves one character; trailing blanks stay.
   */
  function HeaderLine(line: string): string {
    var n := Span(line, IsHash);
    if 1 <= n <= 6 && n + 1 < |line| && IsBlank(line[n]) then
      OpenHeading(n) + line[TextStart(n, line)..] + CloseHeading(n)
    else line
  }

  /** Each line by `HeaderLine`. */
  function HeaderLines(lines: seq<string>): (r: seq<string>)
    ensures |r| == |lines|
    ensures forall i :: 0 <= i < |lines| ==> r[i] == HeaderLine(lines[i])
  {
    if |lines| == 0 then [] else [HeaderLine(lines[0])] + HeaderLines(lines[1..])
  }

  /** The line-level condition under which `HeaderLine` converts. */
  predicate Converts(line: string) {
    var n := Span(line, IsHash);
    1 <= n <= 6 && n + 1 < |line| && IsBlank(line[n])
  }

  // ---------------------------------------------------------------------
  // Each pass works line by line

  /** The anchored pattern looks at the first line only. */
  lemma AnchoredSeesOneLine(level: Level, a: string, b: string)
    ensures AnchoredHeading(level, a + "\n" + b) == AnchoredHeading(level, a)
  {
    FirstLineAfter(a, b);
    AnchoredDependsOnLine(level, a + "\n" + b, a);
  }

  lemma AnchoredDependsOnLine(level: Level, t: string, u: string)
    requires FirstLine(t) == FirstLine(u)
    ensures AnchoredHeading(level, t) == AnchoredHeading(level, u)
  {
  }

  /** Past the first character, the newline alternative looks no further than the first line either. */
  lemma HeadingSeesOneLine(level: Level, a: string, b: string)
    requires |a| > 0
    ensures MatchHeading(level, a + "\n" + b) == MatchHeading(level, a)
  {
    var t := a + "\n" + b;
    assert t[0] == a[0];
    if a[0] == '\n' {
      assert t[1..] == a[1..] + "\n" + b;
      AnchoredSeesOneLine(level, a[1..], b);
      assert AnchoredHeading(level, t[1..]) == AnchoredHeading(level, a[1..]);
    }
  }

  /** A match of the anchored pattern covers the first line. */
  lemma AnchoredLength(level: Level, t: string)
    ensures AnchoredHeading(level, t).Some? ==> AnchoredHeading(level, t).value.len == |FirstLine(t)| <= |t|
  {
    LineCovers(t);
  }

  /** A newline followed by text: the newline alternative, or a copied newline. */
  lemma SubAtNewline(level: Level, b: string)
    ensures Sub(Heading(level), "\n" + b) == "\n" + HeadingPass(level, b)
  {
    var t := "\n" + b;
    assert t[0] == '\n' && t[1..] == b;
    AnchoredLength(level, b);
    var r := AnchoredHeading(level, b);
    if r.Some? {
      var n, out := r.value.len, r.value.out;
      NewlineMatch(level, t, n, out);
      DropNewline(b, n);
      PassAt(level, b, n, out);
      Assoc3("\n", out, Sub(Heading(level), b[n..]));
    } else {
      NewlineCopy(level, t);
    }
  }

  lemma NewlineMatch(level: Level, t: string, n: nat, out: string)
    requires |t| >= 1 && t[0] == '\n' && n <= |t| - 1
    requires AnchoredHeading(level, t[1..]) == Some(Match(n, out))
    ensures Sub(Heading(level), t) == "\n" + out + Sub(Heading(level), t[1 + n..])
  {
    HeadingAt(level, t, n, out);
    SubAt(Heading(level), t, 1 + n, "\n" + out);
  }

  lemma HeadingAt(level: Level, t: string, n: nat, out: string)
    requires |t| >= 1 && t[0] == '\n'
    requires AnchoredHeading(level, t[1..]) == Some(Match(n, out))
    ensures Heading(level)(t) == Some(Match(1 + n, "\n" + out))
  {
  }

  lemma NewlineCopy(level: Level, t: string)
    requires |t| >= 1 && t[0] == '\n'
    requires AnchoredHeading(level, t[1..]).None?
    ensures Sub(Heading(level), t) == "\n" + Sub(Heading(level), t[1..])
  {
    assert MatchHeading(level, t).None?;
    SubCopy(Heading(level), t);
  }

  lemma DropNewline(b: string, n: nat)
    requires n <= |b|
    ensures ("\n" + b)[1 + n..] == b[n..]
  {
  }

  /** The newline-alternative substitution, split at a newline. */
  lemma {:induction false} SubHeadingSplit(level: Level, a: string, b: string)
    ensures Sub(Heading(level), a + "\n" + b) == Sub(Heading(level), a) + "\n" + HeadingPass(level, b)
    decreases |a|
  {
    var t := a + "\n" + b;
    if |a| == 0 {
      assert t == "\n" + b;
      SubAtNewline(level, b);
    } else {
      HeadingSeesOneLine(level, a, b);
      var r := MatchHeading(level, a);
      if r.Some? {
        AnchoredLength(level, a[1..]);
        var n := r.value.len;
        SubAt(Heading(level), t, n, r.value.out);
        SubAt(Heading(level), a, n, r.value.out);
        DropInLine(a, b, n);
        SubHeadingSplit(level, a[n..], b);
        Assoc(r.value.out, Sub(Heading(level), a[n..]), "\n", HeadingPass(level, b));
      } else {
        SubCopy(Heading(level), t);
        SubCopy(Heading(level), a);
        DropInLine(a, b, 1);
        SubHeadingSplit(level, a[1..], b);
        Assoc([a[0]], Sub(Heading(level), a[1..]), "\n", HeadingPass(level, b));
      }
    }
  }

  /** A pass rewrites the text on each side of a newline on its own. */
  lemma HeadingPassSplits(level: Level, a: string, b: string)
    ensures HeadingPass(level, a + "\n" + b) == HeadingPass(level, a) + "\n" + HeadingPass(level, b)
  {
    AnchoredSeesOneLine(level, a, b);
    AnchoredLength(level, a);
    var r := AnchoredHeading(level, a);
    if r.Some? {
      PassSplitsAt(level, a, b, r.value.len, r.value.out);
    } else {
      SubHeadingSplit(level, a, b);
    }
  }

  lemma PassSplitsAt(level: Level, a: string, b: string, n: nat, out: string)
    requires n <= |a|
    requires AnchoredHeading(level, a) == Some(Match(n, out))
    requires AnchoredHeading(level, a + "\n" + b) == Some(Match(n, out))
    ensures HeadingPass(level, a + "\n" + b) == HeadingPass(level, a) + "\n" + HeadingPass(level, b)
  {
    var t := a + "\n" + b;
    PassAt(level, t, n, out);
    PassAt(level, a, n, out);
    DropInLine(a, b, n);
    SubHeadingSplit(level, a[n..], b);
    Assoc(out, Sub(Heading(level), a[n..]), "\n", HeadingPass(level, b));
  }

  lemma PassAt(level: Level, t: string, n: nat, out: string)
    requires n <= |t| && AnchoredHeading(level, t) == Some(Match(n, out))
    ensures HeadingPass(level, t) == out + Sub(Heading(level), t[n..])
  {
  }

  /** Each pass rewrites the text on each side of a newline on its own. */
  ghost predicate SplitsAtNewlines(pass: (Level, string) -> string) {
    forall level: Level, a, b :: pass(level, a + "\n" + b) == pass(level, a) + "\n" + pass(level, b)
  }

  /** Passes that each split at newlines, together, split at newlines. */
  lemma {:induction false} PassesSplit(pass: (Level, string) -> string, level: nat, a: string, b: string)
    requires level <= 6 && SplitsAtNewlines(pass)
    ensures Passes(pass, level, a + "\n" + b) == Passes(pass, level, a) + "\n" + Passes(pass, level, b)
  {
    if level > 0 {
      PassesSplit(pass, level - 1, pass(level, a), pass(level, b));
    }
  }

  /** `headers` converts each line of the text on its own. */
  lemma HeadersSplits(a: string, b: string)
    ensures Headers(a + "\n" + b) == Headers(a) + "\n" + Headers(b)
  {
    forall level: Level, x, y
      ensures HeadingPass(level, x + "\n" + y) == HeadingPass(level, x) + "\n" + HeadingPass(level, y)
    {
      HeadingPassSplits(level, x, y);
    }
    PassesSplit(HeadingPass, 6, a, b);
  }

  // ---------------------------------------------------------------------
  // One line: the passes agree with the reference

  /** On a single line the anchored pattern of a level matches exactly when the line converts at that level. */
  lemma AnchoredLine(level: Level, line: string)
    requires NewlineFree(line)
    ensures AnchoredHeading(level, line).Some? <==> Converts(line) && Span(line, IsHash) == level
    ensures AnchoredHeading(level, line).Some? ==> AnchoredHeading(level, line) == Some(Match(|line|, HeaderLine(line)))
  {
    FirstLineOfLines(line, []);
    if |line| > level && (forall k :: 0 <= k < level ==> line[k] == '#') && IsBlank(line[level]) {
      SpanExact(line, IsHash, level);
      TextStartAfter(level, line);
    }
  }

  /** The newline alternative never matches inside a single line. */
  lemma LineNoMatch(level: Level, line: string)
    requires NewlineFree(line)
    ensures NoMatch(Heading(level), line)
  {
    forall k | 0 <= k < |line|
      ensures MatchHeading(level, line[k..]).None?
    {
      assert line[k..][0] == line[k];
    }
  }

  /**
   On a single line the anchored pattern finds the whole line exactly when it
   converts at this level, and the newline alternative finds nothing.
   */
  lemma OnOneLine(level: Level, line: string)
    ensures NewlineFree(line) ==> Sub(Heading(level), line) == line
    ensures NewlineFree(line) && AnchoredHeading(level, line).Some? ==>
              Converts(line) && Span(line, IsHash) == level && AnchoredHeading(level, line) == Some(Match(|line|, HeaderLine(line)))
    ensures NewlineFree(line) && AnchoredHeading(level, line).None? ==> !(Converts(line) && Span(line, IsHash) == level)
    ensures Sub(Heading(level), line[|line|..]) == [] && HeaderLine(line) + [] == HeaderLine(line)
  {
    assert line[|line|..] == [];
    if NewlineFree(line) {
      AnchoredLine(level, line);
      LineNoMatch(level, line);
      SubIdentity(Heading(level), line);
    }
  }

  /** A converted line starts with `<` and stays on one line, so no later pass touches it. */
  lemma ConvertedLine(line: string)
    requires NewlineFree(line) && Converts(line)
    ensures NewlineFree(HeaderLine(line))
    ensures Span(HeaderLine(line), IsHash) == 0 && !Converts(HeaderLine(line))
  {
    var n := Span(line, IsHash);
    HeadingTag(n, line[TextStart(n, line)..]);
  }

  /** A heading element is one line starting with `<`. */
  lemma HeadingTag(level: Level, text: string)
    requires NewlineFree(text)
    ensures NewlineFree(OpenHeading(level) + text + CloseHeading(level))
    ensures Span(OpenHeading(level) + text + CloseHeading(level), IsHash) == 0
  {
    var h := OpenHeading(level) + text + CloseHeading(level);
    NewlineFreeConcat(OpenHeading(level), text);
    NewlineFreeConcat(OpenHeading(level) + text, CloseHeading(level));
    assert h[0] == '<';
  }

  /** A line after the pass for `level` hashes: converted when its hashes are of that level. */
  function PassedAt(level: nat, line: string): string {
    if Converts(line) && Span(line, IsHash) == level then HeaderLine(line) else line
  }

  /** A line after the passes for `level` hashes down to one: converted when it has at most that many. */
  function PassedDown(level: nat, line: string): string {
    if Converts(line) && Span(line, IsHash) <= level then HeaderLine(line) else line
  }

  /** On a single line a pass converts the line when its hashes are of the pass's level, and otherwise leaves it. */
  ghost predicate ActsOnLines(pass: (Level, string) -> string) {
    forall level: Level, line :: NewlineFree(line) ==> pass(level, line) == PassedAt(level, line)
  }

  /** The passes from `level` hashes down to one, on a single line. */
  lemma {:induction false} LinePasses(pass: (Level, string) -> string, level: nat, line: string)
    requires level <= 6 && ActsOnLines(pass) && NewlineFree(line)
    ensures Passes(pass, level, line) == PassedDown(level, line)
  {
    if level > 0 {
      var p := pass(level, line);
      assert p == PassedAt(level, line);
      StepDown(level, line);
      LinePasses(pass, level - 1, p);
    }
  }

  /** The pass for `level` hashes, then the passes below it, is the passes from `level` down. */
  lemma StepDown(level: Level, line: string)
    requires NewlineFree(line)
    ensures NewlineFree(PassedAt(level, line))
    ensures PassedDown(level - 1, PassedAt(level, line)) == PassedDown(level, line)
  {
    if Converts(line) && Span(line, IsHash) == level {
      ConvertedLine(line);
    }
  }

  /** The six passes on a single line are the reference conversion. */
  lemma PassesOnOneLine(line: string)
    ensures NewlineFree(line) ==> Passes(HeadingPass, 6, line) == HeaderLine(line)
  {
    if NewlineFree(line) {
      assert ActsOnLines(HeadingPass);
      LinePasses(HeadingPass, 6, line);
    }
  }

  /** `headers` converts every line of a document by the reference, independently of the others. */
  lemma {:induction false} HeadersLines(lines: seq<string>)
    requires forall i :: 0 <= i < |lines| ==> NewlineFree(lines[i])
    ensures Headers(Join(lines)) == Join(HeaderLines(lines))
  {
    if |lines| == 0 {
    } else if |lines| == 1 {
    } else {
      HeadersLines(lines[1..]);
      HeadersSplits(lines[0], Join(lines[1..]));
      assert HeaderLines(lines)[1..] == HeaderLines(lines[1..]);
    }
  }

  // ---------------------------------------------------------------------
  // What a line becomes

  /**
   One to six hashes, blanks, and text that starts with no blank: a heading of
   that level holding the text, trailing blanks included.
   */
  lemma HeadingLevels(n: nat, blanks: string, text: string)
    requires 1 <= n <= 6
    requires |blanks| >= 1 && forall k :: 0 <= k < |blanks| ==> IsBlank(blanks[k])
    requires |text| >= 1 && !IsBlank(text[0]) && NewlineFree(text)
    ensures Headers(Repeat('#', n) + blanks + text) == OpenHeading(n) + text + CloseHeading(n)
  {
    var line := Repeat('#', n) + blanks + text;
    assert line[n..] == blanks + text;
    SpanExact(line, IsHash, n);
    SpanExact(line[n..], IsBlank, |blanks|);
    assert line[n + |blanks|..] == text;
  }

  /**
   A line of one to six hashes followed only by blanks: the blank run gives
   back its last blank, which becomes the heading text; a single blank leaves
   nothing for the text and the line stays.
   */
  lemma BlankHeading(n: nat, blanks: string)
    requires 1 <= n <= 6
    requires |blanks| >= 1 && forall k :: 0 <= k < |blanks| ==> IsBlank(blanks[k])
    ensures |blanks| >= 2 ==> Headers(Repeat('#', n) + blanks) == OpenHeading(n) + [blanks[|blanks| - 1]] + CloseHeading(n)
    ensures |blanks| == 1 ==> Headers(Repeat('#', n) + blanks) == Repeat('#', n) + blanks
  {
    var line := Repeat('#', n) + blanks;
    BlankLine(n, blanks);
  }

  /** Hashes then blanks: one line whose hash run is exactly the hashes. */
  lemma HashesThenBlanks(n: nat, blanks: string)
    requires |blanks| >= 1 && forall k :: 0 <= k < |blanks| ==> IsBlank(blanks[k])
    ensures NewlineFree(Repeat('#', n) + blanks)
    ensures Span(Repeat('#', n) + blanks, IsHash) == n
    ensures (Repeat('#', n) + blanks)[n..] == blanks
    ensures IsBlank((Repeat('#', n) + blanks)[n])
  {
    var hashes, line := Repeat('#', n), Repeat('#', n) + blanks;
    forall k | 0 <= k < |line|
      ensures line[k] != '\n'
    {
      if k < n {
        assert line[k] == hashes[k];
      } else {
        assert line[k] == blanks[k - n];
      }
    }
    assert line[n..] == blanks;
    assert line[n] == blanks[0];
    SpanExact(line, IsHash, n);
  }

  /** `BlankHeading` for the reference conversion of the line. */
  lemma BlankLine(n: nat, blanks: string)
    requires 1 <= n <= 6
    requires |blanks| >= 1 && forall k :: 0 <= k < |blanks| ==> IsBlank(blanks[k])
    ensures NewlineFree(Repeat('#', n) + blanks)
    ensures |blanks| >= 2 ==> HeaderLine(Repeat('#', n) + blanks) == OpenHeading(n) + [blanks[|blanks| - 1]] + CloseHeading(n)
    ensures |blanks| == 1 ==> HeaderLine(Repeat('#', n) + blanks) == Repeat('#', n) + blanks
  {
    var line := Repeat('#', n) + blanks;
    HashesThenBlanks(n, blanks);
    if |blanks| >= 2 {
      SpanExact(blanks, IsBlank, |blanks|);
      assert Converts(line);
      assert TextStart(n, line) == |line| - 1;
      assert line[|line| - 1..] == [blanks[|blanks| - 1]];
    }
  }

  /** Seven or more hashes are not a heading. */
  lemma TooManyHashes(n: nat, rest: string)
    requires n >= 7 && NewlineFree(rest)
    ensures Headers(Repeat('#', n) + rest) == Repeat('#', n) + rest
  {
    var line := Repeat('#', n) + rest;
    SpanCovers(line, IsHash, n);
  }

  /** Hashes followed by neither a hash nor a blank are not a heading. */
  lemma HashesNeedBlank(n: nat, c: char, rest: string)
    requires c != '#' && c != '\n' && !IsBlank(c) && NewlineFree(rest)
    ensures Headers(Repeat('#', n) + [c] + rest) == Repeat('#', n) + [c] + rest
  {
    var line := Repeat('#', n) + [c] + rest;
    SpanExact(line, IsHash, n);
  }

  /** Text without a hash comes back unchanged. */
  lemma NoHashUnchanged(s: string)
    ensures NoChar(s, '#') ==> Headers(s) == s
  {
    if NoChar(s, '#') {
      forall level: Level, x | NoChar(x, '#')
        ensures HeadingPass(level, x) == x
      {
        NoHashPass(level, x);
      }
      PassesKeep(HeadingPass, 6, s);
    }
  }

  /** Passes that each leave text without a hash unchanged, together, leave it unchanged. */
  lemma {:induction false} PassesKeep(pass: (Level, string) -> string, level: nat, s: string)
    requires level <= 6 && NoChar(s, '#')
    requires forall l: Level, x :: NoChar(x, '#') ==> pass(l, x) == x
    ensures Passes(pass, level, s) == s
  {
    if level > 0 {
      PassesKeep(pass, level - 1, s);
    }
  }

  lemma NoHashPass(level: Level, s: string)
    requires NoChar(s, '#')
    ensures HeadingPass(level, s) == s
  {
    NoHashAnchored(level, s);
    forall k | 0 <= k < |s|
      ensures MatchHeading(level, s[k..]).None?
    {
      if |s[k..]| > 0 && s[k..][0] == '\n' {
        assert s[k..][1..] == s[k + 1..];
        NoHashAnchored(level, s[k + 1..]);
      }
    }
    SubIdentity(Heading(level), s);
  }

  lemma NoHashAnchored(level: Level, s: string)
    requires NoChar(s, '#')
    ensures AnchoredHeading(level, s).None?
  {
    var line := FirstLine(s);
    if |line| > level {
      assert line[0] == s[0];
    }
  }

  // ---------------------------------------------------------------------
  // The documented examples (md_to_html.py:122-137)
  //
  // Each example receives its input as a parameter fixed by `requires` rather
  // than naming the literal inside `ensures`: the verifier then unfolds the
  // passes over a plain variable, which keeps these proofs cheap.

  /** An example line of `n` hashes, blanks and text. */
  lemma LevelExample(n: nat, blanks: string, text: string, s: string, r: string)
    requires 1 <= n <= 6
    requires |blanks| >= 1 && forall k :: 0 <= k < |blanks| ==> IsBlank(blanks[k])
    requires |text| >= 1 && !IsBlank(text[0]) && NewlineFree(text)
    requires s == Repeat('#', n) + blanks + text
    requires r == OpenHeading(n) + text + CloseHeading(n)
    ensures Headers(s) == r
  {
    HeadingLevels(n, blanks, text);
  }

  lemma HashOnlyExample(s: string)
    requires s == "#hello"
    ensures Headers(s) == "#hello"
  {
    assert s == Repeat('#', 1) + ['h'] + "ello";
    HashesNeedBlank(1, 'h', "ello");
  }

  lemma H1Example(s: string)
    requires s == "# hello"
    ensures Headers(s) == "<h1>hello</h1>"
  {
    LevelExample(1, " ", "hello", s, "<h1>hello</h1>");
  }

  lemma H2Example(s: string)
    requires s == "## hello"
    ensures Headers(s) == "<h2>hello</h2>"
  {
    LevelExample(2, " ", "hello", s, "<h2>hello</h2>");
  }

  lemma H3Example(s: string)
    requires s == "###  \t hello"
    ensures Headers(s) == "<h3>hello</h3>"
  {
    LevelExample(3, "  \t ", "hello", s, "<h3>hello</h3>");
  }

  lemma H4Example(s: string)
    requires s == "####\thello"
    ensures Headers(s) == "<h4>hello</h4>"
  {
    LevelExample(4, "\t", "hello", s, "<h4>hello</h4>");
  }

  lemma H5Example(s: string)
    requires s == "#####\t   hello"
    ensures Headers(s) == "<h5>hello</h5>"
  {
    LevelExample(5, "\t   ", "hello", s, "<h5>hello</h5>");
  }

  lemma H6Example(s: string)
    requires s == "######    hello"
    ensures Headers(s) == "<h6>hello</h6>"
  {
    LevelExample(6, "    ", "hello", s, "<h6>hello</h6>");
  }

  lemma SevenHashesExample(s: string)
    requires s == "#######\t hello"
    ensures Headers(s) == "#######\t hello"
  {
    assert s == Repeat('#', 7) + "\t hello";
    TooManyHashes(7, "\t hello");
  }
}
