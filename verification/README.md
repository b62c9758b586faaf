# md_to_html in Dafny

A model of `md_to_html.py`, a small Markdown-to-HTML converter built from
regular-expression substitutions. `html` runs five stages in a fixed order:

1. `headers` turns `#` … `######` lines into `<h1>` … `<h6>` elements.
2. `bold` turns `**x**` into `<strong>x</strong>`.
3. `italics` turns `*x*` into `<em>x</em>`.
4. `lists` wraps bullet and numbered lines in `<ul>`/`<ol>` lists and merges
   adjacent ones.
5. `paragraphs` turns blank-line separators into `</p>\n<p>` and wraps the
   whole text in `<p>` … `</p>`.

The result is then put between `<article>` and `</article>`.

Every `re.sub` call of the program is modelled by one generic scanner,
`Substitute.Sub`. It scans left to right; at each position it either
replaces the match found there and resumes after it, or copies one
character. Python's `re.sub` behaves this way for patterns that never match
the empty string, and no pattern of this program does.

Each regular expression has its own matcher in `Patterns`. A matcher's
contract states the shape of the matched prefix and that no longer prefix
has that shape. That is the match Python's backtracking settles on here.
In every pattern but the header pattern, only one greedy quantifier has a
choice, and it takes the longest extent that lets the rest match. Any other
quantifier is forced: in `(\d+\.) (.*)` the digit run `\d+` must end at the
dot that follows it. The header pattern has two free quantifiers. Its blank
run `[ \t]+` comes first and takes the longest extent that leaves `[^\n]+`
at least one character.

The passes themselves sit in one module each:

- `HeaderPass` for `headers`
- `EmphasisPass` for `bold` and `italics`
- `ListPass` for `lists`
- `ParagraphPass` for `paragraphs`
- `Converter` for `html`

`Text` holds the character classes and string helpers.

The model follows what the code does, including these consequences of its
patterns:

- **Header text keeps trailing blanks.** The text group `[^\n]+` runs to the
  end of the line, so blanks after the text stay inside the heading.
- **A header's blank run can give back a character.** The text `[^\n]+`
  needs at least one character. So when only blanks follow the hashes, the
  run `[ \t]+` gives back its last blank, and that blank becomes the text:
  `#  ` becomes `<h1> </h1>`. A single blank leaves the line unchanged.
- **`^` matches only at the start of the whole text.** The header pattern is
  compiled without MULTILINE. Headers on later lines are found through the
  `\n` alternative instead.
- **A separator is any `\s` whitespace.** In `\n\s*\n`, `\s` admits any
  character that Python's `str.isspace` accepts, newlines included. So a
  separator runs through every whitespace-only line, and blanks that end a
  paragraph stay in it: `a \n\nb` becomes `<p>a </p>\n<p>b</p>`.
- **Paragraphs can be empty.** A text that starts or ends with a separator
  gives an empty first or last paragraph, `<p></p>`.
- **List markers are not anchored.** `- x` is found anywhere on a line, not
  only at its start.
- **Merging lists can delete text.** The merge pattern `</ul>\n(.*)<ul>`
  drops everything between the newline and the last `<ul>` on the following
  line, because `(.*)` is greedy. So `- a\nx - b` becomes one list of `a` and
  `b`, and the `x ` is lost; in `- a\nx <ul> - b` the whole `x <ul> ` is lost.
- **Emphasis is greedy.** A span runs from the first delimiter on a line to
  the last one.

## Model

| member | source | states |
|---|---|---|
| Substitute.Sub | md_to_html.py:28 | text that the pattern matches at no position, tried from the start onwards, comes back unchanged (the driver of every `re.sub` call: lines 28, 55-61, 84, 106, 140) |
| Substitute.SubIdentity | md_to_html.py:28 | a substitution leaves unchanged any text in which its pattern matches at no position (the driver of every `re.sub` call: lines 28, 55-61, 84, 106, 140) |
| Substitute.SubSplitsAtNewline | md_to_html.py:84 | for a pattern that never looks past a newline, substituting in `a + "\n" + b` is substituting in `a` and in `b` separately (the driver of every `re.sub` call: lines 28, 55-61, 84, 106, 140) |
| Substitute.SubOneMatch | md_to_html.py:106 | text with exactly one match is the prefix kept, the replacement, and the suffix kept (the driver of every `re.sub` call: lines 28, 55-61, 84, 106, 140) |
| Substitute.SubChanges | md_to_html.py:59 | when every replacement starts with a character the matched text does not start with, a single match anywhere changes the text (the driver of every `re.sub` call: lines 28, 55-61, 84, 106, 140) |
| Substitute.SubGrows | md_to_html.py:84 | when every replacement is longer than what it replaces, the result is at least as long, and exactly as long only when nothing matched (the driver of every `re.sub` call: lines 28, 55-61, 84, 106, 140) |
| Patterns.MatchBlank | md_to_html.py:28 | `\n\s*\n` matches a prefix exactly when one of that shape exists; it takes the longest such prefix and expands to `</p>\n<p>` |
| Patterns.MatchBullet | md_to_html.py:55 | `(-\|\+\|\*) (.*)` matches a marker, a space and the rest of the line; no longer prefix has that shape; the replacement puts the text in `<ul><li>`…`</li></ul>` |
| Patterns.MatchOrdinal | md_to_html.py:59 | `(\d+\.) (.*)` matches the whole digit run, a dot, a space and the rest of the line; any prefix of that shape uses the same digit run and is no longer; the replacement uses `<ol><li>`…`</li></ol>` |
| Patterns.MatchAdjacent | md_to_html.py:57 | `</ul>\n(.*)<ul>` (and `</ol>\n(.*)<ol>` at line 61) matches the closing tag, a newline, and text up to the last opening tag on the next line; that is the longest such prefix, and it becomes one newline |
| Patterns.MatchEmphasis | md_to_html.py:106 | `\*\*([^\n]+)\*\*` (and `\*([^\n]+)\*` at line 84) matches a delimiter, at least one newline-free character and a delimiter; the longest such prefix is taken and its inside is tagged |
| Patterns.EmphasisOfSpan | md_to_html.py:84 | a delimited span with no delimiter after its closing one is exactly the match, with its inside between the tags |
| Patterns.AnchoredHeading | md_to_html.py:140 | the header pattern without its anchor matches exactly when the first line has that many hashes and a blank run leaving a non-empty text; the match covers the line, and the text starts after the longest blank run that leaves it non-empty |
| Patterns.MatchHeading | md_to_html.py:140-141 | the `\n` alternative matches exactly when a newline is followed by a line of that many hashes, blanks and non-empty text; it spans the newline and the whole line, and the replacement is the newline, then the heading holding the line after the longest blank run that leaves text |
| Patterns.BulletSeesOneLine | md_to_html.py:55 | the bullet pattern's match never depends on text after the first newline |
| Patterns.OrdinalSeesOneLine | md_to_html.py:59 | the ordinal pattern's match never depends on text after the first newline |
| Patterns.EmphasisSeesOneLine | md_to_html.py:84 | the emphasis patterns' matches never depend on text after the first newline |
| HeaderPass.HeadingPass | md_to_html.py:140-141 | on one line, the pass for a level converts the line by the reference `HeaderLine` when its hash run has exactly that length and it converts, and otherwise leaves it |
| HeaderPass.HeadingPassSplits | md_to_html.py:140-141 | one header pass over `a + "\n" + b` is the pass over `a` and the pass over `b`, joined by the newline |
| HeaderPass.HeadersSplits | md_to_html.py:139-141 | all six passes, levels 6 down to 1, act on the lines of a text independently |
| HeaderPass.Headers | md_to_html.py:139-142 | on one line, the six passes together equal the reference `HeaderLine`, which counts the hashes and converts once |
| HeaderPass.HeadersLines | md_to_html.py:139-141 | `headers` of a text made of lines is each line converted by the reference `HeaderLine` |
| HeaderPass.HeadingLevels | md_to_html.py:139-141 | one to six hashes, blanks and text that starts with a non-blank become `<hN>text</hN>` with N the number of hashes |
| HeaderPass.BlankHeading | md_to_html.py:140 | hashes followed only by blanks: two or more blanks give a heading holding the last blank; a single blank leaves the line unchanged |
| HeaderPass.TooManyHashes | md_to_html.py:139-140 | a line of seven or more hashes is left unchanged |
| HeaderPass.HashesNeedBlank | md_to_html.py:140 | a line whose run of hashes (of any length, none included) is followed by a character that is neither a hash nor a blank is left unchanged |
| HeaderPass.NoHashUnchanged | md_to_html.py:139-141 | text without a `#` comes back unchanged |
| HeaderPass.HashOnlyExample | md_to_html.py:122-123 | `#hello` is unchanged |
| HeaderPass.H1Example | md_to_html.py:124-125 | `# hello` becomes `<h1>hello</h1>` |
| HeaderPass.H2Example | md_to_html.py:126-127 | `## hello` becomes `<h2>hello</h2>` |
| HeaderPass.H3Example | md_to_html.py:128-129 | `###  \t hello` becomes `<h3>hello</h3>` |
| HeaderPass.H4Example | md_to_html.py:130-131 | `####\thello` becomes `<h4>hello</h4>` |
| HeaderPass.H5Example | md_to_html.py:132-133 | `#####\t   hello` becomes `<h5>hello</h5>` |
| HeaderPass.H6Example | md_to_html.py:134-135 | `######    hello` becomes `<h6>hello</h6>` |
| HeaderPass.SevenHashesExample | md_to_html.py:136-137 | `#######\t hello` is unchanged |
| EmphasisPass.Bold | md_to_html.py:106 | the text changes exactly when some position starts `**`, a non-empty newline-free text, and `**` |
| EmphasisPass.Italics | md_to_html.py:84 | the text changes exactly when some position starts `*`, a non-empty newline-free text, and `*` |
| EmphasisPass.EmphasizeSplitsAtNewline | md_to_html.py:84 | no emphasis span crosses a newline: each line is rewritten on its own |
| EmphasisPass.EmphasizeLine | md_to_html.py:106 | on one line, the span from the first delimiter to the last one (with at least one character between them) is tagged, and the text around it is kept |
| EmphasisPass.EmphasizeWhole | md_to_html.py:102-104 | `**x**` becomes `<strong>x</strong>` and `*x*` becomes `<em>x</em>`, for any non-empty newline-free `x` |
| EmphasisPass.EmphasizeBetween | md_to_html.py:84 | when the text outside a span holds no asterisk, the span is tagged whatever asterisks it holds inside |
| EmphasisPass.EmphasizeUnchangedIff | md_to_html.py:84 | a pass leaves the text unchanged exactly when no position starts a delimiter, a non-empty newline-free text and a delimiter |
| EmphasisPass.UnchangedNoMatch | md_to_html.py:106 | unchanged output means the pattern matched nowhere |
| EmphasisPass.NoAsteriskUnchanged | md_to_html.py:84 | text without an asterisk is unchanged by both passes |
| EmphasisPass.ItalicsExample | md_to_html.py:80-82 | `*italic*` becomes `<em>italic</em>` |
| EmphasisPass.BoldExample | md_to_html.py:102-104 | `**bold**` becomes `<strong>bold</strong>` |
| ListPass.BulletNone | md_to_html.py:55 | with no marker followed by a space, the bullet pattern matches nowhere |
| ListPass.OrdinalNone | md_to_html.py:59 | with no digit followed by `. `, the ordinal pattern matches nowhere |
| ListPass.AdjacentNone | md_to_html.py:57 | without the closing tag, the merge pattern matches nowhere |
| ListPass.AdjacentNoneOnLine | md_to_html.py:61 | on a single line, the merge pattern matches nowhere, since it needs a newline |
| ListPass.Lists | md_to_html.py:55-62 | text without `<`, without a marker followed by a space and without a digit followed by `. ` is unchanged by `lists`; so is a single line with no such item, whatever tags it holds |
| ListPass.WrapBullets | md_to_html.py:55 | the text changes exactly when a marker is followed by a space |
| ListPass.MergeLists | md_to_html.py:57 | text without the closing tag, or without a newline, is left as it is |
| ListPass.WrapOrdinals | md_to_html.py:59 | the text changes exactly when a digit is followed by `. `, even where a long numeral makes the replacement no longer than the item |
| ListPass.WrapBulletLine | md_to_html.py:55 | a bullet line becomes its text as the single item of a `<ul>` list |
| ListPass.WrapOrdinalLine | md_to_html.py:59 | a numbered line becomes its text as the single item of an `<ol>` list, whatever its number |
| ListPass.WrapBulletRun | md_to_html.py:55 | consecutive bullet lines each become a one-item `<ul>` list, line by line |
| ListPass.WrapOrdinalRun | md_to_html.py:59 | consecutive numbered lines each become a one-item `<ol>` list, line by line |
| ListPass.MergeAt | md_to_html.py:57 | a closing tag, a newline and an opening tag at the start of the next line merge into a single newline |
| ListPass.AdjacentAt | md_to_html.py:61 | after a closing tag and a newline, the match runs to the last opening tag on the next line |
| ListPass.MergeRun | md_to_html.py:57 | consecutive one-item lists merge into one list holding every item, one per line |
| ListPass.BulletList | md_to_html.py:55-61 | `lists` turns a run of bullet lines between plain lines into one `<ul>` of their texts and keeps the surrounding lines |
| ListPass.OrdinalList | md_to_html.py:55-61 | `lists` turns a run of numbered lines between plain lines into one `<ol>` of their texts and keeps the surrounding lines |
| ListPass.BlockUntouched | md_to_html.py:59-61 | the ordinal passes leave an unordered list unchanged |
| ListPass.LinesUntouched | md_to_html.py:55-57 | the bullet passes leave numbered lines unchanged |
| ListPass.MergeDeletes | md_to_html.py:57 | text on the next line before its opening tag is deleted by the merge |
| ListPass.ListsDeletes | md_to_html.py:55-57 | a bullet line, then a line of text followed by a bullet item, becomes a two-item list that has lost the text |
| ListPass.DeletesExample | md_to_html.py:55-57 | `- a\nx - b` becomes `<ul><li>a</li>\n<li>b</li></ul>` |
| ListPass.BulletExample | md_to_html.py:47-49 | `- i1\n+ i2\n* i3` becomes one `<ul>` of the three items |
| ListPass.OrdinalExample | md_to_html.py:50-52 | `2. i1\n69. i2\n1337. i3` becomes one `<ol>` of the three items |
| ParagraphPass.Paragraphs | md_to_html.py:28-29 | the text is only wrapped in `<p>`…`</p>` exactly when it holds no separator |
| ParagraphPass.ParagraphsOfGaps | md_to_html.py:28-29 | paragraphs separated by gaps of any whitespace become those paragraphs, each between `<p>` and `</p>`, joined by newlines; a paragraph may end in blanks, and the first and last may be empty |
| ParagraphPass.TwoParagraphs | md_to_html.py:28-29 | two paragraphs around one gap become two `<p>` elements on consecutive lines |
| ParagraphPass.LeadingGap | md_to_html.py:28-29 | a text that starts with a separator begins with the empty paragraph `<p></p>` |
| ParagraphPass.TrailingGap | md_to_html.py:28-29 | a text that ends with a separator ends with the empty paragraph `<p></p>` |
| ParagraphPass.TrailingBlankExample | md_to_html.py:28-29 | `a \n\nb` becomes `<p>a </p>\n<p>b</p>`: the blank before the separator stays in the first paragraph |
| ParagraphPass.LineParagraph | md_to_html.py:28-29 | a single line becomes one paragraph |
| ParagraphPass.GapMatches | md_to_html.py:28 | a whole gap before a paragraph is matched as one separator |
| ParagraphPass.SubBlankNewlines | md_to_html.py:28 | the separator substitution never adds newlines, and it removes at least one whenever it replaces anything |
| ParagraphPass.ParagraphsExample | md_to_html.py:24-26 | the documented three-paragraph text gives `<p>P1</p>\n<p>P2\nP2</p>\n<p>P3</p>` |
| Converter.Html | md_to_html.py:166-167 | text with no `#`, no `*`, nothing the list passes touch and no separator becomes `<article><p>`, the text, `</p></article>` |
| Converter.HtmlOfParagraphs | md_to_html.py:166-167 | plain paragraphs separated by gaps become `<article>` holding one `<p>` element per paragraph, including empty edge paragraphs and paragraphs ending in blanks |
| Converter.HtmlOfHeading | md_to_html.py:166-167 | a header line becomes `<article><p><hN>text</hN></p></article>` |
| Converter.BoldStep | md_to_html.py:166 | the bold pass turns `***hello***` into `<strong>*hello*</strong>`, since its span runs to the last `**` |
| Converter.ParagraphsListExample | md_to_html.py:159-161 | the documented mixed text becomes three paragraphs, the middle one holding the list |
| Converter.StrongEmExample | md_to_html.py:162-164 | `***hello***` becomes `<article><p><strong><em>hello</em></strong></p></article>` |

## Left out

- Reading standard input and writing standard output are not modelled. The
  module docstring claims them (md_to_html.py:1-4), but the module has no
  such code.
- The doctest runner under `__main__` (md_to_html.py:170-172) is not
  modelled.
- Python's `re` engine in general is not modelled. Only the eight patterns
  the program uses are, each by its own matcher.
- `\d` is modelled as the ASCII digits `0`–`9`. Python also accepts every
  other Unicode decimal digit.
- `Substitute.Sub` copies a character when a matcher reports an empty match
  or one longer than the text. Python has no such case, and every matcher
  here is proved (`Patterns.*Consumes`) never to do either.
- Idempotence of `html` is not claimed. Running it again on its own output
  garbles it.
- The deleting merge and the other quirks above are modelled as written.
  They are not corrected.
- ListPass.BulletList: states a sufficient condition. The items hold no
  `<` and no digit followed by `. `, the surrounding lines are plain text,
  and other texts are not covered, because the later passes would rewrite
  them. Items holding any tag are outside it, so an emphasised item such as
  `- **a**`, which reaches `lists` as `- <strong>a</strong>`, is not covered.
- ListPass.OrdinalList: states a sufficient condition. The items hold no
  `<` and no marker followed by a space, and the surrounding lines are plain
  text; as for `BulletList`, items holding a tag are not covered.
- ListPass.MergeRun: requires no `<` before the run, in the items or in the
  text after the run, and that text to be empty or to start with a newline,
  since a tag outside the run could start a match of its own and a later
  closing tag could merge again.
- ParagraphPass.ParagraphsOfGaps: requires the paragraphs to be separable.
  A middle paragraph must hold a non-space. Whitespace at the start of a
  later paragraph, or at the end of an earlier one, must hold no newline.
  Without these conditions the program does not split the text at the given
  gaps: neighbouring gaps merge into one separator, or a separator absorbs
  the paragraph's edge. So these texts are outside the lemma.
- Converter.HtmlOfParagraphs: covers only text that none of the first four
  passes changes (no `#`, `*`, `<` or list item), with the paragraph
  conditions of `ParagraphPass.ParagraphsOfGaps`.
- Converter.Html: its own contract covers only text that no pass but
  `paragraphs` changes; the other lemmas of `Converter` cover more.
- Converter.HtmlOfHeading: covers only heading text without asterisks or
  list items.
- The documented examples state their expected output as the literal
  strings of the docstrings. Where a literal is long, it is written as
  concatenated pieces.
