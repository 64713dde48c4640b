# add_titles: a Dafny model

`add_titles.py` gives every `.mdx` document a `title` entry in its leading
`---` block (the frontmatter). A document that already has one is skipped.
Otherwise the title is the text of the document's first `# ` heading, or,
failing that, one derived from the file name. It is inserted as the first
line of an existing block, or put in a new block in front of the document.

This project models that text transformation and proves what it does:

- `strings.dfy` (module `Strings`) holds the Python string operations the
  script relies on, over ASCII text:
  - `str.strip`, `str.split('\n')` and `'\n'.join`;
  - `str.replace`: left to right, occurrences do not overlap;
  - `str.title()`: a letter after a non-letter is upper-cased, every other
    letter lower-cased;
  - `str.rfind`.
- `frontmatter.dfy` (module `Frontmatter`) models `has_frontmatter_title`:
  - the opening `---`;
  - the search for the first later line that strips to `---`;
  - the multi-line pattern `^title\s*:`, written out by hand.
- `heading.dfy` (module `Heading`) models `extract_title_from_first_heading`.
- `filename_title.dfy` (module `FilenameTitle`) models
  `extract_title_from_filename`: the path's stem, dashes and underscores made
  spaces, `str.title()`, then the sixteen corrections in their order.
- `add_titles.dfy` (module `AddTitles`) models the content-building part of
  `add_title_to_file`:
  - `Rewrite(content, stem)` returns `None` where the script returns early
    without writing, and the new text otherwise;
  - `AddTitleToFile` is the method that performs the same steps the way the
    script does (the list insertion included) and is proved equal to it.

The search loops appear twice. Recursive functions state what they find; the
methods `FindFrontmatterEnd`, `ExtractTitleFromFirstHeading`,
`CheckFrontmatterTitle` and `AddTitleToFile` run the loops with early exits
and are proved to compute those functions.

Whitespace is what CPython's `str.strip` and the `re` class `\s` treat as
whitespace within ASCII. That is space, tab, `\n`, `\v`, `\f`, `\r`, and also
the separators `0x1C`-`0x1F`.

`Path(p).stem` follows CPython 3.12: the text after the last `/`, without its
last `.suffix`. A dot that is the name's first or last character starts no
suffix.

## Model

| member | source | states |
|---|---|---|
| Strings.IsSpace | add_titles.py:37 | The whitespace `strip()` removes and `\s` matches: space, tab, `\n`, `\v`, `\f`, `\r` and `0x1C`-`0x1F`; its definition is the statement. |
| Strings.IsLetter | add_titles.py:12 | The cased characters `title()` tests for: the ASCII letters; its definition is the statement. |
| Strings.Upper | add_titles.py:12 | Upper-casing keeps letters letters, leaves every other character alone, and never yields a lower-case letter. |
| Strings.Lower | add_titles.py:12 | Lower-casing keeps letters letters, leaves every other character alone, and never yields an upper-case letter. |
| Strings.CaseRoundTrip | add_titles.py:12 | Upper-casing a lower-case letter and lower-casing it again gives it back, and the other way round. |
| Strings.StartsWith | add_titles.py:44 | `s.startswith(p)`, also used at lines 38 and 78: `p` is the first `|p|` characters of `s`; its definition is the statement. |
| Strings.LStrip | add_titles.py:37 | The left half of `strip()`: drops leading whitespace one character at a time; its definition is the statement, and `LStripSpec` states what it leaves. |
| Strings.RStrip | add_titles.py:37 | The right half of `strip()`: drops trailing whitespace one character at a time; its definition is the statement, and `RStripSpec` states what it leaves. |
| Strings.LStripSpec | add_titles.py:37 | Stripping the left end removes the longest all-whitespace prefix; what remains is a suffix of the input that is empty or starts with a non-space. |
| Strings.RStripSpec | add_titles.py:37 | Stripping the right end removes the longest all-whitespace suffix; what remains is a prefix of the input that is empty or ends with a non-space. |
| Strings.Strip | add_titles.py:37 | `strip()` yields text that is empty or has non-space characters at both ends, and keeps a non-space first character in place. |
| Strings.StripSpec | add_titles.py:37 | `strip()` yields the empty text exactly when the input is all whitespace, and adds no character. |
| Strings.Split | add_titles.py:35 | `split('\n')` yields at least one piece, and no piece holds a newline. |
| Strings.Join | add_titles.py:58 | `'\n'.join` of a non-empty list starts with its first line. |
| Strings.JoinSplit | add_titles.py:48 | Joining the pieces of `split('\n')` with newlines gives the text back. |
| Strings.SplitJoin | add_titles.py:89-90 | Splitting the join of newline-free lines gives the lines back. |
| Strings.SplitNoNewlinePrefix | add_titles.py:35 | Newline-free text in front of a document only lengthens the document's first line. |
| Strings.SplitAtNewline | add_titles.py:93 | Text up to the first newline is the first line, and the rest splits on its own. |
| Strings.SplitConcat | add_titles.py:89-93 | Splitting two texts joined by a newline gives the lines of the first, then the lines of the second, whatever newlines either holds. |
| Strings.JoinCons | add_titles.py:90 | Unfolding step of `Join`: a line in front of further lines is followed by one newline and their join. |
| Strings.FirstLineKeepsPrefix | add_titles.py:78-80 | A newline-free prefix of the text is a prefix of its first line, so a document starting with `---` has a first line starting with `---`. |
| Strings.Replace | add_titles.py:10 | `str.replace`: its definition is the statement, a left-to-right scan that replaces each non-overlapping occurrence; the lemmas below state its properties. |
| Strings.ReplaceKeepsOut | add_titles.py:14-29 | `replace` brings in no character that is absent from both the text and the replacement. |
| Strings.ReplaceChar | add_titles.py:10 | Replacing one character by another maps the text character by character and keeps its length. |
| Strings.ReplaceCharRemoves | add_titles.py:10 | After `replace('_', ' ')` no underscore is left. |
| Strings.ReplaceSkip | add_titles.py:14-29 | A stretch holding no first character of the pattern passes through `replace` unchanged, whatever follows it. |
| Strings.ReplaceAbsent | add_titles.py:14-29 | Text without the pattern's first character is not changed by `replace`. |
| Strings.ReplaceMiss | add_titles.py:14-29 | Unfolding step of `Replace`: a character that does not start an occurrence is kept, and the scan moves on by one. |
| Strings.ReplaceHit | add_titles.py:14-29 | Unfolding step of `Replace`: an occurrence at the front is replaced and the scan resumes after it, so occurrences never overlap. |
| Strings.ContainsPrefix | add_titles.py:19-20 | A text containing `p + q` contains `p`. |
| Strings.ReplaceNotContained | add_titles.py:14-29 | A text in which the pattern does not occur is not changed by `replace`. |
| Strings.TitleFrom | add_titles.py:12 | Title-casing keeps the length. |
| Strings.TitleFromAt | add_titles.py:12 | Each title-cased character is the lower case of the input character after a letter, and its upper case otherwise. |
| Strings.TitleCase | add_titles.py:12 | `title()` keeps the length; its per-character rule is stated by `TitleCaseAt`. |
| Strings.TitleCaseAt | add_titles.py:12 | `title()` upper-cases a letter that starts the text or follows a non-letter, and lower-cases every other letter. |
| Strings.TitleFromLowerRun | add_titles.py:12 | After a letter, a run of lower-case letters comes out of title-casing unchanged. |
| Strings.CapitaliseLowerWord | add_titles.py:12 | A lower-case word comes out of `title()` with only its first letter upper-cased. |
| Strings.TitleCaseKeepsOut | add_titles.py:12 | `title()` brings in no non-letter that was not already in the text. |
| Strings.LastIndexOf | add_titles.py:8 | `rfind` is -1 exactly when the character is absent; otherwise that position holds it and no later one does. |
| FilenameTitle.Name | add_titles.py:8 | `Path(p).name` is a suffix of the path and holds no `/`. |
| FilenameTitle.NameSpec | add_titles.py:8 | The name is the whole path when the path has no `/`, and otherwise begins just after a `/`, which is then the last one. |
| FilenameTitle.Stem | add_titles.py:8 | `Path(p).stem` holds no `/`, is a prefix of the name, and is the whole name or ends just before a `.`. |
| FilenameTitle.StemSpec | add_titles.py:8 | Both directions of `Path.stem` (Python 3.12): a shorter stem is non-empty, ends just before a `.` that is not the name's last character, and no `.` follows that one; a stem equal to the name means no `.` lies strictly inside the name, or the name ends with one. |
| FilenameTitle.NoInnerSuffixDot | add_titles.py:8 | When the last `.` of a name is not strictly inside it, no `.` is, or the name ends with one. |
| FilenameTitle.CorrectionsFacts | add_titles.py:14-29 | There are sixteen corrections; no pattern is empty, and no replacement holds an underscore or a newline. |
| FilenameTitle.ApplyFrom | add_titles.py:14-29 | The corrections from rule `k` on, each applied to the output of the one before; its definition is the statement. |
| FilenameTitle.Corrected | add_titles.py:14-29 | All sixteen corrections, in order, bring in no underscore and no newline. |
| FilenameTitle.Words | add_titles.py:10 | Each `-` and each `_` becomes a space, every other character stays in place, and the length is kept. |
| FilenameTitle.TitleFromStem | add_titles.py:8-31 | The derived title holds no `_`, and holds no newline unless the stem does. |
| FilenameTitle.ApplyFromKeepsOut | add_titles.py:14-29 | The corrections, applied in order from any position, bring in no underscore and no newline. |
| FilenameTitle.TitleFromFilename | add_titles.py:6-31 | `extract_title_from_filename` yields no `_`, and no newline unless the path holds one. |
| FilenameTitle.OnlyStemMatters | add_titles.py:6-8 | Two paths with the same stem get the same title. |
| FilenameTitle.SkipRules | add_titles.py:14-29 | A run of corrections whose patterns' first characters are all absent from the text changes nothing. |
| FilenameTitle.TakeRule | add_titles.py:14-29 | Unfolding step of `ApplyFrom`: each correction works on the output of the one before it. |
| FilenameTitle.PlainStem | add_titles.py:10-12 | A stem without dashes or underscores is title-cased and corrected as it is. |
| FilenameTitle.JsRuleFirst | add_titles.py:19 | After the `Js` rule the text starts with `J` where an occurrence started, and with its own first character otherwise. |
| FilenameTitle.JsRuleLeavesNoJs | add_titles.py:19 | No `Js` is left in any text after the `Js` rule. |
| FilenameTitle.JsonRuleNeverFires | add_titles.py:19-20 | The `Json` rule never changes anything, because the `Js` rule just before it has already turned every `Json` into `JSon`. |
| FilenameTitle.JsonExample | add_titles.py:19-20 | Stem `json` gives `JSon`. |
| FilenameTitle.VdbsExample | add_titles.py:24 | Stem `vdbs` gives `Vector Databases`. |
| FilenameTitle.ApplicationExample | add_titles.py:23 | Stem `application` gives `Applicationlication`: the `App` rule also matches the front of the word it produces. |
| FilenameTitle.TitleCaseAfterDigit | add_titles.py:12 | `title()` starts a new word after a digit: `2go` becomes `2Go`. |
| Frontmatter.IsClosing | add_titles.py:51 | `line.strip() == '---'`; its definition is the statement. |
| Frontmatter.ClosingFrom | add_titles.py:50-53 | The search from line `i` reports -1 or a line index at or after `i`. |
| Frontmatter.ClosingIndex | add_titles.py:49-53 | The closing line is -1 or an index after line 0. |
| Frontmatter.ClosingFromSpec | add_titles.py:50-53 | The search from line `i` reports -1 exactly when no line from `i` on strips to `---`, and otherwise the first such line. |
| Frontmatter.ClosingIndexSpec | add_titles.py:49-53 | The closing index is -1 exactly when no line after line 0 strips to `---`, and otherwise it is the first such line. |
| Frontmatter.ClosingIndexOfFirst | add_titles.py:49-53 | The first line after line 0 that strips to `---` is the one the search reports. |
| Frontmatter.FindFrontmatterEnd | add_titles.py:49-53 | The loop with its early `break` computes the closing index. |
| Frontmatter.HasTitleKey | add_titles.py:59 | `re.search(r'^title\s*:', block, re.MULTILINE) is not None`; its definition, a scan over the block, is the statement, and `HasTitleKeySpec` states what it finds. |
| Frontmatter.ColonAfterSpaces | add_titles.py:59 | The `\s*:` part of the pattern at the start of a text: whitespace (newlines included), then a colon; its definition is the statement. |
| Frontmatter.TitleKeyAt | add_titles.py:59 | The pattern body `title\s*:` matched at the start of a text: `title`, then `ColonAfterSpaces`; its definition is the statement. |
| Frontmatter.MatchesAt | add_titles.py:59 | The reference meaning of `^title\s*:` under `re.MULTILINE`: position `p` is the start of the text or follows a newline, and `TitleKeyAt` holds there; its definition is the statement. |
| Frontmatter.SearchFromSpec | add_titles.py:59 | The hand-written scan finds `^title\s*:` exactly when it matches at the start of the text or just after a newline. |
| Frontmatter.HasTitleKeySpec | add_titles.py:59 | `re.search(r'^title\s*:', block, re.MULTILINE)` succeeds exactly when the pattern matches at a line start of the block. |
| Frontmatter.TitleKeyExtends | add_titles.py:59 | A match stays a match whatever text follows it. |
| Frontmatter.ColonExtends | add_titles.py:59 | Whitespace and a colon stay a match whatever text follows them. |
| Frontmatter.SearchSkipsLine | add_titles.py:59 | A line without a match at its start can be skipped when scanning joined lines. |
| Frontmatter.SearchLastLine | add_titles.py:59 | In text without a newline (the block's last line), the scan finds a match only at its start. |
| Frontmatter.HasTitleKeyLines | add_titles.py:58-59 | The joined block has a match exactly when the join of the block's lines from some line `k` on starts with `title\s*:`. |
| Frontmatter.HasFrontmatterTitle | add_titles.py:42-59 | A title is never reported unless the document starts with `---` and some later line strips to `---`. |
| Frontmatter.HasFrontmatterTitleSpec | add_titles.py:42-59 | A title is reported exactly when the document starts with `---`, there is a closing line `e`, and for some `k` between line 0 and `e` the lines `k` to `e-1`, joined, start with `title\s*:`. The whitespace may run over line ends. |
| Frontmatter.TitleLineSuffices | add_titles.py:58-59 | A block line that is itself `title`, whitespace and `:` is enough for a title to be reported. |
| Frontmatter.TitleKeyFirstLine | add_titles.py:58-59 | A match at the start of joined lines lies within a first line that starts with `title`. |
| Frontmatter.TitleNeedsTitleLine | add_titles.py:58-59 | A title is only reported when some block line starts with `title`. |
| Frontmatter.CheckFrontmatterTitle | add_titles.py:42-59 | The step-by-step check with its early returns gives the same answer as `HasFrontmatterTitle`. |
| Heading.IsHeadingLine | add_titles.py:37-38 | `line.strip().startswith('# ')`; its definition is the statement. |
| Heading.HeadingText | add_titles.py:38-39 | The text after `# ` on a qualifying line, stripped, is never empty, has no surrounding whitespace, and holds only characters of the line. |
| Heading.HeadingIndex | add_titles.py:36-38 | The search from line `i` reports nothing or a qualifying line at or after `i`. |
| Heading.FirstHeadingTitle | add_titles.py:33-40 | A title from the headings is trimmed, non-empty and on one line. |
| Heading.HeadingIndexNone | add_titles.py:36-40 | The search from line `i` finds nothing exactly when no line from `i` on qualifies. |
| Heading.HeadingIndexFirst | add_titles.py:36-38 | The search reports the first qualifying line. |
| Heading.NoHeadingSpec | add_titles.py:35-40 | `None` is returned exactly when no line strips to text starting with `# `. |
| Heading.FirstHeadingSpec | add_titles.py:35-39 | Otherwise the result is the stripped text after `# ` on the first qualifying line. |
| Heading.DoubleHashNeverQualifies | add_titles.py:38 | A line whose stripped form starts with `##` never qualifies. |
| Heading.ExtractTitleFromFirstHeading | add_titles.py:33-40 | The loop with its early `return` computes the first heading's title. |
| AddTitles.TitleLine | add_titles.py:89 | The line `title: "<t>"` matches `title\s*:`, starts with `t`, and is one line when the title is. |
| AddTitles.FreshBlock | add_titles.py:93 | The block `---`, title line, `---`, empty line; its definition is the statement, and `SplitFresh` states its lines. |
| AddTitles.ChooseTitle | add_titles.py:76 | `title_from_heading if title_from_heading else title_from_filename`; its definition is the statement. |
| AddTitles.ChosenTitle | add_titles.py:72-76 | The heading's title is used whenever there is one (the emptiness test never decides), the file name's otherwise, and the title is one line when the stem is. |
| AddTitles.InsertTitle | add_titles.py:89 | `lines.insert(1, ...)` puts the title line at index 1 and moves every later line up by one. Dropping index 1 gives the original lines back. |
| AddTitles.Rewrite | add_titles.py:67-96 | The document is left alone exactly when it already has a frontmatter title, and whatever is written starts with `---`. |
| AddTitles.InsertedOpens | add_titles.py:87-90 | A document that opens with `---` still does after the insertion. |
| AddTitles.FreshOpens | add_titles.py:93-96 | A document with a fresh block in front opens with `---`. |
| AddTitles.SplitInserted | add_titles.py:89-90 | The text written after an insertion splits into line 0, then the lines the title line splits into, then the remaining original lines. |
| AddTitles.SplitFresh | add_titles.py:93-96 | A fresh block followed by the document splits into `---`, the lines of the title line, `---`, an empty line, then the document's own lines. |
| AddTitles.TitleLineSplit | add_titles.py:89 | A title without a newline gives a single title line. |
| AddTitles.InsertedLines | add_titles.py:87-90 | With a one-line title, the written text splits into exactly the inserted list, and dropping its line 1 gives the original text back. |
| AddTitles.FreshLines | add_titles.py:93-96 | With a one-line title, the written text splits into four block lines followed by the original lines, which join back to the original text; an unclosed `---` opening survives as line 4. |
| AddTitles.RewriteSpec | add_titles.py:78-96 | For a one-line stem: with a closed leading block, the new lines are the old ones with the title line at index 1 and the block closes one line later. Otherwise a four-line block closing at line 2 precedes the unchanged document, and an unclosed `---` opening survives as line 4. Either way the original text can be read back. |
| AddTitles.TitleLineNotClosing | add_titles.py:83 | The title line never strips to `---`. |
| AddTitles.InsertedClosing | add_titles.py:81-89 | After the insertion the block closes exactly one line further down. |
| AddTitles.FreshClosing | add_titles.py:93 | A fresh block closes at line 2. |
| AddTitles.RewriteIdempotent | add_titles.py:67-96 | For every document and stem, what is written has a frontmatter title, so a second run with any file name skips the document. |
| AddTitles.InsertedHasTitle | add_titles.py:87-90 | An insertion into a closed block leaves a document with a frontmatter title, whatever newlines the title holds. |
| AddTitles.FreshHasTitle | add_titles.py:93-96 | A fresh block in front leaves a document with a frontmatter title, whatever newlines the title holds. |
| AddTitles.TitleLineFirst | add_titles.py:89 | The first line the title line splits into matches `title\s*:` and does not strip to `---`. |
| AddTitles.KeyedBlock | add_titles.py:42-59 | A text that opens with `---`, whose line 1 matches `title\s*:` without closing the block, and that has a closing line further down, has a frontmatter title. |
| AddTitles.AddTitleToFile | add_titles.py:67-96 | The steps as the script runs them produce exactly `Rewrite(content, stem)`. They are the frontmatter check, both candidate titles, the closing-line search and the list insertion. |

## Left out

- Finding the files (`Path('.').rglob('*.mdx')`, add_titles.py:108) and the
  loop of `main` over them. This is filesystem traversal in no defined order.
- Reading and writing the file (add_titles.py:64-65, 98-99) and the decoding
  errors they can raise. The model takes the content as a parameter, and a
  `Some` result is the text that would be written.
- The `try`/`except` around each file and all `print` output
  (add_titles.py:63, 68, 101-104, 110-116). These are error isolation and
  console reporting.
- Unicode. Text is modelled over ASCII:
  - `strip`, `title()` and `\s` use ASCII whitespace and letters only;
  - `Upper` and `Lower` leave every non-ASCII character as it is, where Python
    would case-map it.
- Regular expressions in general. Only the single pattern `^title\s*:` with
  `re.MULTILINE` is written out.
- Path handling beyond `/`-separated names: no normalisation, no `\`
  separators, no trailing-slash handling by `pathlib`.
- Frontmatter.FindFrontmatterEnd: the source repeats the same closing-line
  loop at add_titles.py:50-53 and 81-85. The model has one method, used in
  both places.
- AddTitles.RewriteSpec: the line-by-line picture is stated only for stems
  without a newline. A newline in the file-name title splits the `title:`
  line into several lines, so the new lines are no longer the old ones plus
  one; `SplitInserted` and `SplitFresh` give the lines in that case, and
  `RewriteIdempotent` holds for every stem.
