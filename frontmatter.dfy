/** Detection of a `title` key in a document's leading `---` block
    (`has_frontmatter_title`, and the search for the block's closing line that
    `add_title_to_file` repeats). */
module Frontmatter {
  import opened Strings

  /** A line that closes the block: it strips to exactly `---`. */
  predicate IsClosing(line: string) {
    Strip(line) == "---"
  }

  /** The index of the first closing line at or after `i`, or -1. */
  function ClosingFrom(lines: seq<string>, i: nat): (e: int)
    ensures e == -1 || i <= e < |lines|
    decreases |lines| - i
  {
    if i >= |lines| then -1
    else if IsClosing(lines[i]) then i
    else ClosingFrom(lines, i + 1)
  }

  /** The index of the block's closing line: the first line after line 0 that
      strips to `---`, or -1 when there is none. */
  function ClosingIndex(lines: seq<string>): (e: int)
    ensures e == -1 || 1 <= e < |lines|
  {
    ClosingFrom(lines, 1)
  }

  /** `e` is the first line after line 0 that closes the block. */
  ghost predicate IsFirstClosing(lines: seq<string>, e: int) {
    && 1 <= e < |lines|
    && IsClosing(lines[e])
    && forall j :: 1 <= j < e ==> !IsClosing(lines[j])
  }

  lemma {:induction false} ClosingFromSpec(lines: seq<string>, i: nat)
    ensures ClosingFrom(lines, i) == -1 <==> forall j :: i <= j < |lines| ==> !IsClosing(lines[j])
    ensures ClosingFrom(lines, i) != -1 ==>
      && i <= ClosingFrom(lines, i) < |lines|
      && IsClosing(lines[ClosingFrom(lines, i)])
      && forall j :: i <= j < ClosingFrom(lines, i) ==> !IsClosing(lines[j])
    decreases |lines| - i
  {
    if i < |lines| && !IsClosing(lines[i]) {
      ClosingFromSpec(lines, i + 1);
    }
  }

  /** The closing index is -1 exactly when no line after line 0 strips to
      `---`, and otherwise it is the first such line. */
  lemma ClosingIndexSpec(lines: seq<string>)
    ensures ClosingIndex(lines) == -1 <==> forall j :: 1 <= j < |lines| ==> !IsClosing(lines[j])
    ensures ClosingIndex(lines) != -1 ==> IsFirstClosing(lines, ClosingIndex(lines))
  {
    ClosingFromSpec(lines, 1);
  }

  /** Conversely, the first closing line is the one the search reports. */
  lemma ClosingIndexOfFirst(lines: seq<string>, e: int)
    requires IsFirstClosing(lines, e)
    ensures ClosingIndex(lines) == e
  {
    ClosingIndexSpec(lines);
  }

  /** The search loop `for i, line in enumerate(lines[1:], 1)` with its early
      `break`. */
  method FindFrontmatterEnd(lines: seq<string>) returns (frontmatterEnd: int)
    ensures frontmatterEnd == ClosingIndex(lines)
  {
    frontmatterEnd := -1;
    var i := 1;
    while i < |lines|
      invariant 1 <= i
      invariant frontmatterEnd == -1
      invariant ClosingFrom(lines, i) == ClosingIndex(lines)
    {
      if IsClosing(lines[i]) {
        frontmatterEnd := i;
        break;
      }
      i := i + 1;
    }
  }

  /** Whitespace (newlines included) and then a colon: `\s*:` at the start of `s`. */
  predicate ColonAfterSpaces(s: string)
    decreases |s|
  {
    s != [] && (s[0] == ':' || (IsSpace(s[0]) && ColonAfterSpaces(s[1..])))
  }

  /** The pattern `title\s*:` matches at the start of `s`. */
  predicate TitleKeyAt(s: string) {
    |s| >= 5 && s[..5] == "title" && ColonAfterSpaces(s[5..])
  }

  /** `re.search(r'^title\s*:', s, re.MULTILINE)` scanning from the start of
      `s`; `atLineStart` says whether `^` may match at s[0]. */
  predicate SearchFrom(s: string, atLineStart: bool)
    decreases |s|
  {
    s != [] && ((atLineStart && TitleKeyAt(s)) || SearchFrom(s[1..], s[0] == '\n'))
  }

  /** `re.search(r'^title\s*:', block, re.MULTILINE) is not None` */
  predicate HasTitleKey(block: string) {
    SearchFrom(block, true)
  }

  /** Position `p` is where a multi-line `^` may stand and the pattern matches there. */
  ghost predicate MatchesAt(s: string, p: int) {
    0 <= p < |s| && (p == 0 || s[p - 1] == '\n') && TitleKeyAt(s[p..])
  }

  lemma {:induction false} SearchFromSpec(s: string, b: bool)
    ensures SearchFrom(s, b) <==>
      exists p :: 0 <= p < |s| && (if p == 0 then b else s[p - 1] == '\n') && TitleKeyAt(s[p..])
    decreases |s|
  {
    if s != [] {
      SearchFromSpec(s[1..], s[0] == '\n');
      var t := s[1..];
      assert s[0..] == s;
      if SearchFrom(t, s[0] == '\n') {
        var q :| 0 <= q < |t| && (if q == 0 then s[0] == '\n' else t[q - 1] == '\n') && TitleKeyAt(t[q..]);
        assert s[q + 1..] == t[q..];
        assert q > 0 ==> s[q] == t[q - 1];
      }
      if p :| 0 < p < |s| && s[p - 1] == '\n' && TitleKeyAt(s[p..]) {
        var q := p - 1;
        assert t[q..] == s[p..];
        assert q > 0 ==> t[q - 1] == s[p - 1];
        assert 0 <= q < |t| && (if q == 0 then s[0] == '\n' else t[q - 1] == '\n') && TitleKeyAt(t[q..]);
      }
    }
  }

  /** The search succeeds exactly when the pattern matches at the start of
      the text or just after one of its newlines. */
  lemma HasTitleKeySpec(s: string)
    ensures HasTitleKey(s) <==> exists p :: MatchesAt(s, p)
  {
    SearchFromSpec(s, true);
    assert forall p :: MatchesAt(s, p) <==>
      0 <= p < |s| && (if p == 0 then true else s[p - 1] == '\n') && TitleKeyAt(s[p..]);
  }

  lemma TitleKeyExtends(a: string, b: string)
    requires TitleKeyAt(a)
    ensures TitleKeyAt(a + b)
  {
    assert (a + b)[..5] == a[..5];
    assert (a + b)[5..] == a[5..] + b;
    ColonExtends(a[5..], b);
  }

  lemma {:induction false} ColonExtends(a: string, b: string)
    requires ColonAfterSpaces(a)
    ensures ColonAfterSpaces(a + b)
    decreases |a|
  {
    if a[0] != ':' {
      ColonExtends(a[1..], b);
      assert (a + b)[1..] == a[1..] + b;
    }
  }

  /** Scanning a line without newlines: `^` can only match at its start. */
  lemma {:induction false} SearchSkipsLine(l: string, r: string, b: bool)
    requires '\n' !in l
    ensures SearchFrom(l + "\n" + r, b) == ((b && TitleKeyAt(l + "\n" + r)) || SearchFrom(r, true))
    decreases |l|
  {
    var s := l + "\n" + r;
    if l == [] {
      assert s[1..] == r;
    } else {
      SearchSkipsLine(l[1..], r, false);
      assert s[1..] == l[1..] + "\n" + r;
    }
  }

  lemma {:induction false} SearchLastLine(l: string, b: bool)
    requires '\n' !in l
    ensures SearchFrom(l, b) == (b && TitleKeyAt(l))
    decreases |l|
  {
    if l != [] {
      SearchLastLine(l[1..], false);
    }
  }

  /** Over a block of lines, the search succeeds exactly when the pattern
      matches at the start of some line, where the `\s*` may run on into the
      lines that follow. */
  lemma {:induction false} HasTitleKeyLines(block: seq<string>)
    requires forall i :: 0 <= i < |block| ==> '\n' !in block[i]
    ensures HasTitleKey(Join(block)) <==>
      exists k :: 0 <= k < |block| && TitleKeyAt(Join(block[k..]))
    decreases |block|
  {
    if |block| == 1 {
      SearchLastLine(block[0], true);
      assert block[0..] == block;
    } else if |block| > 1 {
      var rest := block[1..];
      HasTitleKeyLines(rest);
      SearchSkipsLine(block[0], Join(rest), true);
      assert block[0..] == block;
      forall k | 0 <= k < |rest| ensures block[k + 1..] == rest[k..] { }
      if k :| 0 <= k < |block| && TitleKeyAt(Join(block[k..])) {
        if k > 0 {
          assert TitleKeyAt(Join(rest[k - 1..]));
        }
      }
      if k :| 0 <= k < |rest| && TitleKeyAt(Join(rest[k..])) {
        assert TitleKeyAt(Join(block[k + 1..]));
      }
    }
  }

  /** `has_frontmatter_title`: the document opens with `---`, a later line
      closes the block, and the lines between hold the `title` key. */
  function HasFrontmatterTitle(content: string): (b: bool)
    ensures b ==> StartsWith(content, "---") && ClosingIndex(Split(content)) != -1
  {
    if !StartsWith(content, "---") then false
    else
      var lines := Split(content);
      var frontmatterEnd := ClosingIndex(lines);
      if frontmatterEnd == -1 then false
      else HasTitleKey(Join(lines[1..frontmatterEnd]))
  }

  /** `has_frontmatter_title` in terms of the document's lines: the block is
      lines 1 up to (excluding) the first closing line, and some line of it
      starts the `title\s*:` pattern. */
  lemma HasFrontmatterTitleSpec(content: string)
    ensures var lines := Split(content);
      HasFrontmatterTitle(content) <==>
        && StartsWith(content, "---")
        && ClosingIndex(lines) != -1
        && exists k :: 1 <= k < ClosingIndex(lines) && TitleKeyAt(Join(lines[k..ClosingIndex(lines)]))
  {
    var lines := Split(content);
    var e := ClosingIndex(lines);
    if StartsWith(content, "---") && e != -1 {
      ClosingIndexSpec(lines);
      var block := lines[1..e];
      HasTitleKeyLines(block);
      forall k | 1 <= k < e ensures lines[k..e] == block[k - 1..] { }
      if k :| 0 <= k < |block| && TitleKeyAt(Join(block[k..])) {
        assert TitleKeyAt(Join(lines[k + 1..e]));
      }
      if k :| 1 <= k < e && TitleKeyAt(Join(lines[k..e])) {
        assert TitleKeyAt(Join(block[k - 1..]));
      }
    }
  }

  /** A block line that is itself `title`, whitespace, `:` ... is enough. */
  lemma TitleLineSuffices(content: string, k: nat)
    requires StartsWith(content, "---")
    requires ClosingIndex(Split(content)) != -1
    requires 1 <= k < ClosingIndex(Split(content))
    requires TitleKeyAt(Split(content)[k])
    ensures HasFrontmatterTitle(content)
  {
    var lines := Split(content);
    var e := ClosingIndex(lines);
    HasFrontmatterTitleSpec(content);
    assert lines[k..e][0] == lines[k];
    TitleKeyExtends(lines[k], Join(lines[k..e])[|lines[k]|..]);
    assert Join(lines[k..e]) == lines[k] + Join(lines[k..e])[|lines[k]|..];
  }

  /** A match at the start of joined lines lies within the first line's
      leading `title`. */
  lemma TitleKeyFirstLine(ls: seq<string>)
    requires |ls| >= 1 && '\n' !in ls[0]
    requires TitleKeyAt(Join(ls))
    ensures StartsWith(ls[0], "title")
  {
    var j := Join(ls);
    FirstLineLong(ls, "title");
    assert j[..|ls[0]|] == ls[0];
    assert ls[0][..5] == j[..5];
  }

  /** A newline-free prefix of joined lines fits within the first line. */
  lemma FirstLineLong(ls: seq<string>, p: string)
    requires |ls| >= 1 && StartsWith(Join(ls), p) && '\n' !in p
    ensures |ls[0]| >= |p|
  {
    var j := Join(ls);
    if |ls| > 1 {
      assert j == ls[0] + "\n" + Join(ls[1..]);
      assert j[|ls[0]|] == '\n';
      assert forall i :: 0 <= i < |p| ==> j[i] == p[i];
    }
  }

  /** And a title can only be found on a block line that begins with `title`. */
  lemma TitleNeedsTitleLine(content: string)
    requires HasFrontmatterTitle(content)
    ensures exists k :: 1 <= k < ClosingIndex(Split(content)) && StartsWith(Split(content)[k], "title")
  {
    var lines := Split(content);
    var e := ClosingIndex(lines);
    HasFrontmatterTitleSpec(content);
    var k :| 1 <= k < e && TitleKeyAt(Join(lines[k..e]));
    TitleKeyFirstLine(lines[k..e]);
    assert lines[k..e][0] == lines[k];
  }

  /** The method form of `has_frontmatter_title`. */
  method CheckFrontmatterTitle(content: string) returns (b: bool)
    ensures b == HasFrontmatterTitle(content)
  {
    if !StartsWith(content, "---") {
      return false;
    }
    var lines := Split(content);
    var frontmatterEnd := FindFrontmatterEnd(lines);
    if frontmatterEnd == -1 {
      return false;
    }
    var frontmatter := Join(lines[1..frontmatterEnd]);
    b := HasTitleKey(frontmatter);
  }
}
