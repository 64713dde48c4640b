/** The rewrite `add_title_to_file` performs on a document that has no
    `title` key in its leading block: the title is chosen, then either
    inserted as the block's first line or put in a fresh block in front. */
module AddTitles {
  import opened Strings
  import opened Frontmatter
  import opened Heading
  import opened FilenameTitle

  /** The line `title: "<title>"`: it carries the `title` key, and stays one
      line when the title has no newline. */
  function TitleLine(title: string): (line: string)
    ensures TitleKeyAt(line)
    ensures '\n' !in title ==> '\n' !in line
    ensures line != [] && line[0] == 't'
  {
    var line := "title: \"" + title + "\"";
    assert line[..5] == "title";
    assert line[5..][0] == ':';
    line
  }

  /** The block put in front of a document: `---`, the title line, `---`
      and an empty line. */
  function FreshBlock(title: string): string {
    "---\n" + TitleLine(title) + "\n---\n\n"
  }

  /** `title_from_heading if title_from_heading else title_from_filename` */
  function ChooseTitle(fromHeading: Option<string>, fromFilename: string): string {
    if fromHeading.Some? && fromHeading.value != [] then fromHeading.value else fromFilename
  }

  /** The title `add_title_to_file` settles on for a document and a file
      stem. The heading always wins when there is one: the emptiness test
      never decides, since a heading title is never empty. The title is one
      line when the stem is. */
  function ChosenTitle(content: string, stem: string): (title: string)
    ensures FirstHeadingTitle(content).Some? ==> title == FirstHeadingTitle(content).value
    ensures FirstHeadingTitle(content).None? ==> title == TitleFromStem(stem)
    ensures '\n' !in stem ==> '\n' !in title
  {
    ChooseTitle(FirstHeadingTitle(content), TitleFromStem(stem))
  }

  /** `lines.insert(1, title_line)` */
  function InsertTitle(lines: seq<string>, title: string): (r: seq<string>)
    requires |lines| >= 1
    ensures |r| == |lines| + 1
    ensures r[0] == lines[0] && r[1] == TitleLine(title)
    ensures forall i :: 1 <= i < |lines| ==> r[i + 1] == lines[i]
    ensures r[..1] + r[2..] == lines
  {
    var r := lines[..1] + [TitleLine(title)] + lines[1..];
    assert r[..1] + r[2..] == lines[..1] + lines[1..];
    r
  }

  /** Lines 67-96 of `add_title_to_file`: `None` when the document already has
      a title (nothing is written), otherwise the new text. */
  function Rewrite(content: string, stem: string): (r: Option<string>)
    ensures r.None? <==> HasFrontmatterTitle(content)
    ensures r.Some? ==> StartsWith(r.value, "---")
  {
    if HasFrontmatterTitle(content) then None
    else
      var title := ChosenTitle(content, stem);
      if StartsWith(content, "---") then
        var lines := Split(content);
        var frontmatterEnd := ClosingIndex(lines);
        if frontmatterEnd != -1 then
          InsertedOpens(content, title);
          Some(Join(InsertTitle(lines, title)))
        else
          FreshOpens(content, title);
          Some(FreshBlock(title) + content)
      else
        FreshOpens(content, title);
        Some(FreshBlock(title) + content)
  }

  /** After an insertion the text still opens with `---`. */
  lemma InsertedOpens(content: string, title: string)
    requires StartsWith(content, "---")
    ensures StartsWith(Join(InsertTitle(Split(content), title)), "---")
  {
    var lines := Split(content);
    FirstLineKeepsPrefix(content, "---");
    var j := Join(InsertTitle(lines, title));
    assert StartsWith(j, lines[0]);
    assert j[..3] == lines[0][..3];
  }

  /** A fresh block opens with `---`. */
  lemma FreshOpens(content: string, title: string)
    ensures StartsWith(FreshBlock(title) + content, "---")
  {
    var r := FreshBlock(title) + content;
    assert r == "---" + ("\n" + TitleLine(title) + "\n---\n\n" + content);
  }

  /** Splitting the text after an insertion gives line 0, then the lines the
      title line splits into, then the remaining lines. */
  lemma SplitInserted(content: string, title: string)
    ensures var lines := Split(content);
      Split(Join(InsertTitle(lines, title))) == lines[..1] + Split(TitleLine(title)) + lines[1..]
  {
    var lines := Split(content);
    var tl := TitleLine(title);
    var tail := lines[1..];
    assert InsertTitle(lines, title) == [lines[0]] + ([tl] + tail);
    JoinCons(lines[0], [tl] + tail);
    if tail == [] {
      assert [tl] + tail == [tl];
      SplitAtNewline(lines[0], tl);
    } else {
      var rest := Join(tail);
      JoinCons(tl, tail);
      SplitAtNewline(lines[0], tl + "\n" + rest);
      SplitConcat(tl, rest);
      SplitJoin(tail);
    }
  }

  /** The lines of a fresh block followed by the document. */
  lemma SplitFresh(content: string, title: string)
    ensures Split(FreshBlock(title) + content)
      == ["---"] + Split(TitleLine(title)) + ["---", ""] + Split(content)
  {
    var tl := TitleLine(title);
    var r3 := "" + "\n" + content;
    var r2 := "---" + "\n" + r3;
    FreshBlockParts(content, title);
    SplitAtNewline("", content);
    SplitAtNewline("---", r3);
    assert Split(r2) == ["---", ""] + Split(content);
    SplitConcat(tl, r2);
    SplitAtNewline("---", tl + "\n" + r2);
  }

  lemma FreshBlockParts(content: string, title: string)
    ensures FreshBlock(title) + content
      == "---" + "\n" + (TitleLine(title) + "\n" + ("---" + "\n" + ("" + "\n" + content)))
  {
  }

  /** A title without a newline gives a single title line. */
  lemma TitleLineSplit(title: string)
    requires '\n' !in title
    ensures Split(TitleLine(title)) == [TitleLine(title)]
  {
    SplitJoin([TitleLine(title)]);
  }

  /** What the rewrite does to a document without a title, line by line: with
      a closed leading block, the title line goes in at line 1, the other
      lines keep their order and the block closes one line later; otherwise
      a four-line block closing at line 2 is put in front. Either way the
      original text can be read back from the new one. */
  lemma RewriteSpec(content: string, stem: string)
    requires '\n' !in stem
    requires !HasFrontmatterTitle(content)
    ensures var title := ChosenTitle(content, stem);
      var lines := Split(content);
      var newLines := Split(Rewrite(content, stem).value);
      if StartsWith(content, "---") && ClosingIndex(lines) != -1 then
        && newLines == InsertTitle(lines, title)
        && ClosingIndex(newLines) == ClosingIndex(lines) + 1
        && Join(newLines[..1] + newLines[2..]) == content
      else
        && newLines == ["---", TitleLine(title), "---", ""] + lines
        && ClosingIndex(newLines) == 2
        && Join(newLines[4..]) == content
        && (StartsWith(content, "---") ==> StartsWith(newLines[4], "---"))
  {
    var title := ChosenTitle(content, stem);
    var lines := Split(content);
    if StartsWith(content, "---") && ClosingIndex(lines) != -1 {
      InsertedLines(content, title);
      InsertedClosing(lines, title);
    } else {
      FreshLines(content, title);
      FreshClosing(lines, title);
    }
  }

  /** With a one-line title, the lines after an insertion are exactly the
      inserted list, and dropping line 1 gives the text back. */
  lemma InsertedLines(content: string, title: string)
    requires '\n' !in title
    ensures var newLines := Split(Join(InsertTitle(Split(content), title)));
      && newLines == InsertTitle(Split(content), title)
      && Join(newLines[..1] + newLines[2..]) == content
  {
    var lines := Split(content);
    JoinSplit(content);
    TitleLineSplit(title);
    SplitInserted(content, title);
    assert lines[..1] + [TitleLine(title)] + lines[1..] == InsertTitle(lines, title);
  }

  /** With a one-line title, a fresh block adds exactly four lines in front,
      and the first kept line still opens with `---` when the text did. */
  lemma FreshLines(content: string, title: string)
    requires '\n' !in title
    ensures var newLines := Split(FreshBlock(title) + content);
      && newLines == ["---", TitleLine(title), "---", ""] + Split(content)
      && Join(newLines[4..]) == content
      && (StartsWith(content, "---") ==> StartsWith(newLines[4], "---"))
  {
    var lines := Split(content);
    JoinSplit(content);
    TitleLineSplit(title);
    SplitFresh(content, title);
    if StartsWith(content, "---") {
      FirstLineKeepsPrefix(content, "---");
    }
    assert (["---", TitleLine(title), "---", ""] + lines)[4..] == lines;
  }

  /** The title line never closes a block. */
  lemma TitleLineNotClosing(title: string)
    ensures !IsClosing(TitleLine(title))
  {
    assert Strip(TitleLine(title))[0] == 't';
  }

  /** After an insertion the block closes one line further down. */
  lemma InsertedClosing(lines: seq<string>, title: string)
    requires |lines| >= 1 && ClosingIndex(lines) != -1
    ensures ClosingIndex(InsertTitle(lines, title)) == ClosingIndex(lines) + 1
  {
    var e := ClosingIndex(lines);
    var ins := InsertTitle(lines, title);
    ClosingIndexSpec(lines);
    TitleLineNotClosing(title);
    forall j | 1 <= j < e + 1 ensures !IsClosing(ins[j]) {
      if j >= 2 {
        assert ins[j] == lines[j - 1];
      }
    }
    ClosingIndexOfFirst(ins, e + 1);
  }

  /** A fresh block closes at line 2. */
  lemma FreshClosing(lines: seq<string>, title: string)
    ensures ClosingIndex(["---", TitleLine(title), "---", ""] + lines) == 2
  {
    var nl := ["---", TitleLine(title), "---", ""] + lines;
    TitleLineNotClosing(title);
    assert Strip("---") == "---";
    ClosingIndexOfFirst(nl, 2);
  }

  /** Running the rewrite twice changes nothing the second time: whatever it
      writes already has a `title` key in a closed leading block, whatever
      file name is used on the second run. A title holding newlines spreads
      over several lines, but the first of them still carries the key and
      some `---` line still follows it. */
  lemma RewriteIdempotent(content: string, stem: string, stem': string)
    requires Rewrite(content, stem).Some?
    ensures HasFrontmatterTitle(Rewrite(content, stem).value)
    ensures Rewrite(Rewrite(content, stem).value, stem') == None
  {
    var title := ChosenTitle(content, stem);
    if StartsWith(content, "---") && ClosingIndex(Split(content)) != -1 {
      InsertedHasTitle(content, title);
    } else {
      FreshHasTitle(content, title);
    }
  }

  /** An insertion into a closed block leaves a titled document. */
  lemma InsertedHasTitle(content: string, title: string)
    requires StartsWith(content, "---") && ClosingIndex(Split(content)) != -1
    ensures HasFrontmatterTitle(Join(InsertTitle(Split(content), title)))
  {
    var lines := Split(content);
    var r := Join(InsertTitle(lines, title));
    var tl := TitleLine(title);
    var e := ClosingIndex(lines);
    ClosingIndexSpec(lines);
    InsertedOpens(content, title);
    SplitInserted(content, title);
    TitleLineFirst(title);
    var m := Split(tl);
    assert Split(r) == lines[..1] + m + lines[1..];
    assert Split(r)[1] == m[0];
    assert Split(r)[|m| + e] == lines[1..][e - 1];
    KeyedBlock(r, |Split(tl)| + e);
  }

  /** A fresh block in front leaves a titled document. */
  lemma FreshHasTitle(content: string, title: string)
    ensures HasFrontmatterTitle(FreshBlock(title) + content)
  {
    var r := FreshBlock(title) + content;
    var tl := TitleLine(title);
    FreshOpens(content, title);
    SplitFresh(content, title);
    TitleLineFirst(title);
    assert Split(r)[1] == Split(tl)[0];
    assert Split(r)[1 + |Split(tl)|] == "---";
    assert Strip("---") == "---";
    KeyedBlock(r, 1 + |Split(tl)|);
  }

  /** The first line the title line splits into carries the `title` key and
      does not close a block. */
  lemma TitleLineFirst(title: string)
    ensures TitleKeyAt(Split(TitleLine(title))[0])
    ensures !IsClosing(Split(TitleLine(title))[0])
  {
    var tl := TitleLine(title);
    assert tl[..6] == "title:";
    FirstLineKeepsPrefix(tl, "title:");
    var first := Split(tl)[0];
    assert first[..5] == "title" && first[5] == ':';
    assert Strip(first)[0] == 't';
  }

  /** A text that opens with `---`, whose line 1 carries the `title` key
      without closing the block, and that has a closing line further down,
      has a title. */
  lemma KeyedBlock(r: string, j: int)
    requires StartsWith(r, "---")
    requires 2 <= j < |Split(r)| && IsClosing(Split(r)[j])
    requires TitleKeyAt(Split(r)[1]) && !IsClosing(Split(r)[1])
    ensures HasFrontmatterTitle(r)
  {
    ClosingIndexSpec(Split(r));
    TitleLineSuffices(r, 1);
  }

  /** Lines 67-96 of `add_title_to_file` as the source runs them: the
      frontmatter check, both candidate titles, the closing-line search and
      the insertion into the list of lines. */
  method AddTitleToFile(path: string, content: string) returns (newContent: Option<string>)
    ensures newContent == Rewrite(content, Stem(path))
  {
    var hasTitle := CheckFrontmatterTitle(content);
    if hasTitle {
      return None;
    }
    var titleFromHeading := ExtractTitleFromFirstHeading(content);
    var titleFromFilename := TitleFromFilename(path);
    var title := if titleFromHeading.Some? && titleFromHeading.value != [] then titleFromHeading.value else titleFromFilename;
    if StartsWith(content, "---") {
      var lines := Split(content);
      var frontmatterEnd := FindFrontmatterEnd(lines);
      if frontmatterEnd != -1 {
        lines := lines[..1] + [TitleLine(title)] + lines[1..];
        newContent := Some(Join(lines));
      } else {
        newContent := Some(FreshBlock(title) + content);
      }
    } else {
      newContent := Some(FreshBlock(title) + content);
    }
  }
}
