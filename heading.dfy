/** Title taken from the first level-one heading (`extract_title_from_first_heading`). */
module Heading {
  import opened Strings

  /** A line qualifies when, stripped, it starts with `# `. */
  predicate IsHeadingLine(line: string) {
    StartsWith(Strip(line), "# ")
  }

  /** Text with no whitespace at either end, and not empty. */
  predicate Trimmed(s: string) {
    s != [] && !IsSpace(s[0]) && !IsSpace(s[|s| - 1])
  }

  /** `line.strip()[2:].strip()` for a qualifying line: never empty, trimmed,
      and made of the line's own characters. */
  function HeadingText(line: string): (t: string)
    requires IsHeadingLine(line)
    ensures Trimmed(t)
    ensures forall c :: c in t ==> c in line
  {
    var s := Strip(line);
    // s ends in a non-space and s[1] is a space, so s[2..] is not all spaces
    assert !IsSpace(s[2..][|s| - 3]);
    StripSpec(s[2..]);
    StripSpec(line);
    Strip(s[2..])
  }

  /** The index of the first qualifying line at or after `i`, if any. */
  function HeadingIndex(lines: seq<string>, i: nat): (r: Option<nat>)
    ensures r.Some? ==> i <= r.value < |lines| && IsHeadingLine(lines[r.value])
    decreases |lines| - i
  {
    if i >= |lines| then None
    else if IsHeadingLine(lines[i]) then Some(i)
    else HeadingIndex(lines, i + 1)
  }

  /** `extract_title_from_first_heading(content)`: when present, the title is
      trimmed, non-empty and on one line. */
  function FirstHeadingTitle(content: string): (r: Option<string>)
    ensures r.Some? ==> Trimmed(r.value) && '\n' !in r.value
  {
    var lines := Split(content);
    match HeadingIndex(lines, 0)
    case None => None
    case Some(k) => Some(HeadingText(lines[k]))
  }

  /** `k` is the first qualifying line. */
  ghost predicate IsFirstHeading(lines: seq<string>, k: int) {
    && 0 <= k < |lines|
    && IsHeadingLine(lines[k])
    && forall j :: 0 <= j < k ==> !IsHeadingLine(lines[j])
  }

  lemma {:induction false} HeadingIndexNone(lines: seq<string>, i: nat)
    ensures HeadingIndex(lines, i) == None <==> forall j :: i <= j < |lines| ==> !IsHeadingLine(lines[j])
    decreases |lines| - i
  {
    if i < |lines| && !IsHeadingLine(lines[i]) {
      HeadingIndexNone(lines, i + 1);
    }
  }

  lemma {:induction false} HeadingIndexFirst(lines: seq<string>, i: nat, k: int)
    requires i <= k < |lines| && IsHeadingLine(lines[k])
    requires forall j :: i <= j < k ==> !IsHeadingLine(lines[j])
    ensures HeadingIndex(lines, i) == Some(k)
    decreases k - i
  {
    if i < k {
      HeadingIndexFirst(lines, i + 1, k);
    }
  }

  /** No title exactly when no line strips to something starting with `# `. */
  lemma NoHeadingSpec(content: string)
    ensures var lines := Split(content);
      FirstHeadingTitle(content) == None <==> forall j :: 0 <= j < |lines| ==> !IsHeadingLine(lines[j])
  {
    HeadingIndexNone(Split(content), 0);
    assert FirstHeadingTitle(content) == None <==> HeadingIndex(Split(content), 0) == None;
  }

  /** Otherwise the title is the stripped text after `# ` on the first qualifying line. */
  lemma FirstHeadingSpec(content: string, k: int)
    requires IsFirstHeading(Split(content), k)
    ensures FirstHeadingTitle(content) == Some(HeadingText(Split(content)[k]))
  {
    HeadingIndexFirst(Split(content), 0, k);
  }

  /** A line whose stripped form starts with `##` never qualifies. */
  lemma DoubleHashNeverQualifies(line: string)
    requires StartsWith(Strip(line), "##")
    ensures !IsHeadingLine(line)
  {
  }

  /** The loop of `extract_title_from_first_heading`, returning at the first
      qualifying line. */
  method ExtractTitleFromFirstHeading(content: string) returns (r: Option<string>)
    ensures r == FirstHeadingTitle(content)
  {
    var lines := Split(content);
    var i := 0;
    while i < |lines|
      invariant 0 <= i <= |lines|
      invariant HeadingIndex(lines, i) == HeadingIndex(lines, 0)
    {
      var line := Strip(lines[i]);
      if StartsWith(line, "# ") {
        return Some(Strip(line[2..]));
      }
      i := i + 1;
    }
    return None;
  }
}
