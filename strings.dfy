/** The few Python `str` operations the title tool relies on, restricted to
    ASCII: whitespace tests, `strip`, `startswith`, `split('\n')`,
    `'\n'.join`, `replace` and `title`. */
module Strings {

  datatype Option<T> = None | Some(value: T)

  /** Whitespace as `str.isspace()` (and therefore `str.strip()` and the
      regular-expression class `\s`) sees it over ASCII: HT, LF, VT, FF, CR,
      the separators 0x1C-0x1F, and space. */
  predicate IsSpace(c: char) {
    c == ' ' || 9 <= c as int <= 13 || 28 <= c as int <= 31
  }

  /** A cased character: one that `str.title()` upper- or lower-cases. */
  predicate IsLetter(c: char) {
    'a' <= c <= 'z' || 'A' <= c <= 'Z'
  }

  function Upper(c: char): (u: char)
    ensures IsLetter(c) <==> IsLetter(u)
    ensures !IsLetter(c) ==> u == c
    ensures !('a' <= u <= 'z')
  {
    if 'a' <= c <= 'z' then (c as int - 32) as char else c
  }

  function Lower(c: char): (l: char)
    ensures IsLetter(c) <==> IsLetter(l)
    ensures !IsLetter(c) ==> l == c
    ensures !('A' <= l <= 'Z')
  {
    if 'A' <= c <= 'Z' then (c as int + 32) as char else c
  }

  /** Upper- and lower-casing undo each other on letters of the right case. */
  lemma CaseRoundTrip(c: char)
    ensures 'a' <= c <= 'z' ==> Lower(Upper(c)) == c
    ensures 'A' <= c <= 'Z' ==> Upper(Lower(c)) == c
  {
  }

  /** `s.startswith(p)` */
  predicate StartsWith(s: string, p: string) {
    |p| <= |s| && s[..|p|] == p
  }

  /** `s.lstrip()` */
  function LStrip(s: string): (r: string)
    decreases |s|
  {
    if s != [] && IsSpace(s[0]) then LStrip(s[1..]) else s
  }

  /** `s.rstrip()` */
  function RStrip(s: string): (r: string)
    decreases |s|
  {
    if s != [] && IsSpace(s[|s| - 1]) then RStrip(s[..|s| - 1]) else s
  }

  /** `s.lstrip()` is the longest suffix that does not begin with whitespace. */
  lemma {:induction false} LStripSpec(s: string)
    ensures |LStrip(s)| <= |s| && LStrip(s) == s[|s| - |LStrip(s)|..]
    ensures forall i :: 0 <= i < |s| - |LStrip(s)| ==> IsSpace(s[i])
    ensures LStrip(s) == [] || !IsSpace(LStrip(s)[0])
    decreases |s|
  {
    if s != [] && IsSpace(s[0]) {
      LStripSpec(s[1..]);
    }
  }

  /** `s.rstrip()` is the longest prefix that does not end with whitespace. */
  lemma {:induction false} RStripSpec(s: string)
    ensures |RStrip(s)| <= |s| && RStrip(s) == s[..|RStrip(s)|]
    ensures forall i :: |RStrip(s)| <= i < |s| ==> IsSpace(s[i])
    ensures RStrip(s) == [] || !IsSpace(RStrip(s)[|RStrip(s)| - 1])
    decreases |s|
  {
    if s != [] && IsSpace(s[|s| - 1]) {
      RStripSpec(s[..|s| - 1]);
    }
  }

  /** `s.strip()` */
  function Strip(s: string): (r: string)
    ensures r == [] || (!IsSpace(r[0]) && !IsSpace(r[|r| - 1]))
    ensures s != [] && !IsSpace(s[0]) ==> r != [] && r[0] == s[0]
  {
    LStripSpec(s);
    RStripSpec(LStrip(s));
    RStrip(LStrip(s))
  }

  /** Stripping empties exactly the all-whitespace texts and adds no character. */
  lemma StripSpec(s: string)
    ensures Strip(s) == [] <==> forall i :: 0 <= i < |s| ==> IsSpace(s[i])
    ensures forall c :: c in Strip(s) ==> c in s
  {
    StripEmpty(s);
    StripChars(LStrip(s));
    StripChars'(s);
  }

  lemma StripEmpty(s: string)
    ensures RStrip(LStrip(s)) == [] <==> forall i :: 0 <= i < |s| ==> IsSpace(s[i])
  {
    var l := LStrip(s);
    LStripSpec(s);
    RStripSpec(l);
    if RStrip(l) == [] {
      assert l == [];
    }
  }

  lemma StripChars(l: string)
    ensures forall c :: c in RStrip(l) ==> c in l
  {
    var r := RStrip(l);
    RStripSpec(l);
    assert r == l[..|r|];
  }

  lemma StripChars'(s: string)
    ensures forall c :: c in LStrip(s) ==> c in s
  {
    var l := LStrip(s);
    LStripSpec(s);
    assert l == s[|s| - |l|..];
  }

  /** `s.split('\n')`: the pieces between newline characters; never empty. */
  function Split(s: string): (lines: seq<string>)
    ensures |lines| >= 1
    ensures forall i :: 0 <= i < |lines| ==> '\n' !in lines[i]
    decreases |s|
  {
    if s == [] then [""]
    else
      var rest := Split(s[1..]);
      if s[0] == '\n' then [""] + rest
      else [[s[0]] + rest[0]] + rest[1..]
  }

  /** `'\n'.join(lines)` */
  function Join(lines: seq<string>): (s: string)
    ensures |lines| >= 1 ==> StartsWith(s, lines[0])
    decreases |lines|
  {
    if lines == [] then ""
    else if |lines| == 1 then lines[0]
    else lines[0] + "\n" + Join(lines[1..])
  }

  /** Joining a line in front of further lines puts a newline between them. */
  lemma JoinCons(a: string, rest: seq<string>)
    requires rest != []
    ensures Join([a] + rest) == a + "\n" + Join(rest)
  {
    assert ([a] + rest)[1..] == rest;
  }

  /** Joining what was split gives the text back. */
  lemma {:induction false} JoinSplit(s: string)
    ensures Join(Split(s)) == s
    decreases |s|
  {
    if s != [] {
      JoinSplit(s[1..]);
      var rest := Split(s[1..]);
      if s[0] == '\n' {
        assert Split(s) == [""] + rest;
        assert (([""] + rest)[1..]) == rest;
      } else {
        var lines := Split(s);
        assert lines == [[s[0]] + rest[0]] + rest[1..];
        if |rest| == 1 {
          assert Join(lines) == [s[0]] + rest[0];
        } else {
          assert lines[1..] == rest[1..];
          assert Join(rest) == rest[0] + "\n" + Join(rest[1..]);
        }
      }
    }
  }

  /** Text without a newline joins the first piece of whatever follows it. */
  lemma {:induction false} SplitNoNewlinePrefix(a: string, t: string)
    requires '\n' !in a
    ensures Split(a + t) == [a + Split(t)[0]] + Split(t)[1..]
    decreases |a|
  {
    if a != [] {
      SplitNoNewlinePrefix(a[1..], t);
      var rest := Split(a[1..] + t);
      assert (a + t)[0] == a[0] != '\n';
      assert (a + t)[1..] == a[1..] + t;
      assert Split(a + t) == [[a[0]] + rest[0]] + rest[1..];
      assert rest[0] == a[1..] + Split(t)[0];
      assert rest[1..] == Split(t)[1..];
      assert [a[0]] + (a[1..] + Split(t)[0]) == a + Split(t)[0];
    } else {
      assert a + t == t;
      assert Split(t) == [Split(t)[0]] + Split(t)[1..];
      assert a + Split(t)[0] == Split(t)[0];
    }
  }

  /** Splitting at the first newline. */
  lemma SplitAtNewline(a: string, b: string)
    requires '\n' !in a
    ensures Split(a + "\n" + b) == [a] + Split(b)
  {
    SplitNoNewlinePrefix(a, "\n" + b);
    assert ("\n" + b)[0] == '\n' && ("\n" + b)[1..] == b;
    assert Split("\n" + b) == [""] + Split(b);
    assert a + "\n" + b == a + ("\n" + b);
    assert a + Split("\n" + b)[0] == a;
    assert Split("\n" + b)[1..] == Split(b);
  }

  /** Splitting two texts joined by a newline gives the lines of each, in
      turn. The proof peels off the last line of `p`. */
  lemma {:induction false} SplitConcat(p: string, q: string)
    ensures Split(p + "\n" + q) == Split(p) + Split(q)
    decreases |p|
  {
    var i := LastIndexOf(p, '\n');
    if i == -1 {
      SplitAtNewline(p, q);
      SplitSingle(p);
    } else {
      var x, y := p[..i], p[i + 1..];
      assert p == x + "\n" + y;
      assert Split(p + "\n" + q) == Split(x) + ([y] + Split(q)) by {
        assert p + "\n" + q == x + "\n" + (y + "\n" + q);
        SplitConcat(x, y + "\n" + q);
        SplitAtNewline(y, q);
      }
      assert Split(p) == Split(x) + [y] by {
        SplitConcat(x, y);
        SplitSingle(y);
      }
      assert (Split(x) + [y]) + Split(q) == Split(x) + ([y] + Split(q));
    }
  }

  /** Text without a newline is a single line. */
  lemma SplitSingle(s: string)
    requires '\n' !in s
    ensures Split(s) == [s]
  {
    SplitNoNewlinePrefix(s, "");
    assert s + "" == s;
  }

  /** Splitting what was joined gives the lines back, when no line holds a newline. */
  lemma {:induction false} SplitJoin(lines: seq<string>)
    requires |lines| >= 1
    requires forall i :: 0 <= i < |lines| ==> '\n' !in lines[i]
    ensures Split(Join(lines)) == lines
    decreases |lines|
  {
    if |lines| == 1 {
      SplitNoNewlinePrefix(lines[0], "");
      assert lines[0] + "" == lines[0];
    } else {
      SplitJoin(lines[1..]);
      SplitAtNewline(lines[0], Join(lines[1..]));
      assert lines == [lines[0]] + lines[1..];
    }
  }

  /** The first line begins with every newline-free prefix of the text. */
  lemma FirstLineKeepsPrefix(s: string, p: string)
    requires StartsWith(s, p) && '\n' !in p
    ensures StartsWith(Split(s)[0], p)
  {
    SplitNoNewlinePrefix(p, s[|p|..]);
    assert s == p + s[|p|..];
  }

  /** `s.replace(pat, rep)`: every non-overlapping occurrence of `pat`,
      scanning left to right, replaced by `rep`. */
  function Replace(s: string, pat: string, rep: string): string
    requires pat != []
    decreases |s|
  {
    if |s| < |pat| then s
    else if s[..|pat|] == pat then rep + Replace(s[|pat|..], pat, rep)
    else [s[0]] + Replace(s[1..], pat, rep)
  }

  /** A character absent from the text and from the replacement stays absent. */
  lemma {:induction false} ReplaceKeepsOut(s: string, pat: string, rep: string, c: char)
    requires pat != []
    requires c !in s && c !in rep
    ensures c !in Replace(s, pat, rep)
    decreases |s|
  {
    if |s| >= |pat| {
      if s[..|pat|] == pat {
        ReplaceKeepsOut(s[|pat|..], pat, rep, c);
      } else {
        ReplaceKeepsOut(s[1..], pat, rep, c);
      }
    }
  }

  /** Replacing one character by another maps the text character by character. */
  lemma {:induction false} ReplaceChar(s: string, a: char, b: char)
    ensures |Replace(s, [a], [b])| == |s|
    ensures forall i :: 0 <= i < |s| ==>
      Replace(s, [a], [b])[i] == (if s[i] == a then b else s[i])
    decreases |s|
  {
    if s != [] {
      ReplaceChar(s[1..], a, b);
      assert s[..1] == [s[0]];
      var r := Replace(s, [a], [b]);
      assert r == [if s[0] == a then b else s[0]] + Replace(s[1..], [a], [b]);
    }
  }

  /** A text that holds no character starting the pattern passes through
      the scan unchanged, whatever follows it. */
  lemma {:induction false} ReplaceSkip(x: string, y: string, pat: string, rep: string)
    requires pat != [] && pat[0] !in x
    ensures Replace(x + y, pat, rep) == x + Replace(y, pat, rep)
    decreases |x|
  {
    if x != [] {
      ReplaceSkip(x[1..], y, pat, rep);
      assert (x + y)[1..] == x[1..] + y;
      assert x == [x[0]] + x[1..];
    } else {
      assert x + y == y;
    }
  }

  /** A text without the pattern's first character is left as it is. */
  lemma ReplaceAbsent(s: string, pat: string, rep: string)
    requires pat != [] && pat[0] !in s
    ensures Replace(s, pat, rep) == s
  {
    ReplaceSkip(s, [], pat, rep);
    assert s + [] == s;
  }

  /** A character that does not start an occurrence is kept and the scan moves on. */
  lemma ReplaceMiss(c: char, y: string, pat: string, rep: string)
    requires pat != [] && !StartsWith([c] + y, pat)
    ensures Replace([c] + y, pat, rep) == [c] + Replace(y, pat, rep)
  {
    assert ([c] + y)[1..] == y;
  }

  /** An occurrence at the front is replaced and the scan resumes after it. */
  lemma ReplaceHit(y: string, pat: string, rep: string)
    requires pat != []
    ensures Replace(pat + y, pat, rep) == rep + Replace(y, pat, rep)
  {
    assert (pat + y)[..|pat|] == pat;
    assert (pat + y)[|pat|..] == y;
  }

  /** `p in s` for strings: `p` occurs somewhere in `s`. */
  predicate Contains(s: string, p: string)
    decreases |s|
  {
    StartsWith(s, p) || (s != [] && Contains(s[1..], p))
  }

  /** A text holding `p + q` holds `p`. */
  lemma {:induction false} ContainsPrefix(s: string, p: string, q: string)
    requires Contains(s, p + q)
    ensures Contains(s, p)
    decreases |s|
  {
    if StartsWith(s, p + q) {
      assert s[..|p|] == (p + q)[..|p|] == p;
    } else {
      ContainsPrefix(s[1..], p, q);
    }
  }

  /** A text in which the pattern does not occur is left as it is. */
  lemma {:induction false} ReplaceNotContained(s: string, pat: string, rep: string)
    requires pat != [] && !Contains(s, pat)
    ensures Replace(s, pat, rep) == s
    decreases |s|
  {
    if |s| >= |pat| {
      ReplaceNotContained(s[1..], pat, rep);
      assert s == [s[0]] + s[1..];
    }
  }

  /** After replacing a character by a different one, none of it is left. */
  lemma ReplaceCharRemoves(s: string, a: char, b: char)
    requires a != b
    ensures a !in Replace(s, [a], [b])
  {
    ReplaceChar(s, a, b);
  }

  /** `str.title()` from a given "previous character was cased" state. */
  function TitleFrom(s: string, prevCased: bool): (r: string)
    ensures |r| == |s|
    decreases |s|
  {
    if s == [] then []
    else [if prevCased then Lower(s[0]) else Upper(s[0])] + TitleFrom(s[1..], IsLetter(s[0]))
  }

  /** `s.title()`: a letter that follows a non-letter (or starts the text) is
      upper-cased, every other letter lower-cased. */
  function TitleCase(s: string): (r: string)
    ensures |r| == |s|
  {
    TitleFrom(s, false)
  }

  lemma {:induction false} TitleFromAt(s: string, prevCased: bool)
    ensures |TitleFrom(s, prevCased)| == |s|
    ensures forall i :: 0 <= i < |s| ==>
      TitleFrom(s, prevCased)[i]
      == (if (if i == 0 then prevCased else IsLetter(s[i - 1])) then Lower(s[i]) else Upper(s[i]))
    decreases |s|
  {
    if s != [] {
      TitleFromAt(s[1..], IsLetter(s[0]));
      var r := TitleFrom(s, prevCased);
      forall i | 1 <= i < |s|
        ensures r[i] == (if IsLetter(s[i - 1]) then Lower(s[i]) else Upper(s[i]))
      {
        assert r[i] == TitleFrom(s[1..], IsLetter(s[0]))[i - 1];
        assert s[1..][i - 1] == s[i];
        if i > 1 { assert s[1..][i - 2] == s[i - 1]; }
      }
    }
  }

  /** Each character of `s.title()` in terms of the input alone. */
  lemma TitleCaseAt(s: string)
    ensures |TitleCase(s)| == |s|
    ensures forall i :: 0 <= i < |s| ==>
      TitleCase(s)[i]
      == (if i > 0 && IsLetter(s[i - 1]) then Lower(s[i]) else Upper(s[i]))
  {
    TitleFromAt(s, false);
  }

  /** After a letter, a run of lower-case letters is left as it is. */
  lemma {:induction false} TitleFromLowerRun(s: string)
    requires forall i :: 0 <= i < |s| ==> 'a' <= s[i] <= 'z'
    ensures TitleFrom(s, true) == s
    decreases |s|
  {
    if s != [] {
      TitleFromLowerRun(s[1..]);
    }
  }

  /** A lower-case word is capitalised: only its first letter changes. */
  lemma CapitaliseLowerWord(s: string)
    requires s != [] && forall i :: 0 <= i < |s| ==> 'a' <= s[i] <= 'z'
    ensures TitleCase(s) == [Upper(s[0])] + s[1..]
  {
    TitleFromLowerRun(s[1..]);
  }

  /** Title-casing only changes letters: no other character appears that was not there. */
  lemma TitleCaseKeepsOut(s: string, c: char)
    requires !IsLetter(c) && c !in s
    ensures c !in TitleCase(s)
  {
    TitleCaseAt(s);
    var r := TitleCase(s);
    forall i | 0 <= i < |r| ensures r[i] != c {
      assert s[i] in s;
      assert TitleCase(s)[i] == (if i > 0 && IsLetter(s[i - 1]) then Lower(s[i]) else Upper(s[i]));
      if IsLetter(s[i]) {
        assert IsLetter(Upper(s[i])) && IsLetter(Lower(s[i]));
      } else {
        assert Upper(s[i]) == s[i] && Lower(s[i]) == s[i];
      }
    }
  }

  /** `s.rfind(c)`: the last index holding `c`, or -1. */
  function LastIndexOf(s: string, c: char): (r: int)
    ensures -1 <= r < |s|
    ensures r == -1 <==> c !in s
    ensures r >= 0 ==> s[r] == c && c !in s[r + 1..]
    decreases |s|
  {
    if s == [] then -1
    else if s[|s| - 1] == c then |s| - 1
    else
      assert s == s[..|s| - 1] + [s[|s| - 1]];
      LastIndexOf(s[..|s| - 1], c)
  }
}
