/** Title derived from a file's name (`extract_title_from_filename`). */
module FilenameTitle {
  import opened Strings

  /** `Path(path).name`: the text after the last `/` (all of it when there
      is none). */
  function Name(path: string): (n: string)
    ensures '/' !in n
    ensures |n| <= |path| && n == path[|path| - |n|..]
  {
    path[LastIndexOf(path, '/') + 1..]
  }

  /** The name is the whole path when it has no `/`, and otherwise starts
      just after a `/`, which with the contract above makes that `/` the
      last one. */
  lemma NameSpec(path: string)
    ensures '/' !in path ==> Name(path) == path
    ensures '/' in path ==> |Name(path)| < |path| && path[|path| - |Name(path)| - 1] == '/'
  {
  }

  /** `Path(path).stem`: the name without its last suffix; a dot at the very
      start or the very end of the name does not begin a suffix. */
  function Stem(path: string): (stem: string)
    ensures '/' !in stem
    ensures StartsWith(Name(path), stem)
    ensures stem == Name(path) || Name(path)[|stem|] == '.'
  {
    var name := Name(path);
    var i := LastIndexOf(name, '.');
    if 0 < i < |name| - 1 then name[..i] else name
  }

  /** Both ways the stem can come out: cut just before the name's last `.`,
      which is then neither its first nor its last character; or the whole
      name, when no `.` sits strictly inside it or it ends with one. */
  lemma StemSpec(path: string)
    ensures var name, stem := Name(path), Stem(path);
      stem != name ==> 0 < |stem| < |name| - 1 && name[|stem|] == '.' && '.' !in name[|stem| + 1..]
    ensures var name := Name(path);
      Stem(path) == name ==> |name| < 2 || name[|name| - 1] == '.' || '.' !in name[1..|name| - 1]
  {
    var name := Name(path);
    var i := LastIndexOf(name, '.');
    if 0 < i < |name| - 1 {
      var stem := name[..i];
      assert Stem(path) == stem;
      assert |stem| == i;
      assert stem != name;
    } else {
      assert Stem(path) == name;
      NoInnerSuffixDot(name);
    }
  }

  /** When the last `.` of a name is not strictly inside it, no `.` is, or
      the name ends with one. */
  lemma NoInnerSuffixDot(name: string)
    requires !(0 < LastIndexOf(name, '.') < |name| - 1)
    ensures |name| < 2 || name[|name| - 1] == '.' || '.' !in name[1..|name| - 1]
  {
    var i := LastIndexOf(name, '.');
    if |name| >= 2 && name[|name| - 1] != '.' {
      assert i <= 0;
      forall j | 1 <= j < |name| - 1 ensures name[j] != '.' {
        if i == 0 {
          assert name[j] == name[i + 1..][j - 1];
        }
      }
    }
  }

  /** The special-case replacements, in the order they run. */
  const Corrections: seq<(string, string)> := [
    ("Api", "API"),
    ("Ui", "UI"),
    ("Mdx", "MDX"),
    ("Html", "HTML"),
    ("Css", "CSS"),
    ("Js", "JS"),
    ("Json", "JSON"),
    ("Sql", "SQL"),
    ("Db", "Database"),
    ("App", "Application"),
    ("Vdbs", "Vector Databases"),
    ("Nlq", "NLQ"),
    ("Ecomm", "E-commerce"),
    ("Recsys", "Recommendation System"),
    ("Rag", "RAG"),
    ("Hr", "HR")
  ]

  /** Rule `k` has a non-empty pattern, and a replacement without an
      underscore or a newline. */
  predicate CleanRule(k: nat)
    requires k < |Corrections|
  {
    Corrections[k].0 != [] && '_' !in Corrections[k].1 && '\n' !in Corrections[k].1
  }

  lemma CleanRules0To4()
    ensures forall k :: 0 <= k < 4 ==> CleanRule(k)
  {
  }

  lemma CleanRules4To8()
    ensures forall k :: 4 <= k < 8 ==> CleanRule(k)
  {
  }

  lemma CleanRules8To12()
    ensures forall k :: 8 <= k < 12 ==> CleanRule(k)
  {
  }

  lemma CleanRules12To16()
    ensures forall k :: 12 <= k < 16 ==> CleanRule(k)
  {
  }

  /** No pattern is empty, and no replacement text holds an underscore or a newline. */
  lemma CorrectionsFacts()
    ensures |Corrections| == 16
    ensures forall k :: 0 <= k < |Corrections| ==> CleanRule(k)
  {
    CleanRules0To4();
    CleanRules4To8();
    CleanRules8To12();
    CleanRules12To16();
  }

  /** Replacements `k` onwards, each applied to the output of the one before. */
  function ApplyFrom(s: string, k: nat): string
    decreases |Corrections| - k
  {
    if k >= |Corrections| then s
    else
      CorrectionsFacts();
      ApplyFrom(Replace(s, Corrections[k].0, Corrections[k].1), k + 1)
  }

  /** All sixteen replacements, in order. No replacement holds an
      underscore or a newline, so none appears that was not there before. */
  function Corrected(t: string): (r: string)
    ensures '_' !in t ==> '_' !in r
    ensures '\n' !in t ==> '\n' !in r
  {
    ApplyFromKeepsOut(t, 0, '_');
    ApplyFromKeepsOut(t, 0, '\n');
    ApplyFrom(t, 0)
  }

  /** Dashes and underscores become spaces; every other character stays
      where it is. */
  function Words(stem: string): (w: string)
    ensures |w| == |stem|
    ensures forall i :: 0 <= i < |stem| ==>
      w[i] == (if stem[i] == '-' || stem[i] == '_' then ' ' else stem[i])
  {
    ReplaceChar(stem, '-', ' ');
    ReplaceChar(Replace(stem, "-", " "), '_', ' ');
    Replace(Replace(stem, "-", " "), "_", " ")
  }

  /** `extract_title_from_filename` on the stem: words, `str.title()`, then
      the corrections; the result has no `_`, and no newline unless the stem
      had one. */
  function TitleFromStem(stem: string): (t: string)
    ensures '_' !in t
    ensures '\n' !in stem ==> '\n' !in t
  {
    var w := Words(stem);
    assert '_' !in w by {
      ReplaceCharRemoves(Replace(stem, "-", " "), '_', ' ');
    }
    TitleCaseKeepsOut(w, '_');
    if '\n' in stem then Corrected(TitleCase(w))
    else
      assert forall i :: 0 <= i < |w| ==> w[i] != '\n';
      TitleCaseKeepsOut(w, '\n');
      Corrected(TitleCase(w))
  }

  /** The corrections never introduce an underscore or a newline. */
  lemma {:induction false} ApplyFromKeepsOut(s: string, k: nat, c: char)
    requires c == '_' || c == '\n'
    ensures c !in s ==> c !in ApplyFrom(s, k)
    decreases |Corrections| - k
  {
    if k < |Corrections| && c !in s {
      CorrectionsFacts();
      var pat := Corrections[k].0;
      var rep := Corrections[k].1;
      assert CleanRule(k);
      assert c !in rep;
      ReplaceKeepsOut(s, pat, rep, c);
      ApplyFromKeepsOut(Replace(s, pat, rep), k + 1, c);
    }
  }

  /** `extract_title_from_filename(path)`: no `_` survives, and no newline
      appears unless the path holds one. */
  function TitleFromFilename(path: string): (t: string)
    ensures '_' !in t
    ensures '\n' !in path ==> '\n' !in t
  {
    var stem := Stem(path);
    assert '\n' !in path ==> '\n' !in stem by {
      assert stem == Name(path)[..|stem|];
      assert Name(path) == path[|path| - |Name(path)|..];
    }
    TitleFromStem(stem)
  }

  /** The title depends on the path only through its stem. */
  lemma OnlyStemMatters(p: string, q: string)
    requires Stem(p) == Stem(q)
    ensures TitleFromFilename(p) == TitleFromFilename(q)
  {
  }

  /** None of rules `i` up to `j` can match `s`: each pattern's first
      character is absent from it. */
  predicate RulesMiss(s: string, i: nat, j: nat)
    decreases j - i
  {
    i >= j || i >= |Corrections| || (Corrections[i].0 != [] && Corrections[i].0[0] !in s && RulesMiss(s, i + 1, j))
  }

  /** Rules that cannot match leave the text alone. */
  lemma {:induction false} SkipRules(s: string, i: nat, j: nat)
    requires i <= j <= |Corrections|
    requires RulesMiss(s, i, j)
    ensures ApplyFrom(s, i) == ApplyFrom(s, j)
    decreases j - i
  {
    if i < j {
      ReplaceAbsent(s, Corrections[i].0, Corrections[i].1);
      SkipRules(s, i + 1, j);
    }
  }

  /** Rule `k` turns `s` into `s'`. */
  lemma TakeRule(s: string, k: nat, s': string)
    requires k < |Corrections| && Corrections[k].0 != []
    requires Replace(s, Corrections[k].0, Corrections[k].1) == s'
    ensures ApplyFrom(s, k) == ApplyFrom(s', k + 1)
  {
  }

  /** The first character after the `Js` rule: `J` where an occurrence
      starts, the text's own first character otherwise. */
  lemma JsRuleFirst(s: string, pat: string, rep: string)
    requires pat == "Js" && rep == "JS" && s != []
    ensures Replace(s, pat, rep) != []
    ensures Replace(s, pat, rep)[0] == (if StartsWith(s, pat) then 'J' else s[0])
  {
  }

  /** After the `Js` rule no `Js` is left: the rule's own output `JS` does not
      start a new one, and a kept character cannot join the next one. */
  lemma {:induction false} JsRuleLeavesNoJs(s: string, pat: string, rep: string)
    requires pat == "Js" && rep == "JS"
    ensures !Contains(Replace(s, pat, rep), pat)
    decreases |s|
  {
    var r := Replace(s, pat, rep);
    if |s| < 2 {
      assert !StartsWith(r, pat);
      if r != [] {
        assert r[1..] == [];
      }
    } else if s[..2] == pat {
      var rest := Replace(s[2..], pat, rep);
      JsRuleLeavesNoJs(s[2..], pat, rep);
      assert r == rep + rest;
      assert r[1..] == ['S'] + rest;
      assert r[1..][1..] == rest;
    } else {
      var rest := Replace(s[1..], pat, rep);
      JsRuleLeavesNoJs(s[1..], pat, rep);
      assert r == [s[0]] + rest;
      assert r[1..] == rest;
      JsRuleFirst(s[1..], pat, rep);
      assert s[1..][0] == s[1];
      assert s[..2] == [s[0], s[1]];
      assert r[..2] == [s[0], rest[0]];
    }
  }

  /** The `Json` rule (line 20) never changes anything: every `Json` has
      already become `JSon` through the `Js` rule (line 19) just before it. */
  lemma JsonRuleNeverFires(t: string)
    ensures var s := Replace(t, "Js", "JS");
      ApplyFrom(s, 6) == ApplyFrom(s, 7)
  {
    var s := Replace(t, "Js", "JS");
    JsRuleLeavesNoJs(t, "Js", "JS");
    if Contains(s, "Json") {
      assert "Js" + "on" == "Json";
      ContainsPrefix(s, "Js", "on");
    }
    ReplaceNotContained(s, "Json", "JSON");
    CorrectionsFacts();
  }

  /** From a stem without dashes or underscores the first step changes
      nothing, so the title is `Corrected(TitleCase(stem))`. */
  lemma PlainStem(stem: string)
    requires '-' !in stem && '_' !in stem
    ensures TitleFromStem(stem) == Corrected(TitleCase(stem))
  {
    ReplaceAbsent(stem, "-", " ");
    ReplaceAbsent(stem, "_", " ");
  }

  // Stem `json`: the `Js` rule (line 19) fires before the `Json` rule (line 20).

  lemma JsonRules0To5(x: string)
    requires x == "Json"
    ensures ApplyFrom(x, 0) == ApplyFrom(x, 5)
  {
    assert RulesMiss(x, 0, 5) by { CorrectionsFacts(); }
    SkipRules(x, 0, 5);
  }

  lemma JsonRule5(x: string)
    requires x == "Json"
    ensures ApplyFrom(x, 5) == ApplyFrom("JSon", 6)
  {
    CorrectionsFacts();
    assert Replace(x, "Js", "JS") == "JSon" by {
      assert x == "Js" + "on";
      ReplaceHit("on", "Js", "JS");
      ReplaceAbsent("on", "Js", "JS");
    }
    TakeRule(x, 5, "JSon");
  }

  lemma JsonRule6(y: string)
    requires y == "JSon"
    ensures ApplyFrom(y, 6) == ApplyFrom(y, 7)
  {
    CorrectionsFacts();
    assert Replace(y, "Json", "JSON") == y by {
      assert y == ['J'] + "Son";
      assert !StartsWith(y, "Json") by { assert y[1] != "Json"[1]; }
      ReplaceMiss('J', "Son", "Json", "JSON");
    }
    TakeRule(y, 6, y);
  }

  lemma JsonRule7(y: string)
    requires y == "JSon"
    ensures ApplyFrom(y, 7) == ApplyFrom(y, 8)
  {
    CorrectionsFacts();
    assert Replace(y, "Sql", "SQL") == y by {
      assert y == "J" + (['S'] + "on");
      ReplaceSkip("J", ['S'] + "on", "Sql", "SQL");
      assert !StartsWith(['S'] + "on", "Sql") by { assert (['S'] + "on")[1] != "Sql"[1]; }
      ReplaceMiss('S', "on", "Sql", "SQL");
      ReplaceAbsent("on", "Sql", "SQL");
    }
    TakeRule(y, 7, y);
  }

  lemma JsonRules8To16(y: string)
    requires y == "JSon"
    ensures ApplyFrom(y, 8) == y
  {
    assert RulesMiss("JSon", 8, 16) by { CorrectionsFacts(); }
    SkipRules(y, 8, 16);
  }

  /** Stem `json` gives `JSon`, not `JSON`: the replacements run in order,
      each on the previous output. */
  lemma JsonExample(stem: string)
    requires stem == "json"
    ensures TitleFromStem(stem) == "JSon"
  {
    PlainStem(stem);
    CapitaliseLowerWord(stem);
    assert TitleCase(stem) == "Json";
    JsonRules0To5(TitleCase(stem));
    JsonRule5(TitleCase(stem));
    JsonRule6("JSon");
    JsonRule7("JSon");
    JsonRules8To16("JSon");
  }

  // Stem `vdbs`: expanded by the `Vdbs` rule (line 24).

  lemma VdbsRules0To6(x: string)
    requires x == "Vdbs"
    ensures ApplyFrom(x, 0) == ApplyFrom(x, 6)
  {
    assert RulesMiss(x, 0, 6) by { CorrectionsFacts(); }
    SkipRules(x, 0, 6);
  }

  lemma VdbsRules6To10(x: string)
    requires x == "Vdbs"
    ensures ApplyFrom(x, 6) == ApplyFrom(x, 10)
  {
    assert RulesMiss(x, 6, 10) by { CorrectionsFacts(); }
    SkipRules(x, 6, 10);
  }

  lemma VdbsRule10(x: string)
    requires x == "Vdbs"
    ensures ApplyFrom(x, 10) == ApplyFrom("Vector Databases", 11)
  {
    CorrectionsFacts();
    ReplaceHit([], "Vdbs", "Vector Databases");
    assert x == "Vdbs" + [];
    TakeRule(x, 10, "Vector Databases");
  }

  lemma VdbsRules11To13(y: string)
    requires y == "Vector Databases"
    ensures ApplyFrom(y, 11) == ApplyFrom(y, 13)
  {
    assert RulesMiss(y, 11, 13) by { CorrectionsFacts(); }
    SkipRules(y, 11, 13);
  }

  lemma VdbsRules13To16(y: string)
    requires y == "Vector Databases"
    ensures ApplyFrom(y, 13) == y
  {
    assert RulesMiss(y, 13, 16) by { CorrectionsFacts(); }
    SkipRules(y, 13, 16);
  }

  /** Stem `vdbs` gives `Vector Databases`. */
  lemma VdbsExample(stem: string)
    requires stem == "vdbs"
    ensures TitleFromStem(stem) == "Vector Databases"
  {
    PlainStem(stem);
    CapitaliseLowerWord(stem);
    assert TitleCase(stem) == "Vdbs";
    VdbsRules0To6(TitleCase(stem));
    VdbsRules6To10(TitleCase(stem));
    VdbsRule10(TitleCase(stem));
    VdbsRules11To13("Vector Databases");
    VdbsRules13To16("Vector Databases");
  }

  // Stem `application`: the `App` rule (line 23) also matches inside the
  // word it expands to.

  lemma ApplicationRule0(x: string)
    requires x == "Application"
    ensures ApplyFrom(x, 0) == ApplyFrom(x, 1)
  {
    assert Replace(x, "Api", "API") == x by {
      assert x == ['A'] + "pplication";
      assert !StartsWith(x, "Api") by { assert x[2] != "Api"[2]; }
      ReplaceMiss('A', "pplication", "Api", "API");
      ReplaceAbsent("pplication", "Api", "API");
    }
    TakeRule(x, 0, x);
  }

  lemma ApplicationRules1To5(x: string)
    requires x == "Application"
    ensures ApplyFrom(x, 1) == ApplyFrom(x, 5)
  {
    assert RulesMiss(x, 1, 5) by { CorrectionsFacts(); }
    SkipRules(x, 1, 5);
  }

  lemma ApplicationRules5To9(x: string)
    requires x == "Application"
    ensures ApplyFrom(x, 5) == ApplyFrom(x, 9)
  {
    assert RulesMiss(x, 5, 9) by { CorrectionsFacts(); }
    SkipRules(x, 5, 9);
  }

  lemma ApplicationRule9(x: string, pat: string, rest: string, rep: string)
    requires pat == "App" && rest == "lication" && rep == "Application"
    requires x == pat + rest
    ensures ApplyFrom(x, 9) == ApplyFrom(rep + rest, 10)
  {
    assert Replace(x, pat, rep) == rep + rest by {
      ReplaceHit(rest, pat, rep);
      ReplaceAbsent(rest, pat, rep);
    }
    TakeRule(x, 9, rep + rest);
  }

  lemma ApplicationRules10To13(y: string)
    requires y == "Application" + "lication"
    ensures ApplyFrom(y, 10) == ApplyFrom(y, 13)
  {
    assert RulesMiss(y, 10, 13) by { CorrectionsFacts(); }
    SkipRules(y, 10, 13);
  }

  lemma ApplicationRules13To16(y: string)
    requires y == "Application" + "lication"
    ensures ApplyFrom(y, 13) == y
  {
    assert RulesMiss(y, 13, 16) by { CorrectionsFacts(); }
    SkipRules(y, 13, 16);
  }

  lemma ApplicationRules0To9(x: string)
    requires x == "Application"
    ensures ApplyFrom(x, 0) == ApplyFrom(x, 9)
  {
    ApplicationRule0(x);
    ApplicationRules1To5(x);
    ApplicationRules5To9(x);
  }

  lemma ApplicationRules10To16(y: string)
    requires y == "Application" + "lication"
    ensures ApplyFrom(y, 10) == y
  {
    ApplicationRules10To13(y);
    ApplicationRules13To16(y);
  }

  lemma ApplicationCapitalised(stem: string)
    requires stem == "application"
    ensures TitleCase(stem) == "Application"
  {
    CapitaliseLowerWord(stem);
  }

  lemma ApplicationCorrected(x: string)
    requires x == "Application"
    ensures Corrected(x) == "Application" + "lication"
  {
    ApplicationRules0To9(x);
    ApplicationRule9(x, "App", "lication", "Application");
    ApplicationRules10To16("Application" + "lication");
  }

  /** Stem `application` gives `Applicationlication`: the `App` rule also
      fires on the front of the word it would produce. */
  lemma ApplicationExample(stem: string)
    requires stem == "application"
    ensures TitleFromStem(stem) == "Application" + "lication"
  {
    PlainStem(stem);
    ApplicationCapitalised(stem);
    ApplicationCorrected(TitleCase(stem));
  }

  /** `str.title()` starts a new word after any non-letter, digits included. */
  lemma TitleCaseAfterDigit(s: string)
    requires s == "2go"
    ensures TitleCase(s) == "2Go"
  {
    TitleCaseAt(s);
  }
}
