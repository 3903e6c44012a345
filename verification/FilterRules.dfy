/** Ignore rules and their translation to rclone's filter syntax (internal/filter/filter.go:104-149,
    294-306, 385-535). Whether one pattern matches one path is left to the two abstract matchers. */
module FilterRules {
  import opened TextLines

  predicate Blank(c: char) {
    c == ' ' || c == '\t'
  }

  // ----- trailing blanks

  /** Trailing blanks go, up to a space that a backslash escapes. */
  function TrimTrailing(s: string): string {
    if s == "" || !Blank(s[|s| - 1]) || EscapedSpaceAt(s, |s|) then s else TrimTrailing(s[..|s| - 1])
  }

  /** The i characters before position i end in an escaped space. */
  predicate EscapedSpaceAt(s: string, i: nat)
    requires i <= |s|
  {
    i >= 2 && s[i - 2] == '\\' && s[i - 1] == ' '
  }

  method TrimTrailingUnescaped(s: string) returns (r: string)
    ensures r == TrimTrailing(s)
  {
    var i := |s|;
    assert s[..i] == s;
    while i > 0 && Blank(s[i - 1])
      invariant 0 <= i <= |s|
      invariant TrimTrailing(s[..i]) == TrimTrailing(s)
    {
      assert EscapedSpaceAt(s[..i], i) <==> EscapedSpaceAt(s, i);
      if i >= 2 && s[i - 2] == '\\' && s[i - 1] == ' ' {
        break;
      }
      assert s[..i][..i - 1] == s[..i - 1];
      i := i - 1;
    }
    return s[..i];
  }

  /** What is left is the longest prefix that does not end in an unescaped blank, and only blanks are
      cut off. */
  lemma {:induction false} TrimTrailingIsLongest(s: string, n: nat)
    ensures var r := TrimTrailing(s);
            && r <= s && (forall i :: |r| <= i < |s| ==> Blank(s[i]))
            && (r == "" || !Blank(r[|r| - 1]) || EscapedSpaceAt(r, |r|))
            && (|r| < n <= |s| ==> Blank(s[n - 1]) && !EscapedSpaceAt(s, n))
  {
    if s != "" && Blank(s[|s| - 1]) && !EscapedSpaceAt(s, |s|) {
      TrimTrailingIsLongest(s[..|s| - 1], n);
    }
  }

  // ----- the rules in a .syncignore file

  function TrimLeading(s: string): string {
    if s != "" && Blank(s[0]) then TrimLeading(s[1..]) else s
  }

  function RuleOfLine(line: string): string {
    TrimLeading(TrimTrailing(TrimRightCR(line)))
  }

  predicate IsRule(line: string) {
    line != "" && line[0] != '#'
  }

  function RulesOfLines(lines: seq<string>): seq<string> {
    if lines == [] then []
    else
      var rule := RuleOfLine(lines[|lines| - 1]);
      RulesOfLines(lines[..|lines| - 1]) + if IsRule(rule) then [rule] else []
  }

  function ParseRules(content: string): seq<string> {
    RulesOfLines(Split(StripBOM(content)))
  }

  lemma {:induction false} RulesOfFirstLines(lines: seq<string>, j: nat)
    requires j <= |lines|
    ensures RulesOfLines(lines[..j]) <= RulesOfLines(lines)
    decreases |lines|
  {
    if j == |lines| {
      assert lines[..j] == lines;
    } else {
      RulesOfFirstLines(lines[..|lines| - 1], j);
      assert lines[..|lines| - 1][..j] == lines[..j];
    }
  }

  lemma RulesOfCutLines(cut: seq<string>, lines: seq<string>) returns (k: nat, stub: seq<string>)
    requires CutLines(cut, lines)
    ensures |stub| <= 1 && k <= |RulesOfLines(lines)|
    ensures RulesOfLines(cut) == RulesOfLines(lines)[..k] + stub
  {
    hide RuleOfLine, IsRule;
    var j := |cut| - 1;
    RulesOfFirstLines(lines, j);
    k := |RulesOfLines(lines[..j])|;
    stub := if IsRule(RuleOfLine(cut[j])) then [RuleOfLine(cut[j])] else [];
  }

  /** A file that is cut off somewhere keeps its first k rules, and may end in the stub of one more. */
  lemma CutRules(text: string, n: nat) returns (k: nat, stub: seq<string>)
    requires n <= |text|
    ensures |stub| <= 1 && k <= |ParseRules(text)|
    ensures ParseRules(text[..n]) == ParseRules(text)[..k] + stub
  {
    hide RulesOfLines, Split, CutLines;
    var body, m := StripBOM(text), if BOM <= text && n > 0 then n - 1 else n;
    assert StripBOM(text[..n]) == body[..m];
    SplitCut(body, m);
    k, stub := RulesOfCutLines(Split(body[..m]), Split(body));
  }

  /** A line without blanks at its ends is read as it stands. */
  lemma PlainRule(line: string)
    requires line != "" && !Blank(line[0]) && !Blank(line[|line| - 1]) && line[|line| - 1] != '\r'
    ensures RuleOfLine(line) == line
  {
  }

  lemma {:induction false} LeadingIsSuffix(s: string)
    ensures |TrimLeading(s)| <= |s| && TrimLeading(s) == s[|s| - |TrimLeading(s)|..]
    ensures TrimLeading(s) != "" ==> !Blank(TrimLeading(s)[0])
  {
    if s != "" && Blank(s[0]) { LeadingIsSuffix(s[1..]); }
  }

  /** No rule is empty, a comment, indented, or more than one line. */
  lemma {:induction false} ParsedRulesAreRules(lines: seq<string>, rule: string)
    requires rule in RulesOfLines(lines)
    ensures rule != "" && rule[0] != '#' && !Blank(rule[0])
  {
    var last := lines[|lines| - 1];
    if rule in RulesOfLines(lines[..|lines| - 1]) {
      ParsedRulesAreRules(lines[..|lines| - 1], rule);
    } else {
      LeadingIsSuffix(TrimTrailing(TrimRightCR(last)));
    }
  }

  /** A line that is read as it stands. */
  predicate IsPlainRule(line: string) {
    && OneLine(line) && line != "" && line[0] != '#' && !Blank(line[0]) && !Blank(line[|line| - 1]) && line[|line| - 1] != '\r'
    && !(BOM <= line)
  }

  /** A comment, or a line of blanks. */
  predicate IsSkipped(line: string) {
    OneLine(line) && ((line != "" && line[0] == '#') || forall i :: 0 <= i < |line| ==> Blank(line[i]))
  }

  lemma {:induction false} AllBlank(line: string)
    requires forall i :: 0 <= i < |line| ==> Blank(line[i])
    ensures TrimLeading(line) == "" && TrimRightCR(line) == line
    decreases |line|
  {
    if line != "" { AllBlank(line[1..]); }
  }

  lemma {:induction false} TrimRightCRFirst(line: string)
    requires line != "" && line[0] != '\r'
    ensures TrimRightCR(line) != "" && TrimRightCR(line)[0] == line[0]
    decreases |line|
  {
    if line[|line| - 1] == '\r' { TrimRightCRFirst(line[..|line| - 1]); }
  }

  lemma SkippedIsNoRule(line: string)
    requires IsSkipped(line)
    ensures !IsRule(RuleOfLine(line))
  {
    if line != "" && line[0] == '#' {
      TrimRightCRFirst(line);
      var s := TrimRightCR(line);
      TrimTrailingIsLongest(s, 1);
      assert TrimTrailing(s) != "" && TrimTrailing(s)[0] == '#';
    } else {
      AllBlank(line);
      TrimTrailingIsLongest(line, 1);
      var r := TrimTrailing(line);
      assert forall i :: 0 <= i < |r| ==> Blank(r[i]);
      AllBlank(r);
    }
  }

  function PlainRules(lines: seq<string>): seq<string> {
    if lines == [] then []
    else
      var last := lines[|lines| - 1];
      PlainRules(lines[..|lines| - 1]) + if IsPlainRule(last) then [last] else []
  }

  lemma {:induction false} LinesReadBack(lines: seq<string>)
    requires forall l :: l in lines ==> IsPlainRule(l) || IsSkipped(l)
    ensures RulesOfLines(lines) == PlainRules(lines)
  {
    if lines != [] {
      var last := lines[|lines| - 1];
      LinesReadBack(lines[..|lines| - 1]);
      assert last in lines;
      if IsPlainRule(last) { PlainRule(last); } else { SkippedIsNoRule(last); }
      hide RuleOfLine;
    }
  }

  /** A file of plain rules, comments and blank lines is read as exactly its plain rules, in their order. */
  lemma FileReadsBack(lines: seq<string>)
    requires lines != [] && !(BOM <= lines[0]) && forall l :: l in lines ==> IsPlainRule(l) || IsSkipped(l)
    ensures ParseRules(Join(lines)) == PlainRules(lines)
  {
    LinesReadBack(lines);
    SplitJoin(lines);
    JoinedStart(lines);
  }

  /** A byte order mark in front changes nothing. */
  lemma ByteOrderMarkIsIgnored(text: string)
    requires !(BOM <= text)
    ensures ParseRules(BOM + text) == ParseRules(text)
  {
    assert (BOM + text)[1..] == text;
  }

  lemma OnePlainRule(a: string)
    requires IsPlainRule(a)
    ensures ParseRules(a) == [a]
  {
    FileReadsBack([a]);
    hide ParseRules, IsPlainRule;
    assert [a][..0] == [];
  }

  lemma TwoPlainRules(a: string, b: string)
    requires IsPlainRule(a) && IsPlainRule(b)
    ensures ParseRules(a + "\n" + b) == [a, b]
  {
    FileReadsBack([a, b]);
    hide ParseRules, IsPlainRule;
    assert [a, b][1..] == [b] && [a, b][..1] == [a] && [a][..0] == [];
    assert PlainRules([a]) == [a];
  }

  // ----- last match wins, and first match wins

  /** Whether a pattern matches a path: gitignore's matcher on the pattern after any '!', and rclone's on
      the text after the sign of a filter line. */
  type Matcher = (string, string) -> bool

  predicate IsNegation(rule: string) {
    rule != "" && rule[0] == '!'
  }

  predicate Matches(m: Matcher, rule: string, path: string) {
    m(if IsNegation(rule) then rule[1..] else rule, path)
  }

  /** gitignore: the last rule that matches decides; without one the path is kept. */
  predicate LastMatchExcludes(m: Matcher, rules: seq<string>, path: string) {
    rules != [] &&
    (var last := rules[|rules| - 1];
     if Matches(m, last, path) then !IsNegation(last) else LastMatchExcludes(m, rules[..|rules| - 1], path))
  }

  predicate LineMatches(m: Matcher, line: string, path: string) {
    |line| >= 2 && m(line[2..], path)
  }

  /** rclone: the first line that matches decides; without one the path is kept. */
  predicate FirstMatchExcludes(m: Matcher, lines: seq<string>, path: string) {
    lines != [] &&
    (if LineMatches(m, lines[0], path) then lines[0][0] == '-' else FirstMatchExcludes(m, lines[1..], path))
  }

  // ----- the translation

  function UnescapeSpaces(s: string): string {
    if s == "" then ""
    else if "\\ " <= s then " " + UnescapeSpaces(s[2..])
    else [s[0]] + UnescapeSpaces(s[1..])
  }

  function ToRclone(rule: string): (line: string)
    ensures |line| >= 2
  {
    var p := UnescapeSpaces(TrimTrailing(rule));
    if IsNegation(p) then "+ " + p[1..]
    else if p != "" && p[|p| - 1] == '/' then "- " + p + "**"
    else "- " + p
  }

  lemma {:induction false} SignOfTranslation(rule: string)
    ensures ToRclone(rule)[0] == if IsNegation(rule) then '+' else '-'
  {
    TrimTrailingIsLongest(rule, 1);
    var t := TrimTrailing(rule);
    assert t != "" ==> t[0] == rule[0];
    assert IsNegation(UnescapeSpaces(t)) <==> IsNegation(t);
  }

  function EscapeSpaces(s: string): string {
    if s == "" then "" else (if s[0] == ' ' then "\\ " else [s[0]]) + EscapeSpaces(s[1..])
  }

  lemma {:induction false} UnescapeEscaped(s: string)
    ensures UnescapeSpaces(EscapeSpaces(s)) == s
    ensures EscapeSpaces(s) != "" ==> EscapeSpaces(s)[0] != ' '
  {
    if s != "" {
      var rest, e := EscapeSpaces(s[1..]), EscapeSpaces(s);
      UnescapeEscaped(s[1..]);
      assert s == [s[0]] + s[1..];
      if s[0] == ' ' {
        assert e == "\\ " + rest && e[2..] == rest;
      } else {
        assert e == [s[0]] + rest && e[1..] == rest;
      }
      hide EscapeSpaces;
    }
  }

  /** An escaped text ends as the text does, or in an escaped space. */
  lemma {:induction false} EscapedEnd(s: string)
    requires s != ""
    ensures var e := EscapeSpaces(s);
            e != "" && e[|e| - 1] == s[|s| - 1] && (s[|s| - 1] == ' ' ==> EscapedSpaceAt(e, |e|))
  {
    var rest, e := EscapeSpaces(s[1..]), EscapeSpaces(s);
    assert e == (if s[0] == ' ' then "\\ " else [s[0]]) + rest;
    if s[1..] != "" {
      EscapedEnd(s[1..]);
      assert e[|e| - 1] == rest[|rest| - 1] && (|rest| >= 2 ==> e[|e| - 2] == rest[|rest| - 2]);
    }
  }

  lemma EscapedIsTrimmed(s: string)
    requires s != "" && s[|s| - 1] != '\t'
    ensures TrimTrailing(EscapeSpaces(s)) == EscapeSpaces(s)
  {
    EscapedEnd(s);
    hide EscapeSpaces;
  }

  /** The translation keeps the pattern: a rule for a literal name, whose blanks are escaped as gitignore
      wants them, becomes the line with that very name, and a directory's line covers what is in it. Tabs at
      the end are lost, since they cannot be escaped. */
  lemma LiteralNameIsKept(name: string)
    requires name != "" && name[|name| - 1] != '\t'
    ensures name[0] != '!' ==>
              ToRclone(EscapeSpaces(name)) == "- " + name + if name[|name| - 1] == '/' then "**" else ""
    ensures ToRclone("!" + EscapeSpaces(name)) == "+ " + name
  {
    UnescapeEscaped(name);
    EscapedIsTrimmed(name);
    NegatedIsKept(name);
    hide EscapeSpaces, UnescapeSpaces, TrimTrailing, ToRclone;
    Translation(EscapeSpaces(name), name);
  }

  lemma Translation(rule: string, pattern: string)
    requires UnescapeSpaces(TrimTrailing(rule)) == pattern != ""
    ensures ToRclone(rule) == if pattern[0] == '!' then "+ " + pattern[1..]
                              else "- " + pattern + if pattern[|pattern| - 1] == '/' then "**" else ""
  {
    hide UnescapeSpaces, TrimTrailing;
    assert "- " + pattern + "" == "- " + pattern;
  }

  lemma NegatedIsKept(name: string)
    requires name != "" && name[|name| - 1] != '\t'
    ensures ToRclone("!" + EscapeSpaces(name)) == "+ " + name
  {
    var negated := "!" + name;
    assert negated[|name|] == name[|name| - 1] && negated[1..] == name;
    UnescapeEscaped(negated);
    EscapedIsTrimmed(negated);
    assert EscapeSpaces(negated) == "!" + EscapeSpaces(name);
    hide EscapeSpaces, UnescapeSpaces, TrimTrailing, ToRclone;
    Translation(EscapeSpaces(negated), negated);
  }

  /** A global exclude of a whole directory, which the translation moves to the top. */
  predicate IsHoisted(rule: string) {
    rule != "" && rule[|rule| - 1] == '/' && !IsNegation(rule)
  }

  function Translated(rules: seq<string>): seq<string> {
    if rules == [] then [] else [ToRclone(rules[0])] + Translated(rules[1..])
  }

  function Reversed(rules: seq<string>): seq<string> {
    if rules == [] then [] else [rules[|rules| - 1]] + Reversed(rules[..|rules| - 1])
  }

  /** The hoisted rules, or the others, in order. */
  function Sift(rules: seq<string>, hoisted: bool): seq<string> {
    if rules == [] then []
    else
      var last := rules[|rules| - 1];
      var earlier := Sift(rules[..|rules| - 1], hoisted);
      if IsHoisted(last) == hoisted then earlier + [last] else earlier
  }

  /** The rules that are not bad, in order. */
  function Without(rules: seq<string>, bad: set<string>): seq<string> {
    if rules == [] then []
    else
      var last := rules[|rules| - 1];
      var earlier := Without(rules[..|rules| - 1], bad);
      if last !in bad then earlier + [last] else earlier
  }

  /** The last element of a slash-separated path (filepath.Base). */
  function Base(path: string): string {
    if path == "" then "."
    else
      var p := StripSlashes(path);
      if p == "/" then p else LastElement(p)
  }

  function StripSlashes(path: string): string {
    if |path| > 1 && path[|path| - 1] == '/' then StripSlashes(path[..|path| - 1]) else path
  }

  function LastElement(path: string): string {
    if path == "" || path[|path| - 1] == '/' then "" else LastElement(path[..|path| - 1]) + [path[|path| - 1]]
  }

  const CONTROL_FILE: string := ".syncignore"

  datatype Rules = Rules(globals: seq<string>, project: seq<string>, bad: set<string>, syncIgnorePath: string) {
    function Custom(): string {
      if syncIgnorePath == "" then "" else Base(syncIgnorePath)
    }

    function ControlLines(): seq<string> {
      ["- " + CONTROL_FILE] + if Custom() != "" && Custom() != CONTROL_FILE then ["- " + Custom()] else []
    }

    function Hoisted(): seq<string> {
      Without(Sift(globals, true), bad)
    }

    function Others(): seq<string> {
      Without(Sift(globals, false) + project, bad)
    }

    /** The lines of the generated filter file. */
    function Generated(): seq<string> {
      ControlLines() + Translated(Hoisted()) + Translated(Reversed(Others())) + ["+ **"]
    }

    /** The rules of the compiled matcher: globals, then project rules, without those that do not compile. */
    function Merged(): seq<string> {
      Without(globals + project, bad)
    }

    predicate IsExcluded(m: Matcher, path: string) {
      || Base(path) == CONTROL_FILE
      || (syncIgnorePath != "" && Base(path) == Base(syncIgnorePath) && '/' !in path)
      || LastMatchExcludes(m, Merged(), path)
    }
  }

  /** The program's loops that build the lines of the filter file. */
  method GenerateLines(r: Rules) returns (lines: seq<string>)
    ensures lines == r.Generated()
  {
    var globalDirExcludes, otherGlobalRules := [], [];
    for i := 0 to |r.globals|
      invariant globalDirExcludes == Sift(r.globals[..i], true)
      invariant otherGlobalRules == Sift(r.globals[..i], false)
    {
      assert r.globals[..i + 1][..i] == r.globals[..i];
      if IsHoisted(r.globals[i]) {
        globalDirExcludes := globalDirExcludes + [r.globals[i]];
      } else {
        otherGlobalRules := otherGlobalRules + [r.globals[i]];
      }
    }
    assert r.globals[..|r.globals|] == r.globals;
    var combined := otherGlobalRules + r.project;
    lines := ["- " + CONTROL_FILE];
    if r.Custom() != "" && r.Custom() != CONTROL_FILE {
      lines := lines + ["- " + r.Custom()];
    }
    assert lines == r.ControlLines();
    lines := AppendTranslated(lines, globalDirExcludes, r.bad);
    lines := AppendReversed(lines, combined, r.bad);
    lines := lines + ["+ **"];
  }

  method AppendTranslated(before: seq<string>, rules: seq<string>, bad: set<string>) returns (lines: seq<string>)
    ensures lines == before + Translated(Without(rules, bad))
  {
    lines := before;
    for i := 0 to |rules|
      invariant lines == before + Translated(Without(rules[..i], bad))
    {
      assert rules[..i + 1][..i] == rules[..i];
      if rules[i] !in bad {
        TranslatedConcat(Without(rules[..i], bad), [rules[i]]);
        assert [rules[i]][1..] == [] && Translated([rules[i]]) == [ToRclone(rules[i])];
        lines := lines + [ToRclone(rules[i])];
      }
    }
    assert rules[..|rules|] == rules;
  }

  method AppendReversed(before: seq<string>, rules: seq<string>, bad: set<string>) returns (lines: seq<string>)
    ensures lines == before + Translated(Reversed(Without(rules, bad)))
  {
    lines := before;
    var i := |rules|;
    assert rules[..i] == rules;
    while i > 0
      invariant 0 <= i <= |rules|
      invariant lines + Translated(Reversed(Without(rules[..i], bad)))
                == before + Translated(Reversed(Without(rules, bad)))
    {
      i := i - 1;
      assert rules[..i + 1][..i] == rules[..i];
      if rules[i] !in bad {
        ghost var rest := Without(rules[..i], bad);
        assert (rest + [rules[i]])[..|rest|] == rest;
        assert lines + ([ToRclone(rules[i])] + Translated(Reversed(rest)))
               == (lines + [ToRclone(rules[i])]) + Translated(Reversed(rest));
        lines := lines + [ToRclone(rules[i])];
      }
    }
  }

  lemma {:induction false} TranslatedConcat(a: seq<string>, b: seq<string>)
    ensures Translated(a + b) == Translated(a) + Translated(b)
  {
    if a == [] {
      assert a + b == b;
    } else {
      assert (a + b)[1..] == a[1..] + b;
      TranslatedConcat(a[1..], b);
    }
  }

  // ----- the two lists agree

  lemma {:induction false} WithoutConcat(a: seq<string>, b: seq<string>, bad: set<string>)
    ensures Without(a + b, bad) == Without(a, bad) + Without(b, bad)
  {
    if b == [] {
      assert a + b == a;
    } else {
      assert (a + b)[..|a + b| - 1] == a + b[..|b| - 1];
      WithoutConcat(a, b[..|b| - 1], bad);
    }
  }

  /** An earlier part of the list counts only through its own verdict. */
  lemma {:induction false} VerdictOfPrefix(m: Matcher, a: seq<string>, a': seq<string>, b: seq<string>, path: string)
    requires LastMatchExcludes(m, a, path) == LastMatchExcludes(m, a', path)
    ensures LastMatchExcludes(m, a + b, path) == LastMatchExcludes(m, a' + b, path)
  {
    if b == [] {
      assert a + b == a && a' + b == a';
    } else {
      assert (a + b)[..|a + b| - 1] == a + b[..|b| - 1];
      assert (a' + b)[..|a' + b| - 1] == a' + b[..|b| - 1];
      VerdictOfPrefix(m, a, a', b[..|b| - 1], path);
    }
  }

  ghost predicate AnyMatches(m: Matcher, rules: seq<string>, path: string) {
    exists rule :: rule in rules && Matches(m, rule, path)
  }

  /** Hoisted rules that do not match can be left out of the list. */
  lemma {:induction false} UnmatchedHoistedDropOut(m: Matcher, globals: seq<string>, bad: set<string>, path: string)
    requires !AnyMatches(m, Without(Sift(globals, true), bad), path)
    ensures LastMatchExcludes(m, Without(globals, bad), path)
            == LastMatchExcludes(m, Without(Sift(globals, false), bad), path)
  {
    if globals != [] {
      var init, last := globals[..|globals| - 1], globals[|globals| - 1];
      WithoutConcat(Sift(init, true), [last], bad);
      WithoutConcat(Sift(init, false), [last], bad);
      assert Without([last], bad) == if last in bad then [] else [last];
      assert IsHoisted(last) ==> Sift(globals, true) == Sift(init, true) + [last] && Sift(globals, false) == Sift(init, false);
      assert !IsHoisted(last) ==> Sift(globals, true) == Sift(init, true) && Sift(globals, false) == Sift(init, false) + [last];
      forall rule | rule in Without(Sift(init, true), bad) ensures rule in Without(Sift(globals, true), bad) {}
      assert IsHoisted(last) && last !in bad ==> last in Without(Sift(globals, true), bad);
      UnmatchedHoistedDropOut(m, init, bad, path);
      hide IsHoisted, Matches;
      var kept := Without(Sift(init, false), bad);
      assert (kept + [last])[..|kept|] == kept;
      var all := Without(init, bad);
      assert (all + [last])[..|all|] == all;
    }
  }

  /** rclone reads the translation of a rule as gitignore reads the rule. */
  ghost predicate Faithful(gm: Matcher, rm: Matcher, rules: seq<string>, path: string) {
    forall rule :: rule in rules ==> (LineMatches(rm, ToRclone(rule), path) <==> Matches(gm, rule, path))
  }

  /** Reading the reversed list first-match-first is reading the list last-match-first. */
  lemma {:induction false} ReversedReadsTheSame(gm: Matcher, rm: Matcher, rules: seq<string>, path: string)
    requires Faithful(gm, rm, rules, path) && rm("**", path)
    ensures FirstMatchExcludes(rm, Translated(Reversed(rules)) + ["+ **"], path) == LastMatchExcludes(gm, rules, path)
  {
    if rules == [] {
      assert "+ **"[2..] == "**";
    } else {
      var init, last := rules[..|rules| - 1], rules[|rules| - 1];
      ReversedReadsTheSame(gm, rm, init, path);
      SignOfTranslation(last);
      var rest := Translated(Reversed(init)) + ["+ **"];
      assert Translated(Reversed(rules)) + ["+ **"] == [ToRclone(last)] + rest;
    }
  }

  /** Excludes at the top decide first. */
  lemma {:induction false} ExcludesFirst(gm: Matcher, rm: Matcher, rules: seq<string>, tail: seq<string>, path: string)
    requires Faithful(gm, rm, rules, path) && forall rule :: rule in rules ==> !IsNegation(rule)
    ensures FirstMatchExcludes(rm, Translated(rules) + tail, path)
            <==> AnyMatches(gm, rules, path) || FirstMatchExcludes(rm, tail, path)
  {
    hide Matches, LineMatches, ToRclone, IsNegation;
    if rules == [] {
      assert Translated(rules) + tail == tail;
    } else {
      ExcludesFirst(gm, rm, rules[1..], tail, path);
      SignOfTranslation(rules[0]);
      assert Translated(rules) + tail == [ToRclone(rules[0])] + (Translated(rules[1..]) + tail);
      assert rules == [rules[0]] + rules[1..];
      assert forall rule :: rule in rules <==> rule == rules[0] || rule in rules[1..];
    }
  }

  lemma {:induction false} WithoutIsSubset(rules: seq<string>, bad: set<string>)
    ensures forall rule :: rule in Without(rules, bad) <==> rule in rules && rule !in bad
  {
    if rules != [] {
      WithoutIsSubset(rules[..|rules| - 1], bad);
      assert rules == rules[..|rules| - 1] + [rules[|rules| - 1]];
    }
  }

  lemma {:induction false} SiftIsSubset(rules: seq<string>, hoisted: bool)
    ensures forall rule :: rule in Sift(rules, hoisted) <==> rule in rules && IsHoisted(rule) == hoisted
  {
    if rules != [] {
      SiftIsSubset(rules[..|rules| - 1], hoisted);
      assert rules == rules[..|rules| - 1] + [rules[|rules| - 1]];
    }
  }

  /** rclone reads a name without a slash as matching the last element of the path, and ** as matching
      everything. */
  ghost predicate ReadsControlLines(rm: Matcher, r: Rules, path: string) {
    && rm("**", path)
    && (rm(CONTROL_FILE, path) <==> Base(path) == CONTROL_FILE)
    && (r.Custom() != "" ==> (rm(r.Custom(), path) <==> Base(path) == r.Custom()))
  }

  lemma ControlLinesFirst(rm: Matcher, r: Rules, tail: seq<string>, path: string)
    requires ReadsControlLines(rm, r, path)
    ensures FirstMatchExcludes(rm, r.ControlLines() + tail, path)
            <==> Base(path) == CONTROL_FILE || (r.Custom() != "" && Base(path) == r.Custom())
                 || FirstMatchExcludes(rm, tail, path)
  {
    hide Base;
    var first, second := "- " + CONTROL_FILE, "- " + r.Custom();
    assert first[2..] == CONTROL_FILE && second[2..] == r.Custom();
    if r.Custom() != "" && r.Custom() != CONTROL_FILE {
      assert r.ControlLines() + tail == [first] + ([second] + tail);
      assert ([second] + tail)[1..] == tail;
    } else {
      assert r.ControlLines() + tail == [first] + tail;
    }
    assert ([first] + tail)[1..] == tail;
  }

  /** A global exclude of a whole directory that compiles matches the path. */
  ghost predicate DirExcludeMatches(m: Matcher, r: Rules, path: string) {
    exists rule :: rule in r.globals && rule !in r.bad && m(rule, path)
                   && rule != "" && rule[|rule| - 1] == '/' && rule[0] != '!'
  }

  lemma HoistedMatchesIff(m: Matcher, r: Rules, path: string)
    ensures AnyMatches(m, r.Hoisted(), path) <==> DirExcludeMatches(m, r, path)
  {
    WithoutIsSubset(Sift(r.globals, true), r.bad);
    SiftIsSubset(r.globals, true);
    hide Sift, Without;
  }

  /** The generated filter file excludes everything that IsExcluded excludes, and beyond that exactly what
      a global directory exclude matches, which a later negation can no longer re-include, and files below
      the root that are named like the configured ignore file. */
  lemma GeneratedFileAgrees(gm: Matcher, rm: Matcher, r: Rules, path: string)
    requires Faithful(gm, rm, r.Hoisted() + r.Others(), path) && ReadsControlLines(rm, r, path)
    ensures FirstMatchExcludes(rm, r.Generated(), path)
            <==> || r.IsExcluded(gm, path)
                 || DirExcludeMatches(gm, r, path)
                 || (r.Custom() != "" && Base(path) == r.Custom() && '/' in path)
  {
    var others, hoisted := r.Others(), r.Hoisted();
    GeneratedReads(gm, rm, r, path);
    HoistedMatchesIff(gm, r, path);
    if !AnyMatches(gm, hoisted, path) {
      UnmatchedHoistedDropOut(gm, r.globals, r.bad, path);
      WithoutConcat(r.globals, r.project, r.bad);
      WithoutConcat(Sift(r.globals, false), r.project, r.bad);
      VerdictOfPrefix(gm, Without(r.globals, r.bad), Without(Sift(r.globals, false), r.bad), Without(r.project, r.bad), path);
    }
    CustomName(r);
    hide Base, AnyMatches, LastMatchExcludes, FirstMatchExcludes, Sift, Without, DirExcludeMatches;
  }

  /** Rule i is the last of the rules that compile and match. */
  ghost predicate Decides(m: Matcher, rules: seq<string>, bad: set<string>, path: string, i: int) {
    && 0 <= i < |rules| && rules[i] !in bad && Matches(m, rules[i], path)
    && forall j :: i < j < |rules| ==> rules[j] in bad || !Matches(m, rules[j], path)
  }

  lemma {:induction false} LastMatchDecides(m: Matcher, rules: seq<string>, bad: set<string>, path: string)
    ensures LastMatchExcludes(m, Without(rules, bad), path)
            <==> exists i :: Decides(m, rules, bad, path, i) && !("!" <= rules[i])
  {
    hide Matches;
    if rules != [] {
      var n := |rules| - 1;
      var earlier, last := rules[..n], rules[n];
      LastMatchDecides(m, earlier, bad, path);
      forall i ensures Decides(m, rules, bad, path, i)
                       <==> if last !in bad && Matches(m, last, path) then i == n else Decides(m, earlier, bad, path, i)
      {
        assert forall j :: 0 <= j < n ==> earlier[j] == rules[j];
      }
      var kept := Without(earlier, bad);
      assert (kept + [last])[..|kept|] == kept;
      assert IsNegation(last) <==> "!" <= last;
      if last !in bad && Matches(m, last, path) {
        assert Decides(m, rules, bad, path, n);
      }
      hide Decides;
      assert forall i :: Decides(m, earlier, bad, path, i) ==> earlier[i] == rules[i] by { DecidesInRange(m, earlier, bad, path); }
    }
  }

  lemma DecidesInRange(m: Matcher, rules: seq<string>, bad: set<string>, path: string)
    ensures forall i :: Decides(m, rules, bad, path, i) ==> 0 <= i < |rules|
  {
  }

  /** A path is excluded exactly if it is a control file, or the last rule that compiles and matches it,
      project rules coming after global ones, is no negation. */
  lemma IsExcludedIff(m: Matcher, r: Rules, path: string)
    ensures r.IsExcluded(m, path)
            <==> || Base(path) == ".syncignore"
                 || (r.syncIgnorePath != "" && Base(path) == Base(r.syncIgnorePath) && '/' !in path)
                 || exists i :: Decides(m, r.globals + r.project, r.bad, path, i) && !("!" <= (r.globals + r.project)[i])
  {
    LastMatchDecides(m, r.globals + r.project, r.bad, path);
    hide Base, LastMatchExcludes, Without, Decides;
  }

  /** The base name of a file in a directory is its name. */
  lemma BaseOfJoined(dir: string, name: string)
    requires name != "" && '/' !in name
    ensures Base(name) == name && Base(dir + "/" + name) == name
  {
    var path := dir + "/" + name;
    assert name[|name| - 1] in name && path[|path| - 1] == name[|name| - 1];
    assert StripSlashes(path) == path && StripSlashes(name) == name;
    LastElementOfJoined(dir + "/", name);
    LastElementOfJoined("", name);
    assert "" + name == name;
    assert name != "/" by { assert name == "/" ==> '/' in name; }
    assert path != "/" by { assert |path| >= 2; }
  }

  lemma {:induction false} LastElementOfJoined(front: string, name: string)
    requires '/' !in name && (front == "" || front[|front| - 1] == '/')
    ensures LastElement(front + name) == name
    decreases |name|
  {
    var path := front + name;
    if name == "" {
      assert path == front;
    } else {
      var init, last := name[..|name| - 1], name[|name| - 1];
      assert last in name && name == init + [last];
      assert path[..|path| - 1] == front + init && path[|path| - 1] == last;
      LastElementOfJoined(front, init);
    }
  }

  lemma GeneratedExcludesControl(rm: Matcher, r: Rules, path: string)
    requires Base(path) == CONTROL_FILE && ReadsControlLines(rm, r, path)
    ensures FirstMatchExcludes(rm, r.Generated(), path)
  {
    hide Base, Translated, Reversed, FirstMatchExcludes;
    var tail := Translated(r.Hoisted()) + (Translated(Reversed(r.Others())) + ["+ **"]);
    assert r.Generated() == r.ControlLines() + tail;
    ControlLinesFirst(rm, r, tail, path);
  }

  /** The control file is kept from the remote in the root and in every directory, by the matcher and by the
      generated file. */
  lemma ControlFileIsExcluded(gm: Matcher, rm: Matcher, r: Rules, dir: string, path: string)
    requires path == ".syncignore" || path == dir + "/" + ".syncignore"
    ensures r.IsExcluded(gm, path)
    ensures ReadsControlLines(rm, r, path) ==> FirstMatchExcludes(rm, r.Generated(), path)
  {
    BaseOfJoined(dir, ".syncignore");
    hide Base, LastMatchExcludes, FirstMatchExcludes;
    if ReadsControlLines(rm, r, path) { GeneratedExcludesControl(rm, r, path); }
  }

  /** The generated list, read from the top: control files, hoisted excludes, the rest. */
  lemma GeneratedReads(gm: Matcher, rm: Matcher, r: Rules, path: string)
    requires Faithful(gm, rm, r.Hoisted() + r.Others(), path) && ReadsControlLines(rm, r, path)
    ensures FirstMatchExcludes(rm, r.Generated(), path)
            <==> || Base(path) == CONTROL_FILE || (r.Custom() != "" && Base(path) == r.Custom())
                 || AnyMatches(gm, r.Hoisted(), path)
                 || LastMatchExcludes(gm, r.Others(), path)
  {
    hide Base, AnyMatches, LastMatchExcludes, FirstMatchExcludes, Matches, LineMatches, ToRclone, IsNegation, Faithful;
    var others, hoisted := r.Others(), r.Hoisted();
    FaithfulParts(gm, rm, r, path);
    var tail := Translated(Reversed(others)) + ["+ **"];
    assert r.Generated() == r.ControlLines() + (Translated(hoisted) + tail);
    ReversedReadsTheSame(gm, rm, others, path);
    ExcludesFirst(gm, rm, hoisted, tail, path);
    ControlLinesFirst(rm, r, Translated(hoisted) + tail, path);
  }

  lemma FaithfulParts(gm: Matcher, rm: Matcher, r: Rules, path: string)
    requires Faithful(gm, rm, r.Hoisted() + r.Others(), path)
    ensures Faithful(gm, rm, r.Others(), path) && Faithful(gm, rm, r.Hoisted(), path)
    ensures forall rule :: rule in r.Hoisted() ==> !IsNegation(rule)
  {
    hide Matches, LineMatches, ToRclone;
    WithoutIsSubset(Sift(r.globals, true), r.bad);
    SiftIsSubset(r.globals, true);
    var all := r.Hoisted() + r.Others();
    assert forall rule :: rule in r.Hoisted() || rule in r.Others() ==> rule in all;
  }

  lemma CustomName(r: Rules)
    ensures r.Custom() != "" ==> r.syncIgnorePath != "" && r.Custom() == Base(r.syncIgnorePath)
    ensures r.syncIgnorePath != "" ==> r.Custom() != ""
  {
    if r.syncIgnorePath != "" { BaseNotEmpty(r.syncIgnorePath); }
  }

  lemma {:induction false} BaseNotEmpty(path: string)
    ensures Base(path) != ""
  {
    if path != "" {
      StrippedEnd(path);
    }
  }

  lemma {:induction false} StrippedEnd(path: string)
    requires path != ""
    ensures var p := StripSlashes(path); p != "" && (p == "/" || p[|p| - 1] != '/')
  {
    if |path| > 1 && path[|path| - 1] == '/' { StrippedEnd(path[..|path| - 1]); }
  }
}
