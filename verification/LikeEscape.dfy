/** Escaping a directory name for SQL LIKE (internal/state/state.go:534-569). */
module LikeEscape {

  /** SQLite's LIKE folds the case of ASCII letters only. */
  function Fold(c: char): char {
    if 'A' <= c <= 'Z' then (c as int + 32) as char else c
  }

  predicate SameChar(a: char, b: char) {
    Fold(a) == Fold(b)
  }

  /** text LIKE pattern ESCAPE '\'. A backslash takes the next pattern character literally, and matches
      nothing at the end of the pattern. */
  predicate Like(pattern: string, text: string)
    decreases |pattern| + |text|
  {
    if pattern == "" then text == ""
    else if pattern[0] == '%' then
      Like(pattern[1..], text) || (text != "" && Like(pattern, text[1..]))
    else if pattern[0] == '_' then
      text != "" && Like(pattern[1..], text[1..])
    else if pattern[0] == '\\' then
      |pattern| > 1 && text != "" && SameChar(pattern[1], text[0]) && Like(pattern[2..], text[1..])
    else
      text != "" && SameChar(pattern[0], text[0]) && Like(pattern[1..], text[1..])
  }

  function ReplaceAll(s: string, c: char, repl: string): string {
    if s == "" then "" else (if s[0] == c then repl else [s[0]]) + ReplaceAll(s[1..], c, repl)
  }

  function Escape(s: string): string {
    ReplaceAll(ReplaceAll(ReplaceAll(s, '\\', "\\\\"), '%', "\\%"), '_', "\\_")
  }

  predicate Special(c: char) {
    c == '\\' || c == '%' || c == '_'
  }

  lemma {:induction false} ReplaceAllConcat(a: string, b: string, c: char, repl: string)
    ensures ReplaceAll(a + b, c, repl) == ReplaceAll(a, c, repl) + ReplaceAll(b, c, repl)
  {
    if a == "" {
      assert a + b == b;
    } else {
      assert (a + b)[1..] == a[1..] + b;
      ReplaceAllConcat(a[1..], b, c, repl);
    }
  }

  lemma ReplaceOne(x: char, c: char, repl: string)
    ensures ReplaceAll([x], c, repl) == if x == c then repl else [x]
  {
    assert ReplaceAll([x][1..], c, repl) == "";
  }

  /** The three replacements in this order put one backslash before each special character and nothing
      else: the backslashes of the later ones are not escaped again. */
  lemma EscapeFirst(s: string)
    requires s != ""
    ensures Escape(s) == (if Special(s[0]) then ['\\', s[0]] else [s[0]]) + Escape(s[1..])
  {
    var c := s[0];
    var s1 := ReplaceAll(s[1..], '\\', "\\\\");
    var c1 := if c == '\\' then "\\\\" else [c];
    var s2 := ReplaceAll(s1, '%', "\\%");
    var c2 := if c == '%' then "\\%" else c1;
    ReplaceAllConcat(c1, s1, '%', "\\%");
    ReplaceAllConcat(c2, s2, '_', "\\_");
    assert "\\\\" == ['\\'] + ['\\'] && "\\%" == ['\\'] + ['%'];
    ReplaceOne(c, '%', "\\%");
    ReplaceOne(c, '_', "\\_");
    ReplaceOne('%', '_', "\\_");
    ReplaceOne('\\', '%', "\\%");
    ReplaceOne('\\', '_', "\\_");
    ReplaceAllConcat(['\\'], ['\\'], '%', "\\%");
    ReplaceAllConcat(['\\'], ['\\'], '_', "\\_");
    ReplaceAllConcat(['\\'], ['%'], '_', "\\_");
  }

  predicate SameText(a: string, b: string) {
    |a| == |b| && forall i :: 0 <= i < |a| ==> SameChar(a[i], b[i])
  }

  /** text begins with prefix, up to the case of ASCII letters. */
  predicate BeginsLike(prefix: string, text: string) {
    |prefix| <= |text| && SameText(prefix, text[..|prefix|])
  }

  /** An escaped character matches itself only. */
  lemma EscapedCharMatches(c: char, rest: string, text: string)
    ensures Like((if Special(c) then ['\\', c] else [c]) + rest, text)
            <==> text != "" && SameChar(c, text[0]) && Like(rest, text[1..])
  {
    hide SameChar;
    var head := if Special(c) then ['\\', c] else [c];
    assert (head + rest)[|head|..] == rest;
  }

  /** An escaped name matches itself only, whatever wildcards it contains, and leaves the rest of the
      pattern to the rest of the text. */
  lemma {:induction false} EscapedMatchesLiterally(d: string, rest: string, text: string)
    ensures Like(Escape(d) + rest, text) <==> BeginsLike(d, text) && Like(rest, text[|d|..])
    decreases |d|
  {
    hide Like;
    if d == "" {
      assert Escape(d) + rest == rest;
      assert text[..0] == "" && text[0..] == text;
    } else {
      EscapeFirst(d);
      hide Escape, Special, SameChar;
      var head := if Special(d[0]) then ['\\', d[0]] else [d[0]];
      assert Escape(d) + rest == head + (Escape(d[1..]) + rest);
      EscapedCharMatches(d[0], Escape(d[1..]) + rest, text);
      if text != "" {
        EscapedMatchesLiterally(d[1..], rest, text[1..]);
        assert |d| <= |text| ==> text[1..][|d| - 1..] == text[|d|..];
        BeginsLikeFirst(d, text);
        hide BeginsLike;
      }
    }
  }

  lemma BeginsLikeFirst(d: string, text: string)
    requires d != "" && text != ""
    ensures BeginsLike(d, text) <==> SameChar(d[0], text[0]) && BeginsLike(d[1..], text[1..])
  {
    hide SameChar;
    if |d| <= |text| {
      assert forall i :: 0 < i < |d| ==> d[i] == d[1..][i - 1] && text[..|d|][i] == text[1..][..|d| - 1][i - 1];
      assert forall i :: 0 <= i < |d| - 1 ==> d[i + 1] == d[1..][i] && text[..|d|][i + 1] == text[1..][..|d| - 1][i];
    }
  }

  lemma {:induction false} PercentMatchesAll(text: string)
    ensures Like("%", text)
    decreases |text|
  {
    if text != "" { PercentMatchesAll(text[1..]); }
  }

  /** The pattern that the query builds for a directory. */
  function UnderDirPattern(d: string): string {
    Escape(d) + "/" + "%"
  }

  /** It accepts exactly the paths that begin with the directory and a slash, for every name. */
  lemma UnderDirExactly(d: string, path: string)
    ensures Like(UnderDirPattern(d), path) <==> BeginsLike(d + "/", path)
  {
    EscapeFirst("/");
    assert Escape("") == "" && "/"[1..] == "";
    assert Escape("/") == "/";
    assert UnderDirPattern(d) == Escape(d) + (Escape("/") + "%");
    EscapedMatchesLiterally(d, Escape("/") + "%", path);
    if |d| <= |path| {
      EscapedMatchesLiterally("/", "%", path[|d|..]);
      if |d| < |path| { PercentMatchesAll(path[|d|..][1..]); }
      BeginsLikeConcat(d, "/", path);
    }
  }

  lemma BeginsLikeConcat(a: string, b: string, text: string)
    requires |a| <= |text|
    ensures BeginsLike(a + b, text) <==> BeginsLike(a, text) && BeginsLike(b, text[|a|..])
  {
    hide SameChar;
    if |a + b| <= |text| {
      var t := text[..|a + b|];
      assert forall i :: 0 <= i < |a| ==> (a + b)[i] == a[i] && t[i] == text[..|a|][i];
      assert forall i :: 0 <= i < |b| ==> (a + b)[|a| + i] == b[i] && t[|a| + i] == text[|a|..][..|b|][i];
      assert forall i :: |a| <= i < |a + b| ==> (a + b)[i] == b[i - |a|] && t[i] == text[|a|..][..|b|][i - |a|];
    }
  }

  datatype Row = Row(project: string, relPath: string)

  /** The WHERE clause of the query. */
  predicate Selects(project: string, dirPrefix: string, row: Row) {
    row.project == project && (row.relPath == dirPrefix || Like(UnderDirPattern(dirPrefix), row.relPath))
  }

  predicate IsUnder(dir: string, path: string) {
    path == dir || dir + "/" <= path
  }

  /** Every path of the directory is selected; a path of some other directory is selected exactly when
      that directory's name differs from this one in the case of ASCII letters only. */
  lemma SelectsUnderDir(project: string, dir: string, path: string)
    ensures IsUnder(dir, path) ==> Selects(project, dir, Row(project, path))
    ensures Selects(project, dir, Row(project, path)) && !IsUnder(dir, path)
            <==> path != dir && BeginsLike(dir + "/", path) && path[..|dir| + 1] != dir + "/"
    ensures forall other :: Selects(project, dir, Row(other, path)) ==> other == project
  {
    UnderDirExactly(dir, path);
    assert |dir + "/"| == |dir| + 1;
  }

  /** For example, asking for "src" also selects what is under "SRC". */
  lemma OtherCaseIsSelected()
    ensures Selects("p", "src", Row("p", "SRC/a")) && !IsUnder("src", "SRC/a")
  {
    UnderDirExactly("src", "SRC/a");
    assert "src" + "/" == "src/";
    assert "SRC/a"[..4] == "SRC/";
    hide Like, UnderDirPattern;
    assert SameText("src/", "SRC/");
  }
}
