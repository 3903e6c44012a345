/** Splitting a text into lines and putting it together again (strings.Split and strings.Join at "\n"). */
module TextLines {

  predicate OneLine(s: string) {
    '\n' !in s
  }

  function Split(s: string): (lines: seq<string>)
    ensures |lines| >= 1
  {
    if s == "" then [""]
    else
      var rest := Split(s[1..]);
      if s[0] == '\n' then [""] + rest else [[s[0]] + rest[0]] + rest[1..]
  }

  function Join(lines: seq<string>): string
    requires |lines| >= 1
  {
    if |lines| == 1 then lines[0] else lines[0] + "\n" + Join(lines[1..])
  }

  lemma {:induction false} JoinSplit(s: string)
    ensures Join(Split(s)) == s
  {
    if s != "" {
      var rest := Split(s[1..]);
      JoinSplit(s[1..]);
      assert s == [s[0]] + s[1..];
      if s[0] == '\n' {
        assert Split(s)[1..] == rest;
      } else {
        assert Split(s)[1..] == rest[1..];
        if |rest| > 1 {
          assert Join(Split(s)) == ([s[0]] + rest[0]) + "\n" + Join(rest[1..]);
        }
      }
    }
  }

  lemma {:induction false} SplitOneLine(s: string)
    requires OneLine(s)
    ensures Split(s) == [s]
  {
    if s != "" {
      SplitOneLine(s[1..]);
      assert s == [s[0]] + s[1..];
    }
  }

  lemma {:induction false} SplitAtNewline(first: string, rest: string)
    requires OneLine(first)
    ensures Split(first + "\n" + rest) == [first] + Split(rest)
  {
    var s := first + "\n" + rest;
    if first == "" {
      assert s[1..] == rest;
    } else {
      SplitAtNewline(first[1..], rest);
      assert s[1..] == first[1..] + "\n" + rest;
      assert first == [first[0]] + first[1..];
    }
  }

  lemma {:induction false} SplitJoin(lines: seq<string>)
    requires |lines| >= 1 && forall l :: l in lines ==> OneLine(l)
    ensures Split(Join(lines)) == lines
  {
    if |lines| == 1 {
      SplitOneLine(lines[0]);
    } else {
      SplitAtNewline(lines[0], Join(lines[1..]));
      SplitJoin(lines[1..]);
    }
  }

  lemma {:induction false} SplitGivesLines(s: string)
    ensures forall l :: l in Split(s) ==> OneLine(l)
  {
    if s != "" {
      SplitGivesLines(s[1..]);
      var rest := Split(s[1..]);
      forall l | l in Split(s) ensures OneLine(l) {
        if s[0] != '\n' && l == [s[0]] + rest[0] { assert rest[0] in rest; }
      }
    }
  }

  /** The lines of a cut text are those of the whole up to the cut, and a part of the line cut. */
  ghost predicate CutLines(cut: seq<string>, lines: seq<string>) {
    var j := |cut| - 1;
    0 <= j < |lines| && cut[..j] == lines[..j] && cut[j] <= lines[j]
  }

  lemma CutAtStart(lines: seq<string>)
    requires lines != []
    ensures CutLines([""], lines)
  {
    assert [""][..0] == lines[..0];
  }

  lemma CutLinesNewline(cut: seq<string>, lines: seq<string>)
    requires CutLines(cut, lines)
    ensures CutLines([""] + cut, [""] + lines)
  {
    var j := |cut| - 1;
    assert ([""] + cut)[..j + 1] == [""] + cut[..j] && ([""] + lines)[..j + 1] == [""] + lines[..j];
  }

  lemma CutLinesChar(c: char, cut: seq<string>, lines: seq<string>)
    requires CutLines(cut, lines)
    ensures CutLines([[c] + cut[0]] + cut[1..], [[c] + lines[0]] + lines[1..])
  {
    var j := |cut| - 1;
    if j > 0 {
      var cut', lines' := [[c] + cut[0]] + cut[1..], [[c] + lines[0]] + lines[1..];
      assert forall i :: 0 <= i < j ==> cut[i] == cut[..j][i] == lines[..j][i] == lines[i];
      assert cut'[..j] == lines'[..j];
    }
  }

  lemma {:induction false} SplitCut(s: string, n: nat)
    requires n <= |s|
    ensures CutLines(Split(s[..n]), Split(s))
  {
    hide CutLines;
    if n == 0 {
      CutAtStart(Split(s));
    } else {
      SplitCut(s[1..], n - 1);
      assert s[..n][1..] == s[1..][..n - 1];
      if s[0] == '\n' {
        CutLinesNewline(Split(s[1..][..n - 1]), Split(s[1..]));
      } else {
        CutLinesChar(s[0], Split(s[1..][..n - 1]), Split(s[1..]));
      }
    }
  }

  /** The UTF-8 byte order mark, as the one character it decodes to. */
  const BOM: string := "\U{FEFF}"

  function StripBOM(s: string): string {
    if BOM <= s then s[1..] else s
  }

  function TrimRightCR(s: string): string {
    if s != "" && s[|s| - 1] == '\r' then TrimRightCR(s[..|s| - 1]) else s
  }

  lemma {:induction false} JoinedStart(lines: seq<string>)
    requires |lines| >= 1
    ensures BOM <= Join(lines) <==> BOM <= lines[0]
  {
    var text := Join(lines);
    if |lines| > 1 {
      assert text[0] == if lines[0] == "" then '\n' else lines[0][0];
      assert BOM[0] != '\n' && |BOM| == 1;
    }
  }
}
