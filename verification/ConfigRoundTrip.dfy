/** Adding a mirror and removing it again: exactly when that gives back the file, and what setting a field
    changes. */
module ConfigRoundTrip {
  import opened TextLines
  import opened ConfigEdit
  import opened Wrappers
  import D = Decimal

  // ----- quoting

  /** The token is quoted by putting quote marks around it and nothing else. */
  predicate PlainlyQuotable(s: string, q: Printable) {
    forall c :: c in s ==> q(c) && c != '"' && c != '\\'
  }

  lemma {:induction false} EscapedLength(s: string, q: Printable)
    ensures |Escaped(s, q)| >= |s|
    ensures |Escaped(s, q)| == |s| <==> PlainlyQuotable(s, q)
    ensures PlainlyQuotable(s, q) ==> Escaped(s, q) == s
  {
    hide EscapeChar;
    if s != "" {
      EscapedLength(s[1..], q);
      assert s == [s[0]] + s[1..];
      assert forall c :: c in s <==> c == s[0] || c in s[1..];
    }
  }

  lemma {:induction false} SpacesOf(a: string, b: string)
    requires (forall i :: 0 <= i < |a| ==> RegexSpace(a[i])) && (b == "" || !RegexSpace(b[0]))
    ensures CountSpaces(a + b) == |a|
  {
    if a == "" {
      assert a + b == b;
    } else {
      assert (a + b)[1..] == a[1..] + b;
      SpacesOf(a[1..], b);
    }
  }

  /** A text that ends in a quote mark ends a name only if it is that mark. */
  lemma EndsNameMark(s: string)
    requires s == "" || s[|s| - 1] == '"'
    ensures EndsName(s) <==> s == "" || s == "\""
  {
    if |s| > 1 {
      assert s[1..][|s| - 2] == '"';
      assert CountSpaces(s) < |s|;
      assert CountSpaces(s[1..]) < |s| - 1;
    } else if s != "" {
      assert s[1..] == "";
    }
  }

  lemma QuotedName(name: string, q: Printable)
    ensures var e, s := Escaped(name, q), " " + Quote(name, q);
            && |s| == |e| + 3 && s[0] == ' ' && s[1] == '"' && s[|s| - 1] == '"'
            && s[1 + 1..] == e + "\"" && CountSpaces(s) == 1
  {
    hide EscapeChar;
    var e, s := Escaped(name, q), " " + Quote(name, q);
    assert s == " " + ("\"" + e + "\"");
    SpacesOf(" ", "\"" + e + "\"");
  }

  /** Where the pattern can put the name: what is left after it is the closing mark at most. */
  lemma NameFillsQuotes(s: string, name: string, from: nat)
    requires from <= |s| && s != "" && s[|s| - 1] == '"' && BeginsName(s[from..], name)
    ensures |s| <= from + |name| + 1
  {
    hide EndsName;
    var rest := s[from..][|name|..];
    assert rest != "" ==> rest[|rest| - 1] == s[|s| - 1];
    EndsNameMark(rest);
  }

  lemma QuotedNameFollows(name: string, q: Printable)
    ensures NameFollows(" " + Quote(name, q), name) <==> PlainlyQuotable(name, q)
  {
    hide EscapeChar, EndsName, CountSpaces;
    EscapedLength(name, q);
    QuotedName(name, q);
    var s := " " + Quote(name, q);
    if PlainlyQuotable(name, q) {
      EndsNameMark("\"");
      assert name <= s[1 + 1..] && s[1 + 1..][|name|..] == "\"";
      assert NameAt(s, 1, name);
      hide Quote, Escaped;
    } else if NameFollows(s, name) {
      hide Quote, Escaped;
      var c :| 0 <= c <= CountSpaces(s) && NameAt(s, c, name);
      NameFillsQuotes(s, name, if BeginsName(s[c..], name) then c else c + 1);
    }
  }

  lemma NameLineParts(line: string, name: string, tail: string)
    requires CountSpaces(line) == 2 && |line| > 3 && line[2] == '-'
    requires CountSpaces(line[3..]) == 1 && line[3..][1..] == "name:" + tail
    ensures IsNameLine(line, name) <==> NameFollows(tail, name)
  {
    hide NameFollows, CountSpaces;
    assert ("name:" + tail)[5..] == tail;
    assert line[3..][1 + 5..] == line[3..][1..][5..];
  }

  lemma NameLineByTail(tail: string, name: string)
    ensures IsNameLine("  - name:" + tail, name) <==> NameFollows(tail, name)
  {
    hide IsNameLine, NameFollows, CountSpaces;
    var line, item := "  - name:" + tail, "name:" + tail;
    assert line == "  " + ("- " + item);
    SpacesOf("  ", "- " + item);
    SpacesOf(" ", item);
    assert line[3..] == " " + item;
    NameLineParts(line, name, tail);
  }

  /** The line that AddMirror writes for a name is the one that RemoveMirror looks for exactly when the name
      needs no escaping. */
  lemma WrittenNameIsFound(p: Project, q: Printable)
    ensures IsNameLine(BlockLines(p, q)[0], p.name) <==> PlainlyQuotable(p.name, q)
  {
    var tail := " " + Quote(p.name, q);
    assert BlockLines(p, q)[0] == "  - name:" + tail;
    hide IsNameLine, NameFollows, Quote, BlockLines;
    NameLineByTail(tail, p.name);
    QuotedNameFollows(p.name, q);
  }

  // ----- the inserted block

  /** A line inside an entry: indented by four spaces, then a letter. */
  predicate IsEntryField(line: string) {
    |line| > 4 && line[..4] == "    " && 'a' <= line[4] <= 'z'
  }

  lemma {:induction false} RenderedLine(specs: seq<FieldSpec>, line: string) returns (spec: FieldSpec)
    requires line in Render(specs)
    ensures spec in specs && line == Field(spec.key, spec.value)
  {
    hide Field;
    if specs[0].present && line == Field(specs[0].key, specs[0].value) {
      spec := specs[0];
    } else {
      assert line in Render(specs[1..]);
      spec := RenderedLine(specs[1..], line);
    }
  }

  lemma SpecKeys(p: Project, q: Printable, spec: FieldSpec)
    requires spec in FieldSpecs(p, q)
    ensures spec.key != "" && 'a' <= spec.key[0] <= 'z' && OneLine(spec.key)
  {
    hide Quote, D.Format;
  }

  lemma BlockHasEntryFields(p: Project, q: Printable, line: string)
    requires line in Render(FieldSpecs(p, q))
    ensures IsEntryField(line)
  {
    var spec := RenderedLine(FieldSpecs(p, q), line);
    SpecKeys(p, q, spec);
    assert Field(spec.key, spec.value)[..4] == "    ";
  }

  lemma {:induction false} TrimmedFirst(s: string)
    requires s != "" && !IsSpace(s[0])
    ensures TrimSpace(s) != "" && TrimSpace(s)[0] == s[0]
  {
    TrimRightFirst(s);
  }

  lemma {:induction false} TrimRightFirst(s: string)
    requires s != "" && !IsSpace(s[0])
    ensures TrimRight(s) != "" && TrimRight(s)[0] == s[0]
  {
    if IsSpace(s[|s| - 1]) { TrimRightFirst(s[..|s| - 1]); }
  }

  /** Such a line is no name line, ends no entry and is not blank. */
  lemma EntryFieldProperties(line: string, name: string)
    requires IsEntryField(line)
    ensures !IsNameLine(line, name) && !EndsEntry(line) && !IsBlank(line)
  {
    assert line == "    " + line[4..];
    SpacesOf("    ", line[4..]);
    TrimLeftSpaces(line);
    TrimmedFirst(line[4..]);
    assert TrimSpace(line) == TrimSpace(line[4..]);
  }

  lemma TrimLeftSpaces(line: string)
    requires |line| >= 4 && line[..4] == "    "
    ensures TrimLeft(line) == TrimLeft(line[4..])
  {
    assert line[0] == line[..4][0] && line[1] == line[..4][1] && line[2] == line[..4][2] && line[3] == line[..4][3];
    assert line[1..][1..] == line[2..] && line[2..][1..] == line[3..] && line[3..][1..] == line[4..];
    assert TrimLeft(line) == TrimLeft(line[1..]);
    assert TrimLeft(line[1..]) == TrimLeft(line[1..][1..]);
    assert TrimLeft(line[2..]) == TrimLeft(line[2..][1..]);
    assert TrimLeft(line[3..]) == TrimLeft(line[3..][1..]);
  }

  lemma PlainLinesAreNoNames(name: string)
    ensures !IsNameLine("mirrors:", name) && !IsNameLine("", name)
  {
    assert CountSpaces("mirrors:") == 0;
  }

  // ----- removing what was added

  /** From position i on only blank lines come before the next line that ends an entry, or the end. */
  predicate TailIsClean(lines: seq<string>, i: int)
    requires 0 <= i <= |lines|
  {
    forall j :: i <= j < EntryEnd(lines, i) ==> IsBlank(lines[j])
  }

  /** When AddMirror followed by RemoveMirror gives back the original lines. */
  predicate RoundTrips(lines: seq<string>, p: Project, q: Printable) {
    ScanBounds(lines, 0, -1, -1);
    && PlainlyQuotable(p.name, q)
    && ScanLines(lines).mirrors >= 0
    && Unfolded(lines, ScanLines(lines).end) == lines
    && TailIsClean(lines, InsertionPoint(lines))
  }

  lemma PreparedHasNoName(lines: seq<string>, name: string)
    requires !Declares(lines, name)
    ensures !Declares(Prepared(lines), name)
  {
    PlainLinesAreNoNames(name);
    hide IsNameLine, ScanLines, IsMirrors, HasEmptyList;
    var before := Prepared(lines);
    forall i | 0 <= i < |before| ensures !IsNameLine(before[i], name) {}
  }

  lemma BlockHasOneName(p: Project, q: Printable, i: nat)
    requires 1 <= i < |BlockLines(p, q)|
    ensures !IsNameLine(BlockLines(p, q)[i], p.name) && !EndsEntry(BlockLines(p, q)[i]) && !IsBlank(BlockLines(p, q)[i])
  {
    assert BlockLines(p, q)[i] in Render(FieldSpecs(p, q));
    BlockHasEntryFields(p, q, BlockLines(p, q)[i]);
    hide BlockLines;
    EntryFieldProperties(BlockLines(p, q)[i], p.name);
  }

  /** The spliced lines have the name in the block's first line, if there, and nowhere else. */
  lemma NameOnlyInBlock(before: seq<string>, at: nat, block: seq<string>, name: string)
    requires at <= |before| && !Declares(before, name) && block != []
    requires forall i :: 1 <= i < |block| ==> !IsNameLine(block[i], name)
    ensures var added := Splice(before, at, block);
            FindName(added, name) == if IsNameLine(block[0], name) then at else |added|
  {
    hide IsNameLine, Splice;
    var added := Splice(before, at, block);
    forall i | 0 <= i < |added| && i != at ensures !IsNameLine(added[i], name) {
      if i < at {
        assert added[i] == before[i];
      } else if i < at + |block| {
        assert added[at + (i - at)] == block[i - at];
      } else {
        assert added[(i - |block|) + |block|] == before[i - |block|];
      }
    }
    assert added[at + 0] == block[0];
  }

  /** The entry ends where it would end if the block were not there. */
  lemma {:induction false} EndSkipsBlock(before: seq<string>, at: nat, p: Project, q: Printable, i: nat)
    requires at <= |before| && 1 <= i <= |BlockLines(p, q)|
    ensures var block := BlockLines(p, q);
            EntryEnd(Splice(before, at, block), at + i) == EntryEnd(before, at) + |block|
    decreases |BlockLines(p, q)| - i
  {
    hide BlockLines, EndsEntry, Splice;
    var block := BlockLines(p, q);
    var added := Splice(before, at, block);
    if i < |block| {
      assert added[at + i] == block[i];
      BlockHasOneName(p, q, i);
      EndSkipsBlock(before, at, p, q, i + 1);
    } else {
      EndInTail(before, added, at, |block|);
    }
  }

  lemma {:induction false} EndInTail(before: seq<string>, added: seq<string>, i: nat, shift: nat)
    requires i <= |before| && |added| == |before| + shift
    requires forall j :: i <= j < |before| ==> added[j + shift] == before[j]
    ensures EntryEnd(added, i + shift) == EntryEnd(before, i) + shift
    decreases |before| - i
  {
    hide EndsEntry;
    if i < |before| && !EndsEntry(before[i]) { EndInTail(before, added, i + 1, shift); }
  }

  /** Where the removed range ends: right after the block if what follows is clean, and later if not. */
  lemma CutAfterBlock(before: seq<string>, at: nat, block: seq<string>, added: seq<string>)
    requires at <= |before| && block != [] && !IsBlank(block[|block| - 1])
    requires added == Splice(before, at, block)
    requires EntryEnd(added, at + 1) == EntryEnd(before, at) + |block|
    ensures var cut := DropBlanks(added, at, EntryEnd(added, at + 1));
            && cut >= at + |block|
            && (cut == at + |block| <==> TailIsClean(before, at))
  {
    hide EndsEntry, IsBlank, EntryEnd, DropBlanks;
    var e, n := EntryEnd(before, at), |block|;
    assert added[at + (n - 1)] == block[n - 1];
    assert forall j :: at <= j < |before| ==> added[j + n] == before[j];
    hide Splice;
    CutWhereBlanksBegin(before, added, at, n, e);
  }

  lemma CutWhereBlanksBegin(before: seq<string>, added: seq<string>, at: nat, n: nat, e: nat)
    requires n > 0 && at <= e <= |before| && |added| == |before| + n && !IsBlank(added[at + (n - 1)])
    requires forall j :: at <= j < |before| ==> added[j + n] == before[j]
    ensures var cut := DropBlanks(added, at, e + n);
            && cut >= at + n
            && (cut == at + n <==> forall j :: at <= j < e ==> IsBlank(before[j]))
  {
    hide IsBlank, DropBlanks;
    var cut := DropBlanks(added, at, e + n);
    assert cut >= at + n;
    if cut > at + n {
      assert added[(cut - 1 - n) + n] == before[cut - 1 - n];
    } else {
      forall j | at <= j < e ensures IsBlank(before[j]) { assert IsBlank(added[j + n]); }
    }
  }

  lemma SplicePieces(before: seq<string>, at: nat, block: seq<string>, cut: nat)
    requires at <= |before| && at + |block| <= cut <= |before| + |block|
    ensures Splice(before, at, block)[..at] + Splice(before, at, block)[cut..] == before[..at] + before[cut - |block|..]
  {
    hide Splice;
    assert Splice(before, at, block)[..at] == before[..at];
    assert Splice(before, at, block)[cut..] == before[cut - |block|..];
  }

  /** Removing a block that stands at a position gives back the lines around it exactly when what follows
      it is clean; otherwise lines that were there before are lost. */
  lemma RemovalTakes(added: seq<string>, name: string, at: nat)
    requires ValidToken(name) && at < |added| && FindName(added, name) == at
    ensures RemoveMirror(added, name) == Ok(added[..at] + added[DropBlanks(added, at, EntryEnd(added, at + 1))..])
  {
    hide ValidToken, FindName, EntryEnd, DropBlanks;
  }

  lemma RemovalOfBlock(before: seq<string>, at: nat, block: seq<string>, name: string)
    requires at <= |before| && ValidToken(name) && block != [] && !IsBlank(block[|block| - 1])
    requires FindName(Splice(before, at, block), name) == at
    requires EntryEnd(Splice(before, at, block), at + 1) == EntryEnd(before, at) + |block|
    ensures var r := RemoveMirror(Splice(before, at, block), name);
            && r.Ok? && |r.value| >= at
            && (TailIsClean(before, at) ==> r.value == before)
            && (!TailIsClean(before, at) ==> |r.value| < |before|)
  {
    hide ValidToken, IsBlank, TailIsClean, FindName, EntryEnd, DropBlanks, Splice, RemoveMirror, EndsEntry;
    var added := Splice(before, at, block);
    CutAfterBlock(before, at, block, added);
    SplicePieces(before, at, block, DropBlanks(added, at, EntryEnd(added, at + 1)));
    RemovalTakes(added, name, at);
    assert before[..at] + before[at..] == before;
  }

  /** The same for the block of a project, whose name the removal finds if it is plainly quotable. */
  lemma RemovalOfProject(before: seq<string>, at: nat, p: Project, q: Printable)
    requires at <= |before| && !Declares(before, p.name) && ValidToken(p.name)
    ensures var r := RemoveMirror(Splice(before, at, BlockLines(p, q)), p.name);
            if !PlainlyQuotable(p.name, q) then r == NotFound
            else r.Ok? && |r.value| >= at && (if TailIsClean(before, at) then r.value == before else |r.value| < |before|)
  {
    var block := BlockLines(p, q);
    assert FieldSpecs(p, q)[0].present && |block| >= 2;
    hide BlockLines, PlainlyQuotable, ValidToken, Declares, EndsEntry, IsBlank, TailIsClean, FindName, EntryEnd, DropBlanks, Splice;
    WrittenNameIsFound(p, q);
    forall i | 1 <= i < |block| ensures !IsNameLine(block[i], p.name) { BlockHasOneName(p, q, i); }
    NameOnlyInBlock(before, at, block, p.name);
    if PlainlyQuotable(p.name, q) {
      EndSkipsBlock(before, at, p, q, 1);
      BlockHasOneName(p, q, |block| - 1);
      RemovalOfBlock(before, at, block, p.name);
    }
  }

  /** Exactly when adding a mirror and removing it again leaves the lines as they were: when its name is
      quoted without escapes, there is a mirrors section in block form, and nothing but blank lines stands
      between the insertion point and the next entry, the next top-level key or the end. In every other case
      RemoveMirror does not find the mirror, or the result differs. */
  lemma AddThenRemove(lines: seq<string>, p: Project, q: Printable)
    requires AddMirror(lines, p, q).Ok?
    ensures RemoveMirror(AddMirror(lines, p, q).value, p.name) == Ok(lines) <==> RoundTrips(lines, p, q)
    ensures RemoveMirror(AddMirror(lines, p, q).value, p.name) == NotFound <==> !PlainlyQuotable(p.name, q)
    ensures RemoveMirror(AddMirror(lines, p, q).value, p.name) != Ok([])
  {
    ScanBounds(lines, 0, -1, -1);
    PreparedHasNoName(lines, p.name);
    var before, at := Prepared(lines), InsertionPoint(lines);
    RemovalOfProject(before, at, p, q);
    hide BlockLines, PlainlyQuotable, Declares, ScanLines, RemoveMirror, Splice, TailIsClean;
    if ScanLines(lines).mirrors < 0 {
      assert TailIsClean(before, at) by { EndOfLinesIsClean(before); }
    }
  }

  lemma EndOfLinesIsClean(lines: seq<string>)
    ensures TailIsClean(lines, |lines|)
  {
  }

  /** For example, a comment that stands where the list ends is removed along with the mirror. */
  lemma TrailingCommentIsLost(p: Project, q: Printable)
    requires ValidProject(p)
    ensures var lines := ["mirrors:", "# keep"];
            && AddMirror(lines, p, q).Ok?
            && RemoveMirror(AddMirror(lines, p, q).value, p.name) != Ok(lines)
  {
    var lines := ["mirrors:", "# keep"];
    PlainLinesAreNoNames(p.name);
    CommentLine(p.name);
    MirrorsLine();
    hide IsNameLine, IsBlank, BlockLines, EndsEntry, IsMirrors, IsComment, ValidProject;
    assert !Declares(lines, p.name);
    ScanOfTwo(lines);
    AddThenRemove(lines, p, q);
    assert EntryEnd(lines, 2) == 2 && EntryEnd(lines, 1) == 2 && !IsBlank(lines[1]);
  }

  lemma BareListTakesAny(p: Project, q: Printable)
    requires ValidProject(p)
    ensures AddMirror(["mirrors:"], p, q).Ok?
  {
    PlainLinesAreNoNames(p.name);
    hide IsNameLine, ValidProject, BlockLines, Prepared, InsertionPoint, Splice;
    assert !Declares(["mirrors:"], p.name);
  }

  /** For example, a mirror whose name has a quote mark is not found again. */
  lemma EscapedNameIsNotRemoved(p: Project, q: Printable)
    requires ValidProject(p) && p.name == "a\"b"
    ensures AddMirror(["mirrors:"], p, q).Ok?
    ensures RemoveMirror(AddMirror(["mirrors:"], p, q).value, p.name) == NotFound
  {
    assert p.name[1] == '"' && p.name[1] in p.name;
    assert !PlainlyQuotable(p.name, q);
    hide AddMirror, RemoveMirror, ValidProject, PlainlyQuotable;
    BareListTakesAny(p, q);
    AddThenRemove(["mirrors:"], p, q);
  }

  lemma CommentLine(name: string)
    ensures var line := "# keep";
            IsComment(line) && !IsMirrors(line) && !IsBlank(line) && !EndsEntry(line) && !IsNameLine(line, name)
  {
    var line := "# keep";
    assert CountSpaces(line) == 0;
    TrimmedFirst(line);
    hide TrimSpace;
  }

  lemma MirrorsLine()
    ensures IsMirrors("mirrors:")
  {
    assert TrimSpace("mirrors:") == "mirrors:";
  }

  lemma ScanOfTwo(lines: seq<string>)
    requires |lines| == 2 && IsMirrors(lines[0]) && !IsMirrors(lines[1]) && IsComment(lines[1])
    ensures ScanLines(lines) == Scan(0, 1, 2)
  {
    hide IsMirrors, IsComment, IsBlank;
    assert ScanFrom(lines, 2, 0, 1) == Scan(0, 1, 2);
    assert ScanFrom(lines, 1, 0, -1) == ScanFrom(lines, 2, 0, 1);
  }

  // ----- the same for the file's text

  lemma {:induction false} QuoteIsOneLine(s: string, q: Printable)
    requires ValidToken(s)
    ensures OneLine(Escaped(s, q)) && OneLine(Quote(s, q))
  {
    hide EscapeChar;
    if s != "" {
      assert s[0] in s && forall c :: c in s[1..] ==> c in s;
      QuoteIsOneLine(s[1..], q);
    }
  }

  lemma NumberIsOneLine(n: int)
    ensures OneLine(D.Format(n))
  {
    var digits := D.FormatNat(if n < 0 then -n else n);
    assert forall c :: c in digits ==> D.IsDigit(c);
  }

  predicate OneLines(lines: seq<string>) {
    forall line :: line in lines ==> OneLine(line)
  }

  lemma SpecValues(p: Project, q: Printable, spec: FieldSpec)
    requires ValidProject(p) && spec in FieldSpecs(p, q)
    ensures OneLine(spec.value)
  {
    QuoteIsOneLine(p.localPath, q);
    QuoteIsOneLine(p.remote, q);
    QuoteIsOneLine(p.syncIgnorePath, q);
    QuoteIsOneLine(p.preSyncHook, q);
    QuoteIsOneLine(p.postSyncHook, q);
    NumberIsOneLine(p.debounceSec);
    NumberIsOneLine(p.maxFileSizeMB);
    NumberIsOneLine(p.quarantineDays);
    assert OneLine(p.deletePolicy);
    hide Quote, D.Format, OneLine, ValidToken;
  }

  lemma BlockIsOneLines(p: Project, q: Printable)
    requires ValidProject(p)
    ensures OneLines(BlockLines(p, q))
  {
    QuoteIsOneLine(p.name, q);
    hide Quote;
    forall line | line in BlockLines(p, q) ensures OneLine(line) {
      if line in Render(FieldSpecs(p, q)) {
        var spec := RenderedLine(FieldSpecs(p, q), line);
        SpecKeys(p, q, spec);
        SpecValues(p, q, spec);
      }
    }
  }

  lemma MirrorsIsOneLine()
    ensures OneLine("mirrors:") && OneLine("") && !(BOM <= "mirrors:")
  {
    var s := "mirrors:";
    assert forall i :: 0 <= i < |s| ==> 'a' <= s[i] || s[i] == ':';
    assert BOM[0] != s[0];
  }

  lemma JoinIsInjective(a: seq<string>, b: seq<string>)
    requires |a| >= 1 && |b| >= 1 && OneLines(a) && OneLines(b)
    ensures Join(a) == Join(b) <==> a == b
  {
    SplitJoin(a);
    SplitJoin(b);
  }

  lemma AddedLines(lines: seq<string>, p: Project, q: Printable)
    requires AddMirror(lines, p, q).Ok? && OneLines(lines) && |lines| >= 1 && !(BOM <= lines[0])
    ensures OneLines(AddMirror(lines, p, q).value) && !(BOM <= AddMirror(lines, p, q).value[0])
  {
    ScanBounds(lines, 0, -1, -1);
    BlockIsOneLines(p, q);
    var before, at, block := Prepared(lines), InsertionPoint(lines), BlockLines(p, q);
    var added := AddMirror(lines, p, q).value;
    assert at >= 1;
    MirrorsIsOneLine();
    hide BlockLines, ScanLines, IsMirrors, HasEmptyList, Declares, OneLine;
    forall i | 0 <= i < |before| ensures OneLine(before[i]) {
      if i < |lines| { assert lines[i] in lines; }
    }
    assert added == Splice(before, at, block);
    forall i | 0 <= i < |added| ensures OneLine(added[i]) {
      SplicedFrom(before, at, block, i);
    }
  }

  lemma SplicedFrom(before: seq<string>, at: nat, block: seq<string>, i: nat)
    requires at <= |before| && i < |before| + |block|
    ensures Splice(before, at, block)[i] in before || Splice(before, at, block)[i] in block
  {
    if at <= i < at + |block| {
      assert Splice(before, at, block)[at + (i - at)] == block[i - at];
    } else if i >= at {
      assert Splice(before, at, block)[(i - |block|) + |block|] == before[i - |block|];
    }
  }

  /** Exactly when adding a mirror to a configuration file and removing it again gives back the file, up to
      the byte order mark, which both edits drop. */
  lemma AddThenRemoveText(content: string, p: Project, q: Printable)
    requires AddMirrorText(content, p, q).Ok? && !(BOM <= StripBOM(content))
    ensures RemoveMirrorText(AddMirrorText(content, p, q).value, p.name) == Ok(StripBOM(content))
            <==> RoundTrips(Split(StripBOM(content)), p, q)
  {
    var text := StripBOM(content);
    var lines := Split(text);
    JoinSplit(text);
    SplitGivesLines(text);
    JoinedStart(lines);
    AddThenRemove(lines, p, q);
    RemovalOfText(lines, p, q);
  }

  /** Edits work on the text after the byte order mark, which they drop. */
  lemma ByteOrderMarkIsDropped(content: string, p: Project, q: Printable)
    requires !(BOM <= content)
    ensures AddMirrorText(BOM + content, p, q) == AddMirrorText(content, p, q)
    ensures RemoveMirrorText(BOM + content, p.name) == RemoveMirrorText(content, p.name)
  {
    assert (BOM + content)[1..] == content;
    hide AddMirror, RemoveMirror;
  }

  lemma RemovalFromJoined(added: seq<string>, name: string)
    requires |added| >= 1 && OneLines(added) && !(BOM <= added[0])
    ensures var r := RemoveMirror(added, name);
            r != Ok([]) ==> RemoveMirrorText(Join(added), name) == OnText(r)
  {
    hide RemoveMirror;
    JoinedStart(added);
    SplitJoin(added);
  }

  lemma RemovalOfText(lines: seq<string>, p: Project, q: Printable)
    requires |lines| >= 1 && OneLines(lines) && !(BOM <= lines[0]) && AddMirror(lines, p, q).Ok?
    ensures AddMirror(lines, p, q).value != []
    ensures RemoveMirrorText(Join(AddMirror(lines, p, q).value), p.name) == Ok(Join(lines))
            <==> RemoveMirror(AddMirror(lines, p, q).value, p.name) == Ok(lines)
  {
    AddedLines(lines, p, q);
    var added := AddMirror(lines, p, q).value;
    hide AddMirror, RemoveMirror, OneLines, Split, Join, RemoveMirrorText, RoundTrips, PlainlyQuotable;
    hide StripBOM, IsBlank, PlainlyQuotable, ValidProject, TailIsClean, OnText, OneLine;
    AddThenRemove(lines, p, q);
    RemovalFromJoined(added, p.name);
    RemovedTextIs(RemoveMirror(added, p.name), added, p.name, lines);
  }

  lemma RemovedTextIs(r: Result<seq<string>>, added: seq<string>, name: string, lines: seq<string>)
    requires |added| >= 1 && OneLines(added) && r == RemoveMirror(added, name) && r != Ok([])
    requires |lines| >= 1 && OneLines(lines)
    ensures OnText(r) == Ok(Join(lines)) <==> r == Ok(lines)
  {
    hide RemoveMirror, Join, OneLines;
    if r.Ok? {
      RemovedLines(added, name);
      JoinIsInjective(r.value, lines);
    }
  }

  lemma RemovedLines(lines: seq<string>, name: string)
    requires OneLines(lines) && RemoveMirror(lines, name).Ok?
    ensures OneLines(RemoveMirror(lines, name).value)
  {
    hide FindName, EntryEnd, DropBlanks, OneLine;
  }

  // ----- fields

  /** What a field is set to: the rest of its line after the colon. */
  function FieldValue(lines: seq<string>, key: string): Option<string> {
    var i := FindField(lines, key);
    if i < |lines| then Some(TrimRightCR(lines[i])[|key| + 1..]) else None
  }

  predicate IsFieldKey(key: string) {
    !IsIndented(key) && !("#" <= key)
  }

  lemma WrittenFieldIsFound(key: string, value: string)
    requires ValidToken(key) && ValidToken(value)
    ensures TrimRightCR(key + ": " + value) == key + ": " + value
    ensures IsField(key + ": " + value, key) <==> IsFieldKey(key)
  {
    var line := key + ": " + value;
    var last := line[|line| - 1];
    assert value != "" ==> last == value[|value| - 1] && last in value;
    assert (" " <= line <==> line[0] == ' ') && ("\t" <= line <==> line[0] == '\t') && ("#" <= line <==> line[0] == '#');
    assert line[..|key| + 1] == key + ":";
    assert key != "" ==> line[0] == key[0];
  }

  lemma FieldFoundAt(lines: seq<string>, key: string, i: nat)
    requires i < |lines| && IsField(lines[i], key) && forall j :: 0 <= j < i ==> !IsField(lines[j], key)
    ensures FindField(lines, key) == i
  {
  }

  /** A field that has been set reads back as what it was set to exactly when its key does not begin like a
      comment or an indented line; such a key is never found, and the line is appended again each time. */
  lemma SetThenRead(lines: seq<string>, key: string, value: string)
    requires SetField(lines, key, value).Ok?
    ensures FieldValue(SetField(lines, key, value).value, key) == Some(" " + value) <==> IsFieldKey(key)
    ensures !IsFieldKey(key) ==> SetField(lines, key, value).value == lines + [key + ": " + value]
  {
    WrittenFieldIsFound(key, value);
    var after, i, line := SetField(lines, key, value).value, FindField(lines, key), key + ": " + value;
    assert line[|key| + 1..] == " " + value;
    if IsFieldKey(key) {
      hide IsField, IsFieldKey;
      assert after[i] == line;
      FieldFoundAt(after, key, i);
    } else {
      forall j | 0 <= j < |lines| ensures !IsField(lines[j], key) {
        if key + ":" <= TrimRightCR(lines[j]) { SameStart(lines[j], key); }
      }
      assert after == lines + [line];
      assert FindField(after, key) == |after|;
    }
  }

  lemma SameStart(line: string, key: string)
    requires !IsFieldKey(key) && key + ":" <= TrimRightCR(line)
    ensures !IsField(line, key)
  {
    TrimRightCRPrefix(line);
    assert key != "" && (key + ":")[0] == key[0] == TrimRightCR(line)[0] == line[0];
  }

  lemma {:induction false} TrimRightCRPrefix(line: string)
    ensures TrimRightCR(line) <= line
  {
    if line != "" && line[|line| - 1] == '\r' { TrimRightCRPrefix(line[..|line| - 1]); }
  }

  lemma FirstColon(line: string, key: string)
    requires key + ":" <= line && ':' !in key
    ensures line[..|key|] == key && line[|key|] == ':' && forall j :: 0 <= j < |key| ==> line[j] != ':'
  {
    assert line[|key|] == (key + ":")[|key|];
    assert forall j :: 0 <= j < |key| ==> line[j] == (key + ":")[j] == key[j] && key[j] in key;
  }

  lemma OneKeyPerLine(line: string, key: string, other: string)
    requires key != other && ':' !in key && ':' !in other
    ensures !(key + ":" <= line && other + ":" <= line)
  {
    if key + ":" <= line && other + ":" <= line {
      FirstColon(line, key);
      FirstColon(line, other);
      assert false;
    }
  }

  /** Setting a field changes no other one. */
  lemma OtherFieldsUnchanged(lines: seq<string>, key: string, value: string, other: string)
    requires SetField(lines, key, value).Ok? && other != key && ':' !in key && ':' !in other
    ensures FieldValue(SetField(lines, key, value).value, other) == FieldValue(lines, other)
  {
    var after, i, line := SetField(lines, key, value).value, FindField(lines, key), key + ": " + value;
    WrittenFieldIsFound(key, value);
    assert line[..|key| + 1] == key + ":";
    OneKeyPerLine(line, key, other);
    assert !IsField(line, other);
    if i < |lines| { OneKeyPerLine(TrimRightCR(lines[i]), key, other); }
    var k := FindField(lines, other);
    hide IsField, TrimRightCR;
    if k < |lines| {
      assert k != i && after[k] == lines[k];
      FieldFoundAt(after, other, k);
    } else {
      assert FindField(after, other) == |after|;
    }
  }
}
