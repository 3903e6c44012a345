/** Which lines an edit of the mirrors section touches, told by the text of the lines alone: adding goes
    after the last entry, removing takes one entry and nothing of another. */
module ConfigSections {
  import opened ConfigEdit
  import opened ConfigRoundTrip
  import opened Hexadecimal

  // ----- lines by their text

  /** A list item with a name. */
  predicate BeginsEntry(line: string) {
    "- name:" <= TrimSpace(line) || "- name :" <= TrimSpace(line)
  }

  /** A key at the left margin. */
  predicate BeginsSection(line: string) {
    line != "" && line[0] != ' ' && line[0] != '\t' && TrimSpace(line) != "" && !("#" <= TrimSpace(line))
  }

  /** An indented line with content. */
  predicate HasContent(line: string) {
    line != "" && (line[0] == ' ' || line[0] == '\t') && TrimSpace(line) != "" && !("#" <= TrimSpace(line))
  }

  predicate IsSectionLine(line: string) {
    "mirrors:" <= TrimSpace(line)
  }

  lemma LineKinds(line: string)
    ensures EndsEntry(line) <==> BeginsEntry(line) || BeginsSection(line)
    ensures IsBlank(line) <==> TrimSpace(line) == ""
    ensures !IsBlank(line) && !IsComment(line) ==> if IsIndented(line) then HasContent(line) else BeginsSection(line)
    ensures HasContent(line) ==> IsIndented(line)
    ensures BeginsSection(line) ==> !IsIndented(line)
    ensures BeginsSection(line) || HasContent(line) ==> !IsBlank(line) && !IsComment(line)
    ensures IsMirrors(line) <==> IsSectionLine(line)
  {
    if line == "" { assert TrimSpace(line) == ""; }
    hide TrimSpace;
  }

  lemma {:induction false} TrimLeftFinds(s: string, i: nat)
    requires i < |s| && !IsSpace(s[i])
    ensures TrimLeft(s) != "" && !IsSpace(TrimLeft(s)[0])
    decreases |s|
  {
    if IsSpace(s[0]) { TrimLeftFinds(s[1..], i - 1); }
  }

  lemma NameLineHasText(line: string, name: string)
    requires IsNameLine(line, name)
    ensures TrimSpace(line) != ""
  {
    var a := CountSpaces(line);
    TrimLeftFinds(line, a);
    TrimRightFirst(TrimLeft(line));
  }

  // ----- removing

  /** The lines from start to cut are the entry with the name: they begin with the first line that has the
      name, hold nothing of another entry or section, and leave only blank lines of this one. */
  ghost predicate IsEntryOf(lines: seq<string>, name: string, start: nat, cut: nat) {
    && start < cut <= |lines|
    && IsNameLine(lines[start], name) && (forall j :: 0 <= j < start ==> !IsNameLine(lines[j], name))
    && (forall j :: start < j < cut ==> !BeginsEntry(lines[j]) && !BeginsSection(lines[j]))
    && TrimSpace(lines[cut - 1]) != ""
    && exists e :: cut <= e <= |lines| && BlankFromTo(lines, cut, e)
                   && (e < |lines| ==> BeginsEntry(lines[e]) || BeginsSection(lines[e]))
  }

  ghost predicate BlankFromTo(lines: seq<string>, from: nat, to: nat) {
    to <= |lines| && forall j :: from <= j < to ==> TrimSpace(lines[j]) == ""
  }

  /** The result is the lines without that entry. */
  ghost predicate Without(lines: seq<string>, name: string, start: nat, cut: nat, result: seq<string>) {
    start < cut <= |lines| && result == lines[..start] + lines[cut..] && IsEntryOf(lines, name, start, cut)
  }

  lemma AllLineKinds(lines: seq<string>)
    ensures forall j :: 0 <= j < |lines| ==> (EndsEntry(lines[j]) <==> BeginsEntry(lines[j]) || BeginsSection(lines[j]))
    ensures forall j :: 0 <= j < |lines| ==> (IsBlank(lines[j]) <==> TrimSpace(lines[j]) == "")
  {
    forall j | 0 <= j < |lines|
      ensures EndsEntry(lines[j]) <==> BeginsEntry(lines[j]) || BeginsSection(lines[j])
      ensures IsBlank(lines[j]) <==> TrimSpace(lines[j]) == ""
    {
      LineKinds(lines[j]);
    }
  }

  lemma EntryByText(lines: seq<string>, name: string, start: nat, e: nat, cut: nat)
    requires start < |lines| && IsNameLine(lines[start], name) && forall j :: 0 <= j < start ==> !IsNameLine(lines[j], name)
    requires e == EntryEnd(lines, start + 1) && cut == DropBlanks(lines, start, e)
    ensures IsEntryOf(lines, name, start, cut)
  {
    NameLineHasText(lines[start], name);
    AllLineKinds(lines);
    hide IsNameLine, EndsEntry, BeginsEntry, BeginsSection, TrimSpace, IsBlank, EntryEnd, DropBlanks;
    assert BlankFromTo(lines, cut, e);
  }

  lemma RemovedEntry(lines: seq<string>, name: string) returns (start: nat, cut: nat)
    requires RemoveMirror(lines, name).Ok?
    ensures Without(lines, name, start, cut, RemoveMirror(lines, name).value)
  {
    hide IsNameLine, EndsEntry, ValidToken, IsBlank, FindName, EntryEnd, DropBlanks, IsEntryOf;
    start := FindName(lines, name);
    cut := DropBlanks(lines, start, EntryEnd(lines, start + 1));
    EntryByText(lines, name, start, EntryEnd(lines, start + 1), cut);
    RemovalTakes(lines, name, start);
    EntryNotEmpty(lines, name, start, cut);
  }

  lemma EntryNotEmpty(lines: seq<string>, name: string, start: nat, cut: nat)
    requires IsEntryOf(lines, name, start, cut)
    ensures start < cut <= |lines|
  {
    hide IsNameLine, BeginsEntry, BeginsSection, TrimSpace;
  }

  /** Removing a mirror fails exactly for a name with a control character and for one that no line has, and
      otherwise takes out exactly the entry with the name. */
  lemma RemovalTakesOneEntry(lines: seq<string>, name: string)
    ensures RemoveMirror(lines, name) == InvalidToken <==> exists c :: c in name && (c < ' ' || c == '\U{7F}')
    ensures RemoveMirror(lines, name) == NotFound
            <==> RemoveMirror(lines, name) != InvalidToken && !Declares(lines, name)
    ensures RemoveMirror(lines, name).Ok? ==>
              exists start, cut :: Without(lines, name, start, cut, RemoveMirror(lines, name).value)
  {
    assert ValidToken(name) <==> !exists c :: c in name && (c < ' ' || c == '\U{7F}');
    if RemoveMirror(lines, name).Ok? {
      var start, cut := RemovedEntry(lines, name);
    }
    hide IsNameLine, ValidToken;
  }

  // ----- adding

  /** The mirrors section begins at line first and ends before line end, where another section begins. */
  ghost predicate IsMirrorsSection(lines: seq<string>, first: nat, end: nat) {
    && first < end <= |lines|
    && IsSectionLine(lines[first]) && (forall j :: 0 <= j < first ==> !IsSectionLine(lines[j]))
    && (forall j :: first < j < end ==> IsSectionLine(lines[j]) || !BeginsSection(lines[j]))
    && (end < |lines| ==> BeginsSection(lines[end]))
  }

  /** Position at is the one after the last line with content between first and end. */
  ghost predicate IsAfterLastEntry(lines: seq<string>, first: nat, end: nat, at: nat) {
    && first < at <= end <= |lines|
    && (IsSectionLine(lines[at - 1]) || HasContent(lines[at - 1]))
    && forall j :: at <= j < end ==> IsSectionLine(lines[j]) || !HasContent(lines[j])
  }

  /** What the scan knows on reaching line i inside the section. */
  ghost predicate Scanned(lines: seq<string>, i: nat, first: nat, mirrors: int, insert: int) {
    && first < i <= |lines| && first <= mirrors < i
    && IsSectionLine(lines[first]) && (forall j :: 0 <= j < first ==> !IsSectionLine(lines[j]))
    && (forall j :: first < j < i ==> IsSectionLine(lines[j]) || !BeginsSection(lines[j]))
    && if insert < 0 then mirrors == i - 1 && (forall j :: first <= j < i ==> IsSectionLine(lines[j]))
       else IsAfterLastEntry(lines, first, i, insert)
  }

  lemma {:induction false} ScanSection(lines: seq<string>, i: nat, first: nat, mirrors: int, insert: int)
    requires Scanned(lines, i, first, mirrors, insert)
    ensures var s := ScanFrom(lines, i, mirrors, insert);
            && IsMirrorsSection(lines, first, s.end) && s.mirrors >= 0
            && IsAfterLastEntry(lines, first, s.end, if s.insert < 0 then s.mirrors + 1 else s.insert)
    decreases |lines| - i
  {
    hide IsMirrors, IsBlank, IsComment, IsIndented, IsSectionLine, HasContent, BeginsSection;
    if i < |lines| {
      LineKinds(lines[i]);
      if IsMirrors(lines[i]) {
        ScanSection(lines, i + 1, first, i, insert);
      } else if IsBlank(lines[i]) || IsComment(lines[i]) {
        ScanSection(lines, i + 1, first, mirrors, if insert < 0 then i else insert);
      } else if IsIndented(lines[i]) {
        ScanSection(lines, i + 1, first, mirrors, i + 1);
      }
    }
  }

  lemma {:induction false} ScanBefore(lines: seq<string>, i: nat) returns (first: nat)
    requires i <= |lines| && forall j :: 0 <= j < i ==> !IsSectionLine(lines[j])
    ensures var s := ScanFrom(lines, i, -1, -1);
            if s.mirrors < 0 then forall j :: 0 <= j < |lines| ==> !IsSectionLine(lines[j])
            else && IsMirrorsSection(lines, first, s.end)
                 && IsAfterLastEntry(lines, first, s.end, if s.insert < 0 then s.mirrors + 1 else s.insert)
    decreases |lines| - i
  {
    hide IsMirrors, IsBlank, IsComment, IsIndented, IsSectionLine, HasContent, BeginsSection;
    first := 0;
    if i < |lines| {
      LineKinds(lines[i]);
      if IsMirrors(lines[i]) {
        first := i;
        ScanSection(lines, i + 1, i, i, -1);
      } else {
        first := ScanBefore(lines, i + 1);
      }
    }
  }

  lemma AddedLinesAre(lines: seq<string>, p: Project, q: Printable)
    requires AddMirror(lines, p, q).Ok?
    ensures 0 <= InsertionPoint(lines) <= |Prepared(lines)|
    ensures AddMirror(lines, p, q) == Ok(Splice(Prepared(lines), InsertionPoint(lines), BlockLines(p, q)))
  {
    ScanBounds(lines, 0, -1, -1);
    hide BlockLines, ScanFrom, Declares, ValidProject, Splice;
  }

  lemma PreparedLinesAre(lines: seq<string>)
    ensures var s, before := ScanLines(lines), Prepared(lines);
            if s.mirrors < 0 then before == lines + ["", "mirrors:"] && InsertionPoint(lines) == |lines| + 2
            else && InsertionPoint(lines) == (if s.insert < 0 then s.mirrors + 1 else s.insert)
                 && |before| == |lines|
                 && forall j :: 0 <= j < |lines| ==>
                      before[j] == lines[j] || (j < s.end && IsMirrors(lines[j]) && before[j] == "mirrors:")
  {
    hide ScanFrom, IsMirrors, HasEmptyList;
  }

  /** Inline empty lists of the section have been opened, and nothing else has changed. */
  ghost predicate OnlyOpened(lines: seq<string>, before: seq<string>, end: nat) {
    && |before| == |lines|
    && forall j :: 0 <= j < |lines| ==>
         before[j] == lines[j] || (j < end && IsSectionLine(lines[j]) && before[j] == "mirrors:")
  }

  /** The block stands after the last line with content of the section. */
  ghost predicate AddedLast(lines: seq<string>, block: seq<string>, first: nat, end: nat, at: nat, result: seq<string>) {
    && IsMirrorsSection(lines, first, end) && IsAfterLastEntry(lines, first, end, at)
    && exists before :: OnlyOpened(lines, before, end) && |before| >= at && result == Splice(before, at, block)
  }

  lemma SectionScanned(lines: seq<string>) returns (first: nat)
    requires !NoSectionLine(lines)
    ensures ScanLines(lines).mirrors >= 0 && InsertionPoint(lines) >= 0
    ensures IsMirrorsSection(lines, first, ScanLines(lines).end)
    ensures IsAfterLastEntry(lines, first, ScanLines(lines).end, InsertionPoint(lines))
  {
    first := ScanBefore(lines, 0);
    hide IsMirrorsSection, IsAfterLastEntry, ScanFrom, IsSectionLine;
    assert ScanLines(lines) == ScanFrom(lines, 0, -1, -1);
    AfterFirst(lines, first, ScanLines(lines).end, if ScanLines(lines).insert < 0 then ScanLines(lines).mirrors + 1 else ScanLines(lines).insert);
  }

  lemma AfterFirst(lines: seq<string>, first: nat, end: nat, at: int)
    requires at >= 0 ==> IsAfterLastEntry(lines, first, end, at)
    ensures at >= 0 ==> first < at <= end <= |lines|
  {
    hide IsSectionLine, HasContent;
  }

  lemma SectionOpened(lines: seq<string>)
    requires ScanLines(lines).mirrors >= 0
    ensures OnlyOpened(lines, Prepared(lines), ScanLines(lines).end)
  {
    PreparedLinesAre(lines);
    SectionLines(lines);
    hide IsMirrors, IsSectionLine, Prepared, ScanLines, InsertionPoint;
  }

  lemma SectionAddition(lines: seq<string>, p: Project, q: Printable) returns (first: nat, end: nat, at: nat)
    requires AddMirror(lines, p, q).Ok? && !NoSectionLine(lines)
    ensures AddedLast(lines, BlockLines(p, q), first, end, at, AddMirror(lines, p, q).value)
  {
    hide IsMirrorsSection, IsAfterLastEntry, BlockLines, AddMirror, Prepared, InsertionPoint, Splice, ScanLines;
    hide NoSectionLine, OnlyOpened;
    first := SectionScanned(lines);
    AddedLinesAre(lines, p, q);
    SectionOpened(lines);
    end, at := ScanLines(lines).end, InsertionPoint(lines);
  }

  lemma SectionLines(lines: seq<string>)
    ensures forall j :: 0 <= j < |lines| ==> (IsMirrors(lines[j]) <==> IsSectionLine(lines[j]))
  {
    forall j | 0 <= j < |lines| ensures IsMirrors(lines[j]) <==> IsSectionLine(lines[j]) { LineKinds(lines[j]); }
  }

  ghost predicate NoSectionLine(lines: seq<string>) {
    forall j :: 0 <= j < |lines| ==> !IsSectionLine(lines[j])
  }

  lemma NewSectionAddition(lines: seq<string>, p: Project, q: Printable)
    requires AddMirror(lines, p, q).Ok? && NoSectionLine(lines)
    ensures AddMirror(lines, p, q) == Ok(lines + ["", "mirrors:"] + BlockLines(p, q))
  {
    AddedLinesAre(lines, p, q);
    PreparedLinesAre(lines);
    SectionLines(lines);
    ScanBounds(lines, 0, -1, -1);
    NoSectionFound(lines, 0, -1);
    hide BlockLines, AddMirror, Prepared, InsertionPoint, Splice, ScanFrom, IsMirrors, IsSectionLine;
    SplicedAtEnd(lines + ["", "mirrors:"], BlockLines(p, q));
  }

  lemma {:induction false} NoSectionFound(lines: seq<string>, i: nat, insert: int)
    requires i <= |lines| && forall j :: 0 <= j < |lines| ==> !IsMirrors(lines[j])
    ensures ScanFrom(lines, i, -1, insert).mirrors == -1
    decreases |lines| - i
  {
    hide IsMirrors;
    if i < |lines| { NoSectionFound(lines, i + 1, insert); }
  }

  lemma SplicedAtEnd(lines: seq<string>, block: seq<string>)
    ensures Splice(lines, |lines|, block) == lines + block
  {
    assert lines[..|lines|] == lines && lines[|lines|..] == [];
  }

  /** Without a mirrors section one is added at the end, after a blank line; with one, the new entry goes
      after the last line with content in it, in front of any blank lines and comments. Nothing else
      changes but inline empty lists, which are opened. */
  lemma AdditionGoesLast(lines: seq<string>, p: Project, q: Printable)
    requires AddMirror(lines, p, q).Ok?
    ensures NoSectionLine(lines) ==> AddMirror(lines, p, q) == Ok(lines + ["", "mirrors:"] + BlockLines(p, q))
    ensures !NoSectionLine(lines) ==>
              exists first, end, at :: AddedLast(lines, BlockLines(p, q), first, end, at, AddMirror(lines, p, q).value)
  {
    hide AddMirror, BlockLines, NoSectionLine, AddedLast;
    if NoSectionLine(lines) {
      NewSectionAddition(lines, p, q);
    } else {
      var first, end, at := SectionAddition(lines, p, q);
    }
  }
}
