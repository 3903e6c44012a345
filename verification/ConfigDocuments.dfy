/** Configuration files as lists of mirrors: on a file whose mirrors section holds written entries, adding
    and removing are appending to the list and taking an element out of it. */
module ConfigDocuments {
  import opened ConfigEdit
  import opened ConfigRoundTrip
  import opened ConfigSections
  import opened Hexadecimal
  import D = Decimal

  // ----- the lines of an entry

  lemma {:induction false} TrimRightKeeps(a: string, b: string)
    requires a != "" && !IsSpace(a[|a| - 1])
    ensures a <= TrimRight(a + b)
    decreases |b|
  {
    if b == "" {
      assert a + b == a;
    } else {
      assert (a + b)[..|a + b| - 1] == a + b[..|b| - 1];
      TrimRightKeeps(a, b[..|b| - 1]);
    }
  }

  lemma EntryHead(p: Project, q: Printable)
    ensures var line := BlockLines(p, q)[0];
            BeginsEntry(line) && HasContent(line) && !IsSectionLine(line) && !BeginsSection(line)
  {
    hide Quote;
    var line, text := BlockLines(p, q)[0], "- name: " + Quote(p.name, q);
    assert line == "  " + text && line[1..] == " " + text && line[1..][1..] == text;
    assert TrimLeft(line) == TrimLeft(line[1..]) == text;
    assert text == "- name:" + (" " + Quote(p.name, q));
    TrimRightKeeps("- name:", " " + Quote(p.name, q));
    assert TrimSpace(line)[0] == '-';
  }

  const KEYS: seq<string> := ["local_path", "remote", "debounce_sec", "max_file_size_mb", "syncignore_path",
                              "delete_policy", "quarantine_days", "pre_sync_hook", "post_sync_hook"]

  predicate IsKeyStart(c: char, d: char) {
    'a' <= c <= 'z' && !IsSpace(d) && !(c == 'm' && d == 'i')
  }

  lemma SpecKeyStart(p: Project, q: Printable, spec: FieldSpec)
    requires spec in FieldSpecs(p, q)
    ensures |spec.key| > 1 && IsKeyStart(spec.key[0], spec.key[1])
  {
    hide Quote, D.Format;
    var i :| 0 <= i < |FieldSpecs(p, q)| && FieldSpecs(p, q)[i] == spec;
    assert spec.key == KEYS[i];
    hide FieldSpecs;
    assert |KEYS[i]| > 1;
  }

  lemma FieldLine(line: string, key: string, value: string)
    requires line == Field(key, value) && |key| > 1 && IsKeyStart(key[0], key[1])
    ensures HasContent(line) && !IsSectionLine(line) && !BeginsEntry(line) && !BeginsSection(line)
  {
    var text := key + ": " + value;
    assert line == "    " + text && line[..4] == "    " && line[4..] == text;
    TrimLeftSpaces(line);
    assert !IsSpace(text[0]) && TrimLeft(text) == text;
    assert text == key[..2] + (key[2..] + ": " + value);
    TrimRightKeeps(key[..2], key[2..] + ": " + value);
    var trimmed := TrimSpace(line);
    assert trimmed[..2] == key[..2] && trimmed[0] == key[0] && trimmed[1] == key[..2][1] == key[1];
  }

  /** The lines of an entry after its first. */
  lemma EntryFields(p: Project, q: Printable, j: nat, name: string)
    requires 1 <= j < |BlockLines(p, q)|
    ensures var line := BlockLines(p, q)[j];
            && HasContent(line) && !IsSectionLine(line) && !BeginsEntry(line) && !BeginsSection(line)
            && !IsNameLine(line, name)
  {
    var line := BlockLines(p, q)[j];
    assert line in Render(FieldSpecs(p, q));
    var spec := RenderedLine(FieldSpecs(p, q), line);
    SpecKeyStart(p, q, spec);
    BlockHasEntryFields(p, q, line);
    EntryFieldProperties(line, name);
    hide BlockLines, Field, FieldSpecs, Render;
    FieldLine(line, spec.key, spec.value);
  }

  /** The first line of an entry is found by a plainly quotable name exactly if it is the entry's own. */
  lemma {:induction false} EscapedIsPlain(s: string, q: Printable)
    requires '\\' !in Escaped(s, q)
    ensures PlainlyQuotable(s, q)
  {
    if s != "" {
      var e := EscapeChar(s[0], q);
      assert Escaped(s, q) == e + Escaped(s[1..], q);
      assert e[0] in Escaped(s, q);
      assert forall c :: c in Escaped(s[1..], q) ==> c in Escaped(s, q);
      EscapedIsPlain(s[1..], q);
      assert s == [s[0]] + s[1..];
    }
  }

  /** Of a quoted text the pattern can only read all that is between the marks. */
  lemma NameIsContent(s: string, e: string, a: string, c: nat)
    requires |s| == |e| + 3 && s[0] == ' ' && s[1] == '"' && s[|s| - 1] == '"' && s[1 + 1..] == e + "\""
    requires c <= 1 && NameAt(s, c, a) && '"' !in a
    ensures a == e
  {
    hide EndsName;
    var from := if BeginsName(s[c..], a) then c else c + 1;
    NameFillsQuotes(s, a, from);
    assert forall i :: 0 <= i < |a| ==> a[i] == s[from..][i] == s[from + i] && a[i] in a;
    assert from == 2;
    assert |a| <= |e|;
    assert a == s[1 + 1..][..|a|] == e;
  }

  lemma QuotedNameMatches(b: string, a: string, q: Printable)
    requires PlainlyQuotable(a, q)
    ensures NameFollows(" " + Quote(b, q), a) <==> a == b
  {
    assert '"' !in a && '\\' !in a;
    hide EscapeChar, EndsName, CountSpaces, NameAt, Quote, PlainlyQuotable;
    QuotedNameFollows(b, q);
    QuotedName(b, q);
    var s := " " + Quote(b, q);
    if NameFollows(s, a) {
      var c :| 0 <= c <= CountSpaces(s) && NameAt(s, c, a);
      NameIsContent(s, Escaped(b, q), a, c);
      hide Escaped;
      EscapedIsPlain(b, q);
      EscapedLength(b, q);
    }
  }

  lemma EntryName(p: Project, q: Printable, name: string)
    requires PlainlyQuotable(name, q)
    ensures IsNameLine(BlockLines(p, q)[0], name) <==> p.name == name
  {
    hide IsNameLine, NameFollows, Quote;
    assert BlockLines(p, q)[0] == "  - name:" + (" " + Quote(p.name, q));
    NameLineByTail(" " + Quote(p.name, q), name);
    QuotedNameMatches(p.name, name, q);
  }

  // ----- the entries of other mirrors stay whole

  ghost predicate HoldsLines(lines: seq<string>, i: nat, block: seq<string>) {
    i + |block| <= |lines| && forall j :: i <= j < i + |block| ==> lines[j] == block[j - i]
  }

  /** The entry as it is written stands somewhere. */
  ghost predicate HoldsEntry(lines: seq<string>, p: Project, q: Printable) {
    exists i :: HoldsLines(lines, i, BlockLines(p, q))
  }

  lemma CuttingKeepsLines(lines: seq<string>, start: nat, cut: nat, i: nat, block: seq<string>)
    requires start <= cut <= |lines| && HoldsLines(lines, i, block) && (i + |block| <= start || cut <= i)
    ensures HoldsLines(lines[..start] + lines[cut..], if i + |block| <= start then i else i - (cut - start), block)
  {
    var r := lines[..start] + lines[cut..];
    assert forall j :: start <= j < |r| ==> r[j] == lines[j + (cut - start)];
  }

  lemma SplicingKeepsLines(lines: seq<string>, at: nat, more: seq<string>, i: nat, block: seq<string>)
    requires at <= |lines| && HoldsLines(lines, i, block) && (i + |block| <= at || at <= i)
    ensures HoldsLines(Splice(lines, at, more), if i + |block| <= at then i else i + |more|, block)
  {
    var r := Splice(lines, at, more);
    assert forall j :: at <= j < |lines| ==> r[j + |more|] == lines[j];
    hide Splice;
    if at <= i && i + |block| > at {
      forall j | i + |more| <= j < i + |more| + |block| ensures r[j] == block[j - (i + |more|)] {
        assert r[(j - |more|) + |more|] == lines[j - |more|];
      }
    }
  }

  /** The lines taken out are none of an entry that is not the one found. */
  lemma RemovalAvoids(lines: seq<string>, name: string, start: nat, cut: nat, p: Project, q: Printable, i: nat)
    requires IsEntryOf(lines, name, start, cut) && HoldsLines(lines, i, BlockLines(p, q))
    requires !IsNameLine(BlockLines(p, q)[0], name)
    ensures i + |BlockLines(p, q)| <= start || cut <= i
  {
    BlockNotEmpty(p, q);
    EntryHead(p, q);
    if i < start < i + |BlockLines(p, q)| { EntryFields(p, q, start - i, name); }
    hide BlockLines, IsNameLine, BeginsEntry, BeginsSection, HasContent, IsSectionLine, BlankFromTo;
    assert lines[i] == BlockLines(p, q)[0];
    assert i != start;
  }

  /** Removing a mirror keeps every written entry whole that does not have the name. */
  lemma RemovalKeepsOtherEntries(lines: seq<string>, name: string, p: Project, q: Printable)
    requires RemoveMirror(lines, name).Ok? && HoldsEntry(lines, p, q) && !IsNameLine(BlockLines(p, q)[0], name)
    ensures HoldsEntry(RemoveMirror(lines, name).value, p, q)
  {
    hide BlockLines, IsNameLine, HoldsLines, IsEntryOf, RemoveMirror;
    var i :| HoldsLines(lines, i, BlockLines(p, q));
    var start, cut := RemovedEntry(lines, name);
    RemovalAvoids(lines, name, start, cut, p, q, i);
    CuttingKeepsLines(lines, start, cut, i, BlockLines(p, q));
  }

  /** The new entry goes before or after a written one. */
  lemma AdditionAvoids(lines: seq<string>, first: nat, end: nat, at: nat, p: Project, q: Printable, i: nat)
    requires IsMirrorsSection(lines, first, end) && IsAfterLastEntry(lines, first, end, at)
    requires HoldsLines(lines, i, BlockLines(p, q))
    ensures at <= i || i + |BlockLines(p, q)| <= at
  {
    forall j | i < j < i + |BlockLines(p, q)| ensures HasContent(lines[j]) && !IsSectionLine(lines[j]) && !BeginsSection(lines[j]) {
      EntryFields(p, q, j - i, "");
    }
    hide BlockLines, BeginsSection, HasContent, IsSectionLine;
    assert at < end ==> IsSectionLine(lines[at]) || !HasContent(lines[at]);
  }

  lemma PreparationKeepsEntry(lines: seq<string>, before: seq<string>, p: Project, q: Printable, i: nat)
    requires HoldsLines(lines, i, BlockLines(p, q)) && |before| == |lines|
    requires forall j :: 0 <= j < |lines| ==> before[j] == lines[j] || IsSectionLine(lines[j])
    ensures HoldsLines(before, i, BlockLines(p, q))
  {
    forall j | i <= j < i + |BlockLines(p, q)| ensures !IsSectionLine(lines[j]) { EntryLine(p, q, j - i); }
    hide BlockLines, IsSectionLine;
  }

  lemma LastAdditionKeeps(lines: seq<string>, block: seq<string>, first: nat, end: nat, at: nat, result: seq<string>,
                          p: Project, q: Printable, i: nat)
    requires AddedLast(lines, block, first, end, at, result) && HoldsLines(lines, i, BlockLines(p, q))
    ensures HoldsEntry(result, p, q)
  {
    hide IsSectionLine, BlockLines, IsMirrorsSection, IsAfterLastEntry, Splice, HoldsLines;
    var before :| OnlyOpened(lines, before, end) && |before| >= at && result == Splice(before, at, block);
    AdditionAvoids(lines, first, end, at, p, q, i);
    PreparationKeepsEntry(lines, before, p, q, i);
    SplicingKeepsLines(before, at, block, i, BlockLines(p, q));
  }

  /** Adding a mirror keeps every written entry whole: the new one does not come between its lines. */
  lemma AdditionKeepsOtherEntries(lines: seq<string>, added: Project, p: Project, q: Printable)
    requires AddMirror(lines, added, q).Ok? && HoldsEntry(lines, p, q)
    ensures HoldsEntry(AddMirror(lines, added, q).value, p, q)
  {
    hide AddMirror, BlockLines, NoSectionLine, AddedLast;
    var i :| HoldsLines(lines, i, BlockLines(p, q));
    if NoSectionLine(lines) {
      NewSectionAddition(lines, added, q);
      LongerHoldsLines(lines, ["", "mirrors:"] + BlockLines(added, q), i, BlockLines(p, q));
      assert lines + ["", "mirrors:"] + BlockLines(added, q) == lines + (["", "mirrors:"] + BlockLines(added, q));
    } else {
      hide HoldsLines, HoldsEntry;
      var first, end, at := SectionAddition(lines, added, q);
      LastAdditionKeeps(lines, BlockLines(added, q), first, end, at, AddMirror(lines, added, q).value, p, q, i);
    }
  }

  lemma LongerHoldsLines(lines: seq<string>, more: seq<string>, i: nat, block: seq<string>)
    requires HoldsLines(lines, i, block)
    ensures HoldsLines(lines + more, i, block)
  {
  }

  lemma AfterLastEntryInRange(lines: seq<string>, first: nat, end: nat, at: nat)
    requires IsAfterLastEntry(lines, first, end, at)
    ensures first < at <= end <= |lines|
  {
    hide IsSectionLine, HasContent;
  }

  // ----- whole files

  function Entries(ps: seq<Project>, q: Printable): seq<string> {
    if ps == [] then [] else BlockLines(ps[0], q) + Entries(ps[1..], q)
  }

  /** A file with a mirrors section of written entries. */
  function Document(header: seq<string>, ps: seq<Project>, tail: seq<string>, q: Printable): seq<string> {
    header + ["mirrors:"] + Entries(ps, q) + tail
  }

  /** Blank lines, and then another section or the end. */
  ghost predicate CleanTail(tail: seq<string>) {
    exists k :: 0 <= k <= |tail| && BlankFromTo(tail, 0, k)
                && (k < |tail| ==> BeginsSection(tail[k]) && !IsSectionLine(tail[k]))
  }

  predicate HasName(ps: seq<Project>, name: string) {
    exists i :: 0 <= i < |ps| && ps[i].name == name
  }

  function WithoutFirst(ps: seq<Project>, name: string): seq<Project> {
    if ps == [] then [] else if ps[0].name == name then ps[1..] else [ps[0]] + WithoutFirst(ps[1..], name)
  }

  lemma {:induction false} EntriesConcat(a: seq<Project>, b: seq<Project>, q: Printable)
    ensures Entries(a + b, q) == Entries(a, q) + Entries(b, q)
  {
    if a == [] {
      assert a + b == b;
    } else {
      assert (a + b)[1..] == a[1..] + b;
      EntriesConcat(a[1..], b, q);
    }
  }

  lemma EntryLine(p: Project, q: Printable, j: nat)
    requires j < |BlockLines(p, q)|
    ensures var line := BlockLines(p, q)[j]; HasContent(line) && !IsSectionLine(line) && !BeginsSection(line)
  {
    EntryHead(p, q);
    if j > 0 { EntryFields(p, q, j, ""); }
  }

  lemma {:induction false} EntriesLine(ps: seq<Project>, q: Printable, j: nat)
    requires j < |Entries(ps, q)|
    ensures var line := Entries(ps, q)[j]; HasContent(line) && !IsSectionLine(line) && !BeginsSection(line)
  {
    hide HasContent, IsSectionLine, BeginsSection, BlockLines;
    var n := |BlockLines(ps[0], q)|;
    if j < n { EntryLine(ps[0], q, j); } else { EntriesLine(ps[1..], q, j - n); }
  }

  lemma BlockNames(p: Project, q: Printable, name: string)
    requires PlainlyQuotable(name, q)
    ensures Declares(BlockLines(p, q), name) <==> p.name == name
  {
    EntryName(p, q, name);
    forall j | 1 <= j < |BlockLines(p, q)| ensures !IsNameLine(BlockLines(p, q)[j], name) { EntryFields(p, q, j, name); }
    hide IsNameLine, BlockLines;
    BlockNotEmpty(p, q);
  }

  lemma BlockNotEmpty(p: Project, q: Printable)
    ensures |BlockLines(p, q)| >= 1
  {
  }

  lemma DeclaresConcat(a: seq<string>, b: seq<string>, name: string)
    ensures Declares(a + b, name) <==> Declares(a, name) || Declares(b, name)
  {
    hide IsNameLine;
    var both := a + b;
    assert forall j :: 0 <= j < |a| ==> both[j] == a[j];
    assert forall j :: 0 <= j < |b| ==> both[|a| + j] == b[j];
    assert forall j :: |a| <= j < |both| ==> both[j] == b[j - |a|];
  }

  lemma {:induction false} EntriesNames(ps: seq<Project>, q: Printable, name: string)
    requires PlainlyQuotable(name, q)
    ensures Declares(Entries(ps, q), name) <==> HasName(ps, name)
  {
    hide PlainlyQuotable, IsNameLine, BlockLines;
    if ps != [] {
      BlockNames(ps[0], q, name);
      EntriesNames(ps[1..], q, name);
      DeclaresConcat(BlockLines(ps[0], q), Entries(ps[1..], q), name);
      hide Declares;
      assert ps == [ps[0]] + ps[1..];
      assert HasName(ps[1..], name) ==> HasName(ps, name) by {
        if HasName(ps[1..], name) {
          var i :| 0 <= i < |ps[1..]| && ps[1..][i].name == name;
          assert ps[i + 1].name == name;
        }
      }
      assert HasName(ps, name) ==> ps[0].name == name || HasName(ps[1..], name) by {
        if HasName(ps, name) && ps[0].name != name {
          var i :| 0 <= i < |ps| && ps[i].name == name;
          assert ps[1..][i - 1].name == name;
        }
      }
    }
  }

  lemma DocumentNames(header: seq<string>, ps: seq<Project>, tail: seq<string>, q: Printable, name: string)
    requires PlainlyQuotable(name, q) && !Declares(header, name) && !Declares(tail, name)
    ensures Declares(Document(header, ps, tail, q), name) <==> HasName(ps, name)
  {
    PlainLinesAreNoNames(name);
    assert !Declares(["mirrors:"], name);
    EntriesNames(ps, q, name);
    DeclaresConcat(header, ["mirrors:"], name);
    DeclaresConcat(header + ["mirrors:"], Entries(ps, q), name);
    DeclaresConcat(header + ["mirrors:"] + Entries(ps, q), tail, name);
    hide Declares, PlainlyQuotable, HasName;
  }

  /** The text of an entry is followed by blank lines, and then another entry, section, or the end. */
  ghost predicate CleanRest(rest: seq<string>) {
    exists k :: 0 <= k <= |rest| && BlankFromTo(rest, 0, k) && (k < |rest| ==> BeginsEntry(rest[k]) || BeginsSection(rest[k]))
  }

  /** An entry between lines without its name, and followed cleanly, is what is taken out. */
  lemma EntryTakenOut(front: seq<string>, p: Project, rest: seq<string>, q: Printable)
    requires PlainlyQuotable(p.name, q) && ValidToken(p.name) && !Declares(front, p.name) && CleanRest(rest)
    ensures RemoveMirror(front + BlockLines(p, q) + rest, p.name) == Ok(front + rest)
  {
    var block := BlockLines(p, q);
    var lines := front + block + rest;
    BlockNotEmpty(p, q);
    EntryName(p, q, p.name);
    assert lines[|front|] == block[0];
    assert Declares(lines, p.name);
    RemovalTakesOneEntry(lines, p.name);
    assert RemoveMirror(lines, p.name).Ok? by { hide IsNameLine; }
    var start, cut := RemovedEntry(lines, p.name);
    hide RemoveMirror, IsNameLine, BlockLines, ValidToken, PlainlyQuotable;
    StartsAtEntry(front, block, rest, p.name, start, cut);
    EndOfEntry(front, p, rest, q, cut);
    assert lines[..|front|] == front && lines[|front| + |block|..] == rest;
  }

  lemma StartsAtEntry(front: seq<string>, block: seq<string>, rest: seq<string>, name: string, start: nat, cut: nat)
    requires block != [] && IsNameLine(block[0], name) && !Declares(front, name)
    requires IsEntryOf(front + block + rest, name, start, cut)
    ensures start == |front|
  {
    hide IsNameLine, BeginsEntry, BeginsSection, BlankFromTo;
    var lines := front + block + rest;
    assert lines[|front|] == block[0];
    assert forall j :: 0 <= j < |front| ==> lines[j] == front[j];
  }

  /** The lines of an entry after its first, where they stand. */
  lemma FieldsAt(front: seq<string>, p: Project, rest: seq<string>, q: Printable, j: nat)
    requires |front| < j < |front| + |BlockLines(p, q)|
    ensures var line := (front + BlockLines(p, q) + rest)[j];
            TrimSpace(line) != "" && !BeginsEntry(line) && !BeginsSection(line)
  {
    var line := (front + BlockLines(p, q) + rest)[j];
    assert line == BlockLines(p, q)[j - |front|];
    EntryFields(p, q, j - |front|, "");
    hide BlockLines, BeginsEntry, BeginsSection, IsNameLine;
    ContentIsNotBlank(line);
  }

  lemma BlankAt(before: seq<string>, rest: seq<string>, k: nat)
    requires k <= |rest| && BlankFromTo(rest, 0, k)
    ensures BlankFromTo(before + rest, |before|, |before| + k)
    ensures k < |rest| ==> (before + rest)[|before| + k] == rest[k]
  {
    hide TrimSpace;
    forall j | |before| <= j < |before| + k ensures (before + rest)[j] == rest[j - |before|] {}
  }

  lemma EndOfEntry(front: seq<string>, p: Project, rest: seq<string>, q: Printable, cut: nat)
    requires CleanRest(rest)
    requires IsEntryOf(front + BlockLines(p, q) + rest, p.name, |front|, cut)
    ensures cut == |front| + |BlockLines(p, q)|
  {
    BlockNotEmpty(p, q);
    hide IsNameLine, BlockLines, BeginsEntry, BeginsSection, TrimSpace, IsEntryOf, BlankFromTo;
    var before := front + BlockLines(p, q);
    forall j | |front| < j < |before|
      ensures TrimSpace((before + rest)[j]) != "" && !BeginsEntry((before + rest)[j]) && !BeginsSection((before + rest)[j])
    {
      FieldsAt(front, p, rest, q, j);
    }
    var k :| 0 <= k <= |rest| && BlankFromTo(rest, 0, k) && (k < |rest| ==> BeginsEntry(rest[k]) || BeginsSection(rest[k]));
    BlankAt(before, rest, k);
    EndByText(before + rest, p.name, |front|, |before|, k, cut);
  }

  lemma EndByText(lines: seq<string>, name: string, start: nat, b: nat, k: nat, cut: nat)
    requires IsEntryOf(lines, name, start, cut) && start < b && b + k <= |lines|
    requires forall j :: start < j < b ==> TrimSpace(lines[j]) != "" && !BeginsEntry(lines[j]) && !BeginsSection(lines[j])
    requires BlankFromTo(lines, b, b + k) && (b + k < |lines| ==> BeginsEntry(lines[b + k]) || BeginsSection(lines[b + k]))
    ensures cut == b
  {
    hide IsNameLine, BeginsEntry, BeginsSection, TrimSpace;
    var e :| cut <= e <= |lines| && BlankFromTo(lines, cut, e)
             && (e < |lines| ==> BeginsEntry(lines[e]) || BeginsSection(lines[e]));
    assert cut <= b + k;
    assert cut < |lines| ==> e == cut || TrimSpace(lines[cut]) == "";
  }

  lemma ContentIsNotBlank(line: string)
    requires HasContent(line)
    ensures TrimSpace(line) != ""
  {
  }

  lemma {:induction false} FirstOfName(ps: seq<Project>, name: string) returns (i: nat)
    requires HasName(ps, name)
    ensures i < |ps| && ps[i].name == name && !HasName(ps[..i], name)
    ensures WithoutFirst(ps, name) == ps[..i] + ps[i + 1..]
  {
    if ps[0].name == name {
      i := 0;
    } else {
      var k :| 0 <= k < |ps| && ps[k].name == name;
      assert ps[1..][k - 1].name == name;
      i := FirstOfName(ps[1..], name);
      i := i + 1;
      OneFurther(ps, i, name);
    }
  }

  lemma OneFurther(ps: seq<Project>, i: nat, name: string)
    requires 0 < i < |ps| && ps[0].name != name && !HasName(ps[1..][..i - 1], name)
    ensures !HasName(ps[..i], name)
    ensures [ps[0]] + (ps[1..][..i - 1] + ps[1..][i..]) == ps[..i] + ps[i + 1..]
  {
    assert forall j :: 0 < j < i ==> ps[..i][j] == ps[1..][..i - 1][j - 1];
    assert ps[..i] == [ps[0]] + ps[1..][..i - 1] && ps[i + 1..] == ps[1..][i..];
  }

  lemma RestIsClean(ps: seq<Project>, tail: seq<string>, q: Printable)
    requires CleanTail(tail)
    ensures CleanRest(Entries(ps, q) + tail)
  {
    var rest := Entries(ps, q) + tail;
    if ps == [] {
      assert rest == tail;
      var k :| 0 <= k <= |tail| && BlankFromTo(tail, 0, k) && (k < |tail| ==> BeginsSection(tail[k]) && !IsSectionLine(tail[k]));
      assert BlankFromTo(rest, 0, k);
    } else {
      BlockNotEmpty(ps[0], q);
      EntryHead(ps[0], q);
      hide BlockLines, BeginsEntry;
      assert rest[0] == BlockLines(ps[0], q)[0];
      assert BlankFromTo(rest, 0, 0);
    }
  }

  /** Removing a mirror from a document takes the first mirror with the name out of its list, and reports
      not found exactly if there is none. */
  lemma RemovalTakesMirrorOut(header: seq<string>, ps: seq<Project>, tail: seq<string>, q: Printable, name: string)
    requires PlainlyQuotable(name, q) && ValidToken(name)
    requires !Declares(header, name) && !Declares(tail, name) && CleanTail(tail)
    ensures RemoveMirror(Document(header, ps, tail, q), name)
            == if HasName(ps, name) then Ok(Document(header, WithoutFirst(ps, name), tail, q)) else NotFound
  {
    DocumentNames(header, ps, tail, q, name);
    if HasName(ps, name) {
      var i := FirstOfName(ps, name);
      DocumentNames(header, ps[..i], [], q, name);
      var front, rest := Document(header, ps[..i], [], q), Entries(ps[i + 1..], q) + tail;
      RestIsClean(ps[i + 1..], tail, q);
      EntryTakenOut(front, ps[i], rest, q);
      SplitDocument(header, ps, tail, q, i);
    } else {
      RemovalTakesOneEntry(Document(header, ps, tail, q), name);
      hide Declares, Document;
      assert ValidToken(name) ==> !exists c :: c in name && (c < ' ' || c == '\U{7F}');
    }
  }

  lemma Regroup(a: seq<string>, b: seq<string>, c: seq<string>, d: seq<string>, e: seq<string>)
    ensures a + (b + (c + d)) + e == (a + b + []) + c + (d + e)
    ensures a + (b + d) + e == (a + b + []) + (d + e)
  {
    assert a + b + [] == a + b;
  }

  lemma SplitDocument(header: seq<string>, ps: seq<Project>, tail: seq<string>, q: Printable, i: nat)
    requires i < |ps|
    ensures var front, rest := Document(header, ps[..i], [], q), Entries(ps[i + 1..], q) + tail;
            && Document(header, ps, tail, q) == front + BlockLines(ps[i], q) + rest
            && Document(header, ps[..i] + ps[i + 1..], tail, q) == front + rest
  {
    assert ps == ps[..i] + ps[i..] && ps[i..][1..] == ps[i + 1..] && ps[i..][0] == ps[i];
    EntriesConcat(ps[..i], ps[i..], q);
    EntriesConcat(ps[..i], ps[i + 1..], q);
    assert Entries(ps[i..], q) == BlockLines(ps[i], q) + Entries(ps[i + 1..], q);
    Regroup(header + ["mirrors:"], Entries(ps[..i], q), BlockLines(ps[i], q), Entries(ps[i + 1..], q), tail);
    hide BlockLines, Entries;
  }

  predicate ControlFree(s: string) {
    forall c :: c in s ==> c >= ' ' && c != '\U{7F}'
  }

  predicate AllControlFree(p: Project) {
    && ControlFree(p.name) && ControlFree(p.localPath) && ControlFree(p.remote) && ControlFree(p.syncIgnorePath)
    && ControlFree(p.deletePolicy) && ControlFree(p.preSyncHook) && ControlFree(p.postSyncHook)
  }

  /** Adding a mirror to a document appends it to the list, unless the list has the name already or a field
      has a control character. */
  lemma AdditionAppendsMirror(header: seq<string>, ps: seq<Project>, tail: seq<string>, q: Printable, p: Project)
    requires PlainlyQuotable(p.name, q) && !Declares(header, p.name) && !Declares(tail, p.name)
    requires NoSectionLine(header) && CleanTail(tail)
    ensures AddMirror(Document(header, ps, tail, q), p, q)
            == if !AllControlFree(p) then InvalidToken
               else if HasName(ps, p.name) then AlreadyExists
               else Ok(Document(header, ps + [p], tail, q))
  {
    DocumentNames(header, ps, tail, q, p.name);
    assert ValidProject(p) <==> AllControlFree(p) by { FieldsAreControlFree(); }
    if ValidProject(p) && !HasName(ps, p.name) {
      AppendedDocument(header, ps, tail, q, p);
    }
    hide Document, Declares, HasName, AllControlFree, ValidProject, Splice, BlockLines;
  }

  lemma FieldsAreControlFree()
    ensures forall s :: ControlFree(s) <==> ValidToken(s)
  {
  }

  /** Which kind of line stands where in a document. */
  lemma DocumentLines(header: seq<string>, ps: seq<Project>, tail: seq<string>, q: Printable)
    ensures var lines, a := Document(header, ps, tail, q), |header| + 1;
            && |lines| == a + |Entries(ps, q)| + |tail|
            && (forall j :: 0 <= j < |header| ==> lines[j] == header[j]) && lines[|header|] == "mirrors:"
            && (forall j :: a <= j < a + |Entries(ps, q)| ==>
                  HasContent(lines[j]) && !IsSectionLine(lines[j]) && !BeginsSection(lines[j]))
            && (forall j :: 0 <= j < |tail| ==> lines[a + |Entries(ps, q)| + j] == tail[j])
            && IsSectionLine("mirrors:")
  {
    var lines, a := Document(header, ps, tail, q), |header| + 1;
    MirrorsLine();
    LineKinds("mirrors:");
    hide HasContent, IsSectionLine, BeginsSection, IsMirrors, Entries;
    forall j | a <= j < a + |Entries(ps, q)|
      ensures HasContent(lines[j]) && !IsSectionLine(lines[j]) && !BeginsSection(lines[j])
    {
      EntriesLine(ps, q, j - a);
      assert lines[j] == Entries(ps, q)[j - a];
    }
  }

  lemma BlankIsNothing(line: string)
    requires TrimSpace(line) == ""
    ensures !HasContent(line) && !IsSectionLine(line)
  {
  }

  lemma PlaceInDocument(header: seq<string>, ps: seq<Project>, tail: seq<string>, q: Printable,
                        first: nat, end: nat, at: nat)
    requires NoSectionLine(header) && CleanTail(tail)
    requires IsMirrorsSection(Document(header, ps, tail, q), first, end)
    requires IsAfterLastEntry(Document(header, ps, tail, q), first, end, at)
    ensures at == |header| + 1 + |Entries(ps, q)|
    ensures forall j :: 0 <= j < end && IsSectionLine(Document(header, ps, tail, q)[j]) ==>
                          Document(header, ps, tail, q)[j] == "mirrors:"
  {
    var lines, a := Document(header, ps, tail, q), |header| + 1 + |Entries(ps, q)|;
    DocumentLines(header, ps, tail, q);
    hide Document, HasContent, IsSectionLine, BeginsSection, Entries;
    var k :| 0 <= k <= |tail| && BlankFromTo(tail, 0, k) && (k < |tail| ==> BeginsSection(tail[k]) && !IsSectionLine(tail[k]));
    assert first == |header|;
    assert a <= end;
    assert k < |tail| ==> lines[a + k] == tail[k];
    assert end <= a + k;
    forall j | a <= j < end ensures !HasContent(lines[j]) && !IsSectionLine(lines[j]) {
      assert lines[a + (j - a)] == tail[j - a];
      BlankIsNothing(tail[j - a]);
    }
    assert a - 1 > |header| ==> HasContent(lines[a - 1]) && !IsSectionLine(lines[a - 1]);
  }

  lemma SplicedBefore(a: seq<string>, e: seq<string>, tail: seq<string>, block: seq<string>)
    ensures Splice(a + e + tail, |a| + |e|, block) == a + (e + block) + tail
  {
    var lines := a + e + tail;
    assert lines[..|a| + |e|] == a + e && lines[|a| + |e|..] == tail;
    assert a + (e + block) == a + e + block;
  }

  lemma AppendedLines(header: seq<string>, ps: seq<Project>, tail: seq<string>, q: Printable, p: Project)
    ensures Splice(Document(header, ps, tail, q), |header| + 1 + |Entries(ps, q)|, BlockLines(p, q))
            == Document(header, ps + [p], tail, q)
  {
    EntriesConcat(ps, [p], q);
    OneEntry(p, q);
    hide BlockLines, Entries, Splice;
    SplicedBefore(header + ["mirrors:"], Entries(ps, q), tail, BlockLines(p, q));
  }

  lemma OneEntry(p: Project, q: Printable)
    ensures Entries([p], q) == BlockLines(p, q)
  {
    hide BlockLines;
    assert [p][1..] == [] && BlockLines(p, q) + [] == BlockLines(p, q);
  }

  lemma DocumentHasSection(header: seq<string>, ps: seq<Project>, tail: seq<string>, q: Printable)
    ensures |header| < |Document(header, ps, tail, q)| && IsSectionLine(Document(header, ps, tail, q)[|header|])
  {
    DocumentLines(header, ps, tail, q);
  }

  lemma AppendedDocument(header: seq<string>, ps: seq<Project>, tail: seq<string>, q: Printable, p: Project)
    requires NoSectionLine(header) && CleanTail(tail) && AddMirror(Document(header, ps, tail, q), p, q).Ok?
    ensures AddMirror(Document(header, ps, tail, q), p, q) == Ok(Document(header, ps + [p], tail, q))
  {
    var lines := Document(header, ps, tail, q);
    DocumentHasSection(header, ps, tail, q);
    assert !NoSectionLine(lines);
    hide AddMirror, BlockLines, IsSectionLine, BeginsSection, HasContent, Splice, Document, NoSectionLine, AddedLast;
    var first, end, at := SectionAddition(lines, p, q);
    AddedToDocument(header, ps, tail, q, BlockLines(p, q), first, end, at, AddMirror(lines, p, q).value);
    AppendedLines(header, ps, tail, q, p);
  }

  lemma AddedToDocument(header: seq<string>, ps: seq<Project>, tail: seq<string>, q: Printable, block: seq<string>,
                        first: nat, end: nat, at: nat, result: seq<string>)
    requires NoSectionLine(header) && CleanTail(tail)
    requires AddedLast(Document(header, ps, tail, q), block, first, end, at, result)
    ensures at == |header| + 1 + |Entries(ps, q)| <= |Document(header, ps, tail, q)|
    ensures result == Splice(Document(header, ps, tail, q), at, block)
  {
    var lines := Document(header, ps, tail, q);
    PlaceInDocument(header, ps, tail, q, first, end, at);
    AfterLastEntryInRange(lines, first, end, at);
    hide IsMirrorsSection, IsAfterLastEntry, Document, IsSectionLine, Splice, NoSectionLine, CleanTail;
    var before :| OnlyOpened(lines, before, end) && |before| >= at && result == Splice(before, at, block);
    assert before == lines;
  }

  // ----- any sequence of edits

  datatype Edit = Add(p: Project) | Remove(name: string)

  /** A failed edit leaves the file alone. */
  function Edited(lines: seq<string>, e: Edit, q: Printable): seq<string> {
    var r := match e case Add(p) => AddMirror(lines, p, q) case Remove(name) => RemoveMirror(lines, name);
    if r.Ok? then r.value else lines
  }

  function EditedBy(lines: seq<string>, edits: seq<Edit>, q: Printable): seq<string> {
    if edits == [] then lines else Edited(EditedBy(lines, edits[..|edits| - 1], q), edits[|edits| - 1], q)
  }

  /** The same on the list of mirrors. */
  function ListEdited(ps: seq<Project>, e: Edit): seq<Project> {
    match e
    case Add(p) => if AllControlFree(p) && !HasName(ps, p.name) then ps + [p] else ps
    case Remove(name) => if ControlFree(name) then WithoutFirst(ps, name) else ps
  }

  function ListEditedBy(ps: seq<Project>, edits: seq<Edit>): seq<Project> {
    if edits == [] then ps else ListEdited(ListEditedBy(ps, edits[..|edits| - 1]), edits[|edits| - 1])
  }

  function NameOf(e: Edit): string {
    match e case Add(p) => p.name case Remove(name) => name
  }

  /** The edit's name needs no escaping and is not found outside of the entries. */
  ghost predicate IsPlainEdit(header: seq<string>, tail: seq<string>, e: Edit, q: Printable) {
    PlainlyQuotable(NameOf(e), q) && !Declares(header, NameOf(e)) && !Declares(tail, NameOf(e))
  }

  lemma {:induction false} AbsentStays(ps: seq<Project>, name: string)
    requires !HasName(ps, name)
    ensures WithoutFirst(ps, name) == ps
  {
    if ps != [] {
      assert forall i :: 0 <= i < |ps[1..]| ==> ps[1..][i] == ps[i + 1];
      AbsentStays(ps[1..], name);
    }
  }

  lemma EditRefinesList(header: seq<string>, ps: seq<Project>, tail: seq<string>, q: Printable, e: Edit)
    requires NoSectionLine(header) && CleanTail(tail) && IsPlainEdit(header, tail, e, q)
    ensures Edited(Document(header, ps, tail, q), e, q) == Document(header, ListEdited(ps, e), tail, q)
  {
    hide Document, Declares, CleanTail, PlainlyQuotable, NoSectionLine, AddMirror, AllControlFree;
    match e
    case Add(p) =>
      AdditionAppendsMirror(header, ps, tail, q, p);
    case Remove(name) =>
      FieldsAreControlFree();
      if ControlFree(name) {
        RemovalTakesMirrorOut(header, ps, tail, q, name);
        if !HasName(ps, name) { AbsentStays(ps, name); }
      } else {
        assert RemoveMirror(Document(header, ps, tail, q), name) == InvalidToken;
      }
      hide RemoveMirror, HasName, WithoutFirst, ControlFree;
  }

  /** Any sequence of edits whose names need no escaping does to the file what it does to the list of its
      mirrors, and nothing else: what stands before and after the section is kept. */
  lemma {:induction false} EditsRefineList(header: seq<string>, ps: seq<Project>, tail: seq<string>, q: Printable,
                                           edits: seq<Edit>)
    requires NoSectionLine(header) && CleanTail(tail) && forall e :: e in edits ==> IsPlainEdit(header, tail, e, q)
    ensures EditedBy(Document(header, ps, tail, q), edits, q) == Document(header, ListEditedBy(ps, edits), tail, q)
    decreases |edits|
  {
    hide Document, CleanTail, IsPlainEdit, NoSectionLine, Edited, ListEdited;
    if edits != [] {
      var prefix, last := edits[..|edits| - 1], edits[|edits| - 1];
      assert last in edits && forall e :: e in prefix ==> e in edits;
      EditsRefineList(header, ps, tail, q, prefix);
      EditRefinesList(header, ListEditedBy(ps, prefix), tail, q, last);
    }
  }

  // ----- setting a field

  /** Setting a field fails exactly for a key or value with a control character, and otherwise replaces one
      line that begins with the key and a colon, or appends one. */
  lemma SetChangesOneLine(lines: seq<string>, key: string, value: string)
    ensures var r, line := SetField(lines, key, value), key + ": " + value;
            if !ControlFree(key) || !ControlFree(value) then r == InvalidToken
            else r == Ok(lines + [line])
                 || exists i :: 0 <= i < |lines| && key + ":" <= lines[i] && r == Ok(lines[i := line])
  {
    FieldsAreControlFree();
    var i := FindField(lines, key);
    if i < |lines| { TrimRightCRPrefix(lines[i]); }
    hide ControlFree, ValidToken, FindField;
  }
}
