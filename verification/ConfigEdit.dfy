/** Editing the YAML configuration as lines of text (internal/config/edit.go:75-463): which lines an edit
    touches, and the program's loops that find them. */
module ConfigEdit {
  import opened Hexadecimal
  import opened TextLines
  import D = Decimal

  datatype Result<T> = Ok(value: T) | InvalidToken | AlreadyExists | NotFound

  // ----- characters and tokens

  /** unicode.IsSpace, which strings.TrimSpace uses. */
  predicate IsSpace(c: char) {
    || '\t' <= c <= '\r' || c == ' ' || c == '\U{85}' || c == '\U{A0}' || c == '\U{1680}'
    || '\U{2000}' <= c <= '\U{200A}' || c == '\U{2028}' || c == '\U{2029}' || c == '\U{202F}'
    || c == '\U{205F}' || c == '\U{3000}'
  }

  function TrimLeft(s: string): string {
    if s != "" && IsSpace(s[0]) then TrimLeft(s[1..]) else s
  }

  function TrimRight(s: string): string {
    if s != "" && IsSpace(s[|s| - 1]) then TrimRight(s[..|s| - 1]) else s
  }

  function TrimSpace(s: string): string {
    TrimRight(TrimLeft(s))
  }

  /** \s in a regular expression. */
  predicate RegexSpace(c: char) {
    c == '\t' || c == '\n' || c == '\U{0C}' || c == '\r' || c == ' '
  }

  predicate ValidToken(s: string) {
    forall c :: c in s ==> c as int >= 0x20 && c as int != 0x7f
  }

  datatype Project = Project(name: string, localPath: string, remote: string, debounceSec: int, maxFileSizeMB: int,
                             syncIgnorePath: string, deletePolicy: string, quarantineDays: int,
                             preSyncHook: string, postSyncHook: string)

  predicate ValidProject(p: Project) {
    && ValidToken(p.name) && ValidToken(p.localPath) && ValidToken(p.remote) && ValidToken(p.syncIgnorePath)
    && ValidToken(p.deletePolicy) && ValidToken(p.preSyncHook) && ValidToken(p.postSyncHook)
  }

  // ----- the quoted form of a token (%q), given which characters are printable

  type Printable = char -> bool

  function EscapeChar(c: char, printable: Printable): (s: string)
    ensures |s| >= 1 && (|s| == 1 <==> printable(c) && c != '"' && c != '\\')
    ensures |s| == 1 ==> s == [c]
    ensures c != '\n' ==> '\n' !in s
  {
    if c == '"' || c == '\\' then ['\\', c]
    else if printable(c) then [c]
    else if c == '\U{07}' then "\\a" else if c == '\U{08}' then "\\b" else if c == '\U{0C}' then "\\f"
    else if c == '\n' then "\\n" else if c == '\r' then "\\r" else if c == '\t' then "\\t"
    else if c == '\U{0B}' then "\\v"
    else if c < ' ' || c == '\U{7F}' then "\\x" + HexDigits(c as int, 2)
    else if c as int < 0x10000 then "\\u" + HexDigits(c as int, 4)
    else "\\U" + HexDigits(c as int, 8)
  }

  function Escaped(s: string, printable: Printable): string {
    if s == "" then "" else EscapeChar(s[0], printable) + Escaped(s[1..], printable)
  }

  function Quote(s: string, printable: Printable): string {
    "\"" + Escaped(s, printable) + "\""
  }

  function Field(key: string, value: string): string {
    "    " + key + ": " + value
  }

  datatype FieldSpec = FieldSpec(present: bool, key: string, value: string)

  function Render(specs: seq<FieldSpec>): seq<string> {
    if specs == [] then []
    else (if specs[0].present then [Field(specs[0].key, specs[0].value)] else []) + Render(specs[1..])
  }

  function FieldSpecs(p: Project, q: Printable): seq<FieldSpec> {
    [FieldSpec(true, "local_path", Quote(p.localPath, q)),
     FieldSpec(true, "remote", Quote(p.remote, q)),
     FieldSpec(p.debounceSec > 0, "debounce_sec", D.Format(p.debounceSec)),
     FieldSpec(p.maxFileSizeMB > 0 && p.maxFileSizeMB != 100, "max_file_size_mb", D.Format(p.maxFileSizeMB)),
     FieldSpec(p.syncIgnorePath != "", "syncignore_path", Quote(p.syncIgnorePath, q)),
     FieldSpec(p.deletePolicy != "", "delete_policy", p.deletePolicy),
     FieldSpec(p.quarantineDays > 0, "quarantine_days", D.Format(p.quarantineDays)),
     FieldSpec(p.preSyncHook != "", "pre_sync_hook", Quote(p.preSyncHook, q)),
     FieldSpec(p.postSyncHook != "", "post_sync_hook", Quote(p.postSyncHook, q))]
  }

  /** The lines of formatMirrorBlock. */
  function BlockLines(p: Project, q: Printable): seq<string> {
    ["  - name: " + Quote(p.name, q)] + Render(FieldSpecs(p, q))
  }

  // ----- what a line is

  function CountSpaces(s: string): (n: nat)
    ensures n <= |s| && (forall i :: 0 <= i < n ==> RegexSpace(s[i])) && (n < |s| ==> !RegexSpace(s[n]))
  {
    if s != "" && RegexSpace(s[0]) then 1 + CountSpaces(s[1..]) else 0
  }

  predicate IsQuoteMark(c: char) {
    c == '\'' || c == '"'
  }

  /** ['"]?\s*$ */
  predicate EndsName(s: string) {
    CountSpaces(s) == |s| || (s != "" && IsQuoteMark(s[0]) && CountSpaces(s[1..]) == |s| - 1)
  }

  /** NAME['"]?\s*$ */
  predicate BeginsName(s: string, name: string) {
    name <= s && EndsName(s[|name|..])
  }

  /** ['"]?NAME['"]?\s*$ from position c on. */
  predicate NameAt(s: string, c: nat, name: string)
    requires c <= |s|
  {
    BeginsName(s[c..], name) || (c < |s| && IsQuoteMark(s[c]) && BeginsName(s[c + 1..], name))
  }

  /** \s*['"]?NAME['"]?\s*$ with every choice that backtracking could make. */
  predicate NameFollows(s: string, name: string) {
    exists c :: 0 <= c <= CountSpaces(s) && NameAt(s, c, name)
  }

  /** ^\s+-\s+name:\s*['"]?NAME['"]?\s*$ : the two leading runs of spaces can only be taken whole. */
  predicate IsNameLine(line: string, name: string) {
    var a := CountSpaces(line);
    a >= 1 && a < |line| && line[a] == '-' &&
    (var rest := line[a + 1..];
     var b := CountSpaces(rest);
     b >= 1 && "name:" <= rest[b..] && NameFollows(rest[b + 5..], name))
  }

  predicate IsBlank(line: string) {
    TrimSpace(line) == ""
  }

  predicate IsComment(line: string) {
    "#" <= TrimSpace(line)
  }

  predicate IsMirrors(line: string) {
    "mirrors:" <= TrimSpace(line)
  }

  predicate HasEmptyList(s: string) {
    exists i :: 0 <= i <= |s| - 2 && s[i] == '[' && s[i + 1] == ']'
  }

  predicate IsIndented(line: string) {
    " " <= line || "\t" <= line
  }

  predicate IsItem(line: string) {
    "- name:" <= TrimSpace(line) || "- name :" <= TrimSpace(line)
  }

  /** A line at which an entry ends. */
  predicate EndsEntry(line: string) {
    !IsBlank(line) && (IsItem(line) || (!IsIndented(line) && !IsComment(line)))
  }

  // ----- adding a mirror

  /** The scan for the insertion point: the last mirrors line seen, the insertion point found so far (-1 for
      none), and where the scan ended. */
  datatype Scan = Scan(mirrors: int, insert: int, end: nat)

  function ScanFrom(lines: seq<string>, i: nat, mirrors: int, insert: int): (r: Scan)
    requires i <= |lines|
    decreases |lines| - i
  {
    if i == |lines| then Scan(mirrors, insert, i)
    else if IsMirrors(lines[i]) then ScanFrom(lines, i + 1, i, insert)
    else if mirrors < 0 then ScanFrom(lines, i + 1, mirrors, insert)
    else if IsBlank(lines[i]) || IsComment(lines[i]) then
      ScanFrom(lines, i + 1, mirrors, if insert < 0 then i else insert)
    else if !IsIndented(lines[i]) then Scan(mirrors, if insert < 0 then i else insert, i)
    else ScanFrom(lines, i + 1, mirrors, i + 1)
  }

  function ScanLines(lines: seq<string>): Scan {
    ScanFrom(lines, 0, -1, -1)
  }

  /** The lines after the scan has turned inline empty lists into block form. */
  function Unfolded(lines: seq<string>, end: nat): (r: seq<string>)
    ensures |r| == |lines|
  {
    seq(|lines|, i requires 0 <= i < |lines| =>
      if i < end && IsMirrors(lines[i]) && HasEmptyList(TrimSpace(lines[i])) then "mirrors:" else lines[i])
  }

  /** The lines just before the insertion, and where the block goes. */
  function Prepared(lines: seq<string>): seq<string> {
    var s := ScanLines(lines);
    if s.mirrors < 0 then lines + ["", "mirrors:"] else Unfolded(lines, s.end)
  }

  function InsertionPoint(lines: seq<string>): int {
    var s := ScanLines(lines);
    if s.mirrors < 0 then |lines| + 2 else if s.insert < 0 then s.mirrors + 1 else s.insert
  }

  lemma {:induction false} ScanBounds(lines: seq<string>, i: nat, mirrors: int, insert: int)
    requires i <= |lines| && -1 <= mirrors < i && -1 <= insert <= i && insert != 0
    requires mirrors >= 0 && insert < 0 ==> mirrors == i - 1
    ensures var s := ScanFrom(lines, i, mirrors, insert);
            && i <= s.end <= |lines| && mirrors <= s.mirrors < |lines| && -1 <= s.insert <= |lines| && s.insert != 0
            && (s.end < |lines| ==> s.insert >= 0)
            && (s.mirrors >= 0 && s.insert < 0 ==> s.mirrors == |lines| - 1)
    decreases |lines| - i
  {
    if i < |lines| {
      if IsMirrors(lines[i]) {
        ScanBounds(lines, i + 1, i, insert);
      } else if mirrors < 0 {
        ScanBounds(lines, i + 1, mirrors, insert);
      } else if IsBlank(lines[i]) || IsComment(lines[i]) {
        ScanBounds(lines, i + 1, mirrors, if insert < 0 then i else insert);
      } else if IsIndented(lines[i]) {
        ScanBounds(lines, i + 1, mirrors, i + 1);
      }
    }
  }

  function Splice(lines: seq<string>, at: nat, block: seq<string>): (r: seq<string>)
    requires at <= |lines|
    ensures |r| == |lines| + |block|
    ensures forall i :: 0 <= i < at ==> r[i] == lines[i]
    ensures forall i :: 0 <= i < |block| ==> r[at + i] == block[i]
    ensures forall i :: at <= i < |lines| ==> r[i + |block|] == lines[i]
  {
    lines[..at] + block + lines[at..]
  }

  predicate Declares(lines: seq<string>, name: string) {
    exists i :: 0 <= i < |lines| && IsNameLine(lines[i], name)
  }

  function AddMirror(lines: seq<string>, p: Project, q: Printable): Result<seq<string>> {
    if !ValidProject(p) then InvalidToken
    else if Declares(lines, p.name) then AlreadyExists
    else
      ScanBounds(lines, 0, -1, -1);
      var before, at := Prepared(lines), InsertionPoint(lines);
      Ok(Splice(before, at, BlockLines(p, q)))
  }

  // ----- removing a mirror

  /** The first line with the name, or the number of lines. */
  function FindName(lines: seq<string>, name: string): (i: nat)
    ensures i <= |lines|
    ensures i < |lines| ==> IsNameLine(lines[i], name)
    ensures forall j :: 0 <= j < i ==> !IsNameLine(lines[j], name)
  {
    if lines == [] || IsNameLine(lines[0], name) then 0 else 1 + FindName(lines[1..], name)
  }

  /** The first line from i on that ends the entry, or the number of lines. */
  function EntryEnd(lines: seq<string>, i: nat): (e: nat)
    requires i <= |lines|
    ensures i <= e <= |lines|
    ensures e < |lines| ==> EndsEntry(lines[e])
    ensures forall j :: i <= j < e ==> !EndsEntry(lines[j])
    decreases |lines| - i
  {
    if i == |lines| || EndsEntry(lines[i]) then i else EntryEnd(lines, i + 1)
  }

  /** Trailing blank lines do not belong to the entry. */
  function DropBlanks(lines: seq<string>, start: nat, e: nat): (e': nat)
    requires start <= e <= |lines|
    ensures start <= e' <= e
    ensures e' > start ==> !IsBlank(lines[e' - 1])
    ensures forall j :: e' <= j < e ==> IsBlank(lines[j])
  {
    if e > start && IsBlank(lines[e - 1]) then DropBlanks(lines, start, e - 1) else e
  }

  function RemoveMirror(lines: seq<string>, name: string): Result<seq<string>> {
    if !ValidToken(name) then InvalidToken
    else
      var start := FindName(lines, name);
      if start == |lines| then NotFound
      else Ok(lines[..start] + lines[DropBlanks(lines, start, EntryEnd(lines, start + 1))..])
  }

  // ----- on whole files

  function OnText(r: Result<seq<string>>): Result<string>
    requires r.Ok? ==> r.value != []
  {
    match r
    case Ok(lines) => Ok(Join(lines))
    case InvalidToken => InvalidToken
    case AlreadyExists => AlreadyExists
    case NotFound => NotFound
  }

  function AddMirrorText(content: string, p: Project, q: Printable): Result<string> {
    OnText(AddMirror(Split(StripBOM(content)), p, q))
  }

  /** Removing every line leaves an empty file. */
  function RemoveMirrorText(content: string, name: string): Result<string> {
    var r := RemoveMirror(Split(StripBOM(content)), name);
    if r == Ok([]) then Ok("") else OnText(r)
  }

  // ----- the program's loops

  method FindNameLine(lines: seq<string>, name: string) returns (idx: int)
    ensures idx == if FindName(lines, name) < |lines| then FindName(lines, name) else -1
  {
    hide IsNameLine;
    for i := 0 to |lines|
      invariant forall j :: 0 <= j < i ==> !IsNameLine(lines[j], name)
    {
      if IsNameLine(lines[i], name) {
        return i;
      }
    }
    return -1;
  }

  /** The scan of addMirrorLocked, which rewrites inline empty lists in place. */
  method FindInsertion(lines: seq<string>) returns (mirrorsIdx: int, insertIdx: int, work: seq<string>)
    ensures var s := ScanLines(lines);
            mirrorsIdx == s.mirrors && insertIdx == s.insert && work == Unfolded(lines, s.end)
  {
    hide TrimSpace, HasEmptyList;
    mirrorsIdx, insertIdx, work := -1, -1, lines;
    for i := 0 to |lines|
      invariant ScanFrom(lines, i, mirrorsIdx, insertIdx) == ScanLines(lines)
      invariant work == Unfolded(lines, i)
    {
      var trimmed := TrimSpace(lines[i]);
      if "mirrors:" <= trimmed {
        mirrorsIdx := i;
        if HasEmptyList(trimmed) {
          work := work[i := "mirrors:"];
        }
        continue;
      }
      assert work == Unfolded(lines, i + 1);
      if mirrorsIdx >= 0 {
        if trimmed == "" || "#" <= trimmed {
          if insertIdx < 0 {
            insertIdx := i;
          }
          continue;
        }
        if !IsIndented(lines[i]) {
          if insertIdx < 0 {
            insertIdx := i;
          }
          assert ScanLines(lines).end == i;
          return;
        }
        insertIdx := i + 1;
      }
    }
  }

  method AddMirrorLines(lines: seq<string>, p: Project, q: Printable) returns (r: Result<seq<string>>)
    ensures r == AddMirror(lines, p, q)
  {
    hide IsNameLine, ScanLines, BlockLines, ValidProject, Unfolded;
    if !ValidProject(p) {
      return InvalidToken;
    }
    var duplicate := FindNameLine(lines, p.name);
    if duplicate >= 0 {
      return AlreadyExists;
    }
    var block := BlockLines(p, q);
    var mirrorsIdx, insertIdx, work := FindInsertion(lines);
    if mirrorsIdx < 0 {
      work := lines + ["", "mirrors:"];
      insertIdx := |work|;
    } else if insertIdx < 0 {
      insertIdx := mirrorsIdx + 1;
    }
    PointInRange(lines);
    return Ok(work[..insertIdx] + block + work[insertIdx..]);
  }

  lemma PointInRange(lines: seq<string>)
    ensures 0 <= InsertionPoint(lines) <= |Prepared(lines)|
  {
    ScanBounds(lines, 0, -1, -1);
  }

  method FindEntryEnd(lines: seq<string>, from: nat) returns (endIdx: nat)
    requires from <= |lines|
    ensures endIdx == EntryEnd(lines, from)
  {
    hide TrimSpace;
    for i := from to |lines|
      invariant EntryEnd(lines, from) == EntryEnd(lines, i)
    {
      var trimmed := TrimSpace(lines[i]);
      if trimmed == "" {
        continue;
      }
      if "- name:" <= trimmed || "- name :" <= trimmed {
        return i;
      }
      if !IsIndented(lines[i]) && !("#" <= trimmed) {
        return i;
      }
    }
    return |lines|;
  }

  method RemoveMirrorLines(lines: seq<string>, name: string) returns (r: Result<seq<string>>)
    ensures r == RemoveMirror(lines, name)
  {
    hide IsNameLine, EndsEntry, ValidToken, TrimSpace;
    if !ValidToken(name) {
      return InvalidToken;
    }
    var startIdx := FindNameLine(lines, name);
    if startIdx < 0 {
      return NotFound;
    }
    var endIdx := FindEntryEnd(lines, startIdx + 1);
    while endIdx > startIdx && TrimSpace(lines[endIdx - 1]) == ""
      invariant startIdx <= endIdx <= |lines|
      invariant DropBlanks(lines, startIdx, endIdx) == DropBlanks(lines, startIdx, EntryEnd(lines, startIdx + 1))
    {
      endIdx := endIdx - 1;
    }
    return Ok(lines[..startIdx] + lines[endIdx..]);
  }

  // ----- setting a top-level field

  predicate IsField(line: string, key: string) {
    !IsIndented(line) && !("#" <= TrimRightCR(line)) && key + ":" <= TrimRightCR(line)
  }

  function FindField(lines: seq<string>, key: string): (i: nat)
    ensures i <= |lines|
    ensures i < |lines| ==> IsField(lines[i], key)
    ensures forall j :: 0 <= j < i ==> !IsField(lines[j], key)
  {
    if lines == [] || IsField(lines[0], key) then 0 else 1 + FindField(lines[1..], key)
  }

  function SetField(lines: seq<string>, key: string, value: string): Result<seq<string>> {
    if !ValidToken(key) || !ValidToken(value) then InvalidToken
    else
      var i := FindField(lines, key);
      Ok(if i < |lines| then lines[i := key + ": " + value] else lines + [key + ": " + value])
  }

  method SetFieldLines(lines: seq<string>, key: string, value: string) returns (r: Result<seq<string>>)
    ensures r == SetField(lines, key, value)
  {
    hide IsField;
    if !ValidToken(key) || !ValidToken(value) {
      return InvalidToken;
    }
    for i := 0 to |lines|
      invariant forall j :: 0 <= j < i ==> !IsField(lines[j], key)
    {
      if IsField(lines[i], key) {
        assert FindField(lines, key) == i;
        return Ok(lines[i := key + ": " + value]);
      }
    }
    assert FindField(lines, key) == |lines|;
    return Ok(lines + [key + ": " + value]);
  }

  // ----- unique names

  function Candidate(baseName: string, i: nat): string {
    if i < 2 then baseName else baseName + "-" + D.FormatNat(i)
  }

  predicate IsTaken(lower: string -> string, name: string, existing: seq<string>) {
    exists i :: 0 <= i < |existing| && lower(existing[i]) == lower(name)
  }

  lemma NamesAreTaken(lower: string -> string, name: string, existing: seq<string>)
    ensures lower(name) in (set i | 0 <= i < |existing| :: lower(existing[i])) <==> IsTaken(lower, name, existing)
  {
  }

  /** The first candidate that is not taken, if one of the first 999 is free; otherwise the taken base name.
      lower is the case folding. */
  method UniqueMirrorName(baseName: string, existing: seq<string>, lower: string -> string) returns (name: string)
    ensures IsTaken(lower, name, existing)
            <==> forall i: nat :: 1 <= i < 1000 ==> IsTaken(lower, Candidate(baseName, i), existing)
    ensures IsTaken(lower, name, existing) ==> name == baseName
    ensures !IsTaken(lower, name, existing) ==>
              exists k: nat :: 1 <= k < 1000 && name == Candidate(baseName, k)
                               && forall i: nat :: 1 <= i < k ==> IsTaken(lower, Candidate(baseName, i), existing)
  {
    hide IsTaken;
    var names := set i | 0 <= i < |existing| :: lower(existing[i]);
    NamesAreTaken(lower, baseName, existing);
    if lower(baseName) !in names {
      assert Candidate(baseName, 1) == baseName;
      return baseName;
    }
    for i := 2 to 1000
      invariant forall j: nat :: 1 <= j < i ==> IsTaken(lower, Candidate(baseName, j), existing)
    {
      var candidate := baseName + "-" + D.FormatNat(i);
      assert candidate == Candidate(baseName, i);
      NamesAreTaken(lower, candidate, existing);
      if lower(candidate) !in names {
        return candidate;
      }
    }
    return baseName;
  }
}
