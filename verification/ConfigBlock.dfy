/** The block that AddMirror writes says what the project says (internal/config/edit.go:389-444): a reader
    of the lines, with the loader's defaults for what is left out, gets every field back. */
module ConfigBlock {
  import opened ConfigEdit
  import opened Hexadecimal
  import opened Wrappers
  import D = Decimal

  // ----- double-quoted scalars, as YAML reads them

  function CharOf(code: Option<nat>): Option<char> {
    if code.Some? && (code.value < 0xD800 || 0xE000 <= code.value < 0x110000) then Some(code.value as char) else None
  }

  /** How many characters the escape sequence at the start takes, and what it stands for. */
  function ReadEscape(s: string): (int, Option<char>)
    requires |s| >= 2 && s[0] == '\\'
  {
    if s[1] == '"' || s[1] == '\\' then (2, Some(s[1]))
    else if s[1] == 'a' then (2, Some('\U{07}')) else if s[1] == 'b' then (2, Some('\U{08}'))
    else if s[1] == 'f' then (2, Some('\U{0C}')) else if s[1] == 'n' then (2, Some('\n'))
    else if s[1] == 'r' then (2, Some('\r')) else if s[1] == 't' then (2, Some('\t'))
    else if s[1] == 'v' then (2, Some('\U{0B}'))
    else if s[1] == 'x' && |s| >= 4 then (4, CharOf(HexValue(s[2..4])))
    else if s[1] == 'u' && |s| >= 6 then (6, CharOf(HexValue(s[2..6])))
    else if s[1] == 'U' && |s| >= 10 then (10, CharOf(HexValue(s[2..10])))
    else (2, None)
  }

  function Unescape(s: string): Option<string>
    decreases |s|
  {
    if s == "" then Some("")
    else if s[0] == '"' || s == "\\" then None
    else
      var (n, c) := if s[0] == '\\' then ReadEscape(s) else (1, Some(s[0]));
      var rest := Unescape(s[n..]);
      if c.None? || rest.None? then None else Some([c.value] + rest.value)
  }

  function Unquote(s: string): Option<string> {
    if |s| >= 2 && s[0] == '"' && s[|s| - 1] == '"' then Unescape(s[1..|s| - 1]) else None
  }

  lemma HexWidths(n: nat)
    ensures Pow16(2) == 0x100 && Pow16(4) == 0x10000 && Pow16(8) == 0x1_0000_0000
  {
    assert Pow16(2) == 256;
    assert Pow16(4) == 256 * Pow16(2);
    assert Pow16(6) == 256 * Pow16(4);
    assert Pow16(8) == 256 * Pow16(6);
  }

  lemma NumberedEscape(c: char, letter: char, width: nat, rest: string)
    requires (letter == 'x' && width == 2) || (letter == 'u' && width == 4) || (letter == 'U' && width == 8)
    requires c as int < Pow16(width)
    ensures var s := ['\\', letter] + HexDigits(c as int, width) + rest;
            && |s| >= 2 && ReadEscape(s) == (2 + width, Some(c)) && s[2 + width..] == rest
  {
    HexDigitsValue(c as int, width);
    hide HexDigits, HexValue, Pow16;
    var s := ['\\', letter] + HexDigits(c as int, width) + rest;
    assert s[2..2 + width] == HexDigits(c as int, width);
  }

  lemma EscapedChar(c: char, q: Printable, rest: string)
    ensures var s := EscapeChar(c, q) + rest;
            if EscapeChar(c, q) == [c] then c != '"' && c != '\\'
            else |s| >= 2 && s[0] == '\\'
                 && ReadEscape(s) == (|EscapeChar(c, q)|, Some(c)) && s[|EscapeChar(c, q)|..] == rest
  {
    hide HexDigits, HexValue;
    HexWidths(0);
    var e := EscapeChar(c, q);
    assert (e + rest)[|e|..] == rest;
    if |e| == 4 {
      NumberedEscape(c, 'x', 2, rest);
      assert e == ['\\', 'x'] + HexDigits(c as int, 2);
    } else if |e| == 6 {
      NumberedEscape(c, 'u', 4, rest);
      assert e == ['\\', 'u'] + HexDigits(c as int, 4);
    } else if |e| == 10 {
      NumberedEscape(c, 'U', 8, rest);
      assert e == ['\\', 'U'] + HexDigits(c as int, 8);
    }
  }

  lemma {:induction false} EscapedReadsBack(s: string, q: Printable)
    ensures Unescape(Escaped(s, q)) == Some(s)
  {
    if s != "" {
      EscapedReadsBack(s[1..], q);
      var e, rest := EscapeChar(s[0], q), Escaped(s[1..], q);
      EscapedChar(s[0], q, rest);
      hide EscapeChar, ReadEscape, Escaped;
      assert s == [s[0]] + s[1..];
      assert (e + rest)[|e|..] == rest;
      assert Escaped(s, q) == e + rest;
    }
  }

  /** Whatever the token and whichever characters count as printable, its quoted form reads back as the
      token: blanks, '#', quote marks and backslashes included. */
  lemma QuotedReadsBack(s: string, q: Printable)
    ensures Unquote(Quote(s, q)) == Some(s)
  {
    EscapedReadsBack(s, q);
    assert Quote(s, q)[1..|Quote(s, q)| - 1] == Escaped(s, q);
  }

  // ----- fields

  function FieldPrefix(key: string): string {
    "    " + key + ": "
  }

  /** The text of the first line for the key. */
  function ReadField(lines: seq<string>, key: string): Option<string> {
    if lines == [] then None
    else if FieldPrefix(key) <= lines[0] then Some(lines[0][|FieldPrefix(key)|..])
    else ReadField(lines[1..], key)
  }

  predicate GoodKey(key: string) {
    ':' !in key
  }

  lemma OneFieldPerLine(key: string, value: string, other: string)
    requires GoodKey(key) && GoodKey(other)
    ensures FieldPrefix(other) <= Field(key, value) <==> other == key
    ensures Field(key, value)[|FieldPrefix(key)|..] == value
  {
    var line := Field(key, value);
    assert line == FieldPrefix(key) + value;
    if FieldPrefix(other) <= line {
      ColonAt(line, key, value);
      var n := |other|;
      assert line[4 + n] == FieldPrefix(other)[4 + n] == ':';
      assert forall i :: 0 <= i < n ==> line[4 + i] == FieldPrefix(other)[4 + i] == other[i] && other[i] in other;
      assert n == |key|;
      assert forall i :: 0 <= i < n ==> line[4 + i] == key[i];
    }
  }

  lemma ColonAt(line: string, key: string, value: string)
    requires GoodKey(key) && line == Field(key, value)
    ensures line[4 + |key|] == ':' && forall i :: 0 <= i < |key| ==> line[4 + i] == key[i] && line[4 + i] != ':'
  {
    assert line == "    " + (key + (": " + value));
    assert forall i :: 0 <= i < |key| ==> line[4 + i] == key[i] && key[i] in key;
  }

  ghost predicate DistinctKeys(specs: seq<FieldSpec>) {
    && (forall spec :: spec in specs ==> GoodKey(spec.key))
    && (forall i, j :: 0 <= i < j < |specs| ==> specs[i].key != specs[j].key)
  }

  /** Every field is read back with its own value, and an omitted one is missed. */
  lemma {:induction false} RenderedFieldReads(specs: seq<FieldSpec>, i: nat)
    requires DistinctKeys(specs) && i < |specs|
    ensures ReadField(Render(specs), specs[i].key) == if specs[i].present then Some(specs[i].value) else None
  {
    hide GoodKey, Field, FieldPrefix;
    var first, key := specs[0], specs[i].key;
    assert first in specs && specs[i] in specs;
    assert forall spec :: spec in specs[1..] ==> spec in specs;
    OneFieldPerLine(first.key, first.value, key);
    if first.present {
      assert Render(specs) == [Field(first.key, first.value)] + Render(specs[1..]);
      assert Render(specs)[1..] == Render(specs[1..]);
    } else {
      assert Render(specs) == Render(specs[1..]);
    }
    if i > 0 {
      RenderedFieldReads(specs[1..], i - 1);
    } else if !first.present {
      MissingField(specs[1..], key);
    }
  }

  lemma {:induction false} MissingField(specs: seq<FieldSpec>, key: string)
    requires GoodKey(key) && forall spec :: spec in specs ==> GoodKey(spec.key) && spec.key != key
    ensures ReadField(Render(specs), key) == None
  {
    hide GoodKey, Field, FieldPrefix;
    if specs != [] {
      var first := specs[0];
      assert first in specs && forall spec :: spec in specs[1..] ==> spec in specs;
      OneFieldPerLine(first.key, first.value, key);
      MissingField(specs[1..], key);
      if first.present {
        assert Render(specs) == [Field(first.key, first.value)] + Render(specs[1..]);
        assert Render(specs)[1..] == Render(specs[1..]);
      } else {
        assert Render(specs) == Render(specs[1..]);
      }
    }
  }

  function Token(field: Option<string>): Option<string> {
    if field.None? then Some("") else Unquote(field.value)
  }

  function Raw(field: Option<string>): string {
    if field.None? then "" else field.value
  }

  function Int(field: Option<string>): Option<int> {
    if field.None? then Some(0) else D.Atoi(field.value)
  }

  /** What the loader makes of a number that is missing or not positive. */
  function OrDefault(n: int, default: int): int {
    if n > 0 then n else default
  }

  /** A project as the rest of the program sees it. */
  function Effective(p: Project): Project {
    p.(debounceSec := OrDefault(p.debounceSec, 0), maxFileSizeMB := OrDefault(p.maxFileSizeMB, 100),
       quarantineDays := OrDefault(p.quarantineDays, 0))
  }

  const NAME_PREFIX: string := "  - name: "

  function ReadProject(lines: seq<string>): Option<Project> {
    if lines == [] || !(NAME_PREFIX <= lines[0]) then None
    else
      var name := Unquote(lines[0][|NAME_PREFIX|..]);
      var localPath, remote := Token(ReadField(lines[1..], "local_path")), Token(ReadField(lines[1..], "remote"));
      var debounce, size := Int(ReadField(lines[1..], "debounce_sec")), Int(ReadField(lines[1..], "max_file_size_mb"));
      var ignore, policy := Token(ReadField(lines[1..], "syncignore_path")), Raw(ReadField(lines[1..], "delete_policy"));
      var days := Int(ReadField(lines[1..], "quarantine_days"));
      var pre, post := Token(ReadField(lines[1..], "pre_sync_hook")), Token(ReadField(lines[1..], "post_sync_hook"));
      if name.None? || localPath.None? || remote.None? || debounce.None? || size.None? || ignore.None? || days.None?
         || pre.None? || post.None? then None
      else
        Some(Project(name.value, localPath.value, remote.value, debounce.value, size.value, ignore.value, policy,
                       days.value, pre.value, post.value))
  }

  /** The keys differ in length or in their first letter. */
  lemma KeysAreDistinct(p: Project, q: Printable)
    ensures DistinctKeys(FieldSpecs(p, q))
  {
    hide Quote, D.Format;
    var specs := FieldSpecs(p, q);
    forall i | 0 <= i < 9 ensures GoodKey(specs[i].key) {
      NoColon(specs[i].key);
    }
    forall i, j | 0 <= i < j < 9 ensures |specs[i].key| != |specs[j].key| || specs[i].key[0] != specs[j].key[0] {}
  }

  lemma NoColon(key: string)
    requires key in ["local_path", "remote", "debounce_sec", "max_file_size_mb", "syncignore_path", "delete_policy",
                     "quarantine_days", "pre_sync_hook", "post_sync_hook"]
    ensures GoodKey(key)
  {
  }

  lemma FieldReads(p: Project, q: Printable, i: nat, spec: FieldSpec)
    requires i < 9 && spec == FieldSpecs(p, q)[i]
    ensures ReadField(Render(FieldSpecs(p, q)), spec.key) == if spec.present then Some(spec.value) else None
  {
    hide Quote, D.Format, Render, ReadField;
    KeysAreDistinct(p, q);
    RenderedFieldReads(FieldSpecs(p, q), i);
  }

  lemma TokensRead(p: Project, q: Printable)
    ensures var fields := Render(FieldSpecs(p, q));
            && Token(ReadField(fields, "local_path")) == Some(p.localPath)
            && Token(ReadField(fields, "remote")) == Some(p.remote)
            && Token(ReadField(fields, "syncignore_path")) == Some(p.syncIgnorePath)
            && Token(ReadField(fields, "pre_sync_hook")) == Some(p.preSyncHook)
            && Token(ReadField(fields, "post_sync_hook")) == Some(p.postSyncHook)
            && Raw(ReadField(fields, "delete_policy")) == p.deletePolicy
  {
    hide Quote, D.Format, Unquote, Render, ReadField, DistinctKeys;
    FieldReads(p, q, 0, FieldSpec(true, "local_path", Quote(p.localPath, q)));
    FieldReads(p, q, 1, FieldSpec(true, "remote", Quote(p.remote, q)));
    FieldReads(p, q, 4, FieldSpec(p.syncIgnorePath != "", "syncignore_path", Quote(p.syncIgnorePath, q)));
    FieldReads(p, q, 5, FieldSpec(p.deletePolicy != "", "delete_policy", p.deletePolicy));
    FieldReads(p, q, 7, FieldSpec(p.preSyncHook != "", "pre_sync_hook", Quote(p.preSyncHook, q)));
    FieldReads(p, q, 8, FieldSpec(p.postSyncHook != "", "post_sync_hook", Quote(p.postSyncHook, q)));
    hide FieldSpecs;
    QuotedReadsBack(p.localPath, q);
    QuotedReadsBack(p.remote, q);
    QuotedReadsBack(p.syncIgnorePath, q);
    QuotedReadsBack(p.preSyncHook, q);
    QuotedReadsBack(p.postSyncHook, q);
  }

  lemma NumbersRead(p: Project, q: Printable)
    ensures var fields := Render(FieldSpecs(p, q));
            && Int(ReadField(fields, "debounce_sec")) == Some(if p.debounceSec > 0 then p.debounceSec else 0)
            && Int(ReadField(fields, "max_file_size_mb"))
               == Some(if p.maxFileSizeMB > 0 && p.maxFileSizeMB != 100 then p.maxFileSizeMB else 0)
            && Int(ReadField(fields, "quarantine_days")) == Some(if p.quarantineDays > 0 then p.quarantineDays else 0)
  {
    hide Quote, D.Format, D.Atoi, Render, ReadField, DistinctKeys;
    FieldReads(p, q, 2, FieldSpec(p.debounceSec > 0, "debounce_sec", D.Format(p.debounceSec)));
    FieldReads(p, q, 3, FieldSpec(p.maxFileSizeMB > 0 && p.maxFileSizeMB != 100, "max_file_size_mb", D.Format(p.maxFileSizeMB)));
    FieldReads(p, q, 6, FieldSpec(p.quarantineDays > 0, "quarantine_days", D.Format(p.quarantineDays)));
    hide FieldSpecs;
    D.AtoiFormat(p.debounceSec);
    D.AtoiFormat(p.maxFileSizeMB);
    D.AtoiFormat(p.quarantineDays);
  }

  /** The block of a project reads back as that project, whatever its tokens, up to what the loader's defaults
      make the same. */
  lemma BlockReadsBack(p: Project, q: Printable)
    ensures ReadProject(BlockLines(p, q)).Some?
    ensures Effective(ReadProject(BlockLines(p, q)).value) == Effective(p)
  {
    hide Quote, Unquote, Token, Raw, Int, Render, ReadField, FieldSpecs;
    var lines := BlockLines(p, q);
    assert lines[0][|NAME_PREFIX|..] == Quote(p.name, q) && lines[1..] == Render(FieldSpecs(p, q));
    assert NAME_PREFIX <= lines[0];
    hide BlockLines;
    TokensRead(p, q);
    NumbersRead(p, q);
    QuotedReadsBack(p.name, q);
  }
}
