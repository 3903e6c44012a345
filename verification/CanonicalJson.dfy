/** The canonical JSON text that telemetry payloads are signed over (internal/telemetry/canonical.go:46-153). */
module CanonicalJson {
  import opened Hexadecimal
  import opened KeyOrder
  import opened Wrappers
  import D = Decimal

  /** Integers of every Go type are one kind of value. Unsupported stands for any type the printer rejects. */
  datatype Value =
    | Null
    | Bool(b: bool)
    | Number(n: int)
    | Text(s: string)
    | List(items: seq<Value>)
    | Object(members: map<string, Value>)
    | Unsupported

  ghost predicate Supported(v: Value) {
    match v
    case Unsupported => false
    case List(items) => forall i :: 0 <= i < |items| ==> Supported(items[i])
    case Object(m) => forall k :: k in m ==> Supported(m[k])
    case _ => true
  }

  /** The way from a value to one of its parts. */
  datatype Way = Item(i: nat) | Member(k: string)

  function PartAt(v: Value, path: seq<Way>): Option<Value>
    decreases |path|
  {
    if path == [] then Some(v)
    else
      match path[0]
      case Item(i) => if v.List? && i < |v.items| then PartAt(v.items[i], path[1..]) else None
      case Member(k) => if v.Object? && k in v.members then PartAt(v.members[k], path[1..]) else None
  }

  lemma {:induction false} SupportedPart(v: Value, path: seq<Way>)
    requires Supported(v)
    ensures PartAt(v, path) != Some(Unsupported)
    decreases |path|
  {
    if path != [] {
      match path[0]
      case Item(i) => if v.List? && i < |v.items| { SupportedPart(v.items[i], path[1..]); }
      case Member(k) => if v.Object? && k in v.members { SupportedPart(v.members[k], path[1..]); }
    }
  }

  lemma {:induction false} UnsupportedPart(v: Value) returns (path: seq<Way>)
    requires !Supported(v)
    ensures PartAt(v, path) == Some(Unsupported)
    decreases v
  {
    path := [];
    match v
    case List(items) =>
      var i :| 0 <= i < |items| && !Supported(items[i]);
      var rest := UnsupportedPart(items[i]);
      path := [Item(i)] + rest;
      assert path[1..] == rest;
    case Object(m) =>
      var k :| k in m && !Supported(m[k]);
      var rest := UnsupportedPart(m[k]);
      path := [Member(k)] + rest;
      assert path[1..] == rest;
    case _ =>
  }

  /** A value is supported exactly if it has no unsupported part, however deep. */
  lemma SupportedIff(v: Value)
    ensures Supported(v) <==> forall path :: PartAt(v, path) != Some(Unsupported)
  {
    if Supported(v) {
      forall path ensures PartAt(v, path) != Some(Unsupported) { SupportedPart(v, path); }
    } else {
      var path := UnsupportedPart(v);
    }
    hide Supported, PartAt;
  }

  // ----- strings (RFC 8259, section 7; without HTML escaping)

  function EscapeChar(c: char): (s: string)
    ensures |s| >= 1
  {
    if c == '"' then "\\\"" else if c == '\\' then "\\\\"
    else if c == '\U{08}' then "\\b" else if c == '\U{0C}' then "\\f"
    else if c == '\n' then "\\n" else if c == '\r' then "\\r" else if c == '\t' then "\\t"
    else if c < ' ' then "\\u00" + [HexDigit(c as int / 16), HexDigit(c as int % 16)]
    else if c == '\U{2028}' then "\\u2028" else if c == '\U{2029}' then "\\u2029"
    else [c]
  }

  function EscapeText(s: string): string {
    if s == "" then "" else EscapeChar(s[0]) + EscapeText(s[1..])
  }

  function Quoted(s: string): string {
    "\"" + EscapeText(s) + "\""
  }

  // ----- the text of a value

  ghost function Print(v: Value): string
    decreases v, 2, 0
  {
    match v
    case List(items) => "[" + PrintItems(items) + "]"
    case Object(m) => "{" + PrintMembers(v, SortedKeys(m.Keys)) + "}"
    case Unsupported => ""
    case _ => PrintScalar(v)
  }

  ghost function PrintItems(items: seq<Value>): string
    decreases items, 1, 0
  {
    if items == [] then ""
    else if |items| == 1 then Print(items[0])
    else Print(items[0]) + ", " + PrintItems(items[1..])
  }

  ghost function PrintMember(v: Value, k: string): string
    requires v.Object? && k in v.members
    decreases v, 0, 0
  {
    Quoted(k) + ": " + Print(v.members[k])
  }

  ghost function PrintMembers(v: Value, keys: seq<string>): string
    requires v.Object? && forall k :: k in keys ==> k in v.members
    decreases v, 1, |keys|
  {
    if keys == [] then ""
    else if |keys| == 1 then PrintMember(v, keys[0])
    else PrintMember(v, keys[0]) + ", " + PrintMembers(v, keys[1..])
  }

  /** What encoding/json makes of a value that has no parts. */
  function PrintScalar(v: Value): string
    requires !v.List? && !v.Object? && !v.Unsupported?
  {
    match v
    case Null => "null"
    case Bool(b) => if b then "true" else "false"
    case Number(n) => D.Format(n)
    case Text(s) => Quoted(s)
  }

  function Separator(more: bool): string {
    if more then ", " else ""
  }

  // ----- the program

  class Builder {
    var text: string

    constructor ()
      ensures text == ""
    {
      text := "";
    }

    method Write(s: string)
      modifies this
      ensures text == old(text) + s
    {
      text := text + s;
    }
  }

  /** Sorts the keys by insertion; what counts is that the result is the one sorted list of the set. */
  method SortKeys(keys: seq<string>) returns (sorted: seq<string>)
    requires forall i, j :: 0 <= i < j < |keys| ==> keys[i] != keys[j]
    ensures StrictlySorted(sorted) && forall k :: k in sorted <==> k in keys
  {
    hide KeyLess;
    sorted := [];
    for i := 0 to |keys|
      invariant StrictlySorted(sorted)
      invariant forall k :: k in sorted <==> k in keys[..i]
    {
      var key := keys[i];
      assert key !in keys[..i];
      var j := 0;
      while j < |sorted| && KeyLess(sorted[j], key)
        invariant j <= |sorted|
        invariant forall l :: 0 <= l < j ==> KeyLess(sorted[l], key)
      {
        j := j + 1;
      }
      InsertedIsSorted(sorted, j, key);
      assert sorted == sorted[..j] + sorted[j..];
      sorted := sorted[..j] + [key] + sorted[j..];
      assert keys[..i + 1] == keys[..i] + [key];
    }
    assert keys[..|keys|] == keys;
  }

  lemma InsertedIsSorted(sorted: seq<string>, j: nat, key: string)
    requires StrictlySorted(sorted) && key !in sorted && j <= |sorted|
    requires forall l :: 0 <= l < j ==> KeyLess(sorted[l], key)
    requires j < |sorted| ==> !KeyLess(sorted[j], key)
    ensures StrictlySorted(sorted[..j] + [key] + sorted[j..])
  {
    hide KeyLess;
    var r := sorted[..j] + [key] + sorted[j..];
    forall l | j <= l < |sorted| ensures KeyLess(key, sorted[l]) {
      KeyLessIsStrictOrder(key, sorted[j], sorted[l]);
      assert sorted[j] in sorted;
    }
    forall a, b | 0 <= a < b < |r| ensures KeyLess(r[a], r[b]) {
      assert r[a] == if a < j then sorted[a] else if a == j then key else sorted[a - 1];
      assert r[b] == if b < j then sorted[b] else if b == j then key else sorted[b - 1];
    }
  }

  /** Collects the keys of the map in whatever order they come, and sorts them. */
  method KeysInOrder(m: map<string, Value>) returns (keys: seq<string>)
    ensures keys == SortedKeys(m.Keys)
  {
    hide StrictlySorted;
    var left, found := m.Keys, [];
    while left != {}
      invariant left <= m.Keys
      invariant forall k :: k in found <==> k in m.Keys && k !in left
      invariant forall i, j :: 0 <= i < j < |found| ==> found[i] != found[j]
      decreases left
    {
      var k :| k in left;
      left := left - {k};
      found := found + [k];
    }
    keys := SortKeys(found);
    assert HasKeys(keys, m.Keys);
    SortedKeysUnique(keys, SortedKeys(m.Keys), m.Keys);
  }

  /** Appends the text of a value; fails exactly on values with an unsupported part. */
  method WriteCanonical(b: Builder, v: Value) returns (ok: bool)
    modifies b
    ensures ok <==> Supported(v)
    ensures ok ==> b.text == old(b.text) + Print(v)
    decreases v, 1
  {
    hide Quoted, PrintItems, PrintMembers, D.Format;
    ghost var t := b.text;
    match v
    case Unsupported =>
      return false;
    case List(items) =>
      b.Write("[");
      ok := WriteItems(b, items);
      if !ok {
        return false;
      }
      b.Write("]");
      Regroup(t, "[", PrintItems(items), "]");
      return true;
    case Object(_) =>
      b.Write("{");
      ok := WriteMembers(b, v);
      if !ok {
        return false;
      }
      b.Write("}");
      Regroup(t, "{", PrintMembers(v, SortedKeys(v.members.Keys)), "}");
      return true;
    case _ =>
      b.Write(PrintScalar(v));
      return true;
  }

  lemma Regroup(a: string, b: string, c: string, d: string)
    ensures a + b + c + d == a + (b + c + d)
  {
  }

  method WriteItems(b: Builder, items: seq<Value>) returns (ok: bool)
    modifies b
    ensures ok <==> forall j :: 0 <= j < |items| ==> Supported(items[j])
    ensures ok ==> b.text == old(b.text) + PrintItems(items)
    decreases items, 0
  {
    hide Print, PrintItems, Supported, Separator;
    ghost var whole := b.text + PrintItems(items);
    assert items[0..] == items;
    EmptySeparator(PrintItems(items));
    for i := 0 to |items|
      invariant forall j :: 0 <= j < i ==> Supported(items[j])
      invariant b.text + (Separator(0 < i < |items|) + PrintItems(items[i..])) == whole
    {
      ItemsFrom(items, i, b.text);
      WriteSeparator(b, i > 0);
      ok := WriteCanonical(b, items[i]);
      if !ok {
        return false;
      }
    }
    NoMoreItems(items, b.text);
    return true;
  }

  lemma ItemsFrom(items: seq<Value>, i: nat, t: string)
    requires i < |items|
    ensures t + (Separator(0 < i < |items|) + PrintItems(items[i..]))
            == (t + Separator(i > 0) + Print(items[i])) + (Separator(0 < i + 1 < |items|) + PrintItems(items[i + 1..]))
  {
    hide Print;
    var from, more := items[i..], Separator(i + 1 < |items|);
    assert from[0] == items[i] && from[1..] == items[i + 1..];
    assert PrintItems(from) == Print(items[i]) + (more + PrintItems(from[1..]));
    hide PrintItems;
  }

  lemma NoMoreItems(items: seq<Value>, t: string)
    ensures t + (Separator(false) + PrintItems(items[|items|..])) == t
  {
    assert items[|items|..] == [];
  }

  method WriteMembers(b: Builder, v: Value) returns (ok: bool)
    requires v.Object?
    modifies b
    ensures ok <==> forall k :: k in v.members ==> Supported(v.members[k])
    ensures ok ==> b.text == old(b.text) + PrintMembers(v, SortedKeys(v.members.Keys))
    decreases v, 0, 1
  {
    hide Print, Quoted, PrintMembers, PrintMember, Supported, Separator, SortedKeys;
    var keys := KeysInOrder(v.members);
    ghost var whole := b.text + PrintMembers(v, keys);
    assert keys[0..] == keys;
    EmptySeparator(PrintMembers(v, keys));
    var i := 0;
    while i < |keys|
      invariant i <= |keys|
      invariant forall j :: 0 <= j < i ==> Supported(v.members[keys[j]])
      invariant b.text + (Separator(0 < i < |keys|) + PrintMembers(v, keys[i..])) == whole
    {
      assert keys[i] in keys;
      MembersFrom(v, keys, i, b.text);
      WriteSeparator(b, i > 0);
      ok := WriteMember(b, v, keys[i]);
      if !ok {
        return false;
      }
      i := i + 1;
    }
    NoMoreMembers(v, keys, b.text);
    assert forall k :: k in v.members ==> k in keys;
    return true;
  }

  lemma MembersFrom(v: Value, keys: seq<string>, i: nat, t: string)
    requires v.Object? && i < |keys| && forall k :: k in keys ==> k in v.members
    ensures t + (Separator(0 < i < |keys|) + PrintMembers(v, keys[i..]))
            == (t + Separator(i > 0) + PrintMember(v, keys[i]))
               + (Separator(0 < i + 1 < |keys|) + PrintMembers(v, keys[i + 1..]))
  {
    hide PrintMember;
    assert keys[i..][0] == keys[i] && keys[i..][1..] == keys[i + 1..];
  }

  lemma EmptySeparator(s: string)
    ensures Separator(false) + s == s
  {
  }

  lemma NoMoreMembers(v: Value, keys: seq<string>, t: string)
    requires v.Object?
    ensures t + (Separator(false) + PrintMembers(v, keys[|keys|..])) == t
  {
    assert keys[|keys|..] == [];
  }

  method WriteSeparator(b: Builder, needed: bool)
    modifies b
    ensures b.text == old(b.text) + Separator(needed)
  {
    if needed {
      b.Write(", ");
    }
    assert old(b.text) + "" == old(b.text);
  }

  method WriteMember(b: Builder, v: Value, k: string) returns (ok: bool)
    requires v.Object? && k in v.members
    modifies b
    ensures ok <==> Supported(v.members[k])
    ensures ok ==> b.text == old(b.text) + PrintMember(v, k)
    decreases v, 0, 0
  {
    hide Quoted, Print, Supported;
    ghost var t := b.text;
    b.Write(Quoted(k));
    b.Write(": ");
    ok := WriteCanonical(b, v.members[k]);
    if ok {
      assert t + Quoted(k) + ": " + Print(v.members[k]) == t + (Quoted(k) + ": " + Print(v.members[k]));
    }
  }

  datatype Result = Signed(text: string) | Failed

  method CanonicalText(v: Value) returns (r: Result)
    ensures r == if Supported(v) then Signed(Print(v)) else Failed
  {
    var b := new Builder();
    var ok := WriteCanonical(b, v);
    if !ok {
      return Failed;
    }
    return Signed(b.text);
  }
}
