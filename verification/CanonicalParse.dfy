/** A parser for canonical JSON text, and the proof that it gives back every value from its text: two
    different values never share the text that is signed. */
module CanonicalParse {
  import opened KeyOrder
  import opened CanonicalJson
  import opened Hexadecimal
  import opened Wrappers
  import D = Decimal

  datatype Parsed<T> = Fail | Got(value: T, rest: string)

  // ----- strings

  /** Four hexadecimal digits; surrogates stand for no character. */
  function ParseHex4(s: string): (r: Parsed<char>)
    ensures r.Got? ==> |s| >= 4 && r.rest == s[4..]
  {
    if |s| < 4 then Fail
    else
      var n := HexValue(s[..4]);
      if n.Some? && (n.value < 0xD800 || 0xE000 <= n.value < 0x10000) then Got(n.value as char, s[4..]) else Fail
  }

  /** One character of a string, escaped or not (RFC 8259, section 7). */
  function ParseChar(s: string): (r: Parsed<char>)
    ensures r.Got? ==> |r.rest| < |s|
  {
    if s == "" || s[0] == '"' || s[0] < ' ' then Fail
    else if s[0] != '\\' then Got(s[0], s[1..])
    else if |s| < 2 then Fail
    else if s[1] == '"' || s[1] == '\\' || s[1] == '/' then Got(s[1], s[2..])
    else if s[1] == 'b' then Got('\U{08}', s[2..])
    else if s[1] == 'f' then Got('\U{0C}', s[2..])
    else if s[1] == 'n' then Got('\n', s[2..])
    else if s[1] == 'r' then Got('\r', s[2..])
    else if s[1] == 't' then Got('\t', s[2..])
    else if s[1] == 'u' then ParseHex4(s[2..])
    else Fail
  }

  /** The characters up to the closing quote mark. */
  function ParseText(s: string): (r: Parsed<string>)
    ensures r.Got? ==> |r.rest| < |s|
    decreases |s|
  {
    if s == "" then Fail
    else if s[0] == '"' then Got("", s[1..])
    else
      var c := ParseChar(s);
      if c.Fail? then Fail
      else
        var r := ParseText(c.rest);
        if r.Fail? then Fail else Got([c.value] + r.value, r.rest)
  }

  // ----- values

  function CountDigits(s: string): (n: nat)
    ensures n <= |s| && D.AllDigits(s[..n]) && (n < |s| ==> !D.IsDigit(s[n]))
  {
    if s == "" || !D.IsDigit(s[0]) then 0 else 1 + CountDigits(s[1..])
  }

  function ParseNat(s: string): (r: Parsed<nat>)
    ensures r.Got? ==> |r.rest| < |s|
  {
    var n := CountDigits(s);
    if n == 0 then Fail else Got(D.NatValue(s[..n]), s[n..])
  }

  function ParseNumber(s: string): (r: Parsed<Value>)
    ensures r.Got? ==> |r.rest| < |s|
  {
    var negative := s != "" && s[0] == '-';
    var r := ParseNat(if negative then s[1..] else s);
    if r.Fail? then Fail
    else
      var n: int := r.value;
      Got(Number(if negative then -n else n), r.rest)
  }

  function ParseValue(s: string): (r: Parsed<Value>)
    ensures r.Got? ==> |r.rest| < |s|
    decreases |s|, 1
  {
    if "null" <= s then Got(Null, s[4..])
    else if "true" <= s then Got(Bool(true), s[4..])
    else if "false" <= s then Got(Bool(false), s[5..])
    else if "\"" <= s then
      var r := ParseText(s[1..]);
      if r.Fail? then Fail else Got(Text(r.value), r.rest)
    else if "[]" <= s then Got(List([]), s[2..])
    else if "[" <= s then
      var r := ParseItems(s[1..]);
      if r.Fail? then Fail else Got(List(r.value), r.rest)
    else if "{}" <= s then Got(Object(map[]), s[2..])
    else if "{" <= s then
      var r := ParseMembers(s[1..]);
      if r.Fail? then Fail else Got(Object(r.value), r.rest)
    else ParseNumber(s)
  }

  /** One or more items up to the closing bracket. */
  function ParseItems(s: string): (r: Parsed<seq<Value>>)
    ensures r.Got? ==> |r.rest| < |s|
    decreases |s|, 2
  {
    var v := ParseValue(s);
    if v.Fail? then Fail
    else if "]" <= v.rest then Got([v.value], v.rest[1..])
    else if ", " <= v.rest then
      var r := ParseItems(v.rest[2..]);
      if r.Fail? then Fail else Got([v.value] + r.value, r.rest)
    else Fail
  }

  /** One or more members up to the closing brace. */
  function ParseMembers(s: string): (r: Parsed<map<string, Value>>)
    ensures r.Got? ==> |r.rest| < |s|
    decreases |s|, 2
  {
    if !("\"" <= s) then Fail
    else
      var k := ParseText(s[1..]);
      if k.Fail? || !(": " <= k.rest) then Fail
      else
        var v := ParseValue(k.rest[2..]);
        if v.Fail? then Fail
        else if "}" <= v.rest then Got(map[k.value := v.value], v.rest[1..])
        else if ", " <= v.rest then
          var r := ParseMembers(v.rest[2..]);
          if r.Fail? || k.value in r.value then Fail else Got(r.value[k.value := v.value], r.rest)
        else Fail
  }

  // ----- the parser undoes the printer

  lemma Hex4Inverse(n: nat, digits: string, rest: string)
    requires |digits| == 4 && HexValue(digits) == Some(n) && n < 0xD800
    ensures ParseChar("\\u" + digits + rest) == Got(n as char, rest)
  {
    hide HexValue;
    var s := "\\u" + digits + rest;
    assert s[2..][..4] == digits && s[2..][4..] == rest;
  }

  /** The value of four digits, spelt out. */
  lemma FourDigits(s: string)
    requires |s| == 4 && forall i :: 0 <= i < 4 ==> HexDigitValue(s[i]).Some?
    ensures HexValue(s) == Some(0x1000 * HexDigitValue(s[0]).value + 0x100 * HexDigitValue(s[1]).value
                                + 0x10 * HexDigitValue(s[2]).value + HexDigitValue(s[3]).value)
  {
    hide HexDigitValue;
    assert s[..3][..2] == s[..2] && s[..2][..1] == s[..1] && s[..1][..0] == "";
    assert HexValue(s[..1]) == Some(HexDigitValue(s[0]).value);
    assert HexValue(s[..2]) == Some(0x10 * HexDigitValue(s[0]).value + HexDigitValue(s[1]).value);
  }

  /** A character that is escaped by its number. */
  lemma NumberedCharInverse(c: char, rest: string)
    requires |EscapeChar(c)| == 6
    ensures ParseChar(EscapeChar(c) + rest) == Got(c, rest)
  {
    if c < ' ' {
      var n := c as int;
      var digits := "00" + [HexDigit(n / 16), HexDigit(n % 16)];
      FourDigits(digits);
      Hex4Inverse(n, digits, rest);
      assert EscapeChar(c) == "\\u" + digits;
    } else {
      var digits := if c == '\U{2028}' then "2028" else "2029";
      FourDigits(digits);
      Hex4Inverse(c as int, digits, rest);
      assert EscapeChar(c) == "\\u" + digits;
    }
  }

  lemma CharInverse(c: char, rest: string)
    ensures ParseChar(EscapeChar(c) + rest) == Got(c, rest)
    ensures EscapeChar(c)[0] != '"'
  {
    if |EscapeChar(c)| == 6 {
      NumberedCharInverse(c, rest);
    } else {
      hide ParseHex4, HexDigit;
      var s := EscapeChar(c) + rest;
      assert s[|EscapeChar(c)|..] == rest;
    }
  }

  lemma {:induction false} TextInverse(s: string, rest: string)
    ensures ParseText(EscapeText(s) + "\"" + rest) == Got(s, rest)
  {
    if s == "" {
      assert EscapeText(s) + "\"" + rest == "\"" + rest;
    } else {
      hide EscapeChar, ParseChar;
      var tail := EscapeText(s[1..]) + "\"" + rest;
      assert EscapeText(s) + "\"" + rest == EscapeChar(s[0]) + tail;
      assert s == [s[0]] + s[1..];
      TextInverse(s[1..], rest);
      hide EscapeText;
      FirstCharRead(s[0], tail);
    }
  }

  lemma FirstCharRead(c: char, tail: string)
    ensures ParseText(EscapeChar(c) + tail)
            == if ParseText(tail).Fail? then Fail else Got([c] + ParseText(tail).value, ParseText(tail).rest)
  {
    CharInverse(c, tail);
    hide EscapeChar, ParseChar;
    var s := EscapeChar(c) + tail;
    assert s != "" && s[0] == EscapeChar(c)[0];
  }

  lemma QuotedInverse(s: string, rest: string)
    ensures "\"" <= Quoted(s) + rest && ParseText((Quoted(s) + rest)[1..]) == Got(s, rest)
  {
    TextInverse(s, rest);
    hide EscapeText, ParseText;
    assert (Quoted(s) + rest)[1..] == EscapeText(s) + "\"" + rest;
  }

  predicate NoDigitFirst(rest: string) {
    rest == "" || !D.IsDigit(rest[0])
  }

  lemma {:induction false} DigitsCounted(digits: string, rest: string)
    requires D.AllDigits(digits) && NoDigitFirst(rest)
    ensures CountDigits(digits + rest) == |digits|
  {
    if digits == "" {
      assert digits + rest == rest;
    } else {
      assert (digits + rest)[1..] == digits[1..] + rest;
      DigitsCounted(digits[1..], rest);
    }
  }

  lemma NumberInverse(n: int, rest: string)
    requires NoDigitFirst(rest)
    ensures ParseNumber(D.Format(n) + rest) == Got(Number(n), rest)
    ensures D.IsDigit(D.Format(n)[0]) || D.Format(n)[0] == '-'
  {
    var m: nat := if n < 0 then -n else n;
    var digits := D.FormatNat(m);
    DigitsCounted(digits, rest);
    D.FormatNatValue(m);
    assert (digits + rest)[..|digits|] == digits && (digits + rest)[|digits|..] == rest;
    if n < 0 { assert (D.Format(n) + rest)[1..] == digits + rest; }
  }

  /** The first character of a value's text tells what kind of value it is. */
  predicate StartsAs(v: Value, t: string) {
    t != "" &&
    match v
    case Null => t[0] == 'n'
    case Bool(b) => t[0] == (if b then 't' else 'f')
    case Number(_) => D.IsDigit(t[0]) || t[0] == '-'
    case Text(_) => t[0] == '"'
    case List(_) => t[0] == '['
    case Object(_) => t[0] == '{'
    case Unsupported => false
  }

  lemma TextStarts(v: Value)
    requires Supported(v)
    ensures StartsAs(v, Print(v))
  {
    match v
    case Number(n) => NumberInverse(n, "");
    case _ => hide SortedKeys, EscapeText;
  }

  /** A list's text after the bracket does not begin with the closing one. */
  lemma NotEmptyList(items: seq<Value>, tail: string)
    requires items != [] && Supported(items[0])
    ensures var s := PrintItems(items) + tail; s != "" && s[0] != ']'
  {
    TextStarts(items[0]);
    hide Print;
  }

  lemma {:induction false} ValueInverse(v: Value, rest: string)
    requires Supported(v) && NoDigitFirst(rest)
    ensures ParseValue(Print(v) + rest) == Got(v, rest)
    decreases v, 2, 0
  {
    match v
    case Null => assert ("null" + rest)[4..] == rest;
    case Bool(b) => BoolInverse(b, rest);
    case Number(n) => NumberValueInverse(n, rest);
    case Text(s) => TextValueInverse(s, rest);
    case List(items) =>
      if items == [] {
        EmptyListInverse(rest);
      } else {
        ItemsInverse(items, rest);
        ListInverse(items, rest);
      }
    case Object(m) =>
      if m == map[] {
        EmptyObjectInverse(v, rest);
      } else {
        var keys := SortedKeys(m.Keys);
        assert keys != [] by { var k :| k in m; assert k in keys; }
        MembersInverse(v, keys, rest);
        assert m == (map k | k in keys :: m[k]);
        ObjectInverse(v, keys, rest);
      }
  }

  lemma BoolInverse(b: bool, rest: string)
    ensures ParseValue((if b then "true" else "false") + rest) == Got(Bool(b), rest)
  {
    var s := (if b then "true" else "false") + rest;
    assert s[0] == if b then 't' else 'f';
    assert s[if b then 4 else 5..] == rest;
  }

  lemma TextValueInverse(t: string, rest: string)
    ensures ParseValue(Quoted(t) + rest) == Got(Text(t), rest)
  {
    QuotedInverse(t, rest);
    var s := Quoted(t) + rest;
    assert s[0] == '"';
    hide Quoted, ParseText;
  }

  lemma NumberValueInverse(n: int, rest: string)
    requires NoDigitFirst(rest)
    ensures ParseValue(D.Format(n) + rest) == Got(Number(n), rest)
  {
    NumberInverse(n, rest);
    hide D.Format, ParseNumber;
    var s := D.Format(n) + rest;
    assert s[0] == D.Format(n)[0];
  }

  lemma EmptyListInverse(rest: string)
    ensures ParseValue(Print(List([])) + rest) == Got(List([]), rest)
  {
    var s := "[]" + rest;
    assert Print(List([])) + rest == s && s[0] == '[' && s[2..] == rest;
  }

  lemma ListInverse(items: seq<Value>, rest: string)
    requires items != [] && Supported(items[0])
    requires ParseItems(PrintItems(items) + "]" + rest) == Got(items, rest)
    ensures ParseValue(Print(List(items)) + rest) == Got(List(items), rest)
  {
    NotEmptyList(items, "]" + rest);
    PrintedList(items, rest);
    hide *;
    BracketedInverse(PrintItems(items) + "]" + rest, items, rest);
  }

  lemma PrintedList(items: seq<Value>, rest: string)
    ensures Print(List(items)) + rest == "[" + (PrintItems(items) + "]" + rest)
    ensures PrintItems(items) + "]" + rest == PrintItems(items) + ("]" + rest)
  {
    hide PrintItems;
  }

  lemma BracketedInverse(inner: string, items: seq<Value>, rest: string)
    requires inner != "" && inner[0] != ']' && ParseItems(inner) == Got(items, rest)
    ensures ParseValue("[" + inner) == Got(List(items), rest)
  {
    hide ParseItems;
    var s := "[" + inner;
    assert s[0] == '[' && s[1] == inner[0] && s[1..] == inner;
  }

  lemma EmptyObjectInverse(v: Value, rest: string)
    requires v == Object(map[])
    ensures ParseValue(Print(v) + rest) == Got(v, rest)
  {
    var keys := SortedKeys(v.members.Keys);
    assert v.members.Keys == {} && keys == [];
    assert Print(v) + rest == "{}" + rest;
    var s := "{}" + rest;
    assert s[0] == '{' && s[2..] == rest;
  }

  lemma ObjectInverse(v: Value, keys: seq<string>, rest: string)
    requires v.Object? && keys == SortedKeys(v.members.Keys) && keys != []
    requires ParseMembers(PrintMembers(v, keys) + "}" + rest) == Got(v.members, rest)
    ensures ParseValue(Print(v) + rest) == Got(v, rest)
  {
    MembersStart(v, keys);
    PrintedObject(v, keys, rest);
    hide *;
    BracedInverse(PrintMembers(v, keys) + "}" + rest, v.members, rest);
  }

  lemma PrintedObject(v: Value, keys: seq<string>, rest: string)
    requires v.Object? && keys == SortedKeys(v.members.Keys)
    ensures Print(v) + rest == "{" + (PrintMembers(v, keys) + "}" + rest)
  {
    hide PrintMembers, SortedKeys;
  }

  lemma BracedInverse(inner: string, m: map<string, Value>, rest: string)
    requires inner != "" && inner[0] == '"' && ParseMembers(inner) == Got(m, rest)
    ensures ParseValue("{" + inner) == Got(Object(m), rest)
  {
    hide ParseMembers;
    var s := "{" + inner;
    assert s[0] == '{' && s[1] == inner[0] && s[1..] == inner;
  }

  lemma MembersStart(v: Value, keys: seq<string>)
    requires v.Object? && keys != [] && forall k :: k in keys ==> k in v.members
    ensures PrintMembers(v, keys) != "" && PrintMembers(v, keys)[0] == '"'
  {
    hide EscapeText, Print;
    assert PrintMember(v, keys[0])[0] == '"';
    hide PrintMember;
  }

  lemma {:induction false} ItemsInverse(items: seq<Value>, rest: string)
    requires items != [] && forall i :: 0 <= i < |items| ==> Supported(items[i])
    ensures ParseItems(PrintItems(items) + "]" + rest) == Got(items, rest)
    decreases items, 1, 0
  {
    hide Print, ParseValue;
    var s := PrintItems(items) + "]" + rest;
    if |items| == 1 {
      ValueInverse(items[0], "]" + rest);
      assert items == [items[0]];
      assert s == Print(items[0]) + ("]" + rest);
      assert ("]" + rest)[1..] == rest;
    } else {
      var tail := PrintItems(items[1..]) + "]" + rest;
      ValueInverse(items[0], ", " + tail);
      assert s == Print(items[0]) + (", " + tail);
      assert (", " + tail)[2..] == tail && (", " + tail)[0] == ',';
      assert items == [items[0]] + items[1..];
      ItemsInverse(items[1..], rest);
    }
  }

  lemma {:induction false} MembersInverse(v: Value, keys: seq<string>, rest: string)
    requires v.Object? && Supported(v) && keys != [] && StrictlySorted(keys)
    requires forall k :: k in keys ==> k in v.members
    ensures ParseMembers(PrintMembers(v, keys) + "}" + rest) == Got(map k | k in keys :: v.members[k], rest)
    decreases v, 1, |keys|
  {
    hide PrintMember, ParseMembers, Print, ReadsMember, Supported;
    var k := keys[0];
    if |keys| == 1 {
      assert keys == [k];
      MemberInverse(v, k, "}" + rest);
      LastMember(v, k, rest);
      assert (map l | l in keys :: v.members[l]) == map[k := v.members[k]];
    } else {
      var tail := PrintMembers(v, keys[1..]) + "}" + rest;
      assert forall l :: l in keys[1..] ==> l in keys;
      MembersInverse(v, keys[1..], rest);
      MemberInverse(v, k, ", " + tail);
      KeyLessIsStrictOrder(k, k, k);
      assert k !in keys[1..];
      MoreMembers(v, keys, rest);
      assert (map l | l in keys :: v.members[l]) == (map l | l in keys[1..] :: v.members[l])[k := v.members[k]];
    }
  }

  /** Reading one member: its key, then its value. */
  ghost predicate ReadsMember(s: string, k: string, m: Value, rest: string) {
    && "\"" <= s && ParseText(s[1..]).Got? && ParseText(s[1..]).value == k
    && ": " <= ParseText(s[1..]).rest
    && ParseValue(ParseText(s[1..]).rest[2..]) == Got(m, rest)
  }

  lemma MemberInverse(v: Value, k: string, rest: string)
    requires v.Object? && Supported(v) && k in v.members && NoDigitFirst(rest)
    ensures ReadsMember(PrintMember(v, k) + rest, k, v.members[k], rest)
    decreases v, 0, 0
  {
    var value := Print(v.members[k]) + rest;
    ValueInverse(v.members[k], rest);
    hide Print, ParseValue, Quoted;
    assert PrintMember(v, k) + rest == Quoted(k) + (": " + value);
    QuotedInverse(k, ": " + value);
    assert (": " + value)[2..] == value && (": " + value)[0] == ':';
  }

  lemma LastMember(v: Value, k: string, rest: string)
    requires v.Object? && k in v.members
    requires ReadsMember(PrintMember(v, k) + ("}" + rest), k, v.members[k], "}" + rest)
    ensures ParseMembers(PrintMembers(v, [k]) + "}" + rest) == Got(map[k := v.members[k]], rest)
  {
    hide PrintMember, ParseValue, ParseText;
    assert PrintMembers(v, [k]) + "}" + rest == PrintMember(v, k) + ("}" + rest);
    assert ("}" + rest)[1..] == rest;
  }

  lemma MoreMembers(v: Value, keys: seq<string>, rest: string)
    requires v.Object? && |keys| > 1 && (forall l :: l in keys ==> l in v.members) && keys[0] !in keys[1..]
    requires var tail := PrintMembers(v, keys[1..]) + "}" + rest;
             && ReadsMember(PrintMember(v, keys[0]) + (", " + tail), keys[0], v.members[keys[0]], ", " + tail)
             && ParseMembers(tail) == Got(map l | l in keys[1..] :: v.members[l], rest)
    ensures ParseMembers(PrintMembers(v, keys) + "}" + rest)
            == Got((map l | l in keys[1..] :: v.members[l])[keys[0] := v.members[keys[0]]], rest)
  {
    hide PrintMember, ParseValue, ParseText;
    var tail := PrintMembers(v, keys[1..]) + "}" + rest;
    assert PrintMembers(v, keys) + "}" + rest == PrintMember(v, keys[0]) + (", " + tail);
    assert (", " + tail)[2..] == tail && (", " + tail)[0] == ',';
  }

  // ----- what is signed

  /** The text of a supported value, read back as a whole, is the value. */
  lemma ParseInvertsPrint(v: Value)
    requires Supported(v)
    ensures ParseValue(Print(v)) == Got(v, "")
  {
    ValueInverse(v, "");
    assert Print(v) + "" == Print(v);
  }

  /** Two different values never have the same signed text. */
  lemma SignedTextIsInjective(v: Value, w: Value)
    requires Supported(v) && Supported(w)
    ensures Print(v) == Print(w) <==> v == w
  {
    ParseInvertsPrint(v);
    ParseInvertsPrint(w);
  }
}
