/** The order of object keys in canonical JSON (internal/telemetry/canonical.go:82-93): by length in bytes,
    then by bytes. Strings are sequences of Unicode scalar values, that is, valid UTF-8. */
module KeyOrder {

  type Bytes = seq<nat>

  function Utf8(c: char): (b: Bytes)
    ensures 1 <= |b| <= 4
  {
    var n := c as int;
    if n < 0x80 then [n]
    else if n < 0x800 then [0xC0 + n / 0x40, 0x80 + n % 0x40]
    else if n < 0x10000 then [0xE0 + n / 0x1000, 0x80 + n / 0x40 % 0x40, 0x80 + n % 0x40]
    else [0xF0 + n / 0x40000, 0x80 + n / 0x1000 % 0x40, 0x80 + n / 0x40 % 0x40, 0x80 + n % 0x40]
  }

  function Encode(s: string): Bytes {
    if s == "" then [] else Utf8(s[0]) + Encode(s[1..])
  }

  predicate BytesLess(a: Bytes, b: Bytes) {
    if b == [] then false
    else if a == [] then true
    else a[0] < b[0] || (a[0] == b[0] && BytesLess(a[1..], b[1..]))
  }

  /** The comparison that the program sorts keys with. */
  predicate KeyLess(a: string, b: string) {
    if |Encode(a)| != |Encode(b)| then |Encode(a)| < |Encode(b)| else BytesLess(Encode(a), Encode(b))
  }

  /** Lexicographic order by code points. */
  predicate CodePointsLess(a: string, b: string) {
    if b == "" then false
    else if a == "" then true
    else a[0] < b[0] || (a[0] == b[0] && CodePointsLess(a[1..], b[1..]))
  }

  lemma {:induction false} CommonPrefix(p: Bytes, a: Bytes, b: Bytes)
    ensures BytesLess(p + a, p + b) <==> BytesLess(a, b)
  {
    if p == [] {
      assert p + a == a && p + b == b;
    } else {
      assert (p + a)[1..] == p[1..] + a && (p + b)[1..] == p[1..] + b;
      CommonPrefix(p[1..], a, b);
    }
  }

  lemma FirstDifference(a: Bytes, b: Bytes, i: nat)
    requires i < |a| && i < |b| && a[..i] == b[..i] && a[i] < b[i]
    ensures BytesLess(a, b) && !BytesLess(b, a)
  {
    assert a == a[..i] + a[i..] && b == b[..i] + b[i..];
    CommonPrefix(a[..i], a[i..], b[i..]);
    CommonPrefix(a[..i], b[i..], a[i..]);
  }

  /** The base-64 digits of n, from the quotients that the encoding uses. */
  lemma Digits(n: nat)
    ensures n / 0x1000 == n / 0x40 / 0x40 && n / 0x40000 == n / 0x1000 / 0x40
    ensures n == n / 0x40 * 0x40 + n % 0x40
    ensures n / 0x40 == n / 0x1000 * 0x40 + n / 0x40 % 0x40
    ensures n / 0x1000 == n / 0x40000 * 0x40 + n / 0x1000 % 0x40
  {
    var a := n / 0x40;
    var b := a / 0x40;
    assert n == 0x1000 * b + (0x40 * (a % 0x40) + n % 0x40);
    var c := n / 0x1000 / 0x40;
    assert n == 0x40000 * c + (0x1000 * (n / 0x1000 % 0x40) + n % 0x1000);
  }

  /** Where the encodings of two characters of the same encoded length first differ. */
  lemma SameLengthOrder(c: char, d: char) returns (i: nat)
    requires c < d && |Utf8(c)| == |Utf8(d)|
    ensures i < |Utf8(c)| && Utf8(c)[..i] == Utf8(d)[..i] && Utf8(c)[i] < Utf8(d)[i]
  {
    var m, n := c as int, d as int;
    Digits(m);
    Digits(n);
    if n < 0x80 {
      i := 0;
    } else if n < 0x800 {
      i := if m / 0x40 < n / 0x40 then 0 else 1;
    } else if n < 0x10000 {
      i := if m / 0x1000 < n / 0x1000 then 0 else if m / 0x40 < n / 0x40 then 1 else 2;
    } else {
      i := if m / 0x40000 < n / 0x40000 then 0 else if m / 0x1000 < n / 0x1000 then 1
           else if m / 0x40 < n / 0x40 then 2 else 3;
    }
  }

  /** A smaller character has smaller bytes, at the first place where the two differ. */
  lemma SmallerCharSmallerBytes(c: char, d: char) returns (i: nat)
    requires c < d
    ensures i < |Utf8(c)| && i < |Utf8(d)| && Utf8(c)[..i] == Utf8(d)[..i] && Utf8(c)[i] < Utf8(d)[i]
  {
    if |Utf8(c)| == |Utf8(d)| {
      i := SameLengthOrder(c, d);
    } else {
      i := 0;
    }
  }

  /** Comparing the bytes is comparing the code points. */
  lemma {:induction false} BytesOrderIsCodePointOrder(a: string, b: string)
    ensures BytesLess(Encode(a), Encode(b)) <==> CodePointsLess(a, b)
  {
    if a != "" && b != "" {
      if a[0] == b[0] {
        CommonPrefix(Utf8(a[0]), Encode(a[1..]), Encode(b[1..]));
        BytesOrderIsCodePointOrder(a[1..], b[1..]);
      } else {
        hide Utf8;
        if a[0] < b[0] {
          var i := SmallerCharSmallerBytes(a[0], b[0]);
          assert Encode(a)[..i] == Utf8(a[0])[..i] && Encode(b)[..i] == Utf8(b[0])[..i];
          FirstDifference(Encode(a), Encode(b), i);
        } else {
          var i := SmallerCharSmallerBytes(b[0], a[0]);
          assert Encode(a)[..i] == Utf8(a[0])[..i] && Encode(b)[..i] == Utf8(b[0])[..i];
          FirstDifference(Encode(b), Encode(a), i);
        }
      }
    }
  }

  /** The first place where the bytes differ, and a has the smaller one. */
  predicate DiffersBelow(a: Bytes, b: Bytes, i: int) {
    0 <= i < |a| && i < |b| && a[..i] == b[..i] && a[i] < b[i]
  }

  lemma {:induction false} BytesLessIff(a: Bytes, b: Bytes)
    requires |a| == |b|
    ensures BytesLess(a, b) <==> exists i :: DiffersBelow(a, b, i)
  {
    if a != [] {
      BytesLessIff(a[1..], b[1..]);
      if a[0] < b[0] {
        assert DiffersBelow(a, b, 0);
      } else if i :| DiffersBelow(a[1..], b[1..], i) {
        assert a[..i + 1] == [a[0]] + a[1..][..i] && b[..i + 1] == [b[0]] + b[1..][..i];
        assert a[0] == b[0] ==> DiffersBelow(a, b, i + 1);
      }
      forall i | DiffersBelow(a, b, i) && i > 0 ensures a[0] == b[0] && DiffersBelow(a[1..], b[1..], i - 1) {
        assert a[0] == a[..i][0] == b[..i][0] == b[0];
        assert a[1..][..i - 1] == a[..i][1..] && b[1..][..i - 1] == b[..i][1..];
      }
    }
  }

  /** One key comes before another if it has fewer bytes, or as many and the smaller one where they first
      differ. */
  lemma KeyOrderByBytes(a: string, b: string)
    ensures KeyLess(a, b) <==> || |Encode(a)| < |Encode(b)|
                               || (|Encode(a)| == |Encode(b)| && exists i :: DiffersBelow(Encode(a), Encode(b), i))
  {
    hide Encode;
    if |Encode(a)| == |Encode(b)| { BytesLessIff(Encode(a), Encode(b)); }
  }

  /** What a byte holds besides its mark. */
  function Payload(b: int, mark: int): int {
    b - mark
  }

  /** Decoding as section 3 of RFC 3629 has it: the first byte gives the length. */
  function Decode(b: Bytes): int {
    if |b| == 1 then b[0]
    else if |b| == 2 then Payload(b[0], 0xC0) * 0x40 + Payload(b[1], 0x80)
    else if |b| == 3 then (Payload(b[0], 0xE0) * 0x40 + Payload(b[1], 0x80)) * 0x40 + Payload(b[2], 0x80)
    else if |b| == 4 then ((Payload(b[0], 0xF0) * 0x40 + Payload(b[1], 0x80)) * 0x40 + Payload(b[2], 0x80)) * 0x40 + Payload(b[3], 0x80)
    else -1
  }

  /** How many bytes the first one announces. */
  function Announced(first: nat): nat {
    if first < 0x80 then 1 else if 0xC0 <= first < 0xE0 then 2 else if 0xE0 <= first < 0xF0 then 3
    else if 0xF0 <= first < 0xF8 then 4 else 0
  }

  lemma Utf8Decodes(c: char)
    ensures Decode(Utf8(c)) == c as int && Announced(Utf8(c)[0]) == |Utf8(c)|
    ensures forall i :: 0 < i < |Utf8(c)| ==> 0x80 <= Utf8(c)[i] < 0xC0
  {
    Digits(c as int);
  }

  // ----- a strict total order

  lemma {:induction false} CodePointsIrreflexive(a: string)
    ensures !CodePointsLess(a, a)
  {
    if a != "" { CodePointsIrreflexive(a[1..]); }
  }

  lemma {:induction false} CodePointsTransitive(a: string, b: string, c: string)
    requires CodePointsLess(a, b) && CodePointsLess(b, c)
    ensures CodePointsLess(a, c)
  {
    if a != "" && a[0] == b[0] && b[0] == c[0] { CodePointsTransitive(a[1..], b[1..], c[1..]); }
  }

  lemma {:induction false} CodePointsTotal(a: string, b: string)
    ensures a == b || CodePointsLess(a, b) || CodePointsLess(b, a)
  {
    if a != "" && b != "" && a[0] == b[0] {
      CodePointsTotal(a[1..], b[1..]);
      assert a == [a[0]] + a[1..] && b == [b[0]] + b[1..];
    }
  }

  lemma KeyLessIsStrictOrder(a: string, b: string, c: string)
    ensures !KeyLess(a, a)
    ensures KeyLess(a, b) && KeyLess(b, c) ==> KeyLess(a, c)
    ensures a == b || KeyLess(a, b) || KeyLess(b, a)
  {
    BytesOrderIsCodePointOrder(a, a);
    BytesOrderIsCodePointOrder(a, b);
    BytesOrderIsCodePointOrder(b, a);
    BytesOrderIsCodePointOrder(b, c);
    BytesOrderIsCodePointOrder(a, c);
    CodePointsIrreflexive(a);
    CodePointsTotal(a, b);
    if CodePointsLess(a, b) && CodePointsLess(b, c) { CodePointsTransitive(a, b, c); }
  }

  predicate StrictlySorted(keys: seq<string>) {
    forall i, j :: 0 <= i < j < |keys| ==> KeyLess(keys[i], keys[j])
  }

  ghost predicate HasKeys(keys: seq<string>, ks: set<string>) {
    forall k :: k in keys <==> k in ks
  }

  /** k comes before all other keys of the set. */
  ghost predicate IsFirst(k: string, ks: set<string>) {
    k in ks && forall l :: l in ks && l != k ==> KeyLess(k, l)
  }

  lemma {:induction false} FirstExists(ks: set<string>)
    requires ks != {}
    ensures exists k :: IsFirst(k, ks)
    decreases |ks|
  {
    hide KeyLess;
    var x :| x in ks;
    var rest := ks - {x};
    if rest == {} {
      assert forall l :: l in ks && l != x ==> l in rest;
      assert IsFirst(x, ks);
    } else {
      FirstExists(rest);
      var y :| IsFirst(y, rest);
      KeyLessIsStrictOrder(x, y, x);
      var k := if KeyLess(x, y) then x else y;
      forall l | l in ks && l != k ensures KeyLess(k, l) { KeyLessIsStrictOrder(x, y, l); }
      assert IsFirst(k, ks);
    }
  }

  /** The keys of an object in the order in which they are printed. */
  ghost function SortedKeys(ks: set<string>): (keys: seq<string>)
    ensures StrictlySorted(keys) && HasKeys(keys, ks)
    decreases |ks|
  {
    if ks == {} then []
    else
      FirstExists(ks);
      var k :| IsFirst(k, ks);
      var rest := SortedKeys(ks - {k});
      assert forall i :: 0 <= i < |rest| ==> rest[i] in rest;
      [k] + rest
  }

  /** There is only one strictly sorted list of a set of keys. */
  lemma {:induction false} SortedKeysUnique(a: seq<string>, b: seq<string>, ks: set<string>)
    requires StrictlySorted(a) && StrictlySorted(b) && HasKeys(a, ks) && HasKeys(b, ks)
    ensures a == b
    decreases |a|
  {
    hide KeyLess;
    if b != [] { assert b[0] in b && b[0] in ks && b[0] in a; }
    if a != [] {
      assert a[0] in a && a[0] in ks && a[0] in b;
      var i :| 0 <= i < |b| && b[i] == a[0];
      var j :| 0 <= j < |a| && a[j] == b[0];
      KeyLessIsStrictOrder(a[0], b[0], a[0]);
      assert a[0] == b[0];
      var rest := ks - {a[0]};
      TailHasKeys(a, ks);
      TailHasKeys(b, ks);
      SortedKeysUnique(a[1..], b[1..], rest);
    }
  }

  lemma TailHasKeys(a: seq<string>, ks: set<string>)
    requires a != [] && StrictlySorted(a) && HasKeys(a, ks)
    ensures HasKeys(a[1..], ks - {a[0]}) && StrictlySorted(a[1..])
  {
    hide KeyLess;
    assert a == [a[0]] + a[1..];
    KeyLessIsStrictOrder(a[0], a[0], a[0]);
    assert forall i :: 0 <= i < |a[1..]| ==> a[1..][i] == a[i + 1];
  }
}
