/** Canonical JSON strings are spelt as shortly as JSON allows, so nothing is escaped that need not be: the
    form in which the server recomputes the signed text. */
module CanonicalShortest {
  import opened CanonicalJson
  import opened CanonicalParse
  import opened Hexadecimal
  import opened Wrappers
  import D = Decimal

  /** The same text, up to capital letters A to F in place of small ones. */
  predicate SameUpToHexCase(t: string, e: string) {
    |t| == |e| && forall i :: 0 <= i < |t| ==> SameHexDigit(t[i], e[i])
  }

  predicate SameHexDigit(t: char, e: char) {
    t == e || ('A' <= t <= 'F' && e as int == t as int + 32)
  }

  /** The line and the paragraph separator, which the encoder always escapes. */
  predicate IsSeparator(c: char) {
    c == '\U{2028}' || c == '\U{2029}'
  }

  lemma DigitOfValue(c: char)
    requires HexDigitValue(c).Some?
    ensures SameHexDigit(c, HexDigit(HexDigitValue(c).value))
  {
  }

  /** The four digits of a control character's number. */
  lemma ControlDigits(digits: string, n: nat)
    requires |digits| == 4 && HexValue(digits) == Some(n) && n < 0x20
    ensures SameUpToHexCase(digits, "00" + [HexDigit(n / 16), HexDigit(n % 16)])
  {
    DigitsHaveValues(digits);
    FourDigits(digits);
    var a, b := HexDigitValue(digits[0]).value, HexDigitValue(digits[1]).value;
    var c, d := HexDigitValue(digits[2]).value, HexDigitValue(digits[3]).value;
    SmallNumber(a, b, c, d, n);
    DigitOfValue(digits[0]);
    DigitOfValue(digits[1]);
    DigitOfValue(digits[2]);
    DigitOfValue(digits[3]);
    assert HexDigit(0) == '0';
    hide HexDigit, HexValue, HexDigitValue;
  }

  lemma SmallNumber(a: nat, b: nat, c: nat, d: nat, n: nat)
    requires n == 0x1000 * a + 0x100 * b + 0x10 * c + d && d < 16 && n < 0x20
    ensures a == 0 && b == 0 && c == n / 16 && d == n % 16
  {
  }

  lemma {:induction false} DigitsHaveValues(s: string)
    requires HexValue(s).Some?
    ensures forall i :: 0 <= i < |s| ==> HexDigitValue(s[i]).Some?
  {
    if s != "" { DigitsHaveValues(s[..|s| - 1]); }
  }

  /** However a character can be spelt, the encoder's spelling is not longer, and the same if it is as long. */
  lemma ShortestChar(s: string)
    requires ParseChar(s).Got? && !IsSeparator(ParseChar(s).value)
    ensures var c, n := ParseChar(s).value, |s| - |ParseChar(s).rest|;
            |EscapeChar(c)| <= n && (|EscapeChar(c)| == n ==> SameUpToHexCase(s[..n], EscapeChar(c)))
  {
    var c := ParseChar(s).value;
    if s[0] == '\\' && s[1] == 'u' {
      var digits := s[2..][..4];
      assert ParseChar(s).rest == s[2..][4..] && s[..6] == "\\u" + digits;
      if |EscapeChar(c)| == 6 {
        ControlDigits(digits, c as int);
        assert EscapeChar(c) == "\\u" + ("00" + [HexDigit(c as int / 16), HexDigit(c as int % 16)]);
      }
      hide HexDigit, HexValue;
    } else {
      hide ParseHex4, HexDigit;
    }
  }

  /** The characters that the encoder spells longer than need be are the two separators. */
  lemma LongerSpellingIff(c: char)
    ensures (exists s :: ParseChar(s) == Got(c, "") && |s| < |EscapeChar(c)|) <==> IsSeparator(c)
  {
    if IsSeparator(c) {
      assert ParseChar([c]) == Got(c, "");
    } else if s :| ParseChar(s) == Got(c, "") && |s| < |EscapeChar(c)| {
      ShortestChar(s);
    }
  }

  lemma SameConcat(t1: string, e1: string, t2: string, e2: string)
    requires SameUpToHexCase(t1, e1) && SameUpToHexCase(t2, e2)
    ensures SameUpToHexCase(t1 + t2, e1 + e2)
  {
    hide SameHexDigit;
  }

  lemma {:induction false} ShortestFrom(s: string)
    requires ParseText(s).Got? && forall c :: c in ParseText(s).value ==> !IsSeparator(c)
    ensures var text, n := ParseText(s).value, |s| - |ParseText(s).rest| - 1;
            |EscapeText(text)| <= n && (|EscapeText(text)| == n ==> SameUpToHexCase(s[..n], EscapeText(text)))
    decreases |s|
  {
    hide EscapeChar, ParseChar, SameUpToHexCase, IsSeparator;
    if s[0] == '"' {
      assert SameUpToHexCase("", "") by { NothingIsSame(); }
      assert s[..0] == "";
    } else {
      var c, rest := ParseChar(s).value, ParseChar(s).rest;
      var text := ParseText(rest).value;
      assert ParseText(s).value == [c] + text && ParseText(s).rest == ParseText(rest).rest;
      ShortestChar(s);
      CharIsPrefix(s);
      ShortestFrom(rest);
      var k, n := |s| - |rest|, |rest| - |ParseText(rest).rest| - 1;
      assert EscapeText([c] + text) == EscapeChar(c) + EscapeText(text) by { assert ([c] + text)[1..] == text; }
      hide ParseText, EscapeText;
      assert s[..k + n] == s[..k] + rest[..n];
      if |EscapeChar(c)| == k && |EscapeText(text)| == n {
        SameConcat(s[..k], EscapeChar(c), rest[..n], EscapeText(text));
      }
    }
  }

  lemma NothingIsSame()
    ensures SameUpToHexCase("", "")
  {
  }

  lemma CharIsPrefix(s: string)
    requires ParseChar(s).Got?
    ensures ParseChar(s).rest == s[|s| - |ParseChar(s).rest|..]
  {
  }

  /** Of all the ways to spell a string without separators in JSON, the encoder's is the shortest, and the
      only one of its length that writes hexadecimal digits with small letters. So no character is escaped
      that need not be, '<', '>' and '&' among them. */
  lemma EncodedIsShortest(s: string, t: string)
    requires (forall c :: c in s ==> !IsSeparator(c)) && ParseText(t + "\"") == Got(s, "")
    ensures |EscapeText(s)| <= |t|
    ensures |EscapeText(s)| == |t| ==> SameUpToHexCase(t, EscapeText(s))
  {
    ShortestFrom(t + "\"");
    assert (t + "\"")[..|t|] == t;
  }

  /** A numeral without needless zeros is the one that is printed. */
  lemma {:induction false} NumeralIsUnique(s: string)
    requires s != "" && D.AllDigits(s) && (s[0] == '0' ==> s == "0")
    ensures D.FormatNat(D.NatValue(s)) == s
  {
    var init, last := s[..|s| - 1], s[|s| - 1];
    assert D.NatValue(s) == 10 * D.NatValue(init) + D.DigitValue(last);
    assert D.Digit(D.DigitValue(last)) == last && s == init + [last];
    if init == "" {
      assert D.NatValue(init) == 0;
      LastDigit(0, D.DigitValue(last));
    } else {
      assert init[0] == s[0];
      NumeralIsUnique(init);
      PositiveNumeral(init);
      LastDigit(D.NatValue(init), D.DigitValue(last));
    }
    hide D.FormatNat, D.NatValue;
  }

  lemma LastDigit(m: nat, d: nat)
    requires d < 10
    ensures D.FormatNat(10 * m + d) == if m == 0 then [D.Digit(d)] else D.FormatNat(m) + [D.Digit(d)]
  {
    assert (10 * m + d) / 10 == m && (10 * m + d) % 10 == d;
  }

  lemma {:induction false} PositiveNumeral(s: string)
    requires s != "" && D.AllDigits(s) && s[0] != '0'
    ensures D.NatValue(s) > 0
  {
    if |s| == 1 {
      assert s[..0] == "";
    } else {
      PositiveNumeral(s[..|s| - 1]);
    }
  }
}
