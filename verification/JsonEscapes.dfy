/**
 The escapes of RFC 8259, section 7, one by one: what each means to the parser, when the printer writes
 one, how much room each is given, and what becomes of those that stand for no character.
 */
module JsonEscapes {
  import opened Options
  import opened Sequences
  import opened JsonSyntax
  import opened JsonRoundTrip
  import opened JsonUnicode

  // The characters with escapes of two characters, and how these end.
  const PLAIN := "\"\\/\U{8}\U{C}\n\r\t"
  const SHORT := "\"\\/bfnrt"

  lemma ShortEscapeRead(i: nat, t: string)
    requires i < |SHORT|
    ensures |PLAIN| == |SHORT| == 8 && ParseEscape([SHORT[i]] + t) == Parsed([PLAIN[i]], t)
  {
    var s := [SHORT[i]] + t;
    assert s[0] == SHORT[i] && s[1..] == t;
  }

  // A quote, a backslash and the control characters are escaped, as shortly as can be and the rest with
  // four lower-case digits; everything else, the slash included, is printed as it is.
  lemma EscapeWritten(c: char)
    requires c != '\0' && c as int < 0x100
    ensures |EscapeChar(c)| == 1 <==> c > '\U{1F}' && c != '\"' && c != '\\'
    ensures |EscapeChar(c)| == 1 ==> EscapeChar(c) == [c]
    ensures |EscapeChar(c)| == 2 <==> c in PLAIN && c != '/'
    ensures |EscapeChar(c)| == 2 ==> EscapeChar(c)[0] == '\\' && exists i :: 0 <= i < 8 && EscapeChar(c)[1] == SHORT[i] && c == PLAIN[i]
    ensures |EscapeChar(c)| !in {1, 2} ==>
              EscapeChar(c) == "\\u00" + [LOWER[c as int / 16], LOWER[c as int % 16]]
  {
    if c <= '\U{1F}' && |EscapeChar(c)| > 2 {
      HexCharIs(c as int / 16);
      HexCharIs(c as int % 16);
    }
    if |EscapeChar(c)| == 2 {
      assert PLAIN[0] == '\"' && PLAIN[1] == '\\' && PLAIN[3] == '\U{8}' && PLAIN[4] == '\U{C}' && PLAIN[5] == '\n'
          && PLAIN[6] == '\r' && PLAIN[7] == '\t';
      assert SHORT[0] == '\"' && SHORT[1] == '\\' && SHORT[3] == 'b' && SHORT[4] == 'f' && SHORT[5] == 'n'
          && SHORT[6] == 'r' && SHORT[7] == 't';
    }
  }

  lemma HexCharIs(d: nat)
    requires d < 16
    ensures HexChar(d) == LOWER[d]
  {
    if d < 10 {
      assert LOWER[d] == ('0' as int + d) as char;
    } else {
      assert LOWER[d] == ('a' as int + d - 10) as char;
    }
  }

  // A string is printed character by character.
  lemma {:induction false} EscapeJoins(a: string, b: string)
    ensures Escape(a + b) == Escape(a) + Escape(b)
  {
    if a == "" {
      assert a + b == b && "" + Escape(b) == Escape(b);
    } else {
      assert (a + b)[1..] == a[1..] + b && (a + b)[0] == a[0];
      EscapeJoins(a[1..], b);
      Assoc(EscapeChar(a[0]), Escape(a[1..]), Escape(b));
    }
  }

  /// Room

  // How many characters of the string take a long escape.
  function Long(str: string): nat {
    if str == "" then 0 else Long(str[1..]) + if str[0] <= '\U{1F}' && str[0] !in PLAIN then 1 else 0
  }

  // The buffer that the first pass measures for a printed string is exact, but for four bytes more for
  // every long escape.
  lemma {:induction false} CountExact(str: string, t: string)
    requires '\0' !in str
    ensures CountChars(Escape(str) + ("\"" + t)) == |str| + 4 * Long(str)
  {
    var close := "\"" + t;
    if str == "" {
      assert Escape(str) + close == close;
    } else {
      var e, rest := EscapeChar(str[0]), Escape(str[1..]) + close;
      CountExact(str[1..], t);
      Assoc(e, Escape(str[1..]), close);
      CountOne(str[0], rest);
    }
  }

  lemma CountOne(c: char, rest: string)
    requires c != '\0'
    ensures CountChars(EscapeChar(c) + rest) == CountChars(rest) + if c <= '\U{1F}' && c !in PLAIN then 5 else 1
  {
    var e := EscapeChar(c);
    var s := e + rest;
    if |e| == 1 {
      assert s[1..] == rest;
    } else if |e| == 2 {
      assert s[0] == '\\' && s[2..] == rest;
    } else {
      assert s[0] == '\\' && s[2..] == e[2..] + rest;
      var four := s[2..];
      assert four[0] == '0' && four[1] == '0' && four[2] == HexChar(c as int / 16) && four[3] == HexChar(c as int % 16);
      assert FourInside(four);
      CountFour(four);
      assert four[4..] == rest;
    }
  }

  /// Escapes that stand for no character

  // Zero, a low surrogate alone, and a high one that no other escape follows vanish.
  lemma LoneUnitVanishes(s: string, unit: nat, t: string)
    requires SpellsUnit(s, unit)
    requires unit == 0 || IsLowSurrogate(unit) || (IsHighSurrogate(unit) && !("\\u" <= t))
    ensures ParseEscape((s + t)[1..]) == Parsed("", t)
  {
    SpelledUnit(s, unit, t);
    Unslashed(s + t);
    var u := (s + t)[1..];
    hide SpellsUnit, Hex4, FourInside, Utf8;
    if IsHighSurrogate(unit) && |t| >= 2 {
      assert u[5..] == t && u[5] == t[0] && u[6] == t[1];
    }
  }

  // A high surrogate vanishes together with an escape that follows it and is no low one.
  lemma BrokenPairVanishes(s: string, high: nat, s': string, unit: nat, t: string)
    requires SpellsUnit(s, high) && IsHighSurrogate(high) && SpellsUnit(s', unit) && !IsLowSurrogate(unit)
    ensures ParseEscape((s + (s' + t))[1..]) == Parsed("", t)
  {
    hide SpellsUnit, Hex4, FourInside, Utf8, ParseEscape;
    SpelledUnit(s, high, s' + t);
    SpelledUnit(s', unit, t);
    Unslashed(s + (s' + t));
    PairSlices(s, s' + t);
    PairBroken((s + (s' + t))[1..], high, unit, t);
  }

  lemma PairSlices(s: string, t: string)
    requires |s| == 6 && |t| >= 6
    ensures var u := (s + t)[1..];
            u[0] == s[1] && u[5] == t[0] && u[6] == t[1] && u[7..] == t[2..] && u[11..] == t[6..]
  {}

  lemma PairBroken(u: string, high: nat, unit: nat, t: string)
    requires |u| >= 11 && u[0] == 'u' && FourInside(u[1..]) && Hex4(u[1..]) == high && IsHighSurrogate(high)
    requires u[5] == '\\' && u[6] == 'u' && FourInside(u[7..]) && Hex4(u[7..]) == unit && !IsLowSurrogate(unit) && u[11..] == t
    ensures ParseEscape(u) == Parsed("", t)
  {
    hide Hex4, FourInside, Utf8;
  }

  // So do four characters that are not all hexadecimal digits.
  lemma NoUnitVanishes(u: string, i: nat)
    requires |u| >= 5 && u[0] == 'u' && FourInside(u[1..]) && 1 <= i <= 4
    requires forall d | 0 <= d < 16 :: u[i] != LOWER[d] && u[i] != UPPER[d]
    ensures ParseEscape(u) == Parsed("", u[5..])
  {
    NoHexDigit(u[i]);
    assert u[1..][0] == u[1] && u[1..][1] == u[2] && u[1..][2] == u[3] && u[1..][3] == u[4];
    assert Hex4(u[1..]) == 0;
  }

  lemma NoHexDigit(c: char)
    requires forall d | 0 <= d < 16 :: c != LOWER[d] && c != UPPER[d]
    ensures HexValue(c) == None
  {
    if HexValue(c).Some? {
      HexDigitIs(c);
    }
  }

  lemma HexDigitIs(c: char)
    requires HexValue(c).Some?
    ensures var d := HexValue(c).value;
            d < 16 && (c == LOWER[d] || c == UPPER[d])
  {
    var d := HexValue(c).value;
    if d < 10 {
      assert LOWER[d] == c;
    } else if c <= 'F' {
      assert UPPER[d] == c;
    } else {
      assert LOWER[d] == c;
    }
  }
}
