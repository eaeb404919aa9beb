/** Strings spelled with \uXXXX escapes are stored as UTF-8, in a buffer that is long enough. */
module JsonUnicode {
  import opened Sequences
  import opened Options
  import opened JsonSyntax
  import opened JsonRoundTrip

  predicate IsScalar(cp: nat) {
    cp <= 0x10_FFFF && !IsHighSurrogate(cp) && !IsLowSurrogate(cp)
  }

  const LOWER := "0123456789abcdef"
  const UPPER := "0123456789ABCDEF"

  // A hexadecimal digit in either case.
  predicate IsHexDigit(c: char, d: nat)
    requires d < 16
  {
    c == LOWER[d] || c == UPPER[d]
  }

  // A backslash, a u, and the four hexadecimal digits of a 16-bit unit, the highest first.
  predicate SpellsUnit(s: string, unit: nat) {
    && |s| == 6 && s[0] == '\\' && s[1] == 'u' && unit < 0x1_0000
    && IsHexDigit(s[2], unit / 0x1000) && IsHexDigit(s[3], unit / 0x100 % 16)
    && IsHexDigit(s[4], unit / 0x10 % 16) && IsHexDigit(s[5], unit % 16)
  }

  // The escapes of RFC 8259, section 7: one for a scalar value of the basic plane, a
  // surrogate pair for any other, with hexadecimal digits in either case.
  predicate Spells(s: string, cp: nat)
    requires IsScalar(cp)
  {
    if cp < 0x1_0000 then SpellsUnit(s, cp)
    else
      var v := cp - 0x1_0000;
      |s| == 12 && SpellsUnit(s[..6], 0xD800 + v / 0x400) && SpellsUnit(s[6..], 0xDC00 + v % 0x400)
  }

  // UTF-8 as its decoder reads it (RFC 3629, section 3): shortest form, no surrogates.
  function DecodeUtf8(s: string): Option<(nat, string)> {
    if s == "" then None
    else
      var b := s[0] as int;
      if b < 0x80 then Some((b, s[1..]))
      else if 0xC0 <= b < 0xE0 then DecodeTail(b - 0xC0, 0x80, s[1..], 1)
      else if 0xE0 <= b < 0xF0 then DecodeTail(b - 0xE0, 0x800, s[1..], 2)
      else if 0xF0 <= b < 0xF8 then DecodeTail(b - 0xF0, 0x1_0000, s[1..], 3)
      else None
  }

  function DecodeTail(cp: nat, least: nat, s: string, n: nat): Option<(nat, string)>
    decreases n
  {
    if n == 0 then
      if cp < least || !IsScalar(cp) then None else Some((cp, s))
    else if s == "" || !IsContinuation(s[0]) then None
    else DecodeTail(cp * 0x40 + Low6(s[0]), least, s[1..], n - 1)
  }

  predicate IsContinuation(c: char) {
    0x80 <= c as int < 0xC0
  }

  function Low6(c: char): nat
    requires IsContinuation(c)
  {
    c as int - 0x80
  }

  function DecodeAll(s: string): Option<seq<nat>>
    decreases |s|
  {
    if s == "" then Some([])
    else
      var (cp, rest) :- DecodeUtf8(s);
      if |rest| >= |s| then None
      else
        var cps :- DecodeAll(rest);
        Some([cp] + cps)
  }

  function EncodeAll(cps: seq<nat>): string
    requires forall i | 0 <= i < |cps| :: IsScalar(cps[i])
  {
    if cps == [] then ""
    else
      assert IsScalar(cps[0]);
      Utf8(cps[0]) + EncodeAll(cps[1..])
  }

  function Concat(parts: seq<string>): string {
    if parts == [] then "" else parts[0] + Concat(parts[1..])
  }

  lemma DecodeContinuation(u: nat, least: nat, t: string, n: nat)
    ensures DecodeTail(u / 0x40, least, [Continuation(u)] + t, n + 1) == DecodeTail(u, least, t, n)
  {
    assert ([Continuation(u)] + t)[1..] == t;
    assert u / 0x40 * 0x40 + u % 0x40 == u;
  }

  lemma DivideTwice(cp: nat)
    ensures cp / 0x1000 == cp / 0x40 / 0x40
    ensures cp / 0x4_0000 == cp / 0x1000 / 0x40
  {}

  lemma DecodeEncoded(cp: nat, t: string)
    requires IsScalar(cp)
    ensures DecodeUtf8(Utf8(cp) + t) == Some((cp, t))
  {
    var s := Utf8(cp) + t;
    if cp < 0x80 {
      assert s[1..] == t;
    } else {
      DivideTwice(cp);
      var t1 := [Continuation(cp)] + t;
      var t2 := [Continuation(cp / 0x40)] + t1;
      var t3 := [Continuation(cp / 0x1000)] + t2;
      if cp < 0x800 {
        assert s[1..] == t1;
        DecodeContinuation(cp, 0x80, t, 0);
      } else if cp < 0x1_0000 {
        assert s[1..] == t2;
        DecodeContinuation(cp / 0x40, 0x800, t1, 1);
        DecodeContinuation(cp, 0x800, t, 0);
      } else {
        assert s[1..] == t3;
        DecodeContinuation(cp / 0x1000, 0x1_0000, t2, 2);
        DecodeContinuation(cp / 0x40, 0x1_0000, t1, 1);
        DecodeContinuation(cp, 0x1_0000, t, 0);
      }
    }
  }

  lemma {:induction false} EncodingDecodes(cps: seq<nat>)
    requires forall i | 0 <= i < |cps| :: IsScalar(cps[i])
    ensures DecodeAll(EncodeAll(cps)) == Some(cps)
  {
    if cps != [] {
      assert IsScalar(cps[0]);
      DecodeEncoded(cps[0], EncodeAll(cps[1..]));
      assert [cps[0]] + cps[1..] == cps;
      EncodingDecodes(cps[1..]);
    }
  }

  lemma SpelledUnit(s: string, unit: nat, t: string)
    requires SpellsUnit(s, unit)
    ensures s[0] == '\\' && s[1] == 'u' && |s + t| >= 6
    ensures FourInside((s + t)[2..]) && Hex4((s + t)[2..]) == unit && (s + t)[6..] == t
  {
    var h := (s + t)[2..];
    assert h[0] == s[2] && h[1] == s[3] && h[2] == s[4] && h[3] == s[5];
    HexDigitRead(s[2], unit / 0x1000);
    HexDigitRead(s[3], unit / 0x100 % 16);
    HexDigitRead(s[4], unit / 0x10 % 16);
    HexDigitRead(s[5], unit % 16);
    hide HexValue, IsHexDigit;
    FourDigits(unit);
  }

  lemma HexDigitRead(c: char, d: nat)
    requires d < 16 && IsHexDigit(c, d)
    ensures HexValue(c) == Some(d) && c != '\"' && c != '\\'
  {
    if d < 10 {
      assert LOWER[d] == UPPER[d] == ('0' as int + d) as char;
    } else {
      assert LOWER[d] == ('a' as int + d - 10) as char && UPPER[d] == ('A' as int + d - 10) as char;
    }
  }

  lemma FourDigits(unit: nat)
    requires unit < 0x1_0000
    ensures ((unit / 0x1000 * 16 + unit / 0x100 % 16) * 16 + unit / 0x10 % 16) * 16 + unit % 16 == unit
  {}

  // A lone escape, and a pair.
  lemma UnitParses(u: string, cp: nat, t: string)
    requires |u| >= 5 && u[0] == 'u' && FourInside(u[1..]) && Hex4(u[1..]) == cp && u[5..] == t
    requires cp != 0 && cp < 0x1_0000 && IsScalar(cp)
    ensures ParseEscape(u) == Parsed(Utf8(cp), t)
  {
    hide Utf8, FourInside, Hex4;
  }

  lemma PairParses(u: string, high: nat, low: nat, t: string)
    requires |u| >= 11 && u[0] == 'u' && FourInside(u[1..]) && Hex4(u[1..]) == high && u[5] == '\\' && u[6] == 'u'
    requires FourInside(u[7..]) && Hex4(u[7..]) == low && u[11..] == t && IsHighSurrogate(high) && IsLowSurrogate(low)
    ensures ParseEscape(u) == Parsed(Utf8(Combine(high, low)), t)
  {
    hide Utf8, FourInside, Hex4, Combine;
  }

  lemma Surrogates(cp: nat)
    requires 0x1_0000 <= cp <= 0x10_FFFF
    ensures var v := cp - 0x1_0000;
            var high, low := 0xD800 + v / 0x400, 0xDC00 + v % 0x400;
            IsHighSurrogate(high) && IsLowSurrogate(low) && Combine(high, low) == cp
  {}

  lemma ScalarParses(s: string, cp: nat, t: string)
    requires IsScalar(cp) && cp != 0 && Spells(s, cp)
    ensures s != "" && s[0] == '\\'
    ensures ParseEscape((s + t)[1..]) == Parsed(Utf8(cp), t)
  {
    hide SpellsUnit, ParseEscape, Utf8, FourInside, Hex4, Combine;
    if cp < 0x1_0000 {
      SpelledUnit(s, cp, t);
      Unslashed(s + t);
      UnitParses((s + t)[1..], cp, t);
    } else {
      var v := cp - 0x1_0000;
      PairSpelled(s, 0xD800 + v / 0x400, 0xDC00 + v % 0x400, t);
      Surrogates(cp);
    }
  }

  // The text behind the backslash, cut where its digits start and end.
  lemma Unslashed(s: string)
    requires |s| >= 6
    ensures s[1..][0] == s[1] && s[1..][1..] == s[2..] && s[1..][5..] == s[6..]
  {}

  lemma PairSpelled(s: string, high: nat, low: nat, t: string)
    requires |s| == 12 && SpellsUnit(s[..6], high) && SpellsUnit(s[6..], low) && IsHighSurrogate(high) && IsLowSurrogate(low)
    ensures s[0] == '\\' && ParseEscape((s + t)[1..]) == Parsed(Utf8(Combine(high, low)), t)
  {
    hide SpellsUnit, ParseEscape, Utf8, FourInside, Hex4, Combine;
    var a, b := s[..6], s[6..];
    assert s + t == a + (b + t);
    SpelledUnit(a, high, b + t);
    SpelledUnit(b, low, t);
    Unslashed(s + t);
    var u := (s + t)[1..];
    assert u[5..] == b + t;
    assert u[5] == (b + t)[0] == b[0] && u[6] == (b + t)[1] == b[1];
    assert u[7..] == (b + t)[2..] && u[11..] == (b + t)[6..];
    PairParses(u, high, low, t);
  }

  lemma {:induction false} ScalarsParse(parts: seq<string>, cps: seq<nat>, suffix: string)
    requires |parts| == |cps|
    requires forall i | 0 <= i < |cps| :: IsScalar(cps[i]) && cps[i] != 0 && Spells(parts[i], cps[i])
    ensures ParseChars(Concat(parts) + ("\"" + suffix)) == Parsed(EncodeAll(cps), suffix)
  {
    var close := "\"" + suffix;
    if cps == [] {
      assert Concat(parts) + close == close;
      assert close[1..] == suffix;
    } else {
      var rest := Concat(parts[1..]) + close;
      ScalarsParse(parts[1..], cps[1..], suffix);
      ScalarParses(parts[0], cps[0], rest);
      Assoc(parts[0], Concat(parts[1..]), close);
    }
  }

  lemma QuotedParses(s: string, out: string, suffix: string)
    requires ParseChars(s + ("\"" + suffix)) == Parsed(out, suffix)
    ensures ParseString("\"" + s + "\"" + suffix) == Parsed(out, suffix)
  {
    hide ParseChars;
    assert ("\"" + s + "\"" + suffix)[1..] == s + ("\"" + suffix);
  }

  // Every string of non-zero scalar values written as escapes is stored as their UTF-8.
  lemma EscapesBecomeUtf8(parts: seq<string>, cps: seq<nat>, suffix: string)
    requires |parts| == |cps|
    requires forall i | 0 <= i < |cps| :: IsScalar(cps[i]) && cps[i] != 0 && Spells(parts[i], cps[i])
    ensures ParseString("\"" + Concat(parts) + "\"" + suffix) == Parsed(EncodeAll(cps), suffix)
    ensures DecodeAll(EncodeAll(cps)) == Some(cps)
  {
    ScalarsParse(parts, cps, suffix);
    EncodingDecodes(cps);
    QuotedParses(Concat(parts), EncodeAll(cps), suffix);
  }

  // What the second pass writes never exceeds what the first pass counted.
  lemma {:induction false} BufferFits(s: string)
    ensures ParseChars(s).Parsed? ==> |ParseChars(s).value| <= CountChars(s)
    decreases |s|
  {
    if s == "" || s[0] == '\"' {
    } else if s[0] != '\\' {
      BufferFits(s[1..]);
    } else if ParseEscape(s[1..]).Parsed? {
      EscapeFits(s);
      BufferFits(ParseEscape(s[1..]).rest);
    }
  }

  lemma EscapeFits(s: string)
    requires s != "" && s[0] == '\\' && ParseEscape(s[1..]).Parsed?
    ensures var e := ParseEscape(s[1..]); CountChars(s) >= |e.value| + CountChars(e.rest)
  {
    var u := s[1..];
    assert s[2..] == u[1..];
    if u[0] == 'u' {
      hide CountChars, ParseUnicode;
      UnicodeFits(u);
      CountEscape(s);
    }
  }

  lemma CountEscape(s: string)
    requires |s| >= 2 && s[0] == '\\'
    ensures CountChars(s) == 1 + CountChars(s[2..])
  {}

  lemma UnicodeFits(u: string)
    requires u != "" && u[0] == 'u' && ParseUnicode(u).Parsed?
    ensures var e := ParseUnicode(u); 1 + CountChars(u[1..]) >= |e.value| + CountChars(e.rest)
  {
    hide CountChars, Hex4, FourInside;
    FourLong(u[1..]);
    CountFour(u[1..]);
    assert u[1..][4..] == u[5..];
    if |u| >= 7 && u[5] == '\\' && u[6] == 'u' && FourInside(u[7..]) {
      FourLong(u[7..]);
      CountEscape(u[5..]);
      assert u[5..][2..] == u[7..];
      CountFour(u[7..]);
      assert u[7..][4..] == u[11..];
    }
  }

  lemma FourLong(s: string)
    requires FourInside(s)
    ensures |s| >= 4
  {}

  lemma CountFour(s: string)
    requires FourInside(s)
    ensures CountChars(s) == 4 + CountChars(s[4..])
  {
    assert s[1..][1..] == s[2..] && s[2..][1..] == s[3..] && s[3..][1..] == s[4..];
    assert s[1..][0] == s[1] && s[2..][0] == s[2] && s[3..][0] == s[3];
    assert CountChars(s[3..]) == 1 + CountChars(s[4..]);
    assert CountChars(s[2..]) == 2 + CountChars(s[4..]);
    assert CountChars(s[1..]) == 3 + CountChars(s[4..]);
  }

  // The first pass never steps over the end of the text.
  predicate FirstPassStays(s: string) {
    if s == "" || s[0] == '\"' then true
    else if s[0] == '\\' then |s| >= 2 && FirstPassStays(s[2..])
    else FirstPassStays(s[1..])
  }

  lemma {:induction false} ParsedStays(s: string)
    requires !ParseChars(s).Overrun?
    ensures FirstPassStays(s)
    decreases |s|
  {
    if s == "" || s[0] == '\"' {
    } else if s[0] != '\\' {
      ParsedStays(s[1..]);
    } else {
      var u := s[1..];
      ParsedStays(ParseEscape(u).rest);
      assert s[2..] == u[1..];
      if u[0] == 'u' {
        assert u[1..][4..] == u[5..];
        if |u| >= 7 && u[5] == '\\' && u[6] == 'u' && FourInside(u[7..]) {
          assert u[5..][2..] == u[7..];
          assert u[7..][4..] == u[11..];
          if FirstPassStays(u[11..]) {
            FourStay(u[7..]);
          }
        }
        FourStay(u[1..]);
      }
    }
  }

  lemma FourStay(s: string)
    requires FourInside(s) && FirstPassStays(s[4..])
    ensures FirstPassStays(s)
  {
    assert s[1..][1..] == s[2..] && s[2..][1..] == s[3..] && s[3..][1..] == s[4..];
    assert s[1..][0] == s[1] && s[2..][0] == s[2] && s[3..][0] == s[3];
    assert FirstPassStays(s[3..]);
    assert FirstPassStays(s[2..]);
    assert FirstPassStays(s[1..]);
  }
}
