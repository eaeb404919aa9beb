/**
 Minifying keeps the meaning of every document, however it is laid out: what parses with nothing behind
 it parses to the same value afterwards.
 */
module JsonMeaning {
  import opened Options
  import opened Sequences
  import opened JsonSyntax
  import opened JsonRoundTrip
  import opened JsonMinify

  /// Numbers

  // A text that goes on with t does not go on with a number.
  predicate Neutral(t: string) {
    t == "" || (!IsDigit(t[0]) && t[0] !in {'.', 'e', 'E', '+', '-'})
  }

  predicate IsNumeral(c: char) {
    IsDigit(c) || c in {'.', 'e', 'E', '+', '-'}
  }

  // rest is what is left of s when only characters of numbers are taken off its front.
  predicate Takes(s: string, rest: string) {
    |rest| <= |s| && s[|s| - |rest|..] == rest && forall i | 0 <= i < |s| - |rest| :: IsNumeral(s[i])
  }

  lemma TakesNothing(s: string)
    ensures Takes(s, s)
  {}

  lemma TakesOne(s: string)
    requires s != "" && IsNumeral(s[0])
    ensures Takes(s, s[1..])
  {}

  lemma TakesMore(s: string, t: string, rest: string)
    requires Takes(s, t) && Takes(t, rest)
    ensures Takes(s, rest)
  {
    var k := |s| - |t|;
    assert forall i | k <= i < |s| - |rest| :: s[i] == s[k..][i - k] == t[i - k];
    assert s[|s| - |rest|..] == s[k..][|t| - |rest|..];
  }

  lemma {:induction false} DigitsTake(s: string, n: nat)
    ensures Takes(s, Digits(s, n).1)
  {
    if s != "" && IsDigit(s[0]) {
      DigitsTake(s[1..], n * 10 + DigitValue(s[0]));
      TakesOne(s);
      TakesMore(s, s[1..], Digits(s, n).1);
    }
  }

  lemma WholeTakes(s: string)
    ensures Takes(s, ParseWhole(s).1)
  {
    hide Digits;
    var t := if Peek(s) == '0' then s[1..] else s;
    DigitsTake(t, 0);
    TakesNothing(t);
    if Peek(s) == '0' {
      TakesOne(s);
      TakesMore(s, t, ParseWhole(s).1);
    }
  }

  lemma FractionTakes(s: string, n: nat)
    ensures Takes(s, ParseFraction(s, n).2)
  {
    hide Digits;
    TakesNothing(s);
    if Peek(s) == '.' && |s| > 1 && IsDigit(s[1]) {
      DigitsTake(s[1..], n);
      TakesOne(s);
      TakesMore(s, s[1..], Digits(s[1..], n).1);
    }
  }

  lemma ExponentTakes(s: string)
    ensures Takes(s, ParseExponent(s).1)
  {
    hide Digits;
    TakesNothing(s);
    if Peek(s) in {'e', 'E'} {
      var t := s[1..];
      TakesOne(s);
      if Peek(t) in {'+', '-'} {
        TakesOne(t);
        TakesMore(s, t, t[1..]);
        DigitsTake(t[1..], 0);
        TakesMore(s, t[1..], ParseExponent(s).1);
      } else {
        DigitsTake(t, 0);
        TakesMore(s, t, ParseExponent(s).1);
      }
    }
  }

  lemma NumberTakes(s: string)
    requires Peek(s) == '-' || IsDigit(Peek(s))
    ensures Takes(s, ParseNumber(s).rest)
  {
    hide Digits, ParseWhole, ParseFraction, ParseExponent, Takes;
    var t := if s[0] == '-' then s[1..] else s;
    assert Takes(s, t) by {
      TakesNothing(s);
      if s[0] == '-' {
        TakesOne(s);
      }
    }
    var (whole, s3) := ParseWhole(t);
    WholeTakes(t);
    TakesMore(s, t, s3);
    FractionTakes(s3, whole);
    var s4 := ParseFraction(s3, whole).2;
    TakesMore(s, s3, s4);
    ExponentTakes(s4);
    TakesMore(s, s4, ParseExponent(s4).1);
  }

  // What stands behind a number does not matter to it.
  lemma {:induction false} DigitsStop(a: string, r: string, n: nat)
    requires Neutral(r)
    ensures Digits(a + r, n) == (Digits(a, n).0, Digits(a, n).1 + r)
  {
    if a == "" {
      assert a + r == r;
    } else if IsDigit(a[0]) {
      assert (a + r)[1..] == a[1..] + r;
      DigitsStop(a[1..], r, n * 10 + DigitValue(a[0]));
    }
  }

  lemma WholeStop(a: string, r: string)
    requires Neutral(r)
    ensures ParseWhole(a + r) == (ParseWhole(a).0, ParseWhole(a).1 + r)
  {
    hide Digits;
    var t := if Peek(a) == '0' then a[1..] else a;
    assert (if Peek(a + r) == '0' then (a + r)[1..] else a + r) == t + r;
    DigitsStop(t, r, 0);
  }

  lemma FractionStop(a: string, r: string, n: nat)
    requires Neutral(r)
    ensures var (m, k, t) := ParseFraction(a, n);
            ParseFraction(a + r, n) == (m, k, t + r)
  {
    hide Digits;
    if a != "" && a[0] == '.' && |a| > 1 {
      assert (a + r)[1..] == a[1..] + r && (a + r)[1] == a[1];
      DigitsStop(a[1..], r, n);
    }
  }

  lemma ExponentStop(a: string, r: string)
    requires Neutral(r)
    ensures ParseExponent(a + r) == (ParseExponent(a).0, ParseExponent(a).1 + r)
  {
    hide Digits;
    if Peek(a) in {'e', 'E'} {
      var t := a[1..];
      assert (a + r)[1..] == t + r;
      if t == "" {
        assert t + r == r;
        DigitsStop(t, r, 0);
      } else if t[0] in {'+', '-'} {
        assert (t + r)[1..] == t[1..] + r;
        DigitsStop(t[1..], r, 0);
      } else {
        DigitsStop(t, r, 0);
      }
    }
  }

  lemma NumberStop(a: string, r: string)
    requires Neutral(r) && (Peek(a) == '-' || IsDigit(Peek(a)))
    ensures Peek(a + r) == Peek(a) && ParseNumber(a + r) == Parsed(ParseNumber(a).value, ParseNumber(a).rest + r)
  {
    hide Digits, ParseWhole, ParseFraction, ParseExponent;
    var t := if a[0] == '-' then a[1..] else a;
    assert (if (a + r)[0] == '-' then (a + r)[1..] else a + r) == t + r;
    var (whole, s3) := ParseWhole(t);
    WholeStop(t, r);
    FractionStop(s3, r, whole);
    ExponentStop(ParseFraction(s3, whole).2, r);
  }

  // The number at the front of s, and the same number in front of another text.
  lemma NumberMoves(s: string, r: string) returns (a: string)
    requires (Peek(s) == '-' || IsDigit(Peek(s))) && r == ParseNumber(s).rest && Neutral(r)
    ensures s == a + r && IsPlain(a) && a != "" && (a[0] == '-' || IsDigit(a[0]))
    ensures forall t :: Neutral(t) ==> ParseNumber(a + t) == Parsed(ParseNumber(s).value, t)
  {
    NumberTakes(s);
    a := s[..|s| - |r|];
    NumeralsPlain(s, r, a);
    hide ParseNumber, Neutral, Takes, IsPlain;
    NumberStop(a, r);
    NothingLeft(ParseNumber(a).rest, r);
    forall t | Neutral(t)
      ensures ParseNumber(a + t) == Parsed(ParseNumber(s).value, t)
    {
      NumberStop(a, t);
      assert "" + t == t;
    }
  }

  lemma NumeralsPlain(s: string, r: string, a: string)
    requires Takes(s, r) && |r| < |s| && a == s[..|s| - |r|]
    ensures s == a + r && a != "" && a[0] == s[0] && IsPlain(a)
  {
    assert forall i | 0 <= i < |a| :: a[i] == s[i];
  }

  lemma NothingLeft(a: string, r: string)
    requires a + r == r
    ensures a == ""
  {
    assert |a + r| == |a| + |r|;
  }

  /// Literals

  lemma CopyPair(s: string)
    requires s != "" && s[0] == '\\' && CopyLiteral(s).Some?
    ensures |s| >= 2 && CopyLiteral(s[2..]).Some?
    ensures CopyLiteral(s).value == (s[..2] + CopyLiteral(s[2..]).value.0, CopyLiteral(s[2..]).value.1)
  {}

  lemma CopyOne(s: string)
    requires s != "" && s[0] != '\\' && s[0] != '\"' && CopyLiteral(s).Some?
    ensures CopyLiteral(s[1..]).Some?
    ensures CopyLiteral(s).value == (s[..1] + CopyLiteral(s[1..]).value.0, CopyLiteral(s[1..]).value.1)
  {}

  lemma CopyTwo(s: string)
    requires |s| >= 2 && (forall i | 0 <= i < 2 :: s[i] != '\"' && s[i] != '\\') && CopyLiteral(s).Some?
    ensures CopyLiteral(s[2..]).Some?
    ensures CopyLiteral(s).value == (s[..2] + CopyLiteral(s[2..]).value.0, CopyLiteral(s[2..]).value.1)
  {
    hide CopyLiteral;
    CopyOne(s);
    CopyOne(s[1..]);
    assert s[1..][1..] == s[2..] && s[..2] == s[..1] + s[1..][..1];
    Assoc(s[..1], s[1..][..1], CopyLiteral(s[2..]).value.0);
  }

  lemma FourApart(s: string)
    requires |s| >= 4
    ensures s[2..][2..] == s[4..] && s[..4] == s[..2] + s[2..][..2] && s[2..][0] == s[2] && s[2..][1] == s[3]
  {}

  lemma CopyFour(s: string)
    requires FourInside(s) && CopyLiteral(s).Some?
    ensures |s| >= 4 && CopyLiteral(s[4..]).Some?
    ensures CopyLiteral(s).value == (s[..4] + CopyLiteral(s[4..]).value.0, CopyLiteral(s[4..]).value.1)
  {
    hide CopyLiteral;
    FourApart(s);
    CopyTwo(s);
    CopyTwo(s[2..]);
    Assoc(s[..2], s[2..][..2], CopyLiteral(s[4..]).value.0);
  }

  // Two texts that begin alike as far as a look behind an escape can see.
  predicate Alike(r: string, r': string) {
    && r != "" && r' != "" && r[0] == r'[0]
    && (r[0] == '\\' ==> |r| > 1 && |r'| > 1 && r[1] == r'[1])
  }

  lemma FourAlike(s: string, s': string)
    requires |s| >= 4 && |s'| >= 4 && s[..4] == s'[..4]
    ensures (FourInside(s) <==> FourInside(s')) && Hex4(s) == Hex4(s')
  {
    assert forall i | 0 <= i < 4 :: s[i] == s[..4][i] == s'[..4][i] == s'[i];
  }

  // An escape means the same wherever its characters stand.
  lemma EscapeStands(u: string, r: string, r': string) returns (k: nat)
    requires ParseEscape(u).Parsed? && ParseEscape(u).rest == r && Alike(r, r')
    ensures k <= |u| && u[k..] == r && (u != "" && u[0] == 'u' ==> k == 5 || k == 11) && (u != "" && u[0] != 'u' ==> k == 1)
    ensures ParseEscape(u[..k] + r') == Parsed(ParseEscape(u).value, r')
  {
    if u[0] != 'u' {
      k := 1;
      assert (u[..1] + r')[1..] == r';
    } else {
      k := UnicodeStands(u, r, r');
      assert (u[..k] + r')[0] == 'u';
    }
  }

  lemma UnicodeStands(u: string, r: string, r': string) returns (k: nat)
    requires u != "" && u[0] == 'u' && ParseUnicode(u).Parsed? && ParseUnicode(u).rest == r && Alike(r, r')
    ensures k <= |u| && u[k..] == r && (k == 5 || (k == 11 && u[5] == '\\' && u[6] == 'u' && FourInside(u[7..])))
    ensures FourInside(u[1..]) && ParseUnicode(u[..k] + r') == Parsed(ParseUnicode(u).value, r')
  {
    var uc := Hex4(u[1..]);
    if IsHighSurrogate(uc) && |u| >= 7 && u[5] == '\\' && u[6] == 'u' {
      k := 11;
      PairStands(u, r');
    } else {
      k := 5;
      var s := u[..5] + r';
      assert s[1..][..4] == u[1..][..4];
      FourAlike(u[1..], s[1..]);
      hide Hex4, FourInside;
      assert s[5..] == r' && s[0] == 'u';
      assert |u| >= 6 && u[5] == r[0];
      if |u| >= 7 && |s| >= 7 && u[5] == '\\' {
        assert u[6] == r[1] == r'[1] == s[6];
      }
    }
  }

  lemma PairStands(u: string, r': string)
    requires |u| >= 7 && u[0] == 'u' && ParseUnicode(u).Parsed?
    requires IsHighSurrogate(Hex4(u[1..])) && u[5] == '\\' && u[6] == 'u'
    ensures |u| >= 11 && ParseUnicode(u).rest == u[11..] && FourInside(u[1..]) && FourInside(u[7..])
    ensures ParseUnicode(u[..11] + r') == Parsed(ParseUnicode(u).value, r')
  {
    assert FourInside(u[1..]) && FourInside(u[7..]);
    var s := u[..11] + r';
    assert s[1..][..4] == u[1..][..4] && s[7..][..4] == u[7..][..4];
    FourAlike(u[1..], s[1..]);
    FourAlike(u[7..], s[7..]);
    hide Hex4, FourInside;
    assert s[0] == 'u' && s[5] == '\\' && s[6] == 'u' && s[11..] == r';
  }

  // The copy takes the characters of an escape together.
  lemma CopyEscape(s: string, k: nat)
    requires |s| >= 2 && s[0] == '\\' && CopyLiteral(s).Some? && k <= |s| - 1
    requires s[1] != 'u' ==> k == 1
    requires s[1] == 'u' ==>
               && FourInside(s[1..][1..])
               && (k == 5 || (k == 11 && |s| > 7 && s[6] == '\\' && s[7] == 'u' && FourInside(s[1..][7..])))
    ensures CopyLiteral(s[k + 1..]).Some?
    ensures CopyLiteral(s).value == (s[..k + 1] + CopyLiteral(s[k + 1..]).value.0, CopyLiteral(s[k + 1..]).value.1)
  {
    hide CopyLiteral, FourInside;
    CopyPair(s);
    if s[1] == 'u' {
      assert s[1..][1..] == s[2..];
      CopyFour(s[2..]);
      assert s[2..][4..] == s[6..] && s[2..][..4] == s[2..6];
      assert s[..6] == s[..2] + s[2..6];
      Assoc(s[..2], s[2..6], CopyLiteral(s[6..]).value.0);
      if k == 11 {
        CopyPair(s[6..]);
        assert s[6..][2..] == s[8..] && s[6..][..2] == s[6..8] && s[1..][7..] == s[8..];
        CopyFour(s[8..]);
        assert s[8..][4..] == s[12..] && s[8..][..4] == s[8..12];
        assert s[..12] == s[..6] + s[6..8] + s[8..12];
        TwiceGrouped(s[..6], s[6..8], s[8..12], CopyLiteral(s[12..]).value.0);
      }
    }
  }

  lemma TwiceGrouped(a: string, b: string, c: string, d: string)
    ensures a + (b + (c + d)) == a + b + c + d
  {}

  // A literal that is read to its closing quote is copied to the same place, and reads the same
  // wherever it stands.
  lemma {:induction false} LiteralMoves(s: string, t: string)
    requires ParseChars(s).Parsed? && CopyLiteral(s).Some?
    ensures ParseChars(s).rest == CopyLiteral(s).value.1
    ensures ParseChars(CopyLiteral(s).value.0 + t) == Parsed(ParseChars(s).value, t)
    ensures Alike(s, CopyLiteral(s).value.0 + t)
    decreases |s|
  {
    if s[0] == '\"' {
      assert ("\"" + t)[1..] == t;
    } else if s[0] != '\\' {
      LiteralMoves(s[1..], t);
      hide ParseChars, CopyLiteral;
      CopyOne(s);
      PlainCharReads(s);
      var lit := CopyLiteral(s[1..]).value.0;
      FirstAhead(s[..1], lit, t);
      PlainCharReads(s[..1] + lit + t);
    } else {
      BackslashReads(s);
      var r := ParseEscape(s[1..]).rest;
      EscapeMoves(s, r, t);
    }
  }

  lemma PlainCharReads(s: string)
    requires s != "" && s[0] != '\"' && s[0] != '\\' && (ParseChars(s).Parsed? || ParseChars(s[1..]).Parsed?)
    ensures ParseChars(s[1..]).Parsed?
    ensures ParseChars(s) == Parsed([s[0]] + ParseChars(s[1..]).value, ParseChars(s[1..]).rest)
  {}

  lemma BackslashReads(s: string)
    requires s != "" && s[0] == '\\'
    requires ParseChars(s).Parsed? || (ParseEscape(s[1..]).Parsed? && ParseChars(ParseEscape(s[1..]).rest).Parsed?)
    ensures var e := ParseEscape(s[1..]);
            && e.Parsed? && |e.rest| < |s| && ParseChars(e.rest).Parsed?
            && ParseChars(s) == Parsed(e.value + ParseChars(e.rest).value, ParseChars(e.rest).rest)
  {}

  lemma FirstAhead(a: string, b: string, t: string)
    requires a != ""
    ensures a + b + t == a + (b + t) && (a + b + t)[0] == a[0] && (|a| == 1 ==> (a + b + t)[1..] == b + t)
  {}

  lemma {:induction false} EscapeMoves(s: string, r: string, t: string)
    requires s != "" && s[0] == '\\' && ParseChars(s).Parsed? && CopyLiteral(s).Some?
    requires ParseEscape(s[1..]).Parsed? && r == ParseEscape(s[1..]).rest && |r| < |s| && ParseChars(r).Parsed?
    ensures ParseChars(s).rest == CopyLiteral(s).value.1
    ensures ParseChars(CopyLiteral(s).value.0 + t) == Parsed(ParseChars(s).value, t)
    ensures Alike(s, CopyLiteral(s).value.0 + t)
    decreases |s|, 0
  {
    hide ParseChars, CopyLiteral, ParseEscape, FourInside;
    var u := s[1..];
    var k := EscapeSize(u, r);
    CopyEscape(s, k);
    assert s[k + 1..] == u[k..] == r;
    LiteralMoves(r, t);
    var lit, ahead := CopyLiteral(r).value.0, CopyLiteral(r).value.0 + t;
    var k' := EscapeStands(u, r, ahead);
    assert k' == k;
    Assoc(s[..k + 1], lit, t);
    Behind(s, k, ahead);
    BackslashReads(s);
    BackslashReads(s[..k + 1] + ahead);
  }

  lemma Behind(s: string, k: nat, t: string)
    requires 1 <= k < |s|
    ensures var m := s[..k + 1] + t;
            m[0] == s[0] && m[1] == s[1] && m[1..] == s[1..][..k] + t
  {}

  lemma EscapeSize(u: string, r: string) returns (k: nat)
    requires ParseEscape(u).Parsed? && ParseEscape(u).rest == r
    ensures u != "" && 1 <= k <= |u| && u[k..] == r && (u[0] != 'u' ==> k == 1)
    ensures u[0] == 'u' ==>
              FourInside(u[1..]) && (k == 5 || (k == 11 && |u| > 6 && u[5] == '\\' && u[6] == 'u' && FourInside(u[7..])))
  {
    k := |u| - |r|;
    hide Hex4;
  }

  /// Values

  // White space that is skipped in front of a text is skipped in front of its minified form.
  lemma {:induction false} SkipsAlike(s: string)
    requires Minify(s).Some? && (Skip(s) == "" || Skip(s)[0] != '/')
    ensures Minify(Skip(s)).Some? && Skip(Minify(s).value) == Minify(Skip(s)).value
    ensures Skip(s) != "" ==> Minify(Skip(s)).value != "" && Minify(Skip(s)).value[0] == Skip(s)[0]
    decreases |s|
  {
    if s != "" && s[0] <= ' ' {
      SkipsAlike(s[1..]);
      if !IsBlank(s[0]) {
        Punctuation(s);
        assert Minify(s).value[1..] == Minify(s[1..]).value;
      }
    } else if s != "" && s[0] == '\"' {
      FirstKept(s);
    } else if s != "" {
      Punctuation(s);
    }
  }

  lemma FirstKept(s: string)
    requires s != "" && s[0] == '\"' && Minify(s).Some?
    ensures CopyLiteral(s[1..]).Some? && Minify(CopyLiteral(s[1..]).value.1).Some?
    ensures Minify(s).value == "\"" + CopyLiteral(s[1..]).value.0 + Minify(CopyLiteral(s[1..]).value.1).value
    ensures Minify(s).value != "" && Minify(s).value[0] == '\"'
  {}

  // A plain character is kept.
  lemma Punctuation(s: string)
    requires s != "" && IsPlain(s[..1]) && Minify(s).Some?
    ensures Minify(s[1..]).Some? && Minify(s).value == s[..1] + Minify(s[1..]).value
    ensures Minify(s).value[0] == s[0] && Minify(s).value[1..] == Minify(s[1..]).value
  {
    Front(s, s[..1], s[1..]);
  }

  lemma Front(s: string, a: string, r: string)
    requires s == a + r && IsPlain(a) && Minify(s).Some?
    ensures Minify(r).Some? && Minify(s).value == a + Minify(r).value
  {
    hide Minify;
    PlainIsCopied(a);
  }

  lemma ValueOpens(s: string)
    requires ParseValue(s).Parsed?
    ensures s != "" && s[0] > ' ' && s[0] !in {'/', ',', ']', '}'} && Skip(s) == s
  {
    SkipSolid(s);
  }

  lemma HaltsNeutral(r: string)
    requires Halts(r)
    ensures Neutral(r) && (Minify(r).Some? ==> Neutral(Minify(r).value))
  {
    if Minify(r).Some? {
      SkipsAlike(r);
    }
  }

  // A value in front of what cannot be another one means the same when everything is minified.
  lemma {:induction false} ValueMeans(s: string)
    requires ParseValue(s).Parsed? && Minify(s).Some? && Halts(ParseValue(s).rest)
    ensures var r := ParseValue(s);
            Minify(r.rest).Some? && ParseValue(Minify(s).value) == Parsed(r.value, Minify(r.rest).value)
    decreases |s|, 2
  {
    hide Minify, ParseArray, ParseObject, ParseNumber, ParseString, Halts;
    if "null" <= s {
      WordMeans(s, "null");
      LiteralNull(Minify(s[4..]).value);
    } else if "false" <= s {
      WordMeans(s, "false");
      LiteralFalse(Minify(s[5..]).value);
    } else if "true" <= s {
      WordMeans(s, "true");
      LiteralTrue(Minify(s[4..]).value);
    } else if s[0] == '\"' {
      StringMeans(s);
      NotALiteral(Minify(s).value);
    } else if s[0] == '-' || IsDigit(s[0]) {
      NumberMeans(s);
      NotALiteral(Minify(s).value);
    } else if s[0] == '[' {
      ArrayMeans(s);
      NotALiteral(Minify(s).value);
    } else {
      ObjectMeans(s);
      NotALiteral(Minify(s).value);
    }
  }

  lemma WordMeans(s: string, w: string)
    requires w <= s && IsPlain(w) && Minify(s).Some?
    ensures Minify(s[|w|..]).Some? && Minify(s).value == w + Minify(s[|w|..]).value
  {
    assert s == w + s[|w|..];
    Front(s, w, s[|w|..]);
  }

  lemma StringMeans(s: string)
    requires s != "" && s[0] == '\"' && ParseString(s).Parsed? && Minify(s).Some?
    ensures var r := ParseString(s);
            && Minify(r.rest).Some? && Minify(s).value != "" && Minify(s).value[0] == '\"'
            && ParseString(Minify(s).value) == Parsed(r.value, Minify(r.rest).value)
  {
    FirstKept(s);
    hide Minify, CopyLiteral, ParseChars;
    var (lit, r) := CopyLiteral(s[1..]).value;
    LiteralMoves(s[1..], Minify(r).value);
    hide Alike;
    QuoteFront(lit, Minify(r).value);
  }

  lemma QuoteFront(lit: string, t: string)
    ensures ("\"" + lit + t)[0] == '\"' && ("\"" + lit + t)[1..] == lit + t
  {}

  lemma NumberMeans(s: string)
    requires s != "" && (s[0] == '-' || IsDigit(s[0])) && Minify(s).Some? && Halts(ParseNumber(s).rest)
    ensures var r := ParseNumber(s);
            && Minify(r.rest).Some? && Minify(s).value != "" && Minify(s).value[0] == s[0]
            && ParseNumber(Minify(s).value) == Parsed(r.value, Minify(r.rest).value)
  {
    hide Minify, ParseNumber, Halts, Neutral, IsPlain;
    var r := ParseNumber(s).rest;
    HaltsNeutral(r);
    var a := NumberMoves(s, r);
    Front(s, a, r);
    assert (a + Minify(r).value)[0] == a[0] == (a + r)[0];
    HaltsNeutral(r);
  }

  lemma {:induction false} ArrayMeans(s: string)
    requires s != "" && s[0] == '[' && ParseArray(s).Parsed? && Minify(s).Some?
    ensures var r := ParseArray(s); var m := Minify(s).value;
            && Minify(r.rest).Some? && m != "" && m[0] == '['
            && ParseArray(m) == Parsed(r.value, Minify(r.rest).value)
    decreases |s|, 1
  {
    hide Minify, ParseValue, ParseItems, Skip;
    Punctuation(s);
    var v := Skip(s[1..]);
    SkipTwice(s[1..]);
    SkipTwice(Minify(s[1..]).value);
    if Peek(v) == ']' {
      SkipsAlike(s[1..]);
      Punctuation(v);
    } else {
      ItemMeans(s[1..]);
    }
  }

  // The first of further elements, or the end of the array.
  lemma {:induction false} ItemsMean(s: string)
    requires ParseItems(s).Parsed? && Minify(s).Some?
    ensures var r := ParseItems(s);
            Minify(r.rest).Some? && ParseItems(Minify(s).value) == Parsed(r.value, Minify(r.rest).value)
    decreases |s|, 1
  {
    hide Minify, ParseValue, Skip;
    Punctuation(s);
    if Peek(s) == ',' {
      hide ParseItems;
      MoreItems(s);
      ItemMeans(s[1..]);
      MoreItems(Minify(s).value);
    }
  }

  lemma MoreItems(s: string)
    requires s != "" && s[0] == ','
    ensures var v := ParseValue(Skip(s[1..]));
            var i := if v.Parsed? then ParseItems(Skip(v.rest)) else Failed("");
            && (ParseItems(s).Parsed? <==> v.Parsed? && i.Parsed?)
            && (v.Parsed? && i.Parsed? ==> ParseItems(s) == Parsed([v.value] + i.value, i.rest))
  {}

  lemma ItemsHalt(s: string)
    requires ParseItems(Skip(s)).Parsed?
    ensures Halts(s)
  {}

  // One element and the rest of the array, from white space on.
  lemma {:induction false} ItemMeans(s: string)
    requires ParseValue(Skip(s)).Parsed? && ParseItems(Skip(ParseValue(Skip(s)).rest)).Parsed? && Minify(s).Some?
    ensures var v := ParseValue(Skip(s)); var i := ParseItems(Skip(v.rest));
            var v' := ParseValue(Skip(Minify(s).value));
            && v'.Parsed? && v'.value == v.value
            && Minify(i.rest).Some? && ParseItems(Skip(v'.rest)) == Parsed(i.value, Minify(i.rest).value)
            && Skip(s) != "" && Skip(Minify(s).value) != "" && Skip(Minify(s).value)[0] == Skip(s)[0]
    decreases |s|, 3
  {
    hide Minify, ParseValue, ParseItems, Skip, Halts;
    var y := Skip(s);
    var r := ParseValue(y).rest;
    ValueOpens(y);
    SkipsAlike(s);
    ItemsHalt(r);
    ValueMeans(y);
    ItemsOpen(Skip(r));
    SkipsAlike(r);
    ItemsMean(Skip(r));
  }

  lemma ItemsOpen(s: string)
    requires ParseItems(s).Parsed?
    ensures s != "" && s[0] in {',', ']'}
  {}

  lemma {:induction false} ObjectMeans(s: string)
    requires s != "" && s[0] == '{' && ParseObject(s).Parsed? && Minify(s).Some?
    ensures var r := ParseObject(s); var m := Minify(s).value;
            && Minify(r.rest).Some? && m != "" && m[0] == '{'
            && ParseObject(m) == Parsed(r.value, Minify(r.rest).value)
    decreases |s|, 1
  {
    hide Minify, ParseMember, ParseMembers, Skip;
    Punctuation(s);
    var v := Skip(s[1..]);
    SkipTwice(s[1..]);
    SkipTwice(Minify(s[1..]).value);
    if Peek(v) == '}' {
      SkipsAlike(s[1..]);
      Punctuation(v);
    } else {
      EntryMeans(s[1..]);
    }
  }

  // The first of further members, or the end of the object.
  lemma {:induction false} MembersMean(s: string)
    requires ParseMembers(s).Parsed? && Minify(s).Some?
    ensures var r := ParseMembers(s);
            Minify(r.rest).Some? && ParseMembers(Minify(s).value) == Parsed(r.value, Minify(r.rest).value)
    decreases |s|, 1
  {
    hide Minify, ParseMember, Skip;
    Punctuation(s);
    if Peek(s) == ',' {
      hide ParseMembers;
      MoreMembers(s);
      EntryMeans(s[1..]);
      MoreMembers(Minify(s).value);
    }
  }

  lemma MoreMembers(s: string)
    requires s != "" && s[0] == ','
    ensures var v := ParseMember(Skip(s[1..]));
            var i := if v.Parsed? then ParseMembers(Skip(v.rest)) else Failed("");
            && (ParseMembers(s).Parsed? <==> v.Parsed? && i.Parsed?)
            && (v.Parsed? && i.Parsed? ==> ParseMembers(s) == Parsed([v.value] + i.value, i.rest))
  {}

  lemma MembersHalt(s: string)
    requires ParseMembers(Skip(s)).Parsed?
    ensures Halts(s)
  {}

  lemma MembersOpen(s: string)
    requires ParseMembers(s).Parsed?
    ensures s != "" && s[0] in {',', '}'}
  {}

  // One member and the rest of the object, from white space on.
  lemma {:induction false} EntryMeans(s: string)
    requires ParseMember(Skip(s)).Parsed? && ParseMembers(Skip(ParseMember(Skip(s)).rest)).Parsed? && Minify(s).Some?
    ensures var v := ParseMember(Skip(s)); var i := ParseMembers(Skip(v.rest));
            var v' := ParseMember(Skip(Minify(s).value));
            && v'.Parsed? && v'.value == v.value
            && Minify(i.rest).Some? && ParseMembers(Skip(v'.rest)) == Parsed(i.value, Minify(i.rest).value)
            && Skip(s) != "" && Skip(Minify(s).value) != "" && Skip(Minify(s).value)[0] == Skip(s)[0]
    decreases |s|, 4
  {
    hide Minify, ParseMember, ParseMembers, Skip, Halts;
    var y := Skip(s);
    var r := ParseMember(y).rest;
    MemberQuoted(y);
    SkipsAlike(s);
    MembersHalt(r);
    MemberMeans(y);
    MembersOpen(Skip(r));
    SkipsAlike(r);
    MembersMean(Skip(r));
  }

  lemma MemberQuoted(s: string)
    requires ParseMember(s).Parsed?
    ensures s != "" && s[0] == '\"'
  {}

  // The parts of a member.
  lemma MemberParts(s: string)
    requires ParseMember(s).Parsed? || (ParseString(s).Parsed? && Peek(Skip(ParseString(s).rest)) == ':'
                                        && ParseValue(Skip(Skip(ParseString(s).rest)[1..])).Parsed?)
    ensures ParseString(s).Parsed? && Peek(Skip(ParseString(s).rest)) == ':' && Skip(ParseString(s).rest) != ""
    ensures var n := ParseString(s); var v := ParseValue(Skip(Skip(n.rest)[1..]));
            v.Parsed? && ParseMember(s) == Parsed(Member(Some(n.value), v.value), v.rest)
  {
    hide ParseString, ParseValue, Skip;
  }

  lemma {:induction false} MemberMeans(s: string)
    requires ParseMember(s).Parsed? && Minify(s).Some? && Halts(ParseMember(s).rest)
    ensures var r := ParseMember(s);
            Minify(r.rest).Some? && ParseMember(Minify(s).value) == Parsed(r.value, Minify(r.rest).value)
    decreases |s|, 3
  {
    hide Minify, ParseMember, ParseValue, ParseString, Skip, Halts;
    MemberQuoted(s);
    MemberParts(s);
    StringMeans(s);
    var n := ParseString(s);
    var colon := Skip(n.rest);
    SkipsAlike(n.rest);
    Punctuation(colon);
    var y := Skip(colon[1..]);
    ValueOpens(y);
    SkipsAlike(colon[1..]);
    ValueMeans(y);
    MemberParts(Minify(s).value);
  }

  // Minifying a document that parses, with nothing but white space behind it, leaves its value.
  lemma MinifyKeepsMeaning(s: string)
    requires ParseDocument(s, true).Parsed? && Minify(s).Some?
    ensures ParseDocument(Minify(s).value, true) == ParseDocument(s, true)
  {
    hide Minify, ParseValue, Skip, Halts;
    var y := Skip(s);
    var r := ParseValue(y).rest;
    ValueOpens(y);
    SkipsAlike(s);
    assert Skip(r) == "";
    EmptyHalts(r);
    ValueMeans(y);
    SkipsAlike(r);
    NothingMinified();
  }

  lemma EmptyHalts(r: string)
    requires Skip(r) == ""
    ensures Halts(r)
  {}

  lemma NothingMinified()
    ensures Minify("") == Some("")
  {}
}
