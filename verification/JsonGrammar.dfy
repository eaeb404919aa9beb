/**
 The language that the parser takes, as a grammar of its own: what each text stands for, and that the
 parser takes the texts of the grammar and no others.
 */
module JsonGrammar {
  import opened Options
  import opened Sequences
  import opened JsonSyntax
  import opened JsonRoundTrip
  import opened JsonUnicode
  import opened JsonNumbers
  import opened JsonEscapes
  import opened JsonLayout

  // A piece of a string literal: a character, a backslash with a character that is no u, and a \u with
  // any four characters that belong to the literal.
  datatype Piece = Plain(c: char) | Slashed(c: char) | Unit(four: string)

  // A literal without closing quote can only end with the text.
  datatype Literal = Literal(pieces: seq<Piece>, closed: bool)

  // Elements and members come with the white space around them; gap is what empty brackets enclose.
  datatype Text =
    | Word(w: string)
    | Numeral(minus: bool, whole: string, fraction: Option<string>, power: Option<Power>)
    | Quoted(literal: Literal)
    | List(gap: string, items: seq<Item>)
    | Record(gap: string, entries: seq<Entry>)

  datatype Item = Item(before: string, text: Text, after: string)
  datatype Entry = Entry(before: string, name: Literal, colon: string, item: Item)

  /// The text itself, in front of t

  function Write(d: Text, t: string): string
    decreases d, 0
  {
    match d
    case Word(w) => w + t
    case Numeral(minus, whole, f, p) => (if minus then "-" else "") + (whole + (FractionText(f) + (PowerText(p) + t)))
    case Quoted(l) => WriteLiteral(l, t)
    case List(gap, items) => "[" + if items == [] then gap + ("]" + t) else WriteItems(items, t)
    case Record(gap, entries) => "{" + if entries == [] then gap + ("}" + t) else WriteEntries(entries, t)
  }

  function WriteLiteral(l: Literal, t: string): string {
    "\"" + WritePieces(l.pieces, Close(l.closed, t))
  }

  // The text behind the last piece.
  function Close(closed: bool, t: string): string {
    if closed then "\"" + t else t
  }

  function WritePieces(ps: seq<Piece>, t: string): string {
    if ps == [] then t
    else
      match ps[0]
      case Plain(c) => [c] + WritePieces(ps[1..], t)
      case Slashed(c) => ['\\', c] + WritePieces(ps[1..], t)
      case Unit(four) => "\\u" + (four + WritePieces(ps[1..], t))
  }

  function WriteItem(i: Item, t: string): string
    decreases i, 0
  {
    i.before + Write(i.text, i.after + t)
  }

  function WriteItems(items: seq<Item>, t: string): string
    requires items != []
    decreases items, 1
  {
    WriteItem(items[0], MoreItems(items[1..], t))
  }

  function MoreItems(items: seq<Item>, t: string): string
    decreases items, 2
  {
    if items == [] then "]" + t else "," + WriteItems(items, t)
  }

  function WriteEntry(e: Entry, t: string): string
    decreases e, 0
  {
    e.before + WriteLiteral(e.name, e.colon + (":" + WriteItem(e.item, t)))
  }

  function WriteEntries(entries: seq<Entry>, t: string): string
    requires entries != []
    decreases entries, 1
  {
    WriteEntry(entries[0], MoreEntries(entries[1..], t))
  }

  function MoreEntries(entries: seq<Entry>, t: string): string
    decreases entries, 2
  {
    if entries == [] then "}" + t else "," + WriteEntries(entries, t)
  }

  /// What belongs to the grammar

  predicate Begins(t: string, cs: set<char>) {
    t != "" && t[0] in cs
  }

  predicate BeginsDigit(t: string) {
    t != "" && IsDigit(t[0])
  }

  // Digits, of which only a single zero may be in front of the others.
  predicate IsWhole(w: string) {
    AreDigits(w) && (|w| > 1 && w[0] == '0' ==> w[1] != '0')
  }

  // The exponent may do without digits.
  predicate IsLaxPower(p: Option<Power>) {
    p.Some? ==> p.value.e in {'e', 'E'} && p.value.sign in {"", "+", "-"} && AreDigits(p.value.digits)
  }

  // A number is as long as it can be.
  predicate WholeEnds(w: string, t: string) {
    BeginsDigit(t) ==> w == "0" && t[0] == '0'
  }

  predicate FractionEnds(f: Option<string>, t: string) {
    if f.Some? then !BeginsDigit(t) else Begins(t, {'.'}) ==> !BeginsDigit(t[1..])
  }

  predicate PowerEnds(p: Option<Power>, t: string) {
    match p
    case None => !Begins(t, {'e', 'E'})
    case Some(q) => !BeginsDigit(t) && (q.sign == "" && q.digits == "" ==> !Begins(t, {'+', '-'}))
  }

  predicate FitsNumeral(minus: bool, w: string, f: Option<string>, p: Option<Power>, t: string) {
    && IsWhole(w) && IsFraction(f) && IsLaxPower(p) && (minus || w != "")
    && WholeEnds(w, FractionText(f) + (PowerText(p) + t)) && FractionEnds(f, PowerText(p) + t) && PowerEnds(p, t)
  }

  predicate IsPiece(p: Piece) {
    match p
    case Plain(c) => c != '\"' && c != '\\'
    case Slashed(c) => c != 'u'
    case Unit(four) => |four| == 4 && '\"' !in four && '\\' !in four
  }

  predicate FitsLiteral(l: Literal, t: string) {
    (forall i | 0 <= i < |l.pieces| :: IsPiece(l.pieces[i])) && (l.closed || t == "")
  }

  // d is a text of the grammar and ends where t begins.
  predicate Fits(d: Text, t: string)
    decreases d, 0
  {
    match d
    case Word(w) => w in {"null", "false", "true"}
    case Numeral(minus, whole, f, p) => FitsNumeral(minus, whole, f, p, t)
    case Quoted(l) => FitsLiteral(l, t)
    case List(gap, items) => if items == [] then White(gap) else FitItems(items, t)
    case Record(gap, entries) => if entries == [] then White(gap) else FitEntries(entries, t)
  }

  predicate FitsItem(i: Item, t: string)
    decreases i, 0
  {
    White(i.before) && White(i.after) && Fits(i.text, i.after + t)
  }

  predicate FitItems(items: seq<Item>, t: string)
    decreases items, 1
  {
    items != [] ==> FitsItem(items[0], MoreItems(items[1..], t)) && FitItems(items[1..], t)
  }

  predicate FitsEntry(e: Entry, t: string)
    decreases e, 0
  {
    && White(e.before) && White(e.colon) && FitsLiteral(e.name, e.colon + (":" + WriteItem(e.item, t)))
    && FitsItem(e.item, t)
  }

  predicate FitEntries(entries: seq<Entry>, t: string)
    decreases entries, 1
  {
    entries != [] ==> FitsEntry(entries[0], MoreEntries(entries[1..], t)) && FitEntries(entries[1..], t)
  }

  /// What a text stands for

  ghost function Meaning(d: Text): Json
    decreases d, 0
  {
    match d
    case Word(w) => if w == "null" then Null else if w == "false" then False else True
    case Numeral(minus, whole, f, p) =>
      var n := Positional(whole + Places(f));
      Number(if minus then 0 - n else n, PowerValue(p) - |Places(f)|)
    case Quoted(l) => String(Some(Characters(l.pieces)))
    case List(_, items) => Array(ItemMeanings(items))
    case Record(_, entries) => Object(EntryMeanings(entries))
  }

  function Places(f: Option<string>): string {
    if f.Some? then f.value else ""
  }

  ghost function ItemMeanings(items: seq<Item>): seq<Json>
    decreases items, 0
  {
    if items == [] then [] else [ItemMeaning(items[0])] + ItemMeanings(items[1..])
  }

  ghost function ItemMeaning(i: Item): Json
    decreases i, 0
  {
    Meaning(i.text)
  }

  ghost function EntryMeanings(entries: seq<Entry>): seq<Member>
    decreases entries, 0
  {
    if entries == [] then [] else [EntryMeaning(entries[0])] + EntryMeanings(entries[1..])
  }

  ghost function EntryMeaning(e: Entry): Member
    decreases e, 0
  {
    Member(Some(Characters(e.name.pieces)), ItemMeaning(e.item))
  }

  // A character behind a backslash stands for itself, but for those of the short escapes.
  ghost function Unslash(c: char): char {
    if exists i :: 0 <= i < |SHORT| && SHORT[i] == c then
      var i :| 0 <= i < |SHORT| && SHORT[i] == c;
      assert |PLAIN| == |SHORT|;
      PLAIN[i]
    else c
  }

  // The unit that four characters spell, or 0.
  ghost function UnitOf(four: string): (u: nat)
    ensures u < 0x1_0000
  {
    if exists u: nat :: SpellsUnit("\\u" + four, u) then var u: nat :| SpellsUnit("\\u" + four, u); u else 0
  }

  // Two units are one character if they are a pair. A unit that stands for no character vanishes, and one
  // that opens a pair takes the unit behind it along.
  ghost function Characters(ps: seq<Piece>): string {
    if ps == [] then ""
    else
      match ps[0]
      case Plain(c) => [c] + Characters(ps[1..])
      case Slashed(c) => [Unslash(c)] + Characters(ps[1..])
      case Unit(four) =>
        var u := UnitOf(four);
        if IsHighSurrogate(u) && |ps| > 1 && ps[1].Unit? then Paired(u, UnitOf(ps[1].four)) + Characters(ps[2..])
        else Lone(u) + Characters(ps[1..])
  }

  // What a unit that opens no pair stands for.
  function Lone(u: nat): string
    requires u < 0x1_0000
  {
    if u != 0 && IsScalar(u) then Utf8(u) else ""
  }

  function Paired(high: nat, low: nat): string
    requires IsHighSurrogate(high)
  {
    if IsLowSurrogate(low) then Utf8(0x1_0000 + (high - 0xD800) * 0x400 + (low - 0xDC00)) else ""
  }

  /// Numbers

  lemma {:induction false} SplitDigits(s: string) returns (f: string, t: string)
    ensures s == f + t && AreDigits(f) && !BeginsDigit(t) && (BeginsDigit(s) ==> f != "" && f[0] == s[0])
  {
    if BeginsDigit(s) {
      DigitIs(s[0]);
      f, t := SplitDigits(s[1..]);
      Assoc([s[0]], f, t);
      Cons(s);
      f := [s[0]] + f;
    } else {
      f, t := "", s;
    }
  }

  lemma SplitWhole(s: string) returns (w: string, t: string)
    ensures s == w + t && IsWhole(w) && WholeEnds(w, t) && (BeginsDigit(s) ==> w != "")
  {
    if Begins(s, {'0'}) && !(BeginsDigit(s[1..]) && s[1] != '0') {
      w, t := "0", s[1..];
    } else if Begins(s, {'0'}) {
      w, t := SplitDigits(s[1..]);
      Assoc("0", w, t);
      w := "0" + w;
    } else {
      w, t := SplitDigits(s);
    }
  }

  lemma SplitFraction(s: string) returns (f: Option<string>, t: string)
    ensures s == FractionText(f) + t && IsFraction(f) && FractionEnds(f, t)
  {
    if Begins(s, {'.'}) && BeginsDigit(s[1..]) {
      var digits;
      digits, t := SplitDigits(s[1..]);
      f := Some(digits);
      Assoc(".", digits, t);
    } else {
      f, t := None, s;
    }
  }

  lemma SplitPower(s: string) returns (p: Option<Power>, t: string)
    ensures s == PowerText(p) + t && IsLaxPower(p) && PowerEnds(p, t)
  {
    if Begins(s, {'e', 'E'}) {
      var u := s[1..];
      var sign := if Begins(u, {'+', '-'}) then [u[0]] else "";
      var v := u[|sign|..];
      assert u == sign + v;
      var digits;
      digits, t := SplitDigits(v);
      p := Some(Power(s[0], sign, digits));
      hide AreDigits;
      PowerGrouped(p.value, t);
      Cons(s);
    } else {
      p, t := None, s;
      assert "" + s == s;
    }
  }

  lemma PowerGrouped(q: Power, t: string)
    ensures PowerText(Some(q)) + t == [q.e] + (q.sign + (q.digits + t))
  {
    Assoc([q.e], q.sign, q.digits);
    Assoc([q.e], q.sign + q.digits, t);
    Assoc(q.sign, q.digits, t);
  }

  lemma SplitNumber(s: string) returns (d: Text, t: string)
    requires Begins(s, {'-'}) || BeginsDigit(s)
    ensures d.Numeral? && s == Write(d, t) && Fits(d, t)
  {
    var minus := s[0] == '-';
    var w, t1 := SplitWhole(if minus then s[1..] else s);
    var f, t2 := SplitFraction(t1);
    var p, t3 := SplitPower(t2);
    d, t := Numeral(minus, w, f, p), t3;
  }

  lemma WholeRead(w: string, t: string)
    requires IsWhole(w) && WholeEnds(w, t)
    ensures ParseWhole(w + t) == (Positional(w), t)
  {
    if w == "" {
      assert w + t == t;
    } else if w[0] == '0' {
      Cons(w);
      ZeroRead(w[1..], t);
    } else {
      PlainRead(w, t);
    }
  }

  lemma PlainRead(w: string, t: string)
    requires AreDigits(w) && w != "" && w[0] != '0' && !BeginsDigit(t)
    ensures ParseWhole(w + t) == (Positional(w), t)
  {
    DigitIs(w[0]);
    DigitsRead(w, 0, t);
    assert (w + t)[0] == w[0];
    hide AreDigits, Positional, Digits;
  }

  lemma ZeroRead(f: string, t: string)
    requires AreDigits(f) && (f != "" ==> f[0] != '0' && !BeginsDigit(t)) && (BeginsDigit(t) ==> t[0] == '0')
    ensures ParseWhole("0" + f + t) == (Positional("0" + f), t)
  {
    hide AreDigits, Positional, Digits;
    LeadingZero(f);
    var s := "0" + f + t;
    assert s[0] == '0' && s[1..] == f + t;
    if f == "" {
      assert f + t == t;
    } else {
      DigitOpens(f);
      DigitsRead(f, 0, t);
      assert (f + t)[0] == f[0];
    }
  }

  lemma LeadingZero(f: string)
    ensures Positional("0" + f) == Positional(f) && Positional("") == 0
  {
    assert ("0" + f)[1..] == f;
  }

  lemma FractionReads(w: string, f: Option<string>, t: string)
    requires AreDigits(w) && IsFraction(f) && FractionEnds(f, t)
    ensures ParseFraction(FractionText(f) + t, Positional(w)) == (Positional(w + Places(f)), 0 - |Places(f)|, t)
  {
    match f
    case None => assert w + "" == w && "" + t == t;
    case Some(digits) =>
      FractionRead(f, Positional(w), t);
      PlacesJoin(w, digits);
  }

  lemma {:induction false} PlacesJoin(a: string, b: string)
    ensures Positional(a + b) == Positional(a) * PowerOfTen(|b|) + Positional(b)
  {
    if a == "" {
      assert a + b == b;
    } else {
      assert (a + b)[0] == a[0] && (a + b)[1..] == a[1..] + b;
      PlacesJoin(a[1..], b);
      PowersJoin(|a| - 1, |b|);
      Spread(Worth(a[0]), PowerOfTen(|a| - 1), PowerOfTen(|b|), Positional(a[1..]), Positional(b));
    }
  }

  lemma Spread(d: nat, p: nat, q: nat, m: nat, n: nat)
    ensures d * (p * q) + (m * q + n) == (d * p + m) * q + n
  {}

  lemma {:induction false} PowersJoin(m: nat, n: nat)
    ensures PowerOfTen(m + n) == PowerOfTen(m) * PowerOfTen(n)
  {
    if m > 0 {
      PowersJoin(m - 1, n);
    }
  }

  lemma PowerReads(p: Option<Power>, t: string)
    requires IsLaxPower(p) && PowerEnds(p, t)
    ensures ParseExponent(PowerText(p) + t) == (PowerValue(p), t)
  {
    hide Positional, AreDigits, Digits;
    match p
    case None => assert "" + t == t;
    case Some(q) =>
      PowerGrouped(q, t);
      var v := q.digits + t;
      var u := q.sign + v;
      assert (PowerText(p) + t)[1..] == u;
      if q.sign == "" {
        assert u == v;
        if q.digits != "" { DigitOpens(q.digits); }
      } else {
        assert u[0] == q.sign[0] && u[1..] == v;
      }
      DigitsRead(q.digits, 0, t);
  }

  lemma DigitOpens(f: string)
    requires AreDigits(f) && f != ""
    ensures IsDigit(f[0])
  {
    DigitIs(f[0]);
  }

  lemma NumberRead(d: Text, t: string)
    requires d.Numeral? && Fits(d, t)
    ensures Begins(Write(d, t), {'-'}) || BeginsDigit(Write(d, t))
    ensures ParseNumber(Write(d, t)) == Parsed(Meaning(d), t)
  {
    hide FitsNumeral, ParseNumber, Positional, PowerValue, FractionText, PowerText, Begins, BeginsDigit;
    NumeralRead(d.minus, d.whole, d.fraction, d.power, t);
  }

  lemma NumeralRead(minus: bool, w: string, f: Option<string>, p: Option<Power>, t: string)
    requires FitsNumeral(minus, w, f, p, t)
    ensures var s := (if minus then "-" else "") + (w + (FractionText(f) + (PowerText(p) + t)));
            && (Begins(s, {'-'}) || BeginsDigit(s))
            && ParseNumber(s) == Parsed(Number(if minus then 0 - Positional(w + Places(f)) else Positional(w + Places(f)),
                                               PowerValue(p) - |Places(f)|), t)
  {
    hide FractionText, PowerText, Positional, PowerValue, IsFraction, IsLaxPower, IsWhole, WholeEnds, FractionEnds,
         PowerEnds, AreDigits, ParseWhole, ParseFraction, ParseExponent, ParseNumber, IsDigit;
    var behind := PowerText(p) + t;
    var tail := FractionText(f) + behind;
    WholeRead(w, tail);
    WholeOpens(w);
    FractionReads(w, f, behind);
    PowerReads(p, t);
    assert w != "" ==> (w + tail)[0] == w[0];
    Assembled(minus, w + tail, Positional(w), tail, Positional(w + Places(f)), 0 - |Places(f)|, behind, PowerValue(p), t);
  }

  lemma Assembled(minus: bool, u: string, w: nat, t1: string, m: nat, k: int, t2: string, x: int, t: string)
    requires minus || BeginsDigit(u)
    requires ParseWhole(u) == (w, t1) && ParseFraction(t1, w) == (m, k, t2) && ParseExponent(t2) == (x, t)
    ensures var s := (if minus then "-" else "") + u;
            && (Begins(s, {'-'}) || BeginsDigit(s))
            && ParseNumber(s) == Parsed(Number(if minus then 0 - m else m, x + k), t)
  {
    hide ParseWhole, ParseFraction, ParseExponent;
    if minus {
      assert ("-" + u)[1..] == u;
    } else {
      assert "" + u == u;
    }
  }

  lemma WholeOpens(w: string)
    requires IsWhole(w)
    ensures AreDigits(w) && (w != "" ==> IsDigit(w[0]))
  {
    if w != "" {
      DigitIs(w[0]);
    }
  }

  /// Strings

  lemma UnitIs(four: string, t: string)
    requires |four| == 4
    ensures Hex4(four + t) == UnitOf(four)
  {
    SameUnit(four, t);
    if Hex4Or(four).Some? {
      UnitSpelled(four, Hex4Or(four).value);
    }
    hide Hex4Or;
    forall u: nat | SpellsUnit("\\u" + four, u)
      ensures Hex4(four + t) == u
    {
      SpelledUnit("\\u" + four, u, t);
      Assoc("\\u", four, t);
      assert ("\\u" + (four + t))[2..] == four + t;
    }
  }

  lemma SameUnit(four: string, t: string)
    requires |four| == 4
    ensures Hex4Or(four + t) == Hex4Or(four)
  {
    hide HexValue;
  }

  lemma UnitSpelled(four: string, u: nat)
    requires |four| == 4 && Hex4Or(four) == Some(u)
    ensures SpellsUnit("\\u" + four, u)
  {
    var a := HexRead(four, 0);
    var b := HexRead(four, 1);
    var c := HexRead(four, 2);
    var d := HexRead(four, 3);
    hide HexValue, IsHexDigit;
    assert u == ((a * 16 + b) * 16 + c) * 16 + d;
    hide Hex4Or;
    FourPlaces(a, b, c, d);
    var s := "\\u" + four;
    assert s[2] == four[0] && s[3] == four[1] && s[4] == four[2] && s[5] == four[3];
  }

  lemma HexRead(four: string, i: nat) returns (d: nat)
    requires |four| == 4 && Hex4Or(four).Some? && i < 4
    ensures HexValue(four[i]) == Some(d) && d < 16 && IsHexDigit(four[i], d)
  {
    d := HexValue(four[i]).value;
    HexDigitIs(four[i]);
  }

  lemma FourPlaces(a: nat, b: nat, c: nat, d: nat)
    requires a < 16 && b < 16 && c < 16 && d < 16
    ensures var u := ((a * 16 + b) * 16 + c) * 16 + d;
            u / 0x1000 == a && u / 0x100 % 16 == b && u / 0x10 % 16 == c && u % 16 == d
  {}

  lemma UnitRead(four: string, rest: string)
    requires IsPiece(Unit(four)) && !(IsHighSurrogate(UnitOf(four)) && "\\u" <= rest)
    ensures ParseEscape("u" + (four + rest)) == Parsed(Lone(UnitOf(four)), rest)
  {
    UnitIs(four, rest);
    UnitInside(four, rest);
    UnitSlices(four, rest);
    hide UnitOf;
    LoneParses("u" + (four + rest), UnitOf(four), rest);
  }

  lemma UnitInside(four: string, rest: string)
    requires IsPiece(Unit(four))
    ensures FourInside(four + rest)
  {
    assert (four + rest)[..4] == four;
  }

  lemma UnitSlices(four: string, rest: string)
    requires |four| == 4
    ensures var s := "u" + (four + rest);
            && |s| == 5 + |rest| && s[0] == 'u' && s[1..] == four + rest && s[5..] == rest
            && forall i | 0 <= i < |rest| :: s[5 + i] == rest[i]
  {}

  lemma LoneParses(s: string, u: nat, rest: string)
    requires |s| >= 5 && s[0] == 'u' && FourInside(s[1..]) && Hex4(s[1..]) == u < 0x1_0000 && s[5..] == rest
    requires !(IsHighSurrogate(u) && "\\u" <= rest)
    ensures ParseEscape(s) == Parsed(Lone(u), rest)
  {
    hide Hex4, FourInside, Utf8;
    assert |s| >= 7 ==> s[5] == rest[0] && s[6] == rest[1];
  }

  lemma PairRead(four: string, next: string, rest: string)
    requires IsPiece(Unit(four)) && IsPiece(Unit(next)) && IsHighSurrogate(UnitOf(four))
    ensures ParseEscape("u" + (four + ("\\u" + (next + rest)))) == Parsed(Paired(UnitOf(four), UnitOf(next)), rest)
  {
    var t := "\\u" + (next + rest);
    var s := "u" + (four + t);
    UnitIs(four, t);
    UnitIs(next, rest);
    UnitInside(four, t);
    UnitInside(next, rest);
    UnitSlices(four, t);
    hide UnitOf, Hex4, FourInside, ParseEscape, IsPiece;
    assert s[5] == t[0] && s[6] == t[1];
    assert s[7..] == s[5..][2..] == next + rest;
    assert s[11..] == s[7..][4..] == rest;
    if IsLowSurrogate(UnitOf(next)) {
      PairParses(s, UnitOf(four), UnitOf(next), rest);
    } else {
      PairBroken(s, UnitOf(four), UnitOf(next), rest);
    }
  }

  lemma SlashedRead(c: char, rest: string)
    requires c != 'u'
    ensures ParseEscape([c] + rest) == Parsed([Unslash(c)], rest)
  {
    if i :| 0 <= i < |SHORT| && SHORT[i] == c {
      forall j | 0 <= j < |SHORT| && SHORT[j] == c
        ensures ParseEscape([c] + rest) == Parsed([PLAIN[j]], rest)
      {
        ShortEscapeRead(j, rest);
      }
    } else {
      assert SHORT[3] == 'b' && SHORT[4] == 'f' && SHORT[5] == 'n' && SHORT[6] == 'r' && SHORT[7] == 't';
    }
  }

  lemma {:induction false} PiecesRead(ps: seq<Piece>, closed: bool, t: string)
    requires FitsLiteral(Literal(ps, closed), t)
    ensures ParseChars(WritePieces(ps, Close(closed, t))) == Parsed(Characters(ps), t)
  {
    hide ParseChars, ParseEscape, UnitOf, IsPiece;
    if ps == [] {
      NoPieces(closed, t);
    } else {
      var rest := WritePieces(ps[1..], Close(closed, t));
      assert IsPiece(ps[0]);
      PiecesRead(ps[1..], closed, t);
      if |ps| > 1 {
        PiecesRead(ps[2..], closed, t);
      }
      match ps[0]
      case Plain(c) => PlainReads(c, rest);
      case Slashed(c) => SlashedReads(c, rest);
      case Unit(four) => UnitReads(ps, closed, t);
    }
  }

  lemma NoPieces(closed: bool, t: string)
    requires closed || t == ""
    ensures ParseChars(Close(closed, t)) == Parsed("", t)
  {}

  lemma SlashedReads(c: char, rest: string)
    requires IsPiece(Slashed(c)) && ParseChars(rest).Parsed?
    ensures ParseChars(['\\', c] + rest) == Parsed([Unslash(c)] + ParseChars(rest).value, ParseChars(rest).rest)
  {
    SlashedRead(c, rest);
    hide ParseChars, ParseEscape, Unslash;
    EscapeReads([c] + rest, [Unslash(c)], rest);
    assert ['\\', c] + rest == "\\" + ([c] + rest);
  }

  lemma {:induction false} UnitReads(ps: seq<Piece>, closed: bool, t: string)
    requires FitsLiteral(Literal(ps, closed), t) && ps != [] && ps[0].Unit?
    requires ParseChars(WritePieces(ps[1..], Close(closed, t))) == Parsed(Characters(ps[1..]), t)
    requires |ps| > 1 ==> ParseChars(WritePieces(ps[2..], Close(closed, t))) == Parsed(Characters(ps[2..]), t)
    ensures ParseChars(WritePieces(ps, Close(closed, t))) == Parsed(Characters(ps), t)
  {
    hide ParseChars, ParseEscape, UnitOf, Lone, Paired, IsPiece;
    var four, rest := ps[0].four, WritePieces(ps[1..], Close(closed, t));
    assert IsPiece(ps[0]);
    if IsHighSurrogate(UnitOf(four)) && |ps| > 1 && ps[1].Unit? {
      assert IsPiece(ps[1]);
      PairWritten(ps, Close(closed, t));
      var next, behind := ps[1].four, WritePieces(ps[2..], Close(closed, t));
      PairRead(four, next, behind);
      EscapeReads("u" + (four + ("\\u" + (next + behind))), Paired(UnitOf(four), UnitOf(next)), behind);
    } else {
      if |ps| <= 1 || !ps[1].Unit? {
        NoUnitNext(ps, closed, t);
      }
      UnitRead(four, rest);
      assert "\\u" + (four + rest) == "\\" + ("u" + (four + rest));
      EscapeReads("u" + (four + rest), Lone(UnitOf(four)), rest);
    }
  }

  lemma PlainReads(c: char, rest: string)
    requires IsPiece(Plain(c)) && ParseChars(rest).Parsed?
    ensures ParseChars([c] + rest) == Parsed([c] + ParseChars(rest).value, ParseChars(rest).rest)
  {
    assert ([c] + rest)[1..] == rest;
  }

  lemma EscapeReads(e: string, chars: string, rest: string)
    requires ParseEscape(e) == Parsed(chars, rest) && ParseChars(rest).Parsed?
    ensures ParseChars("\\" + e) == Parsed(chars + ParseChars(rest).value, ParseChars(rest).rest)
  {
    hide ParseEscape;
    assert ("\\" + e)[1..] == e;
  }

  lemma PairWritten(ps: seq<Piece>, t: string)
    requires |ps| > 1 && ps[0].Unit? && ps[1].Unit?
    ensures WritePieces(ps, t) == "\\" + ("u" + (ps[0].four + ("\\u" + (ps[1].four + WritePieces(ps[2..], t)))))
  {
    assert ps[1..][0] == ps[1] && ps[1..][1..] == ps[2..];
    assert WritePieces(ps[1..], t) == "\\u" + (ps[1].four + WritePieces(ps[2..], t));
  }

  lemma NoUnitNext(ps: seq<Piece>, closed: bool, t: string)
    requires FitsLiteral(Literal(ps, closed), t) && ps != [] && (|ps| > 1 ==> !ps[1].Unit?)
    ensures !("\\u" <= WritePieces(ps[1..], Close(closed, t)))
  {
    var s := WritePieces(ps[1..], Close(closed, t));
    if |ps| > 1 {
      var rest := WritePieces(ps[1..][1..], Close(closed, t));
      assert ps[1..][0] == ps[1] && IsPiece(ps[1]);
      assert s == match ps[1] case Plain(c) => [c] + rest case Slashed(c) => ['\\', c] + rest case Unit(four) => "\\u" + (four + rest);
      hide WritePieces;
      match ps[1]
      case Plain(c) => assert s == [c] + rest && s[0] != '\\';
      case Slashed(c) => assert s == ['\\', c] + rest && s[1] != 'u';
    } else {
      assert s == Close(closed, t);
      assert s != "" ==> s[0] == '\"';
    }
  }

  lemma SplitFour(s: string) returns (four: string)
    requires FourInside(s)
    ensures s == four + s[4..] && IsPiece(Unit(four))
  {
    four := s[..4];
  }

  // A literal that is read is one of the grammar.
  lemma {:induction false} SplitPieces(s: string) returns (ps: seq<Piece>, closed: bool, t: string)
    requires ParseChars(s).Parsed?
    ensures FitsLiteral(Literal(ps, closed), t) && s == WritePieces(ps, Close(closed, t))
    decreases |s|
  {
    if s == "" {
      ps, closed, t := [], false, "";
    } else if s[0] == '\"' {
      ps, closed, t := [], true, s[1..];
    } else {
      var front, rest := SplitPiece(s);
      ps, closed, t := SplitPieces(rest);
      WriteJoin(front, ps, Close(closed, t));
      ps := front + ps;
    }
  }

  lemma {:induction false} WriteJoin(front: seq<Piece>, ps: seq<Piece>, t: string)
    ensures WritePieces(front + ps, t) == WritePieces(front, WritePieces(ps, t))
  {
    if front == [] {
      assert front + ps == ps;
    } else {
      assert (front + ps)[1..] == front[1..] + ps && (front + ps)[0] == front[0];
      WriteJoin(front[1..], ps, t);
    }
  }

  // One turn of the loop over a literal takes one piece or two.
  lemma SplitPiece(s: string) returns (front: seq<Piece>, rest: string)
    requires ParseChars(s).Parsed? && s != "" && s[0] != '\"'
    ensures ParseChars(rest).Parsed? && |rest| < |s| && s == WritePieces(front, rest)
    ensures forall i | 0 <= i < |front| :: IsPiece(front[i])
  {
    if s[0] != '\\' {
      front, rest := [Plain(s[0])], s[1..];
    } else {
      rest := ParseEscape(s[1..]).rest;
      if s[1] != 'u' {
        front := [Slashed(s[1])];
      } else {
        front := SplitUnits(s, rest);
      }
    }
  }

  lemma SplitUnits(s: string, rest: string) returns (front: seq<Piece>)
    requires |s| > 1 && s[0] == '\\' && s[1] == 'u' && ParseUnicode(s[1..]).Parsed? && ParseUnicode(s[1..]).rest == rest
    ensures s == WritePieces(front, rest) && forall i | 0 <= i < |front| :: IsPiece(front[i])
  {
    var four := SplitFour(s[2..]);
    front := [Unit(four)];
    assert s[1..][1..] == s[2..] && s[2..][4..] == s[6..] && s[1..][5..] == s[6..];
    assert s == "\\u" + (four + s[6..]);
    UnitsWritten(four, "", rest);
    if rest != s[6..] {
      assert s[1..][7..] == s[8..] && s[1..][11..] == s[12..];
      var next := SplitFour(s[8..]);
      assert s[8..][4..] == s[12..] && s[6] == '\\' && s[7] == 'u';
      assert s[6..] == "\\u" + (next + s[12..]);
      front := [Unit(four), Unit(next)];
      UnitsWritten(four, next, rest);
    }
  }

  lemma UnitsWritten(four: string, next: string, t: string)
    ensures WritePieces([Unit(four)], t) == "\\u" + (four + t)
    ensures WritePieces([Unit(four), Unit(next)], t) == "\\u" + (four + ("\\u" + (next + t)))
  {
    assert [Unit(four), Unit(next)][1..] == [Unit(next)] && [Unit(next)][1..] == [] && [Unit(four)][1..] == [];
  }

  /// The parser takes every text of the grammar

  lemma Opens(d: Text, t: string)
    requires Fits(d, t)
    ensures Solid(Write(d, t)) && Write(d, t)[0] !in {',', ']', '}'}
  {
    if d.Numeral? {
      NumberRead(d, t);
    }
  }

  lemma {:induction false} TextRead(d: Text, t: string)
    requires Fits(d, t)
    ensures ParseValue(Write(d, t)) == Parsed(Meaning(d), t)
    decreases d, 0
  {
    var s := Write(d, t);
    match d
    case Word(w) => WordRead(w, t);
    case Numeral(_, _, _, _) =>
      NumberRead(d, t);
      NotALiteral(s);
    case Quoted(l) =>
      NotALiteral(s);
      LiteralRead(l, t);
    case List(gap, items) =>
      NotALiteral(s);
      ListRead(gap, items, t);
    case Record(gap, entries) =>
      NotALiteral(s);
      RecordRead(gap, entries, t);
  }

  lemma WordRead(w: string, t: string)
    requires w in {"null", "false", "true"}
    ensures ParseValue(w + t) == Parsed(Meaning(Word(w)), t)
  {
    var s := w + t;
    assert s[|w|..] == t && w <= s && s[0] == w[0];
    if w != "null" {
      assert "null"[0] == 'n' && s[0] != 'n' && !("null" <= s);
      if w == "true" {
        assert "false"[0] == 'f' && s[0] != 'f' && !("false" <= s);
      }
    }
  }

  lemma LiteralRead(l: Literal, t: string)
    requires FitsLiteral(l, t)
    ensures ParseString(WriteLiteral(l, t)) == Parsed(Characters(l.pieces), t)
  {
    PiecesRead(l.pieces, l.closed, t);
    assert WriteLiteral(l, t)[1..] == WritePieces(l.pieces, Close(l.closed, t));
  }

  lemma {:induction false} ItemRead(i: Item, t: string)
    requires FitsItem(i, t) && Solid(t)
    ensures ParseValue(Skip(WriteItem(i, t))) == Parsed(ItemMeaning(i), i.after + t) && Skip(i.after + t) == t
    ensures Skip(WriteItem(i, t)) != "" && Skip(WriteItem(i, t))[0] !in {',', ']', '}'}
    decreases i, 0
  {
    TextRead(i.text, i.after + t);
    Opens(i.text, i.after + t);
    SkipWhite(i.before, Write(i.text, i.after + t));
    SkipSolid(Write(i.text, i.after + t));
    SkipWhite(i.after, t);
    SkipSolid(t);
  }

  lemma {:induction false} ItemsRead(items: seq<Item>, t: string)
    requires FitItems(items, t)
    ensures ParseItems(MoreItems(items, t)) == Parsed(ItemMeanings(items), t)
    decreases items, 2
  {
    var s := MoreItems(items, t);
    if items == [] {
      assert s[1..] == t;
    } else {
      ItemRead(items[0], MoreItems(items[1..], t));
      ItemsRead(items[1..], t);
      assert s[1..] == WriteItems(items, t);
    }
  }

  lemma {:induction false} ListRead(gap: string, items: seq<Item>, t: string)
    requires Fits(List(gap, items), t)
    ensures ParseArray(Write(List(gap, items), t)) == Parsed(ItemMeanings(items), t)
    decreases items, 3
  {
    var s := Write(List(gap, items), t);
    if items == [] {
      assert s[1..] == gap + ("]" + t);
      SkipWhite(gap, "]" + t);
      SkipSolid("]" + t);
    } else {
      assert s[1..] == WriteItems(items, t);
      ItemRead(items[0], MoreItems(items[1..], t));
      ItemsRead(items[1..], t);
      SkipTwice(s[1..]);
    }
  }

  lemma {:induction false} EntryRead(e: Entry, t: string)
    requires FitsEntry(e, t) && Solid(t)
    ensures ParseMember(Skip(WriteEntry(e, t))) == Parsed(EntryMeaning(e), e.item.after + t) && Skip(e.item.after + t) == t
    ensures Skip(WriteEntry(e, t)) != "" && Skip(WriteEntry(e, t))[0] == '\"'
    decreases e, 0
  {
    var value := ":" + WriteItem(e.item, t);
    var name := WriteLiteral(e.name, e.colon + value);
    LiteralRead(e.name, e.colon + value);
    SkipWhite(e.before, name);
    SkipSolid(name);
    SkipWhite(e.colon, value);
    SkipSolid(value);
    assert value[1..] == WriteItem(e.item, t);
    ItemRead(e.item, t);
  }

  lemma {:induction false} EntriesRead(entries: seq<Entry>, t: string)
    requires FitEntries(entries, t)
    ensures ParseMembers(MoreEntries(entries, t)) == Parsed(EntryMeanings(entries), t)
    decreases entries, 2
  {
    var s := MoreEntries(entries, t);
    if entries == [] {
      assert s[1..] == t;
    } else {
      EntryRead(entries[0], MoreEntries(entries[1..], t));
      EntriesRead(entries[1..], t);
      assert s[1..] == WriteEntries(entries, t);
    }
  }

  lemma {:induction false} RecordRead(gap: string, entries: seq<Entry>, t: string)
    requires Fits(Record(gap, entries), t)
    ensures ParseObject(Write(Record(gap, entries), t)) == Parsed(EntryMeanings(entries), t)
    decreases entries, 3
  {
    var s := Write(Record(gap, entries), t);
    if entries == [] {
      assert s[1..] == gap + ("}" + t);
      SkipWhite(gap, "}" + t);
      SkipSolid("}" + t);
    } else {
      assert s[1..] == WriteEntries(entries, t);
      EntryRead(entries[0], MoreEntries(entries[1..], t));
      EntriesRead(entries[1..], t);
      SkipTwice(s[1..]);
    }
  }

  /// and no other

  lemma {:induction false} SplitWhite(s: string) returns (g: string)
    ensures White(g) && s == g + Skip(s) && !(Skip(s) != "" && Skip(s)[0] <= ' ')
  {
    if s != "" && s[0] <= ' ' {
      g := SplitWhite(s[1..]);
      Cons(s);
      Assoc([s[0]], g, Skip(s));
      g := [s[0]] + g;
    } else {
      g := "";
      assert "" + s == s;
    }
  }

  lemma {:induction false} Split(s: string) returns (d: Text, t: string)
    requires ParseValue(s).Parsed?
    ensures s == Write(d, t) && Fits(d, t)
    decreases |s|, 2
  {
    if "null" <= s || "false" <= s || "true" <= s {
      var w := if s[0] == 'n' then "null" else if s[0] == 'f' then "false" else "true";
      d, t := Word(w), s[|w|..];
    } else if Peek(s) == '\"' {
      var l;
      l, t := SplitLiteral(s);
      d := Quoted(l);
    } else if s[0] == '[' {
      d, t := SplitList(s);
    } else if s[0] == '{' {
      d, t := SplitRecord(s);
    } else {
      d, t := SplitNumber(s);
    }
  }

  lemma SplitLiteral(s: string) returns (l: Literal, t: string)
    requires ParseString(s).Parsed?
    ensures s == WriteLiteral(l, t) && FitsLiteral(l, t) && ParseString(s).rest == t
  {
    var ps, closed;
    ps, closed, t := SplitPieces(s[1..]);
    l := Literal(ps, closed);
    Cons(s);
    LiteralRead(l, t);
  }

  // A value with the white space around it.
  lemma {:induction false} SplitItem(s: string) returns (i: Item)
    requires ParseValue(Skip(s)).Parsed?
    ensures var t := Skip(ParseValue(Skip(s)).rest);
            s == WriteItem(i, t) && FitsItem(i, t)
    decreases |s|, 3
  {
    var before := SplitWhite(s);
    var d, rest := Split(Skip(s));
    TextRead(d, rest);
    var after := SplitWhite(rest);
    i := Item(before, d, after);
  }

  lemma {:induction false} SplitItems(s: string) returns (items: seq<Item>, t: string)
    requires ParseItems(s).Parsed?
    ensures s == MoreItems(items, t) && FitItems(items, t)
    decreases |s|, 1
  {
    Cons(s);
    if s[0] == ',' {
      var i := SplitItem(s[1..]);
      items, t := SplitItems(Skip(ParseValue(Skip(s[1..])).rest));
      assert ([i] + items)[1..] == items;
      items := [i] + items;
    } else {
      items, t := [], s[1..];
    }
  }

  lemma {:induction false} SplitList(s: string) returns (d: Text, t: string)
    requires s != "" && s[0] == '[' && ParseArray(s).Parsed?
    ensures s == Write(d, t) && Fits(d, t)
    decreases |s|, 1
  {
    Cons(s);
    SkipTwice(s[1..]);
    if Peek(Skip(s[1..])) == ']' {
      var gap := SplitWhite(s[1..]);
      Cons(Skip(s[1..]));
      d, t := List(gap, []), Skip(s[1..])[1..];
    } else {
      var i := SplitItem(s[1..]);
      var items;
      items, t := SplitItems(Skip(ParseValue(Skip(s[1..])).rest));
      d := List("", [i] + items);
      assert ([i] + items)[1..] == items;
    }
  }

  lemma {:induction false} SplitEntry(s: string) returns (e: Entry)
    requires ParseMember(Skip(s)).Parsed?
    ensures var t := Skip(ParseMember(Skip(s)).rest);
            s == WriteEntry(e, t) && FitsEntry(e, t)
    decreases |s|, 4
  {
    var before := SplitWhite(s);
    var name, rest := SplitLiteral(Skip(s));
    var colon := SplitWhite(rest);
    var v := Skip(rest);
    Cons(v);
    var i := SplitItem(v[1..]);
    e := Entry(before, name, colon, i);
  }

  lemma {:induction false} SplitEntries(s: string) returns (entries: seq<Entry>, t: string)
    requires ParseMembers(s).Parsed?
    ensures s == MoreEntries(entries, t) && FitEntries(entries, t)
    decreases |s|, 1
  {
    Cons(s);
    if s[0] == ',' {
      var e := SplitEntry(s[1..]);
      entries, t := SplitEntries(Skip(ParseMember(Skip(s[1..])).rest));
      assert ([e] + entries)[1..] == entries;
      entries := [e] + entries;
    } else {
      entries, t := [], s[1..];
    }
  }

  lemma {:induction false} SplitRecord(s: string) returns (d: Text, t: string)
    requires s != "" && s[0] == '{' && ParseObject(s).Parsed?
    ensures s == Write(d, t) && Fits(d, t)
    decreases |s|, 1
  {
    Cons(s);
    SkipTwice(s[1..]);
    if Peek(Skip(s[1..])) == '}' {
      var gap := SplitWhite(s[1..]);
      Cons(Skip(s[1..]));
      d, t := Record(gap, []), Skip(s[1..])[1..];
    } else {
      var e := SplitEntry(s[1..]);
      var entries;
      entries, t := SplitEntries(Skip(ParseMember(Skip(s[1..])).rest));
      d := Record("", [e] + entries);
      assert ([e] + entries)[1..] == entries;
    }
  }

  // What the parser makes of s is what the grammar says that s stands for.
  lemma ParsesGrammar(s: string, v: Json, t: string)
    ensures ParseValue(s) == Parsed(v, t) <==> exists d :: s == Write(d, t) && Fits(d, t) && Meaning(d) == v
  {
    if ParseValue(s) == Parsed(v, t) {
      var d, rest := Split(s);
      TextRead(d, rest);
    }
    forall d | s == Write(d, t) && Fits(d, t) && Meaning(d) == v
      ensures ParseValue(s) == Parsed(v, t)
    {
      TextRead(d, t);
    }
  }

  // s is white space, a text of the grammar for v, and on demand nothing more than white space.
  ghost predicate DocumentOf(s: string, v: Json, requireEnd: bool) {
    exists g, d, t :: White(g) && s == g + Write(d, t) && Fits(d, t) && Meaning(d) == v && (requireEnd ==> White(t))
  }

  lemma DocumentParses(s: string, v: Json, requireEnd: bool)
    ensures DocumentOf(s, v, requireEnd) <==> ParseDocument(s, requireEnd).Parsed? && ParseDocument(s, requireEnd).value == v
  {
    hide ParseValue, Write, Fits, Meaning, White, Skip;
    if ParseDocument(s, requireEnd).Parsed? && ParseDocument(s, requireEnd).value == v {
      DocumentSplits(s, requireEnd);
    }
    if g, d, t :| White(g) && s == g + Write(d, t) && Fits(d, t) && Meaning(d) == v && (requireEnd ==> White(t)) {
      DocumentRead(g, d, t, requireEnd);
    }
  }

  lemma DocumentSplits(s: string, requireEnd: bool)
    requires ParseDocument(s, requireEnd).Parsed?
    ensures DocumentOf(s, ParseDocument(s, requireEnd).value, requireEnd)
  {
    hide ParseValue, Write, Fits, Meaning;
    var g := SplitWhite(s);
    var d, t := Split(Skip(s));
    TextRead(d, t);
    var h := SplitWhite(t);
    hide Skip, White;
    assert requireEnd ==> t == h by { assert h + "" == h; }
  }

  lemma DocumentRead(g: string, d: Text, t: string, requireEnd: bool)
    requires White(g) && Fits(d, t) && (requireEnd ==> White(t))
    ensures var r := ParseDocument(g + Write(d, t), requireEnd);
            r.Parsed? && r.value == Meaning(d)
  {
    hide ParseValue, Write, Fits, Meaning, White, Skip;
    TextRead(d, t);
    Opens(d, t);
    SkipWhite(g, Write(d, t));
    SkipSolid(Write(d, t));
    if requireEnd {
      SkipWhite(t, "");
      NothingSkipped();
      assert t + "" == t;
    }
  }

  lemma NothingSkipped()
    ensures Skip("") == ""
  {}
}
