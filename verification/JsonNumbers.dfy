/**
 What the text of a number means: the value of its digits by their places, with the places behind the
 point and the exponent taken together into a power of ten.
 */
module JsonNumbers {
  import opened Options
  import opened Sequences
  import opened JsonSyntax
  import opened JsonRoundTrip

  function Worth(c: char): (d: nat)
    ensures d < 10
  {
    match c
    case '1' => 1
    case '2' => 2
    case '3' => 3
    case '4' => 4
    case '5' => 5
    case '6' => 6
    case '7' => 7
    case '8' => 8
    case '9' => 9
    case _ => 0
  }

  predicate AreDigits(f: string) {
    forall i | 0 <= i < |f| :: f[i] in "0123456789"
  }

  function PowerOfTen(n: nat): nat {
    if n == 0 then 1 else 10 * PowerOfTen(n - 1)
  }

  // Each digit counts by its place.
  function Positional(f: string): nat {
    if f == "" then 0 else Worth(f[0]) * PowerOfTen(|f| - 1) + Positional(f[1..])
  }

  lemma DigitIs(c: char)
    ensures IsDigit(c) <==> c in "0123456789"
    ensures IsDigit(c) ==> DigitValue(c) == Worth(c)
  {}

  // Reading digits behind the value n.
  lemma {:induction false} DigitsRead(f: string, n: nat, t: string)
    requires AreDigits(f) && !IsDigit(Peek(t))
    ensures Digits(f + t, n) == (n * PowerOfTen(|f|) + Positional(f), t)
  {
    if f == "" {
      assert f + t == t;
    } else {
      var d, p, rest := Worth(f[0]), PowerOfTen(|f| - 1), Positional(f[1..]);
      DigitIs(f[0]);
      assert (f + t)[1..] == f[1..] + t;
      DigitsRead(f[1..], n * 10 + d, t);
      Places(n, d, p, rest);
    }
  }

  lemma Places(n: nat, d: nat, p: nat, rest: nat)
    ensures (n * 10 + d) * p + rest == n * (10 * p) + (d * p + rest)
  {}

  // The decimal text of a number is its digits, and no more than there must be.
  lemma {:induction false} DecimalMeans(n: nat)
    ensures var s := Decimal(n);
            s != "" && AreDigits(s) && Positional(s) == n && (s[0] == '0' ==> s == "0")
  {
    DigitIs(DigitChar(n % 10));
    if n >= 10 {
      DecimalMeans(n / 10);
      Append(Decimal(n / 10), DigitChar(n % 10));
    } else {
      var s := [DigitChar(n)];
      assert s[1..] == "";
    }
  }

  lemma {:induction false} Append(s: string, c: char)
    ensures Positional(s + [c]) == 10 * Positional(s) + Worth(c)
  {
    var t := s + [c];
    if s == "" {
      assert t == [c] && [c][1..] == "";
    } else {
      Append(s[1..], c);
      assert t[1..] == s[1..] + [c] && t[0] == s[0];
      Shift(Worth(s[0]), PowerOfTen(|s| - 1), Positional(s[1..]));
    }
  }

  lemma Shift(d: nat, p: nat, rest: nat)
    ensures 10 * (d * p + rest) == d * (10 * p) + 10 * rest
  {}

  /// The parts of a number

  // A point and at least one digit.
  predicate IsFraction(f: Option<string>) {
    f.Some? ==> f.value != "" && AreDigits(f.value)
  }

  function FractionText(f: Option<string>): string {
    match f
    case Some(digits) => "." + digits
    case None => ""
  }

  // An e in either case, a sign if any, and at least one digit.
  datatype Power = Power(e: char, sign: string, digits: string)

  predicate IsPower(p: Option<Power>) {
    p.Some? ==> p.value.e in {'e', 'E'} && p.value.sign in {"", "+", "-"} && p.value.digits != "" && AreDigits(p.value.digits)
  }

  function PowerText(p: Option<Power>): string {
    match p
    case Some(q) => [q.e] + q.sign + q.digits
    case None => ""
  }

  function PowerValue(p: Option<Power>): int {
    match p
    case Some(q) => if q.sign == "-" then 0 - Positional(q.digits) else Positional(q.digits)
    case None => 0
  }

  // How many places the fraction has.
  function Scale(f: Option<string>): nat {
    match f
    case Some(digits) => |digits|
    case None => 0
  }

  // The number without its point.
  function Mantissa(w: nat, f: Option<string>): nat {
    match f
    case Some(digits) => w * PowerOfTen(|digits|) + Positional(digits)
    case None => w
  }

  // A minus or not, an integer without leading zeros, a fraction or not, an exponent or not.
  function NumberText(negative: bool, w: nat, f: Option<string>, p: Option<Power>): string {
    (if negative then "-" else "") + Decimal(w) + FractionText(f) + PowerText(p)
  }

  // What does not go on with the number.
  predicate Ends(f: Option<string>, p: Option<Power>, t: string) {
    && !IsDigit(Peek(t))
    && (p == None ==> Peek(t) !in {'e', 'E'})
    && (p == None && f == None && Peek(t) == '.' && |t| > 1 ==> !IsDigit(t[1]))
  }

  lemma WholeRead(w: nat, t: string)
    requires !IsDigit(Peek(t))
    ensures ParseWhole(Decimal(w) + t) == (w, t)
  {
    DecimalMeans(w);
    var s := Decimal(w);
    if s == "0" {
      assert (s + t)[1..] == t;
      assert Positional("0") == 0 by { assert "0"[1..] == ""; }
    } else {
      DigitIs(s[0]);
      DigitsRead(s, 0, t);
    }
  }

  lemma FractionRead(f: Option<string>, n: nat, t: string)
    requires IsFraction(f) && !IsDigit(Peek(t)) && (f == None && Peek(t) == '.' && |t| > 1 ==> !IsDigit(t[1]))
    ensures ParseFraction(FractionText(f) + t, n) == (Mantissa(n, f), 0 - Scale(f), t)
  {
    hide Digits, Positional;
    match f
    case None => assert "" + t == t;
    case Some(digits) =>
      var s := "." + digits + t;
      assert s[1..] == digits + t && s[1] == digits[0];
      DigitIs(digits[0]);
      DigitsRead(digits, n, t);
  }

  lemma PowerRead(p: Option<Power>, t: string)
    requires IsPower(p) && !IsDigit(Peek(t)) && (p == None ==> Peek(t) !in {'e', 'E'})
    ensures ParseExponent(PowerText(p) + t) == (PowerValue(p), t)
  {
    hide Digits, Positional;
    match p
    case None => assert "" + t == t;
    case Some(q) =>
      DigitIs(q.digits[0]);
      DigitsRead(q.digits, 0, t);
      PowerPieces(q, t);
  }

  lemma PowerPieces(q: Power, t: string)
    requires q.sign in {"", "+", "-"} && q.digits != ""
    ensures var s := [q.e] + q.sign + q.digits + t;
            && s[0] == q.e
            && (q.sign == "" ==> s[1..] == q.digits + t && s[1] == q.digits[0])
            && (q.sign != "" ==> s[1] == q.sign[0] && s[1..][1..] == q.digits + t)
  {
    Assoc([q.e], q.sign, q.digits);
    Assoc([q.e], q.sign + q.digits, t);
    if q.sign == "" {
      assert "" + q.digits == q.digits;
    } else {
      Assoc(q.sign, q.digits, t);
      assert (q.sign + (q.digits + t))[1..] == q.digits + t;
    }
  }

  lemma PowerEndsDigits(p: Option<Power>, t: string)
    requires IsPower(p) && (p == None ==> !IsDigit(Peek(t)))
    ensures !IsDigit(Peek(PowerText(p) + t)) && (p.Some? ==> Peek(PowerText(p) + t) != '.')
    ensures p == None ==> PowerText(p) + t == t
  {}

  // Every number reads as the value of its text: the sign, the digits before and behind the point, and
  // the exponent less the places behind the point.
  lemma NumberReads(negative: bool, w: nat, f: Option<string>, p: Option<Power>, t: string)
    requires IsFraction(f) && IsPower(p) && Ends(f, p, t)
    ensures var s := NumberText(negative, w, f, p) + t;
            && (Peek(s) == '-' || IsDigit(Peek(s)))
            && ParseNumber(s) == Parsed(Number(if negative then 0 - Mantissa(w, f) else Mantissa(w, f), PowerValue(p) - Scale(f)), t)
  {
    var s, behind := NumberText(negative, w, f, p) + t, PowerText(p) + t;
    var u := Decimal(w) + (FractionText(f) + behind);
    hide Decimal, ParseWhole, ParseFraction, ParseExponent, ParseNumber, Positional, Mantissa, PowerText, PowerValue,
         FractionText, NumberText, IsFraction, IsPower, IsDigit, Scale;
    BehindEnds(f, p, t);
    hide Ends;
    DecimalOpens(w, FractionText(f) + behind);
    FractionEndsDigits(f, behind);
    Pieces(negative, w, f, p, t);
    WholeRead(w, FractionText(f) + behind);
    FractionRead(f, w, behind);
    PowerRead(p, t);
    Composed(s, u, negative, w, FractionText(f) + behind, Mantissa(w, f), 0 - Scale(f), behind, PowerValue(p), t);
  }

  lemma BehindEnds(f: Option<string>, p: Option<Power>, t: string)
    requires IsPower(p) && Ends(f, p, t)
    ensures var b := PowerText(p) + t;
            && !IsDigit(Peek(t)) && (p == None ==> Peek(t) !in {'e', 'E'})
            && !IsDigit(Peek(b)) && (f == None && Peek(b) == '.' && |b| > 1 ==> !IsDigit(b[1]))
  {
    PowerEndsDigits(p, t);
  }

  lemma DecimalOpens(w: nat, t: string)
    ensures Decimal(w) + t != "" && IsDigit((Decimal(w) + t)[0])
  {
    DecimalMeans(w);
    DigitIs(Decimal(w)[0]);
  }

  lemma FractionEndsDigits(f: Option<string>, t: string)
    requires !IsDigit(Peek(t))
    ensures !IsDigit(Peek(FractionText(f) + t))
  {
    assert f == None ==> FractionText(f) + t == t;
  }

  lemma Composed(s: string, u: string, negative: bool, w: nat, t1: string, m: nat, k: int, t2: string, x: int, t: string)
    requires u != "" && IsDigit(u[0]) && if negative then s != "" && s[0] == '-' && s[1..] == u else s == u
    requires ParseWhole(u) == (w, t1) && ParseFraction(t1, w) == (m, k, t2) && ParseExponent(t2) == (x, t)
    ensures (Peek(s) == '-' || IsDigit(Peek(s))) && ParseNumber(s) == Parsed(Number(if negative then 0 - m else m, x + k), t)
  {
    hide ParseWhole, ParseFraction, ParseExponent;
  }

  lemma Pieces(negative: bool, w: nat, f: Option<string>, p: Option<Power>, t: string)
    ensures var s, u := NumberText(negative, w, f, p) + t, Decimal(w) + (FractionText(f) + (PowerText(p) + t));
            if negative then s != "" && s[0] == '-' && s[1..] == u else s == u
  {
    hide Decimal, PowerText, FractionText;
    var d, a, b := Decimal(w), FractionText(f), PowerText(p);
    assert "" + d == d;
    Assoc(d + a, b, t);
    Assoc(d, a, b + t);
    if negative {
      assert "-" + d + a + b + t == "-" + (d + a + b + t);
    }
  }
}
