/**
 The JSON values cJSON keeps and, as functions on text, what its parser, its two
 printers and its minifier compute.

 Text is a C string without its terminating NUL (so it holds no NUL), and a `const char *` into it is
 the text that remains from there on.
 */
module JsonSyntax {
  import opened Options

  // A number is kept as the exact decimal mant * 10^exp that its text spells; the
  // C code rounds it to a double. exp is 0 for every integer without exponent. A string of None is a
  // NULL pointer: an item made by hand may lack its string, and so may an element that
  // cJSON_AddItemToArray puts into an object lack its name.
  datatype Json =
    | Null
    | False
    | True
    | Number(mant: int, exp: int)
    | String(str: Option<string>)
    | Array(items: seq<Json>)
    | Object(members: seq<Member>)

  datatype Member = Member(name: Option<string>, value: Json)

  // Failed is the NULL result, with the error pointer it leaves behind. Overrun says
  // that a malformed escape makes the code step over the end of the string literal, or
  // of the text, that its first pass measured; what then happens is not modelled.
  datatype Parsed<+T> = Parsed(value: T, rest: string) | Failed(at: string) | Overrun {
    predicate IsFailure() {
      !Parsed?
    }

    function PropagateFailure<U>(): Parsed<U>
      requires !Parsed?
    {
      if Overrun? then Overrun else Failed(at)
    }

    function Extract(): (T, string)
      requires Parsed?
    {
      (value, rest)
    }
  }

  const INT_MIN := -0x8000_0000
  const INT_MAX := 0x7FFF_FFFF

  /// Characters

  function Peek(s: string): char {
    if s == "" then '\0' else s[0]
  }

  predicate IsDigit(c: char) {
    '0' <= c <= '9'
  }

  function DigitValue(c: char): nat
    requires IsDigit(c)
  {
    c as int - '0' as int
  }

  function DigitChar(d: nat): char
    requires d < 10
  {
    ('0' as int + d) as char
  }

  function Skip(s: string): (r: string)
    ensures |r| <= |s|
  {
    if s != "" && s[0] <= ' ' then Skip(s[1..]) else s
  }

  /// Numbers

  function Digits(s: string, n: nat): (r: (nat, string))
    ensures |r.1| <= |s|
  {
    if s != "" && IsDigit(s[0]) then Digits(s[1..], n * 10 + DigitValue(s[0])) else (n, s)
  }

  function ParseNumber(s: string): (r: Parsed<Json>)
    requires Peek(s) == '-' || IsDigit(Peek(s))
    ensures r.Parsed? && r.value.Number? && |r.rest| < |s|
  {
    var negative := s[0] == '-';
    var (whole, s3) := ParseWhole(if negative then s[1..] else s);
    var (n, scale, s4) := ParseFraction(s3, whole);
    var (subscale, s5) := ParseExponent(s4);
    Parsed(Number(Signed(negative, n), scale + subscale), s5)
  }

  function Signed(negative: bool, n: nat): int {
    if negative then 0 - n else n
  }

  // One leading zero is skipped, and digits may follow it.
  function ParseWhole(s: string): (r: (nat, string))
    ensures |r.1| <= |s| && (IsDigit(Peek(s)) ==> |r.1| < |s|)
  {
    var t := if Peek(s) == '0' then s[1..] else s;
    if '1' <= Peek(t) <= '9' then Digits(t, 0) else (0, t)
  }

  // The fraction's digits go on behind those of n, and each one counts -1 in the scale.
  function ParseFraction(s: string, n: nat): (r: (nat, int, string))
    ensures |r.2| <= |s|
  {
    if Peek(s) == '.' && |s| > 1 && IsDigit(s[1]) then
      var (m, t) := Digits(s[1..], n);
      (m, |t| - (|s| - 1), t)
    else (n, 0, s)
  }

  function ParseExponent(s: string): (r: (int, string))
    ensures |r.1| <= |s|
  {
    if Peek(s) !in {'e', 'E'} then (0, s)
    else
      var t := s[1..];
      var (k, u) := Digits(if Peek(t) in {'+', '-'} then t[1..] else t, 0);
      (Signed(Peek(t) == '-', k), u)
  }

  function Decimal(n: nat): string {
    if n < 10 then [DigitChar(n)] else Decimal(n / 10) + [DigitChar(n % 10)]
  }

  function PrintInt(n: int): string {
    if n < 0 then "-" + Decimal(-n) else Decimal(n)
  }

  /// Strings

  function HexValue(c: char): Option<nat> {
    if '0' <= c <= '9' then Some(c as int - '0' as int)
    else if 'A' <= c <= 'F' then Some(10 + c as int - 'A' as int)
    else if 'a' <= c <= 'f' then Some(10 + c as int - 'a' as int)
    else None
  }

  function Hex4Or(s: string): (h: Option<nat>)
    requires |s| >= 4
    ensures h.Some? ==> h.value < 0x1_0000
  {
    var a :- HexValue(s[0]);
    var b :- HexValue(s[1]);
    var c :- HexValue(s[2]);
    var d :- HexValue(s[3]);
    Some(((a * 16 + b) * 16 + c) * 16 + d)
  }

  // Anything that is not four hexadecimal digits reads as 0.
  function Hex4(s: string): (h: nat)
    requires |s| >= 4
    ensures h < 0x1_0000
  {
    match Hex4Or(s)
    case Some(h) => h
    case None => 0
  }

  predicate IsHighSurrogate(u: nat) {
    0xD800 <= u <= 0xDBFF
  }

  predicate IsLowSurrogate(u: nat) {
    0xDC00 <= u <= 0xDFFF
  }

  function Combine(high: nat, low: nat): (cp: nat)
    requires IsHighSurrogate(high) && IsLowSurrogate(low)
    ensures 0x1_0000 <= cp <= 0x10_FFFF
  {
    0x1_0000 + (high - 0xD800) * 0x400 + (low - 0xDC00)
  }

  // The bytes written for a code point: (u | 0x80) & 0xBF is 0x80 + u % 64, and or-ing
  // the first-byte mark onto what is left is an addition.
  function Utf8(cp: nat): (r: string)
    requires cp <= 0x10_FFFF
    ensures 1 <= |r| <= 4
    ensures |r| <= 3 <==> cp < 0x1_0000
  {
    if cp < 0x80 then [cp as char]
    else if cp < 0x800 then [Byte(0xC0 + cp / 0x40), Continuation(cp)]
    else if cp < 0x1_0000 then [Byte(0xE0 + cp / 0x1000), Continuation(cp / 0x40), Continuation(cp)]
    else [Byte(0xF0 + cp / 0x4_0000), Continuation(cp / 0x1000), Continuation(cp / 0x40), Continuation(cp)]
  }

  function Byte(b: nat): char
    requires b < 0x100
  {
    b as char
  }

  function Continuation(u: nat): char {
    Byte(0x80 + u % 0x40)
  }

  // s is the text after a backslash.
  function ParseEscape(s: string): (r: Parsed<string>)
    ensures !r.Failed?
    ensures r.Parsed? ==> |r.rest| < |s|
  {
    if s == "" then Overrun
    else match s[0]
      case 'b' => Parsed("\U{8}", s[1..])
      case 'f' => Parsed("\U{C}", s[1..])
      case 'n' => Parsed("\n", s[1..])
      case 'r' => Parsed("\r", s[1..])
      case 't' => Parsed("\t", s[1..])
      case 'u' => ParseUnicode(s)
      case c => Parsed([c], s[1..])
  }

  // The four characters after a \u are skipped unread, so they must belong to the literal.
  predicate FourInside(s: string) {
    |s| >= 4 && forall i | 0 <= i < 4 :: s[i] != '\"' && s[i] != '\\'
  }

  // s begins with the 'u' of an escape. An invalid escape is dropped without a trace.
  function ParseUnicode(s: string): (r: Parsed<string>)
    requires s != "" && s[0] == 'u'
    ensures !r.Failed?
    ensures r.Parsed? ==> |r.rest| < |s|
  {
    if !FourInside(s[1..]) then Overrun
    else
      var uc := Hex4(s[1..]);
      if uc == 0 || IsLowSurrogate(uc) then Parsed("", s[5..])
      else if !IsHighSurrogate(uc) then Parsed(Utf8(uc), s[5..])
      else if |s| < 7 || s[5] != '\\' || s[6] != 'u' then Parsed("", s[5..])
      else if !FourInside(s[7..]) then Overrun
      else
        var uc2 := Hex4(s[7..]);
        if IsLowSurrogate(uc2) then Parsed(Utf8(Combine(uc, uc2)), s[11..]) else Parsed("", s[11..])
  }

  // s is the text after the opening quote; a string that ends at the NUL is accepted.
  function ParseChars(s: string): (r: Parsed<string>)
    ensures !r.Failed?
    ensures r.Parsed? ==> |r.rest| <= |s|
  {
    if s == "" then Parsed("", s)
    else if s[0] == '\"' then Parsed("", s[1..])
    else if s[0] == '\\' then
      var (c, r) :- ParseEscape(s[1..]);
      var (cs, r') :- ParseChars(r);
      Parsed(c + cs, r')
    else
      var (cs, r) :- ParseChars(s[1..]);
      Parsed([s[0]] + cs, r)
  }

  // The first pass over a literal: how many bytes are allocated for it, less the NUL.
  function CountChars(s: string): nat {
    if s == "" || s[0] == '\"' then 0
    else if s[0] == '\\' then 1 + if |s| < 2 then 0 else CountChars(s[2..])
    else 1 + CountChars(s[1..])
  }

  function ParseString(s: string): (r: Parsed<string>)
    ensures r.Parsed? ==> |r.rest| < |s|
  {
    if Peek(s) != '\"' then Failed(s) else ParseChars(s[1..])
  }

  function HexChar(d: nat): char
    requires d < 16
  {
    if d < 10 then ('0' as int + d) as char else ('a' as int + d - 10) as char
  }

  function EscapeChar(c: char): string {
    if c > '\U{1F}' && c != '\"' && c != '\\' then [c]
    else match c
      case '\\' => "\\\\"
      case '\"' => "\\\""
      case '\U{8}' => "\\b"
      case '\U{C}' => "\\f"
      case '\n' => "\\n"
      case '\r' => "\\r"
      case '\t' => "\\t"
      case _ => "\\u00" + [HexChar(c as int / 16), HexChar(c as int % 16)]
  }

  function Escape(str: string): string {
    if str == "" then "" else EscapeChar(str[0]) + Escape(str[1..])
  }

  function PrintString(str: string): string {
    "\"" + Escape(str) + "\""
  }

  // A NULL pointer is printed as nothing, not even quotes.
  function PrintText(str: Option<string>): string {
    match str
    case None => ""
    case Some(s) => PrintString(s)
  }

  /// Values

  function ParseValue(s: string): (r: Parsed<Json>)
    ensures r.Parsed? ==> |r.rest| < |s|
    decreases |s|, 2
  {
    if "null" <= s then Parsed(Null, s[4..])
    else if "false" <= s then Parsed(False, s[5..])
    else if "true" <= s then Parsed(True, s[4..])
    else if Peek(s) == '\"' then var (str, r) :- ParseString(s); Parsed(String(Some(str)), r)
    else if Peek(s) == '-' || IsDigit(Peek(s)) then ParseNumber(s)
    else if Peek(s) == '[' then var (items, r) :- ParseArray(s); Parsed(Array(items), r)
    else if Peek(s) == '{' then var (ms, r) :- ParseObject(s); Parsed(Object(ms), r)
    else Failed(s)
  }

  function ParseArray(s: string): (r: Parsed<seq<Json>>)
    requires Peek(s) == '['
    ensures r.Parsed? ==> |r.rest| < |s|
    decreases |s|, 1
  {
    var v := Skip(s[1..]);
    if Peek(v) == ']' then Parsed([], v[1..])
    else
      var (item, r) :- ParseValue(Skip(v));
      var (items, r') :- ParseItems(Skip(r));
      Parsed([item] + items, r')
  }

  // The loop over further elements, up to and with the closing bracket.
  function ParseItems(s: string): (r: Parsed<seq<Json>>)
    ensures r.Parsed? ==> |r.rest| < |s|
    decreases |s|, 1
  {
    if Peek(s) == ',' then
      var (item, r) :- ParseValue(Skip(s[1..]));
      var (items, r') :- ParseItems(Skip(r));
      Parsed([item] + items, r')
    else if Peek(s) == ']' then Parsed([], s[1..])
    else Failed(s)
  }

  function ParseObject(s: string): (r: Parsed<seq<Member>>)
    requires Peek(s) == '{'
    ensures r.Parsed? ==> |r.rest| < |s|
    decreases |s|, 1
  {
    var v := Skip(s[1..]);
    if Peek(v) == '}' then Parsed([], v[1..])
    else
      var (m, r) :- ParseMember(Skip(v));
      var (ms, r') :- ParseMembers(Skip(r));
      Parsed([m] + ms, r')
  }

  function ParseMember(s: string): (r: Parsed<Member>)
    ensures r.Parsed? ==> |r.rest| < |s|
    decreases |s|, 1
  {
    var (name, r) :- ParseString(s);
    var v := Skip(r);
    if Peek(v) != ':' then Failed(v)
    else
      var (value, r') :- ParseValue(Skip(v[1..]));
      Parsed(Member(Some(name), value), r')
  }

  function ParseMembers(s: string): (r: Parsed<seq<Member>>)
    ensures r.Parsed? ==> |r.rest| < |s|
    decreases |s|, 2
  {
    if Peek(s) == ',' then
      var (m, r) :- ParseMember(Skip(s[1..]));
      var (ms, r') :- ParseMembers(Skip(r));
      Parsed([m] + ms, r')
    else if Peek(s) == '}' then Parsed([], s[1..])
    else Failed(s)
  }

  // A C string, or NULL.
  predicate NoNul(str: Option<string>) {
    str.Some? ==> '\0' !in str.value
  }

  // What the printers handle here: integers in the range of int, and C strings.
  predicate Printable(v: Json) {
    match v
    case Number(mant, exp) => exp == 0 && INT_MIN <= mant <= INT_MAX
    case String(str) => NoNul(str)
    case Array(items) => forall i | 0 <= i < |items| :: Printable(items[i])
    case Object(ms) => forall i | 0 <= i < |ms| :: NoNul(ms[i].name) && Printable(ms[i].value)
    case _ => true
  }

  predicate PrintableItems(items: seq<Json>) {
    forall i | 0 <= i < |items| :: Printable(items[i])
  }

  predicate PrintableMembers(ms: seq<Member>) {
    forall i | 0 <= i < |ms| :: NoNul(ms[i].name) && Printable(ms[i].value)
  }

  // No string is missing, and no member's name.
  predicate Complete(v: Json) {
    match v
    case String(str) => str.Some?
    case Array(items) => forall i | 0 <= i < |items| :: Complete(items[i])
    case Object(ms) => forall i | 0 <= i < |ms| :: ms[i].name.Some? && Complete(ms[i].value)
    case _ => true
  }

  predicate CompleteItems(items: seq<Json>) {
    forall i | 0 <= i < |items| :: Complete(items[i])
  }

  predicate CompleteMembers(ms: seq<Member>) {
    forall i | 0 <= i < |ms| :: ms[i].name.Some? && Complete(ms[i].value)
  }

  function Tabs(n: int): string {
    if n <= 0 then "" else "\t" + Tabs(n - 1)
  }

  function When(fmt: bool, s: string): string {
    if fmt then s else ""
  }

  function PrintValue(v: Json, depth: nat, fmt: bool): string
    requires Printable(v)
    decreases v, 1
  {
    match v
    case Null => "null"
    case False => "false"
    case True => "true"
    case Number(mant, _) => PrintInt(mant)
    case String(str) => PrintText(str)
    case Array(items) => "[" + PrintItems(items, depth + 1, fmt) + "]"
    case Object(ms) =>
      if ms == [] then "{" + When(fmt, "\n" + Tabs(depth - 1)) + "}"
      else "{" + When(fmt, "\n") + PrintMembers(ms, depth + 1, fmt) + When(fmt, Tabs(depth)) + "}"
  }

  function PrintItems(items: seq<Json>, depth: nat, fmt: bool): string
    requires PrintableItems(items)
    decreases items, 0
  {
    if items == [] then ""
    else PrintValue(items[0], depth, fmt) + ItemSeparator(|items| == 1, fmt)
         + PrintItems(items[1..], depth, fmt)
  }

  function ItemSeparator(last: bool, fmt: bool): string {
    if last then "" else "," + When(fmt, " ")
  }

  function PrintMembers(ms: seq<Member>, depth: nat, fmt: bool): string
    requires PrintableMembers(ms)
    decreases ms, 0
  {
    if ms == [] then ""
    else PrintMember(ms[0], depth, fmt) + MemberSeparator(|ms| == 1, fmt) + PrintMembers(ms[1..], depth, fmt)
  }

  function PrintMember(m: Member, depth: nat, fmt: bool): string
    requires Printable(m.value)
    decreases m, 0
  {
    When(fmt, Tabs(depth)) + PrintText(m.name) + ":" + When(fmt, "\t") + PrintValue(m.value, depth, fmt)
  }

  function MemberSeparator(last: bool, fmt: bool): string {
    (if last then "" else ",") + When(fmt, "\n")
  }

  /// Minifying

  // None says that the code runs past the terminating NUL.
  function Minify(s: string): (r: Option<string>)
    ensures r.Some? ==> |r.value| <= |s|
    decreases |s|
  {
    if s == "" then Some("")
    else if s[0] in {' ', '\t', '\r', '\n'} then Minify(s[1..])
    else if "//" <= s then Minify(DropLine(s))
    else if "/*" <= s then
      var r :- DropBlock(s);
      Minify(r)
    else if s[0] == '\"' then
      var (lit, r) :- CopyLiteral(s[1..]);
      var t :- Minify(r);
      Some("\"" + lit + t)
    else
      var t :- Minify(s[1..]);
      Some([s[0]] + t)
  }

  function DropLine(s: string): (r: string)
    ensures |r| <= |s|
    ensures s != "" && s[0] != '\n' ==> |r| < |s|
  {
    if s == "" || s[0] == '\n' then s else DropLine(s[1..])
  }

  function DropBlock(s: string): (r: Option<string>)
    ensures r.Some? ==> |r.value| < |s|
  {
    if s == "" then None
    else if "*/" <= s then Some(s[2..])
    else DropBlock(s[1..])
  }

  // The rest of a string literal with its closing quote, and what follows it.
  function CopyLiteral(s: string): (r: Option<(string, string)>)
    ensures r.Some? ==> |r.value.0| + |r.value.1| == |s| && |r.value.1| < |s|
  {
    if s == "" then None
    else if s[0] == '\"' then Some(("\"", s[1..]))
    else if s[0] == '\\' then
      if |s| < 2 then None
      else
        var (lit, r) :- CopyLiteral(s[2..]);
        Some((s[..2] + lit, r))
    else
      var (lit, r) :- CopyLiteral(s[1..]);
      Some((s[..1] + lit, r))
  }

  /// Documents

  // Parsing from the first solid character; on demand nothing may follow but white space.
  function ParseDocument(s: string, requireEnd: bool): Parsed<Json> {
    var (v, rest) :- ParseValue(Skip(s));
    if !requireEnd then Parsed(v, rest)
    else if Skip(rest) != "" then Failed(Skip(rest))
    else Parsed(v, Skip(rest))
  }
}
