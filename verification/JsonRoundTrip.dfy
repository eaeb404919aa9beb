/** Parsing what either printer prints rebuilds the value and stops at the end of it. */
module JsonRoundTrip {
  import opened Sequences
  import opened Options
  import opened JsonSyntax

  /// Numbers

  // What may follow a number without being taken for a part of it.
  predicate EndsNumber(suffix: string) {
    && !IsDigit(Peek(suffix))
    && Peek(suffix) !in {'e', 'E'}
    && (Peek(suffix) == '.' && |suffix| > 1 ==> !IsDigit(suffix[1]))
  }

  lemma {:induction false} DecimalDigits(n: nat, t: string)
    ensures Digits(Decimal(n) + t, 0) == Digits(t, n)
  {
    if n < 10 {
      assert (Decimal(n) + t)[1..] == t;
    } else {
      var last := [DigitChar(n % 10)];
      assert Decimal(n) + t == Decimal(n / 10) + (last + t);
      DecimalDigits(n / 10, last + t);
      assert (last + t)[1..] == t;
    }
  }

  lemma {:induction false} DecimalHead(n: nat)
    ensures |Decimal(n)| > 0
    ensures if n == 0 then Decimal(n) == "0" else '1' <= Decimal(n)[0] <= '9'
  {
    if n >= 10 {
      DecimalHead(n / 10);
    }
  }

  lemma NumberRoundTrip(n: int, suffix: string)
    requires EndsNumber(suffix)
    ensures var s := PrintInt(n) + suffix;
            (Peek(s) == '-' || IsDigit(Peek(s))) && ParseNumber(s) == Parsed(Number(n, 0), suffix)
  {
    var m := if n < 0 then -n else n;
    DecimalHead(m);
    var s := PrintInt(n) + suffix;
    var s1 := Decimal(m) + suffix;
    assert n < 0 ==> s[1..] == s1;
    if m == 0 {
      assert s1[1..] == suffix;
    } else {
      DecimalDigits(m, suffix);
      assert Digits(suffix, m) == (m, suffix);
    }
  }

  /// Strings

  lemma EscapeCharRoundTrip(c: char, t: string)
    requires c != '\0'
    requires c <= '\U{1F}' || c == '\"' || c == '\\'
    ensures |EscapeChar(c)| > 1 && EscapeChar(c)[0] == '\\'
    ensures ParseEscape(EscapeChar(c)[1..] + t) == Parsed([c], t)
  {
    var e := EscapeChar(c);
    if |e| == 2 {
      assert e[1..] + t == [e[1]] + t;
      assert ([e[1]] + t)[1..] == t;
    } else {
      var hi, lo := HexChar(c as int / 16), HexChar(c as int % 16);
      var s := e[1..] + t;
      assert e == "\\u00" + [hi, lo];
      assert s[0] == 'u' && s[1..][0] == '0' && s[1..][1] == '0' && s[1..][2] == hi && s[1..][3] == lo;
      assert Hex4(s[1..]) == c as int;
      assert s[5..] == t;
    }
  }

  lemma CharsStep(c: char, t: string, cs: string, suffix: string)
    requires c != '\0' && ParseChars(t) == Parsed(cs, suffix)
    ensures ParseChars(EscapeChar(c) + t) == Parsed([c] + cs, suffix)
  {
    var s := EscapeChar(c) + t;
    if c > '\U{1F}' && c != '\"' && c != '\\' {
      assert s[0] == c && s[1..] == t;
    } else {
      EscapeCharRoundTrip(c, t);
      assert s[0] == '\\' && s[1..] == EscapeChar(c)[1..] + t;
    }
  }

  lemma {:induction false} CharsRoundTrip(str: string, suffix: string)
    requires '\0' !in str
    ensures ParseChars(Escape(str) + ("\"" + suffix)) == Parsed(str, suffix)
  {
    var close := "\"" + suffix;
    if str == "" {
      assert Escape(str) + close == close;
      assert close[1..] == suffix;
    } else {
      CharsRoundTrip(str[1..], suffix);
      CharsStep(str[0], Escape(str[1..]) + close, str[1..], suffix);
      Assoc(EscapeChar(str[0]), Escape(str[1..]), close);
      assert [str[0]] + str[1..] == str;
    }
  }

  lemma StringRoundTrip(str: string, suffix: string)
    requires '\0' !in str
    ensures ParseString(PrintString(str) + suffix) == Parsed(str, suffix)
  {
    CharsRoundTrip(str, suffix);
    var e, close := Escape(str), "\"" + suffix;
    hide Escape, ParseChars;
    Assoc("\"" + e, "\"", suffix);
    Assoc("\"", e, close);
    assert ("\"" + (e + close))[1..] == e + close;
  }

  /// Values

  // White space is skipped only in front of a value, and no value begins with any.
  predicate Solid(s: string) {
    s != "" && s[0] > ' '
  }

  lemma SkipSolid(s: string)
    requires Solid(s)
    ensures Skip(s) == s
  {}

  lemma {:induction false} SkipTwice(s: string)
    ensures Skip(Skip(s)) == Skip(s)
  {
    if s != "" && s[0] <= ' ' {
      SkipTwice(s[1..]);
    }
  }

  // Where a value is expected, s does not offer one.
  predicate Halts(s: string) {
    var t := Skip(s);
    t == "" || t[0] in {',', ']', '}'}
  }

  lemma {:induction false} SkipTabs(n: int, s: string)
    requires Solid(s)
    ensures Skip(Tabs(n) + s) == s
  {
    if n <= 0 {
      assert Tabs(n) + s == s;
    } else {
      SkipTabs(n - 1, s);
      assert (Tabs(n) + s)[1..] == Tabs(n - 1) + s;
    }
  }

  lemma SkipIndent(depth: int, fmt: bool, s: string)
    requires Solid(s)
    ensures Skip(When(fmt, "\n" + Tabs(depth)) + s) == s
    ensures Skip(When(fmt, Tabs(depth)) + s) == s
    ensures Skip(When(fmt, "\t") + s) == s
    ensures Skip(When(fmt, " ") + s) == s
  {
    assert "" + s == s;
    SkipTabs(depth, s);
    assert ("\n" + Tabs(depth) + s)[1..] == Tabs(depth) + s;
    assert ("\t" + s)[1..] == s;
    assert (" " + s)[1..] == s;
  }

  lemma SkipNewLine(depth: int, fmt: bool, s: string)
    requires Solid(s)
    ensures Skip(When(fmt, "\n") + (When(fmt, Tabs(depth)) + s)) == s
  {
    Assoc(When(fmt, "\n"), When(fmt, Tabs(depth)), s);
    assert When(fmt, "\n") + When(fmt, Tabs(depth)) == When(fmt, "\n" + Tabs(depth));
    SkipIndent(depth, fmt, s);
  }

  lemma PrintedValueIsSolid(v: Json, depth: nat, fmt: bool)
    requires Printable(v) && v != String(None)
    ensures Solid(PrintValue(v, depth, fmt))
    ensures PrintValue(v, depth, fmt)[0] != ']'
  {
    if v.Number? {
      DecimalHead(if v.mant < 0 then -v.mant else v.mant);
    }
  }

  // One turn of each loop of the parser, and one turn of each loop of the printers.

  lemma ItemsStep(t: string, item: Json, r: string, items: seq<Json>, suffix: string)
    requires Peek(t) == ',' && ParseValue(Skip(t[1..])) == Parsed(item, r)
    requires ParseItems(Skip(r)) == Parsed(items, suffix)
    ensures ParseItems(t) == Parsed([item] + items, suffix)
  {}

  lemma ArrayStep(s: string, v: string, item: Json, r: string, items: seq<Json>, suffix: string)
    requires Peek(s) == '[' && Skip(s[1..]) == v && Solid(v) && v[0] != ']'
    requires ParseValue(v) == Parsed(item, r) && ParseItems(Skip(r)) == Parsed(items, suffix)
    ensures ParseValue(s) == Parsed(Array([item] + items), suffix)
  {
    SkipSolid(v);
  }

  lemma MembersStep(t: string, m: Member, r: string, ms: seq<Member>, suffix: string)
    requires Peek(t) == ',' && ParseMember(Skip(t[1..])) == Parsed(m, r)
    requires ParseMembers(Skip(r)) == Parsed(ms, suffix)
    ensures ParseMembers(t) == Parsed([m] + ms, suffix)
  {}

  lemma ObjectStep(s: string, v: string, m: Member, r: string, ms: seq<Member>, suffix: string)
    requires Peek(s) == '{' && Skip(s[1..]) == v && Solid(v) && v[0] != '}'
    requires ParseMember(v) == Parsed(m, r) && ParseMembers(Skip(r)) == Parsed(ms, suffix)
    ensures ParseValue(s) == Parsed(Object([m] + ms), suffix)
  {
    SkipSolid(v);
  }

  // The text from an element on, up to and with the end of the array.
  function ItemsText(items: seq<Json>, depth: nat, fmt: bool, suffix: string): string
    requires PrintableItems(items) && items != []
  {
    PrintValue(items[0], depth, fmt) + ItemsTail(items[1..], depth, fmt, suffix)
  }

  // What follows an element when `items` are still to come.
  function ItemsTail(items: seq<Json>, depth: nat, fmt: bool, suffix: string): string
    requires PrintableItems(items)
  {
    ItemSeparator(items == [], fmt) + (PrintItems(items, depth, fmt) + ("]" + suffix))
  }

  lemma ItemsUnfold(items: seq<Json>, depth: nat, fmt: bool, suffix: string)
    requires PrintableItems(items) && items != []
    ensures PrintItems(items, depth, fmt) + ("]" + suffix) == ItemsText(items, depth, fmt, suffix)
  {
    var v, p := PrintValue(items[0], depth, fmt), PrintItems(items[1..], depth, fmt);
    var sep := ItemSeparator(|items| == 1, fmt);
    Assoc(v + sep, p, "]" + suffix);
    Assoc(v, sep, p + ("]" + suffix));
  }

  lemma ItemsTailEndsValue(items: seq<Json>, depth: nat, fmt: bool, suffix: string)
    requires PrintableItems(items)
    ensures var t := ItemsTail(items, depth, fmt, suffix);
            Solid(t) && EndsNumber(t) && Skip(t) == t
  {
    if items == [] {
      assert ItemsTail(items, depth, fmt, suffix) == "]" + suffix;
    }
  }

  // The text from a member's name on, up to and with the end of the object.
  function MembersText(ms: seq<Member>, depth: nat, fmt: bool, suffix: string): string
    requires PrintableMembers(ms) && ms != []
  {
    MemberText(ms[0], depth, fmt, MembersTail(ms[1..], depth, fmt, suffix))
  }

  function MemberText(m: Member, depth: nat, fmt: bool, tail: string): string
    requires Printable(m.value)
  {
    PrintText(m.name) + (":" + (When(fmt, "\t") + (PrintValue(m.value, depth, fmt) + tail)))
  }

  // What follows a member when `ms` are still to come.
  function MembersTail(ms: seq<Member>, depth: nat, fmt: bool, suffix: string): string
    requires PrintableMembers(ms)
  {
    MemberSeparator(ms == [], fmt) + (PrintMembers(ms, depth, fmt) + (When(fmt, Tabs(depth - 1)) + ("}" + suffix)))
  }

  lemma MembersUnfold(ms: seq<Member>, depth: nat, fmt: bool, close: string)
    requires PrintableMembers(ms) && ms != []
    ensures PrintMembers(ms, depth, fmt) + close
         == When(fmt, Tabs(depth))
            + MemberText(ms[0], depth, fmt,
                         MemberSeparator(|ms| == 1, fmt) + (PrintMembers(ms[1..], depth, fmt) + close))
  {
    var m, p := PrintMember(ms[0], depth, fmt), PrintMembers(ms[1..], depth, fmt);
    var sep := MemberSeparator(|ms| == 1, fmt);
    Assoc(m + sep, p, close);
    Assoc(m, sep, p + close);
    Regroup5(When(fmt, Tabs(depth)), PrintText(ms[0].name), ":", When(fmt, "\t"),
             PrintValue(ms[0].value, depth, fmt), sep + (p + close));
  }

  lemma Regroup5(a: string, b: string, c: string, d: string, e: string, f: string)
    ensures (a + b + c + d + e) + f == a + (b + (c + (d + (e + f))))
  {}

  lemma MembersTailEndsValue(ms: seq<Member>, depth: nat, fmt: bool, suffix: string)
    requires PrintableMembers(ms)
    ensures EndsNumber(MembersTail(ms, depth, fmt, suffix))
  {
    var t := MembersTail(ms, depth, fmt, suffix);
    if ms == [] && !fmt {
      assert t == "}" + suffix;
    }
  }

  /// The round trip

  lemma {:induction false} ValueRoundTrip(v: Json, depth: nat, fmt: bool, suffix: string)
    requires Printable(v) && Complete(v) && EndsNumber(suffix)
    ensures ParseValue(PrintValue(v, depth, fmt) + suffix) == Parsed(v, suffix)
    decreases v, 2
  {
    hide ParseValue;
    match v
    case Null => LiteralNull(suffix);
    case False => LiteralFalse(suffix);
    case True => LiteralTrue(suffix);
    case Number(n, _) => NumberValue(n, suffix);
    case String(str) => StringValue(str.value, suffix);
    case Array(items) => ArrayRoundTrip(items, depth, fmt, suffix);
    case Object(ms) => ObjectRoundTrip(ms, depth, fmt, suffix);
  }

  lemma LiteralNull(suffix: string)
    ensures ParseValue("null" + suffix) == Parsed(Null, suffix)
  {
    var s := "null" + suffix;
    assert s[0] == 'n' && s[4..] == suffix && s[..4] == "null";
  }

  lemma LiteralFalse(suffix: string)
    ensures ParseValue("false" + suffix) == Parsed(False, suffix)
  {
    var s := "false" + suffix;
    assert s[0] == 'f' && s[5..] == suffix && s[..5] == "false";
  }

  lemma LiteralTrue(suffix: string)
    ensures ParseValue("true" + suffix) == Parsed(True, suffix)
  {
    var s := "true" + suffix;
    assert s[0] == 't' && s[4..] == suffix && s[..4] == "true";
  }

  lemma NumberValue(n: int, suffix: string)
    requires EndsNumber(suffix)
    ensures ParseValue(PrintInt(n) + suffix) == Parsed(Number(n, 0), suffix)
  {
    hide ParseNumber, PrintInt;
    NumberRoundTrip(n, suffix);
    NotALiteral(PrintInt(n) + suffix);
  }

  lemma NotALiteral(s: string)
    requires s != "" && s[0] !in {'n', 'f', 't'}
    ensures !("null" <= s) && !("false" <= s) && !("true" <= s)
  {}

  lemma StringValue(str: string, suffix: string)
    requires '\0' !in str
    ensures ParseValue(PrintString(str) + suffix) == Parsed(String(Some(str)), suffix)
  {
    StringRoundTrip(str, suffix);
    assert (PrintString(str) + suffix)[0] == '\"';
    hide ParseString, PrintString;
    NotALiteral(PrintString(str) + suffix);
  }

  lemma {:induction false} ArrayRoundTrip(items: seq<Json>, depth: nat, fmt: bool, suffix: string)
    requires Printable(Array(items)) && Complete(Array(items))
    ensures ParseValue(PrintValue(Array(items), depth, fmt) + suffix) == Parsed(Array(items), suffix)
    decreases items, 2
  {
    if items == [] {
      EmptyArrayText("[" + "" + "]" + suffix, suffix);
    } else {
      hide ParseValue;
      ArrayOpens(items, depth, fmt, suffix);
      ArrayTextRoundTrip(PrintValue(Array(items), depth, fmt) + suffix, items, depth + 1, fmt, suffix);
    }
  }

  lemma EmptyArrayText(s: string, suffix: string)
    requires s == "[" + "" + "]" + suffix
    ensures ParseValue(s) == Parsed(Array([]), suffix)
  {
    assert s[0] == '[' && s[1..] == "]" + suffix;
    assert ("]" + suffix)[1..] == suffix;
    NotALiteral(s);
  }

  lemma ArrayOpens(items: seq<Json>, depth: nat, fmt: bool, suffix: string)
    requires Printable(Array(items)) && items != [] && items[0] != String(None)
    ensures var s := PrintValue(Array(items), depth, fmt) + suffix;
            Peek(s) == '[' && Skip(s[1..]) == ItemsText(items, depth + 1, fmt, suffix)
  {
    var p := PrintItems(items, depth + 1, fmt);
    assert ("[" + p + "]" + suffix)[1..] == p + ("]" + suffix);
    ItemsUnfold(items, depth + 1, fmt, suffix);
    PrintedValueIsSolid(items[0], depth + 1, fmt);
    SkipSolid(ItemsText(items, depth + 1, fmt, suffix));
  }

  lemma {:induction false} ArrayTextRoundTrip(s: string, items: seq<Json>, depth: nat, fmt: bool, suffix: string)
    requires PrintableItems(items) && CompleteItems(items) && items != []
    requires Peek(s) == '[' && Skip(s[1..]) == ItemsText(items, depth, fmt, suffix)
    ensures ParseValue(s) == Parsed(Array(items), suffix)
    decreases items, 1
  {
    hide ParseValue, ParseItems, PrintValue, PrintItems, ItemsTail, Skip;
    var tail := ItemsTail(items[1..], depth, fmt, suffix);
    PrintedValueIsSolid(items[0], depth, fmt);
    ItemsTailEndsValue(items[1..], depth, fmt, suffix);
    ValueRoundTrip(items[0], depth, fmt, tail);
    ItemsRoundTrip(items[1..], depth, fmt, suffix);
    TailNeedsNoSkip(items[1..], depth, fmt, suffix);
    ArrayStep(s, ItemsText(items, depth, fmt, suffix), items[0], tail, items[1..], suffix);
    Cons(items);
  }

  lemma TailNeedsNoSkip(items: seq<Json>, depth: nat, fmt: bool, suffix: string)
    requires PrintableItems(items)
    ensures Skip(ItemsTail(items, depth, fmt, suffix)) == ItemsTail(items, depth, fmt, suffix)
  {
    var t := ItemsTail(items, depth, fmt, suffix);
    if items == [] {
      assert t == "]" + suffix;
    } else {
      assert t[0] == ',';
    }
    assert t != [] && t[0] > ' ';
    hide ItemsTail;
    SkipSolid(t);
  }

  lemma ItemsTailOpens(items: seq<Json>, depth: nat, fmt: bool, suffix: string)
    requires PrintableItems(items) && items != [] && items[0] != String(None)
    ensures var t := ItemsTail(items, depth, fmt, suffix);
            Peek(t) == ',' && Skip(t[1..]) == ItemsText(items, depth, fmt, suffix)
  {
    ItemsTailForm(items, depth, fmt, suffix);
    PrintedValueIsSolid(items[0], depth, fmt);
    hide ItemsTail, PrintValue, Skip;
    SkipIndent(0, fmt, ItemsText(items, depth, fmt, suffix));
  }

  lemma ItemsTailForm(items: seq<Json>, depth: nat, fmt: bool, suffix: string)
    requires PrintableItems(items) && items != []
    ensures var t := ItemsTail(items, depth, fmt, suffix);
            t != "" && t[0] == ',' && t[1..] == When(fmt, " ") + ItemsText(items, depth, fmt, suffix)
  {
    ItemsUnfold(items, depth, fmt, suffix);
    hide PrintItems, When, ItemsText;
    DropComma(When(fmt, " "), PrintItems(items, depth, fmt) + ("]" + suffix));
  }

  lemma {:induction false} ItemsRoundTrip(items: seq<Json>, depth: nat, fmt: bool, suffix: string)
    requires PrintableItems(items) && CompleteItems(items)
    ensures ParseItems(ItemsTail(items, depth, fmt, suffix)) == Parsed(items, suffix)
    decreases items, 1
  {
    if items == [] {
      ItemsEnd(depth, fmt, suffix);
    } else {
      RestOfItems(items);
      hide ParseValue, ParseItems, PrintValue, PrintItems, ItemsTail, Skip, PrintableItems, CompleteItems;
      var t, tail := ItemsTail(items, depth, fmt, suffix), ItemsTail(items[1..], depth, fmt, suffix);
      ItemsTailOpens(items, depth, fmt, suffix);
      ItemsTailEndsValue(items[1..], depth, fmt, suffix);
      ValueRoundTrip(items[0], depth, fmt, tail);
      ItemsRoundTrip(items[1..], depth, fmt, suffix);
      ItemsStep(t, items[0], tail, items[1..], suffix);
      Cons(items);
    }
  }

  lemma RestOfItems(items: seq<Json>)
    requires PrintableItems(items) && CompleteItems(items) && items != []
    ensures PrintableItems(items[1..]) && CompleteItems(items[1..]) && Printable(items[0]) && Complete(items[0])
    ensures items[0] != String(None)
  {}

  lemma ItemsEnd(depth: nat, fmt: bool, suffix: string)
    ensures ParseItems(ItemsTail([], depth, fmt, suffix)) == Parsed([], suffix)
  {
    var t := ItemsTail([], depth, fmt, suffix);
    assert t == "]" + suffix;
    assert t[1..] == suffix;
  }

  lemma EmptyObjectRoundTrip(depth: nat, fmt: bool, suffix: string)
    ensures ParseValue(PrintValue(Object([]), depth, fmt) + suffix) == Parsed(Object([]), suffix)
  {
    hide When, Tabs, ParseValue, Skip;
    var close, indent := "}" + suffix, When(fmt, "\n" + Tabs(depth - 1));
    SkipIndent(depth - 1, fmt, close);
    EmptyObjectPrinted(depth, fmt);
    Regroup4("{", indent, "}", suffix);
    EmptyObjectText("{" + (indent + close), indent + close, suffix);
  }

  lemma EmptyObjectPrinted(depth: nat, fmt: bool)
    ensures PrintValue(Object([]), depth, fmt) == "{" + When(fmt, "\n" + Tabs(depth - 1)) + "}"
  {
    hide When, Tabs;
  }

  lemma Regroup4(a: string, b: string, c: string, d: string)
    ensures a + b + c + d == a + (b + (c + d))
  {}

  lemma EmptyObjectText(s: string, t: string, suffix: string)
    requires s == "{" + t && Skip(t) == "}" + suffix
    ensures ParseValue(s) == Parsed(Object([]), suffix)
  {
    assert s[0] == '{' && s[1..] == t;
    assert ("}" + suffix)[1..] == suffix;
    NotALiteral(s);
  }

  lemma {:induction false} ObjectRoundTrip(ms: seq<Member>, depth: nat, fmt: bool, suffix: string)
    requires Printable(Object(ms)) && Complete(Object(ms))
    ensures ParseValue(PrintValue(Object(ms), depth, fmt) + suffix) == Parsed(Object(ms), suffix)
    decreases ms, 2
  {
    hide ParseValue;
    if ms == [] {
      EmptyObjectRoundTrip(depth, fmt, suffix);
    } else {
      ObjectOpens(ms, depth, fmt, suffix);
      ObjectTextRoundTrip(PrintValue(Object(ms), depth, fmt) + suffix, ms, depth + 1, fmt, suffix);
    }
  }

  lemma {:induction false} ObjectTextRoundTrip(s: string, ms: seq<Member>, depth: nat, fmt: bool, suffix: string)
    requires PrintableMembers(ms) && CompleteMembers(ms) && ms != []
    requires Peek(s) == '{' && Skip(s[1..]) == MembersText(ms, depth, fmt, suffix)
    ensures ParseValue(s) == Parsed(Object(ms), suffix)
    decreases ms, 1
  {
    hide ParseValue, ParseMember, ParseMembers, PrintValue, PrintMembers, MembersTail, MemberText, Skip;
    MemberRoundTrip(ms[0], depth, fmt, ms[1..], suffix);
    MembersRoundTrip(ms[1..], depth, fmt, suffix);
    ObjectStep(s, MembersText(ms, depth, fmt, suffix), ms[0], MembersTail(ms[1..], depth, fmt, suffix), ms[1..], suffix);
    Cons(ms);
  }

  lemma ObjectOpens(ms: seq<Member>, depth: nat, fmt: bool, suffix: string)
    requires Printable(Object(ms)) && ms != []
    ensures var s := PrintValue(Object(ms), depth, fmt) + suffix;
            Peek(s) == '{' && Skip(s[1..]) == MembersText(ms, depth + 1, fmt, suffix)
  {
    var p, ind := PrintMembers(ms, depth + 1, fmt), When(fmt, Tabs(depth));
    var s := PrintValue(Object(ms), depth, fmt) + suffix;
    Regroup5("{", When(fmt, "\n"), p, ind, "}", suffix);
    assert s[1..] == When(fmt, "\n") + (p + (ind + ("}" + suffix)));
    MembersUnfold(ms, depth + 1, fmt, ind + ("}" + suffix));
    SkipNewLine(depth + 1, fmt, MembersText(ms, depth + 1, fmt, suffix));
  }

  lemma MembersTailOpens(ms: seq<Member>, depth: nat, fmt: bool, suffix: string)
    requires PrintableMembers(ms) && ms != []
    ensures var t := MembersTail(ms, depth, fmt, suffix);
            Peek(t) == ',' && Skip(t[1..]) == MembersText(ms, depth, fmt, suffix)
  {
    MembersTailForm(ms, depth, fmt, suffix);
    hide MembersTail, When, Skip;
    SkipNewLine(depth, fmt, MembersText(ms, depth, fmt, suffix));
  }

  lemma MembersTailForm(ms: seq<Member>, depth: nat, fmt: bool, suffix: string)
    requires PrintableMembers(ms) && ms != []
    ensures var t := MembersTail(ms, depth, fmt, suffix);
            && t != "" && t[0] == ','
            && t[1..] == When(fmt, "\n") + (When(fmt, Tabs(depth)) + MembersText(ms, depth, fmt, suffix))
  {
    var close := When(fmt, Tabs(depth - 1)) + ("}" + suffix);
    MembersUnfold(ms, depth, fmt, close);
    hide PrintMembers, When, MemberText;
    DropComma(When(fmt, "\n"), PrintMembers(ms, depth, fmt) + close);
  }

  lemma DropComma(a: string, b: string)
    ensures (("," + a) + b)[0] == ',' && (("," + a) + b)[1..] == a + b
  {}

  lemma {:induction false} MemberRoundTrip(m: Member, depth: nat, fmt: bool, ms: seq<Member>, suffix: string)
    requires NoNul(m.name) && m.name.Some? && Printable(m.value) && Complete(m.value) && PrintableMembers(ms)
    ensures var tail := MembersTail(ms, depth, fmt, suffix);
            var s := MemberText(m, depth, fmt, tail);
            Solid(s) && s[0] == '\"' && ParseMember(s) == Parsed(m, tail)
    decreases m, 3
  {
    hide ParseValue, ParseString, ParseMember, PrintValue, PrintString, PrintMembers, MembersTail, Skip, When;
    var tail := MembersTail(ms, depth, fmt, suffix);
    var value := PrintValue(m.value, depth, fmt) + tail;
    StringRoundTrip(m.name.value, ":" + (When(fmt, "\t") + value));
    PrintedStringOpens(m.name.value);
    PrintedValueIsSolid(m.value, depth, fmt);
    MembersTailEndsValue(ms, depth, fmt, suffix);
    ValueRoundTrip(m.value, depth, fmt, tail);
    MemberStep(PrintText(m.name) + (":" + (When(fmt, "\t") + value)), m, fmt, value, tail);
  }

  lemma PrintedStringOpens(str: string)
    ensures PrintString(str) != "" && PrintString(str)[0] == '\"'
  {}

  lemma MemberStep(s: string, m: Member, fmt: bool, value: string, tail: string)
    requires m.name.Some? && ParseString(s) == Parsed(m.name.value, ":" + (When(fmt, "\t") + value)) && Solid(value)
    requires ParseValue(value) == Parsed(m.value, tail)
    ensures ParseMember(s) == Parsed(m, tail)
  {
    hide ParseString, ParseValue;
    var colon := ":" + (When(fmt, "\t") + value);
    SkipIndent(0, fmt, value);
    SkipSolid(colon);
    assert colon[1..] == When(fmt, "\t") + value;
  }

  lemma {:induction false} MembersRoundTrip(ms: seq<Member>, depth: nat, fmt: bool, suffix: string)
    requires PrintableMembers(ms) && CompleteMembers(ms)
    ensures ParseMembers(Skip(MembersTail(ms, depth, fmt, suffix))) == Parsed(ms, suffix)
    decreases ms, 1
  {
    hide ParseMember, ParseMembers, PrintMembers, MembersTail, MemberText, Skip, When;
    if ms == [] {
      MembersEnd(depth, fmt, suffix);
    } else {
      var t := MembersTail(ms, depth, fmt, suffix);
      MembersTailOpens(ms, depth, fmt, suffix);
      SkipSolid(t);
      MemberRoundTrip(ms[0], depth, fmt, ms[1..], suffix);
      MembersRoundTrip(ms[1..], depth, fmt, suffix);
      MembersStep(t, ms[0], MembersTail(ms[1..], depth, fmt, suffix), ms[1..], suffix);
      Cons(ms);
    }
  }

  lemma MembersEnd(depth: nat, fmt: bool, suffix: string)
    ensures Skip(MembersTail([], depth, fmt, suffix)) == "}" + suffix
    ensures ParseMembers("}" + suffix) == Parsed([], suffix)
  {
    var indent, close := When(fmt, Tabs(depth - 1)), "}" + suffix;
    assert close[0] == '}' && close[1..] == suffix;
    hide Tabs;
    assert When(fmt, "\n") + ("" + (indent + close)) == When(fmt, "\n" + Tabs(depth - 1)) + close;
    SkipIndent(depth - 1, fmt, close);
  }

  // What cJSON_Print and cJSON_PrintUnformatted print is a whole document.
  lemma DocumentRoundTrip(v: Json, fmt: bool, requireEnd: bool)
    requires Printable(v) && Complete(v)
    ensures ParseDocument(PrintValue(v, 0, fmt), requireEnd) == Parsed(v, "")
  {
    var s := PrintValue(v, 0, fmt);
    assert s + "" == s;
    ValueRoundTrip(v, 0, fmt, "");
    PrintedValueIsSolid(v, 0, fmt);
    SkipSolid(s);
  }
}
