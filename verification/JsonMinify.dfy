/** Minifying either printed form of a value gives the compact form. */
module JsonMinify {
  import opened Sequences
  import opened Options
  import opened JsonSyntax
  import opened JsonRoundTrip

  function Prepend(a: string, o: Option<string>): Option<string> {
    match o
    case None => None
    case Some(b) => Some(a + b)
  }

  // In front of any text, minifying turns a into b.
  ghost predicate Squeezes(a: string, b: string) {
    forall t :: Minify(a + t) == Prepend(b, Minify(t))
  }

  lemma SqueezesConcat(a: string, b: string, a': string, b': string)
    requires Squeezes(a, b) && Squeezes(a', b')
    ensures Squeezes(a + a', b + b')
  {
    forall t
      ensures Minify((a + a') + t) == Prepend(b + b', Minify(t))
    {
      Assoc(a, a', t);
      assert Minify(a' + t) == Prepend(b', Minify(t));
      if Minify(t).Some? {
        Assoc(b, b', Minify(t).value);
      }
    }
  }

  predicate IsBlank(c: char) {
    c in {' ', '\t', '\r', '\n'}
  }

  lemma BlankVanishes(c: char)
    requires IsBlank(c)
    ensures Squeezes([c], "")
  {
    forall t
      ensures Minify([c] + t) == Prepend("", Minify(t))
    {
      assert ([c] + t)[0] == c && ([c] + t)[1..] == t;
      PrependNothing(Minify(t));
    }
  }

  lemma PrependNothing(o: Option<string>)
    ensures Prepend("", o) == o
  {
    if o.Some? {
      assert "" + o.value == o.value;
    }
  }

  lemma {:induction false} BlanksVanish(a: string)
    requires forall i | 0 <= i < |a| :: IsBlank(a[i])
    ensures Squeezes(a, "")
  {
    if a == "" {
      NothingSqueezes();
    } else {
      BlankVanishes(a[0]);
      BlanksVanish(a[1..]);
      SqueezesConcat([a[0]], "", a[1..], "");
      assert [a[0]] + a[1..] == a && "" + "" == "";
    }
  }

  lemma NothingSqueezes()
    ensures Squeezes("", "")
  {
    hide Minify;
    forall t
      ensures Minify("" + t) == Prepend("", Minify(t))
    {
      assert "" + t == t;
      PrependNothing(Minify(t));
    }
  }

  // Outside of strings, everything but blanks and the start of a comment is copied.
  predicate IsPlain(a: string) {
    forall i | 0 <= i < |a| :: !IsBlank(a[i]) && a[i] != '/' && a[i] != '\"'
  }

  lemma PlainCharIsCopied(c: char)
    requires IsPlain([c])
    ensures Squeezes([c], [c])
  {
    forall t
      ensures Minify([c] + t) == Prepend([c], Minify(t))
    {
      assert IsPlain([c]) && [c][0] == c;
      assert ([c] + t)[0] == c && ([c] + t)[1..] == t;
    }
  }

  lemma {:induction false} PlainIsCopied(a: string)
    requires IsPlain(a)
    ensures Squeezes(a, a)
  {
    if a == "" {
      BlanksVanish(a);
    } else {
      PlainCharIsCopied(a[0]);
      PlainIsCopied(a[1..]);
      SqueezesConcat([a[0]], [a[0]], a[1..], a[1..]);
      assert [a[0]] + a[1..] == a;
    }
  }

  lemma {:induction false} LiteralIsCopied(str: string, t: string)
    ensures CopyLiteral(Escape(str) + ("\"" + t)) == Some((Escape(str) + "\"", t))
  {
    var close := "\"" + t;
    if str == "" {
      assert Escape(str) + close == close;
      assert close[1..] == t;
      assert Escape(str) + "\"" == "\"";
    } else {
      LiteralIsCopied(str[1..], t);
      Assoc(EscapeChar(str[0]), Escape(str[1..]), close);
      Assoc(EscapeChar(str[0]), Escape(str[1..]), "\"");
      EscapedCharIsCopied(str[0], Escape(str[1..]) + close, Escape(str[1..]) + "\"", t);
    }
  }

  lemma EscapedCharIsCopied(c: char, s: string, lit: string, t: string)
    requires CopyLiteral(s) == Some((lit, t))
    ensures CopyLiteral(EscapeChar(c) + s) == Some((EscapeChar(c) + lit, t))
  {
    var e := EscapeChar(c);
    if |e| == 1 {
      assert (e + s)[1..] == s && (e + s)[..1] == e;
    } else if |e| == 2 {
      assert (e + s)[2..] == s && (e + s)[..2] == e;
    } else {
      HexLiteralStep(HexChar(c as int / 16), HexChar(c as int % 16), s, lit, t);
    }
  }

  lemma HexLiteralStep(hi: char, lo: char, s: string, lit: string, t: string)
    requires hi != '\"' && hi != '\\' && lo != '\"' && lo != '\\'
    requires CopyLiteral(s) == Some((lit, t))
    ensures CopyLiteral("\\u00" + [hi, lo] + s) == Some(("\\u00" + [hi, lo] + lit, t))
  {
    var s3, lit3 := [lo] + s, [lo] + lit;
    var s2, lit2 := [hi] + s3, [hi] + lit3;
    var s1, lit1 := "0" + s2, "0" + lit2;
    var s0, lit0 := "0" + s1, "0" + lit1;
    hide CopyLiteral;
    PlainLiteralStep([lo], s, lit, t);
    PlainLiteralStep([hi], s3, lit3, t);
    PlainLiteralStep("0", s2, lit2, t);
    PlainLiteralStep("0", s1, lit1, t);
    BackslashLiteralStep('u', s0, lit0, t);
    HexGrouped(hi, lo, s);
    HexGrouped(hi, lo, lit);
  }

  lemma HexGrouped(hi: char, lo: char, s: string)
    ensures "\\u00" + [hi, lo] + s == "\\u" + ("0" + ("0" + ([hi] + ([lo] + s))))
  {}

  lemma BackslashLiteralStep(c: char, s: string, lit: string, t: string)
    requires CopyLiteral(s) == Some((lit, t))
    ensures CopyLiteral(['\\', c] + s) == Some((['\\', c] + lit, t))
  {
    assert (['\\', c] + s)[2..] == s && (['\\', c] + s)[..2] == ['\\', c];
  }

  lemma PlainLiteralStep(c: string, s: string, lit: string, t: string)
    requires |c| == 1 && c[0] != '\"' && c[0] != '\\'
    requires CopyLiteral(s) == Some((lit, t))
    ensures CopyLiteral(c + s) == Some((c + lit, t))
  {
    assert (c + s)[1..] == s && (c + s)[..1] == c;
  }

  // Minifying copies a literal and goes on behind it.
  lemma MinifyLiteral(s: string, lit: string, t: string)
    requires s != "" && s[0] == '\"' && CopyLiteral(s[1..]) == Some((lit, t))
    ensures Minify(s) == Prepend("\"" + lit, Minify(t))
  {
    hide CopyLiteral;
  }

  lemma QuotedText(esc: string, t: string)
    ensures var s := "\"" + esc + "\"" + t;
            s[0] == '\"' && s[1..] == esc + ("\"" + t) && "\"" + (esc + "\"") == "\"" + esc + "\""
  {
    assert ("\"" + esc + "\"" + t)[1..] == esc + ("\"" + t);
  }

  lemma StringIsCopied(str: string)
    ensures Squeezes(PrintString(str), PrintString(str))
  {
    hide Minify, CopyLiteral, Escape, Prepend;
    forall t
      ensures Minify(PrintString(str) + t) == Prepend(PrintString(str), Minify(t))
    {
      LiteralIsCopied(str, t);
      QuotedText(Escape(str), t);
      MinifyLiteral(PrintString(str) + t, Escape(str) + "\"", t);
    }
  }

  lemma TextIsCopied(str: Option<string>)
    ensures Squeezes(PrintText(str), PrintText(str))
  {
    match str
    case None => PlainIsCopied("");
    case Some(s) => StringIsCopied(s);
  }

  lemma {:induction false} DecimalIsPlain(n: nat)
    ensures IsPlain(Decimal(n))
  {
    if n >= 10 {
      DecimalIsPlain(n / 10);
    }
  }

  lemma {:induction false} TabsAreBlank(n: int)
    ensures forall i | 0 <= i < |Tabs(n)| :: IsBlank(Tabs(n)[i])
  {
    if n > 0 {
      TabsAreBlank(n - 1);
    }
  }

  lemma LayoutVanishes(depth: int, fmt: bool)
    ensures Squeezes(When(fmt, Tabs(depth)), "")
    ensures Squeezes(When(fmt, "\n" + Tabs(depth)), "")
    ensures Squeezes(When(fmt, "\n"), "") && Squeezes(When(fmt, "\t"), "") && Squeezes(When(fmt, " "), "")
  {
    TabsAreBlank(depth);
    BlanksVanish(When(fmt, Tabs(depth)));
    BlanksVanish(When(fmt, "\n" + Tabs(depth)));
    BlanksVanish(When(fmt, "\n"));
    BlanksVanish(When(fmt, "\t"));
    BlanksVanish(When(fmt, " "));
  }

  lemma {:induction false} ValueSqueezes(v: Json, depth: nat, fmt: bool)
    requires Printable(v)
    ensures Squeezes(PrintValue(v, depth, fmt), PrintValue(v, depth, false))
    decreases v, 1
  {
    match v
    case Null => PlainIsCopied("null");
    case False => PlainIsCopied("false");
    case True => PlainIsCopied("true");
    case Number(n, _) =>
      DecimalIsPlain(if n < 0 then -n else n);
      PlainIsCopied(PrintInt(n));
    case String(str) => TextIsCopied(str);
    case Array(items) =>
      PlainIsCopied("[");
      PlainIsCopied("]");
      ItemsSqueeze(items, depth + 1, fmt);
      SqueezesConcat("[", "[", PrintItems(items, depth + 1, fmt), PrintItems(items, depth + 1, false));
      SqueezesConcat("[" + PrintItems(items, depth + 1, fmt), "[" + PrintItems(items, depth + 1, false), "]", "]");
    case Object(ms) => ObjectSqueezes(ms, depth, fmt);
  }

  lemma {:induction false} ItemsSqueeze(items: seq<Json>, depth: nat, fmt: bool)
    requires PrintableItems(items)
    ensures Squeezes(PrintItems(items, depth, fmt), PrintItems(items, depth, false))
    decreases items, 0
  {
    if items == [] {
      PlainIsCopied("");
    } else {
      var last := |items| == 1;
      ValueSqueezes(items[0], depth, fmt);
      PlainIsCopied(",");
      PlainIsCopied("");
      LayoutVanishes(0, fmt);
      SqueezesConcat(",", ",", When(fmt, " "), "");
      ItemsSqueeze(items[1..], depth, fmt);
      SqueezesConcat(PrintValue(items[0], depth, fmt), PrintValue(items[0], depth, false),
                     ItemSeparator(last, fmt), ItemSeparator(last, false));
      SqueezesConcat(PrintValue(items[0], depth, fmt) + ItemSeparator(last, fmt),
                     PrintValue(items[0], depth, false) + ItemSeparator(last, false),
                     PrintItems(items[1..], depth, fmt), PrintItems(items[1..], depth, false));
    }
  }

  lemma {:induction false} ObjectSqueezes(ms: seq<Member>, depth: nat, fmt: bool)
    requires Printable(Object(ms))
    ensures Squeezes(PrintValue(Object(ms), depth, fmt), PrintValue(Object(ms), depth, false))
    decreases ms, 1
  {
    PlainIsCopied("{");
    PlainIsCopied("}");
    LayoutVanishes(depth - 1, fmt);
    LayoutVanishes(depth, fmt);
    if ms == [] {
      SqueezesConcat("{", "{", When(fmt, "\n" + Tabs(depth - 1)), "");
      SqueezesConcat("{" + When(fmt, "\n" + Tabs(depth - 1)), "{" + "", "}", "}");
    } else {
      var p, q := PrintMembers(ms, depth + 1, fmt), PrintMembers(ms, depth + 1, false);
      MembersSqueeze(ms, depth + 1, fmt);
      SqueezesConcat("{", "{", When(fmt, "\n"), "");
      SqueezesConcat("{" + When(fmt, "\n"), "{" + "", p, q);
      SqueezesConcat("{" + When(fmt, "\n") + p, "{" + "" + q, When(fmt, Tabs(depth)), "");
      SqueezesConcat("{" + When(fmt, "\n") + p + When(fmt, Tabs(depth)), "{" + "" + q + "", "}", "}");
    }
  }

  lemma {:induction false} MembersSqueeze(ms: seq<Member>, depth: nat, fmt: bool)
    requires PrintableMembers(ms)
    ensures Squeezes(PrintMembers(ms, depth, fmt), PrintMembers(ms, depth, false))
    decreases ms, 0
  {
    if ms == [] {
      PlainIsCopied("");
    } else {
      var last := |ms| == 1;
      var comma := if last then "" else ",";
      MemberSqueezes(ms[0], depth, fmt);
      PlainIsCopied(comma);
      LayoutVanishes(0, fmt);
      SqueezesConcat(comma, comma, When(fmt, "\n"), "");
      MembersSqueeze(ms[1..], depth, fmt);
      SqueezesConcat(PrintMember(ms[0], depth, fmt), PrintMember(ms[0], depth, false),
                     MemberSeparator(last, fmt), MemberSeparator(last, false));
      SqueezesConcat(PrintMember(ms[0], depth, fmt) + MemberSeparator(last, fmt),
                     PrintMember(ms[0], depth, false) + MemberSeparator(last, false),
                     PrintMembers(ms[1..], depth, fmt), PrintMembers(ms[1..], depth, false));
    }
  }

  lemma {:induction false} MemberSqueezes(m: Member, depth: nat, fmt: bool)
    requires Printable(m.value)
    ensures Squeezes(PrintMember(m, depth, fmt), PrintMember(m, depth, false))
    decreases m, 0
  {
    var tabs, name := When(fmt, Tabs(depth)), PrintText(m.name);
    LayoutVanishes(depth, fmt);
    TextIsCopied(m.name);
    PlainIsCopied(":");
    ValueSqueezes(m.value, depth, fmt);
    SqueezesConcat(tabs, "", name, name);
    SqueezesConcat(tabs + name, "" + name, ":", ":");
    SqueezesConcat(tabs + name + ":", "" + name + ":", When(fmt, "\t"), "");
    SqueezesConcat(tabs + name + ":" + When(fmt, "\t"), "" + name + ":" + "",
                   PrintValue(m.value, depth, fmt), PrintValue(m.value, depth, false));
  }

  lemma MinifyPrinted(v: Json, fmt: bool)
    requires Printable(v)
    ensures Minify(PrintValue(v, 0, fmt)) == Some(PrintValue(v, 0, false))
  {
    ValueSqueezes(v, 0, fmt);
    var s, c := PrintValue(v, 0, fmt), PrintValue(v, 0, false);
    assert s + "" == s && c + "" == c;
    assert Minify(s + "") == Prepend(c, Minify(""));
  }
}
