/**
 Documents in any layout: white space may stand in front of every token and behind the last one, and
 for the minifier comments may stand there too.
 */
module JsonLayout {
  import opened Options
  import opened Sequences
  import opened JsonSyntax
  import opened JsonRoundTrip
  import opened JsonMinify

  /// Tokens

  function Tokens(v: Json): (r: seq<string>)
    requires Printable(v) && Complete(v)
    ensures |r| > 0
    decreases v, 1
  {
    match v
    case Null => ["null"]
    case False => ["false"]
    case True => ["true"]
    case Number(mant, _) => [PrintInt(mant)]
    case String(str) => [PrintString(str.value)]
    case Array(items) => ["["] + ItemTokens(items) + ["]"]
    case Object(ms) => ["{"] + MemberTokens(ms) + ["}"]
  }

  function ItemTokens(items: seq<Json>): seq<string>
    requires PrintableItems(items) && CompleteItems(items)
    decreases items, 0
  {
    if items == [] then []
    else Tokens(items[0]) + (if |items| == 1 then [] else [","]) + ItemTokens(items[1..])
  }

  function MemberTokens(ms: seq<Member>): seq<string>
    requires PrintableMembers(ms) && CompleteMembers(ms)
    decreases ms, 0
  {
    if ms == [] then []
    else EntryTokens(ms[0]) + (if |ms| == 1 then [] else [","]) + MemberTokens(ms[1..])
  }

  function EntryTokens(m: Member): seq<string>
    requires Printable(m.value) && m.name.Some? && Complete(m.value)
    decreases m, 0
  {
    [PrintString(m.name.value), ":"] + Tokens(m.value)
  }

  // Each token behind its gap.
  function Laid(tokens: seq<string>, gaps: seq<string>): string
    requires |tokens| == |gaps|
  {
    if tokens == [] then "" else gaps[0] + tokens[0] + Laid(tokens[1..], gaps[1..])
  }

  lemma {:induction false} LaidJoin(a: seq<string>, b: seq<string>, g: seq<string>, h: seq<string>)
    requires |a| == |g| && |b| == |h|
    ensures Laid(a + b, g + h) == Laid(a, g) + Laid(b, h)
  {
    if a == [] {
      assert a + b == b && g + h == h && "" + Laid(b, h) == Laid(b, h);
    } else {
      assert (a + b)[1..] == a[1..] + b && (g + h)[1..] == g[1..] + h;
      LaidJoin(a[1..], b, g[1..], h);
      Assoc(g[0] + a[0], Laid(a[1..], g[1..]), Laid(b, h));
    }
  }

  lemma LaidSplit(a: seq<string>, b: seq<string>, gaps: seq<string>)
    requires |a| + |b| == |gaps|
    ensures Laid(a + b, gaps) == Laid(a, gaps[..|a|]) + Laid(b, gaps[|a|..])
  {
    LaidJoin(a, b, gaps[..|a|], gaps[|a|..]);
    assert gaps[..|a|] + gaps[|a|..] == gaps;
  }

  lemma LaidOne(token: string, gaps: seq<string>)
    requires |gaps| == 1
    ensures Laid([token], gaps) == gaps[0] + token
  {
    assert [token][1..] == [] && gaps[1..] == [];
    assert Laid([token][1..], gaps[1..]) == "";
  }

  /// Reading any layout

  // Whatever the parser skips.
  predicate White(g: string) {
    forall i | 0 <= i < |g| :: g[i] <= ' '
  }

  predicate AllWhite(gaps: seq<string>) {
    forall i | 0 <= i < |gaps| :: White(gaps[i])
  }

  lemma {:induction false} SkipWhite(g: string, s: string)
    requires White(g)
    ensures Skip(g + s) == Skip(s)
  {
    if g == "" {
      assert g + s == s;
    } else {
      assert (g + s)[1..] == g[1..] + s;
      SkipWhite(g[1..], s);
    }
  }

  lemma WhiteEndsNumber(g: string, s: string)
    requires White(g) && s != "" && s[0] in {',', ']', '}'}
    ensures EndsNumber(g + s) && Skip(g + s) == s
  {
    SkipWhite(g, s);
    SkipSolid(s);
    assert g == "" ==> g + s == s;
  }

  // A token alone, in front of t.
  lemma TokenLaid(token: string, gaps: seq<string>, t: string)
    requires |gaps| == 1 && White(gaps[0]) && Solid(token)
    ensures Skip(Laid([token], gaps) + t) == token + t
  {
    LaidOne(token, gaps);
    Assoc(gaps[0], token, t);
    SkipWhite(gaps[0], token + t);
    SkipSolid(token + t);
  }

  lemma {:induction false} ValueLaid(v: Json, gaps: seq<string>, t: string)
    requires Printable(v) && Complete(v) && |gaps| == |Tokens(v)| && AllWhite(gaps) && EndsNumber(t)
    ensures ParseValue(Skip(Laid(Tokens(v), gaps) + t)) == Parsed(v, t)
    decreases v, 2
  {
    hide ParseValue, Skip, Laid;
    match v
    case Array(items) => ArrayLaid(items, gaps, t);
    case Object(ms) => ObjectLaid(ms, gaps, t);
    case _ =>
      PrintedValueIsSolid(v, 0, false);
      TokenLaid(PrintValue(v, 0, false), gaps, t);
      ValueRoundTrip(v, 0, false, t);
  }

  // An opening and a closing token around others.
  lemma Bracketed(open: string, inner: seq<string>, close: string, gaps: seq<string>, t: string)
    requires |gaps| == |inner| + 2 && AllWhite(gaps) && |open| == |close| == 1 && Solid(open)
    ensures var n := |inner|; var tail := gaps[n + 1] + (close + t);
            Skip(Laid([open] + inner + [close], gaps) + t) == open + (Laid(inner, gaps[1..n + 1]) + tail)
  {
    var n := |inner|;
    LaidSplit([open] + inner, [close], gaps);
    LaidSplit([open], inner, gaps[..n + 1]);
    assert gaps[..n + 1][..1] == [gaps[0]] && gaps[..n + 1][1..] == gaps[1..n + 1] && gaps[n + 1..] == [gaps[n + 1]];
    LaidOne(open, [gaps[0]]);
    LaidOne(close, [gaps[n + 1]]);
    var i := Laid(inner, gaps[1..n + 1]);
    hide Laid;
    FourGrouped(gaps[0], open, i, gaps[n + 1], close, t);
    SkipWhite(gaps[0], open + (i + (gaps[n + 1] + (close + t))));
    SkipSolid(open + (i + (gaps[n + 1] + (close + t))));
  }

  lemma FourGrouped(g: string, open: string, i: string, h: string, close: string, t: string)
    ensures g + open + i + (h + close) + t == g + (open + (i + (h + (close + t))))
  {
    Assoc(g, open, i);
    Assoc(g, open + i, h + close);
    Assoc(open, i, h + close);
    Assoc(g, open + (i + (h + close)), t);
    Assoc(open, i + (h + close), t);
    Assoc(i, h + close, t);
    Assoc(h, close, t);
  }

  lemma {:induction false} ArrayLaid(items: seq<Json>, gaps: seq<string>, t: string)
    requires Printable(Array(items)) && Complete(Array(items)) && |gaps| == |Tokens(Array(items))| && AllWhite(gaps)
    ensures ParseValue(Skip(Laid(Tokens(Array(items)), gaps) + t)) == Parsed(Array(items), t)
    decreases items, 2
  {
    var inner := ItemTokens(items);
    var n := |inner|;
    var tail := gaps[n + 1] + ("]" + t);
    Bracketed("[", inner, "]", gaps, t);
    WhiteEndsNumber(gaps[n + 1], "]" + t);
    var body := Laid(inner, gaps[1..n + 1]) + tail;
    hide Laid, ParseValue, Skip;
    if items == [] {
      EmptyLaid(inner, gaps[1..n + 1], tail);
      EmptyBrackets("[" + body, body, t);
    } else {
      ItemsLaid(items, gaps[1..n + 1], tail, t);
      FullBrackets("[" + body, body, items, t);
    }
  }

  lemma EmptyLaid(inner: seq<string>, gaps: seq<string>, tail: string)
    requires |inner| == |gaps| == 0
    ensures Laid(inner, gaps) + tail == tail
  {}

  lemma EmptyBrackets(s: string, body: string, t: string)
    requires s == "[" + body && Skip(body) == "]" + t
    ensures ParseValue(s) == Parsed(Array([]), t)
  {
    assert s[0] == '[' && s[1..] == body && ("]" + t)[1..] == t;
    NotALiteral(s);
  }

  // What reading elements from the white space in front of the first one gives.
  ghost predicate ReadsItems(body: string, items: seq<Json>, t: string) {
    var r := ParseValue(Skip(body));
    && items != [] && r.Parsed? && r.value == items[0] && ParseItems(Skip(r.rest)) == Parsed(items[1..], t)
    && Skip(body) != "" && Skip(body)[0] != ']' && Skip(Skip(body)) == Skip(body)
  }

  lemma FullBrackets(s: string, body: string, items: seq<Json>, t: string)
    requires s == "[" + body && ReadsItems(body, items, t)
    ensures ParseValue(s) == Parsed(Array(items), t)
  {
    assert s[0] == '[' && s[1..] == body;
    NotALiteral(s);
    hide Skip;
    Cons(items);
  }

  lemma {:induction false} ItemsLaid(items: seq<Json>, gaps: seq<string>, tail: string, t: string)
    requires PrintableItems(items) && CompleteItems(items) && items != [] && |gaps| == |ItemTokens(items)| && AllWhite(gaps)
    requires EndsNumber(tail) && Skip(tail) == "]" + t
    ensures ReadsItems(Laid(ItemTokens(items), gaps) + tail, items, t)
    decreases items, 1
  {
    var first := Tokens(items[0]);
    var k := |first|;
    RestOfItems(items);
    if |items| == 1 {
      assert items[1..] == [] && ItemTokens(items) == first;
      LastItem(items, gaps, tail, t);
    } else {
      var rest := ItemTokens(items[1..]);
      assert ItemTokens(items) == first + ([","] + rest);
      MoreLaid(first, rest, gaps, tail);
      var g0, g2 := gaps[..k], gaps[k + 1..];
      var more := Laid(rest, g2) + tail;
      hide Laid, ItemTokens, Tokens, ParseValue, ParseItems, Skip;
      WhiteEndsNumber(gaps[k], "," + more);
      ValueLaid(items[0], g0, gaps[k] + ("," + more));
      ItemsLaid(items[1..], g2, tail, t);
      NextItem(Laid(first, g0) + (gaps[k] + ("," + more)), items, gaps[k] + ("," + more), more, t);
    }
  }

  lemma {:induction false} LastItem(items: seq<Json>, gaps: seq<string>, tail: string, t: string)
    requires PrintableItems(items) && CompleteItems(items) && |items| == 1 && |gaps| == |Tokens(items[0])| && AllWhite(gaps)
    requires EndsNumber(tail) && Skip(tail) == "]" + t
    ensures ReadsItems(Laid(Tokens(items[0]), gaps) + tail, items, t)
    decreases items, 0
  {
    hide Laid, Tokens, ParseValue, Skip;
    ValueLaid(items[0], gaps, tail);
    ValueStarts(Laid(Tokens(items[0]), gaps) + tail);
    assert ("]" + t)[1..] == t && items[1..] == [];
  }

  lemma ValueStarts(s: string)
    requires ParseValue(Skip(s)).Parsed?
    ensures Skip(s) != "" && Skip(s)[0] !in {']', '}', ','} && Skip(Skip(s)) == Skip(s)
  {
    SkipTwice(s);
  }

  // A comma between what stands before and behind it.
  lemma MoreLaid(first: seq<string>, rest: seq<string>, gaps: seq<string>, tail: string)
    requires |gaps| == |first| + 1 + |rest|
    ensures var k := |first|;
            Laid(first + ([","] + rest), gaps) + tail
            == Laid(first, gaps[..k]) + (gaps[k] + ("," + (Laid(rest, gaps[k + 1..]) + tail)))
  {
    hide Laid;
    var k := |first|;
    LaidSplit(first, [","] + rest, gaps);
    LaidSplit([","], rest, gaps[k..]);
    assert gaps[k..][..1] == [gaps[k]] && gaps[k..][1..] == gaps[k + 1..];
    LaidOne(",", [gaps[k]]);
    var a, r := Laid(first, gaps[..k]), Laid(rest, gaps[k + 1..]);
    Assoc(gaps[k], ",", r);
    Assoc(a, gaps[k] + ("," + r), tail);
    Assoc(gaps[k], "," + r, tail);
    Assoc(",", r, tail);
  }

  lemma NextItem(body: string, items: seq<Json>, behind: string, more: string, t: string)
    requires |items| > 1 && ParseValue(Skip(body)) == Parsed(items[0], behind) && Skip(behind) == "," + more
    requires ReadsItems(more, items[1..], t)
    ensures ReadsItems(body, items, t)
  {
    hide ParseValue, Skip;
    ValueStarts(body);
    assert ("," + more)[1..] == more;
    Cons(items[1..]);
  }

  lemma {:induction false} ObjectLaid(ms: seq<Member>, gaps: seq<string>, t: string)
    requires Printable(Object(ms)) && Complete(Object(ms)) && |gaps| == |Tokens(Object(ms))| && AllWhite(gaps)
    ensures ParseValue(Skip(Laid(Tokens(Object(ms)), gaps) + t)) == Parsed(Object(ms), t)
    decreases ms, 2
  {
    var inner := MemberTokens(ms);
    var n := |inner|;
    var tail := gaps[n + 1] + ("}" + t);
    Bracketed("{", inner, "}", gaps, t);
    WhiteEndsNumber(gaps[n + 1], "}" + t);
    var body := Laid(inner, gaps[1..n + 1]) + tail;
    hide Laid, ParseValue, Skip;
    if ms == [] {
      EmptyLaid(inner, gaps[1..n + 1], tail);
      EmptyObjectText("{" + body, body, t);
    } else {
      MembersLaid(ms, gaps[1..n + 1], tail, t);
      FullBraces("{" + body, body, ms, t);
    }
  }

  // What reading members from the white space in front of the first one gives.
  ghost predicate ReadsMembers(body: string, ms: seq<Member>, t: string) {
    var r := ParseMember(Skip(body));
    && ms != [] && r.Parsed? && r.value == ms[0] && ParseMembers(Skip(r.rest)) == Parsed(ms[1..], t)
  }

  lemma FullBraces(s: string, body: string, ms: seq<Member>, t: string)
    requires s == "{" + body && ReadsMembers(body, ms, t)
    ensures ParseValue(s) == Parsed(Object(ms), t)
  {
    assert s[0] == '{' && s[1..] == body;
    NotALiteral(s);
    MemberStarts(body);
    hide Skip, ParseMember;
    Cons(ms);
  }

  lemma MemberStarts(s: string)
    requires ParseMember(Skip(s)).Parsed?
    ensures Skip(s) != "" && Skip(s)[0] == '\"' && Skip(Skip(s)) == Skip(s)
  {
    SkipTwice(s);
  }

  lemma {:induction false} EntryLaid(m: Member, gaps: seq<string>, t: string)
    requires NoNul(m.name) && m.name.Some? && Printable(m.value) && Complete(m.value) && EndsNumber(t)
    requires |gaps| == |EntryTokens(m)| && AllWhite(gaps)
    ensures ParseMember(Skip(Laid(EntryTokens(m), gaps) + t)) == Parsed(m, t)
    decreases m, 3
  {
    var name, toks := PrintString(m.name.value), Tokens(m.value);
    assert EntryTokens(m) == [name] + ([":"] + toks);
    LaidSplit([name], [":"] + toks, gaps);
    LaidSplit([":"], toks, gaps[1..]);
    assert gaps[..1] == [gaps[0]] && gaps[1..][..1] == [gaps[1]] && gaps[1..][1..] == gaps[2..];
    LaidOne(name, [gaps[0]]);
    LaidOne(":", [gaps[1]]);
    var value := Laid(toks, gaps[2..]);
    var colon := gaps[1] + (":" + (value + t));
    hide Laid, ParseValue, ParseString, ParseMember, Skip, PrintString, Tokens, EntryTokens;
    EntryGrouped(gaps[0], name, gaps[1], value, t);
    PrintedStringOpens(m.name.value);
    SkipWhite(gaps[0], name + colon);
    SkipSolid(name + colon);
    StringRoundTrip(m.name.value, colon);
    ValueLaid(m.value, gaps[2..], t);
    SkipWhite(gaps[1], ":" + (value + t));
    SkipSolid(":" + (value + t));
    EntryReads(name + colon, m, colon, value + t, t);
  }

  lemma EntryGrouped(g: string, name: string, h: string, value: string, t: string)
    ensures g + name + (h + ":" + value) + t == g + (name + (h + (":" + (value + t))))
  {
    Assoc(g, name, h + ":" + value);
    Assoc(g, name + (h + ":" + value), t);
    Assoc(name, h + ":" + value, t);
    Assoc(h, ":", value);
    Assoc(h, ":" + value, t);
    Assoc(":", value, t);
  }

  lemma EntryReads(s: string, m: Member, colon: string, value: string, t: string)
    requires m.name.Some? && ParseString(s) == Parsed(m.name.value, colon) && Skip(colon) == ":" + value
    requires ParseValue(Skip(value)) == Parsed(m.value, t)
    ensures ParseMember(s) == Parsed(m, t)
  {
    hide ParseString, ParseValue, Skip;
    assert (":" + value)[1..] == value;
  }

  lemma {:induction false} MembersLaid(ms: seq<Member>, gaps: seq<string>, tail: string, t: string)
    requires PrintableMembers(ms) && CompleteMembers(ms) && ms != [] && |gaps| == |MemberTokens(ms)| && AllWhite(gaps)
    requires EndsNumber(tail) && Skip(tail) == "}" + t
    ensures ReadsMembers(Laid(MemberTokens(ms), gaps) + tail, ms, t)
    decreases ms, 1
  {
    hide Laid, EntryTokens, ParseMember, ParseMembers, Skip;
    var first := EntryTokens(ms[0]);
    var k := |first|;
    RestOfMembers(ms);
    if |ms| == 1 {
      assert ms[1..] == [] && MemberTokens(ms) == first;
      hide Laid, EntryTokens, MemberTokens, ParseMember, Skip;
      EntryLaid(ms[0], gaps, tail);
      MembersStop(t);
    } else {
      var rest := MemberTokens(ms[1..]);
      assert MemberTokens(ms) == first + ([","] + rest);
      MoreLaid(first, rest, gaps, tail);
      var g0, g2 := gaps[..k], gaps[k + 1..];
      var more := Laid(rest, g2) + tail;
      hide Laid, MemberTokens, EntryTokens, ParseMember, ParseMembers, Skip;
      WhiteEndsNumber(gaps[k], "," + more);
      EntryLaid(ms[0], g0, gaps[k] + ("," + more));
      MembersLaid(ms[1..], g2, tail, t);
      NextMember(Laid(first, g0) + (gaps[k] + ("," + more)), ms, gaps[k] + ("," + more), more, t);
    }
  }

  lemma MembersStop(t: string)
    ensures ParseMembers("}" + t) == Parsed([], t)
  {
    assert ("}" + t)[1..] == t;
  }

  lemma RestOfMembers(ms: seq<Member>)
    requires PrintableMembers(ms) && CompleteMembers(ms) && ms != []
    ensures PrintableMembers(ms[1..]) && CompleteMembers(ms[1..])
    ensures NoNul(ms[0].name) && ms[0].name.Some? && Printable(ms[0].value) && Complete(ms[0].value)
  {}

  lemma NextMember(body: string, ms: seq<Member>, behind: string, more: string, t: string)
    requires |ms| > 1 && ParseMember(Skip(body)) == Parsed(ms[0], behind) && Skip(behind) == "," + more
    requires ReadsMembers(more, ms[1..], t)
    ensures ReadsMembers(body, ms, t)
  {
    hide ParseMember, Skip;
    assert ("," + more)[1..] == more;
    Cons(ms[1..]);
  }

  // Any layout of a document reads as its value. What stands behind it is where parsing stops; if the end
  // is required, that is refused, and the error position is at it.
  lemma DocumentLaid(v: Json, gaps: seq<string>, t: string)
    requires Printable(v) && Complete(v) && |gaps| == |Tokens(v)| && AllWhite(gaps) && EndsNumber(t)
    ensures var s := Laid(Tokens(v), gaps) + t;
            && ParseDocument(s, false) == Parsed(v, t)
            && ParseDocument(s, true) == if Skip(t) == "" then Parsed(v, "") else Failed(Skip(t))
    ensures White(t) <==> Skip(t) == ""
  {
    hide ParseValue, Tokens, Laid;
    ValueLaid(v, gaps, t);
    WhiteSkips(t);
  }

  lemma {:induction false} WhiteSkips(t: string)
    ensures White(t) <==> Skip(t) == ""
  {
    if t != "" && t[0] <= ' ' {
      WhiteSkips(t[1..]);
      assert forall i | 1 <= i < |t| :: t[i] == t[1..][i - 1];
    }
  }

  /// Minifying any layout

  // A blank, or a comment.
  datatype Bit = Blank(c: char) | Line(text: string) | Block(text: string)

  // No closing mark comes before the one put behind the text, even right after the opening one.
  predicate IsBit(b: Bit) {
    match b
    case Blank(c) => c in " \t\r\n"
    case Line(text) => '\n' !in text
    case Block(text) => forall i | 0 <= i <= |text| :: !("*/" <= ("*" + text + "*")[i..])
  }

  function BitText(b: Bit): string {
    match b
    case Blank(c) => [c]
    case Line(text) => "//" + text + "\n"
    case Block(text) => "/*" + text + "*/"
  }

  predicate AreBits(bits: seq<Bit>) {
    forall i | 0 <= i < |bits| :: IsBit(bits[i])
  }

  function GapText(bits: seq<Bit>): string {
    if bits == [] then "" else BitText(bits[0]) + GapText(bits[1..])
  }

  lemma {:induction false} LineDropped(text: string, t: string)
    requires '\n' !in text
    ensures DropLine(text + ("\n" + t)) == "\n" + t
  {
    if text == "" {
      assert "" + ("\n" + t) == "\n" + t;
    } else {
      assert (text + ("\n" + t))[1..] == text[1..] + ("\n" + t);
      LineDropped(text[1..], t);
    }
  }

  lemma {:induction false} BlockDropped(text: string, t: string)
    requires forall i | 0 <= i < |text| :: !("*/" <= (text + "*")[i..])
    ensures DropBlock(text + ("*/" + t)) == Some(t)
    decreases |text|
  {
    var s := text + ("*/" + t);
    if text == "" {
      assert s == "*/" + t && s[2..] == t;
    } else {
      assert !("*/" <= s) by {
        assert !("*/" <= (text + "*")[0..]);
        assert (text + "*")[0..] == text + "*" && s[0] == text[0] && s[1] == (text + "*")[1];
      }
      forall i | 0 <= i < |text[1..]|
        ensures !("*/" <= (text[1..] + "*")[i..])
      {
        assert (text[1..] + "*")[i..] == (text + "*")[i + 1..];
      }
      assert s[1..] == text[1..] + ("*/" + t);
      BlockDropped(text[1..], t);
    }
  }

  lemma BitVanishes(b: Bit)
    requires IsBit(b)
    ensures Squeezes(BitText(b), "")
  {
    match b
    case Blank(c) => BlankVanishes(c);
    case Line(text) => LineVanishes(text);
    case Block(text) => BlockVanishes(text);
  }

  lemma LineVanishes(text: string)
    requires '\n' !in text
    ensures Squeezes("//" + text + "\n", "")
  {
    BlankVanishes('\n');
    forall t
      ensures Minify("//" + text + "\n" + t) == Prepend("", Minify(t))
    {
      var s := "//" + text + "\n" + t;
      assert s == ("//" + text) + ("\n" + t);
      LineDropped("//" + text, t);
      assert Minify(['\n'] + t) == Prepend("", Minify(t));
      assert "//" <= s;
    }
  }

  lemma BlockVanishes(text: string)
    requires IsBit(Block(text))
    ensures Squeezes("/*" + text + "*/", "")
  {
    forall t
      ensures Minify("/*" + text + "*/" + t) == Prepend("", Minify(t))
    {
      var s := "/*" + text + "*/" + t;
      assert s == ("/*" + text) + ("*/" + t) && s[0] == '/' && s[1] == '*';
      assert "/*" <= s;
      forall i | 0 <= i < |"/*" + text|
        ensures !("*/" <= ("/*" + text + "*")[i..])
      {
        var inner := "*" + text + "*";
        assert "/*" + text + "*" == "/" + inner;
        if i > 0 {
          assert ("/" + inner)[i..] == inner[i - 1..];
        } else {
          assert ("/" + inner)[0..][0] == '/';
        }
      }
      BlockDropped("/*" + text, t);
      PrependNothing(Minify(t));
    }
  }

  lemma {:induction false} GapVanishes(bits: seq<Bit>)
    requires AreBits(bits)
    ensures Squeezes(GapText(bits), "")
  {
    if bits == [] {
      NothingSqueezes();
    } else {
      BitVanishes(bits[0]);
      GapVanishes(bits[1..]);
      hide Squeezes;
      SqueezesConcat(BitText(bits[0]), "", GapText(bits[1..]), "");
      assert "" + "" == "";
    }
  }

  function GapTexts(gaps: seq<seq<Bit>>): (r: seq<string>)
    ensures |r| == |gaps|
  {
    if gaps == [] then [] else [GapText(gaps[0])] + GapTexts(gaps[1..])
  }

  function Joined(tokens: seq<string>): string {
    if tokens == [] then "" else tokens[0] + Joined(tokens[1..])
  }


  lemma {:induction false} JoinedJoin(a: seq<string>, b: seq<string>)
    ensures Joined(a + b) == Joined(a) + Joined(b)
  {
    if a == [] {
      assert a + b == b;
    } else {
      assert (a + b)[1..] == a[1..] + b;
      JoinedJoin(a[1..], b);
    }
  }

  lemma JoinedOne(token: string)
    ensures Joined([token]) == token
  {
    assert [token][1..] == [];
  }

  // The compact text is the tokens without gaps.
  lemma {:induction false} CompactIsJoined(v: Json, depth: nat)
    requires Printable(v) && Complete(v)
    ensures Joined(Tokens(v)) == PrintValue(v, depth, false)
    decreases v, 1
  {
    match v
    case Array(items) =>
      JoinedJoin(["["] + ItemTokens(items), ["]"]);
      JoinedJoin(["["], ItemTokens(items));
      JoinedOne("[");
      JoinedOne("]");
      CompactItems(items, depth + 1);
    case Object(ms) =>
      JoinedJoin(["{"] + MemberTokens(ms), ["}"]);
      JoinedJoin(["{"], MemberTokens(ms));
      JoinedOne("{");
      JoinedOne("}");
      CompactMembers(ms, depth + 1);
    case _ => JoinedOne(PrintValue(v, depth, false));
  }

  lemma {:induction false} CompactItems(items: seq<Json>, depth: nat)
    requires PrintableItems(items) && CompleteItems(items)
    ensures Joined(ItemTokens(items)) == PrintItems(items, depth, false)
    decreases items, 0
  {
    if items != [] {
      var comma := if |items| == 1 then [] else [","];
      CompactIsJoined(items[0], depth);
      CompactItems(items[1..], depth);
      JoinedJoin(Tokens(items[0]) + comma, ItemTokens(items[1..]));
      JoinedJoin(Tokens(items[0]), comma);
      JoinedOne(",");
    }
  }

  lemma {:induction false} CompactMembers(ms: seq<Member>, depth: nat)
    requires PrintableMembers(ms) && CompleteMembers(ms)
    ensures Joined(MemberTokens(ms)) == PrintMembers(ms, depth, false)
    decreases ms, 0
  {
    if ms != [] {
      var comma := if |ms| == 1 then [] else [","];
      CompactEntry(ms[0], depth);
      CompactMembers(ms[1..], depth);
      JoinedJoin(EntryTokens(ms[0]) + comma, MemberTokens(ms[1..]));
      JoinedJoin(EntryTokens(ms[0]), comma);
      JoinedOne(",");
    }
  }

  lemma {:induction false} CompactEntry(m: Member, depth: nat)
    requires Printable(m.value) && m.name.Some? && Complete(m.value)
    ensures Joined(EntryTokens(m)) == PrintMember(m, depth, false)
    decreases m, 0
  {
    var name := PrintString(m.name.value);
    CompactIsJoined(m.value, depth);
    JoinedJoin([name, ":"], Tokens(m.value));
    assert [name, ":"] == [name] + [":"];
    JoinedJoin([name], [":"]);
    JoinedOne(name);
    JoinedOne(":");
  }

  // A token means the same to the minifier in front of any text.
  lemma {:induction false} TokensCopied(v: Json)
    requires Printable(v) && Complete(v)
    ensures forall i | 0 <= i < |Tokens(v)| :: Squeezes(Tokens(v)[i], Tokens(v)[i])
    decreases v, 1
  {
    hide Squeezes;
    match v
    case Array(items) =>
      PlainIsCopied("[");
      PlainIsCopied("]");
      ItemTokensCopied(items);
    case Object(ms) =>
      PlainIsCopied("{");
      PlainIsCopied("}");
      MemberTokensCopied(ms);
    case _ => ValueSqueezes(v, 0, false);
  }

  lemma {:induction false} ItemTokensCopied(items: seq<Json>)
    requires PrintableItems(items) && CompleteItems(items)
    ensures forall i | 0 <= i < |ItemTokens(items)| :: Squeezes(ItemTokens(items)[i], ItemTokens(items)[i])
    decreases items, 0
  {
    hide Squeezes;
    if items != [] {
      PlainIsCopied(",");
      TokensCopied(items[0]);
      ItemTokensCopied(items[1..]);
    }
  }

  lemma {:induction false} MemberTokensCopied(ms: seq<Member>)
    requires PrintableMembers(ms) && CompleteMembers(ms)
    ensures forall i | 0 <= i < |MemberTokens(ms)| :: Squeezes(MemberTokens(ms)[i], MemberTokens(ms)[i])
    decreases ms, 0
  {
    hide Squeezes;
    if ms != [] {
      PlainIsCopied(",");
      PlainIsCopied(":");
      EntryTokensCopied(ms[0]);
      MemberTokensCopied(ms[1..]);
    }
  }

  lemma {:induction false} EntryTokensCopied(m: Member)
    requires Printable(m.value) && m.name.Some? && Complete(m.value)
    ensures forall i | 0 <= i < |EntryTokens(m)| :: Squeezes(EntryTokens(m)[i], EntryTokens(m)[i])
    decreases m, 0
  {
    hide Squeezes;
    StringIsCopied(m.name.value);
    PlainIsCopied(":");
    TokensCopied(m.value);
  }

  lemma {:induction false} LaidSqueezes(tokens: seq<string>, gaps: seq<seq<Bit>>)
    requires |tokens| == |gaps| && forall i | 0 <= i < |gaps| :: AreBits(gaps[i])
    requires forall i | 0 <= i < |tokens| :: Squeezes(tokens[i], tokens[i])
    ensures Squeezes(Laid(tokens, GapTexts(gaps)), Joined(tokens))
  {
    hide Squeezes;
    if tokens == [] {
      NothingSqueezes();
    } else {
      var g := GapText(gaps[0]);
      GapVanishes(gaps[0]);
      LaidSqueezes(tokens[1..], gaps[1..]);
      assert GapTexts(gaps)[1..] == GapTexts(gaps[1..]);
      SqueezesConcat(g, "", tokens[0], tokens[0]);
      SqueezesConcat(g + tokens[0], "" + tokens[0], Laid(tokens[1..], GapTexts(gaps[1..])), Joined(tokens[1..]));
      assert "" + tokens[0] == tokens[0];
    }
  }

  // Minifying a document in any layout, with comments between its tokens, gives its compact text.
  lemma LayoutMinified(v: Json, gaps: seq<seq<Bit>>, last: seq<Bit>)
    requires Printable(v) && Complete(v) && |gaps| == |Tokens(v)| && AreBits(last)
    requires forall i | 0 <= i < |gaps| :: AreBits(gaps[i])
    ensures Minify(Laid(Tokens(v), GapTexts(gaps)) + GapText(last)) == Some(PrintValue(v, 0, false))
  {
    var s, c := Laid(Tokens(v), GapTexts(gaps)), Joined(Tokens(v));
    TokensCopied(v);
    LaidSqueezes(Tokens(v), gaps);
    GapVanishes(last);
    CompactIsJoined(v, 0);
    SqueezesConcat(s, c, GapText(last), "");
    var all := s + GapText(last);
    assert all + "" == all && c + "" == c;
    assert Minify(all + "") == Prepend(c + "", Minify(""));
  }
}
