/**
 The layout of the formatted text, told from its tokens alone: a comma in an array is followed by a
 space; braces and the members between them stand on lines of their own, indented by one tab for every
 bracket that is open; a colon is followed by a tab. An empty object is the exception, whose closing
 brace gets one tab fewer.
 */
module JsonIndent {
  import opened Options
  import opened Sequences
  import opened JsonSyntax
  import opened JsonRoundTrip
  import opened JsonLayout

  // Where the text stands: the brackets that are open, and the last token.
  datatype State = State(open: seq<char>, last: string)

  function Tabbed(n: int): string {
    "\n" + seq(if n < 0 then 0 else n, _ => '\t')
  }

  // What stands in front of the next token.
  function Gap(st: State, token: string): string {
    var depth := |st.open|;
    if st.last == "{" && token == "}" then Tabbed(depth - 2)
    else if st.last == "{" then Tabbed(depth)
    else if token == "}" then Tabbed(depth - 1)
    else if st.last == ":" then "\t"
    else if st.last == "," && depth > 0 then if st.open[depth - 1] == '{' then Tabbed(depth) else " "
    else ""
  }

  function Next(st: State, token: string): State {
    var depth := |st.open|;
    State(if token == "{" || token == "[" then st.open + token
          else if (token == "}" || token == "]") && depth > 0 then st.open[..depth - 1]
          else st.open, token)
  }

  function Indented(st: State, tokens: seq<string>): string
    decreases |tokens|
  {
    if tokens == [] then "" else Gap(st, tokens[0]) + tokens[0] + Indented(Next(st, tokens[0]), tokens[1..])
  }

  function After(st: State, tokens: seq<string>): State
    decreases |tokens|
  {
    if tokens == [] then st else After(Next(st, tokens[0]), tokens[1..])
  }

  lemma {:induction false} IndentedJoin(st: State, a: seq<string>, b: seq<string>)
    ensures Indented(st, a + b) == Indented(st, a) + Indented(After(st, a), b)
    ensures After(st, a + b) == After(After(st, a), b)
    decreases |a|
  {
    if a == [] {
      assert a + b == b && "" + Indented(st, b) == Indented(st, b);
    } else {
      assert (a + b)[1..] == a[1..] + b;
      IndentedJoin(Next(st, a[0]), a[1..], b);
    }
  }

  lemma IndentedNone(st: State)
    ensures Indented(st, []) == "" && After(st, []) == st
  {}

  lemma IndentedOne(st: State, token: string)
    ensures Indented(st, [token]) == Gap(st, token) + token && After(st, [token]) == Next(st, token)
  {
    assert [token][1..] == [];
  }

  lemma {:induction false} TabsAre(n: int)
    ensures Tabs(n) == seq(if n < 0 then 0 else n, _ => '\t')
  {
    if n > 0 {
      TabsAre(n - 1);
    }
  }

  // The gap in front of a value depends on what stands before it only.
  function GapBefore(st: State): string {
    var depth := |st.open|;
    if st.last == "{" then Tabbed(depth)
    else if st.last == ":" then "\t"
    else if st.last == "," && depth > 0 then if st.open[depth - 1] == '{' then Tabbed(depth) else " "
    else ""
  }

  // A token that is no punctuation.
  predicate Inert(token: string) {
    token !in {"{", "}", "[", "]", ",", ":"}
  }

  lemma ScalarInert(v: Json)
    requires Printable(v) && Complete(v) && !v.Array? && !v.Object?
    ensures Inert(PrintValue(v, 0, true)) && Tokens(v) == [PrintValue(v, 0, true)]
  {
    PrintedValueIsSolid(v, 0, true);
    if v.Number? {
      DecimalHead(if v.mant < 0 then -v.mant else v.mant);
    }
  }

  // The state behind a value: the same brackets are open, and the last token is one that ends a value.
  predicate Behind(st: State, st': State) {
    st'.open == st.open && st'.last !in {"{", "[", ",", ":"}
  }

  lemma {:induction false} ValueIndented(v: Json, st: State)
    requires Printable(v) && Complete(v)
    ensures Indented(st, Tokens(v)) == GapBefore(st) + PrintValue(v, |st.open|, true) && Behind(st, After(st, Tokens(v)))
    decreases v, 2
  {
    match v
    case Array(items) => ArrayIndented(items, st);
    case Object(ms) => ObjectIndented(ms, st);
    case _ =>
      ScalarInert(v);
      IndentedOne(st, Tokens(v)[0]);
  }

  lemma {:induction false} ArrayIndented(items: seq<Json>, st: State)
    requires Printable(Array(items)) && Complete(Array(items))
    ensures var v := Array(items);
            Indented(st, Tokens(v)) == GapBefore(st) + PrintValue(v, |st.open|, true) && Behind(st, After(st, Tokens(v)))
    decreases items, 2
  {
    hide Indented, After, PrintItems, ItemTokens;
    var inner, d := ItemTokens(items), |st.open|;
    var st1 := Next(st, "[");
    IndentedJoin(st, ["["] + inner, ["]"]);
    IndentedJoin(st, ["["], inner);
    IndentedOne(st, "[");
    assert st1 == State(st.open + ['['], "[");
    ItemsIndented(items, st1);
    var st2 := After(st1, inner);
    IndentedOne(st2, "]");
    Closes(st, st1, st2);
    assert Gap(st, "[") == GapBefore(st);
    hide Gap, GapBefore, Next;
    assert "" + PrintItems(items, d + 1, true) == PrintItems(items, d + 1, true);
    Bracket(GapBefore(st), PrintItems(items, d + 1, true));
  }

  lemma Closes(st: State, st1: State, st2: State)
    requires st1 == State(st.open + ['['], "[") && (st2 == st1 || Behind(st1, st2))
    ensures Gap(st2, "]") == "" && Behind(st, Next(st2, "]"))
  {}

  lemma Bracket(g: string, s: string)
    ensures g + "[" + s + ("" + "]") == g + ("[" + s + "]")
  {}

  // Elements, from the state behind the opening bracket or behind a comma on.
  lemma {:induction false} ItemsIndented(items: seq<Json>, st: State)
    requires PrintableItems(items) && CompleteItems(items) && st.open != [] && st.open[|st.open| - 1] == '['
    requires st.last == "[" || st.last == ","
    ensures var g := if st.last == "," && items != [] then " " else "";
            Indented(st, ItemTokens(items)) == g + PrintItems(items, |st.open|, true)
    ensures var st' := After(st, ItemTokens(items));
            if items == [] then st' == st else Behind(st, st')
    decreases items, 1
  {
    hide Indented, After, Tokens, PrintValue, PrintItems;
    if items == [] {
      IndentedNone(st);
      assert PrintItems([], |st.open|, true) == "" by { NoItemsPrinted(|st.open|); }
    } else {
      var first, rest, d := Tokens(items[0]), ItemTokens(items[1..]), |st.open|;
      var comma := if |items| == 1 then [] else [","];
      RestOfItems(items);
      IndentedJoin(st, first + comma, rest);
      IndentedJoin(st, first, comma);
      ValueIndented(items[0], st);
      var st1 := After(st, first);
      if |items| == 1 {
        assert items[1..] == [] && rest == [];
        IndentedNone(st1);
      } else {
        IndentedOne(st1, ",");
        ItemsIndented(items[1..], Next(st1, ","));
      }
      assert Gap(st1, ",") == "";
      hide ItemTokens, Gap;
      ItemPieces(items, d, GapBefore(st));
    }
  }

  lemma NoItemsPrinted(d: nat)
    ensures PrintItems([], d, true) == ""
  {}

  lemma ItemPieces(items: seq<Json>, d: nat, g: string)
    requires PrintableItems(items) && items != []
    ensures var v, more := PrintValue(items[0], d, true), PrintItems(items[1..], d, true);
            g + PrintItems(items, d, true) == if |items| == 1 then g + v + "" + "" else g + v + ("" + ",") + (" " + more)
  {
    hide PrintValue;
    if |items| == 1 {
      assert items[1..] == [];
    }
  }

  lemma {:induction false} ObjectIndented(ms: seq<Member>, st: State)
    requires Printable(Object(ms)) && Complete(Object(ms))
    ensures var v := Object(ms);
            Indented(st, Tokens(v)) == GapBefore(st) + PrintValue(v, |st.open|, true) && Behind(st, After(st, Tokens(v)))
    decreases ms, 2
  {
    hide Indented, After, MemberTokens, PrintMembers, PrintValue, Tabbed;
    var inner, d := MemberTokens(ms), |st.open|;
    var st1 := State(st.open + ['{'], "{");
    IndentedJoin(st, ["{"] + inner, ["}"]);
    IndentedJoin(st, ["{"], inner);
    IndentedOne(st, "{");
    assert Next(st, "{") == st1 && Gap(st, "{") == GapBefore(st);
    var st2 := After(st1, inner);
    IndentedOne(st2, "}");
    if ms == [] {
      assert inner == [] by { NoMemberTokens(); }
      IndentedNone(st1);
    } else {
      MembersIndented(ms, st1);
    }
    BraceCloses(st, st2, ms == []);
    hide Gap, GapBefore, Next;
    BracePieces(ms, d, GapBefore(st), Indented(st1, inner));
  }

  lemma NoMemberTokens()
    ensures MemberTokens([]) == []
  {}

  lemma BraceCloses(st: State, st2: State, empty: bool)
    requires var st1 := State(st.open + ['{'], "{"); if empty then st2 == st1 else Behind(st1, st2)
    ensures Gap(st2, "}") == Tabbed(if empty then |st.open| - 1 else |st.open|) && Behind(st, Next(st2, "}"))
  {}

  lemma BracePieces(ms: seq<Member>, d: nat, g: string, inner: string)
    requires Printable(Object(ms)) && (ms == [] ==> inner == "")
    requires ms != [] ==> inner + "\n" == "\n" + PrintMembers(ms, d + 1, true)
    ensures g + PrintValue(Object(ms), d, true)
         == g + "{" + inner + (Tabbed(if ms == [] then d - 1 else d) + "}")
  {
    TabsAre(if ms == [] then d - 1 else d);
    hide PrintMembers, Tabs;
    var tabs := Tabs(if ms == [] then d - 1 else d);
    if ms != [] {
      var p := PrintMembers(ms, d + 1, true);
      assert PrintValue(Object(ms), d, true) == "{" + "\n" + p + tabs + "}";
      hide PrintValue;
      BracesGrouped(g, inner, p, tabs);
    }
  }

  lemma BracesGrouped(g: string, inner: string, p: string, tabs: string)
    requires inner + "\n" == "\n" + p
    ensures g + ("{" + "\n" + p + tabs + "}") == g + "{" + inner + ("\n" + tabs + "}")
  {
    var end := tabs + "}";
    Assoc("{", "\n", p);
    Assoc("{" + ("\n" + p), tabs, "}");
    Assoc("{", inner + "\n", end);
    Assoc(inner, "\n", end);
    Assoc("{", inner, "\n" + end);
    Assoc(g, "{" + inner, "\n" + end);
    Assoc(g, "{", inner);
    Assoc("\n", tabs, "}");
  }

  lemma {:induction false} EntryIndented(m: Member, st: State)
    requires NoNul(m.name) && m.name.Some? && Printable(m.value) && Complete(m.value)
    requires st.open != [] && st.open[|st.open| - 1] == '{' && (st.last == "{" || st.last == ",")
    ensures Indented(st, EntryTokens(m)) == "\n" + PrintMember(m, |st.open|, true) && Behind(st, After(st, EntryTokens(m)))
    decreases m, 3
  {
    var name, d := PrintString(m.name.value), |st.open|;
    PrintedStringOpens(m.name.value);
    IndentedJoin(st, [name, ":"], Tokens(m.value));
    assert [name, ":"] == [name] + [":"];
    IndentedJoin(st, [name], [":"]);
    IndentedOne(st, name);
    IndentedOne(Next(st, name), ":");
    ValueIndented(m.value, Next(Next(st, name), ":"));
    TabsAre(d);
    hide Indented, After, Tokens, PrintValue, PrintString, Tabs;
    var value := PrintValue(m.value, d, true);
    EntryPieces(Tabs(d), name, value);
  }

  lemma EntryPieces(tabs: string, name: string, value: string)
    ensures "\n" + tabs + name + ("" + ":") + ("\t" + value) == "\n" + (tabs + name + ":" + "\t" + value)
  {}

  // Members, from the state behind the opening brace or behind a comma on: each on a line of its own.
  lemma {:induction false} MembersIndented(ms: seq<Member>, st: State)
    requires PrintableMembers(ms) && CompleteMembers(ms) && ms != []
    requires st.open != [] && st.open[|st.open| - 1] == '{' && (st.last == "{" || st.last == ",")
    ensures Indented(st, MemberTokens(ms)) + "\n" == "\n" + PrintMembers(ms, |st.open|, true)
    ensures Behind(st, After(st, MemberTokens(ms)))
    decreases ms, 1
  {
    hide Indented, After, EntryTokens, PrintMember, PrintMembers, Tabbed;
    var first, rest, d := EntryTokens(ms[0]), MemberTokens(ms[1..]), |st.open|;
    var comma := if |ms| == 1 then [] else [","];
    RestOfMembers(ms);
    IndentedJoin(st, first + comma, rest);
    IndentedJoin(st, first, comma);
    EntryIndented(ms[0], st);
    var st1 := After(st, first);
    assert Next(st1, ",") == State(st.open, ",") && Gap(st1, ",") == "";
    if |ms| == 1 {
      assert ms[1..] == [] && rest == [];
      IndentedNone(st1);
    } else {
      IndentedOne(st1, ",");
      MembersIndented(ms[1..], State(st.open, ","));
    }
    hide MemberTokens, Gap, Next;
    MemberPieces(ms, d, Indented(State(st.open, ","), rest));
  }

  lemma MemberPieces(ms: seq<Member>, d: nat, more: string)
    requires PrintableMembers(ms) && ms != []
    requires |ms| > 1 ==> more + "\n" == "\n" + PrintMembers(ms[1..], d, true)
    ensures var m := PrintMember(ms[0], d, true);
            "\n" + PrintMembers(ms, d, true) == (if |ms| == 1 then "\n" + m + "" + "" else "\n" + m + ("" + ",") + more) + "\n"
  {
    hide PrintMember;
    var m := PrintMember(ms[0], d, true);
    if |ms| == 1 {
      assert ms[1..] == [];
      assert PrintMembers(ms, d, true) == m + ("" + "\n") + "";
    } else {
      var p := PrintMembers(ms[1..], d, true);
      assert PrintMembers(ms, d, true) == m + ("," + "\n") + p;
      hide PrintMembers;
      CommaGrouped(m, more, p);
    }
  }

  lemma CommaGrouped(m: string, more: string, p: string)
    requires more + "\n" == "\n" + p
    ensures "\n" + (m + ("," + "\n") + p) == "\n" + m + ("" + ",") + more + "\n"
  {
    Assoc(m, "," + "\n", p);
    Assoc(",", "\n", p);
    Assoc("\n", m, "," + (more + "\n"));
    Assoc("\n" + m, ",", more + "\n");
    Assoc("\n" + m + ",", more, "\n");
    assert "" + "," == ",";
  }

  // The formatted text of a document is laid out by this rule.
  lemma FormattedIsIndented(v: Json)
    requires Printable(v) && Complete(v)
    ensures PrintValue(v, 0, true) == Indented(State([], ""), Tokens(v))
  {
    ValueIndented(v, State([], ""));
    assert "" + PrintValue(v, 0, true) == PrintValue(v, 0, true);
  }
}
