/**
 The layout of a written tree, told from its tags and texts alone: at level 0 nothing is added; else every
 start tag but the first stands on a line of its own, and so does a closing tag behind another, indented
 by the elements that are open.
 */
module XmlIndent {
  import opened Options
  import opened Sequences
  import opened XmlSyntax

  datatype Token = Open(tag: string) | Close(key: string) | Chars(text: string)

  function Shown(k: Token): string {
    match k
    case Open(tag) => "<" + tag + ">"
    case Close(key) => "</" + key + ">"
    case Chars(text) => text
  }

  function Stream(t: Xml): (r: seq<Token>)
    ensures |r| > 0
    ensures t.Element? <==> r[|r| - 1].Close?
    decreases t, 1
  {
    match t
    case Text(text) => [Chars(text)]
    case Element(prefix, name, _, attr, kids) =>
      [Open(TagText(prefix, name, attr))] + StreamAll(kids) + [Close(Key(prefix, name))]
  }

  function StreamAll(kids: seq<Xml>): seq<Token>
    decreases kids, 0
  {
    if kids == [] then [] else Stream(kids[0]) + StreamAll(kids[1..])
  }

  function Line(n: int): string {
    "\n" + seq(if n < 0 then 0 else n, _ => ' ')
  }

  // What stands in front of a token when so many elements are open and the last token was a closing tag or
  // not; level is that of the root.
  function Gap(level: nat, space: nat, open: nat, closed: bool, k: Token): string {
    if level == 0 then ""
    else if k.Open? && open > 0 then Line((level + open - 1) * space)
    else if k.Close? && closed then Line((level + open - 2) * space)
    else ""
  }

  function Deeper(open: nat, k: Token): nat {
    if k.Open? then open + 1 else if k.Close? && open > 0 then open - 1 else open
  }

  function Laid(level: nat, space: nat, open: nat, closed: bool, tokens: seq<Token>): string
    decreases |tokens|
  {
    if tokens == [] then ""
    else Gap(level, space, open, closed, tokens[0]) + Shown(tokens[0])
         + Laid(level, space, Deeper(open, tokens[0]), tokens[0].Close?, tokens[1..])
  }

  function OpenAfter(open: nat, tokens: seq<Token>): nat
    decreases |tokens|
  {
    if tokens == [] then open else OpenAfter(Deeper(open, tokens[0]), tokens[1..])
  }

  function ClosedAfter(closed: bool, tokens: seq<Token>): bool {
    if tokens == [] then closed else tokens[|tokens| - 1].Close?
  }

  lemma {:induction false} LaidJoin(level: nat, space: nat, open: nat, closed: bool, a: seq<Token>, b: seq<Token>)
    ensures Laid(level, space, open, closed, a + b)
         == Laid(level, space, open, closed, a) + Laid(level, space, OpenAfter(open, a), ClosedAfter(closed, a), b)
    ensures OpenAfter(open, a + b) == OpenAfter(OpenAfter(open, a), b)
    decreases |a|
  {
    if a == [] {
      assert a + b == b && "" + Laid(level, space, open, closed, b) == Laid(level, space, open, closed, b);
    } else {
      var rest, open' := a[1..], Deeper(open, a[0]);
      assert (a + b)[1..] == rest + b && (a + b)[0] == a[0];
      LaidJoin(level, space, open', a[0].Close?, rest, b);
      LastIsLast(a);
      LaidFirst(level, space, open, closed, a);
      LaidFirst(level, space, open, closed, a + b);
      hide Laid, ClosedAfter, Gap, Shown, Deeper, OpenAfter;
      Assoc(Gap(level, space, open, closed, a[0]) + Shown(a[0]), Laid(level, space, open', a[0].Close?, rest),
            Laid(level, space, OpenAfter(open', rest), ClosedAfter(a[0].Close?, rest), b));
    }
  }

  lemma LaidFirst(level: nat, space: nat, open: nat, closed: bool, a: seq<Token>)
    requires a != []
    ensures Laid(level, space, open, closed, a) == Gap(level, space, open, closed, a[0]) + Shown(a[0])
                                                   + Laid(level, space, Deeper(open, a[0]), a[0].Close?, a[1..])
    ensures OpenAfter(open, a) == OpenAfter(Deeper(open, a[0]), a[1..])
  {}

  lemma LastIsLast(a: seq<Token>)
    requires a != []
    ensures forall closed :: ClosedAfter(closed, a) == ClosedAfter(a[0].Close?, a[1..])
  {}

  lemma LaidOne(level: nat, space: nat, open: nat, closed: bool, k: Token)
    ensures Laid(level, space, open, closed, [k]) == Gap(level, space, open, closed, k) + Shown(k)
    ensures OpenAfter(open, [k]) == Deeper(open, k)
  {
    assert [k][1..] == [];
  }

  // The level of what lies in so many open elements.
  function LevelAt(level: nat, open: nat): nat {
    if level == 0 then 0 else level + open
  }

  lemma LinesAre(n: nat)
    ensures Line(n) == "\n" + Spaces(n)
  {}

  // An element in front of which nothing is added, as if it were the root.
  lemma {:induction false} ElementLaid(t: Xml, level: nat, space: nat, open: nat, closed: bool)
    requires t.Element?
    ensures Laid(level, space, open, closed, Stream(t))
         == Gap(level, space, open, closed, Stream(t)[0]) + Dump(t, LevelAt(level, open), space)
    ensures OpenAfter(open, Stream(t)) == open
    decreases t, 1
  {
    var k0, inner, k1 := StreamParts(t);
    hide Laid, Stream, StreamAll, DumpKids, Dump, TagText, Key, Closing, OpenAfter, ClosedAfter, LevelAt, Gap, Shown;
    KidsLaid(t.kids, level, space, open + 1, false);
    Bracketed(level, space, open, closed, k0, inner, k1);
    LastClosed(t.kids);
    ClosingGap(t.kids, level, space, open, k1);
    assert open + 1 - 1 == open;
    ElementPieces(Gap(level, space, open, closed, k0), t, LevelAt(level, open), space);
  }

  lemma Bracketed(level: nat, space: nat, open: nat, closed: bool, k0: Token, inner: seq<Token>, k1: Token)
    requires k0.Open? && k1.Close? && OpenAfter(open + 1, inner) == open + 1
    ensures Laid(level, space, open, closed, [k0] + inner + [k1])
         == Gap(level, space, open, closed, k0) + Shown(k0) + Laid(level, space, open + 1, false, inner)
            + (Gap(level, space, open + 1, ClosedAfter(false, inner), k1) + Shown(k1))
    ensures OpenAfter(open, [k0] + inner + [k1]) == open
  {
    hide Laid, OpenAfter, ClosedAfter, Gap, Shown;
    LaidJoin(level, space, open, closed, [k0] + inner, [k1]);
    LaidJoin(level, space, open, closed, [k0], inner);
    LaidOne(level, space, open, closed, k0);
    ClosedJoin(k0, inner, closed);
    LaidOne(level, space, open + 1, ClosedAfter(false, inner), k1);
  }

  lemma StreamParts(t: Xml) returns (k0: Token, inner: seq<Token>, k1: Token)
    requires t.Element?
    ensures inner == StreamAll(t.kids) && Stream(t) == [k0] + inner + [k1] && Stream(t)[0] == k0 && k0.Open? && k1.Close?
    ensures Shown(k0) == "<" + TagText(t.prefix, t.name, t.attr) + ">" && Shown(k1) == "</" + Key(t.prefix, t.name) + ">"
  {
    k0, inner, k1 := Token.Open(TagText(t.prefix, t.name, t.attr)), StreamAll(t.kids), Close(Key(t.prefix, t.name));
  }

  lemma ClosedJoin(k: Token, inner: seq<Token>, closed: bool)
    requires !k.Close?
    ensures ClosedAfter(closed, [k] + inner) == ClosedAfter(false, inner) && ClosedAfter(closed, [k]) == false
  {}

  lemma ElementPieces(g: string, t: Xml, level: nat, space: nat)
    requires t.Element?
    ensures g + Dump(t, level, space)
         == g + ("<" + TagText(t.prefix, t.name, t.attr) + ">") + DumpKids(t.kids, level, space)
            + (Closing(t.kids, level, space) + ("</" + Key(t.prefix, t.name) + ">"))
  {
    hide TagText, Key, DumpKids, Closing;
    var a, b, c, d := "<" + TagText(t.prefix, t.name, t.attr) + ">", DumpKids(t.kids, level, space),
                      Closing(t.kids, level, space), EndTag(Key(t.prefix, t.name));
    Assoc(a, b, c);
    Assoc(g, a + (b + c), d);
    Assoc(g, a, b + c);
    Assoc(g + a, b, c);
    Assoc(g + a + b, c, d);
  }

  lemma {:induction false} LastClosed(kids: seq<Xml>)
    ensures ClosedAfter(false, StreamAll(kids)) <==> kids != [] && kids[|kids| - 1].Element?
    ensures kids != [] ==> StreamAll(kids) != []
  {
    if kids != [] {
      LastClosed(kids[1..]);
      var a, b := Stream(kids[0]), StreamAll(kids[1..]);
      if |kids| > 1 {
        assert (a + b)[|a + b| - 1] == b[|b| - 1] && kids[1..][|kids| - 2] == kids[|kids| - 1];
      } else {
        assert kids[1..] == [] && a + b == a;
      }
    }
  }

  lemma ClosingGap(kids: seq<Xml>, level: nat, space: nat, open: nat, k: Token)
    requires k.Close?
    ensures Gap(level, space, open + 1, kids != [] && kids[|kids| - 1].Element?, k) == Closing(kids, LevelAt(level, open), space)
  {
    if level > 0 {
      assert level + (open + 1) - 2 == level + open - 1;
      LinesAre((level + open - 1) * space);
    }
  }

  lemma OpeningGap(kid: Xml, level: nat, space: nat, open: nat, closed: bool)
    requires open > 0
    ensures Gap(level, space, open, closed, Stream(kid)[0]) == Indent(kid, LevelAt(level, open - 1), space)
  {
    if level > 0 {
      LinesAre((level + open - 1) * space);
    }
  }

  lemma {:induction false} KidsLaid(kids: seq<Xml>, level: nat, space: nat, open: nat, closed: bool)
    requires open > 0
    ensures Laid(level, space, open, closed, StreamAll(kids)) == DumpKids(kids, LevelAt(level, open - 1), space)
    ensures OpenAfter(open, StreamAll(kids)) == open
    decreases kids, 0
  {
    if kids != [] {
      var a, b, l := Stream(kids[0]), StreamAll(kids[1..]), LevelAt(level, open - 1);
      assert NextLevel(l) == LevelAt(level, open);
      LaidJoin(level, space, open, closed, a, b);
      OpeningGap(kids[0], level, space, open, closed);
      if kids[0].Element? {
        ElementLaid(kids[0], level, space, open, closed);
      } else {
        LaidOne(level, space, open, closed, a[0]);
      }
      KidsLaid(kids[1..], level, space, open, ClosedAfter(closed, a));
    }
  }

  // A tree written at any level and indentation is laid out by this rule.
  lemma DumpIsLaid(t: Xml, level: nat, space: nat)
    requires t.Element?
    ensures Dump(t, level, space) == Laid(level, space, 0, false, Stream(t))
  {
    ElementLaid(t, level, space, 0, false);
    assert "" + Dump(t, level, space) == Dump(t, level, space);
  }
}
