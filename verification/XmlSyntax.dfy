/**
 XML as the little tree library reads and writes it: what a tree looks like as text, how long that
 text is, and what a text means. A result of None stands for input that the source does not guard
 against: a tag without a name, or a namespace or closing tag that is cut short.
 */
module XmlSyntax {
  import opened Options

  datatype Xml =
    | Text(text: string)
    | Element(prefix: Option<string>, name: string, uri: Option<string>, attr: Option<string>, kids: seq<Xml>)

  /// Strings

  // The first place of a character, as strchr finds it.
  function IndexOf(s: string, c: char): (r: Option<nat>)
    ensures match r
            case Some(i) => i < |s| && s[i] == c && c !in s[..i]
            case None => c !in s
  {
    if s == "" then None
    else if s[0] == c then Some(0)
    else
      match IndexOf(s[1..], c)
      case Some(i) =>
        assert s[..i + 1] == [s[0]] + s[1..][..i];
        Some(i + 1)
      case None => None
  }

  // needle stands at none of the first n places of s.
  predicate Lacks(s: string, n: nat, needle: string) {
    forall k :: 0 <= k < n && k <= |s| ==> !(needle <= s[k..])
  }

  lemma LacksMore(s: string, n: nat, needle: string)
    requires s != "" && !(needle <= s) && Lacks(s[1..], n, needle)
    ensures Lacks(s, n + 1, needle)
  {
    forall k | 0 <= k < n + 1 && k <= |s|
      ensures !(needle <= s[k..])
    {
      assert if k == 0 then s[k..] == s else s[k..] == s[1..][k - 1..];
    }
  }

  // The first place where needle occurs.
  function StrStr(s: string, needle: string): (r: Option<nat>)
    ensures match r
            case Some(i) => i + |needle| <= |s| && s[i..i + |needle|] == needle && Lacks(s, i, needle)
            case None => Lacks(s, |s| + 1, needle)
  {
    if needle <= s then Some(0)
    else if s == "" then None
    else
      match StrStr(s[1..], needle)
      case Some(i) => FoundMore(s, i, needle); Some(i + 1)
      case None => LacksMore(s, |s|, needle); None
  }

  lemma FoundMore(s: string, i: nat, needle: string)
    requires s != "" && !(needle <= s) && Lacks(s[1..], i, needle)
    requires i + |needle| <= |s[1..]| && s[1..][i..i + |needle|] == needle
    ensures i + 1 + |needle| <= |s| && s[i + 1..i + 1 + |needle|] == needle && Lacks(s, i + 1, needle)
  {
    LacksMore(s, i, needle);
    assert s[1..][i..i + |needle|] == s[i + 1..i + 1 + |needle|];
  }

  predicate Blank(s: string) {
    forall i :: 0 <= i < |s| ==> s[i] == ' '
  }

  function DropSpaces(s: string): (r: string)
    ensures |r| <= |s| && r == s[|s| - |r|..] && Blank(s[..|s| - |r|]) && (r != "" ==> r[0] != ' ')
  {
    if s != "" && s[0] == ' ' then
      var r := DropSpaces(s[1..]);
      assert s[..|s| - |r|] == [' '] + s[1..][..|s[1..]| - |r|];
      r
    else s
  }

  function DropSpacesBehind(s: string): (r: string)
    ensures |r| <= |s| && r == s[..|r|] && Blank(s[|r|..]) && (r != "" ==> r[|r| - 1] != ' ')
  {
    if s != "" && s[|s| - 1] == ' ' then
      var r := DropSpacesBehind(s[..|s| - 1]);
      assert s[|r|..] == s[..|s| - 1][|r|..] + [' '];
      r
    else s
  }

  // t stands at a in s, with only spaces around it.
  predicate Framed(s: string, a: nat, t: string) {
    a + |t| <= |s| && t == s[a..a + |t|] && Blank(s[..a]) && Blank(s[a + |t|..])
  }

  // Without the spaces at both ends; nothing at all is None.
  function Strip(s: string): (r: Option<string>)
    ensures match r
            case Some(t) => t != "" && t[0] != ' ' && t[|t| - 1] != ' ' && exists a :: Framed(s, a, t)
            case None => Blank(s)
  {
    var front := DropSpaces(s);
    var r := DropSpacesBehind(front);
    StripFrame(s, front, r);
    if r == "" then None else Some(r)
  }

  lemma StripFrame(s: string, front: string, r: string)
    requires |front| <= |s| && front == s[|s| - |front|..] && Blank(s[..|s| - |front|]) && (front != "" ==> front[0] != ' ')
    requires |r| <= |front| && r == front[..|r|] && Blank(front[|r|..])
    ensures Framed(s, |s| - |front|, r) && (if r == "" then Blank(s) else r[0] != ' ')
  {
    assert s[|s| - |front| + |r|..] == front[|r|..];
    if r == "" {
      assert front[0..] == front;
      BlankJoin(s[..|s| - |front|], front);
      assert s == s[..|s| - |front|] + front;
    }
  }

  lemma BlankJoin(a: string, b: string)
    requires Blank(a) && Blank(b)
    ensures Blank(a + b)
  {}

  function Spaces(n: nat): (r: string)
    ensures |r| == n && forall i :: 0 <= i < n ==> r[i] == ' '
  {
    seq(n, _ => ' ')
  }

  /// Writing

  function Key(prefix: Option<string>, name: string): string {
    match prefix
    case Some(p) => p + ":" + name
    case None => name
  }

  function TagText(prefix: Option<string>, name: string, attr: Option<string>): string {
    match attr
    case Some(a) => Key(prefix, name) + " " + a
    case None => Key(prefix, name)
  }

  function EndTag(key: string): string {
    "</" + key + ">"
  }

  function NextLevel(level: nat): nat {
    if level == 0 then 0 else level + 1
  }

  // Level 0 is the text without line breaks.
  function Indent(kid: Xml, level: nat, space: nat): string {
    if kid.Element? && level > 0 then "\n" + Spaces(level * space) else ""
  }

  function Closing(kids: seq<Xml>, level: nat, space: nat): string {
    if kids != [] && kids[|kids| - 1].Element? && level > 0 then "\n" + Spaces((level - 1) * space) else ""
  }

  function Dump(t: Xml, level: nat, space: nat): string
    decreases t, 1
  {
    match t
    case Text(text) => text
    case Element(prefix, name, _, attr, kids) =>
      "<" + TagText(prefix, name, attr) + ">" + Content(kids, level, space) + EndTag(Key(prefix, name))
  }

  function Content(kids: seq<Xml>, level: nat, space: nat): string
    decreases kids, 1
  {
    DumpKids(kids, level, space) + Closing(kids, level, space)
  }

  function DumpKids(kids: seq<Xml>, level: nat, space: nat): string
    decreases kids, 0
  {
    if kids == [] then ""
    else Indent(kids[0], level, space) + Dump(kids[0], NextLevel(level), space) + DumpKids(kids[1..], level, space)
  }

  /// Reading

  datatype Tag = Tag(prefix: Option<string>, name: string, uri: Option<string>, attr: Option<string>)

  // The value between the quotes behind the next equals sign.
  function Quoted(s: string): Option<string> {
    match IndexOf(s, '=')
    case None => None
    case Some(e) =>
      var quote := if e + 1 < |s| && s[e + 1] == '\'' then '\'' else '"';
      match IndexOf(s, quote)
      case None => None
      case Some(front) =>
        match IndexOf(s[front + 1..], quote)
        case None => None
        case Some(n) => Some(s[front + 1..front + 1 + n])
  }

  function Namespace(prefix: Option<string>): string {
    match prefix
    case Some(p) => " xmlns:" + p
    case None => " xmlns"
  }

  datatype Uri = Malformed | Uri(uri: Option<string>)

  // What the tag or attribute text s declares for the prefix.
  function Declared(prefix: Option<string>, s: string): Uri {
    match StrStr(s, Namespace(prefix))
    case None => Uri(None)
    case Some(i) =>
      match Quoted(s[i..])
      case None => Malformed
      case Some(u) => Uri(Some(u))
  }

  function ParseTag(tag: string): Option<Tag> {
    var colon, space := IndexOf(tag, ':'), IndexOf(tag, ' ');
    if colon.Some? && (space.None? || colon.value < space.value) then
      match Strip(tag[..colon.value])
      case None => None
      case Some(p) => ParseRest(Some(p), tag, colon.value + 1)
    else
      ParseRest(None, tag, 0)
  }

  // The name starts at b and ends at the next space; what follows is the attribute text.
  function ParseRest(prefix: Option<string>, tag: string, b: nat): Option<Tag>
    requires b <= |tag|
  {
    var rest := tag[b..];
    var sep := IndexOf(rest, ' ');
    var name := Strip(if sep.Some? then rest[..sep.value] else rest);
    var attr := if sep.Some? then Strip(rest[sep.value..]) else None;
    match (name, Declared(prefix, tag))
    case (Some(n), Uri(uri)) => Some(Tag(prefix, n, uri, attr))
    case (_, _) => None
  }

  // Where the content of an element ends, and how much text there is up to the end of the closing tag.
  datatype End = NoEnd | CutShort | End(content: nat, all: nat)

  function FindEnd(doc: string, key: string): (r: End)
    ensures r.End? ==> r.content < r.all <= |doc|
  {
    var first := StrStr(doc, EndTag(key));
    var rear := if first.Some? then first else StrStr(doc, "</" + key + " ");
    match rear
    case None => NoEnd
    case Some(e) =>
      match IndexOf(doc[e..], '>')
      case None => CutShort
      case Some(g) => End(e, e + g + 1)
  }

  // The next tag in s: what it says, whether it is of the empty kind, and the text behind it.
  datatype Next = NoTag | BadTag | Next(tag: Tag, empty: bool, doc: string)

  function NextTag(s: string): (r: Next)
    ensures r.Next? ==> |r.doc| < |s|
  {
    match IndexOf(s, '<')
    case None => NoTag
    case Some(f) =>
      var t := s[f + 1..];
      match IndexOf(t, '>')
      case None => NoTag
      case Some(g) =>
        var empty := g > 0 && t[g - 1] == '/';
        match ParseTag(if empty then t[..g - 1] else t[..g])
        case None => BadTag
        case Some(tag) => Next(tag, empty, t[g + 1..])
  }

  function Made(tag: Tag, kids: seq<Xml>): Xml {
    Element(tag.prefix, tag.name, tag.uri, tag.attr, kids)
  }

  function KeyOf(tag: Tag): string {
    Key(tag.prefix, tag.name)
  }

  // What a text adds to the children that an element already has.
  function ParseInto(s: string, kids: seq<Xml>): Option<seq<Xml>>
    decreases |s|
  {
    if s == "" then Some(kids)
    else
      match NextTag(s)
      case NoTag => Some(if kids == [] then [Text(s)] else kids)
      case BadTag => None
      case Next(tag, empty, doc) =>
        if empty then ParseInto(doc, kids + [Made(tag, [])])
        else
          match FindEnd(doc, KeyOf(tag))
          case NoEnd => ParseInto(doc, kids)
          case CutShort => None
          case End(n, all) =>
            match ParseInto(doc[..n], [])
            case None => None
            case Some(inner) => ParseInto(doc[all..], kids + [Made(tag, inner)])
  }

  datatype Root = BadDocument | NoRoot | Root(t: Xml)

  // The first complete element of a document.
  function ParseRoot(s: string): Root
    decreases |s|
  {
    if s == "" then NoRoot
    else
      match NextTag(s)
      case NoTag => NoRoot
      case BadTag => BadDocument
      case Next(tag, empty, doc) =>
        if empty then Root(Made(tag, []))
        else
          match FindEnd(doc, KeyOf(tag))
          case NoEnd => ParseRoot(doc)
          case CutShort => BadDocument
          case End(n, _) =>
            match ParseInto(doc[..n], [])
            case None => BadDocument
            case Some(inner) => Root(Made(tag, inner))
  }

  // Behind the last construct that begins with open; at that construct itself when nothing follows it.
  function SkipProlog(s: string, open: string, pos: nat, last: Option<nat>): (r: Option<nat>)
    requires pos <= |s| && (last.Some? ==> last.value <= |s|)
    ensures r.Some? ==> r.value <= |s|
    decreases |s| - pos
  {
    if pos == |s| then last
    else
      match StrStr(s[pos..], open)
      case None => Some(pos)
      case Some(i) =>
        match IndexOf(s[pos + i..], '>')
        case None => None
        case Some(g) => SkipProlog(s, open, pos + i + g + 1, Some(pos + i))
  }

  function Parse(s: string): Root {
    match (SkipProlog(s, "<?", 0, None), SkipProlog(s, "<!", 0, None))
    case (Some(i), Some(j)) => ParseRoot(s[if i > j then i else j..])
    case (_, _) => BadDocument
  }

  /// Trees that survive the round trip

  predicate Free(s: string, cs: set<char>) {
    forall i :: 0 <= i < |s| ==> s[i] !in cs
  }

  predicate GoodName(s: string) {
    s != "" && Free(s, {' ', ':', '/', '<', '>'})
  }

  predicate GoodAttr(a: string) {
    a != "" && Free(a, {'<', '>'}) && a[0] != ' ' && a[|a| - 1] != ' ' && a[|a| - 1] != '/'
  }

  // A tag that reads back as it was written.
  predicate SoundTag(prefix: Option<string>, name: string, uri: Option<string>, attr: Option<string>) {
    && GoodName(name) && (prefix.Some? ==> GoodName(prefix.value))
    && (match attr
        case Some(a) => GoodAttr(a) && Declared(prefix, " " + a) == Uri(uri)
        case None => uri == None)
  }

  // A tag of such a key is taken for a prolog.
  predicate Marked(key: string) {
    key != "" && key[0] in {'?', '!'}
  }

  predicate GoodTag(prefix: Option<string>, name: string, uri: Option<string>, attr: Option<string>) {
    SoundTag(prefix, name, uri, attr) && !Marked(Key(prefix, name))
  }

  predicate Good(t: Xml)
    decreases t, 1
  {
    match t
    case Text(text) => text != "" && Free(text, {'<'})
    case Element(prefix, name, uri, attr, kids) =>
      && GoodTag(prefix, name, uri, attr) && GoodKids(kids) && !HasKey(kids, Key(prefix, name))
      && ((|kids| == 1 && kids[0].Text?) || AllElements(kids))
  }

  predicate GoodKids(kids: seq<Xml>)
    decreases kids, 0
  {
    kids == [] || (Good(kids[0]) && GoodKids(kids[1..]))
  }

  predicate AllElements(kids: seq<Xml>) {
    forall i :: 0 <= i < |kids| ==> kids[i].Element?
  }

  // Some element among the kids and everything below them goes by this key.
  predicate HasKey(kids: seq<Xml>, key: string)
    decreases kids
  {
    kids != [] &&
    ((kids[0].Element? && (Key(kids[0].prefix, kids[0].name) == key || HasKey(kids[0].kids, key)))
     || HasKey(kids[1..], key))
  }
}
