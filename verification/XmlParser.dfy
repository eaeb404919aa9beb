/**
 The XML parser as it builds its tree: each new node is hung on its parent before its content is read.
 */
module XmlParser {
  import opened Sequences
  import opened Options
  import opened XmlSyntax
  import opened XmlNodes
  import opened XmlTree
  import opened XmlRoundTrip
  import opened XmlExact
  import opened XmlDump

  /// Strings

  // needle stands at k in s.
  predicate Stands(s: string, k: nat, needle: string) {
    k <= |s| && needle <= s[k..]
  }

  // The first occurrence from k on, counted from the start.
  function From(s: string, k: nat, needle: string): Option<nat>
    requires k <= |s|
  {
    match StrStr(s[k..], needle)
    case Some(i) => Some(k + i)
    case None => None
  }

  lemma FromStep(s: string, k: nat, needle: string)
    requires k <= |s| && needle != ""
    ensures k == |s| ==> From(s, k, needle) == None
    ensures k < |s| ==> From(s, k, needle) == if Stands(s, k, needle) then Some(k) else From(s, k + 1, needle)
    ensures Stands(s, k, needle) ==> k < |s| && s[k] == needle[0]
  {
    StrStrHere(s[k..], needle);
    hide StrStr, Lacks;
    RestOfRest(s, k);
  }

  lemma RestOfRest(s: string, k: nat)
    requires k <= |s|
    ensures k < |s| ==> s[k..] != "" && s[k..][1..] == s[k + 1..] && s[k..][0] == s[k]
    ensures k == |s| ==> s[k..] == ""
  {}

  method XmlStrStr(str1: string, str2: string) returns (r: Option<nat>)
    ensures r == StrStr(str1, str2)
    ensures match r
            case Some(i) => i + |str2| <= |str1| && str1[i..i + |str2|] == str2 && Lacks(str1, i, str2)
            case None => Lacks(str1, |str1| + 1, str2)
  {
    if str2 == "" {
      StrStrHere(str1, str2);
      return Some(0);
    }
    assert From(str1, 0, str2) == StrStr(str1, str2) by { assert str1[0..] == str1; }
    hide StrStr, From, Stands;
    var k := 0;
    while k < |str1|
      invariant k <= |str1| && From(str1, k, str2) == StrStr(str1, str2)
    {
      FromStep(str1, k, str2);
      if str1[k] == str2[0] {
        var all := MatchesAt(str1, k, str2);
        if all {
          return Some(k);
        }
      }
      k := k + 1;
    }
    FromStep(str1, k, str2);
    r := None;
  }

  method MatchesAt(str1: string, k: nat, str2: string) returns (all: bool)
    requires k <= |str1|
    ensures all <==> Stands(str1, k, str2)
  {
    ghost var s := str1[k..];
    var n := 0;
    while n < |str2|
      invariant n <= |str2| && n <= |s| && forall i :: 0 <= i < n ==> s[i] == str2[i]
    {
      if k + n == |str1| || str1[k + n] != str2[n] {
        assert n < |s| ==> s[n] == str1[k + n];
        return false;
      }
      assert s[n] == str1[k + n];
      n := n + 1;
    }
    all := true;
  }

  method StrStrip(str: string) returns (strip: Option<string>)
    ensures strip == Strip(str)
    ensures match strip
            case Some(t) => t != "" && t[0] != ' ' && t[|t| - 1] != ' ' && exists a :: Framed(str, a, t)
            case None => Blank(str)
  {
    if str == "" {
      return None;
    }
    hide Strip, Framed, Blank, DropSpaces, DropSpacesBehind;
    var front := 0;
    while front < |str| && str[front] == ' '
      invariant front <= |str| && forall i :: 0 <= i < front ==> str[i] == ' '
    {
      front := front + 1;
    }
    if front == |str| {
      StripOfSpaces(str);
      return None;
    }
    var rear := LastNonSpace(str, front);
    StripBetween(str, front, rear);
    strip := Some(str[front..rear + 1]);
  }

  lemma StripOfSpaces(s: string)
    requires forall i :: 0 <= i < |s| ==> s[i] == ' '
    ensures Strip(s) == None
  {
    SpacesDropped(s, |s|);
  }

  lemma StripBetween(s: string, front: nat, rear: nat)
    requires front <= rear < |s| && (forall i :: 0 <= i < front ==> s[i] == ' ') && s[front] != ' '
    requires DropSpacesBehind(s[front..]) == s[front..rear + 1]
    ensures Strip(s) == Some(s[front..rear + 1])
  {
    SpacesDropped(s, front);
    hide DropSpaces, DropSpacesBehind, Framed, Blank;
  }

  method LastNonSpace(str: string, front: nat) returns (rear: int)
    requires front < |str| && str[front] != ' '
    ensures front <= rear < |str| && DropSpacesBehind(str[front..]) == str[front..rear + 1]
  {
    rear := |str| - 1;
    assert str[front..rear + 1] == str[front..];
    while rear >= front && str[rear] == ' '
      invariant front <= rear < |str|
      invariant DropSpacesBehind(str[front..]) == DropSpacesBehind(str[front..rear + 1])
      decreases rear
    {
      ghost var t := str[front..rear + 1];
      assert t[|t| - 1] == str[rear] && t[..|t| - 1] == str[front..rear];
      rear := rear - 1;
    }
  }

  /// Tags

  // The four ways a tag can name its prefix and its namespace.
  method ReadTag(tag: string) returns (r: Option<Tag>)
    ensures r == ParseTag(tag)
  {
    hide IndexOf, Strip, Framed, Blank, ParseRest;
    var prefixChar := IndexOf(tag, ':');
    var havePrefix := false;
    if prefixChar.Some? {
      var tagSep := IndexOf(tag, ' ');
      if tagSep.None? {
        havePrefix := true;
      } else if prefixChar.value < tagSep.value {
        havePrefix := true;
      }
    }
    var prefix, b := None, 0;
    if havePrefix {
      prefix := StrStrip(tag[..prefixChar.value]);
      if prefix.None? {
        return None;
      }
      b := prefixChar.value + 1;
    }
    r := ReadRest(prefix, tag, b);
  }

  method ReadRest(prefix: Option<string>, tag: string, b: nat) returns (r: Option<Tag>)
    requires b <= |tag|
    ensures r == ParseRest(prefix, tag, b)
  {
    hide Declared, Strip, IndexOf, Framed, Blank;
    var uri := ReadUri(prefix, tag);
    var rest := tag[b..];
    var tagSep := IndexOf(rest, ' ');
    var name, attr := None, None;
    if tagSep.Some? {
      name := StrStrip(rest[..tagSep.value]);
      attr := StrStrip(rest[tagSep.value..]);
    } else {
      name := StrStrip(rest);
    }
    if name.None? || uri == Malformed {
      return None;
    }
    r := Some(Tag(prefix, name.value, uri.uri, attr));
  }

  method ReadUri(prefix: Option<string>, tag: string) returns (r: Uri)
    ensures r == Declared(prefix, tag)
  {
    hide StrStr, Quoted;
    var nsTag := match prefix case Some(p) => " xmlns:" + p case None => " xmlns";
    var nsFront := XmlStrStr(tag, nsTag);
    if nsFront.None? {
      return Uri(None);
    }
    var uri := Quoted(tag[nsFront.value..]);
    r := if uri.None? then Malformed else Uri(uri);
  }

  method LocateEnd(doc: string, prefix: Option<string>, name: string) returns (r: End)
    ensures r == FindEnd(doc, Key(prefix, name))
  {
    hide StrStr, IndexOf;
    var key := match prefix case Some(p) => p + ":" + name case None => name;
    var docRear := XmlStrStr(doc, "</" + key + ">");
    if docRear.None? {
      docRear := XmlStrStr(doc, "</" + key + " ");
    }
    if docRear.None? {
      return NoEnd;
    }
    var g := IndexOf(doc[docRear.value..], '>');
    if g.None? {
      return CutShort;
    }
    r := End(docRear.value, docRear.value + g.value + 1);
  }

  method FindTag(doc: string) returns (r: Next)
    ensures r == NextTag(doc)
  {
    hide ParseTag, IndexOf;
    var tagFront := IndexOf(doc, '<');
    if tagFront.None? {
      return NoTag;
    }
    var t := doc[tagFront.value + 1..];
    var tagRear := IndexOf(t, '>');
    if tagRear.None? {
      return NoTag;
    }
    var g := tagRear.value;
    var empty := g > 0 && t[g - 1] == '/';
    var tag := ReadTag(if empty then t[..g - 1] else t[..g]);
    if tag.None? {
      return BadTag;
    }
    r := Next(tag.value, empty, t[g + 1..]);
  }

  /// Growing trees

  // From st to st', the tree a has grown into b by more children and nodes that were free.
  ghost predicate Grew(st: Store, st': Store, a: Shape, b: Shape) {
    Became(st, st', a, b) && b.data == a.data && Ptrs(a) <= Ptrs(b) && st'.Keys == st.Keys + Ptrs(b)
  }

  lemma GrewNot(st: Store, a: Shape)
    requires Holds(st, a)
    ensures Grew(st, st, a, a)
  {
    HoldsPtrs(st, a);
  }

  lemma GrewTwice(st0: Store, st1: Store, st2: Store, a: Shape, b: Shape, c: Shape)
    requires Grew(st0, st1, a, b) && Grew(st1, st2, b, c)
    ensures Grew(st0, st2, a, c)
  {
    BecameTwice(st0, st1, st2, a, b, c);
  }

  // The last child grows where it hangs.
  lemma LastGrew(st: Store, st': Store, a: Shape, kids: seq<Shape>, k: Shape, k': Shape)
    requires Holds(st, a) && a.kids == kids + [k] && Grew(st, st', k, k')
    ensures Grew(st, st', a, a.(kids := kids + [k']))
  {
    assert kids + [k] + [] == kids + [k];
    ChainAt(st, a.p, NULL, kids, k, []);
    KidWithin(kids, k);
    HoldsPtrs(st, k);
    HoldsPtrs(st, a);
    PtrsJoin(kids, [k]);
    PtrsOne(k);
    Lift(st, st', a, k, k');
    SwapLast(kids, k, k');
    assert Swap(a, k.p, k') == a.(kids := kids + [k']);
  }

  lemma {:induction false} KidWithin(kids: seq<Shape>, k: Shape)
    ensures WithinAny(k, kids + [k])
  {
    if kids == [] {
      assert (kids + [k])[0] == k;
    } else {
      KidWithin(kids[1..], k);
      assert (kids + [k])[1..] == kids[1..] + [k];
    }
  }

  lemma {:induction false} SwapLast(kids: seq<Shape>, k: Shape, k': Shape)
    requires k.p !in PtrsOf(kids)
    ensures SwapAll(kids + [k], k.p, k') == kids + [k']
  {
    var all := kids + [k];
    if kids == [] {
      assert all[0] == k && all[1..] == [];
    } else {
      var h := kids[0];
      assert all[0] == h && all[1..] == kids[1..] + [k];
      SwapAbsent(h.kids, k.p, k');
      SwapLast(kids[1..], k, k');
    }
  }

  lemma ValuesSnoc(kids: seq<Shape>, k: Shape)
    ensures Values(kids + [k]) == Values(kids) + [Value(k)]
  {
    ValuesJoin(kids, [k]);
    ValuesOne(k);
  }

  function DataOf(tag: Tag): Data {
    Data(Some(tag.name), None, tag.prefix, tag.uri, tag.attr)
  }

  // A node just made, as a tree of its own, becomes the last child.
  method HangNew(lib: XmlLib, root: Ptr, node: Ptr, ghost st: Store, ghost sh: Shape, ghost k: Shape)
    requires Holds(st, sh) && sh.p == root && IsElement(sh.data) && k.p == node && k.kids == [] && node !in st
    requires node in lib.store && lib.store == st[node := lib.store[node]] && Holds(lib.store, k) && Detached(lib.store, node)
    modifies lib
    ensures Grew(st, lib.store, sh, sh.(kids := sh.kids + [k]))
  {
    HoldsPtrs(st, sh);
    HoldsFrame(st, lib.store, sh);
    assert Ptrs(k) == {node};
    ghost var st1 := lib.store;
    lib.AddChild(root, node, sh, k);
    assert Agrees(st, lib.store, st.Keys - Ptrs(sh));
  }

  /// The parser

  method ParseDocInto(lib: XmlLib, buf: string, root: Ptr, ghost sh: Shape) returns (ghost sh': Shape)
    requires Holds(lib.store, sh) && sh.p == root && IsElement(sh.data) && ParseInto(buf, Values(sh.kids)).Some?
    modifies lib
    ensures Grew(old(lib.store), lib.store, sh, sh') && Some(Values(sh'.kids)) == ParseInto(buf, Values(sh.kids))
    decreases |buf|, 2
  {
    ghost var st := lib.store;
    GrewNot(st, sh);
    sh' := sh;
    var doc := buf;
    while doc != ""
      invariant Grew(st, lib.store, sh, sh') && |doc| <= |buf|
      invariant ParseInto(doc, Values(sh'.kids)) == ParseInto(buf, Values(sh.kids))
      decreases |doc|
    {
      ghost var st1, sh1 := lib.store, sh';
      doc, sh' := ParseNext(lib, doc, root, sh1);
      GrewTwice(st, st1, lib.store, sh, sh1, sh');
    }
  }

  // One round of the loop: what is read becomes one more child, or none.
  method ParseNext(lib: XmlLib, doc: string, root: Ptr, ghost sh: Shape) returns (rest: string, ghost sh': Shape)
    requires Holds(lib.store, sh) && sh.p == root && IsElement(sh.data) && doc != "" && ParseInto(doc, Values(sh.kids)).Some?
    modifies lib
    ensures Grew(old(lib.store), lib.store, sh, sh') && |rest| < |doc|
    ensures ParseInto(rest, Values(sh'.kids)) == ParseInto(doc, Values(sh.kids))
    decreases |doc|, 1
  {
    ghost var st := lib.store;
    GrewNot(st, sh);
    sh' := sh;
    var next := FindTag(doc);
    if next == NoTag {
      rest := "";
      if lib.store[root].child == NULL {
        sh' := AddText(lib, doc, root, sh);
      } else {
        assert sh.kids != [];
      }
      return;
    }
    var tag := next.tag;
    if next.empty {
      rest := next.doc;
      sh' := AddElement(lib, tag, root, sh);
      return;
    }
    var end := LocateEnd(next.doc, tag.prefix, tag.name);
    if end == NoEnd {
      rest := next.doc;
    } else {
      rest := next.doc[end.all..];
      sh' := ParseElement(lib, tag, next.doc[..end.content], root, sh);
    }
  }

  method AddText(lib: XmlLib, text: string, root: Ptr, ghost sh: Shape) returns (ghost sh': Shape)
    requires Holds(lib.store, sh) && sh.p == root && IsElement(sh.data) && lib.store[root].child == NULL
    modifies lib
    ensures Grew(old(lib.store), lib.store, sh, sh') && sh.kids == [] && Values(sh'.kids) == [Text(text)]
  {
    ghost var st := lib.store;
    ChainEnds(st, root, NULL, sh.kids);
    var node := lib.NewText(text);
    ghost var k := Shape(node, Data(None, Some(text), None, None, None), []);
    HangNew(lib, root, node, st, sh, k);
    sh' := sh.(kids := sh.kids + [k]);
    ValuesSnoc(sh.kids, k);
  }

  method AddElement(lib: XmlLib, tag: Tag, root: Ptr, ghost sh: Shape) returns (ghost sh': Shape)
    requires Holds(lib.store, sh) && sh.p == root && IsElement(sh.data)
    modifies lib
    ensures Grew(old(lib.store), lib.store, sh, sh') && Values(sh'.kids) == Values(sh.kids) + [Made(tag, [])]
  {
    ghost var st := lib.store;
    var node := lib.NewElement(tag.prefix, tag.name, tag.uri, tag.attr);
    ghost var k := Shape(node, DataOf(tag), []);
    HangNew(lib, root, node, st, sh, k);
    sh' := sh.(kids := sh.kids + [k]);
    ValuesSnoc(sh.kids, k);
  }

  method ParseElement(lib: XmlLib, tag: Tag, content: string, root: Ptr, ghost sh: Shape) returns (ghost sh': Shape)
    requires Holds(lib.store, sh) && sh.p == root && IsElement(sh.data) && ParseInto(content, []).Some?
    modifies lib
    ensures Grew(old(lib.store), lib.store, sh, sh')
    ensures Values(sh'.kids) == Values(sh.kids) + [Made(tag, ParseInto(content, []).value)]
    decreases |content|, 3
  {
    ghost var st := lib.store;
    var node := lib.NewElement(tag.prefix, tag.name, tag.uri, tag.attr);
    ghost var k := Shape(node, DataOf(tag), []);
    HangNew(lib, root, node, st, sh, k);
    ghost var st1, sh1 := lib.store, sh.(kids := sh.kids + [k]);
    assert sh.kids + [k] + [] == sh.kids + [k];
    ChainAt(st1, root, NULL, sh.kids, k, []);
    ghost var k' := ParseDocInto(lib, content, node, k);
    LastGrew(st1, lib.store, sh1, sh.kids, k, k');
    sh' := sh.(kids := sh.kids + [k']);
    GrewTwice(st, st1, lib.store, sh, sh1, sh');
    ValuesSnoc(sh.kids, k');
  }

  // Without a parent to hang on: the first complete element becomes the root.
  method ParseDocRoot(lib: XmlLib, buf: string) returns (root: Ptr, ghost sh: Shape)
    requires ParseRoot(buf) != BadDocument
    modifies lib
    ensures root == NULL ==> ParseRoot(buf) == NoRoot && lib.store == old(lib.store)
    ensures root != NULL ==> sh.p == root && ParseRoot(buf) == Root(Value(sh)) && Copied(old(lib.store), lib.store, sh)
  {
    root, sh := NULL, Shape(NULL, Data(None, None, None, None, None), []);
    var doc := buf;
    while doc != ""
      invariant ParseRoot(doc) == ParseRoot(buf) && lib.store == old(lib.store)
      decreases |doc|
    {
      var next := FindTag(doc);
      if next == NoTag {
        return;
      }
      var tag := next.tag;
      if next.empty {
        root, sh := NewRoot(lib, tag, "");
        return;
      }
      var end := LocateEnd(next.doc, tag.prefix, tag.name);
      if end != NoEnd {
        root, sh := NewRoot(lib, tag, next.doc[..end.content]);
        return;
      }
      doc := next.doc;
    }
  }

  method NewRoot(lib: XmlLib, tag: Tag, content: string) returns (root: Ptr, ghost sh: Shape)
    requires ParseInto(content, []).Some?
    modifies lib
    ensures root != NULL && sh.p == root && Copied(old(lib.store), lib.store, sh)
    ensures Value(sh) == Made(tag, ParseInto(content, []).value)
  {
    ghost var st := lib.store;
    root := lib.NewElement(tag.prefix, tag.name, tag.uri, tag.attr);
    ghost var k := Shape(root, DataOf(tag), []);
    ghost var st1 := lib.store;
    sh := ParseDocInto(lib, content, root, k);
    RootGrew(st, st1, lib.store, k, sh);
  }

  lemma RootGrew(st: Store, st1: Store, st2: Store, k: Shape, sh: Shape)
    requires k.kids == [] && k.p !in st && k.p in st1 && st1 == st[k.p := st1[k.p]] && Detached(st1, k.p)
    requires Grew(st1, st2, k, sh)
    ensures Copied(st, st2, sh)
  {
    assert Ptrs(k) == {k.p};
    HoldsPtrs(st2, sh);
  }

  method SkipPrologs(docBuf: string, open: string) returns (pos: nat)
    requires open != "" && SkipProlog(docBuf, open, 0, None).Some?
    ensures Some(pos) == SkipProlog(docBuf, open, 0, None)
  {
    hide StrStr, IndexOf, SkipProlog;
    pos := 0;
    var last: Option<nat> := None;
    while pos < |docBuf|
      invariant pos <= |docBuf| && (last.Some? ==> last.value <= |docBuf|)
      invariant SkipProlog(docBuf, open, pos, last) == SkipProlog(docBuf, open, 0, None)
      decreases |docBuf| - pos
    {
      SkipUnfolds(docBuf, open, pos, last);
      var found := XmlStrStr(docBuf[pos..], open);
      if found.None? {
        return;
      }
      var g := IndexOf(docBuf[pos + found.value..], '>');
      last := Some(pos + found.value);
      pos := pos + found.value + g.value + 1;
    }
    SkipUnfolds(docBuf, open, pos, last);
    pos := last.value;
  }

  method XmlParse(lib: XmlLib, docBuf: string) returns (root: Ptr, ghost sh: Shape)
    requires Parse(docBuf) != BadDocument
    modifies lib
    ensures root == NULL ==> Parse(docBuf) == NoRoot && lib.store == old(lib.store)
    ensures root != NULL ==> sh.p == root && Parse(docBuf) == Root(Value(sh)) && Copied(old(lib.store), lib.store, sh)
  {
    hide ParseRoot;
    var procInst := SkipPrologs(docBuf, "<?");
    var comment := SkipPrologs(docBuf, "<!");
    root, sh := ParseDocRoot(lib, docBuf[if procInst > comment then procInst else comment..]);
  }

  // Writing a tree out and parsing the text builds the same tree again from nodes of its own.
  method DumpAndParse(lib: XmlLib, root: Ptr, ghost sh: Shape) returns (again: Ptr, ghost sh': Shape)
    requires Holds(lib.store, sh) && sh.p == root && Good(Value(sh)) && Value(sh).Element?
    modifies lib
    ensures sh'.p == again && Value(sh') == Value(sh) && Copied(old(lib.store), lib.store, sh')
  {
    hide Parse, Good, Dump;
    RoundTrip(Value(sh), 0, 0);
    var buf := XmlDumpTree(lib.store, root, sh);
    again, sh' := XmlParse(lib, buf.cells[..buf.used]);
  }

  // The same with a prolog in front, with or without line breaks.
  method DumpExAndParse(lib: XmlLib, root: Ptr, prolog: Option<string>, newLine: bool, space: nat, ghost sh: Shape)
    returns (again: Ptr, ghost sh': Shape)
    requires Holds(lib.store, sh) && sh.p == root && Value(sh).Element? && Sound(Value(sh)) && Orderly(Value(sh))
    requires prolog.Some? ==> IsProlog(prolog.value)
    modifies lib
    ensures sh'.p == again && Value(sh') == Value(sh) && Copied(old(lib.store), lib.store, sh')
  {
    hide Parse, Dump, Sound, Orderly, IsProlog;
    ghost var level, width := if newLine then 1 else 0, if space > 10 then 10 else space;
    ghost var p, pad := match prolog case Some(p) => p case None => "", if prolog.Some? && newLine then "\n" else "";
    RoundTripExactly(Value(sh), p, pad, level, width);
    Assoc(p, pad, Dump(Value(sh), level, width));
    var buf := XmlDumpTreeEx(lib.store, root, prolog, newLine, space, sh);
    assert buf.Text() == p + (pad + Dump(Value(sh), level, width));
    again, sh' := XmlParse(lib, buf.cells[..buf.used]);
  }
}
