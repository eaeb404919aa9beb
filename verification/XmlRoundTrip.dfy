/**
 Parsing what was written gives the tree back, at every level and indentation: looking for the first
 occurrence of a closing tag finds the right one when no element has a descendant of the same name.
 */
module XmlRoundTrip {
  import opened Sequences
  import opened Options
  import opened XmlSyntax

  /// First occurrences

  lemma {:induction false} IndexOfSkips(a: string, c: char, b: string)
    requires c !in a
    ensures match IndexOf(b, c)
            case Some(i) => IndexOf(a + b, c) == Some(|a| + i)
            case None => IndexOf(a + b, c) == None
  {
    if a == "" {
      assert a + b == b;
    } else {
      IndexOfSkips(a[1..], c, b);
      assert (a + b)[1..] == a[1..] + b;
    }
  }

  lemma IndexOfFirst(a: string, c: char, b: string)
    requires c !in a
    ensures IndexOf(a + [c] + b, c) == Some(|a|)
  {
    IndexOfSkips(a, c, [c] + b);
    assert a + [c] + b == a + ([c] + b);
  }

  // a and b differ within both.
  predicate Differ(a: string, b: string) {
    exists j :: 0 <= j < |a| && j < |b| && a[j] != b[j]
  }

  // Wherever a '<' stands in s, the needle does not, whatever text follows s.
  ghost predicate Avoids(s: string, needle: string) {
    forall i :: 0 <= i < |s| && s[i] == '<' ==> Differ(s[i..], needle)
  }

  lemma AvoidsJoin(s: string, t: string, needle: string)
    requires Avoids(s, needle) && Avoids(t, needle)
    ensures Avoids(s + t, needle)
  {
    forall i | 0 <= i < |s + t| && (s + t)[i] == '<'
      ensures Differ((s + t)[i..], needle)
    {
      if i < |s| {
        assert Differ(s[i..], needle);
        var j :| 0 <= j < |s[i..]| && j < |needle| && s[i..][j] != needle[j];
        assert (s + t)[i..][j] == s[i..][j];
      } else {
        assert (s + t)[i..] == t[i - |s|..];
      }
    }
  }

  lemma NoBracketAvoids(s: string, needle: string)
    requires '<' !in s
    ensures Avoids(s, needle)
  {}

  lemma AvoidsHere(s: string, needle: string, w: string)
    requires s != "" && Avoids(s, needle) && needle != "" && needle[0] == '<'
    ensures !(needle <= s + w)
  {
    assert s[0..] == s;
    if s[0] == '<' {
      var j :| 0 <= j < |s| && j < |needle| && s[j] != needle[j];
      assert (s + w)[j] == s[j];
    } else {
      assert (s + w)[0] == s[0];
    }
  }

  lemma AvoidsRest(s: string, needle: string)
    requires s != "" && Avoids(s, needle)
    ensures Avoids(s[1..], needle)
  {
    forall i | 0 <= i < |s[1..]| && s[1..][i] == '<'
      ensures Differ(s[1..][i..], needle)
    {
      assert s[1..][i..] == s[i + 1..];
    }
  }

  lemma StrStrHere(s: string, needle: string)
    ensures needle <= s ==> StrStr(s, needle) == Some(0)
    ensures s != "" && !(needle <= s) ==>
              StrStr(s, needle) == match StrStr(s[1..], needle) case Some(i) => Some(i + 1) case None => None
    ensures s == "" && needle != "" ==> StrStr(s, needle) == None
  {}

  // The first occurrence of a closing tag behind a text that avoids it is the one put there.
  lemma {:induction false} EndFound(s: string, needle: string, rest: string)
    requires Avoids(s, needle) && needle != "" && needle[0] == '<'
    ensures StrStr(s + needle + rest, needle) == Some(|s|)
  {
    hide Avoids, StrStr, Lacks;
    var all := s + needle + rest;
    if s == "" {
      assert all == needle + rest;
      StrStrHere(all, needle);
    } else {
      AvoidsHere(s, needle, needle + rest);
      AvoidsRest(s, needle);
      EndFound(s[1..], needle, rest);
      Assoc(s, needle, rest);
      DropFirst(s, needle, rest);
      StrStrHere(all, needle);
    }
  }

  lemma DropFirst(s: string, a: string, b: string)
    requires s != ""
    ensures s + a + b != "" && (s + a + b)[1..] == s[1..] + a + b
  {}

  /// Written trees avoid foreign closing tags

  lemma KeyFree(prefix: Option<string>, name: string)
    requires GoodName(name) && (prefix.Some? ==> GoodName(prefix.value))
    ensures var k := Key(prefix, name);
            k != "" && Free(k, {' ', '/', '<', '>'})
  {}

  lemma TagFree(prefix: Option<string>, name: string, uri: Option<string>, attr: Option<string>)
    requires SoundTag(prefix, name, uri, attr)
    ensures var t := TagText(prefix, name, attr);
            && t != "" && Free(t, {'<', '>'}) && t[0] != '/' && t[|t| - 1] != '/'
            && (Marked(t) <==> Marked(Key(prefix, name)))
  {
    KeyFree(prefix, name);
    hide Key, Declared;
    if attr.Some? {
      TextFree(Key(prefix, name), attr.value);
    }
  }

  lemma TextFree(key: string, a: string)
    requires key != "" && Free(key, {' ', '/', '<', '>'}) && GoodAttr(a)
    ensures var t := key + " " + a;
            t != "" && Free(t, {'<', '>'}) && t[0] == key[0] != '/' && t[|t| - 1] != '/'
  {
    FreeJoin(key, " ", {'<', '>'});
    FreeJoin(key + " ", a, {'<', '>'});
  }

  lemma FreeJoin(a: string, b: string, cs: set<char>)
    requires Free(a, cs) && Free(b, cs)
    ensures Free(a + b, cs)
  {}

  lemma StartTagAvoids(tag: string, key: string)
    requires tag != "" && tag[0] != '/' && Free(tag, {'<', '>'})
    ensures Avoids("<" + tag + ">", EndTag(key))
  {
    var s := "<" + tag + ">";
    assert forall i | 1 <= i < |s| - 1 :: s[i] == tag[i - 1];
    forall i | 0 <= i < |s| && s[i] == '<'
      ensures Differ(s[i..], EndTag(key))
    {
      assert s[i..][1] == tag[0] != EndTag(key)[1];
    }
  }

  lemma DifferentKeys(a: string, b: string) returns (j: nat)
    requires a != b && Free(a, {'>'}) && Free(b, {'>'})
    ensures j <= |a| && j <= |b| && (a + ">")[j] != (b + ">")[j]
  {
    j := 0;
    while j < |a| && j < |b| && a[j] == b[j]
      invariant j <= |a| && j <= |b| && a[..j] == b[..j]
    {
      j := j + 1;
    }
    assert a[..|a|] == a && b[..|b|] == b;
  }

  lemma EndTagAvoids(other: string, key: string)
    requires other != key && Free(other, {'<', '>'}) && Free(key, {'<', '>'})
    ensures Avoids(EndTag(other), EndTag(key))
  {
    var s := EndTag(other);
    assert forall i | 2 <= i < |s| - 1 :: s[i] == other[i - 2];
    var j := DifferentKeys(other, key);
    forall i | 0 <= i < |s| && s[i] == '<'
      ensures Differ(s[i..], EndTag(key))
    {
      assert s[i..][j + 2] == (other + ">")[j] != (key + ">")[j] == EndTag(key)[j + 2];
    }
  }

  lemma {:induction false} DumpAvoids(t: Xml, level: nat, space: nat, key: string)
    requires Good(t) && !HasKey([t], key) && Free(key, {'<', '>'})
    ensures Avoids(Dump(t, level, space), EndTag(key))
    decreases t, 1
  {
    match t
    case Text(text) => NoBracketAvoids(text, EndTag(key));
    case Element(prefix, name, uri, attr, kids) =>
      var start, content, end := "<" + TagText(prefix, name, attr) + ">", Content(kids, level, space), EndTag(Key(prefix, name));
      TagFree(prefix, name, uri, attr);
      KeyFree(prefix, name);
      StartTagAvoids(TagText(prefix, name, attr), key);
      assert [t][0] == t && [t][1..] == [];
      ContentAvoids(kids, level, space, key);
      EndTagAvoids(Key(prefix, name), key);
      AvoidsJoin(start, content, EndTag(key));
      AvoidsJoin(start + content, end, EndTag(key));
  }

  lemma ContentAvoids(kids: seq<Xml>, level: nat, space: nat, key: string)
    requires GoodKids(kids) && !HasKey(kids, key) && Free(key, {'<', '>'})
    ensures Avoids(Content(kids, level, space), EndTag(key))
    decreases kids, 1
  {
    DumpKidsAvoids(kids, level, space, key);
    NoBracketAvoids(Closing(kids, level, space), EndTag(key));
    AvoidsJoin(DumpKids(kids, level, space), Closing(kids, level, space), EndTag(key));
  }

  lemma {:induction false} DumpKidsAvoids(kids: seq<Xml>, level: nat, space: nat, key: string)
    requires GoodKids(kids) && !HasKey(kids, key) && Free(key, {'<', '>'})
    ensures Avoids(DumpKids(kids, level, space), EndTag(key))
    decreases kids, 0
  {
    if kids != [] {
      var kid := kids[0];
      assert !HasKey([kid], key) by {
        assert [kid][0] == kid && [kid][1..] == [];
        assert !HasKey([], key);
      }
      var i, d, r := Indent(kid, level, space), Dump(kid, NextLevel(level), space), DumpKids(kids[1..], level, space);
      NoBracketAvoids(i, EndTag(key));
      DumpAvoids(kid, NextLevel(level), space, key);
      DumpKidsAvoids(kids[1..], level, space, key);
      AvoidsJoin(i, d, EndTag(key));
      AvoidsJoin(i + d, r, EndTag(key));
    }
  }

  /// Tags read back

  lemma {:induction false} SpacesDropped(s: string, n: nat)
    requires n <= |s| && (forall i :: 0 <= i < n ==> s[i] == ' ') && (n < |s| ==> s[n] != ' ')
    ensures DropSpaces(s) == s[n..]
  {
    if n > 0 {
      SpacesDropped(s[1..], n - 1);
      assert s[1..][n - 1..] == s[n..];
    } else {
      assert s[0..] == s;
    }
  }

  lemma StripClean(s: string)
    requires s != "" && s[0] != ' ' && s[|s| - 1] != ' '
    ensures Strip(s) == Some(s) && Strip(" " + s) == Some(s)
  {
    assert (" " + s)[1..] == s;
  }

  // A needle that starts with a character that a lacks occurs behind a.
  lemma {:induction false} StrStrSkips(a: string, b: string, needle: string)
    requires needle != "" && needle[0] !in a
    ensures match StrStr(b, needle)
            case Some(i) => StrStr(a + b, needle) == Some(|a| + i)
            case None => StrStr(a + b, needle) == None
  {
    if a == "" {
      assert a + b == b;
    } else {
      StrStrSkips(a[1..], b, needle);
      assert (a + b)[0] == a[0];
      assert (a + b)[1..] == a[1..] + b;
    }
  }

  lemma DeclaredBehind(prefix: Option<string>, key: string, b: string)
    requires ' ' !in key
    ensures Declared(prefix, key + b) == Declared(prefix, b)
  {
    hide StrStr, Quoted;
    StrStrSkips(key, b, Namespace(prefix));
    match StrStr(b, Namespace(prefix)) {
      case Some(i) => assert (key + b)[|key| + i..] == b[i..];
      case None =>
    }
  }

  lemma DeclaredNowhere(prefix: Option<string>, key: string)
    requires ' ' !in key
    ensures Declared(prefix, key) == Uri(None)
  {
    DeclaredBehind(prefix, key, "");
    assert key + "" == key;
  }

  lemma RestReadsBack(prefix: Option<string>, name: string, uri: Option<string>, attr: Option<string>, tag: string, b: nat)
    requires GoodTag(prefix, name, uri, attr) && b <= |tag|
    requires tag[b..] == TagText(None, name, attr) && Declared(prefix, tag) == Uri(uri)
    ensures ParseRest(prefix, tag, b) == Some(Tag(prefix, name, uri, attr))
  {
    hide Declared, Strip, Key, IndexOf, TagText;
    StripClean(name);
    NoPrefix(name, attr);
    match attr {
      case Some(a) =>
        AfterName(name, a);
        StripClean(a);
        RestWithAttr(prefix, name, uri, a, tag, b);
      case None =>
        assert ' ' !in name;
        RestAlone(prefix, name, uri, tag, b);
    }
  }

  lemma RestWithAttr(prefix: Option<string>, name: string, uri: Option<string>, a: string, tag: string, b: nat)
    requires b <= |tag| && |name| <= |tag[b..]| && IndexOf(tag[b..], ' ') == Some(|name|)
    requires tag[b..][..|name|] == name && tag[b..][|name|..] == " " + a
    requires Strip(name) == Some(name) && Strip(" " + a) == Some(a) && Declared(prefix, tag) == Uri(uri)
    ensures ParseRest(prefix, tag, b) == Some(Tag(prefix, name, uri, Some(a)))
  {
    hide Declared, Strip, IndexOf;
  }

  lemma RestAlone(prefix: Option<string>, name: string, uri: Option<string>, tag: string, b: nat)
    requires b <= |tag| && tag[b..] == name && ' ' !in name && Strip(name) == Some(name) && Declared(prefix, tag) == Uri(uri)
    ensures ParseRest(prefix, tag, b) == Some(Tag(prefix, name, uri, None))
  {
    hide Declared, Strip, IndexOf;
  }

  lemma AfterName(name: string, a: string)
    requires ' ' !in name
    ensures var rest := name + " " + a;
            IndexOf(rest, ' ') == Some(|name|) && rest[..|name|] == name && rest[|name|..] == " " + a
  {
    IndexOfFirst(name, ' ', a);
    hide IndexOf;
    assert name + " " + a == name + [' '] + a;
  }

  lemma NoPrefix(name: string, attr: Option<string>)
    ensures TagText(None, name, attr) == match attr case Some(a) => name + " " + a case None => name
  {}

  lemma TagDeclares(prefix: Option<string>, name: string, uri: Option<string>, attr: Option<string>)
    requires GoodTag(prefix, name, uri, attr)
    ensures Declared(prefix, TagText(prefix, name, attr)) == Uri(uri)
  {
    KeyFree(prefix, name);
    hide Key, Declared;
    var key := Key(prefix, name);
    match attr {
      case Some(a) =>
        DeclaredBehind(prefix, key, " " + a);
        assert key + " " + a == key + (" " + a);
      case None =>
        DeclaredNowhere(prefix, key);
    }
  }

  lemma TagReadsBack(prefix: Option<string>, name: string, uri: Option<string>, attr: Option<string>)
    requires GoodTag(prefix, name, uri, attr)
    ensures ParseTag(TagText(prefix, name, attr)) == Some(Tag(prefix, name, uri, attr))
  {
    TagDeclares(prefix, name, uri, attr);
    match prefix {
      case Some(p) => PrefixedReadsBack(p, name, uri, attr);
      case None => PlainReadsBack(name, uri, attr);
    }
  }

  lemma PrefixedReadsBack(p: string, name: string, uri: Option<string>, attr: Option<string>)
    requires GoodTag(Some(p), name, uri, attr) && Declared(Some(p), TagText(Some(p), name, attr)) == Uri(uri)
    ensures ParseTag(TagText(Some(p), name, attr)) == Some(Tag(Some(p), name, uri, attr))
  {
    hide Declared, ParseRest, Strip;
    var tag, rest := TagText(Some(p), name, attr), TagText(None, name, attr);
    assert tag == p + [':'] + rest == (p + [':']) + rest by { Prefixed(p, name, attr); }
    IndexOfFirst(p, ':', rest);
    IndexOfSkips(p + [':'], ' ', rest);
    StripClean(p);
    assert tag[..|p|] == p && tag[|p| + 1..] == rest;
    RestReadsBack(Some(p), name, uri, attr, tag, |p| + 1);
  }

  lemma Prefixed(p: string, name: string, attr: Option<string>)
    ensures TagText(Some(p), name, attr) == p + [':'] + TagText(None, name, attr)
  {
    if attr.Some? {
      assert p + ":" + name + " " + attr.value == p + [':'] + (name + " " + attr.value);
    }
  }

  lemma PlainReadsBack(name: string, uri: Option<string>, attr: Option<string>)
    requires GoodTag(None, name, uri, attr) && Declared(None, TagText(None, name, attr)) == Uri(uri)
    ensures ParseTag(TagText(None, name, attr)) == Some(Tag(None, name, uri, attr))
  {
    hide Declared, ParseRest, Strip;
    var tag := TagText(None, name, attr);
    assert tag[0..] == tag;
    RestReadsBack(None, name, uri, attr, tag, 0);
    match attr {
      case Some(a) =>
        IndexOfFirst(name, ' ', a);
        assert tag == name + [' '] + a == name + ([' '] + a);
        IndexOfSkips(name, ':', [' '] + a);
      case None =>
        assert tag == name;
    }
  }

  /// Elements read back

  function TagOf(e: Xml): Tag
    requires e.Element?
  {
    Tag(e.prefix, e.name, e.uri, e.attr)
  }

  lemma StartRead(pad: string, tag: string, after: string)
    requires '<' !in pad && tag != "" && Free(tag, {'<', '>'}) && tag[|tag| - 1] != '/'
    ensures NextTag(pad + "<" + tag + ">" + after) ==
            match ParseTag(tag)
            case None => BadTag
            case Some(t) => Next(t, false, after)
  {
    hide ParseTag;
    var s := pad + "<" + tag + ">" + after;
    var t := tag + [">"[0]] + after;
    assert s == pad + ['<'] + t;
    IndexOfFirst(pad, '<', t);
    assert s[|pad| + 1..] == t;
    IndexOfFirst(tag, '>', after);
    assert t[..|tag|] == tag && t[|tag| + 1..] == after;
  }

  lemma EndRead(content: string, key: string, rest: string)
    requires Avoids(content, EndTag(key)) && Free(key, {'>'})
    ensures FindEnd(content + EndTag(key) + rest, key) == End(|content|, |content| + |EndTag(key)|)
  {
    var doc := content + EndTag(key) + rest;
    EndFound(content, EndTag(key), rest);
    hide Avoids, StrStr;
    assert doc[|content|..] == "</" + key + ['>'] + rest;
    IndexOfFirst("</" + key, '>', rest);
  }

  // What ParseInto does once the tag and the end of its element are found.
  lemma StepRead(s: string, kids: seq<Xml>, tag: Tag, doc: string, n: nat, all: nat, inner: seq<Xml>)
    requires s != "" && NextTag(s) == Next(tag, false, doc) && n <= all <= |doc|
    requires FindEnd(doc, KeyOf(tag)) == End(n, all) && ParseInto(doc[..n], []) == Some(inner)
    ensures ParseInto(s, kids) == ParseInto(doc[all..], kids + [Made(tag, inner)])
    ensures ParseRoot(s) == Root(Made(tag, inner))
  {
    hide NextTag, FindEnd, KeyOf;
  }

  lemma ElementText(pad: string, text: string, tag: Tag, content: string, rest: string, kids: seq<Xml>, inner: seq<Xml>)
    requires '<' !in pad && text != "" && Free(text, {'<', '>'}) && text[|text| - 1] != '/' && ParseTag(text) == Some(tag)
    requires Avoids(content, EndTag(KeyOf(tag))) && Free(KeyOf(tag), {'>'}) && ParseInto(content, []) == Some(inner)
    ensures var s := pad + ("<" + text + ">" + content + EndTag(KeyOf(tag))) + rest;
            ParseInto(s, kids) == ParseInto(rest, kids + [Made(tag, inner)]) && ParseRoot(s) == Root(Made(tag, inner))
  {
    hide Free, Avoids, ParseTag, FindEnd, NextTag, EndTag, ParseInto, ParseRoot, KeyOf;
    var end := EndTag(KeyOf(tag));
    var doc := content + end + rest;
    Regroup(pad, text, content, end, rest);
    StartRead(pad, text, doc);
    EndRead(content, KeyOf(tag), rest);
    Pieces(content, end, rest);
    StepRead(pad + "<" + text + ">" + doc, kids, tag, doc, |content|, |content| + |end|, inner);
  }

  // One element is read off the front of a text; what remains is the text behind it.
  lemma ElementRead(pad: string, e: Xml, level: nat, space: nat, rest: string, kids: seq<Xml>)
    requires '<' !in pad && e.Element? && Good(e) && ParseInto(Content(e.kids, level, space), []) == Some(e.kids)
    ensures ParseInto(pad + Dump(e, level, space) + rest, kids) == ParseInto(rest, kids + [e])
    ensures ParseRoot(pad + Dump(e, level, space) + rest) == Root(e)
  {
    hide ParseInto, ParseRoot, ParseTag, Content, Avoids, EndTag, TagText;
    TagFree(e.prefix, e.name, e.uri, e.attr);
    KeyFree(e.prefix, e.name);
    TagReadsBack(e.prefix, e.name, e.uri, e.attr);
    ContentAvoids(e.kids, level, space, Key(e.prefix, e.name));
    assert Made(TagOf(e), e.kids) == e && KeyOf(TagOf(e)) == Key(e.prefix, e.name);
    ElementText(pad, TagText(e.prefix, e.name, e.attr), TagOf(e), Content(e.kids, level, space), rest, kids, e.kids);
  }

  lemma Pieces(a: string, b: string, c: string)
    ensures (a + b + c)[..|a|] == a && (a + b + c)[|a| + |b|..] == c
  {}

  lemma Regroup(pad: string, tag: string, content: string, end: string, rest: string)
    ensures pad + ("<" + tag + ">" + content + end) + rest == pad + "<" + tag + ">" + (content + end + rest)
  {
    var start := "<" + tag + ">";
    Assoc(start, content, end);
    Assoc(pad, start, content + end);
    Assoc(pad + start, content + end, rest);
    Assoc(pad, "<" + tag, ">");
    Assoc(pad, "<", tag);
  }

  lemma {:induction false} KidsRead(kids: seq<Xml>, level: nat, space: nat, tail: string, before: seq<Xml>)
    requires GoodKids(kids) && AllElements(kids) && '<' !in tail && (tail == "" || kids != [] || before != [])
    ensures ParseInto(DumpKids(kids, level, space) + tail, before) == Some(before + kids)
    decreases kids, 0
  {
    if kids == [] {
      NoKidsRead(level, space, tail, before);
      assert before + kids == before;
    } else {
      var kid, more := kids[0], DumpKids(kids[1..], level, space);
      KidsFront(kids, level, space, tail);
      hide ParseInto, Dump, DumpKids, Content, Indent, Good;
      Cons(kids);
      Assoc(before, [kid], kids[1..]);
      ContentRead(kid.kids, NextLevel(level), space);
      ElementRead(Indent(kid, level, space), kid, NextLevel(level), space, more + tail, before);
      KidsRead(kids[1..], level, space, tail, before + [kid]);
    }
  }

  lemma KidsFront(kids: seq<Xml>, level: nat, space: nat, tail: string)
    requires kids != [] && GoodKids(kids) && AllElements(kids)
    ensures var kid := kids[0];
            && kid.Element? && Good(kid) && GoodKids(kids[1..]) && AllElements(kids[1..])
            && GoodKids(kid.kids) && ((|kid.kids| == 1 && kid.kids[0].Text?) || AllElements(kid.kids))
            && '<' !in Indent(kid, level, space)
            && DumpKids(kids, level, space) + tail ==
               Indent(kid, level, space) + Dump(kid, NextLevel(level), space) + (DumpKids(kids[1..], level, space) + tail)
  {
    var kid, more := kids[0], DumpKids(kids[1..], level, space);
    var pad, text := Indent(kid, level, space), Dump(kid, NextLevel(level), space);
    assert DumpKids(kids, level, space) == pad + text + more;
    Assoc(pad + text, more, tail);
  }

  lemma NoKidsRead(level: nat, space: nat, tail: string, before: seq<Xml>)
    requires '<' !in tail && (tail == "" || before != [])
    ensures ParseInto(DumpKids([], level, space) + tail, before) == Some(before)
  {
    assert DumpKids([], level, space) + tail == tail;
  }

  lemma TextRead(kid: Xml, level: nat, space: nat)
    requires kid.Text? && Good(kid)
    ensures ParseInto(Content([kid], level, space), []) == Some([kid])
  {
    var kids := [kid];
    assert kids[1..] == [] && DumpKids(kids[1..], level, space) == "";
    assert Indent(kid, level, space) == "" && Closing(kids, level, space) == "";
    assert Dump(kid, NextLevel(level), space) == kid.text;
    assert Content(kids, level, space) == "" + kid.text + "" + "" == kid.text;
    hide Content, DumpKids, Dump;
    assert NextTag(kid.text) == NoTag;
  }

  // The content of a good element reads back as its children.
  lemma {:induction false} ContentRead(kids: seq<Xml>, level: nat, space: nat)
    requires GoodKids(kids) && ((|kids| == 1 && kids[0].Text?) || AllElements(kids))
    ensures ParseInto(Content(kids, level, space), []) == Some(kids)
    decreases kids, 1
  {
    if |kids| == 1 && kids[0].Text? {
      TextRead(kids[0], level, space);
      assert kids == [kids[0]];
    } else {
      KidsRead(kids, level, space, Closing(kids, level, space), []);
      assert [] + kids == kids;
    }
  }

  /// Documents

  // No prolog starts in s.
  ghost predicate NoProlog(s: string) {
    forall i :: 0 <= i < |s| && s[i] == '<' ==> i + 1 < |s| && s[i + 1] !in {'?', '!'}
  }

  lemma NoPrologJoin(s: string, t: string)
    requires NoProlog(s) && NoProlog(t)
    ensures NoProlog(s + t)
  {}

  lemma {:induction false} DumpHasNoProlog(t: Xml, level: nat, space: nat)
    requires Good(t)
    ensures NoProlog(Dump(t, level, space))
    decreases t, 1
  {
    match t
    case Text(text) =>
    case Element(prefix, name, uri, attr, kids) =>
      var tag, content, key := TagText(prefix, name, attr), Content(kids, level, space), Key(prefix, name);
      TagFree(prefix, name, uri, attr);
      KeyFree(prefix, name);
      TagHasNoProlog(tag);
      EndHasNoProlog(key);
      KidsHaveNoProlog(kids, level, space);
      NoPrologJoin(DumpKids(kids, level, space), Closing(kids, level, space));
      NoPrologJoin("<" + tag + ">", content);
      NoPrologJoin("<" + tag + ">" + content, EndTag(key));
  }

  lemma {:induction false} KidsHaveNoProlog(kids: seq<Xml>, level: nat, space: nat)
    requires GoodKids(kids)
    ensures NoProlog(DumpKids(kids, level, space))
    decreases kids, 0
  {
    if kids != [] {
      var i, d := Indent(kids[0], level, space), Dump(kids[0], NextLevel(level), space);
      DumpHasNoProlog(kids[0], NextLevel(level), space);
      KidsHaveNoProlog(kids[1..], level, space);
      NoPrologJoin(i, d);
      NoPrologJoin(i + d, DumpKids(kids[1..], level, space));
    }
  }

  lemma TagHasNoProlog(tag: string)
    requires tag != "" && tag[0] !in {'?', '!'} && Free(tag, {'<', '>'})
    ensures NoProlog("<" + tag + ">")
  {
    var s := "<" + tag + ">";
    assert s[1] == tag[0];
    assert forall i | 1 <= i < |s| - 1 :: s[i] == tag[i - 1];
  }

  lemma EndHasNoProlog(key: string)
    requires Free(key, {'<', '>'})
    ensures NoProlog(EndTag(key))
  {
    var s := EndTag(key);
    assert forall i | 2 <= i < |s| - 1 :: s[i] == key[i - 2];
  }

  lemma {:induction false} NothingToSkip(s: string, open: string)
    requires NoProlog(s) && (open == "<?" || open == "<!")
    ensures StrStr(s, open) == None
  {
    if s != "" {
      if s[0] == '<' {
        assert s[1] != open[1];
      }
      NothingToSkip(s[1..], open);
    }
  }

  lemma SkipUnfolds(s: string, open: string, pos: nat, last: Option<nat>)
    requires pos <= |s| && (last.Some? ==> last.value <= |s|)
    ensures pos == |s| ==> SkipProlog(s, open, pos, last) == last
    ensures pos < |s| ==>
              match StrStr(s[pos..], open)
              case None => SkipProlog(s, open, pos, last) == Some(pos)
              case Some(i) =>
                match IndexOf(s[pos + i..], '>')
                case None => SkipProlog(s, open, pos, last) == None
                case Some(g) => SkipProlog(s, open, pos, last) == SkipProlog(s, open, pos + i + g + 1, Some(pos + i))
  {
    hide StrStr, IndexOf;
  }

  // Parsing a written document rebuilds its tree, at every level and indentation.
  lemma RoundTrip(t: Xml, level: nat, space: nat)
    requires Good(t) && t.Element?
    ensures Parse(Dump(t, level, space)) == Root(t)
  {
    hide Dump, ParseInto, ParseRoot, NoProlog, Content;
    var s := Dump(t, level, space);
    DumpHasNoProlog(t, level, space);
    ContentRead(t.kids, level, space);
    ElementRead("", t, level, space, "", []);
    assert "" + s + "" == s;
    hide Good;
    ParseStartsHere(s);
  }

  lemma ParseStartsHere(s: string)
    requires NoProlog(s) && ParseRoot(s).Root?
    ensures Parse(s) == ParseRoot(s)
  {
    hide NoProlog, ParseRoot, StrStr, IndexOf, SkipProlog;
    SomethingRead(s);
    assert s[0..] == s;
    NothingToSkip(s, "<?");
    NothingToSkip(s, "<!");
    SkipUnfolds(s, "<?", 0, None);
    SkipUnfolds(s, "<!", 0, None);
  }

  lemma SomethingRead(s: string)
    requires ParseRoot(s).Root?
    ensures s != ""
  {}

  /// Where the conditions come from

  // An element made with a namespace declares just that namespace, so it survives the round trip too.
  lemma NewElementDeclares(prefix: Option<string>, uri: string)
    requires Free(uri, {'"'}) && (prefix.Some? ==> Free(prefix.value, {'=', '"'}))
    ensures Declared(prefix, Namespace(prefix) + "=\"" + uri + "\"") == Uri(Some(uri))
  {
    var ns := Namespace(prefix);
    var s := ns + "=\"" + uri + "\"";
    assert ns <= s && s[0..] == s;
    assert '=' !in ns && '"' !in ns;
    hide Namespace;
    QuotedUri(ns, uri);
  }

  lemma QuotedUri(ns: string, uri: string)
    requires '=' !in ns && '"' !in ns && '"' !in uri
    ensures Quoted(ns + "=\"" + uri + "\"") == Some(uri)
  {
    var s := ns + "=\"" + uri + "\"";
    var head, tail := ns + ['='], uri + ['"'] + "";
    assert s == head + ['"'] + tail by { assert "=\"" == ['=', '"']; }
    assert s == ns + ['='] + (['"'] + tail);
    IndexOfFirst(ns, '=', ['"'] + tail);
    IndexOfFirst(head, '"', tail);
    IndexOfFirst(uri, '"', "");
    hide IndexOf;
    QuoteParts(head, uri, tail);
  }

  lemma QuoteParts(head: string, uri: string, tail: string)
    requires tail == uri + ['"'] + ""
    ensures var s := head + ['"'] + tail;
            s[|head| + 1..] == tail && s[|head|] == '"' && s[|head| + 1..|head| + 1 + |uri|] == uri
  {}

  // An element inside one of the same name takes the outer one's place for its end.
  lemma NestedNamesakesCollapse()
    ensures var inner := Element(None, "a", None, None, []);
            var t := Element(None, "a", None, None, [inner]);
            ParseRoot(Dump(t, 0, 0)) == Root(inner) != Root(t)
  {
    DumpNested();
    hide ParseTag, NextTag, FindEnd, ParseInto, ParseRoot, Dump;
    ParseTagA();
    StartRead("", "a", "<a></a></a>");
    StartTagOnly();
    NoBracketFirst();
    StepRead("" + "<" + "a" + ">" + "<a></a></a>", [], Tag(None, "a", None, None), "<a></a></a>", 3, 7, []);
  }

  lemma DumpNested()
    ensures var inner := Element(None, "a", None, None, []);
            Dump(Element(None, "a", None, None, [inner]), 0, 0) == "" + "<" + "a" + ">" + "<a></a></a>"
  {
    var inner := Element(None, "a", None, None, []);
    DumpSingle(inner);
    assert [inner][1..] == [] && DumpKids([inner][1..], 0, 0) == "";
    assert DumpKids([inner], 0, 0) == Dump(inner, 0, 0);
  }

  lemma DumpSingle(inner: Xml)
    requires inner == Element(None, "a", None, None, [])
    ensures Dump(inner, 0, 0) == "<a></a>"
  {}

  lemma ParseTagA()
    ensures ParseTag("a") == Some(Tag(None, "a", None, None))
  {
    TagReadsBack(None, "a", None, None);
  }

  lemma NoBracketFirst()
    ensures FindEnd("<a></a></a>", "a") == End(3, 7) && "<a></a></a>"[..3] == "<a>"
  {
    StartTagAvoids("a", "b");
    assert Avoids("<a>", EndTag("a")) by {
      StartTagAvoids("a", "a");
      assert "<" + "a" + ">" == "<a>";
    }
    assert "<a></a></a>" == "<a>" + EndTag("a") + "</a>";
    EndRead("<a>", "a", "</a>");
  }

  // The inner start tag has no end in what is left of the content, and is passed over.
  lemma StartTagOnly()
    ensures ParseInto("<a>", []) == Some([])
  {
    hide ParseTag, NextTag, FindEnd, StrStr, IndexOf;
    ParseTagA();
    StartRead("", "a", "");
    assert "" + "<" + "a" + ">" + "" == "<a>";
    NothingEnds("a");
  }

  lemma NothingEnds(key: string)
    ensures FindEnd("", key) == NoEnd
  {}
}
