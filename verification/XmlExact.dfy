/**
 Exactly which written trees come back from the parser. The closing tag that the parser takes for an
 element is the first of its key, so no element that it makes holds another of its own key; it starts
 behind the last tag that looks like a prolog; and it gives an element either one text or elements.
 Whatever the written tree was, what is read has these three properties, and a tree that has them is
 read back.
 */
module XmlExact {
  import opened Options
  import opened XmlSyntax
  import opened Sequences
  import opened XmlRoundTrip

  /// Trees

  // Every tag and every text of the tree can be told apart from what stands around it.
  predicate Sound(t: Xml)
    decreases t, 1
  {
    match t
    case Text(text) => Free(text, {'<'})
    case Element(prefix, name, uri, attr, kids) => SoundTag(prefix, name, uri, attr) && SoundKids(kids)
  }

  predicate SoundKids(kids: seq<Xml>)
    decreases kids, 0
  {
    kids == [] || (Sound(kids[0]) && SoundKids(kids[1..]))
  }

  // One text that is not empty, or only elements.
  predicate Unmixed(kids: seq<Xml>) {
    (|kids| == 1 && kids[0].Text? && kids[0].text != "") || AllElements(kids)
  }

  // No element holds, at any depth, another of its own key; none looks like a prolog; none mixes
  // texts with other content.
  predicate Orderly(t: Xml)
    decreases t, 1
  {
    match t
    case Text(text) => text != ""
    case Element(prefix, name, _, _, kids) =>
      !HasKey(kids, Key(prefix, name)) && !Marked(Key(prefix, name)) && Unmixed(kids) && OrderlyKids(kids)
  }

  predicate OrderlyKids(kids: seq<Xml>)
    decreases kids, 0
  {
    kids == [] || (Orderly(kids[0]) && OrderlyKids(kids[1..]))
  }

  lemma {:induction false} GoodExactly(t: Xml)
    requires Sound(t)
    ensures Good(t) <==> Orderly(t)
    decreases t, 1
  {
    match t
    case Text(_) =>
    case Element(_, _, _, _, kids) => GoodKidsExactly(kids);
  }

  lemma {:induction false} GoodKidsExactly(kids: seq<Xml>)
    requires SoundKids(kids)
    ensures GoodKids(kids) <==> OrderlyKids(kids)
    decreases kids, 0
  {
    if kids != [] {
      GoodExactly(kids[0]);
      GoodKidsExactly(kids[1..]);
    }
  }

  lemma {:induction false} OrderlySnoc(kids: seq<Xml>, kid: Xml)
    requires OrderlyKids(kids) && Orderly(kid)
    ensures OrderlyKids(kids + [kid])
  {
    if kids == [] {
      assert kids + [kid] == [kid];
    } else {
      assert (kids + [kid])[1..] == kids[1..] + [kid];
      OrderlySnoc(kids[1..], kid);
    }
  }

  lemma {:induction false} HasKeySnoc(kids: seq<Xml>, kid: Xml, key: string)
    requires kid.Element?
    ensures HasKey(kids + [kid], key) <==>
              HasKey(kids, key) || Key(kid.prefix, kid.name) == key || HasKey(kid.kids, key)
  {
    if kids == [] {
      assert kids + [kid] == [kid];
      assert [kid][1..] == [];
    } else {
      assert (kids + [kid])[1..] == kids[1..] + [kid];
      HasKeySnoc(kids[1..], kid, key);
    }
  }

  /// Written texts are tidy

  // Every tag that starts in s ends in s.
  ghost predicate Enclosed(s: string) {
    forall i :: 0 <= i < |s| && s[i] == '<' ==> '>' in s[i..]
  }

  // No tag in s ends in '/', and no closing tag holds a space.
  ghost predicate Tidy(s: string) {
    forall i, m :: 0 <= i < m < |s| && s[i] == '<' && '>' !in s[i..m] ==>
      (s[m] == '>' ==> s[m - 1] != '/') && (s[i + 1] == '/' ==> s[m] != ' ')
  }

  lemma TidyParts(s: string, k: nat)
    requires Tidy(s) && k <= |s|
    ensures Tidy(s[..k]) && Tidy(s[k..])
  {
    forall i, m | 0 <= i < m < k && s[..k][i] == '<' && '>' !in s[..k][i..m]
      ensures (s[..k][m] == '>' ==> s[..k][m - 1] != '/') && (s[..k][i + 1] == '/' ==> s[..k][m] != ' ')
    {
      assert s[..k][i..m] == s[i..m];
    }
    TidyRest(s, k);
  }

  lemma TidyRest(s: string, k: nat)
    requires Tidy(s) && k <= |s|
    ensures Tidy(s[k..])
  {
    var t := s[k..];
    forall i, m | 0 <= i < m < |t| && t[i] == '<' && '>' !in t[i..m]
      ensures (t[m] == '>' ==> t[m - 1] != '/') && (t[i + 1] == '/' ==> t[m] != ' ')
    {
      assert t[i..m] == s[k + i..k + m];
      assert s[k + i] == '<' && s[k + i + 1] == t[i + 1] && s[k + m] == t[m] && s[k + m - 1] == t[m - 1];
    }
  }

  lemma EnclosedJoin(s: string, t: string)
    requires Enclosed(s) && Enclosed(t)
    ensures Enclosed(s + t)
  {
    forall i | 0 <= i < |s + t| && (s + t)[i] == '<'
      ensures '>' in (s + t)[i..]
    {
      assert if i < |s| then (s + t)[i..] == s[i..] + t else (s + t)[i..] == t[i - |s|..];
    }
  }

  lemma TidyJoin(s: string, t: string)
    requires Tidy(s) && Enclosed(s) && Tidy(t)
    ensures Tidy(s + t)
  {
    var u := s + t;
    forall i, m | 0 <= i < m < |u| && u[i] == '<' && '>' !in u[i..m]
      ensures (u[m] == '>' ==> u[m - 1] != '/') && (u[i + 1] == '/' ==> u[m] != ' ')
    {
      if i < |s| <= m {
        EndsBefore(s, t, i, m);
      } else if m < |s| {
        assert s[i..m] == u[i..m] && s[m] == u[m];
      } else {
        assert t[i - |s|..m - |s|] == u[i..m] && t[m - |s|] == u[m];
      }
    }
  }

  lemma EndsBefore(s: string, t: string, i: nat, m: nat)
    requires i < |s| <= m < |s + t| && Enclosed(s) && s[i] == '<'
    ensures '>' in (s + t)[i..m]
  {
    assert (s + t)[i..m] == s[i..] + t[..m - |s|];
  }

  // Tidy, enclosed texts in a row.
  ghost predicate Neat(s: string) {
    Tidy(s) && Enclosed(s)
  }

  lemma NeatJoin(s: string, t: string)
    requires Neat(s) && Neat(t)
    ensures Neat(s + t)
  {
    TidyJoin(s, t);
    EnclosedJoin(s, t);
  }

  lemma NoTagIsNeat(s: string)
    requires '<' !in s
    ensures Neat(s)
  {}

  // One tag: nothing in it but its own brackets.
  lemma TagIsNeat(tag: string)
    requires tag != "" && Free(tag, {'<', '>'}) && tag[|tag| - 1] != '/' && (tag[0] == '/' ==> ' ' !in tag)
    ensures Neat("<" + tag + ">")
  {
    var s := "<" + tag + ">";
    assert forall k | 1 <= k < |s| - 1 :: s[k] == tag[k - 1];
    assert s[0..][|s| - 1] == '>';
    forall i, m | 0 <= i < m < |s| && s[i] == '<' && '>' !in s[i..m]
      ensures (s[m] == '>' ==> s[m - 1] != '/') && (s[i + 1] == '/' ==> s[m] != ' ')
    {
      assert i == 0;
      assert m < |s| - 1 ==> s[m] == tag[m - 1];
    }
  }

  lemma EndTagIsNeat(key: string)
    requires key != "" && Free(key, {' ', '/', '<', '>'})
    ensures Neat(EndTag(key))
  {
    TagIsNeat("/" + key);
    assert "<" + ("/" + key) + ">" == EndTag(key);
  }

  lemma {:induction false} DumpIsNeat(t: Xml, level: nat, space: nat)
    requires Sound(t)
    ensures Neat(Dump(t, level, space))
    decreases t, 1
  {
    hide Neat;
    match t
    case Text(text) => NoTagIsNeat(text);
    case Element(prefix, name, uri, attr, kids) =>
      ElementParts(t, level, space);
      StartIsNeat(t, level, space);
      KeyFree(prefix, name);
      EndTagIsNeat(Key(prefix, name));
      hide Dump, Content, EndTag, Key;
      NeatJoin(Opening(t, level, space), EndTag(Key(prefix, name)));
  }

  // The text of an element up to its closing tag.
  function Opening(t: Xml, level: nat, space: nat): string
    requires t.Element?
  {
    "<" + TagText(t.prefix, t.name, t.attr) + ">" + Content(t.kids, level, space)
  }

  lemma ElementParts(t: Xml, level: nat, space: nat)
    requires t.Element?
    ensures Dump(t, level, space) == Opening(t, level, space) + EndTag(Key(t.prefix, t.name))
  {}

  lemma {:induction false} StartIsNeat(t: Xml, level: nat, space: nat)
    requires t.Element? && Sound(t)
    ensures Neat(Opening(t, level, space))
    decreases t, 0
  {
    hide Neat;
    TagFree(t.prefix, t.name, t.uri, t.attr);
    TagIsNeat(TagText(t.prefix, t.name, t.attr));
    KidsAreNeat(t.kids, level, space);
    NoTagIsNeat(Closing(t.kids, level, space));
    NeatJoin(DumpKids(t.kids, level, space), Closing(t.kids, level, space));
    NeatJoin("<" + TagText(t.prefix, t.name, t.attr) + ">", Content(t.kids, level, space));
  }

  lemma {:induction false} KidsAreNeat(kids: seq<Xml>, level: nat, space: nat)
    requires SoundKids(kids)
    ensures Neat(DumpKids(kids, level, space))
    decreases kids, 0
  {
    hide Neat;
    if kids == [] {
      NoTagIsNeat("");
    } else {
      var i, d := Indent(kids[0], level, space), Dump(kids[0], NextLevel(level), space);
      NoTagIsNeat(i);
      DumpIsNeat(kids[0], NextLevel(level), space);
      KidsAreNeat(kids[1..], level, space);
      NeatJoin(i, d);
      NeatJoin(i + d, DumpKids(kids[1..], level, space));
    }
  }

  /// What is read from a tidy text

  // No tag in s looks like a prolog.
  ghost predicate Unmarked(s: string) {
    forall i :: 0 <= i && i + 1 < |s| && s[i] == '<' ==> s[i + 1] !in {'?', '!'}
  }

  ghost predicate Plain(s: string) {
    Tidy(s) && Unmarked(s)
  }

  lemma PlainParts(s: string, k: nat)
    requires Plain(s) && k <= |s|
    ensures Plain(s[..k]) && Plain(s[k..])
  {
    TidyParts(s, k);
    forall i | 0 <= i && i + 1 < |s[k..]| && s[k..][i] == '<'
      ensures s[k..][i + 1] !in {'?', '!'}
    {
      assert s[k + i] == '<' && s[k + i + 1] == s[k..][i + 1];
    }
  }

  // No closing tag of this key stands in s.
  ghost predicate Endless(s: string, key: string) {
    Lacks(s, |s| + 1, EndTag(key))
  }

  lemma EndlessParts(s: string, key: string, k: nat)
    requires Endless(s, key) && k <= |s|
    ensures Endless(s[..k], key) && Endless(s[k..], key)
  {
    hide EndTag;
    forall i | 0 <= i <= k
      ensures !(EndTag(key) <= s[..k][i..])
    {
      assert s[..k][i..] == s[i..][..k - i];
      assert !(EndTag(key) <= s[i..]);
    }
    forall i | 0 <= i <= |s| - k
      ensures !(EndTag(key) <= s[k..][i..])
    {
      assert s[k..][i..] == s[k + i..];
    }
  }

  lemma FramedFirst(s: string, a: nat, t: string)
    requires Framed(s, a, t) && s != "" && s[0] != ' ' && t != ""
    ensures a == 0 && t[0] == s[0]
  {}

  lemma StripFacts(s: string, c: char)
    requires Strip(s).Some?
    ensures var t := Strip(s).value;
            (c !in s ==> c !in t) && (s != "" && s[0] != ' ' ==> t != "" && t[0] == s[0])
  {
    var t := Strip(s).value;
    var a :| Framed(s, a, t);
    if s != "" && s[0] != ' ' {
      FramedFirst(s, a, t);
    }
  }

  // The key of a tag starts with the tag's first character and holds no bracket.
  lemma KeyOfTag(text: string)
    requires '>' !in text && ParseTag(text).Some?
    ensures var key := KeyOf(ParseTag(text).value);
            text != "" && key != "" && key[0] == text[0] && '>' !in key
  {
    var colon, space := IndexOf(text, ':'), IndexOf(text, ' ');
    var tag := ParseTag(text).value;
    if colon.Some? && (space.None? || colon.value < space.value) {
      KeyFront(text, colon.value);
      KeyName(Some(Strip(text[..colon.value]).value), text, colon.value + 1);
    } else {
      assert text[0..] == text;
      KeyName(None, text, 0);
      KeyAlone(text);
    }
  }

  lemma KeyFront(text: string, n: nat)
    requires n < |text| && ' ' !in text[..n] && '>' !in text && Strip(text[..n]).Some?
    ensures var p := Strip(text[..n]).value;
            p != "" && p[0] == text[0] && '>' !in p
  {
    var front := text[..n];
    StripOfNothing();
    hide Strip;
    assert front[0] != ' ';
    StripFacts(front, '>');
  }

  lemma KeyName(prefix: Option<string>, text: string, b: nat)
    requires b <= |text| && '>' !in text && ParseRest(prefix, text, b).Some?
    ensures var tag := ParseRest(prefix, text, b).value;
            tag.prefix == prefix && '>' !in tag.name && tag.name != ""
  {
    hide Strip, Declared;
    var rest := text[b..];
    var sep := IndexOf(rest, ' ');
    StripFacts(if sep.Some? then rest[..sep.value] else rest, '>');
    StripSolid(if sep.Some? then rest[..sep.value] else rest);
  }

  lemma StripSolid(s: string)
    requires Strip(s).Some?
    ensures Strip(s).value != ""
  {}

  lemma KeyAlone(text: string)
    requires ParseRest(None, text, 0).Some?
    ensures text != "" && ParseRest(None, text, 0).value.name[..1] == text[..1]
  {
    hide Strip, Declared;
    var rest := text[0..];
    assert rest == text;
    var sep := IndexOf(rest, ' ');
    var front := if sep.Some? then rest[..sep.value] else rest;
    assert ' ' !in front;
    StripSolid(front);
    StripOfNothing();
    assert front != "" && front[0] != ' ';
    StripFacts(front, '>');
  }

  lemma StripOfNothing()
    ensures Strip("") == None
  {}

  // The next tag of a tidy text is never of the empty kind.
  lemma NextFacts(s: string) returns (k: nat)
    requires Tidy(s) && NextTag(s).Next?
    ensures var next := NextTag(s);
            && !next.empty && '>' !in KeyOf(next.tag) && k <= |s| && next.doc == s[k..] && |s[k..]| < |s|
            && (Unmarked(s) ==> !Marked(KeyOf(next.tag)))
  {
    hide ParseTag, IndexOf, Tidy, KeyOf;
    var f := IndexOf(s, '<').value;
    var t := s[f + 1..];
    var g := IndexOf(t, '>').value;
    k := f + 1 + g + 1;
    assert t[g + 1..] == s[k..];
    NotEmptyKind(s, f, g);
    KeyOfTag(t[..g]);
    assert s[f + 1] == t[..g][0];
  }

  lemma NotEmptyKind(s: string, f: nat, g: nat)
    requires Tidy(s) && f + 1 + g < |s| && s[f] == '<' && s[f + 1 + g] == '>' && '>' !in s[f + 1..][..g]
    ensures g > 0 ==> s[f + 1..][g - 1] != '/'
  {
    var m := f + 1 + g;
    assert s[f..m] == ['<'] + s[f + 1..][..g];
    assert '>' !in s[f..m];
    assert g > 0 ==> s[m - 1] == s[f + 1..][g - 1];
  }

  // The end found is the first closing tag of the key.
  lemma EndFacts(doc: string, key: string)
    requires Tidy(doc) && '>' !in key && FindEnd(doc, key).End?
    ensures var n := FindEnd(doc, key).content;
            n + |EndTag(key)| <= |doc| && doc[n..n + |EndTag(key)|] == EndTag(key) && Endless(doc[..n], key)
  {
    hide EndTag, Tidy;
    match StrStr(doc, EndTag(key)) {
      case Some(n) => EndlessBefore(doc, key, n);
      case None => SpacedEnd(doc, key, StrStr(doc, "</" + key + " ").value);
    }
  }

  lemma SpacedEnd(doc: string, key: string, e: nat)
    requires '>' !in key && e + |key| + 3 <= |doc| && doc[e..e + |key| + 3] == "</" + key + " "
    ensures !Tidy(doc)
  {
    var tag, m := "</" + key + " ", e + 2 + |key|;
    assert doc[e..m] == doc[e..m + 1][..2 + |key|] == "</" + key;
    assert doc[e] == tag[0] && doc[e + 1] == tag[1] && doc[m] == tag[2 + |key|];
    assert '>' !in doc[e..m];
  }

  lemma EndlessBefore(doc: string, key: string, n: nat)
    requires n <= |doc| && Lacks(doc, n, EndTag(key))
    ensures Endless(doc[..n], key)
  {
    hide EndTag;
    assert EndTag(key) != "" by { EndTagSolid(key); }
    forall k | 0 <= k < n + 1 && k <= n
      ensures !(EndTag(key) <= doc[..n][k..])
    {
      if k < n {
        assert doc[..n][k..] == doc[k..][..n - k];
        assert !(EndTag(key) <= doc[k..]);
      }
    }
  }

  lemma EndTagSolid(key: string)
    ensures EndTag(key) != ""
  {}

  // One turn of the parser over a tidy text that it does not give up on.
  lemma Turn(s: string, kids: seq<Xml>)
    requires Tidy(s) && s != "" && ParseInto(s, kids).Some? && NextTag(s) != NoTag
    ensures var next := NextTag(s);
            && next.Next? && !next.empty && |next.doc| < |s|
            && var end := FindEnd(next.doc, KeyOf(next.tag));
               && (end == NoEnd ==> ParseInto(s, kids) == ParseInto(next.doc, kids))
               && (end != NoEnd ==>
                     && end.End? && ParseInto(next.doc[..end.content], []).Some?
                     && ParseInto(s, kids) ==
                        ParseInto(next.doc[end.all..], kids + [Made(next.tag, ParseInto(next.doc[..end.content], []).value)]))
  {
    hide NextTag, FindEnd, KeyOf;
    if NextTag(s).Next? {
      var k := NextFacts(s);
    }
  }

  lemma OneEndTag(a: string, b: string, doc: string, n: nat)
    requires Endless(doc, b) && n + |EndTag(a)| <= |doc| && doc[n..n + |EndTag(a)|] == EndTag(a)
    ensures a != b
  {
    assert doc[n..][..|EndTag(a)|] == EndTag(a);
    assert EndTag(a) <= doc[n..];
  }

  // Without a closing tag for it, no element of this key is made.
  lemma {:induction false} Keyless(s: string, kids: seq<Xml>, key: string)
    requires Tidy(s) && Endless(s, key) && ParseInto(s, kids).Some? && !HasKey(kids, key)
    ensures !HasKey(ParseInto(s, kids).value, key)
    decreases |s|
  {
    hide NextTag, FindEnd, KeyOf, Tidy, Endless, EndTag;
    if s != "" && NextTag(s) != NoTag {
      Turn(s, kids);
      var k := NextFacts(s);
      var tag, doc := NextTag(s).tag, NextTag(s).doc;
      TidyParts(s, k);
      EndlessParts(s, key, k);
      hide ParseInto;
      match FindEnd(doc, KeyOf(tag)) {
        case NoEnd => Keyless(doc, kids, key);
        case End(n, all) =>
          EndFacts(doc, KeyOf(tag));
          OneEndTag(KeyOf(tag), key, doc, n);
          TidyParts(doc, n);
          EndlessParts(doc, key, n);
          NoKids(key);
          Keyless(doc[..n], [], key);
          var kid := Made(tag, ParseInto(doc[..n], []).value);
          MadeKey(tag, kid.kids);
          HasKeySnoc(kids, kid, key);
          TidyParts(doc, all);
          EndlessParts(doc, key, all);
          Keyless(doc[all..], kids + [kid], key);
        case CutShort =>
      }
    } else {
      LoneText(s, kids, key);
    }
  }

  lemma NoKids(key: string)
    ensures !HasKey([], key)
  {}

  lemma MadeKey(tag: Tag, kids: seq<Xml>)
    ensures var kid := Made(tag, kids);
            kid.Element? && Key(kid.prefix, kid.name) == KeyOf(tag) && kid.kids == kids
  {}

  lemma LoneText(s: string, kids: seq<Xml>, key: string)
    requires (s == "" || NextTag(s) == NoTag) && !HasKey(kids, key)
    ensures ParseInto(s, kids).Some? && !HasKey(ParseInto(s, kids).value, key)
    ensures ParseInto(s, kids).value == if s != "" && kids == [] then [Text(s)] else kids
  {
    assert [Text(s)][1..] == [];
  }

  // Whatever a plain text says, the elements made of it are orderly.
  lemma {:induction false} ReadsOrderly(s: string, kids: seq<Xml>)
    requires Plain(s) && ParseInto(s, kids).Some? && AllElements(kids) && OrderlyKids(kids)
    ensures OrderlyKids(ParseInto(s, kids).value) && Unmixed(ParseInto(s, kids).value)
    decreases |s|
  {
    hide NextTag, FindEnd, KeyOf, Tidy, Unmarked, Endless, EndTag, HasKey;
    if s != "" && NextTag(s) != NoTag {
      Turn(s, kids);
      var k := NextFacts(s);
      var tag, doc := NextTag(s).tag, NextTag(s).doc;
      PlainParts(s, k);
      hide ParseInto;
      match FindEnd(doc, KeyOf(tag)) {
        case NoEnd => ReadsOrderly(doc, kids);
        case End(n, all) =>
          var kid := Made(tag, ParseInto(doc[..n], []).value);
          ElementOrderly(doc, tag, n);
          OrderlySnoc(kids, kid);
          PlainParts(doc, all);
          ReadsOrderly(doc[all..], kids + [kid]);
        case CutShort =>
      }
    } else {
      LoneOrderly(s, kids);
    }
  }

  lemma LoneOrderly(s: string, kids: seq<Xml>)
    requires (s == "" || NextTag(s) == NoTag) && AllElements(kids) && OrderlyKids(kids) && ParseInto(s, kids).Some?
    ensures OrderlyKids(ParseInto(s, kids).value) && Unmixed(ParseInto(s, kids).value)
  {
    assert [Text(s)][1..] == [];
  }

  lemma {:induction false} ElementOrderly(doc: string, tag: Tag, n: nat)
    requires Plain(doc) && '>' !in KeyOf(tag) && !Marked(KeyOf(tag)) && FindEnd(doc, KeyOf(tag)).End?
    requires n == FindEnd(doc, KeyOf(tag)).content && ParseInto(doc[..n], []).Some?
    ensures var kid := Made(tag, ParseInto(doc[..n], []).value);
            kid.Element? && Orderly(kid)
    decreases |doc|
  {
    hide FindEnd, KeyOf, Tidy, Unmarked, Endless, EndTag, HasKey, ParseInto, Marked;
    EndFacts(doc, KeyOf(tag));
    EndTagSolid(KeyOf(tag));
    PlainParts(doc, n);
    NoKids(KeyOf(tag));
    Keyless(doc[..n], [], KeyOf(tag));
    ReadsOrderly(doc[..n], []);
    MadeKey(tag, ParseInto(doc[..n], []).value);
  }

  lemma {:induction false} RootOrderly(s: string)
    requires Plain(s) && ParseRoot(s).Root?
    ensures Orderly(ParseRoot(s).t) && ParseRoot(s).t.Element?
    decreases |s|
  {
    hide NextTag, FindEnd, KeyOf, Tidy, Unmarked, ParseInto, Orderly;
    var k := NextFacts(s);
    var tag, doc := NextTag(s).tag, NextTag(s).doc;
    PlainParts(s, k);
    match FindEnd(doc, KeyOf(tag)) {
      case NoEnd => RootOrderly(doc);
      case End(n, all) => ElementOrderly(doc, tag, n);
      case CutShort =>
    }
  }

  /// Prologs

  predicate IsOpener(open: string) {
    open == "<?" || open == "<!"
  }

  // Every construct that begins with open in s, from pos on, ends before stop.
  ghost predicate EndsBy(s: string, open: string, pos: nat, stop: nat) {
    stop < |s| && forall q :: pos <= q < |s| && open <= s[q..] ==> q < stop && '>' in s[q..stop]
  }

  lemma StopInside(s: string, open: string, pos: nat, stop: nat)
    requires EndsBy(s, open, pos, stop)
    ensures stop < |s|
  {}

  // The parser goes on behind the last construct that begins with open, before stop.
  lemma {:induction false} PrologsSkipped(s: string, open: string, pos: nat, last: Option<nat>, stop: nat)
    requires IsOpener(open) && pos <= stop && EndsBy(s, open, pos, stop) && (last.Some? ==> last.value <= |s|)
    ensures SkipProlog(s, open, pos, last).Some?
    ensures var k := SkipProlog(s, open, pos, last).value;
            pos <= k <= stop && Lacks(s[k..], |s[k..]| + 1, open)
    decreases |s| - pos
  {
    hide StrStr, IndexOf, Lacks, SkipProlog, EndsBy;
    assert stop < |s| by { StopInside(s, open, pos, stop); }
    SkipUnfolds(s, open, pos, last);
    match StrStr(s[pos..], open)
    case None =>
    case Some(i) =>
      FirstEnd(s, open, pos, i, stop);
      var pos' := pos + i + IndexOf(s[pos + i..], '>').value + 1;
      EndsByFurther(s, open, pos, pos', stop);
      PrologsSkipped(s, open, pos', Some(pos + i), stop);
  }

  lemma EndsByFurther(s: string, open: string, pos: nat, pos': nat, stop: nat)
    requires EndsBy(s, open, pos, stop) && pos <= pos'
    ensures EndsBy(s, open, pos', stop)
  {}

  lemma FirstEnd(s: string, open: string, pos: nat, i: nat, stop: nat)
    requires IsOpener(open) && pos <= stop && EndsBy(s, open, pos, stop)
    requires pos + i + |open| <= |s| && s[pos..][i..i + |open|] == open
    ensures IndexOf(s[pos + i..], '>').Some? && pos + i + IndexOf(s[pos + i..], '>').value + 1 <= stop
  {
    hide IndexOf;
    var q := pos + i;
    assert s[q..][..|open|] == s[pos..][i..i + |open|] == open;
    assert open <= s[q..];
    assert '>' in s[q..stop];
    var j :| q <= j < stop && s[j] == '>';
    var t := s[q..];
    assert t[j - q] == '>';
    match IndexOf(t, '>') {
      case Some(g) =>
      case None =>
    }
  }

  // One processing instruction or comment, without brackets inside.
  predicate IsProlog(p: string) {
    |p| >= 3 && IsOpener(p[..2]) && p[|p| - 1] == '>' && Free(p[1..|p| - 1], {'<', '>'})
  }

  // Where the search for open goes on behind a prolog p: at its end if p begins with open.
  function Behind(p: string, open: string): nat {
    if open <= p then |p| else 0
  }

  lemma PrologFirst(p: string, rest: string, open: string)
    requires IsProlog(p) && rest != "" && open <= p && IsOpener(open)
    ensures SkipProlog(p + rest, open, 0, None) == SkipProlog(p + rest, open, |p|, Some(0))
  {
    var s, front := p + rest, p[..|p| - 1];
    PrologEnds(p);
    hide StrStr, IndexOf, SkipProlog, IsProlog;
    FrontOf(p, rest, open);
    assert s[0..] == s;
    StrStrHere(s, open);
    IndexOfFirst(front, '>', rest);
    SkipUnfolds(s, open, 0, None);
  }

  lemma PrologEnds(p: string)
    requires IsProlog(p)
    ensures p == p[..|p| - 1] + ['>'] && '>' !in p[..|p| - 1]
  {
    assert p[..|p| - 1] == ['<'] + p[1..|p| - 1];
  }

  lemma FrontOf(p: string, rest: string, open: string)
    requires open <= p
    ensures open <= p + rest
  {}

  lemma {:induction false} HeadSkipped(p: string, rest: string, open: string, stop: nat)
    requires (p == "" || IsProlog(p)) && IsOpener(open) && rest != ""
    requires |p| <= stop && EndsBy(p + rest, open, 0, stop)
    ensures SkipProlog(p + rest, open, 0, None).Some?
    ensures var k := SkipProlog(p + rest, open, 0, None).value;
            Behind(p, open) <= k <= stop && Lacks((p + rest)[k..], |p + rest| - k + 1, open)
  {
    hide SkipProlog, EndsBy, Lacks;
    if p != "" && open <= p {
      PrologFirst(p, rest, open);
      EndsByFurther(p + rest, open, 0, |p|, stop);
      PrologsSkipped(p + rest, open, |p|, Some(0), stop);
    } else {
      PrologsSkipped(p + rest, open, 0, None, stop);
    }
  }

  lemma LacksBoth(s: string, i: nat, j: nat)
    requires i <= |s| && j <= |s| && Lacks(s[i..], |s| - i + 1, "<?") && Lacks(s[j..], |s| - j + 1, "<!")
    ensures Unmarked(s[if i > j then i else j..])
  {
    var k := if i > j then i else j;
    forall n | 0 <= n && n + 1 < |s[k..]| && s[k..][n] == '<'
      ensures s[k..][n + 1] !in {'?', '!'}
    {
      assert !("<?" <= s[i..][k - i + n..]) && s[i..][k - i + n..] == s[k + n..];
      assert !("<!" <= s[j..][k - j + n..]) && s[j..][k - j + n..] == s[k + n..];
      assert s[k + n..][0] == '<' && s[k + n..][1] == s[k..][n + 1];
    }
  }

  lemma ProloglessEnd(body: string, key: string, open: string)
    requires Enclosed(body) && Free(key, {'<', '>'}) && IsOpener(open)
    ensures EndsBy(body + EndTag(key), open, 0, |body|)
  {
    var s := body + EndTag(key);
    forall q | 0 <= q < |s| && open <= s[q..]
      ensures q < |body| && '>' in s[q..|body|]
    {
      assert s[q] == s[q..][0] == '<' && s[q + 1] == s[q..][1] != '/';
      assert s[q..|body|] == body[q..];
    }
  }

  lemma DumpSolid(t: Xml, level: nat, space: nat)
    requires t.Element?
    ensures Dump(t, level, space) != ""
  {}

  lemma PadHasNoProlog(pad: string)
    requires '<' !in pad
    ensures NoProlog(pad)
  {}

  lemma GoodContent(t: Xml)
    requires t.Element? && Good(t)
    ensures GoodKids(t.kids) && ((|t.kids| == 1 && t.kids[0].Text?) || AllElements(t.kids))
  {}

  lemma StartOfProlog(p: string)
    requires p == "" || IsProlog(p)
    ensures p == "" || "<?" <= p || "<!" <= p
  {}

  lemma PrologIsEnclosed(p: string)
    requires p == "" || IsProlog(p)
    ensures Enclosed(p)
  {
    if p != "" {
      assert forall i | 1 <= i < |p| - 1 :: p[i] == p[1..|p| - 1][i - 1];
      assert p[0..][|p| - 1] == '>';
    }
  }

  // Whatever looks like a prolog ends before the root's closing tag.
  lemma WrittenEnds(t: Xml, p: string, pad: string, level: nat, space: nat)
    requires Sound(t) && t.Element? && (p == "" || IsProlog(p)) && '<' !in pad
    ensures var s, stop := p + (pad + Dump(t, level, space)), |p| + |pad| + |Opening(t, level, space)|;
            EndsBy(s, "<?", 0, stop) && EndsBy(s, "<!", 0, stop)
  {
    var key, open := Key(t.prefix, t.name), Opening(t, level, space);
    SoundKey(t);
    hide Dump, Opening, Key, Tidy, Enclosed, Sound, EndsBy, EndTag, IsProlog;
    ElementParts(t, level, space);
    StartIsNeat(t, level, space);
    PrologIsEnclosed(p);
    NoTagIsNeat(pad);
    NeatJoin(pad, open);
    EnclosedJoin(p, pad + open);
    Assoc(pad, open, EndTag(key));
    Assoc(p, pad + open, EndTag(key));
    ProloglessEnd(p + (pad + open), key, "<?");
    ProloglessEnd(p + (pad + open), key, "<!");
  }

  lemma SoundKey(t: Xml)
    requires Sound(t) && t.Element?
    ensures Free(Key(t.prefix, t.name), {'<', '>'})
  {
    KeyFree(t.prefix, t.name);
  }

  // What is read from a document that holds a written tree behind a prolog and blanks.
  lemma {:induction false} ReadIsOrderly(t: Xml, p: string, pad: string, level: nat, space: nat)
    requires Sound(t) && t.Element? && (p == "" || IsProlog(p)) && '<' !in pad
    ensures var r := Parse(p + (pad + Dump(t, level, space)));
            r.Root? ==> Orderly(r.t)
  {
    var d := Dump(t, level, space);
    hide Dump, Opening, Tidy, Enclosed, Sound, Orderly, EndsBy, Parse, IsProlog;
    WrittenEnds(t, p, pad, level, space);
    DumpIsNeat(t, level, space);
    NoTagIsNeat(pad);
    NeatJoin(pad, d);
    DumpSolid(t, level, space);
    Solid(pad, d);
    ReadBehind(p, pad + d, |p| + |pad| + |Opening(t, level, space)|);
  }

  lemma Solid(a: string, b: string)
    requires b != ""
    ensures a + b != ""
  {}

  lemma ReadBehind(p: string, rest: string, stop: nat)
    requires (p == "" || IsProlog(p)) && rest != "" && Tidy(rest) && |p| <= stop
    requires EndsBy(p + rest, "<?", 0, stop) && EndsBy(p + rest, "<!", 0, stop)
    ensures Parse(p + rest).Root? ==> Orderly(Parse(p + rest).t)
  {
    hide Tidy, Orderly, EndsBy, SkipProlog, Parse, Lacks, Unmarked, IsProlog;
    HeadSkipped(p, rest, "<?", stop);
    HeadSkipped(p, rest, "<!", stop);
    var i, j := SkipProlog(p + rest, "<?", 0, None).value, SkipProlog(p + rest, "<!", 0, None).value;
    LacksBoth(p + rest, i, j);
    StartOfProlog(p);
    ReadFrom(p, rest, i, j);
  }

  lemma ReadFrom(p: string, rest: string, i: nat, j: nat)
    requires SkipProlog(p + rest, "<?", 0, None) == Some(i) && SkipProlog(p + rest, "<!", 0, None) == Some(j)
    requires var k := if i > j then i else j;
             |p| <= k && Unmarked((p + rest)[k..])
    requires Tidy(rest)
    ensures Parse(p + rest).Root? ==> Orderly(Parse(p + rest).t)
  {
    hide SkipProlog, ParseRoot, Orderly, Tidy, Unmarked;
    var k := if i > j then i else j;
    BehindFront(p, rest, k);
    TidyRest(rest, k - |p|);
    if ParseRoot((p + rest)[k..]).Root? {
      RootOrderly((p + rest)[k..]);
    }
  }

  lemma BehindFront(a: string, b: string, k: nat)
    requires |a| <= k <= |a + b|
    ensures (a + b)[k..] == b[k - |a|..]
  {}

  lemma OtherOpener(p: string, rest: string, open: string)
    requires (p == "" || IsProlog(p)) && IsOpener(open) && !(open <= p) && NoProlog(rest)
    ensures StrStr(p + rest, open) == None
  {
    NothingToSkip(rest, open);
    if p == "" {
      assert p + rest == rest;
    } else {
      var back := p[1..];
      assert '<' !in back by {
        assert forall i | 0 <= i < |back| - 1 :: back[i] == p[1..|p| - 1][i];
      }
      StrStrSkips(back, rest, open);
      assert (p + rest)[1..] == back + rest;
      assert p[..2][1] == p[1] && p[0] == '<';
    }
  }

  // Behind a prolog, the search stands at what follows it.
  lemma PrologSkipped(p: string, rest: string, open: string)
    requires (p == "" || IsProlog(p)) && IsOpener(open) && rest != "" && NoProlog(rest)
    ensures SkipProlog(p + rest, open, 0, None) == Some(if p != "" && open <= p then |p| else 0)
  {
    hide StrStr, NoProlog;
    assert (p + rest)[0..] == p + rest && (p + rest)[|p|..] == rest;
    SkipUnfolds(p + rest, open, 0, None);
    if p != "" && open <= p {
      PrologFirst(p, rest, open);
      NothingToSkip(rest, open);
      SkipUnfolds(p + rest, open, |p|, Some(0));
    } else {
      OtherOpener(p, rest, open);
    }
  }

  lemma OrderlyReads(t: Xml, p: string, pad: string, level: nat, space: nat)
    requires Sound(t) && t.Element? && (p == "" || IsProlog(p)) && '<' !in pad && Orderly(t)
    ensures Parse(p + (pad + Dump(t, level, space))) == Root(t)
  {
    hide Dump, ParseInto, ParseRoot, NoProlog, Content, SkipProlog, Orderly, Sound;
    GoodExactly(t);
    var d := Dump(t, level, space);
    DumpHasNoProlog(t, level, space);
    GoodContent(t);
    ContentRead(t.kids, level, space);
    ElementRead(pad, t, level, space, "", []);
    assert pad + d + "" == pad + d;
    hide Good;
    assert NoProlog(pad) by { PadHasNoProlog(pad); }
    NoPrologJoin(pad, d);
    DumpSolid(t, level, space);
    PrologSkipped(p, pad + d, "<?");
    PrologSkipped(p, pad + d, "<!");
    assert (p + (pad + d))[|p|..] == pad + d;
    StartOfProlog(p);
  }

  // Every sound tree, behind any prolog and blanks and at any level and indentation, is read back exactly
  // when it is orderly.
  lemma RoundTripExactly(t: Xml, p: string, pad: string, level: nat, space: nat)
    requires Sound(t) && t.Element? && (p == "" || IsProlog(p)) && '<' !in pad
    ensures Parse(p + (pad + Dump(t, level, space))) == Root(t) <==> Orderly(t)
  {
    ReadIsOrderly(t, p, pad, level, space);
    hide Parse, Dump, Orderly, Sound;
    if Orderly(t) {
      OrderlyReads(t, p, pad, level, space);
    }
  }

  // An element whose name looks like a prolog is passed over.
  lemma MarkedNameLost()
    ensures var t := Element(None, "?a", None, None, []);
            Sound(t) && Dump(t, 0, 0) == "<?a></?a>" && Parse(Dump(t, 0, 0)) != Root(t)
  {
    var t := Element(None, "?a", None, None, []);
    assert Sound(t) && !Orderly(t);
    assert Dump(t, 0, 0) == "<?a></?a>";
    assert "" + ("" + Dump(t, 0, 0)) == Dump(t, 0, 0);
    hide Dump, Parse, Orderly, Sound;
    RoundTripExactly(t, "", "", 0, 0);
  }
}
