/**
 The other ways to write a tree that read back to it: an element without content as one tag, more
 spaces in the tags, and spaces in the closing tags of the whole document.
 */
module XmlForms {
  import opened Options
  import opened Sequences
  import opened XmlSyntax
  import opened XmlRoundTrip

  // How an element is written: as one tag if short, with so many more spaces in front of its attribute
  // text and at the end of its tag.
  datatype Form = Form(short: bool, before: nat, behind: nat, kids: seq<Form>)

  predicate Fits(f: Form, t: Xml)
    decreases t, 1
  {
    match t
    case Text(_) => true
    case Element(_, _, _, _, kids) => FitAll(f.kids, kids) && (f.short ==> kids == [])
  }

  predicate FitAll(fs: seq<Form>, kids: seq<Xml>)
    decreases kids, 0
  {
    |fs| == |kids| && (kids == [] || (Fits(fs[0], kids[0]) && FitAll(fs[1..], kids[1..])))
  }

  function TagAs(prefix: Option<string>, name: string, attr: Option<string>, f: Form): string {
    Key(prefix, name) + (match attr case Some(a) => Spaces(f.before) + (" " + a) case None => "") + Spaces(f.behind)
  }

  function EndAs(key: string, gap: nat): string {
    "</" + key + Spaces(gap) + ">"
  }

  function DumpAs(t: Xml, f: Form, gap: nat, level: nat, space: nat): string
    requires Fits(f, t)
    decreases t, 1
  {
    match t
    case Text(text) => text
    case Element(prefix, name, _, attr, kids) =>
      if f.short then "<" + TagAs(prefix, name, attr, f) + "/>"
      else "<" + TagAs(prefix, name, attr, f) + ">" + ContentAs(kids, f.kids, gap, level, space) + EndAs(Key(prefix, name), gap)
  }

  function ContentAs(kids: seq<Xml>, fs: seq<Form>, gap: nat, level: nat, space: nat): string
    requires FitAll(fs, kids)
    decreases kids, 1
  {
    KidsAs(kids, fs, gap, level, space) + Closing(kids, level, space)
  }

  function KidsAs(kids: seq<Xml>, fs: seq<Form>, gap: nat, level: nat, space: nat): string
    requires FitAll(fs, kids)
    decreases kids, 0
  {
    if kids == [] then ""
    else Indent(kids[0], level, space) + DumpAs(kids[0], fs[0], gap, NextLevel(level), space)
         + KidsAs(kids[1..], fs[1..], gap, level, space)
  }

  /// Tags

  // What a text with more spaces around declares.
  lemma {:induction false} NeedleBehindSpaces(n: nat, b: string, needle: string)
    requires |needle| > 1 && needle[0] == ' ' && needle[1] != ' ' && b != "" && b[0] == ' '
    ensures match StrStr(b, needle)
            case Some(i) => StrStr(Spaces(n) + b, needle) == Some(n + i)
            case None => StrStr(Spaces(n) + b, needle) == None
  {
    if n == 0 {
      assert Spaces(0) + b == b;
    } else {
      NeedleBehindSpaces(n - 1, b, needle);
      var s, r := Spaces(n) + b, Spaces(n - 1) + b;
      OneSpace(n, b);
      assert s[1] == r[0];
      hide StrStr, Spaces, Lacks;
      StrStrHere(s, needle);
    }
  }

  lemma OneSpace(n: nat, b: string)
    requires n > 0 && b != "" && b[0] == ' '
    ensures var s, r := Spaces(n) + b, Spaces(n - 1) + b;
            s != "" && s[1..] == r && s[0] == ' ' && r != "" && r[0] == ' '
  {}

  lemma {:induction false} NeedleBeforeSpaces(b: string, n: nat, needle: string)
    requires |needle| > 1 && needle[0] == ' ' && ' ' !in needle[1..]
    ensures StrStr(b + Spaces(n), needle) == StrStr(b, needle)
    decreases |b|
  {
    var s := b + Spaces(n);
    if b == "" {
      assert s == Spaces(n);
      NoNeedleInSpaces(n, needle);
      StrStrHere("", needle);
    } else {
      NeedleBeforeSpaces(b[1..], n, needle);
      assert s[1..] == b[1..] + Spaces(n);
      assert needle <= s <==> needle <= b by { NeedleInside(b, n, needle); }
      StrStrHere(s, needle);
      StrStrHere(b, needle);
    }
  }

  lemma NeedleInside(b: string, n: nat, needle: string)
    requires |needle| > 1 && ' ' !in needle[1..] && b != ""
    ensures needle <= b + Spaces(n) <==> needle <= b
  {
    var s := b + Spaces(n);
    assert |needle| > |b| && |s| > |b| ==> s[|b|] == ' ' != needle[1..][|b| - 1] == needle[|b|];
    if needle <= b {
      assert s[..|needle|] == b[..|needle|];
    }
    if needle <= s && |needle| <= |b| {
      assert b[..|needle|] == s[..|needle|];
    }
  }

  lemma {:induction false} NoNeedleInSpaces(n: nat, needle: string)
    requires |needle| > 1 && needle[0] == ' ' && ' ' !in needle[1..]
    ensures StrStr(Spaces(n), needle) == None
  {
    StrStrHere(Spaces(n), needle);
    if n > 0 {
      NoNeedleInSpaces(n - 1, needle);
      assert Spaces(n)[1..] == Spaces(n - 1);
      assert needle[1] == needle[1..][0];
    }
  }

  // Where the quoted value of s begins and how long it is.
  lemma QuotedParts(s: string) returns (e: nat, quote: char, front: nat, n: nat)
    requires Quoted(s).Some?
    ensures IndexOf(s, '=') == Some(e) && quote == (if e + 1 < |s| && s[e + 1] == '\'' then '\'' else '"')
    ensures IndexOf(s, quote) == Some(front) && front < |s| && IndexOf(s[front + 1..], quote) == Some(n)
    ensures front + 1 + n <= |s| && Quoted(s) == Some(s[front + 1..front + 1 + n])
  {
    hide IndexOf;
    e := IndexOf(s, '=').value;
    quote := if e + 1 < |s| && s[e + 1] == '\'' then '\'' else '"';
    front := IndexOf(s, quote).value;
    n := IndexOf(s[front + 1..], quote).value;
  }

  lemma QuotedIs(s: string, e: nat, quote: char, front: nat, n: nat)
    requires IndexOf(s, '=') == Some(e) && quote == (if e + 1 < |s| && s[e + 1] == '\'' then '\'' else '"')
    requires IndexOf(s, quote) == Some(front) && front < |s| && IndexOf(s[front + 1..], quote) == Some(n)
    requires front + 1 + n <= |s|
    ensures Quoted(s) == Some(s[front + 1..front + 1 + n])
  {
    hide IndexOf;
  }

  lemma QuotedBeforeSpaces(s: string, t: string)
    requires Quoted(s).Some? && (t == "" || t[0] != '\'')
    ensures Quoted(s + t) == Quoted(s)
  {
    var e, quote, front, n := QuotedParts(s);
    hide Quoted, IndexOf;
    IndexStays(s, '=', t);
    IndexStays(s, quote, t);
    IndexStays(s[front + 1..], quote, t);
    QuotedSlices(s, t, front, n);
    assert e + 1 < |s| ==> (s + t)[e + 1] == s[e + 1];
    QuotedIs(s + t, e, quote, front, n);
  }

  lemma QuotedSlices(s: string, t: string, front: nat, n: nat)
    requires front < |s| && front + 1 + n <= |s|
    ensures (s + t)[front + 1..] == s[front + 1..] + t
    ensures (s + t)[front + 1..front + 1 + n] == s[front + 1..front + 1 + n]
  {}

  lemma IndexStays(s: string, c: char, t: string)
    requires IndexOf(s, c).Some?
    ensures IndexOf(s + t, c) == IndexOf(s, c)
  {
    var i := IndexOf(s, c).value;
    assert s + t == s[..i] + [c] + (s[i + 1..] + t);
    IndexOfFirst(s[..i], c, s[i + 1..] + t);
  }

  lemma NamespaceNeedle(prefix: Option<string>)
    requires prefix.Some? ==> GoodName(prefix.value)
    ensures var n := Namespace(prefix);
            |n| > 1 && n[0] == ' ' && n[1] != ' ' && ' ' !in n[1..]
  {
    match prefix
    case Some(p) => assert Namespace(prefix)[1..] == "xmlns:" + p;
    case None => assert Namespace(prefix)[1..] == "xmlns";
  }

  lemma DeclaredSpread(prefix: Option<string>, key: string, a: string, before: nat, behind: nat)
    requires ' ' !in key && (prefix.Some? ==> GoodName(prefix.value)) && Declared(prefix, " " + a).Uri?
    ensures Declared(prefix, key + (Spaces(before) + (" " + a)) + Spaces(behind)) == Declared(prefix, " " + a)
  {
    hide Declared, Namespace, Spaces, GoodName, StrStr, Lacks;
    var b, tail := " " + a, Spaces(behind);
    assert tail == "" || tail[0] != '\'';
    NamespaceNeedle(prefix);
    FirstSpace(a, tail);
    Assoc(key, Spaces(before) + b, tail);
    Assoc(Spaces(before), b, tail);
    DeclaredBehind(prefix, key, Spaces(before) + (b + tail));
    NeedleBehindSpaces(before, b + tail, Namespace(prefix));
    NeedleBeforeSpaces(b, behind, Namespace(prefix));
    SameDeclared(prefix, b, Spaces(before), tail);
  }

  lemma FirstSpace(a: string, tail: string)
    ensures (" " + a)[0] == ' ' && (" " + a) + tail != "" && ((" " + a) + tail)[0] == ' '
  {}

  lemma SameDeclared(prefix: Option<string>, b: string, front: string, tail: string)
    requires Declared(prefix, b).Uri? && (tail == "" || tail[0] != '\'')
    requires StrStr(front + (b + tail), Namespace(prefix)) ==
             match StrStr(b, Namespace(prefix)) case Some(i) => Some(|front| + i) case None => None
    ensures Declared(prefix, front + (b + tail)) == Declared(prefix, b)
  {
    hide StrStr, Quoted, Namespace, Lacks;
    match StrStr(b, Namespace(prefix)) {
      case None =>
      case Some(i) =>
        assert (front + (b + tail))[|front| + i..] == b[i..] + tail;
        QuotedBeforeSpaces(b[i..], tail);
    }
  }

  lemma DeclaredAlone(prefix: Option<string>, key: string, behind: nat)
    requires ' ' !in key && (prefix.Some? ==> GoodName(prefix.value))
    ensures Declared(prefix, key + Spaces(behind)) == Uri(None)
  {
    NamespaceNeedle(prefix);
    DeclaredBehind(prefix, key, Spaces(behind));
    NoNeedleInSpaces(behind, Namespace(prefix));
  }

  lemma StripSpread(a: string, before: nat, behind: nat)
    requires a != "" && a[0] != ' ' && a[|a| - 1] != ' '
    ensures Strip(Spaces(before) + (" " + a) + Spaces(behind)) == Some(a)
  {
    var s := Spaces(before) + (" " + a) + Spaces(behind);
    assert s == Spaces(before + 1) + (a + Spaces(behind));
    DropFront(before + 1, a + Spaces(behind));
    DropBack(a, behind);
  }

  lemma DropFront(n: nat, s: string)
    requires s != "" && s[0] != ' '
    ensures DropSpaces(Spaces(n) + s) == s
  {
    var t := Spaces(n) + s;
    assert t[n..] == s && forall i :: 0 <= i < n ==> t[i] == ' ';
    hide DropSpaces, Spaces, Blank;
    SpacesDropped(t, n);
  }

  lemma {:induction false} DropBack(a: string, n: nat)
    requires a != "" && a[|a| - 1] != ' '
    ensures DropSpacesBehind(a + Spaces(n)) == a
  {
    if n == 0 {
      assert a + Spaces(0) == a;
    } else {
      DropBack(a, n - 1);
      var s := a + Spaces(n);
      assert s[..|s| - 1] == a + Spaces(n - 1);
    }
  }

  lemma StripNothing(n: nat)
    ensures Strip(Spaces(n)) == None
  {}

  // A tag says the same with more spaces in it.
  lemma TagAsReads(prefix: Option<string>, name: string, uri: Option<string>, attr: Option<string>, f: Form)
    requires GoodTag(prefix, name, uri, attr)
    ensures ParseTag(TagAs(prefix, name, attr, f)) == Some(Tag(prefix, name, uri, attr))
  {
    TagAsDeclares(prefix, name, uri, attr, f);
    hide Declared, ParseTag, ParseRest, Spaces;
    var tag, rest := TagAs(prefix, name, attr, f), TagAs(None, name, attr, f);
    match prefix {
      case Some(p) =>
        PrefixApart(p, name, attr, f);
        assert tag[|p| + 1..] == rest;
        RestAsReads(prefix, name, uri, attr, tag, |p| + 1, f);
        PrefixAsReads(p, name, uri, attr, tag, rest);
      case None =>
        assert tag[0..] == tag;
        RestAsReads(prefix, name, uri, attr, tag, 0, f);
        PlainAsReads(name, uri, attr, tag, f);
    }
  }

  lemma PrefixApart(p: string, name: string, attr: Option<string>, f: Form)
    ensures TagAs(Some(p), name, attr, f) == p + [':'] + TagAs(None, name, attr, f)
  {
    hide Spaces;
  }

  lemma TagAsDeclares(prefix: Option<string>, name: string, uri: Option<string>, attr: Option<string>, f: Form)
    requires GoodTag(prefix, name, uri, attr)
    ensures Declared(prefix, TagAs(prefix, name, attr, f)) == Uri(uri)
  {
    KeyFree(prefix, name);
    hide Declared, Spaces, Key;
    match attr {
      case Some(a) => DeclaredSpread(prefix, Key(prefix, name), a, f.before, f.behind);
      case None =>
        assert Key(prefix, name) + "" == Key(prefix, name);
        DeclaredAlone(prefix, Key(prefix, name), f.behind);
    }
  }

  lemma RestAsReads(prefix: Option<string>, name: string, uri: Option<string>, attr: Option<string>, tag: string, b: nat, f: Form)
    requires GoodTag(prefix, name, uri, attr) && b <= |tag| && tag[b..] == TagAs(None, name, attr, f)
    requires Declared(prefix, tag) == Uri(uri)
    ensures ParseRest(prefix, tag, b) == Some(Tag(prefix, name, uri, attr))
  {
    hide Declared, Strip, IndexOf;
    StripClean(name);
    match attr {
      case Some(a) =>
        var spread := Spaces(f.before) + (" " + a) + Spaces(f.behind);
        StripSpread(a, f.before, f.behind);
        assert tag[b..] == name + spread;
        assert spread[0] == ' ';
        hide Spaces, TagAs;
        NameApart(name, spread);
        RestSpread(prefix, name, uri, attr, tag, b, spread);
      case None =>
        StripNothing(f.behind);
        assert tag[b..] == name + Spaces(f.behind);
        if f.behind > 0 {
          hide TagAs;
          NameApart(name, Spaces(f.behind));
          RestSpread(prefix, name, uri, attr, tag, b, Spaces(f.behind));
        } else {
          assert tag[b..] == name;
          RestAlone(prefix, name, uri, tag, b);
        }
    }
  }

  lemma RestSpread(prefix: Option<string>, name: string, uri: Option<string>, attr: Option<string>, tag: string, b: nat, s: string)
    requires b <= |tag| && tag[b..] == name + s && Declared(prefix, tag) == Uri(uri)
    requires IndexOf(name + s, ' ') == Some(|name|) && (name + s)[..|name|] == name && (name + s)[|name|..] == s
    requires Strip(name) == Some(name) && Strip(s) == attr
    ensures ParseRest(prefix, tag, b) == Some(Tag(prefix, name, uri, attr))
  {
    hide Declared, Strip, IndexOf;
  }

  lemma NameApart(name: string, s: string)
    requires ' ' !in name && s != "" && s[0] == ' '
    ensures IndexOf(name + s, ' ') == Some(|name|) && (name + s)[..|name|] == name && (name + s)[|name|..] == s
  {
    assert name + s == name + [' '] + s[1..];
    IndexOfFirst(name, ' ', s[1..]);
  }

  lemma PrefixAsReads(p: string, name: string, uri: Option<string>, attr: Option<string>, tag: string, rest: string)
    requires GoodName(p) && tag == p + [':'] + rest
    requires ParseRest(Some(p), tag, |p| + 1) == Some(Tag(Some(p), name, uri, attr))
    ensures ParseTag(tag) == Some(Tag(Some(p), name, uri, attr))
  {
    hide ParseRest, Strip;
    IndexOfFirst(p, ':', rest);
    IndexOfSkips(p + [':'], ' ', rest);
    StripClean(p);
    assert tag[..|p|] == p;
    hide IndexOf;
  }

  lemma PlainAsReads(name: string, uri: Option<string>, attr: Option<string>, tag: string, f: Form)
    requires GoodName(name) && tag == TagAs(None, name, attr, f)
    requires ParseRest(None, tag, 0) == Some(Tag(None, name, uri, attr))
    ensures ParseTag(tag) == Some(Tag(None, name, uri, attr))
  {
    hide ParseRest;
    var behind := (match attr case Some(a) => Spaces(f.before) + (" " + a) case None => "") + Spaces(f.behind);
    assert tag == name + behind;
    IndexOfSkips(name, ':', behind);
    IndexOfSkips(name, ' ', behind);
    if behind != "" {
      assert behind[0] == ' ';
    }
  }

  lemma TagAsFree(prefix: Option<string>, name: string, uri: Option<string>, attr: Option<string>, f: Form)
    requires GoodTag(prefix, name, uri, attr)
    ensures var t := TagAs(prefix, name, attr, f);
            t != "" && Free(t, {'<', '>'}) && t[0] !in {'/', '?', '!'} && t[|t| - 1] != '/'
  {
    hide Declared, Spaces;
    KeyEnds(prefix, name, uri, attr);
    SpacesFree(f.behind);
    var key := Key(prefix, name);
    match attr {
      case Some(a) =>
        MidFree(a, f.before);
        hide Key, Free;
        ThreeFree(key, Spaces(f.before) + (" " + a), Spaces(f.behind));
      case None =>
        hide Key;
        ThreeFree(key, "", Spaces(f.behind));
    }
  }

  lemma KeyEnds(prefix: Option<string>, name: string, uri: Option<string>, attr: Option<string>)
    requires GoodTag(prefix, name, uri, attr)
    ensures var key := Key(prefix, name);
            key != "" && key[0] !in {'/', '?', '!'} && key[|key| - 1] != '/' && Free(key, {'<', '>'})
  {
    KeyFree(prefix, name);
    hide Declared;
  }

  lemma SpacesFree(n: nat)
    ensures Free(Spaces(n), {'<', '>'}) && (n > 0 ==> Spaces(n)[n - 1] != '/')
  {}

  lemma MidFree(a: string, n: nat)
    requires GoodAttr(a)
    ensures var mid := Spaces(n) + (" " + a);
            mid != "" && Free(mid, {'<', '>'}) && mid[|mid| - 1] != '/'
  {
    SpacesFree(n);
    FreeJoin(" ", a, {'<', '>'});
    FreeJoin(Spaces(n), " " + a, {'<', '>'});
  }

  lemma ThreeFree(key: string, a: string, b: string)
    requires key != "" && Free(key, {'<', '>'}) && key[0] !in {'/', '?', '!'} && key[|key| - 1] != '/'
    requires Free(a, {'<', '>'}) && (a != "" ==> a[|a| - 1] != '/') && Free(b, {'<', '>'}) && (b != "" ==> b[|b| - 1] != '/')
    ensures var t := key + a + b;
            t != "" && Free(t, {'<', '>'}) && t[0] !in {'/', '?', '!'} && t[|t| - 1] != '/'
  {
    FreeJoin(key, a, {'<', '>'});
    FreeJoin(key + a, b, {'<', '>'});
  }

  /// Closing tags

  // What the parser looks for: the exact closing tag or, if none stands in the document, one with a space.
  function Needle(key: string, gap: nat): string {
    if gap == 0 then EndTag(key) else "</" + key + " "
  }

  predicate IsClosing(needle: string) {
    |needle| > 2 && needle[0] == '<' && needle[1] == '/'
  }

  predicate KeyLike(key: string) {
    key != "" && Free(key, {' ', '/', '<', '>'})
  }

  lemma OpenAvoids(tag: string, needle: string)
    requires tag != "" && tag[0] != '/' && Free(tag, {'<', '>'}) && IsClosing(needle)
    ensures Avoids("<" + tag + ">", needle)
  {
    var s := "<" + tag + ">";
    assert forall i | 1 <= i < |s| - 1 :: s[i] == tag[i - 1];
    forall i | 0 <= i < |s| && s[i] == '<'
      ensures Differ(s[i..], needle)
    {
      assert s[i..][1] == tag[0] != needle[1];
    }
  }

  // A closing tag differs from the needle at its place j.
  lemma CloseAvoids(key: string, gap: nat, needle: string, j: nat)
    requires KeyLike(key) && j < |EndAs(key, gap)| && j < |needle| && EndAs(key, gap)[j] != needle[j]
    ensures Avoids(EndAs(key, gap), needle)
  {
    var s := EndAs(key, gap);
    assert forall i | 2 <= i < 2 + |key| :: s[i] == key[i - 2];
    forall i | 0 <= i < |s| && s[i] == '<'
      ensures Differ(s[i..], needle)
    {
      assert i == 0;
      assert s[0..][j] == s[j];
    }
  }

  lemma OtherClosing(other: string, key: string, gap: nat)
    requires KeyLike(other) && KeyLike(key) && other != key
    ensures Avoids(EndAs(other, gap), Needle(key, gap))
  {
    var stop := if gap == 0 then ">" else " ";
    var j := DifferentEnds(other, key, stop);
    var s, needle := EndAs(other, gap), Needle(key, gap);
    assert needle == "</" + (key + stop);
    assert s == "</" + (other + stop) + (if gap == 0 then "" else Spaces(gap - 1) + ">");
    assert s[j + 2] == (other + stop)[j] && needle[j + 2] == (key + stop)[j];
    CloseAvoids(other, gap, needle, j + 2);
  }

  lemma DifferentEnds(a: string, b: string, stop: string) returns (j: nat)
    requires a != b && |stop| == 1 && stop[0] !in a && stop[0] !in b
    ensures j <= |a| && j <= |b| && (a + stop)[j] != (b + stop)[j]
  {
    j := 0;
    while j < |a| && j < |b| && a[j] == b[j]
      invariant j <= |a| && j <= |b| && a[..j] == b[..j]
    {
      j := j + 1;
    }
    assert a[..|a|] == a && b[..|b|] == b;
  }

  // With a space in it, no closing tag is exact.
  lemma NeverExact(other: string, key: string, gap: nat)
    requires KeyLike(other) && KeyLike(key) && gap > 0
    ensures Avoids(EndAs(other, gap), EndTag(key))
  {
    var s, needle := EndAs(other, gap), EndTag(key);
    assert s == "</" + other + " " + Spaces(gap - 1) + ">";
    assert forall i | 2 <= i < 2 + |other| :: s[i] == other[i - 2];
    assert forall i | 2 <= i < 2 + |key| :: needle[i] == key[i - 2];
    assert s[2 + |other|] == ' ' && needle[2 + |key|] == '>';
    CloseAvoids(other, gap, needle, if |other| <= |key| then 2 + |other| else 2 + |key|);
  }

  // No closing tag of the elements below is mistaken for the needle.
  ghost predicate Foreign(kids: seq<Xml>, gap: nat, needle: string)
    decreases kids
  {
    kids == [] ||
    (&& (kids[0].Element? ==> Avoids(EndAs(Key(kids[0].prefix, kids[0].name), gap), needle) && Foreign(kids[0].kids, gap, needle))
     && Foreign(kids[1..], gap, needle))
  }

  lemma GoodKey(t: Xml)
    requires t.Element? && Good(t)
    ensures KeyLike(Key(t.prefix, t.name))
  {
    KeyFree(t.prefix, t.name);
  }

  lemma {:induction false} ForeignNeedle(kids: seq<Xml>, gap: nat, key: string)
    requires GoodKids(kids) && KeyLike(key) && !HasKey(kids, key)
    ensures Foreign(kids, gap, Needle(key, gap))
    decreases kids
  {
    hide Avoids, EndAs, KeyLike, Needle;
    if kids != [] {
      if kids[0].Element? {
        GoodKey(kids[0]);
        OtherClosing(Key(kids[0].prefix, kids[0].name), key, gap);
        ForeignNeedle(kids[0].kids, gap, key);
      }
      ForeignNeedle(kids[1..], gap, key);
    }
  }

  lemma {:induction false} ForeignExact(kids: seq<Xml>, gap: nat, key: string)
    requires GoodKids(kids) && KeyLike(key) && gap > 0
    ensures Foreign(kids, gap, EndTag(key))
    decreases kids
  {
    hide Avoids, EndAs, KeyLike, EndTag;
    if kids != [] {
      if kids[0].Element? {
        GoodKey(kids[0]);
        NeverExact(Key(kids[0].prefix, kids[0].name), key, gap);
        ForeignExact(kids[0].kids, gap, key);
      }
      ForeignExact(kids[1..], gap, key);
    }
  }

  lemma {:induction false} DumpAsAvoids(t: Xml, f: Form, gap: nat, level: nat, space: nat, needle: string)
    requires Good(t) && Fits(f, t) && IsClosing(needle)
    requires t.Element? ==> Avoids(EndAs(Key(t.prefix, t.name), gap), needle) && Foreign(t.kids, gap, needle)
    ensures Avoids(DumpAs(t, f, gap, level, space), needle)
    decreases t, 1
  {
    hide Avoids, EndAs, TagAs, IsClosing, Key;
    match t
    case Text(text) => NoBracketAvoids(text, needle);
    case Element(prefix, name, uri, attr, kids) =>
      var tag := TagAs(prefix, name, attr, f);
      TagAsFree(prefix, name, uri, attr, f);
      if f.short {
        FreeJoin(tag, "/", {'<', '>'});
        OpenAvoids(tag + "/", needle);
        assert "<" + (tag + "/") + ">" == "<" + tag + "/>";
      } else {
        OpenAvoids(tag, needle);
        ContentAsAvoids(kids, f.kids, gap, level, space, needle);
        AvoidsJoin("<" + tag + ">", ContentAs(kids, f.kids, gap, level, space), needle);
        AvoidsJoin("<" + tag + ">" + ContentAs(kids, f.kids, gap, level, space), EndAs(Key(prefix, name), gap), needle);
      }
  }

  lemma {:induction false} ContentAsAvoids(kids: seq<Xml>, fs: seq<Form>, gap: nat, level: nat, space: nat, needle: string)
    requires GoodKids(kids) && FitAll(fs, kids) && IsClosing(needle) && Foreign(kids, gap, needle)
    ensures Avoids(ContentAs(kids, fs, gap, level, space), needle)
    decreases kids, 1
  {
    KidsAsAvoid(kids, fs, gap, level, space, needle);
    NoBracketAvoids(Closing(kids, level, space), needle);
    AvoidsJoin(KidsAs(kids, fs, gap, level, space), Closing(kids, level, space), needle);
  }

  lemma {:induction false} KidsAsAvoid(kids: seq<Xml>, fs: seq<Form>, gap: nat, level: nat, space: nat, needle: string)
    requires GoodKids(kids) && FitAll(fs, kids) && IsClosing(needle) && Foreign(kids, gap, needle)
    ensures Avoids(KidsAs(kids, fs, gap, level, space), needle)
    decreases kids, 0
  {
    hide Avoids, IsClosing;
    if kids == [] {
      NoBracketAvoids("", needle);
    } else {
      var i, d := Indent(kids[0], level, space), DumpAs(kids[0], fs[0], gap, NextLevel(level), space);
      NoBracketAvoids(i, needle);
      DumpAsAvoids(kids[0], fs[0], gap, NextLevel(level), space, needle);
      KidsAsAvoid(kids[1..], fs[1..], gap, level, space, needle);
      AvoidsJoin(i, d, needle);
      AvoidsJoin(i + d, KidsAs(kids[1..], fs[1..], gap, level, space), needle);
    }
  }

  /// Elements

  // No exact closing tag stands in s.
  ghost predicate Spread(s: string) {
    forall key | KeyLike(key) :: Avoids(s, EndTag(key))
  }

  lemma {:induction false} NotFound(s: string, needle: string)
    requires Avoids(s, needle) && IsClosing(needle)
    ensures StrStr(s, needle) == None
  {
    hide Avoids, StrStr;
    StrStrHere(s, needle);
    if s != "" {
      AvoidsHere(s, needle, "");
      assert s + "" == s;
      AvoidsRest(s, needle);
      NotFound(s[1..], needle);
    }
  }

  lemma EndAsRead(content: string, key: string, gap: nat, rest: string)
    requires KeyLike(key) && Avoids(content, Needle(key, gap))
    requires gap > 0 ==> Avoids(content, EndTag(key)) && Avoids(rest, EndTag(key))
    ensures FindEnd(content + EndAs(key, gap) + rest, key) == End(|content|, |content| + |EndAs(key, gap)|)
  {
    var doc := content + EndAs(key, gap) + rest;
    if gap == 0 {
      assert EndAs(key, 0) == EndTag(key);
      EndRead(content, key, rest);
    } else {
      NeverExact(key, key, gap);
      AvoidsJoin(content, EndAs(key, gap), EndTag(key));
      AvoidsJoin(content + EndAs(key, gap), rest, EndTag(key));
      NotFound(doc, EndTag(key));
      SpacedEndRead(content, key, gap, rest);
    }
  }

  lemma SpacedEndRead(content: string, key: string, gap: nat, rest: string)
    requires KeyLike(key) && gap > 0 && Avoids(content, "</" + key + " ")
    requires StrStr(content + EndAs(key, gap) + rest, EndTag(key)) == None
    ensures FindEnd(content + EndAs(key, gap) + rest, key) == End(|content|, |content| + |EndAs(key, gap)|)
  {
    var needle, behind := "</" + key + " ", Spaces(gap - 1) + ">" + rest;
    var front := "</" + key + Spaces(gap);
    EndPieces(content, key, gap, rest);
    hide StrStr, Avoids, EndAs, Spaces, Lacks;
    EndFound(content, needle, behind);
    IndexOfFirst(front, '>', rest);
  }

  lemma EndPieces(content: string, key: string, gap: nat, rest: string)
    requires KeyLike(key) && gap > 0
    ensures var doc, front := content + EndAs(key, gap) + rest, "</" + key + Spaces(gap);
            && doc == content + ("</" + key + " ") + (Spaces(gap - 1) + ">" + rest)
            && doc[|content|..] == front + ['>'] + rest && |EndAs(key, gap)| == |front| + 1 && '>' !in front
  {
    assert EndAs(key, gap) == "</" + key + " " + Spaces(gap - 1) + ">";
    assert EndAs(key, gap) == "</" + key + Spaces(gap) + ['>'];
  }

  lemma ShortRead(pad: string, text: string, rest: string, kids: seq<Xml>)
    requires '<' !in pad && text != "" && Free(text, {'<', '>'}) && ParseTag(text).Some?
    ensures var s := pad + ("<" + text + "/>") + rest; var tag := ParseTag(text).value;
            ParseInto(s, kids) == ParseInto(rest, kids + [Made(tag, [])]) && ParseRoot(s) == Root(Made(tag, []))
  {
    var s := pad + ("<" + text + "/>") + rest;
    ShortNext(pad, text, rest);
    hide NextTag, ParseTag;
    assert s != "";
  }

  lemma ShortNext(pad: string, text: string, rest: string)
    requires '<' !in pad && text != "" && Free(text, {'<', '>'}) && ParseTag(text).Some?
    ensures NextTag(pad + ("<" + text + "/>") + rest) == Next(ParseTag(text).value, true, rest)
  {
    hide ParseTag;
    var s, inner := pad + ("<" + text + "/>") + rest, text + "/";
    var t := inner + ['>'] + rest;
    assert s == pad + ['<'] + t;
    IndexOfFirst(pad, '<', t);
    assert s[|pad| + 1..] == t;
    FreeJoin(text, "/", {'<', '>'});
    IndexOfFirst(inner, '>', rest);
    var g := |inner|;
    assert t[g - 1] == '/' && t[..g - 1] == text && t[g + 1..] == rest;
    hide IndexOf;
  }

  lemma LongRead(pad: string, text: string, tag: Tag, content: string, gap: nat, rest: string, kids: seq<Xml>, inner: seq<Xml>)
    requires '<' !in pad && text != "" && Free(text, {'<', '>'}) && text[|text| - 1] != '/' && ParseTag(text) == Some(tag)
    requires KeyLike(KeyOf(tag)) && Avoids(content, Needle(KeyOf(tag), gap)) && ParseInto(content, []) == Some(inner)
    requires gap > 0 ==> Avoids(content, EndTag(KeyOf(tag))) && Avoids(rest, EndTag(KeyOf(tag)))
    ensures var s := pad + ("<" + text + ">" + content + EndAs(KeyOf(tag), gap)) + rest;
            ParseInto(s, kids) == ParseInto(rest, kids + [Made(tag, inner)]) && ParseRoot(s) == Root(Made(tag, inner))
  {
    hide Free, Avoids, ParseTag, FindEnd, NextTag, EndTag, EndAs, Needle, ParseInto, ParseRoot, KeyOf, KeyLike;
    var end := EndAs(KeyOf(tag), gap);
    var doc := content + end + rest;
    Regroup(pad, text, content, end, rest);
    StartRead(pad, text, doc);
    EndAsRead(content, KeyOf(tag), gap, rest);
    Pieces(content, end, rest);
    StepRead(pad + "<" + text + ">" + doc, kids, tag, doc, |content|, |content| + |end|, inner);
  }

  // One element, however it is written, is read off the front of a text.
  lemma ElementAsRead(pad: string, e: Xml, f: Form, gap: nat, level: nat, space: nat, rest: string, kids: seq<Xml>)
    requires '<' !in pad && e.Element? && Good(e) && Fits(f, e) && (gap > 0 ==> Spread(rest))
    requires ParseInto(ContentAs(e.kids, f.kids, gap, level, space), []) == Some(e.kids)
    ensures ParseInto(pad + DumpAs(e, f, gap, level, space) + rest, kids) == ParseInto(rest, kids + [e])
    ensures ParseRoot(pad + DumpAs(e, f, gap, level, space) + rest) == Root(e)
  {
    var text, content := TagAs(e.prefix, e.name, e.attr, f), ContentAs(e.kids, f.kids, gap, level, space);
    TagAsFree(e.prefix, e.name, e.uri, e.attr, f);
    TagAsReads(e.prefix, e.name, e.uri, e.attr, f);
    GoodKey(e);
    assert Made(TagOf(e), e.kids) == e && KeyOf(TagOf(e)) == Key(e.prefix, e.name);
    hide ParseInto, ParseRoot, ParseTag, ContentAs, Avoids, EndAs, EndTag, TagAs, Needle, KeyLike, IsClosing, Key, KeyOf;
    if f.short {
      assert e.kids == [];
      ShortRead(pad, text, rest, kids);
    } else {
      var key := Key(e.prefix, e.name);
      NeedlesClose(key, gap);
      ForeignNeedle(e.kids, gap, key);
      ContentAsAvoids(e.kids, f.kids, gap, level, space, Needle(key, gap));
      if gap > 0 {
        ForeignExact(e.kids, gap, key);
        ContentAsAvoids(e.kids, f.kids, gap, level, space, EndTag(key));
      }
      LongRead(pad, text, TagOf(e), content, gap, rest, kids, e.kids);
    }
  }

  lemma NeedlesClose(key: string, gap: nat)
    ensures IsClosing(Needle(key, gap)) && IsClosing(EndTag(key))
  {}

  lemma {:induction false} KidsAsRead(kids: seq<Xml>, fs: seq<Form>, gap: nat, level: nat, space: nat, tail: string, before: seq<Xml>)
    requires GoodKids(kids) && FitAll(fs, kids) && AllElements(kids) && '<' !in tail
    requires tail == "" || kids != [] || before != []
    ensures ParseInto(KidsAs(kids, fs, gap, level, space) + tail, before) == Some(before + kids)
    decreases kids, 0
  {
    hide ParseInto, DumpAs, ContentAs, Indent, Good, Spread;
    if kids == [] {
      NoKidsAsRead(kids, fs, gap, level, space, tail, before);
      assert before + kids == before;
    } else {
      var kid, more := kids[0], KidsAs(kids[1..], fs[1..], gap, level, space);
      KidsAsFront(kids, fs, gap, level, space, tail);
      Cons(kids);
      Assoc(before, [kid], kids[1..]);
      ContentAsRead(kid.kids, fs[0].kids, gap, NextLevel(level), space);
      if gap > 0 {
        KidsAsSpread(kids[1..], fs[1..], gap, level, space, tail);
      }
      ElementAsRead(Indent(kid, level, space), kid, fs[0], gap, NextLevel(level), space, more + tail, before);
      KidsAsRead(kids[1..], fs[1..], gap, level, space, tail, before + [kid]);
    }
  }

  lemma KidsAsFront(kids: seq<Xml>, fs: seq<Form>, gap: nat, level: nat, space: nat, tail: string)
    requires kids != [] && GoodKids(kids) && FitAll(fs, kids) && AllElements(kids)
    ensures var kid := kids[0];
            && kid.Element? && Good(kid) && GoodKids(kids[1..]) && AllElements(kids[1..]) && Fits(fs[0], kid)
            && FitAll(fs[1..], kids[1..]) && FitAll(fs[0].kids, kid.kids)
            && GoodKids(kid.kids) && ((|kid.kids| == 1 && kid.kids[0].Text?) || AllElements(kid.kids))
            && '<' !in Indent(kid, level, space)
            && KidsAs(kids, fs, gap, level, space) + tail ==
               Indent(kid, level, space) + DumpAs(kid, fs[0], gap, NextLevel(level), space)
               + (KidsAs(kids[1..], fs[1..], gap, level, space) + tail)
  {
    hide DumpAs;
    var kid, more := kids[0], KidsAs(kids[1..], fs[1..], gap, level, space);
    Assoc(Indent(kid, level, space) + DumpAs(kid, fs[0], gap, NextLevel(level), space), more, tail);
  }

  lemma NoKidsAsRead(kids: seq<Xml>, fs: seq<Form>, gap: nat, level: nat, space: nat, tail: string, before: seq<Xml>)
    requires kids == [] && FitAll(fs, kids) && '<' !in tail && (tail == "" || before != [])
    ensures ParseInto(KidsAs(kids, fs, gap, level, space) + tail, before) == Some(before)
  {
    NoKidsRead(level, space, tail, before);
    assert DumpKids([], level, space) == "" == KidsAs(kids, fs, gap, level, space);
  }

  lemma KidsAsSpread(kids: seq<Xml>, fs: seq<Form>, gap: nat, level: nat, space: nat, tail: string)
    requires GoodKids(kids) && FitAll(fs, kids) && '<' !in tail && gap > 0
    ensures Spread(KidsAs(kids, fs, gap, level, space) + tail)
  {
    hide KidsAs, Avoids, KeyLike, EndTag, IsClosing;
    forall key | KeyLike(key)
      ensures Avoids(KidsAs(kids, fs, gap, level, space) + tail, EndTag(key))
    {
      NeedlesClose(key, gap);
      ForeignExact(kids, gap, key);
      KidsAsAvoid(kids, fs, gap, level, space, EndTag(key));
      NoBracketAvoids(tail, EndTag(key));
      AvoidsJoin(KidsAs(kids, fs, gap, level, space), tail, EndTag(key));
    }
  }

  lemma {:induction false} ContentAsRead(kids: seq<Xml>, fs: seq<Form>, gap: nat, level: nat, space: nat)
    requires GoodKids(kids) && FitAll(fs, kids) && ((|kids| == 1 && kids[0].Text?) || AllElements(kids))
    ensures ParseInto(ContentAs(kids, fs, gap, level, space), []) == Some(kids)
    decreases kids, 1
  {
    if |kids| == 1 && kids[0].Text? {
      OneText(kids, level, space);
      TextAs(kids, fs, gap, level, space);
    } else {
      hide ParseInto, KidsAs;
      KidsAsRead(kids, fs, gap, level, space, Closing(kids, level, space), []);
      assert [] + kids == kids;
    }
  }

  lemma OneText(kids: seq<Xml>, level: nat, space: nat)
    requires GoodKids(kids) && |kids| == 1 && kids[0].Text?
    ensures ParseInto(Content(kids, level, space), []) == Some(kids)
  {
    ContentRead(kids, level, space);
  }

  lemma TextAs(kids: seq<Xml>, fs: seq<Form>, gap: nat, level: nat, space: nat)
    requires FitAll(fs, kids) && |kids| == 1 && kids[0].Text?
    ensures ContentAs(kids, fs, gap, level, space) == Content(kids, level, space)
  {
    var n := NextLevel(level);
    assert kids[1..] == [];
    assert KidsAs(kids[1..], fs[1..], gap, level, space) == "" == DumpKids(kids[1..], level, space);
    assert DumpAs(kids[0], fs[0], gap, n, space) == kids[0].text == Dump(kids[0], n, space);
    assert KidsAs(kids, fs, gap, level, space) == DumpKids(kids, level, space);
  }

  /// Documents

  lemma {:induction false} DumpAsHasNoProlog(t: Xml, f: Form, gap: nat, level: nat, space: nat)
    requires Good(t) && Fits(f, t)
    ensures NoProlog(DumpAs(t, f, gap, level, space))
    decreases t, 1
  {
    hide NoProlog, EndAs, TagAs;
    match t
    case Text(text) => PlainHasNoProlog(text);
    case Element(prefix, name, uri, attr, kids) =>
      var tag := TagAs(prefix, name, attr, f);
      TagAsFree(prefix, name, uri, attr, f);
      if f.short {
        FreeJoin(tag, "/", {'<', '>'});
        TagHasNoProlog(tag + "/");
        assert "<" + (tag + "/") + ">" == "<" + tag + "/>";
      } else {
        var content, key := ContentAs(kids, f.kids, gap, level, space), Key(prefix, name);
        TagHasNoProlog(tag);
        GoodKey(t);
        EndAsHasNoProlog(key, gap);
        KidsAsHaveNoProlog(kids, f.kids, gap, level, space);
        PlainHasNoProlog(Closing(kids, level, space));
        NoPrologJoin(KidsAs(kids, f.kids, gap, level, space), Closing(kids, level, space));
        NoPrologJoin("<" + tag + ">", content);
        NoPrologJoin("<" + tag + ">" + content, EndAs(key, gap));
      }
  }

  lemma PlainHasNoProlog(s: string)
    requires '<' !in s
    ensures NoProlog(s)
  {}

  lemma EndAsHasNoProlog(key: string, gap: nat)
    requires KeyLike(key)
    ensures NoProlog(EndAs(key, gap))
  {
    var s := EndAs(key, gap);
    assert forall i | 2 <= i < 2 + |key| :: s[i] == key[i - 2];
  }

  lemma {:induction false} KidsAsHaveNoProlog(kids: seq<Xml>, fs: seq<Form>, gap: nat, level: nat, space: nat)
    requires GoodKids(kids) && FitAll(fs, kids)
    ensures NoProlog(KidsAs(kids, fs, gap, level, space))
    decreases kids, 0
  {
    hide NoProlog;
    if kids == [] {
      PlainHasNoProlog("");
    } else {
      var i, d := Indent(kids[0], level, space), DumpAs(kids[0], fs[0], gap, NextLevel(level), space);
      PlainHasNoProlog(i);
      DumpAsHasNoProlog(kids[0], fs[0], gap, NextLevel(level), space);
      KidsAsHaveNoProlog(kids[1..], fs[1..], gap, level, space);
      NoPrologJoin(i, d);
      NoPrologJoin(i + d, KidsAs(kids[1..], fs[1..], gap, level, space));
    }
  }

  // However its elements are written, with text around it, a document reads back to its tree.
  lemma FormsReadBack(t: Xml, f: Form, gap: nat, level: nat, space: nat, pad: string, rest: string)
    requires Good(t) && t.Element? && Fits(f, t) && '<' !in pad && '<' !in rest
    ensures Parse(pad + DumpAs(t, f, gap, level, space) + rest) == Root(t)
  {
    var d := DumpAs(t, f, gap, level, space);
    DumpAsHasNoProlog(t, f, gap, level, space);
    GoodContentAs(t, f);
    hide DumpAs, NoProlog, ParseRoot, Good, Fits, Spread;
    ContentAsRead(t.kids, f.kids, gap, level, space);
    if gap > 0 {
      PlainIsSpread(rest);
    }
    ElementAsRead(pad, t, f, gap, level, space, rest, []);
    PlainHasNoProlog(pad);
    PlainHasNoProlog(rest);
    NoPrologJoin(pad, d);
    NoPrologJoin(pad + d, rest);
    ParseStartsHere(pad + d + rest);
  }

  lemma PlainIsSpread(s: string)
    requires '<' !in s
    ensures Spread(s)
  {}

  lemma GoodContentAs(t: Xml, f: Form)
    requires t.Element? && Good(t) && Fits(f, t)
    ensures GoodKids(t.kids) && FitAll(f.kids, t.kids) && ((|t.kids| == 1 && t.kids[0].Text?) || AllElements(t.kids))
  {}

  /// Namespaces

  // In quotes of either kind and wherever the attribute stands in the tag, its value is the namespace of
  // the prefix.
  lemma NamespaceRead(prefix: Option<string>, before: string, q: char, uri: string, after: string)
    requires q in {'"', '\''} && q !in uri && (prefix.Some? ==> GoodName(prefix.value) && Free(prefix.value, {'=', '"', '\''}))
    requires var s := before + (Namespace(prefix) + "=" + [q] + uri + [q] + after);
             StrStr(s, Namespace(prefix)) == Some(|before|)
    ensures Declared(prefix, before + (Namespace(prefix) + "=" + [q] + uri + [q] + after)) == Uri(Some(uri))
  {
    NamespaceFree(prefix);
    hide Namespace, StrStr, Quoted, Lacks, GoodName;
    var ns := Namespace(prefix);
    var a := ns + "=" + [q] + uri + [q] + after;
    BehindFront(before, a);
    QuotedEither(ns, q, uri, after);
  }

  lemma NamespaceFree(prefix: Option<string>)
    requires prefix.Some? ==> Free(prefix.value, {'=', '"', '\''})
    ensures Free(Namespace(prefix), {'=', '"', '\''})
  {}

  lemma BehindFront(a: string, b: string)
    ensures (a + b)[|a|..] == b
  {}

  lemma QuotedEither(ns: string, q: char, uri: string, after: string)
    requires q in {'"', '\''} && q !in uri && '=' !in ns && q !in ns
    ensures Quoted(ns + "=" + [q] + uri + [q] + after) == Some(uri)
  {
    hide IndexOf, Quoted;
    var s := ns + "=" + [q] + uri + [q] + after;
    var head, tail := ns + ['='], uri + [q] + after;
    EitherPieces(ns, q, uri, after);
    IndexOfFirst(ns, '=', [q] + tail);
    IndexOfFirst(head, q, tail);
    IndexOfFirst(uri, q, after);
    QuotedIs(s, |ns|, q, |head|, |uri|);
  }

  lemma EitherPieces(ns: string, q: char, uri: string, after: string)
    ensures var s, head, tail := ns + "=" + [q] + uri + [q] + after, ns + ['='], uri + [q] + after;
            && s == ns + ['='] + ([q] + tail) && s == head + [q] + tail
            && s[|head| + 1..] == tail && s[|ns| + 1] == q && s[|head| + 1..|head| + 1 + |uri|] == uri
  {
    var s, head, tail := ns + "=" + [q] + uri + [q] + after, ns + ['='], uri + [q] + after;
    assert s == head + [q] + tail;
    assert s[|head| + 1..] == tail;
    assert tail[..|uri|] == uri;
  }

  // Without it, a tag declares no namespace.
  lemma NoNamespaceRead(prefix: Option<string>, s: string)
    requires Lacks(s, |s| + 1, Namespace(prefix))
    ensures Declared(prefix, s) == Uri(None)
  {}
}
