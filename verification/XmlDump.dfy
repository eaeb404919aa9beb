/**
 Writing a tree of the XML library: a first pass measures it, a second fills the buffer of that size.
 */
module XmlDump {
  import opened Sequences
  import opened Options
  import opened XmlSyntax
  import opened XmlNodes

  lemma {:induction false} ValuesAt(kids: seq<Shape>, i: nat)
    requires i < |kids|
    ensures Values(kids)[i] == Value(kids[i]) && Values(kids)[i..] == [Value(kids[i])] + Values(kids)[i + 1..]
  {
    if i > 0 {
      ValuesAt(kids[1..], i - 1);
    }
  }

  // What is left of the children's text from the i-th child on.
  function Ahead(kids: seq<Xml>, i: nat, level: nat, space: nat): string
    requires i <= |kids|
  {
    DumpKids(kids[i..], level, space)
  }

  lemma AheadStep(kids: seq<Xml>, i: nat, level: nat, space: nat)
    requires i < |kids|
    ensures Ahead(kids, i, level, space) ==
            Indent(kids[i], level, space) + Dump(kids[i], NextLevel(level), space) + Ahead(kids, i + 1, level, space)
  {
    assert kids[i..][1..] == kids[i + 1..];
  }

  lemma AheadEnds(kids: seq<Xml>, level: nat, space: nat)
    ensures Ahead(kids, 0, level, space) == DumpKids(kids, level, space)
    ensures Ahead(kids, |kids|, level, space) == ""
  {
    assert kids[0..] == kids && kids[|kids|..] == [];
  }

  lemma IsElementValue(sh: Shape)
    requires Proper(sh)
    ensures Value(sh).Element? <==> IsElement(sh.data)
    ensures Value(sh).Text? <==> IsText(sh.data)
  {}

  /// The size pass

  method TreeSize(st: Store, root: Ptr, level: nat, space: nat, ghost sh: Shape) returns (size: nat)
    requires Holds(st, sh) && sh.p == root
    ensures size == |Dump(Value(sh), level, space)|
    decreases sh
  {
    var d := st[root].data;
    size := 0;
    if IsText(d) {
      size := size + |d.text.value|;
    } else {
      MeasuredParts(sh, level, space);
      WalkStarts(st, sh);
      assert d.name.Some?;
      hide Dump, Holds, Walk, TagText, EndTag, DumpKids, Closing;
      var startSize :=
        if d.prefix.Some? && d.attr.Some? then |d.prefix.value| + |d.name.value| + |d.attr.value| + 4
        else if d.prefix.Some? then |d.prefix.value| + |d.name.value| + 3
        else if d.attr.Some? then |d.name.value| + |d.attr.value| + 3
        else |d.name.value| + 2;
      size := size + startSize;
      var isElementChild;
      size, isElementChild := KidsSize(st, st[root].child, level, space, size, sh.kids);
      if isElementChild && level > 0 {
        size := size + 1;
        size := size + (level - 1) * space;
      }
      var endSize := if d.prefix.Some? then |d.prefix.value| + |d.name.value| + 4 else |d.name.value| + 3;
      size := size + endSize;
    }
  }

  lemma MeasuredParts(sh: Shape, level: nat, space: nat)
    requires IsElement(sh.data)
    ensures var d, kids := sh.data, Values(sh.kids);
            |Dump(Value(sh), level, space)| ==
            |"<" + TagText(d.prefix, d.name.value, d.attr) + ">"| + |DumpKids(kids, level, space)|
            + |Closing(kids, level, space)| + |EndTag(Key(d.prefix, d.name.value))|
    ensures var d := sh.data;
            |"<" + TagText(d.prefix, d.name.value, d.attr) + ">"| ==
            if d.prefix.Some? && d.attr.Some? then |d.prefix.value| + |d.name.value| + |d.attr.value| + 4
            else if d.prefix.Some? then |d.prefix.value| + |d.name.value| + 3
            else if d.attr.Some? then |d.name.value| + |d.attr.value| + 3
            else |d.name.value| + 2
    ensures var d := sh.data;
            |EndTag(Key(d.prefix, d.name.value))| ==
            if d.prefix.Some? then |d.prefix.value| + |d.name.value| + 4 else |d.name.value| + 3
    ensures var kids := Values(sh.kids);
            |Closing(kids, level, space)| ==
            if kids != [] && kids[|kids| - 1].Element? && level > 0 then 1 + (level - 1) * space else 0
  {
    StartSize(sh.data);
    ClosingSize(Values(sh.kids), level, space);
    hide TagText, Closing, EndTag, DumpKids;
  }

  lemma StartSize(d: Data)
    requires IsElement(d)
    ensures |"<" + TagText(d.prefix, d.name.value, d.attr) + ">"| ==
            if d.prefix.Some? && d.attr.Some? then |d.prefix.value| + |d.name.value| + |d.attr.value| + 4
            else if d.prefix.Some? then |d.prefix.value| + |d.name.value| + 3
            else if d.attr.Some? then |d.name.value| + |d.attr.value| + 3
            else |d.name.value| + 2
    ensures |EndTag(Key(d.prefix, d.name.value))| ==
            if d.prefix.Some? then |d.prefix.value| + |d.name.value| + 4 else |d.name.value| + 3
  {}

  lemma ClosingSize(kids: seq<Xml>, level: nat, space: nat)
    ensures |Closing(kids, level, space)| ==
            if kids != [] && kids[|kids| - 1].Element? && level > 0 then 1 + (level - 1) * space else 0
  {}

  // The loop over the children.
  method KidsSize(st: Store, first: Ptr, level: nat, space: nat, start: nat, ghost kids: seq<Shape>)
    returns (size: nat, isElementChild: bool)
    requires Walk(st, kids, 0, first)
    ensures size == start + |DumpKids(Values(kids), level, space)|
    ensures isElementChild <==> kids != [] && Values(kids)[|kids| - 1].Element?
    decreases kids, 0
  {
    var nextLevel := if level > 0 then level + 1 else 0;
    ghost var vals := Values(kids);
    AheadEnds(vals, level, space);
    var child := first;
    size, isElementChild := start, false;
    ghost var i := 0;
    while child != NULL
      invariant Walk(st, kids, i, child)
      invariant size + |Ahead(vals, i, level, space)| == start + |DumpKids(vals, level, space)|
      invariant isElementChild <==> i > 0 && vals[i - 1].Element?
      decreases |kids| - i
    {
      WalkStep(st, kids, i, child);
      ValuesAt(kids, i);
      AheadStep(vals, i, level, space);
      IsElementValue(kids[i]);
      isElementChild := IsElement(st[child].data);
      if isElementChild && level > 0 {
        size := size + 1;
        size := size + level * space;
      }
      var n := TreeSize(st, child, nextLevel, space, kids[i]);
      size := size + n;
      child := st[child].next;
      i := i + 1;
    }
    WalkStep(st, kids, i, child);
  }

  /// The write pass

  // A NUL-terminated text in an allocated buffer; used is where its NUL stands.
  class XmlBuf {
    const cells: array<char>
    var used: nat

    ghost predicate Valid()
      reads this, cells
    {
      used < cells.Length && cells[used] == '\0'
    }

    ghost function Text(): string
      requires Valid()
      reads this, cells
    {
      cells[..used]
    }

    constructor (size: nat)
      requires size > 0
      ensures Valid() && Text() == "" && cells.Length == size && fresh(cells)
    {
      cells := new char[size](_ => '\0');
      used := 0;
    }

    // There must be room for the text and its NUL.
    method StrCat(t: string)
      requires Valid() && used + |t| < cells.Length
      modifies this, cells
      ensures Valid() && Text() == old(Text()) + t
    {
      ghost var was := Text();
      var i := 0;
      while i < |t|
        invariant i <= |t| && used == old(used) && cells[..used + i] == was + t[..i]
      {
        cells[used + i] := t[i];
        i := i + 1;
      }
      cells[used + i] := '\0';
      used := used + i;
      assert t[..i] == t;
    }
  }

  // The line break and the indentation of so many steps, from a small buffer of spaces.
  method NewLine(buf: XmlBuf, steps: nat, space: nat)
    requires buf.Valid() && space <= 10 && buf.used + 1 + steps * space < buf.cells.Length
    modifies buf, buf.cells
    ensures buf.Valid() && buf.Text() == old(buf.Text()) + ("\n" + Spaces(steps * space))
  {
    ghost var was := buf.Text();
    buf.StrCat("\n");
    var spaceBuf := Spaces(space);
    var i := 0;
    SpacesGrow(0, space);
    while i < steps
      invariant i <= steps && buf.Valid() && buf.Text() == was + ("\n" + Spaces(i * space))
      invariant i * space <= steps * space
    {
      SpacesGrow(i, space);
      Products(i + 1, steps, space);
      ghost var t := Spaces(i * space);
      buf.StrCat(spaceBuf);
      assert was + ("\n" + t) + spaceBuf == was + ("\n" + (t + spaceBuf));
      i := i + 1;
    }
  }

  lemma SpacesGrow(i: nat, space: nat)
    ensures i * space >= 0 && (i + 1) * space == i * space + space
    ensures Spaces((i + 1) * space) == Spaces(i * space) + Spaces(space)
    ensures Spaces(0) == ""
  {}

  lemma Products(i: nat, n: nat, space: nat)
    requires i <= n
    ensures i * space <= n * space
  {}

  method DumpStart(d: Data, buf: XmlBuf)
    requires IsElement(d) && buf.Valid()
    requires buf.used + |"<" + TagText(d.prefix, d.name.value, d.attr) + ">"| < buf.cells.Length
    modifies buf, buf.cells
    ensures buf.Valid() && buf.Text() == old(buf.Text()) + ("<" + TagText(d.prefix, d.name.value, d.attr) + ">")
  {
    StartSize(d);
    ghost var was := buf.Text();
    buf.StrCat("<");
    if d.prefix.Some? {
      buf.StrCat(d.prefix.value);
      Assoc(was, "<", d.prefix.value);
      buf.StrCat(":");
      Assoc(was, "<" + d.prefix.value, ":");
    }
    ghost var t := if d.prefix.Some? then "<" + d.prefix.value + ":" else "<";
    buf.StrCat(d.name.value);
    Assoc(was, t, d.name.value);
    ghost var k := t + d.name.value;
    if d.attr.Some? {
      buf.StrCat(" ");
      Assoc(was, k, " ");
      buf.StrCat(d.attr.value);
      Assoc(was, k + " ", d.attr.value);
    }
    ghost var u := if d.attr.Some? then k + " " + d.attr.value else k;
    buf.StrCat(">");
    Assoc(was, u, ">");
    TagPieces(d);
  }

  lemma TagPieces(d: Data)
    requires IsElement(d)
    ensures var k := (if d.prefix.Some? then "<" + d.prefix.value + ":" else "<") + d.name.value;
            "<" + TagText(d.prefix, d.name.value, d.attr) + ">" == (if d.attr.Some? then k + " " + d.attr.value else k) + ">"
  {
    var k := Key(d.prefix, d.name.value);
    if d.prefix.Some? {
      Assoc("<", d.prefix.value + ":", d.name.value);
      Assoc("<", d.prefix.value, ":");
    }
    if d.attr.Some? {
      Assoc("<", k + " ", d.attr.value);
      Assoc("<", k, " ");
    }
  }

  method DumpEnd(d: Data, buf: XmlBuf)
    requires IsElement(d) && buf.Valid() && buf.used + |EndTag(Key(d.prefix, d.name.value))| < buf.cells.Length
    modifies buf, buf.cells
    ensures buf.Valid() && buf.Text() == old(buf.Text()) + EndTag(Key(d.prefix, d.name.value))
  {
    StartSize(d);
    ghost var was, k := buf.Text(), "</";
    buf.StrCat("</");
    if d.prefix.Some? {
      buf.StrCat(d.prefix.value);
      Assoc(was, "</", d.prefix.value);
      buf.StrCat(":");
      Assoc(was, "</" + d.prefix.value, ":");
      k := "</" + d.prefix.value + ":";
    }
    buf.StrCat(d.name.value);
    Assoc(was, k, d.name.value);
    buf.StrCat(">");
    Assoc(was, k + d.name.value, ">");
    EndPieces(d);
  }

  lemma EndPieces(d: Data)
    requires IsElement(d)
    ensures EndTag(Key(d.prefix, d.name.value)) ==
            (if d.prefix.Some? then "</" + d.prefix.value + ":" else "</") + d.name.value + ">"
  {
    if d.prefix.Some? {
      Assoc("</", d.prefix.value + ":", d.name.value);
      Assoc("</", d.prefix.value, ":");
    }
  }

  method DumpTree(st: Store, root: Ptr, buf: XmlBuf, level: nat, space: nat, ghost sh: Shape)
    requires Holds(st, sh) && sh.p == root && space <= 10
    requires buf.Valid() && buf.used + |Dump(Value(sh), level, space)| < buf.cells.Length
    modifies buf, buf.cells
    ensures buf.Valid() && buf.Text() == old(buf.Text()) + Dump(Value(sh), level, space)
    decreases sh, 0
  {
    var d := st[root].data;
    if IsText(d) {
      buf.StrCat(d.text.value);
    } else {
      WalkStarts(st, sh);
      DumpParts(sh, level, space);
      DumpElement(st, st[root].child, d, buf, level, space, sh.kids);
    }
  }

  method DumpElement(st: Store, child: Ptr, d: Data, buf: XmlBuf, level: nat, space: nat, ghost kids: seq<Shape>)
    requires IsElement(d) && Walk(st, kids, 0, child) && space <= 10 && buf.Valid()
    requires buf.used + |ElementText(d, Values(kids), level, space)| < buf.cells.Length
    modifies buf, buf.cells
    ensures buf.Valid() && buf.Text() == old(buf.Text()) + ElementText(d, Values(kids), level, space)
    decreases kids, 1
  {
    hide Walk, TagText, EndTag, DumpKids, Closing, Key, Values, Spaces;
    ghost var was, vals := buf.Text(), Values(kids);
    ghost var start, body, close, end :=
      "<" + TagText(d.prefix, d.name.value, d.attr) + ">", DumpKids(vals, level, space), Closing(vals, level, space),
      EndTag(Key(d.prefix, d.name.value));
    Together(was, start, body, close, end);
    ClosingText(vals, level, space);
    DumpStart(d, buf);
    var isElementChild := DumpAll(st, child, buf, level, space, kids);
    if isElementChild && level > 0 {
      NewLine(buf, level - 1, space);
    } else {
      NothingMore(was + start + body);
    }
    DumpEnd(d, buf);
  }

  lemma NothingMore(s: string)
    ensures s + "" == s
  {}

  function ElementText(d: Data, kids: seq<Xml>, level: nat, space: nat): string
    requires IsElement(d)
  {
    "<" + TagText(d.prefix, d.name.value, d.attr) + ">" + (DumpKids(kids, level, space) + Closing(kids, level, space))
    + EndTag(Key(d.prefix, d.name.value))
  }

  lemma Together(was: string, start: string, body: string, close: string, end: string)
    ensures was + start + body + close + end == was + (start + (body + close) + end)
  {
    Assoc(was, start, body);
    Assoc(was, start + body, close);
    Assoc(start, body, close);
    Assoc(was, start + (body + close), end);
  }

  lemma DumpParts(sh: Shape, level: nat, space: nat)
    requires IsElement(sh.data)
    ensures Dump(Value(sh), level, space) == ElementText(sh.data, Values(sh.kids), level, space)
  {}

  lemma ClosingText(kids: seq<Xml>, level: nat, space: nat)
    ensures Closing(kids, level, space) ==
            if kids != [] && kids[|kids| - 1].Element? && level > 0 then "\n" + Spaces((level - 1) * space) else ""
  {}

  method DumpAll(st: Store, first: Ptr, buf: XmlBuf, level: nat, space: nat, ghost kids: seq<Shape>)
    returns (isElementChild: bool)
    requires Walk(st, kids, 0, first) && space <= 10
    requires buf.Valid() && buf.used + |DumpKids(Values(kids), level, space)| < buf.cells.Length
    modifies buf, buf.cells
    ensures buf.Valid() && buf.Text() == old(buf.Text()) + DumpKids(Values(kids), level, space)
    ensures isElementChild <==> kids != [] && Values(kids)[|kids| - 1].Element?
    decreases kids, 0
  {
    var nextLevel := if level > 0 then level + 1 else 0;
    ghost var vals := Values(kids);
    ghost var all := buf.Text() + DumpKids(vals, level, space);
    AheadEnds(vals, level, space);
    hide Dump, Holds, Walk, DumpKids, Ahead, Indent, Values;
    var child := first;
    isElementChild := false;
    ghost var i := 0;
    while child != NULL
      invariant i <= |kids| == |vals| && Walk(st, kids, i, child) && buf.Valid()
      invariant buf.Text() + Ahead(vals, i, level, space) == all
      invariant isElementChild <==> i > 0 && vals[i - 1].Element?
      decreases |kids| - i
    {
      WalkStep(st, kids, i, child);
      AheadStep(vals, i, level, space);
      ghost var was, more := buf.Text(), Ahead(vals, i + 1, level, space);
      ghost var pad, text := Indent(vals[i], level, space), Dump(vals[i], NextLevel(level), space);
      Assoc(was, pad + text, more);
      isElementChild := DumpOne(st, child, buf, level, space, kids, i);
      child := st[child].next;
      i := i + 1;
    }
    WalkStep(st, kids, i, child);
  }

  lemma IndentText(v: Xml, level: nat, space: nat, was: string, text: string)
    ensures v.Element? && level > 0 ==> Indent(v, level, space) == "\n" + Spaces(level * space)
    ensures !v.Element? || level == 0 ==> was + Indent(v, level, space) == was
    ensures was + Indent(v, level, space) + text == was + (Indent(v, level, space) + text)
  {}

  method DumpOne(st: Store, child: Ptr, buf: XmlBuf, level: nat, space: nat, ghost kids: seq<Shape>, ghost i: nat)
    returns (isElementChild: bool)
    requires i < |kids| && child in st && Holds(st, kids[i]) && child == kids[i].p && space <= 10
    requires buf.Valid()
    requires buf.used + |Indent(Values(kids)[i], level, space)| + |Dump(Values(kids)[i], NextLevel(level), space)| < buf.cells.Length
    modifies buf, buf.cells
    ensures buf.Valid()
    ensures buf.Text() == old(buf.Text()) + (Indent(Values(kids)[i], level, space) + Dump(Values(kids)[i], NextLevel(level), space))
    ensures isElementChild <==> Values(kids)[i].Element?
    decreases kids[i], 1
  {
    ValuesAt(kids, i);
    IsElementValue(kids[i]);
    assert st[child].data == kids[i].data;
    ghost var was, value := buf.Text(), Value(kids[i]);
    ghost var pad, text := Indent(value, level, space), Dump(value, NextLevel(level), space);
    IndentText(value, level, space, was, text);
    hide Dump, Holds, Indent, Value, Values, IsElement, Spaces;
    isElementChild := IsElement(st[child].data);
    if isElementChild && level > 0 {
      NewLine(buf, level, space);
    }
    DumpTree(st, child, buf, NextLevel(level), space, kids[i]);
  }

  // The buffer is allocated at the measured size, and the text fills it up to its NUL.
  method XmlDumpTree(st: Store, root: Ptr, ghost sh: Shape) returns (buf: XmlBuf)
    requires Holds(st, sh) && sh.p == root
    ensures fresh(buf) && buf.Valid() && buf.Text() == Dump(Value(sh), 0, 0) && buf.cells.Length == buf.used + 1
  {
    var xmlSize := TreeSize(st, root, 0, 0, sh);
    buf := new XmlBuf(xmlSize + 1);
    DumpTree(st, root, buf, 0, 0, sh);
  }

  lemma {:induction false} FlatIsShorter(t: Xml, level: nat, space: nat)
    ensures |Dump(t, 0, space)| <= |Dump(t, level, space)|
    decreases t, 1
  {
    if t.Element? {
      FlatKidsShorter(t.kids, level, space);
    }
  }

  lemma {:induction false} FlatKidsShorter(kids: seq<Xml>, level: nat, space: nat)
    ensures |DumpKids(kids, 0, space)| <= |DumpKids(kids, level, space)|
    decreases kids, 0
  {
    if kids != [] {
      FlatIsShorter(kids[0], NextLevel(level), space);
      FlatKidsShorter(kids[1..], level, space);
    }
  }

  // The size is always that of the indented text, which leaves room for the flat one as well.
  method XmlDumpTreeEx(st: Store, root: Ptr, prolog: Option<string>, newLine: bool, space0: nat, ghost sh: Shape)
    returns (buf: XmlBuf)
    requires Holds(st, sh) && sh.p == root
    ensures var space := if space0 > 10 then 10 else space0;
            var head := match prolog case Some(p) => p + (if newLine then "\n" else "") case None => "";
            fresh(buf) && fresh(buf.cells) && buf.Valid() && buf.Text() == head + Dump(Value(sh), if newLine then 1 else 0, space)
  {
    hide Dump, Holds;
    var space := if space0 > 10 then 10 else space0;
    var xmlSize := TreeSize(st, root, 1, space, sh);
    FlatIsShorter(Value(sh), 1, space);
    if prolog.Some? && newLine {
      buf := new XmlBuf(|prolog.value| + xmlSize + 2);
      buf.StrCat(prolog.value);
      buf.StrCat("\n");
      assert buf.Text() == prolog.value + "\n";
    } else if prolog.Some? {
      buf := new XmlBuf(|prolog.value| + xmlSize + 1);
      buf.StrCat(prolog.value);
      assert buf.Text() == prolog.value + "";
    } else {
      buf := new XmlBuf(xmlSize + 1);
    }
    DumpTree(st, root, buf, if newLine then 1 else 0, space, sh);
  }
}
