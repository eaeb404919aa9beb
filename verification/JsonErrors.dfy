/**
 Where the parser stops: a text that is refused goes on from a part of the grammar in a way that the
 grammar does not allow, and the error pointer is set to the place where it does.
 */
module JsonErrors {
  import opened Options
  import opened Sequences
  import opened JsonSyntax
  import opened JsonRoundTrip
  import opened JsonLayout
  import opened JsonGrammar

  // What was read in front of the error: nothing of a value yet, or an array or object up to some place
  // behind its bracket.
  datatype Broken =
    | Missing
    | BrokenList(items: seq<Item>, inside: ListPlace)
    | BrokenRecord(entries: seq<Entry>, within: RecordPlace)

  // Behind the elements with their commas: in another element, or behind one.
  datatype ListPlace = InItem(before: string, value: Broken) | AfterItem(last: Item)

  // Behind the members with their commas: in front of a name, of a colon, in a value, or behind a member.
  datatype RecordPlace =
    | AtName(before: string)
    | AtColon(before: string, name: Literal, gap: string)
    | InMember(before: string, name: Literal, colon: string, gap: string, value: Broken)
    | AfterMember(last: Entry)

  function WriteBroken(b: Broken, at: string): string
    decreases b, 0
  {
    match b
    case Missing => at
    case BrokenList(items, inside) => "[" + ItemsAhead(items, WriteListPlace(inside, at))
    case BrokenRecord(entries, within) => "{" + EntriesAhead(entries, WriteRecordPlace(within, at))
  }

  function WriteListPlace(p: ListPlace, at: string): string
    decreases p, 0
  {
    match p
    case InItem(before, value) => before + WriteBroken(value, at)
    case AfterItem(last) => WriteItem(last, at)
  }

  function WriteRecordPlace(p: RecordPlace, at: string): string
    decreases p, 0
  {
    match p
    case AtName(before) => before + at
    case AtColon(before, name, gap) => before + WriteLiteral(name, gap + at)
    case InMember(before, name, colon, gap, value) => before + WriteLiteral(name, colon + (":" + (gap + WriteBroken(value, at))))
    case AfterMember(last) => WriteEntry(last, at)
  }

  // Elements, each with a comma behind it, in front of t.
  function ItemsAhead(items: seq<Item>, t: string): string {
    if items == [] then t else WriteItem(items[0], "," + ItemsAhead(items[1..], t))
  }

  function EntriesAhead(entries: seq<Entry>, t: string): string {
    if entries == [] then t else WriteEntry(entries[0], "," + EntriesAhead(entries[1..], t))
  }

  predicate FitAhead(items: seq<Item>, t: string) {
    items != [] ==> FitsItem(items[0], "," + ItemsAhead(items[1..], t)) && FitAhead(items[1..], t)
  }

  predicate FitEntriesAhead(entries: seq<Entry>, t: string) {
    entries != [] ==> FitsEntry(entries[0], "," + EntriesAhead(entries[1..], t)) && FitEntriesAhead(entries[1..], t)
  }

  // No value of the grammar begins here, nor white space.
  predicate NoValue(at: string) {
    && !("null" <= at) && !("false" <= at) && !("true" <= at)
    && !Begins(at, {'\"', '-', '[', '{'}) && !BeginsDigit(at) && NoWhite(at)
  }

  predicate NoWhite(at: string) {
    at != "" ==> at[0] > ' '
  }

  // The parts in front of at belong to the grammar, and what begins at at cannot follow them.
  predicate FitsBroken(b: Broken, at: string)
    decreases b, 0
  {
    match b
    case Missing => NoValue(at)
    case BrokenList(items, inside) =>
      var t := WriteListPlace(inside, at);
      FitAhead(items, t) && FitsListPlace(inside, at) && (items == [] && inside.InItem? && inside.value.Missing? ==> !Begins(at, {']'}))
    case BrokenRecord(entries, within) =>
      var t := WriteRecordPlace(within, at);
      FitEntriesAhead(entries, t) && FitsRecordPlace(within, at) && (entries == [] && within.AtName? ==> !Begins(at, {'}'}))
  }

  predicate FitsListPlace(p: ListPlace, at: string)
    decreases p, 0
  {
    match p
    case InItem(before, value) => White(before) && FitsBroken(value, at)
    case AfterItem(last) => FitsItem(last, at) && NoWhite(at) && !Begins(at, {',', ']'})
  }

  predicate FitsRecordPlace(p: RecordPlace, at: string)
    decreases p, 0
  {
    match p
    case AtName(before) => White(before) && NoWhite(at) && !Begins(at, {'\"'})
    case AtColon(before, name, gap) =>
      White(before) && White(gap) && FitsLiteral(name, gap + at) && NoWhite(at) && !Begins(at, {':'})
    case InMember(before, name, colon, gap, value) =>
      && White(before) && White(colon) && White(gap) && FitsBroken(value, at)
      && FitsLiteral(name, colon + (":" + (gap + WriteBroken(value, at))))
    case AfterMember(last) => FitsEntry(last, at) && NoWhite(at) && !Begins(at, {',', '}'})
  }

  /// Such a text is refused at that place

  // Reading elements from the white space in front of one on fails at at.
  ghost predicate ItemsFail(t: string, at: string) {
    var r := ParseValue(Skip(t));
    r == Failed(at) || (r.Parsed? && ParseItems(Skip(r.rest)) == Failed(at))
  }

  ghost predicate EntriesFail(t: string, at: string) {
    var r := ParseMember(Skip(t));
    r == Failed(at) || (r.Parsed? && ParseMembers(Skip(r.rest)) == Failed(at))
  }

  // Behind a last element may also come the end.
  lemma ItemAtEnd(i: Item, t: string)
    requires FitsItem(i, t) && NoWhite(t)
    ensures ParseValue(Skip(WriteItem(i, t))) == Parsed(ItemMeaning(i), i.after + t) && Skip(i.after + t) == t
    ensures Solid(Skip(WriteItem(i, t))) && Skip(WriteItem(i, t))[0] !in {',', ']', '}'}
  {
    TextRead(i.text, i.after + t);
    Opens(i.text, i.after + t);
    SkipWhite(i.before, Write(i.text, i.after + t));
    SkipSolid(Write(i.text, i.after + t));
    SkipWhite(i.after, t);
  }

  lemma EntryAtEnd(e: Entry, t: string)
    requires FitsEntry(e, t) && NoWhite(t)
    ensures ParseMember(Skip(WriteEntry(e, t))) == Parsed(EntryMeaning(e), e.item.after + t) && Skip(e.item.after + t) == t
    ensures Solid(Skip(WriteEntry(e, t))) && Skip(WriteEntry(e, t))[0] == '\"'
  {
    var value := ":" + WriteItem(e.item, t);
    NamePasses(e.before, e.name, e.colon, value);
    assert value[1..] == WriteItem(e.item, t);
    ItemAtEnd(e.item, t);
  }

  // A name up to the colon.
  lemma NamePasses(before: string, name: Literal, gap: string, t: string)
    requires White(before) && White(gap) && FitsLiteral(name, gap + t) && NoWhite(t)
    ensures var s := Skip(before + WriteLiteral(name, gap + t));
            && Solid(s) && s[0] == '\"' && ParseString(s) == Parsed(Characters(name.pieces), gap + t) && Skip(gap + t) == t
  {
    var s := WriteLiteral(name, gap + t);
    LiteralRead(name, gap + t);
    SkipWhite(before, s);
    SkipSolid(s);
    SkipWhite(gap, t);
  }

  lemma {:induction false} AheadFails(items: seq<Item>, t: string, at: string)
    requires FitAhead(items, t) && ItemsFail(t, at)
    ensures var s := ItemsAhead(items, t);
            ItemsFail(s, at) && (items != [] ==> Solid(Skip(s)) && Skip(s)[0] != ']')
  {
    if items != [] {
      var more := "," + ItemsAhead(items[1..], t);
      AheadFails(items[1..], t, at);
      ItemAtEnd(items[0], more);
      assert more[1..] == ItemsAhead(items[1..], t);
    }
  }

  lemma {:induction false} EntriesAheadFail(entries: seq<Entry>, t: string, at: string)
    requires FitEntriesAhead(entries, t) && EntriesFail(t, at)
    ensures var s := EntriesAhead(entries, t);
            EntriesFail(s, at) && (entries != [] ==> Solid(Skip(s)) && Skip(s)[0] != '}')
  {
    if entries != [] {
      var more := "," + EntriesAhead(entries[1..], t);
      EntriesAheadFail(entries[1..], t, at);
      EntryAtEnd(entries[0], more);
      assert more[1..] == EntriesAhead(entries[1..], t);
    }
  }

  lemma BrokenOpens(b: Broken, at: string)
    requires FitsBroken(b, at)
    ensures NoWhite(WriteBroken(b, at)) && (!b.Missing? ==> WriteBroken(b, at) != "" && WriteBroken(b, at)[0] in {'[', '{'})
  {}

  lemma {:induction false} BrokenFails(b: Broken, at: string)
    requires FitsBroken(b, at)
    ensures ParseValue(WriteBroken(b, at)) == Failed(at)
    decreases b, 0
  {
    var s := WriteBroken(b, at);
    match b
    case Missing =>
    case BrokenList(items, inside) =>
      var t := WriteListPlace(inside, at);
      ListPlaceFails(inside, at);
      AheadFails(items, t, at);
      ListFails(s, ItemsAhead(items, t), at);
    case BrokenRecord(entries, within) =>
      var t := WriteRecordPlace(within, at);
      RecordPlaceFails(within, at);
      EntriesAheadFail(entries, t, at);
      RecordFails(s, EntriesAhead(entries, t), at);
  }

  lemma ListFails(s: string, t: string, at: string)
    requires s == "[" + t && ItemsFail(t, at) && Peek(Skip(t)) != ']'
    ensures ParseValue(s) == Failed(at)
  {
    NotALiteral(s);
    assert s[1..] == t;
    SkipTwice(t);
  }

  lemma RecordFails(s: string, t: string, at: string)
    requires s == "{" + t && EntriesFail(t, at) && Peek(Skip(t)) != '}'
    ensures ParseValue(s) == Failed(at)
  {
    NotALiteral(s);
    assert s[1..] == t;
    SkipTwice(t);
  }

  lemma {:induction false} ListPlaceFails(p: ListPlace, at: string)
    requires FitsListPlace(p, at)
    ensures var t := WriteListPlace(p, at);
            ItemsFail(t, at) && (if p.InItem? && p.value.Missing? then Skip(t) == at else Peek(Skip(t)) != ']')
    decreases p, 0
  {
    match p
    case InItem(before, value) =>
      BrokenFails(value, at);
      BrokenOpens(value, at);
      SkipWhite(before, WriteBroken(value, at));
    case AfterItem(last) => ItemAtEnd(last, at);
  }

  lemma {:induction false} RecordPlaceFails(p: RecordPlace, at: string)
    requires FitsRecordPlace(p, at)
    ensures var t := WriteRecordPlace(p, at);
            EntriesFail(t, at) && (if p.AtName? then Skip(t) == at else Peek(Skip(t)) != '}')
    decreases p, 0
  {
    match p
    case AtName(before) => SkipWhite(before, at);
    case AtColon(before, name, gap) => NamePasses(before, name, gap, at);
    case InMember(before, name, colon, gap, value) =>
      var v := ":" + (gap + WriteBroken(value, at));
      NamePasses(before, name, colon, v);
      BrokenFails(value, at);
      BrokenOpens(value, at);
      assert v[1..] == gap + WriteBroken(value, at);
      SkipWhite(gap, WriteBroken(value, at));
    case AfterMember(last) => EntryAtEnd(last, at);
  }

  /// and every refusal comes about so

  lemma {:induction false} SplitBroken(s: string) returns (b: Broken)
    requires ParseValue(s).Failed? && NoWhite(s)
    ensures s == WriteBroken(b, ParseValue(s).at) && FitsBroken(b, ParseValue(s).at)
    decreases |s|, 2
  {
    if s != "" && s[0] == '[' {
      b := SplitBrokenList(s);
    } else if s != "" && s[0] == '{' {
      b := SplitBrokenRecord(s);
    } else {
      b := Missing;
    }
  }

  lemma {:induction false} SplitBrokenList(s: string) returns (b: Broken)
    requires s != "" && s[0] == '[' && ParseArray(s).Failed?
    ensures s == WriteBroken(b, ParseArray(s).at) && FitsBroken(b, ParseArray(s).at)
    decreases |s|, 1
  {
    var at := ParseArray(s).at;
    SkipTwice(s[1..]);
    var items, p := SplitAhead(s[1..], at);
    ListPlaceFails(p, at);
    b := BrokenList(items, p);
    Cons(s);
  }

  lemma {:induction false} SplitAhead(t: string, at: string) returns (items: seq<Item>, p: ListPlace)
    requires ItemsFail(t, at)
    ensures t == ItemsAhead(items, WriteListPlace(p, at)) && FitAhead(items, WriteListPlace(p, at)) && FitsListPlace(p, at)
    decreases |t|, 4
  {
    var r := ParseValue(Skip(t));
    if r == Failed(at) {
      var before := SplitWhite(t);
      var value := SplitBroken(Skip(t));
      items, p := [], InItem(before, value);
    } else {
      var i := SplitItem(t);
      var u := Skip(r.rest);
      var after := SplitWhite(r.rest);
      if u != "" && u[0] == ',' {
        Cons(u);
        items, p := SplitAhead(u[1..], at);
        assert ([i] + items)[1..] == items;
        items := [i] + items;
      } else {
        items, p := [], AfterItem(i);
      }
    }
  }

  lemma {:induction false} SplitBrokenRecord(s: string) returns (b: Broken)
    requires s != "" && s[0] == '{' && ParseObject(s).Failed?
    ensures s == WriteBroken(b, ParseObject(s).at) && FitsBroken(b, ParseObject(s).at)
    decreases |s|, 1
  {
    var at := ParseObject(s).at;
    SkipTwice(s[1..]);
    var entries, p := SplitEntriesAhead(s[1..], at);
    RecordPlaceFails(p, at);
    b := BrokenRecord(entries, p);
    Cons(s);
  }

  lemma {:induction false} SplitEntriesAhead(t: string, at: string) returns (entries: seq<Entry>, p: RecordPlace)
    requires EntriesFail(t, at)
    ensures t == EntriesAhead(entries, WriteRecordPlace(p, at)) && FitEntriesAhead(entries, WriteRecordPlace(p, at))
    ensures FitsRecordPlace(p, at)
    decreases |t|, 4
  {
    var r := ParseMember(Skip(t));
    if r == Failed(at) {
      entries := [];
      p := SplitMember(t, at);
    } else {
      var e := SplitEntry(t);
      var u := Skip(r.rest);
      var after := SplitWhite(r.rest);
      if u != "" && u[0] == ',' {
        Cons(u);
        entries, p := SplitEntriesAhead(u[1..], at);
        assert ([e] + entries)[1..] == entries;
        entries := [e] + entries;
      } else {
        entries, p := [], AfterMember(e);
      }
    }
  }

  lemma {:induction false} SplitMember(t: string, at: string) returns (p: RecordPlace)
    requires ParseMember(Skip(t)) == Failed(at)
    ensures t == WriteRecordPlace(p, at) && FitsRecordPlace(p, at)
    decreases |t|, 3
  {
    hide FitsLiteral, WriteLiteral, White, Skip, ParseString, ParseValue, FitsBroken, WriteBroken, Characters;
    var before := SplitWhite(t);
    NotName(Skip(t));
    if Skip(t) == "" || Skip(t)[0] != '\"' {
      p := AtName(before);
    } else {
      var name, rest := SplitLiteral(Skip(t));
      var colon := SplitWhite(rest);
      var v := Skip(rest);
      if v == "" || v[0] != ':' {
        p := AtColon(before, name, colon);
      } else {
        p := SplitInMember(before, name, colon, v, at);
      }
    }
  }

  lemma NotName(s: string)
    ensures if s == "" || s[0] != '\"' then ParseString(s) == Failed(s) else !ParseString(s).Failed?
  {}

  lemma {:induction false} SplitInMember(before: string, name: Literal, colon: string, v: string, at: string) returns (p: RecordPlace)
    requires White(before) && White(colon) && FitsLiteral(name, colon + v) && v != "" && v[0] == ':'
    requires ParseValue(Skip(v[1..])) == Failed(at)
    ensures before + WriteLiteral(name, colon + v) == WriteRecordPlace(p, at) && FitsRecordPlace(p, at)
    decreases |v|, 3
  {
    Cons(v);
    var gap := SplitWhite(v[1..]);
    var value := SplitBroken(Skip(v[1..]));
    p := InMember(before, name, colon, gap, value);
  }

  // s is a beginning of a document, up to where at does not go on as the grammar demands; or, if nothing
  // may follow, a document with something else behind it.
  ghost predicate BreaksAt(s: string, at: string, requireEnd: bool) {
    || (exists g, b :: White(g) && s == g + WriteBroken(b, at) && FitsBroken(b, at))
    || (requireEnd && Solid(at) && exists g, d, h :: White(g) && White(h) && s == g + Write(d, h + at) && Fits(d, h + at))
  }

  lemma ErrorPlace(s: string, at: string, requireEnd: bool)
    ensures ParseDocument(s, requireEnd) == Failed(at) <==> BreaksAt(s, at, requireEnd)
  {
    hide ParseValue, Write, Fits, FitsBroken, WriteBroken;
    if ParseDocument(s, requireEnd) == Failed(at) {
      var g := SplitWhite(s);
      if ParseValue(Skip(s)).Failed? {
        var b := SplitBroken(Skip(s));
      } else {
        var d, t := Split(Skip(s));
        TextRead(d, t);
        var h := SplitWhite(t);
        assert Skip(t) == at && t == h + at;
      }
    }
    if g, b :| White(g) && s == g + WriteBroken(b, at) && FitsBroken(b, at) {
      BrokenFails(b, at);
      BrokenOpens(b, at);
      SkipWhite(g, WriteBroken(b, at));
    }
    if g, d, h :| requireEnd && Solid(at) && White(g) && White(h) && s == g + Write(d, h + at) && Fits(d, h + at) {
      TextRead(d, h + at);
      Opens(d, h + at);
      SkipWhite(g, Write(d, h + at));
      SkipSolid(Write(d, h + at));
      SkipWhite(h, at);
      SkipSolid(at);
    }
  }
}
