/**
 What becomes of printed trees in which a string is missing. A NULL pointer leaves a gap in the text; the
 parser refuses a text with a gap, except where the gap is all that stands between two brackets.
 */
module JsonGaps {
  import opened Options
  import opened JsonSyntax
  import opened JsonRoundTrip

  // The tree with its lone missing strings taken out of their arrays.
  function Closed(v: Json): Json
    decreases v, 1
  {
    match v
    case Array(items) => if items == [String(None)] then Array([]) else Array(ClosedItems(items))
    case Object(ms) => Object(ClosedMembers(ms))
    case _ => v
  }

  function ClosedItems(items: seq<Json>): (r: seq<Json>)
    ensures |r| == |items|
    decreases items, 0
  {
    if items == [] then [] else [Closed(items[0])] + ClosedItems(items[1..])
  }

  function ClosedMembers(ms: seq<Member>): (r: seq<Member>)
    ensures |r| == |ms|
    decreases ms, 0
  {
    if ms == [] then [] else [ClosedMember(ms[0])] + ClosedMembers(ms[1..])
  }

  function ClosedMember(m: Member): Member
    decreases m, 0
  {
    Member(m.name, Closed(m.value))
  }

  // No array holds a missing string and nothing else.
  predicate Tight(v: Json) {
    match v
    case Array(items) => items != [String(None)] && forall i | 0 <= i < |items| :: Tight(items[i])
    case Object(ms) => forall i | 0 <= i < |ms| :: Tight(ms[i].value)
    case _ => true
  }

  lemma {:induction false} ClosedPrints(v: Json, depth: nat, fmt: bool)
    requires Printable(v)
    ensures Printable(Closed(v)) && Tight(Closed(v)) && PrintValue(Closed(v), depth, fmt) == PrintValue(v, depth, fmt)
    decreases v, 1
  {
    match v
    case Array(items) =>
      if items == [String(None)] {
        assert PrintItems(items[1..], depth + 1, fmt) == "" && PrintItems(items, depth + 1, fmt) == "";
      } else {
        ClosedItemsPrint(items, depth + 1, fmt);
      }
    case Object(ms) => ClosedMembersPrint(ms, depth + 1, fmt);
    case _ =>
  }

  lemma {:induction false} ClosedItemsPrint(items: seq<Json>, depth: nat, fmt: bool)
    requires PrintableItems(items)
    ensures PrintableItems(ClosedItems(items)) && forall i | 0 <= i < |items| :: Tight(ClosedItems(items)[i])
    ensures PrintItems(ClosedItems(items), depth, fmt) == PrintItems(items, depth, fmt)
    decreases items, 0
  {
    if items != [] {
      ClosedPrints(items[0], depth, fmt);
      ClosedItemsPrint(items[1..], depth, fmt);
      assert ClosedItems(items)[1..] == ClosedItems(items[1..]);
    }
  }

  lemma {:induction false} ClosedMembersPrint(ms: seq<Member>, depth: nat, fmt: bool)
    requires PrintableMembers(ms)
    ensures PrintableMembers(ClosedMembers(ms)) && forall i | 0 <= i < |ms| :: Tight(ClosedMembers(ms)[i].value)
    ensures PrintMembers(ClosedMembers(ms), depth, fmt) == PrintMembers(ms, depth, fmt)
    decreases ms, 0
  {
    if ms != [] {
      ClosedMemberPrints(ms[0], depth, fmt);
      ClosedMembersPrint(ms[1..], depth, fmt);
      assert ClosedMembers(ms)[1..] == ClosedMembers(ms[1..]);
    }
  }

  lemma {:induction false} ClosedMemberPrints(m: Member, depth: nat, fmt: bool)
    requires NoNul(m.name) && Printable(m.value)
    ensures var c := ClosedMember(m);
            NoNul(c.name) && Printable(c.value) && Tight(c.value) && PrintMember(c, depth, fmt) == PrintMember(m, depth, fmt)
    decreases m, 0
  {
    ClosedPrints(m.value, depth, fmt);
  }

  lemma {:induction false} CompleteIsClosed(v: Json)
    requires Complete(v)
    ensures Closed(v) == v
    decreases v, 1
  {
    match v
    case Array(items) => CompleteItemsClosed(items);
    case Object(ms) => CompleteMembersClosed(ms);
    case _ =>
  }

  lemma {:induction false} CompleteItemsClosed(items: seq<Json>)
    requires CompleteItems(items)
    ensures ClosedItems(items) == items
    decreases items, 0
  {
    if items != [] {
      CompleteIsClosed(items[0]);
      CompleteItemsClosed(items[1..]);
    }
  }

  lemma {:induction false} CompleteMembersClosed(ms: seq<Member>)
    requires CompleteMembers(ms)
    ensures ClosedMembers(ms) == ms
    decreases ms, 0
  {
    if ms != [] {
      CompleteMemberClosed(ms[0]);
      CompleteMembersClosed(ms[1..]);
    }
  }

  lemma {:induction false} CompleteMemberClosed(m: Member)
    requires m.name.Some? && Complete(m.value)
    ensures ClosedMember(m) == m
    decreases m, 0
  {
    CompleteIsClosed(m.value);
  }

  /// Gaps

  lemma HaltsHere(s: string)
    requires Halts(s)
    ensures ParseValue(Skip(s)).Failed?
  {
    hide Skip;
    var t := Skip(s);
    assert !("null" <= t) && !("false" <= t) && !("true" <= t);
  }

  lemma SkipBlank(fmt: bool, c: char, s: string)
    requires c <= ' '
    ensures Skip(When(fmt, [c]) + s) == Skip(s)
  {
    assert ([c] + s)[1..] == s && "" + s == s;
  }

  // A value with a gap in it is not read, wherever a value is expected.
  lemma {:induction false} GapRefused(v: Json, depth: nat, fmt: bool, suffix: string)
    requires Printable(v) && Tight(v) && !Complete(v) && Halts(suffix)
    ensures ParseValue(Skip(PrintValue(v, depth, fmt) + suffix)).Failed?
    decreases v, 2
  {
    hide ParseValue, PrintValue, Skip, Halts;
    match v
    case String(_) => StringGap(v, depth, fmt, suffix);
    case Array(items) =>
      PrintedValueIsSolid(v, depth, fmt);
      SkipSolid(PrintValue(v, depth, fmt) + suffix);
      ArrayGap(items, depth, fmt, suffix);
    case Object(ms) =>
      PrintedValueIsSolid(v, depth, fmt);
      SkipSolid(PrintValue(v, depth, fmt) + suffix);
      ObjectGap(ms, depth, fmt, suffix);
  }

  lemma StringGap(v: Json, depth: nat, fmt: bool, suffix: string)
    requires v == String(None) && Halts(suffix)
    ensures ParseValue(Skip(PrintValue(v, depth, fmt) + suffix)).Failed?
  {
    assert PrintValue(v, depth, fmt) + suffix == suffix;
    HaltsHere(suffix);
  }

  lemma {:induction false} ArrayGap(items: seq<Json>, depth: nat, fmt: bool, suffix: string)
    requires Printable(Array(items)) && Tight(Array(items)) && !Complete(Array(items))
    ensures ParseValue(PrintValue(Array(items), depth, fmt) + suffix).Failed?
    decreases items, 2
  {
    ArrayHead(items, depth, fmt, suffix);
    hide ParseValue, PrintValue, PrintItems, Skip;
    ItemsGap(items, depth + 1, fmt, suffix);
    ArrayRefused(PrintValue(Array(items), depth, fmt) + suffix, PrintItems(items, depth + 1, fmt) + ("]" + suffix));
  }

  lemma {:induction false} ObjectGap(ms: seq<Member>, depth: nat, fmt: bool, suffix: string)
    requires Printable(Object(ms)) && Tight(Object(ms)) && !Complete(Object(ms))
    ensures ParseValue(PrintValue(Object(ms), depth, fmt) + suffix).Failed?
    decreases ms, 2
  {
    hide ParseValue, PrintValue, PrintMembers, MemberText, MembersTail, Skip;
    MembersGap(ms, depth + 1, fmt, suffix);
    ObjectOpens(ms, depth, fmt, suffix);
    MemberOpens(ms[0], depth + 1, fmt, MembersTail(ms[1..], depth + 1, fmt, suffix));
    ObjectRefused(PrintValue(Object(ms), depth, fmt) + suffix, MembersText(ms, depth + 1, fmt, suffix));
  }

  lemma ArrayHead(items: seq<Json>, depth: nat, fmt: bool, suffix: string)
    requires Printable(Array(items))
    ensures var s := PrintValue(Array(items), depth, fmt) + suffix;
            s[0] == '[' && s[1..] == PrintItems(items, depth + 1, fmt) + ("]" + suffix)
  {
    var p := PrintItems(items, depth + 1, fmt);
    assert ("[" + p + "]" + suffix)[1..] == p + ("]" + suffix);
  }

  // Reading elements from t on fails: at the first, or behind it.
  ghost predicate NoItems(t: string) {
    var r := ParseValue(Skip(t));
    r.Failed? || (r.Parsed? && ParseItems(Skip(r.rest)).Failed?)
  }

  ghost predicate NoMembers(t: string) {
    var r := ParseMember(Skip(t));
    r.Failed? || (r.Parsed? && ParseMembers(Skip(r.rest)).Failed?)
  }

  lemma ArrayRefused(s: string, t: string)
    requires s != "" && s[0] == '[' && s[1..] == t && NoItems(t) && Peek(Skip(t)) != ']'
    ensures ParseValue(s).Failed?
  {
    SkipTwice(t);
    NotALiteral(s);
  }

  lemma ObjectRefused(s: string, t: string)
    requires s != "" && s[0] == '{' && Skip(s[1..]) == t && Solid(t) && t[0] != '}' && NoMembers(t)
    ensures ParseValue(s).Failed?
  {
    SkipSolid(t);
    NotALiteral(s);
  }

  lemma {:induction false} ItemsGap(items: seq<Json>, depth: nat, fmt: bool, suffix: string)
    requires PrintableItems(items) && (forall i | 0 <= i < |items| :: Tight(items[i]))
    requires !CompleteItems(items) && items != [String(None)]
    ensures var t := PrintItems(items, depth, fmt) + ("]" + suffix);
            NoItems(t) && Peek(Skip(t)) != ']'
    decreases items, 1
  {
    hide ParseValue, ParseItems, PrintValue, PrintItems, ItemsTail, Skip;
    ItemsUnfold(items, depth, fmt, suffix);
    ItemsNotClosed(items, depth, fmt, suffix);
    FirstItem(items, depth, fmt, suffix);
  }

  // An element is read from the front of the text, if it has no gap; otherwise reading fails.
  lemma {:induction false} FirstItem(items: seq<Json>, depth: nat, fmt: bool, suffix: string)
    requires PrintableItems(items) && (forall i | 0 <= i < |items| :: Tight(items[i]))
    requires !CompleteItems(items)
    ensures items != [] && NoItems(ItemsText(items, depth, fmt, suffix))
    decreases items, 0
  {
    hide ParseValue, ParseItems, PrintValue, PrintItems, ItemsTail, Skip, Halts;
    var tail := ItemsTail(items[1..], depth, fmt, suffix);
    ItemsTailEndsValue(items[1..], depth, fmt, suffix);
    ItemsTailHalts(items[1..], depth, fmt, suffix);
    if Complete(items[0]) {
      PrintedValueIsSolid(items[0], depth, fmt);
      SkipSolid(ItemsText(items, depth, fmt, suffix));
      ValueRoundTrip(items[0], depth, fmt, tail);
      assert !CompleteItems(items[1..]);
      FirstItem(items[1..], depth, fmt, suffix);
      ItemsTailRefused(items[1..], depth, fmt, suffix);
    } else {
      GapRefused(items[0], depth, fmt, tail);
    }
  }

  lemma ItemsTailHalts(items: seq<Json>, depth: nat, fmt: bool, suffix: string)
    requires PrintableItems(items)
    ensures Halts(ItemsTail(items, depth, fmt, suffix))
  {
    ItemsTailEndsValue(items, depth, fmt, suffix);
    if items == [] {
      assert ItemsTail(items, depth, fmt, suffix) == "]" + suffix;
    }
  }

  lemma ItemsTailRefused(items: seq<Json>, depth: nat, fmt: bool, suffix: string)
    requires PrintableItems(items) && items != [] && NoItems(ItemsText(items, depth, fmt, suffix))
    ensures ParseItems(ItemsTail(items, depth, fmt, suffix)).Failed?
  {
    ItemsTailForm(items, depth, fmt, suffix);
    hide ItemsTail, ItemsText, Skip, ParseValue, When;
    SkipBlank(fmt, ' ', ItemsText(items, depth, fmt, suffix));
  }

  // Only an array whose one element prints nothing looks empty.
  lemma ItemsNotClosed(items: seq<Json>, depth: nat, fmt: bool, suffix: string)
    requires PrintableItems(items) && items != [] && items != [String(None)]
    ensures Peek(Skip(ItemsText(items, depth, fmt, suffix))) != ']'
  {
    var text := ItemsText(items, depth, fmt, suffix);
    if items[0] == String(None) {
      assert items == [items[0]] + items[1..];
      assert text == ItemsTail(items[1..], depth, fmt, suffix);
      SkipSolid(text);
    } else {
      PrintedValueIsSolid(items[0], depth, fmt);
      SkipSolid(text);
    }
  }

  lemma MemberOpens(m: Member, depth: nat, fmt: bool, tail: string)
    requires Printable(m.value)
    ensures var s := MemberText(m, depth, fmt, tail);
            Solid(s) && s[0] == if m.name == None then ':' else '\"'
  {
    hide PrintValue;
  }

  lemma {:induction false} MembersGap(ms: seq<Member>, depth: nat, fmt: bool, suffix: string)
    requires PrintableMembers(ms) && (forall i | 0 <= i < |ms| :: Tight(ms[i].value)) && !CompleteMembers(ms)
    ensures ms != [] && NoMembers(MembersText(ms, depth, fmt, suffix))
    decreases ms, 0
  {
    hide ParseMember, ParseMembers, PrintValue, PrintMembers, MembersTail, MemberText, Skip, Halts;
    var m, tail := ms[0], MembersTail(ms[1..], depth, fmt, suffix);
    MemberOpens(m, depth, fmt, tail);
    SkipSolid(MembersText(ms, depth, fmt, suffix));
    if m.name.Some? && Complete(m.value) {
      MemberRoundTrip(m, depth, fmt, ms[1..], suffix);
      assert !CompleteMembers(ms[1..]);
      MembersGap(ms[1..], depth, fmt, suffix);
      MembersTailRefused(ms[1..], depth, fmt, suffix);
    } else {
      MembersTailHalts(ms[1..], depth, fmt, suffix);
      MemberGap(m, depth, fmt, tail);
    }
  }

  lemma {:induction false} MemberGap(m: Member, depth: nat, fmt: bool, tail: string)
    requires NoNul(m.name) && Printable(m.value) && Tight(m.value) && !(m.name.Some? && Complete(m.value)) && Halts(tail)
    ensures ParseMember(MemberText(m, depth, fmt, tail)).Failed?
    decreases m, 3
  {
    hide ParseValue, ParseString, PrintValue, PrintString, Skip, When, Halts;
    var s := MemberText(m, depth, fmt, tail);
    var value := PrintValue(m.value, depth, fmt) + tail;
    if m.name == None {
      Nameless(s, When(fmt, "\t") + value);
    } else {
      StringRoundTrip(m.name.value, ":" + (When(fmt, "\t") + value));
      GapRefused(m.value, depth, fmt, tail);
      ValuelessMember(s, m.name.value, fmt, value);
    }
  }

  lemma Nameless(s: string, rest: string)
    requires s == "" + (":" + rest)
    ensures ParseMember(s).Failed?
  {
    assert s[0] == ':';
  }

  lemma ValuelessMember(s: string, name: string, fmt: bool, value: string)
    requires ParseString(s) == Parsed(name, ":" + (When(fmt, "\t") + value)) && ParseValue(Skip(value)).Failed?
    ensures ParseMember(s).Failed?
  {
    hide ParseString, ParseValue;
    var colon := ":" + (When(fmt, "\t") + value);
    SkipSolid(colon);
    assert colon[1..] == When(fmt, "\t") + value;
    SkipBlank(fmt, '\t', value);
  }

  lemma MembersTailHalts(ms: seq<Member>, depth: nat, fmt: bool, suffix: string)
    requires PrintableMembers(ms)
    ensures Halts(MembersTail(ms, depth, fmt, suffix))
  {
    if ms == [] {
      MembersEnd(depth, fmt, suffix);
    } else {
      MembersTailForm(ms, depth, fmt, suffix);
      hide MembersTail, Skip;
      SkipSolid(MembersTail(ms, depth, fmt, suffix));
    }
  }

  lemma MembersTailRefused(ms: seq<Member>, depth: nat, fmt: bool, suffix: string)
    requires PrintableMembers(ms) && ms != [] && NoMembers(MembersText(ms, depth, fmt, suffix))
    ensures ParseMembers(Skip(MembersTail(ms, depth, fmt, suffix))).Failed?
  {
    var text := MembersText(ms, depth, fmt, suffix);
    MembersTailForm(ms, depth, fmt, suffix);
    MemberOpens(ms[0], depth, fmt, MembersTail(ms[1..], depth, fmt, suffix));
    hide MembersTail, MemberText, ParseMember, PrintMembers, When, Skip;
    SkipNewLine(depth, fmt, text);
    SkipSolid(MembersTail(ms, depth, fmt, suffix));
    SkipSolid(text);
  }

  /// What the parser makes of any printed tree

  lemma PrintedReads(v: Json, fmt: bool, requireEnd: bool)
    requires Printable(v)
    ensures var r := ParseDocument(PrintValue(v, 0, fmt), requireEnd);
            if Complete(Closed(v)) then r == Parsed(Closed(v), "") else r.Failed?
  {
    ClosedPrints(v, 0, fmt);
    var w := Closed(v);
    if Complete(w) {
      DocumentRoundTrip(w, fmt, requireEnd);
    } else {
      hide ParseValue, PrintValue, Complete, Tight;
      assert PrintValue(w, 0, fmt) + "" == PrintValue(w, 0, fmt);
      GapRefused(w, 0, fmt, "");
    }
  }

  // A printed tree is read back exactly when it is complete.
  lemma RoundTripExactly(v: Json, fmt: bool, requireEnd: bool)
    requires Printable(v)
    ensures ParseDocument(PrintValue(v, 0, fmt), requireEnd) == Parsed(v, "") <==> Complete(v)
  {
    hide ParseDocument, PrintValue;
    PrintedReads(v, fmt, requireEnd);
    if Complete(v) {
      CompleteIsClosed(v);
    }
  }

  // An object with a nameless element, as cJSON_AddItemToArray leaves one, prints a text that is refused.
  lemma NamelessElement()
    ensures var v := Object([Member(None, Number(7, 0))]);
            Printable(v) && PrintValue(v, 0, false) == "{:7}" && ParseDocument("{:7}", true).Failed?
  {
    var v := Object([Member(None, Number(7, 0))]);
    assert v.members[1..] == [];
    assert PrintInt(7) == "7";
    assert PrintMembers(v.members, 1, false) == ":7";
    assert PrintValue(v, 0, false) == "{:7}";
    assert !Complete(v) && Closed(v) == v;
    hide ParseDocument, PrintValue;
    PrintedReads(v, false, true);
  }
}
