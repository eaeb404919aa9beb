/**
 The printers of cJSON: each measures its text first and then fills a buffer of that
 size, so that every write is shown to stay inside.
 */
module JsonPrinter {
  import opened Options
  import opened JsonSyntax
  import S = JsonSyntax
  import N = JsonNodes

  // A NUL-terminated string in a buffer.
  ghost predicate CStr(a: array<char>, s: string)
    reads a
  {
    |s| < a.Length && a[..|s|] == s && a[|s|] == '\0' && '\0' !in s
  }

  // The text up to the NUL, which is as much of a buffer as its readers look at.
  method TextOf(a: array<char>, ghost s: string) returns (r: string)
    requires CStr(a, s)
    ensures r == s
  {
    var n := 0;
    while a[n] != '\0'
      invariant n <= |s|
      invariant forall i | 0 <= i < |s| :: a[i] == s[i] != '\0'
      decreases |s| - n
    {
      n := n + 1;
    }
    r := a[..n];
  }

  // strcpy(ptr, s); ptr += strlen(s)
  method StrCpy(out: array<char>, ptr: nat, s: string) returns (p: nat)
    requires ptr + |s| < out.Length
    modifies out
    ensures p == ptr + |s| && out[..p] == old(out[..ptr]) + s
  {
    var i := 0;
    while i < |s|
      invariant i <= |s|
      invariant out[..ptr + i] == old(out[..ptr]) + s[..i]
    {
      out[ptr + i] := s[i];
      assert s[..i + 1] == s[..i] + [s[i]];
      i := i + 1;
    }
    out[ptr + i] := '\0';
    p := ptr + i;
  }

  // *ptr++ = c
  method Put(out: array<char>, ptr: nat, c: char) returns (p: nat)
    requires ptr < out.Length
    modifies out
    ensures p == ptr + 1 && out[..p] == old(out[..ptr]) + [c]
  {
    out[ptr] := c;
    p := ptr + 1;
  }

  // The last character, and the NUL behind it.
  method Finish(out: array<char>, ptr: nat, c: char, ghost text: string)
    requires ptr + 1 < out.Length && out[..ptr] == text && '\0' !in text && c != '\0'
    modifies out
    ensures CStr(out, text + [c])
  {
    out[ptr] := c;
    out[ptr + 1] := '\0';
    assert out[..ptr + 1] == text + [c];
  }

  method StrDup(s: string) returns (out: array<char>)
    requires '\0' !in s
    ensures fresh(out) && CStr(out, s) && out.Length == |s| + 1
  {
    out := new char[|s| + 1](i => if 0 <= i < |s| then s[i] else '\0');
  }

  /// Strings

  lemma EscapeHasNoNul(c: char)
    requires c != '\0'
    ensures '\0' !in EscapeChar(c)
  {}

  lemma {:induction false} EscapedHasNoNul(str: string)
    requires '\0' !in str
    ensures '\0' !in Escape(str)
  {
    if str != "" {
      EscapeHasNoNul(str[0]);
      EscapedHasNoNul(str[1..]);
    }
  }

  method EscapedLength(str: string) returns (len: nat)
    requires '\0' !in str
    ensures len == |Escape(str)|
  {
    len := 0;
    var ptr := 0;
    assert str[0..] == str;
    while ptr < |str|
      invariant ptr <= |str|
      invariant len + |Escape(str[ptr..])| == |Escape(str)|
    {
      var token := str[ptr];
      len := len + 1;
      if token in "\"\\\U{8}\U{C}\n\r\t" {
        len := len + 1;
      } else if token < ' ' {
        len := len + 5;
      }
      assert str[ptr..][1..] == str[ptr + 1..];
      ptr := ptr + 1;
    }
  }

  // A NULL pointer gives the empty text. For a string, the buffer of the measured length and three is
  // filled to its last byte.
  method PrintStringPtr(str: Option<string>) returns (out: array<char>)
    requires NoNul(str)
    ensures fresh(out) && CStr(out, PrintText(str)) && out.Length == |PrintText(str)| + 1
  {
    if str == None {
      out := StrDup("");
      return;
    }
    var len := EscapedLength(str.value);
    out := new char[len + 3];
    out[0] := '\"';
    var ptr2 := FillEscaped(str.value, out);
    assert ptr2 == len + 1;
    ghost var filled := out[..ptr2];
    out[ptr2] := '\"';
    out[ptr2 + 1] := '\0';
    EscapedHasNoNul(str.value);
    assert out[..ptr2 + 1] == filled + "\"";
  }

  // The escaped characters behind the opening quote.
  method FillEscaped(str: string, out: array<char>) returns (ptr2: nat)
    requires '\0' !in str && out.Length == |Escape(str)| + 3 && out[0] == '\"'
    modifies out
    ensures ptr2 == |Escape(str)| + 1 && out[..ptr2] == "\"" + Escape(str)
  {
    hide Escape, EscapeChar;
    EscapeUnfolds(str, 0);
    ghost var all := "\"" + Escape(str);
    var ptr := 0;
    ptr2 := 1;
    while ptr < |str|
      invariant ptr <= |str| && 1 <= ptr2 <= |all|
      invariant out[..ptr2] + Escape(str[ptr..]) == all
    {
      EscapeUnfolds(str, ptr);
      ghost var done, c, rest := out[..ptr2], EscapeChar(str[ptr]), Escape(str[ptr + 1..]);
      assert done + (c + rest) == done + c + rest;
      ptr2 := StoreEscaped(out, ptr2, str[ptr]);
      ptr := ptr + 1;
    }
    EscapeUnfolds(str, ptr);
    assert out[..ptr2] + "" == out[..ptr2];
  }

  lemma EscapeUnfolds(str: string, ptr: nat)
    requires ptr <= |str|
    ensures ptr < |str| ==> Escape(str[ptr..]) == EscapeChar(str[ptr]) + Escape(str[ptr + 1..])
    ensures ptr == |str| ==> Escape(str[ptr..]) == ""
    ensures str[0..] == str
  {
    assert ptr < |str| ==> str[ptr..][1..] == str[ptr + 1..];
  }

  method StoreEscaped(out: array<char>, ptr2: nat, c: char) returns (p: nat)
    requires c != '\0' && ptr2 + |EscapeChar(c)| < out.Length
    modifies out
    ensures p == ptr2 + |EscapeChar(c)| && out[..p] == old(out[..ptr2]) + EscapeChar(c)
  {
    p := ptr2;
    if c > '\U{1F}' && c != '\"' && c != '\\' {
      out[p] := c; p := p + 1;
    } else {
      out[p] := '\\'; p := p + 1;
      match c {
        case '\\' => out[p] := '\\'; p := p + 1;
        case '\"' => out[p] := '\"'; p := p + 1;
        case '\U{8}' => out[p] := 'b'; p := p + 1;
        case '\U{C}' => out[p] := 'f'; p := p + 1;
        case '\n' => out[p] := 'n'; p := p + 1;
        case '\r' => out[p] := 'r'; p := p + 1;
        case '\t' => out[p] := 't'; p := p + 1;
        case _ =>
          // sprintf(ptr2, "u%04x", token), with its NUL
          out[p], out[p + 1], out[p + 2] := 'u', '0', '0';
          out[p + 3], out[p + 4], out[p + 5] := HexChar(c as int / 16), HexChar(c as int % 16), '\0';
          p := p + 5;
      }
    }
  }

  /// Numbers

  lemma {:induction false} DecimalLength(n: nat, k: nat, bound: nat)
    requires 1 <= k <= 10 && n < bound && bound == TenTo(k)
    ensures |Decimal(n)| <= k && '\0' !in Decimal(n)
    decreases k
  {
    if n >= 10 {
      assert k > 1 by { assert TenTo(1) == 10; }
      DecimalLength(n / 10, k - 1, TenTo(k - 1));
    }
  }

  function TenTo(k: nat): nat {
    if k == 0 then 1 else 10 * TenTo(k - 1)
  }

  lemma IntLength(n: int)
    requires INT_MIN <= n <= INT_MAX
    ensures |PrintInt(n)| <= 11 && '\0' !in PrintInt(n)
  {
    assert TenTo(4) == 10000;
    assert TenTo(7) == 1000_0000;
    assert TenTo(10) == 100_0000_0000;
    DecimalLength(if n < 0 then -n else n, 10, TenTo(10));
  }

  // Integers in the range of int fit the 21 bytes allocated for them.
  method PrintNumber(n: int) returns (out: array<char>)
    requires INT_MIN <= n <= INT_MAX
    ensures fresh(out) && CStr(out, PrintInt(n))
  {
    IntLength(n);
    var s := PrintInt(n);
    out := new char[21](i => if 0 <= i < |s| then s[i] else '\0');
    assert out[..|s|] == s;
  }

  /// Arrays

  function PrintEach(vs: seq<Json>, depth: nat, fmt: bool): seq<string>
    requires PrintableItems(vs)
  {
    if vs == [] then [] else [S.PrintValue(vs[0], depth, fmt)] + PrintEach(vs[1..], depth, fmt)
  }

  function JoinItems(strs: seq<string>, fmt: bool): string {
    if strs == [] then "" else strs[0] + ItemSeparator(|strs| == 1, fmt) + JoinItems(strs[1..], fmt)
  }

  lemma {:induction false} JoinPrinted(vs: seq<Json>, depth: nat, fmt: bool)
    requires PrintableItems(vs)
    ensures |PrintEach(vs, depth, fmt)| == |vs|
    ensures JoinItems(PrintEach(vs, depth, fmt), fmt) == PrintItems(vs, depth, fmt)
  {
    if vs != [] {
      JoinPrinted(vs[1..], depth, fmt);
      assert PrintEach(vs, depth, fmt)[1..] == PrintEach(vs[1..], depth, fmt);
    }
  }

  // What the array's buffer reserves for its entries.
  function ItemsSize(strs: seq<string>, fmt: bool): nat {
    if strs == [] then 0 else |strs[0]| + 2 + (if fmt then 1 else 0) + ItemsSize(strs[1..], fmt)
  }

  lemma {:induction false} ItemsFit(strs: seq<string>, fmt: bool)
    requires forall i | 0 <= i < |strs| :: '\0' !in strs[i]
    ensures |JoinItems(strs, fmt)| <= ItemsSize(strs, fmt) && '\0' !in JoinItems(strs, fmt)
  {
    if strs != [] {
      ItemsFit(strs[1..], fmt);
    }
  }

  lemma {:induction false} ItemsSizeSnoc(strs: seq<string>, s: string, fmt: bool)
    ensures ItemsSize(strs + [s], fmt) == ItemsSize(strs, fmt) + |s| + 2 + (if fmt then 1 else 0)
  {
    if strs == [] {
      assert strs + [s] == [s];
    } else {
      assert (strs + [s])[1..] == strs[1..] + [s];
      ItemsSizeSnoc(strs[1..], s, fmt);
    }
  }

  method StoreItem(out: array<char>, ptr: nat, entry: string, last: bool, fmt: bool) returns (p: nat)
    requires ptr + |entry + ItemSeparator(last, fmt)| < out.Length
    modifies out
    ensures p == ptr + |entry + ItemSeparator(last, fmt)|
    ensures out[..p] == old(out[..ptr]) + (entry + ItemSeparator(last, fmt))
  {
    p := StrCpy(out, ptr, entry);
    if !last {
      p := Put(out, p, ',');
      if fmt {
        p := Put(out, p, ' ');
      }
      out[p] := '\0';
    }
  }

  // The text written so far, and what is still to come, make up the whole.
  lemma WrittenMore(done: string, piece: string, rest: string, whole: string)
    requires done + (piece + rest) == whole
    ensures (done + piece) + rest == whole && |done| + |piece| + |rest| == |whole|
  {}

  method ComposeArray(entries: seq<string>, len: nat, fmt: bool) returns (out: array<char>)
    requires entries != [] && len == 5 + ItemsSize(entries, fmt)
    requires forall i | 0 <= i < |entries| :: '\0' !in entries[i]
    ensures fresh(out) && CStr(out, "[" + JoinItems(entries, fmt) + "]")
  {
    ItemsFit(entries, fmt);
    ghost var text := "[" + JoinItems(entries, fmt);
    hide JoinItems, ItemsSize, ItemSeparator;
    out := new char[len];
    var i := 0;
    var ptr := Put(out, 0, '[');
    out[ptr] := '\0';
    assert entries[0..] == entries;
    assert out[..ptr] == "[";
    while i < |entries|
      invariant i <= |entries| && fresh(out)
      invariant 1 <= ptr <= |text| && out[..ptr] + JoinItems(entries[i..], fmt) == text
    {
      var last := i == |entries| - 1;
      JoinItemsAt(entries, i, fmt);
      WrittenMore(out[..ptr], entries[i] + ItemSeparator(last, fmt), JoinItems(entries[i + 1..], fmt), text);
      ptr := StoreItem(out, ptr, entries[i], last, fmt);
      i := i + 1;
    }
    NothingLeft(fmt);
    assert entries[i..] == [];
    assert out[..ptr] + "" == out[..ptr];
    Finish(out, ptr, ']', text);
  }

  lemma NothingLeft(fmt: bool)
    ensures JoinItems([], fmt) == ""
  {}

  lemma JoinItemsAt(strs: seq<string>, i: nat, fmt: bool)
    requires i < |strs|
    ensures JoinItems(strs[i..], fmt)
         == strs[i] + ItemSeparator(i == |strs| - 1, fmt) + JoinItems(strs[i + 1..], fmt)
  {
    assert strs[i..][1..] == strs[i + 1..];
  }

  /// Objects

  function JoinMembers(names: seq<string>, values: seq<string>, depth: nat, fmt: bool): string
    requires |names| == |values|
  {
    if names == [] then ""
    else MemberPiece(names[0], values[0], |names| == 1, depth, fmt) + JoinMembers(names[1..], values[1..], depth, fmt)
  }

  function MemberPiece(name: string, value: string, last: bool, depth: nat, fmt: bool): string {
    When(fmt, Tabs(depth)) + name + ":" + When(fmt, "\t") + value + MemberSeparator(last, fmt)
  }

  function NamesOf(ms: seq<Member>): seq<string> {
    if ms == [] then [] else [PrintText(ms[0].name)] + NamesOf(ms[1..])
  }

  function ValuesOf(ms: seq<Member>): seq<Json> {
    if ms == [] then [] else [ms[0].value] + ValuesOf(ms[1..])
  }

  lemma {:induction false} ValuesPrintable(ms: seq<Member>)
    requires PrintableMembers(ms)
    ensures PrintableItems(ValuesOf(ms)) && |NamesOf(ms)| == |ValuesOf(ms)| == |ms|
  {
    if ms != [] {
      assert Printable(ms[0].value);
      ValuesPrintable(ms[1..]);
    }
  }

  lemma {:induction false} JoinPrintedMembers(ms: seq<Member>, depth: nat, fmt: bool)
    requires PrintableMembers(ms) && PrintableItems(ValuesOf(ms))
    ensures |PrintEach(ValuesOf(ms), depth, fmt)| == |NamesOf(ms)| == |ms|
    ensures JoinMembers(NamesOf(ms), PrintEach(ValuesOf(ms), depth, fmt), depth, fmt) == PrintMembers(ms, depth, fmt)
  {
    if ms != [] {
      ValuesPrintable(ms[1..]);
      JoinPrintedMembers(ms[1..], depth, fmt);
      var vs := PrintEach(ValuesOf(ms), depth, fmt);
      assert ValuesOf(ms)[1..] == ValuesOf(ms[1..]);
      assert vs[1..] == PrintEach(ValuesOf(ms[1..]), depth, fmt);
      assert NamesOf(ms)[1..] == NamesOf(ms[1..]);
    }
  }

  // What the object's buffer reserves for its entries.
  function MembersSize(names: seq<string>, values: seq<string>, depth: nat, fmt: bool): nat
    requires |names| == |values|
  {
    if names == [] then 0
    else |names[0]| + |values[0]| + 2 + (if fmt then 2 + depth else 0) + MembersSize(names[1..], values[1..], depth, fmt)
  }

  lemma {:induction false} TabsLength(n: nat)
    ensures |Tabs(n)| == n && '\0' !in Tabs(n)
  {
    if n > 0 {
      TabsLength(n - 1);
    }
  }

  lemma {:induction false} MembersFit(names: seq<string>, values: seq<string>, depth: nat, fmt: bool)
    requires |names| == |values|
    requires forall i | 0 <= i < |names| :: '\0' !in names[i] && '\0' !in values[i]
    ensures |JoinMembers(names, values, depth, fmt)| <= MembersSize(names, values, depth, fmt)
    ensures '\0' !in JoinMembers(names, values, depth, fmt)
  {
    TabsLength(depth);
    if names != [] {
      MembersFit(names[1..], values[1..], depth, fmt);
    }
  }

  lemma {:induction false} MembersSizeSnoc(names: seq<string>, values: seq<string>, name: string, value: string,
                                           depth: nat, fmt: bool)
    requires |names| == |values|
    ensures MembersSize(names + [name], values + [value], depth, fmt)
         == MembersSize(names, values, depth, fmt) + |name| + |value| + 2 + (if fmt then 2 + depth else 0)
  {
    if names == [] {
      assert names + [name] == [name] && values + [value] == [value];
    } else {
      assert (names + [name])[1..] == names[1..] + [name] && (values + [value])[1..] == values[1..] + [value];
      MembersSizeSnoc(names[1..], values[1..], name, value, depth, fmt);
    }
  }

  method StoreTabs(out: array<char>, ptr: nat, n: int) returns (p: nat)
    requires ptr + |Tabs(n)| <= out.Length
    modifies out
    ensures p == ptr + |Tabs(n)| && out[..p] == old(out[..ptr]) + Tabs(n)
  {
    p := ptr;
    var i := n;
    assert out[..p] + Tabs(n) == out[..ptr] + Tabs(n);
    while i > 0
      invariant p + |Tabs(i)| == ptr + |Tabs(n)|
      invariant out[..p] + Tabs(i) == old(out[..ptr]) + Tabs(n)
    {
      ghost var done := out[..p];
      out[p] := '\t';
      assert out[..p + 1] == done + "\t";
      assert done + "\t" + Tabs(i - 1) == done + Tabs(i);
      p, i := p + 1, i - 1;
    }
    assert out[..p] + "" == out[..p];
  }

  method StoreMember(out: array<char>, ptr: nat, name: string, value: string, last: bool, depth: nat, fmt: bool)
    returns (p: nat)
    requires ptr + |MemberPiece(name, value, last, depth, fmt)| < out.Length
    modifies out
    ensures p == ptr + |MemberPiece(name, value, last, depth, fmt)|
    ensures out[..p] == old(out[..ptr]) + MemberPiece(name, value, last, depth, fmt)
  {
    hide Tabs;
    p := ptr;
    ghost var done := out[..p];
    ghost var tabs, tab, end := When(fmt, Tabs(depth)), When(fmt, "\t"), MemberSeparator(last, fmt);
    if fmt {
      p := StoreTabs(out, p, depth);
    }
    assert out[..p] == done + tabs;
    p := StrCpy(out, p, name);
    p := Put(out, p, ':');
    if fmt {
      p := Put(out, p, '\t');
    }
    assert out[..p] == done + tabs + name + ":" + tab;
    p := StrCpy(out, p, value);
    p := StoreSeparator(out, p, last, fmt);
    assert out[..p] == done + tabs + name + ":" + tab + value + end;
    Regroup7(done, tabs, name, ":", tab, value, end);
  }

  lemma Regroup7(a: string, b: string, c: string, d: string, e: string, f: string, g: string)
    ensures a + b + c + d + e + f + g == a + (b + c + d + e + f + g)
  {}

  method StoreSeparator(out: array<char>, ptr: nat, last: bool, fmt: bool) returns (p: nat)
    requires ptr + |MemberSeparator(last, fmt)| < out.Length
    modifies out
    ensures p == ptr + |MemberSeparator(last, fmt)| && out[..p] == old(out[..ptr]) + MemberSeparator(last, fmt)
  {
    p := ptr;
    if !last {
      p := Put(out, p, ',');
    }
    if fmt {
      p := Put(out, p, '\n');
    }
    out[p] := '\0';
  }

  method StoreMembers(out: array<char>, ptr: nat, names: seq<string>, entries: seq<string>, depth: nat, fmt: bool)
    returns (p: nat)
    requires |names| == |entries| && ptr + |JoinMembers(names, entries, depth, fmt)| < out.Length
    modifies out
    ensures p == ptr + |JoinMembers(names, entries, depth, fmt)|
    ensures out[..p] == old(out[..ptr]) + JoinMembers(names, entries, depth, fmt)
  {
    hide JoinMembers, MemberPiece;
    ghost var text := out[..ptr] + JoinMembers(names, entries, depth, fmt);
    var i := 0;
    p := ptr;
    assert names[0..] == names && entries[0..] == entries;
    while i < |entries|
      invariant i <= |entries|
      invariant p <= |text| && out[..p] + JoinMembers(names[i..], entries[i..], depth, fmt) == text
    {
      ghost var rest := JoinMembers(names[i + 1..], entries[i + 1..], depth, fmt);
      var last := i == |entries| - 1;
      JoinMembersAt(names, entries, i, depth, fmt);
      WrittenMore(out[..p], MemberPiece(names[i], entries[i], last, depth, fmt), rest, text);
      p := StoreMember(out, p, names[i], entries[i], last, depth, fmt);
      i := i + 1;
    }
    NoMembersLeft(depth, fmt);
    assert names[i..] == [] && entries[i..] == [];
    assert out[..p] + "" == out[..p];
  }

  method ComposeObject(names: seq<string>, entries: seq<string>, len: nat, depth: nat, fmt: bool)
    returns (out: array<char>)
    requires Measured(names, entries, len, depth, fmt) && depth > 0
    ensures fresh(out)
    ensures CStr(out, "{" + When(fmt, "\n") + JoinMembers(names, entries, depth, fmt) + When(fmt, Tabs(depth - 1)) + "}")
  {
    MembersFit(names, entries, depth, fmt);
    TabsLength(depth - 1);
    hide JoinMembers, MembersSize, Tabs;
    out := new char[len];
    var ptr := Put(out, 0, '{');
    if fmt {
      ptr := Put(out, ptr, '\n');
    }
    out[ptr] := '\0';
    assert out[..ptr] == "{" + When(fmt, "\n");
    ptr := StoreMembers(out, ptr, names, entries, depth, fmt);
    if fmt {
      ptr := StoreTabs(out, ptr, depth - 1);
    }
    ghost var body := "{" + When(fmt, "\n") + JoinMembers(names, entries, depth, fmt) + When(fmt, Tabs(depth - 1));
    assert out[..ptr] == body;
    Finish(out, ptr, '}', body);
  }

  lemma NoMembersLeft(depth: nat, fmt: bool)
    ensures JoinMembers([], [], depth, fmt) == ""
  {}

  lemma JoinMembersAt(ns: seq<string>, vs: seq<string>, i: nat, depth: nat, fmt: bool)
    requires |ns| == |vs| && i < |ns|
    ensures JoinMembers(ns[i..], vs[i..], depth, fmt)
         == MemberPiece(ns[i], vs[i], i == |ns| - 1, depth, fmt) + JoinMembers(ns[i + 1..], vs[i + 1..], depth, fmt)
  {
    assert ns[i..][1..] == ns[i + 1..] && vs[i..][1..] == vs[i + 1..];
  }

  /// Item trees

  lemma MembersOfKids(kids: seq<N.Shape>)
    requires PrintableMembers(N.Members(kids))
    ensures PrintableItems(N.Values(kids)) && ValuesOf(N.Members(kids)) == N.Values(kids)
  {
    if kids != [] {
      var ms := N.Members(kids);
      assert Printable(ms[0].value);
      assert forall i | 0 <= i < |N.Members(kids[1..])| :: N.Members(kids[1..])[i] == ms[i + 1];
      MembersOfKids(kids[1..]);
    }
  }

  method CountKids(st: N.Store, first: N.Ptr, ghost kids: seq<N.Shape>) returns (n: nat)
    requires N.Chain(st, N.NULL, kids) && first == N.First(kids)
    ensures n == |kids|
  {
    var child := first;
    n := 0;
    N.WalkStarts(st, N.NULL, kids);
    N.WalkStep(st, kids, n, child);
    while child != N.NULL
      invariant N.Walk(st, kids, n, child) && (child == N.NULL <==> n == |kids|)
      decreases |kids| - n
    {
      N.WalkStep(st, kids, n, child);
      n, child := n + 1, N.NextOf(st, child);
      N.WalkStep(st, kids, n, child);
    }
  }

  method PrintValue(st: N.Store, item: N.Ptr, depth: nat, fmt: bool, ghost sh: N.Shape) returns (out: array<char>)
    requires N.Holds(st, sh) && sh.p == item && Printable(N.Value(sh))
    ensures fresh(out) && CStr(out, S.PrintValue(N.Value(sh), depth, fmt))
    decreases sh, 2
  {
    match st[item].data.kind {
      case KindNull => out := StrDup("null");
      case KindFalse => out := StrDup("false");
      case KindTrue => out := StrDup("true");
      case KindNumber => out := PrintNumber(st[item].data.mant);
      case KindString => out := PrintStringPtr(st[item].data.str);
      case KindArray => out := PrintArray(st, item, depth, fmt, sh);
      case KindObject => out := PrintObject(st, item, depth, fmt, sh);
    }
  }

  method PrintArray(st: N.Store, item: N.Ptr, depth: nat, fmt: bool, ghost sh: N.Shape) returns (out: array<char>)
    requires N.Holds(st, sh) && sh.p == item && sh.data.kind == N.KindArray && Printable(N.Value(sh))
    ensures fresh(out) && CStr(out, S.PrintValue(N.Value(sh), depth, fmt))
    decreases sh, 1
  {
    ghost var vs := N.Values(sh.kids);
    var numentries := CountKids(st, st[item].child, sh.kids);
    if numentries == 0 {
      out := StrDup("[]");
    } else {
      var entries, sizes := PrintKids(st, st[item].child, depth + 1, fmt, sh.kids);
      var len := 5 + sizes;
      JoinPrinted(vs, depth + 1, fmt);
      ValuesCount(sh.kids);
      out := ComposeArray(entries, len, fmt);
    }
  }

  lemma ValuesCount(kids: seq<N.Shape>)
    ensures |N.Values(kids)| == |N.Members(kids)| == |kids|
  {}

  // The loop that prints the kids and adds up what an array reserves for them.
  method PrintKids(st: N.Store, first: N.Ptr, depth: nat, fmt: bool, ghost kids: seq<N.Shape>)
    returns (entries: seq<string>, sizes: nat)
    requires N.Chain(st, N.NULL, kids) && first == N.First(kids) && PrintableItems(N.Values(kids))
    ensures entries == PrintEach(N.Values(kids), depth, fmt) && sizes == ItemsSize(entries, fmt)
    ensures forall i | 0 <= i < |entries| :: '\0' !in entries[i]
    decreases kids, 0
  {
    hide S.PrintValue, PrintEach, N.Holds, N.Chain, N.Walk, N.First, N.Value, N.Values;
    ghost var strs := PrintEach(N.Values(kids), depth, fmt);
    PrintEachLength(kids, depth, fmt);
    entries, sizes := [], 0;
    var child := first;
    ghost var i := 0;
    N.WalkStarts(st, N.NULL, kids);
    N.WalkStep(st, kids, i, child);
    while child != N.NULL
      invariant N.Walk(st, kids, i, child) && i <= |kids| && (child == N.NULL <==> i == |kids|)
      invariant entries == strs[..i] && sizes == ItemsSize(entries, fmt)
      invariant forall j | 0 <= j < i :: '\0' !in entries[j]
      decreases |kids| - i
    {
      N.WalkStep(st, kids, i, child);
      PrintEachAt(kids, i, depth, fmt);
      var ret := PrintValue(st, child, depth, fmt, kids[i]);
      var text := TextOf(ret, strs[i]);
      ItemsSizeSnoc(entries, text, fmt);
      sizes := sizes + |text| + 2 + (if fmt then 1 else 0);
      entries := entries + [text];
      child, i := N.NextOf(st, child), i + 1;
      N.WalkStep(st, kids, i, child);
    }
  }

  lemma {:induction false} PrintEachLength(kids: seq<N.Shape>, depth: nat, fmt: bool)
    requires PrintableItems(N.Values(kids))
    ensures |PrintEach(N.Values(kids), depth, fmt)| == |N.Values(kids)| == |kids|
  {
    JoinPrinted(N.Values(kids), depth, fmt);
    ValuesCount(kids);
  }

  lemma {:induction false} PrintEachAt(kids: seq<N.Shape>, i: nat, depth: nat, fmt: bool)
    requires i < |kids| && PrintableItems(N.Values(kids))
    ensures Printable(N.Value(kids[i])) && |PrintEach(N.Values(kids), depth, fmt)| == |kids|
    ensures PrintEach(N.Values(kids), depth, fmt)[i] == S.PrintValue(N.Value(kids[i]), depth, fmt)
  {
    var vs := N.Values(kids);
    PrintEachLength(kids, depth, fmt);
    assert vs[0] == N.Value(kids[0]) && Printable(vs[0]);
    if i > 0 {
      assert vs[1..] == N.Values(kids[1..]);
      assert forall j | 0 <= j < |vs[1..]| :: vs[1..][j] == vs[j + 1];
      PrintEachAt(kids[1..], i - 1, depth, fmt);
    }
  }

  method PrintObject(st: N.Store, item: N.Ptr, depth: nat, fmt: bool, ghost sh: N.Shape) returns (out: array<char>)
    requires N.Holds(st, sh) && sh.p == item && sh.data.kind == N.KindObject && Printable(N.Value(sh))
    ensures fresh(out) && CStr(out, S.PrintValue(N.Value(sh), depth, fmt))
    decreases sh, 1
  {
    ghost var ms := N.Members(sh.kids);
    var numentries := CountKids(st, st[item].child, sh.kids);
    ValuesCount(sh.kids);
    if numentries == 0 {
      out := PrintEmptyObject(depth, fmt);
    } else {
      MembersOfKids(sh.kids);
      var names, entries, len := PrintEntries(st, st[item].child, depth + 1, fmt, sh.kids);
      JoinPrintedMembers(ms, depth + 1, fmt);
      out := ComposeObject(names, entries, len, depth + 1, fmt);
    }
  }

  method PrintEmptyObject(depth: nat, fmt: bool) returns (out: array<char>)
    ensures fresh(out) && CStr(out, S.PrintValue(Object([]), depth, fmt))
  {
    TabsLength(if depth > 0 then depth - 1 else 0);
    out := new char[if fmt then depth + 4 else 3];
    var ptr := Put(out, 0, '{');
    if fmt {
      ptr := Put(out, ptr, '\n');
      ptr := StoreTabs(out, ptr, depth - 1);
    }
    ghost var body := "{" + When(fmt, "\n" + Tabs(depth - 1));
    assert out[..ptr] == body;
    Finish(out, ptr, '}', body);
  }

  // Names and values that are C strings, and the length of a buffer that has room for them.
  ghost predicate Measured(names: seq<string>, entries: seq<string>, len: nat, depth: nat, fmt: bool) {
    && |names| == |entries|
    && (forall i | 0 <= i < |names| :: '\0' !in names[i] && '\0' !in entries[i])
    && len == 7 + (if fmt then depth else 0) + MembersSize(names, entries, depth, fmt)
  }

  lemma NothingMeasured(depth: nat, fmt: bool)
    ensures Measured([], [], 7 + (if fmt then depth else 0), depth, fmt)
  {}

  lemma MeasuredMore(names: seq<string>, entries: seq<string>, len: nat, depth: nat, fmt: bool, n: string, v: string)
    requires Measured(names, entries, len, depth, fmt) && '\0' !in n && '\0' !in v
    ensures Measured(names + [n], entries + [v], len + |v| + |n| + 2 + (if fmt then 2 + depth else 0), depth, fmt)
  {
    MembersSizeSnoc(names, entries, n, v, depth, fmt);
  }

  // The loop that prints names and values and adds up what the object reserves for them.
  method PrintEntries(st: N.Store, first: N.Ptr, depth: nat, fmt: bool, ghost kids: seq<N.Shape>)
    returns (names: seq<string>, entries: seq<string>, len: nat)
    requires N.Chain(st, N.NULL, kids) && first == N.First(kids)
    requires PrintableMembers(N.Members(kids)) && PrintableItems(N.Values(kids))
    ensures names == NamesOf(N.Members(kids)) && entries == PrintEach(N.Values(kids), depth, fmt)
    ensures Measured(names, entries, len, depth, fmt)
    decreases kids, 0
  {
    hide S.PrintValue, PrintEach, N.Holds, N.Chain, N.Walk, N.First, N.Value, N.Values, N.Members, N.NameOf,
         NamesOf, PrintText, Measured;
    ghost var ns, vs := NamesOf(N.Members(kids)), PrintEach(N.Values(kids), depth, fmt);
    PrintEachLength(kids, depth, fmt);
    NamesLength(kids);
    names, entries, len := [], [], 7 + (if fmt then depth else 0);
    var child := first;
    ghost var i := 0;
    N.WalkStarts(st, N.NULL, kids);
    N.WalkStep(st, kids, i, child);
    NothingMeasured(depth, fmt);
    while child != N.NULL
      invariant N.Walk(st, kids, i, child) && i <= |kids| && (child == N.NULL <==> i == |kids|)
      invariant names == ns[..i] && entries == vs[..i] && Measured(names, entries, len, depth, fmt)
      decreases |kids| - i
    {
      N.WalkStep(st, kids, i, child);
      PrintEachAt(kids, i, depth, fmt);
      NamesAt(st, kids, i, child);
      var name, text := PrintEntry(st, child, depth, fmt, kids[i]);
      MeasuredMore(names, entries, len, depth, fmt, name, text);
      len := len + |text| + |name| + 2 + (if fmt then 2 + depth else 0);
      names, entries := names + [name], entries + [text];
      child, i := N.NextOf(st, child), i + 1;
      N.WalkStep(st, kids, i, child);
    }
  }

  method PrintEntry(st: N.Store, child: N.Ptr, depth: nat, fmt: bool, ghost k: N.Shape)
    returns (name: string, text: string)
    requires N.Holds(st, k) && child == k.p && Printable(N.Value(k)) && NoNul(N.NameOf(st, child))
    ensures name == PrintText(N.NameOf(st, child)) && text == S.PrintValue(N.Value(k), depth, fmt)
    ensures '\0' !in name && '\0' !in text
    decreases k, 3
  {
    var str := PrintStringPtr(N.NameOf(st, child));
    var ret := PrintValue(st, child, depth, fmt, k);
    name := TextOf(str, PrintText(N.NameOf(st, child)));
    text := TextOf(ret, S.PrintValue(N.Value(k), depth, fmt));
  }

  lemma NamesLength(kids: seq<N.Shape>)
    ensures |NamesOf(N.Members(kids))| == |kids|
  {}

  lemma {:induction false} NamesAt(st: N.Store, kids: seq<N.Shape>, i: nat, child: N.Ptr)
    requires i < |kids| && PrintableMembers(N.Members(kids)) && N.Holds(st, kids[i]) && child == kids[i].p
    ensures |NamesOf(N.Members(kids))| == |kids| && NoNul(N.NameOf(st, child))
    ensures NamesOf(N.Members(kids))[i] == PrintText(N.NameOf(st, child))
  {
    var ms := N.Members(kids);
    NamesLength(kids);
    assert ms[0].name == kids[0].data.name && NoNul(ms[0].name);
    if i > 0 {
      assert ms[1..] == N.Members(kids[1..]);
      assert forall j | 0 <= j < |ms[1..]| :: ms[1..][j] == ms[j + 1];
      NamesAt(st, kids[1..], i - 1, child);
    }
  }
}
