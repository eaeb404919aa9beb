/**
 The parser of cJSON: it fills in items, hooks new ones onto lists, and copies string
 literals into buffers it has measured first. Each method is tied to the function of
 the same name on text.
 */
module JsonParser {
  import opened Sequences
  import opened Options
  import opened Bits
  import opened JsonNodes
  import opened JsonUnicode
  import S = JsonSyntax

  type Parsed<T> = S.Parsed<T>

  // A failed parse returns NULL.
  const FAIL: int := -1

  function At(text: string, i: nat): char {
    if i < |text| then text[i] else '\0'
  }

  // The pointer `end` into the text, and the error pointer, report what r says.
  ghost predicate Reports<T>(r: Parsed<T>, text: string, end: int, ep: int, ep0: int) {
    match r
    case Parsed(_, rest) => 0 <= end <= |text| && text[end..] == rest && ep == ep0
    case Failed(at) => end == FAIL && 0 <= ep <= |text| && text[ep..] == at
    case Overrun => false
  }

  lemma Drop(text: string, i: nat, k: nat)
    requires i + k <= |text|
    ensures text[i..][k..] == text[i + k..]
  {}

  method Skip(text: string, pos: nat) returns (p: nat)
    requires pos <= |text|
    ensures pos <= p <= |text| && text[p..] == S.Skip(text[pos..])
  {
    p := pos;
    while p < |text| && text[p] <= ' '
      invariant pos <= p <= |text|
      invariant S.Skip(text[p..]) == S.Skip(text[pos..])
    {
      Drop(text, p, 1);
      p := p + 1;
    }
  }

  method Digits(text: string, pos: nat, n0: nat) returns (n: nat, p: nat)
    requires pos <= |text|
    ensures pos <= p <= |text| && S.Digits(text[pos..], n0) == (n, text[p..])
  {
    n, p := n0, pos;
    while S.IsDigit(At(text, p))
      invariant pos <= p <= |text|
      invariant S.Digits(text[p..], n) == S.Digits(text[pos..], n0)
      decreases |text| - p
    {
      Drop(text, p, 1);
      n := n * 10 + S.DigitValue(text[p]);
      p := p + 1;
    }
  }

  method ParseWhole(text: string, pos: nat) returns (n: nat, num: nat)
    requires pos <= |text|
    ensures pos <= num <= |text| && S.ParseWhole(text[pos..]) == (n, text[num..])
  {
    n, num := 0, pos;
    if At(text, num) == '0' {
      Drop(text, num, 1);
      num := num + 1;
    }
    if '1' <= At(text, num) <= '9' {
      n, num := Digits(text, num, 0);
    }
  }

  method ParseFraction(text: string, pos: nat, n0: nat) returns (n: nat, scale: int, num: nat)
    requires pos <= |text|
    ensures pos <= num <= |text| && S.ParseFraction(text[pos..], n0) == (n, scale, text[num..])
  {
    n, scale, num := n0, 0, pos;
    if At(text, num) == '.' && S.IsDigit(At(text, num + 1)) {
      Drop(text, num, 1);
      n, num := Digits(text, num + 1, n);
      scale := pos + 1 - num;
    }
  }

  method ParseExponent(text: string, pos: nat) returns (subscale: int, num: nat)
    requires pos <= |text|
    ensures pos <= num <= |text| && S.ParseExponent(text[pos..]) == (subscale, text[num..])
  {
    subscale, num := 0, pos;
    if At(text, num) == 'e' || At(text, num) == 'E' {
      Drop(text, num, 1);
      num := num + 1;
      var negative := At(text, num) == '-';
      if negative || At(text, num) == '+' {
        Drop(text, num, 1);
        num := num + 1;
      }
      var k;
      k, num := Digits(text, num, 0);
      subscale := S.Signed(negative, k);
    }
  }

  function TrailByte(u: nat): (b: nat)
    ensures b == 0x80 + u % 0x40
  {
    SixBitsMarked(u);
    And(Or(u, 0x80), 0xBF)
  }

  const FIRST_BYTE_MARK := [0x00, 0x00, 0xC0, 0xE0, 0xF0, 0xF8, 0xFC]

  function LeadByte(u: nat, len: nat): (b: nat)
    requires 1 <= len <= 4
    requires u < if len == 1 then 0x80 else if len == 2 then 0x20 else if len == 3 then 0x10 else 0x08
    ensures b == u + FIRST_BYTE_MARK[len]
  {
    FirstByteMarked(u);
    Or(u, FIRST_BYTE_MARK[len])
  }

  // Writes the UTF-8 of uc backwards from its last byte, as the fall-through switch does.
  method StoreUtf8(out: array<char>, k: nat, uc: nat) returns (k': nat)
    requires uc <= 0x10_FFFF && k + |S.Utf8(uc)| <= out.Length
    modifies out
    ensures k' == k + |S.Utf8(uc)|
    ensures out[..k'] == old(out[..k]) + S.Utf8(uc)
  {
    hide S.Utf8, S.Byte, TrailByte, LeadByte, And, Or;
    var u, len := uc, 4;
    if u < 0x80 { len := 1; } else if u < 0x800 { len := 2; } else if u < 0x1_0000 { len := 3; }
    var p := k + len;
    DivideTwice(uc);
    Utf8Layout(uc, len);
    ghost var bytes := S.Utf8(uc);
    if len == 4 { p := p - 1; out[p] := S.Byte(TrailByte(u)); u := u / 0x40; }
    if len >= 3 { p := p - 1; out[p] := S.Byte(TrailByte(u)); u := u / 0x40; }
    if len >= 2 { p := p - 1; out[p] := S.Byte(TrailByte(u)); u := u / 0x40; }
    p := p - 1;
    out[p] := S.Byte(LeadByte(u, len));
    assert forall i :: 0 <= i < len ==> out[k + i] == bytes[i];
    k' := p + len;
    Spliced(old(out[..]), out[..], k, bytes);
  }

  lemma Spliced(before: string, after: string, k: nat, bytes: string)
    requires |before| == |after| && k + |bytes| <= |after|
    requires forall i :: 0 <= i < k ==> after[i] == before[i]
    requires forall i :: 0 <= i < |bytes| ==> after[k + i] == bytes[i]
    ensures after[..k + |bytes|] == before[..k] + bytes
  {
    assert forall i | k <= i < k + |bytes| :: after[i] == bytes[i - k];
  }

  // Where the bits of a code point go.
  lemma Utf8Layout(uc: nat, len: nat)
    requires uc <= 0x10_FFFF && len == if uc < 0x80 then 1 else if uc < 0x800 then 2 else if uc < 0x1_0000 then 3 else 4
    ensures var b := S.Utf8(uc);
            && |b| == len
            && (len >= 2 ==> b[len - 1] == S.Byte(0x80 + uc % 0x40))
            && (len >= 3 ==> b[len - 2] == S.Byte(0x80 + uc / 0x40 % 0x40))
            && (len == 4 ==> b[1] == S.Byte(0x80 + uc / 0x1000 % 0x40))
            && b[0] == (if len == 1 then S.Byte(uc) else if len == 2 then S.Byte(0xC0 + uc / 0x40)
                        else if len == 3 then S.Byte(0xE0 + uc / 0x1000) else S.Byte(0xF0 + uc / 0x4_0000))
  {}

  // The first pass over a literal, from behind its opening quote.
  method MeasureString(text: string, pos: nat) returns (len: nat)
    requires pos <= |text| && FirstPassStays(text[pos..])
    ensures len == S.CountChars(text[pos..])
  {
    len := 0;
    var ptr := pos;
    while At(text, ptr) != '\"' && ptr < |text|
      invariant pos <= ptr <= |text| && FirstPassStays(text[ptr..])
      invariant len + S.CountChars(text[ptr..]) == S.CountChars(text[pos..])
      decreases |text| - ptr
    {
      Drop(text, ptr, 1);
      len := len + 1;
      if text[ptr] == '\\' {
        Drop(text, ptr, 2);
        ptr := ptr + 1;
      }
      ptr := ptr + 1;
    }
  }

  method StoreEscape(text: string, pos: nat, out: array<char>, k: nat) returns (ptr: nat, k': nat)
    requires pos <= |text| && S.ParseEscape(text[pos..]).Parsed?
    requires k + |S.ParseEscape(text[pos..]).value| <= out.Length
    modifies out
    ensures pos < ptr <= |text| && text[ptr..] == S.ParseEscape(text[pos..]).rest
    ensures k' == k + |S.ParseEscape(text[pos..]).value|
    ensures out[..k'] == old(out[..k]) + S.ParseEscape(text[pos..]).value
  {
    ghost var s := text[pos..];
    ptr, k' := pos, k;
    Drop(text, pos, 1);
    match text[ptr] {
    case 'b' => out[k'] := '\U{8}'; k' := k' + 1;
    case 'f' => out[k'] := '\U{C}'; k' := k' + 1;
    case 'n' => out[k'] := '\n'; k' := k' + 1;
    case 'r' => out[k'] := '\r'; k' := k' + 1;
    case 't' => out[k'] := '\t'; k' := k' + 1;
    case 'u' =>
      ptr, k' := StoreUnicode(text, ptr, out, k');
    case c => out[k'] := c; k' := k' + 1;
    }
    ptr := ptr + 1;
  }

  // The case of \\u: leaves ptr on the last character of the escape, or of the pair.
  method StoreUnicode(text: string, pos: nat, out: array<char>, k: nat) returns (ptr: nat, k': nat)
    requires pos < |text| && text[pos] == 'u' && S.ParseUnicode(text[pos..]).Parsed?
    requires k + |S.ParseUnicode(text[pos..]).value| <= out.Length
    modifies out
    ensures pos <= ptr < |text| && text[ptr + 1..] == S.ParseUnicode(text[pos..]).rest
    ensures k' == k + |S.ParseUnicode(text[pos..]).value|
    ensures out[..k'] == old(out[..k]) + S.ParseUnicode(text[pos..]).value
  {
    hide S.Utf8, S.Hex4, S.Combine, And, Or;
    ghost var s := text[pos..];
    ptr, k' := pos, k;
    Drop(text, pos, 1);
    assert |s| >= 5;
    Drop(text, pos, 5);
    var uc := S.Hex4(text[ptr + 1..]);
    ptr := ptr + 4;
    if !S.IsLowSurrogate(uc) && uc != 0 {
      if S.IsHighSurrogate(uc) {
        if At(text, ptr + 1) == '\\' && At(text, ptr + 2) == 'u' {
          assert |s| >= 7 && s[5] == '\\' && s[6] == 'u';
          Drop(text, pos, 7);
          assert |s| >= 11;
          Drop(text, pos, 11);
          var uc2 := S.Hex4(text[ptr + 3..]);
          ptr := ptr + 6;
          if S.IsLowSurrogate(uc2) {
            CombineBits(uc, uc2);
            k' := StoreUtf8(out, k', 0x1_0000 + Or(And(uc, 0x3FF) * 0x400, And(uc2, 0x3FF)));
          }
        }
      } else {
        k' := StoreUtf8(out, k', uc);
      }
    }
  }

  lemma CombineBits(high: nat, low: nat)
    requires S.IsHighSurrogate(high) && S.IsLowSurrogate(low)
    ensures 0x1_0000 + Or(And(high, 0x3FF) * 0x400, And(low, 0x3FF)) == S.Combine(high, low)
  {
    PowerOf10();
    hide And, Or, Pow2;
    AndMask(high, 10);
    AndMask(low, 10);
    OrDisjoint(high % 0x400, low % 0x400, 10);
  }

  lemma PowerOf10()
    ensures Pow2(10) == 0x400
  {
    assert Pow2(5) == 0x20;
  }

  lemma CopyStep(s: string)
    requires s != "" && s[0] != '\"' && !S.ParseChars(s).Overrun?
    ensures if s[0] == '\\' then
              var e := S.ParseEscape(s[1..]);
              e.Parsed? && Prepends(s, e.value, e.rest)
            else Prepends(s, [s[0]], s[1..])
  {}

  ghost predicate Prepends(s: string, a: string, t: string) {
    var r := S.ParseChars(t);
    r.Parsed? && S.ParseChars(s) == S.Parsed(a + r.value, r.rest)
  }

  lemma PrependsChain(s: string, a: string, t: string, b: string, u: string)
    requires Prepends(s, a, t) && Prepends(t, b, u)
    ensures Prepends(s, a + b, u)
  {
    assert (a + b) + S.ParseChars(u).value == a + (b + S.ParseChars(u).value);
  }

  // One character of the literal, or one escape.
  method CopyOne(text: string, pos: nat, out: array<char>, k: nat, ghost s: string) returns (end: nat, k': nat)
    requires pos < |text| && text[pos] != '\"' && !S.ParseChars(s).Overrun?
    requires k < out.Length && Prepends(s, out[..k], text[pos..]) && |S.ParseChars(s).value| < out.Length
    modifies out
    ensures pos < end <= |text| && k' < out.Length && Prepends(s, out[..k'], text[end..])
  {
    ghost var done, from := out[..k], text[pos..];
    Drop(text, pos, 1);
    CopyStep(from);
    PrependedFits(s, done, from);
    hide S.ParseChars, S.ParseEscape;
    if text[pos] != '\\' {
      PrependsChain(s, done, from, [text[pos]], text[pos + 1..]);
      PrependedFits(s, done + [text[pos]], text[pos + 1..]);
      out[k] := text[pos];
      assert out[..k + 1] == done + [text[pos]];
      k' := k + 1;
      end := pos + 1;
    } else {
      ghost var e := S.ParseEscape(text[pos + 1..]);
      PrependsChain(s, done, from, e.value, e.rest);
      PrependedFits(s, done + e.value, e.rest);
      end, k' := StoreEscape(text, pos + 1, out, k);
      assert out[..k'] == done + e.value;
    }
  }

  lemma PrependedFits(s: string, a: string, t: string)
    requires Prepends(s, a, t)
    ensures S.ParseChars(s).Parsed? && |a| <= |S.ParseChars(s).value| && !S.ParseChars(t).Overrun?
  {}

  // Both passes: the literal goes to a buffer of the measured size, with a NUL behind it.
  method CopyString(text: string, pos: nat) returns (end: nat, out: array<char>, k: nat)
    requires pos <= |text| && !S.ParseChars(text[pos..]).Overrun?
    ensures fresh(out) && k < out.Length && out[k] == '\0'
    ensures pos <= end <= |text| && S.ParseChars(text[pos..]) == S.Parsed(out[..k], text[end..])
  {
    ghost var s := text[pos..];
    ParsedStays(s);
    BufferFits(s);
    var len := MeasureString(text, pos);
    out := new char[len + 1];
    end, k := pos, 0;
    assert out[..0] + S.ParseChars(s).value == S.ParseChars(s).value;
    while At(text, end) != '\"' && end < |text|
      invariant pos <= end <= |text| && k <= len && fresh(out)
      invariant Prepends(s, out[..k], text[end..])
      decreases |text| - end
    {
      end, k := CopyOne(text, end, out, k, s);
    }
    assert S.ParseChars(text[end..]).value == "";
    assert out[..k] + "" == out[..k];
    out[k] := '\0';
    if end < |text| {
      Drop(text, end, 1);
      end := end + 1;
    }
  }

  // `first` in front of the list r parsed.
  function Join<T>(first: seq<T>, r: Parsed<seq<T>>): Parsed<seq<T>> {
    if r.Parsed? then S.Parsed(first + r.value, r.rest) else r
  }

  lemma JoinChain<T>(a: seq<T>, b: seq<T>, r: Parsed<seq<T>>)
    ensures Join(a + b, r) == Join(a, Join(b, r))
  {
    if r.Parsed? {
      assert a + b + r.value == a + (b + r.value);
    }
  }

  lemma Alone(st: Store, sh: Shape)
    requires Holds(st, sh) && st[sh.p].prev == st[sh.p].next == NULL
    ensures Chain(st, NULL, [sh]) && PtrsOf([sh]) == Ptrs(sh)
  {}

  lemma SameData(st: Store, p: Ptr)
    requires p in st && p != NULL && st[p].child == NULL
    ensures Grown(st, st, Shape(p, st[p].data, []))
  {
    GrownByData(st, p, st[p].data);
    assert st == st[p := st[p].(data := st[p].data)];
  }

  lemma ValueOf(sh: Shape)
    ensures sh.data.kind == KindArray ==> Value(sh) == S.Array(Values(sh.kids))
    ensures sh.data.kind == KindObject ==> Value(sh) == S.Object(Members(sh.kids))
    ensures sh.kids == [] ==> Values(sh.kids) == [] && Members(sh.kids) == []
  {}

  // Changing the data of the item first makes no difference to what grows from it.
  lemma GrownFrom(st0: Store, st1: Store, st: Store, sh: Shape)
    requires sh.p in st0 && st1.Keys == st0.Keys && Grown(st1, st, sh) && Agrees(st0, st1, st0.Keys - {sh.p})
    requires st1[sh.p].next == st0[sh.p].next && st1[sh.p].prev == st0[sh.p].prev
    ensures Grown(st0, st, sh)
  {
    hide Holds;
  }

  // One turn of each list loop.

  lemma ArrayUnfolded(s: string)
    requires S.Peek(s) == '['
    ensures S.ParseArray(s) ==
            var v := S.Skip(s[1..]);
            if S.Peek(v) == ']' then S.Parsed([], v[1..])
            else
              var q := S.ParseValue(S.Skip(v));
              if q.Parsed? then Join([q.value], S.ParseItems(S.Skip(q.rest))) else q.PropagateFailure()
  {}

  lemma ItemsUnfolded(s: string)
    requires S.Peek(s) == ','
    ensures S.ParseItems(s) ==
            var q := S.ParseValue(S.Skip(s[1..]));
            if q.Parsed? then Join([q.value], S.ParseItems(S.Skip(q.rest))) else q.PropagateFailure()
  {}

  lemma ObjectUnfolded(s: string)
    requires S.Peek(s) == '{'
    ensures S.ParseObject(s) ==
            var v := S.Skip(s[1..]);
            if S.Peek(v) == '}' then S.Parsed([], v[1..])
            else
              var q := S.ParseMember(S.Skip(v));
              if q.Parsed? then Join([q.value], S.ParseMembers(S.Skip(q.rest))) else q.PropagateFailure()
  {}

  lemma MemberUnfolded(s: string)
    ensures S.ParseMember(s) ==
            var n := S.ParseString(s);
            if !n.Parsed? then n.PropagateFailure()
            else
              var v := S.Skip(n.rest);
              if S.Peek(v) != ':' then S.Failed(v)
              else
                var q := S.ParseValue(S.Skip(v[1..]));
                if q.Parsed? then S.Parsed(S.Member(Some(n.value), q.value), q.rest) else q.PropagateFailure()
  {}

  lemma MembersUnfolded(s: string)
    requires S.Peek(s) == ','
    ensures S.ParseMembers(s) ==
            var q := S.ParseMember(S.Skip(s[1..]));
            if q.Parsed? then Join([q.value], S.ParseMembers(S.Skip(q.rest))) else q.PropagateFailure()
  {}

  class CJson {
    var store: Store
    var ep: int  // the error pointer, as an index into the text

    constructor ()
      ensures store == map[]
    {
      store, ep := map[], FAIL;
    }

    method NewItem() returns (p: Ptr)
      modifies this`store
      ensures p != NULL && p !in old(store) && store == old(store)[p := ZEROED]
    {
      FreshExists(store.Keys);
      p :| p != NULL && p !in store;
      store := store[p := ZEROED];
    }

    // Frees the chain that starts at c, with everything below it.
    method Delete(c: Ptr, ghost prev: Ptr, ghost kids: seq<Shape>)
      requires Chain(store, prev, kids) && c == First(kids)
      modifies this`store
      ensures store == old(store) - PtrsOf(kids)
      decreases PtrsOf(kids)
    {
      var c := c;
      ghost var rest, before := kids, prev;
      assert PtrsOf(kids) - PtrsOf(rest) == {};
      while c != NULL
        invariant c == First(rest) && Chain(store, before, rest)
        invariant PtrsOf(rest) <= PtrsOf(kids)
        invariant store == old(store) - (PtrsOf(kids) - PtrsOf(rest))
        decreases |rest|
      {
        ghost var st0, k := store, rest[0];
        ghost var freed := PtrsOf(kids) - PtrsOf(rest);
        HoldsPtrs(store, k);
        ChainPtrs(store, before, rest);
        var next := store[c].next;
        if store[c].child != NULL {
          assert k.p in PtrsOf(kids) && k.p !in PtrsOf(k.kids) && PtrsOf(k.kids) <= PtrsOf(kids);
          Delete(store[c].child, NULL, k.kids);
        } else {
          ChainPtrs(store, NULL, k.kids);
        }
        assert store == st0 - PtrsOf(k.kids);
        store := store - {c};
        assert store == st0 - Ptrs(k);
        ChainFrame(st0, store, k.p, rest[1..]);
        assert PtrsOf(kids) - PtrsOf(rest[1..]) == freed + Ptrs(k);
        c, rest, before := next, rest[1..], k.p;
      }
    }

    method ParseNumber(item: Ptr, text: string, pos: nat) returns (end: int)
      requires item in store && pos <= |text|
      requires At(text, pos) == '-' || S.IsDigit(At(text, pos))
      modifies this`store
      ensures var r := S.ParseNumber(text[pos..]);
              && Reports(r, text, end, ep, ep)
              && store == old(store)[item := old(store[item]).(
                   data := old(store[item]).data.(kind := KindNumber, mant := r.value.mant, exp := r.value.exp))]
    {
      hide S.ParseWhole, S.ParseFraction, S.ParseExponent;
      Drop(text, pos, 1);
      var negative := At(text, pos) == '-';
      var n, num := ParseWhole(text, if negative then pos + 1 else pos);
      var scale, subscale;
      n, scale, num := ParseFraction(text, num, n);
      subscale, num := ParseExponent(text, num);
      store := store[item := store[item].(data := store[item].data.(
        kind := KindNumber, mant := S.Signed(negative, n), exp := scale + subscale))];
      end := num;
    }

    method ParseString(item: Ptr, text: string, pos: nat) returns (end: int)
      requires item in store && pos <= |text| && !S.ParseString(text[pos..]).Overrun?
      modifies this`store, this`ep
      ensures var r := S.ParseString(text[pos..]);
              && Reports(r, text, end, ep, old(ep))
              && store == if r.Parsed? then old(store)[item := old(store[item]).(
                            data := old(store[item]).data.(kind := KindString, str := Some(r.value)))]
                          else old(store)
    {
      if At(text, pos) != '\"' {
        ep := pos;
        return FAIL;
      }
      Drop(text, pos, 1);
      var ptr, out, k := CopyString(text, pos + 1);
      store := store[item := store[item].(data := store[item].data.(kind := KindString, str := Some(out[..k])))];
      return ptr;
    }

    method ParseValue(item: Ptr, text: string, pos: nat) returns (end: int, ghost sh: Shape)
      requires item != NULL && item in store && store[item].child == NULL
      requires pos <= |text| && !S.ParseValue(text[pos..]).Overrun?
      modifies this`store, this`ep
      ensures var r := S.ParseValue(text[pos..]);
              Reports(r, text, end, ep, old(ep)) && (r.Parsed? ==> Value(sh) == r.value)
      ensures sh.p == item && sh.data.name == old(store[item].data.name) && Grown(old(store), store, sh)
      decreases |text| - pos, 2
    {
      hide S.ParseString, S.ParseNumber, S.ParseArray, S.ParseObject;
      ghost var st0 := store;
      if "null" <= text[pos..] {
        Drop(text, pos, 4);
        end := pos + 4;
        SetKind(item, KindNull);
      } else if "false" <= text[pos..] {
        Drop(text, pos, 5);
        end := pos + 5;
        SetKind(item, KindFalse);
      } else if "true" <= text[pos..] {
        Drop(text, pos, 4);
        end := pos + 4;
        SetKind(item, KindTrue);
      } else if At(text, pos) == '\"' {
        end := ParseString(item, text, pos);
      } else if At(text, pos) == '-' || S.IsDigit(At(text, pos)) {
        end := ParseNumber(item, text, pos);
      } else if At(text, pos) == '[' {
        end, sh := ParseArray(item, text, pos);
        return;
      } else if At(text, pos) == '{' {
        end, sh := ParseObject(item, text, pos);
        return;
      } else {
        ep := pos;
        end := FAIL;
      }
      sh := Shape(item, store[item].data, []);
      assert Holds(store, sh);
    }

    method SetKind(item: Ptr, kind: Kind)
      requires item in store
      modifies this`store
      ensures store == old(store)[item := old(store[item]).(data := old(store[item]).data.(kind := kind))]
    {
      store := store[item := store[item].(data := store[item].data.(kind := kind))];
    }

    method Hook(item: Ptr, last: Ptr) returns (n: Ptr)
      requires if last == NULL then item in store else last in store
      modifies this`store
      ensures n != NULL && n !in old(store) && store == Hooked(old(store), item, last, n)
    {
      n := NewItem();
      if last == NULL {
        store := store[item := store[item].(child := n)];
      } else {
        store := store[last := store[last].(next := n)];
        store := store[n := store[n].(prev := last)];
      }
    }

    method ParseArray(item: Ptr, text: string, pos: nat) returns (end: int, ghost sh: Shape)
      requires item != NULL && item in store && store[item].child == NULL
      requires pos <= |text| && At(text, pos) == '[' && !S.ParseArray(text[pos..]).Overrun?
      modifies this`store, this`ep
      ensures var r := S.ParseArray(text[pos..]);
              Reports(r, text, end, ep, old(ep)) && (r.Parsed? ==> Value(sh) == S.Array(r.value))
      ensures sh.p == item && sh.data.name == old(store[item].data.name) && Grown(old(store), store, sh)
      decreases |text| - pos, 1
    {
      hide S.ParseArray, S.ParseItems, S.ParseValue, S.ParseMember, S.Skip, Grown, Holds, Chain, Value, Values, Ptrs, PtrsOf;
      ghost var st0 := store;
      ArrayUnfolded(text[pos..]);
      SetKind(item, KindArray);
      sh := Shape(item, store[item].data, []);
      GrownByData(st0, item, store[item].data);
      ValueOf(sh);
      Drop(text, pos, 1);
      var value := Skip(text, pos + 1);
      if At(text, value) == ']' {
        Drop(text, value, 1);
        end := value + 1;
      } else {
        var start := Skip(text, value);
        var child;
        child, end, sh := ParseItem(item, NULL, text, start, st0, sh);
        if end != FAIL {
          value := Skip(text, end);
          end, sh := ParseMoreItems(item, child, text, value, st0, sh);
        }
      }
    }

    // The loop over further elements, from the text behind one.
    method ParseMoreItems(item: Ptr, last: Ptr, text: string, pos: nat, ghost st0: Store, ghost sh: Shape)
      returns (end: int, ghost sh': Shape)
      requires sh.p == item && sh.data.kind == KindArray && Grown(st0, store, sh)
      requires sh.kids != [] && last == Last(sh.kids)
      requires pos <= |text| && !S.ParseItems(text[pos..]).Overrun?
      modifies this`store, this`ep
      ensures Reports(S.ParseItems(text[pos..]), text, end, ep, old(ep))
      ensures S.ParseItems(text[pos..]).Parsed? ==>
                Value(sh') == S.Array(Values(sh.kids) + S.ParseItems(text[pos..]).value)
      ensures sh'.p == item && sh'.data == sh.data && Grown(st0, store, sh')
      decreases |text| - pos, 5
    {
      hide S.ParseValue, S.Skip, Grown, Holds, Chain, Value, Values, Ptrs, PtrsOf;
      var child, value := last, pos;
      sh' := sh;
      ghost var r := Join(Values(sh.kids), S.ParseItems(text[pos..]));
      while At(text, value) == ','
        invariant pos <= value <= |text| && sh'.p == item && sh'.data == sh.data && sh'.kids != []
        invariant child == Last(sh'.kids) && Grown(st0, store, sh') && ep == old(ep)
        invariant r == Join(Values(sh'.kids), S.ParseItems(text[value..]))
        decreases |text| - value
      {
        ItemsUnfolded(text[value..]);
        Drop(text, value, 1);
        var start := Skip(text, value + 1);
        ghost var before, v := Values(sh'.kids), S.ParseValue(text[start..]);
        child, end, sh' := ParseItem(item, child, text, start, st0, sh');
        if end == FAIL {
          return;
        }
        value := Skip(text, end);
        JoinChain(before, [v.value], S.ParseItems(text[value..]));
      }
      ValueOf(sh');
      if At(text, value) == ']' {
        Drop(text, value, 1);
        end := value + 1;
      } else {
        ep := value;
        end := FAIL;
      }
    }

    // The element at `start` goes into a new node at the end of the list.
    method ParseItem(item: Ptr, last: Ptr, text: string, start: nat, ghost st0: Store, ghost sh: Shape)
      returns (child: Ptr, after: int, ghost sh': Shape)
      requires sh.p == item && Grown(st0, store, sh) && last == LastOrNull(sh.kids)
      requires start <= |text| && !S.ParseValue(text[start..]).Overrun?
      modifies this`store, this`ep
      ensures var r := S.ParseValue(text[start..]);
              && Reports(r, text, after, ep, old(ep))
              && (r.Parsed? ==> Values(sh'.kids) == Values(sh.kids) + [r.value])
      ensures |sh'.kids| == |sh.kids| + 1 && sh' == sh.(kids := sh'.kids) && child == Last(sh'.kids)
      ensures Grown(st0, store, sh')
      decreases |text| - start, 3
    {
      ghost var st1 := store;
      LastHeld(st0, store, sh);
      child := Hook(item, last);
      ghost var k;
      after, k := ParseValue(child, text, start);
      GrownByHook(st0, st1, store, sh, k);
      ValuesSnoc(sh.kids, k);
      sh' := sh.(kids := sh.kids + [k]);
    }

    // The member at `start` goes into a new node at the end of the list.
    method ParseEntry(item: Ptr, last: Ptr, text: string, start: nat, ghost st0: Store, ghost sh: Shape)
      returns (child: Ptr, after: int, ghost sh': Shape)
      requires sh.p == item && Grown(st0, store, sh) && last == LastOrNull(sh.kids)
      requires start <= |text| && !S.ParseMember(text[start..]).Overrun?
      modifies this`store, this`ep
      ensures var r := S.ParseMember(text[start..]);
              && Reports(r, text, after, ep, old(ep))
              && (r.Parsed? ==> Members(sh'.kids) == Members(sh.kids) + [r.value])
      ensures |sh'.kids| == |sh.kids| + 1 && sh' == sh.(kids := sh'.kids) && child == Last(sh'.kids)
      ensures Grown(st0, store, sh')
      decreases |text| - start, 4
    {
      ghost var st1 := store;
      LastHeld(st0, store, sh);
      child := Hook(item, last);
      ghost var k;
      after, k := ParseMember(child, text, start);
      GrownByHook(st0, st1, store, sh, k);
      ValuesSnoc(sh.kids, k);
      sh' := sh.(kids := sh.kids + [k]);
    }

    // A name, a colon and a value, into one item.
    method ParseMember(child: Ptr, text: string, pos: nat) returns (end: int, ghost sh: Shape)
      requires child != NULL && child in store && store[child].child == NULL
      requires pos <= |text| && !S.ParseMember(text[pos..]).Overrun?
      modifies this`store, this`ep
      ensures var r := S.ParseMember(text[pos..]);
              && Reports(r, text, end, ep, old(ep))
              && (r.Parsed? ==> r.value == S.Member(sh.data.name, Value(sh)))
      ensures sh.p == child && Grown(old(store), store, sh)
      decreases |text| - pos, 3
    {
      hide S.ParseString, S.ParseValue, S.ParseMember, S.Skip, Holds, Chain, Grown, Value, Ptrs, PtrsOf;
      ghost var st0 := store;
      MemberUnfolded(text[pos..]);
      end := ParseString(child, text, pos);
      SameData(st0, child);
      sh := Shape(child, st0[child].data, []);
      if end != FAIL {
        var data := store[child].data;
        store := store[child := store[child].(data := data.(name := data.str, str := None))];
        ghost var st1 := store;
        assert store == st0[child := st0[child].(data := store[child].data)];
        GrownByData(st0, child, store[child].data);
        sh := Shape(child, store[child].data, []);
        var value := Skip(text, end);
        if At(text, value) == ':' {
          Drop(text, value, 1);
          var start := Skip(text, value + 1);
          end, sh := ParseValue(child, text, start);
          GrownFrom(st0, st1, store, sh);
        } else {
          ep := value;
          end := FAIL;
        }
      }
    }

    method ParseObject(item: Ptr, text: string, pos: nat) returns (end: int, ghost sh: Shape)
      requires item != NULL && item in store && store[item].child == NULL
      requires pos <= |text| && At(text, pos) == '{' && !S.ParseObject(text[pos..]).Overrun?
      modifies this`store, this`ep
      ensures var r := S.ParseObject(text[pos..]);
              Reports(r, text, end, ep, old(ep)) && (r.Parsed? ==> Value(sh) == S.Object(r.value))
      ensures sh.p == item && sh.data.name == old(store[item].data.name) && Grown(old(store), store, sh)
      decreases |text| - pos, 1
    {
      hide S.ParseObject, S.ParseMembers, S.ParseValue, S.ParseMember, S.Skip, Grown, Holds, Chain, Value, Members, Ptrs, PtrsOf;
      ghost var st0 := store;
      ObjectUnfolded(text[pos..]);
      SetKind(item, KindObject);
      sh := Shape(item, store[item].data, []);
      GrownByData(st0, item, store[item].data);
      ValueOf(sh);
      Drop(text, pos, 1);
      var value := Skip(text, pos + 1);
      if At(text, value) == '}' {
        Drop(text, value, 1);
        end := value + 1;
      } else {
        var start := Skip(text, value);
        var child;
        child, end, sh := ParseEntry(item, NULL, text, start, st0, sh);
        if end != FAIL {
          value := Skip(text, end);
          end, sh := ParseMoreMembers(item, child, text, value, st0, sh);
        }
      }
    }

    // The loop over further elements, from the text behind one.
    method ParseMoreMembers(item: Ptr, last: Ptr, text: string, pos: nat, ghost st0: Store, ghost sh: Shape)
      returns (end: int, ghost sh': Shape)
      requires sh.p == item && sh.data.kind == KindObject && Grown(st0, store, sh)
      requires sh.kids != [] && last == Last(sh.kids)
      requires pos <= |text| && !S.ParseMembers(text[pos..]).Overrun?
      modifies this`store, this`ep
      ensures Reports(S.ParseMembers(text[pos..]), text, end, ep, old(ep))
      ensures S.ParseMembers(text[pos..]).Parsed? ==>
                Value(sh') == S.Object(Members(sh.kids) + S.ParseMembers(text[pos..]).value)
      ensures sh'.p == item && sh'.data == sh.data && Grown(st0, store, sh')
      decreases |text| - pos, 5
    {
      hide S.ParseMember, S.Skip, Grown, Holds, Chain, Value, Members, Ptrs, PtrsOf;
      var child, value := last, pos;
      sh' := sh;
      ghost var r := Join(Members(sh.kids), S.ParseMembers(text[pos..]));
      while At(text, value) == ','
        invariant pos <= value <= |text| && sh'.p == item && sh'.data == sh.data && sh'.kids != []
        invariant child == Last(sh'.kids) && Grown(st0, store, sh') && ep == old(ep)
        invariant r == Join(Members(sh'.kids), S.ParseMembers(text[value..]))
        decreases |text| - value
      {
        MembersUnfolded(text[value..]);
        Drop(text, value, 1);
        var start := Skip(text, value + 1);
        ghost var before, v := Members(sh'.kids), S.ParseMember(text[start..]);
        child, end, sh' := ParseEntry(item, child, text, start, st0, sh');
        if end == FAIL {
          return;
        }
        value := Skip(text, end);
        JoinChain(before, [v.value], S.ParseMembers(text[value..]));
      }
      ValueOf(sh');
      if At(text, value) == '}' {
        Drop(text, value, 1);
        end := value + 1;
      } else {
        ep := value;
        end := FAIL;
      }
    }

    // A failed parse gives back every item it allocated.
    method ParseWithOpts(text: string, requireEnd: bool) returns (c: Ptr, end: int, ghost sh: Shape)
      requires NULL !in store && !S.ParseDocument(text, requireEnd).Overrun?
      modifies this`store, this`ep
      ensures var r := S.ParseDocument(text, requireEnd);
              && Reports(r, text, end, ep, FAIL)
              && (r.Parsed? ==> c == sh.p && Value(sh) == r.value && NewTree(old(store), store, sh))
              && (!r.Parsed? ==> c == NULL && store == old(store))
    {
      ghost var st0 := store;
      c := NewItem();
      ghost var st1 := store;
      ep := FAIL;
      assert text[0..] == text;
      var start := Skip(text, 0);
      end, sh := ParseValue(c, text, start);
      NewTreeGrown(st0, st1, store, sh);
      hide S.ParseValue, Holds, Chain, Grown, Value;
      if end == FAIL {
        Delete(c, NULL, [sh]);
        return NULL, FAIL, sh;
      }
      if requireEnd {
        end := Skip(text, end);
        if end < |text| {
          Delete(c, NULL, [sh]);
          ep := end;
          return NULL, FAIL, sh;
        }
      }
    }
  }

  // From st0 to st, the tree sh of fresh items has come, and nothing else has changed.
  ghost predicate NewTree(st0: Store, st: Store, sh: Shape) {
    && Holds(st, sh)
    && st[sh.p].next == st[sh.p].prev == NULL
    && Ptrs(sh) !! st0.Keys
    && st - Ptrs(sh) == st0
  }

  lemma NewTreeGrown(st0: Store, st1: Store, st: Store, sh: Shape)
    requires sh.p !in st0 && st1 == st0[sh.p := ZEROED] && Grown(st1, st, sh)
    ensures NewTree(st0, st, sh)
    ensures Chain(st, NULL, [sh]) && PtrsOf([sh]) == Ptrs(sh)
  {
    Alone(st, sh);
  }
}
