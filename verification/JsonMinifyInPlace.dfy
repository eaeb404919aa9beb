/** cJSON_Minify: one buffer, read and rewritten in place by two pointers. */
module JsonMinifyInPlace {
  import opened Options
  import opened Sequences
  import opened JsonSyntax

  method SkipLine(json: array<char>, from: nat, ghost len: nat) returns (p: nat)
    requires from <= len < json.Length && json[len] == '\0' && '\0' !in json[from..len]
    ensures from <= p <= len && json[p..len] == DropLine(json[from..len])
  {
    p := from;
    while json[p] != '\0' && json[p] != '\n'
      invariant from <= p <= len && DropLine(json[p..len]) == DropLine(json[from..len])
      decreases len - p
    {
      assert json[p..len][1..] == json[p + 1..len];
      p := p + 1;
    }
    if p < len {
      assert json[p] == json[from..len][p - from];
      assert json[p] != '\0';
    }
  }

  method SkipBlock(json: array<char>, from: nat, ghost len: nat) returns (p: nat)
    requires from <= len < json.Length && json[len] == '\0' && '\0' !in json[from..len]
    requires DropBlock(json[from..len]).Some?
    ensures from <= p <= len && Some(json[p..len]) == DropBlock(json[from..len])
  {
    p := from;
    while json[p] != '\0' && !(json[p] == '*' && json[p + 1] == '/')
      invariant from <= p <= len && DropBlock(json[p..len]) == DropBlock(json[from..len])
      decreases len - p
    {
      ghost var s := json[p..len];
      assert s[0] == json[p] && s[1..] == json[p + 1..len];
      assert !("*/" <= s) by {
        if |s| > 1 {
          assert s[1] == json[p + 1];
        }
      }
      p := p + 1;
    }
    ghost var s := json[p..len];
    assert s != "";
    assert s[0] == json[from..len][p - from] != '\0';
    assert p + 1 < len && s[1] == json[p + 1];
    assert s[2..] == json[p + 2..len];
    p := p + 2;
  }

  // *into++ = *json++
  method Move(json: array<char>, p: nat, into: nat)
    requires into <= p < json.Length
    modifies json
    ensures json[..into + 1] == old(json[..into]) + [old(json[p])]
    ensures forall k | p < k < json.Length :: json[k] == old(json[k])
  {
    json[into] := json[p];
  }

  lemma LiteralStep(s: string)
    requires CopyLiteral(s).Some?
    ensures s != ""
    ensures if s[0] == '\"' then CopyLiteral(s) == Some(("\"", s[1..]))
            else
              var k := if s[0] == '\\' then 2 else 1;
              && |s| >= k && CopyLiteral(s[k..]).Some?
              && CopyLiteral(s).value == (s[..k] + CopyLiteral(s[k..]).value.0, CopyLiteral(s[k..]).value.1)
  {}

  // What is written and what is still to be copied make up the whole literal.
  ghost predicate Copying(written: string, s: string, whole: string, rest: string) {
    CopyLiteral(s).Some? && written + CopyLiteral(s).value.0 == whole && CopyLiteral(s).value.1 == rest
  }

  lemma CopyingStep(written: string, s: string, whole: string, rest: string)
    requires Copying(written, s, whole, rest) && s != "" && s[0] != '\"'
    ensures var k := if s[0] == '\\' then 2 else 1;
            |s| >= k && Copying(written + s[..k], s[k..], whole, rest)
  {
    LiteralStep(s);
    var k := if s[0] == '\\' then 2 else 1;
    assert written + (s[..k] + CopyLiteral(s[k..]).value.0) == (written + s[..k]) + CopyLiteral(s[k..]).value.0;
  }

  // One character of a literal, or two if it is escaped.
  method MoveChar(json: array<char>, from: nat, into0: nat, ghost text: string) returns (p: nat, into: nat)
    requires into0 <= from < |text| < json.Length && (text[from] == '\\' ==> from + 1 < |text|)
    requires forall k | from <= k < |text| :: json[k] == text[k]
    modifies json
    ensures var n := if text[from] == '\\' then 2 else 1;
            p == from + n && into == into0 + n && json[..into] == old(json[..into0]) + text[from..][..n]
    ensures forall k | p <= k < json.Length :: json[k] == old(json[k])
  {
    TextPieces(text, from);
    ghost var w := json[..into0];
    p, into := from, into0;
    if json[p] == '\\' {
      Move(json, p, into);
      p, into := p + 1, into + 1;
      assert json[p] == text[p] && json[..into] == w + [text[from]];
    }
    Move(json, p, into);
    p, into := p + 1, into + 1;
  }

  // Moves the rest of a string literal, from behind its opening quote, down to `into`.
  method MoveLiteral(json: array<char>, from: nat, into0: nat, ghost len: nat) returns (p: nat, into: nat)
    requires into0 <= from <= len < json.Length && json[len] == '\0' && '\0' !in json[from..len]
    requires CopyLiteral(json[from..len]).Some?
    modifies json
    ensures var r := CopyLiteral(old(json[from..len])).value;
            && from <= p <= len && into <= p && old(json[p..len]) == r.1
            && json[..into] == old(json[..into0]) + r.0
    ensures forall k | p <= k < json.Length :: json[k] == old(json[k])
  {
    hide CopyLiteral, Copying;
    p, into := from, into0;
    ghost var text, r := json[..len], CopyLiteral(json[from..len]).value;
    ghost var whole := json[..into0] + r.0;
    assert text[from..] == json[from..len];
    StartCopying(json[..into0], text[from..]);
    while json[p] != '\0' && json[p] != '\"'
      invariant from <= p <= len && into <= p
      invariant forall k | p <= k < json.Length :: json[k] == old(json[k])
      invariant Copying(json[..into], text[p..], whole, r.1)
      decreases len - p
    {
      assert p < len && json[p] == text[p] == text[p..][0] by { assert json[len] == '\0'; }
      CopyingStep(json[..into], text[p..], whole, r.1);
      hide Copying;
      TextPieces(text, p);
      p, into := MoveChar(json, p, into, text);
    }
    EndCopying(json[..into], text[p..], whole, r.1);
    assert json[p] == text[p..][0] == old(json[from..len])[p - from] != '\0';
    assert text[p..][1..] == text[p + 1..];
    Move(json, p, into);
    p, into := p + 1, into + 1;
    assert text[p..] == old(json[p..len]);
  }

  lemma TextPieces(text: string, p: nat)
    requires p < |text|
    ensures text[p..][..1] == [text[p]] && text[p..][1..] == text[p + 1..]
    ensures p + 1 < |text| ==> text[p..][..2] == [text[p], text[p + 1]] && text[p..][2..] == text[p + 2..]
  {}

  lemma StartCopying(written: string, s: string)
    requires CopyLiteral(s).Some?
    ensures Copying(written, s, written + CopyLiteral(s).value.0, CopyLiteral(s).value.1)
  {}

  lemma EndCopying(written: string, s: string, whole: string, rest: string)
    requires Copying(written, s, whole, rest)
    ensures s != "" && (s[0] == '\"' ==> written + "\"" == whole && s[1..] == rest)
  {
    LiteralStep(s);
  }

  // What is written and what is still to be minified make up the whole result.
  ghost predicate Minifying(written: string, s: string, whole: string) {
    Minify(s).Some? && written + Minify(s).value == whole
  }

  lemma MinifyingStep(written: string, s: string, whole: string)
    requires Minifying(written, s, whole) && s != ""
    ensures if s[0] in {' ', '\t', '\r', '\n'} then Minifying(written, s[1..], whole)
            else if "//" <= s then Minifying(written, DropLine(s), whole)
            else if "/*" <= s then DropBlock(s).Some? && Minifying(written, DropBlock(s).value, whole)
            else if s[0] == '\"' then
              && CopyLiteral(s[1..]).Some?
              && Minifying(written + "\"" + CopyLiteral(s[1..]).value.0, CopyLiteral(s[1..]).value.1, whole)
            else Minifying(written + [s[0]], s[1..], whole)
  {
    if s[0] in {' ', '\t', '\r', '\n'} || "//" <= s || "/*" <= s {
      MinifiedGap(s);
    } else if s[0] == '\"' {
      MinifiedQuote(s);
      var (lit, r) := CopyLiteral(s[1..]).value;
      hide Minify, CopyLiteral;
      MinifiedLiteral(s, lit, r);
      Regroup3(written, "\"", lit, Minify(r).value);
    } else {
      MinifiedOther(s);
      hide Minify;
      Assoc(written, [s[0]], Minify(s[1..]).value);
    }
  }

  lemma MinifiedGap(s: string)
    requires Minify(s).Some? && s != ""
    ensures s[0] in {' ', '\t', '\r', '\n'} ==> Minify(s) == Minify(s[1..])
    ensures "//" <= s ==> Minify(s) == Minify(DropLine(s))
    ensures "/*" <= s ==> DropBlock(s).Some? && Minify(s) == Minify(DropBlock(s).value)
  {}

  lemma MinifiedQuote(s: string)
    requires Minify(s).Some? && s != "" && s[0] == '\"'
    ensures CopyLiteral(s[1..]).Some?
  {}

  lemma MinifiedLiteral(s: string, lit: string, r: string)
    requires Minify(s).Some? && s != "" && s[0] == '\"' && CopyLiteral(s[1..]) == Some((lit, r))
    ensures Minify(r).Some? && Minify(s).value == "\"" + lit + Minify(r).value
  {}

  lemma MinifiedOther(s: string)
    requires Minify(s).Some? && s != "" && s[0] !in {' ', '\t', '\r', '\n', '\"'} && !("//" <= s) && !("/*" <= s)
    ensures Minify(s[1..]).Some? && Minify(s).value == [s[0]] + Minify(s[1..]).value
  {}

  lemma Regroup3(a: string, b: string, c: string, d: string)
    ensures a + (b + c + d) == (a + b + c) + d
  {}

  // The same with the opening quote.
  method MoveString(json: array<char>, from: nat, into0: nat, ghost len: nat) returns (p: nat, into: nat)
    requires into0 <= from < len < json.Length && json[len] == '\0' && '\0' !in json[from..len]
    requires json[from] == '\"' && CopyLiteral(json[from + 1..len]).Some?
    modifies json
    ensures var r := CopyLiteral(old(json[from + 1..len])).value;
            && from <= p <= len && into <= p && json[p..len] == r.1
            && json[..into] == old(json[..into0]) + "\"" + r.0
    ensures forall k | p <= k < json.Length :: json[k] == old(json[k])
  {
    ghost var rest := json[from + 1..len];
    assert forall k | 0 <= k < |rest| :: rest[k] == json[from..len][k + 1];
    hide CopyLiteral;
    Move(json, from, into0);
    assert json[from + 1..len] == rest;
    p, into := MoveLiteral(json, from + 1, into0 + 1, len);
    assert json[p..len] == old(json[p..len]);
  }

  // Up to p the text has been read, up to into its minified form has been written.
  ghost predicate Halfway(json: array<char>, before: seq<char>, len: nat, whole: string, p: nat, into: nat)
    reads json
  {
    && into <= p <= len < json.Length == |before| && before[len] == '\0' && '\0' !in before[..len]
    && json[p..] == before[p..]
    && Minifying(json[..into], before[p..len], whole)
  }

  // One round of the loop.
  method MinifyRound(json: array<char>, from: nat, into0: nat, ghost before: seq<char>, ghost len: nat, ghost whole: string)
    returns (p: nat, into: nat)
    requires Halfway(json, before, len, whole, from, into0) && from < len
    modifies json
    ensures Halfway(json, before, len, whole, p, into) && p > from
  {
    p, into := from, into0;
    ghost var s := before[p..len];
    RestOfText(json, before, len, p);
    MinifyingStep(json[..into], s, whole);
    hide Halfway, Minifying, CopyLiteral, DropLine, DropBlock;
    if json[p] == ' ' || json[p] == '\t' || json[p] == '\r' || json[p] == '\n' {
      p := p + 1;
      Onward(json, before, len, whole, from, p, into);
    } else if json[p] == '/' && json[p + 1] == '/' {
      p := SkipLine(json, p, len);
      Onward(json, before, len, whole, from, p, into);
    } else if json[p] == '/' && json[p + 1] == '*' {
      p := SkipBlock(json, p, len);
      Onward(json, before, len, whole, from, p, into);
    } else if json[p] == '\"' {
      p, into := MoveString(json, p, into, len);
      Onward(json, before, len, whole, from, p, into);
    } else {
      Move(json, p, into);
      p, into := p + 1, into + 1;
      assert json[p..len] == s[1..];
      Onward(json, before, len, whole, from, p, into);
    }
  }

  lemma Onward(json: array<char>, before: seq<char>, len: nat, whole: string, from: nat, p: nat, into: nat)
    requires into <= p && from < p <= len < json.Length == |before| && before[len] == '\0' && '\0' !in before[..len]
    requires forall k | p <= k < json.Length :: json[k] == before[k]
    requires Minifying(json[..into], json[p..len], whole)
    ensures Halfway(json, before, len, whole, p, into)
  {
    hide Minifying;
    assert json[p..] == before[p..] && json[p..len] == before[p..len];
  }

  lemma RestOfText(json: array<char>, before: seq<char>, len: nat, p: nat)
    requires p < len < json.Length == |before| && before[len] == '\0' && '\0' !in before[..len] && json[p..] == before[p..]
    ensures var s := before[p..len];
            && json[p..len] == s && s[1..] == before[p + 1..len] == json[p + 1..len] && s[0] == json[p]
            && '\0' !in s && json[len] == '\0' && s[0] != '\0'
            && (json[p + 1] == '\0' <==> p + 1 == len) && (p + 1 < len ==> s[1] == json[p + 1])
    ensures forall k | p <= k < json.Length :: json[k] == before[k]
  {
    assert forall k | p <= k < json.Length :: json[k] == json[p..][k - p] == before[k];
    assert forall k | p <= k < len :: before[k] == before[..len][k];
  }

  // The text up to the NUL becomes its minified form, with a NUL behind it.
  method MinifyInPlace(json: array<char>, ghost len: nat)
    requires len < json.Length && json[len] == '\0' && '\0' !in json[..len]
    requires Minify(json[..len]).Some?
    modifies json
    ensures var m := Minify(old(json[..len])).value;
            |m| <= len && json[..|m|] == m && json[|m|] == '\0'
    ensures forall k | len < k < json.Length :: json[k] == old(json[k])
  {
    ghost var before, whole := json[..], Minify(json[..len]).value;
    StartMinifying(json[..len]);
    assert before[0..len] == json[..len] == before[..len];
    var p, into := 0, 0;
    while json[p] != '\0'
      invariant 0 <= into <= p <= len && Halfway(json, before, len, whole, p, into)
      decreases len - p
    {
      assert p < len by { assert json[p] == json[p..][0] == before[p]; }
      p, into := MinifyRound(json, p, into, before, len, whole);
    }
    assert p == len by { assert json[p] == json[p..][0] == before[p]; }
    EndMinifying(json[..into], whole);
    json[into] := '\0';
    assert forall k | len < k < json.Length :: json[k] == json[p..][k - p];
  }

  lemma StartMinifying(s: string)
    requires Minify(s).Some?
    ensures Minifying("", s, Minify(s).value)
  {}

  lemma EndMinifying(written: string, whole: string)
    requires Minifying(written, "", whole)
    ensures written == whole
  {}
}
