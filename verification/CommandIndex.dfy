/**
 The AT command table: items hashed by name into 32 circular doubly linked lists that share the
 list links inside the items.
 */
module CommandIndex {
  import opened Options

  const ATC_INDEX_NUM := 32
  const SEED := 131
  const WORD := 0x1_0000_0000

  datatype Item = Item(logCmd: string, atAct: nat)

  // A list link. A link of a registered item leads back to that item; a bucket head has no item,
  // and its entry is never looked at.
  class ListHead {
    var next: ListHead
    var prev: ListHead
    const entry: Item

    constructor (entry: Item)
      ensures next == this && prev == this && this.entry == entry
    {
      next, prev := this, this;
      this.entry := entry;
    }

    method Init()
      modifies this
      ensures next == this && prev == this
    {
      next, prev := this, this;
    }
  }

  ghost predicate Distinct(xs: seq<ListHead>) {
    forall i, j :: 0 <= i < j < |xs| ==> xs[i] != xs[j]
  }

  lemma DistinctSnoc(xs: seq<ListHead>, x: ListHead)
    requires Distinct(xs) && x !in xs
    ensures Distinct(xs + [x])
  {}

  // Each link of p points to the one behind it, and that one points back.
  ghost predicate Linked(p: seq<ListHead>)
    reads p
  {
    forall i :: 0 <= i < |p| - 1 ==> p[i].next == p[i + 1] && p[i + 1].prev == p[i]
  }

  // head and xs, in this order, form a ring in both directions.
  ghost predicate Circle(head: ListHead, xs: seq<ListHead>)
    reads head, xs
  {
    Linked([head] + xs + [head])
  }

  lemma CircleNext(head: ListHead, xs: seq<ListHead>)
    requires Circle(head, xs)
    ensures head.next == if xs == [] then head else xs[0]
    ensures forall i :: 0 <= i < |xs| ==> xs[i].next == if i + 1 < |xs| then xs[i + 1] else head
  {
    var p := [head] + xs + [head];
    assert p[0].next == p[1];
    forall i | 0 <= i < |xs|
      ensures xs[i].next == if i + 1 < |xs| then xs[i + 1] else head
    {
      assert xs[i] == p[i + 1] && p[i + 1].next == p[i + 2];
    }
  }

  method ListAdd(newItem: ListHead, head: ListHead, ghost xs: seq<ListHead>)
    requires Circle(head, xs) && newItem != head && newItem !in xs && head !in xs && Distinct(xs)
    modifies newItem, head, head.next
    ensures Circle(head, [newItem] + xs)
  {
    ghost var p := [head] + xs + [head];
    assert p[0].next == p[1];
    ListAddBetween(newItem, head, head.next);
    ghost var q := [head] + ([newItem] + xs) + [head];
    forall i | 0 <= i < |q| - 1
      ensures q[i].next == q[i + 1] && q[i + 1].prev == q[i]
    {
      assert i >= 1 ==> q[i + 1] == p[i];
      assert i >= 2 ==> q[i] == p[i - 1] && old(p[i - 1].next == p[i] && p[i].prev == p[i - 1]);
    }
  }

  method ListAddBetween(newItem: ListHead, prev: ListHead, next: ListHead)
    requires newItem != prev && newItem != next
    modifies newItem, prev, next
    ensures next.prev == newItem && newItem.next == next && newItem.prev == prev && prev.next == newItem
    ensures prev != next ==> next.next == old(next.next) && prev.prev == old(prev.prev)
  {
    next.prev := newItem;
    newItem.next := next;
    newItem.prev := prev;
    prev.next := newItem;
  }

  /// Hashing

  function Hash(s: string): (h: nat)
    ensures h < WORD
  {
    if s == [] then 0 else (Hash(s[..|s| - 1]) * SEED + s[|s| - 1] as nat) % WORD
  }

  function Power(n: nat): nat {
    if n == 0 then 1 else SEED * Power(n - 1)
  }

  // The characters as the digits of a number to the base 131.
  function Polynomial(s: string): nat {
    if s == [] then 0 else s[0] as nat * Power(|s| - 1) + Polynomial(s[1..])
  }

  lemma {:induction false} PolynomialSnoc(s: string)
    requires s != []
    ensures Polynomial(s) == Polynomial(s[..|s| - 1]) * SEED + s[|s| - 1] as nat
  {
    if |s| == 1 {
      assert s[1..] == [] && s[..0] == [];
    } else {
      var front, n, c := s[..|s| - 1], |s| - 1, s[0] as nat;
      PolynomialSnoc(s[1..]);
      assert s[1..][..n - 1] == front[1..] && s[1..][n - 1] == s[n];
      Digit(c, Power(n - 1), Polynomial(front[1..]), s[n] as nat);
    }
  }

  lemma Digit(c: nat, p: nat, rest: nat, last: nat)
    ensures c * (SEED * p) + (rest * SEED + last) == (c * p + rest) * SEED + last
  {}

  lemma WrapStep(x: nat, y: nat)
    ensures (x % WORD * SEED + y) % WORD == (x * SEED + y) % WORD
  {
    assert x == WORD * (x / WORD) + x % WORD;
    assert x * SEED + y == WORD * (x / WORD * SEED) + (x % WORD * SEED + y);
    Multiple(x / WORD * SEED, x % WORD * SEED + y);
  }

  lemma Multiple(q: nat, r: nat)
    ensures (WORD * q + r) % WORD == r % WORD
  {}

  lemma {:induction false} HashIsPolynomial(s: string)
    ensures Hash(s) == Polynomial(s) % WORD
  {
    if s != [] {
      var n := |s| - 1;
      HashIsPolynomial(s[..n]);
      PolynomialSnoc(s);
      WrapStep(Polynomial(s[..n]), s[n] as nat);
    }
  }

  function Index(s: string): (i: nat)
    ensures i < ATC_INDEX_NUM
  {
    Hash(s) % 0x8000_0000 % ATC_INDEX_NUM
  }

  method HashIndex(str: string) returns (index: nat)
    ensures index == Polynomial(str) % WORD % 0x8000_0000 && index == Hash(str) % 0x8000_0000
  {
    var hash, k := 0, 0;
    while k < |str|
      invariant k <= |str| && hash == Hash(str[..k])
    {
      assert str[..k + 1][..k] == str[..k];
      hash := (hash * SEED + str[k] as nat) % WORD;
      k := k + 1;
    }
    assert str[..k] == str;
    HashIsPolynomial(str);
    index := hash % 0x8000_0000;
  }

  /// What the table should answer

  // Linear search through everything ever registered, the most recent first.
  function Search(history: seq<ListHead>, cmd: string): Option<nat> {
    if history == [] then None
    else
      var last := history[|history| - 1].entry;
      if last.logCmd == cmd then Some(last.atAct) else Search(history[..|history| - 1], cmd)
  }

  // The registered items of one bucket, the most recent first.
  function InBucket(history: seq<ListHead>, b: nat): (xs: seq<ListHead>)
    ensures forall i :: 0 <= i < |xs| ==> xs[i] in history && Index(xs[i].entry.logCmd) == b
  {
    if history == [] then []
    else
      var rest, last := history[..|history| - 1], history[|history| - 1];
      (if Index(last.entry.logCmd) == b then [last] else []) + InBucket(rest, b)
  }

  function FirstMatch(xs: seq<ListHead>, cmd: string): Option<nat> {
    if xs == [] then None
    else if xs[0].entry.logCmd == cmd then Some(xs[0].entry.atAct)
    else FirstMatch(xs[1..], cmd)
  }

  // Looking in the one bucket that the name hashes to is as good as looking everywhere.
  lemma {:induction false} BucketSuffices(history: seq<ListHead>, cmd: string)
    ensures FirstMatch(InBucket(history, Index(cmd)), cmd) == Search(history, cmd)
  {
    if history != [] {
      var rest, last := history[..|history| - 1], history[|history| - 1];
      BucketSuffices(rest, cmd);
      if Index(last.entry.logCmd) == Index(cmd) {
        var xs := InBucket(history, Index(cmd));
        assert xs == [last] + InBucket(rest, Index(cmd));
        assert xs[1..] == InBucket(rest, Index(cmd));
      } else {
        assert InBucket(history, Index(cmd)) == InBucket(rest, Index(cmd));
      }
    }
  }

  lemma {:induction false} BucketDistinct(history: seq<ListHead>, b: nat)
    requires Distinct(history)
    ensures Distinct(InBucket(history, b))
  {
    if history != [] {
      BucketDistinct(history[..|history| - 1], b);
    }
  }

  lemma InBucketStep(history: seq<ListHead>, item: ListHead, b: nat)
    ensures InBucket(history + [item], b) ==
            if Index(item.entry.logCmd) == b then [item] + InBucket(history, b) else InBucket(history, b)
  {
    assert (history + [item])[..|history|] == history;
  }

  // What is touched when an item enters one bucket belongs to no other.
  lemma BucketsApart(history: seq<ListHead>, heads: seq<ListHead>, item: ListHead, index: nat, b: nat, next: ListHead)
    requires Distinct(heads) && index < |heads| && b < |heads| && b != index
    requires forall k :: 0 <= k < |heads| ==> heads[k] !in history
    requires item !in history && item !in heads
    requires next == heads[index] || next in InBucket(history, index)
    ensures heads[b] !in {item, heads[index], next}
    ensures forall i :: 0 <= i < |InBucket(history, b)| ==> InBucket(history, b)[i] !in {item, heads[index], next}
  {
    hide InBucket, Index;
  }

  class LogService {
    const logHash: seq<ListHead>
    // The items in the order they were registered.
    ghost var history: seq<ListHead>

    ghost predicate Valid()
      reads this, logHash, history
    {
      && |logHash| == ATC_INDEX_NUM && Distinct(history) && Distinct(logHash)
      && (forall b :: 0 <= b < ATC_INDEX_NUM ==> logHash[b] !in history)
      && (forall b :: 0 <= b < ATC_INDEX_NUM ==> Circle(logHash[b], InBucket(history, b)))
    }

    constructor (heads: seq<ListHead>)
      requires |heads| == ATC_INDEX_NUM && Distinct(heads)
      modifies heads
      ensures Valid() && history == [] && logHash == heads
    {
      logHash := heads;
      history := [];
      new;
      var i := 0;
      while i < ATC_INDEX_NUM
        invariant i <= ATC_INDEX_NUM && logHash == heads
        invariant forall b :: 0 <= b < i ==> logHash[b].next == logHash[b] && logHash[b].prev == logHash[b]
        modifies heads
      {
        logHash[i].Init();
        i := i + 1;
      }
    }

    method Hang(item: ListHead, index: nat)
      requires Valid() && item !in history && item !in logHash && index < ATC_INDEX_NUM
      modifies item, logHash, history
      ensures forall b :: 0 <= b < ATC_INDEX_NUM ==>
                Circle(logHash[b], if b == index then [item] + InBucket(history, b) else InBucket(history, b))
    {
      ghost var xs := InBucket(history, index);
      BucketDistinct(history, index);
      hide Circle, InBucket, Index, Hash, Distinct;
      var head := logHash[index];
      CircleNext(head, xs);
      ghost var next := head.next;
      ListAdd(item, head, xs);
      forall b | 0 <= b < ATC_INDEX_NUM && b != index
        ensures Circle(logHash[b], InBucket(history, b))
      {
        BucketsApart(history, logHash, item, index, b, next);
        assert old(Circle(logHash[b], InBucket(history, b)));
      }
    }

    method AddNewCommand(item: ListHead)
      requires Valid() && item !in history && item !in logHash
      modifies this, item, logHash, history
      ensures Valid() && history == old(history) + [item]
    {
      hide Circle, InBucket, Hash, Distinct;
      var hash := HashIndex(item.entry.logCmd);
      var index := hash % ATC_INDEX_NUM;
      assert index == Index(item.entry.logCmd);
      hide Index;
      DistinctSnoc(history, item);
      Hang(item, index);
      history := history + [item];
      forall b | 0 <= b < ATC_INDEX_NUM
        ensures Circle(logHash[b], InBucket(history, b))
      {
        InBucketStep(old(history), item, b);
      }
    }

    method AddTable(tbl: seq<ListHead>)
      requires Valid() && Distinct(tbl) && forall x :: x in tbl ==> x !in history && x !in logHash
      modifies this, tbl, logHash, history
      ensures Valid() && history == old(history) + tbl
    {
      var i := 0;
      while i < |tbl|
        invariant i <= |tbl| && Valid() && history == old(history) + tbl[..i]
      {
        AddNewCommand(tbl[i]);
        assert tbl[..i + 1] == tbl[..i] + [tbl[i]];
        i := i + 1;
      }
    }

    method LogAction(cmd: string) returns (act: Option<nat>)
      requires Valid()
      ensures act == Search(history, cmd)
    {
      var hash := HashIndex(cmd);
      var head := logHash[hash % ATC_INDEX_NUM];
      ghost var xs := InBucket(history, Index(cmd));
      BucketSuffices(history, cmd);
      CircleNext(head, xs);
      act := None;
      var pos := head.next;
      ghost var k := 0;
      hide Circle, InBucket, Search, Index, Hash;
      while pos != head
        invariant k <= |xs| && pos == (if k < |xs| then xs[k] else head)
        invariant act == None && FirstMatch(xs[k..], cmd) == Search(history, cmd)
        decreases |xs| - k
      {
        if pos.entry.logCmd == cmd {
          act := Some(pos.entry.atAct);
          break;
        }
        pos := pos.next;
        k := k + 1;
      }
    }
  }
}
