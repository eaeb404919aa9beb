/**
 The lists that the connection nodes of the AT socket commands form: slots of a fixed pool threaded
 into one main list of servers and clients, and for every server into a list of its seeds (accepted
 connections). What every step of the pool does to the lists, and that their shape survives it.
 */
module NodeLists {
  // A null pointer, a free slot's id and an invalid socket are all -1.
  const NIL := -1
  const TCP := 0
  const UDP := 1
  const SERVER := 0
  const CLIENT := 1
  const SEED := 2

  datatype Node = Node(conId: int, sockfd: int, role: int, protocol: int, addr: nat, port: nat, task: int,
                       next: int, nextseed: int)

  // Where a slot stands: a created node floats until it is hung.
  datatype Place = Free | Floating | Head | Main | Seed(server: nat)

  /// Chains

  predicate NoDup(p: seq<nat>) {
    forall i, j :: 0 <= i < j < |p| ==> p[i] != p[j]
  }

  function After(p: seq<nat>, k: nat): int {
    if k + 1 < |p| then p[k + 1] else NIL
  }

  // Following the links from p[0] visits p and then ends.
  ghost predicate Chain(links: seq<int>, p: seq<nat>) {
    forall k :: 0 <= k < |p| ==> p[k] < |links| && links[p[k]] == After(p, k)
  }

  function Nexts(s: seq<Node>): (l: seq<int>)
    ensures |l| == |s|
  {
    seq(|s|, i requires 0 <= i < |s| => s[i].next)
  }

  function NextSeeds(s: seq<Node>): (l: seq<int>)
    ensures |l| == |s|
  {
    seq(|s|, i requires 0 <= i < |s| => s[i].nextseed)
  }

  function Without(p: seq<nat>, n: nat): (q: seq<nat>) {
    if p == [] then [] else if p[0] == n then p[1..] else [p[0]] + Without(p[1..], n)
  }

  lemma {:induction false} WithoutMembers(p: seq<nat>, n: nat)
    requires NoDup(p)
    ensures NoDup(Without(p, n))
    ensures forall x: nat :: x in Without(p, n) <==> x in p && x != n
  {
    if p != [] {
      WithoutMembers(p[1..], n);
      assert forall x: nat :: x in p <==> x == p[0] || x in p[1..];
      if p[0] != n {
        var w := Without(p[1..], n);
        assert Without(p, n) == [p[0]] + w;
        assert p[0] !in w;
      }
    }
  }

  lemma {:induction false} WithoutAt(p: seq<nat>, n: nat, j: nat)
    requires NoDup(p) && j < |p| && p[j] == n
    ensures Without(p, n) == p[..j] + p[j + 1..]
  {
    if j > 0 {
      WithoutAt(p[1..], n, j - 1);
    }
  }

  lemma {:induction false} WithoutAbsent(p: seq<nat>, n: nat)
    requires n !in p
    ensures Without(p, n) == p
  {
    if p != [] {
      WithoutAbsent(p[1..], n);
    }
  }

  lemma AfterCut(p: seq<nat>, j: nat, k: nat)
    requires 0 < j < |p| && k + 1 < |p|
    ensures var q := p[..j] + p[j + 1..];
            && q[k] == p[if k < j then k else k + 1]
            && After(q, k) == After(p, if k + 1 < j then k else k + 1)
  {}

  lemma CutAt(links: seq<int>, p: seq<nat>, j: nat, k: nat)
    requires Chain(links, p) && NoDup(p) && 0 < j < |p| && k + 1 < |p|
    ensures var m := if k < j then k else k + 1;
            && p[j - 1] < |links| && p[j] < |links| && p[m] < |links|
            && links[p[j - 1] := links[p[j]]][p[m]] == After(p, if k + 1 < j then k else k + 1)
  {
    hide After;
    var m := if k < j then k else k + 1;
    assert p[m] < |links| && links[p[m]] == After(p, m);
    assert p[j] < |links| && links[p[j]] == After(p, j);
    assert k != j - 1 ==> p[m] != p[j - 1];
  }

  // Pointing a predecessor past an element takes the element out of the chain.
  lemma Cut(links: seq<int>, p: seq<nat>, j: nat, q: seq<nat>)
    requires Chain(links, p) && NoDup(p) && 0 < j < |p| && q == p[..j] + p[j + 1..]
    ensures p[j - 1] < |links| && p[j] < |links| && Chain(links[p[j - 1] := links[p[j]]], q)
  {
    CutAt(links, p, j, 0);
    var t := links[p[j - 1] := links[p[j]]];
    forall k | 0 <= k < |q|
      ensures q[k] < |t| && t[q[k]] == After(q, k)
    {
      hide After, Chain, NoDup;
      AfterCut(p, j, k);
      CutAt(links, p, j, k);
    }
  }

  lemma ExtendBehind(links: seq<int>, h: nat, p: seq<nat>, n: nat)
    requires Chain(links, [h] + p) && NoDup(p) && h !in p && n < |links| && n !in p && n != h && links[n] == NIL
    ensures var last := ([h] + p)[|p|];
            last < |links| && Chain(links[last := n], [h] + (p + [n]))
  {
    var q := [h] + p;
    assert NoDup(q) && q[|p|] < |links|;
    hide Chain, NoDup;
    Extend(links, q, n);
    assert [h] + (p + [n]) == q + [n];
  }

  lemma LastOfChain(links: seq<int>, n: nat, p: seq<nat>)
    requires Chain(links, [n] + p) && p == []
    ensures n < |links| && links[n] == NIL
  {
    var c := [n] + p;
    assert c[0] == n && |c| == 1;
  }

  // The same with the head of the chain named apart.
  lemma CutBehind(links: seq<int>, h: nat, p: seq<nat>, n: nat, j: nat)
    requires Chain(links, [h] + p) && NoDup(p) && h !in p && 0 < j <= |p| && p[j - 1] == n
    ensures var pred := ([h] + p)[j - 1];
            pred < |links| && n < |links| && Chain(links[pred := links[n]], [h] + Without(p, n))
  {
    var q := [h] + p;
    assert q[j] == n && NoDup(q);
    hide Chain, NoDup;
    WithoutAt(p, n, j - 1);
    assert [h] + (p[..j - 1] + p[j..]) == q[..j] + q[j + 1..];
    Cut(links, q, j, [h] + Without(p, n));
  }

  lemma Extend(links: seq<int>, p: seq<nat>, n: nat)
    requires Chain(links, p) && NoDup(p) && p != [] && n < |links| && n !in p && links[n] == NIL
    ensures Chain(links[p[|p| - 1] := n], p + [n])
  {
    var t, q := links[p[|p| - 1] := n], p + [n];
    forall k | 0 <= k < |q|
      ensures q[k] < |t| && t[q[k]] == After(q, k)
    {
      assert k < |p| ==> q[k] == p[k];
      assert k + 1 < |p| ==> p[k] != p[|p| - 1];
    }
  }

  /// The state of the pool

  datatype Lists = Lists(main: seq<nat>, seeds: seq<seq<nat>>, place: seq<Place>)

  ghost predicate Places(l: Lists, size: nat) {
    && 0 < size == |l.seeds| == |l.place|
    && l.place[0] == Head && (forall i :: 0 < i < size ==> l.place[i] != Head)
    && (forall i :: 0 <= i < size && l.place[i].Seed? ==> l.place[i].server < size)
    && NoDup(l.main) && (forall x: nat :: x in l.main <==> x < size && l.place[x] == Main)
    && forall x :: 0 <= x < size ==> NoDup(l.seeds[x]) && SeedsOf(l, x)
  }

  ghost predicate SeedsOf(l: Lists, x: nat)
    requires x < |l.seeds|
  {
    forall y: nat :: y in l.seeds[x] <==> y < |l.place| && l.place[y] == Seed(x)
  }

  // The slots that a seed list hangs on; the nextseed of a seed leads to its next sibling.
  predicate Heads(p: Place) {
    p.Floating? || p.Head? || p.Main?
  }

  ghost predicate Linked(s: seq<Node>, l: Lists)
    requires Places(l, |s|)
  {
    && Chain(Nexts(s), [0] + l.main)
    && (forall i :: 0 <= i < |s| && l.place[i].Floating? ==> s[i].next == NIL)
    && (forall x :: 0 <= x < |s| && Heads(l.place[x]) ==> Chain(NextSeeds(s), [x] + l.seeds[x]))
    && (forall x :: 0 <= x < |s| && l.seeds[x] != [] ==> l.place[x].Main? && s[x].role == SERVER)
  }

  ghost predicate Named(s: seq<Node>, l: Lists)
    requires Places(l, |s|)
  {
    forall i :: 0 <= i < |s| ==>
      && s[i].conId == (if l.place[i].Free? then NIL else i)
      && (l.place[i].Head? ==> s[i].role == -1)
      && (l.place[i].Main? ==> s[i].role == SERVER || s[i].role == CLIENT)
      && (l.place[i].Seed? ==> s[i].role == SEED)
  }

  predicate SameBinding(a: Node, b: Node) {
    a.port == b.port && a.addr == b.addr && a.role == b.role && a.protocol == b.protocol
  }

  predicate SamePeer(a: Node, b: Node) {
    a.port == b.port && a.addr == b.addr
  }

  // No two linked servers share address, port and protocol, and no two seeds of a server a peer.
  ghost predicate Unshared(s: seq<Node>, l: Lists)
    requires Places(l, |s|)
  {
    && (forall i, j :: 0 <= i < j < |s| && l.place[i].Main? && l.place[j].Main? && s[i].role == SERVER ==>
          !SameBinding(s[i], s[j]))
    && (forall i, j :: 0 <= i < j < |s| && l.place[i].Seed? && l.place[i] == l.place[j] ==> !SamePeer(s[i], s[j]))
  }

  ghost predicate Shape(s: seq<Node>, l: Lists) {
    Places(l, |s|) && Linked(s, l) && Named(s, l) && Unshared(s, l)
  }

  // A slot that seek_node can find.
  predicate IsLinked(l: Lists, i: int) {
    0 <= i < |l.place| && (l.place[i].Main? || l.place[i].Seed?)
  }

  /// Steps of the state

  lemma ChainAgrees(links: seq<int>, links': seq<int>, p: seq<nat>)
    requires Chain(links, p) && |links'| == |links|
    requires forall k :: 0 <= k < |p| ==> links'[p[k]] == links[p[k]]
    ensures Chain(links', p)
  {}

  // A claimed slot, as create_node leaves it; the port is -1 in 16 bits.
  function Fresh(i: nat, mode: int, role: int): Node {
    Node(i, NIL, role, mode, 0, 0xFFFF, 0, NIL, NIL)
  }

  function Moved(l: Lists, n: nat, where: Place): Lists
    requires n < |l.place|
  {
    l.(place := l.place[n := where])
  }

  lemma CreateKeeps(s: seq<Node>, l: Lists, n: nat, mode: int, role: int)
    requires Shape(s, l) && n < |s| && l.place[n].Free?
    ensures Shape(s[n := Fresh(n, mode, role)], Moved(l, n, Floating))
  {
    var t, m := s[n := Fresh(n, mode, role)], Moved(l, n, Floating);
    MovedPlaces(l, |s|, n, Floating);
    ChainAgrees(Nexts(s), Nexts(t), [0] + l.main);
    assert l.seeds[n] == [];
    forall x | 0 <= x < |s| && Heads(m.place[x])
      ensures Chain(NextSeeds(t), [x] + m.seeds[x])
    {
      if x == n {
        assert [x] + m.seeds[x] == [x];
      } else {
        assert n !in l.seeds[x];
        ChainAgrees(NextSeeds(s), NextSeeds(t), [x] + l.seeds[x]);
      }
    }
  }

  lemma MovedPlaces(l: Lists, size: nat, n: nat, where: Place)
    requires Places(l, size) && n < size
    requires (l.place[n].Free? && where.Floating?) || (l.place[n].Floating? && where.Free?)
    ensures Places(Moved(l, n, where), size)
  {
    var m := Moved(l, n, where);
    forall x | 0 <= x < size
      ensures NoDup(m.seeds[x]) && SeedsOf(m, x)
    {
      assert SeedsOf(l, x);
    }
  }

  // What the caller sets between creating a node and hanging it.
  lemma ConfigureKeeps(s: seq<Node>, l: Lists, n: nat, sockfd: int, addr: nat, port: nat, task: int)
    requires Shape(s, l) && n < |s| && l.place[n].Floating?
    ensures Shape(s[n := s[n].(sockfd := sockfd, addr := addr, port := port, task := task)], l)
  {
    var t := s[n := s[n].(sockfd := sockfd, addr := addr, port := port, task := task)];
    assert Nexts(t) == Nexts(s) && NextSeeds(t) == NextSeeds(s);
  }

  function HungMain(l: Lists, n: nat): Lists
    requires n < |l.place|
  {
    Lists(l.main + [n], l.seeds, l.place[n := Main])
  }

  lemma HungMainPlaces(l: Lists, size: nat, n: nat)
    requires Places(l, size) && n < size && l.place[n].Floating?
    ensures Places(HungMain(l, n), size)
  {
    var m := HungMain(l, n);
    forall x | 0 <= x < size
      ensures NoDup(m.seeds[x]) && SeedsOf(m, x)
    {
      assert SeedsOf(l, x);
    }
  }

  lemma HangKeeps(s: seq<Node>, l: Lists, n: nat, last: nat)
    requires Shape(s, l) && n < |s| && l.place[n].Floating? && (s[n].role == SERVER || s[n].role == CLIENT)
    requires last == ([0] + l.main)[|l.main|] < |s|
    requires s[n].role == SERVER ==> forall x :: x in l.main ==> !SameBinding(s[x], s[n])
    ensures Shape(s[last := s[last].(next := n)], HungMain(l, n))
  {
    HungMainPlaces(l, |s|, n);
    HangLinks(s, l, n, last);
    HangUnshared(s, l, n, last);
    HangNamed(s, l, n, s[last := s[last].(next := n)]);
    hide Places, Linked, Unshared, Named, HungMain;
  }

  lemma HangNamed(s: seq<Node>, l: Lists, n: nat, t: seq<Node>)
    requires Places(l, |s|) && Named(s, l) && n < |s| && l.place[n].Floating? && (s[n].role == SERVER || s[n].role == CLIENT)
    requires |t| == |s| && forall i :: 0 <= i < |s| ==> t[i].conId == s[i].conId && t[i].role == s[i].role
    requires Places(HungMain(l, n), |s|)
    ensures Named(t, HungMain(l, n))
  {
  }

  lemma HangLinks(s: seq<Node>, l: Lists, n: nat, last: nat)
    requires Places(l, |s|) && Linked(s, l) && n < |s| && l.place[n].Floating?
    requires last == ([0] + l.main)[|l.main|] < |s|
    ensures Places(HungMain(l, n), |s|) && Linked(s[last := s[last].(next := n)], HungMain(l, n))
  {
    HungMainPlaces(l, |s|, n);
    var t, m := s[last := s[last].(next := n)], HungMain(l, n);
    assert Nexts(t) == Nexts(s)[last := n] && NextSeeds(t) == NextSeeds(s);
    hide Chain, NoDup;
    ExtendBehind(Nexts(s), 0, l.main, n);
  }

  lemma HangUnshared(s: seq<Node>, l: Lists, n: nat, last: nat)
    requires Places(l, |s|) && Unshared(s, l) && n < |s| && l.place[n].Floating? && last < |s|
    requires s[n].role == SERVER ==> forall x :: x in l.main ==> !SameBinding(s[x], s[n])
    ensures Places(HungMain(l, n), |s|) && Unshared(s[last := s[last].(next := n)], HungMain(l, n))
  {
    HungMainPlaces(l, |s|, n);
    var t, m := s[last := s[last].(next := n)], HungMain(l, n);
    forall i, j | 0 <= i < j < |s| && m.place[i].Main? && m.place[j].Main? && t[i].role == SERVER
      ensures !SameBinding(t[i], t[j])
    {
      assert i != n ==> i in l.main;
      assert j != n ==> j in l.main;
    }
  }

  function HungSeed(l: Lists, x: nat, n: nat): Lists
    requires n < |l.place| && x < |l.seeds|
  {
    Lists(l.main, l.seeds[x := l.seeds[x] + [n]], l.place[n := Seed(x)])
  }

  lemma HungSeedPlaces(l: Lists, size: nat, x: nat, n: nat)
    requires Places(l, size) && n < size && x < size && l.place[n].Floating?
    ensures Places(HungSeed(l, x, n), size)
  {
    var m := HungSeed(l, x, n);
    forall y | 0 <= y < size
      ensures NoDup(m.seeds[y]) && SeedsOf(m, y)
    {
      assert SeedsOf(l, y);
    }
  }

  lemma HangSeedKeeps(s: seq<Node>, l: Lists, x: nat, n: nat, last: nat)
    requires Shape(s, l) && n < |s| && x < |s| && l.place[n].Floating? && s[n].role == SEED
    requires l.place[x].Main? && s[x].role == SERVER
    requires last == ([x] + l.seeds[x])[|l.seeds[x]|] < |s|
    requires forall y :: y in l.seeds[x] ==> !SamePeer(s[y], s[n])
    ensures Shape(s[last := s[last].(nextseed := n)], HungSeed(l, x, n))
  {
    HungSeedPlaces(l, |s|, x, n);
    HangSeedLinks(s, l, x, n, last);
    HangSeedUnshared(s, l, x, n, last);
    HangSeedNamed(s, l, x, n, s[last := s[last].(nextseed := n)]);
    hide Places, Linked, Unshared, Named, HungSeed;
  }

  lemma HangSeedNamed(s: seq<Node>, l: Lists, x: nat, n: nat, t: seq<Node>)
    requires Places(l, |s|) && Named(s, l) && n < |s| && x < |s| && l.place[n].Floating? && s[n].role == SEED
    requires |t| == |s| && forall i :: 0 <= i < |s| ==> t[i].conId == s[i].conId && t[i].role == s[i].role
    requires Places(HungSeed(l, x, n), |s|)
    ensures Named(t, HungSeed(l, x, n))
  {}

  lemma HangSeedLinks(s: seq<Node>, l: Lists, x: nat, n: nat, last: nat)
    requires Places(l, |s|) && Linked(s, l) && n < |s| && x < |s| && l.place[n].Floating?
    requires l.place[x].Main? && s[x].role == SERVER
    requires last == ([x] + l.seeds[x])[|l.seeds[x]|] < |s|
    ensures Places(HungSeed(l, x, n), |s|) && Linked(s[last := s[last].(nextseed := n)], HungSeed(l, x, n))
  {
    HungSeedPlaces(l, |s|, x, n);
    var t, m := s[last := s[last].(nextseed := n)], HungSeed(l, x, n);
    assert Nexts(t) == Nexts(s) && NextSeeds(t) == NextSeeds(s)[last := n];
    forall y | 0 <= y < |s| && Heads(m.place[y])
      ensures Chain(NextSeeds(t), [y] + m.seeds[y])
    {
      assert SeedsOf(l, y) && SeedsOf(l, x);
      if y == x {
        assert n !in l.seeds[x] && l.seeds[n] == [];
        LastOfChain(NextSeeds(s), n, l.seeds[n]);
        ExtendBehind(NextSeeds(s), x, l.seeds[x], n);
      } else {
        assert last == x || last in l.seeds[x];
        ChainAgrees(NextSeeds(s), NextSeeds(t), [y] + l.seeds[y]);
      }
    }
  }

  lemma HangSeedUnshared(s: seq<Node>, l: Lists, x: nat, n: nat, last: nat)
    requires Places(l, |s|) && Unshared(s, l) && n < |s| && x < |s| && l.place[n].Floating? && last < |s|
    requires forall y :: y in l.seeds[x] ==> !SamePeer(s[y], s[n])
    ensures Places(HungSeed(l, x, n), |s|) && Unshared(s[last := s[last].(nextseed := n)], HungSeed(l, x, n))
  {
    HungSeedPlaces(l, |s|, x, n);
    assert SeedsOf(l, x);
    var t, m := s[last := s[last].(nextseed := n)], HungSeed(l, x, n);
    forall i, j | 0 <= i < j < |s| && m.place[i].Seed? && m.place[i] == m.place[j]
      ensures !SamePeer(t[i], t[j])
    {
      assert i != n && m.place[i] == Seed(x) ==> i in l.seeds[x];
      assert j != n && m.place[j] == Seed(x) ==> j in l.seeds[x];
    }
  }

  // n itself and, when it is a server, its seeds.
  predicate Gone(l: Lists, n: nat, i: nat) {
    i == n || (i < |l.place| && l.place[i] == Seed(n))
  }

  function Deleted(l: Lists, n: nat): Lists {
    Lists(Without(l.main, n),
          seq(|l.seeds|, x requires 0 <= x < |l.seeds| => if x == n then [] else Without(l.seeds[x], n)),
          seq(|l.place|, i requires 0 <= i < |l.place| => if Gone(l, n, i) then Free else l.place[i]))
  }

  // From l to m, n and its seeds have left their lists, and all others stand as before.
  ghost predicate CutOut(l: Lists, m: Lists, n: nat) {
    && |m.place| == |l.place| && |m.seeds| == |l.seeds|
    && (forall i :: 0 <= i < |l.place| ==> m.place[i] == if i == n || l.place[i] == Seed(n) then Free else l.place[i])
    && (n !in l.main ==> m.main == l.main)
    && (forall j :: 0 <= j < |l.main| && l.main[j] == n ==> m.main == l.main[..j] + l.main[j + 1..])
    && (forall x :: 0 <= x < |l.seeds| && x != n && n !in l.seeds[x] ==> m.seeds[x] == l.seeds[x])
    && (forall x, j :: 0 <= x < |l.seeds| && x != n && 0 <= j < |l.seeds[x]| && l.seeds[x][j] == n ==>
          m.seeds[x] == l.seeds[x][..j] + l.seeds[x][j + 1..])
    && (n < |l.seeds| ==> m.seeds[n] == [])
  }

  lemma DeletedCutsOut(s: seq<Node>, l: Lists, n: nat)
    requires Shape(s, l) && n < |s|
    ensures CutOut(l, Deleted(l, n), n)
  {
    var m := Deleted(l, n);
    if n !in l.main {
      WithoutAbsent(l.main, n);
    }
    forall j | 0 <= j < |l.main| && l.main[j] == n
      ensures m.main == l.main[..j] + l.main[j + 1..]
    {
      WithoutAt(l.main, n, j);
    }
    forall x | 0 <= x < |l.seeds| && x != n && n !in l.seeds[x]
      ensures m.seeds[x] == l.seeds[x]
    {
      WithoutAbsent(l.seeds[x], n);
    }
    forall x, j | 0 <= x < |l.seeds| && x != n && 0 <= j < |l.seeds[x]| && l.seeds[x][j] == n
      ensures m.seeds[x] == l.seeds[x][..j] + l.seeds[x][j + 1..]
    {
      WithoutAt(l.seeds[x], n, j);
    }
  }

  lemma DeletedPlaces(l: Lists, size: nat, n: nat)
    requires Places(l, size) && 0 < n < size
    ensures Places(Deleted(l, n), size)
  {
    var m := Deleted(l, n);
    WithoutMembers(l.main, n);
    forall x | 0 <= x < size
      ensures NoDup(m.seeds[x]) && SeedsOf(m, x)
    {
      assert SeedsOf(l, x);
      WithoutMembers(l.seeds[x], n);
    }
  }

  // n is number j behind the head of its list, and pred is the slot before it.
  ghost predicate Before(l: Lists, n: nat, pred: nat, j: nat)
    requires n < |l.place|
  {
    match l.place[n]
    case Main => 0 < j <= |l.main| && l.main[j - 1] == n && ([0] + l.main)[j - 1] == pred
    case Seed(x) => x < |l.seeds| && 0 < j <= |l.seeds[x]| && l.seeds[x][j - 1] == n && ([x] + l.seeds[x])[j - 1] == pred
    case _ => true
  }

  function Unlinked(s: seq<Node>, l: Lists, n: nat, pred: nat): (u: seq<Node>)
    requires n < |s| == |l.place| && pred < |s|
    ensures |u| == |s|
  {
    match l.place[n]
    case Main => s[pred := s[pred].(next := s[n].next)]
    case Seed(x) => s[pred := s[pred].(nextseed := s[n].nextseed)]
    case _ => s
  }

  lemma UnlinkedMain(s: seq<Node>, l: Lists, n: nat, pred: nat, j: nat)
    requires Shape(s, l) && 0 < n < |s| && pred < |s| && Before(l, n, pred, j)
    ensures Chain(Nexts(Unlinked(s, l, n, pred)), [0] + Deleted(l, n).main)
  {
    var u := Unlinked(s, l, n, pred);
    hide Chain, Without, NoDup;
    if l.place[n].Main? {
      assert Nexts(u) == Nexts(s)[pred := Nexts(s)[n]];
      CutBehind(Nexts(s), 0, l.main, n, j);
    } else {
      WithoutAbsent(l.main, n);
      assert Nexts(u) == Nexts(s);
    }
  }

  lemma UnlinkedSeeds(s: seq<Node>, l: Lists, n: nat, pred: nat, j: nat, x: nat)
    requires Shape(s, l) && 0 < n < |s| && pred < |s| && Before(l, n, pred, j)
    requires x < |s| && Heads(Deleted(l, n).place[x])
    ensures Chain(NextSeeds(Unlinked(s, l, n, pred)), [x] + Deleted(l, n).seeds[x])
  {
    var u := Unlinked(s, l, n, pred);
    assert SeedsOf(l, x);
    hide Chain, Without, NoDup;
    if l.place[n] == Seed(x) {
      assert NextSeeds(u) == NextSeeds(s)[pred := NextSeeds(s)[n]];
      CutBehind(NextSeeds(s), x, l.seeds[x], n, j);
    } else {
      WithoutAbsent(l.seeds[x], n);
      UnlinkedElsewhere(s, l, n, pred, j, x);
      ChainAgrees(NextSeeds(s), NextSeeds(u), [x] + l.seeds[x]);
    }
  }

  lemma UnlinkedElsewhere(s: seq<Node>, l: Lists, n: nat, pred: nat, j: nat, x: nat)
    requires Shape(s, l) && 0 < n < |s| && pred < |s| && Before(l, n, pred, j)
    requires x < |s| && Heads(l.place[x]) && l.place[n] != Seed(x)
    ensures forall k :: 0 <= k < |[x] + l.seeds[x]| ==>
              ([x] + l.seeds[x])[k] < |s| &&
              NextSeeds(Unlinked(s, l, n, pred))[([x] + l.seeds[x])[k]] == NextSeeds(s)[([x] + l.seeds[x])[k]]
  {
    var q := [x] + l.seeds[x];
    assert SeedsOf(l, x);
    if l.place[n].Seed? {
      var y := l.place[n].server;
      assert SeedsOf(l, y);
      assert pred == y || pred in l.seeds[y];
      assert l.seeds[y] != [];
      assert pred !in q;
    }
  }

  // The nodes still in use differ from what they were in their links at most.
  ghost predicate KeptBodies(t: seq<Node>, s: seq<Node>, l: Lists) {
    |t| == |s| == |l.place| && forall i: nat :: i < |s| && !l.place[i].Free? ==> SameBody(t[i], s[i])
  }

  // Any state that agrees with the unlinked one outside the freed slots has the shape again.
  lemma DeleteKeeps(s: seq<Node>, l: Lists, n: nat, pred: nat, j: nat, t: seq<Node>)
    requires Shape(s, l) && 0 < n < |s| && pred < |s| && Before(l, n, pred, j) && |t| == |s|
    requires forall i: nat :: i < |s| ==>
               if Gone(l, n, i) then t[i].conId == NIL else t[i] == Unlinked(s, l, n, pred)[i]
    ensures Shape(t, Deleted(l, n)) && KeptBodies(t, s, Deleted(l, n))
  {
    DeletedPlaces(l, |s|, n);
    DeletedLinks(s, l, n, pred, j, t);
    DeletedNames(s, l, n, pred, t);
    hide Places, Linked, Named, Unshared, KeptBodies;
  }

  lemma DeletedNames(s: seq<Node>, l: Lists, n: nat, pred: nat, t: seq<Node>)
    requires Shape(s, l) && 0 < n < |s| && pred < |s| && |t| == |s| && Places(Deleted(l, n), |s|)
    requires forall i: nat :: i < |s| ==>
               if Gone(l, n, i) then t[i].conId == NIL else t[i] == Unlinked(s, l, n, pred)[i]
    ensures Named(t, Deleted(l, n)) && Unshared(t, Deleted(l, n)) && KeptBodies(t, s, Deleted(l, n))
  {
    var m := Deleted(l, n);
    forall i: nat | i < |s|
      ensures t[i].conId == (if m.place[i].Free? then NIL else i)
      ensures !m.place[i].Free? ==> m.place[i] == l.place[i] && SameBody(t[i], s[i])
    {
      StillThere(s, l, n, pred, t, i);
    }
    hide Places, Linked, Gone, Unlinked, Deleted;
    assert forall i: nat :: i < |s| && !m.place[i].Free? ==> t[i].role == s[i].role;
    forall i, j | 0 <= i < j < |s| && !m.place[i].Free? && !m.place[j].Free?
      ensures SameBinding(t[i], t[j]) <==> SameBinding(s[i], s[j])
      ensures SamePeer(t[i], t[j]) <==> SamePeer(s[i], s[j])
    {
      assert SameBody(t[i], s[i]) && SameBody(t[j], s[j]);
    }
  }

  lemma StillThere(s: seq<Node>, l: Lists, n: nat, pred: nat, t: seq<Node>, i: nat)
    requires Shape(s, l) && 0 < n < |s| && pred < |s| && |t| == |s| && i < |s|
    requires if Gone(l, n, i) then t[i].conId == NIL else t[i] == Unlinked(s, l, n, pred)[i]
    ensures var m := Deleted(l, n);
            && t[i].conId == (if m.place[i].Free? then NIL else i)
            && (!m.place[i].Free? ==> m.place[i] == l.place[i] && SameBody(t[i], s[i]))
  {}

  lemma DeletedLinks(s: seq<Node>, l: Lists, n: nat, pred: nat, j: nat, t: seq<Node>)
    requires Shape(s, l) && 0 < n < |s| && pred < |s| && Before(l, n, pred, j) && |t| == |s| && Places(Deleted(l, n), |s|)
    requires forall i: nat :: i < |s| ==>
               if Gone(l, n, i) then t[i].conId == NIL else t[i] == Unlinked(s, l, n, pred)[i]
    ensures Linked(t, Deleted(l, n))
  {
    DeletedMain(s, l, n, pred, j, t);
    DeletedFloating(s, l, n, pred, j, t);
    hide Places, Chain, Unlinked, Gone, Shape, Before, Deleted;
    var m := Deleted(l, n);
    forall x: nat | x < |s| && Heads(m.place[x])
      ensures Chain(NextSeeds(t), [x] + m.seeds[x])
    {
      DeletedSeeds(s, l, n, pred, j, t, x);
    }
    forall x: nat | x < |s| && m.seeds[x] != []
      ensures m.place[x].Main? && t[x].role == SERVER
    {
      DeletedServer(s, l, n, pred, t, x);
    }
  }

  lemma DeletedFloating(s: seq<Node>, l: Lists, n: nat, pred: nat, j: nat, t: seq<Node>)
    requires Shape(s, l) && 0 < n < |s| && pred < |s| && Before(l, n, pred, j) && |t| == |s| && Places(Deleted(l, n), |s|)
    requires forall i: nat :: i < |s| && !Gone(l, n, i) ==> t[i] == Unlinked(s, l, n, pred)[i]
    ensures |Deleted(l, n).seeds| == |Deleted(l, n).place| == |s|
    ensures forall i :: 0 <= i < |s| && Deleted(l, n).place[i].Floating? ==> t[i].next == NIL
  {
    hide Chain;
  }

  lemma DeletedMain(s: seq<Node>, l: Lists, n: nat, pred: nat, j: nat, t: seq<Node>)
    requires Shape(s, l) && 0 < n < |s| && pred < |s| && Before(l, n, pred, j) && |t| == |s| && Places(Deleted(l, n), |s|)
    requires forall i: nat :: i < |s| && !Gone(l, n, i) ==> t[i] == Unlinked(s, l, n, pred)[i]
    ensures Chain(Nexts(t), [0] + Deleted(l, n).main)
  {
    var m, u := Deleted(l, n), Unlinked(s, l, n, pred);
    UnlinkedMain(s, l, n, pred, j);
    hide Chain, Unlinked;
    var q := [0] + m.main;
    forall k | 0 <= k < |q|
      ensures q[k] < |s| && Nexts(t)[q[k]] == Nexts(u)[q[k]]
    {
      assert k > 0 ==> q[k] in m.main;
      assert !Gone(l, n, q[k]);
    }
    ChainAgrees(Nexts(u), Nexts(t), q);
  }

  lemma DeletedSeeds(s: seq<Node>, l: Lists, n: nat, pred: nat, j: nat, t: seq<Node>, x: nat)
    requires Shape(s, l) && 0 < n < |s| && pred < |s| && Before(l, n, pred, j) && |t| == |s| && Places(Deleted(l, n), |s|)
    requires forall i: nat :: i < |s| && !Gone(l, n, i) ==> t[i] == Unlinked(s, l, n, pred)[i]
    requires x < |s| && Heads(Deleted(l, n).place[x])
    ensures Chain(NextSeeds(t), [x] + Deleted(l, n).seeds[x])
  {
    var m, u := Deleted(l, n), Unlinked(s, l, n, pred);
    UnlinkedSeeds(s, l, n, pred, j, x);
    hide Chain, Unlinked;
    var q := [x] + m.seeds[x];
    forall k | 0 <= k < |q|
      ensures q[k] < |s| && NextSeeds(t)[q[k]] == NextSeeds(u)[q[k]]
    {
      assert SeedsOf(m, x);
      assert k > 0 ==> q[k] in m.seeds[x];
      assert !Gone(l, n, q[k]);
    }
    ChainAgrees(NextSeeds(u), NextSeeds(t), q);
  }

  lemma DeletedServer(s: seq<Node>, l: Lists, n: nat, pred: nat, t: seq<Node>, x: nat)
    requires Shape(s, l) && 0 < n < |s| && pred < |s| && |t| == |s| && Places(Deleted(l, n), |s|)
    requires forall i: nat :: i < |s| && !Gone(l, n, i) ==> t[i] == Unlinked(s, l, n, pred)[i]
    requires x < |s| && Deleted(l, n).seeds[x] != []
    ensures Deleted(l, n).place[x].Main? && t[x].role == SERVER
  {
    var m := Deleted(l, n);
    assert SeedsOf(m, x) && SeedsOf(l, x);
    assert m.seeds[x][0] in m.seeds[x];
    assert m.seeds[x][0] in l.seeds[x];
  }

  // The sockets that go with a list of seeds: only TCP seeds have their own.
  function SeedSockets(s: seq<Node>, q: seq<nat>): seq<int>
    requires forall k :: 0 <= k < |q| ==> q[k] < |s|
  {
    if q == [] then []
    else
      var y := q[|q| - 1];
      SeedSockets(s, q[..|q| - 1]) +
      if s[y].protocol == TCP && s[y].sockfd != NIL then [s[y].sockfd] else []
  }

  function OwnSocket(a: Node): seq<int> {
    if !(a.protocol == UDP && a.role == SEED) && a.sockfd != NIL then [a.sockfd] else []
  }

  // Only links differ.
  predicate SameBody(a: Node, b: Node) {
    a.(next := NIL, nextseed := NIL) == b.(next := NIL, nextseed := NIL)
  }

  ghost predicate SameBodies(s: seq<Node>, t: seq<Node>) {
    |s| == |t| && forall i :: 0 <= i < |s| ==> SameBody(s[i], t[i])
  }

  lemma Sizes(s: seq<Node>, l: Lists)
    requires Shape(s, l)
    ensures |l.place| == |l.seeds| == |s| > 0
    ensures forall k :: 0 <= k < |l.main| ==> l.main[k] < |s|
  {
    assert forall k :: 0 <= k < |l.main| ==> l.main[k] in l.main;
  }

  // Standing k steps behind the head h of a list, and what comes next.
  function At(h: nat, q: seq<nat>, k: nat): nat
    requires k <= |q|
  {
    if k == 0 then h else q[k - 1]
  }

  function Ahead(q: seq<nat>, k: nat): int {
    if k < |q| then q[k] else NIL
  }

  lemma MainWalk(s: seq<Node>, l: Lists, k: nat)
    requires Shape(s, l) && k <= |l.main|
    ensures var curr := At(0, l.main, k);
            && curr < |s| && s[curr].next == Ahead(l.main, k)
            && (k > 0 ==> curr in l.main && l.place[curr].Main? && s[curr].conId == curr)
  {
    hide Chain, Unshared;
    ChainWalk(Nexts(s), 0, l.main, k);
    assert k > 0 ==> At(0, l.main, k) in l.main;
  }

  lemma SeedWalk(s: seq<Node>, l: Lists, x: nat, k: nat)
    requires Shape(s, l) && x < |s| && l.place[x].Main? && k <= |l.seeds[x]|
    ensures var curr := At(x, l.seeds[x], k);
            && curr < |s| && s[curr].nextseed == Ahead(l.seeds[x], k)
            && (k > 0 ==> HasSeed(l, x, curr) && s[curr].conId == curr)
  {
    hide Chain, Unshared;
    ChainWalk(NextSeeds(s), x, l.seeds[x], k);
    assert SeedsOf(l, x);
    assert k > 0 ==> At(x, l.seeds[x], k) in l.seeds[x];
  }

  predicate HasSeed(l: Lists, x: nat, i: int) {
    0 <= i < |l.place| && l.place[i] == Seed(x)
  }

  lemma SeedPlaces(s: seq<Node>, l: Lists, x: nat)
    requires Shape(s, l) && x < |s|
    ensures forall i :: HasSeed(l, x, i) ==> i in l.seeds[x]
  {
    assert SeedsOf(l, x);
  }

  lemma NotFound(s: seq<Node>, l: Lists, i: int)
    requires Shape(s, l)
    requires forall m :: 0 <= m < |l.main| ==> l.main[m] != i && !HasSeed(l, l.main[m], i)
    ensures !IsLinked(l, i)
  {
    if 0 <= i < |l.place| && l.place[i].Seed? {
      ServerLinked(s, l, i);
    }
  }

  // A seed belongs to a server in the main list.
  lemma ServerLinked(s: seq<Node>, l: Lists, i: nat)
    requires Shape(s, l) && i < |s| && l.place[i].Seed?
    ensures var x := l.place[i].server;
            x in l.main && x < |s| && s[x].role == SERVER
  {
    var x := l.place[i].server;
    assert SeedsOf(l, x) && i in l.seeds[x];
  }

  // The slots with n, number hit in the list q behind curr, bridged over.
  function SeedCut(s: seq<Node>, curr: nat, n: nat, q: seq<nat>, hit: nat): (t: seq<Node>)
    ensures |t| == |s|
  {
    if hit < |q| && At(curr, q, hit) < |s| && n < |s| then
      s[At(curr, q, hit) := s[At(curr, q, hit)].(nextseed := s[n].nextseed)]
    else s
  }

  lemma ChainWalk(links: seq<int>, h: nat, q: seq<nat>, k: nat)
    requires Chain(links, [h] + q) && k <= |q|
    ensures At(h, q, k) < |links| && links[At(h, q, k)] == Ahead(q, k)
    ensures Ahead(q, k) < |links|
  {
    var p := [h] + q;
    assert p[k] == At(h, q, k) && After(p, k) == Ahead(q, k);
    assert p[k] < |links| && links[p[k]] == After(p, k);
    assert k < |q| ==> p[k + 1] == q[k];
  }

  // The walk down the main list comes upon n, or upon the server that n is a seed of, after so many steps.
  ghost predicate Meets(l: Lists, n: nat, j: nat, at: nat)
    requires n < |l.place|
  {
    match l.place[n]
    case Main => at == j
    case Seed(x) => 0 < at <= |l.main| && l.main[at - 1] == x
    case _ => at > |l.main|
  }

  ghost predicate Aims(s: seq<Node>, l: Lists, n: nat, pred: nat, j: nat, at: nat) {
    Shape(s, l) && 0 < n < |s| && pred < |s| && Before(l, n, pred, j) && Meets(l, n, j, at)
  }

  lemma NextKept(s: seq<Node>, l: Lists, n: nat, pred: nat, j: nat, at: nat, k: nat)
    requires Shape(s, l) && 0 < n < |s| && pred < |s| && Before(l, n, pred, j) && Meets(l, n, j, at)
    requires k <= |l.main|
    ensures At(0, l.main, k) < |s|
    ensures at <= k ==> Unlinked(s, l, n, pred)[At(0, l.main, k)].next == s[At(0, l.main, k)].next
  {
    hide Linked, Named, Unshared;
    MainWalk(s, l, k);
    assert 0 !in l.main && NoDup(l.main) && |l.place| == |s|;
    hide Shape, Places, NoDup;
    if l.place[n].Main? && at <= k {
      assert ([0] + l.main)[j - 1] == At(0, l.main, j - 1);
      AtInjective(0, l.main, j - 1, k);
    }
  }

  lemma Onward(s: seq<Node>, l: Lists, n: nat, pred: nat, j: nat, at: nat, k: nat)
    requires Aims(s, l, n, pred, j, at) && n < |s| && pred < |s| && |l.place| == |s| && k <= |l.main|
    ensures var curr, w := At(0, l.main, k), if at <= k then Unlinked(s, l, n, pred) else s;
            && curr < |s| && w[curr].next == (if k < |l.main| then At(0, l.main, k + 1) else NIL)
            && (k < |l.main| ==> At(0, l.main, k + 1) < |s|)
  {
    hide Shape, Before, Meets, Unlinked;
    NextKept(s, l, n, pred, j, at, k);
    MainWalk(s, l, k);
    if k < |l.main| {
      MainWalk(s, l, k + 1);
    }
  }

  lemma StartOf(q: seq<nat>)
    ensures At(0, q, 0) == 0
  {}

  lemma AtInjective(h: nat, q: seq<nat>, a: nat, b: nat)
    requires NoDup(q) && h !in q && a <= |q| && b <= |q|
    ensures At(h, q, a) == At(h, q, b) ==> a == b
  {}

  lemma NeverMet(s: seq<Node>, l: Lists, n: nat, pred: nat, j: nat, at: nat)
    requires Aims(s, l, n, pred, j, at) && n < |s| && pred < |s| && |l.place| == |s|
    ensures at <= |l.main| || Unlinked(s, l, n, pred) == s
  {}

  // What holds at the node k steps down the main list.
  lemma MainFacts(s: seq<Node>, l: Lists, n: nat, pred: nat, j: nat, at: nat, k: nat)
    requires Shape(s, l) && 0 < n < |s| && pred < |s| && Before(l, n, pred, j) && Meets(l, n, j, at) && k <= |l.main|
    ensures var curr := At(0, l.main, k);
            && curr < |s| == |l.seeds| && |l.place| == |s|
            && (curr == n <==> l.place[n].Main? && k == at)
            && (l.place[n].Main? && k == at ==> k > 0 && pred == At(0, l.main, k - 1) && pred != n)
            && (l.place[n] == Seed(curr) <==> l.place[n].Seed? && k == at)
            && Unlinked(s, l, n, pred)[curr].role == s[curr].role
  {
    hide Linked, Named, Unshared;
    MainWalk(s, l, k);
    assert 0 !in l.main && NoDup(l.main) && |l.seeds| == |l.place| == |s|;
    assert k > 0 ==> l.place[At(0, l.main, k)].Main?;
    assert l.place[0].Head?;
    hide Shape, Places, NoDup;
    if l.place[n].Main? {
      assert ([0] + l.main)[j - 1] == At(0, l.main, j - 1);
      AtInjective(0, l.main, j, k);
      AtInjective(0, l.main, j, j - 1);
    } else if l.place[n].Seed? {
      assert At(0, l.main, at) == l.place[n].server;
      AtInjective(0, l.main, at, k);
    }
  }

  lemma SeedFacts(s: seq<Node>, l: Lists, n: nat, pred: nat, j: nat, curr: nat)
    requires Shape(s, l) && 0 < n < |s| && pred < |s| && Before(l, n, pred, j)
    requires curr < |s| && Heads(l.place[curr])
    ensures var u := Unlinked(s, l, n, pred);
            && curr < |l.seeds| && NoDup(l.seeds[curr]) && curr !in l.seeds[curr]
            && Chain(NextSeeds(s), [curr] + l.seeds[curr])
            && (l.place[n] != Seed(curr) ==> Chain(NextSeeds(u), [curr] + l.seeds[curr]) && n !in l.seeds[curr])
            && (l.place[n] == Seed(curr) ==> 0 < j <= |l.seeds[curr]| && l.seeds[curr][j - 1] == n
                                             && SeedCut(s, curr, n, l.seeds[curr], j - 1) == u)
  {
    assert SeedsOf(l, curr);
    if l.place[n] != Seed(curr) {
      UnlinkedElsewhere(s, l, n, pred, j, curr);
      ChainAgrees(NextSeeds(s), NextSeeds(Unlinked(s, l, n, pred)), [curr] + l.seeds[curr]);
    } else {
      assert ([curr] + l.seeds[curr])[j - 1] == At(curr, l.seeds[curr], j - 1);
    }
  }

  lemma OnMainList(s: seq<Node>, l: Lists, k: nat)
    requires Shape(s, l) && k <= |l.main|
    ensures var curr := At(0, l.main, k);
            curr < |s| && Heads(l.place[curr]) && (s[curr].role == SERVER ==> k > 0)
  {
    MainWalk(s, l, k);
  }

  // The sockets that deleting n closes, in order.
  ghost function Closing(s: seq<Node>, l: Lists, n: nat): seq<int>
    requires Shape(s, l) && n < |s|
  {
    Sizes(s, l);
    SeedsInPool(s, l, n);
    SeedSockets(s, l.seeds[n]) + OwnSocket(s[n])
  }

  lemma SeedsInPool(s: seq<Node>, l: Lists, n: nat)
    requires Shape(s, l) && n < |s|
    ensures n < |l.seeds| && forall k :: 0 <= k < |l.seeds[n]| ==> l.seeds[n][k] < |s| && l.place[l.seeds[n][k]] == Seed(n)
  {
    assert SeedsOf(l, n);
    assert forall k :: 0 <= k < |l.seeds[n]| ==> l.seeds[n][k] in l.seeds[n];
  }

  lemma SeedsToRelease(s: seq<Node>, l: Lists, n: nat, pred: nat, j: nat)
    requires Shape(s, l) && 0 < n < |s| && l.place[n] != Free && pred < |s| && Before(l, n, pred, j) && s[n].role == SERVER
    ensures var u, q := Unlinked(s, l, n, pred), l.seeds[n];
            && NoDup(q) && n !in q && Chain(NextSeeds(u), [n] + q)
            && forall k :: 0 <= k < |q| ==> q[k] < |s| && SameBody(u[q[k]], s[q[k]])
  {
    SeedsInPool(s, l, n);
    SeedFacts(s, l, n, pred, j, n);
  }

  // Where n hangs, and when the walk down the main list gets there.
  lemma Locate(s: seq<Node>, l: Lists, n: nat) returns (pred: nat, j: nat, at: nat)
    requires Shape(s, l) && 0 < n < |s| && l.place[n] != Free
    ensures pred < |s| && Before(l, n, pred, j) && Meets(l, n, j, at)
  {
    j, at, pred := 0, |l.main| + 1, 0;
    if l.place[n].Main? {
      j := LocateMain(s, l, n);
      at, pred := j, ([0] + l.main)[j - 1];
    } else if l.place[n].Seed? {
      var x := l.place[n].server;
      ServerLinked(s, l, n);
      at := LocateMain(s, l, x);
      j := LocateSeed(s, l, n, x);
      pred := ([x] + l.seeds[x])[j - 1];
    }
  }

  lemma LocateMain(s: seq<Node>, l: Lists, n: nat) returns (j: nat)
    requires Shape(s, l) && n in l.main
    ensures 0 < j <= |l.main| && l.main[j - 1] == n && ([0] + l.main)[j - 1] < |s|
  {
    var i :| 0 <= i < |l.main| && l.main[i] == n;
    MainWalk(s, l, i);
    j := i + 1;
  }

  lemma LocateSeed(s: seq<Node>, l: Lists, n: nat, x: nat) returns (j: nat)
    requires Shape(s, l) && n < |s| && l.place[n] == Seed(x) && x < |s| && l.place[x].Main?
    ensures 0 < j <= |l.seeds[x]| && l.seeds[x][j - 1] == n && ([x] + l.seeds[x])[j - 1] < |s|
  {
    assert SeedsOf(l, x) && n in l.seeds[x];
    var i :| 0 <= i < |l.seeds[x]| && l.seeds[x][i] == n;
    SeedWalk(s, l, x, i);
    j := i + 1;
  }

  lemma UnlinkedBody(s: seq<Node>, l: Lists, n: nat, pred: nat, i: nat)
    requires Shape(s, l) && n < |s| && pred < |s| && i < |s|
    ensures |l.place| == |s| && SameBody(Unlinked(s, l, n, pred)[i], s[i])
  {}

  lemma GoneMeans(s: seq<Node>, l: Lists, n: nat)
    requires Shape(s, l) && n < |s|
    ensures n < |l.seeds| && forall i: nat :: i < |s| ==> (Gone(l, n, i) <==> i == n || i in l.seeds[n])
    ensures s[n].role != SERVER ==> l.seeds[n] == []
  {
    assert SeedsOf(l, n);
  }

  lemma {:induction false} SameSockets(u: seq<Node>, s: seq<Node>, q: seq<nat>)
    requires |u| == |s| && forall k :: 0 <= k < |q| ==> q[k] < |s| && SameBody(u[q[k]], s[q[k]])
    ensures SeedSockets(u, q) == SeedSockets(s, q)
  {
    if q != [] {
      SameSockets(u, s, q[..|q| - 1]);
      assert SameBody(u[q[|q| - 1]], s[q[|q| - 1]]);
    }
  }

  /// Closing everything

  // The sockets closed with the first k nodes of the main list.
  ghost function ClosedBy(s: seq<Node>, l: Lists, k: nat): seq<int>
    requires Shape(s, l) && k <= |l.main|
  {
    if k == 0 then []
    else
      MainWalk(s, l, k);
      ClosedBy(s, l, k - 1) + Closing(s, l, l.main[k - 1])
  }

  // What is left when the first k nodes of the main list are gone.
  ghost predicate Remaining(s: seq<Node>, l: Lists, t: seq<Node>, m: Lists, k: nat) {
    && |s| == |t| == |l.place| == |m.place| == |l.seeds| == |m.seeds| && k <= |l.main| && m.main == l.main[k..]
    && KeptBodies(t, s, m)
    && (forall i :: 0 <= i < |s| ==> m.place[i] == l.place[i] || (IsLinked(l, i) && m.place[i] == Free))
    && (forall j :: k <= j < |l.main| ==> l.main[j] < |s| && m.seeds[l.main[j]] == l.seeds[l.main[j]])
  }

  lemma AllKept(s: seq<Node>, l: Lists)
    requires Shape(s, l)
    ensures Remaining(s, l, s, l, 0) && ClosedBy(s, l, 0) == []
  {
    Sizes(s, l);
  }

  lemma NextInLine(s: seq<Node>, l: Lists, t: seq<Node>, m: Lists, k: nat)
    requires Shape(s, l) && Shape(t, m) && Remaining(s, l, t, m, k) && k < |l.main|
    ensures 0 < l.main[k] < |t| == |m.place| && m.place[l.main[k]].Main?
    ensures Closing(t, m, l.main[k]) == Closing(s, l, l.main[k])
    ensures ClosedBy(s, l, k + 1) == ClosedBy(s, l, k) + Closing(s, l, l.main[k])
  {
    var n := l.main[k];
    assert n == m.main[0] && n in m.main;
    SeedsInPool(t, m, n);
    SameSockets(t, s, l.seeds[n]);
  }

  lemma OneLess(s: seq<Node>, l: Lists, s': seq<Node>, l': Lists, t: seq<Node>, k: nat)
    requires Shape(s, l) && Shape(s', l') && Remaining(s, l, s', l', k) && k < |l.main|
    requires l.main[k] < |s'| && Shape(t, Deleted(l', l.main[k])) && KeptBodies(t, s', Deleted(l', l.main[k]))
    ensures Remaining(s, l, t, Deleted(l', l.main[k]), k + 1) && |t| > 0 && t[0].next == Ahead(l.main, k + 1)
  {
    var n, m := l.main[k], Deleted(l', l.main[k]);
    assert l'.main[0] == n;
    assert m.main == l.main[k + 1..];
    MainWalk(t, m, 0);
    OneLessPlaces(s, l, s', l', k);
    OneLessSeeds(s, l, s', l', k);
  }

  lemma OneLessPlaces(s: seq<Node>, l: Lists, s': seq<Node>, l': Lists, k: nat)
    requires Shape(s, l) && Shape(s', l') && Remaining(s, l, s', l', k) && k < |l.main|
    ensures var m := Deleted(l', l.main[k]);
            |m.place| == |s| && forall i :: 0 <= i < |s| ==> m.place[i] == l.place[i] || (IsLinked(l, i) && m.place[i] == Free)
  {
    assert l.main[k] in l.main;
  }

  lemma OneLessSeeds(s: seq<Node>, l: Lists, s': seq<Node>, l': Lists, k: nat)
    requires Shape(s, l) && Shape(s', l') && Remaining(s, l, s', l', k) && k < |l.main|
    ensures var m := Deleted(l', l.main[k]);
            |m.seeds| == |s| && forall j :: k < j < |l.main| ==> l.main[j] < |s| && m.seeds[l.main[j]] == l.seeds[l.main[j]]
  {
    var n := l.main[k];
    assert n == l'.main[0] && n in l'.main;
    forall j | k < j < |l.main|
      ensures l.main[j] < |s| && Deleted(l', n).seeds[l.main[j]] == l.seeds[l.main[j]]
    {
      var x := l.main[j];
      assert x != n && SeedsOf(l', x);
      WithoutAbsent(l'.seeds[x], n);
    }
  }

  lemma NoneLeft(s: seq<Node>, l: Lists, t: seq<Node>, m: Lists, k: nat)
    requires Shape(s, l) && Shape(t, m) && Remaining(s, l, t, m, k) && k == |l.main|
    ensures m.main == []
    ensures |m.place| == |s| == |l.place| && forall i :: 0 <= i < |s| ==> !IsLinked(m, i)
    ensures forall i :: 0 <= i < |s| ==> m.place[i] == if IsLinked(l, i) then Free else l.place[i]
  {
    forall i | 0 <= i < |s|
      ensures !IsLinked(m, i)
    {
      if m.place[i].Seed? {
        ServerLinked(t, m, i);
      }
    }
    forall i | 0 <= i < |s|
      ensures m.place[i] == if IsLinked(l, i) then Free else l.place[i]
    {
      assert !IsLinked(m, i);
    }
  }
}
