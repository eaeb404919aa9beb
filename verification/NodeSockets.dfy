/**
 Which sockets go with the connection nodes: a UDP seed borrows the socket of its server, every other
 node in use holds one of its own. Deleting closes what only the released slots hold, once, and nothing
 that a linked node still needs.
 */
module NodeSockets {
  import opened NodeLists

  predicate InUse(l: Lists, i: int) {
    0 <= i < |l.place| && !l.place[i].Free? && !l.place[i].Head?
  }

  predicate Borrows(a: Node) {
    a.protocol == UDP && a.role == SEED
  }

  // Nodes that do not borrow hold different sockets; a linked borrower holds that of its server, and one
  // that is not hung yet that of some linked server.
  ghost predicate Owned(s: seq<Node>, l: Lists) {
    && |l.place| == |s|
    && (forall i :: InUse(l, i) ==> s[i].protocol == TCP || s[i].protocol == UDP)
    && (forall i, j :: InUse(l, i) && InUse(l, j) && i != j && !Borrows(s[i]) && !Borrows(s[j]) && s[i].sockfd != NIL ==>
          s[i].sockfd != s[j].sockfd)
    && (forall i :: InUse(l, i) && Borrows(s[i]) ==> exists x :: Lends(s, l, x, i))
  }

  ghost predicate Lends(s: seq<Node>, l: Lists, x: nat, i: nat)
    requires |l.place| == |s| && i < |s|
  {
    x < |s| && l.place[x].Main? && s[x].sockfd == s[i].sockfd && (l.place[i].Seed? ==> l.place[i].server == x)
  }

  // i goes with n and holds the socket v as its own.
  ghost predicate Gives(s: seq<Node>, l: Lists, n: nat, v: int, i: int)
    requires |l.place| == |s|
  {
    0 <= i < |s| && Gone(l, n, i) && !Borrows(s[i]) && s[i].sockfd == v
  }

  // The k-th of the seeds q holds the socket v as its own.
  predicate Holds(s: seq<Node>, q: seq<nat>, v: int, k: nat) {
    k < |q| && q[k] < |s| && s[q[k]].protocol == TCP && s[q[k]].sockfd == v
  }

  lemma {:induction false} NoSeedSocket(s: seq<Node>, q: seq<nat>, v: int)
    requires forall k :: 0 <= k < |q| ==> q[k] < |s| && !Holds(s, q, v, k)
    ensures v !in SeedSockets(s, q)
  {
    if q != [] {
      var n := |q| - 1;
      forall k | 0 <= k < n
        ensures q[..n][k] < |s| && !Holds(s, q[..n], v, k)
      {
        assert !Holds(s, q, v, k);
      }
      NoSeedSocket(s, q[..n], v);
      assert !Holds(s, q, v, n);
    }
  }

  lemma {:induction false} OneSeedSocket(s: seq<Node>, q: seq<nat>, v: int, k0: nat)
    requires (forall k :: 0 <= k < |q| ==> q[k] < |s|) && v != NIL
    requires forall k :: 0 <= k < |q| ==> (Holds(s, q, v, k) <==> k == k0)
    requires k0 < |q|
    ensures multiset(SeedSockets(s, q))[v] == 1
  {
    var n := |q| - 1;
    forall k | 0 <= k < n
      ensures Holds(s, q[..n], v, k) <==> k == k0
    {
      assert Holds(s, q, v, k) <==> k == k0;
    }
    assert Holds(s, q, v, n) <==> n == k0;
    if k0 == n {
      NoSeedSocket(s, q[..n], v);
    } else {
      OneSeedSocket(s, q[..n], v, k0);
    }
  }

  // Deleting n closes a socket once if a node that goes with n holds it as its own, and not otherwise.
  lemma ClosingCount(s: seq<Node>, l: Lists, n: nat, v: int)
    requires Shape(s, l) && |l.place| == |s| && Owned(s, l) && n < |s| && InUse(l, n) && v != NIL
    ensures multiset(Closing(s, l, n))[v] == if exists i :: Gives(s, l, n, v, i) then 1 else 0
  {
    SeedsOnce(s, l, n);
    GoneMeans(s, l, n);
    SeedsInPool(s, l, n);
    hide Shape, Owned, OwnSocket;
    if i :| Gives(s, l, n, v, i) {
      if i == n {
        OnlyNode(s, l, n, v);
        NoSeedSocket(s, l.seeds[n], v);
      } else {
        var k0 :| 0 <= k0 < |l.seeds[n]| && l.seeds[n][k0] == i;
        OnlySeed(s, l, n, v, i, k0);
        OneSeedSocket(s, l.seeds[n], v, k0);
      }
    } else {
      NoneGives(s, l, n, v);
      NoSeedSocket(s, l.seeds[n], v);
    }
  }

  lemma OnlyNode(s: seq<Node>, l: Lists, n: nat, v: int)
    requires Shape(s, l) && |l.place| == |l.seeds| == |s| && Owned(s, l) && n < |s| && InUse(l, n) && v != NIL
    requires Gives(s, l, n, v, n)
    ensures forall k :: 0 <= k < |l.seeds[n]| ==> !Holds(s, l.seeds[n], v, k)
    ensures OwnSocket(s[n]) == [v]
  {
    SeedsOnce(s, l, n);
    hide Shape;
    forall k | 0 <= k < |l.seeds[n]|
      ensures !Holds(s, l.seeds[n], v, k)
    {
      assert InUse(l, l.seeds[n][k]) && l.seeds[n][k] != n;
    }
  }

  lemma NoneGives(s: seq<Node>, l: Lists, n: nat, v: int)
    requires Shape(s, l) && |l.place| == |l.seeds| == |s| && n < |s| && v != NIL && !exists i :: Gives(s, l, n, v, i)
    ensures forall k :: 0 <= k < |l.seeds[n]| ==> !Holds(s, l.seeds[n], v, k)
    ensures v !in OwnSocket(s[n])
  {
    SeedsInPool(s, l, n);
    forall k | 0 <= k < |l.seeds[n]|
      ensures !Holds(s, l.seeds[n], v, k)
    {
      assert !Gives(s, l, n, v, l.seeds[n][k]) && Gone(l, n, l.seeds[n][k]);
    }
    assert !Gives(s, l, n, v, n);
  }

  lemma OnlySeed(s: seq<Node>, l: Lists, n: nat, v: int, i: nat, k0: nat)
    requires Shape(s, l) && |l.place| == |l.seeds| == |s| && Owned(s, l) && n < |s| && InUse(l, n) && v != NIL
    requires Gives(s, l, n, v, i) && i != n && k0 < |l.seeds[n]| && l.seeds[n][k0] == i
    ensures forall k :: 0 <= k < |l.seeds[n]| ==> (Holds(s, l.seeds[n], v, k) <==> k == k0)
    ensures v !in OwnSocket(s[n])
  {
    SeedsOnce(s, l, n);
    var q := l.seeds[n];
    assert InUse(l, i);
    hide Shape;
    forall k | 0 <= k < |q|
      ensures Holds(s, q, v, k) <==> k == k0
    {
      assert InUse(l, q[k]) && (k != k0 ==> q[k] != i);
    }
  }

  // The seeds of n are different nodes in use, none of them n itself.
  lemma SeedsOnce(s: seq<Node>, l: Lists, n: nat)
    requires Shape(s, l) && n < |s| && InUse(l, n)
    ensures |l.place| == |l.seeds| == |s| && NoDup(l.seeds[n]) && n !in l.seeds[n]
    ensures forall k :: 0 <= k < |l.seeds[n]| ==> InUse(l, l.seeds[n][k]) && s[l.seeds[n][k]].role == SEED
  {
    SeedsInPool(s, l, n);
    if n in l.seeds[n] {
      ServerLinked(s, l, n);
    }
  }

  lemma {:induction false} SeedSocketsValid(s: seq<Node>, q: seq<nat>)
    requires forall k :: 0 <= k < |q| ==> q[k] < |s|
    ensures NIL !in SeedSockets(s, q)
  {
    if q != [] {
      SeedSocketsValid(s, q[..|q| - 1]);
    }
  }

  lemma ClosingValid(s: seq<Node>, l: Lists, n: nat)
    requires Shape(s, l) && n < |s|
    ensures NIL !in Closing(s, l, n)
  {
    SeedsInPool(s, l, n);
    SeedSocketsValid(s, l.seeds[n]);
  }

  // The node that holds the socket of a linked node as its own: the node itself, or its server.
  lemma Owner(s: seq<Node>, l: Lists, i: nat) returns (o: nat)
    requires Shape(s, l) && Owned(s, l) && IsLinked(l, i)
    ensures o < |s| && InUse(l, o) && !Borrows(s[o]) && s[o].sockfd == s[i].sockfd
    ensures o == i || (l.place[i] == Seed(o) && l.place[o].Main?)
  {
    o := i;
    if Borrows(s[i]) {
      var x: nat :| Lends(s, l, x, i);
      assert l.place[i].Seed?;
      ServerLinked(s, l, i);
      o := x;
    }
  }

  // No socket that goes with n is held by a node that stays linked.
  lemma NothingNeededClosed(s: seq<Node>, l: Lists, n: nat, v: int, i: nat)
    requires Shape(s, l) && Owned(s, l) && n < |s| && InUse(l, n) && v in Closing(s, l, n)
    requires IsLinked(l, i) && !Gone(l, n, i)
    ensures v != NIL && s[i].sockfd != v
  {
    ClosingValid(s, l, n);
    ClosingCount(s, l, n, v);
    var g :| Gives(s, l, n, v, g);
    var o := Owner(s, l, i);
    GoneInUse(s, l, n, g);
    assert !Gone(l, n, o);
  }

  lemma GoneInUse(s: seq<Node>, l: Lists, n: nat, g: nat)
    requires Shape(s, l) && n < |s| && InUse(l, n) && g < |s| && Gone(l, n, g)
    ensures InUse(l, g) && (g == n || (l.place[g] == Seed(n) && l.place[n].Main?))
  {
    if g != n {
      ServerLinked(s, l, g);
    }
  }

  // A valid socket that only nodes going with n hold is closed once.
  lemma ReleasedClosedOnce(s: seq<Node>, l: Lists, n: nat, g: nat)
    requires Shape(s, l) && Owned(s, l) && n < |s| && InUse(l, n) && g < |s| && Gone(l, n, g) && s[g].sockfd != NIL
    requires forall i :: InUse(l, i) && !Gone(l, n, i) ==> s[i].sockfd != s[g].sockfd
    ensures multiset(Closing(s, l, n))[s[g].sockfd] == 1
  {
    var v := s[g].sockfd;
    GoneInUse(s, l, n, g);
    ClosingCount(s, l, n, v);
    if Borrows(s[g]) {
      var x: nat :| Lends(s, l, x, g);
      assert InUse(l, x) && Gone(l, n, x);
      assert x == n;
      if l.place[g].Seed? {
        ServerLinked(s, l, g);
      }
      assert Gives(s, l, n, v, x);
    } else {
      assert Gives(s, l, n, v, g);
    }
  }

  // Deleting keeps the sockets owned, unless a node that is not hung yet borrows from n.
  lemma DeleteKeepsOwned(s: seq<Node>, l: Lists, n: nat, t: seq<Node>)
    requires Shape(s, l) && Owned(s, l) && 0 < n < |s| && InUse(l, n) && KeptBodies(t, s, Deleted(l, n))
    requires forall i :: InUse(l, i) && l.place[i].Floating? && Borrows(s[i]) ==> s[i].sockfd != s[n].sockfd
    ensures Owned(t, Deleted(l, n))
  {
    var m := Deleted(l, n);
    forall i | InUse(m, i)
      ensures InUse(l, i) && !Gone(l, n, i) && m.place[i] == l.place[i] && SameBody(t[i], s[i])
    {}
    forall i | InUse(m, i) && Borrows(t[i])
      ensures exists x :: Lends(t, m, x, i)
    {
      var x: nat :| Lends(s, l, x, i);
      assert !Gone(l, n, x);
      assert InUse(m, x) && SameBody(t[x], s[x]);
      assert Lends(t, m, x, i);
    }
  }

  // No node in use holds the valid socket of g any more.
  ghost predicate OnlyThere(s: seq<Node>, t: seq<Node>, m: Lists, g: nat)
    requires |t| == |m.place| && g < |s|
  {
    s[g].sockfd != NIL && forall i :: InUse(m, i) ==> t[i].sockfd != s[g].sockfd
  }

  // Between s and t nothing was closed that a linked node still needs, and what only released slots
  // held was closed once.
  ghost predicate RightlyClosed(s: seq<Node>, l: Lists, t: seq<Node>, m: Lists, released: seq<int>)
    requires |l.place| == |s| && |t| == |m.place|
  {
    && (forall v, i :: v in released && IsLinked(m, i) ==> t[i].sockfd != v)
    && (forall g: nat :: InUse(l, g) && !InUse(m, g) && OnlyThere(s, t, m, g) ==> multiset(released)[s[g].sockfd] == 1)
  }

  // What deleting n closes, seen from the pool t that it leaves.
  lemma DeletionCloses(s: seq<Node>, l: Lists, n: nat, t: seq<Node>)
    requires Shape(s, l) && Owned(s, l) && 0 < n < |s| && l.place[n] != Free && KeptBodies(t, s, Deleted(l, n))
    ensures var m, c := Deleted(l, n), Closing(s, l, n);
            |t| == |m.place| == |s| && RightlyClosed(s, l, t, m, c)
  {
    var m, c := Deleted(l, n), Closing(s, l, n);
    PlacesOf(s, l, n);
    StillInUse(s, l, n, t);
    hide Shape, Owned, Closing, Deleted, KeptBodies, Gone;
    assert |t| == |m.place| == |s|;
    forall v, i | v in c && IsLinked(m, i)
      ensures t[i].sockfd != v
    {
      assert InUse(m, i);
      NothingNeededClosed(s, l, n, v, i);
    }
    forall g | InUse(l, g) && !InUse(m, g) && OnlyThere(s, t, m, g)
      ensures multiset(c)[s[g].sockfd] == 1
    {
      ReleasedClosedOnce(s, l, n, g);
    }
  }

  lemma PlacesOf(s: seq<Node>, l: Lists, n: nat)
    requires Shape(s, l) && 0 < n < |s| && l.place[n] != Free
    ensures InUse(l, n) && |l.place| == |s|
  {}

  lemma StillInUse(s: seq<Node>, l: Lists, n: nat, t: seq<Node>)
    requires |l.place| == |s| && n < |s| && KeptBodies(t, s, Deleted(l, n))
    ensures var m := Deleted(l, n);
            && |t| == |m.place| == |s|
            && (forall i :: InUse(m, i) <==> InUse(l, i) && !Gone(l, n, i))
            && (forall i :: IsLinked(m, i) <==> IsLinked(l, i) && !Gone(l, n, i))
            && (forall i :: InUse(m, i) ==> t[i].sockfd == s[i].sockfd)
  {
    var m := Deleted(l, n);
    assert forall i :: InUse(m, i) ==> SameBody(t[i], s[i]);
  }

  /// Closing everything

  // The socket v of the linked node i is closed when its owner's node of the main list goes, once.
  lemma {:induction false} ClosedByCount(s: seq<Node>, l: Lists, k: nat, o: nat, at: nat)
    requires Shape(s, l) && Owned(s, l) && k <= |l.main| && at < |l.main|
    requires o < |s| && InUse(l, o) && !Borrows(s[o]) && s[o].sockfd != NIL && Gone(l, l.main[at], o)
    ensures multiset(ClosedBy(s, l, k))[s[o].sockfd] == if at < k then 1 else 0
  {
    hide ClosedBy, Closing, Owned, Gone;
    if k == 0 {
      NothingClosedYet(s, l);
    } else {
      ClosedByCount(s, l, k - 1, o, at);
      MainWalk(s, l, k);
      MainWalk(s, l, at + 1);
      CloseStep(s, l, k);
      CountAt(s, l, k - 1, o, at);
    }
  }

  lemma NothingClosedYet(s: seq<Node>, l: Lists)
    requires Shape(s, l)
    ensures ClosedBy(s, l, 0) == []
  {}

  lemma CountAt(s: seq<Node>, l: Lists, k: nat, o: nat, at: nat)
    requires Shape(s, l) && Owned(s, l) && k < |l.main| && at < |l.main| && l.main[k] < |s|
    requires o < |s| && InUse(l, o) && !Borrows(s[o]) && s[o].sockfd != NIL && Gone(l, l.main[at], o)
    ensures multiset(Closing(s, l, l.main[k]))[s[o].sockfd] == if at == k then 1 else 0
  {
    var n, v := l.main[k], s[o].sockfd;
    MainWalk(s, l, k + 1);
    ClosingCount(s, l, n, v);
    if at == k {
      assert Gives(s, l, n, v, o);
    } else {
      forall i | 0 <= i < |s| && Gone(l, n, i) && !Borrows(s[i])
        ensures s[i].sockfd != v
      {
        OtherDiffers(s, l, at, k, o, i);
      }
    }
  }

  lemma CloseStep(s: seq<Node>, l: Lists, k: nat)
    requires Shape(s, l) && 0 < k <= |l.main| && l.main[k - 1] < |s|
    ensures ClosedBy(s, l, k) == ClosedBy(s, l, k - 1) + Closing(s, l, l.main[k - 1])
  {
    hide Closing;
  }

  lemma OtherDiffers(s: seq<Node>, l: Lists, at: nat, k: nat, o: nat, i: nat)
    requires Shape(s, l) && Owned(s, l) && k < |l.main| && at < |l.main| && at != k
    requires o < |s| && InUse(l, o) && !Borrows(s[o]) && s[o].sockfd != NIL && Gone(l, l.main[at], o)
    requires i < |s| && Gone(l, l.main[k], i) && !Borrows(s[i])
    ensures s[i].sockfd != s[o].sockfd
  {
    MainWalk(s, l, k + 1);
    MainWalk(s, l, at + 1);
    var n, x := l.main[k], l.main[at];
    assert n != x && l.place[n].Main? && l.place[x].Main?;
    GoneInUse(s, l, n, i);
    GoneInUse(s, l, x, o);
    assert i != o;
  }

  // Closing everything closes each valid socket of a linked node once.
  lemma AllClosedOnce(s: seq<Node>, l: Lists, i: nat)
    requires Shape(s, l) && Owned(s, l) && IsLinked(l, i) && s[i].sockfd != NIL
    ensures multiset(ClosedBy(s, l, |l.main|))[s[i].sockfd] == 1
  {
    var o := Owner(s, l, i);
    var x := o;
    if l.place[o].Seed? {
      x := l.place[o].server;
      ServerLinked(s, l, o);
    }
    assert x in l.main;
    var at :| 0 <= at < |l.main| && l.main[at] == x;
    ClosedByCount(s, l, |l.main|, o, at);
  }
}
