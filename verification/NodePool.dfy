/**
 The connection nodes of the AT socket commands: creating, hanging, finding and deleting the slots of
 a fixed pool.
 */
module NodePool {
  import opened NodeLists
  import opened NodeSockets

  class Pool {
    const pool: array<Node>
    // The head of the main list, a node of its own in the first slot.
    var mainlist: nat
    ghost var lists: Lists
    // What was closed and which tasks were ended.
    ghost var closed: seq<int>
    ghost var ended: seq<int>

    ghost predicate Valid()
      reads this, pool
    {
      Shape(pool[..], lists) && mainlist == 0
    }

    // init_node_pool, and the head that is created right after it.
    constructor (size: nat)
      requires size > 0
      ensures Valid() && fresh(pool) && pool.Length == size && closed == [] && ended == []
      ensures lists.main == [] && forall i :: 0 < i < size ==> lists.place[i] == Free
    {
      pool := new Node[size](_ => Node(NIL, 0, 0, 0, 0, 0, 0, NIL, NIL));
      mainlist := 0;
      closed, ended := [], [];
      lists := Lists([], seq(size, _ => []), seq(size, i => if i == 0 then Head else Free));
      new;
      var head := Claim(-1, -1);
      assert [0] + lists.main == [0];
    }

    method Claim(mode: int, role: int) returns (n: int)
      modifies pool
      ensures n == NIL ==> pool[..] == old(pool[..]) && forall k :: 0 <= k < pool.Length ==> pool[k].conId != NIL
      ensures n != NIL ==>
                && 0 <= n < pool.Length && old(pool[n].conId) == NIL
                && (forall k :: 0 <= k < n ==> old(pool[k].conId) != NIL)
                && pool[..] == old(pool[..])[n := Fresh(n, mode, role)]
    {
      var i := 0;
      while i < pool.Length
        invariant i <= pool.Length && forall k :: 0 <= k < i ==> pool[k].conId != NIL
        invariant pool[..] == old(pool[..])
      {
        if pool[i].conId == NIL {
          pool[i] := Fresh(i, mode, role);
          return i;
        }
        i := i + 1;
      }
      n := NIL;
    }

    // Fails only when every slot is taken.
    method CreateNode(mode: int, role: int) returns (n: int)
      requires Valid()
      modifies this`lists, pool
      ensures Valid()
      ensures n == NIL ==> pool[..] == old(pool[..]) && lists == old(lists) && forall i :: 0 <= i < pool.Length ==> lists.place[i] != Free
      ensures n != NIL ==>
                && 0 < n < pool.Length && old(lists.place[n]) == Free && lists == Moved(old(lists), n, Floating)
                && pool[..] == old(pool[..])[n := Fresh(n, mode, role)]
                && pool[n].conId == n && pool[n].sockfd == NIL && pool[n].protocol == mode && pool[n].role == role
                && pool[n].next == NIL && pool[n].nextseed == NIL && pool[n].task == 0
                && pool[n].addr == 0 && pool[n].port == 0xFFFF
    {
      n := Claim(mode, role);
      if n != NIL {
        CreateKeeps(old(pool[..]), lists, n, mode, role);
        lists := Moved(lists, n, Floating);
      }
    }

    // What the connection commands set up before they hang a node.
    method Configure(n: nat, sockfd: int, addr: nat, port: nat, task: int)
      requires Valid() && n < pool.Length && lists.place[n] == Floating
      modifies pool
      ensures Valid()
      ensures pool[..] == old(pool[..])[n := old(pool[n]).(sockfd := sockfd, addr := addr, port := port, task := task)]
    {
      ConfigureKeeps(pool[..], lists, n, sockfd, addr, port, task);
      pool[n] := pool[n].(sockfd := sockfd, addr := addr, port := port, task := task);
    }

    // The walk of hang_node: it stops at a clash, or else at the last node.
    method FindClash(n: nat) returns (clash: bool, curr: nat)
      requires Valid() && n < pool.Length
      ensures clash <==> pool[n].role == SERVER && exists x :: x in lists.main && SameBinding(pool[x], pool[n])
      ensures !clash ==> curr == ([0] + lists.main)[|lists.main|] < pool.Length
    {
      hide Shape;
      ghost var s, l := pool[..], lists;
      Sizes(s, l);
      curr := mainlist;
      ghost var k := 0;
      MainWalk(s, l, 0);
      while pool[curr].next != NIL
        invariant k <= |l.main| && curr == At(0, l.main, k) < pool.Length && pool[curr].next == Ahead(l.main, k)
        invariant pool[n].role == SERVER ==> forall m :: 0 <= m < k ==> l.main[m] < pool.Length && !SameBinding(pool[l.main[m]], pool[n])
        decreases |l.main| - k
      {
        MainWalk(s, l, k + 1);
        curr := pool[curr].next;
        k := k + 1;
        if pool[n].role == SERVER {
          if pool[curr].port == pool[n].port && pool[curr].addr == pool[n].addr && pool[curr].role == pool[n].role
             && pool[curr].protocol == pool[n].protocol {
            assert SameBinding(pool[curr], pool[n]) && curr in l.main;
            return true, curr;
          }
        }
      }
      clash := false;
    }

    // A server is refused when a linked server has the same address, port and protocol.
    method HangNode(n: nat) returns (ret: int)
      requires Valid() && n < pool.Length && lists.place[n] == Floating
      requires pool[n].role == SERVER || pool[n].role == CLIENT
      modifies this`lists, pool
      ensures Valid()
      ensures ret == if old(pool[n].role == SERVER && exists x :: x in lists.main && SameBinding(pool[x], pool[n])) then -1 else 0
      ensures ret == -1 <==>
                old(pool[n].role) == SERVER &&
                exists x :: x in old(lists.main) && old(pool[x].role) == SERVER && old(pool[x].addr) == old(pool[n].addr)
                            && old(pool[x].port) == old(pool[n].port) && old(pool[x].protocol) == old(pool[n].protocol)
      ensures ret == 0 ==> lists == HungMain(old(lists), n) && SameBodies(pool[..], old(pool[..]))
      ensures ret == 0 ==> lists.main == old(lists.main) + [n] && lists.seeds == old(lists.seeds)
      ensures ret == -1 ==> lists == old(lists) && pool[..] == old(pool[..])
    {
      var clash, curr := FindClash(n);
      if clash {
        return -1;
      }
      HangKeeps(pool[..], lists, n, curr);
      pool[curr] := pool[curr].(next := n);
      lists := HungMain(lists, n);
      ret := 0;
    }

    // A seed is refused when the server already has one with the same address and port.
    method HangSeedNode(x: nat, n: nat) returns (ret: int)
      requires Valid() && n < pool.Length && lists.place[n] == Floating && pool[n].role == SEED
      requires x < pool.Length && lists.place[x] == Main && pool[x].role == SERVER
      modifies this`lists, pool
      ensures Valid()
      ensures ret == if old(exists y :: y in lists.seeds[x] && SamePeer(pool[y], pool[n])) then -1 else 0
      ensures ret == -1 <==>
                exists y :: y in old(lists.seeds[x]) && old(pool[y].addr) == old(pool[n].addr) && old(pool[y].port) == old(pool[n].port)
      ensures ret == 0 ==> lists == HungSeed(old(lists), x, n) && SameBodies(pool[..], old(pool[..]))
      ensures ret == 0 ==> lists.main == old(lists.main) && lists.seeds == old(lists.seeds)[x := old(lists.seeds[x]) + [n]]
      ensures ret == -1 ==> lists == old(lists) && pool[..] == old(pool[..])
    {
      var clash, curr := FindPeer(x, n);
      if clash {
        return -1;
      }
      HangSeedKeeps(pool[..], lists, x, n, curr);
      pool[curr] := pool[curr].(nextseed := n);
      lists := HungSeed(lists, x, n);
      ret := 0;
    }

    method FindPeer(x: nat, n: nat) returns (clash: bool, curr: nat)
      requires Valid() && n < pool.Length && x < pool.Length && lists.place[x] == Main
      ensures clash <==> exists y :: y in lists.seeds[x] && SamePeer(pool[y], pool[n])
      ensures !clash ==> curr == ([x] + lists.seeds[x])[|lists.seeds[x]|] < pool.Length
    {
      hide Shape;
      ghost var s, l := pool[..], lists;
      Sizes(s, l);
      SeedWalk(s, l, x, 0);
      curr := x;
      ghost var k, q := 0, l.seeds[x];
      while pool[curr].nextseed != NIL
        invariant k <= |q| && curr == At(x, q, k) < pool.Length && pool[curr].nextseed == Ahead(q, k)
        invariant forall m :: 0 <= m < k ==> q[m] < pool.Length && !SamePeer(pool[q[m]], pool[n])
        decreases |q| - k
      {
        SeedWalk(s, l, x, k + 1);
        curr := pool[curr].nextseed;
        k := k + 1;
        if pool[curr].port == pool[n].port && pool[curr].addr == pool[n].addr {
          assert SamePeer(pool[curr], pool[n]) && curr in q;
          return true, curr;
        }
      }
      clash := false;
    }

    // Succeeds exactly on the ids of linked nodes.
    method SeekNode(conId: int) returns (r: int)
      requires Valid()
      ensures r == if IsLinked(lists, conId) then conId else NIL
    {
      ghost var s, l := pool[..], lists;
      Sizes(s, l);
      MainWalk(s, l, 0);
      hide Shape;
      var n := mainlist;
      ghost var k := 0;
      while pool[n].next != NIL
        invariant k <= |l.main| && n == At(0, l.main, k) < pool.Length && pool[n].next == Ahead(l.main, k)
        invariant forall m :: 0 <= m < k ==> l.main[m] != conId && !HasSeed(l, l.main[m], conId)
        decreases |l.main| - k
      {
        MainWalk(s, l, k + 1);
        n := pool[n].next;
        k := k + 1;
        if pool[n].conId == conId {
          return n;
        }
        SeedWalk(s, l, n, 0);
        if pool[n].nextseed != NIL {
          r := SeekSeed(n, conId);
          if r != NIL {
            return;
          }
        }
      }
      NotFound(s, l, conId);
      r := NIL;
    }

    method SeekSeed(n: nat, conId: int) returns (r: int)
      requires Valid() && n < pool.Length && lists.place[n] == Main && pool[n].nextseed != NIL
      ensures r == if HasSeed(lists, n, conId) then conId else NIL
    {
      ghost var s, l := pool[..], lists;
      Sizes(s, l);
      SeedWalk(s, l, n, 0);
      hide Shape;
      ghost var k, q := 0, l.seeds[n];
      var seed := n;
      while true
        invariant k < |q| && seed == At(n, q, k) < pool.Length && pool[seed].nextseed == Ahead(q, k)
        invariant forall m :: 0 <= m < k ==> q[m] != conId
        decreases |q| - k
      {
        SeedWalk(s, l, n, k + 1);
        seed := pool[seed].nextseed;
        k := k + 1;
        if pool[seed].conId == conId {
          return seed;
        }
        if pool[seed].nextseed == NIL {
          break;
        }
      }
      SeedPlaces(s, l, n);
      r := NIL;
    }

    // The inner loop of the unlinking: take n, which is number hit among the seeds q of curr, out of them.
    method CutSeed(curr: nat, n: nat, ghost q: seq<nat>, ghost hit: nat)
      requires curr < pool.Length && n < pool.Length && NoDup(q) && curr !in q
      requires Chain(NextSeeds(pool[..]), [curr] + q)
      requires hit <= |q| && (hit < |q| ==> q[hit] == n) && (hit == |q| ==> n !in q)
      modifies pool
      ensures pool[..] == SeedCut(old(pool[..]), curr, n, q, hit)
    {
      ghost var s := pool[..];
      ghost var cut := SeedCut(s, curr, n, q, hit);
      ChainWalk(NextSeeds(s), curr, q, 0);
      hide Chain;
      var precvSeed, currSeed := curr, pool[curr].nextseed;
      ghost var k := 0;
      while currSeed != NIL
        invariant k <= |q| && currSeed == Ahead(q, k) < pool.Length && precvSeed == At(curr, q, k) < pool.Length
        invariant pool[..] == if hit < k then cut else s
        decreases |q| - k
      {
        ChainWalk(NextSeeds(s), curr, q, k + 1);
        if currSeed == n {
          assert hit == k;
          pool[precvSeed] := pool[precvSeed].(nextseed := pool[n].nextseed);
          assert pool[..] == cut;
        }
        precvSeed := currSeed;
        currSeed := pool[currSeed].nextseed;
        k := k + 1;
      }
    }

    // Take n out of whatever list it is in.
    method Unlink(n: nat, ghost pred: nat, ghost j: nat, ghost at: nat)
      requires mainlist == 0 && 0 < n < pool.Length == |lists.place| && pred < pool.Length
      requires Aims(pool[..], lists, n, pred, j, at)
      modifies pool
      ensures pool[..] == Unlinked(old(pool[..]), lists, n, pred)
    {
      hide Unlinked, At, Aims;
      ghost var s, l := pool[..], lists;
      ghost var u := Unlinked(s, l, n, pred);
      StartOf(l.main);
      var prev, curr: int := mainlist, mainlist;
      ghost var k := 0;
      while curr != NIL
        invariant k <= |l.main| + 1 && 0 <= prev < pool.Length
        invariant curr == (if k <= |l.main| then At(0, l.main, k) else NIL) && curr < pool.Length
        invariant k > 0 ==> prev == At(0, l.main, k - 1)
        invariant pool[..] == if at < k then u else s
        decreases |l.main| + 1 - k
      {
        prev, curr := Round(prev, curr, n, s, l, pred, j, at, k);
        k := k + 1;
      }
      NeverMet(s, l, n, pred, j, at);
    }

    // One round of the outer loop, at the node k steps down the main list.
    method Round(prev: nat, curr: nat, n: nat, ghost s: seq<Node>, ghost l: Lists, ghost pred: nat, ghost j: nat,
                 ghost at: nat, ghost k: nat) returns (prev': nat, curr': int)
      requires Aims(s, l, n, pred, j, at) && |s| == pool.Length && n < |s| && pred < |s| && |l.place| == |s|
      requires k <= |l.main| && curr == At(0, l.main, k) < |s| && prev < |s| && (k > 0 ==> prev == At(0, l.main, k - 1))
      requires pool[..] == if at < k then Unlinked(s, l, n, pred) else s
      modifies pool
      ensures pool[..] == if at <= k then Unlinked(s, l, n, pred) else s
      ensures prev' == curr && curr' == (if k < |l.main| then At(0, l.main, k + 1) else NIL) && curr' < |s|
    {
      Visit(prev, curr, n, s, l, pred, j, at, k);
      Onward(s, l, n, pred, j, at, k);
      hide Aims, Unlinked, At;
      prev' := curr;
      curr' := pool[curr].next;
    }

    method Visit(prev: nat, curr: nat, n: nat, ghost s: seq<Node>, ghost l: Lists, ghost pred: nat, ghost j: nat,
                 ghost at: nat, ghost k: nat)
      requires Aims(s, l, n, pred, j, at) && |s| == pool.Length && n < |s| && pred < |s| && |l.place| == |s|
      requires k <= |l.main| && curr == At(0, l.main, k) < |s| && prev < |s| && (k > 0 ==> prev == At(0, l.main, k - 1))
      requires pool[..] == if at < k then Unlinked(s, l, n, pred) else s
      modifies pool
      ensures pool[..] == if at <= k then Unlinked(s, l, n, pred) else s
    {
      MainWalk(s, l, k);
      MainFacts(s, l, n, pred, j, at, k);
      OnMainList(s, l, k);
      SeedFacts(s, l, n, pred, j, curr);
      hide Shape, Places, Before, Meets, Chain, NoDup;
      if curr == n {
        pool[prev] := pool[prev].(next := pool[curr].next);
        assert pool[..] == Unlinked(s, l, n, pred);
      }
      if pool[curr].role == SERVER {
        CutSeed(curr, n, l.seeds[curr], if l.place[n] == Seed(curr) then j - 1 else |l.seeds[curr]|);
      }
    }

    method DeleteNode(n: int)
      requires Valid() && (n != NIL ==> 0 < n < pool.Length && lists.place[n] != Free)
      modifies this`lists, this`closed, this`ended, pool
      ensures Valid()
      ensures n == NIL ==> lists == old(lists) && pool[..] == old(pool[..]) && closed == old(closed) && ended == old(ended)
      ensures n != NIL ==>
                && lists == Deleted(old(lists), n)
                && closed == old(closed) + Closing(old(pool[..]), old(lists), n)
                && ended == old(ended) + (if old(pool[n].task) != 0 then [old(pool[n].task)] else [])
                && KeptBodies(pool[..], old(pool[..]), lists)
                && CutOut(old(lists), lists, n)
      ensures |lists.place| == pool.Length == |old(lists.place)|
      ensures n != NIL && old(Owned(pool[..], lists)) ==>
                RightlyClosed(old(pool[..]), old(lists), pool[..], lists, closed[|old(closed)|..])
    {
      if n == NIL {
        return;
      }
      ghost var s, l := pool[..], lists;
      DeletedCutsOut(s, l, n);
      hide Shape, KeptBodies, Deleted, CutOut, RightlyClosed, Owned, Closing;
      Remove(n);
      assert closed[|old(closed)|..] == Closing(s, l, n);
      if Owned(s, l) {
        DeletionCloses(s, l, n, pool[..]);
      }
    }

    method Remove(n: nat)
      requires Valid() && 0 < n < pool.Length && lists.place[n] != Free
      modifies this`lists, this`closed, this`ended, pool
      ensures Valid() && lists == Deleted(old(lists), n) && |lists.place| == pool.Length == |old(lists.place)|
      ensures closed == old(closed) + Closing(old(pool[..]), old(lists), n)
      ensures ended == old(ended) + (if old(pool[n].task) != 0 then [old(pool[n].task)] else [])
      ensures KeptBodies(pool[..], old(pool[..]), lists)
    {
      ghost var s, l := pool[..], lists;
      ghost var pred, j, at := Locate(s, l, n);
      Sizes(s, l);
      hide Shape, Before, Meets, KeptBodies, Deleted, Unlinked, Gone;
      assert Aims(s, l, n, pred, j, at);
      hide Aims;
      Unlink(n, pred, j, at);
      ReleaseAll(n, s, l, pred, j);
      DeleteKeeps(s, l, n, pred, j, pool[..]);
      lists := Deleted(l, n);
      Sizes(pool[..], lists);
    }

    method ReleaseAll(n: nat, ghost s: seq<Node>, ghost l: Lists, ghost pred: nat, ghost j: nat)
      requires Shape(s, l) && 0 < n < |s| == pool.Length && l.place[n] != Free && pred < |s| && Before(l, n, pred, j)
      requires pool[..] == Unlinked(s, l, n, pred)
      modifies this`closed, this`ended, pool
      ensures closed == old(closed) + Closing(s, l, n)
      ensures ended == old(ended) + (if s[n].task != 0 then [s[n].task] else [])
      ensures forall i: nat :: i < |s| ==>
                if Gone(l, n, i) then pool[i].conId == NIL else pool[i] == Unlinked(s, l, n, pred)[i]
    {
      SeedsInPool(s, l, n);
      UnlinkedBody(s, l, n, pred, n);
      GoneMeans(s, l, n);
      ghost var u, q := pool[..], l.seeds[n];
      if pool[n].role == SERVER {
        SeedsToRelease(s, l, n, pred, j);
        SameSockets(u, s, q);
        hide Shape, Before, Unlinked, Gone;
        ReleaseSeeds(n, q);
      }
      hide Shape, Before, Unlinked, Gone;
      CloseNode(n);
    }

    // Free the seeds q of a server that is already unlinked, one at a time from the front.
    method ReleaseSeeds(n: nat, ghost q: seq<nat>)
      requires n < pool.Length && NoDup(q) && n !in q && Chain(NextSeeds(pool[..]), [n] + q)
      requires forall k :: 0 <= k < |q| ==> q[k] < pool.Length
      modifies this`closed, pool
      ensures closed == old(closed) + SeedSockets(old(pool[..]), q)
      ensures pool[n] == old(pool[n]).(nextseed := NIL)
      ensures forall i: nat :: i < pool.Length && i != n ==>
                if i in q then pool[i].conId == NIL else pool[i] == old(pool[i])
    {
      ghost var u := pool[..];
      ChainWalk(NextSeeds(u), n, q, 0);
      hide Chain;
      ghost var k := 0;
      while pool[n].nextseed != NIL
        invariant k <= |q| && pool[n] == u[n].(nextseed := Ahead(q, k))
        invariant closed == old(closed) + SeedSockets(u, q[..k])
        invariant forall i: nat :: i < |u| && i != n ==> if i in q[..k] then pool[i].conId == NIL else pool[i] == u[i]
        decreases |q| - k
      {
        ChainWalk(NextSeeds(u), n, q, k + 1);
        assert q[..k + 1][..k] == q[..k] && q[k] !in q[..k];
        ReleaseFirst(n, u);
        k := k + 1;
      }
      assert q[..k] == q;
    }

    method ReleaseFirst(n: nat, ghost u: seq<Node>)
      requires n < pool.Length == |u| && 0 <= pool[n].nextseed < pool.Length && pool[n].nextseed != n
      requires pool[pool[n].nextseed] == u[pool[n].nextseed]
      modifies this`closed, pool
      ensures var c := old(pool[n].nextseed);
              && pool[n] == old(pool[n]).(nextseed := u[c].nextseed) && pool[c].conId == NIL
              && (forall i: nat :: i < pool.Length && i != n && i != c ==> pool[i] == old(pool[i]))
              && closed == old(closed) + if u[c].protocol == TCP && u[c].sockfd != NIL then [u[c].sockfd] else []
    {
      var currSeed := pool[n].nextseed;
      if pool[currSeed].protocol == TCP && pool[currSeed].sockfd != NIL {
        closed := closed + [pool[currSeed].sockfd];
        pool[currSeed] := pool[currSeed].(sockfd := NIL);
      }
      pool[n] := pool[n].(nextseed := pool[currSeed].nextseed);
      pool[currSeed] := pool[currSeed].(conId := NIL);
    }

    method CloseNode(n: nat)
      requires n < pool.Length
      modifies this`closed, this`ended, pool
      ensures closed == old(closed) + OwnSocket(old(pool[n]))
      ensures ended == old(ended) + (if old(pool[n].task) != 0 then [old(pool[n].task)] else [])
      ensures pool[n].conId == NIL && forall i :: 0 <= i < pool.Length && i != n ==> pool[i] == old(pool[i])
    {
      if !(pool[n].protocol == UDP && pool[n].role == SEED) {
        if pool[n].sockfd != NIL {
          closed := closed + [pool[n].sockfd];
          pool[n] := pool[n].(sockfd := NIL);
        }
      }
      if pool[n].task != 0 {
        ended := ended + [pool[n].task];
        pool[n] := pool[n].(task := 0);
      }
      pool[n] := pool[n].(conId := NIL);
    }

    // Every linked node goes, whatever floats stays.
    method SocketCloseAll()
      requires Valid()
      modifies this`lists, this`closed, this`ended, pool
      ensures Valid() && lists.main == []
      ensures forall i :: 0 <= i < pool.Length ==>
                lists.place[i] == if old(IsLinked(lists, i)) then Free else old(lists.place[i])
      ensures forall i :: 0 <= i < pool.Length ==> !IsLinked(lists, i)
      ensures closed == old(closed) + ClosedBy(old(pool[..]), old(lists), |old(lists.main)|)
      ensures old(Owned(pool[..], lists)) ==>
                forall i :: old(IsLinked(lists, i)) && old(pool[..])[i].sockfd != NIL ==>
                              multiset(closed[|old(closed)|..])[old(pool[..])[i].sockfd] == 1
    {
      ghost var s, l, c := pool[..], lists, closed;
      ghost var k := 0;
      Sizes(s, l);
      MainWalk(s, l, 0);
      AllKept(s, l);
      hide Shape, Remaining, ClosedBy, Closing, Deleted;
      var currNode := pool[mainlist].next;
      while currNode != NIL
        invariant Valid() && k <= |l.main| && 0 < pool.Length == |s|
        invariant Remaining(s, l, pool[..], lists, k) && currNode == Ahead(l.main, k) == pool[0].next
        invariant closed == c + ClosedBy(s, l, k)
        decreases |l.main| - k
      {
        currNode := CloseNext(currNode, s, l, c, k);
        k := k + 1;
      }
      NoneLeft(s, l, pool[..], lists, k);
      if Owned(s, l) {
        forall i | IsLinked(l, i) && s[i].sockfd != NIL
          ensures multiset(closed[|c|..])[s[i].sockfd] == 1
        {
          AllClosedOnce(s, l, i);
          assert closed[|c|..] == ClosedBy(s, l, |l.main|);
        }
      }
    }

    method CloseNext(currNode: int, ghost s: seq<Node>, ghost l: Lists, ghost c: seq<int>, ghost k: nat) returns (next: int)
      requires Valid() && Shape(s, l) && k < |l.main| && Remaining(s, l, pool[..], lists, k) && currNode == l.main[k]
      requires closed == c + ClosedBy(s, l, k)
      modifies this`lists, this`closed, this`ended, pool
      ensures Valid() && Remaining(s, l, pool[..], lists, k + 1) && 0 < pool.Length
      ensures next == Ahead(l.main, k + 1) == pool[0].next
      ensures closed == c + ClosedBy(s, l, k + 1)
    {
      hide Shape, Remaining, ClosedBy, Closing, Deleted, KeptBodies;
      ghost var s', l' := pool[..], lists;
      NextInLine(s, l, s', l', k);
      DeleteNode(currNode);
      OneLess(s, l, s', l', pool[..], k);
      next := pool[mainlist].next;
    }
  }
}
