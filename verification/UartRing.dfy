/**
 The receive ring of the UART socket: the interrupt writes at prxwrite, the reader takes from
 prxread, and rxoverlap tells a wrapped ring from an unwrapped one.
 */
module UartRing {
  import opened Sequences

  const SIZE := 1024

  /// What the ring should look like from outside

  // All bytes that came in, the ones waiting, and the ones handed to readers.
  datatype Line = Line(received: seq<bv8>, unread: seq<bv8>, out: seq<bv8>)

  datatype Event = Byte(b: bv8) | Fetch(size: nat)

  // The slot the next byte goes to after n bytes.
  function WriteIndex(n: nat): (k: nat)
    ensures k < SIZE
  {
    n % SIZE
  }

  lemma WriteIndexStep(n: nat)
    ensures WriteIndex(n + 1) == if WriteIndex(n) == SIZE - 1 then 0 else WriteIndex(n) + 1
  {}

  // A byte that meets a full ring costs the oldest one, or all of them when the write index stands
  // on the last slot.
  function Arrive(l: Line, b: bv8): Line {
    var unread :=
      if |l.unread| < SIZE then l.unread + [b]
      else if WriteIndex(|l.received|) == SIZE - 1 then [b]
      else l.unread[1..] + [b];
    Line(l.received + [b], unread, l.out)
  }

  function Count(l: Line, size: nat): (n: nat)
    ensures n <= |l.unread|
  {
    if size < |l.unread| then size else |l.unread|
  }

  function Hand(l: Line, size: nat): Line {
    var n := Count(l, size);
    Line(l.received, l.unread[n..], l.out + l.unread[..n])
  }

  function Run(events: seq<Event>): Line {
    if events == [] then Line([], [], [])
    else
      Step(Run(events[..|events| - 1]), events[|events| - 1])
  }

  function Step(l: Line, e: Event): Line {
    match e
    case Byte(b) => Arrive(l, b)
    case Fetch(size) => Hand(l, size)
  }

  // No byte ever came in on a full ring.
  predicate NeverFull(events: seq<Event>) {
    events == [] ||
    var rest := events[..|events| - 1];
    NeverFull(rest) && (events[|events| - 1].Byte? ==> |Run(rest).unread| < SIZE)
  }

  // s can be got from t by leaving elements out.
  predicate Within(s: seq<bv8>, t: seq<bv8>)
    decreases |t|
  {
    s == [] ||
    (t != [] && (Within(s, t[..|t| - 1]) ||
                 (s[|s| - 1] == t[|t| - 1] && Within(s[..|s| - 1], t[..|t| - 1]))))
  }

  lemma {:induction false} WithinGrows(s: seq<bv8>, t: seq<bv8>, more: seq<bv8>)
    requires Within(s, t)
    ensures Within(s, t + more)
    decreases |more|
  {
    if more == [] {
      assert t + more == t;
    } else {
      WithinGrows(s, t, more[..|more| - 1]);
      assert (t + more)[..|t + more| - 1] == t + more[..|more| - 1];
    }
  }

  lemma {:induction false} WithinJoins(s: seq<bv8>, t: seq<bv8>, x: seq<bv8>)
    requires Within(s, t)
    ensures Within(s + x, t + x)
    decreases |x|
  {
    if x == [] {
      assert s + x == s && t + x == t;
    } else {
      var y := x[..|x| - 1];
      WithinJoins(s, t, y);
      assert (s + x)[..|s + x| - 1] == s + y && (t + x)[..|t + x| - 1] == t + y;
    }
  }

  // The unread bytes are the newest ones received, without a gap, and what the readers got came
  // before them, in order and without repetition.
  predicate InOrder(l: Line) {
    && |l.unread| <= SIZE && |l.unread| <= |l.received|
    && var gone := |l.received| - |l.unread|;
       l.unread == l.received[gone..] && Within(l.out, l.received[..gone])
  }

  lemma ArriveInOrder(l: Line, b: bv8)
    requires InOrder(l)
    ensures InOrder(Arrive(l, b))
  {
    hide Within;
    var l' := Arrive(l, b);
    var gone, gone' := |l.received| - |l.unread|, |l'.received| - |l'.unread|;
    assert l'.received[..gone'] == l.received[..gone] + l.received[gone..gone'];
    WithinGrows(l.out, l.received[..gone], l.received[gone..gone']);
  }

  lemma HandInOrder(l: Line, size: nat)
    requires InOrder(l)
    ensures InOrder(Hand(l, size))
  {
    hide Within;
    var n, gone := Count(l, size), |l.received| - |l.unread|;
    WithinJoins(l.out, l.received[..gone], l.unread[..n]);
    assert l.received[..gone + n] == l.received[..gone] + l.unread[..n];
  }

  lemma {:induction false} RunInOrder(events: seq<Event>)
    ensures InOrder(Run(events))
  {
    if events != [] {
      var rest := events[..|events| - 1];
      RunInOrder(rest);
      hide InOrder;
      match events[|events| - 1]
      case Byte(b) => ArriveInOrder(Run(rest), b);
      case Fetch(size) => HandInOrder(Run(rest), size);
    }
  }

  // How many bytes met a full ring, and how many of these when the write index stood on the last slot.
  function MetFull(events: seq<Event>): nat {
    if events == [] then 0
    else
      var rest := events[..|events| - 1];
      MetFull(rest) + if events[|events| - 1].Byte? && |Run(rest).unread| == SIZE then 1 else 0
  }

  function MetFullAtLast(events: seq<Event>): nat {
    if events == [] then 0
    else
      var rest, l := events[..|events| - 1], Run(events[..|events| - 1]);
      MetFullAtLast(rest)
      + if events[|events| - 1].Byte? && |l.unread| == SIZE && WriteIndex(|l.received|) == SIZE - 1 then 1 else 0
  }

  // Every byte received was handed out or is still waiting.
  predicate Whole(l: Line) {
    l.out + l.unread == l.received
  }

  function Held(l: Line): nat {
    |l.out| + |l.unread|
  }

  // The loss of every run: one byte for each that met a full ring, and 1023 more for each that did so
  // at the last slot.
  lemma {:induction false} ExactLoss(events: seq<Event>)
    ensures |Run(events).received| == Held(Run(events)) + MetFull(events) + (SIZE - 1) * MetFullAtLast(events)
  {
    if events != [] {
      var rest := events[..|events| - 1];
      ExactLoss(rest);
      RunInOrder(rest);
      if events[|events| - 1].Fetch? {
        HandHeld(Run(rest), events[|events| - 1].size);
      }
    }
  }

  lemma HandHeld(l: Line, size: nat)
    ensures Held(Hand(l, size)) == Held(l) && (Whole(l) ==> Whole(Hand(l, size)))
  {
    var n := Count(l, size);
    assert (l.out + l.unread[..n]) + l.unread[n..] == l.out + l.unread;
  }

  lemma {:induction false} MetNone(events: seq<Event>)
    ensures NeverFull(events) <==> MetFull(events) == 0
    ensures MetFullAtLast(events) <= MetFull(events)
    ensures NeverFull(events) ==> Whole(Run(events))
  {
    if events != [] {
      var rest, l := events[..|events| - 1], Run(events[..|events| - 1]);
      MetNone(rest);
      RunInOrder(rest);
      match events[|events| - 1]
      case Byte(b) => assert l.out + (l.unread + [b]) == (l.out + l.unread) + [b];
      case Fetch(size) => HandHeld(l, size);
    }
  }

  // Nothing is lost exactly when no byte comes in on a full ring.
  lemma Lossless(events: seq<Event>)
    ensures var l := Run(events);
            && Held(l) <= |l.received|
            && (NeverFull(events) <==> Held(l) == |l.received|)
            && (NeverFull(events) <==> Whole(l))
  {
    ExactLoss(events);
    MetNone(events);
  }

  function Bytes(bs: seq<bv8>): (events: seq<Event>)
    ensures |events| == |bs|
  {
    if bs == [] then [] else Bytes(bs[..|bs| - 1]) + [Byte(bs[|bs| - 1])]
  }

  lemma RunStep(events: seq<Event>, e: Event)
    ensures Run(events + [e]) == Step(Run(events), e)
  {
    assert (events + [e])[..|events|] == events;
  }

  // Bytes that the ring has room for are all kept.
  lemma {:induction false} BytesKept(events: seq<Event>, bs: seq<bv8>)
    requires |Run(events).unread| + |bs| <= SIZE
    ensures var l := Run(events);
            Run(events + Bytes(bs)) == Line(l.received + bs, l.unread + bs, l.out)
    decreases |bs|
  {
    var l := Run(events);
    if bs == [] {
      assert events + [] == events && l.received + [] == l.received && l.unread + [] == l.unread;
    } else {
      var front, b := bs[..|bs| - 1], bs[|bs| - 1];
      BytesKept(events, front);
      RunStep(events + Bytes(front), Byte(b));
      assert events + Bytes(bs) == events + Bytes(front) + [Byte(b)];
      assert bs == front + [b];
      assert l.received + front + [b] == l.received + bs && l.unread + front + [b] == l.unread + bs;
    }
  }

  // All the sizes that a run of reads asks for.
  function Wanted(fetches: seq<Event>): nat {
    if fetches == [] then 0
    else
      var rest, e := fetches[..|fetches| - 1], fetches[|fetches| - 1];
      Wanted(rest) + if e.Fetch? then e.size else 0
  }

  // The line with its first n waiting bytes handed out, or all that wait.
  function Drawn(l: Line, n: nat): Line {
    if n < |l.unread| then Line(l.received, l.unread[n..], l.out + l.unread[..n])
    else Line(l.received, [], l.out + l.unread)
  }

  lemma {:induction false} FetchesDraw(events: seq<Event>, fetches: seq<Event>)
    requires forall i :: 0 <= i < |fetches| ==> fetches[i].Fetch?
    ensures Run(events + fetches) == Drawn(Run(events), Wanted(fetches))
    decreases |fetches|
  {
    hide Run, Wanted, Drawn, Hand, Arrive;
    var l := Run(events);
    if fetches == [] {
      assert events + fetches == events;
      NothingWanted();
      DrawNothing(l);
    } else {
      var rest, e := fetches[..|fetches| - 1], fetches[|fetches| - 1];
      FetchesDraw(events, rest);
      RunStep(events + rest, e);
      Assoc(events, rest, [e]);
      assert rest + [e] == fetches;
      DrawOn(l, Wanted(rest), e.size);
      MoreWanted(fetches);
    }
  }

  lemma NothingWanted()
    ensures Wanted([]) == 0
  {}

  lemma DrawNothing(l: Line)
    ensures Drawn(l, 0) == l
  {
    assert l.unread[0..] == l.unread && l.out + l.unread[..0] == l.out && l.out + [] == l.out;
  }

  lemma DrawOn(l: Line, n: nat, size: nat)
    ensures Hand(Drawn(l, n), size) == Drawn(l, n + size)
  {
    if n < |l.unread| {
      HandOn(l, n, size);
      assert l.unread[|l.unread|..] == [] && l.unread[..|l.unread|] == l.unread;
    } else {
      assert l.out + l.unread + [] == l.out + l.unread;
    }
  }

  // Reads hand out the waiting bytes in order, as many as are wanted and there are, however they are
  // split up.
  lemma FetchesHandOut(events: seq<Event>, fetches: seq<Event>)
    requires forall i :: 0 <= i < |fetches| ==> fetches[i].Fetch?
    ensures var l, l', w := Run(events), Run(events + fetches), Wanted(fetches);
            var n := if w < |l.unread| then w else |l.unread|;
            l' == Line(l.received, l.unread[n..], l.out + l.unread[..n])
  {
    var l := Run(events);
    FetchesDraw(events, fetches);
    hide Run, Wanted;
    assert l.unread[|l.unread|..] == [] && l.unread[..|l.unread|] == l.unread;
  }

  lemma MoreWanted(fetches: seq<Event>)
    requires fetches != [] && fetches[|fetches| - 1].Fetch?
    ensures Wanted(fetches) == Wanted(fetches[..|fetches| - 1]) + fetches[|fetches| - 1].size
  {}

  lemma HandOn(l: Line, n: nat, size: nat)
    requires n <= |l.unread|
    ensures var k := if n + size < |l.unread| then n + size else |l.unread|;
            Hand(Line(l.received, l.unread[n..], l.out + l.unread[..n]), size)
            == Line(l.received, l.unread[k..], l.out + l.unread[..k])
  {
    var k := if n + size < |l.unread| then n + size else |l.unread|;
    assert l.unread[..n] + l.unread[n..][..k - n] == l.unread[..k];
    assert l.unread[n..][k - n..] == l.unread[k..];
    Assoc(l.out, l.unread[..n], l.unread[n..][..k - n]);
  }

  // Bytes that fit the ring are handed out in order by whatever reads follow.
  lemma BytesHandedOut(bs: seq<bv8>, fetches: seq<Event>)
    requires |bs| <= SIZE && forall i :: 0 <= i < |fetches| ==> fetches[i].Fetch?
    ensures var n := if Wanted(fetches) < |bs| then Wanted(fetches) else |bs|;
            Run(Bytes(bs) + fetches) == Line(bs, bs[n..], bs[..n])
  {
    hide Run, Bytes, Arrive, Hand, Wanted;
    RunOfNothing();
    BytesKept([], bs);
    assert [] + Bytes(bs) == Bytes(bs) && [] + bs == bs;
    FetchesHandOut(Bytes(bs), fetches);
    var n := if Wanted(fetches) < |bs| then Wanted(fetches) else |bs|;
    assert [] + bs[..n] == bs[..n];
  }

  // Runs that lose the whole ring at once: 1023 bytes are read, 1024 more fill the ring up, and the next
  // byte is all that is left.
  lemma WholeRingLost(first: seq<bv8>, second: seq<bv8>, b: bv8)
    requires |first| == SIZE - 1 && |second| == SIZE
    ensures var l := Run(Bytes(first) + [Fetch(SIZE - 1)] + Bytes(second) + [Byte(b)]);
            l.out == first && l.unread == [b] && l.received == first + second + [b]
  {
    var read := Bytes(first) + [Fetch(SIZE - 1)];
    ReadAll(first);
    assert [] + second == second;
    hide Run, Bytes;
    BytesKept(read, second);
    RunStep(read + Bytes(second), Byte(b));
  }

  lemma ReadAll(bs: seq<bv8>)
    requires |bs| <= SIZE
    ensures Run(Bytes(bs) + [Fetch(|bs|)]) == Line(bs, [], bs)
  {
    hide Run, Bytes, Arrive, Hand;
    RunOfNothing();
    BytesKept([], bs);
    assert [] + Bytes(bs) == Bytes(bs) && [] + bs == bs;
    RunStep(Bytes(bs), Fetch(|bs|));
    HandAll(bs);
  }

  lemma HandAll(bs: seq<bv8>)
    ensures Hand(Line(bs, bs, []), |bs|) == Line(bs, [], bs)
  {}

  lemma RunOfNothing()
    ensures Run([]) == Line([], [], [])
  {}

  /// The ring

  // Where the unread byte number i lies when the reader stands at r.
  function Slot(r: nat, i: nat): (k: nat)
    requires r < SIZE && i <= SIZE
    ensures i < SIZE ==> k < SIZE
  {
    if r + i < SIZE then r + i else r + i - SIZE
  }

  ghost predicate Holds(buf: seq<bv8>, r: nat, unread: seq<bv8>)
    requires |buf| == SIZE && r < SIZE
  {
    |unread| <= SIZE && forall i :: 0 <= i < |unread| ==> buf[Slot(r, i)] == unread[i]
  }

  lemma HoldsMore(buf: seq<bv8>, r: nat, unread: seq<bv8>, b: bv8)
    requires |buf| == SIZE && r < SIZE && |unread| < SIZE && Holds(buf, r, unread)
    ensures Holds(buf[Slot(r, |unread|) := b], r, unread + [b])
  {}

  lemma HoldsNext(buf: seq<bv8>, r: nat, unread: seq<bv8>, b: bv8)
    requires |buf| == SIZE && r < SIZE && |unread| == SIZE && Holds(buf, r, unread)
    ensures Holds(buf[r := b], Slot(r, 1), unread[1..] + [b])
  {
    var u, s := buf[r := b], Slot(r, 1);
    forall i | 0 <= i < SIZE
      ensures u[Slot(s, i)] == (unread[1..] + [b])[i]
    {
      assert i < SIZE - 1 ==> Slot(s, i) == Slot(r, i + 1) != r && buf[Slot(r, i + 1)] == unread[i + 1];
    }
  }

  lemma HoldsRest(buf: seq<bv8>, r: nat, unread: seq<bv8>, n: nat)
    requires |buf| == SIZE && r < SIZE && n <= |unread| && Holds(buf, r, unread)
    requires Slot(r, n) < SIZE
    ensures Holds(buf, Slot(r, n), unread[n..])
  {
    var s := Slot(r, n);
    forall i | 0 <= i < |unread| - n
      ensures buf[Slot(s, i)] == unread[n..][i]
    {
      assert Slot(s, i) == Slot(r, n + i) && unread[n..][i] == unread[n + i];
    }
  }

  lemma SlotAhead(r: nat, i: nat)
    requires r < SIZE && i <= SIZE
    ensures Slot(r, i) == if r + i < SIZE then r + i else r + i - SIZE
  {}

  lemma HoldsOne(buf: seq<bv8>, r: nat, b: bv8)
    requires |buf| == SIZE && r < SIZE && buf[r] == b
    ensures Holds(buf, r, [b])
  {}

  // What the ring holds once b stands at the write index, and where the reader must be for that.
  lemma ArriveHolds(buf: seq<bv8>, r: nat, w: nat, l: Line, b: bv8)
    requires |buf| == SIZE && r < SIZE && Holds(buf, r, l.unread)
    requires w == WriteIndex(|l.received|) == Slot(r, |l.unread|) < SIZE
    ensures var u := Arrive(l, b).unread;
            && |u| == (if |l.unread| < SIZE then |l.unread| + 1 else if w == SIZE - 1 then 1 else SIZE)
            && Arrive(l, b).received == l.received + [b]
            && Holds(buf[w := b], if |l.unread| < SIZE then r else if w == SIZE - 1 then w else w + 1, u)
  {
    assert |l.unread| <= SIZE;
    hide Holds, WriteIndex;
    if |l.unread| < SIZE {
      HoldsMore(buf, r, l.unread, b);
      assert Arrive(l, b).unread == l.unread + [b];
    } else if w == SIZE - 1 {
      assert buf[w := b][w] == b;
      HoldsOne(buf[w := b], w, b);
    } else {
      SlotAhead(r, SIZE);
      SlotAhead(r, 1);
      HoldsNext(buf, r, l.unread, b);
    }
  }

  class Ring {
    const recvBuf: array<bv8>
    var prxread: nat
    var prxwrite: nat
    var rxoverlap: bool
    ghost var line: Line

    ghost predicate Valid()
      reads this, recvBuf
    {
      && recvBuf.Length == SIZE && prxread < SIZE
      && prxwrite == WriteIndex(|line.received|)
      && (if rxoverlap then prxwrite <= prxread else prxread <= prxwrite)
      && |line.unread| == Waiting()
      && Holds(recvBuf[..], prxread, line.unread)
    }

    function Waiting(): int
      reads this
    {
      if rxoverlap then SIZE - prxread + prxwrite else prxwrite - prxread
    }

    constructor ()
      ensures Valid() && line == Run([])
    {
      recvBuf := new bv8[SIZE](_ => 0);
      prxread, prxwrite, rxoverlap := 0, 0, false;
      line := Line([], [], []);
    }

    // The receive interrupt.
    method RxIrq(b: bv8)
      requires Valid()
      modifies this, recvBuf
      ensures Valid() && line == Arrive(old(line), b)
    {
      hide Holds, Slot, WriteIndex;
      WriteIndexStep(|line.received|);
      ghost var w, r, l := prxwrite, prxread, line;
      ghost var buf := recvBuf[..][w := b];
      SlotAhead(r, |l.unread|);
      ArriveHolds(recvBuf[..], r, w, l, b);
      recvBuf[prxwrite] := b;
      assert recvBuf[..] == buf;
      prxwrite := prxwrite + 1;
      if prxwrite > SIZE - 1 {
        prxwrite := 0;
        rxoverlap := true;
      }
      if rxoverlap && prxwrite + 1 > prxread {
        prxread := prxwrite;
      }
      line := Arrive(line, b);
      hide Arrive;
      assert prxread == if |l.unread| < SIZE then r else if w == SIZE - 1 then w else w + 1;
    }

    method Read(readBuf: array<bv8>, size: nat) returns (ret: int)
      requires Valid() && size <= readBuf.Length && readBuf != recvBuf
      modifies this, readBuf
      ensures Valid()
      ensures size == 0 ==> ret == -1 && line == old(line)
      ensures size > 0 ==> ret == Count(old(line), size) && line == Hand(old(line), size)
      ensures size > 0 ==> 0 <= ret <= size && ret <= |old(line.unread)| && (ret == size || ret == |old(line.unread)|)
      ensures size > 0 ==> readBuf[..ret] == old(line.unread)[..ret] && line.unread == old(line.unread)[ret..]
      ensures forall k :: (if ret < 0 then 0 else ret) <= k < readBuf.Length ==> readBuf[k] == old(readBuf[k])
    {
      hide Holds, WriteIndex;
      if size == 0 {
        return -1;
      }
      var pread, pwrite := prxread, prxwrite;
      var readBytes: int;
      if !rxoverlap {
        readBytes := pwrite - pread;
      } else {
        readBytes := (SIZE - pread) + pwrite;
      }
      if size < readBytes {
        readBytes := size;
      }
      CopyUnread(readBuf, readBytes);
      if pread + readBytes >= SIZE {
        prxread := (pread + readBytes) - SIZE;
        rxoverlap := false;
      } else {
        prxread := pread + readBytes;
      }
      SlotAhead(pread, readBytes);
      HoldsRest(recvBuf[..], pread, line.unread, readBytes);
      line := Hand(line, size);
      ret := readBytes;
    }

    method CopyUnread(readBuf: array<bv8>, n: nat)
      requires Valid() && n <= |line.unread| && n <= readBuf.Length && readBuf != recvBuf
      modifies readBuf
      ensures readBuf[..n] == line.unread[..n]
      ensures forall k :: n <= k < readBuf.Length ==> readBuf[k] == old(readBuf[k])
    {
      if !rxoverlap {
        CopyOut(readBuf, 0, prxread, n);
      } else if prxread + n > SIZE {
        CopyOut(readBuf, 0, prxread, SIZE - prxread);
        CopyOut(readBuf, SIZE - prxread, 0, n - (SIZE - prxread));
      } else {
        CopyOut(readBuf, 0, prxread, n);
      }
      forall i | 0 <= i < n
        ensures readBuf[i] == line.unread[i]
      {
        assert recvBuf[..][Slot(prxread, i)] == line.unread[i];
      }
    }

    method CopyOut(to: array<bv8>, at: nat, from: nat, n: nat)
      requires at + n <= to.Length && from + n <= recvBuf.Length && to != recvBuf
      modifies to
      ensures forall k :: 0 <= k < to.Length ==> to[k] == if at <= k < at + n then recvBuf[from + k - at] else old(to[k])
    {
      var i := 0;
      while i < n
        invariant i <= n
        invariant forall k :: 0 <= k < to.Length ==> to[k] == if at <= k < at + i then recvBuf[from + k - at] else old(to[k])
      {
        to[at + i] := recvBuf[from + i];
        i := i + 1;
      }
    }
  }

  // Any interleaving of interrupts and whole reads keeps the ring on the line that Run describes.
  method Replay(ring: Ring, events: seq<Event>, buf: array<bv8>)
    requires ring.Valid() && ring.line == Run([]) && buf != ring.recvBuf
    requires forall i :: 0 <= i < |events| && events[i].Fetch? ==> 0 < events[i].size <= buf.Length
    modifies ring, ring.recvBuf, buf
    ensures ring.Valid() && ring.line == Run(events)
  {
    var i := 0;
    while i < |events|
      invariant i <= |events| && ring.Valid() && ring.line == Run(events[..i])
    {
      assert events[..i + 1][..i] == events[..i];
      match events[i] {
        case Byte(b) => ring.RxIrq(b);
        case Fetch(size) => var _ := ring.Read(buf, size);
      }
      i := i + 1;
    }
    assert events[..i] == events;
  }
}
