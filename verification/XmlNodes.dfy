/**
 The XML library's nodes in memory: a store of nodes that point at their parent, first child and
 siblings, and the shape of the trees in it.
 */
module XmlNodes {
  import opened Options
  import opened XmlSyntax

  type Ptr = nat

  const NULL: Ptr := 0

  // The strings of a node.
  datatype Data = Data(name: Option<string>, text: Option<string>, prefix: Option<string>, uri: Option<string>,
                       attr: Option<string>)

  datatype Node = Node(data: Data, parent: Ptr, child: Ptr, prev: Ptr, next: Ptr)

  type Store = map<Ptr, Node>

  predicate IsElement(d: Data) {
    d.name.Some? && d.text.None?
  }

  predicate IsText(d: Data) {
    d.name.None? && d.text.Some?
  }

  // A node with everything below it. Its own parent, prev and next belong to the tree around it.
  datatype Shape = Shape(p: Ptr, data: Data, kids: seq<Shape>)

  function First(kids: seq<Shape>): Ptr {
    if kids == [] then NULL else kids[0].p
  }

  function Last(kids: seq<Shape>): Ptr {
    if kids == [] then NULL else kids[|kids| - 1].p
  }

  function Ptrs(sh: Shape): set<Ptr> {
    {sh.p} + PtrsOf(sh.kids)
  }

  function PtrsOf(kids: seq<Shape>): set<Ptr> {
    if kids == [] then {} else Ptrs(kids[0]) + PtrsOf(kids[1..])
  }

  // An element, or a text with nothing but its text.
  predicate Proper(sh: Shape) {
    IsElement(sh.data) || (IsText(sh.data) && sh.kids == [] && sh.data == Data(None, sh.data.text, None, None, None))
  }

  ghost predicate Holds(st: Store, sh: Shape)
    decreases sh, 1
  {
    && sh.p != NULL && sh.p in st && Proper(sh)
    && st[sh.p].data == sh.data
    && st[sh.p].child == First(sh.kids)
    && sh.p !in PtrsOf(sh.kids)
    && Chain(st, sh.p, NULL, sh.kids)
  }

  // The kids know their parent, are linked both ways in order, and share nothing.
  ghost predicate Chain(st: Store, parent: Ptr, prev: Ptr, kids: seq<Shape>)
    decreases kids, 0
  {
    kids == [] ||
    (&& Holds(st, kids[0])
     && st[kids[0].p].parent == parent
     && st[kids[0].p].prev == prev
     && st[kids[0].p].next == First(kids[1..])
     && Ptrs(kids[0]) !! PtrsOf(kids[1..])
     && Chain(st, parent, kids[0].p, kids[1..]))
  }

  // The tree as a value.
  function Value(sh: Shape): Xml {
    if sh.data.name.Some? then
      Element(sh.data.prefix, sh.data.name.value, sh.data.uri, sh.data.attr, Values(sh.kids))
    else
      Text(if sh.data.text.Some? then sh.data.text.value else "")
  }

  function Values(kids: seq<Shape>): (r: seq<Xml>)
    ensures |r| == |kids|
  {
    if kids == [] then [] else [Value(kids[0])] + Values(kids[1..])
  }

  // st' keeps what st holds at the given addresses.
  ghost predicate Agrees(st: Store, st': Store, ps: set<Ptr>) {
    forall p | p in ps && p in st :: p in st' && st'[p] == st[p]
  }

  // st' has the same node at p, with the same content and the same place among its neighbours.
  ghost predicate SamePlace(st: Store, st': Store, p: Ptr) {
    p in st && p in st' && st'[p] == st[p].(child := st'[p].child)
  }

  /// Facts about shapes

  lemma {:induction false} HoldsPtrs(st: Store, sh: Shape)
    requires Holds(st, sh)
    ensures Ptrs(sh) <= st.Keys && NULL !in Ptrs(sh)
    decreases sh, 1
  {
    ChainPtrs(st, sh.p, NULL, sh.kids);
  }

  lemma {:induction false} ChainPtrs(st: Store, parent: Ptr, prev: Ptr, kids: seq<Shape>)
    requires Chain(st, parent, prev, kids)
    ensures PtrsOf(kids) <= st.Keys && NULL !in PtrsOf(kids)
    decreases kids, 0
  {
    if kids != [] {
      HoldsPtrs(st, kids[0]);
      ChainPtrs(st, parent, kids[0].p, kids[1..]);
    }
  }

  lemma ChainEnds(st: Store, parent: Ptr, prev: Ptr, kids: seq<Shape>)
    requires Chain(st, parent, prev, kids)
    ensures First(kids) == NULL <==> kids == []
  {}

  lemma {:induction false} HoldsFrame(st: Store, st': Store, sh: Shape)
    requires Holds(st, sh) && Agrees(st, st', PtrsOf(sh.kids))
    requires sh.p in st' && st'[sh.p].data == st[sh.p].data && st'[sh.p].child == st[sh.p].child
    ensures Holds(st', sh)
    decreases sh, 1
  {
    ChainFrame(st, st', sh.p, NULL, sh.kids);
  }

  lemma {:induction false} ChainFrame(st: Store, st': Store, parent: Ptr, prev: Ptr, kids: seq<Shape>)
    requires Chain(st, parent, prev, kids) && Agrees(st, st', PtrsOf(kids))
    ensures Chain(st', parent, prev, kids)
    decreases kids, 0
  {
    if kids != [] {
      HoldsFrame(st, st', kids[0]);
      ChainFrame(st, st', parent, kids[0].p, kids[1..]);
    }
  }

  lemma {:induction false} PtrsJoin(a: seq<Shape>, b: seq<Shape>)
    ensures PtrsOf(a + b) == PtrsOf(a) + PtrsOf(b)
  {
    if a == [] {
      assert a + b == b;
    } else {
      assert (a + b)[1..] == a[1..] + b;
      PtrsJoin(a[1..], b);
    }
  }

  lemma PtrsOne(k: Shape)
    ensures PtrsOf([k]) == Ptrs(k)
  {
    assert [k][1..] == [];
  }

  lemma {:induction false} ValuesJoin(a: seq<Shape>, b: seq<Shape>)
    ensures Values(a + b) == Values(a) + Values(b)
  {
    if a == [] {
      assert a + b == b;
    } else {
      assert (a + b)[1..] == a[1..] + b;
      ValuesJoin(a[1..], b);
    }
  }

  lemma ValuesOne(k: Shape)
    ensures Values([k]) == [Value(k)]
  {
    assert [k][1..] == [];
  }

  lemma {:induction false} LastIn(kids: seq<Shape>)
    requires kids != []
    ensures Last(kids) in PtrsOf(kids)
  {
    if |kids| > 1 {
      LastIn(kids[1..]);
    }
  }

  /// Walking along the children

  // child is the i-th of the kids, or NULL behind the last.
  ghost predicate Walk(st: Store, kids: seq<Shape>, i: nat, child: Ptr) {
    i <= |kids| && child == First(kids[i..]) && exists parent, prev :: Chain(st, parent, prev, kids[i..])
  }

  lemma WalkStarts(st: Store, sh: Shape)
    requires Holds(st, sh)
    ensures Walk(st, sh.kids, 0, st[sh.p].child)
  {
    assert sh.kids[0..] == sh.kids;
  }

  lemma WalkStep(st: Store, kids: seq<Shape>, i: nat, child: Ptr)
    requires Walk(st, kids, i, child)
    ensures child == NULL <==> i == |kids|
    ensures child != NULL ==> i < |kids| && child in st && Holds(st, kids[i]) && child == kids[i].p
    ensures child != NULL ==> Walk(st, kids, i + 1, st[child].next)
  {
    var parent, prev :| Chain(st, parent, prev, kids[i..]);
    ChainEnds(st, parent, prev, kids[i..]);
    if child != NULL {
      assert kids[i..][0] == kids[i] && kids[i..][1..] == kids[i + 1..];
      assert Holds(st, kids[i..][0]);
      assert child in st;
      assert Chain(st, parent, child, kids[i + 1..]) && st[child].next == First(kids[i + 1..]);
    }
  }

  /// Taking a node out of its list

  // The store once the node root is bridged over and freed.
  function Unlinked(st: Store, root: Ptr): Store
    requires root in st && (st[root].prev != NULL ==> st[root].prev in st) && (st[root].next != NULL ==> st[root].next in st)
    requires st[root].parent != NULL ==> st[root].parent in st
  {
    var n := st[root];
    var bridged :=
      if n.prev != NULL then
        var s := st[n.prev := st[n.prev].(next := n.next)];
        if n.next != NULL then s[n.next := s[n.next].(prev := n.prev)] else s
      else if n.parent != NULL then
        var s := st[n.parent := st[n.parent].(child := n.next)];
        if n.next != NULL then s[n.next := s[n.next].(prev := NULL)] else s
      else st;
    bridged - {root}
  }

  lemma {:induction false} CutChain(st: Store, st': Store, parent: Ptr, prev: Ptr, before: seq<Shape>, sh: Shape, after: seq<Shape>)
    requires Chain(st, parent, prev, before + [sh] + after)
    requires Agrees(st, st', PtrsOf(before) + PtrsOf(after) - {Last(before), First(after)})
    requires before != [] ==> Last(before) in st && Last(before) in st' && st'[Last(before)] == st[Last(before)].(next := First(after))
    requires var p := if before == [] then prev else Last(before);
             after != [] ==> First(after) in st && First(after) in st' && st'[First(after)] == st[First(after)].(prev := p)
    ensures Chain(st', parent, prev, before + after)
    decreases before
  {
    var all := before + [sh] + after;
    ChainPtrs(st, parent, prev, all);
    CutApart(before, sh, after);
    if before == [] {
      assert all == [sh] + after && before + after == after;
      CutFirst(st, st', parent, prev, sh, after);
    } else {
      var b, more := before[0], before[1..];
      hide Holds, Ptrs, PtrsOf, Chain;
      Uncons(before, sh, after);
      CutHead(st, st', parent, prev, b, more, sh, after);
      if more == [] {
        assert more + [sh] + after == [sh] + after && more + after == after;
        CutFirst(st, st', parent, b.p, sh, after);
      } else {
        LastIn(more);
        assert Last(more) == Last(before) && Last(before) in PtrsOf(more);
        CutChain(st, st', parent, b.p, more, sh, after);
      }
      ChainCons(st', parent, prev, b, more + after);
    }
  }

  lemma Uncons(before: seq<Shape>, sh: Shape, after: seq<Shape>)
    requires before != []
    ensures before == [before[0]] + before[1..]
    ensures before + [sh] + after == [before[0]] + (before[1..] + [sh] + after)
    ensures before + after == [before[0]] + (before[1..] + after)
  {}

  lemma ChainCons(st: Store, parent: Ptr, prev: Ptr, b: Shape, rest: seq<Shape>)
    requires b.p in st && Holds(st, b) && st[b.p].parent == parent && st[b.p].prev == prev && st[b.p].next == First(rest)
    requires Ptrs(b) !! PtrsOf(rest) && Chain(st, parent, b.p, rest)
    ensures Chain(st, parent, prev, [b] + rest)
  {
    assert ([b] + rest)[1..] == rest;
  }

  // The first of the nodes before the cut stays what it is; only its next may change.
  lemma CutHead(st: Store, st': Store, parent: Ptr, prev: Ptr, b: Shape, more: seq<Shape>, sh: Shape, after: seq<Shape>)
    requires Chain(st, parent, prev, [b] + (more + [sh] + after))
    requires var before := [b] + more;
             && Agrees(st, st', PtrsOf(before) + PtrsOf(after) - {Last(before), First(after)})
             && Last(before) in st && Last(before) in st' && st'[Last(before)] == st[Last(before)].(next := First(after))
    ensures Chain(st, parent, b.p, more + [sh] + after)
    ensures b.p in st' && Holds(st', b) && st'[b.p].parent == parent && st'[b.p].prev == prev
    ensures st'[b.p].next == First(more + after)
    ensures Ptrs(b) !! PtrsOf(more + after)
    ensures Agrees(st, st', PtrsOf(more) + PtrsOf(after) - {Last([b] + more), First(after)})
  {
    var rest := more + [sh] + after;
    ChainPtrs(st, parent, prev, [b] + rest);
    assert ([b] + rest)[0] == b && ([b] + rest)[1..] == rest;
    CutApart(more, sh, after);
    var before := [b] + more;
    assert before[1..] == more && PtrsOf(before) == Ptrs(b) + PtrsOf(more);
    if after != [] {
      FirstIn(after);
    }
    if more != [] {
      LastIn(more);
      assert Last(before) == Last(more);
    }
    assert First(rest) == if more == [] then sh.p else First(more);
    HoldsFrame(st, st', b);
  }

  lemma FirstIn(kids: seq<Shape>)
    requires kids != []
    ensures First(kids) in PtrsOf(kids)
  {}

  lemma CutApart(more: seq<Shape>, sh: Shape, after: seq<Shape>)
    ensures PtrsOf(more + [sh] + after) == PtrsOf(more) + Ptrs(sh) + PtrsOf(after)
    ensures PtrsOf(more + after) == PtrsOf(more) + PtrsOf(after)
  {
    PtrsJoin(more + [sh], after);
    PtrsJoin(more, [sh]);
    PtrsOne(sh);
    PtrsJoin(more, after);
  }

  lemma CutFirst(st: Store, st': Store, parent: Ptr, prev: Ptr, sh: Shape, after: seq<Shape>)
    requires Chain(st, parent, prev, [sh] + after)
    requires Agrees(st, st', PtrsOf(after) - {First(after)})
    requires after != [] ==> First(after) in st && First(after) in st' && st'[First(after)] == st[First(after)].(prev := prev)
    ensures Chain(st', parent, prev, after)
  {
    var all := [sh] + after;
    assert all[1..] == after;
    if after != [] {
      var a := after[0];
      assert Chain(st, parent, sh.p, after);
      HoldsFrame(st, st', a);
      ChainFrame(st, st', parent, a.p, after[1..]);
    }
  }

  /// Hanging a node behind the last

  lemma {:induction false} ChainSnoc(st: Store, st': Store, parent: Ptr, prev: Ptr, kids: seq<Shape>, k: Shape)
    requires Chain(st, parent, prev, kids) && kids != [] && PtrsOf(kids) !! Ptrs(k)
    requires Holds(st', k) && st'[k.p].parent == parent && st'[k.p].prev == Last(kids) && st'[k.p].next == NULL
    requires Agrees(st, st', PtrsOf(kids) - {Last(kids)})
    requires Last(kids) in st && Last(kids) in st' && st'[Last(kids)] == st[Last(kids)].(next := k.p)
    ensures Chain(st', parent, prev, kids + [k])
    decreases kids
  {
    var all := kids + [k];
    assert all[1..] == kids[1..] + [k];
    PtrsOne(k);
    if |kids| == 1 {
      assert all[1..] == [k];
      HoldsFrame(st, st', kids[0]);
      assert Chain(st', parent, kids[0].p, [k]);
    } else {
      LastIn(kids[1..]);
      assert Last(kids) == Last(kids[1..]);
      HoldsFrame(st, st', kids[0]);
      ChainSnoc(st, st', parent, kids[0].p, kids[1..], k);
      PtrsJoin(kids[1..], [k]);
    }
  }

  /// Changing a tree inside a larger one

  // The tree with the subtree at p replaced.
  function Swap(t: Shape, p: Ptr, new': Shape): Shape
    decreases t, 1
  {
    if t.p == p then new' else Shape(t.p, t.data, SwapAll(t.kids, p, new'))
  }

  function SwapAll(kids: seq<Shape>, p: Ptr, new': Shape): (r: seq<Shape>)
    ensures |r| == |kids|
    decreases kids, 0
  {
    if kids == [] then [] else [Swap(kids[0], p, new')] + SwapAll(kids[1..], p, new')
  }

  predicate Within(old': Shape, t: Shape)
    decreases t, 1
  {
    t == old' || WithinAny(old', t.kids)
  }

  predicate WithinAny(old': Shape, kids: seq<Shape>)
    decreases kids, 0
  {
    kids != [] && (Within(old', kids[0]) || WithinAny(old', kids[1..]))
  }

  lemma {:induction false} WithinHolds(st: Store, old': Shape, t: Shape)
    requires Holds(st, t) && Within(old', t)
    ensures Holds(st, old')
    decreases t, 1
  {
    if t != old' {
      WithinAnyHolds(st, t.p, NULL, old', t.kids);
    }
  }

  lemma {:induction false} WithinAnyHolds(st: Store, parent: Ptr, prev: Ptr, old': Shape, kids: seq<Shape>)
    requires Chain(st, parent, prev, kids) && WithinAny(old', kids)
    ensures Holds(st, old')
    decreases kids, 0
  {
    if Within(old', kids[0]) {
      WithinHolds(st, old', kids[0]);
    } else {
      WithinAnyHolds(st, parent, kids[0].p, old', kids[1..]);
    }
  }

  lemma {:induction false} WithinPtrs(old': Shape, t: Shape)
    requires Within(old', t)
    ensures Ptrs(old') <= Ptrs(t)
    decreases t, 1
  {
    if t != old' {
      WithinAnyPtrs(old', t.kids);
    }
  }

  lemma {:induction false} WithinAnyPtrs(old': Shape, kids: seq<Shape>)
    requires WithinAny(old', kids)
    ensures Ptrs(old') <= PtrsOf(kids)
    decreases kids, 0
  {
    if Within(old', kids[0]) {
      WithinPtrs(old', kids[0]);
    } else {
      WithinAnyPtrs(old', kids[1..]);
    }
  }

  lemma {:induction false} SwapAbsent(kids: seq<Shape>, p: Ptr, new': Shape)
    requires p !in PtrsOf(kids)
    ensures SwapAll(kids, p, new') == kids
    decreases kids
  {
    if kids != [] {
      var k := kids[0];
      SwapAbsent(k.kids, p, new');
      SwapAbsent(kids[1..], p, new');
    }
  }

  // From st to st', the tree old' has become new' in place; whatever is new in it was free before.
  ghost predicate Became(st: Store, st': Store, old': Shape, new': Shape) {
    && old'.p == new'.p && SamePlace(st, st', old'.p) && Holds(st', new')
    && st.Keys - Ptrs(old') <= st'.Keys && Agrees(st, st', st.Keys - Ptrs(old'))
    && (Ptrs(new') - Ptrs(old')) !! st.Keys
  }

  // A change inside a tree is a change of the tree, and of nothing else.
  lemma {:induction false} Lift(st: Store, st': Store, t: Shape, old': Shape, new': Shape)
    requires Holds(st, t) && Within(old', t) && Became(st, st', old', new')
    ensures Became(st, st', t, Swap(t, old'.p, new'))
    ensures Ptrs(Swap(t, old'.p, new')) == Ptrs(t) - Ptrs(old') + Ptrs(new')
    decreases t, 1
  {
    WithinPtrs(old', t);
    if t != old' {
      WithinAnyPtrs(old', t.kids);
      LiftAll(st, st', t.p, NULL, t.kids, old', new');
      assert First(SwapAll(t.kids, old'.p, new')) == First(t.kids);
      assert t.p !in Ptrs(old') && t.p in st;
      HoldsPtrs(st, t);
    }
  }

  lemma {:induction false} LiftAll(st: Store, st': Store, parent: Ptr, prev: Ptr, kids: seq<Shape>, old': Shape, new': Shape)
    requires Chain(st, parent, prev, kids) && WithinAny(old', kids) && Became(st, st', old', new')
    ensures Chain(st', parent, prev, SwapAll(kids, old'.p, new'))
    ensures PtrsOf(SwapAll(kids, old'.p, new')) == PtrsOf(kids) - Ptrs(old') + Ptrs(new')
    decreases kids, 0
  {
    var k, rest := kids[0], kids[1..];
    var p := old'.p;
    ChainPtrs(st, parent, prev, kids);
    if Within(old', k) {
      WithinPtrs(old', k);
      SwapAbsent(rest, p, new');
      Lift(st, st', k, old', new');
      ChainFrame(st, st', parent, k.p, rest);
      assert SwapAll(kids, p, new') == [Swap(k, p, new')] + rest;
      ChainCons(st', parent, prev, Swap(k, p, new'), rest);
    } else {
      WithinAnyPtrs(old', rest);
      SwapAbsent(k.kids, p, new');
      assert Swap(k, p, new') == k;
      LiftAll(st, st', parent, k.p, rest, old', new');
      HoldsFrame(st, st', k);
      assert SwapAll(kids, p, new') == [k] + SwapAll(rest, p, new');
      ChainCons(st', parent, prev, k, SwapAll(rest, p, new'));
    }
  }

  lemma BecameTwice(st0: Store, st1: Store, st2: Store, a: Shape, b: Shape, c: Shape)
    requires Became(st0, st1, a, b) && Became(st1, st2, b, c) && Ptrs(a) <= Ptrs(b) && st0.Keys <= st1.Keys
    ensures Became(st0, st2, a, c)
  {}
}
