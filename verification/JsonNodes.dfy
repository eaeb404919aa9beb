/**
 cJSON's nodes in memory: a store of items that point at each other, and the shape
 of the item trees in it.
 */
module JsonNodes {
  import opened Options
  import opened JsonSyntax

  type Ptr = nat

  const NULL: Ptr := 0

  // A zeroed item is a cJSON_False.
  datatype Kind = KindFalse | KindTrue | KindNull | KindNumber | KindString | KindArray | KindObject

  // The fields of an item besides its links: type, the number, valuestring and string.
  datatype Data = Data(kind: Kind, mant: int, exp: int, str: Option<string>, name: Option<string>)

  datatype Item = Item(data: Data, next: Ptr, prev: Ptr, child: Ptr)

  const ZEROED := Item(Data(KindFalse, 0, 0, None, None), NULL, NULL, NULL)

  type Store = map<Ptr, Item>

  // An item with everything below it. Its own next and prev belong to its parent's list.
  datatype Shape = Shape(p: Ptr, data: Data, kids: seq<Shape>)

  function First(kids: seq<Shape>): Ptr {
    if kids == [] then NULL else kids[0].p
  }

  function Ptrs(sh: Shape): set<Ptr> {
    {sh.p} + PtrsOf(sh.kids)
  }

  function PtrsOf(kids: seq<Shape>): set<Ptr> {
    if kids == [] then {} else Ptrs(kids[0]) + PtrsOf(kids[1..])
  }

  ghost predicate Holds(st: Store, sh: Shape)
    decreases sh, 1
  {
    && sh.p != NULL
    && sh.p in st
    && st[sh.p].data == sh.data
    && st[sh.p].child == First(sh.kids)
    && sh.p !in PtrsOf(sh.kids)
    && Chain(st, NULL, sh.kids)
  }

  // The kids are linked both ways, in order, and share nothing.
  ghost predicate Chain(st: Store, prev: Ptr, kids: seq<Shape>)
    decreases kids, 0
  {
    kids == [] ||
    (&& Holds(st, kids[0])
     && st[kids[0].p].prev == prev
     && st[kids[0].p].next == First(kids[1..])
     && Ptrs(kids[0]) !! PtrsOf(kids[1..])
     && Chain(st, kids[0].p, kids[1..]))
  }

  // The value a well-formed tree stands for.
  function Value(sh: Shape): Json {
    match sh.data.kind
    case KindFalse => False
    case KindTrue => True
    case KindNull => Null
    case KindNumber => Number(sh.data.mant, sh.data.exp)
    case KindString => String(sh.data.str)
    case KindArray => Array(Values(sh.kids))
    case KindObject => Object(Members(sh.kids))
  }

  function Values(kids: seq<Shape>): seq<Json> {
    if kids == [] then [] else [Value(kids[0])] + Values(kids[1..])
  }

  function Members(kids: seq<Shape>): seq<Member> {
    if kids == [] then [] else [Member(kids[0].data.name, Value(kids[0]))] + Members(kids[1..])
  }

  function NextOf(st: Store, p: Ptr): Ptr
    requires p in st
  {
    st[p].next
  }

  function NameOf(st: Store, p: Ptr): Option<string>
    requires p in st
  {
    st[p].data.name
  }

  // st' keeps what st holds at the given addresses.
  ghost predicate Agrees(st: Store, st': Store, ps: set<Ptr>) {
    forall p | p in ps && p in st :: p in st' && st'[p] == st[p]
  }

  lemma {:induction false} HoldsPtrs(st: Store, sh: Shape)
    requires Holds(st, sh)
    ensures Ptrs(sh) <= st.Keys && NULL !in Ptrs(sh)
    decreases sh, 1
  {
    ChainPtrs(st, NULL, sh.kids);
  }

  lemma {:induction false} ChainPtrs(st: Store, prev: Ptr, kids: seq<Shape>)
    requires Chain(st, prev, kids)
    ensures PtrsOf(kids) <= st.Keys && NULL !in PtrsOf(kids)
    decreases kids, 0
  {
    if kids != [] {
      HoldsPtrs(st, kids[0]);
      ChainPtrs(st, kids[0].p, kids[1..]);
    }
  }

  lemma ChainEnds(st: Store, prev: Ptr, kids: seq<Shape>)
    requires Chain(st, prev, kids)
    ensures First(kids) == NULL <==> kids == []
  {
    if kids != [] {
      HoldsPtrs(st, kids[0]);
    }
  }

  // Walking along a list: child is the i-th of the kids, or NULL behind the last.
  ghost predicate Walk(st: Store, kids: seq<Shape>, i: nat, child: Ptr) {
    i <= |kids| && child == First(kids[i..]) && exists prev :: Chain(st, prev, kids[i..])
  }

  lemma WalkStarts(st: Store, prev: Ptr, kids: seq<Shape>)
    requires Chain(st, prev, kids)
    ensures Walk(st, kids, 0, First(kids))
  {
    assert kids[0..] == kids;
  }

  lemma WalkStep(st: Store, kids: seq<Shape>, i: nat, child: Ptr)
    requires Walk(st, kids, i, child)
    ensures child == NULL <==> i == |kids|
    ensures child != NULL ==> child in st && Holds(st, kids[i]) && child == kids[i].p
    ensures child != NULL ==> Walk(st, kids, i + 1, NextOf(st, child))
  {
    var prev :| Chain(st, prev, kids[i..]);
    ChainEnds(st, prev, kids[i..]);
    if child != NULL {
      assert kids[i..][0] == kids[i] && kids[i..][1..] == kids[i + 1..];
      assert Chain(st, child, kids[i + 1..]);
      HoldsPtrs(st, kids[i]);
    }
  }

  lemma {:induction false} HoldsFrame(st: Store, st': Store, sh: Shape)
    requires Holds(st, sh) && Agrees(st, st', PtrsOf(sh.kids))
    requires sh.p in st' && st'[sh.p].data == st[sh.p].data && st'[sh.p].child == st[sh.p].child
    ensures Holds(st', sh)
    decreases sh, 1
  {
    ChainFrame(st, st', NULL, sh.kids);
  }

  lemma {:induction false} ChainFrame(st: Store, st': Store, prev: Ptr, kids: seq<Shape>)
    requires Chain(st, prev, kids) && Agrees(st, st', PtrsOf(kids))
    ensures Chain(st', prev, kids)
    decreases kids, 0
  {
    if kids != [] {
      HoldsFrame(st, st', kids[0]);
      ChainFrame(st, st', kids[0].p, kids[1..]);
    }
  }

  function Last(kids: seq<Shape>): Ptr
    requires kids != []
  {
    kids[|kids| - 1].p
  }

  lemma {:induction false} LastIn(kids: seq<Shape>)
    requires kids != []
    ensures Last(kids) in PtrsOf(kids)
  {
    if |kids| > 1 {
      LastIn(kids[1..]);
    }
  }

  lemma {:induction false} PtrsSnoc(kids: seq<Shape>, k: Shape)
    ensures PtrsOf(kids + [k]) == PtrsOf(kids) + Ptrs(k)
  {
    if kids == [] {
      assert kids + [k] == [k];
    } else {
      assert (kids + [k])[1..] == kids[1..] + [k];
      PtrsSnoc(kids[1..], k);
    }
  }

  lemma {:induction false} ValuesSnoc(kids: seq<Shape>, k: Shape)
    ensures Values(kids + [k]) == Values(kids) + [Value(k)]
    ensures Members(kids + [k]) == Members(kids) + [Member(k.data.name, Value(k))]
  {
    if kids == [] {
      assert kids + [k] == [k];
    } else {
      assert (kids + [k])[1..] == kids[1..] + [k];
      ValuesSnoc(kids[1..], k);
    }
  }

  // A finished kid is hooked onto the end of a chain: only the old last link changes.
  lemma {:induction false} ChainSnoc(st: Store, st': Store, prev: Ptr, kids: seq<Shape>, k: Shape)
    requires Chain(st, prev, kids) && kids != [] && PtrsOf(kids) !! Ptrs(k)
    requires Holds(st', k) && st'[k.p].prev == Last(kids) && st'[k.p].next == NULL
    requires Agrees(st, st', PtrsOf(kids) - {Last(kids)})
    requires Last(kids) in st && Last(kids) in st' && st'[Last(kids)] == st[Last(kids)].(next := k.p)
    ensures Chain(st', prev, kids + [k])
    decreases kids
  {
    var all := kids + [k];
    assert all[1..] == kids[1..] + [k];
    if |kids| == 1 {
      assert all[1..] == [k];
      HoldsFrame(st, st', kids[0]);
      assert Chain(st', kids[0].p, [k]);
      assert PtrsOf([k]) == Ptrs(k);
    } else {
      LastIn(kids[1..]);
      assert Last(kids) == Last(kids[1..]);
      HoldsFrame(st, st', kids[0]);
      ChainSnoc(st, st', kids[0].p, kids[1..], k);
      PtrsSnoc(kids[1..], k);
    }
  }

  // From st0 to st, the item at sh.p has become the tree sh, with fresh nodes below it,
  // and nothing else has changed.
  ghost predicate Grown(st0: Store, st: Store, sh: Shape) {
    && sh.p in st0
    && Holds(st, sh)
    && st.Keys == st0.Keys + Ptrs(sh)
    && PtrsOf(sh.kids) !! st0.Keys
    && Agrees(st0, st, st0.Keys - {sh.p})
    && st[sh.p].next == st0[sh.p].next
    && st[sh.p].prev == st0[sh.p].prev
  }

  lemma GrownByData(st0: Store, item: Ptr, data: Data)
    requires item in st0 && item != NULL && st0[item].child == NULL
    ensures Grown(st0, st0[item := st0[item].(data := data)], Shape(item, data, []))
  {
    assert PtrsOf([]) == {};
    assert st0[item := st0[item].(data := data)].Keys == st0.Keys + {item};
  }

  // Hooks the new item n onto the list of item: behind its last node or, if it has none, as its child.
  function Hooked(st: Store, item: Ptr, last: Ptr, n: Ptr): Store
    requires if last == NULL then item in st else last in st
  {
    if last == NULL then st[n := ZEROED][item := st[item].(child := n)]
    else st[n := ZEROED.(prev := last)][last := st[last].(next := n)]
  }

  function LastOrNull(kids: seq<Shape>): Ptr {
    if kids == [] then NULL else Last(kids)
  }

  lemma LastHeld(st0: Store, st: Store, sh: Shape)
    requires Grown(st0, st, sh)
    ensures if sh.kids == [] then LastOrNull(sh.kids) == NULL && sh.p in st
            else LastOrNull(sh.kids) != NULL && LastOrNull(sh.kids) in st
  {
    if sh.kids != [] {
      LastIn(sh.kids);
      HoldsPtrs(st, sh);
    }
  }

  // A node that is hooked on and then grows into a tree becomes one more kid.
  lemma GrownByHook(st0: Store, st1: Store, st: Store, sh: Shape, k: Shape)
    requires Grown(st0, st1, sh) && k.p !in st1 && k.p != NULL
    requires var last := LastOrNull(sh.kids); if last == NULL then sh.p in st1 else last in st1
    requires Grown(Hooked(st1, sh.p, LastOrNull(sh.kids), k.p), st, k)
    ensures Grown(st0, st, sh.(kids := sh.kids + [k]))
  {
    LastHeld(st0, st1, sh);
    HoldsPtrs(st1, sh);
    HoldsPtrs(st, k);
    if sh.kids == [] {
      GrownByFirst(st0, st1, st, sh, k);
    } else {
      GrownByNext(st0, st1, st, sh, k);
    }
  }

  lemma GrownByFirst(st0: Store, st1: Store, st: Store, sh: Shape, k: Shape)
    requires Grown(st0, st1, sh) && sh.kids == [] && k.p !in st1 && NULL !in Ptrs(k)
    requires Grown(Hooked(st1, sh.p, NULL, k.p), st, k)
    ensures Grown(st0, st, sh.(kids := sh.kids + [k]))
  {
    assert sh.kids + [k] == [k];
    assert PtrsOf([k]) == Ptrs(k);
    assert Chain(st, NULL, [k]);
  }

  lemma GrownByNext(st0: Store, st1: Store, st: Store, sh: Shape, k: Shape)
    requires Grown(st0, st1, sh) && sh.kids != [] && k.p !in st1 && k.p != NULL
    requires Last(sh.kids) in st1 && Last(sh.kids) != NULL && Ptrs(sh) <= st1.Keys
    requires Grown(Hooked(st1, sh.p, Last(sh.kids), k.p), st, k)
    ensures Grown(st0, st, sh.(kids := sh.kids + [k]))
  {
    var sh' := sh.(kids := sh.kids + [k]);
    LastIn(sh.kids);
    PtrsSnoc(sh.kids, k);
    ChainSnoc(st1, st, NULL, sh.kids, k);
    assert First(sh'.kids) == First(sh.kids);
    assert Holds(st, sh');
  }
}
