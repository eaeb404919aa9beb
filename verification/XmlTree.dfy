/**
 Building, copying and deleting trees of the XML library, node by node.
 */
module XmlTree {
  import opened Sequences
  import opened Options
  import opened XmlSyntax
  import opened XmlNodes

  /// What the operations do to the store

  // A node without parent and siblings.
  predicate Detached(st: Store, p: Ptr) {
    p in st && st[p].parent == NULL && st[p].prev == NULL && st[p].next == NULL
  }

  // The tree sh is a child of par between before and after, or stands alone when par is NULL.
  ghost predicate Placed(st: Store, par: Ptr, before: seq<Shape>, sh: Shape, after: seq<Shape>) {
    if par == NULL then
      before == [] && after == [] && Holds(st, sh) && Detached(st, sh.p)
    else
      var all := before + [sh] + after;
      par in st && par !in PtrsOf(all) && st[par].child == First(all) && Chain(st, par, NULL, all)
  }

  // The tree sh is gone from its place, and nothing but its neighbours' links has changed.
  ghost predicate Removed(st: Store, st': Store, par: Ptr, before: seq<Shape>, sh: Shape, after: seq<Shape>) {
    && st'.Keys == st.Keys - Ptrs(sh)
    && Agrees(st, st', st.Keys - Ptrs(sh) - PtrsOf(before + after) - {par})
    && (par != NULL ==>
          && par in st && par in st' && st'[par] == st[par].(child := First(before + after))
          && Chain(st', par, NULL, before + after))
  }

  lemma {:induction false} ChainAt(st: Store, parent: Ptr, prev: Ptr, before: seq<Shape>, sh: Shape, after: seq<Shape>)
    requires Chain(st, parent, prev, before + [sh] + after)
    ensures Holds(st, sh) && st[sh.p].parent == parent && st[sh.p].next == First(after)
    ensures st[sh.p].prev == if before == [] then prev else Last(before)
    ensures Ptrs(sh) !! PtrsOf(before) && Ptrs(sh) !! PtrsOf(after) && PtrsOf(before) !! PtrsOf(after)
    decreases before
  {
    if before == [] {
      assert before + [sh] + after == [sh] + after && ([sh] + after)[1..] == after;
    } else {
      var b, more := before[0], before[1..];
      Uncons(before, sh, after);
      var rest := more + [sh] + after;
      assert ([b] + rest)[1..] == rest;
      ChainAt(st, parent, b.p, more, sh, after);
      CutApart(more, sh, after);
    }
  }

  // The neighbours of a placed tree, which are not part of it.
  lemma PlacedFacts(st: Store, par: Ptr, before: seq<Shape>, sh: Shape, after: seq<Shape>)
    requires Placed(st, par, before, sh, after)
    ensures Holds(st, sh) && st[sh.p].parent == par && st[sh.p].prev == Last(before) && st[sh.p].next == First(after)
    ensures Ptrs(sh) !! PtrsOf(before) && Ptrs(sh) !! PtrsOf(after) && PtrsOf(before) !! PtrsOf(after)
    ensures NULL !in PtrsOf(before) && NULL !in PtrsOf(after) && PtrsOf(before) + PtrsOf(after) <= st.Keys
    ensures par !in Ptrs(sh) && par !in PtrsOf(before) && par !in PtrsOf(after)
    ensures before != [] ==> Last(before) in PtrsOf(before)
    ensures after != [] ==> First(after) in PtrsOf(after)
    ensures par == NULL ==> before == [] && after == []
  {
    if par == NULL {
      HoldsPtrs(st, sh);
    } else {
      ChainAt(st, par, NULL, before, sh, after);
      CutApart(before, sh, after);
      ChainPtrs(st, par, NULL, before + [sh] + after);
    }
    if before != [] {
      LastIn(before);
    }
  }

  // Bridging over and freeing a node whose own children are gone.
  lemma UnlinkRemoves(st0: Store, st1: Store, par: Ptr, before: seq<Shape>, sh: Shape, after: seq<Shape>)
    requires Placed(st0, par, before, sh, after)
    requires sh.p in st1 && st1.Keys == st0.Keys - PtrsOf(sh.kids) && Agrees(st0, st1, st0.Keys - Ptrs(sh))
    requires SamePlace(st0, st1, sh.p)
    ensures (st1[sh.p].prev != NULL ==> st1[sh.p].prev in st1) && (st1[sh.p].next != NULL ==> st1[sh.p].next in st1)
    ensures st1[sh.p].parent != NULL ==> st1[sh.p].parent in st1
    ensures Removed(st0, Unlinked(st1, sh.p), par, before, sh, after)
  {
    PlacedFacts(st0, par, before, sh, after);
    PtrsJoin(before, after);
    var st' := Unlinked(st1, sh.p);
    assert sh.p !in PtrsOf(sh.kids);
    assert st'.Keys == st0.Keys - Ptrs(sh);
    if par != NULL {
      UnlinkChain(st0, st1, par, before, sh, after);
    }
  }

  lemma UnlinkChain(st0: Store, st1: Store, par: Ptr, before: seq<Shape>, sh: Shape, after: seq<Shape>)
    requires par != NULL && Placed(st0, par, before, sh, after)
    requires sh.p in st1 && st1.Keys == st0.Keys - PtrsOf(sh.kids) && Agrees(st0, st1, st0.Keys - Ptrs(sh))
    requires SamePlace(st0, st1, sh.p)
    requires (st1[sh.p].prev != NULL ==> st1[sh.p].prev in st1) && (st1[sh.p].next != NULL ==> st1[sh.p].next in st1)
    requires st1[sh.p].parent in st1
    ensures var st' := Unlinked(st1, sh.p);
            && par in st' && st'[par] == st0[par].(child := First(before + after))
            && Chain(st', par, NULL, before + after)
  {
    PlacedFacts(st0, par, before, sh, after);
    var st' := Unlinked(st1, sh.p);
    assert First(before + after) == if before == [] then First(after) else First(before);
    assert First(before + [sh] + after) == if before == [] then sh.p else First(before);
    CutChain(st0, st', par, NULL, before, sh, after);
  }

  // Some of the children of sh, from the front, are gone; kids are those left.
  ghost predicate Shrunk(st: Store, st1: Store, sh: Shape, kids: seq<Shape>) {
    && |kids| <= |sh.kids| && kids == sh.kids[|sh.kids| - |kids|..] && PtrsOf(kids) <= PtrsOf(sh.kids)
    && sh.p in st1 && Holds(st1, Shape(sh.p, sh.data, kids))
    && st1.Keys == st.Keys - PtrsOf(sh.kids) + PtrsOf(kids)
    && Agrees(st, st1, st.Keys - Ptrs(sh)) && SamePlace(st, st1, sh.p)
  }

  lemma ShrunkStarts(st: Store, sh: Shape)
    requires Holds(st, sh)
    ensures Shrunk(st, st, sh, sh.kids)
  {
    HoldsPtrs(st, sh);
    assert sh == Shape(sh.p, sh.data, sh.kids);
  }

  lemma FirstKidPlaced(st: Store, st1: Store, sh: Shape, kids: seq<Shape>)
    requires Shrunk(st, st1, sh, kids)
    ensures sh.p in st1 && (st1[sh.p].child == NULL <==> kids == [])
    ensures kids != [] ==>
              && Placed(st1, sh.p, [], kids[0], kids[1..]) && st1[sh.p].child == kids[0].p
              && kids[0] == sh.kids[|sh.kids| - |kids|]
  {
    ChainEnds(st1, sh.p, NULL, kids);
    if kids != [] {
      assert [] + [kids[0]] + kids[1..] == kids;
    }
  }

  lemma ShrunkMore(st: Store, st1: Store, st2: Store, sh: Shape, kids: seq<Shape>)
    requires Holds(st, sh) && Shrunk(st, st1, sh, kids) && kids != []
    requires Removed(st1, st2, sh.p, [], kids[0], kids[1..])
    ensures Shrunk(st, st2, sh, kids[1..])
  {
    HoldsPtrs(st, sh);
    HoldsPtrs(st1, Shape(sh.p, sh.data, kids));
    assert [] + kids[1..] == kids[1..];
    assert Chain(st1, sh.p, NULL, kids);
    assert PtrsOf(kids) == Ptrs(kids[0]) + PtrsOf(kids[1..]) && Ptrs(kids[0]) !! PtrsOf(kids[1..]);
    assert sh.p in st2 && st2[sh.p] == st1[sh.p].(child := First(kids[1..]));
  }

  lemma ShrunkAll(st: Store, st1: Store, sh: Shape)
    requires Shrunk(st, st1, sh, [])
    ensures Holds(st1, sh.(kids := [])) && SamePlace(st, st1, sh.p)
    ensures st1.Keys == st.Keys - PtrsOf(sh.kids) && Agrees(st, st1, st.Keys - Ptrs(sh))
  {
    assert sh.(kids := []) == Shape(sh.p, sh.data, []);
  }

  // Hanging the detached tree k behind the children of sh.
  function Hung(st: Store, node: Ptr, last: Ptr, child: Ptr): Store
    requires node in st && child in st && (last != NULL ==> last in st)
  {
    if last != NULL then
      var s := st[last := st[last].(next := child)];
      var s' := s[child := s[child].(prev := last)];
      s'[child := s'[child].(parent := node)]
    else
      var s := st[node := st[node].(child := child)];
      s[child := s[child].(parent := node)]
  }

  lemma HungHolds(st: Store, sh: Shape, k: Shape)
    requires Holds(st, sh) && IsElement(sh.data) && Holds(st, k) && Ptrs(sh) !! Ptrs(k) && Detached(st, k.p)
    ensures Last(sh.kids) != NULL ==> Last(sh.kids) in st
    ensures var st', sh' := Hung(st, sh.p, Last(sh.kids), k.p), sh.(kids := sh.kids + [k]);
            Holds(st', sh') && SamePlace(st, st', sh.p) && Agrees(st, st', st.Keys - Ptrs(sh) - {k.p}) && st'.Keys == st.Keys
            && Ptrs(sh') == Ptrs(sh) + Ptrs(k)
  {
    HoldsPtrs(st, sh);
    HoldsPtrs(st, k);
    PtrsJoin(sh.kids, [k]);
    PtrsOne(k);
    if sh.kids != [] {
      LastIn(sh.kids);
    }
    var st' := Hung(st, sh.p, Last(sh.kids), k.p);
    HoldsFrame(st, st', k);
    if sh.kids == [] {
      assert sh.kids + [k] == [k];
      assert Chain(st', sh.p, NULL, []);
      ChainCons(st', sh.p, NULL, k, []);
    } else {
      ChainSnoc(st, st', sh.p, NULL, sh.kids, k);
    }
  }

  /// The operations inside a larger tree

  // Hanging a detached tree on an element anywhere in a tree keeps the whole a tree.
  lemma AddInTree(st: Store, st': Store, t: Shape, sh: Shape, k: Shape)
    requires Holds(st, t) && Within(sh, t) && Holds(st, k) && Ptrs(t) !! Ptrs(k)
    requires var sh' := sh.(kids := sh.kids + [k]);
             && Holds(st', sh') && SamePlace(st, st', sh.p) && Ptrs(sh') == Ptrs(sh) + Ptrs(k)
             && Agrees(st, st', st.Keys - Ptrs(sh) - {k.p}) && st'.Keys == st.Keys
    ensures var t' := Swap(t, sh.p, sh.(kids := sh.kids + [k]));
            Holds(st', t') && Ptrs(t') == Ptrs(t) + Ptrs(k)
  {
    var without := st - Ptrs(k);
    HoldsPtrs(st, t);
    HoldsPtrs(st, k);
    WithinPtrs(sh, t);
    HoldsFrame(st, without, t);
    hide Holds, Within, Swap;
    Lift(without, st', t, sh, sh.(kids := sh.kids + [k]));
  }

  // Deleting a subtree anywhere in a tree leaves the rest of it as it was.
  lemma DeleteInTree(st: Store, st': Store, t: Shape, par: Shape, before: seq<Shape>, sh: Shape, after: seq<Shape>)
    requires Holds(st, t) && Within(par, t) && Holds(st, par) && par.kids == before + [sh] + after
    requires Removed(st, st', par.p, before, sh, after)
    ensures var t' := Swap(t, par.p, par.(kids := before + after));
            Holds(st', t') && Ptrs(t') == Ptrs(t) - Ptrs(sh)
  {
    var par' := par.(kids := before + after);
    HoldsPtrs(st, t);
    WithinPtrs(par, t);
    ChainAt(st, par.p, NULL, before, sh, after);
    CutApart(before, sh, after);
    assert Ptrs(par') == Ptrs(par) - Ptrs(sh);
    assert Holds(st', par');
    Lift(st, st', t, par, par');
  }

  // Every child of a tree is placed where DeleteTree wants it.
  lemma KidPlaced(st: Store, par: Shape, before: seq<Shape>, sh: Shape, after: seq<Shape>)
    requires Holds(st, par) && par.kids == before + [sh] + after
    ensures Placed(st, par.p, before, sh, after)
  {}

  // A detached tree c has been made of nodes that were free, and nothing else has changed.
  ghost predicate Copied(st: Store, st': Store, c: Shape) {
    && Holds(st', c) && Detached(st', c.p) && Ptrs(c) !! st.Keys && st'.Keys == st.Keys + Ptrs(c)
    && Agrees(st, st', st.Keys)
  }

  lemma OldStays(st: Store, st1: Store, c: Shape, k: Shape)
    requires Copied(st, st1, c) && Holds(st, k)
    ensures Holds(st1, k) && Ptrs(k) !! Ptrs(c)
  {
    HoldsPtrs(st, k);
    HoldsFrame(st, st1, k);
  }

  lemma CopiedMore(st: Store, st1: Store, st2: Store, c: Shape, c': Shape, kids: seq<Shape>, i: nat)
    requires Copied(st, st1, c) && Became(st1, st2, c, c') && st2.Keys == st1.Keys + Ptrs(c') && Ptrs(c) <= Ptrs(c')
    requires i < |kids| && Values(c.kids) == Values(kids[..i])
    requires |c'.kids| > 0 && c' == c.(kids := c.kids + [c'.kids[|c'.kids| - 1]]) && Value(c'.kids[|c'.kids| - 1]) == Value(kids[i])
    ensures Copied(st, st2, c') && Values(c'.kids) == Values(kids[..i + 1])
  {
    var k := c'.kids[|c'.kids| - 1];
    ValuesJoin(c.kids, [k]);
    ValuesOne(k);
    assert kids[..i + 1] == kids[..i] + [kids[i]];
    ValuesJoin(kids[..i], [kids[i]]);
    ValuesOne(kids[i]);
  }

  class XmlLib {
    var store: Store

    constructor ()
      ensures store == map[]
    {
      store := map[];
    }

    method NewNode(data: Data) returns (p: Ptr)
      modifies this
      ensures p != NULL && p !in old(store) && store == old(store)[p := Node(data, NULL, NULL, NULL, NULL)]
    {
      FreshExists(store.Keys);
      p :| p != NULL && p !in store;
      store := store[p := Node(data, NULL, NULL, NULL, NULL)];
    }

    method NewElement(prefix: Option<string>, name: string, uri: Option<string>, attr: Option<string>) returns (p: Ptr)
      modifies this
      ensures p !in old(store) && store == old(store)[p := Node(Data(Some(name), None, prefix, uri, attr), NULL, NULL, NULL, NULL)]
      ensures Holds(store, Shape(p, Data(Some(name), None, prefix, uri, attr), [])) && Detached(store, p)
    {
      p := NewNode(Data(Some(name), None, prefix, uri, attr));
    }

    method NewText(text: string) returns (p: Ptr)
      modifies this
      ensures p !in old(store) && store == old(store)[p := Node(Data(None, Some(text), None, None, None), NULL, NULL, NULL, NULL)]
      ensures Holds(store, Shape(p, Data(None, Some(text), None, None, None), [])) && Detached(store, p)
    {
      p := NewNode(Data(None, Some(text), None, None, None));
    }

    // A detached tree becomes the last child of an element; a text takes no children.
    method AddChild(node: Ptr, child: Ptr, ghost sh: Shape, ghost k: Shape)
      requires Holds(store, sh) && sh.p == node && Holds(store, k) && k.p == child
      requires Ptrs(sh) !! Ptrs(k) && Detached(store, child)
      modifies this
      ensures !IsElement(sh.data) ==> store == old(store)
      ensures IsElement(sh.data) ==>
                && Holds(store, sh.(kids := sh.kids + [k])) && SamePlace(old(store), store, node)
                && Agrees(old(store), store, old(store).Keys - Ptrs(sh) - {child}) && store.Keys == old(store).Keys
                && Ptrs(sh.(kids := sh.kids + [k])) == Ptrs(sh) + Ptrs(k)
    {
      if IsElement(store[node].data) {
        HungHolds(store, sh, k);
        ChainEnds(store, node, NULL, sh.kids);
        ghost var st := store;
        if store[node].child != NULL {
          var lastChild := LastChild(node, sh);
          store := store[lastChild := store[lastChild].(next := child)];
          store := store[child := store[child].(prev := lastChild)];
        } else {
          store := store[node := store[node].(child := child)];
        }
        store := store[child := store[child].(parent := node)];
        assert store == Hung(st, node, Last(sh.kids), child);
      }
    }

    method LastChild(node: Ptr, ghost sh: Shape) returns (last: Ptr)
      requires Holds(store, sh) && sh.p == node && store[node].child != NULL
      ensures last == Last(sh.kids) && last != NULL && last in store
    {
      WalkStarts(store, sh);
      last := store[node].child;
      WalkStep(store, sh.kids, 0, last);
      ghost var i := 0;
      while store[last].next != NULL
        invariant i < |sh.kids| && last == sh.kids[i].p && last != NULL && last in store
        invariant Walk(store, sh.kids, i + 1, store[last].next)
        decreases |sh.kids| - i
      {
        last := store[last].next;
        i := i + 1;
        WalkStep(store, sh.kids, i, last);
      }
      WalkStep(store, sh.kids, i + 1, NULL);
    }

    // Frees every node of the tree once, children first, and bridges the gap it leaves.
    method DeleteTree(root: Ptr, ghost par: Ptr, ghost before: seq<Shape>, ghost sh: Shape, ghost after: seq<Shape>)
      requires Placed(store, par, before, sh, after) && sh.p == root
      modifies this
      ensures Removed(old(store), store, par, before, sh, after)
      decreases sh
    {
      ghost var st, kids := store, sh.kids;
      PlacedFacts(st, par, before, sh, after);
      ShrunkStarts(st, sh);
      FirstKidPlaced(st, store, sh, kids);
      hide Holds, Chain, Removed, Placed, Ptrs;
      while store[root].child != NULL
        invariant Shrunk(st, store, sh, kids) && (store[root].child == NULL <==> kids == [])
        decreases |kids|
      {
        FirstKidPlaced(st, store, sh, kids);
        ghost var st1 := store;
        DeleteTree(store[root].child, root, [], kids[0], kids[1..]);
        ShrunkMore(st, st1, store, sh, kids);
        kids := kids[1..];
        FirstKidPlaced(st, store, sh, kids);
      }
      UnlinkRemoves(st, store, par, before, sh, after);
      if store[root].prev != NULL {
        store := store[store[root].prev := store[store[root].prev].(next := store[root].next)];
        if store[root].next != NULL {
          store := store[store[root].next := store[store[root].next].(prev := store[root].prev)];
        }
      } else if store[root].parent != NULL {
        store := store[store[root].parent := store[store[root].parent].(child := store[root].next)];
        if store[root].next != NULL {
          store := store[store[root].next := store[store[root].next].(prev := NULL)];
        }
      }
      Free(root);
    }

    method Free(p: Ptr)
      requires p in store
      modifies this
      ensures store == old(store) - {p}
    {
      store := store - {p};
    }

    method ClearChild(node: Ptr, ghost sh: Shape)
      requires Holds(store, sh) && sh.p == node
      modifies this
      ensures Holds(store, sh.(kids := [])) && SamePlace(old(store), store, node)
      ensures store.Keys == old(store).Keys - PtrsOf(sh.kids) && Agrees(old(store), store, old(store).Keys - Ptrs(sh))
    {
      ghost var st, kids := store, sh.kids;
      ShrunkStarts(st, sh);
      FirstKidPlaced(st, store, sh, kids);
      hide Holds, Chain, Removed, Placed, Ptrs, Shrunk;
      while store[node].child != NULL
        invariant node in store && Shrunk(st, store, sh, kids) && (store[node].child == NULL <==> kids == [])
        decreases |kids|
      {
        FirstKidPlaced(st, store, sh, kids);
        ghost var st1 := store;
        DeleteTree(store[node].child, node, [], kids[0], kids[1..]);
        ShrunkMore(st, st1, store, sh, kids);
        kids := kids[1..];
        FirstKidPlaced(st, store, sh, kids);
      }
      ShrunkAll(st, store, sh);
    }

    // The copy says the same and shares no node with the original, which stays as it is.
    method CopyTree(root: Ptr, ghost sh: Shape) returns (copy: Ptr, ghost c: Shape)
      requires Holds(store, sh) && sh.p == root
      modifies this
      ensures c.p == copy && Value(c) == Value(sh) && c.data == sh.data && Copied(old(store), store, c)
      decreases sh, 0
    {
      ghost var st := store;
      if IsText(store[root].data) {
        copy := NewText(store[root].data.text.value);
        c := Shape(copy, sh.data, []);
      } else {
        var d := store[root].data;
        copy := NewElement(d.prefix, d.name.value, d.uri, d.attr);
        c := Shape(copy, sh.data, []);
        WalkStarts(st, sh);
        assert sh.kids[..0] == [];
        var child := store[root].child;
        ghost var i := 0;
        while child != NULL
          invariant Walk(st, sh.kids, i, child) && Copied(st, store, c) && c.p == copy && c.data == sh.data
          invariant Values(c.kids) == Values(sh.kids[..i])
          decreases |sh.kids| - i
        {
          WalkStep(st, sh.kids, i, child);
          ghost var k, st1 := sh.kids[i], store;
          OldStays(st, st1, c, k);
          ghost var c' := CopyInto(child, copy, k, c);
          CopiedMore(st, st1, store, c, c', sh.kids, i);
          assert store[child] == st[child];
          c := c';
          child := store[child].next;
          i := i + 1;
        }
        WalkStep(st, sh.kids, i, child);
        assert sh.kids[..i] == sh.kids;
      }
    }

    // A copy of the tree becomes the last child of parent.
    method CopyInto(root: Ptr, parent: Ptr, ghost sh: Shape, ghost psh: Shape) returns (ghost psh': Shape)
      requires Holds(store, sh) && sh.p == root && Holds(store, psh) && psh.p == parent && IsElement(psh.data)
      requires Ptrs(sh) !! Ptrs(psh)
      modifies this
      ensures |psh'.kids| > 0 && psh' == psh.(kids := psh.kids + [psh'.kids[|psh'.kids| - 1]])
      ensures Value(psh'.kids[|psh'.kids| - 1]) == Value(sh)
      ensures Became(old(store), store, psh, psh') && store.Keys == old(store).Keys + Ptrs(psh') && Ptrs(psh) <= Ptrs(psh')
      decreases sh, 1
    {
      ghost var st := store;
      HoldsPtrs(st, psh);
      var copy;
      ghost var c;
      copy, c := CopyTree(root, sh);
      HoldsFrame(st, store, psh);
      AddChild(parent, copy, psh, c);
      psh' := psh.(kids := psh.kids + [c]);
    }
  }

  // Deleting a child anywhere in a tree: the tree without it is left, and just its nodes are gone.
  method DeleteWithin(lib: XmlLib, root: Ptr, ghost t: Shape, ghost par: Shape, ghost before: seq<Shape>, ghost sh: Shape,
                      ghost after: seq<Shape>) returns (ghost t': Shape)
    requires Holds(lib.store, t) && Within(par, t) && par.kids == before + [sh] + after && sh.p == root
    modifies lib
    ensures t' == Swap(t, par.p, par.(kids := before + after)) && Holds(lib.store, t')
    ensures Ptrs(t') == Ptrs(t) - Ptrs(sh) && lib.store.Keys == old(lib.store).Keys - Ptrs(sh)
  {
    ghost var st := lib.store;
    WithinHolds(st, par, t);
    KidPlaced(st, par, before, sh, after);
    hide Holds, Placed, Within, Ptrs, Swap;
    lib.DeleteTree(root, par.p, before, sh, after);
    DeleteInTree(st, lib.store, t, par, before, sh, after);
    t' := Swap(t, par.p, par.(kids := before + after));
  }

  // Hanging a detached tree on an element anywhere in a tree.
  method AddWithin(lib: XmlLib, node: Ptr, child: Ptr, ghost t: Shape, ghost sh: Shape, ghost k: Shape) returns (ghost t': Shape)
    requires Holds(lib.store, t) && Within(sh, t) && sh.p == node && IsElement(sh.data)
    requires Holds(lib.store, k) && k.p == child && Detached(lib.store, child) && Ptrs(t) !! Ptrs(k)
    modifies lib
    ensures t' == Swap(t, node, sh.(kids := sh.kids + [k])) && Holds(lib.store, t')
    ensures Ptrs(t') == Ptrs(t) + Ptrs(k) && lib.store.Keys == old(lib.store).Keys
  {
    ghost var st := lib.store;
    WithinHolds(st, sh, t);
    WithinPtrs(sh, t);
    hide Holds, Within, Ptrs, Swap;
    lib.AddChild(node, child, sh, k);
    AddInTree(st, lib.store, t, sh, k);
    t' := Swap(t, node, sh.(kids := sh.kids + [k]));
  }
}
