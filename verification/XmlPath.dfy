/**
 Looking up the elements of a tree by a path like /a/p:b: one pass counts them, a second fills an array
 of that size.
 */
module XmlPath {
  import opened Sequences
  import opened Options
  import opened XmlSyntax
  import opened XmlNodes
  import opened XmlRoundTrip

  // What a path component asks for, and what an element goes by.
  datatype Step = Step(prefix: Option<string>, name: string)

  function StepOf(d: Data): Step
    requires IsElement(d)
  {
    Step(d.prefix, d.name.value)
  }

  /// What a path means

  function Component(c: string): Step {
    match IndexOf(c, ':')
    case Some(k) => Step(Some(c[..k]), c[k + 1..])
    case None => Step(None, c)
  }

  // Whatever stands before the first slash is not looked at.
  function PathSteps(path: string): seq<Step>
    decreases |path|
  {
    match IndexOf(path, '/')
    case None => []
    case Some(f) =>
      var rest := path[f + 1..];
      match IndexOf(rest, '/')
      case None => [Component(rest)]
      case Some(r) => [Component(rest[..r])] + PathSteps(rest[r..])
  }

  // How a path is written: a slash in front of every component, a colon between prefix and name.
  function PathText(steps: seq<Step>): string {
    if steps == [] then "" else "/" + StepText(steps[0]) + PathText(steps[1..])
  }

  function StepText(step: Step): string {
    match step.prefix
    case Some(p) => p + ":" + step.name
    case None => step.name
  }

  predicate IsStep(step: Step) {
    && '/' !in step.name
    && match step.prefix
       case Some(p) => '/' !in p && ':' !in p
       case None => ':' !in step.name
  }

  // A written path means its components, whatever stands before its first slash.
  lemma {:induction false} PathRead(junk: string, steps: seq<Step>)
    requires '/' !in junk && forall i :: 0 <= i < |steps| ==> IsStep(steps[i])
    ensures PathSteps(junk + PathText(steps)) == steps
    decreases |steps|
  {
    hide Component, StepText, PathText, IndexOf, PathSteps, IsStep;
    if steps == [] {
      NothingRead(junk);
    } else {
      var c, more := StepText(steps[0]), PathText(steps[1..]);
      assert IsStep(steps[0]);
      ComponentRead(steps[0]);
      PathFront(junk, steps);
      PathRead("", steps[1..]);
      assert "" + more == more;
      Rest(c, steps[1..]);
      IndexOfFirst(junk, '/', c + more);
      FirstStep(junk + PathText(steps), |junk|, c, more);
      Cons(steps);
    }
  }

  lemma NothingRead(junk: string)
    requires '/' !in junk
    ensures PathSteps(junk + PathText([])) == []
  {
    assert junk + "" == junk;
  }

  // The text behind a slash, up to the next one.
  lemma Rest(c: string, steps: seq<Step>)
    requires '/' !in c
    ensures IndexOf(c + PathText(steps), '/') == if steps == [] then None else Some(|c|)
    ensures PathText(steps) == "" <==> steps == []
  {
    if steps == [] {
      assert c + "" == c;
    } else {
      var inner := StepText(steps[0]) + PathText(steps[1..]);
      PathOpens(steps);
      hide StepText, PathText, IndexOf;
      Assoc(c, ['/'], inner);
      IndexOfFirst(c, '/', inner);
    }
  }

  lemma PathOpens(steps: seq<Step>)
    requires steps != []
    ensures PathText(steps) == ['/'] + (StepText(steps[0]) + PathText(steps[1..]))
  {
    hide StepText;
  }

  lemma FirstStep(s: string, k: nat, c: string, more: string)
    requires k < |s| && IndexOf(s, '/') == Some(k) && s[k + 1..] == c + more
    requires IndexOf(c + more, '/') == if more == "" then None else Some(|c|)
    ensures PathSteps(s) == [Component(c)] + if more == "" then [] else PathSteps(more)
  {
    hide IndexOf, Component;
    assert (c + more)[..|c|] == c && (c + more)[|c|..] == more;
    assert more == "" ==> c + more == c;
  }

  lemma PathFront(junk: string, steps: seq<Step>)
    requires steps != []
    ensures var s, rest := junk + PathText(steps), StepText(steps[0]) + PathText(steps[1..]);
            s == junk + ['/'] + rest && s[|junk| + 1..] == rest
  {
    PathOpens(steps);
    hide StepText, PathText;
    Assoc(junk, ['/'], StepText(steps[0]) + PathText(steps[1..]));
  }

  lemma ComponentRead(step: Step)
    requires IsStep(step)
    ensures '/' !in StepText(step) && Component(StepText(step)) == step
  {
    match step.prefix
    case Some(p) =>
      assert p + ":" + step.name == p + [':'] + step.name;
      IndexOfFirst(p, ':', step.name);
      assert (p + [':'] + step.name)[..|p|] == p && (p + [':'] + step.name)[|p| + 1..] == step.name;
    case None =>
  }

  // An element met on the way through a tree, with the chain of elements from the root down to it.
  datatype Visit = Visit(p: Ptr, chain: seq<Step>)

  // All elements in document order.
  function Preorder(sh: Shape, above: seq<Step>): seq<Visit>
    decreases sh, 1
  {
    if IsElement(sh.data) then
      var chain := above + [StepOf(sh.data)];
      [Visit(sh.p, chain)] + PreorderAll(sh.kids, chain)
    else []
  }

  function PreorderAll(kids: seq<Shape>, above: seq<Step>): seq<Visit>
    decreases kids, 0
  {
    if kids == [] then [] else Preorder(kids[0], above) + PreorderAll(kids[1..], above)
  }

  function Select(vs: seq<Visit>, steps: seq<Step>): seq<Ptr> {
    if vs == [] then []
    else (if vs[0].chain == steps then [vs[0].p] else []) + Select(vs[1..], steps)
  }

  lemma {:induction false} SelectJoin(a: seq<Visit>, b: seq<Visit>, steps: seq<Step>)
    ensures Select(a + b, steps) == Select(a, steps) + Select(b, steps)
  {
    if a == [] {
      assert a + b == b;
    } else {
      SelectJoin(a[1..], b, steps);
      assert (a + b)[0] == a[0] && (a + b)[1..] == a[1..] + b;
      var head: seq<Ptr> := if a[0].chain == steps then [a[0].p] else [];
      assert head + (Select(a[1..], steps) + Select(b, steps)) == head + Select(a[1..], steps) + Select(b, steps);
    }
  }

  /// What the recursion finds

  function Hits(sh: Shape, steps: seq<Step>): seq<Ptr>
    decreases sh, 1
  {
    if !IsElement(sh.data) || steps == [] || StepOf(sh.data) != steps[0] then []
    else if |steps| == 1 then [sh.p]
    else HitsAll(sh.kids, steps[1..])
  }

  function HitsAll(kids: seq<Shape>, steps: seq<Step>): seq<Ptr>
    decreases kids, 0
  {
    if kids == [] then [] else Hits(kids[0], steps) + HitsAll(kids[1..], steps)
  }

  ghost predicate AllBelow(vs: seq<Visit>, above: seq<Step>) {
    forall i :: 0 <= i < |vs| ==> above < vs[i].chain
  }

  lemma {:induction false} PreorderBelow(sh: Shape, above: seq<Step>)
    ensures AllBelow(Preorder(sh, above), above)
    decreases sh, 1
  {
    if IsElement(sh.data) {
      var chain := above + [StepOf(sh.data)];
      PreorderAllBelow(sh.kids, chain);
      forall i | 0 <= i < |Preorder(sh, above)|
        ensures above < Preorder(sh, above)[i].chain
      {
        if i > 0 {
          assert chain < PreorderAll(sh.kids, chain)[i - 1].chain;
        }
      }
    }
  }

  lemma {:induction false} PreorderAllBelow(kids: seq<Shape>, above: seq<Step>)
    ensures AllBelow(PreorderAll(kids, above), above)
    decreases kids, 0
  {
    if kids != [] {
      PreorderBelow(kids[0], above);
      PreorderAllBelow(kids[1..], above);
    }
  }

  lemma {:induction false} SelectNone(vs: seq<Visit>, above: seq<Step>, steps: seq<Step>)
    requires AllBelow(vs, above) && !(above < steps)
    ensures Select(vs, steps) == []
  {
    if vs != [] {
      assert above < vs[0].chain;
      assert AllBelow(vs[1..], above);
      SelectNone(vs[1..], above, steps);
    }
  }

  lemma {:induction false} HitsSelect(sh: Shape, above: seq<Step>, steps: seq<Step>)
    ensures Select(Preorder(sh, above), above + steps) == Hits(sh, steps)
    decreases sh, 1
  {
    if IsElement(sh.data) {
      var s := StepOf(sh.data);
      var chain := above + [s];
      var rest := PreorderAll(sh.kids, chain);
      assert Preorder(sh, above)[1..] == rest;
      if steps != [] && steps[0] == s {
        assert above + steps == chain + steps[1..];
        HitsAllSelect(sh.kids, chain, steps[1..]);
        if |steps| == 1 {
          NoHits(sh.kids);
        }
      } else {
        PreorderAllBelow(sh.kids, chain);
        OtherBranch(above, s, steps);
        SelectNone(rest, chain, above + steps);
      }
    }
  }

  // A chain through s leads to no other branch.
  lemma OtherBranch(above: seq<Step>, s: Step, steps: seq<Step>)
    requires steps == [] || steps[0] != s
    ensures above + [s] != above + steps && !(above + [s] < above + steps)
  {
    var a, b := above + [s], above + steps;
    assert a[|above|] == s && (steps != [] ==> b[|above|] == steps[0]);
  }

  lemma {:induction false} NoHits(kids: seq<Shape>)
    ensures HitsAll(kids, []) == []
  {
    if kids != [] {
      NoHits(kids[1..]);
    }
  }

  lemma {:induction false} HitsAllSelect(kids: seq<Shape>, above: seq<Step>, steps: seq<Step>)
    ensures Select(PreorderAll(kids, above), above + steps) == HitsAll(kids, steps)
    decreases kids, 0
  {
    if kids != [] {
      HitsSelect(kids[0], above, steps);
      HitsAllSelect(kids[1..], above, steps);
      SelectJoin(Preorder(kids[0], above), PreorderAll(kids[1..], above), above + steps);
    }
  }

  /// The two passes

  // How both passes take the first component off a path; the rest of the path starts at the next slash.
  method SplitPath(path: string) returns (found: bool, step: Step, rear: Option<string>)
    ensures found <==> PathSteps(path) != []
    ensures found ==> PathSteps(path) == [step] + (if rear.Some? then PathSteps(rear.value) else [])
    ensures found && rear.Some? ==> PathSteps(rear.value) != []
  {
    found, step, rear := false, Step(None, ""), None;
    var slash := IndexOf(path, '/');
    hide PathSteps, Taken, IndexOf;
    if slash.Some? {
      found := true;
      step, rear := SplitComponent(path[slash.value + 1..]);
      StepsTaken(path, slash.value, step, rear);
    } else {
      NoSteps(path);
    }
  }

  // What PathSteps takes off a path behind its first slash.
  predicate Taken(front: string, step: Step, rear: Option<string>) {
    match IndexOf(front, '/')
    case None => step == Component(front) && rear == None
    case Some(r) => step == Component(front[..r]) && rear == Some(front[r..])
  }

  lemma StepsTaken(path: string, f: nat, step: Step, rear: Option<string>)
    requires IndexOf(path, '/') == Some(f) && Taken(path[f + 1..], step, rear)
    ensures PathSteps(path) == [step] + (if rear.Some? then PathSteps(rear.value) else [])
    ensures rear.Some? ==> PathSteps(rear.value) != []
  {
    hide Component, IndexOf;
    if rear.Some? {
      SlashFirst(path[f + 1..]);
    }
  }

  lemma SlashFirst(front: string)
    ensures match IndexOf(front, '/')
            case Some(r) => IndexOf(front[r..], '/') == Some(0)
            case None => true
  {}

  lemma NoSteps(path: string)
    requires IndexOf(path, '/') == None
    ensures PathSteps(path) == []
  {}

  method SplitComponent(front: string) returns (step: Step, rear: Option<string>)
    ensures Taken(front, step, rear)
  {
    rear := None;
    var prefixChar := IndexOf(front, ':');
    var next := IndexOf(front, '/');
    if next.Some? {
      ColonWithin(front, next.value);
      hide Component;
      if prefixChar.Some? && prefixChar.value < next.value {
        step := Step(Some(front[..prefixChar.value]), front[prefixChar.value + 1..next.value]);
      } else {
        step := Step(None, front[..next.value]);
      }
      rear := Some(front[next.value..]);
    } else if prefixChar.Some? {
      step := Step(Some(front[..prefixChar.value]), front[prefixChar.value + 1..]);
    } else {
      step := Step(None, front);
    }
  }

  lemma ColonWithin(s: string, n: nat)
    requires n <= |s|
    ensures Component(s[..n]) ==
            match IndexOf(s, ':')
            case Some(k) => if k < n then Step(Some(s[..k]), s[k + 1..n]) else Step(None, s[..n])
            case None => Step(None, s[..n])
  {
    IndexWithin(s, ':', n);
    match IndexOf(s, ':') {
      case Some(k) =>
        if k < n {
          assert s[..n][..k] == s[..k] && s[..n][k + 1..] == s[k + 1..n];
        }
      case None =>
    }
  }

  lemma {:induction false} IndexWithin(s: string, c: char, n: nat)
    requires n <= |s|
    ensures IndexOf(s[..n], c) ==
            match IndexOf(s, c)
            case Some(k) => if k < n then Some(k) else None
            case None => None
  {
    if n > 0 && s[0] != c {
      IndexWithin(s[1..], c, n - 1);
      assert s[..n][1..] == s[1..][..n - 1];
    }
  }

  predicate Matches(d: Data, step: Step)
    requires IsElement(d)
  {
    && ((step.prefix.None? && d.prefix.None?)
        || (step.prefix.Some? && d.prefix.Some? && d.prefix.value == step.prefix.value))
    && d.name.value == step.name
  }

  method PathCount(st: Store, root: Ptr, path: string, count0: nat, ghost sh: Shape) returns (count: nat)
    requires Holds(st, sh) && sh.p == root
    ensures count == count0 + |Hits(sh, PathSteps(path))|
    decreases sh
  {
    count := count0;
    if IsElement(st[root].data) {
      var found, step, rear := SplitPath(path);
      if found && Matches(st[root].data, step) {
        if rear.Some? {
          WalkStarts(st, sh);
          count := PathCountAll(st, st[root].child, rear.value, count, sh.kids);
        } else {
          count := count + 1;
        }
      }
    }
  }

  method PathCountAll(st: Store, first: Ptr, path: string, count0: nat, ghost kids: seq<Shape>) returns (count: nat)
    requires Walk(st, kids, 0, first)
    ensures count == count0 + |HitsAll(kids, PathSteps(path))|
    decreases kids, 0
  {
    hide Holds, Walk, Hits, HitsAll, HitsFrom, PathSteps;
    ghost var steps := PathSteps(path);
    HitsStart(kids, steps);
    count := count0;
    var child := first;
    ghost var i := 0;
    while child != NULL
      invariant Walk(st, kids, i, child) && i <= |kids|
      invariant count + |HitsFrom(kids, i, steps)| == count0 + |HitsAll(kids, steps)|
      decreases |kids| - i
    {
      WalkStep(st, kids, i, child);
      HitsStep(kids, i, steps);
      count := PathCount(st, child, path, count, kids[i]);
      child := st[child].next;
      i := i + 1;
    }
    WalkStep(st, kids, i, child);
  }

  function HitsFrom(kids: seq<Shape>, i: nat, steps: seq<Step>): seq<Ptr>
    requires i <= |kids|
  {
    HitsAll(kids[i..], steps)
  }

  lemma HitsStep(kids: seq<Shape>, i: nat, steps: seq<Step>)
    requires i < |kids|
    ensures HitsFrom(kids, i, steps) == Hits(kids[i], steps) + HitsFrom(kids, i + 1, steps)
  {
    assert kids[i..][1..] == kids[i + 1..];
  }

  lemma HitsStart(kids: seq<Shape>, steps: seq<Step>)
    ensures HitsFrom(kids, 0, steps) == HitsAll(kids, steps) && HitsFrom(kids, |kids|, steps) == []
  {
    assert kids[0..] == kids && kids[|kids|..] == [];
  }

  class NodeSet {
    const node: array<Ptr>
    var count: nat

    constructor (size: nat)
      ensures count == 0 && node.Length == size && fresh(node)
    {
      node := new Ptr[size](_ => NULL);
      count := 0;
    }

    method Put(p: Ptr)
      requires count < node.Length
      modifies this, node
      ensures count == old(count) + 1 && node[..count] == old(node[..count]) + [p]
    {
      node[count] := p;
      count := count + 1;
    }
  }

  method FindPathInto(st: Store, root: Ptr, path: string, nodeSet: NodeSet, ghost sh: Shape)
    requires Holds(st, sh) && sh.p == root
    requires nodeSet.count + |Hits(sh, PathSteps(path))| <= nodeSet.node.Length
    modifies nodeSet, nodeSet.node
    ensures nodeSet.count == old(nodeSet.count) + |Hits(sh, PathSteps(path))|
    ensures nodeSet.node[..nodeSet.count] == old(nodeSet.node[..nodeSet.count]) + Hits(sh, PathSteps(path))
    decreases sh
  {
    if IsElement(st[root].data) {
      var found, step, rear := SplitPath(path);
      if found && Matches(st[root].data, step) {
        if rear.Some? {
          WalkStarts(st, sh);
          FindPathAll(st, st[root].child, rear.value, nodeSet, sh.kids);
        } else {
          nodeSet.Put(root);
        }
      }
    }
  }

  method FindPathAll(st: Store, first: Ptr, path: string, nodeSet: NodeSet, ghost kids: seq<Shape>)
    requires Walk(st, kids, 0, first)
    requires nodeSet.count + |HitsAll(kids, PathSteps(path))| <= nodeSet.node.Length
    modifies nodeSet, nodeSet.node
    ensures nodeSet.count == old(nodeSet.count) + |HitsAll(kids, PathSteps(path))|
    ensures nodeSet.node[..nodeSet.count] == old(nodeSet.node[..nodeSet.count]) + HitsAll(kids, PathSteps(path))
    decreases kids, 0
  {
    hide Holds, Walk, Hits, HitsAll, HitsFrom, PathSteps;
    ghost var steps := PathSteps(path);
    HitsStart(kids, steps);
    ghost var all := nodeSet.node[..nodeSet.count] + HitsAll(kids, steps);
    var child := first;
    ghost var i := 0;
    while child != NULL
      invariant Walk(st, kids, i, child) && i <= |kids| && nodeSet.count <= nodeSet.node.Length
      invariant nodeSet.node[..nodeSet.count] + HitsFrom(kids, i, steps) == all
      decreases |kids| - i
    {
      WalkStep(st, kids, i, child);
      HitsStep(kids, i, steps);
      Assoc(nodeSet.node[..nodeSet.count], Hits(kids[i], steps), HitsFrom(kids, i + 1, steps));
      FindPathInto(st, child, path, nodeSet, kids[i]);
      child := st[child].next;
      i := i + 1;
    }
    WalkStep(st, kids, i, child);
  }

  /// What is found, seen from below

  // Climbing from p to root, one meets the prefixes and names that the steps ask for, the last step first.
  ghost predicate GoesBy(st: Store, p: Ptr, root: Ptr, steps: seq<Step>)
    decreases |steps|
  {
    && steps != [] && p in st && Named(st[p].data, steps[|steps| - 1])
    && if p == root then |steps| == 1 else GoesBy(st, st[p].parent, root, steps[..|steps| - 1])
  }

  predicate Named(d: Data, step: Step) {
    d.text == None && d.name == Some(step.name) && d.prefix == step.prefix
  }

  // In a subtree a climb goes on to the subtree's own root, or ends there.
  lemma {:induction false} ParentInside(st: Store, sh: Shape, p: Ptr)
    requires Holds(st, sh) && p in Ptrs(sh) && p != sh.p
    ensures p in st && st[p].parent in Ptrs(sh)
    decreases sh, 1
  {
    HoldsPtrs(st, sh);
    ParentAmong(st, sh.p, NULL, sh.kids, p);
  }

  lemma {:induction false} ParentAmong(st: Store, parent: Ptr, prev: Ptr, kids: seq<Shape>, p: Ptr)
    requires Chain(st, parent, prev, kids) && p in PtrsOf(kids)
    ensures p in st && (st[p].parent == parent || st[p].parent in PtrsOf(kids))
    decreases kids, 0
  {
    if p == kids[0].p {
    } else if p in Ptrs(kids[0]) {
      ParentInside(st, kids[0], p);
    } else {
      ParentAmong(st, parent, kids[0].p, kids[1..], p);
    }
  }

  // A climb to the root passes the kid that it starts under.
  lemma {:induction false} ClimbPasses(st: Store, kid: Shape, p: Ptr, root: Ptr, steps: seq<Step>)
    requires Holds(st, kid) && p in Ptrs(kid) && root in st && st[kid.p].parent == root && root !in Ptrs(kid)
    ensures GoesBy(st, p, root, steps) <==>
            |steps| > 1 && Named(st[root].data, steps[0]) && GoesBy(st, p, kid.p, steps[1..])
    decreases |steps|
  {
    if |steps| > 1 {
      var n := |steps| - 1;
      var init := steps[..n];
      assert steps[1..][..n - 1] == init[1..];
      HoldsPtrs(st, kid);
      if p != kid.p {
        ParentInside(st, kid, p);
        ClimbPasses(st, kid, st[p].parent, root, init);
      }
    }
  }

  lemma {:induction false} HitsGoBy(st: Store, sh: Shape, steps: seq<Step>, p: Ptr)
    requires Holds(st, sh)
    ensures p in Hits(sh, steps) <==> p in Ptrs(sh) && GoesBy(st, p, sh.p, steps)
    decreases sh, 1
  {
    HitsAllGoBy(st, sh.p, NULL, sh.kids, steps, p);
    if |steps| > 1 {
      Cons(steps);
    }
  }

  // Under a root that the first step asks for, the others are looked for among its kids.
  lemma {:induction false} HitsAllGoBy(st: Store, root: Ptr, prev: Ptr, kids: seq<Shape>, steps: seq<Step>, p: Ptr)
    requires root in st && Chain(st, root, prev, kids) && root !in PtrsOf(kids)
    ensures p in PtrsOf(kids) ==>
              (GoesBy(st, p, root, steps) <==> |steps| > 1 && Named(st[root].data, steps[0]) && p in HitsAll(kids, steps[1..]))
    ensures |steps| > 1 && p in HitsAll(kids, steps[1..]) ==> p in PtrsOf(kids)
    decreases kids, 0
  {
    if kids != [] {
      HitsAllGoBy(st, root, kids[0].p, kids[1..], steps, p);
      if |steps| > 1 {
        HitsGoBy(st, kids[0], steps[1..], p);
      }
      if p in Ptrs(kids[0]) {
        ClimbPasses(st, kids[0], p, root, steps);
      }
    }
  }

  // Exactly the elements whose chain from the root is the path, in document order, and the array is full.
  method FindPath(st: Store, root: Ptr, path: string, ghost sh: Shape) returns (nodeSet: NodeSet)
    requires Holds(st, sh) && sh.p == root
    ensures nodeSet.count == nodeSet.node.Length
    ensures nodeSet.node[..] == Select(Preorder(sh, []), PathSteps(path))
    ensures forall p :: p in nodeSet.node[..] <==> p in Ptrs(sh) && GoesBy(st, p, root, PathSteps(path))
  {
    forall p
      ensures p in Hits(sh, PathSteps(path)) <==> p in Ptrs(sh) && GoesBy(st, p, root, PathSteps(path))
    {
      HitsGoBy(st, sh, PathSteps(path), p);
    }
    HitsSelect(sh, [], PathSteps(path));
    assert [] + PathSteps(path) == PathSteps(path);
    var nodeCount := PathCount(st, root, path, 0, sh);
    nodeSet := new NodeSet(nodeCount);
    FindPathInto(st, root, path, nodeSet, sh);
    assert nodeSet.node[..nodeSet.count] == nodeSet.node[..];
  }
}
