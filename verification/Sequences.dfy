/** Small facts that several modules share: grouping of concatenations, and addresses that are still free. */
module Sequences {
  lemma Assoc<T>(a: seq<T>, b: seq<T>, c: seq<T>)
    ensures (a + b) + c == a + (b + c)
  {}

  lemma Cons<T>(s: seq<T>)
    requires s != []
    ensures [s[0]] + s[1..] == s
  {}

  // Allocation finds an address: not 0, and not in use.
  lemma FreshExists(s: set<nat>)
    ensures exists p: nat :: p != 0 && p !in s
  {
    var bound := Bound(s);
    assert bound + 1 !in s;
  }

  lemma Bound(s: set<nat>) returns (b: nat)
    ensures forall p | p in s :: p <= b
  {
    b := 0;
    if s != {} {
      var p :| p in s;
      var b' := Bound(s - {p});
      b := if p > b' then p else b';
      assert forall q | q in s :: q == p || q in s - {p};
    }
  }
}
