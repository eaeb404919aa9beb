/** The plain byte sum that block checks and image checksums are built on. */
module ByteSum {
  // What a 32-bit accumulator counts up to.
  const WORD := 0x1_0000_0000

  function Sum(s: seq<bv8>): nat {
    if s == [] then 0 else Sum(s[..|s| - 1]) + s[|s| - 1] as nat
  }

  lemma {:induction false} SumJoins(s: seq<bv8>, t: seq<bv8>)
    ensures Sum(s + t) == Sum(s) + Sum(t)
  {
    if t == [] {
      assert s + t == s;
    } else {
      var n := |t| - 1;
      SumJoins(s, t[..n]);
      assert (s + t)[..|s + t| - 1] == s + t[..n];
    }
  }

  // With this, the sum of all bytes is pinned down.
  lemma SumOne(x: bv8)
    ensures Sum([x]) == x as nat
  {
    assert [x][..0] == [];
  }

  lemma AddWraps(x: nat, y: nat)
    ensures (x % WORD + y) % WORD == (x + y) % WORD
  {}

  // The summing loop, with the wrap-around of the 32-bit accumulator.
  method SumInto(a: array<bv8>, from: nat, n: nat, start: nat) returns (sum: nat)
    requires from + n <= a.Length && start < WORD
    ensures sum == (start + Sum(a[from..from + n])) % WORD
  {
    sum := start;
    var i := 0;
    while i < n
      invariant i <= n && sum == (start + Sum(a[from..from + i])) % WORD
    {
      assert a[from..from + i + 1][..i] == a[from..from + i];
      AddWraps(start + Sum(a[from..from + i]), a[from + i] as nat);
      sum := (sum + a[from + i] as nat) % WORD;
      i := i + 1;
    }
  }
}
