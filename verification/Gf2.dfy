/**
 Polynomials over GF(2) and what it means for a 16-bit block check to be the remainder of
 a division by x^16 + x^12 + x^5 + 1.
 */
module Gf2 {
  // The coefficients from the highest power down.
  type Poly = seq<bool>

  function Zeros(n: nat): Poly {
    seq(n, _ => false)
  }

  function Plus(a: Poly, b: Poly): (r: Poly)
    requires |a| == |b|
    ensures |r| == |a|
  {
    seq(|a|, i requires 0 <= i < |a| => a[i] != b[i])
  }

  // Schoolbook multiplication, one coefficient of q at a time.
  function Times(q: Poly, g: Poly): (r: Poly)
    requires |g| > 0
    ensures |r| == |q| + |g| - 1
  {
    if q == [] then Zeros(|g| - 1)
    else Add(Times(q[..|q| - 1], g), q[|q| - 1], g)
  }

  // t * x + c * g
  function Add(t: Poly, c: bool, g: Poly): (r: Poly)
    requires |g| > 0 && |t| >= |g| - 1
    ensures |r| == |t| + 1
  {
    seq(|t| + 1, i requires 0 <= i <= |t| =>
      (i < |t| && t[i]) != (c && i >= |t| + 1 - |g| && g[i - (|t| + 1 - |g|)]))
  }

  // x^16 + x^12 + x^5 + 1
  function G(): (g: Poly)
    ensures |g| == 17 && g[0] && g[16]
  {
    seq(17, i => i == 0 || i == 4 || i == 11 || i == 16)
  }

  ghost predicate Divides(p: Poly) {
    exists q :: |q| + 16 == |p| && Times(q, G()) == p
  }

  // r is what remains of m * x^16 modulo G.
  ghost predicate IsRemainder(m: Poly, r: Poly) {
    |r| == 16 && exists q :: |q| == |m| && Plus(Times(q, G()), Zeros(|m|) + r) == m + Zeros(16)
  }

  // Addition is its own inverse, so a message with its remainder behind it is a multiple of G.
  lemma RemainderMakesMultiple(m: Poly, r: Poly)
    requires |r| == 16
    ensures IsRemainder(m, r) <==> Divides(m + r)
  {
    hide Times;
    forall q: Poly | |q| == |m|
      ensures Plus(Times(q, G()), Zeros(|m|) + r) == m + Zeros(16) <==> Times(q, G()) == m + r
    {
      Cancel(Times(q, G()), m, r);
    }
  }

  lemma Cancel(t: Poly, m: Poly, r: Poly)
    requires |r| == 16 && |t| == |m| + 16
    ensures Plus(t, Zeros(|m|) + r) == m + Zeros(16) <==> t == m + r
  {
    var s := Plus(t, Zeros(|m|) + r);
    if s == m + Zeros(16) {
      forall i | 0 <= i < |t|
        ensures t[i] == (m + r)[i]
      {
        assert s[i] == (m + Zeros(16))[i];
      }
    }
  }

  // The next remainder when one more message bit comes in.
  function NextRemainder(r: Poly, b: bool): (s: Poly)
    requires |r| == 16
    ensures |s| == 16
  {
    seq(16, j requires 0 <= j < 16 => (j < 15 && r[j + 1]) != ((r[0] != b) && G()[j + 1]))
  }

  // One step of long division.
  lemma DivisionStep(m: Poly, r: Poly, b: bool)
    requires |r| == 16 && Divides(m + r)
    ensures Divides((m + [b]) + NextRemainder(r, b))
  {
    var n := |m|;
    var q :| |q| + 16 == |m + r| && Times(q, G()) == m + r;
    var c := r[0] != b;
    var q' := q + [c];
    assert q'[..n] == q;
    assert Times(q', G()) == Add(m + r, c, G());
    AddCancels(m, r, b);
  }

  // Adding G where the message and the old remainder differ leaves the new remainder.
  lemma AddCancels(m: Poly, r: Poly, b: bool)
    requires |r| == 16
    ensures Add(m + r, r[0] != b, G()) == (m + [b]) + NextRemainder(r, b)
  {}

  lemma {:induction false} ShiftedMultiple(p: Poly, n: nat)
    requires Divides(p)
    ensures Divides(p + Zeros(n))
  {
    if n == 0 {
      assert p + Zeros(0) == p;
    } else {
      ShiftedMultiple(p, n - 1);
      var m := p + Zeros(n - 1);
      var q :| |q| + 16 == |m| && Times(q, G()) == m;
      var q' := q + [false];
      assert q'[..|q|] == q;
      assert Times(q', G()) == p + Zeros(n);
    }
  }

  // G has the constant term 1, so the places below a multiple of G are taken off the quotient.
  lemma {:induction false} UnshiftedMultiple(p: Poly, n: nat)
    requires |p| >= 16 && Divides(p + Zeros(n))
    ensures Divides(p)
  {
    if n == 0 {
      assert p + Zeros(0) == p;
    } else {
      var m := p + Zeros(n);
      var q :| |q| + 16 == |m| && Times(q, G()) == m;
      var high, c := q[..|q| - 1], q[|q| - 1];
      var t := Times(high, G());
      assert Add(t, c, G())[|t|] == c;
      assert !c;
      forall i | 0 <= i < |t|
        ensures t[i] == (p + Zeros(n - 1))[i]
      {
        assert m[i] == Add(t, c, G())[i];
      }
      assert t == p + Zeros(n - 1);
      UnshiftedMultiple(p, n - 1);
    }
  }

  /// Linearity and uniqueness

  lemma AddLinear(s: Poly, t: Poly, c: bool, d: bool, g: Poly)
    requires |g| > 0 && |t| == |s| >= |g| - 1
    ensures Plus(Add(s, c, g), Add(t, d, g)) == Add(Plus(s, t), c != d, g)
  {}

  lemma {:induction false} TimesLinear(p: Poly, q: Poly, g: Poly)
    requires |g| > 0 && |p| == |q|
    ensures Plus(Times(p, g), Times(q, g)) == Times(Plus(p, q), g)
  {
    if p != [] {
      var n := |p| - 1;
      TimesLinear(p[..n], q[..n], g);
      AddLinear(Times(p[..n], g), Times(q[..n], g), p[n], q[n], g);
      assert Plus(p, q)[..n] == Plus(p[..n], q[..n]);
    }
  }

  lemma SumDivides(a: Poly, b: Poly)
    requires |a| == |b| && Divides(a) && Divides(b)
    ensures Divides(Plus(a, b))
  {
    var p :| |p| + 16 == |a| && Times(p, G()) == a;
    var q :| |q| + 16 == |b| && Times(q, G()) == b;
    TimesLinear(p, q, G());
    var s := Plus(p, q);
    assert |s| + 16 == |Plus(a, b)| && Times(s, G()) == Plus(a, b);
  }

  // The leading coefficient of a product with G is that of the other factor.
  lemma {:induction false} Leading(q: Poly, i: nat)
    requires i < |q| && q[i] && forall k :: 0 <= k < i ==> !q[k]
    ensures Times(q, G())[i]
    ensures forall k :: 0 <= k < i ==> !Times(q, G())[k]
    decreases |q|
  {
    var n := |q| - 1;
    var high := q[..n];
    if i < n {
      Leading(high, i);
    } else {
      NoLeading(high);
    }
  }

  lemma {:induction false} NoLeading(q: Poly)
    requires forall k :: 0 <= k < |q| ==> !q[k]
    ensures forall k :: 0 <= k < |q| + 16 ==> !Times(q, G())[k]
  {
    if q != [] {
      NoLeading(q[..|q| - 1]);
    }
  }

  // The trailing coefficient of a product with G lies 16 places behind that of the other factor.
  lemma {:induction false} Trailing(q: Poly, j: nat)
    requires j < |q| && q[j] && forall k :: j < k < |q| ==> !q[k]
    ensures Times(q, G())[j + 16]
    decreases |q|
  {
    var n := |q| - 1;
    if j < n {
      Trailing(q[..n], j);
    }
  }

  lemma {:induction false} FirstTrue(q: Poly) returns (i: nat)
    requires exists k :: 0 <= k < |q| && q[k]
    ensures i < |q| && q[i] && forall k :: 0 <= k < i ==> !q[k]
  {
    i := 0;
    while !q[i]
      invariant i < |q| && forall k :: 0 <= k < i ==> !q[k]
      decreases |q| - i
    {
      i := i + 1;
    }
  }

  lemma {:induction false} LastTrue(q: Poly) returns (j: nat)
    requires exists k :: 0 <= k < |q| && q[k]
    ensures j < |q| && q[j] && forall k :: j < k < |q| ==> !q[k]
  {
    j := |q| - 1;
    while !q[j]
      invariant j < |q| && forall k :: j < k < |q| ==> !q[k]
      invariant exists k :: 0 <= k <= j && q[k]
      decreases j
    {
      j := j - 1;
    }
  }

  // A multiple of G that is not zero spreads over at least 17 places.
  lemma MultiplesAreWide(p: Poly)
    requires Divides(p) && exists k :: 0 <= k < |p| && p[k]
    ensures exists i, j :: 0 <= i && i + 16 <= j < |p| && p[i] && p[j]
  {
    var q :| |q| + 16 == |p| && Times(q, G()) == p;
    if forall k :: 0 <= k < |q| ==> !q[k] {
      NoLeading(q);
      assert false;
    } else {
      var i := FirstTrue(q);
      var j := LastTrue(q);
      Leading(q, i);
      Trailing(q, j);
      assert p[i] && p[j + 16];
    }
  }

  // Multiples of G that differ in 16 neighbouring places at most do not differ at all.
  lemma NearMultiples(a: Poly, b: Poly, lo: nat)
    requires |a| == |b| && Divides(a) && Divides(b)
    requires forall k :: 0 <= k < |a| && !(lo <= k < lo + 16) ==> a[k] == b[k]
    ensures a == b
  {
    SumDivides(a, b);
    var d := Plus(a, b);
    if exists k :: 0 <= k < |d| && d[k] {
      MultiplesAreWide(d);
      assert false;
    }
    forall k | 0 <= k < |a|
      ensures a[k] == b[k]
    {
      assert !d[k];
    }
  }

  // A message has only one remainder.
  lemma RemainderUnique(m: Poly, r: Poly, s: Poly)
    requires |r| == |s| == 16 && Divides(m + r) && Divides(m + s)
    ensures r == s
  {
    var a, b := m + r, m + s;
    NearMultiples(a, b, |m|);
    forall j | 0 <= j < 16
      ensures r[j] == s[j]
    {
      assert a[|m| + j] == b[|m| + j];
    }
  }

  // Any damage confined to 16 neighbouring bits is noticed.
  lemma BurstNoticed(sent: Poly, received: Poly, lo: nat)
    requires |sent| == |received| && Divides(sent) && sent != received
    requires forall k :: 0 <= k < |sent| && !(lo <= k < lo + 16) ==> sent[k] == received[k]
    ensures !Divides(received)
  {
    if Divides(received) {
      NearMultiples(sent, received, lo);
    }
  }
}
