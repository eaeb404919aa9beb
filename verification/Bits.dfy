/** C's bitwise operators on unsigned values, digit by binary digit. */
module Bits {
  function And(a: nat, b: nat): nat {
    if a == 0 || b == 0 then 0 else 2 * And(a / 2, b / 2) + (a % 2) * (b % 2)
  }

  function Or(a: nat, b: nat): nat {
    if a == 0 then b
    else if b == 0 then a
    else 2 * Or(a / 2, b / 2) + if a % 2 == 1 || b % 2 == 1 then 1 else 0
  }

  function Pow2(k: nat): (p: nat)
    ensures p >= 1
  {
    if k == 0 then 1 else 2 * Pow2(k - 1)
  }

  lemma AndStep(a: nat, b: nat)
    ensures And(a, b) == 2 * And(a / 2, b / 2) + (a % 2) * (b % 2)
  {}

  lemma OrStep(a: nat, b: nat)
    ensures Or(a, b) == 2 * Or(a / 2, b / 2) + if a % 2 == 1 || b % 2 == 1 then 1 else 0
  {}

  // A mask of k ones keeps the low k bits.
  lemma {:induction false} AndMask(x: nat, k: nat)
    ensures And(x, Pow2(k) - 1) == x % Pow2(k)
  {
    if k == 0 {
      assert x % 1 == 0;
    } else {
      var p := Pow2(k - 1);
      assert Pow2(k) == 2 * p;
      HalfOfMask(p);
      hide Pow2, And;
      AndStep(x, 2 * p - 1);
      AndMask(x / 2, k - 1);
      ModDouble(x, p);
    }
  }

  lemma HalfOfMask(p: nat)
    requires p >= 1
    ensures (2 * p - 1) / 2 == p - 1 && (2 * p - 1) % 2 == 1
  {}

  lemma ModDouble(x: nat, m: nat)
    requires m >= 1
    ensures x % (2 * m) == 2 * (x / 2 % m) + x % 2
  {
    var q, r := x / 2 / m, x / 2 % m;
    assert x / 2 == q * m + r;
    assert x == (2 * m) * q + (2 * r + x % 2);
    assert 2 * r + x % 2 < 2 * m;
    ModUnique(x, 2 * m, q, 2 * r + x % 2);
  }

  lemma ModUnique(x: nat, m: nat, q: nat, r: nat)
    requires r < m && x == m * q + r
    ensures x % m == r && x / m == q
  {
    var d := q - x / m;
    assert m * d == m * q - m * (x / m);
    if d >= 1 {
      MulAtLeast(m, d);
    } else if d <= -1 {
      MulAtLeast(m, 0 - d);
    }
  }

  lemma MulAtLeast(m: nat, d: int)
    requires d >= 1
    ensures m * d >= m && m * (0 - d) <= 0 - m
  {}

  // Or-ing bits below position k onto a multiple of 2^k is an addition.
  lemma {:induction false} OrDisjoint(a: nat, b: nat, k: nat)
    requires b < Pow2(k)
    ensures Or(a * Pow2(k), b) == a * Pow2(k) + b
  {
    if k == 0 {
      assert a * 1 == a;
    } else {
      var p := Pow2(k - 1);
      assert a * Pow2(k) == 2 * (a * p);
      OrStep(2 * (a * p), b);
      OrDisjoint(a, b / 2, k - 1);
    }
  }

  lemma Eighth(x: nat)
    ensures x / 2 / 2 / 2 == x / 8 && x % 8 == 4 * (x / 2 / 2 % 2) + 2 * (x / 2 % 2) + x % 2
  {}

  lemma AndEightTimes(x: nat, m: nat)
    ensures And(x, 8 * m) == 8 * And(x / 8, m)
  {
    AndStep(x, 8 * m);
    AndStep(x / 2, 4 * m);
    AndStep(x / 2 / 2, 2 * m);
    assert 8 * m / 2 == 4 * m && 4 * m / 2 == 2 * m && 2 * m / 2 == m;
    assert x / 2 / 2 / 2 == x / 8;
  }

  // Clearing the low three bits of a 32-bit value rounds it down to a multiple of 8.
  lemma AndClear3(x: nat)
    requires x < 0x1_0000_0000
    ensures And(x, 0xFFFF_FFF8) == x - x % 8
  {
    AndEightTimes(x, 0x1FFF_FFFF);
    PowerOf29();
    AndMask(x / 8, 29);
    assert x / 8 % 0x2000_0000 == x / 8;
  }

  lemma PowerOf29()
    ensures Pow2(29) == 0x2000_0000
  {
    assert Pow2(5) == 0x20;
    assert Pow2(10) == 0x400;
    assert Pow2(15) == 0x8000;
    assert Pow2(20) == 0x10_0000;
    assert Pow2(25) == 0x200_0000;
  }

  lemma AndSplit8(x: nat, m: nat)
    ensures And(x, 8 * m + 7) == 8 * And(x / 8, m) + x % 8
  {
    hide And;
    AndStep(x, 8 * m + 7);
    AndStep(x / 2, 4 * m + 3);
    AndStep(x / 2 / 2, 2 * m + 1);
    assert (8 * m + 7) / 2 == 4 * m + 3 && (4 * m + 3) / 2 == 2 * m + 1 && (2 * m + 1) / 2 == m;
    Eighth(x);
  }

  lemma OrSplit8(x: nat, m: nat)
    ensures Or(x, 8 * m) == 8 * Or(x / 8, m) + x % 8
  {
    hide Or;
    OrStep(x, 8 * m);
    OrStep(x / 2, 4 * m);
    OrStep(x / 2 / 2, 2 * m);
    assert 8 * m / 2 == 4 * m && 4 * m / 2 == 2 * m && 2 * m / 2 == m;
    Eighth(x);
  }

  lemma KeepsSetBit(w: nat)
    ensures And(Or(w, 2), 2) == 2
  {
    var z := Or(w, 2);
    OrStep(w, 2);
    OrStep(w / 2, 1);
    assert z / 2 == Or(w / 2, 1) && z / 2 % 2 == 1;
    AndStep(z, 2);
    AndStep(z / 2, 1);
  }

  lemma DivMod64(x: nat, q: nat, r: nat)
    requires x == 64 * q + r && r < 64
    ensures x / 64 == q && x % 64 == r && x / 8 / 8 == q && x / 8 % 8 * 8 + x % 8 == r
  {}

  // The low six bits of x under the marker bits 10.
  lemma SixBitsMarked(x: nat)
    ensures And(Or(x, 0x80), 0xBF) == 0x80 + x % 0x40
  {
    var z, w := Or(x, 0x80), Or(x / 64, 2);
    OrSplit8(x, 16);
    OrSplit8(x / 8, 2);
    DivMod64(x, x / 64, x % 64);
    assert z == 64 * w + x % 64;
    DivMod64(z, w, x % 64);
    AndSplit8(z, 23);
    AndSplit8(z / 8, 2);
    KeepsSetBit(x / 64);
  }

  // The marker of a first byte, with what is left of the code point in its low bits.
  lemma FirstByteMarked(x: nat)
    ensures Or(x, 0) == x
    ensures x < 0x20 ==> Or(x, 0xC0) == x + 0xC0
    ensures x < 0x10 ==> Or(x, 0xE0) == x + 0xE0
    ensures x < 0x08 ==> Or(x, 0xF0) == x + 0xF0
  {
    OrSplit8(x, 0x18);
    OrSplit8(x, 0x1C);
    OrSplit8(x, 0x1E);
    if x < 0x20 {
      OrSplit8(x / 8, 3);
    }
    if x < 0x10 {
      OrStep(x / 8, 0x1C);
    }
  }
}
