/** 64-by-32-bit division by shifting and subtracting, in 64-bit arithmetic that wraps. */
module Division {
  import opened Bits

  const TWO_32 := 0x1_0000_0000
  const TWO_64 := 0x1_0000_0000_0000_0000

  type u32 = x: int | 0 <= x < TWO_32
  type u64 = x: int | 0 <= x < TWO_64

  function Wrap32(x: int): u32 {
    x % TWO_32
  }

  function Wrap64(x: int): u64 {
    x % TWO_64
  }

  lemma NoWrap(x: int)
    ensures 0 <= x < TWO_32 ==> Wrap32(x) == x
    ensures 0 <= x < TWO_64 ==> Wrap64(x) == x
  {}

  lemma {:induction false} PowerMonotone(i: nat, j: nat)
    requires i <= j
    ensures Pow2(i) <= Pow2(j)
  {
    if i < j {
      PowerMonotone(i, j - 1);
    }
  }

  lemma PowerOf32()
    ensures Pow2(32) == TWO_32
  {
    assert Pow2(8) == 0x100;
    assert Pow2(16) == 0x1_0000;
    assert Pow2(24) == 0x100_0000;
  }

  // A power of two below 2^32 is at most 2^31.
  lemma BelowTwo32(k: nat)
    requires Pow2(k) < TWO_32
    ensures k < 32 && 2 * Pow2(k) <= TWO_32
  {
    PowerOf32();
    if k >= 32 {
      PowerMonotone(32, k);
    } else {
      PowerMonotone(k + 1, 32);
    }
  }

  // The product of quotient and divisor, and the dividend less that product, do not wrap; what
  // is left is below base * 2^32.
  lemma HighWordReduced(n: u64, base: u32, high: nat, q: nat)
    requires base > 0 && high == n / TWO_32 && q == high / base
    ensures q < TWO_32 && 0 <= q * base <= high
    ensures 0 <= n - q * base * TWO_32 < base * TWO_32
    ensures n == q * TWO_32 * base + (n - q * base * TWO_32)
  {
    var r := high % base;
    assert high == base * q + r;
    assert base * q >= q by { MulGrows(base, q); }
    assert q * TWO_32 * base == q * base * TWO_32;
    assert (r + 1) * TWO_32 <= base * TWO_32;
  }

  lemma MulGrows(m: nat, x: nat)
    requires m > 0
    ensures m * x >= x
  {}

  lemma LessFactor(m: nat, a: nat, b: nat)
    requires m * a < m * b
    ensures a < b
  {}

  lemma NoMoreThan(m: nat, a: nat, b: nat)
    requires a <= b
    ensures m * a <= m * b
  {}

  lemma SmallHighWord(n: u64, base: u32)
    requires n / TWO_32 < base
    ensures n < base * TWO_32
  {
    assert n < (n / TWO_32 + 1) * TWO_32 <= base * TWO_32;
  }

  // Doubling b stays within 64 bits while b is below the reduced remainder.
  lemma DoublingFits(base: u32, k: nat, rem: nat)
    requires base > 0 && base * Pow2(k) < rem < base * TWO_32
    ensures k < 32 && 2 * Pow2(k) <= TWO_32
    ensures 2 * (base * Pow2(k)) == base * Pow2(k + 1) < TWO_64
  {
    var p := Pow2(k);
    LessFactor(base, p, TWO_32);
    BelowTwo32(k);
    hide Pow2;
    NoMoreThan(base, 2 * p, TWO_32);
    assert base * (2 * p) == 2 * (base * p);
  }

  // d is a power of two, and b that multiple of the base.
  ghost predicate Scaled(base: u32, k: nat, b: nat, d: nat) {
    d == Pow2(k) && b == base * d
  }

  ghost predicate Divided(n: nat, base: u32, res: nat, rem: nat) {
    n == res * base + rem
  }

  lemma Doubled(base: u32, k: nat, b: nat, d: nat, rem: nat)
    requires base > 0 && Scaled(base, k, b, d) && b < rem < base * TWO_32
    ensures k < 32 && b + b < TWO_64 && d + d < TWO_64 && b + b > 0 && Scaled(base, k + 1, b + b, d + d)
  {
    DoublingFits(base, k, rem);
  }

  lemma Subtracted(n: u64, base: u32, res: nat, rem: nat, k: nat, b: nat, d: nat)
    requires base > 0 && Divided(n, base, res, rem) && Scaled(base, k, b, d) && b <= rem
    ensures Divided(n, base, res + d, rem - b) && res + d <= n
  {
    assert (res + d) * base == res * base + base * d;
    assert (res + d) * base >= res + d by { MulGrows(base, res + d); }
  }

  lemma Halved(base: u32, k: nat, b: nat, d: nat)
    requires base > 0 && Scaled(base, k, b, d)
    ensures if k > 0 then Scaled(base, k - 1, b / 2, d / 2) && d / 2 > 0 && b == 2 * (b / 2)
            else d / 2 == 0 && b == base
  {
    if k > 0 {
      assert b == 2 * (base * Pow2(k - 1));
    }
  }

  // Returns the quotient, which C writes back through the pointer, and the remainder.
  method Div64By32(n: u64, base: u32) returns (quotient: u64, remainder: u32)
    requires base > 0
    ensures n == quotient * base + remainder && remainder < base
  {
    hide Divided, Scaled, Pow2, Wrap64, Wrap32;
    var rem: u64, b: u64, res: u64, d: u64 := n, base, 0, 1;
    var high: u32 := rem / TWO_32;
    if high >= base {
      HighWordReduced(n, base, high, high / base);
      high := high / base;
      NoWrap(high * base);
      NoWrap(high * TWO_32);
      NoWrap(high * base * TWO_32);
      NoWrap(rem - high * base * TWO_32);
      res := Wrap64(high * TWO_32);
      rem := Wrap64(rem - Wrap64(Wrap32(high * base) * TWO_32));
    } else {
      SmallHighWord(n, base);
    }
    Start(n, base, res, rem);
    ghost var k := 0;
    while b > 0 && b < rem
      invariant Scaled(base, k, b, d) && b > 0 && rem < base * TWO_32 && 0 <= k <= 32
      decreases 32 - k
    {
      Doubled(base, k, b, d, rem);
      NoWrap(b + b);
      NoWrap(d + d);
      b := Wrap64(b + b);
      d := Wrap64(d + d);
      k := k + 1;
    }
    var more := true;
    while more
      invariant Divided(n, base, res, rem) && k >= 0
      invariant if more then Scaled(base, k, b, d) && rem < 2 * b else rem < base
      decreases if more then k + 1 else 0
    {
      if rem >= b {
        Subtracted(n, base, res, rem, k, b, d);
        NoWrap(rem - b);
        NoWrap(res + d);
        rem := Wrap64(rem - b);
        res := Wrap64(res + d);
      }
      Halved(base, k, b, d);
      b := b / 2;
      d := d / 2;
      more := d != 0;
      k := if k > 0 then k - 1 else 0;
    }
    Finish(n, base, res, rem);
    return res, rem;
  }

  lemma Start(n: nat, base: u32, res: nat, rem: nat)
    requires n == res * base + rem
    ensures Divided(n, base, res, rem) && Scaled(base, 0, base, 1)
  {}

  lemma Finish(n: nat, base: u32, res: nat, rem: nat)
    requires Divided(n, base, res, rem)
    ensures n == res * base + rem
  {}

  // The base is cut to 32 bits; the result is n modulo that.
  method Modular64(n: u64, base: u64) returns (r: u64)
    requires Wrap32(base) > 0
    ensures r == n % Wrap32(base)
    ensures base < TWO_32 ==> r == n % base
  {
    var base32: u32 := Wrap32(base);
    var rem: u32;
    if n / TWO_32 == 0 {
      rem := Wrap32(n) % base32;
    } else {
      var q;
      q, rem := Div64By32(n, base32);
      ModUnique(n, base32, q, rem);
    }
    return rem;
  }
}
