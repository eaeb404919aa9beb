/**
 The block check of the YMODEM receiver: the CRC-16 of the polynomial x^16 + x^12 + x^5 + 1,
 computed bit by bit in a 32-bit register that is masked only once, at the very end.
 */
module Crc {
  import opened ByteSum
  import opened Gf2

  /// The register and the 16 coefficients its low half holds

  // The coefficient of x^(15 - i).
  function Bit(c: bv32, i: nat): bool {
    match i
    case 0 => c & 0x8000 != 0
    case 1 => c & 0x4000 != 0
    case 2 => c & 0x2000 != 0
    case 3 => c & 0x1000 != 0
    case 4 => c & 0x0800 != 0
    case 5 => c & 0x0400 != 0
    case 6 => c & 0x0200 != 0
    case 7 => c & 0x0100 != 0
    case 8 => c & 0x0080 != 0
    case 9 => c & 0x0040 != 0
    case 10 => c & 0x0020 != 0
    case 11 => c & 0x0010 != 0
    case 12 => c & 0x0008 != 0
    case 13 => c & 0x0004 != 0
    case 14 => c & 0x0002 != 0
    case _ => c & 0x0001 != 0
  }

  // The 16 coefficients, the highest first.
  function Coeffs(c: bv32): (p: Poly)
    ensures |p| == 16
  {
    seq(16, i requires 0 <= i < 16 => Bit(c, i))
  }

  // The bits of a byte as they go into a message, the most significant first.
  function ByteBit(x: bv8, i: nat): bool {
    match i
    case 0 => x & 0x80 != 0
    case 1 => x & 0x40 != 0
    case 2 => x & 0x20 != 0
    case 3 => x & 0x10 != 0
    case 4 => x & 0x08 != 0
    case 5 => x & 0x04 != 0
    case 6 => x & 0x02 != 0
    case _ => x & 0x01 != 0
  }

  function ByteBits(x: bv8): (p: Poly)
    ensures |p| == 8
  {
    seq(8, i requires 0 <= i < 8 => ByteBit(x, i))
  }

  function MessageBits(s: seq<bv8>): (p: Poly)
    ensures |p| == 8 * |s|
  {
    if s == [] then [] else MessageBits(s[..|s| - 1]) + ByteBits(s[|s| - 1])
  }

  // One turn of the inner loop.
  function Shift(c: bv32): bv32 {
    if c & 0x8000 != 0 then (c << 1) ^ 0x1021 else c << 1
  }

  lemma ShiftHighBits(c: bv32)
    ensures var s := Shift(c);
            && Bit(s, 0) == Bit(c, 1) && Bit(s, 1) == Bit(c, 2) && Bit(s, 2) == Bit(c, 3)
            && Bit(s, 3) == (Bit(c, 4) != Bit(c, 0)) && Bit(s, 4) == Bit(c, 5)
            && Bit(s, 5) == Bit(c, 6) && Bit(s, 6) == Bit(c, 7) && Bit(s, 7) == Bit(c, 8)
  {}

  lemma ShiftLowBits(c: bv32)
    ensures var s := Shift(c);
            && Bit(s, 8) == Bit(c, 9) && Bit(s, 9) == Bit(c, 10)
            && Bit(s, 10) == (Bit(c, 11) != Bit(c, 0)) && Bit(s, 11) == Bit(c, 12)
            && Bit(s, 12) == Bit(c, 13) && Bit(s, 13) == Bit(c, 14) && Bit(s, 14) == Bit(c, 15)
            && Bit(s, 15) == Bit(c, 0)
  {}

  lemma ShiftBit(c: bv32, i: nat)
    requires i < 16
    ensures Bit(Shift(c), i) == ((i < 15 && Bit(c, i + 1)) != (Bit(c, 0) && (i == 3 || i == 10 || i == 15)))
  {
    hide Bit, Shift;
    if i < 8 {
      ShiftHighBits(c);
    } else {
      ShiftLowBits(c);
    }
  }

  lemma CoeffAt(c: bv32, i: nat)
    requires i < 16
    ensures Coeffs(c)[i] == Bit(c, i)
  {
    hide Bit;
  }

  // What the bits above the low 16 hold never matters: a turn is a division step without input.
  lemma ShiftDivides(c: bv32)
    ensures Coeffs(Shift(c)) == NextRemainder(Coeffs(c), false)
  {
    hide Bit, Shift, Coeffs;
    forall i | 0 <= i < 16
      ensures Coeffs(Shift(c))[i] == NextRemainder(Coeffs(c), false)[i]
    {
      ShiftBit(c, i);
      CoeffAt(Shift(c), i);
      CoeffAt(c, 0);
      if i < 15 {
        CoeffAt(c, i + 1);
      }
      assert G()[i + 1] == (i == 3 || i == 10 || i == 15);
    }
  }

  lemma EnterFirst(c: bv32, x: bv8)
    ensures var s := c ^ (x as bv32 << 8);
            && Bit(s, 0) == (Bit(c, 0) != ByteBit(x, 0))
            && Bit(s, 1) == (Bit(c, 1) != ByteBit(x, 1))
            && Bit(s, 2) == (Bit(c, 2) != ByteBit(x, 2))
  {}

  lemma EnterSecond(c: bv32, x: bv8)
    ensures var s := c ^ (x as bv32 << 8);
            && Bit(s, 3) == (Bit(c, 3) != ByteBit(x, 3))
            && Bit(s, 4) == (Bit(c, 4) != ByteBit(x, 4))
            && Bit(s, 5) == (Bit(c, 5) != ByteBit(x, 5))
  {}

  lemma EnterThird(c: bv32, x: bv8)
    ensures var s := c ^ (x as bv32 << 8);
            && Bit(s, 6) == (Bit(c, 6) != ByteBit(x, 6))
            && Bit(s, 7) == (Bit(c, 7) != ByteBit(x, 7))
  {}

  lemma EnterRest(c: bv32, x: bv8)
    ensures var s := c ^ (x as bv32 << 8);
            && Bit(s, 8) == Bit(c, 8) && Bit(s, 9) == Bit(c, 9)
            && Bit(s, 10) == Bit(c, 10) && Bit(s, 11) == Bit(c, 11)
            && Bit(s, 12) == Bit(c, 12) && Bit(s, 13) == Bit(c, 13)
            && Bit(s, 14) == Bit(c, 14) && Bit(s, 15) == Bit(c, 15)
  {}

  lemma EnterBit(c: bv32, x: bv8, i: nat)
    requires i < 16
    ensures Bit(c ^ (x as bv32 << 8), i) == (Bit(c, i) != (i < 8 && ByteBit(x, i)))
  {
    hide Bit, ByteBit;
    if i < 3 {
      EnterFirst(c, x);
    } else if i < 6 {
      EnterSecond(c, x);
    } else if i < 8 {
      EnterThird(c, x);
    } else {
      EnterRest(c, x);
    }
  }

  // A byte enters on top of the high eight coefficients.
  lemma Entered(c: bv32, x: bv8)
    ensures Coeffs(c ^ (x as bv32 << 8)) == Plus(Coeffs(c), ByteBits(x) + Zeros(8))
  {
    hide Bit, ByteBit;
    var s := c ^ (x as bv32 << 8);
    forall i | 0 <= i < 16
      ensures Coeffs(s)[i] == Plus(Coeffs(c), ByteBits(x) + Zeros(8))[i]
    {
      EnterBit(c, x, i);
    }
  }

  /// Feeding a message bit by bit

  function Feed(r: Poly, w: Poly): (s: Poly)
    requires |r| == 16
    ensures |s| == 16
    decreases |w|
  {
    if w == [] then r else Feed(NextRemainder(r, w[0]), w[1..])
  }

  lemma {:induction false} FeedDivides(m: Poly, r: Poly, w: Poly)
    requires |r| == 16 && Divides(m + r)
    ensures Divides((m + w) + Feed(r, w))
    decreases |w|
  {
    if w == [] {
      assert m + w == m;
    } else {
      DivisionStep(m, r, w[0]);
      FeedDivides(m + [w[0]], NextRemainder(r, w[0]), w[1..]);
      assert (m + [w[0]]) + w[1..] == m + w;
    }
  }

  // Bits that already lie on top of the register are fed in turn as it shifts.
  lemma WaitingBit(r: Poly, w: Poly)
    requires |r| == 16 && 0 < |w| <= 8
    ensures NextRemainder(Plus(r, w + Zeros(16 - |w|)), false) ==
            Plus(NextRemainder(r, w[0]), w[1..] + Zeros(17 - |w|))
  {}

  // Eight turns of the inner loop, one at a time.
  function Turns(c: bv32, n: nat): bv32 {
    if n == 0 then c else Shift(Turns(c, n - 1))
  }

  lemma {:induction false} TurnsFeed(c: bv32, r: Poly, w: Poly, n: nat)
    requires |r| == 16 && n <= |w| <= 8 && Coeffs(c) == Plus(r, w + Zeros(16 - |w|))
    ensures Coeffs(Turns(c, n)) == Plus(Feed(r, w[..n]), w[n..] + Zeros(16 - |w| + n))
  {
    hide Coeffs, Shift, NextRemainder;
    if n == 0 {
      assert w[..0] == [] && w[0..] == w;
    } else {
      hide Feed;
      TurnsFeed(c, r, w, n - 1);
      var s, v := Feed(r, w[..n - 1]), w[n - 1..];
      ShiftDivides(Turns(c, n - 1));
      WaitingBit(s, v);
      assert v[1..] == w[n..];
      FeedOneMore(r, w[..n - 1], w[n - 1]);
      assert w[..n - 1] + [w[n - 1]] == w[..n];
    }
  }

  lemma {:induction false} FeedOneMore(r: Poly, w: Poly, b: bool)
    requires |r| == 16
    ensures Feed(r, w + [b]) == NextRemainder(Feed(r, w), b)
    decreases |w|
  {
    if w == [] {
      assert Feed(NextRemainder(r, b), []) == NextRemainder(r, b);
      assert (w + [b])[1..] == [];
    } else {
      FeedOneMore(NextRemainder(r, w[0]), w[1..], b);
      assert (w + [b])[1..] == w[1..] + [b];
    }
  }

  // The register after one more byte of the message.
  function NextCrc(c: bv32, x: bv8): bv32 {
    Turns(c ^ (x as bv32 << 8), 8)
  }

  function Register(s: seq<bv8>): bv32 {
    if s == [] then 0 else NextCrc(Register(s[..|s| - 1]), s[|s| - 1])
  }

  lemma NextCrcFeeds(c: bv32, x: bv8)
    ensures Coeffs(NextCrc(c, x)) == Feed(Coeffs(c), ByteBits(x))
  {
    Entered(c, x);
    hide Coeffs, ByteBits, Turns;
    var w := ByteBits(x);
    TurnsFeed(c ^ (x as bv32 << 8), Coeffs(c), w, 8);
    assert w[..8] == w;
    var r := Feed(Coeffs(c), w);
    assert Plus(r, w[8..] + Zeros(16)) == r;
  }

  // The unmasked register holds the remainder of the message in its low 16 bits.
  lemma {:induction false} RegisterDivides(s: seq<bv8>)
    ensures Divides(MessageBits(s) + Coeffs(Register(s)))
  {
    if s == [] {
      ZeroBits();
      assert Times([], G()) == Zeros(16);
      assert MessageBits(s) + Coeffs(Register(s)) == Zeros(16);
    } else {
      var n := |s| - 1;
      RegisterDivides(s[..n]);
      NextCrcFeeds(Register(s[..n]), s[n]);
      FeedDivides(MessageBits(s[..n]), Coeffs(Register(s[..n])), ByteBits(s[n]));
    }
  }

  lemma ZeroBits()
    ensures Coeffs(0) == Zeros(16) && Low(0) == 0
  {}

  lemma RegisterIsRemainder(s: seq<bv8>)
    ensures IsRemainder(MessageBits(s), Coeffs(Register(s)))
  {
    RegisterDivides(s);
    RemainderMakesMultiple(MessageBits(s), Coeffs(Register(s)));
  }

  /// The two check bytes

  // The mask applied to the register at the end.
  function Low(c: bv32): bv32 {
    c & 0xFFFF
  }

  function Joined(h: bv8, l: bv8): bv32 {
    (h as bv32 << 8) | (l as bv32)
  }

  lemma JoinedBit(h: bv8, l: bv8, i: nat)
    requires i < 16
    ensures Bit(Joined(h, l), i) == if i < 8 then ByteBit(h, i) else ByteBit(l, i - 8)
  {}

  lemma JoinedBits(h: bv8, l: bv8)
    ensures Coeffs(Joined(h, l)) == ByteBits(h) + ByteBits(l)
  {
    hide Joined, Bit, ByteBit;
    forall i | 0 <= i < 16
      ensures Coeffs(Joined(h, l))[i] == (ByteBits(h) + ByteBits(l))[i]
    {
      JoinedBit(h, l, i);
    }
  }

  lemma JoinedIsLow(h: bv8, l: bv8)
    ensures Low(Joined(h, l)) == Joined(h, l)
  {}

  lemma SameHighByte(c: bv32, d: bv32)
    ensures c & 0xFF00 == d & 0xFF00 <==>
            && (Bit(c, 0) == Bit(d, 0)) && (Bit(c, 1) == Bit(d, 1)) && (Bit(c, 2) == Bit(d, 2))
            && (Bit(c, 3) == Bit(d, 3)) && (Bit(c, 4) == Bit(d, 4)) && (Bit(c, 5) == Bit(d, 5))
            && (Bit(c, 6) == Bit(d, 6)) && (Bit(c, 7) == Bit(d, 7))
  {}

  lemma SameLowByte(c: bv32, d: bv32)
    ensures c & 0x00FF == d & 0x00FF <==>
            && (Bit(c, 8) == Bit(d, 8)) && (Bit(c, 9) == Bit(d, 9)) && (Bit(c, 10) == Bit(d, 10))
            && (Bit(c, 11) == Bit(d, 11)) && (Bit(c, 12) == Bit(d, 12)) && (Bit(c, 13) == Bit(d, 13))
            && (Bit(c, 14) == Bit(d, 14)) && (Bit(c, 15) == Bit(d, 15))
  {}

  lemma TwoBytes(c: bv32, d: bv32)
    ensures c & 0xFFFF == d & 0xFFFF <==> c & 0xFF00 == d & 0xFF00 && c & 0x00FF == d & 0x00FF
  {}

  lemma SameBit(c: bv32, d: bv32, i: nat)
    requires i < 16 && Coeffs(c) == Coeffs(d)
    ensures Bit(c, i) == Bit(d, i)
  {
    assert Coeffs(c)[i] == Bit(c, i) && Coeffs(d)[i] == Bit(d, i);
  }

  // The low 16 bits are known by their coefficients.
  lemma SameLow(c: bv32, d: bv32)
    ensures Low(c) == Low(d) <==> Coeffs(c) == Coeffs(d)
  {
    hide Coeffs, Bit;
    TwoBytes(c, d);
    SameHighByte(c, d);
    SameLowByte(c, d);
    if Coeffs(c) == Coeffs(d) {
      SameBit(c, d, 0); SameBit(c, d, 1); SameBit(c, d, 2); SameBit(c, d, 3);
      SameBit(c, d, 4); SameBit(c, d, 5); SameBit(c, d, 6); SameBit(c, d, 7);
      SameBit(c, d, 8); SameBit(c, d, 9); SameBit(c, d, 10); SameBit(c, d, 11);
      SameBit(c, d, 12); SameBit(c, d, 13); SameBit(c, d, 14); SameBit(c, d, 15);
    } else if Low(c) == Low(d) {
      LowFixesBits(c, d);
    }
  }

  lemma LowFixesBits(c: bv32, d: bv32)
    requires Low(c) == Low(d)
    ensures Coeffs(c) == Coeffs(d)
  {
    forall i | 0 <= i < 16
      ensures Coeffs(c)[i] == Coeffs(d)[i]
    {
      hide Bit;
      LowFixesBit(c, d, i);
    }
  }

  lemma LowFixesBit(c: bv32, d: bv32, i: nat)
    requires i < 16 && Low(c) == Low(d)
    ensures Bit(c, i) == Bit(d, i)
  {
    hide Bit;
    TwoBytes(c, d);
    if i < 8 {
      SameHighByte(c, d);
    } else {
      SameLowByte(c, d);
    }
  }

  /// The outcome of a block

  // 0 for a good block, 1 for a bad one, 2 for one whose bytes add up to nothing.
  ghost function Outcome(s: seq<bv8>, h: bv8, l: bv8, crcMode: bool): nat {
    if Sum(s) % WORD == 0 then 2
    else if crcMode then
      if Divides(MessageBits(s) + (ByteBits(h) + ByteBits(l))) then 0 else 1
    else
      if 2 * Sum(s) % 0x100 == h as nat then 0 else 1
  }

  lemma OnlyRemainder(m: Poly, r: Poly, w: Poly)
    requires |r| == |w| == 16 && Divides(m + r)
    ensures Divides(m + w) <==> r == w
  {
    if Divides(m + w) {
      RemainderUnique(m, r, w);
    }
  }

  // The comparison of the masked register with the two check bytes decides divisibility.
  lemma RegisterDecides(s: seq<bv8>, h: bv8, l: bv8)
    ensures Low(Register(s)) == Joined(h, l) <==> Divides(MessageBits(s) + (ByteBits(h) + ByteBits(l)))
  {
    hide *;
    RegisterDivides(s);
    OnlyRemainder(MessageBits(s), Coeffs(Register(s)), ByteBits(h) + ByteBits(l));
    JoinedBits(h, l);
    SameLow(Register(s), Joined(h, l));
    JoinedIsLow(h, l);
  }

  method {:induction false} CrcCheck(buf: array<bv8>, len: nat, crch: bv8, crcl: bv8, crcMode: bool)
    returns (ret: nat, recErr: bool)
    requires len <= buf.Length
    ensures ret == Outcome(buf[..len], crch, crcl, crcMode)
    ensures recErr <==> ret == 1
  {
    hide Divides, Joined, Register, Low, MessageBits, ByteBits;
    ret, recErr := 0, false;
    var cksum := SumInto(buf, 0, len, 0);
    if cksum == 0 {
      return 2, false;
    }
    if crcMode {
      var crc := CrcOf(buf, len);
      RegisterDecides(buf[..len], crch, crcl);
      if Low(crc) != Joined(crch, crcl) {
        ret, recErr := 1, true;
      }
    } else {
      cksum := SumInto(buf, 0, len, cksum);
      assert cksum == (Sum(buf[..len]) + Sum(buf[..len])) % WORD by {
        AddWraps(Sum(buf[..len]), Sum(buf[..len]));
      }
      LowByte(2 * Sum(buf[..len]));
      if cksum % 0x100 != crch as nat {
        ret, recErr := 1, true;
      }
    }
  }

  method CrcOf(buf: array<bv8>, len: nat) returns (crc: bv32)
    requires len <= buf.Length
    ensures crc == Register(buf[..len])
  {
    hide Shift;
    crc := 0;
    var k := 0;
    while k < len
      invariant k <= len && crc == Register(buf[..k])
    {
      crc := crc ^ (buf[k] as bv32 << 8);
      ghost var entered := crc;
      var i := 8;
      while i != 0
        invariant 0 <= i <= 8 && crc == Turns(entered, 8 - i)
      {
        crc := ShiftOnce(crc);
        i := i - 1;
      }
      assert buf[..k + 1][..k] == buf[..k];
      k := k + 1;
    }
  }

  method ShiftOnce(c: bv32) returns (r: bv32)
    ensures r == Shift(c)
  {
    if c & 0x8000 != 0 {
      r := (c << 1) ^ 0x1021;
    } else {
      r := c << 1;
    }
  }

  lemma LowByte(x: nat)
    ensures x % WORD % 0x100 == x % 0x100
  {}

  /// What the check is worth

  // A block followed by its own check bytes leaves nothing in the register, and no other does.
  lemma CodewordChecksToZero(s: seq<bv8>, h: bv8, l: bv8)
    ensures Low(Register(s + [h, l])) == 0 <==> Low(Register(s)) == Joined(h, l)
  {
    hide Coeffs, ByteBits, Register, Joined, Divides;
    var c := s + [h, l];
    assert c[..|c| - 1] == s + [h] && (s + [h])[..|s|] == s;
    var m, r := MessageBits(c), Coeffs(Register(c));
    assert MessageBits(s + [h]) == MessageBits(s) + ByteBits(h);
    assert m == MessageBits(s) + (ByteBits(h) + ByteBits(l));
    RegisterDecides(s, h, l);
    RegisterDivides(c);
    SameLow(Register(c), 0);
    ZeroBits();
    if Divides(m) {
      ShiftedMultiple(m, 16);
      RemainderUnique(m, r, Zeros(16));
    } else if r == Zeros(16) {
      UnshiftedMultiple(m, 16);
    }
  }

  // An accepted block that suffers a burst of damage over at most 16 bits is not accepted.
  lemma BurstRejected(s: seq<bv8>, h: bv8, l: bv8, s': seq<bv8>, h': bv8, l': bv8, lo: nat)
    requires Outcome(s, h, l, true) == 0 && |s'| == |s|
    requires var sent, received := MessageBits(s) + (ByteBits(h) + ByteBits(l)), MessageBits(s') + (ByteBits(h') + ByteBits(l'));
             && sent != received
             && forall k :: 0 <= k < |sent| && !(lo <= k < lo + 16) ==> sent[k] == received[k]
    ensures Outcome(s', h', l', true) != 0
  {
    hide Divides, MessageBits, ByteBits;
    BurstNoticed(MessageBits(s) + (ByteBits(h) + ByteBits(l)), MessageBits(s') + (ByteBits(h') + ByteBits(l')), lo);
  }

  // With the one-byte check, a block that carries its own byte sum is accepted only when that sum is zero.
  lemma OwnSumAccepted(s: seq<bv8>, h: bv8, l: bv8)
    requires h as nat == Sum(s) % 0x100
    ensures Outcome(s, h, l, false) == 0 <==> Sum(s) % WORD != 0 && h == 0
  {
    DoubleByte(Sum(s));
  }

  lemma DoubleByte(x: nat)
    ensures 2 * x % 0x100 == x % 0x100 <==> x % 0x100 == 0
  {}

  lemma OwnSumRefused()
    ensures Sum([1]) % 0x100 == 1 && Outcome([1], 1, 0, false) == 1
  {
    assert Sum([1]) == Sum([]) + 1;
  }

  // A block of zeros is turned away whatever its check bytes; up to 16 MB no other block is.
  lemma {:induction false} ZerosTurnedAway(s: seq<bv8>, h: bv8, l: bv8, crcMode: bool)
    requires |s| <= 0x100_0000
    ensures Outcome(s, h, l, crcMode) == 2 <==> forall k :: 0 <= k < |s| ==> s[k] == 0
  {
    SumRange(s);
  }

  lemma {:induction false} SumRange(s: seq<bv8>)
    ensures Sum(s) <= 0xFF * |s|
    ensures Sum(s) == 0 <==> forall k :: 0 <= k < |s| ==> s[k] == 0
  {
    if s != [] {
      SumRange(s[..|s| - 1]);
    }
  }
}
