/**
 What the building blocks of SHA-1 compute, without the shifts and literals that define them:
 rotations as numbers, round functions bit by bit, constants as square roots, and bytes as parts
 of the number that a word spells.
 */
module Sha1Words {
  import opened Numbers
  import opened Sha1

  // ----- the bits of a word

  function RotateRight(m: Word): Word { (m << 31) | (m >> 1) }

  /** The mask of the `k`th bit, counted from the most significant one, and round again. */
  function Mask(k: nat): Word { if k == 0 then 0x8000_0000 else RotateRight(Mask(k - 1)) }

  function One(x: Word): nat { if x != 0 then 1 else 0 }

  /** The bit of `x` that `m` selects. */
  function Bit(x: Word, m: Word): nat { One(Masked(x, m)) }

  function Masked(x: Word, m: Word): Word { x & m }

  /** The bits of a word, most significant first. */
  function Bits(x: Word): (s: seq<nat>)
    ensures |s| == 32 && forall k :: 0 <= k < 32 ==> s[k] == Bit(x, Mask(k))
  {
    seq(32, k requires 0 <= k < 32 => Bit(x, Mask(k)))
  }

  /** The number that a word spells. */
  function Number(x: Word): nat { Val(2, Bits(x)) }

  lemma {:induction false} MaskIsOneBit(k: nat)
    ensures Mask(k) & (Mask(k) - 1) == 0 && Mask(k) != 0
  {
    if k > 0 {
      MaskIsOneBit(k - 1);
      StaysOneBit(Mask(k - 1));
    }
  }

  lemma StaysOneBit(m: Word)
    requires m & (m - 1) == 0 && m != 0
    ensures RotateRight(m) & (RotateRight(m) - 1) == 0 && RotateRight(m) != 0
  {
  }

  function Right2(m: Word): Word { (m << 30) | (m >> 2) }
  function Right5(m: Word): Word { (m << 27) | (m >> 5) }
  function Right8(m: Word): Word { (m << 24) | (m >> 8) }
  function Right24(m: Word): Word { (m << 8) | (m >> 24) }
  function Right30(m: Word): Word { (m << 2) | (m >> 30) }

  lemma TwoSteps(m: Word)
    ensures RotateRight(RotateRight(m)) == Right2(m)
  {
  }

  lemma FiveSteps(m: Word)
    ensures RotateRight(Right2(Right2(m))) == Right5(m)
  {
  }

  lemma EightSteps(m: Word)
    ensures Right2(Right2(Right2(Right2(m)))) == Right8(m)
  {
  }

  lemma ManySteps(m: Word)
    ensures Right8(Right8(Right8(m))) == Right24(m) && Right8(Right8(Right8(Right8(m)))) == m
  {
  }

  lemma ThirtySteps(m: Word)
    ensures Right30(Right2(m)) == m
  {
  }

  lemma MaskTwoOn(k: nat)
    ensures Mask(k + 2) == Right2(Mask(k))
  {
    hide RotateRight, Right2;
    TwoSteps(Mask(k));
    assert Mask(k + 1) == RotateRight(Mask(k));
  }

  lemma MaskFiveOn(k: nat)
    ensures Mask(k + 5) == Right5(Mask(k))
  {
    hide RotateRight, Right2, Right5;
    MaskTwoOn(k);
    MaskTwoOn(k + 2);
    FiveSteps(Mask(k));
  }

  lemma MaskEightOn(k: nat)
    ensures Mask(k + 8) == Right8(Mask(k))
  {
    hide RotateRight, Right2, Right8;
    MaskTwoOn(k);
    MaskTwoOn(k + 2);
    MaskTwoOn(k + 4);
    MaskTwoOn(k + 6);
    EightSteps(Mask(k));
  }

  lemma MaskFarOn(k: nat)
    ensures Mask(k + 24) == Right24(Mask(k)) && Mask(k + 32) == Mask(k)
  {
    hide RotateRight, Right8, Right24;
    MaskEightOn(k);
    MaskEightOn(k + 8);
    MaskEightOn(k + 16);
    MaskEightOn(k + 24);
    ManySteps(Mask(k));
  }

  lemma MaskThirtyOn(k: nat)
    ensures Mask(k + 30) == Right30(Mask(k))
  {
    hide RotateRight, Right2, Right30, Right24;
    MaskFarOn(k);
    MaskTwoOn(k + 30);
    ThirtySteps(Mask(k + 30));
  }

  // ----- rotations

  lemma Rotated1(x: Word, m: Word)
    ensures Bit(Rol1(x), m) == Bit(x, RotateRight(m))
  {
  }

  lemma Rotated5(x: Word, m: Word)
    ensures Bit(Rol5(x), m) == Bit(x, Right5(m))
  {
  }

  lemma Rotated8(x: Word, m: Word)
    ensures Bit(Rol8(x), m) == Bit(x, Right8(m))
  {
  }

  lemma Rotated24(x: Word, m: Word)
    ensures Bit(Rol24(x), m) == Bit(x, Right24(m))
  {
  }

  lemma Rotated30(x: Word, m: Word)
    ensures Bit(Rol30(x), m) == Bit(x, Right30(m))
  {
  }

  /** A word whose bits are those of `x`, `n` places on, is `x` rotated by `n` places. */
  lemma RotatedNumber(x: Word, y: Word, n: nat)
    requires n <= 32 && forall k: nat :: k < 32 ==> Bit(y, Mask(k)) == Bit(x, Mask(k + n))
    ensures Number(y) == Number(x) * Pow(2, n) % Pow(2, 32) + Number(x) / Pow(2, 32 - n)
  {
    hide Mask, Val, Pow, Bit;
    var s := Bits(x);
    forall k | 0 <= k < 32
      ensures Bits(y)[k] == (s[n..] + s[..n])[k]
    {
      if k + n >= 32 { MaskFarOn(k + n - 32); }
    }
    assert Bits(y) == s[n..] + s[..n] && s == s[..n] + s[n..];
    BitsAreDigits(x);
    ValConcat(2, s[n..], s[..n]);
    ValConcat(2, s[..n], s[n..]);
    ValBound(2, s[n..]);
    PowAdd(2, 32 - n, n);
    Recombine(Val(2, s[..n]), Val(2, s[n..]), Pow(2, 32 - n), Pow(2, n));
  }

  lemma BitsAreDigits(x: Word)
    ensures Digits(2, Bits(x))
  {
  }

  lemma Recombine(high: nat, low: nat, p: nat, q: nat)
    requires low < p && q > 0
    ensures p * q > 0
    ensures (high * p + low) / p == high && (high * p + low) * q % (p * q) == low * q
  {
    QuotientIs(high, low, p);
    DistributeRight(high * p, low, q);
    MulAssoc(high, p, q);
    MulMonotone(low + 1, p, q);
    DistributeRight(low, 1, q);
    MulMonotone(1, p, q);
    QuotientIs(high, low * q, p * q);
  }

  lemma QuotientIs(a: nat, r: nat, m: nat)
    requires r < m
    ensures (a * m + r) / m == a && (a * m + r) % m == r
  {
    DivModUnique((a * m + r) / m, a, m, (a * m + r) % m, r);
  }

  /** The rotations that occur are multiplication by a power of two, with what overflows brought back. */
  lemma RotationsAreNumbers(x: Word)
    ensures Number(Rol1(x)) == Number(x) * Pow(2, 1) % Pow(2, 32) + Number(x) / Pow(2, 31)
    ensures Number(Rol5(x)) == Number(x) * Pow(2, 5) % Pow(2, 32) + Number(x) / Pow(2, 27)
    ensures Number(Rol8(x)) == Number(x) * Pow(2, 8) % Pow(2, 32) + Number(x) / Pow(2, 24)
    ensures Number(Rol24(x)) == Number(x) * Pow(2, 24) % Pow(2, 32) + Number(x) / Pow(2, 8)
    ensures Number(Rol30(x)) == Number(x) * Pow(2, 30) % Pow(2, 32) + Number(x) / Pow(2, 2)
  {
    hide Mask, Bit, Number, Pow, Rol1, Rol5, Rol8, Rol24, Rol30;
    forall k: nat
      ensures Bit(Rol1(x), Mask(k)) == Bit(x, Mask(k + 1))
      ensures Bit(Rol5(x), Mask(k)) == Bit(x, Mask(k + 5))
      ensures Bit(Rol8(x), Mask(k)) == Bit(x, Mask(k + 8))
      ensures Bit(Rol24(x), Mask(k)) == Bit(x, Mask(k + 24))
      ensures Bit(Rol30(x), Mask(k)) == Bit(x, Mask(k + 30))
    {
      RotatedBits(x, k);
    }
    RotatedNumber(x, Rol1(x), 1);
    RotatedNumber(x, Rol5(x), 5);
    RotatedNumber(x, Rol8(x), 8);
    RotatedNumber(x, Rol24(x), 24);
    RotatedNumber(x, Rol30(x), 30);
  }

  lemma RotatedBits(x: Word, k: nat)
    ensures Bit(Rol1(x), Mask(k)) == Bit(x, Mask(k + 1))
    ensures Bit(Rol5(x), Mask(k)) == Bit(x, Mask(k + 5))
    ensures Bit(Rol8(x), Mask(k)) == Bit(x, Mask(k + 8))
    ensures Bit(Rol24(x), Mask(k)) == Bit(x, Mask(k + 24))
    ensures Bit(Rol30(x), Mask(k)) == Bit(x, Mask(k + 30))
  {
    hide Bit, Rol1, Rol5, Rol8, Rol24, Rol30, RotateRight, Right5, Right8, Right24, Right30;
    Rotated1(x, Mask(k));
    Rotated5(x, Mask(k));
    Rotated8(x, Mask(k));
    Rotated24(x, Mask(k));
    Rotated30(x, Mask(k));
    MaskFiveOn(k);
    MaskEightOn(k);
    MaskFarOn(k);
    MaskThirtyOn(k);
  }

  // ----- the round functions

  /** Ch takes each bit of `y` or `z` as the bit of `x` says, Parity is the parity of three bits, Maj their majority. */
  lemma RoundFunctionBits(x: Word, y: Word, z: Word, k: nat)
    requires k < 32
    ensures Bits(Ch(x, y, z))[k] == if Bits(x)[k] == 1 then Bits(y)[k] else Bits(z)[k]
    ensures Bits(Parity(x, y, z))[k] == (Bits(x)[k] + Bits(y)[k] + Bits(z)[k]) % 2
    ensures Bits(Maj(x, y, z))[k] == (Bits(x)[k] + Bits(y)[k] + Bits(z)[k]) / 2
  {
    hide Mask, Bit;
    MaskIsOneBit(k);
    ChBit(x, y, z, Mask(k));
    ParityBit(x, y, z, Mask(k));
    MajBit(x, y, z, Mask(k));
  }

  lemma ChBit(x: Word, y: Word, z: Word, m: Word)
    requires m & (m - 1) == 0 && m != 0
    ensures Bit(Ch(x, y, z), m) == if Bit(x, m) == 1 then Bit(y, m) else Bit(z, m)
  {
    hide Ch, Masked;
    EachAllOrNothing(x, y, z, m);
    MaskedCh(x, y, z, m);
    ChosenOne(Masked(x, m), Masked(y, m), Masked(z, m), Masked(Ch(x, y, z), m), m);
  }

  lemma ParityBit(x: Word, y: Word, z: Word, m: Word)
    requires m & (m - 1) == 0 && m != 0
    ensures Bit(Parity(x, y, z), m) == (Bit(x, m) + Bit(y, m) + Bit(z, m)) % 2
  {
    hide Parity, Masked;
    EachAllOrNothing(x, y, z, m);
    MaskedParity(x, y, z, m);
    ChosenOdd(Masked(x, m), Masked(y, m), Masked(z, m), Masked(Parity(x, y, z), m), m);
  }

  lemma MajBit(x: Word, y: Word, z: Word, m: Word)
    requires m & (m - 1) == 0 && m != 0
    ensures Bit(Maj(x, y, z), m) == (Bit(x, m) + Bit(y, m) + Bit(z, m)) / 2
  {
    hide Maj, Masked;
    EachAllOrNothing(x, y, z, m);
    MaskedMaj(x, y, z, m);
    ChosenMost(Masked(x, m), Masked(y, m), Masked(z, m), Masked(Maj(x, y, z), m), m);
  }

  lemma EachAllOrNothing(x: Word, y: Word, z: Word, m: Word)
    requires m & (m - 1) == 0
    ensures (Masked(x, m) == 0 || Masked(x, m) == m) && (Masked(y, m) == 0 || Masked(y, m) == m)
    ensures Masked(z, m) == 0 || Masked(z, m) == m
  {
    hide Masked;
    AllOrNothing(x, m);
    AllOrNothing(y, m);
    AllOrNothing(z, m);
  }

  lemma AllOrNothing(x: Word, m: Word)
    requires m & (m - 1) == 0
    ensures Masked(x, m) == 0 || Masked(x, m) == m
  {
  }

  // Masking goes through the round functions.

  lemma MaskedCh(x: Word, y: Word, z: Word, m: Word)
    ensures Masked(Ch(x, y, z), m) == (Masked(x, m) & Masked(y, m)) ^ ((Masked(x, m) ^ m) & Masked(z, m))
  {
  }

  lemma MaskedMaj(x: Word, y: Word, z: Word, m: Word)
    ensures Masked(Maj(x, y, z), m) == (Masked(x, m) & Masked(y, m)) ^ (Masked(x, m) & Masked(z, m)) ^ (Masked(y, m) & Masked(z, m))
  {
  }

  lemma MaskedParity(x: Word, y: Word, z: Word, m: Word)
    ensures Masked(Parity(x, y, z), m) == Masked(x, m) ^ Masked(y, m) ^ Masked(z, m)
  {
  }

  lemma ChosenOne(a: Word, b: Word, c: Word, d: Word, m: Word)
    requires (a == 0 || a == m) && (b == 0 || b == m) && (c == 0 || c == m) && m != 0
    requires d == (a & b) ^ ((a ^ m) & c)
    ensures One(d) == if One(a) == 1 then One(b) else One(c)
  {
    ChooseOne(a, b, c, m);
  }

  lemma ChosenOdd(a: Word, b: Word, c: Word, d: Word, m: Word)
    requires (a == 0 || a == m) && (b == 0 || b == m) && (c == 0 || c == m) && m != 0
    requires d == a ^ b ^ c
    ensures One(d) == (One(a) + One(b) + One(c)) % 2
  {
    ChooseOdd(a, b, c, m);
  }

  lemma ChosenMost(a: Word, b: Word, c: Word, d: Word, m: Word)
    requires (a == 0 || a == m) && (b == 0 || b == m) && (c == 0 || c == m) && m != 0
    requires d == (a & b) ^ (a & c) ^ (b & c)
    ensures One(d) == (One(a) + One(b) + One(c)) / 2
  {
    ChooseMost(a, b, c, m);
  }

  lemma ChooseOne(a: Word, b: Word, c: Word, m: Word)
    requires (a == 0 || a == m) && (b == 0 || b == m) && (c == 0 || c == m)
    ensures a == 0 ==> (a & b) ^ ((a ^ m) & c) == c
    ensures a != 0 ==> (a & b) ^ ((a ^ m) & c) == b
  {
    if a == 0 { if c == 0 { } else { } } else { if b == 0 { } else { } }
  }

  lemma ChooseOdd(a: Word, b: Word, c: Word, m: Word)
    requires (a == 0 || a == m) && (b == 0 || b == m) && (c == 0 || c == m)
    ensures a == b ==> a ^ b ^ c == c
    ensures a != b && b == c ==> a ^ b ^ c == a
    ensures a != b && b != c ==> a ^ b ^ c == b
  {
    if a == 0 { if b == 0 { } else { } } else { if b == 0 { } else { } }
  }

  lemma ChooseMost(a: Word, b: Word, c: Word, m: Word)
    requires (a == 0 || a == m) && (b == 0 || b == m) && (c == 0 || c == m)
    ensures a == b ==> (a & b) ^ (a & c) ^ (b & c) == a
    ensures a != b ==> (a & b) ^ (a & c) ^ (b & c) == c
  {
    if a == 0 { if b == 0 { } else { } } else { if b == 0 { } else { } }
  }

  /** Which function a round uses: rounds 0 to 19 choose, 40 to 59 take the majority, the others the parity. */
  lemma RoundFunctionOf(t: nat, x: Word, y: Word, z: Word)
    requires t < 80
    ensures F(t, x, y, z) == [Ch(x, y, z), Parity(x, y, z), Maj(x, y, z), Parity(x, y, z)][t / 20]
  {
    hide Ch, Parity, Maj;
  }

  /** A schedule word takes the parity of four bits before it is rotated. */
  lemma Xor4Bit(p: Word, q: Word, r: Word, s: Word, m: Word)
    requires m & (m - 1) == 0 && m != 0
    ensures Bit(Xor4(p, q, r, s), m) == (Bit(p, m) + Bit(q, m) + Bit(r, m) + Bit(s, m)) % 2
  {
    hide Bit, Xor;
    TwoBits(p, q, m);
    TwoBits(Xor(p, q), r, m);
    TwoBits(Xor(Xor(p, q), r), s, m);
  }

  lemma TwoBits(x: Word, y: Word, m: Word)
    requires m & (m - 1) == 0 && m != 0
    ensures Bit(Xor(x, y), m) == (Bit(x, m) + Bit(y, m)) % 2
  {
    hide Masked, Xor;
    AllOrNothing(x, m);
    AllOrNothing(y, m);
    MaskedXor(x, y, m);
    OneOfTwo(Masked(x, m), Masked(y, m), m);
  }

  lemma MaskedXor(x: Word, y: Word, m: Word)
    ensures Masked(Xor(x, y), m) == Masked(x, m) ^ Masked(y, m)
  {
  }

  lemma OneOfTwo(a: Word, d: Word, m: Word)
    requires (a == 0 || a == m) && (d == 0 || d == m) && m != 0
    ensures One(a ^ d) == (One(a) + One(d)) % 2
  {
    if a == 0 { if d == 0 { } else { } } else { if d == 0 { } else { } }
  }

  /** Addition modulo 2^32 undoes subtraction. */
  lemma AddUndoes(x: Word, y: Word, z: Word)
    requires z == x - y
    ensures Add(z, y) == x
  {
  }

  // ----- the constants

  /** The constants are the whole parts of 2^30 times the square roots of 2, 3, 5 and 10. */
  lemma ConstantsAreRoots(t: nat)
    requires t < 80
    ensures var c := [2, 3, 5, 10][t / 20];
            var k := K(t) as nat;
            k * k <= c * 0x1000_0000_0000_0000 < (k + 1) * (k + 1)
  {
  }

  /** The initial hash value counts the hexadecimal digits up and down, in the byte order of the machine. */
  lemma InitialBytes(i: nat)
    requires i < 8
    ensures (LittleBytes(H0.a) + LittleBytes(H0.b))[i] as nat == 0x01 + 0x22 * i
    ensures (LittleBytes(H0.c) + LittleBytes(H0.d))[i] as nat == 0xfe - 0x22 * i
    ensures i < 4 ==> LittleBytes(H0.e)[i] as nat == 0xf0 - 0x0f * i
  {
  }

  // ----- bytes

  function OctetBit(p: Octet, m: Octet): nat { if p & m != 0 then 1 else 0 }

  /** The eight bits of an octet as a number. */
  lemma OctetNumber(p: Octet)
    ensures p as nat
         == 128 * OctetBit(p, 0x80) + 64 * OctetBit(p, 0x40) + 32 * OctetBit(p, 0x20) + 16 * OctetBit(p, 0x10)
          + 8 * OctetBit(p, 0x08) + 4 * OctetBit(p, 0x04) + 2 * OctetBit(p, 0x02) + OctetBit(p, 0x01)
  {
  }

  lemma TopMasks()
    ensures Mask(0) == 0x8000_0000 && Mask(1) == 0x4000_0000 && Mask(2) == 0x2000_0000 && Mask(3) == 0x1000_0000
    ensures Mask(4) == 0x0800_0000 && Mask(5) == 0x0400_0000 && Mask(6) == 0x0200_0000 && Mask(7) == 0x0100_0000
  {
  }

  /** The value of four bits. */
  lemma FourBits(s: seq<nat>)
    requires |s| == 4
    ensures Val(2, s) == 8 * s[0] + 4 * s[1] + 2 * s[2] + s[3]
  {
    hide Val;
    NoBits();
    assert s[..0] == [] && s[..4] == s;
    OneMore(s, 0);
    OneMore(s, 1);
    OneMore(s, 2);
    OneMore(s, 3);
  }

  lemma EightBits(s: seq<nat>)
    requires |s| == 8
    ensures Val(2, s) == 128 * s[0] + 64 * s[1] + 32 * s[2] + 16 * s[3] + 8 * s[4] + 4 * s[5] + 2 * s[6] + s[7]
  {
    hide Val;
    FourBits(s[..4]);
    FourBits(s[4..]);
    assert s == s[..4] + s[4..];
    ValConcat(2, s[..4], s[4..]);
    assert Pow(2, 4) == 16;
  }

  lemma NoBits()
    ensures Val(2, []) == 0
  {
  }

  lemma OneMore(s: seq<nat>, k: nat)
    requires k < |s|
    ensures Val(2, s[..k + 1]) == 2 * Val(2, s[..k]) + s[k]
  {
    assert s[..k + 1][..k] == s[..k];
  }

  lemma TopOctet(p: Octet, q: Octet, r: Octet, s: Octet)
    ensures Val(2, Bits(BigEndian(p, q, r, s))[..8]) == p as nat
  {
    hide Mask, Val, Bit, OctetBit, BigEndian;
    EightBits(Bits(BigEndian(p, q, r, s))[..8]);
    TopMasks();
    OctetNumber(p);
    TopBits(p, q, r, s);
  }

  lemma TopBits(p: Octet, q: Octet, r: Octet, s: Octet)
    ensures var x := BigEndian(p, q, r, s);
            && Bit(x, 0x8000_0000) == OctetBit(p, 0x80) && Bit(x, 0x4000_0000) == OctetBit(p, 0x40)
            && Bit(x, 0x2000_0000) == OctetBit(p, 0x20) && Bit(x, 0x1000_0000) == OctetBit(p, 0x10)
            && Bit(x, 0x0800_0000) == OctetBit(p, 0x08) && Bit(x, 0x0400_0000) == OctetBit(p, 0x04)
            && Bit(x, 0x0200_0000) == OctetBit(p, 0x02) && Bit(x, 0x0100_0000) == OctetBit(p, 0x01)
  {
  }

  lemma OctetsRotate(p: Octet, q: Octet, r: Octet, s: Octet)
    ensures Rol8(BigEndian(p, q, r, s)) == BigEndian(q, r, s, p)
  {
  }

  /** The octet `j` places behind the first one. */
  lemma OctetAt(p: Octet, q: Octet, r: Octet, s: Octet)
    ensures Bits(BigEndian(p, q, r, s))[8..] == Bits(BigEndian(q, r, s, p))[..24]
  {
    hide BigEndian, Mask, Bit, Rol8;
    var x, y := BigEndian(p, q, r, s), BigEndian(q, r, s, p);
    OctetsRotate(p, q, r, s);
    forall k | 0 <= k < 24
      ensures Bits(x)[8..][k] == Bits(y)[..24][k]
    {
      RotatedBits(x, k);
    }
  }

  lemma FourParts(b0: seq<nat>, b1: seq<nat>, b2: seq<nat>, b3: seq<nat>)
    requires |b0| == |b1| == |b2| == |b3| == 32 && b0[8..] == b1[..24] && b1[8..] == b2[..24] && b2[8..] == b3[..24]
    ensures b0[..16] == b0[..8] + b1[..8] && b0[..24] == b0[..16] + b2[..8] && b0 == b0[..24] + b3[..8]
  {
    forall k | 0 <= k < 24 ensures b0[k + 8] == b1[k] { assert b0[k + 8] == b0[8..][k]; }
    forall k | 0 <= k < 24 ensures b1[k + 8] == b2[k] { assert b1[k + 8] == b1[8..][k]; }
    forall k | 0 <= k < 24 ensures b2[k + 8] == b3[k] { assert b2[k + 8] == b2[8..][k]; }
    forall k | 0 <= k < 8 ensures b0[k + 16] == b2[k] && b0[k + 24] == b3[k] {
      assert b0[k + 16] == b1[k + 8] && b0[k + 24] == b1[k + 16] && b1[k + 16] == b2[k + 8];
    }
  }

  /** A big-endian word spells the number that its four bytes spell. */
  lemma BigEndianNumber(p: Octet, q: Octet, r: Octet, s: Octet)
    ensures Number(BigEndian(p, q, r, s)) == ((p as nat * 256 + q as nat) * 256 + r as nat) * 256 + s as nat
  {
    hide Mask, Bit, Val, BigEndian;
    var b0, b1, b2, b3 := Bits(BigEndian(p, q, r, s)), Bits(BigEndian(q, r, s, p)), Bits(BigEndian(r, s, p, q)), Bits(BigEndian(s, p, q, r));
    OctetAt(p, q, r, s);
    OctetAt(q, r, s, p);
    OctetAt(r, s, p, q);
    FourParts(b0, b1, b2, b3);
    TopOctet(p, q, r, s);
    TopOctet(q, r, s, p);
    TopOctet(r, s, p, q);
    TopOctet(s, p, q, r);
    ValConcat(2, b0[..8], b1[..8]);
    ValConcat(2, b0[..16], b2[..8]);
    ValConcat(2, b0[..24], b3[..8]);
    assert Pow(2, 8) == 256;
  }

  /** The bytes of a word of the digest are those of the word, most significant first. */
  lemma WordBytesInvert(w: Word)
    ensures var s := WordBytes(w);
            |s| == 4 && BigEndian(s[0], s[1], s[2], s[3]) == w
  {
  }

  /** The digits of a bit length in base 256. */
  function LengthDigits(bits: nat): (s: seq<nat>)
    ensures |s| == 8 && forall k :: 0 <= k < 8 ==> s[k] == bits / Shift(7 - k) % 256
  {
    seq(8, k requires 0 <= k < 8 => bits / Shift(7 - k) % 256)
  }

  /** The eight length bytes spell the bit length. */
  lemma LengthBytesNumber(bits: nat)
    requires bits < TWO64
    ensures Digits(256, LengthDigits(bits)) && Val(256, LengthDigits(bits)) == bits
    ensures |LengthBytes(bits)| == 8 && forall k :: 0 <= k < 8 ==> LengthBytes(bits)[k] == LengthDigits(bits)[k] as bv8
  {
    var s := LengthDigits(bits);
    LengthPrefix(bits, s, 8);
    assert s[..8] == s;
    LastShift();
  }

  /** The first `k` length bytes spell the length without its last `8 - k` bytes. */
  lemma {:induction false} LengthPrefix(bits: nat, s: seq<nat>, k: nat)
    requires bits < TWO64 && k <= 8 && |s| == 8
    requires forall j :: 0 <= j < 8 ==> s[j] == bits / Shift(7 - j) % 256
    ensures Val(256, s[..k]) == if k == 0 then 0 else bits / Shift(8 - k)
  {
    hide Val, Shift;
    if k == 0 {
      NoDigits();
    } else {
      LengthPrefix(bits, s, k - 1);
      NextDigit(s, k - 1);
      if k == 1 { TopDigit(bits); } else { OneByteFurther(bits, 8 - k); }
    }
  }

  lemma NoDigits()
    ensures Val(256, []) == 0
  {
  }

  lemma NextDigit(s: seq<nat>, k: nat)
    requires k < |s|
    ensures Val(256, s[..k + 1]) == Val(256, s[..k]) * 256 + s[k]
  {
    assert s[..k + 1][..k] == s[..k];
  }

  lemma OneByteFurther(v: nat, k: nat)
    requires k < 7
    ensures v / Shift(k) == v / Shift(k + 1) * 256 + v / Shift(k) % 256
  {
    assert Shift(k + 1) == Shift(k) * 256;
    DivTwice(v, Shift(k));
  }

  lemma DivTwice(v: nat, a: nat)
    requires a > 0
    ensures v / (a * 256) == v / a / 256
  {
    var q, r := v / a / 256, v / a % 256;
    RemainderFits(r, v % a, a);
    SumOfParts(q, r, v % a, a);
    assert v == (q * 256 + r) * a + v % a;
    DivModUnique(q, v / (a * 256), a * 256, r * a + v % a, v % (a * 256));
  }

  lemma RemainderFits(r: nat, t: nat, a: nat)
    requires r < 256 && t < a
    ensures r * a + t < a * 256
  {
    MulMonotone(r + 1, 256, a);
  }

  lemma SumOfParts(q: nat, r: nat, t: nat, a: nat)
    ensures (q * 256 + r) * a + t == q * (a * 256) + (r * a + t)
  {
    DistributeRight(q * 256, r, a);
    MulAssoc(q, 256, a);
  }

  lemma TopDigit(bits: nat)
    requires bits < TWO64
    ensures bits / Shift(7) % 256 == bits / Shift(7)
  {
  }

  lemma LastShift()
    ensures Shift(0) == 1
  {
  }
}
