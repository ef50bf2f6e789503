/**
 SHA-1 as crypto/sha1.c computes it, proved equal to the definition in sections 4.1.1, 4.2.1,
 5.1.1, 5.3.1, 6.1.2 and 6.1.3 of FIPS 180-4.  Words are 32-bit vectors; the two halves of the bit
 counter are numbers below 2^32, with the wrap-around written out.
 */
module Sha1 {
  import opened Numbers

  type Word = bv32
  type Octet = bv8

  // ----- FIPS 180-4

  // ROTL^n, which is also the macro rol(x, n), for the amounts that occur.
  function Rol1(x: Word): Word { (x << 1) | (x >> 31) }
  function Rol5(x: Word): Word { (x << 5) | (x >> 27) }
  function Rol8(x: Word): Word { (x << 8) | (x >> 24) }
  function Rol24(x: Word): Word { (x << 24) | (x >> 8) }
  function Rol30(x: Word): Word { (x << 30) | (x >> 2) }

  function Ch(x: Word, y: Word, z: Word): Word { (x & y) ^ (!x & z) }
  function Parity(x: Word, y: Word, z: Word): Word { x ^ y ^ z }
  function Maj(x: Word, y: Word, z: Word): Word { (x & y) ^ (x & z) ^ (y & z) }

  function F(t: nat, x: Word, y: Word, z: Word): Word {
    if t < 20 then Ch(x, y, z) else if t < 40 then Parity(x, y, z) else if t < 60 then Maj(x, y, z) else Parity(x, y, z)
  }

  function K(t: nat): Word {
    if t < 20 then 0x5a827999 else if t < 40 then 0x6ed9eba1 else if t < 60 then 0x8f1bbcdc else 0xca62c1d6
  }

  datatype Regs = Regs(a: Word, b: Word, c: Word, d: Word, e: Word)

  const H0 := Regs(0x67452301, 0xefcdab89, 0x98badcfe, 0x10325476, 0xc3d2e1f0)

  function Xor(x: Word, y: Word): Word { x ^ y }

  function Xor4(p: Word, q: Word, r: Word, s: Word): Word { Xor(Xor(Xor(p, q), r), s) }

  function BigEndian(p: Octet, q: Octet, r: Octet, s: Octet): Word {
    ((p as bv32) << 24) | ((q as bv32) << 16) | ((r as bv32) << 8) | (s as bv32)
  }

  /** The 80-word message schedule of one block. */
  function W(block: seq<Octet>, t: nat): Word
    requires |block| == 64
  {
    if t < 16 then BigEndian(block[4 * t], block[4 * t + 1], block[4 * t + 2], block[4 * t + 3])
    else Rol1(Xor4(W(block, t - 3), W(block, t - 8), W(block, t - 14), W(block, t - 16)))
  }

  /** The T of section 6.1.2 from the value of the round function. */
  function T(f: Word, a5: Word, e: Word, k: Word, w: Word): Word {
    a5 + f + e + k + w
  }

  /** The working variables before round `t`. */
  function Round(h: Regs, block: seq<Octet>, t: nat): Regs
    requires |block| == 64
  {
    if t == 0 then h
    else
      var r := Round(h, block, t - 1);
      Regs(T(F(t - 1, r.b, r.c, r.d), Rol5(r.a), r.e, K(t - 1), W(block, t - 1)), r.a, Rol30(r.b), r.c, r.d)
  }

  function Compress(h: Regs, block: seq<Octet>): Regs
    requires |block| == 64
  {
    Plus(h, Round(h, block, 80))
  }

  function Plus(h: Regs, r: Regs): Regs {
    Regs(Add(h.a, r.a), Add(h.b, r.b), Add(h.c, r.c), Add(h.d, r.d), Add(h.e, r.e))
  }

  /** Addition modulo 2^32. */
  function Add(x: Word, y: Word): Word { x + y }

  /** The hash value after all the blocks of `data`. */
  function HashBlocks(data: seq<Octet>): Regs
    requires |data| % 64 == 0
  {
    if data == [] then H0
    else Compress(HashBlocks(data[..|data| - 64]), data[|data| - 64..])
  }

  const TWO32: nat := 0x1_0000_0000
  const TWO64: nat := 0x1_0000_0000_0000_0000

  /** 256^k. */
  function Shift(k: nat): (s: nat)
    requires k < 8
    ensures s > 0
  {
    if k == 0 then 1 else if k == 1 then 0x100 else if k == 2 then 0x1_0000 else if k == 3 then 0x100_0000
    else if k == 4 then 0x1_0000_0000 else if k == 5 then 0x100_0000_0000
    else if k == 6 then 0x1_0000_0000_0000 else 0x100_0000_0000_0000
  }

  /** A bit length as eight bytes, most significant first. */
  function LengthBytes(bits: nat): seq<Octet> {
    seq(8, i requires 0 <= i < 8 => ByteOf(bits, 7 - i))
  }

  /** Byte `k` of a number, where byte 0 is the least significant one. */
  function ByteOf(v: nat, k: nat): Octet
    requires k < 8
  {
    (v / Shift(k) % 256) as bv8
  }

  /** Section 5.1.1: a 1 bit, the fewest 0 bits that leave room for the length, the length. */
  function Padding(n: nat): seq<Octet> {
    [0x80] + seq((119 - n % 64) % 64, _ => 0) + LengthBytes(8 * n % TWO64)
  }

  function WordBytes(w: Word): seq<Octet> {
    [((w >> 24) & 255) as bv8, ((w >> 16) & 255) as bv8, ((w >> 8) & 255) as bv8, (w & 255) as bv8]
  }

  function WordsBytes(ws: seq<Word>): seq<Octet> {
    if ws == [] then [] else WordsBytes(ws[..|ws| - 1]) + WordBytes(ws[|ws| - 1])
  }

  function DigestOf(h: Regs): seq<Octet> {
    WordsBytes([h.a, h.b, h.c, h.d, h.e])
  }

  function Fips(msg: seq<Octet>): seq<Octet> {
    PaddedLength(|msg|);
    DigestOf(HashBlocks(msg + Padding(|msg|)))
  }

  lemma PaddedLength(n: nat)
    ensures (n + |Padding(n)|) % 64 == 0
  {
    var zeros := (119 - n % 64) % 64;
    assert zeros == if n % 64 <= 55 then 55 - n % 64 else 119 - n % 64;
    assert |Padding(n)| == 1 + zeros + 8;
  }

  // ----- the macros

  /** A word of the union, as the bytes lie in memory on a little-endian machine. */
  function LittleEndian(p: Octet, q: Octet, r: Octet, s: Octet): Word {
    (p as bv32) | ((q as bv32) << 8) | ((r as bv32) << 16) | ((s as bv32) << 24)
  }

  /** The value `blk0` stores: the bytes of the word in the opposite order. */
  function Swap(x: Word): Word {
    (Rol24(x) & 0xFF00FF00) | (Rol8(x) & 0x00FF00FF)
  }

  lemma SwapIsBigEndian(p: Octet, q: Octet, r: Octet, s: Octet)
    ensures Swap(LittleEndian(p, q, r, s)) == BigEndian(p, q, r, s)
  {
  }

  /** The round function as each of R0 to R4 writes it. */
  function Mix(t: nat, w: Word, x: Word, y: Word): Word {
    if t < 20 then (w & (x ^ y)) ^ y
    else if t < 40 then w ^ x ^ y
    else if t < 60 then ((w | x) & y) | (w & x)
    else w ^ x ^ y
  }

  lemma ChooseForms(w: Word, x: Word, y: Word)
    ensures (w & (x ^ y)) ^ y == Ch(w, x, y)
  {
  }

  lemma MajorityForms(w: Word, x: Word, y: Word)
    ensures ((w | x) & y) | (w & x) == Maj(w, x, y)
  {
  }

  lemma MixIsF(t: nat, w: Word, x: Word, y: Word)
    ensures Mix(t, w, x, y) == F(t, w, x, y)
  {
    ChooseForms(w, x, y);
    MajorityForms(w, x, y);
  }

  /** What macros `R0` to `R4` add up into their last register, from the round function's value. */
  function Sum(f: Word, v5: Word, z: Word, m: Word, k: Word): Word {
    z + (f + m + k + v5)
  }

  lemma SumReorders(f: Word, v5: Word, z: Word, m: Word, k: Word)
    ensures T(f, v5, z, k, m) == Sum(f, v5, z, m, k)
  {
  }

  /** The registers (v, w, x, y, z) of one macro call become (z', v, w', x, y), as FIPS 180-4 shifts them. */
  function Macro(t: nat, r: Regs, m: Word): Regs {
    Regs(Sum(Mix(t, r.b, r.c, r.d), Rol5(r.a), r.e, m, K(t)), r.a, Rol30(r.b), r.c, r.d)
  }

  lemma MacroIsRound(h: Regs, block: seq<Octet>, t: nat)
    requires |block| == 64
    ensures Round(h, block, t + 1) == Macro(t, Round(h, block, t), W(block, t))
  {
    var r := Round(h, block, t);
    MixIsF(t, r.b, r.c, r.d);
    SumReorders(F(t, r.b, r.c, r.d), Rol5(r.a), r.e, W(block, t), K(t));
  }

  // ----- the block, loaded and overwritten in place

  /** Word `k` of a block as the union sees it before the rounds. */
  function Raw(block: seq<Octet>, k: nat): Word
    requires |block| == 64 && k < 16
  {
    LittleEndian(block[4 * k], block[4 * k + 1], block[4 * k + 2], block[4 * k + 3])
  }

  /** The sixteen slots before round `t`: each holds the newest schedule word, or is still raw. */
  ghost predicate Window(l: seq<Word>, block: seq<Octet>, t: nat)
    requires |l| == 16 && |block| == 64
  {
    && (forall j :: 0 <= j < t && t <= j + 16 ==> l[j % 16] == W(block, j))
    && (forall j :: t <= j < 16 ==> l[j] == Raw(block, j))
  }

  /** What `blk0` (t < 16) or `blk` stores in slot t & 15. */
  function NextWord(l: seq<Word>, t: nat): Word
    requires |l| == 16
  {
    if t < 16 then Swap(l[t])
    else Rol1(Xor4(l[(t + 13) % 16], l[(t + 8) % 16], l[(t + 2) % 16], l[t % 16]))
  }

  lemma NextWordIsW(l: seq<Word>, block: seq<Octet>, t: nat)
    requires |l| == 16 && |block| == 64 && Window(l, block, t)
    ensures NextWord(l, t) == W(block, t)
  {
    if t < 16 {
      SwapIsBigEndian(block[4 * t], block[4 * t + 1], block[4 * t + 2], block[4 * t + 3]);
    } else {
      SlotHolds(l, block, t, 3, (t + 13) % 16);
      SlotHolds(l, block, t, 8, (t + 8) % 16);
      SlotHolds(l, block, t, 14, (t + 2) % 16);
      SlotHolds(l, block, t, 16, t % 16);
    }
  }

  /** The slot `blk` reads for the word `back` rounds ago. */
  lemma SlotHolds(l: seq<Word>, block: seq<Octet>, t: nat, back: nat, slot: nat)
    requires |l| == 16 && |block| == 64 && Window(l, block, t)
    requires t >= 16 && 0 < back <= 16 && slot < 16 && slot == (t + 16 - back) % 16
    ensures l[slot] == W(block, t - back)
  {
    assert (t + 16 - back) % 16 == (t - back) % 16;
  }

  lemma WindowAdvances(l: seq<Word>, block: seq<Octet>, t: nat, m: Word)
    requires |l| == 16 && |block| == 64 && Window(l, block, t) && m == W(block, t)
    ensures Window(l[t % 16 := m], block, t + 1)
  {
    var l' := l[t % 16 := m];
    forall j | 0 <= j < t + 1 && t + 1 <= j + 16
      ensures l'[j % 16] == W(block, j)
    {
      if j < t { DifferentSlots(j, t); }
    }
  }

  lemma DifferentSlots(j: nat, t: nat)
    requires j < t < j + 16
    ensures j % 16 != t % 16
  {
  }

  function AsRegs(s: seq<Word>): Regs
    requires |s| == 5
  {
    Regs(s[0], s[1], s[2], s[3], s[4])
  }

  function LittleBytes(w: Word): (r: seq<Octet>)
    ensures |r| == 4
  {
    [(w & 255) as bv8, ((w >> 8) & 255) as bv8, ((w >> 16) & 255) as bv8, ((w >> 24) & 255) as bv8]
  }

  /** The bytes of a block after the rounds: the last sixteen schedule words, as they lie in memory. */
  function Overwritten(block: seq<Octet>): (r: seq<Octet>)
    requires |block| == 64
    ensures |r| == 64
  {
    seq(64, k requires 0 <= k < 64 => LittleBytes(W(block, 64 + k / 4))[k % 4])
  }

  method Load(block: array<Octet>, off: nat) returns (l: array<Word>)
    requires off + 64 <= block.Length
    ensures fresh(l) && l.Length == 16 && Window(l[..], block[off..off + 64], 0)
  {
    l := new Word[16];
    for k := 0 to 16
      invariant forall j :: 0 <= j < k ==> l[j] == Raw(block[off..off + 64], j)
    {
      l[k] := LittleEndian(block[off + 4 * k], block[off + 4 * k + 1], block[off + 4 * k + 2], block[off + 4 * k + 3]);
    }
  }

  /** `blk0` or `blk`: compute the schedule word of round `t` and leave it in its slot. */
  method Blk(l: array<Word>, t: nat, ghost block: seq<Octet>) returns (m: Word)
    requires l.Length == 16 && |block| == 64 && Window(l[..], block, t)
    modifies l
    ensures m == W(block, t) && Window(l[..], block, t + 1)
  {
    NextWordIsW(l[..], block, t);
    m := NextWord(l[..], t);
    WindowAdvances(l[..], block, t, m);
    ghost var before := l[..];
    l[t % 16] := m;
    assert l[..] == before[t % 16 := m];
  }

  /** One macro call: the last register takes the sum, the second is rotated. */
  method Call(l: array<Word>, t: nat, v: Word, w: Word, x: Word, y: Word, z: Word, ghost h: Regs, ghost block: seq<Octet>)
    returns (z': Word, w': Word)
    requires l.Length == 16 && |block| == 64 && Window(l[..], block, t)
    requires Round(h, block, t) == Regs(v, w, x, y, z)
    modifies l
    ensures Window(l[..], block, t + 1)
    ensures Round(h, block, t + 1) == Regs(z', v, w', x, y)
  {
    var m := Blk(l, t, block);
    MacroIsRound(h, block, t);
    z' := Sum(Mix(t, w, x, y), Rol5(v), z, m, K(t));
    w' := Rol30(w);
  }

  /**
   The 80 macro calls.  The source writes them out; their register names repeat every five
   calls, which is one turn of this loop.
   */
  method Rounds(l: array<Word>, h: Regs, ghost block: seq<Octet>) returns (r: Regs)
    requires l.Length == 16 && |block| == 64 && Window(l[..], block, 0)
    modifies l
    ensures r == Round(h, block, 80) && Window(l[..], block, 80)
  {
    var a, b, c, d, e := h.a, h.b, h.c, h.d, h.e;
    for g := 0 to 16
      invariant Window(l[..], block, 5 * g)
      invariant Round(h, block, 5 * g) == Regs(a, b, c, d, e)
    {
      e, b := Call(l, 5 * g, a, b, c, d, e, h, block);
      d, a := Call(l, 5 * g + 1, e, a, b, c, d, h, block);
      c, e := Call(l, 5 * g + 2, d, e, a, b, c, h, block);
      b, d := Call(l, 5 * g + 3, c, d, e, a, b, h, block);
      a, c := Call(l, 5 * g + 4, b, c, d, e, a, h, block);
    }
    r := Regs(a, b, c, d, e);
  }

  method Store(l: array<Word>, block: array<Octet>, off: nat)
    requires off + 64 <= block.Length && l.Length == 16
    modifies block
    ensures forall k :: 0 <= k < 64 ==> block[off + k] == LittleBytes(l[k / 4])[k % 4]
    ensures forall k :: 0 <= k < block.Length && !(off <= k < off + 64) ==> block[k] == old(block[k])
  {
    for k := 0 to 64
      invariant forall j :: 0 <= j < k ==> block[off + j] == LittleBytes(l[j / 4])[j % 4]
      invariant forall j :: 0 <= j < block.Length && !(off <= j < off + k) ==> block[j] == old(block[j])
    {
      block[off + k] := LittleBytes(l[k / 4])[k % 4];
    }
  }

  /** Add the working variables back into the state. */
  method AddInto(state: array<Word>, r: Regs)
    requires state.Length == 5
    modifies state
    ensures AsRegs(state[..]) == Plus(old(AsRegs(state[..])), r)
  {
    hide Plus;
    var h := AsRegs(state[..]);
    var sum := Plus(h, r);
    state[0], state[1], state[2], state[3], state[4] := sum.a, sum.b, sum.c, sum.d, sum.e;
    assert state[..] == [sum.a, sum.b, sum.c, sum.d, sum.e];
  }

  /** `SHA1_Transform` on the 64 bytes of `block` from `off`, and what it leaves in them. */
  method TransformExact(state: array<Word>, block: array<Octet>, off: nat)
    requires state.Length == 5 && off + 64 <= block.Length
    modifies state, block
    ensures AsRegs(state[..]) == Compress(old(AsRegs(state[..])), old(block[off..off + 64]))
    ensures block[off..off + 64] == Overwritten(old(block[off..off + 64]))
    ensures forall k :: 0 <= k < block.Length && !(off <= k < off + 64) ==> block[k] == old(block[k])
  {
    hide Compress, Plus, Round, Window, Overwritten, LittleBytes;
    ghost var bytes := block[off..off + 64];
    var h := AsRegs(state[..]);
    var l := Load(block, off);
    var r := Rounds(l, h, bytes);
    Store(l, block, off);
    StoredWords(l[..], bytes, block[off..off + 64]);
    AddInto(state, r);
    CompressAdds(h, bytes);
  }

  lemma CompressAdds(h: Regs, block: seq<Octet>)
    requires |block| == 64
    ensures Compress(h, block) == Plus(h, Round(h, block, 80))
  {
    hide Plus, Round;
  }

  /** `SHA1_Transform` for callers that do not look at the overwritten block again. */
  method Transform(state: array<Word>, block: array<Octet>, off: nat)
    requires state.Length == 5 && off + 64 <= block.Length
    modifies state, block
    ensures AsRegs(state[..]) == Compress(old(AsRegs(state[..])), old(block[off..off + 64]))
    ensures forall k :: 0 <= k < block.Length && !(off <= k < off + 64) ==> block[k] == old(block[k])
  {
    TransformExact(state, block, off);
  }

  lemma StoredWords(l: seq<Word>, block: seq<Octet>, stored: seq<Octet>)
    requires |l| == 16 && |block| == 64 && Window(l, block, 80) && |stored| == 64
    requires forall k :: 0 <= k < 64 ==> stored[k] == LittleBytes(l[k / 4])[k % 4]
    ensures stored == Overwritten(block)
  {
    forall k | 0 <= k < 64
      ensures stored[k] == Overwritten(block)[k]
    {
      assert (64 + k / 4) % 16 == k / 4;
      assert l[(64 + k / 4) % 16] == W(block, 64 + k / 4);
    }
  }

  lemma HashOneMore(data: seq<Octet>, block: seq<Octet>)
    requires |data| % 64 == 0 && |block| == 64
    ensures HashBlocks(data + block) == Compress(HashBlocks(data), block)
  {
    assert (data + block)[..|data + block| - 64] == data;
    assert (data + block)[|data + block| - 64..] == block;
  }

  // ----- the bit counter

  /** `context->count` after `len` more bytes; the comparison is made in 64 bits. */
  function CountAfter(count0: nat, count1: nat, len: nat): (nat, nat) {
    var bits := 8 * len % TWO64;
    var c0 := (count0 + bits) % TWO32;
    var c1 := if c0 < bits then (count1 + 1) % TWO32 else count1;
    (c0, (c1 + len / 0x2000_0000) % TWO32)
  }

  /** The two halves of the counter hold `bits` modulo 2^64. */
  predicate Counts(count0: nat, count1: nat, bits: nat) {
    count1 * TWO32 + count0 == bits % TWO64
  }

  /**
   The counter stays exact across an update exactly when the chunk is shorter than 2^29
   bytes, or its length in bits carries out of the low half.
   */
  lemma CountExactIff(count0: nat, count1: nat, n: nat, len: nat)
    requires count0 < TWO32 && count1 < TWO32 && len < 0x2000_0000_0000_0000
    requires Counts(count0, count1, n)
    ensures var (c0, c1) := CountAfter(count0, count1, len);
            Counts(c0, c1, n + 8 * len) <==> len < 0x2000_0000 || count0 + 8 * len % TWO32 >= TWO32
  {
    var (c0, c1) := CountAfter(count0, count1, len);
    var high, low := len / 0x2000_0000, 8 * len % TWO32;
    var carry := if count0 + low >= TWO32 then 1 else 0;
    var flagged := if c0 < 8 * len then 1 else 0;
    NewHalves(count0, count1, len, low, carry, high, flagged);
    SumOfHalves(n, count0, count1, len, low, carry, high);
    HalvesEqual((count1 + high + carry) % TWO32, c1, c0);
    CarryMatters(count1, high, carry, flagged);
    FlagIsCarry(count0, len, low, carry, c0, flagged);
  }

  lemma NewHalves(count0: nat, count1: nat, len: nat, low: nat, carry: nat, high: nat, flagged: nat)
    requires count0 < TWO32 && count1 < TWO32 && len < 0x2000_0000_0000_0000
    requires high == len / 0x2000_0000 && low == 8 * len % TWO32 && carry == (if count0 + low >= TWO32 then 1 else 0)
    requires flagged == if CountAfter(count0, count1, len).0 < 8 * len then 1 else 0
    ensures CountAfter(count0, count1, len) == (count0 + low - carry * TWO32, ((count1 + flagged) % TWO32 + high) % TWO32)
  {
    hide CountAfter;
    LowHalf(count0, len, low, carry);
    CountParts(count0, count1, len);
  }

  lemma CountParts(count0: nat, count1: nat, len: nat)
    requires count1 < TWO32 && len < 0x2000_0000_0000_0000
    ensures var (c0, c1) := CountAfter(count0, count1, len);
            && c0 == (count0 + 8 * len) % TWO32
            && c1 == ((count1 + if c0 < 8 * len then 1 else 0) % TWO32 + len / 0x2000_0000) % TWO32
  {
    SmallMod(8 * len, TWO64);
    SmallMod(count1, TWO32);
  }

  lemma SmallMod(x: nat, m: nat)
    requires x < m
    ensures x % m == x
  {
  }

  lemma SumOfHalves(n: nat, count0: nat, count1: nat, len: nat, low: nat, carry: nat, high: nat)
    requires Counts(count0, count1, n) && count0 < TWO32
    requires high == len / 0x2000_0000 && low == 8 * len % TWO32 && carry == (if count0 + low >= TWO32 then 1 else 0)
    ensures (n + 8 * len) % TWO64 == (count1 + high + carry) % TWO32 * TWO32 + (count0 + low - carry * TWO32)
  {
    hide Counts;
    SplitLength(len, high, low);
    AddToCount(n, count0, count1, len);
    assert count1 * TWO32 + count0 + 8 * len == (count1 + high + carry) * TWO32 + (count0 + low - carry * TWO32);
    HalvesOf(count1 + high + carry, count0 + low - carry * TWO32);
  }

  /** The comparison finds the carry of a short chunk; for a long one it always claims a carry. */
  lemma FlagIsCarry(count0: nat, len: nat, low: nat, carry: nat, c0: nat, flagged: nat)
    requires count0 < TWO32 && low == 8 * len % TWO32 && carry == (if count0 + low >= TWO32 then 1 else 0)
    requires c0 == count0 + low - carry * TWO32 && flagged == if c0 < 8 * len then 1 else 0
    ensures carry == flagged <==> len < 0x2000_0000 || count0 + low >= TWO32
  {
  }

  lemma HalvesEqual(x: nat, y: nat, low: nat)
    ensures x * TWO32 + low == y * TWO32 + low <==> x == y
  {
  }

  lemma SplitLength(len: nat, high: nat, low: nat)
    requires high == len / 0x2000_0000 && low == 8 * len % TWO32
    ensures 8 * len == high * TWO32 + low
  {
  }

  lemma LowHalf(count0: nat, len: nat, low: nat, carry: nat)
    requires count0 < TWO32 && low == 8 * len % TWO32
    requires carry == if count0 + low >= TWO32 then 1 else 0
    ensures (count0 + 8 * len) % TWO32 == count0 + low - carry * TWO32
  {
    var high := len / 0x2000_0000;
    SplitLength(len, high, low);
    assert count0 + 8 * len == (high + carry) * TWO32 + (count0 + low - carry * TWO32);
  }

  lemma AddToCount(n: nat, count0: nat, count1: nat, len: nat)
    requires Counts(count0, count1, n)
    ensures (n + 8 * len) % TWO64 == (count1 * TWO32 + count0 + 8 * len) % TWO64
  {
  }

  lemma CarryMatters(count1: nat, high: nat, carry: nat, flagged: nat)
    requires carry <= 1 && flagged <= 1
    ensures (count1 + high + carry) % TWO32 == ((count1 + flagged) % TWO32 + high) % TWO32 <==> carry == flagged
  {
  }

  lemma HalvesOf(high: nat, low: nat)
    requires low < TWO32
    ensures (high * TWO32 + low) % TWO64 == (high % TWO32) * TWO32 + low
  {
  }

  // ----- the streaming interface

  /** How many bytes of a message have not filled a block yet. */
  function Pending(n: nat): (r: nat)
    ensures r < 64
  {
    n % 64
  }

  /** The full blocks of a message, and the bytes after them. */
  function Full(msg: seq<Octet>): (r: seq<Octet>)
    ensures |r| % 64 == 0
  {
    msg[..|msg| - Pending(|msg|)]
  }

  function Rest(msg: seq<Octet>): (r: seq<Octet>)
    ensures |r| == Pending(|msg|)
  {
    msg[|msg| - Pending(|msg|)..]
  }

  /** The state and buffer of a context that has seen `msg`. */
  ghost predicate Absorbed(msg: seq<Octet>, state: seq<Word>, buffer: seq<Octet>) {
    && |state| == 5 && |buffer| == 64
    && AsRegs(state) == HashBlocks(Full(msg))
    && buffer[..Pending(|msg|)] == Rest(msg)
  }

  /** Which bytes of the caller's data `SHA1_Update` overwrites: the full blocks it hashes in place. */
  predicate InPlace(n: nat, len: nat, k: nat) {
    var start := 64 - Pending(n);
    start <= len && start <= k < start + (len - start) / 64 * 64
  }

  method CopyBytes(src: array<Octet>, from: nat, dst: array<Octet>, to: nat, count: nat)
    requires from + count <= src.Length && to + count <= dst.Length && src != dst
    modifies dst
    ensures dst[..to] == old(dst[..to])
    ensures dst[to..to + count] == src[from..from + count]
  {
    for k := 0 to count
      invariant dst[..to] == old(dst[..to])
      invariant dst[to..to + k] == src[from..from + k]
    {
      dst[to + k] := src[from + k];
    }
  }

  class Context {
    const state: array<Word>
    const buffer: array<Octet>
    var count0: nat
    var count1: nat
    ghost var msg: seq<Octet>   // everything absorbed since the start

    ghost predicate Valid()
      reads this, state, buffer
    {
      && count0 < TWO32 && count1 < TWO32
      && count0 == 8 * |msg| % TWO32
      && Absorbed(msg, state[..], buffer[..])
    }

    /** The counter holds the message length in bits. */
    ghost predicate Exact()
      reads this
    {
      Counts(count0, count1, 8 * |msg|)
    }

    /** `SHA1_Init`. */
    constructor ()
      ensures Valid() && Exact() && msg == [] && fresh(state) && fresh(buffer)
    {
      state := new Word[] [0x67452301, 0xefcdab89, 0x98badcfe, 0x10325476, 0xc3d2e1f0];
      buffer := new Octet[64];
      count0, count1 := 0, 0;
      msg := [];
      new;
      assert state[..] == [0x67452301, 0xefcdab89, 0x98badcfe, 0x10325476, 0xc3d2e1f0];
    }

    /** `SHA1_Update`. */
    method Update(data: array<Octet>, len: nat)
      requires Valid() && len <= data.Length && len < TWO64 && data != buffer
      modifies this, state, buffer, data
      ensures Valid() && msg == old(msg) + old(data[..len])
      ensures (count0, count1) == CountAfter(old(count0), old(count1), len)
      ensures old(Exact()) && len < 0x2000_0000 ==> Exact()
      ensures forall k :: 0 <= k < data.Length && !InPlace(old(|msg|), len, k) ==> data[k] == old(data[k])
    {
      hide Compress, HashBlocks, InPlace, Full, Rest, AsRegs, CountAfter, Counts;
      ghost var was, bytes := msg, data[..len];
      var j := count0 / 8 % 64;
      BufferIndex(|msg|);
      Count(len);
      var i := Blocks(data, len, j);
      Keep(data, len, i, if j + len > 63 then 0 else j, bytes);
      msg := was + bytes;
    }

    /** Add `len` bytes to the counter. */
    method Count(len: nat)
      requires count0 < TWO32 && count1 < TWO32 && count0 == 8 * |msg| % TWO32
      modifies `count0, `count1
      ensures (count0, count1) == CountAfter(old(count0), old(count1), len)
      ensures count0 < TWO32 && count1 < TWO32 && count0 == 8 * (|msg| + len) % TWO32
      ensures old(Exact()) && len < 0x2000_0000 ==> Counts(count0, count1, 8 * (|msg| + len))
    {
      CountKeepsLow(|msg|, count0, count1, len);
      if len < 0x2000_0000 && Exact() { CountExactIff(count0, count1, 8 * |msg|, len); }
      var counts := CountAfter(count0, count1, len);
      count0, count1 := counts.0, counts.1;
    }

    /** The final memcpy of an update. */
    method Keep(data: array<Octet>, len: nat, i: nat, j: nat, ghost bytes: seq<Octet>)
      requires i <= len <= data.Length && data != buffer && |bytes| == len && data[i..len] == bytes[i..]
      requires i == if Pending(|msg|) + len > 63 then len - Pending(|msg| + len) else 0
      requires j == if Pending(|msg|) + len > 63 then 0 else Pending(|msg|)
      requires buffer.Length == 64 && (j != 0 ==> buffer[..j] == Rest(msg))
      modifies buffer
      ensures buffer[..Pending(|msg| + len)] == Rest(msg + bytes)
    {
      hide Rest;
      CopyBytes(data, i, buffer, j, len - i);
      assert data[i..i + (len - i)] == bytes[i..];
      RestAfter(msg, bytes, i, j, buffer[..]);
    }

    /** The full blocks of an update: first the buffer is filled up, then blocks of `data` are hashed in place. */
    method Blocks(data: array<Octet>, len: nat, j: nat) returns (i: nat)
      requires Absorbed(msg, state[..], buffer[..]) && j == Pending(|msg|)
      requires len <= data.Length && data != buffer
      modifies state, buffer, data
      ensures i == (if j + len > 63 then len - Pending(|msg| + len) else 0) && i <= len
      ensures AsRegs(state[..]) == HashBlocks(Full(msg + old(data[..len])))
      ensures j + len <= 63 ==> buffer[..] == old(buffer[..])
      ensures data[i..len] == old(data[i..len])
      ensures forall k :: 0 <= k < data.Length && !InPlace(|msg|, len, k) ==> data[k] == old(data[k])
    {
      hide Compress, HashBlocks, InPlace, Pending, Full, Rest;
      ghost var bytes := data[..len];
      if j + len > 63 {
        FillBlock(data, len, j);
        BlockBoundary(|msg|);
        i := HashInPlace(data, len, 64 - j);
        AllBlocksDone(|msg|, len, i);
        InPlaceRegion(|msg|, len, i);
        FullAfter(msg, bytes, i);
      } else {
        i := 0;
        NothingInPlace(|msg|, len);
        FullSame(msg, bytes);
      }
    }

    /** The loop of `SHA1_Update` over whole blocks of `data`. */
    method HashInPlace(data: array<Octet>, len: nat, start: nat) returns (i: nat)
      requires state.Length == 5 && start <= len <= data.Length && (|msg| + start) % 64 == 0
      requires AsRegs(state[..]) == HashBlocks((msg + data[..len])[..|msg| + start])
      modifies state, data
      ensures start <= i <= len < i + 64 && (|msg| + i) % 64 == 0
      ensures AsRegs(state[..]) == HashBlocks((msg + old(data[..len]))[..|msg| + i])
      ensures forall k :: 0 <= k < data.Length && !(start <= k < i) ==> data[k] == old(data[k])
    {
      hide Compress, HashBlocks;
      ghost var bytes := data[..len];
      i := start;
      while i + 63 < len
        invariant start <= i <= len && (|msg| + i) % 64 == 0
        invariant AsRegs(state[..]) == HashBlocks((msg + bytes)[..|msg| + i])
        invariant forall k :: 0 <= k < data.Length && !(start <= k < i) ==> data[k] == old(data[k])
      {
        assert data[i..i + 64] == bytes[i..i + 64];
        NextBlock(msg, bytes, i);
        Transform(state, data, i);
        i := i + 64;
      }
    }

    /** `SHA1_Final`: pad, hash what is left, read the digest off the state and wipe the context. */
    method Final() returns (digest: seq<Octet>)
      requires Valid() && Exact()
      modifies this, state, buffer
      ensures digest == Fips(old(msg))
      ensures count0 == count1 == 0
      ensures forall k :: 0 <= k < 5 ==> state[k] == 0
      ensures forall k :: 0 <= k < 64 ==> buffer[k] == 0
    {
      hide Compress, HashBlocks, LengthBytes, DigestOf;
      ghost var m := msg;
      var finalcount := FinalCount();
      AddPadding();
      Update(finalcount, 8);
      assert finalcount[..8] == finalcount[..];
      PaddingParts(m, msg);
      digest := Digest();
      Wipe();
    }

    /** The message length in bits, before the padding changes the counter. */
    method FinalCount() returns (finalcount: array<Octet>)
      requires Valid() && Exact()
      ensures fresh(finalcount) && finalcount.Length == 8 && finalcount[..] == LengthBytes(8 * |msg| % TWO64)
    {
      hide Absorbed, FinalBytes, LengthBytes;
      var bytes := FinalBytes(count0, count1);
      LengthFromHalves(count0, count1, 8 * |msg|);
      finalcount := new Octet[8](i requires 0 <= i < 8 => bytes[i]);
      assert finalcount[..] == bytes;
    }

    /** A 1 bit, then zero bytes until eight bytes are missing from a block. */
    method AddPadding()
      requires Valid()
      modifies this, state, buffer
      ensures Valid() && msg == old(msg) + [0x80] + Zeros((119 - old(|msg|) % 64) % 64)
    {
      hide Compress, HashBlocks, Absorbed;
      ghost var m := msg;
      var one := new Octet[] [0x80];
      Update(one, 1);
      ghost var z := 0;
      assert one[..1] == [0x80] && msg == m + [0x80] + Zeros(0);
      BufferIndex(|msg|);
      ZerosLeft(|m|, z);
      while count0 / 8 % 64 != 56
        invariant Valid() && 0 <= z <= (119 - |m| % 64) % 64
        invariant msg == m + [0x80] + Zeros(z)
        invariant count0 / 8 % 64 == 56 <==> z == (119 - |m| % 64) % 64
        decreases (119 - |m| % 64) % 64 - z
      {
        var zero := new Octet[] [0];
        Update(zero, 1);
        assert Zeros(z + 1) == Zeros(z) + [0];
        z := z + 1;
        BufferIndex(|msg|);
        ZerosLeft(|m|, z);
      }
    }

    method Wipe()
      requires state.Length == 5 && buffer.Length == 64
      modifies this`count0, this`count1, state, buffer
      ensures count0 == count1 == 0
      ensures forall k :: 0 <= k < 5 ==> state[k] == 0
      ensures forall k :: 0 <= k < 64 ==> buffer[k] == 0
    {
      forall k | 0 <= k < 64 { buffer[k] := 0; }
      forall k | 0 <= k < 5 { state[k] := 0; }
      count0, count1 := 0, 0;
    }

    /** The loop that writes the digest. */
    method Digest() returns (digest: seq<Octet>)
      requires state.Length == 5
      ensures digest == DigestOf(AsRegs(state[..]))
    {
      hide WordBytes;
      digest := [];
      for i := 0 to 5
        invariant digest == WordsBytes(state[..i])
      {
        digest := digest + WordBytes(state[i]);
        assert state[..i + 1][..i] == state[..i];
      }
      assert state[..5] == [state[0], state[1], state[2], state[3], state[4]];
    }

    /** Fill the buffer up with the first bytes of `data` and hash it. */
    method FillBlock(data: array<Octet>, len: nat, j: nat)
      requires Absorbed(msg, state[..], buffer[..]) && j == Pending(|msg|)
      requires len <= data.Length && data != buffer && j + len > 63
      modifies state, buffer
      ensures AsRegs(state[..]) == HashBlocks(FirstBlocks(msg, data[..len]))
    {
      CopyBytes(data, 0, buffer, j, 64 - j);
      ghost var block := buffer[..];
      assert block == block[..j] + block[j..];
      assert buffer[..j] == Rest(msg) && buffer[j..j + (64 - j)] == block[j..];
      assert data[0..0 + (64 - j)] == data[..len][..64 - j];
      FillBuffer(msg, data[..len], block);
      assert buffer[0..0 + 64] == block;
      Transform(state, buffer, 0);
    }
  }

  /** When no whole block is left, the blocks hashed are all the full blocks. */
  lemma AllBlocksDone(n: nat, len: nat, i: nat)
    requires i <= len < i + 64 && (n + i) % 64 == 0
    ensures i == len - Pending(n + len)
    ensures 64 - Pending(n) <= i ==> i == 64 - Pending(n) + (len - (64 - Pending(n))) / 64 * 64
  {
    var q, p := (n + i) / 64, Pending(n);
    assert n + len == 64 * q + (len - i);
    if 64 - p <= i {
      var m := (i + p) / 64;
      assert i + p == 64 * m by { assert n == 64 * (n / 64) + p; }
      assert len - (64 - p) == 64 * (m - 1) + (len - i);
    }
  }

  lemma InPlaceRegion(n: nat, len: nat, i: nat)
    requires 64 - Pending(n) <= i <= len < i + 64 && (n + i) % 64 == 0
    ensures forall k: nat :: InPlace(n, len, k) <==> 64 - Pending(n) <= k < i
  {
    AllBlocksDone(n, len, i);
  }

  lemma NothingInPlace(n: nat, len: nat)
    requires Pending(n) + len <= 63
    ensures forall k: nat :: !InPlace(n, len, k)
  {
  }

  lemma BlockBoundary(n: nat)
    ensures (n + (64 - Pending(n))) % 64 == 0
  {
  }

  lemma FullAfter(msg: seq<Octet>, bytes: seq<Octet>, i: nat)
    requires i <= |bytes| && i == |bytes| - Pending(|msg| + |bytes|)
    ensures (msg + bytes)[..|msg| + i] == Full(msg + bytes)
  {
  }

  lemma FullSame(msg: seq<Octet>, bytes: seq<Octet>)
    requires Pending(|msg|) + |bytes| <= 63
    ensures Full(msg + bytes) == Full(msg)
  {
    assert Pending(|msg + bytes|) == Pending(|msg|) + |bytes|;
  }

  lemma RestAfter(was: seq<Octet>, bytes: seq<Octet>, i: nat, j: nat, buffer: seq<Octet>)
    requires i == (if Pending(|was|) + |bytes| > 63 then |bytes| - Pending(|was| + |bytes|) else 0) && i <= |bytes|
    requires j == if Pending(|was|) + |bytes| > 63 then 0 else Pending(|was|)
    requires |buffer| == 64 && j + |bytes| - i <= 64
    requires (j != 0 ==> buffer[..j] == Rest(was)) && buffer[j..j + (|bytes| - i)] == bytes[i..]
    ensures buffer[..Pending(|was + bytes|)] == Rest(was + bytes)
  {
    if Pending(|was|) + |bytes| > 63 {
      RestIsTail(was, bytes);
    } else {
      RestGrows(was, bytes);
      assert buffer[..j + |bytes|] == buffer[..j] + buffer[j..j + |bytes|];
      assert bytes[0..] == bytes && (j == 0 ==> Rest(was) == []);
    }
  }

  lemma RestIsTail(was: seq<Octet>, bytes: seq<Octet>)
    requires Pending(|was| + |bytes|) <= |bytes|
    ensures Rest(was + bytes) == bytes[|bytes| - Pending(|was| + |bytes|)..]
  {
  }

  lemma RestGrows(was: seq<Octet>, bytes: seq<Octet>)
    requires Pending(|was|) + |bytes| <= 63
    ensures Pending(|was| + |bytes|) == Pending(|was|) + |bytes| && Rest(was + bytes) == Rest(was) + bytes
  {
    assert Pending(|was + bytes|) == Pending(|was|) + |bytes|;
  }

  lemma BufferIndex(n: nat)
    ensures 8 * n % TWO32 / 8 % 64 == Pending(n)
  {
    var q, r := n / 0x2000_0000, n % 0x2000_0000;
    DivModUnique(8 * n / TWO32, q, TWO32, 8 * n % TWO32, 8 * r);
    assert 8 * r / 8 == r;
    SameMod64(q * 0x80_0000, r, n);
  }

  lemma SameMod64(a: nat, r: nat, n: nat)
    requires n == 64 * a + r
    ensures n % 64 == r % 64
  {
  }

  lemma CountKeepsLow(n: nat, count0: nat, count1: nat, len: nat)
    requires count0 == 8 * n % TWO32
    ensures CountAfter(count0, count1, len).0 == 8 * (n + len) % TWO32
  {
    ModChain(8 * n, 8 * len);
  }

  lemma ModChain(x: nat, y: nat)
    ensures (x % TWO32 + y % TWO64) % TWO32 == (x + y) % TWO32
  {
    var p, q := x / TWO32, y / TWO64;
    assert x + y == (p + q * TWO32) * TWO32 + (x % TWO32 + y % TWO64);
  }

  /** A message up to the end of the block that the first new bytes fill. */
  function FirstBlocks(msg: seq<Octet>, bytes: seq<Octet>): (r: seq<Octet>)
    requires Pending(|msg|) + |bytes| > 63
    ensures |r| % 64 == 0 && r == (msg + bytes)[..|msg| + 64 - Pending(|msg|)]
  {
    BlockBoundary(|msg|);
    (msg + bytes)[..|msg| + 64 - Pending(|msg|)]
  }

  /** The buffer, once full, is the next block of the message. */
  lemma FillBuffer(msg: seq<Octet>, bytes: seq<Octet>, block: seq<Octet>)
    requires |block| == 64 && Pending(|msg|) + |bytes| > 63
    requires block == Rest(msg) + bytes[..64 - Pending(|msg|)]
    ensures HashBlocks(FirstBlocks(msg, bytes)) == Compress(HashBlocks(Full(msg)), block)
  {
    HashOneMore(Full(msg), block);
    assert Full(msg) + block == FirstBlocks(msg, bytes);
  }

  lemma NextBlock(msg: seq<Octet>, bytes: seq<Octet>, i: nat)
    requires i + 63 < |bytes| && (|msg| + i) % 64 == 0
    ensures HashBlocks((msg + bytes)[..|msg| + i + 64]) == Compress(HashBlocks((msg + bytes)[..|msg| + i]), bytes[i..i + 64])
  {
    var all := msg + bytes;
    HashOneMore(all[..|msg| + i], bytes[i..i + 64]);
    assert all[..|msg| + i] + bytes[i..i + 64] == all[..|msg| + i + 64];
  }

  function Zeros(n: nat): seq<Octet> { seq(n, _ => 0) }

  /** The padding loop stops after exactly the zero bytes that section 5.1.1 asks for. */
  lemma ZerosLeft(n: nat, z: nat)
    requires z <= (119 - n % 64) % 64
    ensures Pending(n + 1 + z) == 56 <==> z == (119 - n % 64) % 64
  {
    var zeros := (119 - n % 64) % 64;
    assert zeros == if n % 64 <= 55 then 55 - n % 64 else 119 - n % 64;
  }

  /** The eight bytes of `finalcount`, from the two halves of the counter. */
  function FinalBytes(count0: nat, count1: nat): (r: seq<Octet>)
    ensures |r| == 8
  {
    seq(8, i requires 0 <= i < 8 => ByteOf(if i >= 4 then count0 else count1, 3 - i % 4))
  }

  /** They spell the message length in bits. */
  lemma LengthFromHalves(count0: nat, count1: nat, bits: nat)
    requires count0 < TWO32 && count1 < TWO32 && Counts(count0, count1, bits)
    ensures FinalBytes(count0, count1) == LengthBytes(bits % TWO64)
  {
    hide ByteOf, Counts;
    HalvesAre(count0, count1, bits);
    forall i | 0 <= i < 8
      ensures FinalBytes(count0, count1)[i] == LengthBytes(bits % TWO64)[i]
    {
      LengthByte(count0, count1, i);
    }
  }

  lemma HalvesAre(count0: nat, count1: nat, bits: nat)
    requires Counts(count0, count1, bits)
    ensures bits % TWO64 == count1 * TWO32 + count0
  {
  }

  lemma LengthByte(count0: nat, count1: nat, i: nat)
    requires count0 < TWO32 && i < 8
    ensures ByteOf(if i >= 4 then count0 else count1, 3 - i % 4) == ByteOf(count1 * TWO32 + count0, 7 - i)
  {
    hide Shift;
    if i >= 4 { LowByte(count0, count1, 7 - i); } else { HighByte(count0, count1, 3 - i); }
  }

  lemma DivAdd(a: nat, s: nat, r: nat)
    requires s > 0
    ensures (a * s + r) / s == a + r / s
  {
    assert a * s + r == (a + r / s) * s + r % s by { DistributeRight(a, r / s, s); }
    DivModUnique((a * s + r) / s, a + r / s, s, (a * s + r) % s, r % s);
  }

  lemma LowByte(count0: nat, count1: nat, k: nat)
    requires count0 < TWO32 && k < 4
    ensures (count1 * TWO32 + count0) / Shift(k) % 256 == count0 / Shift(k) % 256
  {
    LowByteOf(count0, count1, Shift(3 - k), Shift(k));
  }

  lemma LowByteOf(count0: nat, count1: nat, v: nat, s: nat)
    requires s > 0 && (v * 256) * s == TWO32
    ensures (count1 * TWO32 + count0) / s % 256 == count0 / s % 256
  {
    MulAssoc(count1, v * 256, s);
    DivAdd(count1 * (v * 256), s, count0);
    MulAssoc(count1, v, 256);
    DropByte(count1 * v, count0 / s);
  }

  lemma HighByte(count0: nat, count1: nat, k: nat)
    requires count0 < TWO32 && k < 4
    ensures (count1 * TWO32 + count0) / Shift(k + 4) % 256 == count1 / Shift(k) % 256
  {
    match k
    case 0 =>
    case 1 => assert (count1 * TWO32 + count0) / 0x100_0000_0000 == count1 / 0x100;
    case 2 => assert (count1 * TWO32 + count0) / 0x1_0000_0000_0000 == count1 / 0x1_0000;
    case 3 => assert (count1 * TWO32 + count0) / 0x100_0000_0000_0000 == count1 / 0x100_0000;
  }

  lemma PaddingParts(m: seq<Octet>, msg: seq<Octet>)
    requires msg == m + [0x80] + Zeros((119 - |m| % 64) % 64) + LengthBytes(8 * |m| % TWO64)
    ensures msg == m + Padding(|m|) && Full(msg) == msg
  {
    PaddedLength(|m|);
  }

  // ----- the whole algorithm

  function Flatten(chunks: seq<seq<Octet>>): seq<Octet> {
    if chunks == [] then [] else Flatten(chunks[..|chunks| - 1]) + chunks[|chunks| - 1]
  }

  /** Init, one update per chunk, Final: the digest of the concatenation, however it was cut. */
  method HashChunks(chunks: seq<seq<Octet>>) returns (digest: seq<Octet>)
    requires forall k :: 0 <= k < |chunks| ==> |chunks[k]| < 0x2000_0000
    ensures digest == Fips(Flatten(chunks))
  {
    var ctx := new Context();
    for k := 0 to |chunks|
      invariant ctx.Valid() && ctx.Exact() && ctx.msg == Flatten(chunks[..k])
      invariant fresh(ctx) && fresh(ctx.state) && fresh(ctx.buffer)
    {
      var chunk := chunks[k];
      var data := new Octet[|chunk|](i requires 0 <= i < |chunk| => chunk[i]);
      assert data[..|chunk|] == chunk;
      ctx.Update(data, |chunk|);
      assert chunks[..k + 1][..k] == chunks[..k];
    }
    assert chunks[..|chunks|] == chunks;
    digest := ctx.Final();
  }
}
