/**
 Base32 as crypto/encoding/base32.c computes it (section 6 of RFC 4648): an encoder that turns
 five bytes into eight characters, and a decoder that can be fed newline-wrapped text in pieces.
 Both are proved against the 40-bit number that the bytes of a group spell.
 */
module Base32 {
  import opened Numbers

  type Quint = x: int | 0 <= x < 32

  // ----- the alphabet

  function CharOf(d: Quint): char {
    if d < 26 then "ABCDEFGHIJKLMNOPQRSTUVWXYZ"[d] else "234567"[d - 26]
  }

  /** `b32`; -1 for a character outside the alphabet. */
  function DigitOf(c: char): (d: int)
    ensures -1 <= d < 32
  {
    if 'A' <= c <= 'Z' then c as int - 'A' as int
    else if '2' <= c <= '7' then c as int - '2' as int + 26
    else -1
  }

  predicate IsBase32(c: char) { 0 <= DigitOf(c) }

  lemma AlphabetInverts(d: Quint)
    ensures DigitOf(CharOf(d)) == d
    ensures CharOf(d) != '=' && CharOf(d) != '\n'
  {
  }

  /** The alphabet is the capital letters and then the digits 2 to 7, each in the order of their codes. */
  lemma AlphabetIs(c: char, c': char)
    ensures IsBase32(c) <==> 'A' <= c <= 'Z' || '2' <= c <= '7'
    ensures IsBase32(c) && IsBase32(c') ==>
      (DigitOf(c) < DigitOf(c') <==> if c >= 'A' > c' then true else if c' >= 'A' > c then false else c < c')
  {
  }

  // ----- groups as 40-bit numbers

  /** How many characters it takes to hold `n` bytes. */
  function CharsFor(n: nat): (c: nat)
    requires n <= 5
    ensures c <= 8
  {
    if n == 0 then 0 else if n == 1 then 2 else if n == 2 then 4 else if n == 3 then 5 else if n == 4 then 7 else 8
  }

  /** 32^(8-c) for the first `c` characters of a group. */
  function Weight(c: nat): (w: nat)
    requires c <= 8
    ensures w > 0
  {
    if c == 8 then 1 else if c == 7 then 0x20 else if c == 6 then 0x400 else if c == 5 then 0x8000
    else if c == 4 then 0x10_0000 else if c == 3 then 0x200_0000 else if c == 2 then 0x4000_0000
    else if c == 1 then 0x8_0000_0000 else 0x100_0000_0000
  }

  /** 256^(5-n) for the first `n` bytes of a group. */
  function ByteWeight(n: nat): (w: nat)
    requires n <= 5
    ensures w > 0
  {
    if n == 5 then 1 else if n == 4 then 0x100 else if n == 3 then 0x1_0000
    else if n == 2 then 0x100_0000 else if n == 1 then 0x1_0000_0000 else 0x100_0000_0000
  }

  /** A character carries five bits and a byte eight; `n` bytes need the fewest characters that hold them. */
  lemma WeightsArePowers(c: nat, n: nat)
    requires c <= 8 && n <= 5
    ensures Weight(c) == Pow(32, 8 - c) && ByteWeight(n) == Pow(256, 5 - n) && CharsFor(n) == (8 * n + 4) / 5
  {
    assert Pow(32, 1) == 32 && Pow(32, 2) == 0x400 && Pow(32, 3) == 0x8000 && Pow(32, 4) == 0x10_0000;
    assert Pow(32, 5) == 0x200_0000 && Pow(32, 6) == 0x4000_0000 && Pow(32, 7) == 0x8_0000_0000 && Pow(32, 8) == 0x100_0000_0000;
    assert Pow(256, 1) == 0x100 && Pow(256, 2) == 0x1_0000 && Pow(256, 3) == 0x100_0000;
    assert Pow(256, 4) == 0x1_0000_0000 && Pow(256, 5) == 0x100_0000_0000;
  }

  /** The bits of the last character that belong to no byte. */
  function Spare(n: nat): (p: nat)
    requires 1 <= n <= 5
    ensures p > 0
  {
    if n == 1 then 4 else if n == 2 then 16 else if n == 3 then 2 else if n == 4 then 8 else 1
  }

  lemma SpareBits(n: nat)
    requires 1 <= n <= 5
    ensures Weight(CharsFor(n)) * Spare(n) == ByteWeight(n)
  {
  }

  function Padded(g: seq<Byte>): (p: seq<Byte>)
    requires |g| <= 5
    ensures |p| == 5
  {
    g + seq(5 - |g|, _ => 0)
  }

  /** The 40 bits of a group of bytes. */
  function Bits(g: seq<Byte>): nat
    requires |g| <= 5
  {
    Val(256, Padded(g))
  }

  /** The characters of one group: five bits each, then padding. */
  function EncodeGroup(g: seq<Byte>): (s: string)
    requires |g| <= 5
    ensures |s| == 8
  {
    seq(8, j requires 0 <= j < 8 => if j < CharsFor(|g|) then CharOf(Bits(g) / Weight(j + 1) % 32) else '=')
  }

  predicate AllDigits(s: string) { forall j :: 0 <= j < |s| ==> IsBase32(s[j]) }

  function DigitsOf(s: string): (d: seq<Quint>)
    requires AllDigits(s)
    ensures |d| == |s| && forall j :: 0 <= j < |d| ==> d[j] == DigitOf(s[j])
  {
    seq(|s|, j requires 0 <= j < |s| => DigitOf(s[j]))
  }

  /** The length of the run of alphabet characters in front. */
  function LeadingDigits(s: string): (m: nat)
    ensures m <= |s| && AllDigits(s[..m]) && (m < |s| ==> !IsBase32(s[m]))
  {
    if s == [] || !IsBase32(s[0]) then 0
    else
      var m := LeadingDigits(s[1..]);
      assert forall j :: 0 < j < m + 1 ==> s[j] == s[1..][..m][j - 1];
      m + 1
  }

  /** How many whole bytes `m` characters hold. */
  function BytesIn(m: nat): (n: nat)
    requires m <= 8
    ensures n <= 5 && CharsFor(n) <= m && (n < 5 ==> m < CharsFor(n + 1))
  {
    if m < 2 then 0 else if m < 4 then 1 else if m < 5 then 2 else if m < 7 then 3 else if m < 8 then 4 else 5
  }

  /** Byte `k` of the bits that the first characters spell. */
  function ByteAt(s: string, k: nat): Byte
    requires k < 5 && |s| == 8 && AllDigits(s[..CharsFor(k + 1)])
  {
    Val(32, DigitsOf(s[..CharsFor(k + 1)])) / Spare(k + 1) % 256
  }

  /** The whole bytes at the front of a group of eight characters, valid or not. */
  function GroupBytes(s: string): (r: seq<Byte>)
    requires |s| == 8
    ensures |r| == BytesIn(LeadingDigits(s))
  {
    var m := LeadingDigits(s);
    seq(BytesIn(m), k requires 0 <= k < BytesIn(m) =>
      assert s[..CharsFor(k + 1)] == s[..m][..CharsFor(k + 1)] by { CharsGrow(k + 1, BytesIn(m)); }
      ByteAt(s, k))
  }

  lemma CharsGrow(k: nat, n: nat)
    requires k <= n <= 5
    ensures CharsFor(k) <= CharsFor(n)
  {
  }

  /** A group is valid if nothing but padding follows the characters of its bytes. */
  predicate ValidGroup(s: string)
    requires |s| == 8
  {
    var n := BytesIn(LeadingDigits(s));
    n > 0 && forall j :: CharsFor(n) <= j < 8 ==> s[j] == '='
  }

  // ----- a group decodes to what was encoded

  lemma DivDiv(n: nat, a: nat, b: nat)
    requires a > 0 && b > 0
    ensures a * b > 0 && n / (a * b) == n / a / b
  {
    var q, r := n / a / b, n / a % b;
    assert n == (q * b + r) * a + n % a;
    MulMonotone(r, b - 1, a);
    MulMonotone(0, r, a);
    DistributeRight(q * b, r, a);
    MulAssoc(q, b, a);
    assert b * a == a * b && (b - 1) * a == b * a - a;
    DivModUnique(q, n / (a * b), a * b, r * a + n % a, n % (a * b));
  }

  lemma {:induction false} DigitsPrefix(n: nat, d: seq<nat>, c: nat)
    requires n < Weight(0) && |d| == c <= 8
    requires forall j :: 0 <= j < c ==> d[j] == n / Weight(j + 1) % 32
    ensures Val(32, d) == n / Weight(c)
  {
    if c > 0 {
      DigitsPrefix(n, d[..c - 1], c - 1);
      var x := n / Weight(c);
      assert Weight(c - 1) == Weight(c) * 32;
      DivDiv(n, Weight(c), 32);
      assert x == x / 32 * 32 + x % 32;
    }
  }

  function Number(a: int, b: int, c: int, d: int, e: int): int {
    (((a * 256 + b) * 256 + c) * 256 + d) * 256 + e
  }

  lemma ValueOfFive(g: seq<Byte>)
    requires |g| == 5
    ensures Val(256, g) == Number(g[0], g[1], g[2], g[3], g[4])
    ensures Val(256, g) < Weight(0)
  {
    assert g[..4][..3] == g[..3] && g[..3][..2] == g[..2] && g[..2][..1] == g[..1] && g[..1][..0] == [];
    assert Val(256, g[..1]) == g[0];
    assert Val(256, g[..2]) == Val(256, g[..1]) * 256 + g[1];
    assert Val(256, g[..3]) == Val(256, g[..2]) * 256 + g[2];
    assert Val(256, g[..4]) == Val(256, g[..3]) * 256 + g[3];
  }

  lemma FiveBytes(a: Byte, b: Byte, c: Byte, d: Byte, e: Byte)
    ensures var n := Number(a, b, c, d, e);
            && n / 0x1_0000_0000 % 256 == a && n / 0x100_0000 % 256 == b && n / 0x1_0000 % 256 == c
            && n / 0x100 % 256 == d && n % 256 == e
  {
    Prefixes(a, b, c, d, e);
    DropByte(a, b);
    DropByte(a * 256 + b, c);
    DropByte((a * 256 + b) * 256 + c, d);
    DropByte(((a * 256 + b) * 256 + c) * 256 + d, e);
  }

  lemma ByteOfValue(g: seq<Byte>, k: nat)
    requires |g| == 5 && k < 5
    ensures Val(256, g) / ByteWeight(k + 1) % 256 == g[k]
  {
    ValueOfFive(g);
    FiveBytes(g[0], g[1], g[2], g[3], g[4]);
  }

  lemma GroupDigits(g: seq<Byte>)
    requires 1 <= |g| <= 5
    ensures LeadingDigits(EncodeGroup(g)) == CharsFor(|g|)
  {
    var s, c := EncodeGroup(g), CharsFor(|g|);
    forall j | 0 <= j < c
      ensures IsBase32(s[j])
    {
      AlphabetInverts(Bits(g) / Weight(j + 1) % 32);
    }
    var m := LeadingDigits(s);
    assert m > c ==> IsBase32(s[..m][c]);
  }

  lemma GroupByte(g: seq<Byte>, k: nat)
    requires k < |g| <= 5
    requires AllDigits(EncodeGroup(g)[..CharsFor(k + 1)])
    ensures ByteAt(EncodeGroup(g), k) == g[k]
  {
    var s, c, n := EncodeGroup(g), CharsFor(k + 1), Bits(g);
    var d := DigitsOf(s[..c]);
    CharsGrow(k + 1, |g|);
    forall j | 0 <= j < c
      ensures d[j] == n / Weight(j + 1) % 32
    {
      AlphabetInverts(n / Weight(j + 1) % 32);
    }
    ValueOfFive(Padded(g));
    DigitsPrefix(n, d, c);
    SpareBits(k + 1);
    DivDiv(n, Weight(c), Spare(k + 1));
    ByteOfValue(Padded(g), k);
  }

  lemma GroupRoundTrip(g: seq<Byte>)
    requires 1 <= |g| <= 5
    ensures ValidGroup(EncodeGroup(g)) && GroupBytes(EncodeGroup(g)) == g
  {
    var s := EncodeGroup(g);
    GroupDigits(g);
    assert BytesIn(CharsFor(|g|)) == |g|;
    forall k | 0 <= k < |g|
      ensures GroupBytes(s)[k] == g[k]
    {
      CharsGrow(k + 1, |g|);
      assert s[..CharsFor(k + 1)] == s[..CharsFor(|g|)][..CharsFor(k + 1)];
      GroupByte(g, k);
    }
  }

  // ----- whole texts

  /** The encoding of a byte string, group by group. */
  function Encoded(b: seq<Byte>): string {
    if b == [] then []
    else if |b| <= 5 then EncodeGroup(b)
    else EncodeGroup(b[..5]) + Encoded(b[5..])
  }

  datatype Decoding = Decoding(ok: bool, bytes: seq<Byte>)

  /** The bytes of a newline-free text up to the first character at fault. */
  function Decoded(t: string): Decoding {
    if t == [] then Decoding(true, [])
    else if |t| < 8 then Decoding(false, [])
    else if !ValidGroup(t[..8]) then Decoding(false, GroupBytes(t[..8]))
    else
      var rest := Decoded(t[8..]);
      Decoding(rest.ok, GroupBytes(t[..8]) + rest.bytes)
  }

  lemma {:induction false} RoundTrip(b: seq<Byte>)
    ensures Decoded(Encoded(b)) == Decoding(true, b)
  {
    if b != [] {
      var g := if |b| <= 5 then b else b[..5];
      var rest := b[|g|..];
      var t := Encoded(b);
      assert t == EncodeGroup(g) + Encoded(rest);
      assert t[..8] == EncodeGroup(g) && t[8..] == Encoded(rest);
      GroupRoundTrip(g);
      RoundTrip(rest);
      assert b == g + rest;
    }
  }

  lemma {:induction false} EncodedLength(b: seq<Byte>)
    ensures |Encoded(b)| == (|b| + 4) / 5 * 8
  {
    if |b| > 5 { EncodedLength(b[5..]); }
  }

  // ----- the encoder

  /** As much of `s` as fits. */
  function Take<T>(s: seq<T>, room: nat): (r: seq<T>)
    ensures |r| <= room && |r| <= |s|
  {
    if |s| <= room then s else s[..room]
  }

  lemma TakeTwo<T>(x: seq<T>, y: seq<T>, room: nat)
    ensures Take(x + y, room) == Take(x, room) + Take(y, room - |Take(x, room)|)
  {
  }

  /** The numbers that the first bytes of a group spell. */
  lemma Prefixes(a: Byte, b: Byte, c: Byte, d: Byte, e: Byte)
    ensures var n := Number(a, b, c, d, e);
            && n / 0x1_0000_0000 == a && n / 0x100_0000 == Number(0, 0, 0, a, b)
            && n / 0x1_0000 == Number(0, 0, a, b, c) && n / 0x100 == Number(0, a, b, c, d)
  {
  }

  /** The last bits of one byte, shifted up, with the first bits of the next. */
  function Join(x: int, shift: int, y: int): Quint { (x * shift + y) % 32 }

  /** The last bits of a byte `x` followed by the first of `y`, in a number that ends with both. */
  lemma AcrossBytes(h: nat, x: Byte, y: Byte)
    ensures var n := (h * 256 + x) * 256 + y;
            && n / 64 % 32 == Join(x, 4, y / 64) && n / 16 % 32 == Join(x, 16, y / 16)
            && n / 128 % 32 == Join(x, 2, y / 128) && n / 32 % 32 == Join(x, 8, y / 32)
  {
    hide Join;
    Across64(h, x, y);
    Across16(h, x, y);
    Across128(h, x, y);
    Across32(h, x, y);
  }

  lemma Across64(h: nat, x: Byte, y: Byte)
    ensures ((h * 256 + x) * 256 + y) / 64 % 32 == Join(x, 4, y / 64)
  {
    Quotient((h * 256 + x) * 256 + y, 64, h * 1024 + x * 4 + y / 64, y % 64);
    DropMultiple(h * 32, x * 4 + y / 64);
  }

  lemma Across16(h: nat, x: Byte, y: Byte)
    ensures ((h * 256 + x) * 256 + y) / 16 % 32 == Join(x, 16, y / 16)
  {
    Quotient((h * 256 + x) * 256 + y, 16, h * 4096 + x * 16 + y / 16, y % 16);
    DropMultiple(h * 128, x * 16 + y / 16);
  }

  lemma Across128(h: nat, x: Byte, y: Byte)
    ensures ((h * 256 + x) * 256 + y) / 128 % 32 == Join(x, 2, y / 128)
  {
    Quotient((h * 256 + x) * 256 + y, 128, h * 512 + x * 2 + y / 128, y % 128);
    DropMultiple(h * 16, x * 2 + y / 128);
  }

  lemma Across32(h: nat, x: Byte, y: Byte)
    ensures ((h * 256 + x) * 256 + y) / 32 % 32 == Join(x, 8, y / 32)
  {
    Quotient((h * 256 + x) * 256 + y, 32, h * 2048 + x * 8 + y / 32, y % 32);
    DropMultiple(h * 64, x * 8 + y / 32);
  }

  lemma Quotient(n: nat, m: nat, q: nat, r: nat)
    requires r < m && n == q * m + r
    ensures n / m == q
  {
    DivModUnique(q, n / m, m, r, n % m);
  }

  lemma DropMultiple(k: int, r: int)
    ensures (k * 32 + r) % 32 == r % 32
  {
  }

  lemma WithinByte(h: nat, x: Byte)
    ensures var n := h * 256 + x;
            n / 8 % 32 == x / 8 % 32 && n / 2 % 32 == x / 2 % 32 && n / 4 % 32 == x / 4 % 32 && n % 32 == x % 32
  {
    var n := h * 256 + x;
    Quotient(n, 8, h * 32 + x / 8, x % 8);
    Quotient(n, 2, h * 128 + x / 2, x % 2);
    Quotient(n, 4, h * 64 + x / 4, x % 4);
    DropMultiple(h, x / 8);
    DropMultiple(h * 4, x / 2);
    DropMultiple(h * 2, x / 4);
    DropMultiple(h * 8, x);
  }

  /** The eight shifts of the encoder take the eight five-bit parts. */
  lemma Shifts(a: Byte, b: Byte, c: Byte, d: Byte, e: Byte)
    ensures var n := Number(a, b, c, d, e);
            && n / Weight(1) % 32 == a / 8 % 32
            && n / Weight(2) % 32 == Join(a, 4, b / 64)
            && n / Weight(3) % 32 == b / 2 % 32
            && n / Weight(4) % 32 == Join(b, 16, c / 16)
            && n / Weight(5) % 32 == Join(c, 2, d / 128)
            && n / Weight(6) % 32 == d / 4 % 32
            && n / Weight(7) % 32 == Join(d, 8, e / 32)
            && n / Weight(8) % 32 == e % 32
  {
    hide Number, Join;
    var n := Number(a, b, c, d, e);
    Prefixes(a, b, c, d, e);
    DivDiv(n, 0x1_0000_0000, 8);
    DivDiv(n, 0x100_0000, 64);
    DivDiv(n, 0x100_0000, 2);
    DivDiv(n, 0x1_0000, 16);
    DivDiv(n, 0x100, 128);
    DivDiv(n, 0x100, 4);
    LastBits(0, 0, 0, a, b);
    LastBits(0, 0, a, b, c);
    LastBits(0, a, b, c, d);
    LastBits(a, b, c, d, e);
  }

  lemma LastBits(u: Byte, v: Byte, w: Byte, x: Byte, y: Byte)
    ensures var n := Number(u, v, w, x, y);
            && n / 64 % 32 == Join(x, 4, y / 64) && n / 16 % 32 == Join(x, 16, y / 16)
            && n / 128 % 32 == Join(x, 2, y / 128) && n / 32 % 32 == Join(x, 8, y / 32)
            && n / 2 % 32 == y / 2 % 32 && n / 4 % 32 == y / 4 % 32 && n % 32 == y % 32
  {
    hide Number, Join;
    var h := (u * 256 + v) * 256 + w;
    NumberEnds(u, v, w, x, y);
    AcrossBytes(h, x, y);
    WithinByte(h * 256 + x, y);
  }

  lemma NumberEnds(u: Byte, v: Byte, w: Byte, x: Byte, y: Byte)
    ensures var h: int := (u * 256 + v) * 256 + w; Number(u, v, w, x, y) == (h * 256 + x) * 256 + y
  {
  }

  /** The characters of a group, as the encoder's shifts give them. */
  lemma GroupChars(g: seq<Byte>)
    requires 1 <= |g| <= 5
    ensures var s, p := EncodeGroup(g), Padded(g);
            && s[0] == CharOf(p[0] / 8 % 32)
            && s[1] == CharOf(Join(p[0], 4, p[1] / 64))
            && (|g| > 1 ==> s[2] == CharOf(p[1] / 2 % 32) && s[3] == CharOf(Join(p[1], 16, p[2] / 16)))
            && (|g| > 2 ==> s[4] == CharOf(Join(p[2], 2, p[3] / 128)))
            && (|g| > 3 ==> s[5] == CharOf(p[3] / 4 % 32) && s[6] == CharOf(Join(p[3], 8, p[4] / 32)))
            && (|g| > 4 ==> s[7] == CharOf(p[4] % 32))
            && forall j :: CharsFor(|g|) <= j < 8 ==> s[j] == '='
  {
    hide CharOf, Join, Number;
    var p := Padded(g);
    ValueOfFive(p);
    Shifts(p[0], p[1], p[2], p[3], p[4]);
  }

  /** One round of the encoder's loop: up to eight characters from the bytes at `at`. */
  method EncodeBlock(input: seq<Byte>, at: nat, len: nat, room: nat) returns (chars: string, inlen: nat, outlen: nat)
    requires len > 0 && room > 0 && at + len == |input|
    ensures chars == Take(EncodeGroup(input[at..at + Min(5, len)]), room) && outlen == room - |chars|
    ensures outlen > 0 ==> inlen == len - Min(5, len)
  {
    hide CharOf, EncodeGroup;
    ghost var g := input[at..at + Min(5, len)];
    ghost var e := EncodeGroup(g);
    GroupChars(g);
    inlen, outlen := len, room;
    chars := [CharOf(input[at] / 8 % 32)];
    outlen := outlen - 1;
    assert chars == e[..1];
    if outlen == 0 { return; }
    inlen := inlen - 1;
    chars := chars + [CharOf(Join(input[at], 4, if inlen > 0 then input[at + 1] / 64 else 0))];
    outlen := outlen - 1;
    assert chars == e[..2];
    if outlen == 0 { return; }
    chars := chars + [if inlen > 0 then CharOf(input[at + 1] / 2 % 32) else '='];
    outlen := outlen - 1;
    assert chars == e[..3];
    if outlen == 0 { return; }
    if inlen > 0 {
      inlen := inlen - 1;
      chars := chars + [CharOf(Join(input[at + 1], 16, if inlen > 0 then input[at + 2] / 16 else 0))];
    } else {
      chars := chars + ['='];
    }
    outlen := outlen - 1;
    assert chars == e[..4];
    if outlen == 0 { return; }
    if inlen > 0 {
      inlen := inlen - 1;
      chars := chars + [CharOf(Join(input[at + 2], 2, if inlen > 0 then input[at + 3] / 128 else 0))];
    } else {
      chars := chars + ['='];
    }
    outlen := outlen - 1;
    assert chars == e[..5];
    if outlen == 0 { return; }
    chars := chars + [if inlen > 0 then CharOf(input[at + 3] / 4 % 32) else '='];
    outlen := outlen - 1;
    assert chars == e[..6];
    if outlen == 0 { return; }
    if inlen > 0 {
      inlen := inlen - 1;
      chars := chars + [CharOf(Join(input[at + 3], 8, if inlen > 0 then input[at + 4] / 32 else 0))];
    } else {
      chars := chars + ['='];
    }
    outlen := outlen - 1;
    assert chars == e[..7];
    if outlen == 0 { return; }
    chars := chars + [if inlen > 0 then CharOf(input[at + 4] % 32) else '='];
    outlen := outlen - 1;
    assert chars == e[..8] == e;
    if outlen == 0 { return; }
    if inlen > 0 { inlen := inlen - 1; }
  }

  /** `base32_encode`: as many characters as fit, and a zero if there is room for one more. */
  method Encode(input: seq<Byte>, room: nat) returns (out: string)
    ensures out == Take(Encoded(input), room) + (if |Encoded(input)| < room then "\0" else "")
  {
    hide EncodeGroup, Encoded;
    out := [];
    EncodedNothing();
    assert input[|input|..] == [] && input[0..] == input;
    var inlen, outlen, at := |input|, room, 0;
    while inlen > 0 && outlen > 0
      invariant 0 <= inlen <= |input| && outlen == room - |out|
      invariant inlen > 0 ==> at + inlen == |input|
      invariant outlen > 0 ==> Encoded(input) == out + Encoded(input[|input| - inlen..])
      invariant outlen == 0 ==> out == Take(Encoded(input), room)
      decreases inlen, outlen
    {
      EncodeNext(input, out, at, Min(5, inlen), room);
      var chars, inlen', outlen' := EncodeBlock(input, at, inlen, outlen);
      out := out + chars;
      outlen := outlen';
      if outlen == 0 { break; }
      inlen := inlen';
      if inlen > 0 { at := at + 5; }
    }
    if outlen > 0 {
      out := out + ['\0'];
    }
  }

  lemma EncodedNothing()
    ensures Encoded([]) == []
  {
  }

  lemma EncodeNext(input: seq<Byte>, out: string, at: nat, n: nat, room: nat)
    requires at < |input| && n == Min(5, |input| - at) && |out| < room && Encoded(input) == out + Encoded(input[at..])
    ensures out + EncodeGroup(input[at..at + n]) + Encoded(input[at + n..]) == Encoded(input)
    ensures room - |out| <= 8 ==> out + Take(EncodeGroup(input[at..at + n]), room - |out|) == Take(Encoded(input), room)
  {
    hide EncodeGroup, Encoded, Take;
    EncodedAt(input, at, n);
    JoinTexts(out, EncodeGroup(input[at..at + n]), Encoded(input[at + n..]), room);
  }

  lemma EncodedAt(input: seq<Byte>, at: nat, n: nat)
    requires at < |input| && n == Min(5, |input| - at)
    ensures Encoded(input[at..]) == EncodeGroup(input[at..at + n]) + Encoded(input[at + n..])
  {
    hide EncodeGroup, Encoded;
    var rest := input[at..];
    EncodedStep(rest);
    assert rest[..n] == input[at..at + n];
    assert rest[n..] == input[at + n..];
  }

  lemma JoinTexts(x: string, y: string, z: string, room: nat)
    requires |x| < room
    ensures x + y + z == x + (y + z)
    ensures room - |x| <= |y| ==> x + Take(y, room - |x|) == Take(x + (y + z), room)
  {
  }

  lemma EncodedStep(b: seq<Byte>)
    requires b != []
    ensures Encoded(b) == EncodeGroup(b[..Min(5, |b|)]) + Encoded(b[Min(5, |b|)..])
  {
    if |b| <= 5 { assert b[..|b|] == b && b[|b|..] == []; }
  }

  // ----- one group of the decoder

  /** The shifts that make bytes 1 to 4 of a group, behind digits that spell `h`. */
  lemma DecodeShifts(h: nat, x: nat, y: nat, z: nat)
    requires x < 32 && y < 32 && z < 32
    ensures (h * 32 + x) / 4 % 256 == Low8(h, 8, x / 4, 1, 0)
    ensures (((h * 32 + x) * 32 + y) * 32 + z) / 16 % 256 == Low8(x, 64, y, 2, z / 16)
    ensures ((h * 32 + x) * 32 + y) / 2 % 256 == Low8(x, 16, y / 2, 1, 0)
    ensures (((h * 32 + x) * 32 + y) * 32 + z) / 8 % 256 == Low8(x, 128, y, 4, z / 8)
    ensures ((h * 32 + x) * 32 + y) % 256 == Low8(x, 32, y, 1, 0)
  {
    var n, m := ((h * 32 + x) * 32 + y) * 32 + z, (h * 32 + x) * 32 + y;
    Quotient(h * 32 + x, 4, h * 8 + x / 4, x % 4);
    Quotient(n, 16, h * 2048 + x * 64 + y * 2 + z / 16, z % 16);
    Quotient(m, 2, h * 512 + x * 16 + y / 2, y % 2);
    Quotient(n, 8, h * 4096 + x * 128 + y * 4 + z / 8, z % 8);
    DropByte(h * 8, x * 64 + y * 2 + z / 16);
    DropByte(h * 2, x * 16 + y / 2);
    DropByte(h * 16, x * 128 + y * 4 + z / 8);
    DropByte(h * 4, x * 32 + y);
  }

  /** Byte `k` as the decoder's shifts make it from the digits `d`. */
  function ShiftedByte(d: seq<Quint>, k: nat): Byte
    requires k < 5 && |d| >= CharsFor(k + 1)
  {
    match k
    case 0 => Low8(d[0], 8, d[1] / 4, 1, 0)
    case 1 => Low8(d[1], 64, d[2], 2, d[3] / 16)
    case 2 => Low8(d[3], 16, d[4] / 2, 1, 0)
    case 3 => Low8(d[4], 128, d[5], 4, d[6] / 8)
    case 4 => Low8(d[6], 32, d[7], 1, 0)
  }

  /** Bits put in front of others and cut to a byte. */
  function Low8(x: int, s: int, y: int, t: int, z: int): Byte { (x * s + y * t + z) % 256 }

  lemma {:induction false} ValPrefix(d: seq<nat>, c: nat)
    requires 0 < c <= |d|
    ensures Val(32, d[..c]) == Val(32, d[..c - 1]) * 32 + d[c - 1]
  {
    assert d[..c][..c - 1] == d[..c - 1];
  }

  lemma ShiftedByteIs(d: seq<Quint>, k: nat)
    requires k < 5 && |d| >= CharsFor(k + 1)
    ensures Val(32, d[..CharsFor(k + 1)]) / Spare(k + 1) % 256 == ShiftedByte(d, k)
  {
    hide Val, Low8;
    match k {
      case 0 =>
        ValPrefix(d, 1); ValPrefix(d, 2);
        assert d[..0] == [];
        ValZeros(32, d[..0]);
        DecodeShifts(d[0], d[1], 0, 0);
      case 1 => SecondByteIs(d);
      case 2 =>
        ValPrefix(d, 4); ValPrefix(d, 5);
        DecodeShifts(Val(32, d[..3]), d[3], d[4], 0);
      case 3 => FourthByteIs(d);
      case 4 =>
        ValPrefix(d, 7); ValPrefix(d, 8);
        DecodeShifts(Val(32, d[..6]), d[6], d[7], 0);
    }
  }

  lemma SecondByteIs(d: seq<Quint>)
    requires |d| >= 4
    ensures Val(32, d[..4]) / 16 % 256 == ShiftedByte(d, 1)
  {
    hide Val, Low8;
    ValPrefix(d, 2); ValPrefix(d, 3); ValPrefix(d, 4);
    DecodeShifts(Val(32, d[..1]), d[1], d[2], d[3]);
  }

  lemma FourthByteIs(d: seq<Quint>)
    requires |d| >= 7
    ensures Val(32, d[..7]) / 8 % 256 == ShiftedByte(d, 3)
  {
    hide Val, Low8;
    ValPrefix(d, 5); ValPrefix(d, 6); ValPrefix(d, 7);
    DecodeShifts(Val(32, d[..4]), d[4], d[5], d[6]);
  }

  /** The decoder's byte `k`, straight from the characters. */
  function RawByte(s: string, k: nat): Byte
    requires k < 5 && |s| >= 8
  {
    match k
    case 0 => Low8(DigitOf(s[0]), 8, DigitOf(s[1]) / 4, 1, 0)
    case 1 => Low8(DigitOf(s[1]), 64, DigitOf(s[2]), 2, DigitOf(s[3]) / 16)
    case 2 => Low8(DigitOf(s[3]), 16, DigitOf(s[4]) / 2, 1, 0)
    case 3 => Low8(DigitOf(s[4]), 128, DigitOf(s[5]), 4, DigitOf(s[6]) / 8)
    case 4 => Low8(DigitOf(s[6]), 32, DigitOf(s[7]), 1, 0)
  }

  lemma RawByteIs(s: string, k: nat)
    requires |s| == 8 && k < BytesIn(LeadingDigits(s))
    ensures GroupBytes(s)[k] == RawByte(s, k)
  {
    hide Low8, DigitOf, Val;
    var m, c := LeadingDigits(s), CharsFor(k + 1);
    CharsGrow(k + 1, BytesIn(m));
    assert s[..c] == s[..m][..c];
    var d := DigitsOf(s[..c]);
    assert d[..c] == d;
    ShiftedByteIs(d, k);
  }

  /** What the run of digits is once the characters around its end are known. */
  lemma LeadingIs(s: string, m: nat)
    requires m <= |s| && AllDigits(s[..m]) && (m < |s| ==> !IsBase32(s[m]))
    ensures LeadingDigits(s) == m
  {
    hide DigitOf;
    var r := LeadingDigits(s);
    assert forall j :: 0 <= j < m ==> s[j] == s[..m][j];
    assert forall j :: 0 <= j < r ==> s[j] == s[..r][j];
  }

  /** `out` holds as many of `bytes` as there was room for, behind what was there before. */
  ghost predicate Wrote(was: seq<Byte>, room: nat, out: seq<Byte>, outleft: nat, bytes: seq<Byte>) {
    out == was + Take(bytes, room) && outleft == room - |Take(bytes, room)|
  }

  method Emit(out: seq<Byte>, outleft: nat, b: Byte, ghost was: seq<Byte>, ghost room: nat, ghost all: seq<Byte>, ghost k: nat)
    returns (out': seq<Byte>, outleft': nat)
    requires k < |all| && b == all[k] && Wrote(was, room, out, outleft, all[..k])
    ensures Wrote(was, room, out', outleft', all[..k + 1])
  {
    TakeTwo(all[..k], [b], room);
    assert all[..k + 1] == all[..k] + [b];
    if outleft > 0 { return out + [b], outleft - 1; }
    return out, outleft;
  }

  /** A group with exactly `m` digits in front, whose whole bytes are `bytes`. */
  lemma Stopped(s: string, m: nat, bytes: seq<Byte>)
    requires |s| == 8 && m <= 8 && AllDigits(s[..m]) && (m < 8 ==> !IsBase32(s[m]))
    requires |bytes| == BytesIn(m) && forall k :: 0 <= k < |bytes| ==> bytes[k] == RawByte(s, k)
    ensures LeadingDigits(s) == m && GroupBytes(s) == bytes
  {
    hide RawByte, DigitOf;
    LeadingIs(s, m);
    forall k | 0 <= k < |bytes|
      ensures GroupBytes(s)[k] == bytes[k]
    {
      RawByteIs(s, k);
    }
  }

  /** `decode_8`. */
  method Decode8(input: string, out0: seq<Byte>, room: nat) returns (ok: bool, out: seq<Byte>, outleft: nat)
    ensures ok <==> |input| >= 8 && ValidGroup(input[..8])
    ensures Wrote(out0, room, out, outleft, if |input| >= 8 then GroupBytes(input[..8]) else [])
  {
    hide DigitOf, Low8, RawByte, GroupBytes, LeadingDigits, Wrote;
    out, outleft := out0, room;
    WroteNothing(out0, room);
    if |input| < 8 { return false, out, outleft; }
    ghost var s := input[..8];
    PadIsNoDigit();
    if !IsBase32(input[0]) || !IsBase32(input[1]) {
      Stopped(s, if IsBase32(s[0]) then 1 else 0, []);
      return false, out, outleft;
    }
    ghost var b := seq(5, k requires 0 <= k < 5 => RawByte(s, k));
    assert b[..0] == [] && b[..5] == b;
    RawByteSame(input);
    out, outleft := Emit(out, outleft, RawByte(input, 0), out0, room, b, 0);
    if input[2] == '=' {
      Stopped(s, 2, b[..1]);
      return input[3] == '=' && input[4] == '=' && input[5] == '=' && input[6] == '=' && input[7] == '=', out, outleft;
    }
    if !IsBase32(input[2]) || !IsBase32(input[3]) {
      Stopped(s, if IsBase32(s[2]) then 3 else 2, b[..1]);
      return false, out, outleft;
    }
    out, outleft := Emit(out, outleft, RawByte(input, 1), out0, room, b, 1);
    if input[4] == '=' {
      Stopped(s, 4, b[..2]);
      return input[5] == '=' && input[6] == '=' && input[7] == '=', out, outleft;
    }
    if !IsBase32(input[4]) {
      Stopped(s, 4, b[..2]);
      return false, out, outleft;
    }
    out, outleft := Emit(out, outleft, RawByte(input, 2), out0, room, b, 2);
    if input[5] == '=' {
      Stopped(s, 5, b[..3]);
      return input[6] == '=' && input[7] == '=', out, outleft;
    }
    if !IsBase32(input[5]) || !IsBase32(input[6]) {
      Stopped(s, if IsBase32(s[5]) then 6 else 5, b[..3]);
      return false, out, outleft;
    }
    out, outleft := Emit(out, outleft, RawByte(input, 3), out0, room, b, 3);
    if input[7] != '=' {
      if !IsBase32(input[7]) {
        Stopped(s, 7, b[..4]);
        return false, out, outleft;
      }
      out, outleft := Emit(out, outleft, RawByte(input, 4), out0, room, b, 4);
      Stopped(s, 8, b);
      return true, out, outleft;
    }
    Stopped(s, 7, b[..4]);
    return true, out, outleft;
  }

  lemma RawByteSame(input: string)
    requires |input| >= 8
    ensures forall k :: 0 <= k < 5 ==> RawByte(input, k) == RawByte(input[..8], k)
  {
  }

  lemma WroteNothing(was: seq<Byte>, room: nat)
    ensures Wrote(was, room, was, room, [])
  {
  }

  lemma PadIsNoDigit()
    ensures !IsBase32('=') && !IsBase32('\n')
  {
  }

  // ----- decoding in pieces

  function Strip(t: string): string {
    if t == [] then [] else (if t[0] == '\n' then [] else [t[0]]) + Strip(t[1..])
  }

  datatype Feeding = Feeding(ok: bool, bytes: seq<Byte>, rest: string)

  /** Decode the whole groups at the front of `t`; what is left over waits for more. */
  function Feed(t: string): (f: Feeding)
    ensures f.ok ==> |f.rest| < 8
  {
    if |t| < 8 then Feeding(true, [], t)
    else if !ValidGroup(t[..8]) then Feeding(false, GroupBytes(t[..8]), [])
    else
      var f := Feed(t[8..]);
      Feeding(f.ok, GroupBytes(t[..8]) + f.bytes, f.rest)
  }

  /** `f` with bytes already decoded in front. */
  function Onto(front: seq<Byte>, f: Feeding): Feeding { Feeding(f.ok, front + f.bytes, f.rest) }

  /** A text decodes if it can be fed and leaves nothing over. */
  lemma {:induction false} FeedDecodes(t: string)
    ensures Decoded(t) == Decoding(Feed(t).ok && Feed(t).rest == [], Feed(t).bytes)
  {
    if |t| >= 8 && ValidGroup(t[..8]) { FeedDecodes(t[8..]); }
  }

  /** Feeding more text continues from what was left over. */
  lemma {:induction false} FeedTwo(x: string, y: string)
    ensures Feed(x + y) ==
      if !Feed(x).ok then Feed(x) else Onto(Feed(x).bytes, Feed(Feed(x).rest + y))
  {
    hide ValidGroup, GroupBytes;
    if |x| >= 8 {
      assert (x + y)[..8] == x[..8] && (x + y)[8..] == x[8..] + y;
      if ValidGroup(x[..8]) {
        FeedTwo(x[8..], y);
        OntoTwo(GroupBytes(x[..8]), Feed(x[8..]).bytes, Feed(Feed(x[8..]).rest + y));
      }
    }
  }

  lemma {:induction false} StripTwo(x: string, y: string)
    ensures Strip(x + y) == Strip(x) + Strip(y)
  {
    if x == [] {
      assert x + y == y;
    } else {
      assert (x + y)[1..] == x[1..] + y;
      StripTwo(x[1..], y);
    }
  }

  lemma {:induction false} StripPlain(x: string)
    requires '\n' !in x
    ensures Strip(x) == x
  {
    if x != [] { StripPlain(x[1..]); }
  }

  /** A valid group holds no newline. */
  lemma ValidGroupIsPlain(s: string)
    requires |s| == 8 && ValidGroup(s)
    ensures '\n' !in s
  {
    hide DigitOf;
    PadIsNoDigit();
    var m := LeadingDigits(s);
    forall j | 0 <= j < 8
      ensures s[j] != '\n'
    {
      if j < m { assert s[..m][j] == s[j]; }
    }
  }

  lemma FeedGroup(input: string, pos: nat)
    requires pos + 8 <= |input| && ValidGroup(input[pos..][..8])
    ensures Feed(input[pos..]) == Onto(GroupBytes(input[pos..][..8]), Feed(input[pos + 8..]))
    ensures Feed(Strip(input[pos..])) == Onto(GroupBytes(input[pos..][..8]), Feed(Strip(input[pos + 8..])))
  {
    hide ValidGroup, GroupBytes;
    var t := input[pos..];
    assert t[8..] == input[pos + 8..] && t == t[..8] + t[8..];
    ValidGroupIsPlain(t[..8]);
    StripPlain(t[..8]);
    StripTwo(t[..8], t[8..]);
    var u := Strip(t);
    assert u[..8] == t[..8] && u[8..] == Strip(t[8..]);
  }

  ghost predicate GroupAt(t: string) { |t| >= 8 && ValidGroup(t[..8]) }

  ghost function BytesAt(t: string): seq<Byte> { if |t| >= 8 then GroupBytes(t[..8]) else [] }

  lemma OntoTwo(x: seq<Byte>, y: seq<Byte>, f: Feeding)
    ensures Onto(x, Onto(y, f)) == Onto(x + y, f)
  {
  }

  /**
   The inner loop of the decoder: group after group until one fails.  `save` is the room before
   the failed attempt and `kept` what was written before it.
   */
  method DecodeGroups(input: string, start: nat, was: seq<Byte>, room: nat)
    returns (pos: nat, out: seq<Byte>, outleft: nat, save: nat, ghost full: seq<Byte>, ghost kept: seq<Byte>)
    requires start <= |input|
    ensures start <= pos <= |input| && !GroupAt(input[pos..])
    ensures Feed(input[start..]) == Onto(full, Feed(input[pos..]))
    ensures Feed(Strip(input[start..])) == Onto(full, Feed(Strip(input[pos..])))
    ensures Wrote(was, room, kept, save, full) && Wrote(kept, save, out, outleft, BytesAt(input[pos..]))
  {
    hide ValidGroup, GroupBytes, Strip, Feed, Wrote;
    pos, out, outleft, full := start, was, room, [];
    WroteNothing(was, room);
    while true
      invariant start <= pos <= |input| && Wrote(was, room, out, outleft, full)
      invariant Feed(input[start..]) == Onto(full, Feed(input[pos..]))
      invariant Feed(Strip(input[start..])) == Onto(full, Feed(Strip(input[pos..])))
      decreases |input| - pos
    {
      save, kept := outleft, out;
      var ok;
      ok, out, outleft := Decode8(input[pos..], out, outleft);
      if !ok { return; }
      FeedGroup(input, pos);
      ghost var g := GroupBytes(input[pos..][..8]);
      WroteMore(was, room, kept, save, full, out, outleft, g);
      OntoTwo(full, g, Feed(input[pos + 8..]));
      OntoTwo(full, g, Feed(Strip(input[pos + 8..])));
      full := full + g;
      pos := pos + 8;
    }
  }

  lemma WroteMore(was: seq<Byte>, room: nat, kept: seq<Byte>, save: nat, full: seq<Byte>, out: seq<Byte>, outleft: nat, g: seq<Byte>)
    requires Wrote(was, room, kept, save, full) && Wrote(kept, save, out, outleft, g)
    ensures Wrote(was, room, out, outleft, full + g)
  {
    TakeTwo(full, g, room);
  }

  /** Undo a failed attempt. */
  method Restore(out: seq<Byte>, outleft: nat, save: nat, ghost kept: seq<Byte>, ghost bytes: seq<Byte>) returns (out': seq<Byte>, outleft': nat)
    requires Wrote(kept, save, out, outleft, bytes)
    ensures out' == kept && outleft' == save
  {
    return out[..|out| - (save - outleft)], save;
  }

  /** `base32_decode_ctx` without a context: the text is one unit and newlines are garbage. */
  method DecodeUnit(input: string, room: nat) returns (ok: bool, out: seq<Byte>)
    ensures ok == Decoded(input).ok && out == Take(Decoded(input).bytes, room)
  {
    hide ValidGroup, GroupBytes;
    ghost var full, kept;
    var pos, outleft, save;
    pos, out, outleft, save, full, kept := DecodeGroups(input, 0, [], room);
    assert input[0..] == input;
    FeedDecodes(input);
    WroteMore([], room, kept, save, full, out, outleft, BytesAt(input[pos..]));
    if pos < |input| {
      // The attempt is repeated and fails again, so the loop ends here.
      out, outleft := Restore(out, outleft, save, kept, BytesAt(input[pos..]));
      var again;
      again, out, outleft := Decode8(input[pos..], out, outleft);
    }
    ok := pos == |input|;
  }

  /** `base32_decode_context`: up to seven characters that wait for the rest of their group. */
  class Context {
    var i: nat
    const buf: array<char>

    ghost predicate Valid()
      reads this, buf
    {
      buf.Length == 8 && i <= 8
    }

    /** The characters that wait; a full buffer has been decoded and counts as empty. */
    ghost function Pending(): (p: string)
      requires Valid()
      reads this, buf
      ensures |p| < 8
    {
      if i == 8 then [] else buf[..i]
    }

    constructor ()
      ensures Valid() && Pending() == [] && fresh(buf)
    {
      i := 0;
      buf := new char[8](_ => '=');
    }

    /** `get_8`: the next eight characters that are not newlines, or as many as there are. */
    method Get8(input: string, start: nat) returns (pos: nat, chars: string)
      requires Valid() && start <= |input|
      modifies this`i, buf
      ensures Valid() && start <= pos <= |input| && (start < |input| ==> start < pos)
      ensures var all := old(Pending()) + Strip(input[start..]);
              if |all| >= 8 then chars == all[..8] && Pending() == [] && Strip(input[pos..]) == all[8..]
              else chars == all && Pending() == all && pos == |input|
    {
      hide Strip;
      ghost var all := Pending() + Strip(input[start..]);
      StripNothing();
      if i == 8 { i := 0; }
      if i == 0 && 8 <= |input| - start && '\n' !in input[start..start + 8] {
        SkipGroup(input, start);
        assert all == Strip(input[start..]);
        return start + 8, input[start..start + 8];
      }
      assert input[|input|..] == [];
      pos := Fill(input, start, all);
      chars := buf[..i];
    }

    /** Copy characters other than newlines until the buffer is full or the input used up. */
    method Fill(input: string, start: nat, ghost all: string) returns (pos: nat)
      requires Valid() && i < 8 && start <= |input| && all == buf[..i] + Strip(input[start..])
      modifies this`i, buf
      ensures Valid() && start <= pos <= |input| && (start < |input| ==> start < pos)
      ensures all == buf[..i] + Strip(input[pos..]) && (i < 8 ==> pos == |input|)
    {
      hide Strip;
      pos := start;
      while pos < |input|
        invariant Valid() && start <= pos <= |input| && i < 8
        invariant all == buf[..i] + Strip(input[pos..])
      {
        var c := input[pos];
        StripOne(input, pos);
        pos := pos + 1;
        if c != '\n' {
          ghost var held := buf[..i];
          buf[i] := c;
          i := i + 1;
          assert buf[..i] == held + [c];
          if i == 8 { break; }
        }
      }
    }

    /** The second half of the decoder's loop: gather a group and decode it, or stop for lack of one. */
    method NextGroup(input: string, start: nat, flush: bool, was: seq<Byte>, room: nat)
      returns (pos: nat, last: bool, ok: bool, out: seq<Byte>, outleft: nat)
      requires Valid() && start <= |input|
      modifies this`i, buf
      ensures Valid() && start <= pos <= |input| && (start < |input| ==> start < pos)
      ensures var text := old(Pending()) + Strip(input[start..]);
              if |text| >= 8 then
                && !last && (ok <==> ValidGroup(text[..8])) && Wrote(was, room, out, outleft, BytesAt(text[..8]))
                && Pending() == [] && Strip(input[pos..]) == text[8..]
              else
                && last && (ok <==> text == [] || !flush) && out == was && outleft == room
                && Pending() == text
    {
      hide Strip, ValidGroup, GroupBytes, Wrote;
      out, outleft := was, room;
      var chars;
      pos, chars := Get8(input, start);
      if chars == [] || (|chars| < 8 && !flush) {
        return pos, true, true, out, outleft;
      }
      ok, out, outleft := Decode8(chars, out, outleft);
      WroteNone(was, room, out, outleft);
      last := |chars| < 8;
      assert |chars| >= 8 ==> chars == chars[..8];
    }

    /** `base32_decode_ctx` with a context; an empty input flushes what is waiting. */
    method Decode(input: string, room: nat) returns (ok: bool, out: seq<Byte>)
      requires Valid()
      modifies this`i, buf
      ensures Valid()
      ensures input == [] ==> (ok <==> old(Pending()) == []) && out == []
      ensures input != [] ==>
        var f := Feed(old(Pending()) + Strip(input));
        ok == f.ok && out == Take(f.bytes, room) && (ok ==> Pending() == f.rest)
    {
      hide Strip, Feed, ValidGroup, BytesAt, Wrote, Onto, Progress, GroupAt, Take;
      var ctxI, flush, pos, outleft := i, |input| == 0, 0, room;
      ghost var whole, full := Pending() + Strip(input), [];
      out := [];
      WroteNothing([], room);
      ProgressStart(Pending(), input);
      while true
        invariant Valid() && 0 <= pos <= |input| && (flush <==> input == [])
        invariant Wrote([], room, out, outleft, full)
        invariant Progress(whole, full, Pending(), input[pos..])
        invariant ctxI == 0 ==> Pending() == [] || flush
        invariant flush ==> full == [] && Pending() == old(Pending())
        decreases |input| - pos
      {
        var save := outleft;
        ghost var kept, tried: seq<Byte> := out, [];
        WroteNothing(out, outleft);
        if ctxI == 0 && !flush {
          ghost var more, was, had, from := [], out, outleft, pos;
          pos, out, outleft, save, more, kept := DecodeGroups(input, pos, out, outleft);
          tried := BytesAt(input[pos..]);
          WroteMore([], room, was, had, full, kept, save, more);
          ProgressGroups(whole, full, input[from..], more, input[pos..]);
          full := full + more;
        }
        if pos == |input| && !flush {
          assert input[pos..] == [];
          NothingTried([], kept, save, out, outleft, tried);
          break;
        }
        if pos < |input| && input[pos] == '\n' {
          NothingTried(input[pos..], kept, save, out, outleft, tried);
          ProgressNewline(whole, full, Pending(), input, pos);
          pos := pos + 1;
          continue;
        }
        out, outleft := Restore(out, outleft, save, kept, tried);
        ghost var pending, from := Pending(), pos;
        var last;
        pos, last, ok, out, outleft := NextGroup(input, pos, flush, out, outleft);
        if last {
          ProgressEnds(whole, full, pending, input[from..]);
          WroteAll(room, out, outleft, full);
          ShortFlush(input, from);
          return;
        }
        ghost var g := BytesAt((pending + Strip(input[from..]))[..8]);
        WroteMore([], room, kept, save, full, out, outleft, g);
        WroteAll(room, out, outleft, full + g);
        ProgressGroup(whole, full, pending, input[from..], input[pos..]);
        if !ok { return; }
        full := full + g;
      }
      ProgressEnds(whole, full, Pending(), []);
      WroteAll(room, out, outleft, full);
      return true, out;
    }
  }

  lemma ShortFlush(input: string, from: nat)
    requires from <= |input|
    ensures input == [] ==> Strip(input[from..]) == [] && Take<Byte>([], 0) == []
  {
  }

  /** Decoding `whole` has given `full`, and goes on with `pending` and the newline-wrapped `text`. */
  ghost predicate Progress(whole: string, full: seq<Byte>, pending: string, text: string) {
    Feed(whole) == Onto(full, Feed(pending + Strip(text)))
  }

  lemma ProgressStart(pending: string, input: string)
    ensures Progress(pending + Strip(input), [], pending, input[0..])
  {
    assert input[0..] == input;
  }

  lemma ProgressGroups(whole: string, full: seq<Byte>, text: string, more: seq<Byte>, text': string)
    requires Progress(whole, full, [], text) && Feed(Strip(text)) == Onto(more, Feed(Strip(text')))
    ensures Progress(whole, full + more, [], text')
  {
    assert [] + Strip(text) == Strip(text) && [] + Strip(text') == Strip(text');
    OntoTwo(full, more, Feed(Strip(text')));
  }

  lemma ProgressNewline(whole: string, full: seq<Byte>, pending: string, input: string, pos: nat)
    requires pos < |input| && input[pos] == '\n' && Progress(whole, full, pending, input[pos..])
    ensures Progress(whole, full, pending, input[pos + 1..])
  {
    hide Feed, Strip;
    StripOne(input, pos);
  }

  lemma ProgressEnds(whole: string, full: seq<Byte>, pending: string, text: string)
    requires Progress(whole, full, pending, text)
    ensures |pending + Strip(text)| < 8 ==> Feed(whole) == Feeding(true, full, pending + Strip(text))
    ensures text == [] && |pending| < 8 ==> Feed(whole) == Feeding(true, full, pending)
  {
    var t := pending + Strip(text);
    if |t| < 8 { FeedShort(t); }
    assert text == [] ==> t == pending;
  }

  lemma ProgressGroup(whole: string, full: seq<Byte>, pending: string, text: string, text': string)
    requires Progress(whole, full, pending, text)
    ensures var t := pending + Strip(text);
            |t| >= 8 ==>
              && (!ValidGroup(t[..8]) ==> Feed(whole) == Feeding(false, full + BytesAt(t[..8]), []))
              && (ValidGroup(t[..8]) && Strip(text') == t[8..] ==> Progress(whole, full + BytesAt(t[..8]), [], text'))
  {
    hide Feed, Strip, ValidGroup, BytesAt;
    var t := pending + Strip(text);
    FeedLong(t);
    assert [] + Strip(text') == Strip(text');
    if |t| >= 8 { OntoTwo(full, BytesAt(t[..8]), Feed(Strip(text'))); }
  }

  lemma FeedShort(t: string)
    requires |t| < 8
    ensures Feed(t) == Feeding(true, [], t)
  {
  }

  lemma FeedLong(t: string)
    ensures |t| >= 8 ==> Feed(t) == if ValidGroup(t[..8]) then Onto(BytesAt(t[..8]), Feed(t[8..])) else Feeding(false, BytesAt(t[..8]), [])
  {
    assert |t| >= 8 ==> t[..8][..8] == t[..8];
  }

  lemma WroteNone(was: seq<Byte>, room: nat, out: seq<Byte>, outleft: nat)
    ensures Wrote(was, room, out, outleft, []) ==> out == was && outleft == room
  {
  }

  lemma WroteAll(room: nat, out: seq<Byte>, outleft: nat, bytes: seq<Byte>)
    requires Wrote([], room, out, outleft, bytes)
    ensures out == Take(bytes, room)
  {
  }

  /** An attempt that starts at a newline, or at the end, writes nothing. */
  lemma NothingTried(t: string, kept: seq<Byte>, save: nat, out: seq<Byte>, outleft: nat, tried: seq<Byte>)
    requires t == [] || t[0] == '\n'
    requires Wrote(kept, save, out, outleft, tried) && (tried == [] || tried == BytesAt(t))
    ensures out == kept && outleft == save
  {
    PadIsNoDigit();
    if |t| >= 8 { LeadingIs(t[..8], 0); }
  }

  lemma StripNothing()
    ensures Strip([]) == []
  {
  }

  lemma StripOne(input: string, pos: nat)
    requires pos < |input|
    ensures Strip(input[pos..]) == if input[pos] == '\n' then Strip(input[pos + 1..]) else [input[pos]] + Strip(input[pos + 1..])
  {
    assert input[pos..][1..] == input[pos + 1..];
    assert [] + Strip(input[pos + 1..]) == Strip(input[pos + 1..]);
  }

  lemma SkipGroup(input: string, start: nat)
    requires start + 8 <= |input| && '\n' !in input[start..start + 8]
    ensures Strip(input[start..]) == input[start..start + 8] + Strip(input[start + 8..])
  {
    StripPlain(input[start..start + 8]);
    StripTwo(input[start..start + 8], input[start + 8..]);
    assert input[start..] == input[start..start + 8] + input[start + 8..];
  }

  // ----- any way to cut a text

  function Joined(chunks: seq<string>): string {
    if chunks == [] then [] else Joined(chunks[..|chunks| - 1]) + chunks[|chunks| - 1]
  }

  /** Room enough for the bytes of a chunk and of what may be waiting before it. */
  predicate RoomFor(chunk: string, room: nat) { room >= (|chunk| + 7) / 8 * 5 }

  lemma {:induction false} FeedBound(t: string)
    ensures |Feed(t).bytes| <= |t| / 8 * 5
  {
    if |t| >= 8 && ValidGroup(t[..8]) { FeedBound(t[8..]); }
  }

  lemma {:induction false} StripBound(t: string)
    ensures |Strip(t)| <= |t|
  {
    if t != [] { StripBound(t[1..]); }
  }

  lemma RoomSuffices(pending: string, chunk: string, room: nat)
    requires |pending| < 8 && RoomFor(chunk, room)
    ensures var f := Feed(pending + Strip(chunk)); Take(f.bytes, room) == f.bytes
  {
    hide Feed;
    StripBound(chunk);
    FeedBound(pending + Strip(chunk));
    EighthsGrow(|pending + Strip(chunk)|, |chunk| + 7);
  }

  lemma EighthsGrow(x: nat, y: nat)
    requires x <= y
    ensures x / 8 * 5 <= y / 8 * 5
  {
  }

  lemma {:induction false} JoinedTwo(chunks: seq<string>, k: nat)
    requires k <= |chunks|
    ensures exists tail: string :: Joined(chunks) == Joined(chunks[..k]) + tail
  {
    if k == |chunks| {
      assert chunks[..k] == chunks && Joined(chunks) == Joined(chunks) + [];
    } else {
      var init := chunks[..|chunks| - 1];
      JoinedTwo(init, k);
      assert init[..k] == chunks[..k];
      var tail: string :| Joined(init) == Joined(chunks[..k]) + tail;
      assert Joined(chunks) == Joined(chunks[..k]) + (tail + chunks[|chunks| - 1]);
    }
  }

  /** Once a part of the text cannot be decoded, neither can the whole. */
  lemma FaultStays(chunks: seq<string>, k: nat)
    requires k <= |chunks| && !Feed(Strip(Joined(chunks[..k]))).ok
    ensures Feed(Strip(Joined(chunks))) == Feed(Strip(Joined(chunks[..k])))
  {
    JoinedTwo(chunks, k);
    var tail: string :| Joined(chunks) == Joined(chunks[..k]) + tail;
    StripTwo(Joined(chunks[..k]), tail);
    FeedTwo(Strip(Joined(chunks[..k])), Strip(tail));
  }

  /**
   Feeding a text to a fresh context in non-empty chunks and flushing it at the end succeeds
   exactly when the text without its newlines decodes in one go, with the same bytes; for a
   text that does not decode, with the same bytes before the fault.
   */
  method DecodeChunks(chunks: seq<string>, room: seq<nat>) returns (ok: bool, out: seq<Byte>)
    requires |room| == |chunks| && forall k :: 0 <= k < |chunks| ==> chunks[k] != [] && RoomFor(chunks[k], room[k])
    ensures Decoding(ok, out) == Decoded(Strip(Joined(chunks)))
    ensures forall b: seq<Byte> :: Strip(Joined(chunks)) == Encoded(b) ==> ok && out == b
  {
    hide Strip, Feed;
    var ctx := new Context();
    out := [];
    StripNothing();
    FeedShort([]);
    FeedDecodes(Strip(Joined(chunks)));
    forall b: seq<Byte>
      ensures Decoded(Encoded(b)) == Decoding(true, b)
    {
      RoundTrip(b);
    }
    for k := 0 to |chunks|
      invariant ctx.Valid() && fresh(ctx) && fresh(ctx.buf)
      invariant Feed(Strip(Joined(chunks[..k]))) == Feeding(true, out, ctx.Pending())
    {
      NextChunk(chunks, k);
      RoomSuffices(ctx.Pending(), chunks[k], room[k]);
      var bytes;
      ok, bytes := ctx.Decode(chunks[k], room[k]);
      out := out + bytes;
      if !ok {
        FaultStays(chunks, k + 1);
        return;
      }
    }
    assert chunks[..|chunks|] == chunks;
    var none;
    ok, none := ctx.Decode([], 0);
  }

  lemma NextChunk(chunks: seq<string>, k: nat)
    requires k < |chunks| && Feed(Strip(Joined(chunks[..k]))).ok
    ensures var f := Feed(Strip(Joined(chunks[..k])));
            Feed(Strip(Joined(chunks[..k + 1]))) == Onto(f.bytes, Feed(f.rest + Strip(chunks[k])))
  {
    assert chunks[..k + 1][..k] == chunks[..k];
    StripTwo(Joined(chunks[..k]), chunks[k]);
    FeedTwo(Strip(Joined(chunks[..k])), Strip(chunks[k]));
  }
}
