/**
 Base58 as crypto/encoding/base58.c computes it: encoding multiplies a digit buffer by 256
 and adds one byte at a time, decoding multiplies 32-bit limbs by 58 and adds one digit at
 a time.  Both are proved against the number that the bytes or digits spell.
 */
module Base58 {
  import opened Numbers

  const LIMB: nat := 0x1_0000_0000

  /** `b58digits_ordered`, cut where the character codes jump. */
  function CharOf(d: nat): char
    requires d < 58
  {
    if d < 9 then "123456789"[d]
    else if d < 17 then "ABCDEFGH"[d - 9]
    else if d < 22 then "JKLMN"[d - 17]
    else if d < 33 then "PQRSTUVWXYZ"[d - 22]
    else if d < 44 then "abcdefghijk"[d - 33]
    else "mnopqrstuvwxyz"[d - 44]
  }

  /** `b58digits_map`, as ranges of the character codes; -1 for a character outside the alphabet. */
  function DigitOf(c: char): (d: int)
    ensures -1 <= d < 58
  {
    if '1' <= c <= '9' then c as int - '1' as int
    else if 'A' <= c <= 'H' then c as int - 'A' as int + 9
    else if 'J' <= c <= 'N' then c as int - 'J' as int + 17
    else if 'P' <= c <= 'Z' then c as int - 'P' as int + 22
    else if 'a' <= c <= 'k' then c as int - 'a' as int + 33
    else if 'm' <= c <= 'z' then c as int - 'm' as int + 44
    else -1
  }

  lemma AlphabetInverts(d: nat)
    requires d < 58
    ensures DigitOf(CharOf(d)) == d
  {
    hide CharOf, DigitOf;
    if d < 22 { FirstCharsInvert(d); } else if d < 44 { MiddleCharsInvert(d); } else { LastCharsInvert(d); }
  }

  /** The alphabet: the letters and digits without 0, O, I and l. */
  predicate IsBase58(c: char) {
    ('0' <= c <= '9' || 'A' <= c <= 'Z' || 'a' <= c <= 'z') && c != '0' && c != 'O' && c != 'I' && c != 'l'
  }

  /** A character has a digit exactly if it is in the alphabet, and the digits count the characters in the order of their codes. */
  lemma AlphabetIs(c: char, c': char)
    ensures DigitOf(c) >= 0 <==> IsBase58(c)
    ensures IsBase58(c) && IsBase58(c') ==> (DigitOf(c) < DigitOf(c') <==> c < c')
  {
  }

  lemma FirstCharsInvert(d: nat)
    requires d < 22
    ensures DigitOf(CharOf(d)) == d
  {
  }

  lemma MiddleCharsInvert(d: nat)
    requires 22 <= d < 44
    ensures DigitOf(CharOf(d)) == d
  {
  }

  lemma LastCharsInvert(d: nat)
    requires 44 <= d < 58
    ensures DigitOf(CharOf(d)) == d
  {
  }

  // ----- the output buffer of the encoder is long enough

  /** 256^8 < 58^11, so eleven digits hold eight bytes. */
  lemma {:induction false} DigitsSuffice(n: nat)
    ensures Pow(256, n) < Pow(58, 11 * n / 8 + 1)
  {
    if n < 8 {
      SmallDigitsSuffice(n);
    } else {
      DigitsSuffice(n - 8);
      PowAdd(256, 8, n - 8);
      PowAdd(58, 11, 11 * (n - 8) / 8 + 1);
      assert 11 * n / 8 == 11 + 11 * (n - 8) / 8;
      EightBytes();
      ProductLess(Pow(256, 8), Pow(58, 11), Pow(256, n - 8), Pow(58, 11 * (n - 8) / 8 + 1));
    }
  }

  lemma ProductLess(a: nat, b: nat, x: nat, y: nat)
    requires a <= b && x < y && a > 0
    ensures a * x < b * y
  {
    MulMonotone(a, b, y);
    assert a * x + a == a * (x + 1);
    MulMonotone(x + 1, y, a);
  }

  lemma EightBytes()
    ensures Pow(256, 8) < Pow(58, 11)
  {
    assert Pow(256, 4) == 0x1_0000_0000 && Pow(58, 5) == 656356768;
    PowAdd(256, 4, 4);
    PowAdd(58, 5, 5);
    PowAdd(58, 10, 1);
    assert Pow(58, 1) == 58;
  }

  lemma SmallDigitsSuffice(n: nat)
    requires n < 8
    ensures Pow(256, n) < Pow(58, 11 * n / 8 + 1)
  {
    assert Pow(256, 4) == 0x1_0000_0000 && Pow(58, 5) == 656356768 && Pow(58, 6) == 38068692544;
    PowAdd(256, 4, 1); PowAdd(256, 4, 2); PowAdd(256, 4, 3);
    PowAdd(58, 5, 2); PowAdd(58, 5, 4); PowAdd(58, 5, 5);
    assert Pow(256, 1) == 256 && Pow(256, 2) == 0x1_0000 && Pow(256, 3) == 0x100_0000;
    assert Pow(58, 1) == 58 && Pow(58, 2) == 3364 && Pow(58, 3) == 195112 && Pow(58, 4) == 11316496;
  }

  /** The `size` that the encoder computes for `n` bytes after the leading zeros. */
  function BufferSize(n: nat): nat { n * 138 / 100 + 1 }

  lemma BufferSuffices(n: nat)
    ensures Pow(256, n) < Pow(58, BufferSize(n))
  {
    DigitsSuffice(n);
    assert 11 * n / 8 <= n * 138 / 100;
    PowMonotone(58, 11 * n / 8 + 1, BufferSize(n));
  }

  // ----- encoding

  /** The value of digits whose first `k` are zero is that of the rest. */
  lemma LeadingZeros(b: nat, d: seq<nat>, k: nat)
    requires k <= |d| && forall i :: 0 <= i < k ==> d[i] == 0
    ensures Val(b, d) == Val(b, d[k..])
  {
    assert d == d[..k] + d[k..];
    ValConcat(b, d[..k], d[k..]);
    ValZeros(b, d[..k]);
  }

  /**
   Between two steps of a multiplication by `m` in place, from the last digit forward: digits
   up to `j` are still the old ones, those after `j` are new, and `carry` is due at `j`.
   */
  ghost predicate MidMultiply(b: nat, was: seq<nat>, now: seq<nat>, m: nat, add: nat, j: int, carry: nat)
    requires -1 <= j < |was| && |now| == |was|
  {
    && now[..j + 1] == was[..j + 1]
    && Val(b, was) * m + add == (Val(b, was[..j + 1]) * m + carry) * Pow(b, |was| - 1 - j) + Val(b, now[j + 1..])
  }

  lemma MultiplyStart(b: nat, was: seq<nat>, m: nat, add: nat)
    ensures MidMultiply(b, was, was, m, add, |was| - 1, add)
  {
    assert was[..|was|] == was && was[|was|..] == [];
  }

  lemma MultiplyStep(b: nat, was: seq<nat>, now: seq<nat>, m: nat, add: nat, j: nat, carry: nat, q: nat, r: nat)
    requires j < |was| && |now| == |was| && MidMultiply(b, was, now, m, add, j, carry)
    requires carry + m * now[j] == q * b + r
    ensures MidMultiply(b, was, now[j := r], m, add, j - 1, q)
  {
    var next := now[j := r];
    var p, k := Pow(b, |was| - 1 - j), Val(b, was[..j]);
    assert was[..j + 1][..j] == was[..j] && was[..j + 1][j] == now[j] by { assert now[..j + 1][j] == was[..j + 1][j]; }
    ValFirst(b, next[j..]);
    assert next[j..][1..] == now[j + 1..];
    StepAlgebra(k, b, now[j], m, carry, p, q, r);
    assert next[..j] == now[..j + 1][..j] == was[..j];
  }

  lemma StepAlgebra(k: nat, b: nat, digit: nat, m: nat, carry: nat, p: nat, q: nat, r: nat)
    requires carry + m * digit == q * b + r
    ensures ((k * b + digit) * m + carry) * p == (k * m + q) * (b * p) + r * p
  {
    calc {
      ((k * b + digit) * m + carry) * p;
      { assert (k * b + digit) * m == (k * m) * b + m * digit by { DistributeRight(k * b, digit, m); MulAssoc(k, b, m); MulAssoc(k, m, b); } }
      ((k * m) * b + (q * b + r)) * p;
      { DistributeRight(k * m, q, b); }
      ((k * m + q) * b + r) * p;
      { DistributeRight((k * m + q) * b, r, p); MulAssoc(k * m + q, b, p); }
      (k * m + q) * (b * p) + r * p;
    }
  }

  /** The inner loop of the encoder: `buf` becomes 256 times its value plus `byte`. */
  method PushByte(buf: array<nat>, byte: Byte, high: int) returns (j: int)
    requires -1 <= high < buf.Length && Digits(58, buf[..])
    requires forall k :: 0 <= k <= high ==> buf[k] == 0
    requires Val(58, buf[..]) * 256 + byte < Pow(58, buf.Length)
    modifies buf
    ensures -1 <= j < buf.Length && Digits(58, buf[..])
    ensures forall k :: 0 <= k <= j ==> buf[k] == 0
    ensures Val(58, buf[..]) == old(Val(58, buf[..])) * 256 + byte
  {
    hide MidMultiply, Val;
    ghost var was := buf[..];
    var carry: nat := byte;
    j := buf.Length - 1;
    MultiplyStart(58, was, 256, byte);
    while j > high || carry != 0
      invariant -1 <= j < buf.Length && 0 <= carry < 256
      invariant Digits(58, buf[..]) && MidMultiply(58, was, buf[..], 256, byte, j, carry)
      decreases j + 1
    {
      if j == -1 { CarryFits(was, buf[..], byte, carry); }
      var total: nat := carry + 256 * buf[j];
      MultiplyStep(58, was, buf[..], 256, byte, j, carry, total / 58, total % 58);
      carry := total;
      var digit: nat := carry % 58;
      ghost var before := buf[..];
      buf[j] := digit;
      assert buf[..] == before[j := digit];
      carry := carry / 58;
      j := j - 1;
    }
    MultiplyEnd(58, was, buf[..], 256, byte, j);
  }

  /** With no carry due and only zeros left in front, the multiplication is complete. */
  lemma MultiplyEnd(b: nat, was: seq<nat>, now: seq<nat>, m: nat, add: nat, j: int)
    requires -1 <= j < |was| && |now| == |was| && MidMultiply(b, was, now, m, add, j, 0)
    requires forall k :: 0 <= k <= j ==> was[k] == 0
    ensures Val(b, now) == Val(b, was) * m + add
    ensures forall k :: 0 <= k <= j ==> now[k] == 0
  {
    forall k | 0 <= k <= j
      ensures now[k] == 0
    {
      assert now[..j + 1][k] == was[..j + 1][k];
    }
    ValZeros(b, was[..j + 1]);
    LeadingZeros(b, now, j + 1);
    NothingTimes(m, Pow(b, |was| - 1 - j));
  }

  lemma NothingTimes(m: nat, p: nat)
    ensures (0 * m + 0) * p == 0
  {
  }

  /** The carry loop cannot run past `buf[0]`: a carry there would need one more digit. */
  lemma CarryFits(was: seq<nat>, now: seq<nat>, byte: Byte, carry: nat)
    requires |now| == |was| && MidMultiply(58, was, now, 256, byte, -1, carry)
    requires Val(58, was) * 256 + byte < Pow(58, |was|)
    ensures carry == 0
  {
    assert was[..0] == [] && Val(58, []) == 0;
    if carry > 0 { MulMonotone(1, carry, Pow(58, |was|)); }
  }

  /** All the digits of the encoder, for any input, with the number of leading zero bytes. */
  method EncodeDigits(bin: seq<Byte>) returns (zcount: nat, buf: array<nat>)
    ensures zcount <= |bin| && (forall k :: 0 <= k < zcount ==> bin[k] == 0) && (zcount < |bin| ==> bin[zcount] != 0)
    ensures fresh(buf) && buf.Length == BufferSize(|bin| - zcount)
    ensures Digits(58, buf[..]) && Val(58, buf[..]) == Val(256, bin)
  {
    hide Val, Pow;
    zcount := LeadingZeroBytes(bin);
    var size := BufferSize(|bin| - zcount);
    buf := new nat[size](_ => 0);
    ValZeros(58, buf[..]);
    ValZeros(256, bin[..zcount]);
    var high := size - 1;
    for i := zcount to |bin|
      invariant -1 <= high < size && Digits(58, buf[..])
      invariant forall k :: 0 <= k <= high ==> buf[k] == 0
      invariant Val(58, buf[..]) == Val(256, bin[..i])
    {
      OneMoreByte(bin, i);
      PrefixFits(bin, zcount, i + 1);
      high := PushByte(buf, bin[i], high);
    }
    assert bin[..|bin|] == bin;
  }

  method LeadingZeroBytes(bin: seq<Byte>) returns (zcount: nat)
    ensures zcount <= |bin| && (forall k :: 0 <= k < zcount ==> bin[k] == 0) && (zcount < |bin| ==> bin[zcount] != 0)
  {
    zcount := 0;
    while zcount < |bin| && bin[zcount] == 0
      invariant zcount <= |bin| && forall k :: 0 <= k < zcount ==> bin[k] == 0
    {
      zcount := zcount + 1;
    }
  }

  lemma OneMoreByte(bin: seq<Byte>, i: nat)
    requires i < |bin|
    ensures Val(256, bin[..i + 1]) == Val(256, bin[..i]) * 256 + bin[i]
  {
    assert bin[..i + 1][..i] == bin[..i];
  }

  lemma PrefixFits(bin: seq<Byte>, zcount: nat, i: nat)
    requires zcount <= i <= |bin| && forall k :: 0 <= k < zcount ==> bin[k] == 0
    ensures Val(256, bin[..i]) < Pow(58, BufferSize(|bin| - zcount))
  {
    LeadingZeros(256, bin[..i], zcount);
    ValBound(256, bin[..i][zcount..]);
    PowMonotone(256, i - zcount, |bin| - zcount);
    BufferSuffices(|bin| - zcount);
  }

  /** The text of an encoding has the digits of the number that the bytes spell. */
  ghost predicate Spells(text: string, v: nat) {
    && ValidText(text)
    && Val(58, DigitsOf(text)) == v
  }

  predicate ValidText(text: string) {
    forall k :: 0 <= k < |text| ==> DigitOf(text[k]) >= 0
  }

  function DigitsOf(text: string): (d: seq<nat>)
    requires ValidText(text)
    ensures |d| == |text| && forall k :: 0 <= k < |d| ==> d[k] == DigitOf(text[k])
  {
    seq(|text|, k requires 0 <= k < |text| => DigitOf(text[k]))
  }

  /** What an encoding is to be: a leading '1' for every leading zero byte, then the shortest spelling. */
  ghost predicate Encodes(text: string, bin: seq<Byte>) {
    Spells(text, Val(256, bin)) && LeadingCount(text, '1') == LeadingCount(bin, 0)
  }

  function LeadingCount<T(==)>(s: seq<T>, x: T): (n: nat)
    ensures n <= |s| && (forall k :: 0 <= k < n ==> s[k] == x) && (n < |s| ==> s[n] != x)
  {
    if s != [] && s[0] == x then 1 + LeadingCount(s[1..], x) else 0
  }

  lemma {:induction false} CountIs<T>(s: seq<T>, x: T, i: nat)
    requires i <= |s| && (forall k :: 0 <= k < i ==> s[k] == x) && (i < |s| ==> s[i] != x)
    ensures LeadingCount(s, x) == i
  {
  }

  /** Every byte string has one encoding. */
  lemma EncodingIsUnique(t: string, t': string, bin: seq<Byte>)
    requires Encodes(t, bin) && Encodes(t', bin)
    ensures t == t'
  {
    hide Val, DigitOf, LeadingCount;
    var n := LeadingCount(bin, 0);
    if |t| <= |t'| { LongerIsSame(t, t', n); } else { LongerIsSame(t', t, n); }
  }

  lemma LongerIsSame(t: string, t': string, n: nat)
    requires n <= |t| <= |t'| && ValidText(t) && ValidText(t')
    requires LeadingCount(t, '1') == n == LeadingCount(t', '1')
    requires Val(58, DigitsOf(t)) == Val(58, DigitsOf(t'))
    ensures t == t'
  {
    hide Val, DigitOf, LeadingCount;
    var m := |t'| - |t|;
    var d := Zeros(m) + DigitsOf(t);
    LeadingZeros(58, d, m);
    assert d[m..] == DigitsOf(t);
    ValInjective(58, d, DigitsOf(t'));
    OnlyOneIsZero();
    if m > 0 {
      assert t'[n] == '1' by { ZeroAtPlace(t, d, m, n); }
      assert false;
    }
    assert d == DigitsOf(t);
    forall k | 0 <= k < |t| ensures t[k] == t'[k] { DigitsInvert(t[k], t'[k]); }
  }

  function Zeros(n: nat): (z: seq<nat>)
    ensures |z| == n && forall k :: 0 <= k < n ==> z[k] == 0
  {
    seq(n, _ => 0)
  }

  lemma OnlyOneIsZero()
    ensures DigitOf('1') == 0 && forall c :: DigitOf(c) == 0 ==> c == '1'
  {
  }

  /** Behind `m > 0` zeros the first `n` digits, those of leading ones, and one more are zero. */
  lemma ZeroAtPlace(t: string, d: seq<nat>, m: nat, n: nat)
    requires ValidText(t) && n <= |t| && (forall k :: 0 <= k < n ==> t[k] == '1')
    requires m > 0 && d == Zeros(m) + DigitsOf(t)
    ensures d[n] == 0
  {
    if n >= m { assert d[n] == DigitOf(t[n - m]); }
  }

  lemma DigitsInvert(c: char, c': char)
    requires DigitOf(c) == DigitOf(c') >= 0
    ensures c == c'
  {
  }

  /** What becomes of a call of the encoder. */
  datatype Encoding =
    | Encoded(text: string)
    | TooSmall(needed: nat)
    /** The caller's pointer to its buffer is filled with '1' characters, and then written through. */
    | PointerLost

  /**
   `libp2p_crypto_encoding_base58_encode` with an output buffer of `capacity` characters.  The
   size that it asks for is exact, and so is its text; but the '1' characters for leading zero
   bytes go over the caller's pointer instead of into the buffer.
   */
  method Encode(bin: seq<Byte>, capacity: nat) returns (r: Encoding)
    ensures exists text :: Encodes(text, bin) && r == Outcome(text, bin, capacity)
  {
    hide Val, CharsOf, LeadingCount;
    var zcount, buf := EncodeDigits(bin);
    var size := buf.Length;
    var j := 0;
    while j < size && buf[j] == 0
      invariant 0 <= j <= size && forall k :: 0 <= k < j ==> buf[k] == 0
    {
      j := j + 1;
    }
    CountIs(bin, 0, zcount);
    DigitsEncode(bin, zcount, buf[..], j);
    if capacity <= zcount + size - j {
      return TooSmall(zcount + size - j + 1);
    }
    if zcount > 0 {
      return PointerLost;
    }
    var text := WriteDigits(buf[..][j..]);
    assert Ones(0) + text == text;
    r := Encoded(text);
  }

  /** How a call ends whose input is to become `text`. */
  function Outcome(text: string, bin: seq<Byte>, capacity: nat): Encoding {
    if capacity < |text| + 1 then TooSmall(|text| + 1)
    else if bin != [] && bin[0] == 0 then PointerLost
    else Encoded(text)
  }

  function Ones(n: nat): (s: string)
    ensures |s| == n && forall k :: 0 <= k < n ==> s[k] == '1'
  {
    seq(n, _ => '1')
  }

  function CharsOf(digits: seq<nat>): (s: string)
    requires Digits(58, digits)
    ensures |s| == |digits| && forall k :: 0 <= k < |s| ==> s[k] == CharOf(digits[k])
  {
    seq(|digits|, k requires 0 <= k < |digits| => CharOf(digits[k]))
  }

  /** Ones for the leading zero bytes, and the digits without their leading zeros, are the encoding. */
  lemma DigitsEncode(bin: seq<Byte>, zcount: nat, digits: seq<nat>, j: nat)
    requires LeadingCount(bin, 0) == zcount && Digits(58, digits) && Val(58, digits) == Val(256, bin)
    requires j <= |digits| && (forall k :: 0 <= k < j ==> digits[k] == 0) && (j < |digits| ==> digits[j] != 0)
    ensures Encodes(Ones(zcount) + CharsOf(digits[j..]), bin)
  {
    hide Val, CharOf, DigitOf, LeadingCount;
    var text := Ones(zcount) + CharsOf(digits[j..]);
    OnlyOneIsZero();
    forall k | 0 <= k < |text|
      ensures DigitOf(text[k]) == if k < zcount then 0 else digits[j..][k - zcount]
    {
      if k >= zcount { AlphabetInverts(digits[j..][k - zcount]); }
    }
    assert DigitsOf(text)[zcount..] == digits[j..];
    LeadingZeros(58, digits, j);
    LeadingZeros(58, DigitsOf(text), zcount);
    CountIs(text, '1', zcount);
  }

  /** Map digits to characters, most significant first. */
  method WriteDigits(digits: seq<nat>) returns (text: string)
    requires Digits(58, digits)
    ensures text == CharsOf(digits)
  {
    hide CharOf;
    text := "";
    for j := 0 to |digits|
      invariant |text| == j && forall k :: 0 <= k < j ==> text[k] == CharOf(digits[k])
    {
      text := text + [CharOf(digits[j])];
    }
  }

  // ----- decoding

  /** The inner loop of the decoder: the limbs become 58 times their value plus `digit`, less the carry out. */
  method PushDigit(outi: array<nat>, digit: nat) returns (c: nat)
    requires Digits(LIMB, outi[..]) && digit < 58
    modifies outi
    ensures Digits(LIMB, outi[..])
    ensures c * Pow(LIMB, outi.Length) + Val(LIMB, outi[..]) == old(Val(LIMB, outi[..])) * 58 + digit
  {
    hide MidMultiply, Val;
    ghost var was := outi[..];
    c := digit;
    var j := outi.Length;
    MultiplyStart(LIMB, was, 58, digit);
    while j != 0
      invariant 0 <= j <= outi.Length && c < 58
      invariant Digits(LIMB, outi[..]) && MidMultiply(LIMB, was, outi[..], 58, digit, j - 1, c)
    {
      j := j - 1;
      var t: nat := outi[j] * 58 + c;
      MultiplyStep(LIMB, was, outi[..], 58, digit, j, c, t / LIMB, t % LIMB);
      MaskLosesNothing(t);
      c := t / LIMB % 64;      // (t & 0x3f00000000) >> 32
      var low: nat := t % LIMB;
      ghost var before := outi[..];
      outi[j] := low;
      assert outi[..] == before[j := low];
    }
    MultiplyOut(LIMB, was, outi[..], 58, digit, c);
  }

  /** Six bits hold the carry of a 32-bit limb times 58. */
  lemma MaskLosesNothing(t: nat)
    requires t < 58 * LIMB
    ensures t / LIMB < 58 && t / LIMB % 64 == t / LIMB
  {
  }

  lemma MultiplyOut(b: nat, was: seq<nat>, now: seq<nat>, m: nat, add: nat, carry: nat)
    requires |now| == |was| && MidMultiply(b, was, now, m, add, -1, carry)
    ensures carry * Pow(b, |was|) + Val(b, now) == Val(b, was) * m + add
  {
    assert was[..0] == [] && now[0..] == now;
  }

  function LimbCount(binsz: nat): nat { (binsz + 3) / 4 }

  /** `zeromask`: the part of the first limb that lies outside the output buffer. */
  predicate FilledTooFar(first: nat, binsz: nat) {
    binsz % 4 != 0 && first >= Pow(256, binsz % 4)
  }

  /** The two overflow tests of the decoder together ask whether the number fits `binsz` bytes. */
  lemma FitsIff(limbs: seq<nat>, c: nat, binsz: nat)
    requires binsz > 0 && |limbs| == LimbCount(binsz) && Digits(LIMB, limbs)
    ensures c * Pow(LIMB, |limbs|) + Val(LIMB, limbs) < Pow(256, binsz) <==> c == 0 && !FilledTooFar(limbs[0], binsz)
  {
    hide Pow, Val;
    var n := |limbs|;
    LimbsAreBytes(n);
    if c > 0 {
      PowMonotone(256, binsz, 4 * n);
      MulMonotone(1, c, Pow(LIMB, n));
    } else if binsz % 4 == 0 {
      ValBound(LIMB, limbs);
      assert binsz == 4 * n;
    } else {
      FirstLimbDecides(limbs, binsz);
    }
  }

  lemma FirstLimbDecides(limbs: seq<nat>, binsz: nat)
    requires binsz % 4 != 0 && |limbs| == LimbCount(binsz) && Digits(LIMB, limbs)
    ensures Val(LIMB, limbs) < Pow(256, binsz) <==> limbs[0] < Pow(256, binsz % 4)
  {
    hide Pow, Val;
    var n, r := |limbs|, binsz % 4;
    ValFirst(LIMB, limbs);
    ValBound(LIMB, limbs[1..]);
    LimbsAreBytes(n - 1);
    PowAdd(256, r, 4 * (n - 1));
    assert r + 4 * (n - 1) == binsz;
    if limbs[0] < Pow(256, r) {
      CarryLess(limbs[0], Pow(256, r), Pow(LIMB, n - 1), Val(LIMB, limbs[1..]), 0);
    } else {
      MulMonotone(Pow(256, r), limbs[0], Pow(LIMB, n - 1));
    }
  }

  lemma {:induction false} LimbsAreBytes(n: nat)
    ensures Pow(LIMB, n) == Pow(256, 4 * n)
  {
    if n > 0 {
      LimbsAreBytes(n - 1);
      PowAdd(256, 4, 4 * (n - 1));
      assert Pow(256, 4) == LIMB;
    }
  }

  /** The number only grows as digits are appended. */
  lemma PrefixIsSmaller(d: seq<nat>, i: nat)
    requires i <= |d|
    ensures Val(58, d[..i]) <= Val(58, d)
  {
    assert d == d[..i] + d[i..];
    ValConcat(58, d[..i], d[i..]);
    TimesAtLeast(Val(58, d[..i]), Pow(58, |d| - i));
  }

  lemma TimesAtLeast(v: nat, p: nat)
    requires p > 0
    ensures v <= v * p
  {
    MulMonotone(1, p, v);
  }

  // ----- from limbs to bytes

  function LimbBytes(x: nat): (r: seq<Byte>)
    ensures |r| == 4
  {
    [x / 0x100_0000 % 256, x / 0x1_0000 % 256, x / 0x100 % 256, x % 256]
  }

  lemma LimbBytesValue(x: nat, r: nat)
    requires x < LIMB && r <= 4 && x < Pow(256, r)
    ensures Val(256, LimbBytes(x)[4 - r..]) == x
  {
    LimbBytesWhole(x);
    TopBytesZero(x, r);
    LeadingZeros(256, LimbBytes(x), 4 - r);
  }

  lemma TopBytesZero(x: nat, r: nat)
    requires r <= 4 && x < Pow(256, r)
    ensures forall k :: 0 <= k < 4 - r ==> LimbBytes(x)[k] == 0
  {
    assert Pow(256, 1) == 0x100 && Pow(256, 2) == 0x1_0000 && Pow(256, 3) == 0x100_0000;
  }

  lemma LimbBytesWhole(x: nat)
    requires x < LIMB
    ensures Val(256, LimbBytes(x)) == x
  {
    hide Val;
    var p, q, r, y: nat := x / 0x100_0000 % 256, x / 0x1_0000 % 256, x / 0x100 % 256, x % 256;
    Recombine(x, p, q, r, y);
    assert LimbBytes(x) == [] + [p] + [q] + [r] + [y];
    NoLimbs();
    AppendOne([], p);
    AppendOne([] + [p], q);
    AppendOne([] + [p] + [q], r);
    AppendOne([] + [p] + [q] + [r], y);
  }

  lemma Recombine(x: nat, p: nat, q: nat, r: nat, y: nat)
    requires x < LIMB && p == x / 0x100_0000 % 256 && q == x / 0x1_0000 % 256 && r == x / 0x100 % 256 && y == x % 256
    ensures ((p * 256 + q) * 256 + r) * 256 + y == x
  {
    assert x / 0x1_0000 == p * 256 + q;
    assert x / 0x100 == (p * 256 + q) * 256 + r;
  }

  lemma AppendOne(d: seq<nat>, x: nat)
    ensures Val(256, d + [x]) == Val(256, d) * 256 + x
  {
    assert (d + [x])[..|d|] == d;
  }

  /** The final part of the decoder: the last `binsz` bytes of the limbs. */
  method WriteBytes(outi: seq<nat>, binsz: nat) returns (bin: seq<Byte>)
    requires |outi| == LimbCount(binsz) && Digits(LIMB, outi)
    requires Val(LIMB, outi) < Pow(256, binsz)
    ensures |bin| == binsz && Val(256, bin) == Val(LIMB, outi)
  {
    hide Val, Pow, LimbBytes;
    if binsz > 0 { FitsIff(outi, 0, binsz); }
    NoLimbs();
    var j, bytesleft := 0, binsz % 4;
    bin := [];
    if bytesleft > 0 {
      FirstBytes(outi, bytesleft);
      bin := LimbBytes(outi[0])[4 - bytesleft..];
      j := 1;
    }
    while j < |outi|
      invariant 0 <= j <= |outi| && |bin| == 4 * j - (if bytesleft > 0 then 4 - bytesleft else 0)
      invariant Val(256, bin) == Val(LIMB, outi[..j])
    {
      NextBytes(outi, j, bin);
      bin := bin + LimbBytes(outi[j]);
      j := j + 1;
    }
    assert outi[..|outi|] == outi;
  }

  lemma NoLimbs()
    ensures Val(256, []) == 0 == Val(LIMB, [])
  {
  }

  lemma FirstBytes(outi: seq<nat>, r: nat)
    requires outi != [] && r <= 4 && outi[0] < LIMB && outi[0] < Pow(256, r)
    ensures Val(256, LimbBytes(outi[0])[4 - r..]) == Val(LIMB, outi[..1])
  {
    LimbBytesValue(outi[0], r);
    assert outi[..1] == [outi[0]] && [outi[0]][..0] == [];
  }

  lemma NextBytes(outi: seq<nat>, j: nat, bin: seq<Byte>)
    requires j < |outi| && outi[j] < LIMB && Val(256, bin) == Val(LIMB, outi[..j])
    ensures Val(256, bin + LimbBytes(outi[j])) == Val(LIMB, outi[..j + 1])
  {
    LimbBytesWhole(outi[j]);
    ValConcat(256, bin, LimbBytes(outi[j]));
    assert Pow(256, 4) == LIMB;
    assert outi[..j + 1][..j] == outi[..j];
  }

  /**
   `libp2p_crypto_encoding_base58_decode` into a buffer of `binsz` bytes: it succeeds exactly
   when every character is a digit and the number fits, and then the bytes spell the number.
   */
  method Decode(text: string, binsz: nat) returns (ok: bool, bin: seq<Byte>, newSize: nat)
    ensures ok <==> ValidText(text) && Val(58, DigitsOf(text)) < Pow(256, binsz)
    ensures ok ==> |bin| == binsz && Val(256, bin) == Val(58, DigitsOf(text))
    ensures ok ==> newSize == binsz - LeadingCount(bin, 0) + LeadingCount(text, '1')
  {
    hide Val, Pow, DigitOf, DigitsOf, ValidText, LeadingCount;
    var outi := new nat[LimbCount(binsz)](_ => 0);
    ValZeros(LIMB, outi[..]);
    var i := LeadingOnes(text);
    var zerocount := i;
    CountIs(text, '1', i);
    ok := PushText(text, i, outi, binsz);
    if !ok { return false, [], 0; }
    bin := WriteBytes(outi[..], binsz);
    newSize := binsz;
    i := 0;
    while i < binsz && bin[i] == 0
      invariant 0 <= i <= binsz && newSize == binsz - i && forall k :: 0 <= k < i ==> bin[k] == 0
    {
      newSize := newSize - 1;
      i := i + 1;
    }
    CountIs(bin, 0, i);
    newSize := newSize + zerocount;
  }

  /** The scan over leading '1' characters, whose digit is zero. */
  method LeadingOnes(text: string) returns (i: nat)
    ensures i <= |text| && (forall k :: 0 <= k < i ==> text[k] == '1') && (i < |text| ==> text[i] != '1')
  {
    i := 0;
    while i < |text| && DigitOf(text[i]) == 0
      invariant 0 <= i <= |text| && forall k :: 0 <= k < i ==> text[k] == '1'
    {
      i := i + 1;
    }
  }

  /** The main loop of the decoder, over the characters after the leading ones. */
  method PushText(text: string, start: nat, outi: array<nat>, binsz: nat) returns (ok: bool)
    requires outi.Length == LimbCount(binsz) && Digits(LIMB, outi[..]) && Val(LIMB, outi[..]) == 0
    requires start <= |text| && (forall k :: 0 <= k < start ==> text[k] == '1') && (start < |text| ==> text[start] != '1')
    modifies outi
    ensures ok <==> ValidText(text) && Val(58, DigitsOf(text)) < Pow(256, binsz)
    ensures ok ==> Digits(LIMB, outi[..]) && Val(LIMB, outi[..]) == Val(58, DigitsOf(text))
  {
    hide Val, Pow, DigitOf, DigitsOf, Digits, ValidText;
    OnesAreZero(text, start, binsz);
    var i := start;
    while i < |text|
      invariant start <= i <= |text| && ValidText(text[..i]) && (binsz == 0 ==> i == start)
      invariant Digits(LIMB, outi[..]) && Val(LIMB, outi[..]) == Val(58, DigitsOf(text[..i])) < Pow(256, binsz)
    {
      if DigitOf(text[i]) == -1 {
        InvalidAt(text, i);
        return false;
      }
      OnlyOneIsZero();
      var fits := PushChar(text, i, outi, binsz);
      if !fits {
        if ValidText(text) { TooBig(text, i + 1); }
        return false;
      }
      i := i + 1;
    }
    assert text[..|text|] == text;
    ok := true;
  }

  lemma OnesAreZero(text: string, start: nat, binsz: nat)
    requires start <= |text| && forall k :: 0 <= k < start ==> text[k] == '1'
    ensures ValidText(text[..start]) && Val(58, DigitsOf(text[..start])) == 0 < Pow(256, binsz)
  {
    ValZeros(58, DigitsOf(text[..start]));
  }

  lemma InvalidAt(text: string, i: nat)
    requires i < |text| && DigitOf(text[i]) == -1
    ensures !ValidText(text)
  {
  }

  /** One turn of that loop, with its overflow checks. */
  method PushChar(text: string, i: nat, outi: array<nat>, binsz: nat) returns (fits: bool)
    requires outi.Length == LimbCount(binsz) && Digits(LIMB, outi[..])
    requires i < |text| && ValidText(text[..i]) && DigitOf(text[i]) >= if binsz == 0 then 1 else 0
    requires Val(LIMB, outi[..]) == Val(58, DigitsOf(text[..i])) < Pow(256, binsz)
    modifies outi
    ensures ValidText(text[..i + 1]) && Digits(LIMB, outi[..])
    ensures fits <==> Val(58, DigitsOf(text[..i + 1])) < Pow(256, binsz)
    ensures fits ==> binsz > 0 && Val(LIMB, outi[..]) == Val(58, DigitsOf(text[..i + 1]))
  {
    hide Val, Pow, FilledTooFar, DigitOf, DigitsOf, ValidText;
    AppendDigit(text, i);
    var c := PushDigit(outi, DigitOf(text[i]));
    if binsz > 0 { FitsIff(outi[..], c, binsz); } else { NoPlace(c, outi[..]); }
    fits := c == 0 && !FilledTooFar(outi[0], binsz);
  }

  /** In a buffer of no bytes there are no limbs, so a digit other than zero is carried out at once. */
  lemma NoPlace(c: nat, limbs: seq<nat>)
    requires limbs == []
    ensures c * Pow(LIMB, |limbs|) + Val(LIMB, limbs) == c && Pow(256, 0) == 1
  {
  }

  lemma AppendDigit(text: string, i: nat)
    requires i < |text| && ValidText(text[..i]) && DigitOf(text[i]) >= 0
    ensures ValidText(text[..i + 1])
    ensures Val(58, DigitsOf(text[..i + 1])) == Val(58, DigitsOf(text[..i])) * 58 + DigitOf(text[i])
  {
    var d := DigitsOf(text[..i + 1]);
    assert d[..i] == DigitsOf(text[..i]);
  }

  lemma TooBig(text: string, i: nat)
    requires i <= |text| && ValidText(text)
    ensures Val(58, DigitsOf(text[..i])) <= Val(58, DigitsOf(text))
  {
    assert DigitsOf(text)[..i] == DigitsOf(text[..i]);
    PrefixIsSmaller(DigitsOf(text), i);
  }

  /** Decoding an encoding into a buffer of the original length gives the original bytes, for every input. */
  method DecodeEncoding(text: string, bin: seq<Byte>) returns (ok: bool, back: seq<Byte>, size: nat)
    requires Encodes(text, bin)
    ensures ok && back == bin && size == |bin|
  {
    ValBound(256, bin);
    ok, back, size := Decode(text, |bin|);
    ValInjective(256, back, bin);
  }

  /** Room for an encoding: a '1' for every leading zero byte, and the digits that the encoder reserves. */
  function Room(bin: seq<Byte>): nat { LeadingCount(bin, 0) + BufferSize(|bin| - LeadingCount(bin, 0)) }

  lemma EncodingFits(text: string, bin: seq<Byte>)
    requires Encodes(text, bin)
    ensures |text| <= Room(bin)
  {
    hide Val, Pow, LeadingCount, DigitOf;
    var n, d := LeadingCount(bin, 0), DigitsOf(text);
    PrefixFits(bin, n, |bin|);
    assert bin[..|bin|] == bin;
    OnlyOneIsZero();
    LeadingZeros(58, d, n);
    if |text| > n { LargeIfLong(d[n..]); }
    if |text| > n + BufferSize(|bin| - n) {
      PowMonotone(58, BufferSize(|bin| - n), |text| - n - 1);
    }
  }

  lemma LargeIfLong(d: seq<nat>)
    requires d != [] && d[0] != 0
    ensures Val(58, d) >= Pow(58, |d| - 1)
  {
    hide Val, Pow;
    ValFirst(58, d);
    MulMonotone(1, d[0], Pow(58, |d| - 1));
  }

  /**
   Encoding and decoding again, with room enough, gives the original bytes back if and only if
   they do not begin with a zero byte.
   */
  method RoundTrip(bin: seq<Byte>, capacity: nat) returns (ok: bool, back: seq<Byte>)
    ensures capacity > Room(bin) ==> (ok <==> bin == [] || bin[0] != 0)
    ensures ok ==> back == bin
  {
    var r := Encode(bin, capacity);
    ghost var text :| Encodes(text, bin) && r == Outcome(text, bin, capacity);
    EncodingFits(text, bin);
    if !r.Encoded? { return false, []; }
    var size;
    ok, back, size := DecodeEncoding(r.text, bin);
  }
}
