/**
 The 160-bit node ids of routing/dht.c and routing/dht_utils.c: comparison, XOR distance
 and the bit at which an id ends.  An id is a string of 20 bytes, and its `Value` is the
 number those bytes spell; bit 0 is the most significant one.  A test or an update of a
 single bit of a byte is written as division and addition of the power of two it stands for.
 */
module NodeIds {
  import opened Numbers

  const ID_BITS := 160

  type Id = s: seq<Byte> | |s| == 20 witness seq(20, _ => 0)

  function Value(id: seq<Byte>): nat { Val(256, id) }

  lemma ValueBound(id: Id)
    ensures Value(id) < Pow(2, 160)
  {
    ValBound(256, id);
    Pow256Is2(20);
  }

  lemma ValueInjective(x: Id, y: Id)
    requires Value(x) == Value(y)
    ensures x == y
  {
    ValInjective(256, x, y);
  }

  // ----- id_cmp

  /** `memcmp` over ids: the sign of the first difference. */
  method IdCmp(x: Id, y: Id) returns (r: int)
    ensures r < 0 <==> Value(x) < Value(y)
    ensures r > 0 <==> Value(x) > Value(y)
    ensures r == 0 <==> x == y
  {
    var i := 0;
    while i < 20
      invariant 0 <= i <= 20 && x[..i] == y[..i]
    {
      if x[i] != y[i] {
        if x[i] < y[i] { ValCompare(256, x, y, i); } else { ValCompare(256, y, x, i); }
        return x[i] as int - y[i] as int;
      }
      i := i + 1;
    }
    assert x == x[..20] && y == y[..20];
    return 0;
  }

  // ----- XOR distance

  /** Bitwise exclusive or. */
  function Xor(x: nat, y: nat): nat {
    if x == 0 && y == 0 then 0 else 2 * Xor(x / 2, y / 2) + (x % 2 + y % 2) % 2
  }

  lemma {:induction false} XorBound(x: nat, y: nat, n: nat)
    requires x < Pow(2, n) && y < Pow(2, n)
    ensures Xor(x, y) < Pow(2, n)
  {
    if n > 0 && (x != 0 || y != 0) { XorBound(x / 2, y / 2, n - 1); }
  }

  lemma {:induction false} XorCancels(x: nat, y: nat, z: nat)
    requires Xor(x, z) == Xor(y, z)
    ensures x == y
    decreases x + y + z
  {
    if x + y + z > 0 {
      assert Xor(x, z) == 2 * Xor(x / 2, z / 2) + (x % 2 + z % 2) % 2;
      assert Xor(y, z) == 2 * Xor(y / 2, z / 2) + (y % 2 + z % 2) % 2;
      XorCancels(x / 2, y / 2, z / 2);
      HalvesDecide(x, y, z);
    }
  }

  lemma HalvesDecide(x: nat, y: nat, z: nat)
    requires x / 2 == y / 2 && (x % 2 + z % 2) % 2 == (y % 2 + z % 2) % 2
    ensures x == y
  {
  }

  function XorByte(x: Byte, y: Byte): Byte {
    XorBound(x, y, 8);
    assert Pow(2, 8) == 256;
    Xor(x, y)
  }

  /** `libp2p_routing_dht_xor_distance`, byte by byte. */
  function XorIds(x: seq<Byte>, y: seq<Byte>): (d: seq<Byte>)
    requires |x| == |y|
    ensures |d| == |x| && forall k :: 0 <= k < |d| ==> d[k] == XorByte(x[k], y[k])
  {
    seq(|x|, k requires 0 <= k < |x| => XorByte(x[k], y[k]))
  }

  /** How far `id` is from `ref`, as a number. */
  function Distance(id: Id, ref: Id): nat { Value(XorIds(id, ref)) }

  /** Bit `k` of an exclusive or is 1 exactly if just one of the two bits is. */
  lemma {:induction false} XorBits(x: nat, y: nat, k: nat)
    ensures Xor(x, y) / Pow(2, k) % 2 == (x / Pow(2, k) + y / Pow(2, k)) % 2
  {
    hide Xor, Pow;
    XorHalves(x, y);
    TwicePower(k);
    if k > 0 {
      var p := Pow(2, k - 1);
      XorBits(x / 2, y / 2, k - 1);
      HalfFirst(x, p);
      HalfFirst(y, p);
      HalfFirst(Xor(x, y), p);
    } else {
      LastBits(x, y, Xor(x, y));
    }
  }

  lemma TwicePower(k: nat)
    ensures Pow(2, k) == if k == 0 then 1 else 2 * Pow(2, k - 1)
  {
  }

  lemma LastBits(x: nat, y: nat, d: nat)
    requires d % 2 == (x % 2 + y % 2) % 2
    ensures d / 1 % 2 == (x / 1 + y / 1) % 2
  {
  }

  lemma XorHalves(x: nat, y: nat)
    ensures Xor(x, y) / 2 == Xor(x / 2, y / 2) && Xor(x, y) % 2 == (x % 2 + y % 2) % 2
  {
    TwiceAndOne(Xor(x / 2, y / 2), (x % 2 + y % 2) % 2);
  }

  lemma TwiceAndOne(h: nat, b: nat)
    requires b < 2
    ensures (2 * h + b) / 2 == h && (2 * h + b) % 2 == b
  {
  }

  lemma HalfFirst(x: nat, p: nat)
    requires p > 0
    ensures x / (2 * p) == x / 2 / p
  {
    var q, r := x / 2 / p, x / 2 % p;
    assert x == 2 * (q * p + r) + x % 2;
    assert 2 * (q * p) == q * (2 * p);
    DivModUnique(q, x / (2 * p), 2 * p, 2 * r + x % 2, x % (2 * p));
  }

  lemma {:induction false} XorSymmetric(x: nat, y: nat)
    ensures Xor(x, y) == Xor(y, x)
  {
    if x != 0 || y != 0 { XorSymmetric(x / 2, y / 2); }
  }

  lemma {:induction false} XorTriangle(x: nat, y: nat, z: nat)
    ensures Xor(x, z) <= Xor(x, y) + Xor(y, z)
    decreases x + y + z
  {
    hide Xor;
    if x == 0 && y == 0 && z == 0 {
      XorSelf(0);
    } else {
      XorTriangle(x / 2, y / 2, z / 2);
      XorHalves(x, y);
      XorHalves(y, z);
      XorHalves(x, z);
      HalvesAdd(Xor(x, z), Xor(x, y), Xor(y, z), x % 2, y % 2, z % 2);
    }
  }

  lemma HalvesAdd(d: nat, e: nat, f: nat, a: nat, b: nat, c: nat)
    requires d / 2 <= e / 2 + f / 2 && a < 2 && b < 2 && c < 2
    requires d % 2 == (a + c) % 2 && e % 2 == (a + b) % 2 && f % 2 == (b + c) % 2
    ensures d <= e + f
  {
  }

  /** XOR distance is a metric: zero just for the same id, the same both ways, and no detour is shorter. */
  lemma DistanceIsMetric(x: Id, y: Id, z: Id)
    ensures Distance(x, x) == 0 && (Distance(x, y) == 0 ==> x == y)
    ensures Distance(x, y) == Distance(y, x)
    ensures Distance(x, z) <= Distance(x, y) + Distance(y, z)
  {
    forall k | 0 <= k < 20
      ensures XorByte(x[k], x[k]) == 0 && XorByte(x[k], y[k]) == XorByte(y[k], x[k])
    {
      XorSelf(x[k]);
      XorSymmetric(x[k], y[k]);
    }
    ValZeros(256, XorIds(x, x));
    if Distance(x, y) == 0 {
      forall k | 0 <= k < 20 ensures XorByte(y[k], y[k]) == 0 { XorSelf(y[k]); }
      ValZeros(256, XorIds(y, y));
      DistanceInjective(x, y, y);
    }
    assert XorIds(x, y) == XorIds(y, x);
    forall k | 0 <= k < 20
      ensures XorIds(x, z)[k] as nat <= XorIds(x, y)[k] as nat + XorIds(y, z)[k] as nat
    {
      XorTriangle(x[k], y[k], z[k]);
    }
    ValSums(XorIds(x, z), XorIds(x, y), XorIds(y, z));
  }

  lemma {:induction false} XorSelf(x: nat)
    ensures Xor(x, x) == 0
  {
    if x != 0 { XorSelf(x / 2); }
  }

  lemma {:induction false} ValSums(d: seq<nat>, e: seq<nat>, f: seq<nat>)
    requires |d| == |e| == |f| && forall k :: 0 <= k < |d| ==> d[k] <= e[k] + f[k]
    ensures Val(256, d) <= Val(256, e) + Val(256, f)
  {
    if d != [] {
      var n := |d| - 1;
      ValSums(d[..n], e[..n], f[..n]);
    }
  }

  lemma DistanceInjective(x: Id, y: Id, ref: Id)
    requires Distance(x, ref) == Distance(y, ref)
    ensures x == y
  {
    ValInjective(256, XorIds(x, ref), XorIds(y, ref));
    forall k | 0 <= k < 20
      ensures x[k] == y[k]
    {
      assert XorIds(x, ref)[k] == XorIds(y, ref)[k];
      XorCancels(x[k], y[k], ref[k]);
    }
  }

  /** `xorcmp`: which of `x` and `y` is closer to `ref`, deciding at their first difference. */
  method XorCmp(x: Id, y: Id, ref: Id) returns (r: int)
    ensures r < 0 <==> Distance(x, ref) < Distance(y, ref)
    ensures r == 0 <==> x == y
  {
    var dx, dy := XorIds(x, ref), XorIds(y, ref);
    var i := 0;
    while i < 20
      invariant 0 <= i <= 20 && x[..i] == y[..i]
    {
      if x[i] != y[i] {
        var xor1, xor2 := XorByte(x[i], ref[i]), XorByte(y[i], ref[i]);
        if xor1 == xor2 { XorCancels(x[i], y[i], ref[i]); }
        assert forall k :: 0 <= k < i ==> x[k] == x[..i][k] && y[k] == y[..i][k];
        assert dx[..i] == dy[..i];
        if xor1 < xor2 {
          ValCompare(256, dx, dy, i);
          return -1;
        } else {
          ValCompare(256, dy, dx, i);
          return 1;
        }
      }
      i := i + 1;
    }
    assert x == x[..20] && y == y[..20];
    return 0;
  }

  // ----- the lowest 1 bit

  ghost predicate Times(v: int, k: int, m: int) { v == k * m }

  ghost predicate OddTimes(v: int, q: int, m: int) { v == (2 * q + 1) * m }

  /** `v` is an odd multiple of 2^e: its lowest 1 bit has weight 2^e. */
  ghost predicate OddMultiple(v: nat, e: nat) {
    exists q: nat :: OddTimes(v, q, Pow(2, e))
  }

  lemma OddMultipleAtLeast(m: nat, a: nat, e: nat)
    requires OddMultiple(m * Pow(2, a), e)
    ensures e >= a
  {
    if e < a {
      var q: nat :| OddTimes(m * Pow(2, a), q, Pow(2, e));
      PowAdd(2, a - e, e);
      OddIsNotEven(m, Pow(2, a - e - 1), q, Pow(2, e));
    }
  }

  lemma OddIsNotEven(m: int, h: int, q: int, p: int)
    requires p > 0
    ensures m * ((2 * h) * p) != (2 * q + 1) * p
  {
    MulAssoc(m, 2 * h, p);
    if (m * (2 * h)) * p == (2 * q + 1) * p {
      MulCancel(m * (2 * h), 2 * q + 1, p);
      MulAssoc(m, h, 2);
    }
  }

  lemma OddMultipleUnique(v: nat, e: nat, f: nat)
    requires OddMultiple(v, e) && OddMultiple(v, f)
    ensures e == f
  {
    var q: nat :| OddTimes(v, q, Pow(2, e));
    OddMultipleAtLeast(2 * q + 1, e, f);
    var r: nat :| OddTimes(v, r, Pow(2, f));
    OddMultipleAtLeast(2 * r + 1, f, e);
  }

  /** 2^m for the bits of one byte. */
  function Two(m: nat): (t: nat)
    requires m <= 8
    ensures t > 0
  {
    if m == 0 then 1 else if m == 1 then 2 else if m == 2 then 4 else if m == 3 then 8 else if m == 4 then 16
    else if m == 5 then 32 else if m == 6 then 64 else if m == 7 then 128 else 256
  }

  lemma {:induction false} TwoIsPow(m: nat)
    requires m <= 8
    ensures Two(m) == Pow(2, m)
  {
    if m > 0 { TwoIsPow(m - 1); }
  }

  /** `b & (0x80 >> j)` is non-zero. */
  predicate TestBit(b: Byte, j: nat)
    requires j < 8
  {
    b / Two(7 - j) % 2 == 1
  }

  /** What `lowbit` promises: -1 for the zero id, else the position of the last 1 bit. */
  ghost predicate IsLowBit(v: nat, r: int) {
    && -1 <= r < ID_BITS
    && (r == -1 <==> v == 0)
    && (r >= 0 ==> OddMultiple(v, ID_BITS - 1 - r))
  }

  method LowBit(id: Id) returns (r: int)
    ensures IsLowBit(Value(id), r)
  {
    var i := 19;
    while i >= 0 && id[i] == 0
      invariant -1 <= i <= 19
      invariant forall k :: i < k < 20 ==> id[k] == 0
    {
      i := i - 1;
    }
    if i < 0 {
      ValZeros(256, id);
      return -1;
    }
    var j := 7;
    while j >= 0 && !TestBit(id[i], j)
      invariant -1 <= j <= 7
      invariant id[i] % Two(7 - j) == 0
    {
      ClearBitDivides(id[i], j);
      j := j - 1;
    }
    if j >= 0 { LowBitValue(id, i, j); }
    r := 8 * i + j;
  }

  lemma ModOfMultiple(k: int, m: int)
    requires m > 0
    ensures (k * m) % m == 0 && (k * m) / m == k
  {
    DivModUnique(k * m / m, k, m, (k * m) % m, 0);
  }

  lemma TwoSplits(m: nat)
    requires m <= 8
    ensures Two(m) * Two(8 - m) == 256
    ensures m > 0 ==> Two(m) == 2 * Two(m - 1)
  {
  }

  lemma ClearBitDivides(b: Byte, j: nat)
    requires j < 8 && b % Two(7 - j) == 0 && !TestBit(b, j)
    ensures b % Two(8 - j) == 0
  {
    var w := Two(7 - j);
    TwoSplits(8 - j);
    var c := b / w / 2;
    assert b == (2 * c) * w;
    MulAssoc(c, 2, w);
    ModOfMultiple(c, 2 * w);
  }

  /** A byte that ends in bit `j`, behind `v` in base 256, makes an odd multiple of its weight. */
  lemma ByteEndsOdd(v: nat, b: Byte, j: nat) returns (q: nat)
    requires j < 8 && b % Two(7 - j) == 0 && TestBit(b, j)
    ensures OddTimes(v * 256 + b, q, Two(7 - j))
  {
    var w := Two(7 - j);
    TwoSplits(8 - j);
    var c := b / w / 2;
    assert b == (2 * c + 1) * w;
    q := v * Two(j) + c;
    OddSum(v, Two(j), w, c);
  }

  lemma OddSum(v: int, t: int, w: int, c: int)
    ensures v * ((2 * w) * t) + (2 * c + 1) * w == (2 * (v * t + c) + 1) * w
  {
    MulAssoc(v * t, 2, w);
  }

  lemma LowBitValue(id: Id, i: nat, j: nat)
    requires i < 20 && j < 8
    requires forall k :: i < k < 20 ==> id[k] == 0
    requires id[i] % Two(7 - j) == 0 && TestBit(id[i], j)
    ensures OddMultiple(Value(id), 159 - (8 * i + j)) && Value(id) > 0
  {
    hide Pow;
    var n, e := 19 - i, 159 - (8 * i + j);
    ValueOfHead(id, i);
    Pow256Is2(n);
    var q := ByteEndsOdd(Val(256, id[..i]), id[i], j);
    PowAdd(2, 7 - j, 8 * n);
    TwoIsPow(7 - j);
    MulAssoc(2 * q + 1, Two(7 - j), Pow(2, 8 * n));
    assert OddTimes(Value(id), q, Pow(2, e));
    MulMonotone(1, 2 * q + 1, Pow(2, e));
  }

  /** With only zero bytes after byte `i`, the value is that of the bytes up to it, shifted. */
  lemma ValueOfHead(id: Id, i: nat)
    requires i < 20 && forall k :: i < k < 20 ==> id[k] == 0
    ensures Value(id) == (Val(256, id[..i]) * 256 + id[i]) * Pow(256, 19 - i)
  {
    var head := id[..i + 1];
    assert id == head + id[i + 1..];
    ValConcat(256, head, id[i + 1..]);
    ValZeros(256, id[i + 1..]);
    assert head[..i] == id[..i];
  }

  // ----- aligned ranges

  /** The number of ids below a prefix of `d` bits. */
  function Width(d: nat): (w: nat)
    requires d <= ID_BITS
    ensures w > 0
  {
    Pow(2, ID_BITS - d)
  }

  /** [lo, hi) is one of the 2^d equal parts of the id space. */
  ghost predicate AlignedAt(lo: nat, hi: nat, d: nat) {
    && d <= ID_BITS
    && hi <= Width(0)
    && hi == lo + Width(d)
    && exists k: nat :: Times(lo, k, Width(d))
  }

  /**
   The depth of an aligned range is one more than the larger of the low bits of its two
   ends, where the end of the id space counts as -1.
   */
  lemma DepthFromLowBits(lo: nat, hi: nat, d: nat, bit1: int, bit2: int)
    requires AlignedAt(lo, hi, d)
    requires IsLowBit(lo, bit1)
    requires if hi == Width(0) then bit2 == -1 else IsLowBit(hi, bit2)
    ensures (if bit1 >= bit2 then bit1 else bit2) + 1 == d
  {
    var w := Width(d);
    var k: nat :| Times(lo, k, w);
    assert hi == (k + 1) * w;
    if bit1 >= 0 { OddMultipleAtLeast(k, 160 - d, 159 - bit1); }
    if bit2 >= 0 { OddMultipleAtLeast(k + 1, 160 - d, 159 - bit2); }
    if d > 0 {
      if k % 2 == 1 {
        assert OddTimes(lo, k / 2, w);
        OddMultipleUnique(lo, 160 - d, 159 - bit1);
      } else {
        assert OddTimes(hi, k / 2, w);
        if hi == Width(0) {
          assert OddTimes(hi, 0, Width(0));
          OddMultipleUnique(hi, 160 - d, 160);
        } else {
          OddMultipleUnique(hi, 160 - d, 159 - bit2);
        }
      }
    }
  }

  // ----- changing the bits below an aligned prefix

  /** `b |= 0x80 >> j`. */
  function SetBit(b: Byte, j: nat): (c: Byte)
    requires j < 8
  {
    if TestBit(b, j) then b else
      assert b + Two(7 - j) < 256 by { SetBitFits(b, j); }
      b + Two(7 - j)
  }

  lemma SetBitFits(b: Byte, j: nat)
    requires j < 8 && !TestBit(b, j)
    ensures b + Two(7 - j) < 256
  {
    match j case 0 => case 1 => case 2 => case 3 => case 4 => case 5 => case 6 => case 7 =>
  }

  lemma AlignedBitIsClear(b: Byte, j: nat)
    requires j < 8 && b % Two(8 - j) == 0
    ensures !TestBit(b, j)
  {
    var w := Two(7 - j);
    TwoSplits(8 - j);
    var c := b / (2 * w);
    assert b == c * (2 * w);
    MulAssoc(c, 2, w);
    ModOfMultiple(2 * c, w);
  }

  lemma LastByteDivides(v: nat, b: Byte, k: nat, m: nat)
    requires m <= 8 && v * 256 + b == k * Two(m)
    ensures b % Two(m) == 0
  {
    TwoSplits(m);
    var u := Two(8 - m);
    MulAssoc(v, u, Two(m));
    Distribute(0, v * u, k, Two(m));
    ModOfMultiple(k - v * u, Two(m));
  }

  /** The bytes of an id whose value is a multiple of 2^(160-bit) end at that bit. */
  lemma AlignedBytes(id: Id, bit: nat, k: nat)
    requires bit < 160 && Times(Value(id), k, Pow(2, 160 - bit))
    ensures id[bit / 8] % Two(8 - bit % 8) == 0
    ensures forall m :: bit / 8 < m < 20 ==> id[m] == 0
  {
    var i, n, m := bit / 8, 19 - bit / 8, 8 - bit % 8;
    var head, tail := id[..i + 1], id[i + 1..];
    assert id == head + tail;
    ValConcat(256, head, tail);
    ValBound(256, tail);
    Pow256Is2(n);
    PowAdd(2, m, 8 * n);
    TwoIsPow(m);
    MulAssoc(k, Pow(2, m), Pow(2, 8 * n));
    DivModUnique(k * Pow(2, m), Val(256, head), Pow(2, 8 * n), 0, Val(256, tail));
    assert head[..i] == id[..i];
    LastByteDivides(Val(256, id[..i]), id[i], k, m);
    ZeroValue(tail);
    assert forall x :: i < x < 20 ==> id[x] == tail[x - i - 1];
  }

  lemma ZeroValue(d: seq<Byte>)
    requires Val(256, d) == 0
    ensures forall x :: 0 <= x < |d| ==> d[x] == 0
  {
    var zeros := seq(|d|, _ => 0);
    ValZeros(256, zeros);
    ValInjective(256, d, zeros);
  }

  /** Replacing byte `i` and the bytes after it changes the value by the difference at their weights. */
  lemma ReplaceTail(id: Id, id': Id, i: nat)
    requires i < 20 && id'[..i] == id[..i]
    requires forall m :: i < m < 20 ==> id[m] == 0
    ensures Value(id') == Value(id) + (id'[i] as int - id[i] as int) * Pow(256, 19 - i) + Value(id'[i + 1..])
  {
    var p := id[..i];
    assert id == p + [id[i]] + id[i + 1..] && id' == p + [id'[i]] + id'[i + 1..];
    ValConcat(256, p + [id[i]], id[i + 1..]);
    ValConcat(256, p + [id'[i]], id'[i + 1..]);
    assert (p + [id[i]])[..i] == p == (p + [id'[i]])[..i];
    ValZeros(256, id[i + 1..]);
    Distribute(Val(256, p) * 256, id[i], id'[i], Pow(256, 19 - i));
  }

  lemma Distribute(v: int, x: int, y: int, w: int)
    ensures (v + y) * w == (v + x) * w + (y - x) * w
  {
  }

  /** Setting the bit just below an aligned prefix adds half the range. */
  lemma SetBitAddsHalf(id: Id, bit: nat, k: nat)
    requires bit < 160 && Times(Value(id), k, Pow(2, 160 - bit))
    ensures Value(id[bit / 8 := SetBit(id[bit / 8], bit % 8)]) == Value(id) + Pow(2, 159 - bit)
  {
    var i, j := bit / 8, bit % 8;
    AlignedBytes(id, bit, k);
    AlignedBitIsClear(id[i], j);
    var id' := id[i := SetBit(id[i], j)];
    ReplaceTail(id, id', i);
    ValZeros(256, id'[i + 1..]);
    Pow256Is2(19 - i);
    PowAdd(2, 7 - j, 8 * (19 - i));
    TwoIsPow(7 - j);
  }

  /** Any bits below an aligned prefix stay within the range of that prefix. */
  lemma LowBitsStayInRange(id: Id, id': Id, bit: nat, k: nat)
    requires bit < 160 && Times(Value(id), k, Pow(2, 160 - bit))
    requires id'[..bit / 8] == id[..bit / 8]
    requires id[bit / 8] <= id'[bit / 8] < id[bit / 8] + Two(8 - bit % 8)
    ensures Value(id) <= Value(id') < Value(id) + Pow(2, 160 - bit)
  {
    var i, m := bit / 8, 8 - bit % 8;
    AlignedBytes(id, bit, k);
    ReplaceTail(id, id', i);
    ValBound(256, id'[i + 1..]);
    Pow256Is2(19 - i);
    PowAdd(2, m, 8 * (19 - i));
    TwoIsPow(m);
    var d: int, w := id'[i] as int - id[i] as int, Pow(256, 19 - i);
    MulMonotone(d + 1, Two(m), w);
    assert d * w + w == (d + 1) * w;
    MulMonotone(0, d, w);
  }
}
