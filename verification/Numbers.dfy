/** Powers and positional numbers: the arithmetic shared by node ids and by Base58. */
module Numbers {
  type Byte = x: int | 0 <= x < 256

  function Min(x: nat, y: nat): nat { if x <= y then x else y }

  function Pow(b: nat, e: nat): (p: nat)
    ensures b > 0 ==> p > 0
  {
    if e == 0 then 1 else b * Pow(b, e - 1)
  }

  lemma {:induction false} PowAdd(b: nat, m: nat, n: nat)
    ensures Pow(b, m + n) == Pow(b, m) * Pow(b, n)
  {
    if m > 0 {
      PowAdd(b, m - 1, n);
      MulAssoc(b, Pow(b, m - 1), Pow(b, n));
    }
  }

  lemma {:induction false} PowMonotone(b: nat, m: nat, n: nat)
    requires b > 0 && m <= n
    ensures Pow(b, m) <= Pow(b, n)
  {
    PowAdd(b, m, n - m);
    assert Pow(b, m) * 1 <= Pow(b, m) * Pow(b, n - m);
  }

  lemma {:induction false} Pow256Is2(n: nat)
    ensures Pow(256, n) == Pow(2, 8 * n)
  {
    if n > 0 {
      Pow256Is2(n - 1);
      PowAdd(2, 8, 8 * (n - 1));
      assert Pow(2, 8) == 256;
    }
  }

  /** The number that `d` spells in base `b`, most significant digit first. */
  function Val(b: nat, d: seq<nat>): nat {
    if d == [] then 0 else Val(b, d[..|d| - 1]) * b + d[|d| - 1]
  }

  predicate Digits(b: nat, d: seq<nat>) {
    forall k :: 0 <= k < |d| ==> d[k] < b
  }

  lemma {:induction false} ValConcat(b: nat, x: seq<nat>, y: seq<nat>)
    ensures Val(b, x + y) == Val(b, x) * Pow(b, |y|) + Val(b, y)
  {
    if y == [] {
      assert x + y == x;
    } else {
      var y' := y[..|y| - 1];
      assert (x + y)[..|x + y| - 1] == x + y';
      ValConcat(b, x, y');
      MulAssoc(Val(b, x), Pow(b, |y'|), b);
      DistributeRight(Val(b, x) * Pow(b, |y'|), Val(b, y'), b);
    }
  }

  lemma ValFirst(b: nat, d: seq<nat>)
    requires d != []
    ensures Val(b, d) == d[0] * Pow(b, |d| - 1) + Val(b, d[1..])
  {
    assert d == [d[0]] + d[1..];
    ValConcat(b, [d[0]], d[1..]);
    assert Val(b, [d[0]]) == d[0] by { assert [d[0]][..0] == []; }
  }

  lemma {:induction false} ValBound(b: nat, d: seq<nat>)
    requires b > 0 && Digits(b, d)
    ensures Val(b, d) < Pow(b, |d|)
  {
    if d != [] {
      ValBound(b, d[..|d| - 1]);
      CarryLess(Val(b, d[..|d| - 1]), Pow(b, |d| - 1), b, d[|d| - 1], 0);
    }
  }

  lemma {:induction false} ValZeros(b: nat, d: seq<nat>)
    requires forall k :: 0 <= k < |d| ==> d[k] == 0
    ensures Val(b, d) == 0
  {
    if d != [] { ValZeros(b, d[..|d| - 1]); }
  }

  /** Digit strings of one length are determined by their value. */
  lemma {:induction false} ValInjective(b: nat, x: seq<nat>, y: seq<nat>)
    requires b > 0 && |x| == |y| && Digits(b, x) && Digits(b, y) && Val(b, x) == Val(b, y)
    ensures x == y
  {
    if x != [] {
      var x', y' := x[..|x| - 1], y[..|y| - 1];
      DivModUnique(Val(b, x'), Val(b, y'), b, x[|x| - 1], y[|y| - 1]);
      ValInjective(b, x', y');
      assert x == x' + [x[|x| - 1]] && y == y' + [y[|y| - 1]];
    }
  }

  lemma MulMonotone(x: int, y: int, c: int)
    requires x <= y && 0 <= c
    ensures x * c <= y * c
  {
  }

  lemma MulAssoc(x: int, y: int, z: int)
    ensures (x * y) * z == x * (y * z)
  {
  }

  lemma DistributeRight(x: int, y: int, z: int)
    ensures (x + y) * z == x * z + y * z
  {
  }

  lemma MulCancel(x: int, y: int, c: int)
    requires c > 0 && x * c == y * c
    ensures x == y
  {
    if x < y { MulMonotone(x + 1, y, c); }
    if y < x { MulMonotone(y + 1, x, c); }
  }

  lemma CarryLess(p: int, q: int, m: int, u: int, v: int)
    requires p < q && 0 <= u < m && 0 <= v
    ensures p * m + u < q * m + v
  {
    MulMonotone(p + 1, q, m);
  }

  lemma DivModUnique(q: int, q': int, b: int, r: int, r': int)
    requires 0 <= r < b && 0 <= r' < b && q * b + r == q' * b + r'
    ensures q == q' && r == r'
  {
    if q < q' { MulMonotone(q + 1, q', b); }
    if q' < q { MulMonotone(q' + 1, q, b); }
  }

  /** Comparing digit strings of one length from the front compares their values. */
  lemma ValCompare(b: nat, x: seq<nat>, y: seq<nat>, k: nat)
    requires b > 0 && |x| == |y| && Digits(b, x) && Digits(b, y)
    requires k < |x| && x[..k] == y[..k] && x[k] < y[k]
    ensures Val(b, x) < Val(b, y)
  {
    var tx, ty, m := x[k + 1..], y[k + 1..], |x| - k - 1;
    assert x == (x[..k] + [x[k]]) + tx && y == (y[..k] + [y[k]]) + ty;
    ValConcat(b, x[..k] + [x[k]], tx);
    ValConcat(b, y[..k] + [y[k]], ty);
    assert (x[..k] + [x[k]])[..k] == x[..k] && (y[..k] + [y[k]])[..k] == y[..k];
    ValBound(b, tx);
    CarryLess(Val(b, x[..k] + [x[k]]), Val(b, y[..k] + [y[k]]), Pow(b, m), Val(b, tx), Val(b, ty));
  }

  lemma DropByte(k: int, r: int)
    ensures (k * 256 + r) % 256 == r % 256
  {
  }
}
