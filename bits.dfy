/** Java's integer bit operators, restricted to the non-negative operands
    that the codec ever applies them to, Java's truncating `/` and `%`,
    Math.min and Math.max, and the arithmetic facts the codec needs. */
module Bits {

  /** 2 to the power k. */
  function Pow2(k: nat): (p: nat)
    ensures p >= 1
  {
    if k == 0 then 1 else 2 * Pow2(k - 1)
  }

  /** `x & y`: bit i of the result is set iff bit i is set in both. */
  function And(x: nat, y: nat): nat
    decreases x
  {
    if x == 0 || y == 0 then 0
    else 2 * And(x / 2, y / 2) + (if x % 2 == 1 && y % 2 == 1 then 1 else 0)
  }

  /** `x | y`: bit i of the result is set iff bit i is set in either. */
  function Or(x: nat, y: nat): nat
    decreases x
  {
    if x == 0 then y
    else if y == 0 then x
    else 2 * Or(x / 2, y / 2) + (if x % 2 == 1 || y % 2 == 1 then 1 else 0)
  }

  /** `x << k` for a result that does not overflow. */
  function Shl(x: nat, k: nat): nat
  {
    x * Pow2(k)
  }

  /** `x >> k` (arithmetic shift; on non-negative x it is a floor division). */
  function Shr(x: nat, k: nat): int
  {
    x / Pow2(k)
  }

  /** Math.min. */
  function Min(a: int, b: int): int
  {
    if a <= b then a else b
  }

  /** Math.max. */
  function Max(a: int, b: int): int
  {
    if a >= b then a else b
  }

  /** Java's `a / b` for b > 0: it truncates toward zero. */
  function Quot(a: int, b: int): (q: int)
    requires b > 0
    ensures a >= 0 ==> 0 <= a - b * q < b
    ensures a < 0 ==> -b < a - b * q <= 0
    ensures a >= 0 ==> q == a / b
  {
    if a >= 0 then a / b else -((-a) / b)
  }

  /** Java's `a % b` for b > 0: its sign follows the dividend. */
  function Rem(a: int, b: int): (m: int)
    requires b > 0
    ensures a == b * Quot(a, b) + m
    ensures -b < m < b
    ensures a >= 0 ==> m == a % b
  {
    a - b * Quot(a, b)
  }

  /** All bits of x below 2^k survive a mask of k one-bits. */
  lemma {:induction false} AndOnes(x: nat, k: nat)
    requires x < Pow2(k)
    ensures And(x, Pow2(k) - 1) == x
  {
    if x != 0 {
      AndOnes(x / 2, k - 1);
    }
  }

  /** `x & 0b11` keeps the two low bits. */
  lemma AndThree(x: nat)
    ensures And(x, 3) == x % 4
  {
    if x != 0 {
      var h := x / 2;
      assert And(h, 1) == h % 2 by {
        if h != 0 { assert And(h / 2, 0) == 0; }
      }
    }
  }

  /** `x & 0b11111100` clears the two low bits of a byte. */
  lemma AndHighSix(x: nat)
    requires x < 256
    ensures And(x, 252) == x - x % 4
  {
    if x != 0 {
      var h := x / 2;
      assert Pow2(6) == 64 by {
        assert Pow2(2) == 4;
        assert Pow2(4) == 16;
      }
      AndOnes(x / 4, 6);
      assert h / 2 == x / 4;
      assert And(h, 126) == 2 * And(h / 2, 63) by {
        if h != 0 {}
      }
      assert And(x, 252) == 2 * And(h, 126);
      assert 4 * (x / 4) == x - x % 4;
    }
  }

  /** Or-ing a value below 2^k into a multiple of 2^k is addition. */
  lemma {:induction false} OrDisjoint(q: nat, b: nat, k: nat)
    requires b < Pow2(k)
    ensures Or(q * Pow2(k), b) == q * Pow2(k) + b
  {
    if k > 0 && q != 0 && b != 0 {
      var p := Pow2(k - 1);
      assert q * Pow2(k) == 2 * (q * p);
      OrDisjoint(q, b / 2, k - 1);
    }
  }

  /** Multiplication is monotonic in its left factor. */
  lemma {:induction false} MulMono(a: int, b: int, w: int)
    requires a >= b >= 0 && w >= 0
    ensures a * w >= b * w
  {
    if a > b {
      MulMono(a - 1, b, w);
      assert a * w == (a - 1) * w + w;
    }
  }

  /** Row-major coordinates are recovered by division: k == q*w + c with
      0 <= c < w means that q is the row and c the column of k. */
  lemma DivUnique(k: int, q: int, c: int, w: int)
    requires 0 <= c < w && 0 <= q && k == q * w + c
    ensures k / w == q && k % w == c
  {
    var q' := k / w;
    assert k == q' * w + k % w;
    if q' < q {
      assert (q' + 1) * w == q' * w + w;
      MulMono(q, q' + 1, w);
    } else if q' > q {
      assert (q + 1) * w == q * w + w;
      MulMono(q', q + 1, w);
    }
  }

  /** Every index below h*w lies in one of the h rows. */
  lemma DivBound(k: int, h: int, w: int)
    requires 0 <= k < h * w && w > 0
    ensures k / w < h
  {
    assert k == (k / w) * w + k % w;
    if k / w >= h {
      MulMono(k / w, h, w);
    }
  }
}
