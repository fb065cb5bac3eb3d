/** Integer facts shared by the byte-level and digit-level encodings. */
module Arith {

  function Pow(b: nat, k: nat): (r: nat)
    ensures b > 0 ==> r > 0
  {
    if k == 0 then 1 else b * Pow(b, k - 1)
  }

  lemma {:induction false} PowAdd(b: nat, j: nat, k: nat)
    ensures Pow(b, j + k) == Pow(b, j) * Pow(b, k)
  {
    if j > 0 {
      PowAdd(b, j - 1, k);
      assert Pow(b, j + k) == b * Pow(b, j - 1 + k);
      MulAssoc(b, Pow(b, j - 1), Pow(b, k));
    }
  }

  /** Division with remainder has exactly one answer. */
  lemma DivModUnique(n: int, d: int, q: int, r: int)
    requires d > 0 && 0 <= r < d && n == q * d + r
    ensures q == n / d && r == n % d
  {
    var q', r' := n / d, n % d;
    var k := q' - q;
    assert k * d == r - r' by {
      MulSubRight(q', q, d);
    }
    if k > 0 {
      MulMonotone(k, d);
    } else if k < 0 {
      MulMonotone(-k, d);
      MulNeg(k, d);
    }
  }

  lemma MulSubRight(x: int, y: int, z: int)
    ensures (x - y) * z == x * z - y * z
  {
  }

  lemma MulAddRight(x: int, y: int, z: int)
    ensures (x + y) * z == x * z + y * z
  {
  }

  lemma MulAssoc(x: int, y: int, z: int)
    ensures (x * y) * z == x * (y * z)
  {
  }

  lemma MulNeg(x: int, y: int)
    ensures (-x) * y == -(x * y)
  {
  }

  lemma MulMonotone(k: int, d: int)
    requires k >= 1 && d > 0
    ensures k * d >= d
  {
    MulAddRight(k - 1, 1, d);
    assert (k - 1) * d >= 0;
  }

  lemma MulLe(x: int, y: int, z: int)
    requires x <= y && z >= 0
    ensures x * z <= y * z
  {
    MulSubRight(y, x, z);
    assert (y - x) * z >= 0;
  }

  lemma DivDiv(n: nat, a: nat, b: nat)
    requires a > 0 && b > 0
    ensures n / a / b == n / (a * b)
    ensures n % (a * b) == (n / a % b) * a + n % a
  {
    var q1, r1 := n / a, n % a;
    var q2, r2 := q1 / b, q1 % b;
    assert n == q1 * a + r1;
    assert q1 == q2 * b + r2;
    assert n == q2 * (a * b) + (r2 * a + r1) by {
      MulAddRight(q2 * b, r2, a);
      MulAssoc(q2, b, a);
      assert b * a == a * b;
    }
    assert r2 * a + r1 < a * b by {
      MulLe(r2, b - 1, a);
      MulSubRight(b, 1, a);
      assert b * a == a * b;
    }
    assert 0 <= r2 * a;
    DivModUnique(n, a * b, q2, r2 * a + r1);
  }

  /** Python's `&` on non-negative integers, bit by bit from the least
      significant end. */
  function BitAnd(x: nat, y: nat): nat
  {
    if x == 0 || y == 0 then 0 else 2 * BitAnd(x / 2, y / 2) + (x % 2) * (y % 2)
  }

  /** Masking with 2^k - 1 keeps the k low bits: `x & (2^k - 1) == x % 2^k`. */
  lemma {:induction false} BitAndLowMask(x: nat, k: nat)
    ensures BitAnd(x, Pow(2, k) - 1) == x % Pow(2, k)
  {
    if k > 0 && x > 0 {
      var p := Pow(2, k - 1);
      var m := Pow(2, k) - 1;
      assert m == 2 * p - 1;
      assert m / 2 == p - 1 && m % 2 == 1;
      assert BitAnd(x, m) == 2 * BitAnd(x / 2, p - 1) + x % 2;
      BitAndLowMask(x / 2, k - 1);
      assert BitAnd(x / 2, p - 1) == x / 2 % p;
      DivDiv(x, 2, p);
      assert x % (2 * p) == (x / 2 % p) * 2 + x % 2;
      assert Pow(2, k) == 2 * p;
    } else if k == 0 {
      assert Pow(2, k) == 1;
    } else {
      assert x == 0 && Pow(2, k) > 0;
    }
  }
}
