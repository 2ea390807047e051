/** Congruence modulo p, as math/big's Mod computes it: the remainder is in 0..p-1 whatever the
    sign of the operand, which is also how Dafny's % behaves. */
module Modular {

  predicate Cong(p: int, a: int, b: int)
    requires p > 0
  {
    a % p == b % p
  }

  /** A quotient and a remainder in range are the quotient and the remainder. */
  lemma DivModUnique(p: int, x: int, q: int, r: int)
    requires p > 0 && x == q * p + r && 0 <= r < p
    ensures x / p == q && x % p == r
  {
    var k := x / p - q;
    assert x == (x / p) * p + x % p;
    assert k * p == r - x % p by {
      assert k * p == (x / p) * p - q * p;
    }
    assert k >= 1 ==> k * p >= p;
    assert k <= -1 ==> k * p <= -p;
  }

  lemma SmallMod(p: int, r: int)
    requires 0 <= r < p
    ensures r % p == r
  {
    DivModUnique(p, r, 0, r);
  }

  /** Two remainders that are congruent are equal. */
  lemma CongSmall(p: int, x: int, r: int)
    requires 0 <= r < p && Cong(p, x, r)
    ensures x % p == r
  {
    SmallMod(p, r);
  }

  lemma CongShift(p: int, a: int, b: int, k: int)
    requires p > 0 && a == b + k * p
    ensures Cong(p, a, b)
  {
    assert a == (b / p + k) * p + b % p by {
      assert (b / p + k) * p == (b / p) * p + k * p;
    }
    DivModUnique(p, a, b / p + k, b % p);
  }

  lemma CongQuotient(p: int, a: int, b: int) returns (k: int)
    requires p > 0 && Cong(p, a, b)
    ensures a == b + k * p
  {
    k := a / p - b / p;
    assert k * p == (a / p) * p - (b / p) * p;
  }

  lemma CongSelf(p: int, a: int)
    requires p > 0
    ensures Cong(p, a % p, a)
  {
    assert a % p == a + (-(a / p)) * p;
    CongShift(p, a % p, a, -(a / p));
  }

  lemma CongAdd(p: int, a: int, b: int, c: int, d: int)
    requires p > 0 && Cong(p, a, b) && Cong(p, c, d)
    ensures Cong(p, a + c, b + d)
    ensures Cong(p, a - c, b - d)
  {
    var k := CongQuotient(p, a, b);
    var l := CongQuotient(p, c, d);
    assert (k + l) * p == k * p + l * p;
    assert (k - l) * p == k * p - l * p;
    CongShift(p, a + c, b + d, k + l);
    CongShift(p, a - c, b - d, k - l);
  }

  lemma CongMul(p: int, a: int, b: int, c: int, d: int)
    requires p > 0 && Cong(p, a, b) && Cong(p, c, d)
    ensures Cong(p, a * c, b * d)
  {
    var k := CongQuotient(p, a, b);
    var l := CongQuotient(p, c, d);
    var m := b * l + k * d + k * (l * p);
    assert a * c == b * d + m * p by {
      assert a * c == (b + k * p) * (d + l * p);
      assert (b + k * p) * (d + l * p) == b * d + b * (l * p) + (k * p) * d + (k * p) * (l * p);
      assert b * (l * p) == (b * l) * p;
      assert (k * p) * d == (k * d) * p;
      assert (k * p) * (l * p) == (k * (l * p)) * p;
      assert m * p == (b * l) * p + (k * d) * p + (k * (l * p)) * p;
    }
    CongShift(p, a * c, b * d, m);
  }

  /** x * y - z, reduced, may be computed from any representatives. */
  lemma CongMulSub(p: int, x: int, x': int, y: int, y': int, z: int, z': int)
    requires p > 0 && Cong(p, x, x') && Cong(p, y, y') && Cong(p, z, z')
    ensures (x * y - z) % p == (x' * y' - z') % p
  {
    CongMul(p, x, x', y, y');
    CongAdd(p, x * y, x' * y', z, z');
  }

  function Pow(x: int, n: nat): int {
    if n == 0 then 1 else x * Pow(x, n - 1)
  }

  lemma {:induction false} PowAdd(x: int, m: nat, n: nat)
    ensures Pow(x, m + n) == Pow(x, m) * Pow(x, n)
  {
    if m > 0 {
      PowAdd(x, m - 1, n);
      assert x * (Pow(x, m - 1) * Pow(x, n)) == (x * Pow(x, m - 1)) * Pow(x, n);
    }
  }

  lemma MulPairs(x: int, y: int, a: int, b: int)
    ensures (x * y) * (a * b) == (x * a) * (y * b)
  {
    var c := y * b;
    assert x * (y * (a * b)) == x * (a * c) by {
      assert y * (a * b) == a * c;
    }
  }

  lemma {:induction false} PowMulBase(x: int, y: int, n: nat)
    ensures Pow(x * y, n) == Pow(x, n) * Pow(y, n)
  {
    if n > 0 {
      PowMulBase(x, y, n - 1);
      MulPairs(x, y, Pow(x, n - 1), Pow(y, n - 1));
    }
  }

  lemma {:induction false} PowCong(p: int, x: int, y: int, n: nat)
    requires p > 0 && Cong(p, x, y)
    ensures Cong(p, Pow(x, n), Pow(y, n))
  {
    if n > 0 {
      PowCong(p, x, y, n - 1);
      CongMul(p, x, y, Pow(x, n - 1), Pow(y, n - 1));
    }
  }
}
