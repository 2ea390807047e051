/** The number theory curveSqrt rests on: Euclid's lemma, the Frobenius map on Z[sqrt D] modulo an
    odd prime, Fermat's little theorem, and what they give for Lucas sequences at the prime. */
module Primes {
  import opened Modular
  import opened Lucas

  predicate Divides(d: int, n: int)
    requires d > 0
  {
    n % d == 0
  }

  ghost predicate Prime(p: int) {
    p >= 2 && forall d :: 2 <= d < p ==> !Divides(d, p)
  }

  ghost predicate OddPrime(p: int) {
    p > 2 && Prime(p)
  }

  lemma OddPrimeIsOdd(p: int)
    requires OddPrime(p)
    ensures p % 2 == 1
  {
    assert !Divides(2, p);
  }

  lemma MultipleMod(p: int, k: int)
    requires p > 0
    ensures (k * p) % p == 0
  {
    CongShift(p, k * p, 0, k);
  }

  lemma {:induction false} EuclidSmall(p: int, a: int, b: int)
    requires Prime(p) && 0 < a < p && (a * b) % p == 0
    ensures b % p == 0
    decreases a
  {
    if a > 1 {
      var q, r := p / a, p % a;
      assert !Divides(a, p);
      var k := (a * b) / p;
      assert a * b == k * p;
      assert r * b == (b - q * k) * p by {
        assert r * b == (p - q * a) * b;
        assert (p - q * a) * b == p * b - q * (a * b);
        assert q * (k * p) == (q * k) * p;
      }
      MultipleMod(p, b - q * k);
      EuclidSmall(p, r, b);
    }
  }

  /** Euclid: a prime that divides a product divides a factor. */
  lemma Euclid(p: int, a: int, b: int)
    requires Prime(p) && (a * b) % p == 0 && a % p != 0
    ensures b % p == 0
  {
    CongSelf(p, a);
    CongMul(p, a % p, a, b, b);
    EuclidSmall(p, a % p, b);
  }

  lemma Cancel(p: int, a: int, x: int, y: int)
    requires Prime(p) && a % p != 0 && Cong(p, a * x, a * y)
    ensures Cong(p, x, y)
  {
    CongAdd(p, a * x, a * y, a * y, a * y);
    assert a * x - a * y == a * (x - y);
    Euclid(p, a, x - y);
    CongAdd(p, x - y, 0, y, y);
  }

  // ----- Binomial coefficients -----

  function Choose(n: nat, k: nat): nat {
    if k == 0 then 1 else if n == 0 then 0 else Choose(n - 1, k - 1) + Choose(n - 1, k)
  }

  lemma {:induction false} ChooseAbove(n: nat, k: nat)
    requires k > n
    ensures Choose(n, k) == 0
  {
    if n > 0 {
      ChooseAbove(n - 1, k - 1);
      ChooseAbove(n - 1, k);
    }
  }

  lemma {:induction false} ChooseSelf(n: nat)
    ensures Choose(n, n) == 1
  {
    if n > 0 {
      ChooseSelf(n - 1);
      ChooseAbove(n - 1, n);
    }
  }

  lemma AbsorptionStep(n: int, k: int, c: int, d: int, e: int, f: int)
    requires k * d == (n - 1) * e && (k - 1) * c == (n - 1) * f && c == f + e
    ensures k * (c + d) == n * c
  {
    assert (n - 1) * c == (n - 1) * f + (n - 1) * e;
    assert k * (c + d) == k * c + k * d;
    assert (k - 1) * c == k * c - c;
    assert (n - 1) * c == n * c - c;
  }

  lemma {:induction false} Absorption(n: nat, k: nat)
    requires n > 0 && k > 0
    ensures k * Choose(n, k) == n * Choose(n - 1, k - 1)
    decreases n
  {
    if n == 1 {
      if k > 1 {
        ChooseAbove(1, k);
        ChooseAbove(0, k - 1);
      }
    } else if k == 1 {
      Absorption(n - 1, 1);
      assert Choose(n, 1) == 1 + Choose(n - 1, 1);
    } else {
      Absorption(n - 1, k);
      Absorption(n - 1, k - 1);
      AbsorptionStep(n, k, Choose(n - 1, k - 1), Choose(n - 1, k), Choose(n - 2, k - 1), Choose(n - 2, k - 2));
    }
  }

  lemma FactorOfMultiple(p: int, k: int, c: int, d: int)
    requires Prime(p) && 0 < k < p && k * c == p * d
    ensures c % p == 0
  {
    assert p * d == d * p;
    MultipleMod(p, d);
    EuclidSmall(p, k, c);
  }

  lemma PrimeDividesChoose(p: nat, k: nat)
    requires Prime(p) && 0 < k < p
    ensures Choose(p, k) % p == 0
  {
    Absorption(p, k);
    FactorOfMultiple(p, k, Choose(p, k), Choose(p - 1, k - 1));
  }

  // ----- Powers of P + sqrt(D) -----

  /** (P + sqrt D)^n == X(n) + Y(n) * sqrt D */
  function X(P: int, D: int, n: nat): int
    decreases n
  {
    if n == 0 then 1 else P * X(P, D, n - 1) + D * Y(P, D, n - 1)
  }

  function Y(P: int, D: int, n: nat): int
    decreases n
  {
    if n == 0 then 0 else P * Y(P, D, n - 1) + X(P, D, n - 1)
  }

  function Coef(P: int, n: nat, k: nat): int {
    if k <= n then Choose(n, k) * Pow(P, n - k) else 0
  }

  /** sqrt(D)^k == EX(k) + EY(k) * sqrt D */
  function EX(D: int, k: nat): int {
    if k % 2 == 0 then Pow(D, k / 2) else 0
  }

  function EY(D: int, k: nat): int {
    if k % 2 == 1 then Pow(D, k / 2) else 0
  }

  /** Partial sums of the binomial expansion of (P + sqrt D)^n, up to the term m. */
  function SX(P: int, D: int, n: nat, m: nat): int {
    (if m == 0 then 0 else SX(P, D, n, m - 1)) + Coef(P, n, m) * EX(D, m)
  }

  function SY(P: int, D: int, n: nat, m: nat): int {
    (if m == 0 then 0 else SY(P, D, n, m - 1)) + Coef(P, n, m) * EY(D, m)
  }

  lemma CoefStep(P: int, n: nat, k: nat)
    ensures Coef(P, n + 1, k + 1) == P * Coef(P, n, k + 1) + Coef(P, n, k)
    ensures Coef(P, n + 1, 0) == P * Coef(P, n, 0)
  {
    if k < n {
      var c, d, w := Choose(n, k), Choose(n, k + 1), Pow(P, n - k - 1);
      assert Pow(P, n - k) == P * w;
      assert (c + d) * (P * w) == c * (P * w) + d * (P * w);
      assert d * (P * w) == P * (d * w);
    } else if k == n {
      ChooseAbove(n, n + 1);
    }
  }

  lemma SumTerm(P: int, D: int, c: int, c': int, ex: int, ey: int, sx: int, sy: int, tx: int, ty: int)
    ensures (P * sx + D * ty) + (P * c + c') * (D * ey) == P * (sx + c * (D * ey)) + D * (ty + c' * ey)
    ensures (P * sy + tx) + (P * c + c') * ex == P * (sy + c * ex) + (tx + c' * ex)
  {
    Distribute(P, c, c', D * ey, sx);
    Distribute(P, c, c', ex, sy);
    assert D * (ty + c' * ey) == D * ty + D * (c' * ey);
    assert D * (c' * ey) == c' * (D * ey);
  }

  lemma Distribute(P: int, c: int, c': int, e: int, s: int)
    ensures P * s + (P * c + c') * e == P * (s + c * e) + c' * e
  {
    assert (P * c + c') * e == (P * c) * e + c' * e;
    assert (P * c) * e == P * (c * e);
  }

  lemma SqrtPowerStep(D: int, k: nat)
    ensures EX(D, k + 1) == D * EY(D, k) && EY(D, k + 1) == EX(D, k)
  {
  }

  /** Pascal's rule, summed: one more factor P + sqrt D. */
  lemma {:induction false} SumStep(P: int, D: int, n: nat, m: nat)
    ensures SX(P, D, n + 1, m + 1) == P * SX(P, D, n, m + 1) + D * SY(P, D, n, m)
    ensures SY(P, D, n + 1, m + 1) == P * SY(P, D, n, m + 1) + SX(P, D, n, m)
    decreases m
  {
    CoefStep(P, n, m);
    SqrtPowerStep(D, m);
    var tx := if m == 0 then 0 else SX(P, D, n, m - 1);
    var ty := if m == 0 then 0 else SY(P, D, n, m - 1);
    if m > 0 {
      SumStep(P, D, n, m - 1);
    } else {
      FirstTerm(P, D, n);
    }
    SumTerm(P, D, Coef(P, n, m + 1), Coef(P, n, m), EX(D, m), EY(D, m), SX(P, D, n, m), SY(P, D, n, m), tx, ty);
  }

  lemma FirstTerm(P: int, D: int, n: nat)
    ensures SX(P, D, n + 1, 0) == P * SX(P, D, n, 0) && SY(P, D, n + 1, 0) == P * SY(P, D, n, 0)
  {
    CoefStep(P, n, 0);
    assert EX(D, 0) == 1 && EY(D, 0) == 0;
  }

  /** The binomial theorem for P + sqrt D. */
  lemma {:induction false} Binomial(P: int, D: int, n: nat)
    ensures SX(P, D, n, n) == X(P, D, n) && SY(P, D, n, n) == Y(P, D, n)
  {
    if n == 0 {
      assert Coef(P, 0, 0) == 1 && EX(D, 0) == 1 && EY(D, 0) == 0;
    } else {
      Binomial(P, D, n - 1);
      SumStep(P, D, n - 1, n - 1);
      assert Coef(P, n - 1, n) == 0;
    }
  }

  lemma {:induction false} SumsBelowPrime(P: int, D: int, p: nat, m: nat)
    requires Prime(p) && m < p
    ensures Cong(p, SX(P, D, p, m), Pow(P, p)) && Cong(p, SY(P, D, p, m), 0)
    decreases m
  {
    if m == 0 {
      assert Coef(P, p, 0) == Pow(P, p) && EX(D, 0) == 1 && EY(D, 0) == 0;
    } else {
      SumsBelowPrime(P, D, p, m - 1);
      PrimeDividesChoose(p, m);
      VanishingTerm(p, Choose(p, m), Pow(P, p - m), EX(D, m));
      VanishingTerm(p, Choose(p, m), Pow(P, p - m), EY(D, m));
      CongAdd(p, SX(P, D, p, m - 1), Pow(P, p), Coef(P, p, m) * EX(D, m), 0);
      CongAdd(p, SY(P, D, p, m - 1), 0, Coef(P, p, m) * EY(D, m), 0);
    }
  }

  lemma VanishingTerm(p: int, c: int, w: int, e: int)
    requires p > 0 && c % p == 0
    ensures Cong(p, c * w * e, 0)
  {
    CongMul(p, c, 0, w, w);
    CongMul(p, c * w, 0, e, e);
  }

  /** Frobenius: modulo an odd prime p, (P + sqrt D)^p is P^p + D^((p-1)/2) * sqrt D. */
  lemma Frobenius(P: int, D: int, p: nat)
    requires OddPrime(p)
    ensures Cong(p, X(P, D, p), Pow(P, p)) && Cong(p, Y(P, D, p), Pow(D, p / 2))
  {
    Binomial(P, D, p);
    SumsBelowPrime(P, D, p, p - 1);
    OddPrimeIsOdd(p);
    ChooseSelf(p);
    assert Coef(P, p, p) == 1;
    CongAdd(p, SY(P, D, p, p - 1), 0, EY(D, p), EY(D, p));
  }

  // ----- Fermat -----

  lemma {:induction false} RationalRoot(P: int, n: nat)
    ensures X(P, 1, n) + Y(P, 1, n) == Pow(P + 1, n)
  {
    if n > 0 {
      RationalRoot(P, n - 1);
      var x, y := X(P, 1, n - 1), Y(P, 1, n - 1);
      SumTimes(P, x, y);
      assert Pow(P + 1, n) == (P + 1) * Pow(P + 1, n - 1) == (P + 1) * (x + y);
    }
  }

  lemma SumTimes(P: int, x: int, y: int)
    ensures (P + 1) * (x + y) == P * x + y + (P * y + x)
  {
  }

  lemma {:induction false} PowOne(n: nat)
    ensures Pow(1, n) == 1
  {
    if n > 0 {
      PowOne(n - 1);
    }
  }

  lemma {:induction false} FermatNat(p: nat, a: nat)
    requires OddPrime(p)
    ensures Cong(p, Pow(a, p), a)
    decreases a
  {
    if a > 0 {
      FermatNat(p, a - 1);
      RationalRoot(a - 1, p);
      Frobenius(a - 1, 1, p);
      PowOne(p / 2);
      CongAdd(p, X(a - 1, 1, p), Pow(a - 1, p), Y(a - 1, 1, p), 1);
      CongAdd(p, Pow(a - 1, p), a - 1, 1, 1);
    } else {
      assert Pow(0, p) == 0 * Pow(0, p - 1);
    }
  }

  /** Fermat's little theorem, for every integer. */
  lemma Fermat(p: nat, a: int)
    requires OddPrime(p)
    ensures Cong(p, Pow(a, p), a)
    ensures a % p != 0 ==> Cong(p, Pow(a, p - 1), 1)
  {
    CongSelf(p, a);
    PowCong(p, a % p, a, p);
    FermatNat(p, a % p);
    if a % p != 0 {
      assert Pow(a, p) == a * Pow(a, p - 1);
      Cancel(p, a, Pow(a, p - 1), 1);
    }
  }

  // ----- Lucas sequences at the prime -----

  lemma HalfStepAlgebra(P: int, Q: int, a: int, b: int, v: int, w: int)
    requires v == 2 * b - P * a && w == P * b - 2 * (Q * a)
    ensures 2 * b == P * a + v
    ensures 2 * w == P * v + (P * P - 4 * Q) * a
  {
    assert P * v == 2 * (P * b) - P * (P * a);
    assert (P * P - 4 * Q) * a == (P * P) * a - (4 * Q) * a;
    assert (P * P) * a == P * (P * a);
    assert (4 * Q) * a == 4 * (Q * a);
  }

  lemma HalfStep(P: int, Q: int, n: nat)
    ensures 2 * U(P, Q, n + 1) == P * U(P, Q, n) + V(P, Q, n)
    ensures 2 * V(P, Q, n + 1) == P * V(P, Q, n) + (P * P - 4 * Q) * U(P, Q, n)
  {
    VFromU(P, Q, n);
    VFromU(P, Q, n + 1);
    HalfStepAlgebra(P, Q, U(P, Q, n), U(P, Q, n + 1), V(P, Q, n), V(P, Q, n + 1));
  }

  lemma ScaleAlgebra(P: int, D: int, x: int, y: int, t: int, u: int, v: int, u': int, v': int)
    requires 2 * x == t * v && 2 * y == t * u
    requires 2 * u' == P * u + v && 2 * v' == P * v + D * u
    ensures 2 * (P * x + D * y) == (2 * t) * v' && 2 * (P * y + x) == (2 * t) * u'
  {
    assert 2 * (P * x) == P * (t * v) && P * (t * v) == t * (P * v);
    assert 2 * (D * y) == D * (t * u) && D * (t * u) == t * (D * u);
    assert 2 * (P * y) == P * (t * u) && P * (t * u) == t * (P * u);
    assert (2 * t) * v' == t * (2 * v') && (2 * t) * u' == t * (2 * u');
    assert t * (P * v + D * u) == t * (P * v) + t * (D * u);
    assert t * (P * u + v) == t * (P * u) + t * v;
  }

  lemma {:induction false} PowersAreLucas(P: int, Q: int, n: nat)
    ensures var D := P * P - 4 * Q;
            && 2 * X(P, D, n) == Pow(2, n) * V(P, Q, n)
            && 2 * Y(P, D, n) == Pow(2, n) * U(P, Q, n)
  {
    if n > 0 {
      var D := P * P - 4 * Q;
      PowersAreLucas(P, Q, n - 1);
      HalfStep(P, Q, n - 1);
      ScaleAlgebra(P, D, X(P, D, n - 1), Y(P, D, n - 1), Pow(2, n - 1),
                   U(P, Q, n - 1), V(P, Q, n - 1), U(P, Q, n), V(P, Q, n));
    }
  }

  lemma LucasAtPrime(p: nat, P: int, Q: int)
    requires OddPrime(p)
    ensures Cong(p, V(P, Q, p), P)
    ensures Cong(p, U(P, Q, p), Pow(P * P - 4 * Q, p / 2))
  {
    var D := P * P - 4 * Q;
    PowersAreLucas(P, Q, p);
    Frobenius(P, D, p);
    Fermat(p, P);
    Fermat(p, 2);
    CongMul(p, 2, 2, X(P, D, p), P);
    CongMul(p, Pow(2, p), 2, V(P, Q, p), V(P, Q, p));
    Cancel(p, 2, V(P, Q, p), P);
    CongMul(p, 2, 2, Y(P, D, p), Pow(D, p / 2));
    CongMul(p, Pow(2, p), 2, U(P, Q, p), U(P, Q, p));
    Cancel(p, 2, U(P, Q, p), Pow(D, p / 2));
  }

  lemma LucasAfterPrime(p: nat, P: int, Q: int)
    requires OddPrime(p) && Cong(p, Pow(P * P - 4 * Q, p / 2), -1)
    ensures Cong(p, V(P, Q, p + 1), 2 * Q)
  {
    var D := P * P - 4 * Q;
    HalfStep(P, Q, p);
    LucasAtPrime(p, P, Q);
    CongMul(p, P, P, V(P, Q, p), P);
    CongMul(p, D, D, U(P, Q, p), -1);
    CongAdd(p, P * V(P, Q, p), P * P, D * U(P, Q, p), D * -1);
    assert P * P + D * -1 == 2 * (2 * Q);
    Cancel(p, 2, V(P, Q, p + 1), 2 * Q);
  }

  /** If P*P - 4Q is a non-residue and Q a residue (Euler's criterion, as the code tests it), then
      V at (p+1)/2 is twice a square root of Q. */
  lemma LucasRoot(p: nat, P: int, Q: int)
    requires OddPrime(p)
    requires Cong(p, Pow(P * P - 4 * Q, p / 2), -1) && Cong(p, Pow(Q, p / 2), 1)
    ensures var v := V(P, Q, p / 2 + 1);
            Cong(p, v * v, 4 * Q)
  {
    OddPrimeIsOdd(p);
    var k := p / 2 + 1;
    LucasAfterPrime(p, P, Q);
    Doubling(P, Q, k);
    assert 2 * k == p + 1;
    CongMul(p, Q, Q, Pow(Q, p / 2), 1);
    assert Pow(Q, k) == Q * Pow(Q, p / 2);
    CongMul(p, 2, 2, Pow(Q, k), Q);
    CongAdd(p, V(P, Q, 2 * k), 2 * Q, 2 * Pow(Q, k), 2 * Q);
  }
}
