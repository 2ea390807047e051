/** The Lucas ladder of common/crypto/decompress.go, proved against the defining recurrences
    U(n) = P*U(n-1) - Q*U(n-2) and V(n) = P*V(n-1) - Q*V(n-2). */
module Lucas {
  import opened Modular

  function U(P: int, Q: int, n: nat): int {
    if n == 0 then 0 else if n == 1 then 1 else P * U(P, Q, n - 1) - Q * U(P, Q, n - 2)
  }

  function V(P: int, Q: int, n: nat): int {
    if n == 0 then 2 else if n == 1 then P else P * V(P, Q, n - 1) - Q * V(P, Q, n - 2)
  }

  // ----- Identities of the two sequences, over the integers -----

  lemma UAdditionStep(P: int, Q: int, a: int, b: int, c: int, d: int)
    ensures a * (P * c - Q * d) - Q * (b * c) == (P * a - Q * b) * c - Q * (a * d)
  {
    assert a * (P * c) == (P * a) * c;
    assert Q * (b * c) == (Q * b) * c;
    assert a * (Q * d) == Q * (a * d);
  }

  lemma {:induction false} UAddition(P: int, Q: int, m: nat, n: nat)
    ensures U(P, Q, m + n + 1) == U(P, Q, n + 1) * U(P, Q, m + 1) - Q * (U(P, Q, n) * U(P, Q, m))
    decreases n
  {
    if n > 0 {
      UAddition(P, Q, m + 1, n - 1);
      assert m + n + 1 == (m + 1) + (n - 1) + 1;
      UAdditionStep(P, Q, U(P, Q, n), U(P, Q, n - 1), U(P, Q, m + 1), U(P, Q, m));
    }
  }

  lemma VFromUStep(P: int, Q: int, a: int, b: int, c: int)
    requires a == P * b - Q * c
    ensures P * (2 * a - P * b) - Q * (2 * b - P * c) == 2 * (P * a - Q * b) - P * a
  {
    assert P * (2 * a - P * b) == 2 * (P * a) - P * (P * b);
    assert Q * (2 * b - P * c) == 2 * (Q * b) - Q * (P * c);
    assert P * a == P * (P * b) - P * (Q * c);
    assert Q * (P * c) == P * (Q * c);
  }

  lemma {:induction false} VFromU(P: int, Q: int, n: nat)
    ensures V(P, Q, n) == 2 * U(P, Q, n + 1) - P * U(P, Q, n)
  {
    if n >= 2 {
      VFromU(P, Q, n - 1);
      VFromU(P, Q, n - 2);
      VFromUStep(P, Q, U(P, Q, n), U(P, Q, n - 1), U(P, Q, n - 2));
    }
  }

  /** The norm of consecutive terms: the invariant quadratic form behind every doubling rule. */
  lemma {:induction false} Norm(P: int, Q: int, n: nat)
    ensures var a, b := U(P, Q, n), U(P, Q, n + 1);
            b * b - P * (a * b) + Q * (a * a) == Pow(Q, n)
  {
    if n > 0 {
      Norm(P, Q, n - 1);
      var z, a, b := U(P, Q, n - 1), U(P, Q, n), U(P, Q, n + 1);
      assert b == P * a - Q * z;
      NormStep(P, Q, z, a, b);
    }
  }

  lemma NormStep(P: int, Q: int, z: int, a: int, b: int)
    requires b == P * a - Q * z
    ensures b * b - P * (a * b) + Q * (a * a) == Q * (a * a - P * (z * a) + Q * (z * z))
  {
    var t := Q * z;
    calc {
      b * b - P * (a * b);
      { assert P * (a * b) == (P * a) * b; }
      (b - P * a) * b;
      (-t) * b;
      { assert (-t) * (P * a - t) == t * t - t * (P * a); }
      t * t - t * (P * a);
      { assert t * t == Q * (Q * (z * z)); assert t * (P * a) == Q * (P * (z * a)); }
      Q * (Q * (z * z)) - Q * (P * (z * a));
    }
  }

  /** The terms at 2n, 2n+1 and 2n+2 from a = U(n) and b = U(n+1). */
  lemma UAtDouble(P: int, Q: int, n: nat)
    ensures var a, b, c := U(P, Q, n), U(P, Q, n + 1), U(P, Q, n + 2);
            && U(P, Q, 2 * n) == 2 * (a * b) - P * (a * a)
            && U(P, Q, 2 * n + 1) == b * b - Q * (a * a)
            && U(P, Q, 2 * n + 2) == c * b - Q * (b * a)
  {
    UAddition(P, Q, n, n);
    UAddition(P, Q, n, n + 1);
    assert n + n + 1 == 2 * n + 1 && n + (n + 1) + 1 == 2 * n + 2;
    if n > 0 {
      UAddition(P, Q, n, n - 1);
      assert n + (n - 1) + 1 == 2 * n;
      EvenTerm(P, Q, U(P, Q, n - 1), U(P, Q, n), U(P, Q, n + 1));
    }
  }

  lemma EvenTerm(P: int, Q: int, z: int, a: int, b: int)
    requires b == P * a - Q * z
    ensures a * b - Q * (z * a) == 2 * (a * b) - P * (a * a)
  {
    assert Q * (z * a) == (Q * z) * a;
    assert (P * a - b) * a == P * (a * a) - a * b;
  }

  lemma Doubling(P: int, Q: int, n: nat)
    ensures U(P, Q, 2 * n) == U(P, Q, n) * V(P, Q, n)
    ensures U(P, Q, 2 * n + 1) == U(P, Q, n + 1) * V(P, Q, n) - Pow(Q, n)
    ensures V(P, Q, 2 * n) == V(P, Q, n) * V(P, Q, n) - 2 * Pow(Q, n)
    ensures V(P, Q, 2 * n + 1) == V(P, Q, n + 1) * V(P, Q, n) - P * Pow(Q, n)
  {
    UAtDouble(P, Q, n);
    VFromU(P, Q, n);
    VFromU(P, Q, n + 1);
    VFromU(P, Q, 2 * n);
    VFromU(P, Q, 2 * n + 1);
    Norm(P, Q, n);
    DoublingAlgebra(P, Q, U(P, Q, n), U(P, Q, n + 1), Pow(Q, n));
    DoublingAlgebraOdd(P, Q, U(P, Q, n), U(P, Q, n + 1), Pow(Q, n), U(P, Q, n + 2));
  }

  lemma DoublingAlgebra(P: int, Q: int, a: int, b: int, q: int)
    requires q == b * b - P * (a * b) + Q * (a * a)
    ensures 2 * (a * b) - P * (a * a) == a * (2 * b - P * a)
    ensures b * b - Q * (a * a) == b * (2 * b - P * a) - q
    ensures 2 * (b * b - Q * (a * a)) - P * (2 * (a * b) - P * (a * a))
         == (2 * b - P * a) * (2 * b - P * a) - 2 * q
  {
    var x := P * a;
    assert a * (2 * b - x) == 2 * (a * b) - x * a && x * a == P * (a * a);
    assert b * (2 * b - x) == 2 * (b * b) - x * b && x * b == P * (a * b);
    assert (2 * b - x) * (2 * b - x) == 4 * (b * b) - 4 * (x * b) + x * x;
    assert P * (2 * (a * b) - P * (a * a)) == 2 * (P * (a * b)) - P * (P * (a * a));
    assert x * x == P * (P * (a * a)) by { assert x * x == P * (a * x); assert a * x == P * (a * a); }
  }

  lemma DoublingAlgebraOdd(P: int, Q: int, a: int, b: int, q: int, c: int)
    requires q == b * b - P * (a * b) + Q * (a * a)
    requires c == P * b - Q * a
    ensures 2 * (c * b - Q * (b * a)) - P * (b * b - Q * (a * a))
         == (2 * c - P * b) * (2 * b - P * a) - P * q
  {
    var y, z, x := P * b, Q * a, P * a;
    Product(y, z, b, x);
    assert c * b == y * b - z * b;
    assert y * b == P * (b * b) && z * b == Q * (b * a);
    assert y * x == P * (P * (a * b)) by { Regroup(P, b, P, a); }
    assert z * x == P * (Q * (a * a)) by { Regroup(Q, a, P, a); }
    assert P * (b * b - Q * (a * a)) == P * (b * b) - P * (Q * (a * a));
    assert P * q == P * (b * b) - P * (P * (a * b)) + P * (Q * (a * a));
  }

  lemma Product(y: int, z: int, b: int, x: int)
    ensures (y - 2 * z) * (2 * b - x) == 2 * (y * b) - y * x - 4 * (z * b) + 2 * (z * x)
  {
  }

  lemma Regroup(m: int, a: int, n: int, b: int)
    ensures (m * a) * (n * b) == n * (m * (b * a))
  {
    assert (m * a) * (n * b) == n * ((m * a) * b);
    assert (m * a) * b == m * (b * a);
  }

  // ----- Bits, as big.Int.Bit and big.Int.BitLen give them -----

  function Shr(k: nat, j: nat): nat {
    if j == 0 then k else Shr(k / 2, j - 1)
  }

  function Bit(k: nat, j: nat): nat {
    Shr(k, j) % 2
  }

  function BitLen(k: nat): nat {
    if k == 0 then 0 else 1 + BitLen(k / 2)
  }

  lemma {:induction false} ShrStep(k: nat, j: nat)
    ensures Shr(k, j) == 2 * Shr(k, j + 1) + Bit(k, j)
  {
    if j > 0 {
      ShrStep(k / 2, j - 1);
    }
  }

  lemma {:induction false} TopBit(k: nat)
    requires k > 0
    ensures Shr(k, BitLen(k)) == 0 && Bit(k, BitLen(k) - 1) == 1
  {
    if k > 1 {
      TopBit(k / 2);
    }
  }

  /** The loop of getLowestSetBit; with k == 0 it would not end. */
  method LowestSetBit(k: nat) returns (s: nat)
    requires k > 0
    ensures Bit(k, s) == 1 && s < BitLen(k)
    ensures forall i :: 0 <= i < s ==> Bit(k, i) == 0
    ensures s == 0 <==> k % 2 == 1
  {
    s := 0;
    TopBit(k);
    while Bit(k, s) != 1
      invariant s < BitLen(k)
      invariant forall i :: 0 <= i < s ==> Bit(k, i) == 0
      decreases BitLen(k) - s
    {
      s := s + 1;
    }
    assert s > 0 ==> Bit(k, 0) == 0;
  }

  // ----- The ladder -----

  /** What the five registers hold once the bits of the prefix h have been read. */
  ghost predicate Ladder(p: int, P: int, Q: int, h: nat, uh: int, vl: int, vh: int, ql: int, qh: int)
    requires p > 0
  {
    && Cong(p, uh, U(P, Q, h + 1))
    && Cong(p, vl, V(P, Q, h))
    && Cong(p, vh, V(P, Q, h + 1))
    && Cong(p, ql * qh, Pow(Q, h))
  }

  lemma NextPower(p: int, Q: int, h: nat, ql: int)
    requires p > 0 && Cong(p, ql, Pow(Q, h))
    ensures Cong(p, (ql * Q) % p, Pow(Q, h + 1))
    ensures Cong(p, ql * ((ql * Q) % p), Pow(Q, 2 * h + 1))
    ensures Cong(p, ql * ql, Pow(Q, 2 * h))
  {
    var q := Pow(Q, h);
    CongMul(p, ql, q, Q, Q);
    assert q * Q == Pow(Q, h + 1);
    CongSelf(p, ql * Q);
    CongMul(p, ql, q, (ql * Q) % p, Pow(Q, h + 1));
    CongMul(p, ql, q, ql, q);
    PowAdd(Q, h, h + 1);
    PowAdd(Q, h, h);
    assert h + (h + 1) == 2 * h + 1 && h + h == 2 * h;
  }

  /** V(2h+1) and U(2h+1), which both kinds of step and the last odd step compute. */
  lemma OddStep(p: int, P: int, Q: int, h: nat, uh: int, vl: int, vh: int, ql: int)
    requires p > 0
    requires Cong(p, uh, U(P, Q, h + 1)) && Cong(p, vl, V(P, Q, h)) && Cong(p, vh, V(P, Q, h + 1))
    requires Cong(p, ql, Pow(Q, h))
    ensures (vh * vl - P * ql) % p == V(P, Q, 2 * h + 1) % p
    ensures (uh * vl - ql) % p == U(P, Q, 2 * h + 1) % p
  {
    Doubling(P, Q, h);
    CongMul(p, P, P, ql, Pow(Q, h));
    CongMulSub(p, vh, V(P, Q, h + 1), vl, V(P, Q, h), P * ql, P * Pow(Q, h));
    CongMulSub(p, uh, U(P, Q, h + 1), vl, V(P, Q, h), ql, Pow(Q, h));
  }

  /** V(2n) from V(n) and Q^n: used for V(2h), for V(2h+2) and by the trailing-zeros loop. */
  lemma SquareStep(p: int, P: int, Q: int, n: nat, v: int, q: int)
    requires p > 0 && Cong(p, v, V(P, Q, n)) && Cong(p, q, Pow(Q, n))
    ensures (v * v - 2 * q) % p == V(P, Q, 2 * n) % p
  {
    Doubling(P, Q, n);
    CongMul(p, 2, 2, q, Pow(Q, n));
    CongMulSub(p, v, V(P, Q, n), v, V(P, Q, n), 2 * q, 2 * Pow(Q, n));
  }

  lemma LadderOne(p: int, P: int, Q: int, h: nat, uh: int, vl: int, vh: int, ql: int, qh: int)
    requires p > 0 && Ladder(p, P, Q, h, uh, vl, vh, ql, qh)
    ensures var q := (ql * qh) % p;
            var q' := (q * Q) % p;
            Ladder(p, P, Q, 2 * h + 1, (uh * vh) % p, (vh * vl - P * q) % p, (vh * vh - 2 * q') % p, q, q')
  {
    var q := (ql * qh) % p;
    var q' := (q * Q) % p;
    CongSelf(p, ql * qh);
    NextPower(p, Q, h, q);
    OddStep(p, P, Q, h, uh, vl, vh, q);
    CongSelf(p, vh * vl - P * q);
    SquareStep(p, P, Q, h + 1, vh, q');
    CongSelf(p, vh * vh - 2 * q');
    assert 2 * (h + 1) == 2 * h + 1 + 1;
    Doubling(P, Q, h + 1);
    CongMul(p, uh, U(P, Q, h + 1), vh, V(P, Q, h + 1));
    CongSelf(p, uh * vh);
  }

  lemma LadderZero(p: int, P: int, Q: int, h: nat, uh: int, vl: int, vh: int, ql: int, qh: int)
    requires p > 0 && Ladder(p, P, Q, h, uh, vl, vh, ql, qh)
    ensures var q := (ql * qh) % p;
            Ladder(p, P, Q, 2 * h, (uh * vl - q) % p, (vl * vl - 2 * q) % p, (vh * vl - P * q) % p, q, q)
  {
    var q := (ql * qh) % p;
    CongSelf(p, ql * qh);
    NextPower(p, Q, h, q);
    OddStep(p, P, Q, h, uh, vl, vh, q);
    CongSelf(p, uh * vl - q);
    CongSelf(p, vh * vl - P * q);
    SquareStep(p, P, Q, h, vl, q);
    CongSelf(p, vl * vl - 2 * q);
  }

  /** The odd step for the lowest set bit, and the power of Q kept for the trailing zeros. */
  lemma LadderLast(p: int, P: int, Q: int, h: nat, uh: int, vl: int, vh: int, ql: int, qh: int)
    requires p > 0 && Ladder(p, P, Q, h, uh, vl, vh, ql, qh)
    ensures var q := (ql * qh) % p;
            && (uh * vl - q) % p == U(P, Q, 2 * h + 1) % p
            && (vh * vl - P * q) % p == V(P, Q, 2 * h + 1) % p
            && Cong(p, (q * ((q * Q) % p)) % p, Pow(Q, 2 * h + 1))
  {
    var q := (ql * qh) % p;
    CongSelf(p, ql * qh);
    NextPower(p, Q, h, q);
    OddStep(p, P, Q, h, uh, vl, vh, q);
    CongSelf(p, q * ((q * Q) % p));
  }

  /** The first loop of fastLucasSequence: bits n-1 down to s+1. */
  method ReadPrefix(p: int, P: int, Q: int, k: nat, s: nat)
    returns (uh: int, vl: int, vh: int, ql: int, qh: int)
    requires p > 0 && k > 0 && s < BitLen(k)
    ensures Ladder(p, P, Q, Shr(k, s + 1), uh, vl, vh, ql, qh)
  {
    var n := BitLen(k);
    TopBit(k);
    uh, vl, ql, qh, vh := 1, 2, 1, 1, P;
    var j := n - 1;
    while j >= s + 1
      invariant s <= j <= n - 1
      invariant Ladder(p, P, Q, Shr(k, j + 1), uh, vl, vh, ql, qh)
    {
      ghost var h := Shr(k, j + 1);
      ShrStep(k, j);
      if Bit(k, j) == 1 {
        LadderOne(p, P, Q, h, uh, vl, vh, ql, qh);
        ql := (ql * qh) % p;
        qh := (ql * Q) % p;
        uh := (uh * vh) % p;
        vl := (vh * vl - P * ql) % p;
        vh := (vh * vh - 2 * qh) % p;
      } else {
        LadderZero(p, P, Q, h, uh, vl, vh, ql, qh);
        ql := (ql * qh) % p;
        qh := ql;
        uh := (uh * vl - ql) % p;
        vh := (vh * vl - P * ql) % p;
        vl := (vl * vl - 2 * ql) % p;
      }
      j := j - 1;
    }
  }

  lemma ZeroStep(p: int, P: int, Q: int, m: nat, uh: int, vl: int, ql: int)
    requires p > 0 && vl == V(P, Q, m) % p && Cong(p, ql, Pow(Q, m))
    ensures (vl * vl - 2 * ql) % p == V(P, Q, 2 * m) % p
    ensures Cong(p, (ql * ql) % p, Pow(Q, 2 * m))
    ensures (uh * vl * p) % p == 0
  {
    CongSelf(p, V(P, Q, m));
    SquareStep(p, P, Q, m, vl, ql);
    NextPower(p, Q, m, ql);
    CongSelf(p, ql * ql);
    CongShift(p, uh * vl * p, 0, uh * vl);
  }

  /** The last loop of fastLucasSequence: one doubling for each trailing zero of k. */
  method TrailingZeros(p: int, P: int, Q: int, k: nat, s: nat, u: int, v: int, q: int)
    returns (uh: int, vl: int)
    requires p > 0 && (forall i :: 0 <= i < s ==> Bit(k, i) == 0)
    requires v == V(P, Q, Shr(k, s)) % p && Cong(p, q, Pow(Q, Shr(k, s)))
    ensures vl == V(P, Q, k) % p
    ensures if s == 0 then uh == u else uh % p == 0
  {
    uh, vl := u, v;
    var ql := q;
    var j := 1;
    while j <= s
      invariant 1 <= j <= s + 1
      invariant vl == V(P, Q, Shr(k, s + 1 - j)) % p
      invariant Cong(p, ql, Pow(Q, Shr(k, s + 1 - j)))
      invariant if j == 1 then uh == u else uh % p == 0
    {
      ShrStep(k, s - j);
      ZeroStep(p, P, Q, Shr(k, s + 1 - j), uh, vl, ql);
      uh := uh * vl;
      uh := uh * p;
      vl := (vl * vl - 2 * ql) % p;
      ql := (ql * ql) % p;
      j := j + 1;
    }
  }

  /** fastLucasSequence. V is right for every k. U is right modulo p exactly when k is odd, or p
      happens to divide U(k): the trailing-zeros loop multiplies by the modulus where it should
      reduce by it. */
  method FastLucasSequence(p: int, P: int, Q: int, k: nat) returns (uh: int, vl: int)
    requires p > 0 && k > 0
    ensures vl == V(P, Q, k) % p
    ensures k % 2 == 1 ==> uh == U(P, Q, k) % p
    ensures k % 2 == 0 ==> uh % p == 0
    ensures Cong(p, uh, U(P, Q, k)) <==> k % 2 == 1 || U(P, Q, k) % p == 0
  {
    var s := LowestSetBit(k);
    var vh, ql, qh;
    uh, vl, vh, ql, qh := ReadPrefix(p, P, Q, k, s);
    LadderLast(p, P, Q, Shr(k, s + 1), uh, vl, vh, ql, qh);
    ShrStep(k, s);

    ql := (ql * qh) % p;
    qh := (ql * Q) % p;
    uh := (uh * vl - ql) % p;
    vl := (vh * vl - P * ql) % p;
    ql := (ql * qh) % p;

    uh, vl := TrailingZeros(p, P, Q, k, s, uh, vl, ql);
    CongSelf(p, U(P, Q, k));
  }

  /** An even index where no U that can be returned, a multiple of the modulus, is the right one. */
  lemma EvenIndexExample(uh: int)
    requires uh % 3 == 0
    ensures !Cong(3, uh, U(1, 1, 2))
  {
    assert U(1, 1, 2) == 1;
  }
}
