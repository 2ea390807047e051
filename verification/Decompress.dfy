/** curveSqrt and deCompress of common/crypto/decompress.go (section 2.3.4 of SEC 1). */
module Decompress {
  import opened Types
  import opened Modular
  import opened Lucas
  import opened Primes

  /** OutOfDraws: the supply of random primes ended before the retry loop did. */
  datatype Sqrt = Root(y: nat) | NoRoot | OutOfDraws

  ghost predicate HasRoot(p: int, a: int)
    requires p > 0
  {
    exists z: int :: IsRoot(p, z, a)
  }

  ghost predicate IsRoot(p: int, z: int, a: int)
    requires p > 0
  {
    Cong(p, z * z, a)
  }

  /** The squares curveSqrt fails to find: none when p % 4 == 3, and only zero when p % 4 == 1. */
  predicate Missed(p: int, a: int) {
    p % 4 == 1 && a == 0
  }

  lemma HalveCong(p: int, x: int)
    requires p > 0 && p % 2 == 1 && (2 * x) % p == 0
    ensures x % p == 0
  {
    var k := (2 * x) / p;
    assert 2 * x == k * p;
    assert k % 2 == 0 by {
      var q := p / 2;
      assert k * p == 2 * (k * q) + k;
    }
    var j := k / 2;
    assert (2 * j) * p == 2 * (j * p);
    assert x == j * p;
    MultipleMod(p, j);
  }

  lemma QuarterCong(p: int, r: int, a: int)
    requires p > 0 && p % 2 == 1 && Cong(p, (2 * r) * (2 * r), 4 * a)
    ensures IsRoot(p, r, a)
  {
    var d := r * r - a;
    CongAdd(p, (2 * r) * (2 * r), 4 * a, 4 * a, 4 * a);
    assert (2 * r) * (2 * r) - 4 * a == 2 * (2 * d);
    HalveCong(p, 2 * d);
    HalveCong(p, d);
    CongAdd(p, d, 0, a, a);
  }

  /** The value returned from an even or an odd V with V*V == 4a mod p is a root of a. */
  lemma HalfOfV(p: int, v: int, a: int, r: int)
    requires p > 0 && p % 2 == 1 && Cong(p, v * v, 4 * a)
    requires 2 * r == v || 2 * r == v + p
    ensures IsRoot(p, r, a)
  {
    if 2 * r == v + p {
      CongShift(p, 2 * r, v, 1);
    }
    CongMul(p, 2 * r, v, 2 * r, v);
    QuarterCong(p, r, a);
  }

  /** Euler's criterion, the direction the code relies on. */
  lemma ResidueCriterion(p: nat, z: int, a: int)
    requires OddPrime(p) && IsRoot(p, z, a) && a % p != 0
    ensures Cong(p, Pow(a, p / 2), 1)
  {
    OddPrimeIsOdd(p);
    if z % p == 0 {
      CongMul(p, z, 0, z, 0);
      assert false;
    }
    Fermat(p, z);
    PowCong(p, z * z, a, p / 2);
    PowMulBase(z, z, p / 2);
    PowAdd(z, p / 2, p / 2);
    assert p / 2 + p / 2 == p - 1;
  }

  /** For p % 4 == 3 the power (p+1)/4 of a square is one of its roots. */
  lemma QuarterPower(p: nat, z: int, a: int)
    requires OddPrime(p) && p % 4 == 3 && IsRoot(p, z, a)
    ensures var r := Pow(a, p / 4 + 1);
            Cong(p, r * r, a)
  {
    var e := p / 4 + 1;
    PowAdd(a, e, e);
    assert e + e == p / 2 + 1;
    assert Pow(a, p / 2 + 1) == a * Pow(a, p / 2);
    if a % p == 0 {
      CongMul(p, a, 0, Pow(a, p / 2), Pow(a, p / 2));
    } else {
      ResidueCriterion(p, z, a);
      CongMul(p, a, a, Pow(a, p / 2), 1);
    }
  }

  lemma MinusOne(p: int, x: int)
    requires p > 1 && x % p == p - 1
    ensures Cong(p, x, -1)
  {
    CongShift(p, -1, p - 1, -1);
  }

  /** One accepted draw: the Lucas value squares to 4a, so for a prime modulus the search ends here. */
  lemma DrawSucceeds(p: nat, a: int, P: nat)
    requires OddPrime(p) && Cong(p, Pow(a, p / 2), 1)
    requires Pow(P * P - (4 * a) % p, p / 2) % p == p - 1
    ensures var v := V(P, a, p / 2 + 1) % p;
            (v * v) % p == (4 * a) % p
  {
    CongSelf(p, 4 * a);
    CongAdd(p, P * P, P * P, (4 * a) % p, 4 * a);
    PowCong(p, P * P - (4 * a) % p, P * P - 4 * a, p / 2);
    MinusOne(p, Pow(P * P - 4 * a, p / 2));
    LucasRoot(p, P, a);
    CongSelf(p, V(P, a, p / 2 + 1));
    CongMul(p, V(P, a, p / 2 + 1) % p, V(P, a, p / 2 + 1), V(P, a, p / 2 + 1) % p, V(P, a, p / 2 + 1));
  }

  lemma QuarterPowerComplete(p: nat, a: int)
    requires OddPrime(p) && p % 4 == 3 && 0 <= a < p && HasRoot(p, a)
    ensures var y := Pow(a, p / 4 + 1) % p;
            (y * y) % p == a
  {
    var z :| IsRoot(p, z, a);
    QuarterPower(p, z, a);
    var w := Pow(a, p / 4 + 1);
    CongSelf(p, w);
    CongMul(p, w % p, w, w % p, w);
    CongSmall(p, (w % p) * (w % p), a);
  }

  lemma LegendreComplete(p: nat, a: int)
    requires OddPrime(p) && 0 < a < p && HasRoot(p, a)
    ensures Pow(a, p / 2) % p == 1
  {
    var z :| IsRoot(p, z, a);
    SmallMod(p, a);
    ResidueCriterion(p, z, a);
    CongSmall(p, Pow(a, p / 2), 1);
  }

  lemma ZeroPower(n: nat)
    requires n > 0
    ensures Pow(0, n) == 0
  {
  }

  /** One turn of the retry loop of curveSqrt, for p % 4 == 1; None is another turn. */
  method TryDraw(p: nat, a: int, P: nat) returns (r: Option<Sqrt>)
    requires p > 2 && p % 4 == 1
    ensures r.Some? && r.value.Root? ==> r.value.y < p && IsRoot(p, r.value.y, a)
    ensures r.Some? ==> !r.value.OutOfDraws?
    ensures Prime(p) && Pow(a, p / 2) % p == 1 ==> r != Some(NoRoot)
  {
    var fourQ := (4 * a) % p;
    if P >= p || Pow(P * P - fourQ, (p - 1) / 2) % p != p - 1 {
      return None;
    }
    CongSelf(p, 4 * a);
    var u, v := FastLucasSequence(p, P, a, 2 * ((p - 1) / 4) + 1);
    if Prime(p) && Pow(a, p / 2) % p == 1 {
      SmallMod(p, 1);
      DrawSucceeds(p, a, P);
    }
    var hit := (v * v) % p == fourQ;
    if hit {
      CongSelf(p, v * v);
    }
    r := FromTerms(p, a, hit, u, v);
  }

  /** Half of v, or of v + p where v is odd. */
  method Halve(p: nat, v: nat) returns (y: nat)
    requires p % 2 == 1 && v < p
    ensures y < p && (2 * y == v || 2 * y == v + p)
  {
    y := if v % 2 == 1 then (v + p) / 2 else v / 2;
  }

  /** What the Lucas terms of a draw say about a root; `hit` tells whether v * v is 4a. */
  method FromTerms(p: nat, a: int, hit: bool, u: int, v: nat) returns (r: Option<Sqrt>)
    requires p > 2 && p % 2 == 1 && v < p && (hit ==> Cong(p, v * v, 4 * a))
    ensures r.Some? && r.value.Root? ==> r.value.y < p && IsRoot(p, r.value.y, a)
    ensures r.Some? ==> !r.value.OutOfDraws?
    ensures hit ==> r != Some(NoRoot)
  {
    if hit {
      var y := Halve(p, v);
      HalfOfV(p, v, a, y);
      return Some(Root(y));
    }
    return if u == 1 || u == p - 1 then Some(NoRoot) else None;
  }

  /** The retry loop; `draws` are the numbers rand.Prime hands out. */
  method LucasSqrt(p: nat, a: int, draws: seq<nat>) returns (r: Sqrt)
    requires p > 2 && p % 4 == 1
    ensures r.Root? ==> r.y < p && IsRoot(p, r.y, a)
    ensures Prime(p) && Pow(a, p / 2) % p == 1 ==> !r.NoRoot?
  {
    for i := 0 to |draws| {
      var found := TryDraw(p, a, draws[i]);
      if found.Some? {
        return found.value;
      }
    }
    return OutOfDraws;
  }

  /** The case p % 4 == 3, by one power. */
  method QuarterSqrt(p: nat, a: int) returns (r: Sqrt)
    requires p > 2 && p % 4 == 3
    ensures r.Root? ==> r.y < p && IsRoot(p, r.y, a)
    ensures !r.OutOfDraws?
    ensures Prime(p) && 0 <= a < p ==> (r.Root? <==> HasRoot(p, a))
  {
    var y := Pow(a, p / 4 + 1) % p;
    if (y * y) % p == a {
      CongSelf(p, y * y);
      assert IsRoot(p, y, a);
      return Root(y);
    }
    if Prime(p) && 0 <= a < p && HasRoot(p, a) {
      QuarterPowerComplete(p, a);
    }
    return NoRoot;
  }

  /** The case p % 4 == 1: the Legendre symbol first, then the retry loop. */
  method LegendreSqrt(p: nat, a: int, draws: seq<nat>) returns (r: Sqrt)
    requires p > 2 && p % 4 == 1
    ensures r.Root? ==> r.y < p && IsRoot(p, r.y, a)
    ensures Prime(p) && 0 <= a < p && !r.OutOfDraws? ==> (r.Root? <==> HasRoot(p, a) && a != 0)
  {
    if Pow(a, (p - 1) / 2) % p != 1 {
      if Prime(p) && 0 < a < p && HasRoot(p, a) {
        LegendreComplete(p, a);
      }
      return NoRoot;
    }
    ZeroPower((p - 1) / 2);
    r := LucasSqrt(p, a, draws);
  }

  /** curveSqrt. Whatever odd modulus it is given, what it returns is a root. For a prime modulus it
      returns one exactly when there is one, unless the root is the one Missed names. */
  method CurveSqrt(p: nat, ySquare: int, draws: seq<nat>) returns (r: Sqrt)
    requires p > 2 && p % 2 == 1
    ensures r.Root? ==> r.y < p && IsRoot(p, r.y, ySquare)
    ensures r.OutOfDraws? ==> p % 4 == 1
    ensures Prime(p) && 0 <= ySquare < p && !r.OutOfDraws? ==>
              (r.Root? <==> HasRoot(p, ySquare) && !Missed(p, ySquare))
  {
    assert Bit(p, 1) == Shr(p / 2, 0) % 2;
    if Bit(p, 1) == 1 {
      r := QuarterSqrt(p, ySquare);
    } else {
      r := LegendreSqrt(p, ySquare, draws);
    }
  }

  // ----- Points -----

  /** The parameters deCompress reads: a = 0 on secp256k1, a = -3 on every other curve. */
  datatype Curve = Curve(p: nat, b: int, isS256: bool) {
    ghost predicate Valid() {
      p > 2 && p % 2 == 1
    }

    function A(): int {
      if isS256 then 0 else -3
    }

    function Rhs(x: int): int {
      (x * x + A()) * x + b
    }

    ghost predicate OnCurve(x: int, y: int)
      requires Valid()
    {
      Cong(p, y * y, Rhs(x))
    }
  }

  datatype Decompressed = Point(x: nat, y: nat) | InvalidCompression | Exhausted

  lemma RhsReduced(c: Curve, x: int, t: int)
    requires c.Valid() && Cong(c.p, t, x * x + c.A())
    ensures (((t * x) % c.p) + c.b) % c.p == c.Rhs(x) % c.p
  {
    CongMul(c.p, t, x * x + c.A(), x, x);
    CongSelf(c.p, t * x);
    CongAdd(c.p, (t * x) % c.p, (x * x + c.A()) * x, c.b, c.b);
  }

  lemma NegatedRoot(p: int, r: int, a: int)
    requires p > 0 && IsRoot(p, r, a)
    ensures IsRoot(p, p - r, a)
  {
    assert (p - r) * (p - r) == r * r + (p - 2 * r) * p;
    CongShift(p, (p - r) * (p - r), r * r, p - 2 * r);
  }

  lemma DifferenceOfSquares(r: int, y: int)
    ensures r * r - y * y == (r - y) * (r + y)
  {
  }

  lemma CongDifference(p: nat, u: int, v: int)
    requires p > 0 && Cong(p, u, v)
    ensures (u - v) % p == 0
  {
    CongAdd(p, u, v, v, v);
  }

  lemma RootsDiffer(p: nat, r: nat, y: nat, a: int)
    requires OddPrime(p) && y < r < p && IsRoot(p, r, a) && IsRoot(p, y, a)
    ensures r == p - y
  {
    CongDifference(p, r * r, y * y);
    DifferenceOfSquares(r, y);
    EuclidSmall(p, r - y, r + y);
    SumIsModulus(p, r + y);
  }

  /** Modulo a prime, a square has no roots but y and p - y. */
  lemma TwoRoots(p: nat, r: nat, y: nat, a: int)
    requires OddPrime(p) && r < p && y < p && IsRoot(p, r, a) && IsRoot(p, y, a)
    ensures r == y || r == p - y
  {
    if r > y {
      RootsDiffer(p, r, y, a);
    } else if r < y {
      RootsDiffer(p, y, r, a);
    }
  }

  lemma SumIsModulus(p: nat, s: nat)
    requires p > 0 && 0 < s < 2 * p && s % p == 0
    ensures s == p
  {
    var k := s / p;
    assert s == k * p;
    assert k >= 2 ==> k * p >= 2 * p;
    assert k <= 0 ==> k * p <= 0;
  }

  /** The ordinate squared, reduced at every step as deCompress does. */
  method CurveRhs(x: nat, c: Curve) returns (ySquare: nat)
    requires c.Valid()
    ensures ySquare == c.Rhs(x) % c.p && ySquare < c.p
  {
    var p := c.p;
    ySquare := (x * x) % p;
    CongSelf(p, x * x);
    if !c.isS256 {
      CongAdd(p, ySquare, x * x, -3, -3);
      CongSelf(p, ySquare + -3);
      ySquare := (ySquare + -3) % p;
    }
    RhsReduced(c, x, ySquare);
    ySquare := (ySquare * x) % p;
    ySquare := (ySquare + c.b) % p;
  }

  lemma RootsOfPoint(c: Curve, x: int, a: nat, r: nat, y: nat)
    requires c.Valid() && Prime(c.p) && a == c.Rhs(x) % c.p && y < c.p && c.OnCurve(x, y)
    ensures IsRoot(c.p, y, a)
    ensures a == 0 ==> y == 0
    ensures r < c.p && IsRoot(c.p, r, a) ==> r == y || r == c.p - y
  {
    CongSelf(c.p, c.Rhs(x));
    SmallMod(c.p, 0);
    if a == 0 && y > 0 {
      EuclidSmall(c.p, y, y);
      SmallMod(c.p, y);
    }
    if r < c.p && IsRoot(c.p, r, a) {
      TwoRoots(c.p, r, y, a);
    }
  }

  lemma RootIsPoint(c: Curve, x: int, y: int)
    requires c.Valid() && IsRoot(c.p, y, c.Rhs(x) % c.p)
    ensures c.OnCurve(x, y) && c.OnCurve(x, c.p - y)
  {
    CongSelf(c.p, c.Rhs(x));
    NegatedRoot(c.p, y, c.Rhs(x));
  }

  /** The root with the asked parity; p - 0 is left unreduced, as the code leaves it. */
  function WithParity(p: nat, y: nat, yTilde: int): (y': nat)
    requires y < p && p % 2 == 1
    ensures yTilde == 0 || yTilde == 1 ==> y' % 2 == yTilde
    ensures y' == y || y' == p - y
  {
    if (y % 2 == 0 && yTilde != 0) || (y % 2 != 0 && yTilde != 1) then p - y else y
  }

  lemma ParityDetermines(c: Curve, x: int, a: nat, r: nat, y: nat, yTilde: int)
    requires c.Valid() && Prime(c.p) && a == c.Rhs(x) % c.p && y < c.p && c.OnCurve(x, y)
    requires r < c.p && IsRoot(c.p, r, a) && y % 2 == yTilde
    ensures WithParity(c.p, r, yTilde) == y
  {
    RootsOfPoint(c, x, a, r, y);
    PickParity(c.p, r, y, yTilde);
  }

  lemma PickParity(p: nat, r: nat, y: nat, yTilde: int)
    requires p % 2 == 1 && r < p && y < p && (r == y || r == p - y) && y % 2 == yTilde
    ensures WithParity(p, r, yTilde) == y
  {
  }

  lemma NoPoint(c: Curve, x: int, a: nat, y: nat)
    requires c.Valid() && Prime(c.p) && a == c.Rhs(x) % c.p && y < c.p && c.OnCurve(x, y)
    requires HasRoot(c.p, a) ==> Missed(c.p, a)
    ensures Missed(c.p, y)
  {
    RootsOfPoint(c, x, a, 0, y);
  }

  /** deCompress. A point it returns is on the curve and has the asked parity; for a prime modulus the
      unique reduced point with this abscissa and parity is returned if there is one. */
  method DeCompress(yTilde: int, x: nat, c: Curve, draws: seq<nat>) returns (d: Decompressed)
    requires c.Valid()
    ensures d.Point? ==> d.x == x && d.y <= c.p && c.OnCurve(x, d.y)
    ensures d.Point? && (yTilde == 0 || yTilde == 1) ==> d.y % 2 == yTilde
    ensures Prime(c.p) ==>
              forall y: nat :: y < c.p && c.OnCurve(x, y) && y % 2 == yTilde && !Missed(c.p, y) ==>
                d == Point(x, y) || d.Exhausted?
    ensures Prime(c.p) && d.InvalidCompression? ==>
              forall y: nat :: y < c.p && c.OnCurve(x, y) ==> Missed(c.p, y)
  {
    var ySquare := CurveRhs(x, c);
    var s := CurveSqrt(c.p, ySquare, draws);
    match s
    case OutOfDraws =>
      d := Exhausted;
    case NoRoot =>
      d := InvalidCompression;
      forall y: nat | Prime(c.p) && y < c.p && c.OnCurve(x, y)
        ensures Missed(c.p, y)
      {
        NoPoint(c, x, ySquare, y);
      }
    case Root(y) =>
      d := Point(x, WithParity(c.p, y, yTilde));
      RootIsPoint(c, x, y);
      forall y': nat | Prime(c.p) && y' < c.p && c.OnCurve(x, y') && y' % 2 == yTilde
        ensures d == Point(x, y')
      {
        ParityDetermines(c, x, ySquare, y, y', yTilde);
      }
  }
}
