/** The Hull-Dobell theorem for the multipliers that rng_lcfc_init_incr picks (a - 1 divisible by four
    and by every prime of the modulus): x -> a * x + c walks through all residues modulo m before it
    repeats one, exactly when c is coprime to m. */
module FullCycle {
  import opened Numbers

  function Pow(a: int, n: nat): int {
    if n == 0 then 1 else a * Pow(a, n - 1)
  }

  /** 1 + a + ... + a^(n-1), in Horner form. */
  function Geo(a: int, n: nat): int {
    if n == 0 then 0 else 1 + a * Geo(a, n - 1)
  }

  /** n steps of x -> a * x + c over the unbounded integers. */
  function Affine(a: int, c: int, x: int, n: nat): int {
    if n == 0 then x else a * Affine(a, c, x, n - 1) + c
  }

  /** What the theorem asks of the multiplier. */
  ghost predicate GoodMultiplier(a: int, m: int) {
    Divides(4, a - 1) && forall p :: Prime(p) && Divides(p, m) ==> Divides(p, a - 1)
  }

  /** The distance walked in n steps is Geo(a, n) times the first step. */
  lemma {:induction false} AffineClosedForm(a: int, c: int, x: int, n: nat)
    ensures Affine(a, c, x, n) == x + Geo(a, n) * ((a - 1) * x + c)
  {
    if n > 0 {
      AffineClosedForm(a, c, x, n - 1);
      AffineAlgebra(a, c, x, Geo(a, n - 1), (a - 1) * x + c);
    }
  }

  lemma AffineAlgebra(a: int, c: int, x: int, g: int, z: int)
    requires z == (a - 1) * x + c
    ensures a * (x + g * z) + c == x + (1 + a * g) * z
  {
    MulDistributes(a, x, g * z);
    MulSwaps(a, g, z);
    MulDistributes(z, 1, a * g);
  }

  lemma {:induction false} AffineSplit(a: int, c: int, x: int, i: nat, j: nat)
    ensures Affine(a, c, x, i + j) == Affine(a, c, Affine(a, c, x, i), j)
  {
    if j > 0 {
      AffineSplit(a, c, x, i, j - 1);
    }
  }

  lemma {:induction false} PowMinusOne(a: int, n: nat)
    ensures Pow(a, n) - 1 == (a - 1) * Geo(a, n)
  {
    if n > 0 {
      PowMinusOne(a, n - 1);
      PowAlgebra(a, Pow(a, n - 1), Geo(a, n - 1));
    }
  }

  lemma PowAlgebra(a: int, w: int, g: int)
    requires w - 1 == (a - 1) * g
    ensures a * w - 1 == (a - 1) * (1 + a * g)
  {
    MulDistributes(a - 1, 1, a * g);
    MulSwaps(a - 1, a, g);
    MulDistributes(a, 1, w - 1);
  }

  lemma {:induction false} GeoSplit(a: int, i: nat, j: nat)
    ensures Geo(a, i + j) == Geo(a, i) + Pow(a, i) * Geo(a, j)
  {
    if i > 0 {
      GeoSplit(a, i - 1, j);
      SplitAlgebra(a, Geo(a, i - 1), Pow(a, i - 1), Geo(a, j));
    }
  }

  lemma SplitAlgebra(a: int, g: int, w: int, h: int)
    ensures a * (g + w * h) == a * g + (a * w) * h
  {
    MulDistributes(a, g, w * h);
    MulSwaps(a, w, h);
  }

  lemma {:induction false} GeoProduct(a: int, p: nat, n: nat)
    ensures p * n >= 0 && Geo(a, p * n) == Geo(a, p) * Geo(Pow(a, p), n)
  {
    MulMonotone(p, 0, n);
    if n > 0 {
      GeoProduct(a, p, n - 1);
      assert p * n == p + p * (n - 1);
      GeoSplit(a, p, p * (n - 1));
      FactorOut(Geo(a, p), Pow(a, p), Geo(Pow(a, p), n - 1));
    }
  }

  lemma FactorOut(g: int, w: int, h: int)
    ensures g + w * (g * h) == g * (1 + w * h)
  {
    MulSwaps(g, w, h);
    MulDistributes(g, 1, w * h);
  }

  /** 0 + 1 + ... + (k-1). */
  function Triangle(k: nat): nat {
    if k == 0 then 0 else Triangle(k - 1) + (k - 1)
  }

  lemma {:induction false} TriangleTwice(k: nat)
    ensures 2 * Triangle(k) == k * (k - 1)
  {
    if k > 0 {
      TriangleTwice(k - 1);
      assert (k - 1) * (k - 2) + 2 * (k - 1) == k * (k - 1);
    }
  }

  /** Geo(1 + d, k) to second order in d. */
  lemma {:induction false} GeoExpansion(d: int, k: nat) returns (w: int)
    ensures Geo(1 + d, k) == k + d * Triangle(k) + (d * d) * w
  {
    w := 0;
    if k > 0 {
      var v := GeoExpansion(d, k - 1);
      w := v + Triangle(k - 1) + d * v;
      ExpansionAlgebra(d, k - 1, Triangle(k - 1), v, Geo(1 + d, k - 1));
    }
  }

  lemma ExpansionAlgebra(d: int, k: int, t: int, v: int, g: int)
    requires g == k + d * t + (d * d) * v
    ensures 1 + (1 + d) * g == (k + 1) + d * (t + k) + (d * d) * (v + t + d * v)
  {
    var e := d * d;
    MulDistributes(d, k + d * t, e * v);
    MulDistributes(d, k, d * t);
    MulSwaps(d, d, t);
    MulSwaps(d, e, v);
    MulDistributes(e, v + t, d * v);
    MulDistributes(e, v, t);
    MulDistributes(g, 1, d);
    MulDistributes(d, t, k);
  }

  /** Modulo a divisor of a - 1, Geo counts its terms. */
  lemma GeoCounts(a: int, n: nat, p: int)
    requires p > 0 && Divides(p, a - 1)
    ensures Divides(p, Geo(a, n) - n)
  {
    var d, t := a - 1, Triangle(n);
    var w := GeoExpansion(d, n);
    MulSwaps(d, d, w);
    MulDistributes(d, t, d * w);
    DividesProduct(p, d, t + d * w);
  }

  /** For every prime p of the modulus, two included, Geo(a, p) has exactly one factor p. */
  lemma GeoOfPrime(a: int, p: int) returns (u: int)
    requires Prime(p) && Divides(p, a - 1) && Divides(4, a - 1)
    ensures Geo(a, p) == p * u && !Divides(p, u)
  {
    var d, t := a - 1, (a - 1) / p;
    assert d == p * t;
    var s := HalfProduct(d, p, t);
    var w := GeoExpansion(d, p);
    TriangleTwice(p);
    PrimeAlgebra(p, t, s, Triangle(p), w);
    var k := s + t * (t * w);
    u := 1 + p * k;
    ModShift(1, p, k);
    DivModUnique(1, p, 0, 1);
  }

  lemma HalfProduct(d: int, p: int, t: int) returns (s: int)
    requires Prime(p) && d == p * t && Divides(4, d)
    ensures t * (p - 1) == 2 * s
  {
    if p == 2 {
      DividesProduct(2, t, p - 1);
    } else {
      assert p % 2 != 0;
      DividesProduct(2, p - 1, t);
    }
    s := t * (p - 1) / 2;
  }

  lemma PrimeAlgebra(p: int, t: int, s: int, tri: int, w: int)
    requires t * (p - 1) == 2 * s && 2 * tri == p * (p - 1)
    ensures p + (p * t) * tri + ((p * t) * (p * t)) * w == p * (1 + p * (s + t * (t * w)))
  {
    var r := t * (t * w);
    FirstOrderTerm(p, t, s, tri);
    SecondOrderTerm(p, t, w);
    MulDistributes(p, s, r);
    MulDistributes(p, p * s, p * r);
    MulDistributes(p, 1, p * (s + r));
  }

  lemma FirstOrderTerm(p: int, t: int, s: int, tri: int)
    requires t * (p - 1) == 2 * s && 2 * tri == p * (p - 1)
    ensures (p * t) * tri == p * (p * s)
  {
    MulSwaps(p * t, 2, tri);
    Regroup(p, t, p, p - 1);
    MulSwaps(p * p, 2, s);
    MulSwaps(p, p, s);
  }

  lemma SecondOrderTerm(p: int, t: int, w: int)
    ensures ((p * t) * (p * t)) * w == p * (p * (t * (t * w)))
  {
    Regroup(p, t, p, t);
    MulSwaps(p * p, t * t, w);
    MulSwaps(t, t, w);
    MulSwaps(p, p, t * (t * w));
  }

  lemma Regroup(a: int, b: int, c: int, d: int)
    ensures (a * b) * (c * d) == (a * c) * (b * d)
  {
    MulSwaps(a, b, c * d);
    MulSwaps(b, c, d);
    MulSwaps(a, c, b * d);
  }

  /** The two factors of a divisible Geo(a, p * n): Geo(a, p) / p stays coprime to the rest of the modulus. */
  lemma UnitCoprime(a: int, p: int, u: int, m: int, m': int)
    requires m == p * m' && 1 <= m' && Prime(p) && GoodMultiplier(a, m)
    requires Geo(a, p) == p * u && !Divides(p, u)
    ensures Coprime(m', u)
  {
    forall q | Prime(q) && Divides(q, m')
      ensures !Divides(q, u)
    {
      DividesProduct(q, m', p);
      assert Divides(q, m);
      if Divides(q, u) {
        GeoCounts(a, p, q);
        DividesProduct(q, u, p);
        DividesSum(q, Geo(a, p), -(Geo(a, p) - p));
        DividesProduct(q, Geo(a, p) - p, -1);
        assert Divides(q, p);
        PrimeDividesPrime(q, p);
      }
    }
  }

  /** A modulus divides Geo(a, n) only when it divides n. */
  lemma {:induction false} GeoDivisibleOnlyByLength(m: int, a: int, n: nat)
    requires m >= 1 && GoodMultiplier(a, m) && Divides(m, Geo(a, n))
    ensures Divides(m, n)
    decreases m
  {
    if m == 1 {
      DivModUnique(n, 1, n, 0);
    } else {
      var p := PrimeDivisor(m);
      var m' := Cofactor(m, p);
      DividesTransitive(p, m, Geo(a, n));
      GeoCounts(a, n, p);
      DividesProduct(p, Geo(a, n) - n, -1);
      DividesSum(p, Geo(a, n), -(Geo(a, n) - n));
      assert Divides(p, n);
      var n' := n / p;
      assert n == p * n';
      assert n' >= 0;
      var u := GeoOfPrime(a, p);
      GeoProduct(a, p, n');
      var b := Pow(a, p);
      var g := Geo(b, n');
      assert Geo(a, n) == u * (p * g) by {
        assert (p * u) * g == u * (p * g);
      }
      DivideBoth(p, m, m', u, g);
      UnitCoprime(a, p, u, m, m');
      CancelCoprime(m', u, g);
      PowMinusOne(a, p);
      GoodPower(a, m, m', p);
      GeoDivisibleOnlyByLength(m', b, n');
      MultiplyBoth(p, m', n');
    }
  }

  /** And it does when it divides n. */
  lemma {:induction false} GeoDivisibleByLength(m: int, a: int, n: nat)
    requires m >= 1 && GoodMultiplier(a, m) && Divides(m, n)
    ensures Divides(m, Geo(a, n))
    decreases m
  {
    if m == 1 {
      DivModUnique(Geo(a, n), 1, Geo(a, n), 0);
    } else {
      var p := PrimeDivisor(m);
      var m' := Cofactor(m, p);
      DividesTransitive(p, m, n);
      var n' := n / p;
      assert n == p * n' && n' >= 0;
      DivideBoth(p, m, m', 1, n');
      var u := GeoOfPrime(a, p);
      GeoFactors(a, p, n', u);
      GoodPower(a, m, m', p);
      var g := Geo(Pow(a, p), n');
      GeoDivisibleByLength(m', Pow(a, p), n');
      DividesProduct(m', g, u);
      MultiplyBoth(p, m', g * u);
    }
  }

  lemma GeoFactors(a: int, p: nat, n: nat, u: int)
    requires Geo(a, p) == p * u
    ensures p * n >= 0 && Geo(a, p * n) == p * (Geo(Pow(a, p), n) * u)
  {
    GeoProduct(a, p, n);
    var g := Geo(Pow(a, p), n);
    MulSwaps(p, u, g);
    assert u * g == g * u;
  }

  /** The heart of the theorem: a modulus divides Geo(a, n) exactly when it divides n. */
  lemma GeoDivisibleIff(m: int, a: int, n: nat)
    requires m >= 1 && GoodMultiplier(a, m)
    ensures Divides(m, Geo(a, n)) <==> Divides(m, n)
  {
    if Divides(m, Geo(a, n)) {
      GeoDivisibleOnlyByLength(m, a, n);
    }
    if Divides(m, n) {
      GeoDivisibleByLength(m, a, n);
    }
  }

  lemma GoodPower(a: int, m: int, m': int, p: int)
    requires m == p * m' && 1 <= m' && Prime(p) && GoodMultiplier(a, m)
    ensures GoodMultiplier(Pow(a, p), m')
  {
    PowMinusOne(a, p);
    DividesProduct(4, a - 1, Geo(a, p));
    forall q | Prime(q) && Divides(q, m')
      ensures Divides(q, Pow(a, p) - 1)
    {
      DividesProduct(q, m', p);
      DividesProduct(q, a - 1, Geo(a, p));
    }
  }

  /** With a coprime increment, the walk is back at a residue exactly after the multiples of m steps. */
  lemma ReturnsIffPeriod(a: int, c: int, m: int, x: int, n: nat)
    requires m >= 1 && GoodMultiplier(a, m) && Coprime(m, c)
    ensures Affine(a, c, x, n) % m == x % m <==> Divides(m, n)
  {
    AffineClosedForm(a, c, x, n);
    var z := (a - 1) * x + c;
    CongruentIff(Affine(a, c, x, n), x, m);
    assert Affine(a, c, x, n) - x == z * Geo(a, n);
    FirstStepCoprime(a, c, m, x);
    if Divides(m, z * Geo(a, n)) {
      CancelCoprime(m, z, Geo(a, n));
    } else if Divides(m, Geo(a, n)) {
      DividesProduct(m, Geo(a, n), z);
    }
    GeoDivisibleIff(m, a, n);
  }

  lemma FirstStepCoprime(a: int, c: int, m: int, x: int)
    requires m >= 1 && GoodMultiplier(a, m) && Coprime(m, c)
    ensures Coprime(m, (a - 1) * x + c)
  {
    forall p | Prime(p) && Divides(p, m)
      ensures !Divides(p, (a - 1) * x + c)
    {
      DividesProduct(p, a - 1, x);
      DividesSum(p, (a - 1) * x, c);
    }
  }

  /** With an increment sharing the prime p with m, the walk never leaves its residue modulo p. */
  lemma {:induction false} StuckModuloPrime(a: int, c: int, p: int, x: int, n: nat)
    requires Prime(p) && Divides(p, a - 1) && Divides(p, c)
    ensures Affine(a, c, x, n) % p == x % p
  {
    AffineClosedForm(a, c, x, n);
    var z := (a - 1) * x + c;
    DividesProduct(p, a - 1, x);
    DividesSum(p, (a - 1) * x, c);
    DividesProduct(p, z, Geo(a, n));
    CongruentIff(Affine(a, c, x, n), x, p);
    assert Affine(a, c, x, n) - x == Geo(a, n) * z;
  }
}
