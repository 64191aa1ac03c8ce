/** The number theory behind the full-cycle generator: divisibility, Euclid's lemma and
    prime divisors, kept to what the proofs of module FullCycle use. */
module Numbers {

  /** d divides n (d positive). */
  predicate Divides(d: int, n: int)
    requires d > 0
  {
    n % d == 0
  }

  predicate Prime(p: int) {
    p >= 2 && forall d :: 2 <= d < p ==> p % d != 0
  }

  /** A product strictly between -d and d has a zero factor. */
  lemma SmallMultiple(d: int, k: int)
    requires d > 0 && -d < d * k < d
    ensures k == 0
  {
    if k >= 1 {
      MulMonotone(d, 1, k);
    } else if k <= -1 {
      MulMonotone(d, k, -1);
    }
  }

  lemma MulMonotone(d: int, x: int, y: int)
    requires d >= 0 && x <= y
    ensures d * x <= d * y
  {
  }

  lemma MulDistributes(x: int, y: int, z: int)
    ensures x * (y + z) == x * y + x * z
  {
  }

  lemma MulSwaps(x: int, y: int, z: int)
    ensures x * (y * z) == y * (x * z) == (x * y) * z
  {
  }

  lemma CancelFactor(p: int, x: int, y: int)
    requires p > 0 && p * x == p * y
    ensures x == y
  {
    SmallMultiple(p, x - y);
  }

  /** The quotient and the remainder are determined by the division equation. */
  lemma DivModUnique(n: int, d: int, q: int, r: int)
    requires d > 0 && 0 <= r < d && n == d * q + r
    ensures n / d == q && n % d == r
  {
    var q', r' := n / d, n % d;
    assert n == d * q' + r';
    assert d * (q - q') == d * q - d * q';
    SmallMultiple(d, q - q');
  }

  lemma MultipleDivides(d: int, k: int)
    requires d > 0
    ensures Divides(d, d * k)
  {
    DivModUnique(d * k, d, k, 0);
  }

  /** Adding a multiple of d does not change the remainder. */
  lemma ModShift(x: int, d: int, k: int)
    requires d > 0
    ensures (x + d * k) % d == x % d
  {
    assert x == d * (x / d) + x % d;
    assert x + d * k == d * (x / d + k) + x % d;
    DivModUnique(x + d * k, d, x / d + k, x % d);
  }

  /** Congruence is divisibility of the difference. */
  lemma CongruentIff(x: int, y: int, d: int)
    requires d > 0
    ensures x % d == y % d <==> Divides(d, x - y)
  {
    var qx, qy := x / d, y / d;
    assert x == d * qx + x % d && y == d * qy + y % d;
    if x % d == y % d {
      assert x - y == d * (qx - qy);
      MultipleDivides(d, qx - qy);
    }
    if Divides(d, x - y) {
      var k := (x - y) / d;
      assert x == y + d * k;
      ModShift(y, d, k);
    }
  }

  /** Affine maps respect congruence, in the multiplier and in the argument. */
  lemma CongruentAffine(a: int, b: int, x: int, y: int, c: int, m: int)
    requires m > 0 && a % m == b % m && x % m == y % m
    ensures (a * x + c) % m == (b * y + c) % m
  {
    var k, l := a / m - b / m, x / m - y / m;
    assert a == b + m * k by {
      assert a == m * (a / m) + a % m && b == m * (b / m) + b % m;
    }
    assert x == y + m * l by {
      assert x == m * (x / m) + x % m && y == m * (y / m) + y % m;
    }
    ProductShift(b, y, k, l, m);
    ModShift(b * y + c, m, b * l + k * y + m * (k * l));
  }

  lemma ProductShift(b: int, y: int, k: int, l: int, m: int)
    ensures (b + m * k) * (y + m * l) == b * y + m * (b * l + k * y + m * (k * l))
  {
    var z := y + m * l;
    MulDistributes(z, b, m * k);
    MulDistributes(b, y, m * l);
    MulSwaps(b, m, l);
    MulSwaps(m, k, z);
    MulDistributes(k, y, m * l);
    MulSwaps(k, m, l);
    MulDistributes(m, b * l, k * y + m * (k * l));
  }

  lemma SmallMod(x: int, d: int)
    requires 0 <= x < d
    ensures x % d == x
  {
    DivModUnique(x, d, 0, x);
  }

  lemma DividesSum(d: int, x: int, y: int)
    requires d > 0 && Divides(d, x)
    ensures Divides(d, x + y) <==> Divides(d, y)
  {
    assert x == d * (x / d);
    ModShift(y, d, x / d);
  }

  lemma DividesProduct(d: int, x: int, y: int)
    requires d > 0 && Divides(d, x)
    ensures Divides(d, x * y) && Divides(d, y * x)
  {
    assert x == d * (x / d);
    assert x * y == d * ((x / d) * y);
    MultipleDivides(d, (x / d) * y);
  }

  lemma DividesTransitive(d: int, e: int, n: int)
    requires d > 0 && e > 0 && Divides(d, e) && Divides(e, n)
    ensures Divides(d, n)
  {
    assert n == e * (n / e);
    DividesProduct(d, e, n / e);
  }

  /** Remainders modulo a multiple of d determine remainders modulo d. */
  lemma ModOfMod(x: int, w: int, d: int)
    requires d > 0 && w > 0 && Divides(d, w)
    ensures (x % w) % d == x % d
  {
    assert x == w * (x / w) + x % w;
    assert w == d * (w / d);
    assert x == x % w + d * ((w / d) * (x / w)) by {
      assert w * (x / w) == d * ((w / d) * (x / w));
    }
    ModShift(x % w, d, (w / d) * (x / w));
  }

  /** Euclid's lemma, by the descent x -> p mod x. */
  lemma {:induction false} EuclidBelow(p: int, x: int, y: int)
    requires Prime(p) && 0 < x < p && Divides(p, x * y)
    ensures Divides(p, y)
    decreases x
  {
    if x > 1 {
      var q, s := p / x, p % x;
      assert p == x * q + s;
      assert s != 0;
      assert s * y == p * y - (x * y) * q by {
        assert (x * q + s) * y == (x * y) * q + s * y;
      }
      DividesProduct(p, x * y, -q);
      MultipleDivides(p, y);
      DividesSum(p, p * y, (x * y) * -q);
      assert s * y == p * y + (x * y) * -q;
      EuclidBelow(p, s, y);
    }
  }

  lemma Euclid(p: int, x: int, y: int)
    requires Prime(p) && Divides(p, x * y)
    ensures Divides(p, x) || Divides(p, y)
  {
    var r := x % p;
    assert x == p * (x / p) + r;
    if r != 0 {
      assert x * y == p * ((x / p) * y) + r * y by {
        assert (p * (x / p) + r) * y == p * ((x / p) * y) + r * y;
      }
      MultipleDivides(p, (x / p) * y);
      DividesSum(p, p * ((x / p) * y), r * y);
      EuclidBelow(p, r, y);
    }
  }

  /** Every m > 1 has a prime divisor, found by scanning upwards from a bound below which nothing divides. */
  lemma {:induction false} LeastDivisorIsPrime(m: int, from: int) returns (p: int)
    requires 2 <= from <= m
    requires forall d :: 2 <= d < from ==> m % d != 0
    ensures Prime(p) && Divides(p, m) && p <= m
    decreases m - from
  {
    if m % from == 0 {
      p := from;
      forall d | 2 <= d < p
        ensures p % d != 0
      {
        if p % d == 0 {
          DividesTransitive(d, p, m);
        }
      }
    } else {
      assert from < m by { if from == m { DivModUnique(m, m, 1, 0); } }
      p := LeastDivisorIsPrime(m, from + 1);
    }
  }

  lemma PrimeDivisor(m: int) returns (p: int)
    requires m >= 2
    ensures Prime(p) && Divides(p, m) && p <= m
  {
    p := LeastDivisorIsPrime(m, 2);
  }

  lemma PrimeDividesPrime(q: int, p: int)
    requires Prime(q) && Prime(p) && Divides(q, p)
    ensures q == p
  {
    if q > p {
      DivModUnique(p, q, 0, p);
    }
  }

  /** No prime divides both m and u. */
  ghost predicate Coprime(m: int, u: int) {
    forall p :: Prime(p) && Divides(p, m) ==> !Divides(p, u)
  }

  /** m = p * m' inherits a property of all its prime divisors to m'. */
  lemma CofactorPrimes(m: int, p: int, q: int)
    requires m >= 1 && Prime(p) && Divides(p, m) && Prime(q) && Divides(q, m / p)
    ensures Divides(q, m)
  {
    assert m == p * (m / p);
    DividesProduct(q, m / p, p);
  }

  /** p divides m >= 2 properly: m = p * m' with 1 <= m' < m. */
  lemma Cofactor(m: int, p: int) returns (m': int)
    requires m >= 1 && p >= 2 && Divides(p, m)
    ensures m == p * m' && 1 <= m' < m && m' == m / p
  {
    m' := m / p;
    assert m == p * m';
    if m' <= 0 {
      MulMonotone(p, m', 0);
    }
    MulMonotone(m', 2, p);
  }

  lemma DivideBoth(p: int, m: int, m': int, u: int, g': int)
    requires p > 0 && m' > 0 && m == p * m' && Divides(m, u * (p * g'))
    ensures Divides(m', u * g')
  {
    var k := (u * (p * g')) / m;
    assert u * (p * g') == m * k;
    assert p * (u * g') == p * (m' * k);
    CancelFactor(p, u * g', m' * k);
    MultipleDivides(m', k);
  }

  lemma MultiplyBoth(p: int, m': int, g': int)
    requires p > 0 && m' > 0 && Divides(m', g')
    ensures p * m' > 0 && Divides(p * m', p * g')
  {
    var k := g' / m';
    assert g' == m' * k;
    assert p * g' == (p * m') * k;
    MulMonotone(p, 1, m');
    MultipleDivides(p * m', k);
  }

  /** Gauss: a factor coprime to m can be cancelled from a multiple of m. */
  lemma {:induction false} CancelCoprime(m: int, u: int, g: int)
    requires m >= 1 && Coprime(m, u) && Divides(m, u * g)
    ensures Divides(m, g)
    decreases m
  {
    if m > 1 {
      var p := PrimeDivisor(m);
      var m' := Cofactor(m, p);
      DividesTransitive(p, m, u * g);
      Euclid(p, u, g);
      var g' := g / p;
      assert g == p * g';
      DivideBoth(p, m, m', u, g');
      forall q | Prime(q) && Divides(q, m')
        ensures !Divides(q, u)
      {
        CofactorPrimes(m, p, q);
      }
      CancelCoprime(m', u, g');
      MultiplyBoth(p, m', g');
    } else {
      DivModUnique(g, 1, g, 0);
    }
  }
}
