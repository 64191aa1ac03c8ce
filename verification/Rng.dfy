/** clients/rng.c: a linear congruential generator in 32-bit unsigned arithmetic whose parameters are
    picked so that it visits every value below its period before repeating one. */
module Rng {
  import opened Numbers
  import opened FullCycle
  import opened Sequences

  const WORD: int := 0x1_0000_0000

  type uint32 = x: int | 0 <= x < 0x1_0000_0000

  /** The three numbers fixed by initialization. */
  datatype Params = Params(coeff: uint32, incr: uint32, mod: uint32)

  /** One draw, in wrapping C arithmetic. */
  function Step(g: Params, x: uint32): uint32
    requires g.mod > 0
  {
    (g.coeff * x + g.incr) % WORD % g.mod
  }

  /** The state after n draws. */
  function Walk(g: Params, x: uint32, n: nat): uint32
    requires g.mod > 0
  {
    if n == 0 then x else Step(g, Walk(g, x, n - 1))
  }

  /** The first n outputs drawn from state x. */
  function Outputs(g: Params, x: uint32, n: nat): (s: seq<uint32>)
    requires g.mod > 0
    ensures |s| == n && forall k :: 0 <= k < n ==> s[k] == Walk(g, x, k + 1) < g.mod
  {
    seq(n, k requires 0 <= k => Walk(g, x, k + 1))
  }

  function Product(factors: seq<int>): int {
    if factors == [] then 1 else Product(factors[..|factors| - 1]) * factors[|factors| - 1]
  }

  /** The multiplier the initializer means to pick; the stored one is this modulo 2^32. */
  function Multiplier(factors: seq<int>): int {
    4 * Product(factors) + 1
  }

  function ParamsFor(period: uint32, factors: seq<int>, incr: uint32): Params {
    Params(Multiplier(factors) % WORD, incr, period)
  }

  /** What coprime() tests: no listed factor divides the increment. */
  predicate Accepts(incr: int, factors: seq<int>)
    requires forall i :: 0 <= i < |factors| ==> factors[i] > 0
  {
    forall i :: 0 <= i < |factors| ==> incr % factors[i] != 0
  }

  /** A factor list as C ints that can be used as divisors. */
  predicate PositiveInts(factors: seq<int>) {
    forall i :: 0 <= i < |factors| ==> 0 < factors[i] < 0x8000_0000
  }

  /** rng.h: pfactors must contain all prime factors of period. */
  ghost predicate FactorsOf(factors: seq<int>, period: int) {
    && PositiveInts(factors)
    && (forall i :: 0 <= i < |factors| ==> Prime(factors[i]))
    && (forall p :: Prime(p) && Divides(p, period) ==> p in factors)
  }

  /** Wrapping at 2^32 cannot be told from exact arithmetic modulo the period. */
  predicate WrapHarmless(period: int, factors: seq<int>, incr: int)
    requires period > 0
  {
    WORD % period == 0 || Multiplier(factors) * (period - 1) + incr < WORD
  }

  lemma {:induction false} ProductFacts(factors: seq<int>)
    requires PositiveInts(factors)
    ensures Product(factors) >= 1
    ensures forall i :: 0 <= i < |factors| ==> Divides(factors[i], Product(factors))
  {
    if factors != [] {
      var n := |factors| - 1;
      var init, f := factors[..n], factors[n];
      ProductFacts(init);
      MulMonotone(f, 1, Product(init));
      MultipleDivides(f, Product(init));
      forall i | 0 <= i < n
        ensures Divides(factors[i], Product(factors))
      {
        assert init[i] == factors[i];
        DividesProduct(factors[i], Product(init), f);
      }
    }
  }

  /** The multiplier meets the hypotheses of the theorem for every period whose primes are listed. */
  lemma MultiplierIsGood(period: uint32, factors: seq<int>)
    requires FactorsOf(factors, period)
    ensures GoodMultiplier(Multiplier(factors), period)
  {
    var q := Product(factors);
    ProductFacts(factors);
    MultipleDivides(4, q);
    forall p | Prime(p) && Divides(p, period)
      ensures Divides(p, Multiplier(factors) - 1)
    {
      DividesProduct(p, q, 4);
    }
  }

  lemma WrapDividesOut(a: int, x: int, c: int, m: int)
    requires m > 0 && WORD % m == 0
    ensures ((a % WORD) * x + c) % WORD % m == (a * x + c) % m
  {
    ModOfMod((a % WORD) * x + c, WORD, m);
    ModOfMod(a, WORD, m);
    CongruentAffine(a % WORD, a, x, x, c, m);
  }

  lemma NothingWraps(a: int, x: int, c: int, m: int)
    requires a >= 0 && c >= 0 && 0 <= x < m && m >= 2 && a * (m - 1) + c < WORD
    ensures ((a % WORD) * x + c) % WORD == a * x + c
  {
    MulMonotone(a, x, m - 1);
    MulMonotone(a, 0, x);
    MulMonotone(a, 1, m - 1);
    SmallMod(a, WORD);
    SmallMod(a * x + c, WORD);
  }

  /** On a reduced state a draw is exact arithmetic modulo the period. */
  lemma StepExact(period: uint32, factors: seq<int>, incr: uint32, x: uint32)
    requires 0 <= x < period && PositiveInts(factors) && WrapHarmless(period, factors, incr)
    ensures Step(ParamsFor(period, factors, incr), x) == (Multiplier(factors) * x + incr) % period
  {
    ProductFacts(factors);
    if WORD % period == 0 {
      WrapDividesOut(Multiplier(factors), x, incr, period);
    } else {
      NothingWraps(Multiplier(factors), x, incr, period);
    }
  }

  lemma {:induction false} WalkExact(period: uint32, factors: seq<int>, incr: uint32, x: uint32, n: nat)
    requires 0 <= x < period && PositiveInts(factors) && WrapHarmless(period, factors, incr)
    ensures Walk(ParamsFor(period, factors, incr), x, n) == Affine(Multiplier(factors), incr, x, n) % period
  {
    var a := Multiplier(factors);
    if n == 0 {
      DivModUnique(x, period, 0, x);
    } else {
      WalkExact(period, factors, incr, x, n - 1);
      var y := Affine(a, incr, x, n - 1);
      StepExact(period, factors, incr, y % period);
      SmallMod(y % period, period);
      CongruentAffine(a, a, y % period, y, incr, period);
    }
  }

  lemma {:induction false} WalkSplit(g: Params, x: uint32, i: nat, j: nat)
    requires g.mod > 0
    ensures Walk(g, x, i + j) == Walk(g, Walk(g, x, i), j)
  {
    if j > 0 {
      WalkSplit(g, x, i, j - 1);
    }
  }

  lemma AcceptedIsCoprime(period: uint32, factors: seq<int>, incr: uint32)
    requires FactorsOf(factors, period) && Accepts(incr, factors)
    ensures Coprime(period, incr)
  {
    forall p | Prime(p) && Divides(p, period)
      ensures !Divides(p, incr)
    {
      assert p in factors;
    }
  }

  /** A reduced state recurs exactly after the multiples of the period. */
  lemma RecursIffPeriod(period: uint32, factors: seq<int>, incr: uint32, x: uint32, n: nat)
    requires 0 <= x < period && FactorsOf(factors, period) && Accepts(incr, factors)
    requires WrapHarmless(period, factors, incr)
    ensures Walk(ParamsFor(period, factors, incr), x, n) == x <==> Divides(period, n)
  {
    WalkExact(period, factors, incr, x, n);
    DivModUnique(x, period, 0, x);
    MultiplierIsGood(period, factors);
    AcceptedIsCoprime(period, factors, incr);
    ReturnsIffPeriod(Multiplier(factors), incr, period, x, n);
  }

  /** Full cycle: from any seed, reduced or not, any `period` consecutive outputs are 0, ..., period-1, each once. */
  lemma OutputsListAll(period: uint32, factors: seq<int>, incr: uint32, seed: uint32)
    requires period > 0 && FactorsOf(factors, period) && Accepts(incr, factors)
    requires WrapHarmless(period, factors, incr)
    ensures ListsAll(Outputs(ParamsFor(period, factors, incr), seed, period), period)
  {
    var g := ParamsFor(period, factors, incr);
    var s := Outputs(g, seed, period);
    forall i, j | 0 <= i < j < period
      ensures s[i] != s[j]
    {
      if s[i] == s[j] {
        WalkSplit(g, seed, i + 1, j - i);
        RecursIffPeriod(period, factors, incr, s[i], j - i);
        DivModUnique(j - i, period, 0, j - i);
      }
    }
    DistinctListsAll(s, period);
  }

  /** Settings as InitIncr leaves them, under the conditions of the full-cycle theorem. */
  ghost predicate FullCycleSettings(g: Params, factors: seq<int>) {
    && g.mod > 0
    && FactorsOf(factors, g.mod)
    && Accepts(g.incr, factors)
    && WrapHarmless(g.mod, factors, g.incr)
    && g == ParamsFor(g.mod, factors, g.incr)
  }

  /** After exactly `period` draws a reduced state is back. */
  lemma ReturnsAfterPeriod(period: uint32, factors: seq<int>, incr: uint32, x: uint32)
    requires 0 <= x < period && FactorsOf(factors, period) && Accepts(incr, factors)
    requires WrapHarmless(period, factors, incr)
    ensures Walk(ParamsFor(period, factors, incr), x, period) == x
  {
    DivModUnique(period, period, 1, 0);
    RecursIffPeriod(period, factors, incr, x, period);
  }

  /** The increment test decides the full cycle: with the list exact, a rejected increment has none. */
  lemma FullCycleIffAccepted(period: uint32, factors: seq<int>, incr: uint32, seed: uint32)
    requires period >= 2 && FactorsOf(factors, period)
    requires forall i :: 0 <= i < |factors| ==> Divides(factors[i], period)
    requires WrapHarmless(period, factors, incr)
    ensures Accepts(incr, factors) <==> ListsAll(Outputs(ParamsFor(period, factors, incr), seed, period), period)
  {
    if Accepts(incr, factors) {
      OutputsListAll(period, factors, incr, seed);
    } else {
      var i :| 0 <= i < |factors| && incr % factors[i] == 0;
      RejectedNeverFull(period, factors, incr, seed, factors[i]);
    }
  }

  lemma OutputsShareResidue(period: uint32, factors: seq<int>, incr: uint32, seed: uint32, p: int, k: nat)
    requires period >= 2 && FactorsOf(factors, period) && WrapHarmless(period, factors, incr)
    requires Prime(p) && p in factors && Divides(p, period) && Divides(p, incr)
    ensures var g := ParamsFor(period, factors, incr); Walk(g, seed, k + 1) % p == Walk(g, seed, 1) % p
  {
    var g, a := ParamsFor(period, factors, incr), Multiplier(factors);
    var y := Walk(g, seed, 1);
    assert 0 <= y < period;
    WalkSplit(g, seed, 1, k);
    WalkExact(period, factors, incr, y, k);
    ModOfMod(Affine(a, incr, y, k), period, p);
    MultiplierIsGood(period, factors);
    StuckModuloPrime(a, incr, p, y, k);
  }

  lemma RejectedNeverFull(period: uint32, factors: seq<int>, incr: uint32, seed: uint32, p: int)
    requires period >= 2 && FactorsOf(factors, period) && WrapHarmless(period, factors, incr)
    requires Prime(p) && p in factors && Divides(p, period) && Divides(p, incr)
    ensures !ListsAll(Outputs(ParamsFor(period, factors, incr), seed, period), period)
  {
    var s := Outputs(ParamsFor(period, factors, incr), seed, period);
    if 0 in s && 1 in s {
      var u :| 0 <= u < |s| && s[u] == 0;
      var v :| 0 <= v < |s| && s[v] == 1;
      OutputsShareResidue(period, factors, incr, seed, p, u);
      OutputsShareResidue(period, factors, incr, seed, p, v);
      SmallMod(0, p);
      SmallMod(1, p);
    }
  }

  // ----- periods for which the arithmetic wraps

  /** 3 * 5 * 7 * 11 * 29 lines, as many as fit in two megabytes of 64-byte lines and not a power of two. */
  const WRAPPING_PERIOD: uint32 := 33495
  const WRAPPING_FACTORS: seq<int> := [3, 5, 7, 11, 29]
  const WRAPPING := Params(133981, 2, 33495)

  /** A concrete case where 32-bit wrapping breaks the cycle: with its exact list of factors and increment 2 the period
      is accepted, yet its outputs never list all residues, whatever the seed. */
  lemma WrapLosesFullCycle(seed: uint32)
    ensures FactorsOf(WRAPPING_FACTORS, WRAPPING_PERIOD) && Accepts(2, WRAPPING_FACTORS)
    ensures !ListsAll(Outputs(ParamsFor(WRAPPING_PERIOD, WRAPPING_FACTORS, 2), seed, WRAPPING_PERIOD), WRAPPING_PERIOD)
  {
    WrappingFactors();
    WrappingParams();
    WrappingSteps();
    TwoCollisions(WRAPPING, seed, WRAPPING_PERIOD, 28126, 32057, 28127, 32058);
  }

  lemma WrappingParams()
    ensures ParamsFor(WRAPPING_PERIOD, WRAPPING_FACTORS, 2) == WRAPPING
  {
    WrappingProduct();
  }

  lemma WrappingSteps()
    ensures Step(WRAPPING, 28126) == 28128 == Step(WRAPPING, 32057)
    ensures Step(WRAPPING, 28127) == 28129 == Step(WRAPPING, 32058)
  {
  }

  /** Two disjoint pairs of states with a common successor rule the full cycle out from any seed. */
  lemma TwoCollisions(g: Params, seed: uint32, m: uint32, v: uint32, w: uint32, v': uint32, w': uint32)
    requires g.mod == m > 0 && v < m && w < m && v' < m && w' < m && v != w && v' != w'
    requires Step(g, v) == Step(g, w) && Step(g, v') == Step(g, w') && {v, w} !! {v', w'}
    ensures !ListsAll(Outputs(g, seed, m), m)
  {
    if ListsAll(Outputs(g, seed, m), m) {
      CollisionNeedsLast(g, seed, m, v, w);
      CollisionNeedsLast(g, seed, m, v', w');
    }
  }

  lemma WrappingFactors()
    ensures FactorsOf(WRAPPING_FACTORS, WRAPPING_PERIOD) && Product(WRAPPING_FACTORS) == WRAPPING_PERIOD
  {
    WrappingProduct();
    WrappingPrimes();
    forall p | Prime(p) && Divides(p, WRAPPING_PERIOD)
      ensures p in WRAPPING_FACTORS
    {
      PrimeOfProduct(p, WRAPPING_FACTORS);
    }
  }

  lemma WrappingPrimes()
    ensures forall i :: 0 <= i < |WRAPPING_FACTORS| ==> Prime(WRAPPING_FACTORS[i])
  {
    assert Prime(3) && Prime(5) && Prime(7) && Prime(11) && Prime(29);
  }

  lemma WrappingProduct()
    ensures Product(WRAPPING_FACTORS) == WRAPPING_PERIOD
  {
    ProductAppend([], 3);
    assert [] + [3] == [3];
    ProductAppend([3], 5);
    assert [3] + [5] == [3, 5];
    ProductAppend([3, 5], 7);
    assert [3, 5] + [7] == [3, 5, 7];
    ProductAppend([3, 5, 7], 11);
    assert [3, 5, 7] + [11] == [3, 5, 7, 11];
    ProductAppend([3, 5, 7, 11], 29);
    assert WRAPPING_FACTORS == [3, 5, 7, 11] + [29];
  }

  lemma ProductAppend(factors: seq<int>, f: int)
    ensures Product(factors + [f]) == Product(factors) * f
  {
    assert (factors + [f])[..|factors|] == factors;
  }

  lemma {:induction false} PrimeOfProduct(p: int, factors: seq<int>)
    requires Prime(p) && Divides(p, Product(factors)) && forall i :: 0 <= i < |factors| ==> Prime(factors[i])
    ensures p in factors
  {
    if factors == [] {
      SmallMod(1, p);
    } else {
      var n := |factors| - 1;
      Euclid(p, Product(factors[..n]), factors[n]);
      if Divides(p, factors[n]) {
        PrimeDividesPrime(p, factors[n]);
      } else {
        PrimeOfProduct(p, factors[..n]);
      }
    }
  }

  /** In a full cycle, of two values with the same successor one is the last output. */
  lemma CollisionNeedsLast(g: Params, seed: uint32, m: uint32, v: uint32, w: uint32)
    requires g.mod == m > 0 && v < m && w < m && v != w && Step(g, v) == Step(g, w)
    requires ListsAll(Outputs(g, seed, m), m)
    ensures Outputs(g, seed, m)[m - 1] == v || Outputs(g, seed, m)[m - 1] == w
  {
    var s := Outputs(g, seed, m);
    var i := Position(s, m, v);
    var j := Position(s, m, w);
    CollisionIsLast(g, seed, m, i, j);
  }

  lemma Position(s: seq<int>, n: nat, v: int) returns (i: nat)
    requires ListsAll(s, n) && 0 <= v < n
    ensures i < n && s[i] == v
  {
    assert v in s;
    i :| 0 <= i < |s| && s[i] == v;
  }

  lemma OutputsStep(g: Params, x: uint32, n: nat, k: nat)
    requires g.mod > 0 && k + 1 < n
    ensures Outputs(g, x, n)[k + 1] == Step(g, Outputs(g, x, n)[k])
  {
  }

  /** In a full cycle two positions with the same successor cannot both have one: one of them is the last. */
  lemma CollisionIsLast(g: Params, seed: uint32, m: uint32, i: nat, j: nat)
    requires g.mod == m > 0 && i < m && j < m && i != j
    requires ListsAll(Outputs(g, seed, m), m)
    requires Step(g, Outputs(g, seed, m)[i]) == Step(g, Outputs(g, seed, m)[j])
    ensures i == m - 1 || j == m - 1
  {
    if i < m - 1 && j < m - 1 {
      OutputsStep(g, seed, m, i);
      OutputsStep(g, seed, m, j);
    }
  }

  /** From a state that shares its successor with another one there is no full cycle. */
  lemma CollisionBreaks(g: Params, m: uint32, v: uint32, w: uint32)
    requires g.mod == m > 0 && v < m && w < m && v != w && Step(g, v) == Step(g, w)
    ensures !ListsAll(Outputs(g, v, m), m)
  {
    if ListsAll(Outputs(g, v, m), m) {
      CollisionNeedsLast(g, v, m, v, w);
      ClosesAtLast(g, v, m, v);
      ClosesAtLast(g, v, m, w);
    }
  }

  /** In a full cycle, only the last output has the first one as its successor. */
  lemma ClosesAtLast(g: Params, x: uint32, m: uint32, u: uint32)
    requires g.mod == m > 0 && u < m && ListsAll(Outputs(g, x, m), m) && Step(g, u) == Step(g, x)
    ensures Outputs(g, x, m)[m - 1] == u
  {
    var s := Outputs(g, x, m);
    var j := Position(s, m, u);
    FirstOutput(g, x, m);
    if j < m - 1 {
      OutputsStep(g, x, m, j);
    }
  }

  lemma FirstOutput(g: Params, x: uint32, n: nat)
    requires g.mod > 0 && n > 0
    ensures Outputs(g, x, n)[0] == Step(g, x)
  {
    assert Walk(g, x, 1) == Step(g, Walk(g, x, 0));
  }

  lemma SolveLinear(a: int, m: int, t: int) returns (e: int)
    requires m >= 1 && Coprime(m, a)
    ensures 0 <= e < m && (a * e) % m == t % m
  {
    var s := seq(m, x => (a * x) % m);
    forall x, y | 0 <= x < y < m
      ensures s[x] != s[y]
    {
      MultiplesDiffer(a, m, x, y);
    }
    DistinctListsAll(s, m);
    assert t % m in s;
    e :| 0 <= e < |s| && s[e] == t % m;
  }

  lemma MultiplesDiffer(a: int, m: int, x: int, y: int)
    requires m >= 1 && Coprime(m, a) && 0 <= x < y < m
    ensures (a * x) % m != (a * y) % m
  {
    if (a * x) % m == (a * y) % m {
      CongruentIff(a * y, a * x, m);
      assert a * y - a * x == a * (y - x);
      CancelCoprime(m, a, y - x);
      SmallMod(y - x, m);
    }
  }

  lemma MultiplierCoprime(period: uint32, factors: seq<int>)
    requires period >= 1 && FactorsOf(factors, period)
    ensures Coprime(period, Multiplier(factors))
  {
    MultiplierIsGood(period, factors);
    forall p | Prime(p) && Divides(p, period)
      ensures !Divides(p, Multiplier(factors))
    {
      CongruentIff(Multiplier(factors), 1, p);
      SmallMod(1, p);
    }
  }

  /** A draw that wraps once. */
  lemma WrappedStep(a: int, c: uint32, m: uint32, x: uint32)
    requires 0 < a < WORD && m > 0 && a * x + c < 2 * WORD
    ensures Step(Params(a, c, m), x) == if a * x + c < WORD then (a * x + c) % m else (a * x + c - WORD) % m
  {
    MulMonotone(a, 0, x);
    if a * x + c < WORD {
      SmallMod(a * x + c, WORD);
    } else {
      DivModUnique(a * x + c, WORD, 1, a * x + c - WORD);
    }
  }

  /** The first state whose draw wraps. */
  lemma FirstWrap(a: int, c: uint32, m: uint32) returns (x0: int)
    requires a > 0 && m > 0 && WORD <= a * (m - 1) + c
    ensures 0 < x0 < m && WORD <= a * x0 + c && forall x :: 0 <= x < x0 ==> a * x + c < WORD
  {
    x0 := m - 1;
    while WORD <= a * (x0 - 1) + c
      invariant 0 < x0 < m && WORD <= a * x0 + c
    {
      x0 := x0 - 1;
    }
    forall x | 0 <= x < x0
      ensures a * x + c < WORD
    {
      MulMonotone(a, x, x0 - 1);
    }
  }

  /** An offset e leads from a draw that wraps to one that does not. */
  lemma AcrossTheWrap(a: int, c: uint32, m: uint32, e: int) returns (v: uint32, w: uint32)
    requires a > 0 && m > 0 && WORD <= a * (m - 1) + c && 0 < e < m
    ensures v < m && v - w == e && WORD <= a * v + c && a * w + c < WORD && a * v <= a * (m - 1)
  {
    var x0 := FirstWrap(a, c, m);
    v := if e >= x0 then e else x0;
    w := v - e;
    MulMonotone(a, x0, v);
    MulMonotone(a, v, m - 1);
  }

  lemma MultiplierSmall(period: uint32, factors: seq<int>, incr: uint32)
    requires period >= 3 && PositiveInts(factors) && Multiplier(factors) * (period - 1) + incr < 2 * WORD
    ensures 0 < Multiplier(factors) < WORD
            && ParamsFor(period, factors, incr) == Params(Multiplier(factors), incr, period)
  {
    ProductFacts(factors);
    MulMonotone(Multiplier(factors), 2, period - 1);
    SmallMod(Multiplier(factors), WORD);
  }

  /** When draws wrap, but only once, and the period does not divide 2^32, two states share their successor: they
      differ by an e with a * e = 2^32 modulo the period. */
  lemma OneWrapCollides(period: uint32, factors: seq<int>, incr: uint32) returns (v: uint32, w: uint32)
    requires period >= 3 && FactorsOf(factors, period) && WORD % period != 0
    requires WORD <= Multiplier(factors) * (period - 1) + incr < 2 * WORD
    ensures v < period && w < period && v != w
    ensures var g := ParamsFor(period, factors, incr); Step(g, v) == Step(g, w)
  {
    var a := Multiplier(factors);
    MultiplierSmall(period, factors, incr);
    MultiplierCoprime(period, factors);
    var e := SolveLinear(a, period, WORD);
    assert e != 0 by {
      SmallMod(0, period);
    }
    v, w := AcrossTheWrap(a, incr, period, e);
    WrappedStep(a, incr, period, v);
    WrappedStep(a, incr, period, w);
    SuccessorsMeet(a, incr, period, v, w, e);
  }

  lemma SuccessorsMeet(a: int, c: int, m: int, v: int, w: int, e: int)
    requires m > 0 && v - w == e && (a * e) % m == WORD % m
    ensures (a * v + c - WORD) % m == (a * w + c) % m
  {
    CongruentIff(a * e, WORD, m);
    CongruentIff(a * v + c - WORD, a * w + c, m);
    assert a * v == a * w + a * e;
  }

  /** While no draw wraps more than once, the condition on wrapping is exact: every seed has its full cycle if and only
      if wrapping is harmless. */
  lemma FullCycleIffWrapHarmless(period: uint32, factors: seq<int>, incr: uint32)
    requires period >= 3 && FactorsOf(factors, period) && Accepts(incr, factors)
    requires Multiplier(factors) * (period - 1) + incr < 2 * WORD
    ensures (forall seed: uint32 :: ListsAll(Outputs(ParamsFor(period, factors, incr), seed, period), period))
            <==> WrapHarmless(period, factors, incr)
  {
    if WrapHarmless(period, factors, incr) {
      forall seed: uint32
        ensures ListsAll(Outputs(ParamsFor(period, factors, incr), seed, period), period)
      {
        OutputsListAll(period, factors, incr, seed);
      }
    } else {
      var v, w := OneWrapCollides(period, factors, incr);
      CollisionBreaks(ParamsFor(period, factors, incr), period, v, w);
    }
  }

  /** The place k steps on from place i of a cycle of m, for k up to m. */
  function Along(i: nat, k: nat, m: nat): (j: nat)
    requires i < m && k <= m
    ensures j < m
  {
    if i + k < m then i + k else i + k - m
  }

  /** The settings walk round the given cycle. */
  ghost predicate WalksRound(g: Params, cycle: seq<uint32>)
    requires g.mod > 0
  {
    ListsAll(cycle, g.mod) && forall i :: 0 <= i < g.mod ==> Step(g, cycle[i]) == cycle[Along(i, 1, g.mod)]
  }

  lemma {:induction false} WalkAlong(g: Params, cycle: seq<uint32>, i: nat, k: nat)
    requires g.mod > 0 && WalksRound(g, cycle) && i < g.mod && k <= g.mod
    ensures Walk(g, cycle[i], k) == cycle[Along(i, k, g.mod)]
  {
    if k > 0 {
      WalkAlong(g, cycle, i, k - 1);
      var j := Along(i, k - 1, g.mod);
      assert Step(g, cycle[j]) == cycle[Along(j, 1, g.mod)];
      assert Along(j, 1, g.mod) == Along(i, k, g.mod);
    }
  }

  /** Settings that walk round a cycle of all the residues have the full cycle from every seed. */
  lemma CycleIsFull(g: Params, cycle: seq<uint32>, seed: uint32)
    requires g.mod > 0 && WalksRound(g, cycle)
    ensures ListsAll(Outputs(g, seed, g.mod), g.mod)
  {
    var m := g.mod;
    var s := Outputs(g, seed, m);
    var i := Position(cycle, m, s[0]);
    forall k | 0 <= k < m
      ensures s[k] == cycle[Along(i, k, m)]
    {
      WalkSplit(g, seed, 1, k);
      WalkAlong(g, cycle, i, k);
    }
    DistinctListsAll(s, m);
  }

  const LUCKY_FACTORS: seq<int> := [3, 2, 7, 11, 17, 17, 17, 17, 17]
  const LUCKY := Params(2623895737, 5, 9)
  const LUCKY_CYCLE: seq<uint32> := [0, 5, 1, 3, 4, 7, 2, 6, 8]

  /** Beyond a single wrap the condition is not necessary: the last of these draws wraps four times, yet period 9 with
      this list and increment 5 has its full cycle from every seed. */
  lemma WrapMayKeepFullCycle(seed: uint32)
    ensures FactorsOf(LUCKY_FACTORS, 9) && Accepts(5, LUCKY_FACTORS) && !WrapHarmless(9, LUCKY_FACTORS, 5)
    ensures ListsAll(Outputs(ParamsFor(9, LUCKY_FACTORS, 5), seed, 9), 9)
  {
    LuckyParams();
    LuckyFactors();
    LuckyCycle();
    CycleIsFull(LUCKY, LUCKY_CYCLE, seed);
  }

  lemma LuckyParams()
    ensures ParamsFor(9, LUCKY_FACTORS, 5) == LUCKY && !WrapHarmless(9, LUCKY_FACTORS, 5)
  {
    LuckyProduct();
  }

  lemma LuckyCycle()
    ensures WalksRound(LUCKY, LUCKY_CYCLE)
  {
    DistinctListsAll(LUCKY_CYCLE, 9);
    LuckySteps();
  }

  lemma LuckySteps()
    ensures Step(LUCKY, 0) == 5 && Step(LUCKY, 5) == 1 && Step(LUCKY, 1) == 3
    ensures Step(LUCKY, 3) == 4 && Step(LUCKY, 4) == 7 && Step(LUCKY, 7) == 2
    ensures Step(LUCKY, 2) == 6 && Step(LUCKY, 6) == 8 && Step(LUCKY, 8) == 0
  {
  }

  lemma LuckyProduct()
    ensures Product(LUCKY_FACTORS) == 655973934
  {
    ProductAppend([], 3);
    assert [] + [3] == [3];
    ProductAppend([3], 2);
    assert [3] + [2] == [3, 2];
    ProductAppend([3, 2], 7);
    assert [3, 2] + [7] == [3, 2, 7];
    ProductAppend([3, 2, 7], 11);
    assert [3, 2, 7] + [11] == [3, 2, 7, 11];
    ProductOfTail([3, 2, 7, 11], 17);
    assert LUCKY_FACTORS == [3, 2, 7, 11] + [17] + [17] + [17] + [17] + [17];
  }

  lemma ProductOfTail(factors: seq<int>, f: int)
    ensures Product(factors + [f] + [f] + [f] + [f] + [f]) == Product(factors) * f * f * f * f * f
  {
    ProductAppend(factors, f);
    ProductAppend(factors + [f], f);
    ProductAppend(factors + [f] + [f], f);
    ProductAppend(factors + [f] + [f] + [f], f);
    ProductAppend(factors + [f] + [f] + [f] + [f], f);
  }

  lemma LuckyFactors()
    ensures FactorsOf(LUCKY_FACTORS, 9)
  {
    assert Prime(3) && Prime(2) && Prime(7) && Prime(11) && Prime(17);
    forall p | Prime(p) && Divides(p, 9)
      ensures p in LUCKY_FACTORS
    {
      Euclid(p, 3, 3);
      PrimeDividesPrime(p, 3);
    }
  }

  /** The increments that rng_lcfc_init keeps. */
  predicate Suitable(incr: int, period: int, factors: seq<int>)
    requires forall i :: 0 <= i < |factors| ==> factors[i] > 0
  {
    incr != 0 && incr != 1 && incr != period - 1 && Accepts(incr, factors)
  }

  lemma CoprimeIsAccepted(period: int, factors: seq<int>, c: int)
    requires FactorsOf(factors, period) && forall i :: 0 <= i < |factors| ==> Divides(factors[i], period)
    requires Coprime(period, c)
    ensures Accepts(c, factors)
  {
  }

  /** Half of an even period, moved up by 1 or 2 to an odd number, is coprime to the period. */
  lemma NearHalfCoprime(k: int, e: int)
    requires k >= 1 && (e == 1 || e == 2) && (k + e) % 2 == 1
    ensures Coprime(2 * k, k + e)
  {
    forall p | Prime(p) && Divides(p, 2 * k)
      ensures !Divides(p, k + e)
    {
      if Divides(p, k + e) {
        Euclid(p, 2, k);
        if Divides(p, 2) {
          PrimeDividesPrime(p, 2);
        } else {
          DividesSum(p, k, e);
          SmallMod(1, p);
        }
      }
    }
  }

  lemma SixHasNone(factors: seq<int>, c: int)
    requires FactorsOf(factors, 6) && 0 <= c < 6
    ensures !Suitable(c, 6, factors)
  {
    assert Prime(2) && Prime(3);
    assert 2 in factors && 3 in factors;
    assert c == 0 || c == 1 || c == 5 || c % 2 == 0 || c % 3 == 0;
  }

  lemma OddTakesTwo(period: int)
    requires period >= 1 && period % 2 == 1
    ensures Coprime(period, 2)
  {
    assert Prime(2);
    forall p | Prime(p) && Divides(p, period)
      ensures !Divides(p, 2)
    {
      if Divides(p, 2) {
        PrimeDividesPrime(p, 2);
      }
    }
  }

  /** The redraw loop of rng_lcfc_init can end exactly when the period is not six. */
  lemma SuitableIncrementIffNotSix(period: uint32, factors: seq<int>)
    requires period >= 5 && FactorsOf(factors, period)
    requires forall i :: 0 <= i < |factors| ==> Divides(factors[i], period)
    ensures (exists c :: 0 <= c < period && Suitable(c, period, factors)) <==> period != 6
  {
    if period == 6 {
      forall c | 0 <= c < period
        ensures !Suitable(c, period, factors)
      {
        SixHasNone(factors, c);
      }
    } else if period % 2 == 1 {
      OddTakesTwo(period);
      CoprimeIsAccepted(period, factors, 2);
      assert Suitable(2, period, factors);
    } else {
      var k := period / 2;
      var e := if k % 2 == 0 then 1 else 2;
      NearHalfCoprime(k, e);
      CoprimeIsAccepted(period, factors, k + e);
      assert Suitable(k + e, period, factors);
    }
  }

  /** The increment test: the loop stops at the first factor that divides a. */
  method IsCoprime(a: uint32, factors: seq<int>) returns (ok: bool)
    requires PositiveInts(factors)
    ensures ok <==> Accepts(a, factors)
  {
    var iters := 0;
    while iters < |factors|
      invariant 0 <= iters <= |factors|
      invariant forall i :: 0 <= i < iters ==> a % factors[i] != 0
    {
      if a % factors[iters] == 0 {
        break;
      }
      iters := iters + 1;
    }
    ok := iters == |factors|;
  }

  method IsSuitable(incr: uint32, period: uint32, factors: seq<int>) returns (ok: bool)
    requires incr < period && PositiveInts(factors)
    ensures ok <==> Suitable(incr, period, factors)
  {
    SmallMod(incr, period);
    if incr == 0 || incr % period == 1 || incr % period == period - 1 {
      return false;
    }
    ok := IsCoprime(incr, factors);
  }

  /** The redraw loop: the first suitable number in a supply of random draws, or the end of the supply. */
  method DrawIncrement(period: uint32, factors: seq<int>, draws: seq<uint32>) returns (n: nat)
    requires period >= 5 && PositiveInts(factors)
    ensures n <= |draws|
    ensures n < |draws| ==> Suitable(draws[n] % period, period, factors)
    ensures forall k :: 0 <= k < n ==> !Suitable(draws[k] % period, period, factors)
  {
    n := 0;
    while n < |draws|
      invariant n <= |draws|
      invariant forall k :: 0 <= k < n ==> !Suitable(draws[k] % period, period, factors)
    {
      var ok := IsSuitable(draws[n] % period, period, factors);
      if ok {
        break;
      }
      n := n + 1;
    }
  }

  /** struct rng_state. */
  class Lcg {
    var last: uint32
    var coeff: uint32
    var incr: uint32
    var mod: uint32

    function Settings(): Params
      reads this
    {
      Params(coeff, incr, mod)
    }

    constructor (last: uint32, coeff: uint32, incr: uint32, mod: uint32)
      ensures this.last == last && Settings() == Params(coeff, incr, mod)
    {
      this.last, this.coeff, this.incr, this.mod := last, coeff, incr, mod;
    }

    method Next() returns (r: uint32)
      requires mod > 0
      modifies this`last
      ensures r == last == Step(Settings(), old(last))
    {
      last := (coeff * last + incr) % WORD % mod;
      r := last;
    }
  }

  lemma ProductStep(factors: seq<int>, idx: nat, coeff: int)
    requires idx < |factors| && coeff == (4 * Product(factors[..idx])) % WORD
    ensures (coeff * factors[idx]) % WORD == (4 * Product(factors[..idx + 1])) % WORD
  {
    var q, f := Product(factors[..idx]), factors[idx];
    assert factors[..idx + 1][..idx] == factors[..idx];
    SmallMod(coeff, WORD);
    CongruentAffine(coeff, 4 * q, f, f, 0, WORD);
    assert (4 * q) * f == 4 * (q * f);
  }

  /** rng_lcfc_init_incr, with the outcome of malloc and the seed from rand() as inputs. */
  method InitIncr(period: uint32, factors: seq<int>, incr: uint32, memory: bool, seed: uint32)
    returns (r: Lcg?)
    requires period >= 5 && factors != [] && PositiveInts(factors)
    ensures r == null <==> !Accepts(incr, factors) || !memory
    ensures r != null ==> fresh(r) && r.last == seed && r.Settings() == ParamsFor(period, factors, incr)
  {
    var ok := IsCoprime(incr, factors);
    if !ok || !memory {
      return null;
    }
    var coeff := 4;
    for idx := 0 to |factors|
      invariant coeff == (4 * Product(factors[..idx])) % WORD
    {
      ProductStep(factors, idx, coeff);
      coeff := (coeff * factors[idx]) % WORD;
    }
    assert factors[..|factors|] == factors;
    ModOfMod(coeff, WORD, WORD);
    CongruentAffine(1, 1, coeff, 4 * Product(factors), 1, WORD);
    r := new Lcg(seed, (coeff + 1) % WORD, incr, period);
  }

  /** The driver of clients/rng_test.c: it passes exactly when the next `period` outputs have no repetition,
      which OutputsListAll promises for every generator that InitIncr returns. */
  method CheckFullCycle(lcfc: Lcg) returns (passed: bool)
    requires lcfc.mod > 0
    modifies lcfc`last
    ensures passed <==> ListsAll(old(Outputs(lcfc.Settings(), lcfc.last, lcfc.mod)), lcfc.mod)
    ensures passed ==> lcfc.last == old(Walk(lcfc.Settings(), lcfc.last, lcfc.mod))
  {
    var period := lcfc.mod;
    ghost var g, x := lcfc.Settings(), lcfc.last;
    ghost var s := Outputs(g, x, period);
    var seen := new bool[period](_ => false);
    var iter := 0;
    while iter < period
      invariant 0 <= iter <= period && lcfc.Settings() == g && lcfc.last == Walk(g, x, iter)
      invariant forall v :: 0 <= v < period ==> (seen[v] <==> v in s[..iter])
      invariant Distinct(s[..iter])
    {
      var rn := lcfc.Next();
      assert rn == s[iter];
      if rn >= period {
        return false;
      }
      if seen[rn] {
        assert rn in s[..iter];
        return false;
      }
      seen[rn] := true;
      assert s[..iter + 1] == s[..iter] + [rn];
      iter := iter + 1;
    }
    assert s[..period] == s;
    DistinctListsAll(s, period);
    passed := true;
  }
}
