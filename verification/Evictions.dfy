/** clients/square_evictions.c: the traversal that touches one byte per cache line in the order of a
    rejection-sampled full-cycle generator, and the choice of generator periods in main. */
module Evictions {
  import opened Types
  import opened Numbers
  import opened Sequences
  import opened FullCycle
  import opened Rng

  // ----- which lines a pass visits

  /** The outputs below the bound, in the order drawn: the draws that the spin loop lets through. */
  function InRange(s: seq<int>, bound: int): seq<int> {
    if s == [] then [] else
      var r, x := InRange(s[..|s| - 1], bound), s[|s| - 1];
      if x < bound then r + [x] else r
  }

  lemma {:induction false} InRangeMembers(s: seq<int>, bound: int)
    ensures forall v :: v in InRange(s, bound) <==> v in s && v < bound
  {
    if s != [] {
      InRangeMembers(s[..|s| - 1], bound);
      assert s == s[..|s| - 1] + [s[|s| - 1]];
    }
  }

  lemma {:induction false} InRangeDistinct(s: seq<int>, bound: int)
    requires Distinct(s)
    ensures Distinct(InRange(s, bound))
  {
    if s != [] {
      var t, x := s[..|s| - 1], s[|s| - 1];
      InRangeDistinct(t, bound);
      InRangeMembers(t, bound);
      assert x !in InRange(t, bound);
    }
  }

  /** A longer run of draws extends what was let through and only adds to what was rejected. */
  lemma {:induction false} InRangePrefix(s: seq<int>, d: nat, bound: int)
    requires d <= |s|
    ensures InRange(s[..d], bound) <= InRange(s, bound)
    ensures d - |InRange(s[..d], bound)| <= |s| - |InRange(s, bound)|
  {
    if d == |s| {
      assert s[..d] == s;
    } else {
      var t := s[..|s| - 1];
      InRangePrefix(t, d, bound);
      assert t[..d] == s[..d];
    }
  }

  /** Of a full cycle exactly the lines get through, each once. */
  lemma InRangeOfCycle(s: seq<int>, period: nat, lines: nat)
    requires ListsAll(s, period) && lines <= period
    ensures ListsAll(InRange(s, lines), lines)
  {
    var r := InRange(s, lines);
    InRangeMembers(s, lines);
    InRangeDistinct(s, lines);
    forall i | 0 <= i < |r|
      ensures 0 <= r[i] < lines
    {
      assert r[i] in r;
    }
    DistinctCardinality(r);
    assert Elements(r) == Range(lines) by {
      forall v
        ensures v in Elements(r) <==> v in Range(lines)
      {
        if v in Range(lines) {
          assert v in s;
        }
      }
    }
  }

  lemma OutputsAppend(g: Params, x: uint32, d: nat)
    requires g.mod > 0
    ensures Outputs(g, x, d + 1) == Outputs(g, x, d) + [Step(g, Walk(g, x, d))]
  {
  }

  lemma OutputsPrefix(g: Params, x: uint32, d: nat, n: nat)
    requires g.mod > 0 && d <= n
    ensures Outputs(g, x, n)[..d] == Outputs(g, x, d)
  {
  }

  /** The lines visited by the first d draws from state x. */
  function Visited(g: Params, x: uint32, d: nat, lines: nat): seq<int>
    requires g.mod > 0
  {
    InRange(Outputs(g, x, d), lines)
  }

  lemma VisitedStep(g: Params, x: uint32, d: nat, lines: nat)
    requires g.mod > 0
    ensures var r := Walk(g, x, d + 1);
            Visited(g, x, d + 1, lines) == if r < lines then Visited(g, x, d, lines) + [r] else Visited(g, x, d, lines)
  {
    OutputsAppend(g, x, d);
    assert Outputs(g, x, d + 1)[..d] == Outputs(g, x, d);
  }

  /** The visits of a shorter run are a prefix of the visits of the full cycle, which list all lines. */
  lemma VisitedPrefix(g: Params, factors: seq<int>, x: uint32, d: nat, lines: nat)
    requires FullCycleSettings(g, factors) && lines <= g.mod && d <= g.mod
    ensures ListsAll(Visited(g, x, g.mod, lines), lines)
    ensures Visited(g, x, d, lines) <= Visited(g, x, g.mod, lines)
    ensures d - |Visited(g, x, d, lines)| <= g.mod - lines
  {
    var s := Outputs(g, x, g.mod);
    OutputsListAll(g.mod, factors, g.incr, x);
    InRangeOfCycle(s, g.mod, lines);
    OutputsPrefix(g, x, d, g.mod);
    InRangePrefix(s, d, lines);
  }

  /** A run is short of a full cycle as long as some line is missing, and rejects at most period - lines draws. */
  lemma VisitedCounts(g: Params, factors: seq<int>, x: uint32, d: nat, lines: nat)
    requires FullCycleSettings(g, factors) && lines <= g.mod && d <= g.mod
    ensures |Visited(g, x, d, lines)| <= lines
    ensures d - |Visited(g, x, d, lines)| <= g.mod - lines
    ensures |Visited(g, x, d, lines)| < lines ==> d < g.mod
  {
    VisitedPrefix(g, factors, x, d, lines);
  }

  /** Any number of draws up to a full cycle visits distinct lines, and all of them once there are enough. */
  lemma VisitedLines(g: Params, factors: seq<int>, x: uint32, d: nat, lines: nat)
    requires FullCycleSettings(g, factors) && lines <= g.mod && d <= g.mod
    ensures Distinct(Visited(g, x, d, lines))
    ensures forall i :: 0 <= i < |Visited(g, x, d, lines)| ==> 0 <= Visited(g, x, d, lines)[i] < lines
    ensures |Visited(g, x, d, lines)| == lines ==> ListsAll(Visited(g, x, d, lines), lines)
  {
    VisitedPrefix(g, factors, x, d, lines);
    var r, full := Visited(g, x, d, lines), Visited(g, x, g.mod, lines);
    assert forall i :: 0 <= i < |r| ==> r[i] == full[i];
    if |r| == lines {
      assert r == full;
    }
  }

  /** The condition lines <= period is exact: beyond it no number of draws visits every line. */
  lemma CoverageIff(g: Params, factors: seq<int>, x: uint32, lines: nat)
    requires FullCycleSettings(g, factors)
    ensures (exists d :: d >= 0 && ListsAll(Visited(g, x, d, lines), lines)) <==> lines <= g.mod
  {
    if lines <= g.mod {
      OutputsListAll(g.mod, factors, g.incr, x);
      InRangeOfCycle(Outputs(g, x, g.mod), g.mod, lines);
      assert ListsAll(Visited(g, x, g.mod, lines), lines);
    } else {
      forall d: nat
        ensures !ListsAll(Visited(g, x, d, lines), lines)
      {
        InRangeMembers(Outputs(g, x, d), lines);
        assert g.mod !in Outputs(g, x, d);
        assert g.mod !in Visited(g, x, d, lines);
      }
    }
  }

  // ----- what a pass does to the bytes

  function TwoTo(n: nat): nat {
    if n == 0 then 1 else 2 * TwoTo(n - 1)
  }

  /** Exclusive or of two n-bit numbers. */
  function Xor(a: nat, b: nat, n: nat): (r: nat)
    requires a < TwoTo(n) && b < TwoTo(n)
    ensures r < TwoTo(n)
  {
    if n == 0 then 0 else (a + b) % 2 + 2 * Xor(a / 2, b / 2, n - 1)
  }

  lemma XorBits(a: nat, b: nat, n: nat)
    requires n > 0 && a < TwoTo(n) && b < TwoTo(n)
    ensures Xor(a, b, n) % 2 == (a + b) % 2 && Xor(a, b, n) / 2 == Xor(a / 2, b / 2, n - 1)
  {
  }

  lemma ParityOfSum(a: nat, b: nat, c: nat)
    requires c % 2 == (a + b) % 2
    ensures (b + c) % 2 == a % 2 && (c + a) % 2 == b % 2
  {
  }

  /** The three-XOR swap. */
  lemma {:induction false} XorSwaps(a: nat, b: nat, n: nat)
    requires a < TwoTo(n) && b < TwoTo(n)
    ensures Xor(b, Xor(a, b, n), n) == a && Xor(Xor(a, b, n), a, n) == b
  {
    if n > 0 {
      var c := Xor(a, b, n);
      XorBits(a, b, n);
      XorBits(b, c, n);
      XorBits(c, a, n);
      ParityOfSum(a, b, c);
      XorSwaps(a / 2, b / 2, n - 1);
    }
  }

  /** Swap val with each visited line start in turn: the data after the visits and the final val. */
  function TouchAll(a: seq<byte>, val: byte, order: seq<int>, lineSize: nat): (r: (seq<byte>, byte))
    requires forall k :: 0 <= k < |order| ==> 0 <= order[k] * lineSize < |a|
    ensures |r.0| == |a|
  {
    if order == [] then (a, val) else
      var n := |order| - 1;
      var (b, v) := TouchAll(a, val, order[..n], lineSize);
      var ix := order[n] * lineSize;
      (b[ix := v], b[ix])
  }

  /** The bytes at the line starts. */
  function LineStarts(a: seq<byte>, lines: nat, lineSize: nat): (r: seq<byte>)
    requires forall l :: 0 <= l < lines ==> 0 <= l * lineSize < |a|
    ensures |r| == lines && forall l :: 0 <= l < lines ==> r[l] == a[l * lineSize]
  {
    seq(lines, l requires 0 <= l < lines => a[l * lineSize])
  }

  predicate Fits(a: seq<byte>, lines: nat, lineSize: nat) {
    lineSize > 0 && lines * lineSize <= |a|
  }

  lemma LineBounds(l: int, lines: int, lineSize: int)
    requires 0 <= l < lines && lineSize > 0
    ensures 0 <= l * lineSize < lines * lineSize
  {
    MulMonotone(lineSize, l + 1, lines);
    MulMonotone(lineSize, 0, l);
    assert lineSize * (l + 1) == l * lineSize + lineSize;
    assert lineSize * lines == lines * lineSize;
  }

  lemma AllLineBounds(a: seq<byte>, lines: nat, lineSize: nat)
    requires Fits(a, lines, lineSize)
    ensures forall l :: 0 <= l < lines ==> 0 <= l * lineSize < |a|
  {
    forall l | 0 <= l < lines
      ensures 0 <= l * lineSize < |a|
    {
      LineBounds(l, lines, lineSize);
    }
  }

  /** A visit of distinct lines shifts their bytes one place along the order, from val at the front to val at
      the back, and changes no other byte. */
  lemma {:induction false} Rotation(a: seq<byte>, val: byte, order: seq<int>, lineSize: nat)
    requires lineSize > 0 && Distinct(order)
    requires forall k :: 0 <= k < |order| ==> 0 <= order[k] * lineSize < |a|
    ensures var (b, v) := TouchAll(a, val, order, lineSize);
            && (forall k :: 0 <= k < |order| ==>
                  b[order[k] * lineSize] == if k == 0 then val else a[order[k - 1] * lineSize])
            && v == if order == [] then val else a[order[|order| - 1] * lineSize]
  {
    if order != [] {
      var n := |order| - 1;
      var init := order[..n];
      Rotation(a, val, init, lineSize);
      LineStartsDiffer(order, lineSize);
      Untouched(a, val, init, lineSize, order[n] * lineSize);
      var (b, v) := TouchAll(a, val, init, lineSize);
      forall k | 0 <= k < n
        ensures b[order[n] * lineSize := v][order[k] * lineSize] == b[init[k] * lineSize]
      {
        assert order[k] * lineSize != order[n] * lineSize;
      }
    }
  }

  lemma LineStartsDiffer(order: seq<int>, lineSize: nat)
    requires lineSize > 0 && Distinct(order)
    ensures forall i, j :: 0 <= i < j < |order| ==> order[i] * lineSize != order[j] * lineSize
  {
    forall i, j | 0 <= i < j < |order|
      ensures order[i] * lineSize != order[j] * lineSize
    {
      if order[i] * lineSize == order[j] * lineSize {
        CancelFactor(lineSize, order[i], order[j]);
      }
    }
  }

  /** A byte that is no visited line start keeps its value. */
  lemma {:induction false} Untouched(a: seq<byte>, val: byte, order: seq<int>, lineSize: nat, i: int)
    requires forall k :: 0 <= k < |order| ==> 0 <= order[k] * lineSize < |a|
    requires 0 <= i < |a| && forall k :: 0 <= k < |order| ==> i != order[k] * lineSize
    ensures TouchAll(a, val, order, lineSize).0[i] == a[i]
  {
    if order != [] {
      var n := |order| - 1;
      assert i != order[n] * lineSize;
      Untouched(a, val, order[..n], lineSize, i);
    }
  }

  /** Whatever lines are visited, distinct or not, no byte value is gained or lost. */
  lemma {:induction false} Conservation(a: seq<byte>, val: byte, order: seq<int>, lines: nat, lineSize: nat)
    requires Fits(a, lines, lineSize)
    requires forall k :: 0 <= k < |order| ==> 0 <= order[k] < lines && 0 <= order[k] * lineSize < |a|
    requires forall l :: 0 <= l < lines ==> 0 <= l * lineSize < |a|
    ensures var (b, v) := TouchAll(a, val, order, lineSize);
            multiset(LineStarts(b, lines, lineSize)) + multiset{v} ==
              multiset(LineStarts(a, lines, lineSize)) + multiset{val}
  {
    if order != [] {
      var n := |order| - 1;
      Conservation(a, val, order[..n], lines, lineSize);
      var (b, v) := TouchAll(a, val, order[..n], lineSize);
      TouchConserves(b, v, order[n], lines, lineSize);
    }
  }

  lemma TouchConserves(b: seq<byte>, v: byte, l: int, lines: nat, lineSize: nat)
    requires Fits(b, lines, lineSize) && 0 <= l < lines
    requires forall k :: 0 <= k < lines ==> 0 <= k * lineSize < |b|
    ensures multiset(LineStarts(b[l * lineSize := v], lines, lineSize)) + multiset{b[l * lineSize]}
         == multiset(LineStarts(b, lines, lineSize)) + multiset{v}
  {
    var s := LineStarts(b, lines, lineSize);
    var t := LineStarts(b[l * lineSize := v], lines, lineSize);
    forall k | 0 <= k < lines
      ensures t[k] == s[l := v][k]
    {
      if k != l && k * lineSize == l * lineSize {
        CancelFactor(lineSize, k, l);
      }
    }
    assert t == s[l := v];
  }

  // ----- the loops

  datatype Status = Complete | SpinError | LimitReached

  /** What one spin leaves: the generator after d' draws, of which only the last got through. */
  ghost predicate SpinsTo(g: Params, x: uint32, d: nat, d': nat, lines: nat, line: int)
    requires g.mod > 0
  {
    && d < d' <= g.mod
    && line == Walk(g, x, d') < lines
    && Visited(g, x, d', lines) == Visited(g, x, d, lines) + [line]
    && d' - d <= g.mod - lines + 1
  }

  /** The spin so far: every draw since d was rejected. */
  ghost predicate Spinning(g: Params, x: uint32, d: nat, d': nat, lines: nat)
    requires g.mod > 0
  {
    && d <= d' < g.mod
    && Visited(g, x, d', lines) == Visited(g, x, d, lines)
    && |Visited(g, x, d, lines)| < lines
  }

  lemma SpinStep(g: Params, factors: seq<int>, x: uint32, d: nat, d': nat, lines: nat)
    requires FullCycleSettings(g, factors) && lines <= g.mod && Spinning(g, x, d, d', lines)
    ensures var r := Walk(g, x, d' + 1);
            if r < lines then SpinsTo(g, x, d, d' + 1, lines, r) else Spinning(g, x, d, d' + 1, lines)
  {
    VisitedStep(g, x, d', lines);
    VisitedCounts(g, factors, x, d', lines);
    VisitedCounts(g, factors, x, d' + 1, lines);
    VisitedNotMore(g, x, d, lines);
  }

  lemma VisitedNotMore(g: Params, x: uint32, d: nat, lines: nat)
    requires g.mod > 0
    ensures |Visited(g, x, d, lines)| <= d
  {
    if d > 0 {
      VisitedNotMore(g, x, d - 1, lines);
      VisitedStep(g, x, d - 1, lines);
    } else {
      assert Outputs(g, x, 0) == [];
    }
  }

  /** One iteration of the do-while loop: the index is a 32-bit product. */
  method DrawIndex(rng: Lcg, lineSize: nat, lines: nat) returns (ix: nat)
    requires rng.mod > 0 && lineSize > 0 && (rng.mod - 1) * lineSize < WORD
    modifies rng`last
    ensures rng.last == Step(rng.Settings(), old(rng.last))
    ensures ix == rng.last * lineSize && (ix < lines * lineSize <==> rng.last < lines)
  {
    var r := rng.Next();
    IndexExact(r, rng.mod, lineSize);
    LineInside(r, lines, lineSize);
    ix := (r * lineSize) % WORD;
  }

  /** The do-while loop: draw until the index falls inside the buffer. */
  method Spin(rng: Lcg, lineSize: nat, lines: nat, ghost factors: seq<int>, ghost x: uint32, ghost d: nat)
    returns (ix: nat, tries: nat, ghost d': nat)
    requires FullCycleSettings(rng.Settings(), factors) && lines <= rng.mod && d < rng.mod
    requires lineSize > 0 && (rng.mod - 1) * lineSize < WORD
    requires rng.last == Walk(rng.Settings(), x, d)
    requires |Visited(rng.Settings(), x, d, lines)| < lines
    modifies rng`last
    ensures rng.last == Walk(rng.Settings(), x, d')
    ensures SpinsTo(rng.Settings(), x, d, d', lines, rng.last)
    ensures ix == rng.last * lineSize < lines * lineSize && tries == d' - d
  {
    ghost var g := rng.Settings();
    SpinStep(g, factors, x, d, d, lines);
    ix := DrawIndex(rng, lineSize, lines);
    tries, d' := 1, d + 1;
    while ix >= lines * lineSize
      invariant rng.Settings() == g && rng.last == Walk(g, x, d') && tries == d' - d > 0
      invariant ix == rng.last * lineSize && (ix < lines * lineSize <==> rng.last < lines)
      invariant if rng.last < lines then SpinsTo(g, x, d, d', lines, rng.last) else Spinning(g, x, d, d', lines)
      decreases g.mod - d'
    {
      SpinStep(g, factors, x, d, d', lines);
      ix := DrawIndex(rng, lineSize, lines);
      tries, d' := tries + 1, d' + 1;
    }
  }

  lemma IndexExact(r: int, period: int, lineSize: int)
    requires 0 <= r < period && lineSize > 0 && (period - 1) * lineSize < WORD
    ensures (r * lineSize) % WORD == r * lineSize >= 0
  {
    MulMonotone(lineSize, r, period - 1);
    MulMonotone(lineSize, 0, r);
  }

  lemma LineInside(r: int, lines: int, lineSize: int)
    requires 0 <= r && 0 <= lines && lineSize > 0
    ensures r * lineSize < lines * lineSize <==> r < lines
  {
    if r < lines {
      LineBounds(r, lines, lineSize);
    } else {
      MulMonotone(lineSize, lines, r);
    }
  }

  /** The three XORs. */
  method SwapWith(arr: array<byte>, ix: nat, val0: byte) returns (val: byte)
    requires ix < arr.Length
    modifies arr
    ensures arr[..] == old(arr[..])[ix := val0] && val == old(arr[ix])
  {
    XorSwaps(arr[ix], val0, 8);
    arr[ix] := Xor(arr[ix], val0, 8);
    val := Xor(val0, arr[ix], 8);
    arr[ix] := Xor(arr[ix], val, 8);
  }

  /** Where a pass started in state x on the data `before` stands after d draws and k accesses. */
  ghost predicate InPass(g: Params, x: uint32, d: nat, k: nat, lines: nat, lineSize: nat,
                         before: seq<byte>, val0: byte, now: seq<byte>, val: byte)
    requires g.mod > 0
  {
    && d <= g.mod && k == |Visited(g, x, d, lines)| <= lines
    && Touched(before, val0, Visited(g, x, d, lines), lineSize, now, val)
  }

  /** The body of the offset loop: find the next line and swap val with its first byte, or give up under -q. */
  method Access(arr: array<byte>, lineSize: nat, lines: nat, rng: Lcg, noRandspin: bool, val1: byte,
                ghost factors: seq<int>, ghost x: uint32, ghost d: nat, ghost k: nat, ghost before: seq<byte>,
                ghost val0: byte)
    returns (val: byte, initial: bool, ok: bool, ghost d': nat)
    requires FullCycleSettings(rng.Settings(), factors) && lines <= rng.mod
    requires Fits(arr[..], lines, lineSize) && (rng.mod - 1) * lineSize < WORD
    requires rng.last == Walk(rng.Settings(), x, d) && k < lines
    requires InPass(rng.Settings(), x, d, k, lines, lineSize, before, val0, arr[..], val1)
    modifies arr, rng`last
    ensures d < d' <= rng.mod && rng.last == Walk(rng.Settings(), x, d')
    ensures Visited(rng.Settings(), x, d', lines) == Visited(rng.Settings(), x, d, lines) + [rng.last]
    ensures initial <==> rng.last == 0
    ensures ok <==> !(noRandspin && d' > d + 1)
    ensures ok ==> InPass(rng.Settings(), x, d', k + 1, lines, lineSize, before, val0, arr[..], val)
    ensures !ok ==> noRandspin && lines < rng.mod && arr[..] == old(arr[..]) && val == val1
  {
    ghost var g := rng.Settings();
    VisitedCounts(g, factors, x, d, lines);
    var ix, tries;
    ix, tries, d' := Spin(rng, lineSize, lines, factors, x, d);
    initial := ix == 0;
    ZeroIndex(rng.last, lineSize);
    val, ok := val1, !(noRandspin && tries > 1);
    if ok {
      TouchedStep(before, val0, Visited(g, x, d, lines), lineSize, arr[..], val, rng.last);
      val := SwapWith(arr, ix, val);
    }
  }

  /** The counters of a pass after k accesses. */
  ghost predicate Counters(k: nat, d: nat, lineSize: nat, offset: int, accesses0: nat, accesses: int, maxAccesses: nat,
                           infinite: bool, noRandspin: bool)
  {
    && offset == k * lineSize && accesses == accesses0 + k && (infinite || !(accesses0 < maxAccesses <= accesses))
    && (noRandspin ==> d == k)
  }

  /** One round of the offset loop. */
  method Round(arr: array<byte>, lineSize: nat, lines: nat, rng: Lcg, noRandspin: bool, val1: byte, offset1: int,
               accesses1: nat, seen1: bool, siz: int, maxAccesses: nat, infinite: bool, ghost accesses0: nat,
               ghost factors: seq<int>, ghost x: uint32, ghost d: nat, ghost k: nat, ghost before: seq<byte>,
               ghost val0: byte)
    returns (val: byte, offset: int, accesses: nat, seen: bool, status: Status, ghost d': nat)
    requires FullCycleSettings(rng.Settings(), factors) && lines <= rng.mod
    requires Fits(arr[..], lines, lineSize) && (rng.mod - 1) * lineSize < WORD
    requires rng.last == Walk(rng.Settings(), x, d) && k < lines
    requires InPass(rng.Settings(), x, d, k, lines, lineSize, before, val0, arr[..], val1)
    requires Counters(k, d, lineSize, offset1, accesses0, accesses1, maxAccesses, infinite, noRandspin)
    requires seen1 <==> 0 in Visited(rng.Settings(), x, d, lines)
    requires siz == lines * lineSize
    modifies arr, rng`last
    ensures d' <= rng.mod && rng.last == Walk(rng.Settings(), x, d')
    ensures status == SpinError ==> noRandspin && lines < rng.mod && d' > k + 1 && accesses == accesses1
    ensures status == SpinError ==> Broken(rng.Settings(), x, d', k, lines, lineSize, before, val0, arr[..], val)
    ensures status != SpinError ==> InPass(rng.Settings(), x, d', k + 1, lines, lineSize, before, val0, arr[..], val)
    ensures status != SpinError ==> accesses == accesses1 + 1 && (noRandspin ==> d' == k + 1)
    ensures status == LimitReached ==> !infinite && accesses == maxAccesses
    ensures status == Complete ==>
              Counters(k + 1, d', lineSize, offset, accesses0, accesses, maxAccesses, infinite, noRandspin)
    ensures status == Complete ==> (seen <==> 0 in Visited(rng.Settings(), x, d', lines))
    ensures status == Complete ==> (offset < siz <==> k + 1 < lines)
  {
    ghost var order := Visited(rng.Settings(), x, d, lines);
    offset, accesses, status := offset1, accesses1, Complete;
    var initial, ok;
    val, initial, ok, d' := Access(arr, lineSize, lines, rng, noRandspin, val1, factors, x, d, k, before, val0);
    seen := seen1 || initial;
    if !ok {
      assert (order + [rng.last])[..k] == order;
      status := SpinError;
      return;
    }
    accesses := accesses + 1;
    NextOffset(k, lineSize);
    LineInside(k + 1, lines, lineSize);
    offset := offset + lineSize;
    if !infinite && accesses == maxAccesses {
      status := LimitReached;
    }
  }

  /** One pass. Whatever its outcome, it visits distinct lines, the ones the generator lets through, and swaps
      val along them; unless cut short it visits every line once. Under -q the error is raised exactly when a draw
      was out of range, which takes a period longer than the lines. */
  method Pass(arr: array<byte>, lineSize: nat, lines: nat, rng: Lcg, noRandspin: bool, val0: byte,
              accesses0: nat, maxAccesses: nat, infinite: bool, ghost factors: seq<int>)
    returns (val: byte, accesses: nat, status: Status, ghost d: nat)
    requires FullCycleSettings(rng.Settings(), factors) && lines <= rng.mod
    requires Fits(arr[..], lines, lineSize) && (rng.mod - 1) * lineSize < WORD
    modifies arr, rng`last
    ensures d <= rng.mod && rng.last == Walk(rng.Settings(), old(rng.last), d)
    ensures accesses0 <= accesses <= accesses0 + lines
    ensures Touched(old(arr[..]), val0, Accessed(rng.Settings(), old(rng.last), d, lines, accesses - accesses0),
                    lineSize, arr[..], val)
    ensures status == Complete ==>
              accesses == accesses0 + lines && ListsAll(Visited(rng.Settings(), old(rng.last), d, lines), lines)
    ensures status != SpinError ==> |Visited(rng.Settings(), old(rng.last), d, lines)| == accesses - accesses0
    ensures status == SpinError ==> noRandspin && lines < rng.mod && d > accesses - accesses0 + 1
    ensures status != SpinError && noRandspin ==> d == accesses - accesses0
    ensures status == LimitReached ==> !infinite && accesses == maxAccesses > 0
    ensures status == Complete && !infinite ==> !(accesses0 < maxAccesses <= accesses)
  {
    ghost var g, x, before, k := rng.Settings(), rng.last, arr[..], 0;
    var seenInitial;
    val, accesses, seenInitial, status, d, k :=
      OffsetLoop(arr, lineSize, lines, rng, noRandspin, val0, accesses0, maxAccesses, infinite, factors);
    VisitedLines(g, factors, x, d, lines);
    assert status == Complete && lines > 0 ==> seenInitial;
  }

  /** The loop over the offsets, up to the end or to the round that cuts it short. */
  method OffsetLoop(arr: array<byte>, lineSize: nat, lines: nat, rng: Lcg, noRandspin: bool, val0: byte,
                    accesses0: nat, maxAccesses: nat, infinite: bool, ghost factors: seq<int>)
    returns (val: byte, accesses: nat, seenInitial: bool, status: Status, ghost d: nat, ghost k: nat)
    requires FullCycleSettings(rng.Settings(), factors) && lines <= rng.mod
    requires Fits(arr[..], lines, lineSize) && (rng.mod - 1) * lineSize < WORD
    modifies arr, rng`last
    ensures d <= rng.mod && rng.last == Walk(rng.Settings(), old(rng.last), d)
    ensures accesses == accesses0 + k && (status == Complete ==> k == lines)
    ensures status == Complete ==> (seenInitial <==> 0 in Visited(rng.Settings(), old(rng.last), d, lines))
    ensures status != SpinError ==>
              InPass(rng.Settings(), old(rng.last), d, k, lines, lineSize, old(arr[..]), val0, arr[..], val)
    ensures status == SpinError ==>
              Broken(rng.Settings(), old(rng.last), d, k, lines, lineSize, old(arr[..]), val0, arr[..], val)
    ensures status == SpinError ==> noRandspin && lines < rng.mod && d > k + 1
    ensures status != SpinError && noRandspin ==> d == k
    ensures status == LimitReached ==> !infinite && accesses == maxAccesses > 0
    ensures status == Complete && !infinite ==> !(accesses0 < maxAccesses <= accesses)
  {
    ghost var g, x, before := rng.Settings(), rng.last, arr[..];
    var offset, siz := 0, lines * lineSize;
    val, accesses, seenInitial, status, d, k := val0, accesses0, false, Complete, 0, 0;
    assert Outputs(g, x, 0) == [];
    LineInside(k, lines, lineSize);
    while offset < siz
      invariant rng.Settings() == g && rng.last == Walk(g, x, d) && status == Complete
      invariant InPass(g, x, d, k, lines, lineSize, before, val0, arr[..], val)
      invariant Counters(k, d, lineSize, offset, accesses0, accesses, maxAccesses, infinite, noRandspin)
      invariant offset < siz <==> k < lines
      invariant seenInitial <==> 0 in Visited(g, x, d, lines)
      decreases lines - k
    {
      val, offset, accesses, seenInitial, status, d :=
        Round(arr, lineSize, lines, rng, noRandspin, val, offset, accesses, seenInitial, siz, maxAccesses, infinite,
              accesses0, factors, x, d, k, before, val0);
      if status == SpinError {
        return;
      }
      k := k + 1;
      if status != Complete {
        return;
      }
    }
  }

  /** A pass broken off by -q: the last draw is a line, but was not accessed. */
  ghost predicate Broken(g: Params, x: uint32, d: nat, k: nat, lines: nat, lineSize: nat,
                         before: seq<byte>, val0: byte, now: seq<byte>, val: byte)
    requires g.mod > 0
  {
    && d <= g.mod && k < |Visited(g, x, d, lines)| <= lines
    && Touched(before, val0, Visited(g, x, d, lines)[..k], lineSize, now, val)
  }

  /** The first n lines visited by d draws: those whose byte was swapped. */
  function Accessed(g: Params, x: uint32, d: nat, lines: nat, n: int): seq<int>
    requires g.mod > 0
  {
    var order := Visited(g, x, d, lines);
    if 0 <= n < |order| then order[..n] else order
  }

  lemma NextOffset(k: int, lineSize: int)
    ensures k * lineSize + lineSize == (k + 1) * lineSize
  {
  }

  lemma ZeroIndex(line: int, lineSize: int)
    requires line >= 0 && lineSize > 0
    ensures line * lineSize == 0 <==> line == 0
  {
    if line > 0 {
      MulMonotone(lineSize, 1, line);
    }
  }

  /** The visits of `order` turn the data `before` and val0 into `after` and val. */
  ghost predicate Touched(before: seq<byte>, val0: byte, order: seq<int>, lineSize: nat, after: seq<byte>, val: byte) {
    && (forall k :: 0 <= k < |order| ==> 0 <= order[k] * lineSize < |before|)
    && (after, val) == TouchAll(before, val0, order, lineSize)
  }

  lemma TouchedStep(before: seq<byte>, val0: byte, order: seq<int>, lineSize: nat, after: seq<byte>, val: byte,
                    line: int)
    requires Touched(before, val0, order, lineSize, after, val) && 0 <= line * lineSize < |before|
    ensures Touched(before, val0, order + [line], lineSize, after[line * lineSize := val], after[line * lineSize])
  {
    var o := order + [line];
    assert o[..|o| - 1] == order;
  }

  function Join(orders: seq<seq<int>>): seq<int> {
    if orders == [] then [] else Join(orders[..|orders| - 1]) + orders[|orders| - 1]
  }

  lemma {:induction false} TouchedTwice(a: seq<byte>, val0: byte, o1: seq<int>, lineSize: nat, b: seq<byte>, val1: byte,
                                        o2: seq<int>, c: seq<byte>, val2: byte)
    requires Touched(a, val0, o1, lineSize, b, val1) && Touched(b, val1, o2, lineSize, c, val2)
    ensures Touched(a, val0, o1 + o2, lineSize, c, val2)
    decreases |o2|
  {
    if o2 == [] {
      assert o1 + o2 == o1;
    } else {
      var n := |o2| - 1;
      var (c', v') := TouchAll(b, val1, o2[..n], lineSize);
      TouchedTwice(a, val0, o1, lineSize, b, val1, o2[..n], c', v');
      TouchedStep(a, val0, o1 + o2[..n], lineSize, c', v', o2[n]);
      assert o1 + o2 == (o1 + o2[..n]) + [o2[n]];
    }
  }

  /** Lines in bounds, for every visit of a run. */
  ghost predicate LinesOnly(order: seq<int>, lines: nat) {
    forall k :: 0 <= k < |order| ==> 0 <= order[k] < lines
  }

  lemma RunConserves(a: seq<byte>, val0: byte, order: seq<int>, lines: nat, lineSize: nat, b: seq<byte>, val: byte)
    requires Fits(a, lines, lineSize) && LinesOnly(order, lines) && Touched(a, val0, order, lineSize, b, val)
    ensures |b| == |a| && Conserved(a, val0, lines, lineSize, b, val)
  {
    AllLineBounds(a, lines, lineSize);
    Conservation(a, val0, order, lines, lineSize);
  }

  /** The line-start bytes together with val are the same multiset before and after. */
  ghost predicate Conserved(a: seq<byte>, val0: byte, lines: nat, lineSize: nat, b: seq<byte>, val: byte) {
    && |b| == |a|
    && (forall l :: 0 <= l < lines ==> 0 <= l * lineSize < |a|)
    && multiset(LineStarts(b, lines, lineSize)) + multiset{val}
       == multiset(LineStarts(a, lines, lineSize)) + multiset{val0}
  }

  lemma AccessedLines(g: Params, factors: seq<int>, x: uint32, d: nat, lines: nat, n: int)
    requires FullCycleSettings(g, factors) && lines <= g.mod && d <= g.mod
    ensures LinesOnly(Accessed(g, x, d, lines, n), lines) && Distinct(Accessed(g, x, d, lines, n))
  {
    VisitedLines(g, factors, x, d, lines);
  }

  /** The visits of a run of passes: distinct lines in each, and all lines in each but a cut-short last one. */
  ghost predicate PassOrders(orders: seq<seq<int>>, lines: nat, complete: bool) {
    && LinesOnly(Join(orders), lines)
    && (forall p :: 0 <= p < |orders| ==> Distinct(orders[p]))
    && (forall p :: 0 <= p < |orders| && (complete || p < |orders| - 1) ==> ListsAll(orders[p], lines))
  }

  lemma ExtendOrders(orders: seq<seq<int>>, order: seq<int>, lines: nat, complete: bool)
    requires PassOrders(orders, lines, true) && LinesOnly(order, lines) && Distinct(order)
    requires complete ==> ListsAll(order, lines)
    ensures PassOrders(orders + [order], lines, complete) && Join(orders + [order]) == Join(orders) + order
  {
    var o := orders + [order];
    assert o[..|o| - 1] == orders;
  }

  lemma {:induction false} InRangeConcat(s: seq<int>, t: seq<int>, bound: int)
    ensures InRange(s + t, bound) == InRange(s, bound) + InRange(t, bound)
  {
    if t == [] {
      assert s + t == s;
    } else {
      var n := |t| - 1;
      InRangeConcat(s, t[..n], bound);
      assert (s + t)[..|s + t| - 1] == s + t[..n];
    }
  }

  /** The lines that the draws of two consecutive stretches visit. */
  lemma VisitedOn(g: Params, x: uint32, d: nat, e: nat, lines: nat)
    requires g.mod > 0
    ensures Visited(g, x, d + e, lines) == Visited(g, x, d, lines) + Visited(g, Walk(g, x, d), e, lines)
  {
    var s, t := Outputs(g, x, d), Outputs(g, Walk(g, x, d), e);
    forall k | 0 <= k < e
      ensures Walk(g, x, d + (k + 1)) == t[k]
    {
      WalkSplit(g, x, d, k + 1);
    }
    assert Outputs(g, x, d + e) == s + t;
    InRangeConcat(s, t, lines);
  }

  /** The generator went from x to y in d draws and, unless the run ended in an error, the visits are those draws that
      are lines, in the order drawn. */
  ghost predicate Drawn(g: Params, x: uint32, y: uint32, d: nat, lines: nat, visits: seq<int>, status: Status)
    requires g.mod > 0
  {
    y == Walk(g, x, d) && (status != SpinError ==> visits == Visited(g, x, d, lines))
  }

  lemma DrawnOn(g: Params, x: uint32, y: uint32, z: uint32, d: nat, e: nat, lines: nat, visits: seq<int>,
                order: seq<int>, status: Status)
    requires g.mod > 0 && Drawn(g, x, y, d, lines, visits, Complete) && Drawn(g, y, z, e, lines, order, status)
    ensures Drawn(g, x, z, d + e, lines, visits + order, status)
  {
    WalkSplit(g, x, d, e);
    VisitedOn(g, x, d, e, lines);
  }

  lemma PassDone(before: seq<byte>, val0: byte, orders: seq<seq<int>>, lineSize: nat, lines: nat, now: seq<byte>,
                 val1: byte, order: seq<int>, after: seq<byte>, val: byte, status: Status)
    requires PassOrders(orders, lines, true) && Touched(before, val0, Join(orders), lineSize, now, val1)
    requires Touched(now, val1, order, lineSize, after, val) && LinesOnly(order, lines) && Distinct(order)
    requires status == Complete ==> ListsAll(order, lines)
    ensures PassOrders(orders + [order], lines, status == Complete)
    ensures Join(orders + [order]) == Join(orders) + order
    ensures Touched(before, val0, Join(orders + [order]), lineSize, after, val)
  {
    TouchedTwice(before, val0, Join(orders), lineSize, now, val1, order, after, val);
    ExtendOrders(orders, order, lines, status == Complete);
  }

  /** The passes of one cycle, each from the generator state the last one left. Every pass but a cut-short last
      one visits every line exactly once, and over the whole run no byte value is gained or lost. */
  method RunPasses(arr: array<byte>, lineSize: nat, lines: nat, rng: Lcg, noRandspin: bool, val0: byte,
                   passes: nat, maxAccesses: nat, infinite: bool, ghost factors: seq<int>)
    returns (val: byte, status: Status, ghost orders: seq<seq<int>>, ghost draws: nat)
    requires FullCycleSettings(rng.Settings(), factors) && lines <= rng.mod
    requires Fits(arr[..], lines, lineSize) && (rng.mod - 1) * lineSize < WORD
    modifies arr, rng`last
    ensures Drawn(rng.Settings(), old(rng.last), rng.last, draws, lines, Join(orders), status)
    ensures |orders| <= passes && (status == Complete ==> |orders| == passes)
    ensures PassOrders(orders, lines, status == Complete)
    ensures Touched(old(arr[..]), val0, Join(orders), lineSize, arr[..], val)
    ensures Conserved(old(arr[..]), val0, lines, lineSize, arr[..], val)
    ensures status == SpinError ==> noRandspin && lines < rng.mod
    ensures status == LimitReached ==> !infinite && maxAccesses > 0
  {
    ghost var g, x, before := rng.Settings(), rng.last, arr[..];
    val, status, orders, draws := val0, Complete, [], 0;
    var pass, accesses := 0, 0;
    assert Outputs(g, x, 0) == [];
    while pass < passes && status == Complete
      invariant pass == |orders| <= passes && rng.Settings() == g
      invariant Drawn(g, x, rng.last, draws, lines, Join(orders), status)
      invariant PassOrders(orders, lines, status == Complete)
      invariant Touched(before, val0, Join(orders), lineSize, arr[..], val)
      invariant status == SpinError ==> noRandspin && lines < rng.mod
      invariant status == LimitReached ==> !infinite && maxAccesses > 0
      decreases passes - pass
    {
      ghost var now, val1, y, order, d := arr[..], val, rng.last, [], 0;
      val, accesses, status, order, d :=
        LoggedPass(arr, lineSize, lines, rng, noRandspin, val, accesses, maxAccesses, infinite, factors);
      DrawnOn(g, x, y, rng.last, draws, d, lines, Join(orders), order, status);
      PassDone(before, val0, orders, lineSize, lines, now, val1, order, arr[..], val, status);
      orders, draws := orders + [order], draws + d;
      pass := pass + 1;
    }
    RunConserves(before, val0, Join(orders), lines, lineSize, arr[..], val);
  }

  /** Pass, with the lines it accessed in place of the generator positions. */
  method LoggedPass(arr: array<byte>, lineSize: nat, lines: nat, rng: Lcg, noRandspin: bool, val0: byte,
                    accesses0: nat, maxAccesses: nat, infinite: bool, ghost factors: seq<int>)
    returns (val: byte, accesses: nat, status: Status, ghost order: seq<int>, ghost d: nat)
    requires FullCycleSettings(rng.Settings(), factors) && lines <= rng.mod
    requires Fits(arr[..], lines, lineSize) && (rng.mod - 1) * lineSize < WORD
    modifies arr, rng`last
    ensures Drawn(rng.Settings(), old(rng.last), rng.last, d, lines, order, status)
    ensures Touched(old(arr[..]), val0, order, lineSize, arr[..], val)
    ensures LinesOnly(order, lines) && Distinct(order) && (status == Complete ==> ListsAll(order, lines))
    ensures status == SpinError ==> noRandspin && lines < rng.mod
    ensures status == LimitReached ==> !infinite && accesses == maxAccesses > 0
  {
    ghost var g, x := rng.Settings(), rng.last;
    val, accesses, status, d :=
      Pass(arr, lineSize, lines, rng, noRandspin, val0, accesses0, maxAccesses, infinite, factors);
    order := Accessed(g, x, d, lines, accesses - accesses0);
    AccessedLines(g, factors, x, d, lines, accesses - accesses0);
  }

  // ----- the generator periods main picks

  const MINIMUM_GENERATOR_PERIOD := 8

  predicate PowerOfTwo(n: int) {
    n == 1 || (n > 1 && n % 2 == 0 && PowerOfTwo(n / 2))
  }

  lemma {:induction false} PowerOfTwoDivides(n: int, bits: nat)
    requires PowerOfTwo(n) && n <= TwoTo(bits)
    ensures Divides(n, TwoTo(bits))
  {
    if n == 1 {
      DivModUnique(TwoTo(bits), 1, TwoTo(bits), 0);
    } else {
      PowerOfTwoDivides(n / 2, bits - 1);
      MultiplyBoth(2, n / 2, TwoTo(bits - 1));
    }
  }

  lemma {:induction false} PrimeOfPowerOfTwo(n: int, p: int)
    requires PowerOfTwo(n) && Prime(p) && Divides(p, n)
    ensures p == 2
  {
    if n == 1 {
      SmallMod(1, p);
    } else {
      Euclid(p, 2, n / 2);
      if Divides(p, 2) {
        PrimeDividesPrime(p, 2);
      } else {
        PrimeOfPowerOfTwo(n / 2, p);
      }
    }
  }

  /** A power-of-two period with the factor list {2} gives a full cycle for every increment that is accepted. */
  lemma PowerOfTwoPeriodIsFull(period: uint32, incr: uint32)
    requires PowerOfTwo(period) && Accepts(incr, [2])
    ensures FullCycleSettings(ParamsFor(period, [2], incr), [2])
  {
    assert TwoTo(4) == 16;
    assert TwoTo(8) == 256;
    assert TwoTo(12) == 4096;
    assert TwoTo(16) == 65536;
    assert TwoTo(20) == 0x10_0000;
    assert TwoTo(24) == 0x100_0000;
    assert TwoTo(28) == 0x1000_0000;
    assert TwoTo(32) == WORD;
    PowerOfTwoDivides(period, 32);
    forall p | Prime(p) && Divides(p, period)
      ensures p in [2]
    {
      PrimeOfPowerOfTwo(period, p);
    }
    assert Prime(2);
  }

  /** The period choice without -f. The contracted generator is long enough for its lines exactly when they are
      no more than the cache sets; the expanded one always is. Neither is more than twice what is needed. */
  method SelectPeriods(cacheNumSets: int, linesContracted: int, linesExpanded: int) returns (reduced: int, siz: int)
    requires PowerOfTwo(cacheNumSets) && cacheNumSets < 0x8000_0000
    requires 0 <= linesContracted <= linesExpanded < 0x8000_0000
    ensures PowerOfTwo(reduced) && PowerOfTwo(siz) && reduced <= siz < WORD
    ensures linesContracted <= reduced <==> linesContracted <= cacheNumSets
    ensures linesExpanded <= siz
    ensures reduced >= MINIMUM_GENERATOR_PERIOD <==> cacheNumSets >= MINIMUM_GENERATOR_PERIOD
    ensures reduced < 2 * linesContracted || reduced < 2 * MINIMUM_GENERATOR_PERIOD
    ensures siz == reduced || siz < 2 * linesExpanded
  {
    reduced := cacheNumSets;
    while reduced / 2 >= linesContracted && reduced / 2 >= MINIMUM_GENERATOR_PERIOD
      invariant PowerOfTwo(reduced) && reduced <= cacheNumSets
      invariant linesContracted <= reduced <==> linesContracted <= cacheNumSets
      invariant reduced >= MINIMUM_GENERATOR_PERIOD <==> cacheNumSets >= MINIMUM_GENERATOR_PERIOD
      decreases reduced
    {
      reduced := reduced / 2;
    }
    siz := reduced;
    while siz < linesExpanded
      invariant PowerOfTwo(siz) && reduced <= siz < WORD
      invariant siz == reduced || siz < 2 * linesExpanded
      decreases linesExpanded - siz
    {
      siz := (siz * 2) % WORD;
    }
  }

  /** With the periods main picks, the index product of the spin loop cannot wrap: the buffer is below 2^31 bytes. */
  lemma SelectedIndexFits(period: int, lines: int, lineSize: int)
    requires period >= 1 && lines >= 0 && lineSize > 0 && lineSize * lines < 0x8000_0000
    requires period < 2 * lines || (period < 2 * MINIMUM_GENERATOR_PERIOD && lineSize < 0x1000_0000)
    ensures (period - 1) * lineSize < WORD
  {
    if period < 2 * lines {
      MulMonotone(lineSize, period - 1, 2 * lines);
      assert lineSize * (2 * lines) == 2 * (lineSize * lines);
    } else {
      MulMonotone(lineSize, period - 1, 14);
    }
  }

  /** The traversal of one phase as main sets it up: periods from the cache geometry, a generator with an odd increment,
      then the passes. On a cache of eight or more sets, with lines that fit the generator, every complete pass
      touches every line exactly once, from whatever state the one before it left. */
  method TraversePhase(arr: array<byte>, cacheNumSets: int, linesContracted: int, linesExpanded: int, contracted: bool,
                       lineSize: nat, incr: uint32, seed: uint32, noRandspin: bool, val0: byte, passes: nat)
    returns (val: byte, status: Status, ghost orders: seq<seq<int>>, ghost period: uint32, ghost draws: nat)
    requires PowerOfTwo(cacheNumSets) && MINIMUM_GENERATOR_PERIOD <= cacheNumSets < 0x8000_0000
    requires 0 <= linesContracted <= linesExpanded && (contracted ==> linesContracted <= cacheNumSets)
    requires 0 < lineSize < 0x1000_0000 && lineSize * linesExpanded < 0x8000_0000 && incr % 2 == 1
    requires Fits(arr[..], linesExpanded, lineSize)
    modifies arr
    ensures var lines := if contracted then linesContracted else linesExpanded;
            && lines <= period && PowerOfTwo(period)
            && (period < 2 * lines || period < 16 || period < 2 * linesContracted)
            && PassOrders(orders, lines, status == Complete)
            && (status == Complete ==> Join(orders) == Visited(Params(9, incr, period), seed, draws, lines))
            && Touched(old(arr[..]), val0, Join(orders), lineSize, arr[..], val)
            && Conserved(old(arr[..]), val0, lines, lineSize, arr[..], val)
    ensures status == Complete ==> |orders| == passes
    ensures !noRandspin ==> status == Complete
  {
    var lines := if contracted then linesContracted else linesExpanded;
    var chosen := ChoosePeriod(cacheNumSets, linesContracted, linesExpanded, contracted, lineSize);
    period := chosen;
    SettingsOfTwo(period, incr);
    var rng := InitIncr(chosen, [2], incr, true, seed);
    val, status, orders, draws := RunPasses(arr, lineSize, lines, rng, noRandspin, val0, passes, 0, false, [2]);
  }

  method ChoosePeriod(cacheNumSets: int, linesContracted: int, linesExpanded: int, contracted: bool, lineSize: nat)
    returns (period: uint32)
    requires PowerOfTwo(cacheNumSets) && MINIMUM_GENERATOR_PERIOD <= cacheNumSets < 0x8000_0000
    requires 0 <= linesContracted <= linesExpanded && (contracted ==> linesContracted <= cacheNumSets)
    requires 0 < lineSize < 0x1000_0000 && lineSize * linesExpanded < 0x8000_0000
    ensures var lines := if contracted then linesContracted else linesExpanded;
            && PowerOfTwo(period) && 8 <= period && lines <= period
            && (period < 2 * lines || period < 16 || period < 2 * linesContracted)
            && (period - 1) * lineSize < WORD && lines * lineSize <= linesExpanded * lineSize
  {
    MulMonotone(linesExpanded, 1, lineSize);
    var reduced, siz := SelectPeriods(cacheNumSets, linesContracted, linesExpanded);
    var lines := if contracted then linesContracted else linesExpanded;
    period := if contracted then reduced else siz;
    PhaseFits(period, reduced, siz, linesContracted, linesExpanded, lines, contracted, lineSize);
  }

  lemma SettingsOfTwo(period: uint32, incr: uint32)
    requires PowerOfTwo(period) && incr % 2 == 1
    ensures Accepts(incr, [2]) && ParamsFor(period, [2], incr) == Params(9, incr, period)
    ensures FullCycleSettings(Params(9, incr, period), [2])
  {
    assert [2][..0] == [];
    PowerOfTwoPeriodIsFull(period, incr);
  }

  lemma PhaseFits(period: int, reduced: int, siz: int, linesContracted: int, linesExpanded: int, lines: int,
                  contracted: bool, lineSize: int)
    requires 0 <= linesContracted <= linesExpanded && 0 < lineSize < 0x1000_0000
             && lineSize * linesExpanded < 0x8000_0000
    requires 8 <= reduced <= siz && (reduced < 2 * linesContracted || reduced < 16)
             && (siz == reduced || siz < 2 * linesExpanded)
    requires lines == (if contracted then linesContracted else linesExpanded)
             && period == (if contracted then reduced else siz)
    ensures (period - 1) * lineSize < WORD && lines * lineSize <= linesExpanded * lineSize
  {
    MulMonotone(lineSize, linesContracted, linesExpanded);
    SelectedIndexFits(period, linesExpanded, lineSize);
  }
}
