/** graph_helper.py: ordering data series by mean, where means closer than a threshold count as equal.
    A series carries what the script looks up under its name; descriptions are modelled by their rank. */
module OrderBucket {
  import opened Types
  import opened Sequences

  datatype Series = Series(name: string, mean: real, description: int)

  /** A list whose elements are series or, again, lists. */
  datatype Nested = Leaf(series: Series) | List(items: seq<Nested>)

  ghost predicate DistinctNames(s: seq<Series>) {
    forall i, j :: 0 <= i < j < |s| ==> s[i].name != s[j].name
  }

  predicate Far(x: Series, y: Series, t: real) {
    x.mean + t <= y.mean || x.mean - t >= y.mean
  }

  /** No two series, in either order, are a threshold or more apart. */
  predicate Close(s: seq<Series>, t: real) {
    forall i, j :: 0 <= i < |s| && 0 <= j < |s| ==> !Far(s[i], s[j], t)
  }

  // ----- leaves: sorted by description, then reversed

  function Insert(x: Series, s: seq<Series>): seq<Series> {
    if s == [] || x.description <= s[0].description then [x] + s else [s[0]] + Insert(x, s[1..])
  }

  /** The stable sort by description. */
  function Sorted(s: seq<Series>): seq<Series> {
    if s == [] then [] else Insert(s[0], Sorted(s[1..]))
  }

  function Reversed(s: seq<Series>): (r: seq<Series>)
    ensures |r| == |s|
  {
    if s == [] then [] else Reversed(s[1..]) + [s[0]]
  }

  lemma {:induction false} InsertPermutes(x: Series, s: seq<Series>)
    ensures multiset(Insert(x, s)) == multiset(s) + multiset{x}
  {
    if s != [] && x.description > s[0].description {
      InsertPermutes(x, s[1..]);
      assert s == [s[0]] + s[1..];
    }
  }

  lemma {:induction false} InsertAscending(x: Series, s: seq<Series>)
    requires Ascending(s)
    ensures Ascending(Insert(x, s))
  {
    if s != [] && x.description > s[0].description {
      InsertAscending(x, s[1..]);
      var r := Insert(x, s[1..]);
      forall i | 0 <= i < |r|
        ensures s[0].description <= r[i].description
      {
        InsertPermutes(x, s[1..]);
        assert r[i] in multiset(r);
        assert r[i] == x || r[i] in s[1..];
      }
    }
  }

  predicate Ascending(s: seq<Series>) {
    forall i, j :: 0 <= i < j < |s| ==> s[i].description <= s[j].description
  }

  lemma {:induction false} SortedFacts(s: seq<Series>)
    ensures multiset(Sorted(s)) == multiset(s) && Ascending(Sorted(s))
  {
    if s != [] {
      SortedFacts(s[1..]);
      InsertPermutes(s[0], Sorted(s[1..]));
      InsertAscending(s[0], Sorted(s[1..]));
      assert s == [s[0]] + s[1..];
    }
  }

  lemma {:induction false} ReversedFacts(s: seq<Series>)
    ensures multiset(Reversed(s)) == multiset(s)
    ensures forall i :: 0 <= i < |s| ==> Reversed(s)[i] == s[|s| - 1 - i]
  {
    if s != [] {
      var tail := s[1..];
      ReversedFacts(tail);
      assert s == [s[0]] + tail;
      forall i | 0 <= i < |s|
        ensures Reversed(s)[i] == s[|s| - 1 - i]
      {
        if i < |tail| {
          assert Reversed(s)[i] == Reversed(tail)[i];
        }
      }
    }
  }

  lemma {:induction false} InsertBefore(x: Series, s: seq<Series>, y: Series)
    requires y in s && x.description <= y.description && Ascending(s)
    ensures Before(Insert(x, s), x, y)
  {
    var j :| 0 <= j < |s| && s[j] == y;
    if x.description <= s[0].description {
      assert Insert(x, s)[0] == x && Insert(x, s)[j + 1] == y;
    } else {
      var r := Insert(x, s[1..]);
      assert y == s[1..][j - 1];
      InsertBefore(x, s[1..], y);
      BeforeBehind(s[0], r, x, y);
    }
  }

  lemma BeforeBehind(a: Series, s: seq<Series>, x: Series, y: Series)
    requires Before(s, x, y)
    ensures Before([a] + s, x, y)
  {
    var i, j :| 0 <= i < j < |s| && s[i] == x && s[j] == y;
    assert ([a] + s)[i + 1] == x && ([a] + s)[j + 1] == y;
  }

  lemma {:induction false} InsertKeepsBefore(a: Series, s: seq<Series>, x: Series, y: Series)
    requires Before(s, x, y)
    ensures Before(Insert(a, s), x, y)
  {
    if s == [] || a.description <= s[0].description {
      BeforeBehind(a, s, x, y);
    } else {
      var i, j :| 0 <= i < j < |s| && s[i] == x && s[j] == y;
      var r := Insert(a, s[1..]);
      if i > 0 {
        assert s[1..][i - 1] == x && s[1..][j - 1] == y;
        InsertKeepsBefore(a, s[1..], x, y);
        BeforeBehind(s[0], r, x, y);
      } else {
        assert s[1..][j - 1] == y;
        InsertPermutes(a, s[1..]);
        assert y in multiset(r);
        var k :| 0 <= k < |r| && r[k] == y;
        assert ([s[0]] + r)[0] == x && ([s[0]] + r)[k + 1] == y;
      }
    }
  }

  /** The sort is stable. */
  lemma {:induction false} SortedStable(s: seq<Series>, x: Series, y: Series)
    requires Before(s, x, y) && x.description == y.description
    ensures Before(Sorted(s), x, y)
  {
    var i, j :| 0 <= i < j < |s| && s[i] == x && s[j] == y;
    var rest := s[1..];
    SortedFacts(rest);
    assert rest[j - 1] == y;
    if i == 0 {
      assert y in multiset(rest);
      assert y in multiset(Sorted(rest));
      InsertBefore(x, Sorted(rest), y);
    } else {
      assert rest[i - 1] == x;
      SortedStable(rest, x, y);
      InsertKeepsBefore(s[0], Sorted(rest), x, y);
    }
  }

  /** Series that count as equal come out in descending order of description, and those with the same description in the
      reverse of the order they were listed in. */
  lemma CloseDescends(s: seq<Series>, t: real, fuel: nat, x: Series, y: Series)
    requires |s| > 1 && Close(s, t) && Before(s, x, y)
    ensures Order(s, t, fuel).Some?
    ensures var r := Flatten(Order(s, t, fuel).value);
            && (forall i, j :: 0 <= i < j < |r| ==> r[i].description >= r[j].description)
            && (x.description == y.description ==> Before(r, y, x))
  {
    var a := Sorted(s);
    var r := Reversed(a);
    FlattenLeaves(r);
    SortedFacts(s);
    ReversedFacts(a);
    if x.description == y.description {
      SortedStable(s, x, y);
      var i, j :| 0 <= i < j < |a| && a[i] == x && a[j] == y;
      assert r[|a| - 1 - j] == y && r[|a| - 1 - i] == x;
    }
  }

  /** Leaves of the same list are in descending order of description. */
  ghost predicate LeavesDescend(ns: seq<Nested>) {
    && (forall i, j :: 0 <= i < j < |ns| && ns[i].Leaf? && ns[j].Leaf? ==>
          ns[i].series.description >= ns[j].series.description)
    && (forall i :: 0 <= i < |ns| && ns[i].List? ==> LeavesDescend(ns[i].items))
  }

  /** So it is in every bucket of the result. */
  lemma {:induction false} OrderDescends(s: seq<Series>, t: real, fuel: nat)
    requires Order(s, t, fuel).Some?
    ensures LeavesDescend(Order(s, t, fuel).value)
    decreases fuel
  {
    if |s| > 1 && Close(s, t) {
      SortedFacts(s);
      ReversedFacts(Sorted(s));
    } else if |s| > 1 {
      var a, b, c := Bucket(s[1..], s[0], t, Smaller), SameBucket(s, t), Bucket(s[1..], s[0], t, Bigger);
      OrderDescends(a, t, fuel - 1);
      OrderDescends(b, t, fuel - 1);
      OrderDescends(c, t, fuel - 1);
      TripleDescends(Order(a, t, fuel - 1).value, Order(b, t, fuel - 1).value, Order(c, t, fuel - 1).value);
    }
  }

  lemma TripleDescends(a: seq<Nested>, b: seq<Nested>, c: seq<Nested>)
    requires LeavesDescend(a) && LeavesDescend(b) && LeavesDescend(c)
    ensures LeavesDescend(Triple(a, b, c))
  {
    var ns := Triple(a, b, c);
    assert ns[0] == List(a) && ns[1] == List(b) && ns[2] == List(c);
  }

  // ----- the three buckets

  datatype Kind = Smaller | Same | Bigger

  function KindOf(x: Series, base: Series, t: real): Kind {
    if base.mean - t > x.mean then Smaller else if base.mean + t < x.mean then Bigger else Same
  }

  function Bucket(s: seq<Series>, base: Series, t: real, kind: Kind): seq<Series> {
    if s == [] then [] else
      var r, x := Bucket(s[..|s| - 1], base, t, kind), s[|s| - 1];
      if KindOf(x, base, t) == kind then r + [x] else r
  }

  lemma {:induction false} BucketMembers(s: seq<Series>, base: Series, t: real, kind: Kind)
    ensures forall x :: x in Bucket(s, base, t, kind) <==> x in s && KindOf(x, base, t) == kind
    ensures |Bucket(s, base, t, kind)| <= |s|
    ensures (exists x :: x in s && KindOf(x, base, t) != kind) ==> |Bucket(s, base, t, kind)| < |s|
  {
    if s != [] {
      BucketMembers(s[..|s| - 1], base, t, kind);
      assert s == s[..|s| - 1] + [s[|s| - 1]];
    }
  }

  lemma {:induction false} BucketDistinct(s: seq<Series>, base: Series, t: real, kind: Kind)
    requires DistinctNames(s)
    ensures DistinctNames(Bucket(s, base, t, kind))
  {
    if s != [] {
      var init, x := s[..|s| - 1], s[|s| - 1];
      BucketDistinct(init, base, t, kind);
      BucketMembers(init, base, t, kind);
      forall y | y in Bucket(init, base, t, kind)
        ensures y.name != x.name
      {
        assert y in init;
      }
    }
  }

  lemma {:induction false} BucketsPartition(s: seq<Series>, base: Series, t: real)
    ensures multiset(s) == multiset(Bucket(s, base, t, Smaller)) + multiset(Bucket(s, base, t, Same))
                         + multiset(Bucket(s, base, t, Bigger))
  {
    if s != [] {
      BucketsPartition(s[..|s| - 1], base, t);
      assert s == s[..|s| - 1] + [s[|s| - 1]];
    }
  }

  // ----- order_bucket and flatten

  function Leaves(s: seq<Series>): (r: seq<Nested>)
    ensures |r| == |s| && forall i :: 0 <= i < |s| ==> r[i] == Leaf(s[i])
  {
    seq(|s|, i requires 0 <= i < |s| => Leaf(s[i]))
  }

  function SameBucket(s: seq<Series>, t: real): seq<Series>
    requires s != []
  {
    Bucket(s[1..], s[0], t, Same) + [s[0]]
  }

  /** The list of three lists. */
  function Triple(a: seq<Nested>, b: seq<Nested>, c: seq<Nested>): seq<Nested> {
    [List(a)] + ([List(b)] + [List(c)])
  }

  /** order_bucket with a bound on the depth of its recursion: None when the bound is too small. */
  function Order(s: seq<Series>, t: real, fuel: nat): Option<seq<Nested>>
    decreases fuel
  {
    if |s| <= 1 then Some(Leaves(s))
    else if Close(s, t) then Some(Leaves(Reversed(Sorted(s))))
    else if fuel == 0 then None
    else
      var a := Order(Bucket(s[1..], s[0], t, Smaller), t, fuel - 1);
      var b := Order(SameBucket(s, t), t, fuel - 1);
      var c := Order(Bucket(s[1..], s[0], t, Bigger), t, fuel - 1);
      if a.Some? && b.Some? && c.Some? then Some(Triple(a.value, b.value, c.value)) else None
  }

  function Flatten(ns: seq<Nested>): seq<Series> {
    if ns == [] then []
    else if ns[0].List? then Flatten(ns[0].items) + Flatten(ns[1..])
    else [ns[0].series] + Flatten(ns[1..])
  }

  lemma {:induction false} FlattenLeaves(s: seq<Series>)
    ensures Flatten(Leaves(s)) == s
  {
    if s != [] {
      FlattenLeaves(s[1..]);
      assert Leaves(s)[1..] == Leaves(s[1..]);
    }
  }

  lemma FlattenCons(a: seq<Nested>, rest: seq<Nested>)
    ensures Flatten([List(a)] + rest) == Flatten(a) + Flatten(rest)
  {
    var ns := [List(a)] + rest;
    assert ns[0] == List(a) && ns[1..] == rest;
  }

  lemma FlattenTwo(b: seq<Nested>, c: seq<Nested>)
    ensures Flatten([List(b)] + [List(c)]) == Flatten(b) + Flatten(c)
  {
    FlattenCons(b, [List(c)]);
    FlattenCons(c, []);
    assert [List(c)] + [] == [List(c)];
  }

  lemma FlattenThree(a: seq<Nested>, b: seq<Nested>, c: seq<Nested>)
    ensures Flatten(Triple(a, b, c)) == Flatten(a) + Flatten(b) + Flatten(c)
  {
    FlattenCons(a, [List(b)] + [List(c)]);
    FlattenTwo(b, c);
  }

  /** x may come before y: it is less than a threshold above it. */
  ghost predicate Ordered(r: seq<Series>, t: real) {
    forall i, j :: 0 <= i < j < |r| ==> r[i].mean < r[j].mean + t
  }

  lemma OrderedConcat(a: seq<Series>, b: seq<Series>, t: real)
    requires Ordered(a, t) && Ordered(b, t)
    requires forall x, y :: x in a && y in b ==> x.mean < y.mean + t
    ensures Ordered(a + b, t)
  {
  }

  /** Whenever order_bucket returns, flattening its result gives a permutation of the input in threshold order. */
  lemma {:induction false} OrderCorrect(s: seq<Series>, t: real, fuel: nat)
    requires t >= 0.0 && Order(s, t, fuel).Some?
    ensures Permuted(Order(s, t, fuel).value, s) && Ordered(Flatten(Order(s, t, fuel).value), t)
    decreases fuel
  {
    if |s| <= 1 {
      SingleCorrect(s, t);
    } else if Close(s, t) {
      LeafCorrect(s, t);
    } else {
      OrderCorrect(Bucket(s[1..], s[0], t, Smaller), t, fuel - 1);
      OrderCorrect(SameBucket(s, t), t, fuel - 1);
      OrderCorrect(Bucket(s[1..], s[0], t, Bigger), t, fuel - 1);
      Assemble(s, t, Order(Bucket(s[1..], s[0], t, Smaller), t, fuel - 1).value,
               Order(SameBucket(s, t), t, fuel - 1).value, Order(Bucket(s[1..], s[0], t, Bigger), t, fuel - 1).value);
    }
  }

  ghost predicate Permuted(ns: seq<Nested>, s: seq<Series>) {
    multiset(Flatten(ns)) == multiset(s)
  }

  lemma SingleCorrect(s: seq<Series>, t: real)
    requires |s| <= 1
    ensures Permuted(Leaves(s), s) && Ordered(Flatten(Leaves(s)), t)
  {
    FlattenLeaves(s);
  }

  lemma LeafCorrect(s: seq<Series>, t: real)
    requires Close(s, t)
    ensures var r := Leaves(Reversed(Sorted(s))); Permuted(r, s) && Ordered(Flatten(r), t)
  {
    var r := Reversed(Sorted(s));
    FlattenLeaves(r);
    SortedFacts(s);
    ReversedFacts(Sorted(s));
    CloseOrdered(s, r, t);
  }

  lemma Assemble(s: seq<Series>, t: real, a: seq<Nested>, b: seq<Nested>, c: seq<Nested>)
    requires t >= 0.0 && s != []
    requires Ordered(Flatten(a), t) && Ordered(Flatten(b), t) && Ordered(Flatten(c), t)
    requires Permuted(a, Bucket(s[1..], s[0], t, Smaller)) && Permuted(b, SameBucket(s, t))
    requires Permuted(c, Bucket(s[1..], s[0], t, Bigger))
    ensures Permuted(Triple(a, b, c), s)
    ensures Ordered(Flatten(Triple(a, b, c)), t)
  {
    FlattenThree(a, b, c);
    BucketsPermute(s, t);
    BucketsOrdered(s, t, Flatten(a), Flatten(b), Flatten(c));
  }

  lemma CloseOrdered(s: seq<Series>, r: seq<Series>, t: real)
    requires Close(s, t) && multiset(r) == multiset(s)
    ensures Ordered(r, t)
  {
    forall i, j | 0 <= i < j < |r|
      ensures r[i].mean < r[j].mean + t
    {
      assert r[i] in multiset(r) && r[j] in multiset(r);
      assert r[i] in s && r[j] in s;
      assert !Far(r[i], r[j], t);
    }
  }

  lemma BucketsPermute(s: seq<Series>, t: real)
    requires s != []
    ensures multiset(s) == multiset(Bucket(s[1..], s[0], t, Smaller)) + multiset(SameBucket(s, t))
                         + multiset(Bucket(s[1..], s[0], t, Bigger))
  {
    BucketsPartition(s[1..], s[0], t);
    assert s == [s[0]] + s[1..];
  }

  lemma BucketsOrdered(s: seq<Series>, t: real, a: seq<Series>, b: seq<Series>, c: seq<Series>)
    requires t >= 0.0 && s != [] && Ordered(a, t) && Ordered(b, t) && Ordered(c, t)
    requires multiset(a) == multiset(Bucket(s[1..], s[0], t, Smaller))
    requires multiset(b) == multiset(SameBucket(s, t))
    requires multiset(c) == multiset(Bucket(s[1..], s[0], t, Bigger))
    ensures Ordered(a + b + c, t)
  {
    var base := s[0];
    var lo, eq, hi := Bucket(s[1..], base, t, Smaller), SameBucket(s, t), Bucket(s[1..], base, t, Bigger);
    SameMembers(a, lo);
    SameMembers(b, eq);
    SameMembers(c, hi);
    BucketMembers(s[1..], base, t, Smaller);
    BucketMembers(s[1..], base, t, Same);
    BucketMembers(s[1..], base, t, Bigger);
    assert forall x :: x in a ==> x.mean < base.mean - t;
    assert forall x :: x in b ==> base.mean - t <= x.mean <= base.mean + t;
    assert forall x :: x in c ==> base.mean + t < x.mean;
    OrderedConcat(a, b, t);
    OrderedConcat(a + b, c, t);
  }

  lemma SameMembers(a: seq<Series>, b: seq<Series>)
    requires multiset(a) == multiset(b)
    ensures forall x :: x in a <==> x in b
  {
    forall x
      ensures x in a <==> x in b
    {
      assert x in a <==> x in multiset(a);
      assert x in b <==> x in multiset(b);
    }
  }

  /** The result does not depend on the bound. */
  lemma {:induction false} MoreFuel(s: seq<Series>, t: real, fuel: nat, more: nat)
    requires Order(s, t, fuel).Some? && more >= fuel
    ensures Order(s, t, more) == Order(s, t, fuel)
    decreases fuel
  {
    if |s| > 1 && !Close(s, t) {
      MoreFuel(Bucket(s[1..], s[0], t, Smaller), t, fuel - 1, more - 1);
      MoreFuel(SameBucket(s, t), t, fuel - 1, more - 1);
      MoreFuel(Bucket(s[1..], s[0], t, Bigger), t, fuel - 1, more - 1);
    }
  }

  // ----- termination

  /** s holds x and y, twice if they are the same. */
  ghost predicate HasPair(s: seq<Series>, x: Series, y: Series) {
    multiset{x, y} <= multiset(s)
  }

  /** No two series have means exactly a threshold apart; for threshold zero, no two have the same mean. */
  ghost predicate NoExactGap(s: seq<Series>, t: real) {
    forall x, y :: HasPair(s, x, y) ==> x.mean + t != y.mean
  }

  lemma PairAt(s: seq<Series>, i: nat, j: nat)
    requires i < |s| && j < |s| && i != j
    ensures HasPair(s, s[i], s[j])
  {
    var k, l := if i < j then i else j, if i < j then j else i;
    assert s == s[..k] + [s[k]] + s[k + 1..l] + [s[l]] + s[l + 1..];
  }

  lemma PairMembers(s: seq<Series>, x: Series, y: Series)
    requires HasPair(s, x, y)
    ensures x in s && y in s
  {
    assert x in multiset{x, y} && y in multiset{x, y};
    assert x in multiset(s) && y in multiset(s);
  }

  /** x is strictly more than a threshold away from some member of s. */
  ghost predicate Splits(x: Series, s: seq<Series>, t: real) {
    exists y :: y in s && KindOf(y, x, t) != Same
  }

  /** The position of the first element that splits the list, or its length. */
  ghost function FirstSplit(s: seq<Series>, all: seq<Series>, t: real): (p: nat)
    ensures p <= |s|
  {
    if s == [] || Splits(s[0], all, t) then 0 else 1 + FirstSplit(s[1..], all, t)
  }

  lemma {:induction false} SplitterBounds(s: seq<Series>, all: seq<Series>, t: real, x: Series)
    requires x in s && Splits(x, all, t)
    ensures FirstSplit(s, all, t) < |s|
  {
    if !Splits(s[0], all, t) {
      assert s == [s[0]] + s[1..];
      SplitterBounds(s[1..], all, t, x);
    }
  }

  lemma {:induction false} FirstSplitAppend(s: seq<Series>, x: Series, all: seq<Series>, t: real)
    requires FirstSplit(s, all, t) < |s|
    ensures FirstSplit(s + [x], all, t) == FirstSplit(s, all, t)
  {
    assert (s + [x])[0] == s[0];
    if !Splits(s[0], all, t) {
      assert (s + [x])[1..] == s[1..] + [x];
      FirstSplitAppend(s[1..], x, all, t);
    }
  }

  lemma {:induction false} FirstSplitSameAll(s: seq<Series>, all: seq<Series>, all': seq<Series>, t: real)
    requires forall y :: y in all <==> y in all'
    ensures FirstSplit(s, all, t) == FirstSplit(s, all', t)
  {
    if s != [] {
      assert Splits(s[0], all, t) <==> Splits(s[0], all', t);
      FirstSplitSameAll(s[1..], all, all', t);
    }
  }

  /** Of two or more series that are not close some splits the list, when no gap is exactly the threshold. */
  lemma NotCloseSplits(s: seq<Series>, t: real)
    requires t >= 0.0 && |s| > 1 && !Close(s, t) && NoExactGap(s, t)
    ensures FirstSplit(s, s, t) < |s|
  {
    var i, j :| 0 <= i < |s| && 0 <= j < |s| && Far(s[i], s[j], t);
    if i == j {
      i, j := 0, 1;
    }
    PairAt(s, i, j);
    PairAt(s, j, i);
    assert s[i] in s && s[j] in s;
    assert KindOf(s[j], s[i], t) != Same;
    SplitterBounds(s, s, t, s[i]);
  }

  /** A first element that does not split the list only moves to its end. */
  lemma {:induction false} AllSame(s: seq<Series>, base: Series, t: real)
    requires forall x :: x in s ==> KindOf(x, base, t) == Same
    ensures Bucket(s, base, t, Same) == s && Bucket(s, base, t, Smaller) == [] && Bucket(s, base, t, Bigger) == []
  {
    if s != [] {
      assert s == s[..|s| - 1] + [s[|s| - 1]];
      AllSame(s[..|s| - 1], base, t);
      assert s[|s| - 1] in s;
    }
  }

  lemma Rotates(s: seq<Series>, t: real)
    requires s != [] && !Splits(s[0], s, t)
    ensures SameBucket(s, t) == s[1..] + [s[0]]
    ensures Bucket(s[1..], s[0], t, Smaller) == [] && Bucket(s[1..], s[0], t, Bigger) == []
  {
    assert s == [s[0]] + s[1..];
    AllSame(s[1..], s[0], t);
  }

  lemma RotationAdvances(s: seq<Series>, t: real)
    requires s != [] && !Splits(s[0], s, t) && FirstSplit(s, s, t) < |s|
    ensures var r := s[1..] + [s[0]]; FirstSplit(r, r, t) == FirstSplit(s, s, t) - 1
  {
    var r := s[1..] + [s[0]];
    FirstSplitAppend(s[1..], s[0], s, t);
    assert s == [s[0]] + s[1..];
    FirstSplitSameAll(r, s, r, t);
  }

  /** All three buckets of a list that its first element splits are shorter than the list. */
  lemma SplitShrinks(s: seq<Series>, t: real)
    requires t >= 0.0 && s != [] && Splits(s[0], s, t)
    ensures |Bucket(s[1..], s[0], t, Smaller)| < |s|
    ensures |SameBucket(s, t)| < |s|
    ensures |Bucket(s[1..], s[0], t, Bigger)| < |s|
  {
    var base := s[0];
    var y :| y in s && KindOf(y, base, t) != Same;
    assert s == [base] + s[1..];
    assert y in s[1..];
    BucketMembers(s[1..], base, t, Smaller);
    BucketMembers(s[1..], base, t, Same);
    BucketMembers(s[1..], base, t, Bigger);
  }

  lemma FewerNoExactGap(r: seq<Series>, s: seq<Series>, t: real)
    requires NoExactGap(s, t) && multiset(r) <= multiset(s)
    ensures NoExactGap(r, t)
  {
    forall x, y | HasPair(r, x, y)
      ensures x.mean + t != y.mean
    {
      assert HasPair(s, x, y);
    }
  }

  lemma SubsetNoExactGap(s: seq<Series>, t: real)
    requires s != [] && NoExactGap(s, t)
    ensures NoExactGap(Bucket(s[1..], s[0], t, Smaller), t)
    ensures NoExactGap(SameBucket(s, t), t)
    ensures NoExactGap(Bucket(s[1..], s[0], t, Bigger), t)
  {
    BucketsPermute(s, t);
    FewerNoExactGap(Bucket(s[1..], s[0], t, Smaller), s, t);
    FewerNoExactGap(SameBucket(s, t), s, t);
    FewerNoExactGap(Bucket(s[1..], s[0], t, Bigger), s, t);
  }

  /** One recursive call of order_bucket is on a list that is shorter, or has its first splitting element closer. */
  ghost predicate Descends(r: seq<Series>, s: seq<Series>, t: real) {
    |r| < |s| || (|r| == |s| && FirstSplit(r, r, t) < FirstSplit(s, s, t))
  }

  lemma BucketsDescend(s: seq<Series>, t: real)
    requires t >= 0.0 && |s| > 1 && !Close(s, t) && NoExactGap(s, t)
    ensures Descends(Bucket(s[1..], s[0], t, Smaller), s, t)
    ensures Descends(SameBucket(s, t), s, t)
    ensures Descends(Bucket(s[1..], s[0], t, Bigger), s, t)
  {
    NotCloseSplits(s, t);
    if Splits(s[0], s, t) {
      SplitShrinks(s, t);
    } else {
      Rotates(s, t);
      RotationAdvances(s, t);
    }
  }

  /** With no gap of exactly the threshold, order_bucket returns. The recursion shrinks
      the list or, while its first element splits nothing, brings the first splitting element one place closer. */
  lemma {:induction false} OrderTerminates(s: seq<Series>, t: real)
    requires t >= 0.0 && NoExactGap(s, t)
    ensures Returns(s, t)
    decreases |s|, FirstSplit(s, s, t)
  {
    if |s| <= 1 || Close(s, t) {
      ReturnsAtOnce(s, t);
    } else {
      BucketsDescend(s, t);
      SubsetNoExactGap(s, t);
      OrderTerminates(Bucket(s[1..], s[0], t, Smaller), t);
      OrderTerminates(SameBucket(s, t), t);
      OrderTerminates(Bucket(s[1..], s[0], t, Bigger), t);
      ReturnsFromBuckets(s, t);
    }
  }

  /** order_bucket returns, at some depth of its recursion. */
  ghost predicate Returns(s: seq<Series>, t: real) {
    exists fuel: nat :: Order(s, t, fuel).Some?
  }

  lemma ReturnsAtOnce(s: seq<Series>, t: real)
    requires |s| <= 1 || Close(s, t)
    ensures Returns(s, t)
  {
    assert Order(s, t, 0).Some?;
  }

  lemma ReturnsFromBuckets(s: seq<Series>, t: real)
    requires s != [] && Returns(Bucket(s[1..], s[0], t, Smaller), t) && Returns(SameBucket(s, t), t)
    requires Returns(Bucket(s[1..], s[0], t, Bigger), t)
    ensures Returns(s, t)
  {
    var f: nat :| Order(Bucket(s[1..], s[0], t, Smaller), t, f).Some?;
    var g: nat :| Order(SameBucket(s, t), t, g).Some?;
    var h: nat :| Order(Bucket(s[1..], s[0], t, Bigger), t, h).Some?;
    EnoughFuel(s, t, f, g, h);
  }

  lemma EnoughFuel(s: seq<Series>, t: real, f: nat, g: nat, h: nat)
    requires s != []
    requires Order(Bucket(s[1..], s[0], t, Smaller), t, f).Some?
    requires Order(SameBucket(s, t), t, g).Some?
    requires Order(Bucket(s[1..], s[0], t, Bigger), t, h).Some?
    ensures Order(s, t, f + g + h + 1).Some?
  {
    MoreFuel(Bucket(s[1..], s[0], t, Smaller), t, f, f + g + h);
    MoreFuel(SameBucket(s, t), t, g, f + g + h);
    MoreFuel(Bucket(s[1..], s[0], t, Bigger), t, h, f + g + h);
  }

  /** A list of two or more that nothing splits but that is not close is rotated for ever. */
  lemma {:induction false} StuckForever(s: seq<Series>, t: real, fuel: nat)
    requires |s| > 1 && !Close(s, t) && forall x :: x in s ==> !Splits(x, s, t)
    ensures Order(s, t, fuel) == None
    decreases fuel
  {
    if fuel > 0 {
      assert s[0] in s;
      Rotates(s, t);
      var r := s[1..] + [s[0]];
      assert s == [s[0]] + s[1..];
      assert forall y :: y in r <==> y in s;
      assert forall x :: x in r ==> !Splits(x, r, t) by {
        forall x | x in r
          ensures !Splits(x, r, t)
        {
          assert !Splits(x, s, t);
        }
      }
      NotCloseRotated(s, r, t);
      StuckForever(r, t, fuel - 1);
    }
  }

  lemma NotCloseRotated(s: seq<Series>, r: seq<Series>, t: real)
    requires !Close(s, t) && forall y :: y in s ==> y in r
    ensures !Close(r, t)
  {
    var i, j :| 0 <= i < |s| && 0 <= j < |s| && Far(s[i], s[j], t);
    assert s[i] in r && s[j] in r;
    var k :| 0 <= k < |r| && r[k] == s[i];
    var l :| 0 <= l < |r| && r[l] == s[j];
  }

  /** Where no gap exceeds the threshold, order_bucket returns if and only if none equals it. */
  lemma ReturnsIffNoExactGap(s: seq<Series>, t: real)
    requires t >= 0.0 && |s| > 1 && forall x :: x in s ==> !Splits(x, s, t)
    ensures Returns(s, t) <==> NoExactGap(s, t)
  {
    if NoExactGap(s, t) {
      OrderTerminates(s, t);
    } else {
      var x, y :| HasPair(s, x, y) && x.mean + t == y.mean;
      PairMembers(s, x, y);
      GapNotClose(s, t, x, y);
      forall fuel: nat
        ensures Order(s, t, fuel) == None
      {
        StuckForever(s, t, fuel);
      }
    }
  }

  lemma GapNotClose(s: seq<Series>, t: real, x: Series, y: Series)
    requires x in s && y in s && x.mean + t == y.mean
    ensures !Close(s, t)
  {
    var i :| 0 <= i < |s| && s[i] == x;
    var j :| 0 <= j < |s| && s[j] == y;
    assert Far(s[i], s[j], t);
  }

  // ----- the exact condition for a dictionary, whose order is arbitrary

  lemma {:induction false} BucketCons(y: Series, w: seq<Series>, base: Series, t: real, kind: Kind)
    ensures Bucket([y] + w, base, t, kind)
         == (if KindOf(y, base, t) == kind then [y] else []) + Bucket(w, base, t, kind)
  {
    var s := [y] + w;
    if w == [] {
      assert s[..0] == [];
    } else {
      var n := |w| - 1;
      BucketCons(y, w[..n], base, t, kind);
      assert s[..|s| - 1] == [y] + w[..n] && s[|s| - 1] == w[n];
    }
  }

  /** Once all is within a threshold of x, taking as baseline a y exactly a threshold above x leaves a bucket from x to
      y, which nothing splits and which is not close. */
  lemma GapSecondDiverges(x: Series, y: Series, w: seq<Series>, t: real, fuel: nat)
    requires t >= 0.0 && x.mean + t == y.mean && x in w
    requires forall z :: z in w ==> KindOf(z, x, t) == Same
    ensures Order([y] + w, t, fuel) == None
  {
    var q := [y] + w;
    assert x in q && y in q;
    GapNotClose(q, t, x, y);
    if fuel > 0 {
      assert q[1..] == w && q[0] == y;
      var b := SameBucket(q, t);
      BucketMembers(w, y, t, Same);
      assert x in b && y in b;
      GapNotClose(b, t, x, y);
      assert forall z :: z in b ==> x.mean <= z.mean <= y.mean;
      assert |b| > 1;
      StuckForever(b, t, fuel - 1);
    }
  }

  lemma FirstRound(x: Series, y: Series, others: seq<Series>, t: real) returns (w: seq<Series>)
    requires t >= 0.0 && x.mean + t == y.mean
    ensures SameBucket([x] + ([y] + others), t) == [y] + w
    ensures x in w && forall z :: z in w ==> KindOf(z, x, t) == Same
  {
    var r := [x] + ([y] + others);
    assert r[1..] == [y] + others && r[0] == x;
    BucketCons(y, others, x, t, Same);
    BucketMembers(others, x, t, Same);
    var b := Bucket(others, x, t, Same);
    w := b + [x];
    assert ([y] + b) + [x] == [y] + w;
  }

  lemma SameBucketDiverges(s: seq<Series>, t: real, fuel: nat)
    requires |s| > 1 && !Close(s, t) && (fuel > 0 ==> Order(SameBucket(s, t), t, fuel - 1) == None)
    ensures Order(s, t, fuel) == None
  {
  }

  /** Listed with x first and y second, two series exactly a threshold apart are never ordered, whatever follows. */
  lemma GapFirstDiverges(x: Series, y: Series, others: seq<Series>, t: real, fuel: nat)
    requires t >= 0.0 && x.mean + t == y.mean
    ensures Order([x] + ([y] + others), t, fuel) == None
  {
    var r := [x] + ([y] + others);
    assert r[0] == x && r[1] == y;
    GapNotClose(r, t, x, y);
    if fuel > 0 {
      var w := FirstRound(x, y, others, t);
      GapSecondDiverges(x, y, w, t, fuel - 1);
    }
    SameBucketDiverges(r, t, fuel);
  }

  lemma Removed(s: seq<Series>, x: Series) returns (w: seq<Series>)
    requires x in multiset(s)
    ensures multiset(s) == multiset(w) + multiset{x}
  {
    assert x in s;
    var i :| 0 <= i < |s| && s[i] == x;
    w := s[..i] + s[i + 1..];
    assert s == s[..i] + [x] + s[i + 1..];
  }

  ghost predicate ReturnsInEveryOrder(s: seq<Series>, t: real) {
    forall r :: multiset(r) == multiset(s) ==> Returns(r, t)
  }

  /** order_bucket gets the keys of a dictionary, in any order: it returns for every order of the series if and only if
      no two of them are exactly a threshold apart. */
  lemma ReturnsInEveryOrderIff(s: seq<Series>, t: real)
    requires t >= 0.0
    ensures ReturnsInEveryOrder(s, t) <==> NoExactGap(s, t)
  {
    if NoExactGap(s, t) {
      forall r | multiset(r) == multiset(s)
        ensures Returns(r, t)
      {
        FewerNoExactGap(r, s, t);
        OrderTerminates(r, t);
      }
    } else {
      var x, y :| HasPair(s, x, y) && x.mean + t == y.mean;
      GapHasBadOrder(s, t, x, y);
    }
  }

  lemma GapHasBadOrder(s: seq<Series>, t: real, x: Series, y: Series)
    requires t >= 0.0 && HasPair(s, x, y) && x.mean + t == y.mean
    ensures !ReturnsInEveryOrder(s, t)
  {
    var others := WithoutPair(s, x, y);
    GapFirstNeverReturns(x, y, others, t);
  }

  lemma WithoutPair(s: seq<Series>, x: Series, y: Series) returns (others: seq<Series>)
    requires HasPair(s, x, y)
    ensures multiset([x] + ([y] + others)) == multiset(s)
  {
    PairMembers(s, x, y);
    var w := Removed(s, x);
    assert multiset{x, y} == multiset{x} + multiset{y};
    others := Removed(w, y);
  }

  lemma GapFirstNeverReturns(x: Series, y: Series, others: seq<Series>, t: real)
    requires t >= 0.0 && x.mean + t == y.mean
    ensures !Returns([x] + ([y] + others), t)
  {
    forall fuel: nat
      ensures Order([x] + ([y] + others), t, fuel) == None
    {
      GapFirstDiverges(x, y, others, t, fuel);
    }
  }

  lemma BucketTwo(x: Series, y: Series, base: Series, t: real, kind: Kind)
    ensures Bucket([x, y], base, t, kind)
         == (if KindOf(x, base, t) == kind then [x] else []) + (if KindOf(y, base, t) == kind then [y] else [])
  {
    var s := [x, y];
    assert s[..1] == [x] && [x][..0] == [];
    assert Bucket([x], base, t, kind) == if KindOf(x, base, t) == kind then [x] else [];
  }

  /** Three series of which the first has the second nearby and the third far above: they are ordered. */
  lemma ThreeReturn(a: Series, b: Series, c: Series, t: real)
    requires a.mean - t <= b.mean <= a.mean + t < c.mean && Close([b, a], t)
    ensures Returns([a, b, c], t)
  {
    var s := [a, b, c];
    assert s[1..] == [b, c] && s[0] == a;
    BucketTwo(b, c, a, t, Smaller);
    BucketTwo(b, c, a, t, Same);
    BucketTwo(b, c, a, t, Bigger);
    assert Bucket(s[1..], s[0], t, Smaller) == [] && Bucket(s[1..], s[0], t, Bigger) == [c];
    assert SameBucket(s, t) == [b, a];
    ReturnsAtOnce([], t);
    ReturnsAtOnce([b, a], t);
    ReturnsAtOnce([c], t);
    ReturnsFromBuckets(s, t);
  }

  /** With an exact gap the order of the dictionary decides: of these two orders of three series one is returned from,
      the other is not. */
  lemma OrderDecides(fuel: nat)
    ensures var a, b, c := Series("a", -0.5, 0), Series("b", 0.0, 0), Series("c", 1.0, 0);
            Returns([a, b, c], 1.0) && Order([b, c, a], 1.0, fuel) == None
  {
    var a, b, c := Series("a", -0.5, 0), Series("b", 0.0, 0), Series("c", 1.0, 0);
    ThreeReturn(a, b, c, 1.0);
    assert [b, c, a] == [b] + ([c] + [a]);
    GapFirstDiverges(b, c, [a], 1.0, fuel);
  }

  // ----- threshold zero, which order_ybar computes for flat data

  lemma {:induction false} BucketMultiset(s: seq<Series>, base: Series, t: real, kind: Kind, x: Series)
    ensures multiset(Bucket(s, base, t, kind))[x] == if KindOf(x, base, t) == kind then multiset(s)[x] else 0
  {
    if s != [] {
      BucketMultiset(s[..|s| - 1], base, t, kind, x);
      assert s == s[..|s| - 1] + [s[|s| - 1]];
    }
  }

  lemma TwinsStay(s: seq<Series>, x: Series, y: Series)
    requires s != [] && HasPair(s, x, y) && x.mean == y.mean
    ensures var kind := KindOf(x, s[0], 0.0);
            HasPair(if kind == Same then SameBucket(s, 0.0) else Bucket(s[1..], s[0], 0.0, kind), x, y)
  {
    var base, rest := s[0], s[1..];
    var kind := KindOf(x, base, 0.0);
    BucketMultiset(rest, base, 0.0, kind, x);
    BucketMultiset(rest, base, 0.0, kind, y);
    assert s == [base] + rest;
    assert x.mean == base.mean <==> kind == Same;
    var r := if kind == Same then SameBucket(s, 0.0) else Bucket(rest, base, 0.0, kind);
    assert multiset(r)[x] == multiset(s)[x] && multiset(r)[y] == multiset(s)[y];
  }

  lemma {:induction false} TwinsDiverge(s: seq<Series>, x: Series, y: Series, fuel: nat)
    requires HasPair(s, x, y) && x.mean == y.mean
    ensures Order(s, 0.0, fuel) == None
    decreases fuel
  {
    assert |multiset{x, y}| == 2;
    PairMembers(s, x, y);
    GapNotClose(s, 0.0, x, x);
    PairLength(s, x, y);
    if fuel > 0 {
      TwinsStay(s, x, y);
      var kind := KindOf(x, s[0], 0.0);
      TwinsDiverge(if kind == Same then SameBucket(s, 0.0) else Bucket(s[1..], s[0], 0.0, kind), x, y, fuel - 1);
    }
  }

  lemma PairLength(s: seq<Series>, x: Series, y: Series)
    requires HasPair(s, x, y)
    ensures |s| > 1
  {
    assert multiset(s) == (multiset(s) - multiset{x, y}) + multiset{x, y};
  }

  /** With threshold zero the order does not matter: order_bucket returns if and only if no two means are equal. */
  lemma ZeroThresholdIff(s: seq<Series>)
    ensures Returns(s, 0.0) <==> NoExactGap(s, 0.0)
  {
    if NoExactGap(s, 0.0) {
      OrderTerminates(s, 0.0);
    } else {
      var x, y :| HasPair(s, x, y) && x.mean + 0.0 == y.mean;
      forall fuel: nat
        ensures Order(s, 0.0, fuel) == None
      {
        TwinsDiverge(s, x, y, fuel);
      }
    }
  }

  /** Two series exactly a threshold apart, as a concrete input that is never ordered. */
  lemma ExactGapDiverges(fuel: nat)
    ensures Order([Series("a", 0.0, 0), Series("b", 1.0, 0)], 1.0, fuel) == None
  {
    var s := [Series("a", 0.0, 0), Series("b", 1.0, 0)];
    assert Far(s[0], s[1], 1.0);
    forall x | x in s
      ensures !Splits(x, s, 1.0)
    {
      assert x == s[0] || x == s[1];
    }
    StuckForever(s, 1.0, fuel);
  }

  // ----- the loops

  /** all_close. */
  method AllClose(s: seq<Series>, t: real) returns (close: bool)
    ensures close <==> Close(s, t)
  {
    for i := 0 to |s|
      invariant forall k, l :: 0 <= k < i && 0 <= l < |s| ==> !Far(s[k], s[l], t)
    {
      for j := 0 to |s|
        invariant forall l :: 0 <= l < j ==> !Far(s[i], s[l], t)
      {
        if s[i].mean + t <= s[j].mean || s[i].mean - t >= s[j].mean {
          assert Far(s[i], s[j], t);
          return false;
        }
      }
    }
    close := true;
  }

  /** The loop over the names other than the baseline that fills the three buckets. */
  method FillBuckets(s: seq<Series>, t: real)
    returns (smaller: seq<Series>, same: seq<Series>, bigger: seq<Series>, close: bool)
    requires DistinctNames(s) && |s| > 1
    ensures close <==> Close(s, t)
    ensures !close ==> smaller == Bucket(s[1..], s[0], t, Smaller) && bigger == Bucket(s[1..], s[0], t, Bigger)
    ensures !close ==> same == Bucket(s[1..], s[0], t, Same)
  {
    var base := s[0];
    smaller, bigger, same, close := [], [], [], false;
    var i := 0;
    ghost var rest := s[1..];
    ghost var k := 0;
    while i < |s|
      invariant 0 <= i <= |s| && k == (if i == 0 then 0 else i - 1)
      invariant i > 1 ==> !Close(s, t)
      invariant smaller == Bucket(rest[..k], base, t, Smaller)
      invariant same == Bucket(rest[..k], base, t, Same)
      invariant bigger == Bucket(rest[..k], base, t, Bigger)
    {
      var x := s[i];
      if x.name != base.name {
        close := AllClose(s, t);
        if close {
          return;
        }
        assert rest[..k + 1][..k] == rest[..k] && rest[..k + 1][k] == x;
        if base.mean - t > x.mean {
          smaller := smaller + [x];
        } else if base.mean + t < x.mean {
          bigger := bigger + [x];
        } else {
          same := same + [x];
        }
        k := k + 1;
      }
      i := i + 1;
    }
    assert rest[..k] == rest;
  }

  lemma SameBucketDistinct(s: seq<Series>, t: real)
    requires s != [] && DistinctNames(s)
    ensures DistinctNames(SameBucket(s, t))
  {
    BucketDistinct(s[1..], s[0], t, Same);
    BucketMembers(s[1..], s[0], t, Same);
    var b := Bucket(s[1..], s[0], t, Same);
    forall i | 0 <= i < |b|
      ensures b[i].name != s[0].name
    {
      assert b[i] in s[1..];
    }
  }

  /** order_bucket. */
  method OrderBuckets(s: seq<Series>, t: real, fuel: nat) returns (r: Option<seq<Nested>>)
    requires DistinctNames(s)
    ensures r == Order(s, t, fuel)
    decreases fuel
  {
    if |s| == 1 || |s| == 0 {
      return Some(Leaves(s));
    }
    var smaller, same, bigger, close := FillBuckets(s, t);
    if close {
      return Some(Leaves(Reversed(Sorted(s))));
    }
    if fuel == 0 {
      return None;
    }
    same := same + [s[0]];
    BucketDistinct(s[1..], s[0], t, Smaller);
    BucketDistinct(s[1..], s[0], t, Bigger);
    SameBucketDistinct(s, t);
    var a := OrderBuckets(smaller, t, fuel - 1);
    var b := OrderBuckets(same, t, fuel - 1);
    var c := OrderBuckets(bigger, t, fuel - 1);
    r := if a.Some? && b.Some? && c.Some? then Some(Triple(a.value, b.value, c.value)) else None;
  }
}
