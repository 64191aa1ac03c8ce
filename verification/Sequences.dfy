/** Facts about sequences without repetition that several modules share. */
module Sequences {

  ghost predicate Distinct<T>(s: seq<T>) {
    forall i, j :: 0 <= i < j < |s| ==> s[i] != s[j]
  }

  /** s lists each of 0, ..., n-1 exactly once. */
  ghost predicate ListsAll(s: seq<int>, n: nat) {
    && |s| == n
    && (forall i :: 0 <= i < n ==> 0 <= s[i] < n)
    && Distinct(s)
    && (forall v :: 0 <= v < n ==> v in s)
  }

  /** x comes before y in s. */
  ghost predicate Before<T(!new)>(s: seq<T>, x: T, y: T) {
    exists i, j :: 0 <= i < j < |s| && s[i] == x && s[j] == y
  }

  function Elements<T>(s: seq<T>): set<T> {
    set x | x in s
  }

  lemma {:induction false} DistinctCardinality<T>(s: seq<T>)
    requires Distinct(s)
    ensures |Elements(s)| == |s|
  {
    if s != [] {
      var t, x := s[..|s| - 1], s[|s| - 1];
      DistinctCardinality(t);
      assert x !in Elements(t);
      assert Elements(s) == Elements(t) + {x};
    }
  }

  function Range(n: nat): (r: set<int>)
    ensures forall v :: v in r <==> 0 <= v < n
    ensures |r| == n
  {
    if n == 0 then {} else
      var r := Range(n - 1) + {n - 1};
      r
  }

  lemma SubsetOfSameSize<T>(a: set<T>, b: set<T>)
    requires a <= b && |a| == |b|
    ensures a == b
  {
    if a != b {
      var x :| x in b && x !in a;
      assert a <= b - {x};
      SubsetCardinality(a, b - {x});
    }
  }

  lemma {:induction false} SubsetCardinality<T>(a: set<T>, b: set<T>)
    requires a <= b
    ensures |a| <= |b|
    decreases a
  {
    if a != {} {
      var x :| x in a;
      SubsetCardinality(a - {x}, b - {x});
    }
  }

  /** Pigeonhole: n distinct numbers below n are all the numbers below n. */
  lemma DistinctListsAll(s: seq<int>, n: nat)
    requires |s| == n && Distinct(s) && forall i :: 0 <= i < n ==> 0 <= s[i] < n
    ensures ListsAll(s, n)
  {
    DistinctCardinality(s);
    assert Elements(s) <= Range(n);
    SubsetOfSameSize(Elements(s), Range(n));
    forall v | 0 <= v < n
      ensures v in s
    {
      assert v in Elements(s);
    }
  }
}
