/** clients/lockserver-ng.c: a random pointer chase through every slot of an array. A slot holds the index
    of the slot it points to; a null pointer is -1. */
module PtrChase {
  import opened Sequences

  const NULL: int := -1

  ghost predicate InBounds(s: seq<int>) {
    forall i :: 0 <= i < |s| ==> 0 <= s[i] < |s|
  }

  /** The slot reached after n pointers from slot i. */
  ghost function Follow(s: seq<int>, i: int, n: nat): (r: int)
    requires InBounds(s) && 0 <= i < |s|
    ensures 0 <= r < |s|
  {
    if n == 0 then i else s[Follow(s, i, n - 1)]
  }

  /** The slots met on a chase of n steps from slot 0. */
  ghost function Tour(s: seq<int>, n: nat): (t: seq<int>)
    requires InBounds(s) && s != []
    ensures |t| == n && forall k :: 0 <= k < n ==> t[k] == Follow(s, 0, k)
  {
    seq(n, k requires 0 <= k => Follow(s, 0, k))
  }

  /** All slots lie on one cycle: a chase from slot 0 meets each once and is back after |s| steps. */
  ghost predicate SingleCycle(s: seq<int>) {
    s != [] && InBounds(s) && ListsAll(Tour(s, |s|), |s|) && Follow(s, 0, |s|) == 0
  }

  /** The chain built so far: path starts at slot 0, each of its slots points to the next, and every slot that is
      not linked yet, the last one included, is still null. */
  ghost predicate Chain(s: seq<int>, path: seq<int>) {
    && 0 < |path| <= |s| && path[0] == 0 && Distinct(path)
    && (forall i :: 0 <= i < |path| ==> 0 <= path[i] < |s|)
    && (forall i :: 0 <= i < |path| - 1 ==> s[path[i]] == path[i + 1])
    && (forall j :: 0 <= j < |s| ==> (s[j] == NULL <==> j !in path[..|path| - 1]))
  }

  /** While the chain is short of the array there is a target for the redraw loop to find, and any target it finds
      is a slot the chain has not met. */
  lemma EligibleTarget(s: seq<int>, path: seq<int>)
    requires Chain(s, path) && |path| < |s|
    ensures exists t :: 0 <= t < |s| && t != path[|path| - 1] && s[t] == NULL
    ensures forall t :: 0 <= t < |s| && t != path[|path| - 1] && s[t] == NULL ==> t !in path
  {
    DistinctCardinality(path);
    assert path == path[..|path| - 1] + [path[|path| - 1]];
    if Range(|s|) <= Elements(path) {
      SubsetCardinality(Range(|s|), Elements(path));
    }
    var t :| t in Range(|s|) && t !in Elements(path);
    assert t !in path && t !in path[..|path| - 1];
    assert s[t] == NULL && t != path[|path| - 1];
  }

  lemma ExtendChain(s: seq<int>, path: seq<int>, t: int)
    requires Chain(s, path) && 0 <= t < |s| && t !in path && |path| < |s|
    ensures Chain(s[path[|path| - 1] := t], path + [t])
  {
    var n := |path| - 1;
    var cur := path[n];
    var s', path' := s[cur := t], path + [t];
    assert path'[..|path'| - 1] == path;
    assert path == path[..n] + [cur];
    forall i | 0 <= i < |path'| - 1
      ensures s'[path'[i]] == path'[i + 1]
    {
      if i < n {
        assert path[i] != cur;
      }
    }
  }

  /** Closing a chain that has met every slot leaves a single cycle. */
  lemma CloseChain(s: seq<int>, path: seq<int>)
    requires Chain(s, path) && |path| == |s|
    ensures SingleCycle(s[path[|path| - 1] := 0])
  {
    var n := |s| - 1;
    var s' := s[path[n] := 0];
    DistinctListsAll(path, |s|);
    forall j | 0 <= j < |s'|
      ensures 0 <= s'[j] < |s'|
    {
      assert j in path;
      var i :| 0 <= i < |path| && path[i] == j;
      ClosedLinks(s, path, i);
    }
    TourIsPath(s, path, n);
    assert Tour(s', |s|) == path by {
      forall k | 0 <= k < |s|
        ensures Tour(s', |s|)[k] == path[k]
      {
        TourIsPath(s, path, k);
      }
    }
    assert Follow(s', 0, |s|) == s'[Follow(s', 0, n)];
  }

  lemma ClosedLinks(s: seq<int>, path: seq<int>, i: nat)
    requires Chain(s, path) && |path| == |s| && i < |s|
    ensures s[path[|s| - 1] := 0][path[i]] == if i == |s| - 1 then 0 else path[i + 1]
  {
    if i < |s| - 1 {
      assert path[i] != path[|s| - 1];
    }
  }

  lemma {:induction false} TourIsPath(s: seq<int>, path: seq<int>, k: nat)
    requires Chain(s, path) && |path| == |s| && k < |s| && InBounds(s[path[|s| - 1] := 0])
    ensures Follow(s[path[|s| - 1] := 0], 0, k) == path[k]
  {
    if k > 0 {
      TourIsPath(s, path, k - 1);
      ClosedLinks(s, path, k - 1);
    }
  }

  /** ptrchase_setup on a zeroed array. The redraw loop is a choice among the eligible slots, of which there is
      always one; whatever is chosen, the result is one cycle through all the slots. */
  method Setup(arr: array<int>)
    requires arr.Length >= 1 && forall i :: 0 <= i < arr.Length ==> arr[i] == NULL
    modifies arr
    ensures SingleCycle(arr[..])
    ensures arr.Length > 1 ==> forall i :: 0 <= i < arr.Length ==> arr[i] != i
  {
    var len := arr.Length;
    if len == 1 {
      arr[0] := 0;
      assert Tour(arr[..], 1) == [0];
      return;
    }
    var curr := 0;
    ghost var path := [0];
    for count := 1 to len
      invariant |path| == count && curr == path[count - 1] && Chain(arr[..], path)
    {
      EligibleTarget(arr[..], path);
      var tgt :| 0 <= tgt < len && tgt != curr && arr[tgt] == NULL;
      ExtendChain(arr[..], path, tgt);
      arr[curr] := tgt;
      path := path + [tgt];
      curr := tgt;
    }
    CloseChain(arr[..], path);
    arr[curr] := 0;
    NoSelfLoop(arr[..]);
  }

  /** A cycle through more than one slot has no slot pointing to itself. */
  lemma NoSelfLoop(s: seq<int>)
    requires SingleCycle(s) && |s| > 1
    ensures forall i :: 0 <= i < |s| ==> s[i] != i
  {
    var t := Tour(s, |s|);
    forall i | 0 <= i < |s|
      ensures s[i] != i
    {
      assert i in t;
      var k :| 0 <= k < |s| && t[k] == i;
      assert Follow(s, 0, k + 1) == s[i];
      if k + 1 < |s| {
        assert t[k + 1] == s[i];
      } else {
        assert t[0] == 0 && s[i] == 0;
      }
    }
  }

  /** The chase loop: it is back at slot 0 after exactly len steps, having met every slot once. */
  method Chase(arr: array<int>) returns (steps: nat, ghost visited: seq<int>)
    requires SingleCycle(arr[..])
    ensures steps == arr.Length && ListsAll(visited, arr.Length)
    ensures visited == Tour(arr[..], arr.Length)
  {
    ghost var s := arr[..];
    ghost var t := Tour(s, |s|);
    var cur := arr[0];
    steps := 1;
    visited := [0];
    assert Follow(s, 0, 1) == s[Follow(s, 0, 0)];
    while cur != 0
      invariant 1 <= steps <= |s| && cur == Follow(s, 0, steps) && visited == t[..steps]
      decreases |s| - steps
    {
      assert visited + [cur] == t[..steps + 1];
      visited := visited + [cur];
      cur := arr[cur];
      steps := steps + 1;
    }
    assert t[..|s|] == t;
  }
}
