/** test-pmd/config.c: the pool of multicast addresses filtered by a port, an array grown in chunks and kept
    compact, with realloc free to fail. */
module McastPool {
  import opened Sequences

  const MCAST_POOL_INC := 32

  type Mac = nat

  /** What one call does to the recorded addresses. memory says whether realloc succeeds if it is called. */
  datatype Op = Add(addr: Mac, memory: bool) | Remove(addr: Mac)

  /** The addresses with the one at position i taken out. */
  function Without(s: seq<Mac>, i: nat): seq<Mac>
    requires i < |s|
  {
    s[..i] + s[i + 1..]
  }

  /** The position of the first occurrence, or the length. */
  function IndexOf(s: seq<Mac>, a: Mac): (i: nat)
    ensures i <= |s| && (i < |s| ==> s[i] == a) && (i == |s| <==> a !in s)
    ensures forall k :: 0 <= k < i ==> s[k] != a
  {
    if s == [] || s[0] == a then 0 else 1 + IndexOf(s[1..], a)
  }

  function Apply(s: seq<Mac>, op: Op): seq<Mac> {
    match op
    case Add(a, memory) => if a in s || (|s| % MCAST_POOL_INC == 0 && !memory) then s else s + [a]
    case Remove(a) => if a in s then Without(s, IndexOf(s, a)) else s
  }

  function ApplyAll(s: seq<Mac>, ops: seq<Op>): seq<Mac> {
    if ops == [] then s else Apply(ApplyAll(s, ops[..|ops| - 1]), ops[|ops| - 1])
  }

  /** The set the pool stands for: an add that finds no memory is not carried out. */
  ghost function SetOf(ops: seq<Op>): set<Mac> {
    if ops == [] then {} else
      var before, op := SetOf(ops[..|ops| - 1]), ops[|ops| - 1];
      match op
      case Add(a, memory) => if |before| % MCAST_POOL_INC == 0 && !memory then before else before + {a}
      case Remove(a) => before - {a}
  }

  lemma WithoutDistinct(s: seq<Mac>, i: nat)
    requires Distinct(s) && i < |s|
    ensures Distinct(Without(s, i)) && s[i] !in Without(s, i)
  {
    var r := Without(s, i);
    assert forall k :: 0 <= k < |r| ==> r[k] == s[if k < i then k else k + 1];
  }

  lemma WithoutElements(s: seq<Mac>, i: nat)
    requires Distinct(s) && i < |s|
    ensures Elements(Without(s, i)) == Elements(s) - {s[i]}
  {
    var r := Without(s, i);
    WithoutDistinct(s, i);
    forall x | x in s && x != s[i]
      ensures x in r
    {
      var k :| 0 <= k < |s| && s[k] == x;
      assert r[if k < i then k else k - 1] == x;
    }
    forall x | x in r
      ensures x in s
    {
      var k :| 0 <= k < |r| && r[k] == x;
      assert s[if k < i then k else k + 1] == x;
    }
  }

  /** Over every sequence of adds and removes, with any of them short of memory, the pool is a listing of the set
      without repetition. */
  lemma {:induction false} PoolRefinesSet(ops: seq<Op>)
    ensures Distinct(ApplyAll([], ops)) && Elements(ApplyAll([], ops)) == SetOf(ops)
    ensures |ApplyAll([], ops)| == |SetOf(ops)|
  {
    if ops != [] {
      var s, op := ApplyAll([], ops[..|ops| - 1]), ops[|ops| - 1];
      PoolRefinesSet(ops[..|ops| - 1]);
      if op.Remove? && op.addr in s {
        WithoutDistinct(s, IndexOf(s, op.addr));
        WithoutElements(s, IndexOf(s, op.addr));
      } else if op.Add? && op.addr !in s {
        assert Elements(s + [op.addr]) == Elements(s) + {op.addr};
      } else {
        assert op.addr in Elements(s) <==> op.addr in s;
      }
    }
    DistinctCardinality(ApplyAll([], ops));
  }

  /** Removing an address keeps the order of the others. */
  lemma RemovalKeepsOrder(s: seq<Mac>, a: Mac, x: Mac, y: Mac)
    requires x != a && y != a
    ensures Before(Apply(s, Remove(a)), x, y) <==> Before(s, x, y)
  {
    if a in s {
      WithoutKeepsOrder(s, IndexOf(s, a), x, y);
    }
  }

  lemma WithoutKeepsOrder(s: seq<Mac>, i: nat, x: Mac, y: Mac)
    requires i < |s| && x != s[i] && y != s[i]
    ensures Before(Without(s, i), x, y) <==> Before(s, x, y)
  {
    var r := Without(s, i);
    assert forall k :: 0 <= k < |r| ==> r[k] == s[if k < i then k else k + 1];
    if k, l :| 0 <= k < l < |r| && r[k] == x && r[l] == y {
      assert s[if k < i then k else k + 1] == x && s[if l < i then l else l + 1] == y;
    }
    if k, l :| 0 <= k < l < |s| && s[k] == x && s[l] == y {
      assert r[if k < i then k else k - 1] == x && r[if l < i then l else l - 1] == y;
    }
  }

  /** A new address comes last. */
  lemma AdditionComesLast(s: seq<Mac>, a: Mac, x: Mac)
    requires x in s && a !in s
    ensures Before(Apply(s, Add(a, true)), x, a)
  {
    var i :| 0 <= i < |s| && s[i] == x;
    var r := s + [a];
    assert r[i] == x && r[|s|] == a;
  }

  /** n rounded up to a whole number of chunks. */
  function RoundUp(n: nat): (r: nat)
    ensures n <= r < n + MCAST_POOL_INC && r % MCAST_POOL_INC == 0
  {
    if n < MCAST_POOL_INC then (if n == 0 then 0 else MCAST_POOL_INC) else RoundUp(n - MCAST_POOL_INC) + MCAST_POOL_INC
  }

  lemma {:induction false} RoundUpNext(n: nat)
    ensures RoundUp(n) <= RoundUp(n + 1)
            && RoundUp(n + 1) == if n % MCAST_POOL_INC == 0 then n + MCAST_POOL_INC else RoundUp(n)
  {
    if n >= MCAST_POOL_INC {
      RoundUpNext(n - MCAST_POOL_INC);
    }
  }

  /** The pool of one port. */
  class Pool {
    var pool: array?<Mac>
    var nb: nat

    /** The pool is NULL exactly when it is empty, and otherwise has room for the count rounded up to a chunk. */
    ghost predicate Valid()
      reads this, pool
    {
      && (pool == null <==> nb == 0)
      && (pool != null ==> RoundUp(nb) <= pool.Length)
    }

    ghost function Contents(): seq<Mac>
      reads this, pool
      requires Valid()
    {
      if pool == null then [] else pool[..nb]
    }

    constructor ()
      ensures Valid() && Contents() == []
    {
      pool, nb := null, 0;
    }

    /** The linear search that both calls start with. */
    method Find(addr: Mac) returns (i: nat)
      requires Valid()
      ensures i == IndexOf(Contents(), addr)
    {
      i := 0;
      while i < nb
        invariant 0 <= i <= nb && forall k :: 0 <= k < i ==> pool[k] != addr
      {
        if pool[i] == addr {
          break;
        }
        i := i + 1;
      }
      FirstIndex(Contents(), addr, i);
    }

    /** mcast_addr_pool_extend: one more entry, in a larger array if the chunk is full. The entry is not set yet. */
    method Extend(memory: bool) returns (ok: bool)
      requires Valid()
      modifies this
      ensures ok <==> memory || old(nb) % 32 != 0
      ensures ok ==> Valid() && nb == old(nb) + 1 && Contents()[..old(nb)] == old(Contents())
      ensures ok ==> pool == old(pool) || fresh(pool)
      ensures !ok ==> pool == old(pool) && nb == old(nb)
    {
      RoundUpNext(nb);
      if nb % MCAST_POOL_INC != 0 {
        nb := nb + 1;
        return true;
      }
      if !memory {
        return false;
      }
      pool := Reallocate(nb + MCAST_POOL_INC);
      nb := nb + 1;
      assert pool[..nb][..nb - 1] == pool[..nb - 1];
      ok := true;
    }

    /** realloc: a new array that starts with the old entries. */
    method Reallocate(size: nat) returns (larger: array<Mac>)
      requires Valid() && size >= nb
      ensures fresh(larger) && larger.Length == size && larger[..nb] == Contents()
    {
      larger := new Mac[size](_ => 0);
      if pool != null {
        forall i | 0 <= i < nb {
          larger[i] := pool[i];
        }
      }
    }

    method AddAddress(addr: Mac, memory: bool)
      requires Valid()
      modifies this, pool
      ensures Valid() && Contents() == Apply(old(Contents()), Add(addr, memory))
    {
      var i := Find(addr);
      if i < nb {
        return;
      }
      ghost var before := Contents();
      var ok := Extend(memory);
      if !ok {
        return;
      }
      pool[i] := addr;
      assert Contents() == before + [addr];
    }

    method RemoveAddress(addr: Mac)
      requires Valid()
      modifies this, pool
      ensures Valid() && Contents() == Apply(old(Contents()), Remove(addr))
    {
      var i := Find(addr);
      if i == nb {
        return;
      }
      RemoveAt(i);
    }

    /** mcast_addr_pool_remove: close the gap, or free the pool with its last entry. */
    method RemoveAt(i: nat)
      requires Valid() && i < nb
      modifies this, pool
      ensures Valid() && Contents() == Without(old(Contents()), i)
    {
      nb := nb - 1;
      RoundUpNext(nb);
      if i == nb {
        if nb == 0 {
          pool := null;
        }
        return;
      }
      forall k | i <= k < nb {
        pool[k] := pool[k + 1];
      }
    }
  }

  lemma {:induction false} FirstIndex(s: seq<Mac>, a: Mac, i: nat)
    requires i <= |s| && (forall k :: 0 <= k < i ==> s[k] != a) && (i < |s| ==> s[i] == a)
    ensures IndexOf(s, a) == i
  {
    if i > 0 {
      FirstIndex(s[1..], a, i - 1);
    }
  }
}
