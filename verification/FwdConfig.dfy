/** test-pmd/config.c: sharing the forwarding streams out to cores, and wiring each stream's receive and
    transmit queues for the simple, RSS and ICMP-echo set-ups (without the NUMA stride of the RSS set-up). */
module FwdConfig {
  import opened Sequences
  import Numbers

  datatype Lcore = Lcore(streamIdx: nat, streamNb: nat)

  datatype Stream = Stream(rxPort: nat, rxQueue: nat, txPort: nat, txQueue: nat, peer: nat)

  datatype Topology = Paired | Chained | Loop

  // ----- work partition

  /** Streams per core before the remainder is shared out, and the number of cores that get one more. */
  function PerLcore(nbFs: nat, nbFc: nat): nat
    requires nbFc > 0 || nbFs == 0
  {
    if nbFs <= nbFc then 1 else nbFs / nbFc
  }

  function Extra(nbFs: nat, nbFc: nat): (e: nat)
    requires nbFc > 0 || nbFs == 0
    ensures e <= nbFc
  {
    if nbFs <= nbFc then 0 else nbFs % nbFc
  }

  /** Core l works on a contiguous block right behind that of core l-1. */
  ghost predicate Contiguous(lcores: seq<Lcore>) {
    && (lcores != [] ==> lcores[0].streamIdx == 0)
    && forall l :: 0 < l < |lcores| ==> lcores[l].streamIdx == lcores[l - 1].streamIdx + lcores[l - 1].streamNb
  }

  function End(lcores: seq<Lcore>): nat {
    if lcores == [] then 0 else lcores[|lcores| - 1].streamIdx + lcores[|lcores| - 1].streamNb
  }

  /** The cores share total streams: in contiguous blocks from 0, none empty, that differ in size by at most one. */
  ghost predicate Shares(lcores: seq<Lcore>, total: nat) {
    && Contiguous(lcores) && End(lcores) == total && |lcores| <= total
    && (lcores == [] ==> total == 0)
    && (forall l :: 0 <= l < |lcores| ==> lcores[l].streamNb > 0)
    && forall l, l' :: 0 <= l < |lcores| && 0 <= l' < |lcores| ==> lcores[l].streamNb <= lcores[l'].streamNb + 1
  }

  /** setup_fwd_config_of_each_lcore. The blocks are contiguous from 0, differ in size by at most one, and together
      hold exactly the streams when there are at least as many streams as cores, and only then. */
  method SetupLcores(lcores: array<Lcore>, nbFs: nat, nbFc: nat)
    requires nbFc <= lcores.Length && (nbFc > 0 || nbFs == 0)
    modifies lcores
    ensures Contiguous(lcores[..nbFc])
    ensures forall l :: 0 <= l < nbFc ==>
              PerLcore(nbFs, nbFc) <= lcores[l].streamNb <= PerLcore(nbFs, nbFc) + 1 && lcores[l].streamNb > 0
    ensures forall l :: 0 <= l < nbFc ==>
              lcores[l].streamNb == if nbFs <= nbFc then 1
                                    else if l < nbFc - nbFs % nbFc then nbFs / nbFc else nbFs / nbFc + 1
    ensures End(lcores[..nbFc]) == if nbFc <= nbFs then nbFs else nbFc
    ensures nbFc <= nbFs ==> Shares(lcores[..nbFc], nbFs)
    ensures forall l :: nbFc <= l < lcores.Length ==> lcores[l] == old(lcores[l])
  {
    var per, extra := 1, 0;
    if nbFs > nbFc {
      per, extra := nbFs / nbFc, nbFs % nbFc;
      PerPositive(nbFs, nbFc);
    }
    ShareOut(lcores, nbFc, per, extra);
    TotalShared(nbFs, nbFc, per, extra);
    if nbFc <= nbFs {
      SharesFrom(lcores[..nbFc], nbFs, per);
    }
  }

  /** The two loops: blocks of size per, and behind them extra blocks of one more. */
  method ShareOut(lcores: array<Lcore>, nbFc: nat, per: nat, extra: nat)
    requires extra <= nbFc <= lcores.Length
    modifies lcores
    ensures Contiguous(lcores[..nbFc]) && End(lcores[..nbFc]) == (nbFc - extra) * per + extra * (per + 1)
    ensures forall l :: 0 <= l < nbFc ==> lcores[l].streamNb == if l < nbFc - extra then per else per + 1
    ensures forall l :: nbFc <= l < lcores.Length ==> lcores[l] == old(lcores[l])
  {
    var nbLc := nbFc - extra;
    var smId := FillBlocks(lcores, 0, nbLc, per, 0);
    smId := FillBlocks(lcores, nbLc, extra, per + 1, smId);
  }

  lemma SharesFrom(lcores: seq<Lcore>, total: nat, per: nat)
    requires Contiguous(lcores) && End(lcores) == total && |lcores| <= total && per > 0
    requires forall l :: 0 <= l < |lcores| ==> per <= lcores[l].streamNb <= per + 1
    ensures Shares(lcores, total)
  {
  }

  /** One of the two loops: count blocks of the given size, behind the ones already there. */
  method FillBlocks(lcores: array<Lcore>, from: nat, count: nat, size: nat, smId0: nat) returns (smId: nat)
    requires from + count <= lcores.Length && Contiguous(lcores[..from]) && End(lcores[..from]) == smId0
    modifies lcores
    ensures Contiguous(lcores[..from + count]) && End(lcores[..from + count]) == smId == smId0 + count * size
    ensures forall l :: from <= l < from + count ==> lcores[l].streamNb == size
    ensures forall l :: 0 <= l < lcores.Length && !(from <= l < from + count) ==> lcores[l] == old(lcores[l])
  {
    smId := smId0;
    for lc := 0 to count
      invariant smId == smId0 + lc * size
      invariant Contiguous(lcores[..from + lc]) && End(lcores[..from + lc]) == smId
      invariant forall l :: from <= l < from + lc ==> lcores[l].streamNb == size
      invariant forall l :: 0 <= l < lcores.Length && !(from <= l < from + lc) ==> lcores[l] == old(lcores[l])
    {
      ExtendBlocks(lcores[..from + lc], Lcore(smId, size));
      ghost var prev := lcores[..from + lc];
      lcores[from + lc] := Lcore(smId, size);
      assert lcores[..from + lc + 1] == prev + [Lcore(smId, size)];
      NextMultiple(lc, size);
      smId := smId + size;
    }
  }

  lemma PerPositive(nbFs: nat, nbFc: nat)
    requires nbFs > nbFc > 0
    ensures nbFs / nbFc > 0
  {
    var d := nbFs / nbFc;
    assert nbFs == nbFc * d + nbFs % nbFc;
    if d <= 0 {
      Numbers.MulMonotone(nbFc, d, 0);
    }
  }

  lemma NextMultiple(k: int, n: int)
    ensures (k + 1) * n == k * n + n
  {
  }

  lemma ExtendBlocks(blocks: seq<Lcore>, b: Lcore)
    requires Contiguous(blocks) && b.streamIdx == End(blocks)
    ensures Contiguous(blocks + [b]) && End(blocks + [b]) == b.streamIdx + b.streamNb
  {
  }

  lemma TotalShared(nbFs: nat, nbFc: nat, per: nat, extra: nat)
    requires (nbFc > 0 || nbFs == 0) && per == PerLcore(nbFs, nbFc) && extra == Extra(nbFs, nbFc)
    ensures (nbFc - extra) * per + extra * (per + 1) == if nbFc <= nbFs then nbFs else nbFc
  {
    assert (nbFc - extra) * per + extra * (per + 1) == nbFc * per + extra by {
      Numbers.MulDistributes(per, nbFc - extra, extra);
      Numbers.MulDistributes(extra, per, 1);
    }
    if nbFs > nbFc {
      assert nbFs == nbFc * (nbFs / nbFc) + nbFs % nbFc;
    }
  }

  /** Contiguous blocks: every stream below the end belongs to exactly one core. */
  lemma {:induction false} EachStreamOnce(lcores: seq<Lcore>, k: nat)
    requires Contiguous(lcores) && k < End(lcores)
    ensures exists l :: 0 <= l < |lcores| && Owns(lcores[l], k)
    ensures forall l, l' :: 0 <= l < l' < |lcores| ==> !(Owns(lcores[l], k) && Owns(lcores[l'], k))
  {
    var n := |lcores| - 1;
    var init := lcores[..n];
    if k >= lcores[n].streamIdx {
      assert Owns(lcores[n], k);
    } else {
      assert n > 0 && End(init) == lcores[n].streamIdx;
      EachStreamOnce(init, k);
      var l :| 0 <= l < |init| && Owns(init[l], k);
      assert Owns(lcores[l], k);
    }
    forall l, l' | 0 <= l < l' < |lcores|
      ensures !(Owns(lcores[l], k) && Owns(lcores[l'], k))
    {
      BlocksOrdered(lcores, l, l');
    }
  }

  predicate Owns(c: Lcore, k: nat) {
    c.streamIdx <= k < c.streamIdx + c.streamNb
  }

  lemma {:induction false} BlocksOrdered(lcores: seq<Lcore>, l: nat, l': nat)
    requires Contiguous(lcores) && l < l' < |lcores|
    ensures lcores[l].streamIdx + lcores[l].streamNb <= lcores[l'].streamIdx
    decreases l' - l
  {
    if l + 1 < l' {
      BlocksOrdered(lcores, l, l' - 1);
    }
  }

  // ----- queue exclusivity

  /** No two streams poll the same receive queue and no two send on the same transmit queue. */
  ghost predicate Exclusive(streams: seq<Stream>) {
    forall a, b :: 0 <= a < b < |streams| ==> QueuesDiffer(streams[a], streams[b])
  }

  predicate QueuesDiffer(s: Stream, t: Stream) {
    (s.rxPort, s.rxQueue) != (t.rxPort, t.rxQueue) && (s.txPort, s.txQueue) != (t.txPort, t.txQueue)
  }

  /** The next port, with wrap-around. */
  function Succ(i: nat, n: nat): (j: nat)
    requires i < n
    ensures j < n
  {
    if i + 1 == n then 0 else i + 1
  }

  lemma SuccIsMod(i: nat, n: nat)
    requires i < n
    ensures (i + 1) % n == Succ(i, n)
  {
    if i + 1 == n {
      Numbers.DivModUnique(n, n, 1, 0);
    } else {
      Numbers.SmallMod(i + 1, n);
    }
  }

  /** Where stream i of the simple set-up sends: its partner, its successor, or itself. With an odd number of ports
      the last pair wraps around and overwrites stream 0. */
  function SimpleTx(i: nat, n: nat, topology: Topology): (j: nat)
    requires i < n
    ensures j < n
  {
    match topology
    case Loop => i
    case Chained => Succ(i, n)
    case Paired => if n % 2 == 1 && i == 0 then n - 1 else if i % 2 == 0 then Succ(i, n) else i - 1
  }

  function SimpleStream(i: nat, n: nat, ids: seq<nat>, topology: Topology): Stream
    requires i < n <= |ids|
  {
    var j := SimpleTx(i, n, topology);
    Stream(ids[i], 0, ids[j], 0, j)
  }

  /** What simple_fwd_config_setup has written when it is about to do port i. */
  ghost predicate WiredUpTo(streams: seq<Stream>, ids: seq<nat>, i: nat, n: nat, topology: Topology)
    requires n <= |ids| && n <= |streams|
  {
    forall k :: 0 <= k < i && k < n && !(topology == Paired && n % 2 == 1 && k == 0 && i < n) ==>
      streams[k] == SimpleStream(k, n, ids, topology)
  }

  /** simple_fwd_config_setup: clamp the cores to the ports, share the streams out, one per port, and wire them. The
      streams are those init_fwd_streams allocated, as many as receive queues. */
  method SimpleSetup(streams: array<Stream>, lcores: array<Lcore>, ids: seq<nat>, n: nat, nbRxq: nat, nbFwdLcores: nat,
                     topology: Topology)
    returns (nbLcores: nat)
    requires n <= |ids| && nbRxq > 0 && n * nbRxq <= streams.Length
    requires nbFwdLcores <= lcores.Length && (nbFwdLcores > 0 || n == 0)
    modifies streams, lcores
    ensures nbLcores == (if nbFwdLcores > n then n else nbFwdLcores) && Shares(lcores[..nbLcores], n)
    ensures n <= streams.Length && forall i :: 0 <= i < n ==> streams[i] == SimpleStream(i, n, ids, topology)
    ensures forall i :: n <= i < streams.Length ==> streams[i] == old(streams[i])
  {
    nbLcores := nbFwdLcores;
    if nbLcores > n {
      nbLcores := n;
    }
    Numbers.MulMonotone(n, 1, nbRxq);
    SetupLcores(lcores, n, nbLcores);
    WireSimple(streams, ids, n, topology);
  }

  /** The loop over the ports, or over every other one. */
  method WireSimple(streams: array<Stream>, ids: seq<nat>, n: nat, topology: Topology)
    requires n <= |ids| && n <= streams.Length
    modifies streams
    ensures forall i :: 0 <= i < n ==> streams[i] == SimpleStream(i, n, ids, topology)
    ensures forall i :: n <= i < streams.Length ==> streams[i] == old(streams[i])
  {
    var inc := if topology == Paired then 2 else 1;
    var i := 0;
    while i < n
      invariant 0 <= i && (topology == Paired ==> i % 2 == 0)
      invariant WiredUpTo(streams[..], ids, i, n, topology)
      invariant forall k :: n <= k < streams.Length ==> streams[k] == old(streams[k])
    {
      SuccIsMod(i, n);
      var j := if topology != Loop then (i + 1) % n else i;
      WireStep(streams[..], ids, i, n, topology);
      ghost var before := streams[..];
      streams[i] := Stream(ids[i], 0, ids[j], 0, j);
      assert streams[..] == before[i := Stream(ids[i], 0, ids[j], 0, j)];
      if topology == Paired {
        before := streams[..];
        streams[j] := Stream(ids[j], 0, ids[i], 0, i);
        assert streams[..] == before[j := Stream(ids[j], 0, ids[i], 0, i)];
      }
      i := i + inc;
    }
    assert streams[..][..n] == streams[..n];
  }

  lemma WireStep(streams: seq<Stream>, ids: seq<nat>, i: nat, n: nat, topology: Topology)
    requires i < n <= |ids| && n <= |streams| && (topology == Paired ==> i % 2 == 0)
    requires WiredUpTo(streams, ids, i, n, topology)
    ensures var j := if topology != Loop then Succ(i, n) else i;
            var one := streams[i := Stream(ids[i], 0, ids[j], 0, j)];
            && (topology != Paired ==> WiredUpTo(one, ids, i + 1, n, topology))
            && (topology == Paired ==> WiredUpTo(one[j := Stream(ids[j], 0, ids[i], 0, i)], ids, i + 2, n, topology))
  {
  }

  /** Chained and loop never share a queue; paired does not exactly when the ports are even in number, or one. */
  lemma SimpleExclusive(ids: seq<nat>, n: nat, topology: Topology, streams: seq<Stream>)
    requires n <= |ids| && Distinct(ids[..n]) && |streams| == n
    requires forall i :: 0 <= i < n ==> streams[i] == SimpleStream(i, n, ids, topology)
    ensures Exclusive(streams) <==> topology != Paired || n % 2 == 0 || n == 1
  {
    assert forall i :: 0 <= i < n ==> ids[..n][i] == ids[i];
    if topology == Paired && n % 2 == 1 && n > 1 {
      assert SimpleTx(1, n, Paired) == 0 && SimpleTx(n - 1, n, Paired) == 0;
      assert streams[1].txPort == streams[n - 1].txPort;
      if n == 3 {
        assert streams[1].txPort == streams[2].txPort;
      }
    } else {
      forall a, b | 0 <= a < b < n
        ensures SimpleTx(a, n, topology) != SimpleTx(b, n, topology)
      {
      }
    }
  }

  /** The wiring of the simple set-up: every port sends to itself, to the next port round, or to the other port of its
      pair 0-1, 2-3 and so on. */
  lemma SimpleWiring(i: nat, n: nat, ids: seq<nat>)
    requires i < n <= |ids|
    ensures SimpleStream(i, n, ids, Loop) == Stream(ids[i], 0, ids[i], 0, i)
    ensures SimpleStream(i, n, ids, Chained) == Stream(ids[i], 0, ids[(i + 1) % n], 0, (i + 1) % n)
    ensures n % 2 == 0 ==>
              var j := if i % 2 == 0 then i + 1 else i - 1;
              j < n && SimpleStream(i, n, ids, Paired) == Stream(ids[i], 0, ids[j], 0, j)
  {
    SuccIsMod(i, n);
  }

  /** Paired forwarding is an involution. */
  lemma PairedInvolution(i: nat, n: nat)
    requires i < n && n % 2 == 0
    ensures SimpleTx(SimpleTx(i, n, Paired), n, Paired) == i
  {
  }

  /** The port reached from port 0 by k chained hops. */
  ghost function Hops(k: nat, n: nat): (r: nat)
    requires n > 0
    ensures r < n
  {
    if k == 0 then 0 else SimpleTx(Hops(k - 1, n), n, Chained)
  }

  /** Chained forwarding is a single cycle through all the ports. */
  lemma {:induction false} ChainedCycle(k: nat, n: nat)
    requires 0 < n && k <= n
    ensures Hops(k, n) == if k == n then 0 else k
  {
    if k > 0 {
      ChainedCycle(k - 1, n);
    }
  }

  /** Where an RSS stream that polls port p sends, as an index into the table of forwarding ports: even ports send up,
      odd ports send down. */
  function RssTx(p: nat, topology: Topology): nat {
    if topology == Loop then p else if p % 2 == 0 then p + 1 else p - 1
  }

  /** The port table has an even number of entries, so that the partner of every entry is another one. */
  predicate TableOk(ids: seq<nat>, n: nat) {
    n <= |ids| && |ids| % 2 == 0
  }

  /** An RSS stream that polls queue x of port p. */
  function RssStream(p: nat, x: nat, ids: seq<nat>, topology: Topology): Stream
    requires p < |ids| && |ids| % 2 == 0
  {
    var tx := RssTx(p, topology);
    Stream(ids[p], x, ids[tx], x, ids[tx])
  }

  /** Stream k of the ICMP set-up: it answers on the queue it polls. */
  function IcmpStream(k: nat, q: nat, ids: seq<nat>): Stream
    requires q > 0 && Row(k, q) < |ids|
  {
    Stream(ids[Row(k, q)], Col(k, q), ids[Row(k, q)], Col(k, q), ids[Row(k, q)])
  }

  /** Stream k is on port Row(k, q) and queue Col(k, q) when every port has q queues. */
  function Row(k: nat, q: nat): nat
    requires q > 0
  {
    if k < q then 0 else 1 + Row(k - q, q)
  }

  function Col(k: nat, q: nat): (x: nat)
    requires q > 0
    ensures x < q
  {
    if k < q then k else Col(k - q, q)
  }

  lemma {:induction false} RowColEquation(k: nat, q: nat)
    requires q > 0
    ensures k == Row(k, q) * q + Col(k, q)
  {
    if k >= q {
      RowColEquation(k - q, q);
      NextMultiple(Row(k - q, q), q);
    }
  }

  /** Row and Col are the quotient and the remainder. */
  lemma RowColAreDivMod(k: nat, q: nat)
    requires q > 0
    ensures Row(k, q) == k / q && Col(k, q) == k % q
  {
    RowColEquation(k, q);
    Numbers.DivModUnique(k, q, Row(k, q), Col(k, q));
  }

  lemma PortBound(k: nat, q: nat, n: nat)
    requires q > 0 && k < n * q
    ensures Row(k, q) < n
  {
    RowColEquation(k, q);
    if Row(k, q) >= n {
      Numbers.MulMonotone(q, n, Row(k, q));
    }
  }

  lemma RowOfMultiple(p: nat, q: nat)
    requires q > 0
    ensures p * q >= 0 && Row(p * q, q) == p && Col(p * q, q) == 0
  {
    Numbers.MulMonotone(q, 0, p);
    RowColAreDivMod(p * q, q);
    Numbers.DivModUnique(p * q, q, p, 0);
  }

  /** The set-up stays clear of the last port of an odd number, whose partner lies behind the forwarding ports. */
  predicate ClearOfLast(nbStreams: nat, n: nat, q: nat, topology: Topology) {
    topology == Loop || n % 2 == 0 || nbStreams <= (n - 1) * q
  }

  /** The whole set-up names forwarding ports only exactly when it loops, or the ports are even in number, or there are
      too few streams to reach the last port. */
  lemma RssWithinIff(nbStreams: nat, n: nat, q: nat, topology: Topology)
    requires q > 0 && nbStreams <= n * q
    ensures (forall k :: 0 <= k < nbStreams ==> RssTx(Row(k, q), topology) < n)
            <==> ClearOfLast(nbStreams, n, q, topology)
  {
    if ClearOfLast(nbStreams, n, q, topology) {
      forall k | 0 <= k < nbStreams
        ensures RssTx(Row(k, q), topology) < n
      {
        PortBound(k, q, n);
        if n % 2 == 1 && topology != Loop {
          PortBound(k, q, n - 1);
        }
      }
    } else {
      RowOfMultiple(n - 1, q);
      assert RssTx(Row((n - 1) * q, q), topology) == n;
    }
  }

  /** Different streams differ in port or queue. */
  lemma RowOrColDiffers(a: nat, b: nat, q: nat)
    requires q > 0 && a != b
    ensures Row(a, q) != Row(b, q) || Col(a, q) != Col(b, q)
  {
    RowColEquation(a, q);
    RowColEquation(b, q);
  }

  /** The first count streams are wired for RSS. */
  ghost predicate RssWired(streams: seq<Stream>, count: nat, ids: seq<nat>, n: nat, q: nat, topology: Topology)
    requires TableOk(ids, n) && q > 0
  {
    && count <= |streams|
    && forall k :: 0 <= k < count ==>
         Row(k, q) < n && streams[k] == RssStream(Row(k, q), Col(k, q), ids, topology)
  }

  /** The entry behind the forwarding ports names none of those that something is sent to. */
  predicate SpareBehind(ids: seq<nat>, n: nat) {
    0 < n < |ids| && ids[n] !in ids[..n - 1]
  }

  lemma RssPairDiffers(ids: seq<nat>, n: nat, topology: Topology, p: nat, x: nat, p': nat, x': nat)
    requires TableOk(ids, n) && Distinct(ids[..n]) && (p != p' || x != x') && p < n && p' < n
    requires SpareBehind(ids, n) || (RssTx(p, topology) < n && RssTx(p', topology) < n)
    ensures QueuesDiffer(RssStream(p, x, ids, topology), RssStream(p', x', ids, topology))
  {
    var t, t' := RssTx(p, topology), RssTx(p', topology);
    DistinctIds(ids, n, p, p');
    if t < n && t' < n {
      DistinctIds(ids, n, t, t');
    } else if t < n {
      assert ids[..n - 1][t] == ids[t];
    } else if t' < n {
      assert ids[..n - 1][t'] == ids[t'];
    }
  }

  /** RSS shares no queue, exactly when it stays clear of the last port of an odd number, or the entry behind the
      forwarding ports happens to be free. */
  lemma RssExclusiveIff(ids: seq<nat>, n: nat, q: nat, topology: Topology, streams: seq<Stream>)
    requires TableOk(ids, n) && Distinct(ids[..n]) && q > 0 && |streams| <= n * q
    requires RssWired(streams, |streams|, ids, n, q, topology)
    ensures Exclusive(streams) <==> ClearOfLast(|streams|, n, q, topology) || SpareBehind(ids, n)
  {
    RssWithinIff(|streams|, n, q, topology);
    if ClearOfLast(|streams|, n, q, topology) || SpareBehind(ids, n) {
      forall a, b | 0 <= a < b < |streams|
        ensures QueuesDiffer(streams[a], streams[b])
      {
        RowOrColDiffers(a, b, q);
        assert streams[a] == RssStream(Row(a, q), Col(a, q), ids, topology);
        assert streams[b] == RssStream(Row(b, q), Col(b, q), ids, topology);
        RssPairDiffers(ids, n, topology, Row(a, q), Col(a, q), Row(b, q), Col(b, q));
      }
    } else {
      RssShares(ids, n, q, topology, streams);
    }
  }

  /** The last port sends where the partner of the port named behind it sends. */
  lemma RssShares(ids: seq<nat>, n: nat, q: nat, topology: Topology, streams: seq<Stream>)
    requires TableOk(ids, n) && q > 0 && RssWired(streams, |streams|, ids, n, q, topology)
    requires !ClearOfLast(|streams|, n, q, topology) && !SpareBehind(ids, n)
    ensures !Exclusive(streams)
  {
    assert ids[n] in ids[..n - 1];
    var j :| 0 <= j < n - 1 && ids[..n - 1][j] == ids[n];
    var p := RssTx(j, topology);
    PartnerBelow(j, n, topology);
    FirstQueueOf(streams, ids, n, q, topology, p);
    FirstQueueOf(streams, ids, n, q, topology, n - 1);
    RowOfMultiple(p, q);
    RowOfMultiple(n - 1, q);
    SameQueue(streams, p * q, (n - 1) * q);
  }

  lemma PartnerBelow(j: nat, n: nat, topology: Topology)
    requires topology != Loop && n % 2 == 1 && j < n - 1
    ensures var p := RssTx(j, topology); p < n - 1 && RssTx(p, topology) == j
    ensures RssTx(n - 1, topology) == n
  {
  }

  lemma SameQueue(streams: seq<Stream>, a: nat, b: nat)
    requires a < |streams| && b < |streams| && a != b
    requires streams[a].txPort == streams[b].txPort && streams[a].txQueue == streams[b].txQueue
    ensures !Exclusive(streams)
  {
    var i, j := if a < b then a else b, if a < b then b else a;
    assert !QueuesDiffer(streams[i], streams[j]);
  }

  /** The stream that polls queue 0 of port p, when the streams reach the last port. */
  lemma FirstQueueOf(streams: seq<Stream>, ids: seq<nat>, n: nat, q: nat, topology: Topology, p: nat)
    requires TableOk(ids, n) && q > 0 && RssWired(streams, |streams|, ids, n, q, topology)
    requires p < n && (n - 1) * q < |streams|
    ensures 0 <= p * q < |streams| && streams[p * q] == RssStream(p, 0, ids, topology)
  {
    RowOfMultiple(p, q);
    Numbers.MulMonotone(q, p, n - 1);
  }

  /** A concrete case: three ports on three cores, with zero behind them in the table. Ports 1 and 2 both send on
      queue 0 of port 0. */
  lemma OddPortsShareQueue(streams: seq<Stream>)
    requires |streams| == 3 && RssWired(streams, 3, [0, 1, 2, 0], 3, 1, Paired)
    ensures !Exclusive(streams)
  {
    var ids: seq<nat> := [0, 1, 2, 0];
    assert ids[..2] == [0, 1];
    RssShares(ids, 3, 1, Paired, streams);
  }

  lemma DistinctIds(ids: seq<nat>, n: nat, i: nat, j: nat)
    requires n <= |ids| && Distinct(ids[..n]) && i < n && j < n
    ensures ids[i] == ids[j] <==> i == j
  {
    assert ids[..n][i] == ids[i] && ids[..n][j] == ids[j];
  }

  lemma IcmpExclusive(ids: seq<nat>, n: nat, q: nat, streams: seq<Stream>)
    requires n <= |ids| && Distinct(ids[..n]) && q > 0
    requires forall k :: 0 <= k < |streams| ==> Row(k, q) < n && streams[k] == IcmpStream(k, q, ids)
    ensures Exclusive(streams)
  {
    forall a, b | 0 <= a < b < |streams|
      ensures QueuesDiffer(streams[a], streams[b])
    {
      RowOrColDiffers(a, b, q);
      assert Row(a, q) < n && Row(b, q) < n;
      DistinctIds(ids, n, Row(a, q), Row(b, q));
    }
  }

  // ----- the RSS and ICMP loops

  /** How the running port and queue counters move from one stream to the next. */
  lemma CountersNext(k: nat, q: nat)
    requires q > 0
    ensures Row(k + 1, q) == if Col(k, q) + 1 == q then Row(k, q) + 1 else Row(k, q)
    ensures Col(k + 1, q) == if Col(k, q) + 1 == q then 0 else Col(k, q) + 1
  {
    if k >= q {
      CountersNext(k - q, q);
    }
  }

  /** rss_fwd_config_setup: q queues per port are used, and one stream per core. The number of streams is the
      smaller of the cores and the queues; stream k polls queue k mod q of port k / q. */
  method RssSetup(streams: array<Stream>, lcores: array<Lcore>, ids: seq<nat>, n: nat, nbRxq: nat, nbTxq: nat,
                  nbFwdLcores: nat, topology: Topology)
    returns (nbStreams: nat, q: nat)
    requires TableOk(ids, n) && Distinct(ids[..n]) && nbRxq > 0 && nbTxq > 0
    requires n * nbRxq <= streams.Length && nbFwdLcores <= lcores.Length
    modifies streams, lcores
    ensures q == (if nbRxq > nbTxq then nbTxq else nbRxq)
    ensures nbStreams == (if n * q > nbFwdLcores then nbFwdLcores else n * q) && nbStreams <= n * nbRxq
    ensures nbStreams <= lcores.Length && Shares(lcores[..nbStreams], nbStreams)
    ensures RssWired(streams[..], nbStreams, ids, n, q, topology)
    ensures forall k :: 0 <= k < nbStreams ==> streams[k].rxQueue < nbRxq && streams[k].txQueue < nbTxq
    ensures Exclusive(streams[..nbStreams]) <==> ClearOfLast(nbStreams, n, q, topology) || SpareBehind(ids, n)
  {
    q := nbRxq;
    if q > nbTxq {
      q := nbTxq;
    }
    var nbLcores := nbFwdLcores;
    nbStreams := n * q;
    if nbStreams > nbLcores {
      nbStreams := nbLcores;
    } else {
      nbLcores := nbStreams;
    }
    Numbers.MulMonotone(n, q, nbRxq);
    SetupLcores(lcores, nbStreams, nbLcores);
    RssAssign(streams, ids, n, q, nbStreams, topology);
    RssExclusiveIff(ids, n, q, topology, streams[..nbStreams]);
  }

  lemma RssStep(streams: seq<Stream>, lc: nat, ids: seq<nat>, n: nat, q: nat, topology: Topology)
    requires TableOk(ids, n) && q > 0 && lc < |streams| && Row(lc, q) < n && RssWired(streams, lc, ids, n, q, topology)
    ensures RssWired(streams[lc := RssStream(Row(lc, q), Col(lc, q), ids, topology)], lc + 1, ids, n, q, topology)
  {
  }

  /** The loop over the cores. */
  method RssAssign(streams: array<Stream>, ids: seq<nat>, n: nat, q: nat, nbStreams: nat, topology: Topology)
    requires TableOk(ids, n) && q > 0 && nbStreams <= n * q && nbStreams <= streams.Length
    modifies streams
    ensures RssWired(streams[..], nbStreams, ids, n, q, topology)
  {
    var rxp, rxq := 0, 0;
    for lc := 0 to nbStreams
      invariant rxp == Row(lc, q) && rxq == Col(lc, q)
      invariant RssWired(streams[..], lc, ids, n, q, topology)
    {
      PortBound(lc, q, n);
      var txp := if rxp % 2 == 0 then rxp + 1 else rxp - 1;
      if topology == Loop {
        txp := rxp;
      }
      RssStep(streams[..], lc, ids, n, q, topology);
      ghost var before, wired := streams[..], RssStream(rxp, rxq, ids, topology);
      streams[lc] := Stream(ids[rxp], rxq, ids[txp], rxq, ids[txp]);
      assert streams[..] == before[lc := wired];
      CountersNext(lc, q);
      rxq := rxq + 1;
      if rxq >= q {
        rxq := 0;
        rxp := rxp + 1;
      }
    }
  }

  /** The wiring of the RSS set-up: stream k polls queue k mod q of port k / q and sends on the same queue of that port,
      or of the other port of its pair. */
  lemma RssWiring(streams: seq<Stream>, count: nat, ids: seq<nat>, n: nat, q: nat, topology: Topology, k: nat)
    requires TableOk(ids, n) && q > 0 && RssWired(streams, count, ids, n, q, topology) && k < count
    ensures 0 <= k / q < n && streams[k].rxPort == ids[k / q]
    ensures streams[k].rxQueue == k % q == streams[k].txQueue && streams[k].peer == streams[k].txPort
    ensures topology == Loop ==> streams[k].txPort == streams[k].rxPort
    ensures topology != Loop && k / q % 2 == 0 ==> k / q + 1 < |ids| && streams[k].txPort == ids[k / q + 1]
    ensures topology != Loop && k / q % 2 == 1 ==> streams[k].txPort == ids[k / q - 1]
  {
    RowColAreDivMod(k, q);
    assert streams[k] == RssStream(Row(k, q), Col(k, q), ids, topology);
  }

  /** The wiring of the ICMP set-up: stream k answers on the queue it polls, queue k mod q of port k / q. */
  lemma IcmpWiring(streams: seq<Stream>, count: nat, ids: seq<nat>, n: nat, q: nat, k: nat)
    requires n <= |ids| && q > 0 && IcmpWired(streams, count, ids, n, q) && k < count
    ensures 0 <= k / q < n && streams[k] == Stream(ids[k / q], k % q, ids[k / q], k % q, ids[k / q])
  {
    RowColAreDivMod(k, q);
    assert streams[k] == IcmpStream(k, q, ids);
  }

  /** The first count streams are wired for ICMP echo. */
  ghost predicate IcmpWired(streams: seq<Stream>, count: nat, ids: seq<nat>, n: nat, q: nat)
    requires n <= |ids| && q > 0
  {
    count <= |streams| && forall k :: 0 <= k < count ==> Row(k, q) < n && streams[k] == IcmpStream(k, q, ids)
  }

  /** icmp_echo_config_setup, the assignment loops: cores in order, each over its block of streams. They amount to
      one enumeration of the queues: stream k gets queue k mod nb_rxq of port k / nb_rxq. */
  method IcmpAssign(streams: array<Stream>, ids: seq<nat>, n: nat, q: nat, lcores: seq<Lcore>)
    requires n <= |ids| && q > 0 && Contiguous(lcores) && End(lcores) == n * q <= streams.Length
    modifies streams
    ensures IcmpWired(streams[..], n * q, ids, n, q)
  {
    var rxp, rxq := 0, 0;
    ghost var total := 0;
    BlocksBelowEnd(lcores);
    for lc := 0 to |lcores|
      invariant if lc < |lcores| then total == lcores[lc].streamIdx else total == End(lcores)
      invariant rxp == Row(total, q) && rxq == Col(total, q)
      invariant IcmpWired(streams[..], total, ids, n, q)
    {
      var c := lcores[lc];
      for sm := 0 to c.streamNb
        invariant total == c.streamIdx + sm
        invariant rxp == Row(total, q) && rxq == Col(total, q)
        invariant IcmpWired(streams[..], total, ids, n, q)
      {
        PortBound(total, q, n);
        streams[c.streamIdx + sm] := Stream(ids[rxp], rxq, ids[rxp], rxq, ids[rxp]);
        CountersNext(total, q);
        rxq := rxq + 1;
        if rxq == q {
          rxq := 0;
          rxp := rxp + 1;
        }
        total := total + 1;
      }
    }
  }

  lemma BlocksBelowEnd(lcores: seq<Lcore>)
    requires Contiguous(lcores)
    ensures forall l :: 0 <= l < |lcores| ==> lcores[l].streamIdx + lcores[l].streamNb <= End(lcores)
  {
    forall l | 0 <= l < |lcores|
      ensures lcores[l].streamIdx + lcores[l].streamNb <= End(lcores)
    {
      if l < |lcores| - 1 {
        BlocksOrdered(lcores, l, |lcores| - 1);
      }
    }
  }

  /** Every transmit queue the ICMP set-up uses exists exactly when there are as many as receive queues. */
  lemma IcmpTxQueuesIff(ids: seq<nat>, n: nat, nbRxq: nat, nbTxq: nat, streams: seq<Stream>)
    requires 0 < n <= |ids| && nbRxq > 0 && |streams| == n * nbRxq && IcmpWired(streams, n * nbRxq, ids, n, nbRxq)
    ensures (forall k :: 0 <= k < |streams| ==> streams[k].txQueue < nbTxq) <==> nbRxq <= nbTxq
  {
    Numbers.MulMonotone(nbRxq, 1, n);
    assert Col(nbRxq - 1, nbRxq) == nbRxq - 1;
    assert streams[nbRxq - 1].txQueue == nbRxq - 1;
  }

  /** icmp_echo_config_setup: clamp the cores, share the streams out, assign them. The transmit queues are not looked
      at, except to clamp the cores. */
  method IcmpSetup(streams: array<Stream>, lcores: array<Lcore>, ids: seq<nat>, n: nat, nbRxq: nat, nbTxq: nat,
                   nbFwdLcores: nat)
    returns (nbLcores: nat)
    requires 0 < n <= |ids| && Distinct(ids[..n]) && nbRxq > 0 && nbTxq > 0 && 0 < nbFwdLcores <= lcores.Length
    requires n * nbRxq <= streams.Length
    modifies streams, lcores
    ensures nbLcores <= nbFwdLcores && nbLcores <= n * nbTxq && nbLcores <= n * nbRxq
    ensures nbLcores == nbFwdLcores || nbLcores == n * nbTxq || nbLcores == n * nbRxq
    ensures 0 < nbLcores <= lcores.Length && Shares(lcores[..nbLcores], n * nbRxq)
    ensures IcmpWired(streams[..], n * nbRxq, ids, n, nbRxq) && Exclusive(streams[..n * nbRxq])
    ensures (forall k :: 0 <= k < n * nbRxq ==> streams[k].txQueue < nbTxq) <==> nbRxq <= nbTxq
  {
    nbLcores := if nbTxq * n < nbFwdLcores then nbTxq * n else nbFwdLcores;
    var nbStreams := nbRxq * n;
    if nbStreams < nbLcores {
      nbLcores := nbStreams;
    }
    Numbers.MulMonotone(n, 1, nbTxq);
    Numbers.MulMonotone(n, 1, nbRxq);
    SetupLcores(lcores, nbStreams, nbLcores);
    IcmpAssign(streams, ids, n, nbRxq, lcores[..nbLcores]);
    IcmpExclusive(ids, n, nbRxq, streams[..n * nbRxq]);
    IcmpTxQueuesIff(ids, n, nbRxq, nbTxq, streams[..n * nbRxq]);
  }
}
