/** test-pmd/flowgen.c: the flow generator, which numbers the packets it sends through the flows in turn
    and backs the counter out by the packets the device did not take. */
module FlowGen {
  import opened Types
  import opened Headers
  import opened Checksum
  import Tunnel
  import Numbers

  const CFG_N_FLOWS := 1024
  const CFG_PKT_SIZE := 300
  const CFG_IP_SRC := 0x0AFE_0000
  const CFG_IP_DST := 0x0AFD_0000
  const CFG_UDP_SRC := 1000
  const CFG_UDP_DST := 1001
  const CFG_ETHER_SRC: seq<byte> := [0, 1, 2, 3, 4, 0]
  const CFG_ETHER_DST: seq<byte> := [0, 1, 2, 3, 4, 1]
  const IP_VHL_DEF := 0x45
  const IP_DEFTTL := 64

  /** The four bytes of a 32-bit number in network order. */
  function Be32(x: int): (r: seq<byte>)
    requires 0 <= x < WORD32
    ensures |r| == 4
  {
    [x / 0x100_0000, x / 0x1_0000 % 256, x / 256 % 256, x % 256]
  }

  /** The IPv4 header of a packet of the given flow, its checksum field holding the bytes c0 and c1. */
  function Header(flow: nat, c0: byte, c1: byte): (h: seq<byte>)
    requires flow < CFG_N_FLOWS
    ensures |h| == 20
  {
    var total := CFG_PKT_SIZE - 4 - 14;
    [IP_VHL_DEF, 0, total / 256, total % 256, 0, 0, 0, 0, IP_DEFTTL, IPPROTO_UDP, c0, c1]
    + Be32(CFG_IP_SRC) + Be32(CFG_IP_DST + flow)
  }

  /** h is the header of the given flow and its checksum verifies. */
  ghost predicate HeaderFor(h: seq<byte>, flow: nat)
    requires flow < CFG_N_FLOWS
  {
    |h| == 20 && h == Header(flow, h[10], h[11]) && Verifies(NetWords(h))
  }

  /** The number in four bytes. */
  function Number(b: seq<byte>): int
    requires |b| == 4
  {
    ((256 * b[0] as int + b[1] as int) * 256 + b[2] as int) * 256 + b[3] as int
  }

  /** The header of a flow, byte by byte: version 4 with five words, length 282, not fragmented, 64 hops, UDP, from
      10.254.0.0 to 10.253.0.0 plus the number of the flow. */
  lemma HeaderBytes(h: seq<byte>, flow: nat)
    requires flow < CFG_N_FLOWS && HeaderFor(h, flow)
    ensures h[..10] == [0x45, 0, 1, 26, 0, 0, 0, 0, 64, 17] && h[12..16] == [10, 254, 0, 0]
    ensures Number(h[16..20]) == 0x0AFD_0000 + flow
  {
    assert Be32(0x0AFE_0000) == [10, 254, 0, 0];
    assert h[12..16] == Be32(CFG_IP_SRC) && h[16..20] == Be32(CFG_IP_DST + flow);
    NumberOfBe32(CFG_IP_DST + flow);
  }

  lemma NumberOfBe32(x: int)
    requires 0 <= x < WORD32
    ensures Number(Be32(x)) == x
  {
    var a, b, c := x / 256, x / 0x1_0000, x / 0x100_0000;
    assert x == 256 * a + x % 256;
    assert b == a / 256 && a == 256 * b + a % 256;
    assert c == b / 256 && b == 256 * c + b % 256;
    assert x / 256 % 256 == a % 256 && x / 0x1_0000 % 256 == b % 256;
  }

  method FillHeader(flow: nat, little: bool) returns (h: seq<byte>)
    requires flow < CFG_N_FLOWS
    ensures HeaderFor(h, flow)
  {
    var zeroed := Header(flow, 0, 0);
    var ws := Words(zeroed, little);
    var c := IpSum(ws, 20);
    assert ws[..10] == ws;
    h := zeroed[..10] + [StoreFirst(c, little), StoreSecond(c, little)] + zeroed[12..];
    FilledVerifies(zeroed, h, c, little);
  }

  lemma {:induction false} WordAt(b: seq<byte>, i: nat, little: bool)
    requires 2 * i + 1 < |b|
    ensures Words(b, little)[i] == Load(b[2 * i], b[2 * i + 1], little)
  {
    if i > 0 {
      WordAt(b[2..], i - 1, little);
    }
  }

  lemma FilledVerifies(zeroed: seq<byte>, h: seq<byte>, c: word, little: bool)
    requires |zeroed| == 20 && zeroed[10] == 0 && zeroed[11] == 0
    requires h == zeroed[..10] + [StoreFirst(c, little), StoreSecond(c, little)] + zeroed[12..]
    requires c == 0xFFFF - OnesSum(Words(zeroed, little))
    ensures Verifies(NetWords(h))
  {
    var ws, vs := Words(zeroed, little), Words(h, little);
    forall i | 0 <= i < 10
      ensures vs[i] == ws[5 := c][i]
    {
      WordAt(zeroed, i, little);
      WordAt(h, i, little);
    }
    assert vs == ws[5 := c];
    WordAt(zeroed, 5, little);
    var viaHeader := if OnesSum(WithoutChecksum(ws)) == 0xFFFF then 0xFFFF else 0xFFFF - OnesSum(WithoutChecksum(ws));
    ChecksumsAgree(ws, c, viaHeader);
    VerifiesInAnyOrder(h, little);
  }

  /** The i-th flow from start on. */
  function FlowAt(start: nat, i: nat): (f: nat)
    ensures f < CFG_N_FLOWS
  {
    (start + i) % CFG_N_FLOWS
  }

  /** n consecutive flow numbers. */
  function Flows(start: nat, n: nat): (s: seq<nat>)
    ensures |s| == n && forall i :: 0 <= i < n ==> s[i] == FlowAt(start, i)
  {
    seq(n, i requires 0 <= i => FlowAt(start, i))
  }

  // ----- a packet

  /** The packet without the frame check sequence. */
  const PKT_SIZE := CFG_PKT_SIZE - 4

  const HEADERS_LEN := 42

  function Be16(x: int): (r: seq<byte>)
    requires 0 <= x < 0x1_0000
    ensures |r| == 2
  {
    [x / 256, x % 256]
  }

  function EtherHeader(): (r: seq<byte>)
    ensures |r| == 14
  {
    CFG_ETHER_DST + CFG_ETHER_SRC + Be16(ETHER_TYPE_IPV4)
  }

  /** The UDP header, without a checksum. */
  function UdpHeader(): (r: seq<byte>)
    ensures |r| == 8
  {
    Be16(CFG_UDP_SRC) + Be16(CFG_UDP_DST) + Be16(PKT_SIZE - 34) + [0, 0]
  }

  /** What the port that sends adds to a packet. */
  datatype TxPort = TxPort(olFlags: int, vlanTci: int, vlanTciOuter: int)

  datatype Packet = Packet(data: seq<byte>, nbSegs: nat, pktLen: nat, port: TxPort, l2Len: nat, l3Len: nat)

  /** p is a packet of the given flow in a buffer that held raw: its headers, whatever was behind them, and matching
      lengths. */
  ghost predicate PacketFor(p: Packet, flow: nat, raw: seq<byte>, port: TxPort)
    requires flow < CFG_N_FLOWS && |raw| >= PKT_SIZE
  {
    && |p.data| == p.pktLen == PKT_SIZE && p.nbSegs == 1 && p.port == port && p.l2Len == 14 && p.l3Len == 20
    && HeaderFor(p.data[14..34], flow)
    && p.data == EtherHeader() + p.data[14..34] + UdpHeader() + raw[HEADERS_LEN..PKT_SIZE]
  }

  method FillPacket(flow: nat, raw: seq<byte>, port: TxPort, little: bool) returns (p: Packet)
    requires flow < CFG_N_FLOWS && |raw| >= PKT_SIZE
    ensures PacketFor(p, flow, raw, port)
  {
    var ether := CFG_ETHER_DST + CFG_ETHER_SRC + Be16(ETHER_TYPE_IPV4);
    var ip := FillHeader(flow, little);
    var udp := Be16(CFG_UDP_SRC) + Be16(CFG_UDP_DST) + Be16(PKT_SIZE - ETHER_HDR_LEN - 20) + [0, 0];
    var data := ether + ip + udp + raw[HEADERS_LEN..PKT_SIZE];
    assert data[14..34] == ip;
    p := Packet(data, 1, PKT_SIZE, port, ETHER_HDR_LEN, 20);
  }

  /** The packets are well formed for the dissector of the checksum engine: it finds a plain IPv4 packet with UDP inside
      and the header lengths recorded in the mbuf, and the length fields agree with the length of the packet. */
  lemma GeneratedIsPlainUdp(p: Packet, flow: nat, raw: seq<byte>, port: TxPort, info0: Tunnel.Info, parseTunnel: bool)
    requires flow < CFG_N_FLOWS && |raw| >= PKT_SIZE && PacketFor(p, flow, raw, port)
    ensures var r := Tunnel.Parse(p.data, parseTunnel, false, info0);
            && !r.isTunnel && r.ethertype == ETHER_TYPE_IPV4 && r.l2Len == p.l2Len && r.l3Len == p.l3Len
            && r.l4Proto == IPPROTO_UDP
    ensures Tunnel.Be16(p.data, 16) == |p.data| - p.l2Len
    ensures Tunnel.Be16(p.data, 38) == |p.data| - p.l2Len - p.l3Len
  {
    var eth, ip := EtherHeader(), p.data[14..34];
    var rest := UdpHeader() + raw[HEADERS_LEN..PKT_SIZE];
    assert p.data == eth + ip + rest;
    assert ip == Header(flow, ip[10], ip[11]);
    Tunnel.PlainRecovered(eth, ETHER_TYPE_IPV4, ip, IPPROTO_UDP, rest, info0, parseTunnel, false);
  }

  /** Where a packet goes. */
  function Destination(p: Packet): int
    requires |p.data| >= 34
  {
    Number(p.data[30..34])
  }

  /** A packet of a flow, byte by byte: the two Ethernet addresses and the type, the IPv4 header, UDP from port 1000 to
      port 1001 with length 262 and no checksum, and behind it what the buffer held. */
  lemma PacketBytes(p: Packet, flow: nat, raw: seq<byte>, port: TxPort)
    requires flow < CFG_N_FLOWS && |raw| >= PKT_SIZE && PacketFor(p, flow, raw, port)
    ensures |p.data| == 296 && p.data[..14] == [0, 1, 2, 3, 4, 1, 0, 1, 2, 3, 4, 0, 8, 0]
    ensures p.data[34..42] == [3, 232, 3, 233, 1, 6, 0, 0] && p.data[42..] == raw[42..296]
    ensures p.data[26..30] == [10, 254, 0, 0] && Destination(p) == 0x0AFD_0000 + flow
  {
    var h := p.data[14..34];
    HeaderBytes(h, flow);
    assert h[12..16] == p.data[26..30] && h[16..20] == p.data[30..34];
    assert EtherHeader() == [0, 1, 2, 3, 4, 1, 0, 1, 2, 3, 4, 0, 8, 0];
    assert UdpHeader() == [3, 232, 3, 233, 1, 6, 0, 0];
  }

  // ----- bursts

  /** What a burst meets: the buffers the pool yields before it runs dry, with what they last held, and how many packets
      the device takes. */
  datatype Luck = Luck(mbufs: seq<seq<byte>>, accepted: nat)

  predicate LongEnough(mbufs: seq<seq<byte>>) {
    forall i :: 0 <= i < |mbufs| ==> |mbufs[i]| >= PKT_SIZE
  }

  function SentCount(luck: Luck, nbPktPerBurst: nat): nat {
    Min(luck.accepted, Min(|luck.mbufs|, nbPktPerBurst))
  }

  /** The packets carry the flows from start on. */
  ghost predicate CarryFlows(packets: seq<Packet>, start: nat, mbufs: seq<seq<byte>>, port: TxPort) {
    && |packets| <= |mbufs| && LongEnough(mbufs)
    && forall i :: 0 <= i < |packets| ==> PacketFor(packets[i], FlowAt(start, i), mbufs[i], port)
  }

  lemma CarryStep(packets: seq<Packet>, p: Packet, start: nat, mbufs: seq<seq<byte>>, port: TxPort)
    requires CarryFlows(packets, start, mbufs, port) && |packets| < |mbufs|
    requires PacketFor(p, FlowAt(start, |packets|), mbufs[|packets|], port)
    ensures CarryFlows(packets + [p], start, mbufs, port)
  {
  }

  class Generator {
    var nextFlow: int

    ghost predicate Valid()
      reads this
    {
      0 <= nextFlow < CFG_N_FLOWS
    }

    constructor ()
      ensures Valid() && nextFlow == 0
    {
      nextFlow := 0;
    }

    /** One burst. The packets sent carry the next flows in turn, the others are freed, and the counter moves by exactly
        the packets sent. */
    method Burst(nbPktPerBurst: nat, luck: Luck, port: TxPort, little: bool)
      returns (sent: seq<Packet>, freed: seq<Packet>)
      requires Valid() && LongEnough(luck.mbufs)
      modifies this
      ensures Valid()
      ensures |sent| == SentCount(luck, nbPktPerBurst) && |sent| + |freed| == Min(|luck.mbufs|, nbPktPerBurst)
      ensures CarryFlows(sent + freed, old(nextFlow), luck.mbufs, port)
      ensures nextFlow == FlowAt(old(nextFlow), |sent|)
    {
      ghost var start := nextFlow;
      var pkts := MakePackets(nbPktPerBurst, luck.mbufs, port, little);
      var nbPkt := |pkts|;
      var nbTx := if luck.accepted < nbPkt then luck.accepted else nbPkt;
      if nbTx < nbPkt {
        nextFlow := BackOut(nextFlow, nbPkt - nbTx, start, nbTx);
      }
      sent, freed := pkts[..nbTx], pkts[nbTx..];
      assert sent + freed == pkts;
    }

    /** The loop that allocates and fills packets. */
    method MakePackets(nbPktPerBurst: nat, mbufs: seq<seq<byte>>, port: TxPort, little: bool)
      returns (pkts: seq<Packet>)
      requires Valid() && LongEnough(mbufs)
      modifies this
      ensures Valid() && |pkts| == Min(|mbufs|, nbPktPerBurst)
      ensures CarryFlows(pkts, old(nextFlow), mbufs, port) && nextFlow == FlowAt(old(nextFlow), |pkts|)
    {
      ghost var start := nextFlow;
      pkts := [];
      var nbPkt := 0;
      while nbPkt < nbPktPerBurst && nbPkt < |mbufs|
        invariant 0 <= nbPkt <= nbPktPerBurst && nbPkt <= |mbufs|
        invariant |pkts| == nbPkt && CarryFlows(pkts, start, mbufs, port)
        invariant nextFlow == FlowAt(start, nbPkt)
      {
        var p := FillPacket(nextFlow, mbufs[nbPkt], port, little);
        CarryStep(pkts, p, start, mbufs, port);
        FlowAtTwice(start, nbPkt, 1);
        pkts := pkts + [p];
        nbPkt := nbPkt + 1;
        nextFlow := (nextFlow + 1) % CFG_N_FLOWS;
      }
    }

    /** A burst that goes on where an earlier one left off. */
    method BurstAfter(nbPktPerBurst: nat, luck: Luck, port: TxPort, little: bool, ghost start: nat,
                      ghost sent: seq<Packet>)
      returns (now: seq<Packet>)
      requires Valid() && LongEnough(luck.mbufs) && nextFlow == FlowAt(start, |sent|) && InTurn(sent, start)
      modifies this
      ensures Valid() && |now| == SentCount(luck, nbPktPerBurst)
      ensures InTurn(sent + now, start) && nextFlow == FlowAt(start, |sent + now|)
    {
      ghost var before := nextFlow;
      var freed;
      now, freed := Burst(nbPktPerBurst, luck, port, little);
      RunGoesOn(start, sent, before, now, freed, luck.mbufs, port);
      FlowAtTwice(start, |sent|, |now|);
    }

    /** A run of bursts, whatever each of them meets: the packets sent cycle through the flows without a gap. */
    method Run(nbPktPerBurst: nat, lucks: seq<Luck>, port: TxPort, little: bool) returns (sent: seq<Packet>)
      requires Valid() && forall k :: 0 <= k < |lucks| ==> LongEnough(lucks[k].mbufs)
      modifies this
      ensures Valid()
      ensures |sent| == Total(SentCounts(lucks, nbPktPerBurst))
      ensures InTurn(sent, old(nextFlow)) && nextFlow == FlowAt(old(nextFlow), |sent|)
      ensures forall i :: 0 <= i < |sent| ==>
                |sent[i].data| == 296 && Destination(sent[i]) == 0x0AFD_0000 + (old(nextFlow) + i) % 1024
    {
      ghost var start := nextFlow;
      sent := [];
      FlowAtTwice(0, start, 0);
      for k := 0 to |lucks|
        invariant Valid() && nextFlow == FlowAt(start, |sent|)
        invariant |sent| == Total(SentCounts(lucks[..k], nbPktPerBurst))
        invariant InTurn(sent, start)
      {
        var now := BurstAfter(nbPktPerBurst, lucks[k], port, little, start, sent);
        TotalNext(lucks, k, nbPktPerBurst);
        sent := sent + now;
      }
      assert lucks[..|lucks|] == lucks;
      Destinations(sent, start);
    }
  }

  /** How many packets each burst of a run sends. */
  function SentCounts(lucks: seq<Luck>, nbPktPerBurst: nat): (r: seq<nat>)
    ensures |r| == |lucks| && forall k :: 0 <= k < |r| ==> r[k] == SentCount(lucks[k], nbPktPerBurst)
  {
    seq(|lucks|, k requires 0 <= k < |lucks| => SentCount(lucks[k], nbPktPerBurst))
  }

  lemma TotalNext(lucks: seq<Luck>, k: nat, nbPktPerBurst: nat)
    requires k < |lucks|
    ensures Total(SentCounts(lucks[..k + 1], nbPktPerBurst))
         == Total(SentCounts(lucks[..k], nbPktPerBurst)) + SentCount(lucks[k], nbPktPerBurst)
  {
    var n := SentCount(lucks[k], nbPktPerBurst);
    TotalAppend(SentCounts(lucks[..k], nbPktPerBurst), n);
    assert SentCounts(lucks[..k + 1], nbPktPerBurst) == SentCounts(lucks[..k], nbPktPerBurst) + [n];
  }

  /** The packets carry the flows from start on, one after the other. */
  ghost predicate InTurn(packets: seq<Packet>, start: nat) {
    forall i :: 0 <= i < |packets| ==> CarriesFlow(packets[i], FlowAt(start, i))
  }

  /** The destination address of a packet names the flow, and its IPv4 header verifies. */
  ghost predicate CarriesFlow(p: Packet, flow: nat)
    requires flow < CFG_N_FLOWS
  {
    |p.data| == PKT_SIZE && HeaderFor(p.data[14..34], flow) && Destination(p) == 0x0AFD_0000 + flow
  }

  lemma Destinations(packets: seq<Packet>, start: nat)
    requires InTurn(packets, start)
    ensures forall i :: 0 <= i < |packets| ==>
              |packets[i].data| == 296 && Destination(packets[i]) == 0x0AFD_0000 + (start + i) % 1024
  {
    forall i | 0 <= i < |packets|
      ensures |packets[i].data| == 296 && Destination(packets[i]) == 0x0AFD_0000 + (start + i) % 1024
    {
      assert CarriesFlow(packets[i], FlowAt(start, i));
    }
  }

  /** Two packets of a run have the same destination exactly when they are a multiple of 1024 packets apart, and every
      header verifies. */
  lemma SameDestinationIff(packets: seq<Packet>, start: nat, i: nat, j: nat)
    requires InTurn(packets, start) && i < j < |packets|
    ensures |packets[i].data| == |packets[j].data| == 296 && Verifies(NetWords(packets[i].data[14..34]))
    ensures Destination(packets[i]) == Destination(packets[j]) <==> (j - i) % 1024 == 0
  {
    assert CarriesFlow(packets[i], FlowAt(start, i)) && CarriesFlow(packets[j], FlowAt(start, j));
    Numbers.CongruentIff(start + j, start + i, 1024);
  }

  lemma RunGoesOn(start: nat, sent: seq<Packet>, before: nat, now: seq<Packet>, freed: seq<Packet>,
                  mbufs: seq<seq<byte>>, port: TxPort)
    requires before == FlowAt(start, |sent|) && CarryFlows(now + freed, before, mbufs, port)
    requires InTurn(sent, start)
    ensures InTurn(sent + now, start)
  {
    forall i | 0 <= i < |sent + now|
      ensures CarriesFlow((sent + now)[i], FlowAt(start, i))
    {
      if i >= |sent| {
        var j := i - |sent|;
        FlowAtTwice(start, |sent|, j);
        assert PacketFor((now + freed)[j], FlowAt(before, j), mbufs[j], port);
        assert (sent + now)[i] == (now + freed)[j];
        PacketBytes((now + freed)[j], FlowAt(before, j), mbufs[j], port);
      }
    }
  }

  /** Backing the counter out by the packets that were not sent. */
  method BackOut(nextFlow: int, back: nat, ghost start: nat, ghost n: nat) returns (r: int)
    requires nextFlow == FlowAt(start, n + back)
    ensures r == FlowAt(start, n)
  {
    r := nextFlow - back;
    ghost var k := (start + n + back) / CFG_N_FLOWS;
    while r < 0
      invariant r < CFG_N_FLOWS && start + n == r + CFG_N_FLOWS * k
    {
      r := r + CFG_N_FLOWS;
      k := k - 1;
    }
  }

  /** The flows sent by a run of bursts, given how many packets each burst sent. */
  function RunFlows(start: nat, counts: seq<nat>): seq<nat>
    decreases counts
  {
    if counts == [] then []
    else Flows(start, counts[0]) + RunFlows(FlowAt(start, counts[0]), counts[1..])
  }

  function Total(counts: seq<nat>): nat {
    if counts == [] then 0 else counts[0] + Total(counts[1..])
  }

  lemma {:induction false} TotalAppend(counts: seq<nat>, n: nat)
    ensures Total(counts + [n]) == Total(counts) + n
  {
    if counts == [] {
      assert [] + [n] == [n];
      assert [n][1..] == [];
    } else {
      TotalAppend(counts[1..], n);
      assert (counts + [n])[1..] == counts[1..] + [n];
    }
  }

  /** Over any run, whatever was lost on the way, the packets sent cycle through the flows without a gap. */
  lemma {:induction false} RunIsSeamless(start: nat, counts: seq<nat>)
    ensures RunFlows(start, counts) == Flows(start, Total(counts))
    decreases counts
  {
    if counts != [] {
      RunIsSeamless(FlowAt(start, counts[0]), counts[1..]);
      FlowsSplit(start, counts[0], Total(counts[1..]));
    }
  }

  lemma FlowsSplit(start: nat, a: nat, b: nat)
    ensures Flows(start, a) + Flows(FlowAt(start, a), b) == Flows(start, a + b)
  {
    var s, t, u := Flows(start, a), Flows(FlowAt(start, a), b), Flows(start, a + b);
    forall i | 0 <= i < a + b
      ensures (s + t)[i] == u[i]
    {
      if i >= a {
        FlowAtTwice(start, a, i - a);
        assert (s + t)[i] == t[i - a];
      }
    }
  }

  lemma FlowAtTwice(start: nat, a: nat, i: nat)
    ensures FlowAt(FlowAt(start, a), i) == FlowAt(start, a + i)
  {
  }
}
