/** test-pmd/icmpecho.c: turning ICMP echo requests, with an incrementally updated checksum (equation 3 in section 3 of
    RFC 1624), and ARP requests into their replies in place, and sending back those of a burst. */
module IcmpEcho {
  import opened Types
  import opened Headers
  import opened Checksum

  const ECHO_REQUEST := 8
  const ECHO_REPLY := 0
  const ARP_HRD_ETHER := 1
  const ARP_OP_REQUEST := 1
  const ARP_OP_REPLY := 2
  const ARP_LEN := 28

  /** p with the bytes at off overwritten by src. */
  function Replace(p: seq<byte>, off: nat, src: seq<byte>): (r: seq<byte>)
    requires off + |src| <= |p|
    ensures |r| == |p|
    ensures forall i :: 0 <= i < |p| ==> r[i] == if off <= i < off + |src| then src[i - off] else p[i]
  {
    p[..off] + src + p[off + |src|..]
  }

  lemma NestedReplace(p: seq<byte>, n: nat, q: seq<byte>, off: nat, src: seq<byte>)
    requires n + |q| <= |p| && off + |src| <= |q|
    ensures Replace(Replace(p, n, q), n + off, src) == Replace(p, n, Replace(q, off, src))
  {
  }

  lemma ReplaceSame(p: seq<byte>, n: nat, k: nat)
    requires n + k <= |p|
    ensures Replace(p, n, p[n..n + k]) == p
  {
  }

  lemma ReplacedPart(p: seq<byte>, n: nat, q: seq<byte>)
    requires n + |q| <= |p|
    ensures Replace(p, n, q)[n..n + |q|] == q
  {
  }

  // ----- the ICMP message

  function Htons(w: word, little: bool): word {
    if little then Swap(w) else w
  }

  /** The incremental update, on the checksum as the host loads it. */
  function UpdatedChecksum(c: word, little: bool): word {
    var t: int := (0xFFFF - c) + (0xFFFF - Htons(0x0800, little)) + Htons(0, little);
    var u := Fold(Fold(t));
    (0xFFFF - u) % 65536
  }

  function IcmpReply(m: seq<byte>, little: bool): (r: seq<byte>)
    requires |m| >= 8
    ensures |r| == |m|
  {
    var c := UpdatedChecksum(Load(m[2], m[3], little), little);
    Replace(Replace(m, 0, [ECHO_REPLY]), 2, [StoreFirst(c, little), StoreSecond(c, little)])
  }

  lemma FoldTwice(t: nat)
    requires t < 0x1FFFE
    ensures Fold(Fold(t)) == if t > 0xFFFF then t - 0xFFFF else t
  {
    assert Fold(t) == if t > 0xFFFF then t - 0xFFFF else t;
  }

  lemma RequestWord(little: bool)
    ensures Htons(0x0800, little) == (if little then 8 else 0x0800) && Htons(0, little) == 0
  {
    assert Swap(0x0800) == 8 && Swap(0) == 0;
  }

  lemma UpdateAlgebra(c: word, little: bool)
    ensures var req := Htons(0x0800, little);
            UpdatedChecksum(c, little) == if c + req < 0xFFFF then c + req else c + req - 0xFFFF
  {
    RequestWord(little);
    var req: int := Htons(0x0800, little);
    FoldTwice(0x1FFFE - c - req);
  }

  /** What the update does to the sum of the message: nothing, or one multiple of 0xFFFF less. */
  lemma UpdateKeepsSum(c: word, s: nat, little: bool)
    requires Norm(Htons(0x0800, little) as int + c as int + s) == 0xFFFF
    ensures Norm(UpdatedChecksum(c, little) as int + s) == 0xFFFF <==> s > 0
  {
    var req: int := Htons(0x0800, little);
    RequestWord(little);
    var c': int := UpdatedChecksum(c, little);
    UpdateAlgebra(c, little);
    var k := NormQuotient(req + c + s);
    if c + req < 0xFFFF {
      assert c' + s == req + c + s;
    } else if c' + s > 0 {
      NormUnique(c' + s, 0xFFFF, k - 1);
    }
  }

  lemma SumFirstTwo(x: word, y: word, rest: seq<word>)
    ensures Sum([x, y] + rest) == x as int + y as int + Sum(rest)
  {
    SumSplit([x, y], rest);
    SumThree([], 0, x, y);
    SumSplit([0], [x, y]);
    SumOne(0);
    assert [] + [0, x, y] == [0] + [x, y];
  }

  lemma WordsFour(m: seq<byte>, little: bool)
    requires |m| >= 4
    ensures Words(m, little) == [Load(m[0], m[1], little), Load(m[2], m[3], little)] + Words(m[4..], little)
  {
    assert m[2..][2..] == m[4..];
  }

  predicate AnyNonZero(b: seq<byte>) {
    exists i :: 0 <= i < |b| && b[i] != 0
  }

  lemma AnyNonZeroSplit(b: seq<byte>)
    requires |b| >= 2
    ensures AnyNonZero(b) <==> b[0] != 0 || b[1] != 0 || AnyNonZero(b[2..])
  {
    if i :| 0 <= i < |b| && b[i] != 0 {
      if i >= 2 {
        assert b[2..][i - 2] != 0;
      }
    }
    if i :| 0 <= i < |b[2..]| && b[2..][i] != 0 {
      assert b[i + 2] != 0;
    }
  }

  lemma {:induction false} WordsZero(m: seq<byte>, little: bool)
    ensures Sum(Words(m, little)) > 0 <==> AnyNonZero(m)
    decreases |m|
  {
    if |m| == 1 {
      SumOne(Load(m[0], 0, little));
    } else if |m| >= 2 {
      var w, rest := Load(m[0], m[1], little), Words(m[2..], little);
      SumSplit([w], rest);
      SumOne(w);
      WordsZero(m[2..], little);
      AnyNonZeroSplit(m);
    }
  }

  lemma SumOfMessage(m: seq<byte>, little: bool)
    requires |m| >= 4
    ensures Sum(Words(m, little)) == Load(m[0], m[1], little) as int + Load(m[2], m[3], little) as int
            + Sum(Words(m[4..], little))
  {
    WordsFour(m, little);
    SumFirstTwo(Load(m[0], m[1], little), Load(m[2], m[3], little), Words(m[4..], little));
  }

  lemma SumOfReply(m: seq<byte>, little: bool)
    requires |m| >= 8 && m[1] == 0
    ensures Sum(Words(IcmpReply(m, little), little))
         == UpdatedChecksum(Load(m[2], m[3], little), little) as int + Sum(Words(m[4..], little))
  {
    var r := IcmpReply(m, little);
    SumOfMessage(r, little);
    assert r[4..] == m[4..];
    StoreLoad(UpdatedChecksum(Load(m[2], m[3], little), little), little);
  }

  /** The reply to a request with a valid checksum, of any length, has a valid checksum exactly when some byte of
      the identifier, sequence number or payload is not zero. */
  lemma ReplyVerifiesIff(m: seq<byte>, little: bool)
    requires |m| >= 8 && m[0] == ECHO_REQUEST && m[1] == 0 && Verifies(NetWords(m))
    ensures Verifies(NetWords(IcmpReply(m, little))) <==> AnyNonZero(m[4..])
  {
    var r := IcmpReply(m, little);
    VerifiesInAnyOrder(m, little);
    VerifiesInAnyOrder(r, little);
    SumOfMessage(m, little);
    SumOfReply(m, little);
    OnesSumIsNorm(Words(m, little));
    OnesSumIsNorm(Words(r, little));
    UpdateKeepsSum(Load(m[2], m[3], little), Sum(Words(m[4..], little)), little);
    WordsZero(m[4..], little);
  }

  lemma StoreLoad(w: word, little: bool)
    ensures Load(StoreFirst(w, little), StoreSecond(w, little), little) == w
  {
  }

  /** The excluded case does occur: an all-zero request of eight bytes verifies, its reply does not. */
  lemma ZeroRequestFails(little: bool)
    ensures var m := [ECHO_REQUEST, 0, 0xF7, 0xFF, 0, 0, 0, 0];
            Verifies(NetWords(m)) && !Verifies(NetWords(IcmpReply(m, little)))
  {
    var m: seq<byte> := [ECHO_REQUEST, 0, 0xF7, 0xFF, 0, 0, 0, 0];
    WordsFour(m, false);
    WordsZero(m[4..], false);
    assert m[4..] == [0, 0, 0, 0];
    SumFirstTwo(0x0800, 0xF7FF, Words(m[4..], false));
    OnesSumIsNorm(NetWords(m));
    ReplyVerifiesIff(m, little);
  }

  // ----- the IPv4 header

  /** The last byte of the source address chosen for a reply to a multicast request. */
  function ChosenSource(b: byte): byte {
    b / 4 * 4 + if b % 4 == 1 then 2 else 1
  }

  function WithChecksum(ip: seq<byte>, little: bool): (r: seq<byte>)
    requires |ip| == 20
    ensures |r| == 20
  {
    var sum := OnesSum(WithoutChecksum(Words(ip, little)));
    var c := if sum == 0xFFFF then 0xFFFF else 0xFFFF - sum;
    Replace(ip, 10, [StoreFirst(c, little), StoreSecond(c, little)])
  }

  function IpReply(ip: seq<byte>, little: bool): (r: seq<byte>)
    requires |ip| == 20
    ensures |r| == 20
  {
    if ip[16] == 0xE0 then
      var from := Replace(ip, 12, ip[12..15] + [ChosenSource(ip[15])]);
      WithChecksum(Replace(from, 16, ip[12..16]), little)
    else
      Replace(Replace(ip, 12, ip[16..20]), 16, ip[12..16])
  }

  lemma {:induction false} WordsSplit(a: seq<byte>, b: seq<byte>, little: bool)
    requires |a| % 2 == 0
    ensures Words(a + b, little) == Words(a, little) + Words(b, little)
    decreases |a|
  {
    if a == [] {
      assert a + b == b;
    } else {
      WordsSplit(a[2..], b, little);
      assert (a + b)[2..] == a[2..] + b;
      var w := [Load(a[0], a[1], little)];
      assert Words(a + b, little) == w + Words(a[2..] + b, little);
      assert Words(a, little) == w + Words(a[2..], little);
      assert w + (Words(a[2..], little) + Words(b, little)) == (w + Words(a[2..], little)) + Words(b, little);
    }
  }

  /** A header is its first five words, the checksum word and its last four. */
  lemma HeaderWords(ip: seq<byte>, little: bool)
    requires |ip| == 20
    ensures Words(ip, little) == Words(ip[..10], little) + [Load(ip[10], ip[11], little)] + Words(ip[12..], little)
  {
    WordsSplit(ip[..10], ip[10..], little);
    assert ip == ip[..10] + ip[10..];
    assert ip[10..][2..] == ip[12..];
  }

  lemma WithChecksumVerifies(ip: seq<byte>, little: bool)
    requires |ip| == 20
    ensures Verifies(NetWords(WithChecksum(ip, little)))
  {
    var sum := OnesSum(WithoutChecksum(Words(ip, little)));
    var c: word := if sum == 0xFFFF then 0xFFFF else 0xFFFF - sum;
    var s, t := Words(ip[..10], little), Words(ip[12..], little);
    HeaderWords(ip, little);
    assert WithoutChecksum(Words(ip, little)) == s + t;
    StoredWords(ip, c, little);
    ComplementVerifies(s, t, c);
    VerifiesInAnyOrder(WithChecksum(ip, little), little);
  }

  lemma StoredWords(ip: seq<byte>, c: word, little: bool)
    requires |ip| == 20
    ensures Words(Replace(ip, 10, [StoreFirst(c, little), StoreSecond(c, little)]), little)
         == Words(ip[..10], little) + [c] + Words(ip[12..], little)
  {
    var r := Replace(ip, 10, [StoreFirst(c, little), StoreSecond(c, little)]);
    HeaderWords(r, little);
    assert r[..10] == ip[..10] && r[12..] == ip[12..];
    StoreLoad(c, little);
  }

  /** Swapping the addresses keeps a valid header valid; the multicast path recomputes a valid one from any header. */
  lemma IpReplyVerifies(ip: seq<byte>, little: bool)
    requires |ip| == 20 && (ip[16] == 0xE0 || Verifies(NetWords(ip)))
    ensures Verifies(NetWords(IpReply(ip, little)))
  {
    if ip[16] == 0xE0 {
      var from := Replace(ip, 12, ip[12..15] + [ChosenSource(ip[15])]);
      WithChecksumVerifies(Replace(from, 16, ip[12..16]), little);
    } else {
      var r := IpReply(ip, little);
      SumOfParts(ip[..12], ip[12..16], ip[16..20]);
      SumOfParts(ip[..12], ip[16..20], ip[12..16]);
      assert ip == ip[..12] + ip[12..16] + ip[16..20];
      assert r == ip[..12] + ip[16..20] + ip[12..16];
      OnesSumIsNorm(NetWords(ip));
      OnesSumIsNorm(NetWords(r));
    }
  }

  lemma SumOfParts(a: seq<byte>, b: seq<byte>, c: seq<byte>)
    requires |a| % 2 == 0 && |b| % 2 == 0
    ensures Sum(NetWords(a + b + c)) == Sum(NetWords(a)) + Sum(NetWords(b)) + Sum(NetWords(c))
  {
    WordsSplit(a + b, c, false);
    WordsSplit(a, b, false);
    SumSplit(NetWords(a) + NetWords(b), NetWords(c));
    SumSplit(NetWords(a), NetWords(b));
  }

  /** The reply goes back to the requester, and never from the requester's own address on the multicast path. */
  lemma IpReplyAddresses(ip: seq<byte>, little: bool)
    requires |ip| == 20
    ensures IpReply(ip, little)[16..20] == ip[12..16]
    ensures ip[16] != 0xE0 ==> IpReply(ip, little)[12..16] == ip[16..20]
    ensures ip[16] == 0xE0 ==> IpReply(ip, little)[12..16] != ip[12..16]
    ensures ip[16] == 0xE0 ==> IpReply(ip, little)[12..15] == ip[12..15]
  {
    var r := IpReply(ip, little);
    if ip[16] == 0xE0 {
      assert r[15] == ChosenSource(ip[15]) != ip[15];
      assert r[12..16][3] == r[15] && ip[12..16][3] == ip[15];
    }
  }

  // ----- the packet

  datatype Action = Reply | Drop | Arp

  /** The length of the Ethernet header, with one optional VLAN tag. */
  function L2Len(p: seq<byte>): nat
    requires |p| >= 46
  {
    if Load(p[12], p[13], false) == ETHER_TYPE_VLAN then ETHER_HDR_LEN + VLAN_HDR_LEN else ETHER_HDR_LEN
  }

  function EtherType(p: seq<byte>): word
    requires |p| >= 46
  {
    var n := L2Len(p); Load(p[n - 2], p[n - 1], false)
  }

  /** a is an ARP request for an IPv4 address on Ethernet. */
  predicate IsArpRequest(a: seq<byte>)
    requires |a| == ARP_LEN
  {
    && Load(a[0], a[1], false) == ARP_HRD_ETHER && Load(a[2], a[3], false) == ETHER_TYPE_IPV4 && a[4] == 6 && a[5] == 4
    && Load(a[6], a[7], false) == ARP_OP_REQUEST
  }

  /** What the loop body does with a packet. */
  function Classify(p: seq<byte>): Action
    requires |p| >= 46
  {
    var n := L2Len(p);
    if EtherType(p) == ETHER_TYPE_ARP then
      if IsArpRequest(p[n..n + ARP_LEN]) then Arp else Drop
    else if EtherType(p) != ETHER_TYPE_IPV4 then Drop
    else if p[n + 9] == IPPROTO_ICMP && p[n + 20] == ECHO_REQUEST && p[n + 21] == 0 then Reply
    else Drop
  }

  /** The type field at o, and behind a VLAN tag. */
  function TypeAt(p: seq<byte>, o: nat): int
    requires o + 1 < |p|
  {
    256 * p[o] as int + p[o + 1] as int
  }

  /** p holds an echo request behind an Ethernet header of n bytes: protocol 1, type 8, code 0. */
  predicate EchoBytes(p: seq<byte>, n: nat)
    requires 2 <= n && n + 22 <= |p|
  {
    TypeAt(p, n - 2) == 0x0800 && p[n + 9] == 1 && p[n + 20] == 8 && p[n + 21] == 0
  }

  /** p holds an ARP request there: hardware type 1, protocol type 0x0800, address lengths 6 and 4, operation 1. */
  predicate ArpBytes(p: seq<byte>, n: nat)
    requires 2 <= n && n + 8 <= |p|
  {
    TypeAt(p, n - 2) == 0x0806 && p[n..n + 8] == [0, 1, 8, 0, 6, 4, 0, 1]
  }

  /** Which packets are answered, byte by byte, with and without a VLAN tag; all others are dropped. */
  lemma AnsweredIff(p: seq<byte>)
    requires |p| >= 46
    ensures TypeAt(p, 12) != 0x8100 ==>
              (Classify(p) == Reply <==> EchoBytes(p, 14)) && (Classify(p) == Arp <==> ArpBytes(p, 14))
    ensures TypeAt(p, 12) == 0x8100 ==>
              (Classify(p) == Reply <==> EchoBytes(p, 18)) && (Classify(p) == Arp <==> ArpBytes(p, 18))
  {
    var n := L2Len(p);
    ArpBytesIff(p[n..n + ARP_LEN]);
    SliceAt(p, n, ARP_LEN, 0, 8);
    assert p[n..n + ARP_LEN][0..8] == p[n..n + ARP_LEN][..8];
  }

  lemma ArpBytesIff(a: seq<byte>)
    requires |a| == ARP_LEN
    ensures IsArpRequest(a) <==> a[..8] == [0, 1, 8, 0, 6, 4, 0, 1]
  {
    var b := a[..8];
    assert b == [b[0], b[1], b[2], b[3], b[4], b[5], b[6], b[7]];
    assert forall i :: 0 <= i < 8 ==> b[i] == a[i];
  }

  /** The ARP reply: the asked address is at mac, told to the one who asked. */
  function ArpReply(a: seq<byte>, mac: seq<byte>): (r: seq<byte>)
    requires |a| == ARP_LEN && |mac| == 6
    ensures |r| == ARP_LEN
  {
    a[..6] + [0, ARP_OP_REPLY] + mac + a[24..28] + a[8..14] + a[14..18]
  }

  /** The whole frame of it, sent from mac to where the request came from. */
  function ArpAnswer(p: seq<byte>, mac: seq<byte>): (r: seq<byte>)
    requires |p| >= 46 && |mac| == 6
    ensures |r| == |p|
  {
    var n := L2Len(p);
    p[6..12] + mac + p[12..n] + ArpReply(p[n..n + ARP_LEN], mac) + p[n + ARP_LEN..]
  }

  /** What becomes of a packet. */
  function Answer(p: seq<byte>, mac: seq<byte>, little: bool): (r: seq<byte>)
    requires |p| >= 46 && |mac| == 6
  {
    match Classify(p)
    case Reply => EchoReply(p, little)
    case Arp => ArpAnswer(p, mac)
    case Drop => p
  }

  function MacSwapped(p: seq<byte>): (r: seq<byte>)
    requires |p| >= 12
    ensures |r| == |p|
  {
    Replace(Replace(p, 6, p[..6]), 0, p[6..12])
  }

  /** The reply packet. */
  function EchoReply(p: seq<byte>, little: bool): (r: seq<byte>)
    requires |p| >= 46
    ensures |r| == |p|
  {
    var n := L2Len(p);
    Replace(Replace(MacSwapped(p), n, IpReply(p[n..n + 20], little)), n + 20, IcmpReply(p[n + 20..], little))
  }

  lemma MacSwappedParts(p: seq<byte>, n: nat)
    requires 12 <= n <= |p|
    ensures var r := MacSwapped(p); r[..6] == p[6..12] && r[6..12] == p[..6] && r[12..n] == p[12..n]
  {
  }

  lemma TwoParts(q: seq<byte>, n: nat, x: seq<byte>, y: seq<byte>)
    requires n + |x| + |y| == |q|
    ensures var r := Replace(Replace(q, n, x), n + |x|, y);
            r[..n] == q[..n] && r[n..n + |x|] == x && r[n + |x|..] == y
  {
  }

  /** MAC addresses exchanged, IPv4 header and ICMP message rewritten, nothing else touched. */
  lemma EchoReplyParts(p: seq<byte>, little: bool)
    requires |p| >= 46
    ensures var r, n := EchoReply(p, little), L2Len(p);
            && r[..n] == p[6..12] + p[..6] + p[12..n]
            && r[n..n + 20] == IpReply(p[n..n + 20], little)
            && r[n + 20..] == IcmpReply(p[n + 20..], little)
  {
    var n := L2Len(p);
    var q := MacSwapped(p);
    MacSwappedParts(p, n);
    TwoParts(q, n, IpReply(p[n..n + 20], little), IcmpReply(p[n + 20..], little));
    HeadSplit(q, n);
  }

  /** The reply goes back to where the frame came from. */
  lemma EchoReplyEther(p: seq<byte>, little: bool)
    requires |p| >= 46
    ensures var r, n := EchoReply(p, little), L2Len(p);
            r[0..6] == p[6..12] && r[6..12] == p[0..6] && r[12..n] == p[12..n]
  {
    var r, n := EchoReply(p, little), L2Len(p);
    EchoReplyParts(p, little);
    assert r[..n][0..6] == r[0..6] && r[..n][6..12] == r[6..12] && r[..n][12..n] == r[12..n];
  }

  /** And to where the packet came from; of the rest of the IPv4 header only the checksum and, on the multicast path,
      the last two bits of the source address are new. */
  lemma EchoReplyIp(p: seq<byte>, little: bool)
    requires |p| >= 46
    ensures var r, n := EchoReply(p, little), L2Len(p);
            && r[n..n + 10] == p[n..n + 10] && r[n + 16..n + 20] == p[n + 12..n + 16]
            && (p[n + 16] != 224 ==> r[n + 10..n + 12] == p[n + 10..n + 12] && r[n + 12..n + 16] == p[n + 16..n + 20])
            && (p[n + 16] == 224 ==> r[n + 12..n + 15] == p[n + 12..n + 15] && r[n + 15] / 4 == p[n + 15] / 4
                                     && r[n + 15] % 4 == if p[n + 15] % 4 == 1 then 2 else 1)
  {
    var r, n := EchoReply(p, little), L2Len(p);
    EchoReplyParts(p, little);
    ReplyHeader(p[n..n + 20], little);
    HeaderFields(p, n);
    HeaderFields(r, n);
  }

  /** The type of the ICMP message is 0; its code and all behind its checksum are kept. */
  lemma EchoReplyMessage(p: seq<byte>, little: bool)
    requires |p| >= 46
    ensures var r, n := EchoReply(p, little), L2Len(p);
            r[n + 20] == 0 && r[n + 21] == p[n + 21] && r[n + 24..] == p[n + 24..]
  {
    var r, n := EchoReply(p, little), L2Len(p);
    EchoReplyParts(p, little);
    MessageKept(p[n + 20..], little);
    var m, m' := p[n + 20..], r[n + 20..];
    assert m[4..] == p[n + 24..] && m'[4..] == r[n + 24..];
    assert m'[0] == r[n + 20] && m'[1] == r[n + 21] && m[1] == p[n + 21];
  }

  lemma SliceAt(p: seq<byte>, n: nat, len: nat, a: nat, b: nat)
    requires n + len <= |p| && a <= b <= len
    ensures p[n..n + len][a..b] == p[n + a..n + b]
  {
    var s, t := p[n..n + len][a..b], p[n + a..n + b];
    forall i | 0 <= i < b - a
      ensures s[i] == t[i]
    {
      assert p[n..n + len][a + i] == p[n + a + i];
    }
  }

  lemma HeaderFields(p: seq<byte>, n: nat)
    requires n + 20 <= |p|
    ensures var h := p[n..n + 20];
            && h[0..10] == p[n..n + 10] && h[10..12] == p[n + 10..n + 12] && h[12..16] == p[n + 12..n + 16]
            && h[16..20] == p[n + 16..n + 20] && h[12..15] == p[n + 12..n + 15] && h[15] == p[n + 15]
            && h[16] == p[n + 16]
  {
    SliceAt(p, n, 20, 0, 10);
    SliceAt(p, n, 20, 10, 12);
    SliceAt(p, n, 20, 12, 16);
    SliceAt(p, n, 20, 16, 20);
    SliceAt(p, n, 20, 12, 15);
  }

  lemma ReplyHeader(ip: seq<byte>, little: bool)
    requires |ip| == 20
    ensures var r := IpReply(ip, little);
            && r[0..10] == ip[0..10] && r[16..20] == ip[12..16]
            && (ip[16] != 224 ==> r[10..12] == ip[10..12] && r[12..16] == ip[16..20])
            && (ip[16] == 224 ==> r[12..15] == ip[12..15] && r[15] / 4 == ip[15] / 4
                                  && r[15] % 4 == if ip[15] % 4 == 1 then 2 else 1)
  {
    if ip[16] == 224 {
      var from := Replace(ip, 12, ip[12..15] + [ChosenSource(ip[15])]);
      ChecksumOnly(Replace(from, 16, ip[12..16]), little);
    }
  }

  lemma ChecksumOnly(ip: seq<byte>, little: bool)
    requires |ip| == 20
    ensures var r := WithChecksum(ip, little);
            r[0..10] == ip[0..10] && r[12..15] == ip[12..15] && r[15] == ip[15] && r[16..20] == ip[16..20]
  {
  }

  lemma MessageKept(m: seq<byte>, little: bool)
    requires |m| >= 8
    ensures var r := IcmpReply(m, little); r[0] == 0 && r[1] == m[1] && r[4..] == m[4..]
  {
  }

  lemma HeadSplit(q: seq<byte>, n: nat)
    requires 12 <= n <= |q|
    ensures q[..n] == q[..6] + q[6..12] + q[12..n]
  {
  }

  /** A store of several bytes. */
  method Store(pkt: array<byte>, off: nat, src: seq<byte>)
    requires off + |src| <= pkt.Length
    modifies pkt
    ensures pkt[..] == Replace(old(pkt[..]), off, src)
  {
    forall i | off <= i < off + |src| {
      pkt[i] := src[i - off];
    }
  }

  method SwapEtherAddresses(pkt: array<byte>)
    requires pkt.Length >= 12
    modifies pkt
    ensures pkt[..] == MacSwapped(old(pkt[..]))
  {
    var ethAddr := pkt[..][6..12];
    Store(pkt, 6, pkt[..][..6]);
    Store(pkt, 0, ethAddr);
  }

  /** Overwrite part of the header that starts at n, of which q is the current value. */
  method StoreInHeader(pkt: array<byte>, n: nat, off: nat, src: seq<byte>, ghost p: seq<byte>, ghost q: seq<byte>)
    requires n + |q| <= |p| == pkt.Length && off + |src| <= |q| && pkt[..] == Replace(p, n, q)
    modifies pkt
    ensures pkt[..] == Replace(p, n, Replace(q, off, src))
  {
    NestedReplace(p, n, q, off, src);
    Store(pkt, n + off, src);
  }

  method RewriteIp(pkt: array<byte>, n: nat, little: bool)
    requires n + 20 <= pkt.Length
    modifies pkt
    ensures pkt[..] == Replace(old(pkt[..]), n, IpReply(old(pkt[..])[n..n + 20], little))
  {
    ReplaceSame(pkt[..], n, 20);
    if pkt[n + 16] == 0xE0 {
      AnswerMulticast(pkt, n, little);
    } else {
      SwapIpAddresses(pkt, n);
    }
  }

  method SwapIpAddresses(pkt: array<byte>, n: nat)
    requires n + 20 <= pkt.Length
    modifies pkt
    ensures var ip := old(pkt[..])[n..n + 20];
            pkt[..] == Replace(old(pkt[..]), n, Replace(Replace(ip, 12, ip[16..20]), 16, ip[12..16]))
  {
    ghost var p := pkt[..];
    var ip := pkt[..][n..n + 20];
    ReplaceSame(p, n, 20);
    StoreInHeader(pkt, n, 12, ip[16..20], p, ip);
    StoreInHeader(pkt, n, 16, ip[12..16], p, Replace(ip, 12, ip[16..20]));
  }

  method AnswerMulticast(pkt: array<byte>, n: nat, little: bool)
    requires n + 20 <= pkt.Length
    modifies pkt
    ensures var ip := old(pkt[..])[n..n + 20];
            var from := Replace(ip, 12, ip[12..15] + [ChosenSource(ip[15])]);
            pkt[..] == Replace(old(pkt[..]), n, WithChecksum(Replace(from, 16, ip[12..16]), little))
  {
    ghost var p := pkt[..];
    var ip := pkt[..][n..n + 20];
    ReplaceSame(p, n, 20);
    var last: byte := if ip[15] % 4 == 1 then ip[15] / 4 * 4 + 2 else ip[15] / 4 * 4 + 1;
    ghost var from := Replace(ip, 12, ip[12..15] + [last]);
    StoreInHeader(pkt, n, 12, ip[12..15] + [last], p, ip);
    StoreInHeader(pkt, n, 16, ip[12..16], p, from);
    RefreshChecksum(pkt, n, little, p, Replace(from, 16, ip[12..16]));
  }

  method RefreshChecksum(pkt: array<byte>, n: nat, little: bool, ghost p: seq<byte>, ghost q: seq<byte>)
    requires |q| == 20 && n + 20 <= |p| == pkt.Length && pkt[..] == Replace(p, n, q)
    modifies pkt
    ensures pkt[..] == Replace(p, n, WithChecksum(q, little))
  {
    ReplacedPart(p, n, q);
    var c := HeaderChecksum(Words(pkt[..][n..n + 20], little));
    StoreInHeader(pkt, n, 10, [StoreFirst(c, little), StoreSecond(c, little)], p, q);
  }

  method RewriteIcmp(pkt: array<byte>, n: nat, little: bool)
    requires n + 8 <= pkt.Length
    modifies pkt
    ensures pkt[..] == Replace(old(pkt[..]), n, IcmpReply(old(pkt[..])[n..], little))
  {
    ghost var p, m := pkt[..], pkt[..][n..];
    ReplaceSame(p, n, |m|);
    var cksum := Load(pkt[n + 2], pkt[n + 3], little);
    StoreInHeader(pkt, n, 0, [ECHO_REPLY], p, m);
    var c := UpdateChecksum(cksum, little);
    StoreInHeader(pkt, n, 2, [StoreFirst(c, little), StoreSecond(c, little)], p, Replace(m, 0, [ECHO_REPLY]));
  }

  method UpdateChecksum(icmpCksum: word, little: bool) returns (c: word)
    ensures c == UpdatedChecksum(icmpCksum, little)
  {
    var cksum: int := 0xFFFF - icmpCksum;
    cksum := cksum + (0xFFFF - Htons(0x0800, little));
    cksum := cksum + Htons(0, little);
    cksum := Fold(cksum);
    cksum := Fold(cksum);
    c := (0xFFFF - cksum) % 65536;
  }

  /** The Ethernet header of an ARP answer: back to the source, from mac. */
  method AnswerEther(pkt: array<byte>, mac: seq<byte>, ghost n: nat)
    requires 12 <= n <= pkt.Length && |mac| == 6
    modifies pkt
    ensures var p := old(pkt[..]); pkt[..] == p[6..12] + mac + p[12..n] + p[n..]
  {
    EtherStores(pkt[..], mac, n);
    Store(pkt, 0, pkt[..][6..12]);
    Store(pkt, 6, mac);
  }

  lemma EtherStores(p: seq<byte>, mac: seq<byte>, n: nat)
    requires 12 <= n <= |p| && |mac| == 6
    ensures Replace(Replace(p, 0, p[6..12]), 6, mac) == p[6..12] + mac + p[12..n] + p[n..]
  {
  }

  /** The ARP packet at n, of which a is the value. */
  method RewriteArp(pkt: array<byte>, n: nat, mac: seq<byte>)
    requires n + ARP_LEN <= pkt.Length && |mac| == 6
    modifies pkt
    ensures pkt[..] == Replace(old(pkt[..]), n, ArpReply(old(pkt[..])[n..n + ARP_LEN], mac))
  {
    ghost var p := pkt[..];
    var a := pkt[..][n..n + ARP_LEN];
    ReplaceSame(p, n, ARP_LEN);
    StoreInHeader(pkt, n, 6, [0, ARP_OP_REPLY], p, a);
    ghost var b := Replace(a, 6, [0, ARP_OP_REPLY]);
    StoreInHeader(pkt, n, 18, a[8..14], p, b);
    ghost var c := Replace(b, 18, a[8..14]);
    StoreInHeader(pkt, n, 8, mac, p, c);
    ghost var d := Replace(c, 8, mac);
    StoreInHeader(pkt, n, 14, a[24..28], p, d);
    ghost var e := Replace(d, 14, a[24..28]);
    StoreInHeader(pkt, n, 24, a[14..18], p, e);
    ArpStores(a, mac);
  }

  lemma ArpStores(a: seq<byte>, mac: seq<byte>)
    requires |a| == ARP_LEN && |mac| == 6
    ensures var b := Replace(Replace(Replace(a, 6, [0, ARP_OP_REPLY]), 18, a[8..14]), 8, mac);
            Replace(Replace(b, 14, a[24..28]), 24, a[14..18]) == ArpReply(a, mac)
  {
  }

  method AnswerArp(pkt: array<byte>, n: nat, mac: seq<byte>)
    requires pkt.Length >= 46 && |mac| == 6 && n == L2Len(pkt[..])
    modifies pkt
    ensures pkt[..] == ArpAnswer(old(pkt[..]), mac)
  {
    ArpInFrame(pkt[..], mac, n);
    AnswerEther(pkt, mac, n);
    RewriteArp(pkt, n, mac);
  }

  lemma ArpInFrame(p: seq<byte>, mac: seq<byte>, n: nat)
    requires |p| >= 46 && |mac| == 6 && n == L2Len(p)
    ensures var q := p[6..12] + mac + p[12..n] + p[n..];
            && |q| == |p| && q[n..n + ARP_LEN] == p[n..n + ARP_LEN]
            && Replace(q, n, ArpReply(p[n..n + ARP_LEN], mac)) == ArpAnswer(p, mac)
  {
    var head := p[6..12] + mac + p[12..n];
    SliceBehind(head, p[n..], ARP_LEN);
    assert p[n..][..ARP_LEN] == p[n..n + ARP_LEN];
    ReplaceSplit(head, p[n..], ArpReply(p[n..n + ARP_LEN], mac));
    assert p[n..][ARP_LEN..] == p[n + ARP_LEN..];
  }

  lemma SliceBehind(head: seq<byte>, tail: seq<byte>, k: nat)
    requires k <= |tail|
    ensures (head + tail)[|head|..|head| + k] == tail[..k]
  {
  }

  lemma ReplaceSplit(head: seq<byte>, tail: seq<byte>, x: seq<byte>)
    requires |x| <= |tail|
    ensures Replace(head + tail, |head|, x) == head + x + tail[|x|..]
  {
  }

  /** The loop body for one received packet; mac is the address of the port it is answered from. */
  method HandlePacket(pkt: array<byte>, mac: seq<byte>, little: bool) returns (action: Action)
    requires pkt.Length >= 46 && |mac| == 6
    modifies pkt
    ensures action == Classify(old(pkt[..])) && pkt[..] == Answer(old(pkt[..]), mac, little)
  {
    ghost var p := pkt[..];
    var ethType := Load(pkt[12], pkt[13], false);
    var n := ETHER_HDR_LEN;
    if ethType == ETHER_TYPE_VLAN {
      n := n + VLAN_HDR_LEN;
      ethType := Load(pkt[16], pkt[17], false);
    }
    if ethType == ETHER_TYPE_ARP {
      var request := IsArpRequest(pkt[..][n..n + ARP_LEN]);
      if !request {
        return Drop;
      }
      AnswerArp(pkt, n, mac);
      return Arp;
    }
    if ethType != ETHER_TYPE_IPV4 {
      return Drop;
    }
    if !(pkt[n + 9] == IPPROTO_ICMP && pkt[n + 20] == ECHO_REQUEST && pkt[n + 21] == 0) {
      return Drop;
    }
    AnswerEcho(pkt, n, little);
    action := Reply;
  }

  method AnswerEcho(pkt: array<byte>, n: nat, little: bool)
    requires pkt.Length >= 46 && n == L2Len(pkt[..])
    modifies pkt
    ensures pkt[..] == EchoReply(old(pkt[..]), little)
  {
    ghost var p := pkt[..];
    MacSwapKeeps(p, n);
    SwapEtherAddresses(pkt);
    RewriteIp(pkt, n, little);
    ReplaceKeepsTail(MacSwapped(p), n, IpReply(p[n..n + 20], little));
    RewriteIcmp(pkt, n + 20, little);
  }

  lemma MacSwapKeeps(p: seq<byte>, n: nat)
    requires 12 <= n && n + 20 <= |p|
    ensures MacSwapped(p)[n..n + 20] == p[n..n + 20] && MacSwapped(p)[n + 20..] == p[n + 20..]
  {
  }

  lemma ReplaceKeepsTail(p: seq<byte>, n: nat, q: seq<byte>)
    requires n + |q| <= |p|
    ensures Replace(p, n, q)[n + |q|..] == p[n + |q|..]
  {
  }

  /** Padding behind the message takes no part: the reply to a message is the start of the reply to its frame. */
  lemma IcmpReplyOfPrefix(m: seq<byte>, k: nat, little: bool)
    requires 8 <= k <= |m|
    ensures IcmpReply(m, little)[..k] == IcmpReply(m[..k], little)
  {
  }

  /** A packet that is answered and whose two checksums are valid gets an answer with a valid IPv4 header, with a
      valid ICMP checksum unless everything after it is zero, and that is not itself answered. */
  lemma EchoReplyCorrect(p: seq<byte>, k: nat, little: bool)
    requires |p| >= 46 && Classify(p) == Reply && L2Len(p) + 28 <= k <= |p|
    requires var n := L2Len(p); Verifies(NetWords(p[n..n + 20])) && Verifies(NetWords(p[n + 20..k]))
    ensures var r, n := EchoReply(p, little), L2Len(p);
            && Verifies(NetWords(r[n..n + 20]))
            && (Verifies(NetWords(r[n + 20..k])) <==> AnyNonZero(p[n + 24..k]))
            && Classify(r) == Drop
  {
    ReplyHeaderVerifies(p, little);
    ReplyMessageVerifies(p, k, little);
    ReplyIsDropped(p, little);
  }

  lemma ReplyHeaderVerifies(p: seq<byte>, little: bool)
    requires |p| >= 46 && var n := L2Len(p); Verifies(NetWords(p[n..n + 20]))
    ensures var r, n := EchoReply(p, little), L2Len(p); Verifies(NetWords(r[n..n + 20]))
  {
    var n := L2Len(p);
    EchoReplyParts(p, little);
    IpReplyVerifies(p[n..n + 20], little);
  }

  lemma ReplyMessageVerifies(p: seq<byte>, k: nat, little: bool)
    requires |p| >= 46 && Classify(p) == Reply && L2Len(p) + 28 <= k <= |p|
    requires var n := L2Len(p); Verifies(NetWords(p[n + 20..k]))
    ensures var r, n := EchoReply(p, little), L2Len(p);
            Verifies(NetWords(r[n + 20..k])) <==> AnyNonZero(p[n + 24..k])
  {
    var n := L2Len(p);
    ReplyMessage(p, k, little);
    ReplyVerifiesIff(p[n + 20..k], little);
    SliceOfSlice(p, n + 20, 4, k);
  }

  lemma PrefixOfTail(p: seq<byte>, a: nat, k: nat)
    requires a <= k <= |p|
    ensures p[a..][..k - a] == p[a..k]
  {
  }

  lemma SliceOfSlice(p: seq<byte>, a: nat, b: nat, k: nat)
    requires a + b <= k <= |p|
    ensures p[a..k][b..] == p[a + b..k]
  {
  }

  lemma ReplyMessage(p: seq<byte>, k: nat, little: bool)
    requires |p| >= 46 && L2Len(p) + 28 <= k <= |p|
    ensures var n := L2Len(p); EchoReply(p, little)[n + 20..k] == IcmpReply(p[n + 20..k], little)
  {
    var r, n := EchoReply(p, little), L2Len(p);
    EchoReplyParts(p, little);
    IcmpReplyOfPrefix(p[n + 20..], k - n - 20, little);
    PrefixOfTail(p, n + 20, k);
    PrefixOfTail(r, n + 20, k);
  }

  lemma ReplyIsDropped(p: seq<byte>, little: bool)
    requires |p| >= 46 && Classify(p) == Reply
    ensures Classify(EchoReply(p, little)) == Drop
  {
    var r, n := EchoReply(p, little), L2Len(p);
    EchoReplyParts(p, little);
    HeadKept(p, r, n);
    assert r[n + 20..][0] == r[n + 20];
    assert IcmpReply(p[n + 20..], little)[0] == ECHO_REPLY;
  }

  lemma HeadKept(p: seq<byte>, r: seq<byte>, n: nat)
    requires 12 <= n <= |p| == |r| && r[..n] == p[6..12] + p[..6] + p[12..n]
    ensures forall i :: 12 <= i < n ==> r[i] == p[i]
  {
    forall i | 12 <= i < n
      ensures r[i] == p[i]
    {
      assert r[i] == r[..n][i];
    }
  }

  lemma ArpAnswerParts(p: seq<byte>, mac: seq<byte>)
    requires |p| >= 46 && |mac| == 6
    ensures var r, n := ArpAnswer(p, mac), L2Len(p);
            && r[..n] == p[6..12] + mac + p[12..n] && r[n..n + ARP_LEN] == ArpReply(p[n..n + ARP_LEN], mac)
            && r[n + ARP_LEN..] == p[n + ARP_LEN..]
  {
  }

  /** The answer to an ARP request goes to the requester, tells it the hardware address of the address it asked for, and
      is not itself answered. */
  lemma ArpAnswerCorrect(p: seq<byte>, mac: seq<byte>)
    requires |p| >= 46 && |mac| == 6 && Classify(p) == Arp
    ensures var r, n := ArpAnswer(p, mac), L2Len(p);
            && r[..6] == p[6..12] && r[6..12] == mac && r[n..n + 8] == [0, 1, 8, 0, 6, 4, 0, 2]
            && r[n + 8..n + 14] == mac && r[n + 14..n + 18] == p[n + 24..n + 28]
            && r[n + 18..n + 24] == p[n + 8..n + 14] && r[n + 24..n + 28] == p[n + 14..n + 18]
            && Classify(r) == Drop
  {
    var r, n := ArpAnswer(p, mac), L2Len(p);
    ArpAnswerParts(p, mac);
    HeadOfArp(p, r, mac, n);
    ArpReplyParts(p[n..n + ARP_LEN], mac);
    ArpFields(p, n);
    ArpFields(r, n);
    ArpAnswerDropped(p, mac);
    ArpReplyCodes(p[n..n + ARP_LEN], mac);
    SliceAt(r, n, ARP_LEN, 0, 8);
  }

  lemma ArpReplyCodes(a: seq<byte>, mac: seq<byte>)
    requires |a| == ARP_LEN && |mac| == 6 && IsArpRequest(a)
    ensures ArpReply(a, mac)[0..8] == [0, 1, 8, 0, 6, 4, 0, 2]
  {
    ArpBytesIff(a);
    assert a[..6] == a[..8][..6] == [0, 1, 8, 0, 6, 4];
  }

  lemma ArpAnswerDropped(p: seq<byte>, mac: seq<byte>)
    requires |p| >= 46 && |mac| == 6 && Classify(p) == Arp
    ensures Classify(ArpAnswer(p, mac)) == Drop
  {
    var r, n := ArpAnswer(p, mac), L2Len(p);
    ArpAnswerParts(p, mac);
    HeadOfArp(p, r, mac, n);
    assert L2Len(r) == n && EtherType(r) == EtherType(p);
    ArpReplyParts(p[n..n + ARP_LEN], mac);
  }

  lemma ArpReplyParts(a: seq<byte>, mac: seq<byte>)
    requires |a| == ARP_LEN && |mac| == 6
    ensures var r := ArpReply(a, mac);
            && r[6] == 0 && r[7] == ARP_OP_REPLY && r[8..14] == mac && r[14..18] == a[24..28] && r[18..24] == a[8..14]
            && r[24..28] == a[14..18]
  {
  }

  lemma ArpFields(p: seq<byte>, n: nat)
    requires n + ARP_LEN <= |p|
    ensures var a := p[n..n + ARP_LEN];
            && a[8..14] == p[n + 8..n + 14] && a[14..18] == p[n + 14..n + 18] && a[18..24] == p[n + 18..n + 24]
            && a[24..28] == p[n + 24..n + 28]
  {
    SliceAt(p, n, ARP_LEN, 8, 14);
    SliceAt(p, n, ARP_LEN, 14, 18);
    SliceAt(p, n, ARP_LEN, 18, 24);
    SliceAt(p, n, ARP_LEN, 24, 28);
  }

  lemma HeadOfArp(p: seq<byte>, r: seq<byte>, mac: seq<byte>, n: nat)
    requires 12 <= n <= |p| == |r| && |mac| == 6 && r[..n] == p[6..12] + mac + p[12..n]
    ensures r[..6] == p[6..12] && r[6..12] == mac && forall i :: 12 <= i < n ==> r[i] == p[i]
  {
    assert forall i :: 0 <= i < n ==> r[i] == r[..n][i];
  }
}
