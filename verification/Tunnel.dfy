/** test-pmd/csumonly.c: dissecting plain, VXLAN (section 5 of RFC 7348), GRE (section 2 of RFC 2784, with the
    key of section 2 of RFC 2890) and IP-in-IP packets into header lengths and offsets. */
module Tunnel {
  import opened Types
  import opened Headers

  const IPV6_HDR_LEN := 40
  const UDP_HDR_LEN := 8
  const VXLAN_HDR_LEN := 8
  const GRE_HDR_LEN := 4
  const GRE_KEY_LEN := 4

  const ETHER_TYPE_IPV6 := 0x86DD
  const ETHER_TYPE_TEB := 0x6558
  const GRE_KEY_PRESENT := 0x2000
  const VXLAN_PORT := 4789

  /** struct testpmd_offload_info, ethertypes in host order. */
  datatype Info = Info(ethertype: int, l2Len: nat, l3Len: nat, l4Len: nat, l4Proto: int, isTunnel: bool,
                       outerEthertype: int, outerL2Len: nat, outerL3Len: nat, outerL4Proto: int)

  /** The packet buffer; what lies behind the packet reads as zero. */
  function At(p: seq<byte>, i: nat): byte {
    if i < |p| then p[i] else 0
  }

  function Be16(p: seq<byte>, i: nat): int {
    256 * At(p, i) as int + At(p, i + 1) as int
  }

  // ----- the parsers

  /** The length of a TCP header at o; other protocols count as zero. */
  function L4Len(p: seq<byte>, o: nat, proto: int): nat {
    if proto == IPPROTO_TCP then (At(p, o + 12) / 16) * 4 else 0
  }

  function ParseIpv4(p: seq<byte>, o: nat, info: Info): Info {
    var l3Len := (At(p, o) % 16) * 4;
    var proto := At(p, o + 9);
    info.(l3Len := l3Len, l4Proto := proto, l4Len := L4Len(p, o + l3Len, proto))
  }

  function ParseIpv6(p: seq<byte>, o: nat, info: Info): Info {
    var proto := At(p, o + 6);
    info.(l3Len := IPV6_HDR_LEN, l4Proto := proto, l4Len := L4Len(p, o + IPV6_HDR_LEN, proto))
  }

  /** The length of an Ethernet header with one optional VLAN tag, and the type of what follows. */
  function EtherLen(p: seq<byte>, o: nat): nat {
    if Be16(p, o + 12) == ETHER_TYPE_VLAN then ETHER_HDR_LEN + VLAN_HDR_LEN else ETHER_HDR_LEN
  }

  function EtherType(p: seq<byte>, o: nat): int {
    if Be16(p, o + 12) == ETHER_TYPE_VLAN then Be16(p, o + 16) else Be16(p, o + 12)
  }

  function ParseEthernet(p: seq<byte>, o: nat, info0: Info): Info {
    var info := info0.(l2Len := EtherLen(p, o), ethertype := EtherType(p, o));
    if info.ethertype == ETHER_TYPE_IPV4 then ParseIpv4(p, o + info.l2Len, info)
    else if info.ethertype == ETHER_TYPE_IPV6 then ParseIpv6(p, o + info.l2Len, info)
    else info.(l4Len := 0, l3Len := 0, l4Proto := 0)
  }

  function EnterTunnel(info: Info): Info {
    info.(isTunnel := true, outerEthertype := info.ethertype, outerL2Len := info.l2Len, outerL3Len := info.l3Len)
  }

  function ParseVxlan(p: seq<byte>, o: nat, info: Info, rxTunnel: bool): Info {
    if Be16(p, o + 2) != VXLAN_PORT && !rxTunnel then info
    else
      var t := ParseEthernet(p, o + UDP_HDR_LEN + VXLAN_HDR_LEN, EnterTunnel(info).(outerL4Proto := info.l4Proto));
      t.(l2Len := t.l2Len + UDP_HDR_LEN + VXLAN_HDR_LEN)
  }

  function ParseGre(p: seq<byte>, o: nat, info: Info): Info {
    var flags, proto := Be16(p, o), Be16(p, o + 2);
    if flags != 0 && flags != GRE_KEY_PRESENT then info
    else
      var greLen := if flags == GRE_KEY_PRESENT then GRE_HDR_LEN + GRE_KEY_LEN else GRE_HDR_LEN;
      var t := EnterTunnel(info).(outerL4Proto := info.l4Proto);
      if proto == ETHER_TYPE_IPV4 then
        ParseIpv4(p, o + greLen, t).(ethertype := ETHER_TYPE_IPV4, l2Len := greLen)
      else if proto == ETHER_TYPE_IPV6 then
        ParseIpv6(p, o + greLen, t).(ethertype := ETHER_TYPE_IPV6, l2Len := greLen)
      else if proto == ETHER_TYPE_TEB then
        var u := ParseEthernet(p, o + greLen, t);
        u.(l2Len := u.l2Len + greLen)
      else info
  }

  /** The outer L4 protocol is left as it was, here and nowhere else. */
  function ParseEncapIp(p: seq<byte>, o: nat, info: Info): Info {
    var version := At(p, o) / 16;
    if version == 4 then ParseIpv4(p, o, EnterTunnel(info)).(ethertype := ETHER_TYPE_IPV4, l2Len := 0)
    else if version == 6 then ParseIpv6(p, o, EnterTunnel(info)).(ethertype := ETHER_TYPE_IPV6, l2Len := 0)
    else info
  }

  /** Try the tunnel that the outer L4 protocol announces. */
  function ParseTunnel(p: seq<byte>, o: nat, info: Info, rxTunnel: bool): Info {
    if info.l4Proto == IPPROTO_UDP then ParseVxlan(p, o, info, rxTunnel)
    else if info.l4Proto == IPPROTO_GRE then ParseGre(p, o, info)
    else if info.l4Proto == IPPROTO_IPIP then ParseEncapIp(p, o, info)
    else info
  }

  /** Step 1 of the forwarding loop for one packet; info0 is what the previous packet left. */
  function Parse(p: seq<byte>, parseTunnel: bool, rxTunnel: bool, info0: Info): Info {
    var info := ParseEthernet(p, 0, info0.(isTunnel := false));
    if parseTunnel then ParseTunnel(p, info.l2Len + info.l3Len, info, rxTunnel) else info
  }

  /** The pointer to the (inner) L3 header that is used for rewriting. */
  function L3Offset(p: seq<byte>, info: Info): nat {
    EtherLen(p, 0) + if info.isTunnel then info.outerL3Len + info.l2Len else 0
  }

  // ----- the lengths describe the header at the pointer

  /** The L3 and L4 fields are those of the header at o. */
  predicate Describes(p: seq<byte>, o: nat, ethertype: int, l3Len: nat, proto: int, l4Len: nat) {
    if ethertype == ETHER_TYPE_IPV4 then
      l3Len == (At(p, o) % 16) * 4 && proto == At(p, o + 9) && l4Len == L4Len(p, o + l3Len, proto)
    else if ethertype == ETHER_TYPE_IPV6 then
      l3Len == IPV6_HDR_LEN && proto == At(p, o + 6) && l4Len == L4Len(p, o + l3Len, proto)
    else
      l3Len == 0 && proto == 0 && l4Len == 0
  }

  lemma EthernetDescribes(p: seq<byte>, o: nat, info: Info)
    ensures var r := ParseEthernet(p, o, info);
            && Describes(p, o + r.l2Len, r.ethertype, r.l3Len, r.l4Proto, r.l4Len)
            && r.l2Len == EtherLen(p, o) && r.ethertype == EtherType(p, o)
            && r == info.(ethertype := r.ethertype, l2Len := r.l2Len, l3Len := r.l3Len, l4Len := r.l4Len,
                l4Proto := r.l4Proto)
  {
  }

  /** What a tunnel parser does with the header at o behind an outer L3 header: nothing, or it files the outer
      lengths away and describes the L3 header l2Len behind o. */
  ghost predicate TunnelStep(p: seq<byte>, o: nat, info: Info, r: Info) {
    || r == info
    || (&& r.isTunnel && r.outerEthertype == info.ethertype && r.outerL2Len == info.l2Len && r.outerL3Len == info.l3Len
        && Describes(p, o + r.l2Len, r.ethertype, r.l3Len, r.l4Proto, r.l4Len))
  }

  lemma VxlanStep(p: seq<byte>, o: nat, info: Info, rxTunnel: bool)
    ensures TunnelStep(p, o, info, ParseVxlan(p, o, info, rxTunnel))
  {
    EthernetDescribes(p, o + UDP_HDR_LEN + VXLAN_HDR_LEN, EnterTunnel(info).(outerL4Proto := info.l4Proto));
  }

  lemma GreStep(p: seq<byte>, o: nat, info: Info)
    ensures TunnelStep(p, o, info, ParseGre(p, o, info))
  {
    var t := EnterTunnel(info).(outerL4Proto := info.l4Proto);
    EthernetDescribes(p, o + GRE_HDR_LEN, t);
    EthernetDescribes(p, o + GRE_HDR_LEN + GRE_KEY_LEN, t);
  }

  lemma EncapIpStep(p: seq<byte>, o: nat, info: Info)
    ensures TunnelStep(p, o, info, ParseEncapIp(p, o, info))
  {
  }

  /** The outer fields of a tunnel are those of the header behind the first Ethernet header. */
  ghost predicate OuterDescribed(p: seq<byte>, r: Info) {
    && r.outerL2Len == EtherLen(p, 0) && r.outerEthertype == EtherType(p, 0)
    && (r.outerEthertype == ETHER_TYPE_IPV4 ==> r.outerL3Len == (At(p, r.outerL2Len) % 16) * 4)
    && (r.outerEthertype == ETHER_TYPE_IPV6 ==> r.outerL3Len == IPV6_HDR_LEN)
  }

  /** For every packet, well formed or not: the L3 pointer used for rewriting is the offset of the header whose
      lengths were recorded, inner and outer alike. */
  lemma PointerIsWhereParserRead(p: seq<byte>, parseTunnel: bool, rxTunnel: bool, info0: Info)
    ensures var r := Parse(p, parseTunnel, rxTunnel, info0);
            && Describes(p, L3Offset(p, r), r.ethertype, r.l3Len, r.l4Proto, r.l4Len)
            && (!r.isTunnel ==> L3Offset(p, r) == r.l2Len)
            && (r.isTunnel ==> OuterDescribed(p, r))
  {
    var first := ParseEthernet(p, 0, info0.(isTunnel := false));
    EthernetDescribes(p, 0, info0.(isTunnel := false));
    ParseStep(p, parseTunnel, rxTunnel, info0);
    StepPointer(p, first, Parse(p, parseTunnel, rxTunnel, info0));
  }

  lemma ParseStep(p: seq<byte>, parseTunnel: bool, rxTunnel: bool, info0: Info)
    ensures var first := ParseEthernet(p, 0, info0.(isTunnel := false));
            TunnelStep(p, first.l2Len + first.l3Len, first, Parse(p, parseTunnel, rxTunnel, info0))
  {
    var first := ParseEthernet(p, 0, info0.(isTunnel := false));
    var l4 := first.l2Len + first.l3Len;
    if first.l4Proto == IPPROTO_UDP {
      VxlanStep(p, l4, first, rxTunnel);
    } else if first.l4Proto == IPPROTO_GRE {
      GreStep(p, l4, first);
    } else if first.l4Proto == IPPROTO_IPIP {
      EncapIpStep(p, l4, first);
    }
  }

  lemma StepPointer(p: seq<byte>, first: Info, r: Info)
    requires !first.isTunnel && first.l2Len == EtherLen(p, 0) && first.ethertype == EtherType(p, 0)
    requires Describes(p, first.l2Len, first.ethertype, first.l3Len, first.l4Proto, first.l4Len)
    requires TunnelStep(p, first.l2Len + first.l3Len, first, r)
    ensures Describes(p, L3Offset(p, r), r.ethertype, r.l3Len, r.l4Proto, r.l4Len)
    ensures !r.isTunnel ==> L3Offset(p, r) == r.l2Len
    ensures r.isTunnel ==> OuterDescribed(p, r)
  {
  }

  // ----- the mbuf metadata

  /** The header lengths handed to the driver. */
  datatype Meta = Meta(outerL2Len: nat, outerL3Len: nat, l2Len: nat, l3Len: nat, l4Len: nat)

  /** Step 4: two layouts for a tunnel, depending on whether the outer checksum is offloaded. */
  function FillMeta(info: Info, outerIpCksum: bool, m: Meta): Meta {
    if info.isTunnel && outerIpCksum then
      Meta(info.outerL2Len, info.outerL3Len, info.l2Len, info.l3Len, info.l4Len)
    else if info.isTunnel then
      m.(l2Len := info.outerL2Len + info.outerL3Len + info.l2Len, l3Len := info.l3Len, l4Len := info.l4Len)
    else
      m.(l2Len := info.l2Len, l3Len := info.l3Len, l4Len := info.l4Len)
  }

  /** The offset of the inner L3 header as the driver works it out from the metadata. */
  function MetaOffset(info: Info, outerIpCksum: bool, m: Meta): nat {
    if info.isTunnel && outerIpCksum then m.outerL2Len + m.outerL3Len + m.l2Len else m.l2Len
  }

  lemma MetaAgrees(p: seq<byte>, parseTunnel: bool, rxTunnel: bool, info0: Info, outerIpCksum: bool, m: Meta)
    ensures var info := Parse(p, parseTunnel, rxTunnel, info0);
            && MetaOffset(info, outerIpCksum, FillMeta(info, outerIpCksum, m)) == L3Offset(p, info)
            && (info.isTunnel && outerIpCksum ==>
                  FillMeta(info, outerIpCksum, m).outerL2Len == EtherLen(p, 0)
                  && FillMeta(info, outerIpCksum, m).outerL3Len == info.outerL3Len)
            && FillMeta(info, outerIpCksum, m).l3Len == info.l3Len
            && FillMeta(info, outerIpCksum, m).l4Len == info.l4Len
  {
    PointerIsWhereParserRead(p, parseTunnel, rxTunnel, info0);
  }

  // ----- packets of a burst

  /** The same dissection apart from the outer fields. */
  predicate SameInner(r: Info, r': Info) {
    && r.ethertype == r'.ethertype && r.l2Len == r'.l2Len && r.l3Len == r'.l3Len && r.l4Len == r'.l4Len
    && r.l4Proto == r'.l4Proto && r.isTunnel == r'.isTunnel
  }

  predicate SameOuter(r: Info, r': Info) {
    && r.outerEthertype == r'.outerEthertype && r.outerL2Len == r'.outerL2Len
    && r.outerL3Len == r'.outerL3Len && r.outerL4Proto == r'.outerL4Proto
  }

  /** The same as far as the fields mean something: the outer ones only for a tunnel. */
  predicate SameMeaning(r: Info, r': Info) {
    SameInner(r, r') && (r.isTunnel ==> SameOuter(r, r'))
  }

  /** The packet is taken for IP in IP. */
  predicate IsIpInIp(p: seq<byte>, parseTunnel: bool, info0: Info) {
    var first := ParseEthernet(p, 0, info0.(isTunnel := false));
    var version := At(p, first.l2Len + first.l3Len) / 16;
    parseTunnel && first.l4Proto == IPPROTO_IPIP && (version == 4 || version == 6)
  }

  lemma EthernetSame(p: seq<byte>, o: nat, a: Info, b: Info)
    requires a.isTunnel == b.isTunnel
    ensures SameInner(ParseEthernet(p, o, a), ParseEthernet(p, o, b))
    ensures SameOuter(ParseEthernet(p, o, a), a) && SameOuter(ParseEthernet(p, o, b), b)
  {
    EthernetDescribes(p, o, a);
    EthernetDescribes(p, o, b);
  }

  lemma VxlanSame(p: seq<byte>, o: nat, a: Info, b: Info, rxTunnel: bool)
    requires SameInner(a, b) && !a.isTunnel
    ensures SameMeaning(ParseVxlan(p, o, a, rxTunnel), ParseVxlan(p, o, b, rxTunnel))
  {
    EthernetSame(p, o + UDP_HDR_LEN + VXLAN_HDR_LEN, EnterTunnel(a).(outerL4Proto := a.l4Proto),
                 EnterTunnel(b).(outerL4Proto := b.l4Proto));
  }

  lemma GreSame(p: seq<byte>, o: nat, a: Info, b: Info)
    requires SameInner(a, b) && !a.isTunnel
    ensures SameMeaning(ParseGre(p, o, a), ParseGre(p, o, b))
  {
    var t, u := EnterTunnel(a).(outerL4Proto := a.l4Proto), EnterTunnel(b).(outerL4Proto := b.l4Proto);
    EthernetSame(p, o + GRE_HDR_LEN, t, u);
    EthernetSame(p, o + GRE_HDR_LEN + GRE_KEY_LEN, t, u);
  }

  lemma EncapIpSame(p: seq<byte>, o: nat, a: Info, b: Info)
    requires SameInner(a, b) && !a.isTunnel
    ensures var v := At(p, o) / 16;
            SameMeaning(ParseEncapIp(p, o, a), ParseEncapIp(p, o, b)) <==>
              (v != 4 && v != 6) || a.outerL4Proto == b.outerL4Proto
  {
  }

  /** The dissection of a packet is independent of the packets before it exactly when it is not IP in IP or the
      outer protocol they left happens to be the same. */
  lemma IndependentOfHistory(p: seq<byte>, parseTunnel: bool, rxTunnel: bool, a: Info, b: Info)
    ensures SameMeaning(Parse(p, parseTunnel, rxTunnel, a), Parse(p, parseTunnel, rxTunnel, b))
            <==> !IsIpInIp(p, parseTunnel, a) || a.outerL4Proto == b.outerL4Proto
  {
    var i, j := ParseEthernet(p, 0, a.(isTunnel := false)), ParseEthernet(p, 0, b.(isTunnel := false));
    EthernetSame(p, 0, a.(isTunnel := false), b.(isTunnel := false));
    EthernetDescribes(p, 0, a.(isTunnel := false));
    if i.l4Proto == IPPROTO_UDP {
      VxlanSame(p, i.l2Len + i.l3Len, i, j, rxTunnel);
    } else if i.l4Proto == IPPROTO_GRE {
      GreSame(p, i.l2Len + i.l3Len, i, j);
    } else if i.l4Proto == IPPROTO_IPIP {
      EncapIpSame(p, i.l2Len + i.l3Len, i, j);
    }
  }


  // ----- recovering an encoded header stack

  datatype Encapsulation = Vxlan | Gre(key: bool) | GreEther(key: bool) | IpInIp

  /** eth is an Ethernet header, with or without a VLAN tag, for a payload of the given type. */
  predicate IsEther(eth: seq<byte>, ethertype: int) {
    || (|eth| == 14 && Be16(eth, 12) == ethertype != 0x8100)
    || (|eth| == 18 && Be16(eth, 12) == 0x8100 && Be16(eth, 16) == ethertype)
  }

  /** ip is an IPv4 header, with any options, or an IPv6 header, for a payload of the given protocol. */
  predicate IsIp(ip: seq<byte>, ethertype: int, proto: int) {
    || (ethertype == 0x0800 && 20 <= |ip| <= 60 && |ip| % 4 == 0 && ip[0] == 0x40 + |ip| / 4 && ip[9] == proto)
    || (ethertype == 0x86DD && |ip| == 40 && ip[0] / 16 == 6 && ip[6] == proto)
  }

  /** l4 is what the packet holds for the transport protocol: of TCP, number 6, the header with its options. */
  predicate IsL4(l4: seq<byte>, proto: int) {
    proto == 6 ==> 20 <= |l4| <= 60 && |l4| % 4 == 0 && l4[12] / 16 == |l4| / 4
  }

  /** t is what lies between the outer IP header and the inner Ethernet or IP header: UDP and VXLAN headers, or a GRE
      header with or without a key for IP or for Ethernet (type 0x6558). */
  predicate IsShim(t: seq<byte>, e: Encapsulation, innerType: int) {
    match e
    case Vxlan => |t| == 16 && Be16(t, 2) == 4789
    case Gre(key) => IsGre(t, key, innerType)
    case GreEther(key) => IsGre(t, key, 0x6558)
    case IpInIp => t == []
  }

  predicate IsGre(t: seq<byte>, key: bool, proto: int) {
    if key then |t| == 8 && Be16(t, 0) == 0x2000 && Be16(t, 2) == proto
    else |t| == 4 && Be16(t, 0) == 0 && Be16(t, 2) == proto
  }

  function OuterProto(e: Encapsulation): int {
    match e
    case Vxlan => 17
    case Gre(_) => 47
    case GreEther(_) => 47
    case IpInIp => 4
  }

  predicate HasInnerEther(e: Encapsulation) {
    e.Vxlan? || e.GreEther?
  }

  /** A tunnelled header stack: outer Ethernet and IP, the shim, an inner Ethernet header where there is one, the
      inner IP header and the rest. */
  datatype Stack = Stack(e: Encapsulation, eth: seq<byte>, outerType: int, ip: seq<byte>, shim: seq<byte>,
                         innerEth: seq<byte>, innerType: int, innerIp: seq<byte>, innerProto: int, rest: seq<byte>)

  predicate WellFormed(s: Stack) {
    && IsEther(s.eth, s.outerType) && IsIp(s.ip, s.outerType, OuterProto(s.e))
    && IsShim(s.shim, s.e, s.innerType) && IsIp(s.innerIp, s.innerType, s.innerProto)
    && (if HasInnerEther(s.e) then IsEther(s.innerEth, s.innerType) else s.innerEth == [])
  }

  function Encode(s: Stack): seq<byte> {
    s.eth + s.ip + s.shim + s.innerEth + s.innerIp + s.rest
  }

  /** h is what p holds at o. */
  ghost predicate Holds(p: seq<byte>, o: nat, h: seq<byte>) {
    o + |h| <= |p| && forall i :: 0 <= i < |h| ==> p[o + i] == h[i]
  }

  lemma EncodeHolds(s: Stack)
    ensures var p := Encode(s);
            && Holds(p, 0, s.eth) && Holds(p, |s.eth|, s.ip) && Holds(p, |s.eth| + |s.ip|, s.shim)
            && Holds(p, |s.eth| + |s.ip| + |s.shim|, s.innerEth)
            && Holds(p, |s.eth| + |s.ip| + |s.shim| + |s.innerEth|, s.innerIp)
  {
  }

  lemma HeldByte(p: seq<byte>, o: nat, h: seq<byte>, i: nat)
    requires Holds(p, o, h) && i < |h|
    ensures At(p, o + i) == At(h, i)
  {
  }

  lemma HeldWord(p: seq<byte>, o: nat, h: seq<byte>, i: nat)
    requires Holds(p, o, h) && i + 1 < |h|
    ensures Be16(p, o + i) == Be16(h, i)
  {
    HeldByte(p, o, h, i);
    HeldByte(p, o, h, i + 1);
  }

  lemma EtherAt(p: seq<byte>, o: nat, eth: seq<byte>, ethertype: int)
    requires Holds(p, o, eth) && IsEther(eth, ethertype)
    ensures EtherLen(p, o) == |eth| && EtherType(p, o) == ethertype
  {
    HeldWord(p, o, eth, 12);
    if |eth| == 18 {
      HeldWord(p, o, eth, 16);
    }
  }

  /** The L3 fields recorded for a header held at o. */
  predicate RecordsIp(r: Info, ip: seq<byte>, proto: int, p: seq<byte>, o: nat) {
    r.l3Len == |ip| && r.l4Proto == proto && r.l4Len == L4Len(p, o + |ip|, proto)
  }

  lemma Ipv4At(p: seq<byte>, o: nat, ip: seq<byte>, proto: int, info: Info)
    requires Holds(p, o, ip) && IsIp(ip, ETHER_TYPE_IPV4, proto)
    ensures RecordsIp(ParseIpv4(p, o, info), ip, proto, p, o) && At(p, o) / 16 == 4
  {
    HeldByte(p, o, ip, 0);
    HeldByte(p, o, ip, 9);
  }

  lemma Ipv6At(p: seq<byte>, o: nat, ip: seq<byte>, proto: int, info: Info)
    requires Holds(p, o, ip) && IsIp(ip, ETHER_TYPE_IPV6, proto)
    ensures RecordsIp(ParseIpv6(p, o, info), ip, proto, p, o) && At(p, o) / 16 == 6
  {
    HeldByte(p, o, ip, 0);
    HeldByte(p, o, ip, 6);
  }

  /** Parsing Ethernet and IP headers held at o. */
  lemma EthernetAt(p: seq<byte>, o: nat, eth: seq<byte>, ethertype: int, ip: seq<byte>, proto: int, info: Info)
    requires Holds(p, o, eth) && IsEther(eth, ethertype) && Holds(p, o + |eth|, ip) && IsIp(ip, ethertype, proto)
    ensures var r := ParseEthernet(p, o, info);
            r.l2Len == |eth| && r.ethertype == ethertype && RecordsIp(r, ip, proto, p, o + |eth|)
  {
    EtherAt(p, o, eth, ethertype);
    var i := info.(l2Len := |eth|, ethertype := ethertype);
    if ethertype == ETHER_TYPE_IPV4 {
      Ipv4At(p, o + |eth|, ip, proto, i);
    } else {
      Ipv6At(p, o + |eth|, ip, proto, i);
    }
  }

  /** What follows the outer IP header is taken for a tunnel. */
  predicate Announced(proto: int, rest: seq<byte>, rxTunnel: bool) {
    if proto == 17 then Be16(rest, 2) == 4789 || rxTunnel
    else if proto == 47 then
      && (Be16(rest, 0) == 0 || Be16(rest, 0) == 0x2000)
      && (Be16(rest, 2) == 0x0800 || Be16(rest, 2) == 0x86DD || Be16(rest, 2) == 0x6558)
    else proto == 4 && (At(rest, 0) / 16 == 4 || At(rest, 0) / 16 == 6)
  }

  lemma TunnelIffAnnounced(p: seq<byte>, o: nat, rest: seq<byte>, info: Info, rxTunnel: bool)
    requires o <= |p| && p[o..] == rest && !info.isTunnel
    ensures var r := ParseTunnel(p, o, info, rxTunnel);
            && (r.isTunnel <==> Announced(info.l4Proto, rest, rxTunnel))
            && (!r.isTunnel ==> r == info)
  {
    TailByte(p, o, 0);
    TailByte(p, o, 1);
    TailByte(p, o, 2);
    TailByte(p, o, 3);
    VxlanStep(p, o, info, rxTunnel);
    GreStep(p, o, info);
  }

  lemma TailByte(p: seq<byte>, o: nat, i: nat)
    requires o <= |p|
    ensures At(p, o + i) == At(p[o..], i)
  {
  }

  /** Whatever follows its IP header, a packet is taken for a tunnel exactly when that announces one; if not, the parser
      recovers the length of every header. */
  lemma PlainRecovered(eth: seq<byte>, ethertype: int, ip: seq<byte>, proto: int, rest: seq<byte>, info0: Info,
                       parseTunnel: bool, rxTunnel: bool)
    requires IsEther(eth, ethertype) && IsIp(ip, ethertype, proto)
    ensures var p := eth + ip + rest;
            var r := Parse(p, parseTunnel, rxTunnel, info0);
            && (r.isTunnel <==> parseTunnel && Announced(proto, rest, rxTunnel))
            && (!r.isTunnel ==> r.l2Len == |eth| && r.ethertype == ethertype && L3Offset(p, r) == |eth|
                                && RecordsIp(r, ip, proto, p, |eth|))
  {
    PlainOuter(eth, ethertype, ip, proto, rest, info0.(isTunnel := false));
    var p := eth + ip + rest;
    TunnelIffAnnounced(p, |eth| + |ip|, rest, ParseEthernet(p, 0, info0.(isTunnel := false)), rxTunnel);
  }

  lemma PlainOuter(eth: seq<byte>, ethertype: int, ip: seq<byte>, proto: int, rest: seq<byte>, info: Info)
    requires IsEther(eth, ethertype) && IsIp(ip, ethertype, proto)
    ensures var p := eth + ip + rest;
            var r := ParseEthernet(p, 0, info);
            && r.l2Len == |eth| && r.ethertype == ethertype && r.isTunnel == info.isTunnel
            && RecordsIp(r, ip, proto, p, |eth|) && EtherLen(p, 0) == |eth| && p[|eth| + |ip|..] == rest
  {
    var p := eth + ip + rest;
    assert Holds(p, 0, eth) && Holds(p, 0 + |eth|, ip);
    EthernetAt(p, 0, eth, ethertype, ip, proto, info);
    EtherAt(p, 0, eth, ethertype);
    EthernetDescribes(p, 0, info);
  }

  /** What a tunnel parser at o makes of the shim, the inner Ethernet header and the inner IP header. */
  ghost predicate InnerRecovered(p: seq<byte>, o: nat, s: Stack, info: Info, r: Info) {
    var l2 := |s.shim| + |s.innerEth|;
    && r.isTunnel && r.outerEthertype == info.ethertype && r.outerL2Len == info.l2Len && r.outerL3Len == info.l3Len
    && r.l2Len == l2 && r.ethertype == s.innerType && RecordsIp(r, s.innerIp, s.innerProto, p, o + l2)
    && r.outerL4Proto == if s.e.IpInIp? then info.outerL4Proto else info.l4Proto
  }

  ghost predicate InnerHeld(p: seq<byte>, o: nat, s: Stack) {
    && WellFormed(s) && Holds(p, o, s.shim) && Holds(p, o + |s.shim|, s.innerEth)
    && Holds(p, o + |s.shim| + |s.innerEth|, s.innerIp)
  }

  lemma VxlanRecovered(p: seq<byte>, o: nat, s: Stack, info: Info, rxTunnel: bool)
    requires s.e.Vxlan? && InnerHeld(p, o, s)
    ensures InnerRecovered(p, o, s, info, ParseVxlan(p, o, info, rxTunnel))
  {
    HeldWord(p, o, s.shim, 2);
    var t := EnterTunnel(info).(outerL4Proto := info.l4Proto);
    EthernetAt(p, o + 16, s.innerEth, s.innerType, s.innerIp, s.innerProto, t);
    EthernetDescribes(p, o + 16, EnterTunnel(info).(outerL4Proto := info.l4Proto));
  }

  lemma GreRecovered(p: seq<byte>, o: nat, s: Stack, info: Info)
    requires s.e.Gre? && InnerHeld(p, o, s)
    ensures InnerRecovered(p, o, s, info, ParseGre(p, o, info))
  {
    var t := EnterTunnel(info).(outerL4Proto := info.l4Proto);
    HeldWord(p, o, s.shim, 0);
    HeldWord(p, o, s.shim, 2);
    if s.innerType == ETHER_TYPE_IPV4 {
      Ipv4At(p, o + |s.shim|, s.innerIp, s.innerProto, t);
    } else {
      Ipv6At(p, o + |s.shim|, s.innerIp, s.innerProto, t);
    }
  }

  lemma GreEtherRecovered(p: seq<byte>, o: nat, s: Stack, info: Info)
    requires s.e.GreEther? && InnerHeld(p, o, s)
    ensures InnerRecovered(p, o, s, info, ParseGre(p, o, info))
  {
    var t := EnterTunnel(info).(outerL4Proto := info.l4Proto);
    HeldWord(p, o, s.shim, 0);
    HeldWord(p, o, s.shim, 2);
    EthernetAt(p, o + |s.shim|, s.innerEth, s.innerType, s.innerIp, s.innerProto, t);
    EthernetDescribes(p, o + |s.shim|, t);
  }

  lemma IpInIpRecovered(p: seq<byte>, o: nat, s: Stack, info: Info)
    requires s.e.IpInIp? && InnerHeld(p, o, s)
    ensures InnerRecovered(p, o, s, info, ParseEncapIp(p, o, info))
  {
    if s.innerType == ETHER_TYPE_IPV4 {
      Ipv4At(p, o, s.innerIp, s.innerProto, EnterTunnel(info));
    } else {
      Ipv6At(p, o, s.innerIp, s.innerProto, EnterTunnel(info));
    }
  }

  /** Round trip: whatever the encapsulation, parsing an encoded stack recovers the length of every header, and the
      L3 pointer is where the inner IP header was put. */
  lemma StackRecovered(s: Stack, info0: Info, rxTunnel: bool)
    requires WellFormed(s)
    ensures var p := Encode(s);
            var r := Parse(p, true, rxTunnel, info0);
            && r.isTunnel && r.outerEthertype == s.outerType && r.outerL2Len == |s.eth| && r.outerL3Len == |s.ip|
            && r.l2Len == |s.shim| + |s.innerEth| && r.ethertype == s.innerType
            && L3Offset(p, r) == |s.eth| + |s.ip| + |s.shim| + |s.innerEth|
            && RecordsIp(r, s.innerIp, s.innerProto, p, L3Offset(p, r))
            && r.outerL4Proto == if s.e.IpInIp? then info0.outerL4Proto else OuterProto(s.e)
  {
    var p := Encode(s);
    EncodeHolds(s);
    var first := ParseEthernet(p, 0, info0.(isTunnel := false));
    EthernetAt(p, 0, s.eth, s.outerType, s.ip, OuterProto(s.e), info0.(isTunnel := false));
    EtherAt(p, 0, s.eth, s.outerType);
    EthernetDescribes(p, 0, info0.(isTunnel := false));
    assert InnerHeld(p, |s.eth| + |s.ip|, s);
    DispatchRecovered(p, s, info0, rxTunnel);
  }

  lemma DispatchRecovered(p: seq<byte>, s: Stack, info0: Info, rxTunnel: bool)
    requires var first := ParseEthernet(p, 0, info0.(isTunnel := false));
             first.l4Proto == OuterProto(s.e) && InnerHeld(p, first.l2Len + first.l3Len, s)
    ensures var first := ParseEthernet(p, 0, info0.(isTunnel := false));
            InnerRecovered(p, first.l2Len + first.l3Len, s, first, Parse(p, true, rxTunnel, info0))
  {
    var first := ParseEthernet(p, 0, info0.(isTunnel := false));
    var o := first.l2Len + first.l3Len;
    match s.e
    case Vxlan => VxlanRecovered(p, o, s, first, rxTunnel);
    case Gre(_) => GreRecovered(p, o, s, first);
    case GreEther(_) => GreEtherRecovered(p, o, s, first);
    case IpInIp => IpInIpRecovered(p, o, s, first);
  }

  lemma L4LenAt(p: seq<byte>, o: nat, l4: seq<byte>, rest: seq<byte>, proto: int)
    requires o <= |p| && p[o..] == l4 + rest && IsL4(l4, proto)
    ensures L4Len(p, o, proto) == if proto == 6 then |l4| else 0
  {
    if proto == 6 {
      TailByte(p, o, 12);
      assert (l4 + rest)[12] == l4[12];
    }
  }

  /** The length recorded for the transport header is that of the TCP header, options included, and zero for any other
      protocol: behind a plain packet's IP header... */
  lemma PlainL4Recovered(eth: seq<byte>, ethertype: int, ip: seq<byte>, proto: int, l4: seq<byte>, rest: seq<byte>,
                         info0: Info, parseTunnel: bool, rxTunnel: bool)
    requires IsEther(eth, ethertype) && IsIp(ip, ethertype, proto) && IsL4(l4, proto)
    ensures var r := Parse(eth + ip + (l4 + rest), parseTunnel, rxTunnel, info0);
            !r.isTunnel ==> r.l4Proto == proto && r.l4Len == if proto == 6 then |l4| else 0
  {
    var p := eth + ip + (l4 + rest);
    PlainRecovered(eth, ethertype, ip, proto, l4 + rest, info0, parseTunnel, rxTunnel);
    assert p[|eth| + |ip|..] == l4 + rest;
    L4LenAt(p, |eth| + |ip|, l4, rest, proto);
  }

  /** ... and behind the inner IP header of a tunnel. */
  lemma StackL4Recovered(s: Stack, l4: seq<byte>, rest: seq<byte>, info0: Info, rxTunnel: bool)
    requires WellFormed(s) && s.rest == l4 + rest && IsL4(l4, s.innerProto)
    ensures var r := Parse(Encode(s), true, rxTunnel, info0);
            r.l4Proto == s.innerProto && r.l4Len == if s.innerProto == 6 then |l4| else 0
  {
    var p := Encode(s);
    StackRecovered(s, info0, rxTunnel);
    var o := |s.eth| + |s.ip| + |s.shim| + |s.innerEth| + |s.innerIp|;
    assert p[o..] == l4 + rest;
    L4LenAt(p, o, l4, rest, s.innerProto);
  }

  lemma OuterOffset(p: seq<byte>, parseTunnel: bool, rxTunnel: bool, info0: Info)
    requires !info0.isTunnel
    ensures var first := ParseEthernet(p, 0, info0);
            var r := Parse(p, parseTunnel, rxTunnel, info0);
            first.l2Len == EtherLen(p, 0) && (r.isTunnel ==> r.outerL2Len == first.l2Len)
  {
    assert info0.(isTunnel := false) == info0;
    EthernetDescribes(p, 0, info0);
    ParseStep(p, parseTunnel, rxTunnel, info0);
  }

  // ----- the parsers as they fill the structure

  class OffloadInfo {
    var ethertype: int
    var l2Len: nat
    var l3Len: nat
    var l4Len: nat
    var l4Proto: int
    var isTunnel: bool
    var outerEthertype: int
    var outerL2Len: nat
    var outerL3Len: nat
    var outerL4Proto: int

    ghost function Value(): Info
      reads this
    {
      Info(ethertype, l2Len, l3Len, l4Len, l4Proto, isTunnel, outerEthertype, outerL2Len, outerL3Len, outerL4Proto)
    }

    /** memset to zero. */
    constructor ()
      ensures Value() == Info(0, 0, 0, 0, 0, false, 0, 0, 0, 0)
    {
      ethertype, l2Len, l3Len, l4Len, l4Proto, isTunnel := 0, 0, 0, 0, 0, false;
      outerEthertype, outerL2Len, outerL3Len, outerL4Proto := 0, 0, 0, 0;
    }

    method FillIpv4(p: seq<byte>, o: nat)
      modifies this
      ensures Value() == ParseIpv4(p, o, old(Value()))
    {
      l3Len := (At(p, o) % 16) * 4;
      l4Proto := At(p, o + 9);
      if l4Proto == IPPROTO_TCP {
        l4Len := (At(p, o + l3Len + 12) / 16) * 4;
      } else {
        l4Len := 0;
      }
    }

    method FillIpv6(p: seq<byte>, o: nat)
      modifies this
      ensures Value() == ParseIpv6(p, o, old(Value()))
    {
      l3Len := IPV6_HDR_LEN;
      l4Proto := At(p, o + 6);
      if l4Proto == IPPROTO_TCP {
        l4Len := (At(p, o + l3Len + 12) / 16) * 4;
      } else {
        l4Len := 0;
      }
    }

    method FillEthernet(p: seq<byte>, o: nat)
      modifies this
      ensures Value() == ParseEthernet(p, o, old(Value()))
    {
      l2Len := ETHER_HDR_LEN;
      ethertype := Be16(p, o + 12);
      if ethertype == ETHER_TYPE_VLAN {
        l2Len := l2Len + VLAN_HDR_LEN;
        ethertype := Be16(p, o + ETHER_HDR_LEN + 2);
      }
      if ethertype == ETHER_TYPE_IPV4 {
        FillIpv4(p, o + l2Len);
      } else if ethertype == ETHER_TYPE_IPV6 {
        FillIpv6(p, o + l2Len);
      } else {
        l4Len, l3Len, l4Proto := 0, 0, 0;
      }
    }

    method SaveOuter()
      modifies this
      ensures Value() == EnterTunnel(old(Value()))
    {
      isTunnel := true;
      outerEthertype, outerL2Len, outerL3Len := ethertype, l2Len, l3Len;
    }

    method FillVxlan(p: seq<byte>, o: nat, rxTunnel: bool)
      modifies this
      ensures Value() == ParseVxlan(p, o, old(Value()), rxTunnel)
    {
      if Be16(p, o + 2) != VXLAN_PORT && !rxTunnel {
        return;
      }
      SaveOuter();
      outerL4Proto := l4Proto;
      FillEthernet(p, o + UDP_HDR_LEN + VXLAN_HDR_LEN);
      l2Len := l2Len + UDP_HDR_LEN + VXLAN_HDR_LEN;
    }

    method FillGre(p: seq<byte>, o: nat)
      modifies this
      ensures Value() == ParseGre(p, o, old(Value()))
    {
      var flags, proto := Be16(p, o), Be16(p, o + 2);
      if flags != 0 && flags != GRE_KEY_PRESENT {
        return;
      }
      var greLen := GRE_HDR_LEN;
      if flags == GRE_KEY_PRESENT {
        greLen := greLen + GRE_KEY_LEN;
      }
      if proto != ETHER_TYPE_IPV4 && proto != ETHER_TYPE_IPV6 && proto != ETHER_TYPE_TEB {
        return;
      }
      SaveOuter();
      outerL4Proto := l4Proto;
      if proto == ETHER_TYPE_IPV4 {
        FillIpv4(p, o + greLen);
        ethertype, l2Len := ETHER_TYPE_IPV4, 0;
      } else if proto == ETHER_TYPE_IPV6 {
        ethertype := ETHER_TYPE_IPV6;
        FillIpv6(p, o + greLen);
        l2Len := 0;
      } else {
        FillEthernet(p, o + greLen);
      }
      l2Len := l2Len + greLen;
    }

    method FillEncapIp(p: seq<byte>, o: nat)
      modifies this
      ensures Value() == ParseEncapIp(p, o, old(Value()))
    {
      var version := At(p, o) / 16;
      if version != 4 && version != 6 {
        return;
      }
      SaveOuter();
      if version == 4 {
        FillIpv4(p, o);
        ethertype := ETHER_TYPE_IPV4;
      } else {
        FillIpv6(p, o);
        ethertype := ETHER_TYPE_IPV6;
      }
      l2Len := 0;
    }

    /** Step 1 of the loop over a burst: dissect one packet and work out its L3 pointers. */
    method Dissect(p: seq<byte>, parseTunnel: bool, rxTunnel: bool) returns (l3: nat, outerL3: nat)
      modifies this
      ensures Value() == Parse(p, parseTunnel, rxTunnel, old(Value()))
      ensures l3 == L3Offset(p, Value()) && (isTunnel ==> outerL3 == outerL2Len)
    {
      isTunnel := false;
      OuterOffset(p, parseTunnel, rxTunnel, Value());
      FillEthernet(p, 0);
      l3, outerL3 := l2Len, 0;
      if parseTunnel {
        FillTunnel(p, l3 + l3Len, rxTunnel);
      }
      if isTunnel {
        outerL3 := l3;
        l3 := l3 + outerL3Len + l2Len;
      }
    }

    method FillTunnel(p: seq<byte>, o: nat, rxTunnel: bool)
      modifies this
      ensures Value() == ParseTunnel(p, o, old(Value()), rxTunnel)
    {
      if l4Proto == IPPROTO_UDP {
        FillVxlan(p, o, rxTunnel);
      } else if l4Proto == IPPROTO_GRE {
        FillGre(p, o);
      } else if l4Proto == IPPROTO_IPIP {
        FillEncapIp(p, o);
      }
    }
  }
}
