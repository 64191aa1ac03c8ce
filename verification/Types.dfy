/** Small types that several modules share. */
module Types {

  datatype Option<T> = None | Some(value: T)

  type byte = b: int | 0 <= b < 256

  function Min(a: nat, b: nat): nat {
    if a < b then a else b
  }
}

/** Constants of the network headers that testpmd reads and writes. */
module Headers {
  const ETHER_HDR_LEN := 14
  const VLAN_HDR_LEN := 4
  const ETHER_TYPE_IPV4 := 0x0800
  const ETHER_TYPE_ARP := 0x0806
  const ETHER_TYPE_VLAN := 0x8100
  const IPPROTO_ICMP := 1
  const IPPROTO_IPIP := 4
  const IPPROTO_TCP := 6
  const IPPROTO_UDP := 17
  const IPPROTO_GRE := 47
}
