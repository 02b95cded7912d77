/** The parts of the `cap` capture library the stack relies on, as values: the protocol
    numbers of `decoders.PROTOCOL` and the shape of what a decoder returns. The decoders
    themselves are foreign code and enter the model as function parameters. */
module Cap {
  import opened Wrappers

  /** `PROTOCOL.ETHERNET.IPV4`, the ethertype of an IPv4 payload. */
  const ETHERNET_IPV4 := 0x0800
  /** `PROTOCOL.ETHERNET.ARP`. */
  const ETHERNET_ARP := 0x0806
  /** `PROTOCOL.IP.IPV4`, `PROTOCOL.IP.TCP` and `PROTOCOL.IP.UDP`. */
  const IP_IPV4 := 4
  const IP_TCP := 6
  const IP_UDP := 17

  /** The `info` object of a decoded IPv4, UDP or TCP header, reduced to the properties the
      stack reads; `None` is a property the decoder did not set. */
  datatype Info = Info(
    protocol: Option<int>,
    dstaddr: Option<string>,
    dstport: Option<int>,
    seqno: Option<int>,
    ackno: Option<int>,
    flags: Option<int>)

  /** `{info, offset}`: the decoded header and the offset of its payload. */
  datatype Decoded = Decoded(info: Info, offset: nat)

  /** The `info` of a decoded Ethernet header: destination MAC text and ethertype. */
  datatype EthernetInfo = EthernetInfo(dstmac: Option<string>, etherType: int)

  datatype EthernetDecoded = EthernetDecoded(info: EthernetInfo, offset: nat)
}
