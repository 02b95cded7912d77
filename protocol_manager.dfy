/** protocol/ProtocolManager.js: sending an IP packet to the router, asking for the router's
    MAC with ARP, choosing the protocol layer for a protocol number, and walking a received
    frame down the layers until it is consumed, then dispatching the last header decoded. */
module ProtocolManager {
  import opened Wrappers
  import opened Bytes
  import opened Cap
  import DataLink
  import AppManager
  import IpLayer
  import ArpLayer

  /** The MAC that the IP-to-MAC table holds for the router from the start. */
  const ROUTER_MAC := "fc:d7:33:4c:79:e8"
  /** The Ethernet broadcast address the ARP request goes to. */
  const BROADCAST_MAC := "ff:ff:ff:ff:ff:ff"

  /** `ipMacTable` as it stands after the module is loaded: the router's IP maps to its MAC. */
  function IpMacTable(routerIp: string): map<string, string> {
    map[routerIp := ROUTER_MAC]
  }

  /** The protocol layers `getProtocol` can return. */
  datatype Codec = ArpCodec | IpCodec | UdpCodec | TcpCodec

  /** The protocol number each layer is chosen for. */
  function CodecNumber(c: Codec): int {
    match c
    case ArpCodec => ETHERNET_ARP
    case IpCodec => IP_IPV4
    case UdpCodec => IP_UDP
    case TcpCodec => IP_TCP
  }

  /** `getProtocol(protocol)`: the layer for an ARP ethertype or an IPv4, UDP or TCP protocol
      number; null for anything else, including an undefined protocol. */
  function GetProtocol(protocol: Option<int>): (r: Option<Codec>)
    ensures r.None? <==> protocol !in {Some(ETHERNET_ARP), Some(IP_IPV4), Some(IP_UDP), Some(IP_TCP)}
  {
    if protocol == Some(ETHERNET_ARP) then Some(ArpCodec)
    else if protocol == Some(IP_IPV4) then Some(IpCodec)
    else if protocol == Some(IP_UDP) then Some(UdpCodec)
    else if protocol == Some(IP_TCP) then Some(TcpCodec)
    else None
  }

  /** getProtocol and the protocol numbers are inverse: each layer is chosen for its own
      number and for no other. */
  lemma GetProtocolInverse(protocol: Option<int>, c: Codec)
    ensures GetProtocol(Some(CodecNumber(c))) == Some(c)
    ensures GetProtocol(protocol) == Some(c) ==> protocol == Some(CodecNumber(c))
  {
  }

  /** The cap decoders a received frame is walked through. */
  datatype Decoders = Decoders(
    ipv4: seq<Byte> -> Decoded,
    udp: seq<Byte> -> Decoded,
    tcp: seq<Byte> -> Decoded)

  /** Every decoder consumes a header of at least one byte. */
  ghost predicate Consumes(d: Decoders) {
    forall b :: d.ipv4(b).offset > 0 && d.udp(b).offset > 0 && d.tcp(b).offset > 0
  }

  /** `getProtocol(protocol).handlePacket(buffer)` for a layer: the ARP layer has no
      handlePacket, so calling it throws TypeError; the IP layer keeps only packets for the
      local IP (null otherwise); UDP and TCP return their decoder's result. */
  function Handle(c: Codec, buffer: seq<Byte>, d: Decoders, localIp: string)
    : (r: Result<Option<Decoded>>)
    requires Consumes(d)
    ensures r.Err? <==> c == ArpCodec
    ensures r.Ok? && r.value.Some? ==> r.value.value.offset > 0
    ensures c == IpCodec ==> r == Ok(IpLayer.HandlePacket(buffer, d.ipv4, localIp))
    ensures c == UdpCodec ==> r == Ok(Some(d.udp(buffer)))
    ensures c == TcpCodec ==> r == Ok(Some(d.tcp(buffer)))
  {
    match c
    case ArpCodec => Err(TypeError)
    case IpCodec => Ok(IpLayer.HandlePacket(buffer, d.ipv4, localIp))
    case UdpCodec => Ok(Some(d.udp(buffer)))
    case TcpCodec => Ok(Some(d.tcp(buffer)))
  }

  /** How `receivePacket` ends: it dispatches the info of the header that consumed the rest
      of the buffer, drops the frame when a layer returns null, or spins: a step that throws
      is caught and retried on the same state, so it throws forever. */
  datatype Outcome = Dispatched(info: Info) | Dropped | Spins

  /** The loop of `receivePacket` from the given buffer and protocol. */
  function Deliver(buffer: seq<Byte>, protocol: Option<int>, d: Decoders, localIp: string)
    : (r: Outcome)
    requires Consumes(d)
    ensures GetProtocol(protocol).None? ==> r == Spins
    ensures GetProtocol(protocol).Some? && Handle(GetProtocol(protocol).value, buffer, d, localIp).Err?
            ==> r == Spins
    ensures GetProtocol(protocol).Some?
            && Handle(GetProtocol(protocol).value, buffer, d, localIp) == Ok(None)
            ==> r == Dropped
    ensures GetProtocol(protocol).Some?
            && Handle(GetProtocol(protocol).value, buffer, d, localIp).Ok?
            && Handle(GetProtocol(protocol).value, buffer, d, localIp).value.Some?
            && |SliceFrom(buffer, Handle(GetProtocol(protocol).value, buffer, d, localIp).value.value.offset)| == 0
            ==> r == Dispatched(Handle(GetProtocol(protocol).value, buffer, d, localIp).value.value.info)
    decreases |buffer|
  {
    match GetProtocol(protocol)
    case None => Spins
    case Some(c) =>
      match Handle(c, buffer, d, localIp)
      case Err(_) => Spins
      case Ok(None) => Dropped
      case Ok(Some(res)) =>
        var rest := SliceFrom(buffer, res.offset);
        if |rest| == 0 then Dispatched(res.info)
        else Deliver(rest, res.info.protocol, d, localIp)
  }

  /** `PROTOCOL.IP[type]`: the IP protocol number named by the ethertype's name. */
  function IpNumber(typeName: Option<string>, ipNumbers: map<string, int>): Option<int> {
    if typeName.Some? && typeName.value in ipNumbers then Some(ipNumbers[typeName.value])
    else None
  }

  /** A protocol with no layer, or the ARP layer, is never left: the frame is never
      dispatched and receivePacket does not return. */
  lemma NoLayerSpins(buffer: seq<Byte>, protocol: Option<int>, d: Decoders, localIp: string)
    requires Consumes(d)
    requires GetProtocol(protocol).None? || protocol == Some(ETHERNET_ARP)
    ensures Deliver(buffer, protocol, d, localIp) == Spins
  {
  }

  /** An IPv4 packet for another host is dropped without dispatch. */
  lemma ForeignPacketDropped(buffer: seq<Byte>, d: Decoders, localIp: string)
    requires Consumes(d)
    requires d.ipv4(buffer).info.dstaddr != Some(localIp)
    ensures Deliver(buffer, Some(IP_IPV4), d, localIp) == Dropped
  {
  }

  /** A TCP segment without payload inside an IPv4 packet for the local IP is dispatched
      with the TCP header's info. */
  lemma TcpSegmentDispatched(buffer: seq<Byte>, d: Decoders, localIp: string)
    requires Consumes(d)
    requires d.ipv4(buffer).info.dstaddr == Some(localIp)
    requires d.ipv4(buffer).info.protocol == Some(IP_TCP)
    requires d.ipv4(buffer).offset < |buffer|
    requires var seg := SliceFrom(buffer, d.ipv4(buffer).offset);
      d.tcp(seg).offset >= |seg|
    ensures var seg := SliceFrom(buffer, d.ipv4(buffer).offset);
      Deliver(buffer, Some(IP_IPV4), d, localIp) == Dispatched(d.tcp(seg).info)
  {
    var seg := SliceFrom(buffer, d.ipv4(buffer).offset);
    assert Handle(IpCodec, buffer, d, localIp) == Ok(Some(d.ipv4(buffer)));
    assert Deliver(buffer, Some(IP_IPV4), d, localIp) == Deliver(seg, Some(IP_TCP), d, localIp);
    assert |SliceFrom(seg, d.tcp(seg).offset)| == 0;
  }

  /** A transport header whose info names no further protocol and that leaves bytes behind
      (a UDP or TCP segment with payload) makes the walk spin: the payload's protocol is
      undefined, and getProtocol(undefined) is null. */
  lemma PayloadAfterTransportSpins(buffer: seq<Byte>, protocol: Option<int>, d: Decoders,
                                   localIp: string)
    requires Consumes(d)
    requires protocol == Some(IP_UDP) || protocol == Some(IP_TCP)
    requires var res := if protocol == Some(IP_UDP) then d.udp(buffer) else d.tcp(buffer);
      res.offset < |buffer| && res.info.protocol.None?
    ensures Deliver(buffer, protocol, d, localIp) == Spins
  {
    var res := if protocol == Some(IP_UDP) then d.udp(buffer) else d.tcp(buffer);
    var rest := SliceFrom(buffer, res.offset);
    assert |rest| > 0;
    NoLayerSpins(rest, None, d, localIp);
  }

  /** `receivePacket(buffer, type)`: walks the buffer down the layers starting from the IP
      protocol named by the ethertype's name; when the walk ends with a decoded header,
      `dispatchData(info)` selects the application whose `handleData` is called, returned as
      its index in the application list. A walk that spins returns `Spins` here. */
  method ReceivePacket(apps: AppManager.ApplicationManager, buffer: seq<Byte>,
                       typeName: Option<string>, ipNumbers: map<string, int>, d: Decoders,
                       localIp: string)
    returns (outcome: Outcome, handler: Option<nat>)
    requires Consumes(d)
    ensures outcome == Deliver(buffer, IpNumber(typeName, ipNumbers), d, localIp)
    ensures handler == if outcome.Dispatched?
      then AppManager.FirstMatch(apps.applicationList, outcome.info.dstport) else None
  {
    var protocol := IpNumber(typeName, ipNumbers);
    var buf := buffer;
    while true
      invariant Deliver(buf, protocol, d, localIp)
             == Deliver(buffer, IpNumber(typeName, ipNumbers), d, localIp)
      decreases |buf|
    {
      var layer := GetProtocol(protocol);
      if layer.None? {
        return Spins, None;
      }
      var step := Handle(layer.value, buf, d, localIp);
      if step.Err? {
        return Spins, None;
      }
      if step.value.None? {
        return Dropped, None;
      }
      var data := step.value.value;
      buf := SliceFrom(buf, data.offset);
      if |buf| == 0 {
        outcome := Dispatched(data.info);
        handler := apps.DispatchData(data.info);
        return;
      }
      protocol := data.info.protocol;
    }
  }

  /** `sendPacket(data, monitor)`: with `monitor`, registers `receivePacket` as one more
      'packet' listener; then sends the data to the router's MAC as an IPv4 frame. */
  method SendPacket(link: DataLink.DataLinkLayer, data: Option<seq<Byte>>, monitor: bool,
                    routerIp: string)
    returns (err: Option<JsError>)
    modifies link
    ensures link.listeners == old(link.listeners) + (if monitor then 1 else 0)
    ensures link.isOpen == old(link.isOpen)
    ensures data.None? ==> err.None? && link.sent == old(link.sent)
    ensures data.Some? ==> DataLink.Transmitted(old(link.sent), link.sent, err,
      DataLink.Frame(data.value, ROUTER_MAC, link.localMac, ETHERNET_IPV4))
  {
    var routerMac := IpMacTable(routerIp)[routerIp];
    if monitor {
      link.ReceivePacket();
    }
    err := link.SendData(data, routerMac, ETHERNET_IPV4);
  }

  /** The ARP request `getRouterMac` builds: from the local MAC to the router's IP, every
      other field left to its default. */
  function RouterRequest(localMac: Option<string>, routerIp: string): ArpLayer.ArpHeaderInfo {
    ArpLayer.ArpHeaderInfo(None, None, None, None, None, localMac, None, None, Some(routerIp))
  }

  /** `getRouterMac()`: builds the ARP request for the router's IP (throwing what
      createPacket throws), registers a listener that ignores what it receives, and
      broadcasts the request as an ARP frame. */
  method GetRouterMac(link: DataLink.DataLinkLayer, routerIp: string, localIp: string)
    returns (err: Option<JsError>)
    modifies link
    ensures link.isOpen == old(link.isOpen)
    ensures match ArpLayer.ArpPacket(RouterRequest(link.localMac, routerIp), localIp)
      case Err(e) =>
        err == Some(e) && link.sent == old(link.sent) && link.listeners == old(link.listeners)
      case Ok(arp) =>
        link.listeners == old(link.listeners) + 1
        && DataLink.Transmitted(old(link.sent), link.sent, err,
             DataLink.Frame(arp, BROADCAST_MAC, link.localMac, ETHERNET_ARP))
  {
    var arpPacket := ArpLayer.CreatePacket(RouterRequest(link.localMac, routerIp), localIp);
    if arpPacket.Err? {
      return Some(arpPacket.error);
    }
    link.ReceivePacket();
    err := link.SendData(Some(arpPacket.value), BROADCAST_MAC, ETHERNET_ARP);
  }
}
