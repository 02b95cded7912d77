/** application/TCPThreeHandshake.js: the client side of the TCP three-way handshake
    (section 3.4 of RFC 793). Construction builds the SYN; a received SYN+ACK that
    acknowledges it is answered with an ACK; every received segment schedules a FIN+ACK two
    seconds later. Each segment is wrapped in IPv4 and sent to the router with monitoring on.
    The random source port, initial sequence number and IP identification are parameters,
    and the scheduled releases are counted rather than timed. */
module Handshake {
  import opened Wrappers
  import opened Bytes
  import opened JsText
  import opened Utils
  import opened Cap
  import TcpLayer
  import IpLayer
  import DataLink
  import ProtocolManager

  const DEFAULT_WINDOW_SIZE := 17520
  /** The flags of a SYN+ACK: 0b000000010010. */
  const SYN_ACK := 0x12
  /** The IP flags of every packet sent: 0b010, Don't Fragment. */
  const IP_FLAGS := 2

  /** Addresses with which createHeader and createPacket do not throw: a non-empty source
      and destination IP, each of at most four components. */
  predicate Addressed(srcIp: string, dstIp: Option<string>) {
    srcIp != "" && Truthy(dstIp) && Fits(srcIp, 4) && Fits(dstIp.value, 4)
  }

  /** The headerInfo of every segment sent: no URG, PSH or RST, urgent pointer 0, no data. */
  function SegmentInfo(srcIp: string, dstIp: Option<string>, srcPort: int, dstPort: Option<int>,
                       seqNum: int, ackNum: Option<int>, ack: bool, syn: bool, fin: bool,
                       windowSize: int): TcpLayer.TcpHeaderInfo
  {
    TcpLayer.TcpHeaderInfo(Some(srcIp), dstIp, Some(srcPort), dstPort, Some(seqNum), ackNum,
                           false, ack, false, false, syn, fin, Some(windowSize), Some(0), None)
  }

  /** `seqno + 1` as setInt32 stores it: an undefined seqno gives NaN, stored as 0. */
  function AckNumber(seqno: Option<int>): Option<int> {
    if seqno.Some? then Some(seqno.value + 1) else None
  }

  /** A segment createHeader returned, read back: sequence number at bytes 4-7,
      acknowledgment number at 8-11 (both modulo 2^32), flags at 13 and window at 14-15. */
  lemma SentSegmentFields(h: TcpLayer.TcpHeaderInfo, r: seq<Byte>)
    requires TcpLayer.TcpSegment(h) == Ok(r)
    ensures Uint16(r[0..2]) == h.srcPort.GetOr(0) % 0x1_0000
    ensures Uint16(r[2..4]) == h.dstPort.GetOr(0) % 0x1_0000
    ensures Uint32(r[4..8]) == h.seqNum.GetOr(0) % 0x1_0000_0000
    ensures Uint32(r[8..12]) == h.ackNum.GetOr(0) % 0x1_0000_0000
    ensures r[13] == TcpLayer.Flags(h)
    ensures Uint16(r[14..16]) == h.windowSize.GetOr(0) % 0x1_0000
  {
    var s := TcpLayer.Segment(h);
    TcpLayer.TcpFields(h);
    TcpLayer.SegmentFields(h);
    HeadFields(r, s);
  }

  /** A segment read back in the terms of a handshake: a source port in range, a sequence
      number of at most 2^33 - 1 (wrapping round past 2^32 - 1), a zero acknowledgment number
      and the default window are stored as they are. */
  lemma SegmentRead(h: TcpLayer.TcpHeaderInfo, r: seq<Byte>, port: int, seqNum: int, flags: int)
    requires TcpLayer.TcpSegment(h) == Ok(r)
    requires h.srcPort == Some(port) && 0 <= port < 0x1_0000
    requires h.seqNum == Some(seqNum) && 0 <= seqNum < 2 * 0x1_0000_0000
    requires TcpLayer.Flags(h) == flags
    ensures r[13] == flags
    ensures Uint16(r[0..2]) == port && Uint32(r[4..8]) == Wrap32(seqNum)
    ensures h.ackNum == Some(0) ==> Uint32(r[8..12]) == 0
    ensures h.windowSize == Some(DEFAULT_WINDOW_SIZE) ==> Uint16(r[14..16]) == DEFAULT_WINDOW_SIZE
  {
    SentSegmentFields(h, r);
    InRange(Uint16(r[0..2]), port, 0x1_0000);
    WrapsOnce(Uint32(r[4..8]), seqNum);
    if h.ackNum == Some(0) {
      InRange(Uint32(r[8..12]), 0, 0x1_0000_0000);
    }
    if h.windowSize == Some(DEFAULT_WINDOW_SIZE) {
      InRange(Uint16(r[14..16]), DEFAULT_WINDOW_SIZE, 0x1_0000);
    }
  }

  /** A sequence number of at most 2^33 - 1 as setUint32 stores it. */
  function Wrap32(x: nat): nat {
    if x < 0x1_0000_0000 then x else x - 0x1_0000_0000
  }

  /** Past 2^32 - 1 a sequence number wraps round to 0. */
  lemma WrapsOnce(v: int, x: int)
    requires 0 <= x < 2 * 0x1_0000_0000 && v == x % 0x1_0000_0000
    ensures v == Wrap32(x)
  {
  }

  /** A value already in range is its own remainder. */
  lemma InRange(v: int, x: int, m: int)
    requires 0 <= x < m && v == x % m
    ensures v == x
  {
  }

  /** Sequences that agree on their first 16 bytes agree on the fields inside them. */
  lemma HeadFields(r: seq<Byte>, s: seq<Byte>)
    requires 16 <= |r| && 16 <= |s| && r[..16] == s[..16]
    ensures r[0..2] == s[0..2] && r[2..4] == s[2..4] && r[4..8] == s[4..8]
    ensures r[8..12] == s[8..12] && r[13] == s[13] && r[14..16] == s[14..16]
  {
    assert forall i :: 0 <= i < 16 ==> r[i] == s[i];
  }

  class TcpThreeHandshake {
    const srcIp: string
    const dstIp: Option<string>
    const srcPort: int
    const dstPort: Option<int>
    /** The initial sequence number. */
    const seqNum: int
    const windowSize: int
    /** The segment last built: the SYN, then the ACK, then the FIN+ACK. */
    var packet: seq<Byte>
    /** Releases scheduled by handleData and not yet run. */
    var pendingReleases: nat

    /** The addresses let every segment be built, and the random draws are in range:
        srcPort = floor(random * 10000 + 10000), seqNum = floor(random * 4294967295). */
    predicate Valid() {
      Addressed(srcIp, dstIp) && 10000 <= srcPort < 20000 && 0 <= seqNum < 0xFFFF_FFFF
    }

    function SynInfo(): TcpLayer.TcpHeaderInfo {
      SegmentInfo(srcIp, dstIp, srcPort, dstPort, seqNum, Some(0), false, true, false, windowSize)
    }

    function AckInfo(seqno: Option<int>): TcpLayer.TcpHeaderInfo {
      SegmentInfo(srcIp, dstIp, srcPort, dstPort, seqNum + 1, AckNumber(seqno), true, false,
                  false, DEFAULT_WINDOW_SIZE)
    }

    function FinInfo(): TcpLayer.TcpHeaderInfo {
      SegmentInfo(srcIp, dstIp, srcPort, dstPort, seqNum + 2, Some(0), true, false, true,
                  DEFAULT_WINDOW_SIZE)
    }

    /** The SYN built at construction. */
    function Syn(): (r: seq<Byte>)
      requires Valid()
      ensures TcpLayer.TcpSegment(SynInfo()) == Ok(r) && |r| == 32
    {
      TcpLayer.TcpSegment(SynInfo()).value
    }

    /** The ACK that answers a SYN+ACK with sequence number seqno. */
    function Ack(seqno: Option<int>): (r: seq<Byte>)
      requires Valid()
      ensures TcpLayer.TcpSegment(AckInfo(seqno)) == Ok(r) && |r| == 32
    {
      TcpLayer.TcpSegment(AckInfo(seqno)).value
    }

    /** The FIN+ACK of the release. */
    function Fin(): (r: seq<Byte>)
      requires Valid()
      ensures TcpLayer.TcpSegment(FinInfo()) == Ok(r) && |r| == 32
    {
      TcpLayer.TcpSegment(FinInfo()).value
    }

    /** The headerInfo createIpPacket passes: TCP, Don't Fragment, the given segment. */
    function IpInfo(segment: seq<Byte>): IpLayer.IpHeaderInfo {
      IpLayer.IpHeaderInfo(dstIp, Some(srcIp), Some(segment), None, None, Some(IP_FLAGS), None,
                           None, Some(IP_TCP))
    }

    /** The IPv4 packet that carries a segment. */
    function Datagram(segment: seq<Byte>, ident: int): (r: seq<Byte>)
      requires Valid()
      ensures IpLayer.IpPacket(IpInfo(segment), ident) == Ok(r)
      ensures |r| == IpLayer.IP_HEADER_FIXED_LENGTH + |segment|
    {
      var h := IpInfo(segment);
      assert IpLayer.Options(h) == [] && IpLayer.Payload(h) == segment;
      assert IpLayer.HeaderLength(0) == 5;
      IpLayer.IpPacketAccepted(h, ident);
      IpLayer.IpPacket(h, ident).value
    }

    /** The frame a send of the segment hands to `cap.send`, or what building it throws. */
    function FrameOf(segment: seq<Byte>, ident: int, localMac: Option<string>)
      : Result<seq<Byte>>
      requires Valid()
    {
      DataLink.Frame(Datagram(segment, ident), ProtocolManager.ROUTER_MAC, localMac,
                     ETHERNET_IPV4)
    }

    /** Whether a decoded segment is the SYN+ACK that acknowledges the SYN. */
    predicate Replies(data: Info) {
      data.ackno == Some(seqNum + 1) && data.flags == Some(SYN_ACK)
    }

    /** `new TCPThreeHandshake({srcIp, dstIp, dstPort, windowSize})`, with the local IP as
        the default source and the two random draws given. */
    constructor(srcIp: Option<string>, dstIp: Option<string>, dstPort: Option<int>,
                windowSize: Option<int>, localIp: string, portDraw: int, seqDraw: int)
      requires Addressed(srcIp.GetOr(localIp), dstIp)
      requires 10000 <= portDraw < 20000 && 0 <= seqDraw < 0xFFFF_FFFF
      ensures this.srcIp == srcIp.GetOr(localIp) && this.dstIp == dstIp
      ensures this.srcPort == portDraw && this.dstPort == dstPort && this.seqNum == seqDraw
      ensures this.windowSize == windowSize.GetOr(DEFAULT_WINDOW_SIZE)
      ensures Valid() && packet == Syn() && pendingReleases == 0
    {
      this.srcIp := srcIp.GetOr(localIp);
      this.dstIp := dstIp;
      this.srcPort := portDraw;
      this.dstPort := dstPort;
      this.seqNum := seqDraw;
      this.windowSize := windowSize.GetOr(DEFAULT_WINDOW_SIZE);
      pendingReleases := 0;
      new;
      var syn := TcpLayer.CreateHeader(SynInfo());
      packet := syn.value;
    }

    /** `createIpPacket()`: the current segment wrapped in IPv4. */
    method CreateIpPacket(ident: int) returns (r: seq<Byte>)
      requires Valid() && 0 <= ident < 65535
      ensures r == Datagram(packet, ident)
    {
      var ip := IpLayer.CreatePacket(IpInfo(packet), ident);
      IpLayer.IpPacketAccepted(IpInfo(packet), ident);
      r := ip.value;
    }

    /** `sendData()`: sends the current segment's IPv4 packet with monitoring on. */
    method SendData(link: DataLink.DataLinkLayer, ident: int, routerIp: string)
      returns (err: Option<JsError>)
      requires Valid() && 0 <= ident < 65535
      modifies link
      ensures link.listeners == old(link.listeners) + 1 && link.isOpen == old(link.isOpen)
      ensures DataLink.Transmitted(old(link.sent), link.sent, err,
                                   FrameOf(packet, ident, link.localMac))
    {
      var ip := CreateIpPacket(ident);
      err := ProtocolManager.SendPacket(link, Some(ip), true, routerIp);
    }

    /** `handleData(data)`: answers the SYN+ACK that acknowledges the SYN, then schedules a
        release. A send that throws ends the call before the release is scheduled. */
    method HandleData(data: Info, link: DataLink.DataLinkLayer, ident: int, routerIp: string)
      returns (err: Option<JsError>)
      requires Valid() && 0 <= ident < 65535
      modifies this, link
      ensures Replies(data) ==>
        && packet == Ack(data.seqno)
        && link.listeners == old(link.listeners) + 1
        && DataLink.Transmitted(old(link.sent), link.sent, err,
                                FrameOf(Ack(data.seqno), ident, link.localMac))
      ensures !Replies(data) ==>
        && packet == old(packet) && err.None?
        && link.sent == old(link.sent) && link.listeners == old(link.listeners)
      ensures pendingReleases == old(pendingReleases) + (if err.None? then 1 else 0)
      ensures link.isOpen == old(link.isOpen)
    {
      err := None;
      if Replies(data) {
        err := ReplySynAck(data.seqno, link, ident, routerIp);
        if err.Some? {
          return;
        }
      }
      pendingReleases := pendingReleases + 1;
    }

    /** `replySynAck(seqno)`: builds the ACK (sequence number one past the initial one,
        acknowledging seqno + 1, window 17520) and sends it. */
    method ReplySynAck(seqno: Option<int>, link: DataLink.DataLinkLayer, ident: int,
                       routerIp: string)
      returns (err: Option<JsError>)
      requires Valid() && 0 <= ident < 65535
      modifies this, link
      ensures packet == Ack(seqno) && pendingReleases == old(pendingReleases)
      ensures link.listeners == old(link.listeners) + 1 && link.isOpen == old(link.isOpen)
      ensures DataLink.Transmitted(old(link.sent), link.sent, err,
                                   FrameOf(Ack(seqno), ident, link.localMac))
    {
      BuildSegment(AckInfo(seqno));
      err := SendData(link, ident, routerIp);
    }

    /** `this.packet = TCPProtocolLayer.createHeader(headerInfo)` for a headerInfo that
        createHeader accepts. */
    method BuildSegment(h: TcpLayer.TcpHeaderInfo)
      requires TcpLayer.TcpSegment(h).Ok?
      modifies this
      ensures TcpLayer.TcpSegment(h) == Ok(packet) && pendingReleases == old(pendingReleases)
    {
      var segment := TcpLayer.CreateHeader(h);
      packet := segment.value;
    }

    /** `release(seqno)`: builds the FIN+ACK (sequence number two past the initial one,
        acknowledgment number 0; seqno is not used) and sends it. */
    method Release(link: DataLink.DataLinkLayer, ident: int, routerIp: string)
      returns (err: Option<JsError>)
      requires Valid() && 0 <= ident < 65535
      modifies this, link
      ensures packet == Fin() && pendingReleases == old(pendingReleases)
      ensures link.listeners == old(link.listeners) + 1 && link.isOpen == old(link.isOpen)
      ensures DataLink.Transmitted(old(link.sent), link.sent, err,
                                   FrameOf(Fin(), ident, link.localMac))
    {
      BuildSegment(FinInfo());
      err := SendData(link, ident, routerIp);
    }

    /** The timer of one scheduled release fires. */
    method FireRelease(link: DataLink.DataLinkLayer, ident: int, routerIp: string)
      returns (err: Option<JsError>)
      requires Valid() && 0 <= ident < 65535 && pendingReleases > 0
      modifies this, link
      ensures packet == Fin() && pendingReleases == old(pendingReleases) - 1
      ensures link.listeners == old(link.listeners) + 1 && link.isOpen == old(link.isOpen)
      ensures DataLink.Transmitted(old(link.sent), link.sent, err,
                                   FrameOf(Fin(), ident, link.localMac))
    {
      pendingReleases := pendingReleases - 1;
      err := Release(link, ident, routerIp);
    }

    /** The SYN: SYN flag only, the initial sequence number, acknowledgment number 0, the
        source port and the window given at construction. */
    lemma SynFields()
      requires Valid()
      ensures var r := Syn();
        && r[13] == 0x02
        && Uint16(r[0..2]) == srcPort
        && Uint32(r[4..8]) == Wrap32(seqNum)
        && Uint32(r[8..12]) == 0
        && Uint16(r[14..16]) == windowSize % 0x1_0000
    {
      SegmentRead(SynInfo(), Syn(), srcPort, seqNum, 0x02);
      SentSegmentFields(SynInfo(), Syn());
    }

    /** The ACK: ACK flag only, sequence number one past the initial one, acknowledging
        seqno + 1, window 17520. */
    lemma AckFields(seqno: Option<int>)
      requires Valid()
      ensures var r := Ack(seqno);
        && r[13] == 0x10
        && Uint16(r[0..2]) == srcPort
        && Uint32(r[4..8]) == Wrap32(seqNum + 1)
        && Uint32(r[8..12]) == AckNumber(seqno).GetOr(0) % 0x1_0000_0000
        && Uint16(r[14..16]) == DEFAULT_WINDOW_SIZE
    {
      SegmentRead(AckInfo(seqno), Ack(seqno), srcPort, seqNum + 1, 0x10);
      SentSegmentFields(AckInfo(seqno), Ack(seqno));
    }

    /** The FIN+ACK: ACK and FIN flags, sequence number two past the initial one (wrapping
        round past 2^32 - 1), acknowledgment number 0, window 17520. */
    lemma FinFields()
      requires Valid()
      ensures var r := Fin();
        && r[13] == 0x11
        && Uint16(r[0..2]) == srcPort
        && Uint32(r[4..8]) == Wrap32(seqNum + 2)
        && Uint32(r[8..12]) == 0
        && Uint16(r[14..16]) == DEFAULT_WINDOW_SIZE
    {
      SegmentRead(FinInfo(), Fin(), srcPort, seqNum + 2, 0x11);
    }

    /** The third step of the handshake: the ACK that answers a SYN+ACK carries as its
        sequence number the acknowledgment number the peer sent, and acknowledges the
        peer's sequence number plus one. */
    lemma ReplyAcknowledges(data: Info)
      requires Valid() && Replies(data) && data.seqno.Some?
      ensures var r := Ack(data.seqno);
        && Uint32(r[4..8]) == data.ackno.value
        && Uint32(r[8..12]) == (data.seqno.value + 1) % 0x1_0000_0000
        && r[13] == 0x10
    {
      AckFields(data.seqno);
    }

    /** Every packet sent carries its segment in IPv4 with protocol TCP, Don't Fragment and
        the handshake's addresses; the segment follows the 20-byte header unchanged. */
    lemma DatagramCarries(segment: seq<Byte>, ident: int)
      requires Valid()
      ensures var r := Datagram(segment, ident);
        && r[0] == 0x45
        && r[9] == IP_TCP
        && Uint16(r[6..8]) == 0x4000
        && r[12..16] == Field(srcIp, 4) && r[16..20] == Field(dstIp.value, 4)
        && r[20..] == segment
    {
      var h := IpInfo(segment);
      IpLayer.IpPacketAccepted(h, ident);
      IpLayer.IpHeaderFields(h, ident);
      IpLayer.IpBodyFields(h, ident);
      IpLayer.DefaultFlagsDontFragment();
      assert IpLayer.HeaderLength(0) == 5;
    }
  }

  /** `new TCPThreeHandshake(...)` as an expression that may throw: the error of building
      the SYN when the addresses are missing or malformed, a new handshake otherwise. */
  method NewHandshake(srcIp: Option<string>, dstIp: Option<string>, dstPort: Option<int>,
                      windowSize: Option<int>, localIp: string, portDraw: int, seqDraw: int)
    returns (r: Result<TcpThreeHandshake>)
    requires 10000 <= portDraw < 20000 && 0 <= seqDraw < 0xFFFF_FFFF
    ensures r.Err? <==> !Addressed(srcIp.GetOr(localIp), dstIp)
    ensures r.Err? ==> Err(r.error) == TcpLayer.TcpSegment(
      SegmentInfo(srcIp.GetOr(localIp), dstIp, portDraw, dstPort, seqDraw, Some(0), false, true,
                  false, windowSize.GetOr(DEFAULT_WINDOW_SIZE)))
    ensures r.Ok? ==>
      && fresh(r.value) && r.value.Valid() && r.value.packet == r.value.Syn()
      && r.value.pendingReleases == 0
  {
    var syn := TcpLayer.CreateHeader(
      SegmentInfo(srcIp.GetOr(localIp), dstIp, portDraw, dstPort, seqDraw, Some(0), false, true,
                  false, windowSize.GetOr(DEFAULT_WINDOW_SIZE)));
    if syn.Err? {
      return Err(syn.error);
    }
    var hs := new TcpThreeHandshake(srcIp, dstIp, dstPort, windowSize, localIp, portDraw,
                                    seqDraw);
    return Ok(hs);
  }
}
