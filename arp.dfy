/** protocol/ARPProtocolLayer.js: createPacket builds the 28-byte ARP packet of RFC 826 for
    Ethernet and IPv4, filling a fresh zeroed buffer field by field. */
module ArpLayer {
  import opened Wrappers
  import opened Bytes
  import opened JsText
  import opened Utils

  const ARP_PACKET_SIZE := 28
  /** The IPv4 ethertype, the default protocol type. */
  const ETHERTYPE_IPV4 := 0x0800
  /** The target hardware address of a request: not yet known, so all zero. */
  const ZERO_MAC := "00:00:00:00:00:00"

  /** The fields of the headerInfo object; `None` is a missing (undefined) property. */
  datatype ArpHeaderInfo = ArpHeaderInfo(
    hardwareType: Option<int>,
    protocolType: Option<int>,
    macAddrLen: Option<int>,
    ipAddrLen: Option<int>,
    optionType: Option<int>,
    srcMacAddr: Option<string>,
    srcIp: Option<string>,
    dstMacAddr: Option<string>,
    dstIp: Option<string>)

  /** The source IP after the destructuring default: the local IP when missing. */
  function SrcIp(h: ArpHeaderInfo, localIp: string): Option<string> {
    if h.srcIp.None? then Some(localIp) else h.srcIp
  }

  /** The target MAC after the destructuring default: all zero when missing. */
  function DstMac(h: ArpHeaderInfo): Option<string> {
    if h.dstMacAddr.None? then Some(ZERO_MAC) else h.dstMacAddr
  }

  /** Whether the guard of createPacket lets the call through. */
  predicate HasAddresses(h: ArpHeaderInfo, localIp: string) {
    Truthy(h.srcMacAddr) && Truthy(SrcIp(h, localIp)) && Truthy(DstMac(h)) && Truthy(h.dstIp)
  }

  /** Whether every address fits its field, so that no write throws RangeError. */
  predicate AddressesFit(h: ArpHeaderInfo, localIp: string)
    requires HasAddresses(h, localIp)
  {
    Fits(h.srcMacAddr.value, 6) && Fits(SrcIp(h, localIp).value, 4)
    && Fits(DstMac(h).value, 6) && Fits(h.dstIp.value, 4)
  }

  /** Bytes 0-7: hardware type, protocol type, address lengths and operation, with defaults
      1, IPv4, 6, 4 and 1 (request). */
  function FixedPart(h: ArpHeaderInfo): seq<Byte> {
    Be16(h.hardwareType.GetOr(1)) + Be16(h.protocolType.GetOr(ETHERTYPE_IPV4))
    + [Int8(h.macAddrLen.GetOr(6))] + [Int8(h.ipAddrLen.GetOr(4))] + Be16(h.optionType.GetOr(1))
  }

  /** The bytes of a packet whose addresses fit: the fixed part, then source MAC at 8-13,
      source IP at 14-17, target MAC at 18-23 and target IP at 24-27. */
  function Layout(f: seq<Byte>, srcMac: string, srcIp: string, dstMac: string, dstIp: string)
    : seq<Byte>
    requires Fits(srcMac, 6) && Fits(srcIp, 4) && Fits(dstMac, 6) && Fits(dstIp, 4)
  {
    f + Field(srcMac, 6) + Field(srcIp, 4) + Field(dstMac, 6) + Field(dstIp, 4)
  }

  /** What createPacket returns or throws. */
  function ArpPacket(h: ArpHeaderInfo, localIp: string): (r: Result<seq<Byte>>)
    ensures r == Err(Error("ip & mac is required")) <==> !HasAddresses(h, localIp)
    ensures r == Err(RangeError) <==> HasAddresses(h, localIp) && !AddressesFit(h, localIp)
    ensures r.Ok? ==> |r.value| == ARP_PACKET_SIZE && r.value[..8] == FixedPart(h)
  {
    if !HasAddresses(h, localIp) then Err(Error("ip & mac is required"))
    else if !AddressesFit(h, localIp) then Err(RangeError)
    else Ok(Layout(FixedPart(h), h.srcMacAddr.value, SrcIp(h, localIp).value, DstMac(h).value,
                   h.dstIp.value))
  }

  /** The five numeric fields written through setInt16 / setInt8 at offsets 0, 2, 4, 5, 6. */
  method WriteFixedPart(packet: array<Byte>, h: ArpHeaderInfo)
    requires packet.Length == ARP_PACKET_SIZE && packet[..] == Zeros(ARP_PACKET_SIZE)
    modifies packet
    ensures packet[..] == FixedPart(h) + Zeros(20)
  {
    assert packet[..] == [] + Zeros(28);
    PutInt16(packet, [], 0, h.hardwareType.GetOr(1), 28);
    ghost var p := Be16(h.hardwareType.GetOr(1));
    PutInt16(packet, p, 2, h.protocolType.GetOr(ETHERTYPE_IPV4), 26);
    p := p + Be16(h.protocolType.GetOr(ETHERTYPE_IPV4));
    PutInt8(packet, p, 4, h.macAddrLen.GetOr(6), 24);
    p := p + [Int8(h.macAddrLen.GetOr(6))];
    PutInt8(packet, p, 5, h.ipAddrLen.GetOr(4), 23);
    p := p + [Int8(h.ipAddrLen.GetOr(4))];
    PutInt16(packet, p, 6, h.optionType.GetOr(1), 22);
  }

  /** The four addrToArrayBuffer calls, in order; the first address that does not fit its
      field throws RangeError (ok is false). */
  method WriteAddresses(packet: array<Byte>, f: seq<Byte>, srcMac: string, srcIp: string,
                        dstMac: string, dstIp: string) returns (ok: bool)
    requires |f| == 8 && packet[..] == f + Zeros(20)
    modifies packet
    ensures ok == (Fits(srcMac, 6) && Fits(srcIp, 4) && Fits(dstMac, 6) && Fits(dstIp, 4))
    ensures ok ==> packet[..] == Layout(f, srcMac, srcIp, dstMac, dstIp)
  {
    ok := WriteAddress(packet, f, 8, srcMac, 6, 20);
    if !ok { return; }
    ghost var p := f + Field(srcMac, 6);
    ok := WriteAddress(packet, p, 14, srcIp, 4, 14);
    if !ok { return; }
    p := p + Field(srcIp, 4);
    ok := WriteAddress(packet, p, 18, dstMac, 6, 10);
    if !ok { return; }
    p := p + Field(dstMac, 6);
    ok := WriteAddress(packet, p, 24, dstIp, 4, 4);
    if !ok { return; }
    assert Zeros(0) == [];
    assert packet[..] == p + Field(dstIp, 4);
  }

  /** `ARPProtocolLayer.createPacket(headerInfo)`. */
  method CreatePacket(h: ArpHeaderInfo, localIp: string) returns (r: Result<seq<Byte>>)
    ensures r == ArpPacket(h, localIp)
  {
    var srcIp := SrcIp(h, localIp);
    var dstMac := DstMac(h);
    if !(Truthy(h.srcMacAddr) && Truthy(srcIp) && Truthy(dstMac) && Truthy(h.dstIp)) {
      return Err(Error("ip & mac is required"));
    }
    var packet := new Byte[ARP_PACKET_SIZE](_ => 0);
    assert packet[..] == Zeros(ARP_PACKET_SIZE);
    WriteFixedPart(packet, h);
    var ok := WriteAddresses(packet, FixedPart(h), h.srcMacAddr.value, srcIp.value, dstMac.value,
                             h.dstIp.value);
    if !ok {
      return Err(RangeError);
    }
    return Ok(packet[..]);
  }

  /** The numeric fields of bytes 0-7, each wrapped to its width. */
  lemma FixedPartLayout(h: ArpHeaderInfo)
    ensures var f := FixedPart(h);
      && |f| == 8
      && Uint16(f[0..2]) == h.hardwareType.GetOr(1) % 0x1_0000
      && Uint16(f[2..4]) == h.protocolType.GetOr(ETHERTYPE_IPV4) % 0x1_0000
      && f[4] == h.macAddrLen.GetOr(6) % 256 && f[5] == h.ipAddrLen.GetOr(4) % 256
      && Uint16(f[6..8]) == h.optionType.GetOr(1) % 0x1_0000
  {
    var f := FixedPart(h);
    assert f[0..2] == Be16(h.hardwareType.GetOr(1));
    assert f[2..4] == Be16(h.protocolType.GetOr(ETHERTYPE_IPV4));
    assert f[6..8] == Be16(h.optionType.GetOr(1));
  }

  /** Each address field of a packet sits at its offset; the packet is 28 bytes. */
  lemma LayoutFields(f: seq<Byte>, srcMac: string, srcIp: string, dstMac: string, dstIp: string)
    requires |f| == 8 && Fits(srcMac, 6) && Fits(srcIp, 4) && Fits(dstMac, 6) && Fits(dstIp, 4)
    ensures var p := Layout(f, srcMac, srcIp, dstMac, dstIp);
      && |p| == ARP_PACKET_SIZE && p[..8] == f
      && p[8..14] == Field(srcMac, 6) && p[14..18] == Field(srcIp, 4)
      && p[18..24] == Field(dstMac, 6) && p[24..28] == Field(dstIp, 4)
  {
    FiveParts(f, Field(srcMac, 6), Field(srcIp, 4), Field(dstMac, 6), Field(dstIp, 4));
  }

  /** Where each of five concatenated parts sits. */
  lemma FiveParts(f: seq<Byte>, a: seq<Byte>, b: seq<Byte>, c: seq<Byte>, d: seq<Byte>)
    requires |f| == 8 && |a| == 6 && |b| == 4 && |c| == 6 && |d| == 4
    ensures var p := f + a + b + c + d;
      && |p| == ARP_PACKET_SIZE && p[..8] == f && p[8..14] == a && p[14..18] == b
      && p[18..24] == c && p[24..28] == d
  {
    var p3 := f + a + b + c;
    var p2 := f + a + b;
    var p1 := f + a;
    assert (p3 + d)[..24] == p3 && (p3 + d)[24..28] == d;
    assert p3[..18] == p2 && p3[18..24] == c;
    assert p2[..14] == p1 && p2[14..18] == b;
    assert p1[..8] == f && p1[8..14] == a;
  }

  /** The guard throws exactly when an address is missing or empty. */
  lemma ArpGuard(h: ArpHeaderInfo, localIp: string)
    ensures ArpPacket(h, localIp) == Err(Error("ip & mac is required")) <==> !HasAddresses(h, localIp)
  {
  }

  /** The all-zero MAC text is written as six zero bytes. */
  lemma ZeroMacField()
    ensures Fits(ZERO_MAC, 6) && Field(ZERO_MAC, 6) == Zeros(6)
  {
    var z: seq<Byte> := [0, 0, 0, 0, 0, 0];
    assert Hex2(0) == "00";
    var parts := seq(6, k requires 0 <= k < 6 => Hex2(z[k]));
    assert parts == ["00", "00", "00", "00", "00", "00"];
    JoinZeroPairs();
    MacTextRoundTrip(z);
    assert Zeros(0) == [];
    assert Zeros(6) == z;
  }

  /** Six "00" pieces joined by ':' are the all-zero MAC text. */
  lemma JoinZeroPairs()
    ensures Join(["00", "00", "00", "00", "00", "00"], ':') == ZERO_MAC
  {
    var l: seq<string> := ["00", "00", "00", "00", "00", "00"];
    assert Join(l[5..], ':') == "00";
    assert Join(l[4..], ':') == "00:00" by { assert l[4..][1..] == l[5..]; }
    assert Join(l[3..], ':') == "00:00:00" by { assert l[3..][1..] == l[4..]; }
    assert Join(l[2..], ':') == "00:00:00:00" by { assert l[2..][1..] == l[3..]; }
    assert Join(l[1..], ':') == "00:00:00:00:00" by { assert l[1..][1..] == l[2..]; }
  }

  /** The request headerInfo `{srcMacAddr, dstIp}` that leaves every other field to its
      default, as ProtocolManager.getRouterMac passes it. */
  function RequestInfo(srcMac: string, dstIp: string): ArpHeaderInfo {
    ArpHeaderInfo(None, None, None, None, None, Some(srcMac), None, None, Some(dstIp))
  }

  /** The defaults give hardware type 1 (Ethernet), protocol type 0x0800 (IPv4), address
      lengths 6 and 4, and operation 1 (request). */
  lemma DefaultFixedPart(srcMac: string, dstIp: string)
    ensures FixedPart(RequestInfo(srcMac, dstIp)) == [0, 1, 8, 0, 6, 4, 0, 1]
  {
  }

  /** A field written from the text form of its own bytes holds exactly those bytes. */
  lemma FormattedFields(mac: seq<Byte>, ip: seq<Byte>)
    requires |mac| == 6 && |ip| == 4
    ensures Fits(FormatMac(mac), 6) && Field(FormatMac(mac), 6) == mac
    ensures Fits(FormatIpv4(ip), 4) && Field(FormatIpv4(ip), 4) == ip
  {
    MacTextRoundTrip(mac);
    Ipv4TextRoundTrip(ip);
    assert Zeros(0) == [];
    assert mac + Zeros(0) == mac;
    assert ip + Zeros(0) == ip;
  }

  /** A request built from defaults, a well-formed source MAC, local IP and target IP: the
      28 bytes of an RFC 826 request for IPv4 over Ethernet with the target MAC zeroed and
      the local IP as sender. */
  lemma DefaultRequest(mac: seq<Byte>, local: seq<Byte>, target: seq<Byte>)
    requires |mac| == 6 && |local| == 4 && |target| == 4
    ensures ArpPacket(RequestInfo(FormatMac(mac), FormatIpv4(target)), FormatIpv4(local))
         == Ok([0, 1, 8, 0, 6, 4, 0, 1] + mac + local + Zeros(6) + target)
  {
    FormattedFields(mac, local);
    FormattedFields(mac, target);
    RequestOf(FormatMac(mac), FormatIpv4(target), FormatIpv4(local), mac, local, target);
  }

  /** The request for address texts that are non-empty and denote the given bytes. */
  lemma RequestOf(srcMac: string, dstIp: string, localIp: string,
                  mac: seq<Byte>, local: seq<Byte>, target: seq<Byte>)
    requires srcMac != "" && dstIp != "" && localIp != ""
    requires Fits(srcMac, 6) && Field(srcMac, 6) == mac
    requires Fits(localIp, 4) && Field(localIp, 4) == local
    requires Fits(dstIp, 4) && Field(dstIp, 4) == target
    ensures ArpPacket(RequestInfo(srcMac, dstIp), localIp)
         == Ok([0, 1, 8, 0, 6, 4, 0, 1] + mac + local + Zeros(6) + target)
  {
    var h := RequestInfo(srcMac, dstIp);
    ZeroMacField();
    RequestAccepted(srcMac, dstIp, localIp);
    assert ArpPacket(h, localIp) == Ok(Layout(FixedPart(h), srcMac, localIp, ZERO_MAC, dstIp));
    DefaultFixedPart(srcMac, dstIp);
    LayoutOf([0, 1, 8, 0, 6, 4, 0, 1], srcMac, localIp, ZERO_MAC, dstIp, mac, local, Zeros(6),
             target);
  }

  /** A default request with non-empty addresses that fit passes the guard and writes. */
  lemma RequestAccepted(srcMac: string, dstIp: string, localIp: string)
    requires srcMac != "" && dstIp != "" && localIp != ""
    requires Fits(srcMac, 6) && Fits(localIp, 4) && Fits(dstIp, 4) && Fits(ZERO_MAC, 6)
    ensures HasAddresses(RequestInfo(srcMac, dstIp), localIp)
    ensures AddressesFit(RequestInfo(srcMac, dstIp), localIp)
  {
  }

  lemma LayoutOf(f: seq<Byte>, srcMac: string, srcIp: string, dstMac: string, dstIp: string,
                 a: seq<Byte>, b: seq<Byte>, c: seq<Byte>, d: seq<Byte>)
    requires Fits(srcMac, 6) && Fits(srcIp, 4) && Fits(dstMac, 6) && Fits(dstIp, 4)
    requires Field(srcMac, 6) == a && Field(srcIp, 4) == b
    requires Field(dstMac, 6) == c && Field(dstIp, 4) == d
    ensures Layout(f, srcMac, srcIp, dstMac, dstIp) == f + a + b + c + d
  {
  }
}
