/** protocol/UDPProtocolLayer.js: createHeader builds a UDP datagram (RFC 768) in a fresh
    zeroed buffer: source port, destination port, length, a zero checksum ("no checksum"),
    then the payload. */
module UdpLayer {
  import opened Wrappers
  import opened Bytes
  import opened Utils

  const LENGTH_WITHOUT_DATA := 8
  const DATA_OFFSET := 8

  /** The fields of the headerInfo object; `None` is a missing property, and for `data` also
      any value that is not an ArrayBuffer. */
  datatype UdpHeaderInfo = UdpHeaderInfo(
    srcPort: Option<int>,
    dstPort: Option<int>,
    data: Option<seq<Byte>>)

  function Payload(h: UdpHeaderInfo): seq<Byte> {
    h.data.GetOr([])
  }

  /** The eight header bytes: each field is stored by setInt16, so modulo 2^16. */
  function Header(srcPort: int, dstPort: int, dataLen: nat): (r: seq<Byte>)
    ensures |r| == LENGTH_WITHOUT_DATA
  {
    Be16(srcPort) + Be16(dstPort) + Be16(LENGTH_WITHOUT_DATA + dataLen) + Be16(0)
  }

  /** What createHeader returns or throws. */
  function UdpDatagram(h: UdpHeaderInfo): (r: Result<seq<Byte>>)
    ensures r.Err? <==> h.srcPort.None? || h.dstPort.None?
    ensures r.Ok? ==> |r.value| == LENGTH_WITHOUT_DATA + |Payload(h)|
  {
    if h.srcPort.None? then Err(Error("headerInfo required srcPort"))
    else if h.dstPort.None? then Err(Error("headerInfo required dstPort"))
    else Ok(Header(h.srcPort.value, h.dstPort.value, |Payload(h)|) + Payload(h))
  }

  /** The datagram read back: the ports at bytes 0-3 modulo 2^16, the length field equal to
      the datagram's own length (modulo 2^16), a zero checksum, the payload unchanged at 8. */
  lemma UdpFields(h: UdpHeaderInfo)
    requires h.srcPort.Some? && h.dstPort.Some?
    ensures var r := UdpDatagram(h).value;
      && Uint16(r[0..2]) == h.srcPort.value % 0x1_0000
      && Uint16(r[2..4]) == h.dstPort.value % 0x1_0000
      && Uint16(r[4..6]) == |r| % 0x1_0000
      && r[6] == 0 && r[7] == 0
      && r[DATA_OFFSET..] == Payload(h)
  {
    var hd := Header(h.srcPort.value, h.dstPort.value, |Payload(h)|);
    var r := hd + Payload(h);
    assert r[0..2] == Be16(h.srcPort.value);
    assert r[2..4] == Be16(h.dstPort.value);
    assert r[4..6] == Be16(LENGTH_WITHOUT_DATA + |Payload(h)|);
    assert r[6..8] == Be16(0);
  }

  /** `UDPProtocolLayer.createHeader(headerInfo)`. */
  method CreateHeader(h: UdpHeaderInfo) returns (r: Result<seq<Byte>>)
    ensures r == UdpDatagram(h)
  {
    if h.srcPort.None? {
      return Err(Error("headerInfo required srcPort"));
    }
    if h.dstPort.None? {
      return Err(Error("headerInfo required dstPort"));
    }
    var dataLen := LENGTH_WITHOUT_DATA;
    if h.data.Some? {
      dataLen := dataLen + |h.data.value|;
    }
    var header := new Byte[dataLen](_ => 0);
    assert header[..] == [] + Zeros(dataLen);
    PutInt16(header, [], 0, h.srcPort.value, dataLen);
    ghost var p := Be16(h.srcPort.value);
    PutInt16(header, p, 2, h.dstPort.value, dataLen - 2);
    p := p + Be16(h.dstPort.value);
    PutInt16(header, p, 4, dataLen, dataLen - 4);
    p := p + Be16(dataLen);
    PutInt16(header, p, 6, 0, dataLen - 6);
    p := p + Be16(0);
    assert p == Header(h.srcPort.value, h.dstPort.value, |Payload(h)|);
    if h.data.Some? {
      var ok := DataToArrayBuffer(h.data, header, DATA_OFFSET, |h.data.value|);
      DataAfterPrefix(p, h.data.value, dataLen - 8);
      assert header[..] == p + h.data.value + [];
    } else {
      assert header[..] == p + [];
    }
    assert header[..] == Header(h.srcPort.value, h.dstPort.value, |Payload(h)|) + Payload(h);
    return Ok(header[..]);
  }
}
