/** protocol/TCPProtocolLayer.js: createHeader builds a TCP segment (section 3.1 of RFC 793)
    in a fresh zeroed buffer: a 20-byte fixed header, twelve bytes of options (maximum
    segment size 1460, window scale 8 and SACK permitted, each aligned with no-operation
    bytes), then room for the data. The checksum is computed over the 12-byte pseudo header
    followed by the segment while its checksum field is still zero. */
module TcpLayer {
  import opened Wrappers
  import opened Bytes
  import opened JsText
  import opened Utils
  import opened Buffer
  import opened Packet
  import opened Cap

  const HEADER_FIXED_SIZE := 20
  const OPTION_SIZE := 12
  const CHECKSUM_OFFSET := 16
  const PSEUDO_HEADER_LENGTH := 12
  const MSS := 1460
  const SHIFT_COUNT := 8
  /** `Math.ceil(headerTotalLength / 4)`: the header length in 32-bit words. */
  const DATA_OFFSET := (HEADER_FIXED_SIZE + OPTION_SIZE + 3) / 4
  /** Where the data view starts: past the options a second time. */
  const TCP_DATA_OFFSET := HEADER_FIXED_SIZE + OPTION_SIZE * 2

  /** Bytes 20-23: kind 2 (maximum segment size), length 4, the value 1460. */
  const MSS_OPTION: seq<Byte> := [2, 4, 5, 0xB4]
  /** Bytes 24-27: a no-operation, then kind 3 (window scale), length 3, shift count 8. */
  const WINDOW_SCALE_OPTION: seq<Byte> := [1, 3, 3, SHIFT_COUNT]
  /** Bytes 28-31: two no-operations, then kind 4 (SACK permitted), length 2. */
  const SACK_PERMITTED_OPTION: seq<Byte> := [1, 1, 4, 2]

  /** The fields of the headerInfo object. `None` is a missing property (stored as 0 by the
      setters, since NaN converts to 0), for `data` also any value that is not an
      ArrayBuffer; the six control bits are the truthiness of UGR, ACK, PSH, RST, SYN, FIN. */
  datatype TcpHeaderInfo = TcpHeaderInfo(
    srcIp: Option<string>,
    dstIp: Option<string>,
    srcPort: Option<int>,
    dstPort: Option<int>,
    seqNum: Option<int>,
    ackNum: Option<int>,
    urg: bool,
    ack: bool,
    psh: bool,
    rst: bool,
    syn: bool,
    fin: bool,
    windowSize: Option<int>,
    urgentPtr: Option<int>,
    data: Option<seq<Byte>>)

  function Payload(h: TcpHeaderInfo): seq<Byte> {
    h.data.GetOr([])
  }

  /** The control bits as a number: URG is bit 5, ACK bit 4, PSH bit 3, RST bit 2, SYN bit 1
      and FIN bit 0. */
  function Flags(h: TcpHeaderInfo): (v: nat)
    ensures v < 64
  {
    (if h.urg then 32 else 0) + (if h.ack then 16 else 0) + (if h.psh then 8 else 0)
    + (if h.rst then 4 else 0) + (if h.syn then 2 else 0) + (if h.fin then 1 else 0)
  }

  /** Each control bit can be read back from its own bit of the flags. */
  lemma FlagsDecode(h: TcpHeaderInfo)
    ensures (Flags(h) as bv8) & 0x20 != 0 <==> h.urg
    ensures (Flags(h) as bv8) & 0x10 != 0 <==> h.ack
    ensures (Flags(h) as bv8) & 0x08 != 0 <==> h.psh
    ensures (Flags(h) as bv8) & 0x04 != 0 <==> h.rst
    ensures (Flags(h) as bv8) & 0x02 != 0 <==> h.syn
    ensures (Flags(h) as bv8) & 0x01 != 0 <==> h.fin
  {
  }

  /** The flags built with `|=`, bit by bit from URG down to FIN. */
  method ComputeFlags(h: TcpHeaderInfo) returns (flags: bv8)
    ensures flags as int == Flags(h)
  {
    flags := 0;
    if h.urg {
      flags := flags | (1 << 5);
    }
    if h.ack {
      flags := flags | (1 << 4);
    }
    if h.psh {
      flags := flags | (1 << 3);
    }
    if h.rst {
      flags := flags | (1 << 2);
    }
    if h.syn {
      flags := flags | (1 << 1);
    }
    if h.fin {
      flags := flags | (1 << 0);
    }
  }

  /** `dataOffset << (16 - 4) | flags`: the data offset in the top four bits of the 16-bit
      word, the flags in the low bits. */
  function OffsetAndFlags(dataOffset: nat, flags: bv8): (v: nat)
    requires dataOffset < 16
    ensures v == dataOffset * 0x1000 + flags as int
  {
    ((dataOffset as bv16 << 12) | (flags as bv16)) as nat
  }

  /** Bytes 0-11: ports (modulo 2^16), sequence and acknowledgment numbers (modulo 2^32). */
  function PortsAndNumbers(h: TcpHeaderInfo): (r: seq<Byte>)
    ensures |r| == 12
  {
    Be16(h.srcPort.GetOr(0)) + Be16(h.dstPort.GetOr(0)) + Be32(h.seqNum.GetOr(0))
    + Be32(h.ackNum.GetOr(0))
  }

  /** Bytes 12-19: data offset and flags, window, a zero checksum, urgent pointer. */
  function Control(h: TcpHeaderInfo): (r: seq<Byte>)
    ensures |r| == 8
  {
    Be16(DATA_OFFSET * 0x1000 + Flags(h)) + Be16(h.windowSize.GetOr(0)) + Be16(0)
    + Be16(h.urgentPtr.GetOr(0))
  }

  /** The 32-byte segment before its checksum is written. */
  function Segment(h: TcpHeaderInfo): (r: seq<Byte>)
    ensures |r| == HEADER_FIXED_SIZE + OPTION_SIZE
  {
    PortsAndNumbers(h) + Control(h) + MSS_OPTION + WINDOW_SCALE_OPTION + SACK_PERMITTED_OPTION
  }

  /** What _createPseudoHeader returns or throws. A missing or empty address throws first,
      then a missing segment. */
  function PseudoHeader(src: Option<string>, dst: Option<string>, tcp: Option<seq<Byte>>)
    : (r: Result<seq<Byte>>)
    ensures r.Ok? <==> Truthy(src) && Truthy(dst) && tcp.Some? && Fits(src.value, 4)
                       && Fits(dst.value, 4)
    ensures r.Ok? ==> |r.value| == PSEUDO_HEADER_LENGTH
  {
    if !Truthy(src) || !Truthy(dst) then Err(Error("srcIp & dstIp is required"))
    else if tcp.None? then Err(Error("tcp packet is null"))
    else PseudoFields(src.value, dst.value, |tcp.value|)
  }

  /** The 12 pseudo header bytes: source IP, destination IP, the protocol number 6 in a
      16-bit word whose reserved byte is zero, and the segment length; an address with more
      than four components overruns its view (RangeError), the source address first. */
  function PseudoFields(src: string, dst: string, tcpLength: nat): (r: Result<seq<Byte>>)
    ensures r.Ok? <==> Fits(src, 4) && Fits(dst, 4)
    ensures r.Ok? ==> |r.value| == PSEUDO_HEADER_LENGTH
  {
    if !Fits(src, 4) || !Fits(dst, 4) then Err(RangeError)
    else Ok(Field(src, 4) + Field(dst, 4) + Be16(IP_TCP) + Be16(tcpLength))
  }

  /** What createHeader returns or throws. Any data makes the data view start past the end of
      the buffer (RangeError), so only a segment without data is ever returned. */
  function TcpSegment(h: TcpHeaderInfo): (r: Result<seq<Byte>>)
    ensures r.Ok? <==> |Payload(h)| == 0 && Truthy(h.srcIp) && Truthy(h.dstIp)
                       && Fits(h.srcIp.value, 4) && Fits(h.dstIp.value, 4)
    ensures r.Ok? ==> |r.value| == HEADER_FIXED_SIZE + OPTION_SIZE
  {
    if |Payload(h)| != 0 then Err(RangeError)
    else Checksummed(h.srcIp, h.dstIp, Segment(h))
  }

  /** The segment with the checksum of pseudo header and segment written at bytes 16-17, or
      what building the pseudo header throws. */
  function Checksummed(src: Option<string>, dst: Option<string>, seg: seq<Byte>)
    : (r: Result<seq<Byte>>)
    requires |seg| == HEADER_FIXED_SIZE + OPTION_SIZE
    ensures r.Ok? <==> Truthy(src) && Truthy(dst) && Fits(src.value, 4) && Fits(dst.value, 4)
    ensures r.Ok? ==> |r.value| == |seg|
  {
    match PseudoHeader(src, dst, Some(seg))
    case Err(e) => Err(e)
    case Ok(pseudo) => Ok(Splice(seg, CHECKSUM_OFFSET, Be16(Checksum(pseudo + seg))))
  }

  /** Bytes 0-11 read back: ports modulo 2^16, sequence and acknowledgment numbers modulo
      2^32. */
  lemma PortsFields(h: TcpHeaderInfo)
    ensures var pn := PortsAndNumbers(h);
      && Uint16(pn[0..2]) == h.srcPort.GetOr(0) % 0x1_0000
      && Uint16(pn[2..4]) == h.dstPort.GetOr(0) % 0x1_0000
      && Uint32(pn[4..8]) == h.seqNum.GetOr(0) % 0x1_0000_0000
      && Uint32(pn[8..12]) == h.ackNum.GetOr(0) % 0x1_0000_0000
  {
    var pn := PortsAndNumbers(h);
    assert pn[0..2] == Be16(h.srcPort.GetOr(0)) && pn[2..4] == Be16(h.dstPort.GetOr(0));
    assert pn[4..8] == Be32(h.seqNum.GetOr(0)) && pn[8..12] == Be32(h.ackNum.GetOr(0));
  }

  /** Bytes 12-19 read back: data offset 8 in the high nibble of byte 12, the flags in byte 13,
      the window, a zero checksum, the urgent pointer. */
  lemma ControlFields(h: TcpHeaderInfo)
    ensures var c := Control(h);
      && c[0] == 0x80 && c[1] == Flags(h)
      && Uint16(c[2..4]) == h.windowSize.GetOr(0) % 0x1_0000
      && c[4] == 0 && c[5] == 0
      && Uint16(c[6..8]) == h.urgentPtr.GetOr(0) % 0x1_0000
  {
    var c := Control(h);
    assert c[0..2] == Be16(DATA_OFFSET * 0x1000 + Flags(h));
    ControlWord(Flags(h));
    assert c[2..4] == Be16(h.windowSize.GetOr(0)) && c[4..6] == Be16(0);
    assert c[6..8] == Be16(h.urgentPtr.GetOr(0));
  }

  /** Data offset 8 fills the high byte of the word, the flags its low byte. */
  lemma ControlWord(flags: nat)
    requires flags < 64
    ensures Be16(DATA_OFFSET * 0x1000 + flags) == [0x80, flags]
  {
  }

  /** The segment read back field by field: what lines 108-159 wrote, at their offsets. */
  lemma SegmentFields(h: TcpHeaderInfo)
    ensures var s := Segment(h);
      && Uint16(s[0..2]) == h.srcPort.GetOr(0) % 0x1_0000
      && Uint16(s[2..4]) == h.dstPort.GetOr(0) % 0x1_0000
      && Uint32(s[4..8]) == h.seqNum.GetOr(0) % 0x1_0000_0000
      && Uint32(s[8..12]) == h.ackNum.GetOr(0) % 0x1_0000_0000
      && s[12] == 0x80 && s[13] == Flags(h)
      && Uint16(s[14..16]) == h.windowSize.GetOr(0) % 0x1_0000
      && s[16] == 0 && s[17] == 0
      && Uint16(s[18..20]) == h.urgentPtr.GetOr(0) % 0x1_0000
      && s[20..32] == [2, 4, 5, 0xB4, 1, 3, 3, 8, 1, 1, 4, 2]
  {
    var s := Segment(h);
    SegmentParts(h);
    PortsFields(h);
    ControlFields(h);
    SliceOfSlice(s, 0, 12, 0, 2);
    SliceOfSlice(s, 0, 12, 2, 4);
    SliceOfSlice(s, 0, 12, 4, 8);
    SliceOfSlice(s, 0, 12, 8, 12);
    SliceOfSlice(s, 12, 20, 2, 4);
    SliceOfSlice(s, 12, 20, 6, 8);
  }

  /** The segment is the three groups of fields side by side. */
  lemma SegmentParts(h: TcpHeaderInfo)
    ensures var s := Segment(h);
      && s[0..12] == PortsAndNumbers(h) && s[12..20] == Control(h)
      && s[20..32] == [2, 4, 5, 0xB4, 1, 3, 3, 8, 1, 1, 4, 2]
  {
  }

  /** The returned segment differs from the one the checksum was computed over only at bytes
      16-17, which hold the checksum of the pseudo header followed by that segment. */
  lemma TcpFields(h: TcpHeaderInfo)
    requires TcpSegment(h).Ok?
    ensures var r := TcpSegment(h).value;
      var pseudo := PseudoHeader(h.srcIp, h.dstIp, Some(Segment(h))).value;
      && r[..CHECKSUM_OFFSET] == Segment(h)[..CHECKSUM_OFFSET]
      && Uint16(r[16..18]) == Checksum(pseudo + Segment(h))
      && r[18..] == Segment(h)[18..]
  {
    var seg := Segment(h);
    var pseudo := PseudoHeader(h.srcIp, h.dstIp, Some(seg)).value;
    var c := Checksum(pseudo + seg);
    Be16Exact(c);
  }

  /** The receiver's test on a checksummed segment: the pseudo header built for the returned
      segment (whose length it shares) followed by the segment checksums to 0, as long as the
      single fold produced no carry. */
  lemma ChecksummedVerifies(src: Option<string>, dst: Option<string>, seg: seq<Byte>)
    requires |seg| == HEADER_FIXED_SIZE + OPTION_SIZE && seg[16] == 0 && seg[17] == 0
    requires Checksummed(src, dst, seg).Ok?
    requires NoCarry(WordSum(PseudoHeader(src, dst, Some(seg)).value + seg))
    ensures var r := Checksummed(src, dst, seg).value;
      Checksum(PseudoHeader(src, dst, Some(r)).value + r) == 0
  {
    var pseudo := PseudoHeader(src, dst, Some(seg)).value;
    var r := Checksummed(src, dst, seg).value;
    assert r == Splice(seg, CHECKSUM_OFFSET, Be16(Checksum(pseudo + seg)));
    PseudoLengthOnly(src, dst, seg, r);
    ChecksumAfterPrefix(pseudo, seg, CHECKSUM_OFFSET);
  }

  /** The pseudo header depends on the segment only through its length. */
  lemma PseudoLengthOnly(src: Option<string>, dst: Option<string>, a: seq<Byte>, b: seq<Byte>)
    requires |a| == |b|
    ensures PseudoHeader(src, dst, Some(a)) == PseudoHeader(src, dst, Some(b))
  {
  }

  /** The pseudo header read back: source IP at bytes 0-3, destination IP at 4-7, a zero
      reserved byte, the protocol number 6 and the segment length modulo 2^16. */
  lemma PseudoHeaderFields(src: string, dst: string, tcpLength: nat)
    requires Fits(src, 4) && Fits(dst, 4)
    ensures var p := PseudoFields(src, dst, tcpLength).value;
      && p[0..4] == Field(src, 4) && p[4..8] == Field(dst, 4)
      && p[8] == 0 && p[9] == IP_TCP
      && Uint16(p[10..12]) == tcpLength % 0x1_0000
  {
    var a := Field(src, 4);
    var b := Field(dst, 4);
    var c := Be16(IP_TCP);
    var d := Be16(tcpLength);
    assert PseudoFields(src, dst, tcpLength).value == a + b + c + d;
    ProtocolWord();
    FourFields(a, b, c, d);
  }

  /** The protocol word of the pseudo header: the zero reserved byte, then 6. */
  lemma ProtocolWord()
    ensures Be16(IP_TCP) == [0, 6]
  {
  }

  /** Where each of four concatenated fields sits. */
  lemma FourFields(a: seq<Byte>, b: seq<Byte>, c: seq<Byte>, d: seq<Byte>)
    requires |a| == 4 && |b| == 4 && |c| == 2 && |d| == 2
    ensures var p := a + b + c + d;
      p[0..4] == a && p[4..8] == b && p[8] == c[0] && p[9] == c[1] && p[10..12] == d
  {
    var p := a + b + c + d;
    assert p[0..4] == a;
    assert p[4..8] == b;
    assert p[10..12] == d;
  }

  /** createHeader's result passes the receiver's checksum test. */
  lemma TcpChecksumVerifies(h: TcpHeaderInfo)
    requires TcpSegment(h).Ok?
    requires NoCarry(WordSum(PseudoHeader(h.srcIp, h.dstIp, Some(Segment(h))).value + Segment(h)))
    ensures var r := TcpSegment(h).value;
      Checksum(PseudoHeader(h.srcIp, h.dstIp, Some(r)).value + r) == 0
  {
    SegmentFields(h);
    ChecksummedVerifies(h.srcIp, h.dstIp, Segment(h));
  }

  /** `TCPProtocolLayer._createPseudoHeader({srcIp, dstIp, tcpPacket})`. */
  method CreatePseudoHeader(src: Option<string>, dst: Option<string>, tcp: Option<seq<Byte>>)
    returns (r: Result<seq<Byte>>)
    ensures r == PseudoHeader(src, dst, tcp)
  {
    if !Truthy(src) || !Truthy(dst) {
      return Err(Error("srcIp & dstIp is required"));
    }
    if tcp.None? {
      return Err(Error("tcp packet is null"));
    }
    r := WritePseudoFields(src.value, dst.value, |tcp.value|);
  }

  /** Lines 196-208: the pseudo header buffer filled by its four views. */
  method WritePseudoFields(src: string, dst: string, tcpLength: nat)
    returns (r: Result<seq<Byte>>)
    ensures r == PseudoFields(src, dst, tcpLength)
  {
    var pseudoHeader := new Byte[PSEUDO_HEADER_LENGTH](_ => 0);
    assert pseudoHeader[..] == [] + Zeros(PSEUDO_HEADER_LENGTH);
    var ok := WriteAddress(pseudoHeader, [], 0, src, 4, PSEUDO_HEADER_LENGTH);
    if !ok {
      return Err(RangeError);
    }
    ghost var p := Field(src, 4);
    assert [] + p == p;
    ok := WriteAddress(pseudoHeader, p, 4, dst, 4, 8);
    if !ok {
      return Err(RangeError);
    }
    p := p + Field(dst, 4);
    WriteProtocolAndLength(pseudoHeader, p, tcpLength);
    assert PseudoFields(src, dst, tcpLength) == Ok(pseudoHeader[..]);
    return Ok(pseudoHeader[..]);
  }

  /** Lines 205-206: the protocol word and the segment length, the last four bytes. */
  method WriteProtocolAndLength(pseudoHeader: array<Byte>, ghost p: seq<Byte>, tcpLength: nat)
    requires |p| == 8 && pseudoHeader[..] == p + Zeros(4)
    modifies pseudoHeader
    ensures pseudoHeader[..] == p + Be16(IP_TCP) + Be16(tcpLength)
  {
    PutInt16(pseudoHeader, p, 8, IP_TCP, 4);
    PutInt16(pseudoHeader, p + Be16(IP_TCP), 10, tcpLength, 2);
    assert p + Be16(IP_TCP) + Be16(tcpLength) + [] == p + Be16(IP_TCP) + Be16(tcpLength);
  }

  /** `TCPProtocolLayer.createHeader(headerInfo)`. */
  method CreateHeader(h: TcpHeaderInfo) returns (r: Result<seq<Byte>>)
    ensures r == TcpSegment(h)
  {
    var dataLen := 0;
    if h.data.Some? {
      dataLen := |h.data.value|;
    }
    var tcpPacket := new Byte[HEADER_FIXED_SIZE + OPTION_SIZE + dataLen](_ => 0);
    var n := HEADER_FIXED_SIZE + OPTION_SIZE + dataLen;
    assert tcpPacket[..] == [] + Zeros(n);
    WritePortsAndNumbers(tcpPacket, h, n);
    var flags := ComputeFlags(h);
    WriteControl(tcpPacket, PortsAndNumbers(h), h, flags, n - 12);
    WriteOptions(tcpPacket, PortsAndNumbers(h) + Control(h), n - 20);
    if dataLen != 0 {
      return Err(RangeError);
    }
    assert |Payload(h)| == 0;
    assert tcpPacket[..] == Segment(h) + [];
    assert Segment(h) + [] == Segment(h);
    assert TcpSegment(h) == Checksummed(h.srcIp, h.dstIp, Segment(h));
    r := WriteChecksum(tcpPacket, h.srcIp, h.dstIp);
  }

  /** Lines 166-172: the pseudo header, then calcChecksum over the merged buffers written into
      the checksum field. */
  method WriteChecksum(tcpPacket: array<Byte>, srcIp: Option<string>, dstIp: Option<string>)
    returns (r: Result<seq<Byte>>)
    requires tcpPacket.Length == HEADER_FIXED_SIZE + OPTION_SIZE
    modifies tcpPacket
    ensures r == Checksummed(srcIp, dstIp, old(tcpPacket[..]))
  {
    ghost var seg := tcpPacket[..];
    var pseudoHeader := CreatePseudoHeader(srcIp, dstIp, Some(tcpPacket[..]));
    if pseudoHeader.Err? {
      return Err(pseudoHeader.error);
    }
    var merged := MergeArrayBuffer([Some(pseudoHeader.value), Some(tcpPacket[..])]);
    MergeTwo(pseudoHeader.value, seg);
    ShortBufferSumFits(merged);
    var checksum := CalcChecksum(merged);
    SetInt16(tcpPacket, CHECKSUM_OFFSET, checksum);
    return Ok(tcpPacket[..]);
  }

  /** Lines 108-111: the ports and the two 32-bit numbers. */
  method WritePortsAndNumbers(tcpPacket: array<Byte>, h: TcpHeaderInfo, n: nat)
    requires 12 <= n && tcpPacket[..] == [] + Zeros(n)
    modifies tcpPacket
    ensures tcpPacket[..] == PortsAndNumbers(h) + Zeros(n - 12)
  {
    PutInt16(tcpPacket, [], 0, h.srcPort.GetOr(0), n);
    ghost var p := Be16(h.srcPort.GetOr(0));
    PutInt16(tcpPacket, p, 2, h.dstPort.GetOr(0), n - 2);
    p := p + Be16(h.dstPort.GetOr(0));
    PutInt32(tcpPacket, p, 4, h.seqNum.GetOr(0), n - 4);
    p := p + Be32(h.seqNum.GetOr(0));
    PutInt32(tcpPacket, p, 8, h.ackNum.GetOr(0), n - 8);
  }

  /** Lines 136-143: data offset and flags, window, zero checksum, urgent pointer. */
  method WriteControl(tcpPacket: array<Byte>, ghost p: seq<Byte>, h: TcpHeaderInfo, flags: bv8,
                      ghost n: nat)
    requires flags as int == Flags(h)
    requires |p| == 12 && 8 <= n && tcpPacket[..] == p + Zeros(n)
    modifies tcpPacket
    ensures tcpPacket[..] == p + Control(h) + Zeros(n - 8)
  {
    var word := OffsetAndFlags(DATA_OFFSET, flags);
    assert word == DATA_OFFSET * 0x1000 + Flags(h);
    PutInt16(tcpPacket, p, 12, word, n);
    WriteWindowToUrgent(tcpPacket, p + Be16(word), h, n - 2);
  }

  /** Lines 138-143: window, the zero checksum, urgent pointer. */
  method WriteWindowToUrgent(tcpPacket: array<Byte>, ghost p: seq<Byte>, h: TcpHeaderInfo,
                             ghost n: nat)
    requires |p| == 14 && 6 <= n && tcpPacket[..] == p + Zeros(n)
    modifies tcpPacket
    ensures tcpPacket[..] == p + Be16(h.windowSize.GetOr(0)) + Be16(0)
                             + Be16(h.urgentPtr.GetOr(0)) + Zeros(n - 6)
  {
    ghost var q := p;
    PutInt16(tcpPacket, q, 14, h.windowSize.GetOr(0), n);
    q := q + Be16(h.windowSize.GetOr(0));
    var checksum := 0;
    PutInt16(tcpPacket, q, CHECKSUM_OFFSET, checksum, n - 2);
    q := q + Be16(0);
    PutInt16(tcpPacket, q, 18, h.urgentPtr.GetOr(0), n - 4);
  }

  /** Lines 145-159: the three options with their alignment bytes. */
  method WriteOptions(tcpPacket: array<Byte>, ghost p: seq<Byte>, ghost n: nat)
    requires |p| == HEADER_FIXED_SIZE && OPTION_SIZE <= n && tcpPacket[..] == p + Zeros(n)
    modifies tcpPacket
    ensures tcpPacket[..] == p + MSS_OPTION + WINDOW_SCALE_OPTION + SACK_PERMITTED_OPTION
                             + Zeros(n - OPTION_SIZE)
  {
    WriteMssOption(tcpPacket, p, n);
    WriteFourBytes(tcpPacket, p + MSS_OPTION, 24, 1, 3, 3, SHIFT_COUNT, n - 4);
    WriteFourBytes(tcpPacket, p + MSS_OPTION + WINDOW_SCALE_OPTION, 28, 1, 1, 4, 2, n - 8);
  }

  /** Lines 146-148: kind, length, then the 16-bit segment size. */
  method WriteMssOption(tcpPacket: array<Byte>, ghost p: seq<Byte>, ghost n: nat)
    requires |p| == HEADER_FIXED_SIZE && 4 <= n && tcpPacket[..] == p + Zeros(n)
    modifies tcpPacket
    ensures tcpPacket[..] == p + MSS_OPTION + Zeros(n - 4)
  {
    PutInt8(tcpPacket, p, HEADER_FIXED_SIZE, 2, n);
    PutInt8(tcpPacket, p + [Int8(2)], HEADER_FIXED_SIZE + 1, 4, n - 1);
    PutInt16(tcpPacket, p + [Int8(2)] + [Int8(4)], HEADER_FIXED_SIZE + 2, MSS, n - 2);
    assert [Int8(2)] + [Int8(4)] + Be16(MSS) == MSS_OPTION;
    assert p + [Int8(2)] + [Int8(4)] + Be16(MSS) == p + ([Int8(2)] + [Int8(4)] + Be16(MSS));
  }

  /** Four setInt8 calls of small values at consecutive offsets (lines 151-154 and 156-159). */
  method WriteFourBytes(tcpPacket: array<Byte>, ghost p: seq<Byte>, at: nat, b0: Byte,
                        b1: Byte, b2: Byte, b3: Byte, ghost n: nat)
    requires at == |p| && 4 <= n && tcpPacket[..] == p + Zeros(n)
    modifies tcpPacket
    ensures tcpPacket[..] == p + [b0, b1, b2, b3] + Zeros(n - 4)
  {
    PutInt8(tcpPacket, p, at, b0, n);
    PutInt8(tcpPacket, p + [Int8(b0)], at + 1, b1, n - 1);
    PutInt8(tcpPacket, p + [Int8(b0)] + [Int8(b1)], at + 2, b2, n - 2);
    PutInt8(tcpPacket, p + [Int8(b0)] + [Int8(b1)] + [Int8(b2)], at + 3, b3, n - 3);
    Int8Exact(b0);
    Int8Exact(b1);
    Int8Exact(b2);
    Int8Exact(b3);
    assert p + [Int8(b0)] + [Int8(b1)] + [Int8(b2)] + [Int8(b3)] == p + [b0, b1, b2, b3];
  }
}
