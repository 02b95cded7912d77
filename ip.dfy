/** protocol/IPProtocolLayer.js: createPacket builds an IPv4 packet (section 3.1 of RFC 791)
    in a fresh zeroed buffer: the 20-byte fixed header, the options padded with zeros to a
    multiple of four bytes, then the payload. The header checksum is computed while the
    checksum field, the options and the payload are still zero. handlePacket keeps a decoded
    packet only when it is addressed to the local IP. */
module IpLayer {
  import opened Wrappers
  import opened Bytes
  import opened Utils
  import opened Packet
  import opened Cap

  const IP_HEADER_MAX_LENGTH := 60
  const IP_HEADER_FIXED_LENGTH := 20
  const CHECKSUM_OFFSET := 10
  const OPTIONS_OFFSET := 20

  /** The fields of the headerInfo object; `None` is a missing property, and for `data` and
      `optionsData` also any value that is not an ArrayBuffer. */
  datatype IpHeaderInfo = IpHeaderInfo(
    dstIp: Option<string>,
    srcIp: Option<string>,
    data: Option<seq<Byte>>,
    optionsData: Option<seq<Byte>>,
    tos: Option<int>,
    flags: Option<int>,
    offset: Option<int>,
    ttl: Option<int>,
    protocol: Option<int>)

  function Options(h: IpHeaderInfo): seq<Byte> {
    h.optionsData.GetOr([])
  }

  function Payload(h: IpHeaderInfo): seq<Byte> {
    h.data.GetOr([])
  }

  /** `Math.ceil((optionsDataLen + 20) / 4)`: the header length in 32-bit words. */
  function HeaderLength(optLen: nat): (hl: nat)
    ensures 4 * hl >= optLen + IP_HEADER_FIXED_LENGTH > 4 * hl - 4
  {
    (optLen + IP_HEADER_FIXED_LENGTH + 3) / 4
  }

  /** Bitwise or of two three-bit values. */
  function Or3(a: nat, b: nat): (r: nat)
    requires a < 8 && b < 8
    ensures r < 8
  {
    ((a as bv8) | (b as bv8)) as nat
  }

  /** `flags << 13 | offset` as setInt16 stores it: of the low 16 bits, the top three are the
      low three bits of flags or-ed with those of offset, the low 13 are those of offset. */
  function FlagsAndOffset(flags: int, offset: int): (v: nat)
    ensures v < 0x1_0000
  {
    var o := offset % 0x1_0000;
    Or3(flags % 8, o / 0x2000) * 0x2000 + o % 0x2000
  }

  lemma OrZero(a: nat)
    requires a < 8
    ensures Or3(a, 0) == a
  {
  }

  /** An offset below 2^13 does not reach the flag bits: the field is flags * 2^13 + offset,
      so the flags are its top three bits and the offset its low 13. */
  lemma FlagsAndOffsetFields(flags: int, offset: int)
    requires 0 <= offset < 0x2000
    ensures FlagsAndOffset(flags, offset) == (flags % 8) * 0x2000 + offset
    ensures FlagsAndOffset(flags, offset) / 0x2000 == flags % 8
    ensures FlagsAndOffset(flags, offset) % 0x2000 == offset
  {
    OrZero(flags % 8);
  }

  /** The defaults, flags 2 and offset 0, give 0x4000: Don't Fragment. */
  lemma DefaultFlagsDontFragment()
    ensures FlagsAndOffset(2, 0) == 0x4000
  {
    FlagsAndOffsetFields(2, 0);
  }

  /** Bytes 0-11: version and header length, TOS, total length, identification, flags and
      fragment offset, TTL, protocol and a zero checksum, with the defaults of createPacket
      (TOS 0, flags 2, offset 0, TTL 64; a missing protocol is NaN, stored as 0). The total
      length is 4 * hl plus the payload length. */
  function NumericFields(h: IpHeaderInfo, hl: nat, ident: int): (r: seq<Byte>)
    requires hl < 16
    ensures |r| == 12
  {
    [0x40 + hl] + [Int8(h.tos.GetOr(0))] + Be16(4 * hl + |Payload(h)|) + Be16(ident)
    + Be16(FlagsAndOffset(h.flags.GetOr(2), h.offset.GetOr(0)))
    + [Int8(h.ttl.GetOr(64))] + [Int8(h.protocol.GetOr(0))] + Be16(0)
  }

  /** The 20-byte fixed header before its checksum is written: the numeric fields, the source
      IP at 12-15 and the destination IP at 16-19. */
  function FixedHeader(h: IpHeaderInfo, hl: nat, ident: int, src: string, dst: string)
    : (r: seq<Byte>)
    requires hl < 16 && Fits(src, 4) && Fits(dst, 4)
    ensures |r| == IP_HEADER_FIXED_LENGTH
  {
    NumericFields(h, hl, ident) + Field(src, 4) + Field(dst, 4)
  }

  /** A fixed header with its checksum filled in at bytes 10-11. */
  function WithChecksum(fixed: seq<Byte>): (r: seq<Byte>)
    requires |fixed| == IP_HEADER_FIXED_LENGTH
    ensures |r| == IP_HEADER_FIXED_LENGTH
  {
    Splice(fixed, CHECKSUM_OFFSET, Be16(Checksum(fixed)))
  }

  /** The packet: header, options, zeros up to 4 * hl, payload. */
  function Assemble(header: seq<Byte>, options: seq<Byte>, hl: nat, payload: seq<Byte>)
    : (r: seq<Byte>)
    requires |header| + |options| <= 4 * hl
    ensures |r| == 4 * hl + |payload|
  {
    header + options + Zeros(4 * hl - |header| - |options|) + payload
  }

  /** What writing the two addresses throws, if anything: a missing address has no
      `includes` (TypeError), one with more than four components overruns its view
      (RangeError); the source address is written first. */
  function AddressError(h: IpHeaderInfo): (e: Option<JsError>)
    ensures e.None? <==> h.srcIp.Some? && h.dstIp.Some? && Fits(h.srcIp.value, 4)
                         && Fits(h.dstIp.value, 4)
  {
    if h.srcIp.None? then Some(TypeError)
    else if !Fits(h.srcIp.value, 4) then Some(RangeError)
    else if h.dstIp.None? then Some(TypeError)
    else if !Fits(h.dstIp.value, 4) then Some(RangeError)
    else None
  }

  /** What createPacket returns or throws, for the identification value `ident`. Options over
      40 bytes throw before anything is written; a missing address throws TypeError (it has
      no `includes`) and one with more than four components RangeError, the source address
      first. */
  function IpPacket(h: IpHeaderInfo, ident: int): (r: Result<seq<Byte>>)
    ensures r == Err(Error("data overflow"))
            <==> |Options(h)| > IP_HEADER_MAX_LENGTH - IP_HEADER_FIXED_LENGTH
    ensures r.Ok? ==> |r.value| == 4 * HeaderLength(|Options(h)|) + |Payload(h)|
  {
    var optLen := |Options(h)|;
    if optLen > IP_HEADER_MAX_LENGTH - IP_HEADER_FIXED_LENGTH then Err(Error("data overflow"))
    else if AddressError(h).Some? then Err(AddressError(h).value)
    else Ok(Accepted(h, ident, h.srcIp.value, h.dstIp.value))
  }

  /** The packet createPacket returns for the source address src and destination dst. */
  function Accepted(h: IpHeaderInfo, ident: int, src: string, dst: string): (r: seq<Byte>)
    requires |Options(h)| <= IP_HEADER_MAX_LENGTH - IP_HEADER_FIXED_LENGTH
    requires Fits(src, 4) && Fits(dst, 4)
    ensures |r| == 4 * HeaderLength(|Options(h)|) + |Payload(h)|
  {
    AcceptedWith(h, ident, src, dst, HeaderLength(|Options(h)|))
  }

  /** The accepted packet for header length hl: the checksummed fixed header, the options,
      zero padding up to 4 * hl bytes and the payload. */
  function AcceptedWith(h: IpHeaderInfo, ident: int, src: string, dst: string, hl: nat)
    : (r: seq<Byte>)
    requires |Options(h)| <= IP_HEADER_MAX_LENGTH - IP_HEADER_FIXED_LENGTH
    requires hl == HeaderLength(|Options(h)|)
    requires Fits(src, 4) && Fits(dst, 4)
    ensures |r| == 4 * hl + |Payload(h)|
  {
    Assemble(WithChecksum(FixedHeader(h, hl, ident, src, dst)), Options(h), hl, Payload(h))
  }

  /** Accepted, for a header length already computed. */
  lemma AcceptedShape(h: IpHeaderInfo, ident: int, src: string, dst: string, hl: nat)
    requires |Options(h)| <= IP_HEADER_MAX_LENGTH - IP_HEADER_FIXED_LENGTH
    requires Fits(src, 4) && Fits(dst, 4)
    requires hl == HeaderLength(|Options(h)|)
    ensures Accepted(h, ident, src, dst)
         == Assemble(WithChecksum(FixedHeader(h, hl, ident, src, dst)), Options(h), hl,
                     Payload(h))
  {
  }

  /** Options over 40 bytes are refused with 'data overflow', and only they are; a packet is
      returned exactly when the options fit and both addresses can be written. */
  lemma IpPacketErrors(h: IpHeaderInfo, ident: int)
    ensures IpPacket(h, ident) == Err(Error("data overflow"))
            <==> |Options(h)| > IP_HEADER_MAX_LENGTH - IP_HEADER_FIXED_LENGTH
    ensures IpPacket(h, ident).Ok?
            <==> |Options(h)| <= IP_HEADER_MAX_LENGTH - IP_HEADER_FIXED_LENGTH
                 && AddressError(h).None?
  {
  }

  /** When nothing throws, createPacket returns Accepted. */
  lemma IpPacketAccepted(h: IpHeaderInfo, ident: int)
    requires |Options(h)| <= IP_HEADER_MAX_LENGTH - IP_HEADER_FIXED_LENGTH
    requires h.srcIp.Some? && h.dstIp.Some? && Fits(h.srcIp.value, 4) && Fits(h.dstIp.value, 4)
    ensures IpPacket(h, ident) == Ok(Accepted(h, ident, h.srcIp.value, h.dstIp.value))
  {
  }

  /** The eight numeric setters of lines 89-101, in order, on the zeroed packet. */
  method WriteNumericFields(packet: array<Byte>, h: IpHeaderInfo, hl: nat, total: nat, ident: int)
    requires hl < 16 && total == 4 * hl + |Payload(h)|
    requires packet.Length == total >= IP_HEADER_FIXED_LENGTH
    requires packet[..] == Zeros(total)
    modifies packet
    ensures packet[..] == NumericFields(h, hl, ident) + Zeros(total - 12)
  {
    assert packet[..] == [] + Zeros(total);
    PutInt8(packet, [], 0, 0x40 + hl, total);
    ghost var p := [Int8(0x40 + hl)];
    PutInt8(packet, p, 1, h.tos.GetOr(0), total - 1);
    p := p + [Int8(h.tos.GetOr(0))];
    PutInt16(packet, p, 2, total, total - 2);
    p := p + Be16(total);
    WriteIdentToChecksum(packet, p, h, ident, total - 4);
    NumericFieldsWritten(h, hl, total, ident);
  }

  /** Bytes 4-11, after the first four: identification, flags and fragment offset, TTL,
      protocol and the zero checksum. */
  method WriteIdentToChecksum(packet: array<Byte>, ghost p: seq<Byte>, h: IpHeaderInfo,
                              ident: int, ghost n: nat)
    requires |p| == 4 && 8 <= n && packet[..] == p + Zeros(n)
    modifies packet
    ensures packet[..] == p + Be16(ident)
            + Be16(FlagsAndOffset(h.flags.GetOr(2), h.offset.GetOr(0)))
            + [Int8(h.ttl.GetOr(64))] + [Int8(h.protocol.GetOr(0))] + Be16(0) + Zeros(n - 8)
  {
    ghost var q := p;
    PutInt16(packet, q, 4, ident, n);
    q := q + Be16(ident);
    var fo := FlagsAndOffset(h.flags.GetOr(2), h.offset.GetOr(0));
    PutInt16(packet, q, 6, fo, n - 2);
    q := q + Be16(fo);
    PutInt8(packet, q, 8, h.ttl.GetOr(64), n - 4);
    q := q + [Int8(h.ttl.GetOr(64))];
    PutInt8(packet, q, 9, h.protocol.GetOr(0), n - 5);
    q := q + [Int8(h.protocol.GetOr(0))];
    PutInt16(packet, q, 10, 0, n - 6);
  }

  /** The bytes the setters store are the numeric fields. */
  lemma NumericFieldsWritten(h: IpHeaderInfo, hl: nat, total: nat, ident: int)
    requires hl < 16 && total == 4 * hl + |Payload(h)|
    ensures [Int8(0x40 + hl)] + [Int8(h.tos.GetOr(0))] + Be16(total) + Be16(ident)
            + Be16(FlagsAndOffset(h.flags.GetOr(2), h.offset.GetOr(0)))
            + [Int8(h.ttl.GetOr(64))] + [Int8(h.protocol.GetOr(0))] + Be16(0)
         == NumericFields(h, hl, ident)
  {
    assert Int8(0x40 + hl) == 0x40 + hl;
  }

  /** Lines 103-104: the source and destination addresses, after the numeric fields. */
  method WriteAddresses(packet: array<Byte>, h: IpHeaderInfo, hl: nat, total: nat, ident: int)
    returns (err: Option<JsError>)
    requires hl < 16 && packet.Length == total >= IP_HEADER_FIXED_LENGTH
    requires packet[..] == NumericFields(h, hl, ident) + Zeros(total - 12)
    modifies packet
    ensures err == AddressError(h)
    ensures err.None? ==> h.srcIp.Some? && h.dstIp.Some? && Fits(h.srcIp.value, 4)
                          && Fits(h.dstIp.value, 4)
    ensures err.None? ==> packet[..] == FixedHeader(h, hl, ident, h.srcIp.value, h.dstIp.value)
                                        + Zeros(total - 20)
  {
    ghost var p := NumericFields(h, hl, ident);
    if h.srcIp.None? {
      return Some(TypeError);
    }
    var ok := WriteAddress(packet, p, 12, h.srcIp.value, 4, total - 12);
    if !ok {
      return Some(RangeError);
    }
    p := p + Field(h.srcIp.value, 4);
    if h.dstIp.None? {
      return Some(TypeError);
    }
    ok := WriteAddress(packet, p, 16, h.dstIp.value, 4, total - 16);
    if !ok {
      return Some(RangeError);
    }
    return None;
  }

  /** `calcChecksum(ipPacket)` over the whole packet while only the fixed header is filled,
      then the result stored at bytes 10-11. */
  method WriteChecksum(packet: array<Byte>, ghost fixed: seq<Byte>, ghost n: nat)
    requires |fixed| == IP_HEADER_FIXED_LENGTH && packet[..] == fixed + Zeros(n)
    modifies packet
    ensures packet[..] == WithChecksum(fixed) + Zeros(n)
  {
    ChecksumZeroTail(fixed, n);
    WordSumBound(fixed);
    var checksum := CalcChecksum(packet[..]);
    SetInt16(packet, CHECKSUM_OFFSET, checksum);
    SpliceInPrefix(fixed, Zeros(n), CHECKSUM_OFFSET, Be16(checksum));
  }

  /** Lines 110-117: the options copied at offset 20, then the zero padding loop, which
      rewrites bytes that are already zero. */
  method WriteOptions(packet: array<Byte>, ghost header: seq<Byte>, options: seq<Byte>,
                      hl: nat, ghost n: nat)
    requires |header| == OPTIONS_OFFSET && OPTIONS_OFFSET + |options| <= 4 * hl
    requires hl == HeaderLength(|options|) && 4 * hl <= |header| + n
    requires packet[..] == header + Zeros(n)
    modifies packet
    ensures packet[..] == header + options + Zeros(n - |options|)
  {
    var optLen := |options|;
    var ok := DataToArrayBuffer(Some(options), packet, OPTIONS_OFFSET, (hl - 5) * 4);
    DataAfterPrefix(header, options, n);
    var i := 0;
    while i < (optLen + 3) / 4 * 4 - optLen
      invariant 0 <= i <= (optLen + 3) / 4 * 4 - optLen
      invariant packet[..] == header + options + Zeros(n - optLen)
    {
      ghost var before := packet[..];
      assert before[OPTIONS_OFFSET + i + optLen] == 0;
      SetInt8(packet, OPTIONS_OFFSET + i + optLen, 0);
      SpliceSame(before, OPTIONS_OFFSET + i + optLen);
      i := i + 1;
    }
  }

  /** `IPProtocolLayer.createPacket(headerInfo)`, with `ident` the value of
      `Math.floor(Math.random() * 65535)`. */
  method CreatePacket(h: IpHeaderInfo, ident: int) returns (r: Result<seq<Byte>>)
    requires 0 <= ident < 65535
    ensures r == IpPacket(h, ident)
  {
    var optLen := 0;
    if h.optionsData.Some? {
      optLen := |h.optionsData.value|;
      if optLen > IP_HEADER_MAX_LENGTH - IP_HEADER_FIXED_LENGTH {
        return Err(Error("data overflow"));
      }
    }
    var dataLen := 0;
    if h.data.Some? {
      dataLen := |h.data.value|;
    }
    var hl := (optLen + IP_HEADER_FIXED_LENGTH + 3) / 4;
    var total := hl * 4 + dataLen;
    var packet := new Byte[total](_ => 0);
    assert packet[..] == Zeros(total);
    WriteNumericFields(packet, h, hl, total, ident);
    var err := WriteAddresses(packet, h, hl, total, ident);
    if err.Some? {
      return Err(err.value);
    }
    ghost var fixed := FixedHeader(h, hl, ident, h.srcIp.value, h.dstIp.value);
    WriteBody(packet, fixed, h, hl, dataLen);
    AcceptedShape(h, ident, h.srcIp.value, h.dstIp.value, hl);
    IpPacketAccepted(h, ident);
    return Ok(packet[..]);
  }

  /** Lines 106-123, once the fixed header is in place: checksum, options, payload. */
  method WriteBody(packet: array<Byte>, ghost fixed: seq<Byte>, h: IpHeaderInfo, hl: nat,
                   dataLen: nat)
    requires |Options(h)| <= IP_HEADER_MAX_LENGTH - IP_HEADER_FIXED_LENGTH
    requires hl == HeaderLength(|Options(h)|) && dataLen == |Payload(h)|
    requires |fixed| == IP_HEADER_FIXED_LENGTH
    requires packet[..] == fixed + Zeros(4 * hl + dataLen - IP_HEADER_FIXED_LENGTH)
    modifies packet
    ensures packet[..] == Assemble(WithChecksum(fixed), Options(h), hl, Payload(h))
  {
    var n := 4 * hl + dataLen - IP_HEADER_FIXED_LENGTH;
    WriteChecksum(packet, fixed, n);
    ghost var header := WithChecksum(fixed);
    if h.optionsData.Some? {
      WriteOptions(packet, header, h.optionsData.value, hl, n);
    } else {
      assert packet[..] == header + [] + Zeros(n);
    }
    WritePayload(packet, header + Options(h), h.data, hl, dataLen);
  }

  /** Lines 120-123: the payload copied at offset 4 * hl, which it fills exactly. */
  method WritePayload(packet: array<Byte>, ghost prefix: seq<Byte>, data: Option<seq<Byte>>,
                      hl: nat, dataLen: nat)
    requires |prefix| <= 4 * hl && dataLen == |data.GetOr([])|
    requires packet[..] == prefix + Zeros(4 * hl - |prefix| + dataLen)
    modifies packet
    ensures packet[..] == prefix + Zeros(4 * hl - |prefix|) + data.GetOr([])
  {
    ghost var pad := Zeros(4 * hl - |prefix|);
    ZerosAppend(4 * hl - |prefix|, dataLen);
    assert packet[..] == (prefix + pad) + Zeros(dataLen);
    if data.Some? {
      var ok := DataToArrayBuffer(data, packet, hl * 4, dataLen);
      DataAfterPrefix(prefix + pad, data.value, dataLen);
    }
  }

  /** The numeric fields read back, each wrapped to its width. */
  lemma NumericFieldsRead(h: IpHeaderInfo, hl: nat, ident: int, total: nat)
    requires hl < 16 && total == 4 * hl + |Payload(h)|
    ensures var n := NumericFields(h, hl, ident);
      && n[0] == 0x40 + hl && n[1] == Int8(h.tos.GetOr(0))
      && Uint16(n[2..4]) == total % 0x1_0000
      && Uint16(n[4..6]) == ident % 0x1_0000
      && Uint16(n[6..8]) == FlagsAndOffset(h.flags.GetOr(2), h.offset.GetOr(0))
      && n[8] == Int8(h.ttl.GetOr(64)) && n[9] == Int8(h.protocol.GetOr(0))
      && n[10] == 0 && n[11] == 0
  {
    var n := NumericFields(h, hl, ident);
    var fo := FlagsAndOffset(h.flags.GetOr(2), h.offset.GetOr(0));
    assert n[2..4] == Be16(4 * hl + |Payload(h)|);
    assert n[4..6] == Be16(ident);
    assert n[6..8] == Be16(fo);
    Be16Exact(fo);
  }

  /** The fixed header after its checksum is written: unchanged but for bytes 10-11, which
      hold the checksum of the header as it was. */
  lemma WithChecksumRead(fixed: seq<Byte>)
    requires |fixed| == IP_HEADER_FIXED_LENGTH
    ensures var w := WithChecksum(fixed);
      && w[..CHECKSUM_OFFSET] == fixed[..CHECKSUM_OFFSET]
      && Uint16(w[10..12]) == Checksum(fixed)
      && w[12..] == fixed[12..]
  {
    Be16Exact(Checksum(fixed));
  }

  /** The header of the packet read back: version 4 and the header length in words at
      byte 0, TOS at 1, the packet's own length at 2-3, the identification at 4-5, flags and
      fragment offset at 6-7, TTL at 8, protocol at 9, the checksum of the fixed header at
      10-11, source IP at 12-15 and destination IP at 16-19. */
  lemma IpHeaderFields(h: IpHeaderInfo, ident: int)
    requires IpPacket(h, ident).Ok?
    ensures var r := IpPacket(h, ident).value;
      var hl := HeaderLength(|Options(h)|);
      var fixed := FixedHeader(h, hl, ident, h.srcIp.value, h.dstIp.value);
      && r[0] == 0x40 + hl && r[1] == Int8(h.tos.GetOr(0))
      && Uint16(r[2..4]) == |r| % 0x1_0000
      && Uint16(r[4..6]) == ident % 0x1_0000
      && Uint16(r[6..8]) == FlagsAndOffset(h.flags.GetOr(2), h.offset.GetOr(0))
      && r[8] == Int8(h.ttl.GetOr(64)) && r[9] == Int8(h.protocol.GetOr(0))
      && Uint16(r[10..12]) == Checksum(fixed)
      && r[12..16] == Field(h.srcIp.value, 4) && r[16..20] == Field(h.dstIp.value, 4)
  {
    var hl := HeaderLength(|Options(h)|);
    var r := IpPacket(h, ident).value;
    var w := WithChecksum(FixedHeader(h, hl, ident, h.srcIp.value, h.dstIp.value));
    var n := NumericFields(h, hl, ident);
    IpBodyFields(h, ident);
    NumericFieldsRead(h, hl, ident, |r|);
    HeaderNumbersRead(h, hl, ident, h.srcIp.value, h.dstIp.value);
    FirstTenFields(w, n);
    HeaderAddressesRead(h, hl, ident, h.srcIp.value, h.dstIp.value);
    PrefixFields(r, w);
  }

  /** The rest of the packet read back: the checksummed fixed header first, the options
      from byte 20 on, zeros up to 4 * hl and the payload unchanged after them. */
  lemma IpBodyFields(h: IpHeaderInfo, ident: int)
    requires IpPacket(h, ident).Ok?
    ensures var r := IpPacket(h, ident).value;
      var hl := HeaderLength(|Options(h)|);
      && |r| == 4 * hl + |Payload(h)|
      && r[..IP_HEADER_FIXED_LENGTH]
         == WithChecksum(FixedHeader(h, hl, ident, h.srcIp.value, h.dstIp.value))
      && r[OPTIONS_OFFSET..OPTIONS_OFFSET + |Options(h)|] == Options(h)
      && (forall k :: OPTIONS_OFFSET + |Options(h)| <= k < 4 * hl ==> r[k] == 0)
      && r[4 * hl..] == Payload(h)
  {
    var hl := HeaderLength(|Options(h)|);
    IpPacketAccepted(h, ident);
    AcceptedShape(h, ident, h.srcIp.value, h.dstIp.value, hl);
    AssembleRead(WithChecksum(FixedHeader(h, hl, ident, h.srcIp.value, h.dstIp.value)),
                 Options(h), hl, Payload(h));
  }

  /** Bytes 0-9 of the checksummed fixed header are the numeric fields'. */
  lemma HeaderNumbersRead(h: IpHeaderInfo, hl: nat, ident: int, src: string, dst: string)
    requires hl < 16 && Fits(src, 4) && Fits(dst, 4)
    ensures WithChecksum(FixedHeader(h, hl, ident, src, dst))[..10]
            == NumericFields(h, hl, ident)[..10]
  {
    var fixed := FixedHeader(h, hl, ident, src, dst);
    WithChecksumRead(fixed);
    assert fixed[..10] == NumericFields(h, hl, ident)[..10];
  }

  /** Sequences that agree on their first ten bytes agree on the fields inside them. */
  lemma FirstTenFields(w: seq<Byte>, n: seq<Byte>)
    requires 10 <= |w| && 10 <= |n| && w[..10] == n[..10]
    ensures w[0] == n[0] && w[1] == n[1] && w[2..4] == n[2..4] && w[4..6] == n[4..6]
    ensures w[6..8] == n[6..8] && w[8] == n[8] && w[9] == n[9]
  {
    assert forall i :: 0 <= i < 10 ==> w[i] == n[i];
  }

  /** Bytes 10-19 of the checksummed fixed header: the checksum and the two addresses. */
  lemma HeaderAddressesRead(h: IpHeaderInfo, hl: nat, ident: int, src: string, dst: string)
    requires hl < 16 && Fits(src, 4) && Fits(dst, 4)
    ensures var fixed := FixedHeader(h, hl, ident, src, dst);
      var w := WithChecksum(fixed);
      && Uint16(w[10..12]) == Checksum(fixed)
      && w[12..16] == Field(src, 4) && w[16..20] == Field(dst, 4)
  {
    var fixed := FixedHeader(h, hl, ident, src, dst);
    Be16Exact(Checksum(fixed));
    SplicedTail(NumericFields(h, hl, ident), Field(src, 4), Field(dst, 4), Be16(Checksum(fixed)));
  }

  /** A 20-byte header of a 12-byte part and two 4-byte parts with bytes 10-11 replaced. */
  lemma SplicedTail(n: seq<Byte>, a: seq<Byte>, b: seq<Byte>, c: seq<Byte>)
    requires |n| == 12 && |a| == 4 && |b| == 4 && |c| == 2
    ensures var w := Splice(n + a + b, 10, c);
      w[10..12] == c && w[12..16] == a && w[16..20] == b
  {
    var w := Splice(n + a + b, 10, c);
    assert (n + a + b)[12..] == a + b;
    assert w == (n + a + b)[..10] + c + (a + b);
  }

  /** The fields of a 20-byte prefix are the fields of the whole. */
  lemma PrefixFields(r: seq<Byte>, w: seq<Byte>)
    requires |w| == IP_HEADER_FIXED_LENGTH <= |r| && r[..IP_HEADER_FIXED_LENGTH] == w
    ensures r[0] == w[0] && r[1] == w[1] && r[2..4] == w[2..4] && r[4..6] == w[4..6]
    ensures r[6..8] == w[6..8] && r[8] == w[8] && r[9] == w[9] && r[10..12] == w[10..12]
    ensures r[12..16] == w[12..16] && r[16..20] == w[16..20]
  {
    assert forall i :: 0 <= i < 20 ==> r[i] == w[i];
  }

  /** Assembled packets read back: header, options, zero padding, payload. */
  lemma AssembleRead(header: seq<Byte>, options: seq<Byte>, hl: nat, payload: seq<Byte>)
    requires hl < 16 && |header| == IP_HEADER_FIXED_LENGTH
    requires |header| + |options| <= 4 * hl
    ensures var r := Assemble(header, options, hl, payload);
      && r[..20] == header
      && r[20..20 + |options|] == options
      && (forall k :: 20 + |options| <= k < 4 * hl ==> r[k] == 0)
      && r[4 * hl..] == payload
  {
    var z := Zeros(4 * hl - |header| - |options|);
    var r := header + options + z + payload;
    assert r[..20] == header;
    assert r[20..20 + |options|] == options;
    assert r[4 * hl..] == payload;
    forall k | 20 + |options| <= k < 4 * hl ensures r[k] == 0 {
      assert r[k] == z[k - 20 - |options|];
    }
  }

  /** The receiver's test on the fixed header: its 20 bytes checksum to 0, as long as the
      single fold produced no carry. The options are not covered: their bytes were still
      zero when the checksum was computed. */
  lemma IpHeaderChecksumVerifies(h: IpHeaderInfo, ident: int)
    requires IpPacket(h, ident).Ok?
    requires NoCarry(WordSum(FixedHeader(h, HeaderLength(|Options(h)|), ident, h.srcIp.value,
                                         h.dstIp.value)))
    ensures Checksum(IpPacket(h, ident).value[..IP_HEADER_FIXED_LENGTH]) == 0
  {
    var hl := HeaderLength(|Options(h)|);
    var fixed := FixedHeader(h, hl, ident, h.srcIp.value, h.dstIp.value);
    IpPacketAccepted(h, ident);
    AcceptedShape(h, ident, h.srcIp.value, h.dstIp.value, hl);
    AssembleRead(WithChecksum(fixed), Options(h), hl, Payload(h));
    NumericFieldsRead(h, hl, ident, 4 * hl + |Payload(h)|);
    assert fixed[10] == 0 && fixed[11] == 0;
    ChecksumVerifies(fixed, CHECKSUM_OFFSET);
  }

  /** `IPProtocolLayer.handlePacket(packet)`: the decoder result when its destination address
      is the local IP, otherwise null (`None`). */
  function HandlePacket(packet: seq<Byte>, ipv4: seq<Byte> -> Decoded, localIp: string)
    : (r: Option<Decoded>)
    ensures r.Some? <==> ipv4(packet).info.dstaddr == Some(localIp)
    ensures r.Some? ==> r.value == ipv4(packet)
  {
    var res := ipv4(packet);
    if res.info.dstaddr == Some(localIp) then Some(res) else None
  }
}
