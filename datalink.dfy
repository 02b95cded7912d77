/** datalink/DataLinkLayer.js: the Ethernet II layer over the `cap` capture handle. Sending
    prefixes a 14-byte Ethernet header (destination MAC, local MAC, ethertype) to the data and
    hands the frame to `cap.send`; receiving keeps the frames addressed to the local MAC and
    passes their payload upwards. The capture handle is represented by what it was given:
    the frames sent, the number of 'packet' listeners registered and whether it is open. */
module DataLink {
  import opened Wrappers
  import opened Bytes
  import opened Utils
  import opened Cap

  const ETHERNET_PACKET_SIZE := 14
  const ETHERNET_DST_MAC_OFFSET := 0
  const ETHERNET_SRC_MAC_OFFSET := 6
  const ETHERNET_TYPE_OFFSET := 12
  const LINK_DATA_OFFSET := 14
  const MAC_SIZE := 6

  /** What `_createEthernetPacket` returns or throws: the destination MAC is written first
      (RangeError when it has more than six parts), then the local MAC (TypeError when the
      local MAC is undefined, RangeError when it does not fit), then the ethertype. */
  function EthernetHeader(dstMac: string, localMac: Option<string>, ethernetType: int)
    : (r: Result<seq<Byte>>)
    ensures r.Ok? <==> Fits(dstMac, MAC_SIZE) && localMac.Some? && Fits(localMac.value, MAC_SIZE)
    ensures r.Ok? ==> |r.value| == ETHERNET_PACKET_SIZE
    ensures !Fits(dstMac, MAC_SIZE) ==> r == Err(RangeError)
    ensures Fits(dstMac, MAC_SIZE) && localMac.None? ==> r == Err(TypeError)
  {
    if !Fits(dstMac, MAC_SIZE) then Err(RangeError)
    else if localMac.None? then Err(TypeError)
    else if !Fits(localMac.value, MAC_SIZE) then Err(RangeError)
    else Ok(Field(dstMac, MAC_SIZE) + Field(localMac.value, MAC_SIZE) + Be16(ethernetType))
  }

  /** The frame `sendData` passes to `cap.send`: the Ethernet header followed by the data. */
  function Frame(data: seq<Byte>, dstMac: string, localMac: Option<string>, ethernetType: int)
    : (r: Result<seq<Byte>>)
    ensures r.Ok? <==> EthernetHeader(dstMac, localMac, ethernetType).Ok?
    ensures r.Err? ==> r.error == EthernetHeader(dstMac, localMac, ethernetType).error
    ensures r.Ok? ==> |r.value| == ETHERNET_PACKET_SIZE + |data|
  {
    match EthernetHeader(dstMac, localMac, ethernetType)
    case Err(e) => Err(e)
    case Ok(header) => Ok(header + data)
  }

  /** A frame read back: destination MAC at bytes 0-5, local MAC at 6-11, the ethertype
      modulo 2^16 at 12-13 and the data, unchanged, from byte 14 on. */
  lemma FrameFields(data: seq<Byte>, dstMac: string, localMac: Option<string>, ethernetType: int)
    requires Frame(data, dstMac, localMac, ethernetType).Ok?
    ensures var f := Frame(data, dstMac, localMac, ethernetType).value;
      && f[ETHERNET_DST_MAC_OFFSET..ETHERNET_SRC_MAC_OFFSET] == Field(dstMac, MAC_SIZE)
      && f[ETHERNET_SRC_MAC_OFFSET..ETHERNET_TYPE_OFFSET] == Field(localMac.value, MAC_SIZE)
      && Uint16(f[ETHERNET_TYPE_OFFSET..LINK_DATA_OFFSET]) == ethernetType % 0x1_0000
      && f[LINK_DATA_OFFSET..] == data
  {
    var d := Field(dstMac, MAC_SIZE);
    var s := Field(localMac.value, MAC_SIZE);
    var t := Be16(ethernetType);
    assert Frame(data, dstMac, localMac, ethernetType).value == d + s + t + data;
    FrameParts(d, s, t, data);
  }

  /** The four parts of a frame sit at their offsets. */
  lemma FrameParts(d: seq<Byte>, s: seq<Byte>, t: seq<Byte>, data: seq<Byte>)
    requires |d| == MAC_SIZE && |s| == MAC_SIZE && |t| == 2
    ensures var f := d + s + t + data;
      f[0..6] == d && f[6..12] == s && f[12..14] == t && f[14..] == data
  {
    var f := d + s + t + data;
    assert f[0..6] == d;
    assert f[6..12] == s;
    assert f[12..14] == t;
    assert f[14..] == data;
  }

  /** A MAC address given in the colon-separated hex form is written as exactly its six
      bytes, so both addresses of a frame carry the MAC they name. */
  lemma MacFieldRoundTrip(b: seq<Byte>)
    requires |b| == MAC_SIZE
    ensures Fits(FormatMac(b), MAC_SIZE) && Field(FormatMac(b), MAC_SIZE) == b
  {
    MacTextRoundTrip(b);
    assert Zeros(0) == [];
    assert b + Zeros(0) == b;
  }

  /** One send as seen from outside: a frame that was built is appended to the frames sent
      and nothing is thrown; otherwise the header's error is thrown and nothing is sent. */
  predicate Transmitted(before: seq<seq<Byte>>, after: seq<seq<Byte>>, err: Option<JsError>,
                        frame: Result<seq<Byte>>)
  {
    match frame
    case Ok(f) => err.None? && after == before + [f]
    case Err(e) => err == Some(e) && after == before
  }

  /** What the 'packet' listener passes to its callback: the bytes of the frame after the
      Ethernet header and the ethertype's name. */
  datatype Delivery = Delivery(payload: seq<Byte>, typeName: Option<string>)

  class DataLinkLayer {
    /** The MAC of the interface that carries the local IP; undefined when none does. */
    const localMac: Option<string>
    /** The frames handed to `cap.send`, oldest first. */
    var sent: seq<seq<Byte>>
    /** The 'packet' listeners registered on the capture handle. */
    var listeners: nat
    var isOpen: bool

    /** `new DataLinkLayer(bufSize, filter)` with the local MAC that `getMac` found. */
    constructor(localMac: Option<string>)
      ensures this.localMac == localMac
      ensures sent == [] && listeners == 0 && isOpen
    {
      this.localMac := localMac;
      sent := [];
      listeners := 0;
      isOpen := true;
    }

    /** `_createEthernetPacket(dstMac, ethernetType)`. */
    method CreateEthernetPacket(dstMac: string, ethernetType: int) returns (r: Result<seq<Byte>>)
      ensures r == EthernetHeader(dstMac, localMac, ethernetType)
    {
      var packet := new Byte[ETHERNET_PACKET_SIZE](_ => 0);
      assert packet[..] == [] + Zeros(ETHERNET_PACKET_SIZE);
      var ok := WriteAddress(packet, [], ETHERNET_DST_MAC_OFFSET, dstMac, MAC_SIZE, 14);
      if !ok {
        return Err(RangeError);
      }
      if localMac.None? {
        return Err(TypeError);
      }
      ghost var p := Field(dstMac, MAC_SIZE);
      assert [] + p == p;
      ok := WriteAddress(packet, p, ETHERNET_SRC_MAC_OFFSET, localMac.value, MAC_SIZE, 8);
      if !ok {
        return Err(RangeError);
      }
      p := p + Field(localMac.value, MAC_SIZE);
      PutInt16(packet, p, ETHERNET_TYPE_OFFSET, ethernetType, 2);
      assert Zeros(0) == [];
      assert packet[..] == p + Be16(ethernetType) + [];
      assert packet[..] == p + Be16(ethernetType);
      assert EthernetHeader(dstMac, localMac, ethernetType) == Ok(p + Be16(ethernetType));
      return Ok(packet[..]);
    }

    /** `sendData(data, dstMac, ethernetType)`: a missing data buffer sends nothing; otherwise
        the frame is built (or the header's error is thrown) and handed to `cap.send`. */
    method SendData(data: Option<seq<Byte>>, dstMac: string, ethernetType: int)
      returns (err: Option<JsError>)
      modifies this
      ensures listeners == old(listeners) && isOpen == old(isOpen)
      ensures data.None? ==> err.None? && sent == old(sent)
      ensures data.Some? ==>
        Transmitted(old(sent), sent, err, Frame(data.value, dstMac, localMac, ethernetType))
    {
      if data.None? {
        return None;
      }
      var header := CreateEthernetPacket(dstMac, ethernetType);
      if header.Err? {
        return Some(header.error);
      }
      var frame := BuildFrame(header.value, data.value);
      sent := sent + [frame];
      return None;
    }

    /** `close()`: closes the capture handle. */
    method Close()
      modifies this
      ensures !isOpen && sent == old(sent) && listeners == old(listeners)
    {
      isOpen := false;
    }

    /** `receivePacket(cb)`: registers one more 'packet' listener; what the listener does
        with a captured frame is `OnPacket`. */
    method ReceivePacket()
      modifies this
      ensures listeners == old(listeners) + 1
      ensures sent == old(sent) && isOpen == old(isOpen)
    {
      listeners := listeners + 1;
    }

    /** The 'packet' listener: a truncated capture is ignored; otherwise the first nbytes
        of the capture buffer are decoded as Ethernet, a frame for another MAC is ignored,
        and the callback receives `buffer.slice(offset, nbytes)` with the name
        `PROTOCOL.ETHERNET[type]` of the ethertype. */
    function OnPacket(buffer: seq<Byte>, nbytes: nat, trunc: bool,
                      ethernet: seq<Byte> -> EthernetDecoded, ethernetNames: map<int, string>)
      : (r: Option<Delivery>)
      ensures r.Some? <==> !trunc && ethernet(Slice(buffer, 0, nbytes)).info.dstmac == localMac
      ensures r.Some? ==> var res := ethernet(Slice(buffer, 0, nbytes));
        && r.value.payload == Slice(buffer, res.offset, nbytes)
        && (r.value.typeName.Some? <==> res.info.etherType in ethernetNames)
        && (r.value.typeName.Some? ==> r.value.typeName.value == ethernetNames[res.info.etherType])
    {
      if trunc then None
      else
        var res := ethernet(Slice(buffer, 0, nbytes));
        if res.info.dstmac != localMac then None
        else
          var name := if res.info.etherType in ethernetNames
            then Some(ethernetNames[res.info.etherType]) else None;
          Some(Delivery(Slice(buffer, res.offset, nbytes), name))
    }
  }

  /** The payload of an accepted frame whose header lies within the captured bytes is
      exactly the captured bytes after the header. */
  lemma PayloadWithinCapture(buffer: seq<Byte>, offset: nat, nbytes: nat)
    requires offset <= nbytes <= |buffer|
    ensures Slice(buffer, offset, nbytes) == buffer[offset..nbytes]
    ensures |Slice(buffer, offset, nbytes)| == nbytes - offset
  {
    SliceWithin(buffer, offset, nbytes);
  }

  /** The two dataToArrayBuffer calls of `sendData`: the header into the window 0..14 and
      the data into the window 14..14+|data| of a fresh zeroed buffer. */
  method BuildFrame(header: seq<Byte>, data: seq<Byte>) returns (frame: seq<Byte>)
    requires |header| == ETHERNET_PACKET_SIZE
    ensures frame == header + data
  {
    var n := |data| + ETHERNET_PACKET_SIZE;
    var packet := new Byte[n](_ => 0);
    assert packet[..] == [] + Zeros(n);
    var ok := DataToArrayBuffer(Some(header), packet, 0, ETHERNET_PACKET_SIZE);
    DataAfterPrefix([], header, n);
    assert [] + header == header;
    ok := DataToArrayBuffer(Some(data), packet, LINK_DATA_OFFSET, |data|);
    DataAfterPrefix(header, data, |data|);
    assert Zeros(0) == [];
    assert packet[..] == header + data + [];
    return packet[..];
  }
}
