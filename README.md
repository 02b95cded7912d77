# A verified model of a user-space network stack

This project models, in Dafny, the core of a small JavaScript network stack. The stack builds
Ethernet, ARP, IPv4, UDP, TCP and DNS packets byte by byte in `ArrayBuffer`s. It walks received
frames down the protocol layers and hands the decoded transport header to the application bound
to its port. It also runs the client side of a TCP three-way handshake. It builds a DNS query and
wraps it in UDP; the IPv4 step after that throws, so nothing is sent.

Each source file becomes one module:

| module | source file | what it holds |
|---|---|---|
| `Utils` | `utils.js` (and the identical first 25 lines of `util/buffer.js`) | `addrToArrayBuffer`, `dataToArrayBuffer` |
| `Buffer` | `util/buffer.js` | `mergeArrayBuffer` |
| `Packet` | `util/packet.js` | `calcChecksum`, the Internet checksum of RFC 1071 |
| `ArpLayer` | `protocol/ARPProtocolLayer.js` | the 28-byte ARP packet of RFC 826 |
| `IpLayer` | `protocol/IPProtocolLayer.js` | the IPv4 header of section 3.1 of RFC 791, and the destination filter |
| `UdpLayer` | `protocol/UDPProtocolLayer.js` | the UDP datagram of RFC 768 |
| `TcpLayer` | `protocol/TCPProtocolLayer.js` | the TCP segment of section 3.1 of RFC 793, with its pseudo-header checksum |
| `DataLink` | `datalink/DataLinkLayer.js` | the Ethernet II header, the send path and the receive filter |
| `ProtocolManager` | `protocol/ProtocolManager.js` | layer lookup, the receive loop, and sending to the router |
| `AppManager` | `application/ApplicationManager.js` | the application list and first-match dispatch |
| `Handshake` | `application/TCPThreeHandshake.js` | the handshake client (section 3.4 of RFC 793) |
| `Dns` | `application/DNSApplication.js` | the DNS query of sections 3.1, 4.1.1 and 4.1.2 of RFC 1035 |

Four support modules hold shared definitions:
- `Wrappers` holds `Option`, `Result` and the JavaScript error kinds.
- `Bytes` holds bytes, the big-endian DataView setters (`setInt8`, `setInt16` and `setInt32` wrap modulo 2^8, 2^16 and 2^32) and sequence splicing.
- `JsText` holds `String.prototype.split`, `join` and `parseInt`.
- `Cap` holds the shape of what the capture library's decoders return.

The model follows the code's own structure:
- **Encoders.** Every encoder is a method that allocates a zeroed `array<Byte>` and fills it field by field, as the DataView calls do. Each is proved equal to a specification function on byte sequences.
- **Field readers.** Lemmas read the fields of that function back at their offsets. These readers are written over the byte layout, because the source has no decoders of its own.
- **Stateful objects.** Objects whose fields change are classes. These are the data-link layer, the application list, the handshake and the DNS application.
- **Errors.** A thrown exception is an `Err` of `Result`. A missing (`undefined`) property is `None`.

## Assumptions

- `utils.js:27-30` exports only `addrToArrayBuffer` and `dataToArrayBuffer`. Yet `protocol/TCPProtocolLayer.js:3-8` imports `calcChecksum` and `mergeArrayBuffer` from it, and `protocol/IPProtocolLayer.js:3-7` imports `calcChecksum` from it. As written, those names would be `undefined` and the first call to either would throw. The model composes the encoders with the intended functions: `calcChecksum` of `util/packet.js` and `mergeArrayBuffer` of `util/buffer.js`.
- The guard at `util/packet.js:4` parses as `(!packet) instanceof ArrayBuffer`, which is always false. The model therefore has no guard there.
- The capture library's decoders are parameters of type `seq<Byte> -> Decoded`. The receive loop requires that each decoder consumes at least one byte (`ProtocolManager.Consumes`). This is what makes the model's walk terminate.

## Model

| member | source | states |
|---|---|---|
| JsText.Split | utils.js:4-6 | `split` always yields at least one piece |
| JsText.SplitJoin | utils.js:4-6 | splitting the join of pieces that do not contain the separator gives back the pieces |
| JsText.ParseDec | utils.js:13 | `parseInt` reads the decimal text of a number back as that number |
| JsText.ParseHex2 | utils.js:8-13 | `parseInt` reads "0x" followed by the two hex digits of a byte back as that byte |
| Utils.PartBytes | utils.js:12-14 | exactly one byte is written per address component |
| Utils.Field | utils.js:12-14 | an address that fits a zeroed field fills its first bytes with the component bytes, in order, and leaves the rest zero |
| Utils.SplitAddr | utils.js:2-10 | an address with '.' is split on '.'; otherwise it is split on ':' and every piece gets the prefix "0x" |
| Utils.WriteParts | utils.js:12-14 | component k, parsed (NaN as 0) and wrapped modulo 2^8, is written at window index k; every other byte is unchanged; if there are more components than window bytes, those that fit are written and the call fails (RangeError) |
| Utils.AddrToArrayBuffer | utils.js:1-15 | the address's bytes are spliced into the window at its offset; success exactly when the address has no more components than the window has bytes |
| Utils.DataToArrayBuffer | utils.js:17-25 | a missing source changes nothing; otherwise dst[i] = src[i] for every i below the source length and all later bytes are unchanged; a source longer than the window writes what fits, then fails |
| Utils.Ipv4TextRoundTrip | utils.js:1-15 | the dotted-decimal text of four bytes is written as exactly those four bytes |
| Utils.MacTextRoundTrip | utils.js:1-15 | the colon-hex text of six bytes is written as exactly those six bytes |
| Utils.Ipv4PartsRead | utils.js:3-4 | any text containing '.' that splits into the decimal texts of four bytes is written as those bytes |
| Utils.MacPartsRead | utils.js:5-10 | any text without '.' that splits on ':' into hex pairs is written as the bytes those pairs denote |
| Buffer.ValidBuffers | util/buffer.js:28 | the filter keeps at most as many buffers as it was given |
| Buffer.ValidBuffersAppend | util/buffer.js:28 | the filter distributes over concatenation of the argument list |
| Buffer.IgnoresNonBuffers | util/buffer.js:28 | an argument that is not an ArrayBuffer contributes nothing to the result |
| Buffer.ConcatLength | util/buffer.js:29-34 | the result length is the sum of the lengths of the valid buffers |
| Buffer.SumLengths | util/buffer.js:29-32 | the first loop computes the total length of the valid buffers |
| Buffer.CopyAt | util/buffer.js:37-43 | the inner copy loop places the buffer right after the bytes already copied, and every byte after the copy is unchanged |
| Buffer.MergeArrayBuffer | util/buffer.js:27-46 | the result is the valid buffers concatenated in argument order, and its length is the sum of their lengths |
| Buffer.MergeTwo | util/buffer.js:27-46 | merging two buffers gives the first followed by the second |
| Packet.Padded | util/packet.js:8-10 | the buffer summed has even length and is the input, or the input with one zero byte appended |
| Packet.Checksum | util/packet.js:19 | the checksum lies in 0..0xFFFF |
| Packet.SumWords | util/packet.js:14-17 | the loop sums the big-endian 16-bit words |
| Packet.CalcChecksum | util/packet.js:3-20 | for word sums below 2^31, `calcChecksum` returns 0xFFFF - (((S mod 2^16) + S div 2^16) mod 2^16) for the word sum S of the padded input |
| Packet.WordSumAppend | util/packet.js:14-17 | word sums add up over a split at an even position |
| Packet.WordSumBound | util/packet.js:14-17 | the word sum is at most 0xFFFF per word |
| Packet.ShortBufferSumFits | util/packet.js:14-19 | a buffer of at most 2^16 bytes keeps the sum below 2^31, where the 32-bit `>>` is exact |
| Packet.OddPadding | util/packet.js:8-10 | an odd-length input checksums like the same input with a zero byte appended |
| Packet.ChecksumOfZeros | util/packet.js:14-19 | an all-zero buffer checksums to 0xFFFF |
| Packet.RfcChecksum | util/packet.js:19 | the reference checksum with the full end-around carry of RFC 1071 lies in 0..0xFFFF |
| Packet.NoCarryMatchesRfc | util/packet.js:19 | when the single fold produces no new carry, the result equals the RFC 1071 checksum |
| Packet.SingleFoldDropsCarry | util/packet.js:19 | words FFFF FFFF 0001 give 0xFFFF where RFC 1071 gives 0xFFFE: the carry of the fold is dropped |
| Packet.ChecksumVerifies | util/packet.js:14-19 | writing the checksum into a zeroed word at an even offset makes the buffer checksum to 0 (no second carry) |
| Packet.ChecksumAfterPrefix | util/packet.js:14-19 | the same when the word lies in the second of two concatenated buffers |
| ArpLayer.WriteFixedPart | protocol/ARPProtocolLayer.js:66-70 | the five numeric setters fill bytes 0-7 and leave bytes 8-27 zero |
| ArpLayer.WriteAddresses | protocol/ARPProtocolLayer.js:72-75 | the four address writes succeed exactly when every address fits its field, and then produce the full layout |
| ArpLayer.ArpPacket | protocol/ARPProtocolLayer.js:37-78 | 'ip & mac is required' is thrown exactly when an address is missing or empty; otherwise RangeError exactly when an address does not fit; otherwise the 28-byte packet that starts with the fixed part |
| ArpLayer.CreatePacket | protocol/ARPProtocolLayer.js:37-78 | the method returns or throws exactly what the specification `ArpPacket` says |
| ArpLayer.FixedPartLayout | protocol/ARPProtocolLayer.js:38-70 | bytes 0-1 hold the hardware type (default 1), 2-3 the protocol type (default 0x0800), 4 the MAC length (default 6), 5 the IP length (default 4), 6-7 the opcode (default 1), each wrapped to its width |
| ArpLayer.LayoutFields | protocol/ARPProtocolLayer.js:54-77 | the packet is 28 bytes: sender MAC at 8-13, sender IP at 14-17, target MAC at 18-23, target IP at 24-27 |
| ArpLayer.ArpGuard | protocol/ARPProtocolLayer.js:50-52 | 'ip & mac is required' is thrown exactly when an address is missing or empty after the defaults |
| ArpLayer.ZeroMacField | protocol/ARPProtocolLayer.js:46 | the default target MAC is written as six zero bytes |
| ArpLayer.DefaultFixedPart | protocol/ARPProtocolLayer.js:39-43 | the defaults give 00 01 08 00 06 04 00 01 |
| ArpLayer.FormattedFields | protocol/ARPProtocolLayer.js:72-75 | a MAC or IPv4 field written from the text of its bytes holds exactly those bytes |
| ArpLayer.DefaultRequest | protocol/ARPProtocolLayer.js:37-78 | a request given only the sender MAC and the target IP is the RFC 826 request: fixed part, sender MAC, local IP as sender, zero target MAC, target IP |
| ArpLayer.RequestAccepted | protocol/ARPProtocolLayer.js:44-52 | such a request with non-empty addresses that fit passes the guard and every write |
| IpLayer.HeaderLength | protocol/IPProtocolLayer.js:74 | the header length in words is the least with 4·hl >= options + 20 |
| IpLayer.FlagsAndOffset | protocol/IPProtocolLayer.js:96 | the flags-and-offset word lies below 2^16 |
| IpLayer.FlagsAndOffsetFields | protocol/IPProtocolLayer.js:96 | for an offset below 2^13, the word is (flags mod 8)·2^13 + offset, and both are read back from it |
| IpLayer.DefaultFlagsDontFragment | protocol/IPProtocolLayer.js:53-54 | the default flags 2 and offset 0 give 0x4000, Don't Fragment |
| IpLayer.AddressError | protocol/IPProtocolLayer.js:103-104 | writing the addresses throws nothing exactly when both are present and fit four bytes |
| IpLayer.IpPacketErrors | protocol/IPProtocolLayer.js:60-67 | 'data overflow' is thrown exactly when the options exceed 40 bytes; a packet is returned exactly when the options fit and both addresses can be written |
| IpLayer.Accepted | protocol/IPProtocolLayer.js:74-76 | the packet is 4·hl + payload bytes long |
| IpLayer.IpPacketAccepted | protocol/IPProtocolLayer.js:60-107 | when nothing throws, the returned packet is `Accepted` |
| IpLayer.WriteNumericFields | protocol/IPProtocolLayer.js:89-101 | the eight numeric setters fill bytes 0-11 of the zeroed packet |
| IpLayer.WriteAddresses | protocol/IPProtocolLayer.js:103-104 | the address writes throw `AddressError`, and otherwise complete the 20-byte fixed header |
| IpLayer.WriteChecksum | protocol/IPProtocolLayer.js:106-107 | the checksum over the whole packet while only the fixed header is filled is written at bytes 10-11 |
| IpLayer.WriteOptions | protocol/IPProtocolLayer.js:110-117 | the options are copied from offset 20, and the padding loop leaves zeros up to the next word boundary |
| IpLayer.WritePayload | protocol/IPProtocolLayer.js:120-123 | the payload is copied at 4·hl |
| IpLayer.WriteBody | protocol/IPProtocolLayer.js:106-123 | checksum, options and payload turn the fixed header into the assembled packet |
| IpLayer.IpPacket | protocol/IPProtocolLayer.js:46-127 | 'data overflow' is thrown exactly when the options exceed 40 bytes; a packet that is returned is 4·hl + payload bytes long (its contents are `Accepted`) |
| IpLayer.CreatePacket | protocol/IPProtocolLayer.js:46-127 | the method returns or throws exactly what the specification `IpPacket` says |
| IpLayer.NumericFieldsRead | protocol/IPProtocolLayer.js:89-101 | byte 0 is 0x40 + hl, byte 1 the TOS, 2-3 the total length, 4-5 the identification, 6-7 flags and offset, 8 the TTL (default 64), 9 the protocol, 10-11 zero |
| IpLayer.WithChecksumRead | protocol/IPProtocolLayer.js:106-107 | the checksummed header differs from the fixed header only at bytes 10-11, which hold its checksum |
| IpLayer.IpHeaderFields | protocol/IPProtocolLayer.js:74-107 | the packet's header read back: version and length, TOS, its own length modulo 2^16, identification, flags, TTL, protocol, the checksum of the fixed header, and the two addresses |
| IpLayer.IpBodyFields | protocol/IPProtocolLayer.js:74-123 | the packet is 4·hl + payload bytes long, the options sit from byte 20 followed by zeros up to 4·hl, and the payload follows unchanged |
| IpLayer.AssembleRead | protocol/IPProtocolLayer.js:110-123 | an assembled packet reads back as header, options, zero padding and payload |
| IpLayer.IpHeaderChecksumVerifies | protocol/IPProtocolLayer.js:100-117 | the 20-byte fixed header checksums to 0 when the fold produces no second carry; the options are not covered |
| IpLayer.HandlePacket | protocol/IPProtocolLayer.js:129-133 | the decoder result is kept exactly when its destination is the local IP; otherwise the result is null |
| UdpLayer.Header | protocol/UDPProtocolLayer.js:43-53 | the header is 8 bytes |
| UdpLayer.UdpDatagram | protocol/UDPProtocolLayer.js:21-61 | it throws exactly when a port is undefined; the datagram is 8 bytes plus the payload, where a non-ArrayBuffer payload counts as empty |
| UdpLayer.CreateHeader | protocol/UDPProtocolLayer.js:21-61 | the method returns or throws exactly what `UdpDatagram` says |
| UdpLayer.UdpFields | protocol/UDPProtocolLayer.js:48-58 | ports at 0-3 modulo 2^16, the length field equal to the datagram's own length, a zero checksum, and the payload unchanged from byte 8 |
| TcpLayer.Flags | protocol/TCPProtocolLayer.js:116-134 | the control bits form a number below 64 |
| TcpLayer.FlagsDecode | protocol/TCPProtocolLayer.js:53-58 | URG is bit 5, ACK bit 4, PSH bit 3, RST bit 2, SYN bit 1 and FIN bit 0, each set exactly when its property is truthy |
| TcpLayer.ComputeFlags | protocol/TCPProtocolLayer.js:116-134 | the `|=` chain computes `Flags` |
| TcpLayer.OffsetAndFlags | protocol/TCPProtocolLayer.js:136 | the word is the data offset times 2^12 plus the flags |
| TcpLayer.PortsAndNumbers | protocol/TCPProtocolLayer.js:108-111 | bytes 0-11 are 12 bytes |
| TcpLayer.Control | protocol/TCPProtocolLayer.js:136-143 | bytes 12-19 are 8 bytes |
| TcpLayer.Segment | protocol/TCPProtocolLayer.js:90-159 | the segment before its checksum is 20 + 12 bytes |
| TcpLayer.PseudoHeader | protocol/TCPProtocolLayer.js:181-209 | it succeeds exactly when both addresses are truthy and fit and the segment is present; the result is 12 bytes |
| TcpLayer.PseudoFields | protocol/TCPProtocolLayer.js:196-208 | the writes succeed exactly when both addresses fit four bytes |
| TcpLayer.PseudoHeaderFields | protocol/TCPProtocolLayer.js:196-206 | source IP at 0-3, destination IP at 4-7, 00 06 at 8-9, the segment length modulo 2^16 at 10-11 |
| TcpLayer.PseudoLengthOnly | protocol/TCPProtocolLayer.js:196-206 | the pseudo header depends on the segment only through its length |
| TcpLayer.TcpSegment | protocol/TCPProtocolLayer.js:71-175 | a segment is returned exactly when there is no data and both addresses are truthy and fit; it is 32 bytes; any data throws RangeError, because the data view starts at 44 |
| TcpLayer.Checksummed | protocol/TCPProtocolLayer.js:166-172 | the checksummed segment has the same length, and it exists exactly when the pseudo header can be built |
| TcpLayer.PortsFields | protocol/TCPProtocolLayer.js:108-111 | ports at 0-3 modulo 2^16, sequence and acknowledgment numbers at 4-11 modulo 2^32 |
| TcpLayer.ControlFields | protocol/TCPProtocolLayer.js:113-143 | byte 12 is 0x80 (8 words), byte 13 the flags, window at 14-15, zero checksum, urgent pointer at 18-19 |
| TcpLayer.SegmentFields | protocol/TCPProtocolLayer.js:108-159 | all the fixed fields at their offsets, and options 02 04 05 B4 01 03 03 08 01 01 04 02 at 20-31 |
| TcpLayer.TcpFields | protocol/TCPProtocolLayer.js:166-172 | the returned segment equals the unchecksummed one except at 16-17, which hold `calcChecksum` of the pseudo header followed by it |
| TcpLayer.ChecksummedVerifies | protocol/TCPProtocolLayer.js:166-172 | the pseudo header followed by the checksummed segment checksums to 0 (no second carry) |
| TcpLayer.TcpChecksumVerifies | protocol/TCPProtocolLayer.js:140-172 | `createHeader`'s result passes the receiver's checksum test (no second carry) |
| TcpLayer.CreatePseudoHeader | protocol/TCPProtocolLayer.js:181-209 | the method returns or throws exactly what `PseudoHeader` says |
| TcpLayer.WritePseudoFields | protocol/TCPProtocolLayer.js:196-208 | the four views are filled as `PseudoFields` says |
| TcpLayer.WritePortsAndNumbers | protocol/TCPProtocolLayer.js:108-111 | the first four setters fill bytes 0-11 |
| TcpLayer.WriteControl | protocol/TCPProtocolLayer.js:136-143 | the next setters fill bytes 12-19 |
| TcpLayer.WriteOptions | protocol/TCPProtocolLayer.js:145-159 | the option writes fill bytes 20-31 |
| TcpLayer.WriteChecksum | protocol/TCPProtocolLayer.js:166-172 | the merge and checksum give `Checksummed` of the segment as it was |
| TcpLayer.CreateHeader | protocol/TCPProtocolLayer.js:71-175 | the method returns or throws exactly what `TcpSegment` says |
| DataLink.EthernetHeader | datalink/DataLinkLayer.js:77-88 | the header is 14 bytes when both MACs fit; a bad destination MAC gives RangeError, and a missing local MAC gives TypeError |
| DataLink.Frame | datalink/DataLinkLayer.js:35-43 | the frame is 14 + data bytes, or the header's error |
| DataLink.FrameFields | datalink/DataLinkLayer.js:35-45 | destination MAC at 0-5, local MAC at 6-11, the ethertype modulo 2^16 at 12-13, the data unchanged from 14 |
| DataLink.MacFieldRoundTrip | datalink/DataLinkLayer.js:84-85 | a MAC given in colon-hex text is written as exactly its six bytes |
| DataLink.BuildFrame | datalink/DataLinkLayer.js:37-43 | the two copies give the header followed by the data |
| DataLink.PayloadWithinCapture | datalink/DataLinkLayer.js:56-59 | the payload passed on is exactly the captured bytes after the header |
| DataLink.DataLinkLayer.constructor | datalink/DataLinkLayer.js:23-29 | the layer opens with the local MAC it was given, nothing sent and no listeners |
| DataLink.DataLinkLayer.CreateEthernetPacket | datalink/DataLinkLayer.js:77-88 | the method returns or throws exactly what `EthernetHeader` says |
| DataLink.DataLinkLayer.SendData | datalink/DataLinkLayer.js:31-46 | missing data sends nothing; otherwise the frame is appended to the frames sent, or the header's error is thrown and nothing is sent |
| DataLink.DataLinkLayer.Close | datalink/DataLinkLayer.js:48-50 | the handle is closed and nothing else changes |
| DataLink.DataLinkLayer.ReceivePacket | datalink/DataLinkLayer.js:52-54 | one more 'packet' listener is registered |
| DataLink.DataLinkLayer.OnPacket | datalink/DataLinkLayer.js:54-60 | truncated captures and frames for another MAC are dropped; otherwise the bytes after the header are passed on with the ethertype's name |
| ProtocolManager.GetProtocol | protocol/ProtocolManager.js:33-46 | null exactly for anything other than the ARP, IPv4, UDP and TCP numbers |
| ProtocolManager.GetProtocolInverse | protocol/ProtocolManager.js:33-46 | each layer is chosen for its own number and for no other |
| ProtocolManager.Handle | protocol/ProtocolManager.js:54-56 | the ARP layer throws, because it has no handlePacket; IPv4 applies the destination filter; UDP and TCP return their decoder's result |
| ProtocolManager.Deliver | protocol/ProtocolManager.js:51-64 | the walk spins when no layer handles the protocol or the layer throws, is dropped when the layer returns null, and dispatches the header's info when it uses up the buffer |
| ProtocolManager.NoLayerSpins | protocol/ProtocolManager.js:51-63 | an unknown protocol, or ARP, throws on every retry, so the loop never ends |
| ProtocolManager.ForeignPacketDropped | protocol/ProtocolManager.js:57 | an IPv4 packet for another host ends the loop with nothing dispatched |
| ProtocolManager.TcpSegmentDispatched | protocol/ProtocolManager.js:58-64 | a TCP segment without payload, in a packet for the local IP, is dispatched with the TCP header's info |
| ProtocolManager.PayloadAfterTransportSpins | protocol/ProtocolManager.js:58-63 | a UDP or TCP header followed by payload leaves an undefined protocol, so the loop never ends |
| ProtocolManager.ReceivePacket | protocol/ProtocolManager.js:48-66 | the loop's outcome is `Deliver` from PROTOCOL.IP[type]; when it ends with a decoded header, exactly the first application bound to its port is called |
| ProtocolManager.SendPacket | protocol/ProtocolManager.js:15-21 | with monitoring, one more listener is registered; the data is sent to the router MAC from ipMacTable as an IPv4 frame |
| ProtocolManager.GetRouterMac | protocol/ProtocolManager.js:23-31 | the ARP request for the router's IP is broadcast after one listener is registered; a createPacket error is thrown before anything happens |
| AppManager.FirstMatch | application/ApplicationManager.js:8-17 | the index of the first application whose srcPort equals the port; no earlier one matches; none exactly when no application matches |
| AppManager.FirstMatchAfterRegister | application/ApplicationManager.js:4-17 | registering keeps dispatch where it was; the new application gets a port only when no earlier one has it |
| AppManager.FirstMatchIs | application/ApplicationManager.js:10-16 | a matching index with no earlier match is the first match |
| AppManager.ApplicationManager.constructor | application/ApplicationManager.js:2 | the list starts empty |
| AppManager.ApplicationManager.RegisterApplication | application/ApplicationManager.js:4-6 | the application is appended at the end |
| AppManager.ApplicationManager.DispatchData | application/ApplicationManager.js:8-17 | the scan stops at the first application whose srcPort equals dstport, so at most one is called; the list is not changed |
| Handshake.TcpThreeHandshake.Syn | application/TCPThreeHandshake.js:22-37 | the SYN is a segment `createHeader` returns, 32 bytes long |
| Handshake.TcpThreeHandshake.Ack | application/TCPThreeHandshake.js:68-83 | the ACK is a segment `createHeader` returns, 32 bytes long |
| Handshake.TcpThreeHandshake.Fin | application/TCPThreeHandshake.js:88-103 | the FIN+ACK is a segment `createHeader` returns, 32 bytes long |
| Handshake.TcpThreeHandshake.Datagram | application/TCPThreeHandshake.js:40-49 | the segment wrapped in IPv4 is returned, not thrown, and is 20 bytes longer than the segment |
| Handshake.TcpThreeHandshake.constructor | application/TCPThreeHandshake.js:8-38 | srcIp defaults to the local IP and the window to 17520; the port draw is in [10000, 20000) and the sequence draw in [0, 2^32 - 1); the packet is the SYN |
| Handshake.NewHandshake | application/TCPThreeHandshake.js:8-38 | construction throws exactly when the addresses do not let the SYN be built, and then it throws createHeader's error |
| Handshake.TcpThreeHandshake.CreateIpPacket | application/TCPThreeHandshake.js:40-49 | the current segment is wrapped in IPv4 with protocol TCP and flags 0b010 |
| Handshake.TcpThreeHandshake.SendData | application/TCPThreeHandshake.js:51-53 | with monitoring on, the IPv4 packet is sent as a frame to the router |
| Handshake.TcpThreeHandshake.HandleData | application/TCPThreeHandshake.js:55-65 | the ACK is built and sent only when ackno = seqNum + 1 and flags = 0x12; otherwise nothing changes; a release is scheduled on every call that does not throw |
| Handshake.TcpThreeHandshake.ReplySynAck | application/TCPThreeHandshake.js:67-85 | the packet becomes the ACK, and it is sent |
| Handshake.TcpThreeHandshake.Release | application/TCPThreeHandshake.js:87-105 | the packet becomes the FIN+ACK whatever the seqno, and it is sent |
| Handshake.TcpThreeHandshake.FireRelease | application/TCPThreeHandshake.js:61-64 | one scheduled release runs: the FIN+ACK is sent and one fewer release is pending |
| Handshake.TcpThreeHandshake.SynFields | application/TCPThreeHandshake.js:13-37 | flags 0x02 only, the source port, the initial sequence number, acknowledgment 0, the window given |
| Handshake.TcpThreeHandshake.AckFields | application/TCPThreeHandshake.js:67-83 | flags 0x10 only, sequence number one past the initial one (wrapping past 2^32 - 1), acknowledgment seqno + 1 modulo 2^32, window 17520 |
| Handshake.TcpThreeHandshake.FinFields | application/TCPThreeHandshake.js:87-103 | flags 0x11, sequence number two past the initial one (wrapping), acknowledgment 0, window 17520 |
| Handshake.TcpThreeHandshake.ReplyAcknowledges | application/TCPThreeHandshake.js:57-83 | the ACK answering a SYN+ACK takes the peer's ackno as its sequence number and acknowledges the peer's seqno + 1 |
| Handshake.TcpThreeHandshake.DatagramCarries | application/TCPThreeHandshake.js:40-49 | each packet sent has byte 0 0x45, protocol TCP, flags 0x4000, the handshake's addresses, and the segment unchanged from byte 20 |
| Dns.DnsHeader | application/DNSApplication.js:52-77 | the header is 12 bytes |
| Dns.HeaderFields | application/DNSApplication.js:52-77 | transaction id at 0-1, flags of a standard query with recursion desired at 2-3, QDCOUNT 1, and zero answer, authority and additional counts |
| Dns.OpCodeFlags | application/DNSApplication.js:63-64 | 0x0100 has QR clear, OPCODE 0 and RD set, and everything else clear |
| Dns.Codes | application/DNSApplication.js:92-94 | one byte per character |
| Dns.Label | application/DNSApplication.js:91-94 | a label takes its length plus one byte |
| Dns.SplitEncodedLength | application/DNSApplication.js:87-95 | the labels of a domain encode to |domain| + 1 bytes |
| Dns.NameLength | application/DNSApplication.js:80-96 | the encoded name fills exactly domainName.length + 2 bytes |
| Dns.LabelChars | application/DNSApplication.js:92-93 | character codes below 256 are read back as the label |
| Dns.EncodedRoundTrip | application/DNSApplication.js:89-96 | an RFC 1035 name reader gets back readable labels from their encoding and the 0 byte |
| Dns.NameRoundTrip | application/DNSApplication.js:87-96 | the reader gets back the '.'-separated labels of the domain |
| Dns.QueryLayout | application/DNSApplication.js:79-121 | the query is the header, then the name over |domain| + 2 bytes, then QTYPE 1 (A) and QCLASS 1 (IN) |
| Dns.DatagramCarriesQuery | application/DNSApplication.js:124-128 | the UDP datagram goes from the application's port to port 53, carries its own length and holds the query unchanged |
| Dns.EncodeName | application/DNSApplication.js:87-96 | the label loop fills a fresh |domain| + 2 byte buffer with the encoded name |
| Dns.WriteLabel | application/DNSApplication.js:90-95 | one step writes the length byte and the character codes after what was written, and every byte after them is unchanged |
| Dns.DnsApplication.constructor | application/DNSApplication.js:36-50 | the port and id are the draws, the domain defaults to www.baidu.com, and both buffers are built |
| Dns.DnsApplication.ConstructDnsPacketHeader | application/DNSApplication.js:52-77 | the header buffer holds `DnsHeader` |
| Dns.DnsApplication.ConstructDnsPacketQuestion | application/DNSApplication.js:79-105 | the query buffer holds the name, QTYPE A and QCLASS IN |
| Dns.DnsApplication.AssemblePacket | application/DNSApplication.js:107-121 | the two copy loops give the header bytes followed by the question bytes |
| Dns.DnsApplication.QueryDomain | application/DNSApplication.js:107-139 | the packet is wrapped in UDP to port 53, then the IPv4 step throws TypeError |

## Left out

- The capture library (`cap`): its decoders are parameters. The device, `open`, `send` and `on('packet')` are represented by what they were given: the frames sent, the listener count and the open flag. `setMinBytes` is not modelled.
- Randomness: the IP identification, the handshake's port and sequence number, and the DNS port and transaction id are parameters that carry the range of the expression computing them.
- `setTimeout`: the two-second release is a pending-release counter (`pendingReleases`) and a `FireRelease` event. Real time and the order of timers are not modelled.
- `console.log`, `index.js`, the `config` module (the local IP and the router's IP are parameters), `DataLinkLayer.getMac` (`os.networkInterfaces`; the local MAC is a parameter) and the module-level layer instance are not modelled.
- JavaScript numbers: integers are unbounded. Each setter's wrap-around is written out. `parseInt`'s leading whitespace, its `+`/`-` handling beyond one sign, and its precision above 2^53 are not modelled.
- Strings are sequences of Unicode scalar values, not of UTF-16 code units. For a domain with characters outside the Basic Multilingual Plane, JavaScript's `domainName.length` and each label's `length` count two code units per such character, while the model counts one. So `Dns.NameLength`, the length bytes and the size of the question buffer differ from the source for such domains, and so does `charCodeAt` of such a character.
- ProtocolManager.ReceivePacket: a step that throws is retried forever in the source; the model returns `Spins` instead of running forever.
- ProtocolManager.Consumes: the walk assumes every decoder consumes at least one byte.
- Packet.CalcChecksum: requires a word sum below 2^31, where the 32-bit `sum >> 16` is exact; longer buffers are not modelled.
- Packet.ChecksumVerifies: the zero-result property needs the single fold to produce no second carry (`NoCarry`). `SingleFoldDropsCarry` shows the input where it fails. The same holds for TcpLayer.TcpChecksumVerifies and IpLayer.IpHeaderChecksumVerifies.
- TcpLayer.PseudoHeader: its 'tcp packet is null' branch is modelled, but `createHeader` always passes a segment, so it is never reached.
- Handshake.TcpThreeHandshake.constructor: requires addresses with which the SYN can be built. `Handshake.NewHandshake` covers the case where construction throws.
- Dns.DnsApplication.QueryDomain: `IPProtocolLayer` has no `createHeader`, so the IPv4 step throws TypeError. `ProtocolManager.sendData` does not exist either. Nothing is sent, and the model returns the UDP datagram together with that error.
- Dns.NameRoundTrip: holds only for readable labels (non-empty, under 64 characters, codes below 256). An empty label, as in "a..b", is written as a 0 byte and ends the name early.
- Dns.DnsApplication.constructor: a `domainName` that is not a string is not modelled.
- IpLayer.IpHeaderChecksumVerifies: the header checksum does not cover the options, because they are written after it; this is the behaviour as written.
