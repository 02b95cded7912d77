/** application/DNSApplication.js: a DNS query for the A record of a domain name (section
    4.1 of RFC 1035). The 12-byte header and the question are built into two buffers at
    construction; queryDomain copies them into one packet and wraps it in UDP for port 53.
    The random source port and transaction id are parameters. */
module Dns {
  import opened Wrappers
  import opened Bytes
  import opened JsText
  import UdpLayer

  const TRANSITION_ID_OFFSET := 0
  const FLAGS_OFFSET := 2
  const QUESTION_COUNT_OFFSET := 4
  const ANSWER_RRS_OFFSET := 6
  const AUTHORITY_RRS_OFFSET := 8
  const ADDITION_RRS_OFFSET := 10
  const HEADER_LENGTH := 12
  const DOMAIN_NAME_OFFSET := 0
  const QUESTION_TYPE_LENGTH := 2
  const QUESTION_CLASS_LENGTH := 2
  /** QCLASS IN. */
  const QUESTION_CLASS := 1
  /** QTYPE A. */
  const QUESTION_TYPE_A := 1
  const UDP_DST_PORT := 53
  /** The flags word: a standard query with recursion desired. */
  const OP_CODE := 0x0100
  const DEFAULT_DOMAIN_NAME := "www.baidu.com"

  /** The header: transaction id, flags, one question and no answer, authority or
      additional records, each stored by setInt16. */
  function DnsHeader(transitionId: int): (r: seq<Byte>)
    ensures |r| == HEADER_LENGTH
  {
    Be16(transitionId) + Be16(OP_CODE) + Be16(1) + Be16(0) + Be16(0) + Be16(0)
  }

  /** The character codes of a label, each stored into an Int8Array and then by setInt8,
      so modulo 2^8. */
  function Codes(part: string): (r: seq<Byte>)
    ensures |r| == |part|
  {
    seq(|part|, k requires 0 <= k < |part| => Int8(part[k] as int))
  }

  /** A label as written: its length byte, then its character codes. */
  function Label(part: string): (r: seq<Byte>)
    ensures |r| == |part| + 1
  {
    [Int8(|part|)] + Codes(part)
  }

  /** The labels written one after another, in order. */
  function Encoded(labels: seq<string>): (r: seq<Byte>)
    decreases |labels|
  {
    if |labels| == 0 then [] else Encoded(labels[..|labels| - 1]) + Label(labels[|labels| - 1])
  }

  /** The encoded name: every '.'-separated label of the domain, then the 0 byte. */
  function Name(domain: string): seq<Byte> {
    Encoded(Split(domain, '.')) + [0]
  }

  /** The question: the name, QTYPE A and QCLASS IN. */
  function Question(domain: string): seq<Byte> {
    Name(domain) + Be16(QUESTION_TYPE_A) + Be16(QUESTION_CLASS)
  }

  /** The query packet: the header followed by the question. */
  function Query(transitionId: int, domain: string): seq<Byte> {
    DnsHeader(transitionId) + Question(domain)
  }

  /** The headerInfo queryDomain passes to the UDP layer. */
  function UdpInfo(port: int, packet: seq<Byte>): UdpLayer.UdpHeaderInfo {
    UdpLayer.UdpHeaderInfo(Some(port), Some(UDP_DST_PORT), Some(packet))
  }

  /** The characters of label bytes. */
  function Chars(b: seq<Byte>): (r: string)
    ensures |r| == |b|
  {
    seq(|b|, k requires 0 <= k < |b| => b[k] as char)
  }

  /** A reader of an encoded name as section 3.1 of RFC 1035 defines it: length-prefixed
      labels up to the 0 byte. A length of 64 or more (a compression pointer or a reserved
      form) or a label running past the end is not read. */
  function ReadName(b: seq<Byte>): Option<seq<string>>
    decreases |b|
  {
    if |b| == 0 then None
    else if b[0] == 0 then Some([])
    else if b[0] >= 64 || |b| < 1 + b[0] then None
    else
      match ReadName(b[1 + b[0]..])
      case None => None
      case Some(rest) => Some([Chars(b[1..1 + b[0]])] + rest)
  }

  /** Labels a reader can take back: non-empty, shorter than 64 characters, each character
      code below 256. */
  predicate Readable(labels: seq<string>) {
    forall k :: 0 <= k < |labels| ==>
      0 < |labels[k]| < 64 && forall j :: 0 <= j < |labels[k]| ==> labels[k][j] as int < 256
  }

  /** Adding a label in front adds its bytes in front. */
  lemma {:induction false} EncodedCons(part: string, rest: seq<string>)
    ensures Encoded([part] + rest) == Label(part) + Encoded(rest)
    decreases |rest|
  {
    var all := [part] + rest;
    if |rest| == 0 {
      assert all[..0] == [];
    } else {
      var init, last := rest[..|rest| - 1], rest[|rest| - 1];
      assert all[..|all| - 1] == [part] + init;
      assert all[|all| - 1] == last;
      assert Encoded(all) == Encoded([part] + init) + Label(last);
      EncodedCons(part, init);
      assert Encoded(rest) == Encoded(init) + Label(last);
    }
  }

  /** A prefix of the labels encodes to the matching prefix of the bytes, one label longer
      for one label more. */
  lemma EncodedNext(labels: seq<string>, k: nat)
    requires k < |labels|
    ensures Encoded(labels[..k + 1]) == Encoded(labels[..k]) + Label(labels[k])
  {
    assert labels[..k + 1][..k] == labels[..k];
  }

  /** Encoding a prefix of the labels takes no more bytes than encoding them all. */
  lemma {:induction false} EncodedPrefixShorter(labels: seq<string>, k: nat)
    requires k <= |labels|
    ensures |Encoded(labels[..k])| <= |Encoded(labels)|
    decreases |labels| - k
  {
    if k < |labels| {
      EncodedNext(labels, k);
      EncodedPrefixShorter(labels, k + 1);
    } else {
      assert labels[..k] == labels;
    }
  }

  /** Each label costs its length plus one byte, and the separators are not written, so the
      labels of a domain take one byte more than the domain. */
  lemma {:induction false} SplitEncodedLength(s: string)
    ensures |Encoded(Split(s, '.'))| == |s| + 1
    decreases |s|
  {
    if |s| == 0 {
      assert Split(s, '.') == [""];
      assert Split(s, '.')[..0] == [];
    } else {
      var rest := Split(s[1..], '.');
      SplitEncodedLength(s[1..]);
      EncodedCons(rest[0], rest[1..]);
      assert [rest[0]] + rest[1..] == rest;
      if s[0] == '.' {
        EncodedCons("", rest);
      } else {
        EncodedCons([s[0]] + rest[0], rest[1..]);
      }
    }
  }

  /** The encoded name is two bytes longer than the domain: the queryBuffer sized for it
      holds it exactly. */
  lemma NameLength(domain: string)
    ensures |Name(domain)| == |domain| + 2
  {
    SplitEncodedLength(domain);
  }

  /** Decoding a label gives it back when its character codes fit a byte. */
  lemma LabelChars(part: string)
    requires forall j :: 0 <= j < |part| ==> part[j] as int < 256
    ensures Chars(Codes(part)) == part
  {
    forall j | 0 <= j < |part| ensures Chars(Codes(part))[j] == part[j] {
      Int8Exact(part[j] as int);
    }
  }

  /** A readable label in front of an encoding is read back in front of what follows. */
  lemma LabelRead(part: string, after: seq<Byte>)
    requires 0 < |part| < 64 && forall j :: 0 <= j < |part| ==> part[j] as int < 256
    ensures ReadName(Label(part) + after)
            == if ReadName(after).Some? then Some([part] + ReadName(after).value) else None
  {
    var b := Label(part) + after;
    Int8Exact(|part|);
    assert b[0] == |part|;
    assert b[1..1 + |part|] == Codes(part);
    assert b[1 + |part|..] == after;
    LabelChars(part);
  }

  /** The labels after the first of readable labels are readable. */
  lemma ReadableRest(labels: seq<string>)
    requires Readable(labels) && |labels| > 0
    ensures Readable(labels[1..])
  {
    forall k | 0 <= k < |labels| - 1 ensures labels[1..][k] == labels[k + 1] { }
  }

  /** Readable labels are read back from their encoding, whatever follows the 0 byte. */
  lemma {:induction false} EncodedRoundTrip(labels: seq<string>, tail: seq<Byte>)
    requires Readable(labels)
    ensures ReadName(Encoded(labels) + [0] + tail) == Some(labels)
    decreases |labels|
  {
    if |labels| == 0 {
      assert Encoded(labels) + [0] + tail == [0] + tail;
    } else {
      var rest := labels[1..];
      ReadableRest(labels);
      EncodedRoundTrip(rest, tail);
      EncodedCons(labels[0], rest);
      assert [labels[0]] + rest == labels;
      var after := Encoded(rest) + [0] + tail;
      assert Encoded(labels) + [0] + tail == Label(labels[0]) + after;
      LabelRead(labels[0], after);
    }
  }

  /** The name carries the domain's labels: a reader gets back the '.'-separated labels of
      the domain when they are readable. */
  lemma NameRoundTrip(domain: string, tail: seq<Byte>)
    requires Readable(Split(domain, '.'))
    ensures ReadName(Name(domain) + tail) == Some(Split(domain, '.'))
  {
    EncodedRoundTrip(Split(domain, '.'), tail);
  }

  /** The header read back as section 4.1.1 of RFC 1035 defines it: the transaction id; the
      flags of a standard query with recursion desired; one question; no answer, authority
      or additional records. */
  lemma HeaderFields(transitionId: int)
    requires 0 <= transitionId < 0x1_0000
    ensures var h := DnsHeader(transitionId);
      && Uint16(h[0..2]) == transitionId
      && QueryFlags(Uint16(h[2..4]))
      && Uint16(h[4..6]) == 1
      && Uint16(h[6..8]) == 0 && Uint16(h[8..10]) == 0 && Uint16(h[10..12]) == 0
  {
    var h := DnsHeader(transitionId);
    assert h[0..2] == Be16(transitionId);
    assert h[2..4] == Be16(OP_CODE);
    assert h[4..6] == Be16(1);
    assert h[6..8] == Be16(0) && h[8..10] == Be16(0) && h[10..12] == Be16(0);
    Be16Exact(transitionId);
    Be16Exact(OP_CODE);
    OpCodeFlags();
  }

  /** The flags of a standard query with recursion desired, as section 4.1.1 of RFC 1035
      lays them out: QR (bit 15) clear, OPCODE (bits 11-14) 0, RD (bit 8) set, AA, TC, RA, Z
      and RCODE clear. */
  predicate QueryFlags(flags: nat)
    requires flags < 0x1_0000
  {
    var w := flags as bv16;
    && w & 0x8000 == 0
    && (w >> 11) & 0xF == 0
    && w & 0x0100 != 0
    && w & 0x06FF == 0
  }

  /** The flags word constructDNSPacketHeader writes is such a query. */
  lemma OpCodeFlags()
    ensures QueryFlags(OP_CODE)
  {
  }

  /** The query's layout: the header, then the name over |domain| + 2 bytes, then QTYPE A
      and QCLASS IN. */
  lemma QueryLayout(transitionId: int, domain: string)
    ensures var q := Query(transitionId, domain);
      var n := |domain| + 2;
      && |q| == HEADER_LENGTH + n + QUESTION_TYPE_LENGTH + QUESTION_CLASS_LENGTH
      && q[..HEADER_LENGTH] == DnsHeader(transitionId)
      && q[HEADER_LENGTH..HEADER_LENGTH + n] == Name(domain)
      && Uint16(q[HEADER_LENGTH + n..HEADER_LENGTH + n + 2]) == QUESTION_TYPE_A
      && Uint16(q[HEADER_LENGTH + n + 2..]) == QUESTION_CLASS
  {
    NameLength(domain);
    var q := Query(transitionId, domain);
    var n := |domain| + 2;
    var hd := DnsHeader(transitionId);
    assert q == hd + Name(domain) + Be16(QUESTION_TYPE_A) + Be16(QUESTION_CLASS);
    assert q[HEADER_LENGTH + n..HEADER_LENGTH + n + 2] == Be16(QUESTION_TYPE_A);
    assert q[HEADER_LENGTH + n + 2..] == Be16(QUESTION_CLASS);
  }

  /** The UDP datagram of a query goes from the application's port to port 53, carries its
      own length, and holds the query unchanged after the 8-byte header. */
  lemma DatagramCarriesQuery(port: int, packet: seq<Byte>)
    requires 0 <= port < 0x1_0000
    ensures UdpLayer.UdpDatagram(UdpInfo(port, packet)).Ok?
    ensures var r := UdpLayer.UdpDatagram(UdpInfo(port, packet)).value;
      && Uint16(r[0..2]) == port && Uint16(r[2..4]) == UDP_DST_PORT
      && Uint16(r[4..6]) == |r| % 0x1_0000
      && r[UdpLayer.DATA_OFFSET..] == packet
  {
    UdpLayer.UdpFields(UdpInfo(port, packet));
  }

  /** Writing w where a sequence already agrees with p up to |p| extends the agreement. */
  lemma SpliceExtends(s: seq<Byte>, p: seq<Byte>, w: seq<Byte>)
    requires |p| + |w| <= |s| && s[..|p|] == p
    ensures Splice(s, |p|, w)[..|p| + |w|] == p + w
  {
  }

  /** One array element written after a prefix extends the prefix. */
  lemma WriteExtends(s: seq<Byte>, t: seq<Byte>, i: nat, p: seq<Byte>, x: Byte)
    requires i < |s| == |t| && s[..i] == p && t[i] == x
    requires forall k :: 0 <= k < i ==> t[k] == s[k]
    ensures t[..i + 1] == p + [x]
  {
  }

  /** The label loop of constructDNSPacketQuestion: every label's length and character
      codes, in order, into an Int8Array of |domain| + 2 elements, then the 0 byte at the
      index reached. */
  method EncodeName(domain: string) returns (domainBuffer: array<Byte>)
    ensures fresh(domainBuffer)
    ensures domainBuffer.Length == |domain| + 2 && domainBuffer[..] == Name(domain)
  {
    var parts := Split(domain, '.');
    var n := |domain| + 2;
    domainBuffer := new Byte[n](_ => 0);
    SplitEncodedLength(domain);
    var i := 0;
    var k := 0;
    while k < |parts|
      invariant 0 <= k <= |parts|
      invariant i == |Encoded(parts[..k])| && i <= n - 1
      invariant domainBuffer.Length == n
      invariant domainBuffer[..i] == Encoded(parts[..k])
    {
      EncodedNext(parts, k);
      EncodedPrefixShorter(parts, k + 1);
      i := WriteLabel(domainBuffer, i, parts[k], Encoded(parts[..k]));
      k := k + 1;
    }
    assert parts[..k] == parts;
    ghost var before := domainBuffer[..];
    domainBuffer[i] := 0;
    WriteExtends(before, domainBuffer[..], i, Encoded(parts), 0);
    assert domainBuffer[..] == domainBuffer[..i + 1];
  }

  /** One step of the label loop: the label's length at i, then its character codes. */
  method WriteLabel(domainBuffer: array<Byte>, i: nat, part: string, ghost base: seq<Byte>)
    returns (next: nat)
    requires i == |base| && i + |part| + 1 <= domainBuffer.Length && domainBuffer[..i] == base
    modifies domainBuffer
    ensures next == i + |part| + 1 && domainBuffer[..next] == base + Label(part)
    ensures domainBuffer[next..] == old(domainBuffer[next..])
  {
    ghost var before := domainBuffer[..];
    domainBuffer[i] := Int8(|part|);
    WriteExtends(before, domainBuffer[..], i, base, Int8(|part|));
    next := i + 1;
    var j := 0;
    while j < |part|
      invariant 0 <= j <= |part| && next == i + 1 + j
      invariant domainBuffer[..next] == base + [Int8(|part|)] + Codes(part[..j])
      invariant domainBuffer[next..] == old(domainBuffer[next..])
    {
      before := domainBuffer[..];
      domainBuffer[next] := Int8(part[j] as int);
      WriteExtends(before, domainBuffer[..], next, base + [Int8(|part|)] + Codes(part[..j]),
                   Int8(part[j] as int));
      assert Codes(part[..j + 1]) == Codes(part[..j]) + [Int8(part[j] as int)];
      next := next + 1;
      j := j + 1;
    }
    assert part[..j] == part;
  }

  class DnsApplication {
    /** The source port: ceil(random * 3000 + 2500). */
    const port: int
    const domainName: string
    const destIp: Option<string>
    /** The transaction id: (random * 65535) | 0. */
    const transitionId: int
    const headerBuffer: array<Byte>
    const queryBuffer: array<Byte>

    /** The two buffers are distinct and sized as the constructor allocates them. */
    predicate Valid() {
      && headerBuffer.Length == HEADER_LENGTH
      && queryBuffer.Length == |domainName| + 2 + QUESTION_TYPE_LENGTH + QUESTION_TYPE_LENGTH
      && headerBuffer != queryBuffer
    }

    /** `new DNSApplication(destIp, domainName)` with the two random draws given: allocates
        the buffers and builds the header and the question into them. */
    constructor(destIp: Option<string>, domainName: Option<string>, portDraw: int,
                idDraw: int)
      requires 2500 <= portDraw <= 5500 && 0 <= idDraw < 0xFFFF
      ensures this.port == portDraw && this.transitionId == idDraw && this.destIp == destIp
      ensures this.domainName == domainName.GetOr(DEFAULT_DOMAIN_NAME)
      ensures Valid() && fresh(headerBuffer) && fresh(queryBuffer)
      ensures headerBuffer[..] == DnsHeader(transitionId)
      ensures queryBuffer[..] == Question(this.domainName)
    {
      var name := domainName.GetOr(DEFAULT_DOMAIN_NAME);
      this.port := portDraw;
      this.domainName := name;
      this.destIp := destIp;
      this.transitionId := idDraw;
      this.headerBuffer := new Byte[HEADER_LENGTH](_ => 0);
      this.queryBuffer :=
        new Byte[|name| + 2 + QUESTION_TYPE_LENGTH + QUESTION_TYPE_LENGTH](_ => 0);
      new;
      ConstructDnsPacketHeader();
      ConstructDnsPacketQuestion();
    }

    /** `constructDNSPacketHeader()`: the six setInt16 writes, which cover the whole
        header buffer. */
    method ConstructDnsPacketHeader()
      requires Valid()
      modifies headerBuffer
      ensures headerBuffer[..] == DnsHeader(transitionId)
    {
      var a := headerBuffer;
      SetInt16(a, TRANSITION_ID_OFFSET, transitionId);
      SpliceExtends(old(a[..]), [], Be16(transitionId));
      ghost var p := Be16(transitionId);
      ghost var s := a[..];
      SetInt16(a, FLAGS_OFFSET, OP_CODE);
      SpliceExtends(s, p, Be16(OP_CODE));
      p, s := p + Be16(OP_CODE), a[..];
      SetInt16(a, QUESTION_COUNT_OFFSET, 1);
      SpliceExtends(s, p, Be16(1));
      p, s := p + Be16(1), a[..];
      SetInt16(a, ANSWER_RRS_OFFSET, 0);
      SpliceExtends(s, p, Be16(0));
      p, s := p + Be16(0), a[..];
      SetInt16(a, AUTHORITY_RRS_OFFSET, 0);
      SpliceExtends(s, p, Be16(0));
      p, s := p + Be16(0), a[..];
      SetInt16(a, ADDITION_RRS_OFFSET, 0);
      SpliceExtends(s, p, Be16(0));
      assert a[..] == a[..][..HEADER_LENGTH];
    }

    /** `constructDNSPacketQuestion()`: the encoded name copied byte by byte with setInt8,
        then QTYPE and QCLASS with setInt16; together they cover the question buffer. */
    method ConstructDnsPacketQuestion()
      requires Valid()
      modifies queryBuffer
      ensures queryBuffer[..] == Question(domainName)
    {
      var n := |domainName| + 2;
      var domainBuffer := EncodeName(domainName);
      var offset := 0;
      while offset < n
        invariant 0 <= offset <= n
        invariant queryBuffer[..offset] == domainBuffer[..offset]
        invariant domainBuffer[..] == Name(domainName)
      {
        ghost var before := queryBuffer[..];
        SetInt8(queryBuffer, offset, domainBuffer[offset]);
        Int8Exact(domainBuffer[offset]);
        WriteExtends(before, queryBuffer[..], offset, domainBuffer[..offset],
                     domainBuffer[offset]);
        TakeNext(domainBuffer[..], offset);
        offset := offset + 1;
      }
      assert domainBuffer[..offset] == domainBuffer[..];
      ghost var s := queryBuffer[..];
      SetInt16(queryBuffer, n, QUESTION_TYPE_A);
      SpliceExtends(s, Name(domainName), Be16(QUESTION_TYPE_A));
      s := queryBuffer[..];
      SetInt16(queryBuffer, n + QUESTION_TYPE_LENGTH, QUESTION_CLASS);
      SpliceExtends(s, Name(domainName) + Be16(QUESTION_TYPE_A), Be16(QUESTION_CLASS));
      assert queryBuffer[..] == queryBuffer[..][..n + 4];
    }

    /** The two copy loops of queryDomain: the header bytes, then the question bytes, into
        a fresh buffer of their combined length (getInt8 then setInt8 copies a byte as it
        is). */
    method AssemblePacket() returns (packet: seq<Byte>)
      requires Valid()
      ensures packet == headerBuffer[..] + queryBuffer[..]
    {
      var total := headerBuffer.Length + queryBuffer.Length;
      var dnsPacket := new Byte[total](_ => 0);
      var offset := 0;
      var i := 0;
      while i < headerBuffer.Length
        invariant 0 <= i <= headerBuffer.Length && offset == i
        invariant dnsPacket[..offset] == headerBuffer[..i]
      {
        ghost var before := dnsPacket[..];
        SetInt8(dnsPacket, offset, headerBuffer[i]);
        Int8Exact(headerBuffer[i]);
        WriteExtends(before, dnsPacket[..], offset, headerBuffer[..i], headerBuffer[i]);
        TakeNext(headerBuffer[..], i);
        offset := offset + 1;
        i := i + 1;
      }
      assert headerBuffer[..i] == headerBuffer[..];
      i := 0;
      while i < queryBuffer.Length
        invariant 0 <= i <= queryBuffer.Length && offset == headerBuffer.Length + i
        invariant dnsPacket[..offset] == headerBuffer[..] + queryBuffer[..i]
      {
        ghost var before := dnsPacket[..];
        SetInt8(dnsPacket, offset, queryBuffer[i]);
        Int8Exact(queryBuffer[i]);
        WriteExtends(before, dnsPacket[..], offset, headerBuffer[..] + queryBuffer[..i],
                     queryBuffer[i]);
        TakeNext(queryBuffer[..], i);
        offset := offset + 1;
        i := i + 1;
      }
      assert queryBuffer[..i] == queryBuffer[..];
      assert dnsPacket[..] == dnsPacket[..offset];
      packet := dnsPacket[..];
    }

    /** `queryDomain()`: assembles the packet and wraps it in UDP from the application's
        port to port 53. The IPv4 layer has no createHeader, so the next call throws
        TypeError and nothing is sent; the datagram built is returned with that error. */
    method QueryDomain() returns (datagram: seq<Byte>, thrown: JsError)
      requires Valid()
      ensures UdpLayer.UdpDatagram(UdpInfo(port, headerBuffer[..] + queryBuffer[..]))
              == Ok(datagram)
      ensures thrown == TypeError
    {
      var dnsPacket := AssemblePacket();
      var udp := UdpLayer.CreateHeader(UdpInfo(port, dnsPacket));
      datagram := udp.value;
      thrown := TypeError;
    }
  }
}
