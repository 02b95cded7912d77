/** utils.js: writing an address or a buffer into a DataView window. The first 25 lines of
    util/buffer.js are the same two functions, word for word, so they are modelled once here.
    A DataView window is an array `view` with an `offset` and a `length`: writing at window
    index i writes view[offset + i], and an index at or past `length` throws RangeError. */
module Utils {
  import opened Wrappers
  import opened Bytes
  import opened JsText

  /** The components addrToArrayBuffer writes, one per byte: the pieces between '.' when the
      text contains a '.' (IPv4), otherwise the pieces between ':' each prefixed with "0x" so
      that parseInt reads them as hexadecimal (MAC). */
  function AddrParts(addr: string): seq<string> {
    if '.' in addr then Split(addr, '.')
    else
      var pieces := Split(addr, ':');
      seq(|pieces|, k requires 0 <= k < |pieces| => "0x" + pieces[k])
  }

  /** The bytes addrToArrayBuffer writes: component k parsed, NaN taken as 0, wrapped mod 2^8. */
  function AddrBytes(addr: string): seq<Byte> {
    PartBytes(AddrParts(addr))
  }

  /** Each component parsed by parseInt, NaN taken as 0, wrapped mod 2^8 by setInt8. */
  function PartBytes(parts: seq<string>): (r: seq<Byte>)
    ensures |r| == |parts|
  {
    seq(|parts|, k requires 0 <= k < |parts| => Int8(ParseInt(parts[k]).GetOr(0)))
  }

  /** Whether the address fits a field of the given width without a RangeError. */
  predicate Fits(addr: string, width: nat) {
    |AddrParts(addr)| <= width
  }

  /** A zeroed address field of the given width after addrToArrayBuffer wrote into it. */
  function Field(addr: string, width: nat): (r: seq<Byte>)
    requires Fits(addr, width)
    ensures |r| == width
    ensures r[..|AddrBytes(addr)|] == AddrBytes(addr)
    ensures forall k :: |AddrBytes(addr)| <= k < width ==> r[k] == 0
  {
    AddrBytes(addr) + Zeros(width - |AddrBytes(addr)|)
  }

  /** The first half of addrToArrayBuffer: split the text and, for a MAC address, prefix
      every piece with "0x" in place. */
  method SplitAddr(addr: string) returns (parts: seq<string>)
    ensures parts == AddrParts(addr)
  {
    if '.' in addr {
      parts := Split(addr, '.');
    } else {
      parts := Split(addr, ':');
      ghost var pieces := parts;
      var i := 0;
      while i < |parts|
        invariant 0 <= i <= |parts| == |pieces|
        invariant forall k :: 0 <= k < i ==> parts[k] == "0x" + pieces[k]
        invariant forall k :: i <= k < |parts| ==> parts[k] == pieces[k]
      {
        parts := parts[i := "0x" + parts[i]];
        i := i + 1;
      }
    }
  }

  /** addrToArrayBuffer(addr, view): writes byte k of the address at window index k, in
      order; with more components than the window holds, the components that fit are
      written and it throws RangeError (ok is false). Nothing outside the window changes. */
  method AddrToArrayBuffer(addr: string, view: array<Byte>, offset: nat, length: nat)
    returns (ok: bool)
    requires offset + length <= view.Length
    modifies view
    ensures ok == Fits(addr, length)
    ensures ok ==> view[..] == Splice(old(view[..]), offset, AddrBytes(addr))
    ensures !ok ==> view[..] == Splice(old(view[..]), offset, AddrBytes(addr)[..length])
  {
    var parts := SplitAddr(addr);
    ok := WriteParts(parts, view, offset, length);
  }

  /** The loop of addrToArrayBuffer: component `index` parsed and stored at window index
      `index`, until the components run out or the window does. */
  method WriteParts(parts: seq<string>, view: array<Byte>, offset: nat, length: nat)
    returns (ok: bool)
    requires offset + length <= view.Length
    modifies view
    ensures ok == (|parts| <= length)
    ensures ok ==> view[..] == Splice(old(view[..]), offset, PartBytes(parts))
    ensures !ok ==> view[..] == Splice(old(view[..]), offset, PartBytes(parts)[..length])
  {
    ghost var bytes := PartBytes(parts);
    var index := 0;
    while index < |parts|
      invariant 0 <= index <= |parts| == |bytes| && index <= length
      invariant view[..] == Splice(old(view[..]), offset, bytes[..index])
    {
      if index >= length {
        return false;
      }
      ghost var done := bytes[..index];
      SetInt8(view, offset + index, ParseInt(parts[index]).GetOr(0));
      SpliceGrow(old(view[..]), offset, done, bytes[index]);
      TakeNext(bytes, index);
      index := index + 1;
    }
    assert bytes[..index] == bytes;
    return true;
  }

  /** Writing an address that fits into a zeroed region just after a filled prefix. */
  lemma AddrAfterPrefix(p: seq<Byte>, addr: string, width: nat, n: nat)
    requires Fits(addr, width) && width <= n
    ensures Splice(p + Zeros(n), |p|, AddrBytes(addr)) == p + Field(addr, width) + Zeros(n - width)
  {
    var a := AddrBytes(addr);
    SpliceAfterPrefix(p, a, n);
    ZerosAppend(width - |a|, n - width);
    assert p + a + Zeros(n - |a|) == p + (a + Zeros(width - |a|)) + Zeros(n - width);
  }

  /** addrToArrayBuffer into the `width`-byte field that follows the filled prefix p. */
  method WriteAddress(packet: array<Byte>, ghost p: seq<Byte>, offset: nat, addr: string,
                      width: nat, n: nat) returns (ok: bool)
    requires offset == |p| && width <= n && packet[..] == p + Zeros(n)
    modifies packet
    ensures ok == Fits(addr, width)
    ensures ok ==> packet[..] == p + Field(addr, width) + Zeros(n - width)
  {
    ok := AddrToArrayBuffer(addr, packet, offset, width);
    if ok {
      AddrAfterPrefix(p, addr, width, n);
    }
  }

  /** dataToArrayBuffer(src, view): copies src[i] to window index i for every i below the
      length of src; a source that is not an ArrayBuffer (None) changes nothing; a source
      longer than the window copies what fits and throws RangeError (ok is false). */
  method DataToArrayBuffer(src: Option<seq<Byte>>, view: array<Byte>, offset: nat, length: nat)
    returns (ok: bool)
    requires offset + length <= view.Length
    modifies view
    ensures ok == (src.None? || |src.value| <= length)
    ensures src.None? ==> view[..] == old(view[..])
    ensures src.Some? && ok ==> view[..] == Splice(old(view[..]), offset, src.value)
    ensures src.Some? && !ok ==> view[..] == Splice(old(view[..]), offset, src.value[..length])
  {
    if src.None? {
      return true;
    }
    var data := src.value;
    var i := 0;
    while i < |data|
      invariant 0 <= i <= |data| && i <= length
      invariant forall k :: 0 <= k < view.Length ==>
        view[k] == if offset <= k < offset + i then data[k - offset] else old(view[k])
    {
      if i >= length {
        SplicePointwise(old(view[..]), view[..], offset, data[..length]);
        return false;
      }
      view[offset + i] := data[i];
      i := i + 1;
    }
    SplicePointwise(old(view[..]), view[..], offset, data);
    return true;
  }

  /** Copying a buffer that fits into a zeroed region just after a filled prefix. */
  lemma DataAfterPrefix(p: seq<Byte>, data: seq<Byte>, n: nat)
    requires |data| <= n
    ensures Splice(p + Zeros(n), |p|, data) == p + data + Zeros(n - |data|)
  {
    SpliceAfterPrefix(p, data, n);
  }

  /** The dotted-decimal text of an IPv4 address. */
  function FormatIpv4(b: seq<Byte>): (r: string)
    requires |b| == 4
    ensures |r| > 0
  {
    Join(seq(4, k requires 0 <= k < 4 => Dec(b[k])), '.')
  }

  /** The colon-separated lower-case hex text of a MAC address. */
  function FormatMac(b: seq<Byte>): (r: string)
    requires |b| == 6
    ensures |r| > 0
  {
    Join(seq(6, k requires 0 <= k < 6 => Hex2(b[k])), ':')
  }

  /** A character that no part holds and that is not the separator is not in the join. */
  lemma {:induction false} NotInJoin(parts: seq<string>, sep: char, c: char)
    requires |parts| >= 1 && c != sep
    requires forall k :: 0 <= k < |parts| ==> c !in parts[k]
    ensures c !in Join(parts, sep)
    decreases |parts|
  {
    if |parts| > 1 {
      NotInJoin(parts[1..], sep, c);
    }
  }

  /** Dotted-decimal text of four bytes is written back as exactly those four bytes. */
  lemma Ipv4TextRoundTrip(b: seq<Byte>)
    requires |b| == 4
    ensures AddrBytes(FormatIpv4(b)) == b
  {
    var parts := seq(4, k requires 0 <= k < 4 => Dec(b[k]));
    var text := FormatIpv4(b);
    forall k | 0 <= k < 4 ensures '.' !in parts[k] {
      assert !IsDigit('.', 10);
    }
    SplitJoin(parts, '.');
    assert '.' in text by {
      assert text == parts[0] + ['.'] + Join(parts[1..], '.');
      assert text[|parts[0]|] == '.';
    }
    Ipv4PartsRead(b, text, parts);
  }

  /** A text with a '.' that splits into the decimal texts of four bytes reads back as them. */
  lemma Ipv4PartsRead(b: seq<Byte>, text: string, parts: seq<string>)
    requires |b| == 4 && parts == seq(4, k requires 0 <= k < 4 => Dec(b[k]))
    requires '.' in text && Split(text, '.') == parts
    ensures AddrBytes(text) == b
  {
    var ap := AddrParts(text);
    assert |ap| == 4;
    forall k | 0 <= k < 4 ensures Int8(ParseInt(ap[k]).GetOr(0)) == b[k] {
      DecPieceRead(ap[k], b[k]);
    }
  }

  lemma DecPieceRead(piece: string, x: Byte)
    requires piece == Dec(x)
    ensures Int8(ParseInt(piece).GetOr(0)) == x
  {
    ParseDec(x);
    Int8Exact(x);
  }

  /** The pieces of a MAC text are hex digit pairs: neither ':' nor '.' occurs in them. */
  lemma HexPiecesClean(s: string)
    requires |s| == 2 && IsDigit(s[0], 16) && IsDigit(s[1], 16)
    ensures ':' !in s && '.' !in s
  {
    assert !IsDigit(':', 16) && !IsDigit('.', 16);
  }

  /** Colon-hex text of six bytes is written back as exactly those six bytes. */
  lemma MacTextRoundTrip(b: seq<Byte>)
    requires |b| == 6
    ensures AddrBytes(FormatMac(b)) == b
  {
    var parts := seq(6, k requires 0 <= k < 6 => Hex2(b[k]));
    var text := FormatMac(b);
    forall k | 0 <= k < 6 ensures ':' !in parts[k] && '.' !in parts[k] {
      HexPiecesClean(parts[k]);
    }
    SplitJoin(parts, ':');
    NotInJoin(parts, ':', '.');
    MacPartsRead(b, text, parts);
  }

  /** A MAC text splits on ':' into hex pairs: it reads back as the bytes they denote. */
  lemma MacPartsRead(b: seq<Byte>, text: string, parts: seq<string>)
    requires |b| == 6 && parts == seq(6, k requires 0 <= k < 6 => Hex2(b[k]))
    requires '.' !in text && Split(text, ':') == parts
    ensures AddrBytes(text) == b
  {
    var ap := AddrParts(text);
    assert |ap| == 6;
    forall k | 0 <= k < 6 ensures Int8(ParseInt(ap[k]).GetOr(0)) == b[k] {
      HexPieceRead(ap[k], b[k]);
    }
  }

  lemma HexPieceRead(piece: string, x: Byte)
    requires piece == "0x" + Hex2(x)
    ensures Int8(ParseInt(piece).GetOr(0)) == x
  {
    ParseHex2(x);
    Int8Exact(x);
  }
}
