/** Bytes and the DataView setters the encoders write with. A DataView setter converts any
    number to a fixed-width integer by wrapping it modulo 2^8, 2^16 or 2^32 and stores it
    big-endian; `Int8`, `Be16` and `Be32` give those bytes. */
module Bytes {

  type Byte = x: int | 0 <= x < 256

  /** The byte `setInt8(_, v)` stores: v modulo 2^8. */
  function Int8(v: int): (b: Byte)
    ensures (b - v) % 256 == 0
  {
    v % 256
  }

  /** A byte is stored as it is. */
  lemma Int8Exact(v: int)
    requires 0 <= v < 256
    ensures Int8(v) == v
  {
  }

  /** Big-endian 16-bit unsigned value of two bytes. */
  function Uint16(s: seq<Byte>): (v: nat)
    requires |s| == 2
    ensures v < 0x1_0000
  {
    s[0] as int * 256 + s[1]
  }

  /** Big-endian 32-bit unsigned value of four bytes. */
  function Uint32(s: seq<Byte>): (v: nat)
    requires |s| == 4
    ensures v < 0x1_0000_0000
  {
    Uint16(s[..2]) * 0x1_0000 + Uint16(s[2..])
  }

  /** The two bytes `setInt16(_, v)` stores. */
  function Be16(v: int): (r: seq<Byte>)
    ensures |r| == 2 && Uint16(r) == v % 0x1_0000
  {
    [(v % 0x1_0000) / 256, v % 256]
  }

  /** A 16-bit value is stored without wrapping. */
  lemma Be16Exact(v: int)
    requires 0 <= v < 0x1_0000
    ensures Uint16(Be16(v)) == v
  {
  }

  /** The four bytes `setInt32(_, v)` stores. */
  function Be32(v: int): (r: seq<Byte>)
    ensures |r| == 4 && Uint32(r) == v % 0x1_0000_0000
  {
    var w := v % 0x1_0000_0000;
    Be32Halves(w);
    Be16(w / 0x1_0000) + Be16(w % 0x1_0000)
  }

  /** A 32-bit value is its high half and its low half, each stored exactly. */
  lemma Be32Halves(w: int)
    requires 0 <= w < 0x1_0000_0000
    ensures Uint32(Be16(w / 0x1_0000) + Be16(w % 0x1_0000)) == w
  {
    var hi, lo := w / 0x1_0000, w % 0x1_0000;
    var r := Be16(hi) + Be16(lo);
    assert r[..2] == Be16(hi) && r[2..] == Be16(lo);
    Be16Exact(hi);
    Be16Exact(lo);
  }

  /** A freshly allocated ArrayBuffer of n bytes holds zeros. */
  function Zeros(n: nat): (r: seq<Byte>)
    ensures |r| == n && forall k :: 0 <= k < n ==> r[k] == 0
  {
    seq(n, _ => 0)
  }

  /** s with the bytes at at..at+|w| replaced by w. */
  function Splice(s: seq<Byte>, at: nat, w: seq<Byte>): (r: seq<Byte>)
    requires at + |w| <= |s|
    ensures |r| == |s| && r[at..at + |w|] == w
  {
    s[..at] + w + s[at + |w|..]
  }

  /** Writing w just after a filled prefix p of a zeroed tail extends the prefix. */
  lemma SpliceAfterPrefix(p: seq<Byte>, w: seq<Byte>, n: nat)
    requires |w| <= n
    ensures Splice(p + Zeros(n), |p|, w) == p + w + Zeros(n - |w|)
  {
    var s := p + Zeros(n);
    assert s[..|p|] == p;
    assert s[|p| + |w|..] == Zeros(n - |w|);
  }

  /** The same as SpliceAfterPrefix, for a sequence already known to be p + Zeros(n). */
  lemma FillNext(s: seq<Byte>, p: seq<Byte>, w: seq<Byte>, n: nat)
    requires s == p + Zeros(n) && |w| <= n
    ensures Splice(s, |p|, w) == (p + w) + Zeros(n - |w|)
  {
    SpliceAfterPrefix(p, w, n);
  }

  /** Writing one more byte right after a spliced run extends the run. */
  lemma SpliceGrow(s: seq<Byte>, at: nat, w: seq<Byte>, x: Byte)
    requires at + |w| + 1 <= |s|
    ensures Splice(Splice(s, at, w), at + |w|, [x]) == Splice(s, at, w + [x])
  {
    var l := Splice(Splice(s, at, w), at + |w|, [x]);
    var r := Splice(s, at, w + [x]);
    forall k | 0 <= k < |s| ensures l[k] == r[k] {
      if at <= k < at + |w| {
        assert l[k] == Splice(s, at, w)[k] == Splice(s, at, w)[at..at + |w|][k - at];
        assert r[k] == r[at..at + |w| + 1][k - at];
      } else if k == at + |w| {
        assert l[k] == l[at + |w|..at + |w| + 1][0];
        assert r[k] == r[at..at + |w| + 1][k - at];
      }
    }
  }

  /** A sequence that agrees with w on at..at+|w| and with s elsewhere is Splice(s, at, w). */
  lemma SplicePointwise(s: seq<Byte>, t: seq<Byte>, at: nat, w: seq<Byte>)
    requires at + |w| <= |s| == |t|
    requires forall k :: 0 <= k < |s| ==> t[k] == if at <= k < at + |w| then w[k - at] else s[k]
    ensures t == Splice(s, at, w)
  {
  }

  /** A sequence is its part before at, the k elements from at, and the rest. */
  lemma Decompose(s: seq<Byte>, at: nat, k: nat)
    requires at + k <= |s|
    ensures s == s[..at] + s[at..at + k] + s[at + k..]
  {
  }

  /** A slice of a slice is a slice of the whole. */
  lemma SliceOfSlice<T>(s: seq<T>, i: nat, j: nat, a: nat, b: nat)
    requires i <= j <= |s| && a <= b <= j - i
    ensures s[i..j][a..b] == s[i + a..i + b]
  {
    assert |s[i..j][a..b]| == |s[i + a..i + b]|;
    forall k | 0 <= k < b - a ensures s[i..j][a..b][k] == s[i + a..i + b][k] {
      assert s[i..j][a..b][k] == s[i..j][a + k];
    }
  }

  /** A prefix grows by the next element. */
  lemma TakeNext<T>(s: seq<T>, i: nat)
    requires i < |s|
    ensures s[..i] + [s[i]] == s[..i + 1]
  {
  }

  /** `buf.slice(start, end)` with non-negative indices: the end is clamped to the length,
      and a start at or past the end gives an empty buffer. */
  function Slice(s: seq<Byte>, start: nat, end: nat): (r: seq<Byte>)
    ensures |r| == if start < end && start < |s| then (if end < |s| then end else |s|) - start
                   else 0
    ensures forall k :: 0 <= k < |r| ==> r[k] == s[start + k]
  {
    var e := if end < |s| then end else |s|;
    if start < e then s[start..e] else []
  }

  /** `buf.slice(start)`: everything from start on, empty when start is past the end. */
  function SliceFrom(s: seq<Byte>, start: nat): (r: seq<Byte>)
    ensures |r| == if start < |s| then |s| - start else 0
    ensures forall k :: 0 <= k < |r| ==> r[k] == s[start + k]
  {
    Slice(s, start, |s|)
  }

  /** Within bounds a slice is the subsequence start..end. */
  lemma SliceWithin(s: seq<Byte>, start: nat, end: nat)
    requires start <= end <= |s|
    ensures Slice(s, start, end) == s[start..end]
  {
  }

  /** Concatenated runs of zeros are one run. */
  lemma ZerosAppend(m: nat, n: nat)
    ensures Zeros(m) + Zeros(n) == Zeros(m + n)
  {
  }

  /** `setInt8(i, v)` on a DataView over a. */
  method SetInt8(a: array<Byte>, i: nat, v: int)
    requires i < a.Length
    modifies a
    ensures a[..] == Splice(old(a[..]), i, [Int8(v)])
  {
    a[i] := Int8(v);
    assert a[..] == old(a[..])[..i] + [Int8(v)] + old(a[..])[i + 1..];
  }

  /** `setInt16(i, v)` on a DataView over a (big-endian). */
  method SetInt16(a: array<Byte>, i: nat, v: int)
    requires i + 2 <= a.Length
    modifies a
    ensures a[..] == Splice(old(a[..]), i, Be16(v))
  {
    var w := Be16(v);
    a[i] := w[0];
    a[i + 1] := w[1];
    assert a[..] == old(a[..])[..i] + w + old(a[..])[i + 2..];
  }

  /** `setInt32(i, v)` on a DataView over a (big-endian). */
  method SetInt32(a: array<Byte>, i: nat, v: int)
    requires i + 4 <= a.Length
    modifies a
    ensures a[..] == Splice(old(a[..]), i, Be32(v))
  {
    var w := Be32(v);
    a[i] := w[0];
    a[i + 1] := w[1];
    a[i + 2] := w[2];
    a[i + 3] := w[3];
    assert a[..] == old(a[..])[..i] + w + old(a[..])[i + 4..];
  }
  /** Writing into a prefix leaves what follows it alone. */
  lemma SpliceInPrefix(p: seq<Byte>, z: seq<Byte>, at: nat, w: seq<Byte>)
    requires at + |w| <= |p|
    ensures Splice(p + z, at, w) == Splice(p, at, w) + z
  {
    assert (p + z)[..at] == p[..at];
    assert (p + z)[at + |w|..] == p[at + |w|..] + z;
  }

  /** Writing into the part after a prefix keeps the prefix. */
  lemma SpliceAfter(p: seq<Byte>, s: seq<Byte>, at: nat, w: seq<Byte>)
    requires at + |w| <= |s|
    ensures Splice(p + s, |p| + at, w) == p + Splice(s, at, w)
  {
    assert (p + s)[..|p| + at] == p + s[..at];
    assert (p + s)[|p| + at + |w|..] == s[at + |w|..];
  }

  /** Writing a byte a sequence already holds changes nothing. */
  lemma SpliceSame(s: seq<Byte>, at: nat)
    requires at < |s|
    ensures Splice(s, at, [s[at]]) == s
  {
    assert s == s[..at] + [s[at]] + s[at + 1..];
  }

  /** `setInt8` into the first byte of the zeroed tail after a filled prefix p. */
  method PutInt8(a: array<Byte>, ghost p: seq<Byte>, at: nat, v: int, ghost n: nat)
    requires at == |p| && 1 <= n && a[..] == p + Zeros(n)
    modifies a
    ensures a[..] == p + [Int8(v)] + Zeros(n - 1)
  {
    SetInt8(a, at, v);
    FillNext(old(a[..]), p, [Int8(v)], n);
  }

  /** `setInt16` into the first two bytes of the zeroed tail after a filled prefix p. */
  method PutInt16(a: array<Byte>, ghost p: seq<Byte>, at: nat, v: int, ghost n: nat)
    requires at == |p| && 2 <= n && a[..] == p + Zeros(n)
    modifies a
    ensures a[..] == p + Be16(v) + Zeros(n - 2)
  {
    SetInt16(a, at, v);
    FillNext(old(a[..]), p, Be16(v), n);
  }

  /** `setInt32` into the first four bytes of the zeroed tail after a filled prefix p. */
  method PutInt32(a: array<Byte>, ghost p: seq<Byte>, at: nat, v: int, ghost n: nat)
    requires at == |p| && 4 <= n && a[..] == p + Zeros(n)
    modifies a
    ensures a[..] == p + Be32(v) + Zeros(n - 4)
  {
    SetInt32(a, at, v);
    FillNext(old(a[..]), p, Be32(v), n);
  }
}
