/** util/buffer.js, mergeArrayBuffer: one new ArrayBuffer holding the bytes of every argument
    that is an ArrayBuffer, in argument order. An argument that is not an ArrayBuffer is
    `None`. (addrToArrayBuffer and dataToArrayBuffer, the first 25 lines of the same file, are
    modelled in module Utils.) */
module Buffer {
  import opened Wrappers
  import opened Bytes

  /** `bufs.filter(buf => buf instanceof ArrayBuffer)`. */
  function ValidBuffers(bufs: seq<Option<seq<Byte>>>): (r: seq<seq<Byte>>)
    ensures |r| <= |bufs|
  {
    if |bufs| == 0 then []
    else
      var last := bufs[|bufs| - 1];
      ValidBuffers(bufs[..|bufs| - 1]) + (if last.Some? then [last.value] else [])
  }

  /** The bytes of the buffers one after the other. */
  function Concat(bufs: seq<seq<Byte>>): seq<Byte> {
    if |bufs| == 0 then [] else Concat(bufs[..|bufs| - 1]) + bufs[|bufs| - 1]
  }

  /** The sum of the byte lengths of the buffers. */
  function TotalLength(bufs: seq<seq<Byte>>): nat {
    if |bufs| == 0 then 0 else TotalLength(bufs[..|bufs| - 1]) + |bufs[|bufs| - 1]|
  }

  /** The concatenation is as long as the buffers together. */
  lemma {:induction false} ConcatLength(bufs: seq<seq<Byte>>)
    ensures |Concat(bufs)| == TotalLength(bufs)
    decreases |bufs|
  {
    if |bufs| > 0 {
      ConcatLength(bufs[..|bufs| - 1]);
    }
  }

  /** The concatenation of a prefix of the buffers is no longer than that of all of them. */
  lemma {:induction false} ConcatPrefixLength(bufs: seq<seq<Byte>>, n: nat)
    requires n <= |bufs|
    ensures |Concat(bufs[..n])| <= |Concat(bufs)|
    decreases |bufs|
  {
    if n < |bufs| {
      var init := bufs[..|bufs| - 1];
      assert init[..n] == bufs[..n];
      ConcatPrefixLength(init, n);
    } else {
      assert bufs[..n] == bufs;
    }
  }

  /** Filtering distributes over the argument list. */
  lemma {:induction false} ValidBuffersAppend(a: seq<Option<seq<Byte>>>, b: seq<Option<seq<Byte>>>)
    ensures ValidBuffers(a + b) == ValidBuffers(a) + ValidBuffers(b)
    decreases |b|
  {
    if |b| == 0 {
      assert a + b == a;
    } else {
      var init := b[..|b| - 1];
      assert (a + b)[..|a + b| - 1] == a + init;
      ValidBuffersAppend(a, init);
    }
  }

  /** An argument that is not an ArrayBuffer contributes nothing. */
  lemma IgnoresNonBuffers(a: seq<Option<seq<Byte>>>, b: seq<Option<seq<Byte>>>)
    ensures ValidBuffers(a + [None] + b) == ValidBuffers(a + b)
  {
    ValidBuffersAppend(a + [None], b);
    ValidBuffersAppend(a, [None]);
    ValidBuffersAppend(a, b);
  }

  /** Merging two ArrayBuffers puts the second right after the first. */
  lemma MergeTwo(x: seq<Byte>, y: seq<Byte>)
    ensures Concat(ValidBuffers([Some(x), Some(y)])) == x + y
  {
    assert [Some(x), Some(y)][..1] == [Some(x)];
    assert [Some(x)][..0] == [];
    assert ValidBuffers([Some(x), Some(y)]) == [x, y];
    assert [x, y][..1] == [x];
    assert [x][..0] == [];
    assert Concat([x]) == x;
    assert Concat([x, y]) == Concat([x]) + y;
  }

  /** `mergeArrayBuffer(...bufs)`: sums the lengths of the valid buffers, allocates the result
      and copies every byte of every valid buffer at a running index. */
  method MergeArrayBuffer(bufs: seq<Option<seq<Byte>>>) returns (r: seq<Byte>)
    ensures r == Concat(ValidBuffers(bufs))
    ensures |r| == TotalLength(ValidBuffers(bufs))
  {
    var valid := ValidBuffers(bufs);
    var resLen := SumLengths(valid);
    ConcatLength(valid);
    var res := new Byte[resLen](_ => 0);
    var i := 0;
    var b := 0;
    while b < |valid|
      invariant 0 <= b <= |valid|
      invariant i == |Concat(valid[..b])| <= res.Length
      invariant res[..i] == Concat(valid[..b])
    {
      assert valid[..b + 1][..b] == valid[..b];
      ConcatPrefixLength(valid, b + 1);
      CopyAt(res, i, valid[b]);
      i := i + |valid[b]|;
      b := b + 1;
    }
    assert valid[..b] == valid;
    r := res[..];
  }

  /** The first loop of mergeArrayBuffer: the total byte length. */
  method SumLengths(valid: seq<seq<Byte>>) returns (resLen: nat)
    ensures resLen == TotalLength(valid)
  {
    resLen := 0;
    var b := 0;
    while b < |valid|
      invariant 0 <= b <= |valid|
      invariant resLen == TotalLength(valid[..b])
    {
      assert valid[..b + 1][..b] == valid[..b];
      resLen := resLen + |valid[b]|;
      b := b + 1;
    }
    assert valid[..b] == valid;
  }

  /** The inner loop of mergeArrayBuffer: one buffer copied byte by byte from index i. */
  method CopyAt(res: array<Byte>, i: nat, buf: seq<Byte>)
    requires i + |buf| <= res.Length
    modifies res
    ensures res[..i + |buf|] == old(res[..i]) + buf
    ensures res[i + |buf|..] == old(res[i + |buf|..])
  {
    var j := 0;
    while j < |buf|
      invariant 0 <= j <= |buf|
      invariant res[..i + j] == old(res[..i]) + buf[..j]
      invariant res[i + j..] == old(res[i + j..])
    {
      res[i + j] := buf[j];
      assert buf[..j + 1] == buf[..j] + [buf[j]];
      j := j + 1;
    }
    assert buf[..j] == buf;
  }
}
