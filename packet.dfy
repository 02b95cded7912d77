/** util/packet.js, calcChecksum: the Internet checksum of RFC 1071 as the code computes it.
    The buffer is padded with one zero byte when its length is odd, its big-endian 16-bit words
    are summed, the carry above 16 bits is folded in ONCE, and the one's complement of the low
    16 bits is returned. */
module Packet {
  import opened Wrappers
  import opened Bytes
  import Buffer

  /** Sum of the big-endian 16-bit words of a buffer (a last odd byte is not a word). */
  function WordSum(s: seq<Byte>): nat {
    if |s| < 2 then 0 else Uint16(s[..2]) + WordSum(s[2..])
  }

  /** The buffer calcChecksum sums: an odd-length input gets one zero byte appended. */
  function Padded(s: seq<Byte>): (r: seq<Byte>)
    ensures |r| % 2 == 0
    ensures r == s || r == s + [0]
  {
    if |s| % 2 == 0 then s else s + [0]
  }

  /** `(sum & 0xffff) + (sum >> 16)`, kept to 16 bits by the final `& 0xffff`: a carry that
      this single fold produces is dropped. */
  function Fold(sum: nat): nat {
    (sum % 0x1_0000 + sum / 0x1_0000) % 0x1_0000
  }

  /** The value calcChecksum returns: `~x & 0xffff` is 0xFFFF - (x mod 2^16) for x >= 0. */
  function Checksum(s: seq<Byte>): (c: nat)
    ensures c <= 0xFFFF
  {
    0xFFFF - Fold(WordSum(Padded(s)))
  }

  /** The single fold loses nothing when it produces no carry of its own. */
  predicate NoCarry(sum: nat) {
    sum % 0x1_0000 + sum / 0x1_0000 < 0x1_0000
  }

  /** `calcChecksum(packet)`. The JavaScript shift `sum >> 16` works on 32-bit signed integers,
      so the word sum is required to stay below 2^31. */
  method CalcChecksum(packet: seq<Byte>) returns (c: int)
    requires WordSum(Padded(packet)) < 0x8000_0000
    ensures c == Checksum(packet)
    ensures 0 <= c <= 0xFFFF
  {
    var buf := packet;
    if |packet| % 2 != 0 {
      buf := Buffer.MergeArrayBuffer([Some(packet), Some(Zeros(1))]);
      Buffer.MergeTwo(packet, Zeros(1));
      assert Zeros(1) == [0];
    }
    assert buf == Padded(packet);
    var sum := SumWords(buf);
    c := 0xFFFF - (sum % 0x1_0000 + sum / 0x1_0000) % 0x1_0000;
  }

  /** The loop of calcChecksum: the big-endian words of an even-length buffer added up. */
  method SumWords(buf: seq<Byte>) returns (sum: nat)
    requires |buf| % 2 == 0
    ensures sum == WordSum(buf)
  {
    var wordCount := |buf| / 2;
    sum := 0;
    var i := 0;
    while i < wordCount
      invariant 0 <= i <= wordCount
      invariant sum == WordSum(buf[..2 * i])
    {
      WordSumExtend(buf, 2 * i);
      sum := sum + Uint16(buf[2 * i..2 * i + 2]);
      i := i + 1;
    }
    assert buf[..2 * wordCount] == buf;
  }

  /** Word sums add up over a split at an even position. */
  lemma {:induction false} WordSumAppend(a: seq<Byte>, b: seq<Byte>)
    requires |a| % 2 == 0
    ensures WordSum(a + b) == WordSum(a) + WordSum(b)
    decreases |a|
  {
    if |a| == 0 {
      assert a + b == b;
    } else {
      assert (a + b)[..2] == a[..2];
      assert (a + b)[2..] == a[2..] + b;
      WordSumAppend(a[2..], b);
    }
  }

  /** The word sum of a single word is that word. */
  lemma WordSumOfWord(w: seq<Byte>)
    requires |w| == 2
    ensures WordSum(w) == Uint16(w)
  {
    assert w[..2] == w;
  }

  /** Zero bytes add nothing to the word sum. */
  lemma {:induction false} WordSumZeros(n: nat)
    ensures WordSum(Zeros(n)) == 0
  {
    if n >= 2 {
      assert Zeros(n)[2..] == Zeros(n - 2);
      WordSumZeros(n - 2);
    }
  }

  /** Every word is at most 0xFFFF. */
  lemma {:induction false} WordSumBound(s: seq<Byte>)
    ensures WordSum(s) <= |s| / 2 * 0xFFFF
  {
    if |s| >= 2 {
      WordSumBound(s[2..]);
    }
  }

  /** A buffer of at most 2^16 bytes keeps the word sum below 2^31, as calcChecksum needs. */
  lemma ShortBufferSumFits(s: seq<Byte>)
    requires |s| <= 0x1_0000
    ensures WordSum(Padded(s)) < 0x8000_0000
  {
    WordSumBound(Padded(s));
  }

  /** The sum over a prefix grows by the next word. */
  lemma WordSumExtend(s: seq<Byte>, n: nat)
    requires n % 2 == 0 && n + 2 <= |s|
    ensures WordSum(s[..n + 2]) == WordSum(s[..n]) + Uint16(s[n..n + 2])
  {
    var word := s[n..n + 2];
    assert s[..n + 2] == s[..n] + word;
    WordSumAppend(s[..n], word);
    WordSumOfWord(word);
  }

  /** Word sums of a prefix, one word and a tail. */
  lemma WordSumThree(p: seq<Byte>, m: seq<Byte>, q: seq<Byte>)
    requires |p| % 2 == 0 && |m| == 2
    ensures WordSum(p + m + q) == WordSum(p) + Uint16(m) + WordSum(q)
  {
    WordSumAppend(p, m + q);
    assert p + m + q == p + (m + q);
    WordSumAppend(m, q);
    WordSumOfWord(m);
  }

  /** Replacing the word at an even position changes the sum by the difference of the words. */
  lemma WordSumSplice(s: seq<Byte>, at: nat, w: seq<Byte>)
    requires at % 2 == 0 && at + 2 <= |s| && |w| == 2
    ensures WordSum(Splice(s, at, w)) + Uint16(s[at..at + 2]) == WordSum(s) + Uint16(w)
  {
    var p, m, q := s[..at], s[at..at + 2], s[at + 2..];
    Decompose(s, at, 2);
    WordSumThree(p, m, q);
    WordSumThree(p, w, q);
  }

  /** An odd-length buffer checksums like the same buffer with a zero byte appended. */
  lemma OddPadding(s: seq<Byte>)
    requires |s| % 2 == 1
    ensures Checksum(s) == Checksum(s + [0])
  {
  }

  /** An all-zero buffer checksums to 0xFFFF. */
  lemma ChecksumOfZeros(n: nat)
    ensures Checksum(Zeros(n)) == 0xFFFF
  {
    if n % 2 == 0 {
      WordSumZeros(n);
    } else {
      assert Zeros(n) + [0] == Zeros(n + 1);
      WordSumZeros(n + 1);
    }
  }

  /** Zero bytes after an even-length buffer do not change its checksum. */
  lemma ChecksumZeroTail(s: seq<Byte>, n: nat)
    requires |s| % 2 == 0
    ensures Checksum(s + Zeros(n)) == Checksum(s)
    ensures WordSum(Padded(s + Zeros(n))) == WordSum(s)
  {
    WordSumZeroTail(s, n);
    assert Padded(s) == s;
  }

  /** Zero bytes after an even-length buffer do not change its padded word sum. */
  lemma WordSumZeroTail(s: seq<Byte>, n: nat)
    requires |s| % 2 == 0
    ensures WordSum(Padded(s + Zeros(n))) == WordSum(s)
  {
    var z := PaddedZeroTail(s, n);
    WordSumAppend(s, Zeros(z));
    WordSumZeros(z);
  }

  /** Padding an even-length buffer followed by zeros only adds a zero. */
  lemma PaddedZeroTail(s: seq<Byte>, n: nat) returns (z: nat)
    requires |s| % 2 == 0
    ensures Padded(s + Zeros(n)) == s + Zeros(z)
  {
    if n % 2 == 0 {
      z := n;
    } else {
      z := n + 1;
      assert s + Zeros(n) + [0] == s + Zeros(z);
    }
  }

  /** The fold RFC 1071 prescribes: add the carries back until none is left. */
  function EndAroundCarry(sum: nat): (r: nat)
    ensures r < 0x1_0000
    decreases sum
  {
    if sum < 0x1_0000 then sum
    else
      assert sum % 0x1_0000 + sum / 0x1_0000 < sum;
      EndAroundCarry(sum % 0x1_0000 + sum / 0x1_0000)
  }

  /** The checksum with the complete end-around carry of RFC 1071. */
  function RfcChecksum(s: seq<Byte>): (c: nat)
    ensures c <= 0xFFFF
  {
    0xFFFF - EndAroundCarry(WordSum(Padded(s)))
  }

  /** Without a second carry, the single fold is the RFC 1071 checksum. */
  lemma NoCarryMatchesRfc(s: seq<Byte>)
    requires NoCarry(WordSum(Padded(s)))
    ensures Checksum(s) == RfcChecksum(s)
  {
    var sum := WordSum(Padded(s));
    if sum >= 0x1_0000 {
      assert EndAroundCarry(sum) == EndAroundCarry(sum % 0x1_0000 + sum / 0x1_0000);
    }
  }

  /** Words 0xFFFF, 0xFFFF, 0x0001 sum to 0x1FFFF; the single fold gives 0x10000 and drops its
      carry, so calcChecksum returns 0xFFFF where RFC 1071 gives 0xFFFE. */
  lemma SingleFoldDropsCarry()
    ensures Checksum([0xFF, 0xFF, 0xFF, 0xFF, 0x00, 0x01]) == 0xFFFF
    ensures RfcChecksum([0xFF, 0xFF, 0xFF, 0xFF, 0x00, 0x01]) == 0xFFFE
  {
    var s: seq<Byte> := [0xFF, 0xFF, 0xFF, 0xFF, 0x00, 0x01];
    assert s[..2] == [0xFF, 0xFF] && s[2..][..2] == [0xFF, 0xFF];
    assert s[2..][2..] == [0x00, 0x01] && s[2..][2..][..2] == [0x00, 0x01];
    assert WordSum(s[2..][2..]) == 1;
    assert WordSum(s[2..]) == 0x1_0000;
    assert WordSum(s) == 0x1_FFFF;
    assert EndAroundCarry(0x1_FFFF) == EndAroundCarry(0x1_0000) == EndAroundCarry(1);
  }

  /** Writing the checksum into a zeroed 16-bit field at an even offset makes the buffer
      checksum to 0 (the receiver's test), as long as the single fold produced no carry. */
  lemma ChecksumVerifies(s: seq<Byte>, at: nat)
    requires |s| % 2 == 0 && at % 2 == 0 && at + 2 <= |s|
    requires s[at] == 0 && s[at + 1] == 0
    requires NoCarry(WordSum(s))
    ensures Checksum(Splice(s, at, Be16(Checksum(s)))) == 0
  {
    var c := Checksum(s);
    ChecksumOfEven(s);
    SpliceAddsWord(s, at, c);
    ChecksumOfComplemented(Splice(s, at, Be16(c)), WordSum(s), c);
  }

  /** ChecksumVerifies for a field inside the second of two concatenated buffers (a pseudo
      header followed by a segment): the checksum over both, written into the segment. */
  lemma ChecksumAfterPrefix(p: seq<Byte>, s: seq<Byte>, at: nat)
    requires |p| % 2 == 0 && |s| % 2 == 0 && at % 2 == 0 && at + 2 <= |s|
    requires s[at] == 0 && s[at + 1] == 0
    requires NoCarry(WordSum(p + s))
    ensures Checksum(p + Splice(s, at, Be16(Checksum(p + s)))) == 0
  {
    var t := p + s;
    var c := Checksum(t);
    var u := Splice(s, at, Be16(c));
    EvenConcat(p, s, u);
    ChecksumOfEven(t);
    WordSumAppend(p, s);
    WordSumAppend(p, u);
    SpliceAddsWord(s, at, c);
    ChecksumOfComplemented(p + u, WordSum(t), c);
  }

  lemma EvenConcat(p: seq<Byte>, s: seq<Byte>, u: seq<Byte>)
    requires |p| % 2 == 0 && |s| % 2 == 0 && |u| == |s|
    ensures |p + s| % 2 == 0 && |p + u| % 2 == 0
  {
  }

  /** A buffer whose word sum is a sum plus the checksum of that sum checksums to 0. */
  lemma ChecksumOfComplemented(t: seq<Byte>, sum: nat, c: nat)
    requires |t| % 2 == 0 && NoCarry(sum) && c == 0xFFFF - Fold(sum) && WordSum(t) == sum + c
    ensures Checksum(t) == 0
  {
    FoldComplement(sum, c);
    ChecksumOfEven(t);
  }

  /** Writing a value into a zero word at an even offset adds it to the word sum. */
  lemma SpliceAddsWord(s: seq<Byte>, at: nat, c: nat)
    requires at % 2 == 0 && at + 2 <= |s| && s[at] == 0 && s[at + 1] == 0 && c < 0x1_0000
    ensures WordSum(Splice(s, at, Be16(c))) == WordSum(s) + c
  {
    Be16Exact(c);
    WordSumSplice(s, at, Be16(c));
    assert s[at..at + 2] == [0, 0];
  }

  /** An even-length buffer is summed as it is. */
  lemma ChecksumOfEven(s: seq<Byte>)
    requires |s| % 2 == 0
    ensures Checksum(s) == 0xFFFF - Fold(WordSum(s))
  {
  }

  /** Adding the complement of the folded sum to the sum folds to 0xFFFF. */
  lemma FoldComplement(sum: nat, c: nat)
    requires NoCarry(sum) && c == 0xFFFF - Fold(sum)
    ensures Fold(sum + c) == 0xFFFF
  {
    var h, l := sum / 0x1_0000, sum % 0x1_0000;
    assert sum == h * 0x1_0000 + l;
    assert sum + c == h * 0x1_0000 + (0xFFFF - h);
    DivModUnique(h, 0xFFFF - h);
  }

  /** Division by 2^16 recovers quotient and remainder. */
  lemma DivModUnique(q: nat, r: nat)
    requires r < 0x1_0000
    ensures (q * 0x1_0000 + r) / 0x1_0000 == q && (q * 0x1_0000 + r) % 0x1_0000 == r
  {
  }
}
