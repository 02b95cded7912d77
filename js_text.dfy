/** The two JavaScript string built-ins the address code relies on, `String.prototype.split`
    with a one-character separator and the global `parseInt` without a radix, together with
    the textual forms an address is written in (decimal and two-digit lower-case hex). */
module JsText {
  import opened Wrappers

  /** JavaScript truthiness of a value that is a string or undefined: undefined and "" are
      false, every other string is true. */
  predicate Truthy(s: Option<string>) {
    s.Some? && s.value != ""
  }

  /** `s.split(sep)`: the pieces between occurrences of sep, in order; "" splits into [""]. */
  function Split(s: string, sep: char): (r: seq<string>)
    ensures |r| >= 1
    decreases |s|
  {
    if |s| == 0 then [""]
    else
      var rest := Split(s[1..], sep);
      if s[0] == sep then [""] + rest
      else [[s[0]] + rest[0]] + rest[1..]
  }

  /** `parts.join(sep)`. */
  function Join(parts: seq<string>, sep: char): string
    requires |parts| >= 1
  {
    if |parts| == 1 then parts[0] else parts[0] + [sep] + Join(parts[1..], sep)
  }

  /** A prefix free of the separator sticks to the first piece of what follows it. */
  lemma {:induction false} SplitPrefix(w: string, t: string, sep: char)
    requires sep !in w
    ensures Split(w + t, sep) == [w + Split(t, sep)[0]] + Split(t, sep)[1..]
    decreases |w|
  {
    if |w| > 0 {
      assert (w + t)[1..] == w[1..] + t;
      SplitPrefix(w[1..], t, sep);
      assert [w[0]] + (w[1..] + Split(t, sep)[0]) == w + Split(t, sep)[0];
    } else {
      assert w + t == t;
      assert w + Split(t, sep)[0] == Split(t, sep)[0];
      assert Split(t, sep) == [Split(t, sep)[0]] + Split(t, sep)[1..];
    }
  }

  /** Splitting a join gives back the parts, when no part contains the separator. */
  lemma {:induction false} SplitJoin(parts: seq<string>, sep: char)
    requires |parts| >= 1
    requires forall k :: 0 <= k < |parts| ==> sep !in parts[k]
    ensures Split(Join(parts, sep), sep) == parts
    decreases |parts|
  {
    if |parts| == 1 {
      SplitPrefix(parts[0], "", sep);
      assert parts[0] + "" == parts[0];
    } else {
      var rest := Join(parts[1..], sep);
      SplitJoin(parts[1..], sep);
      assert Split([sep] + rest, sep) == [""] + parts[1..] by {
        assert ([sep] + rest)[1..] == rest;
      }
      SplitPrefix(parts[0], [sep] + rest, sep);
      assert parts[0] + [sep] + rest == parts[0] + ([sep] + rest);
      assert parts[0] + "" == parts[0];
      assert [parts[0]] + parts[1..] == parts;
    }
  }

  /** The value of c as a digit in base 36 order (0-9, then a/A = 10 ...), or -1. */
  function DigitValue(c: char): (d: int)
    ensures -1 <= d < 16
  {
    if '0' <= c <= '9' then c as int - '0' as int
    else if 'a' <= c <= 'f' then c as int - 'a' as int + 10
    else if 'A' <= c <= 'F' then c as int - 'A' as int + 10
    else -1
  }

  predicate IsDigit(c: char, radix: int) {
    0 <= DigitValue(c) < radix
  }

  /** Length of the leading run of digits of s in the given radix. */
  function DigitRun(s: string, radix: int): (n: nat)
    ensures n <= |s|
    ensures forall k :: 0 <= k < n ==> IsDigit(s[k], radix)
    ensures n < |s| ==> !IsDigit(s[n], radix)
  {
    if |s| == 0 || !IsDigit(s[0], radix) then 0 else 1 + DigitRun(s[1..], radix)
  }

  /** The number a run of digits denotes, most significant digit first. */
  function DigitsValue(d: string, radix: int): int
    requires forall k :: 0 <= k < |d| ==> IsDigit(d[k], radix)
  {
    if |d| == 0 then 0 else DigitsValue(d[..|d| - 1], radix) * radix + DigitValue(d[|d| - 1])
  }

  /** `parseInt(s)` with no radix: an optional sign, then "0x"/"0X" selects hexadecimal,
      then the longest run of digits; `None` is NaN (no digit at all). */
  function ParseInt(s: string): Option<int> {
    var negative := |s| > 0 && s[0] == '-';
    var t := if |s| > 0 && (s[0] == '-' || s[0] == '+') then s[1..] else s;
    var v := if HexPrefixed(t) then ParseDigits(t[2..], 16) else ParseDigits(t, 10);
    if v.None? then None
    else Some(if negative then -v.value else v.value)
  }

  /** Whether an unsigned text starts with "0x" or "0X". */
  predicate HexPrefixed(t: string) {
    |t| >= 2 && t[0] == '0' && (t[1] == 'x' || t[1] == 'X')
  }

  /** The value of the leading run of digits of u, or `None` when there is none. */
  function ParseDigits(u: string, radix: int): (v: Option<int>)
    ensures v.None? <==> DigitRun(u, radix) == 0
  {
    var n := DigitRun(u, radix);
    if n == 0 then None else Some(DigitsValue(u[..n], radix))
  }

  /** The decimal text of n, without leading zeros. */
  function Dec(n: nat): (r: string)
    ensures |r| >= 1
    ensures forall k :: 0 <= k < |r| ==> IsDigit(r[k], 10)
  {
    if n < 10 then ["0123456789"[n]] else Dec(n / 10) + ["0123456789"[n % 10]]
  }

  /** Two lower-case hexadecimal digits for a byte value. */
  function Hex2(b: int): (r: string)
    requires 0 <= b < 256
    ensures |r| == 2 && IsDigit(r[0], 16) && IsDigit(r[1], 16)
  {
    ["0123456789abcdef"[b / 16], "0123456789abcdef"[b % 16]]
  }

  lemma {:induction false} DecValue(n: nat)
    ensures DigitsValue(Dec(n), 10) == n
  {
    if n >= 10 {
      DecValue(n / 10);
      assert Dec(n)[..|Dec(n)| - 1] == Dec(n / 10);
    }
  }

  /** parseInt reads back the decimal text of a number. */
  lemma ParseDec(n: nat)
    ensures ParseInt(Dec(n)) == Some(n)
  {
    ParseDecimalDigits(Dec(n));
    DecValue(n);
  }

  /** parseInt of a non-empty run of decimal digits is the number they denote. */
  lemma ParseDecimalDigits(s: string)
    requires |s| >= 1 && forall k :: 0 <= k < |s| ==> IsDigit(s[k], 10)
    ensures ParseInt(s) == Some(DigitsValue(s, 10))
  {
    DecimalDigitChar(s[0]);
    if |s| >= 2 {
      DecimalDigitChar(s[1]);
    }
    assert !HexPrefixed(s);
    WholeRun(s, 10);
  }

  /** A non-empty string of digits is read whole. */
  lemma WholeRun(s: string, radix: int)
    requires |s| >= 1 && forall k :: 0 <= k < |s| ==> IsDigit(s[k], radix)
    ensures ParseDigits(s, radix) == Some(DigitsValue(s, radix))
  {
    FullRun(s, radix);
    assert s[..|s|] == s;
  }

  /** A decimal digit is one of '0' to '9'. */
  lemma DecimalDigitChar(c: char)
    requires IsDigit(c, 10)
    ensures '0' <= c <= '9'
  {
  }

  /** A string made only of digits is one run. */
  lemma FullRun(s: string, radix: int)
    requires forall k :: 0 <= k < |s| ==> IsDigit(s[k], radix)
    ensures DigitRun(s, radix) == |s|
  {
  }

  /** parseInt reads back a byte written as "0x" followed by two hex digits. */
  lemma ParseHex2(b: int)
    requires 0 <= b < 256
    ensures ParseInt("0x" + Hex2(b)) == Some(b)
  {
    var d := Hex2(b);
    ParseHexDigits(d);
    TwoDigits(d, 16);
    HexDigitValue(b / 16);
    HexDigitValue(b % 16);
  }

  /** parseInt of "0x" and a non-empty run of hex digits is the number they denote. */
  lemma ParseHexDigits(d: string)
    requires |d| >= 1 && forall k :: 0 <= k < |d| ==> IsDigit(d[k], 16)
    ensures ParseInt("0x" + d) == Some(DigitsValue(d, 16))
  {
    var s := "0x" + d;
    assert HexPrefixed(s) && s[2..] == d;
    WholeRun(d, 16);
  }

  /** Two digits denote the first times the radix plus the second. */
  lemma TwoDigits(d: string, radix: int)
    requires |d| == 2 && IsDigit(d[0], radix) && IsDigit(d[1], radix)
    ensures DigitsValue(d, radix) == DigitValue(d[0]) * radix + DigitValue(d[1])
  {
    assert d[..1][..0] == [];
    assert DigitsValue(d[..1], radix) == DigitValue(d[0]);
  }

  /** The k-th lower-case hex digit has value k. */
  lemma HexDigitValue(k: int)
    requires 0 <= k < 16
    ensures DigitValue("0123456789abcdef"[k]) == k
  {
  }
}
