/**
  The light-weight hexadecimal parser: classification of one byte as a hex
  digit, and accumulation of the leading run of hex digits of a buffer into
  a big-endian number held in a 32-bit accumulator.
 */
module Parse {
  import opened Bytes

  /** Largest value a signed 32-bit `int` holds, plus one. */
  const INT_LIMIT: nat := 0x8000_0000

  /**
    Value of a hex digit, or -1 for any other byte. Bytes outside '0'..'9'
    have bit 5 forced on, which folds 'A'..'F' onto 'a'..'f', before the
    letter range test.
   */
  function HexDigit(c: byte): (d: int)
    ensures IsDecimalDigit(c) ==> d == c - '0' as int
    ensures IsLowerHexLetter(c) ==> d == c - 'a' as int + 10
    ensures IsUpperHexLetter(c) ==> d == c - 'A' as int + 10
    ensures d == -1 <==> !IsHexChar(c)
    ensures -1 <= d < 16
  {
    if '0' as int <= c <= '9' as int then
      c - '0' as int
    else
      var folded := ((c as bv8) | (1 << 5)) as int;
      if 'a' as int <= folded <= 'f' as int then folded - 'a' as int + 10 else -1
  }

  /** Length of the maximal leading run of hex digits of `buf`. */
  function HexRunLength(buf: seq<byte>): (n: nat)
    ensures n <= |buf|
    ensures forall k :: 0 <= k < n ==> IsHexChar(buf[k])
    ensures n < |buf| ==> !IsHexChar(buf[n])
  {
    if |buf| == 0 || !IsHexChar(buf[0]) then 0 else 1 + HexRunLength(buf[1..])
  }

  predicate AllHex(digits: seq<byte>) {
    forall k :: 0 <= k < |digits| ==> IsHexChar(digits[k])
  }

  /** A buffer that holds some non-hex byte, at which a scan stops. */
  predicate Terminated(buf: seq<byte>) {
    exists k :: 0 <= k < |buf| && !IsHexChar(buf[k])
  }

  /** The mathematical big-endian value of a string of hex digits. */
  function HexValue(digits: seq<byte>): nat
    requires AllHex(digits)
  {
    if |digits| == 0 then 0
    else 16 * HexValue(digits[..|digits| - 1]) + HexDigit(digits[|digits| - 1])
  }

  /** The value of the leading hex run of `buf`, without any width limit. */
  function PrefixValue(buf: seq<byte>): nat {
    HexValue(buf[..HexRunLength(buf)])
  }

  /**
    One iteration of the parse loop on a 32-bit accumulator: shift left by
    four bits (dropping what leaves the word) and OR in the digit, which
    lands in the four low bits the shift has just cleared.
   */
  function ShiftIn(res: uint32, d: nat): (r: uint32)
    requires d < 16
    // The low nibble is the digit; the upper 28 bits are the old low 28 bits.
    ensures r % 16 == d && r / 16 == res % 0x1000_0000
    ensures r == (res * 16 + d) % WORD
  {
    (res * 16) % WORD + d
  }

  /**
    The parse loop from position `i` with accumulator `res`; it reads
    `buf[i]`, and stops at the first byte that is not a hex digit.
   */
  function ScanHex(buf: seq<byte>, i: nat, res: uint32): (r: uint32)
    requires i <= HexRunLength(buf) < |buf|
    requires res == HexValue(buf[..i]) % WORD
    ensures r == PrefixValue(buf) % WORD
    decreases |buf| - i
  {
    var d := HexDigit(buf[i]);
    if d == -1 then
      res
    else
      assert buf[..i + 1][..i] == buf[..i];
      ShiftInWrap(HexValue(buf[..i]), d);
      ScanHex(buf, i + 1, ShiftIn(res, d))
  }

  /**
    parse_hex: the value of the leading hex run, as the 32-bit pattern the
    accumulator holds. The scan reads up to and including the first non-hex
    byte, so one must exist in the buffer.
   */
  function ParseHex(buf: seq<byte>): (r: uint32)
    requires Terminated(buf)
    ensures r == PrefixValue(buf) % WORD
    ensures PrefixValue(buf) < INT_LIMIT ==> r == PrefixValue(buf)
    ensures !IsHexChar(buf[0]) ==> r == 0
  {
    TerminatedRun(buf);
    ScanHex(buf, 0, 0)
  }

  lemma TerminatedRun(buf: seq<byte>)
    requires Terminated(buf)
    ensures HexRunLength(buf) < |buf|
  {
  }

  /** Taking the accumulator modulo the word size before a step changes nothing. */
  lemma ShiftInWrap(a: nat, d: nat)
    ensures ((a % WORD) * 16 + d) % WORD == (a * 16 + d) % WORD
  {
  }

  /** A string of `n` hex digits is worth less than 16^n. */
  lemma {:induction false} HexValueBound(digits: seq<byte>)
    requires AllHex(digits)
    ensures HexValue(digits) < Pow16(|digits|)
  {
    if |digits| > 0 {
      var init := digits[..|digits| - 1];
      HexValueBound(init);
      assert HexValue(digits) <= 16 * (Pow16(|init|) - 1) + 15;
    }
  }

  /** The value of two digit strings written one after the other. */
  lemma {:induction false} HexValueAppend(a: seq<byte>, b: seq<byte>)
    requires AllHex(a) && AllHex(b)
    ensures AllHex(a + b)
    ensures HexValue(a + b) == HexValue(a) * Pow16(|b|) + HexValue(b)
  {
    if |b| == 0 {
      assert a + b == a;
    } else {
      var b' := b[..|b| - 1];
      var last := HexDigit(b[|b| - 1]);
      HexValueAppend(a, b');
      assert (a + b)[..|a + b| - 1] == a + b';
      assert (a + b)[|a + b| - 1] == b[|b| - 1];
      assert b[..|b| - 1] == b';
      var x, y, p := HexValue(a), HexValue(b'), Pow16(|b'|);
      assert HexValue(a + b) == 16 * HexValue(a + b') + last;
      assert HexValue(b) == 16 * y + last;
      assert Pow16(|b|) == 16 * p;
      Regroup(x, p, y, last);
    }
  }

  lemma Regroup(x: nat, p: nat, y: nat, l: nat)
    ensures 16 * (x * p + y) + l == x * (16 * p) + (16 * y + l)
  {
  }

  /**
    The accumulator is a signed `int`: a shift whose result reaches 2^31
    overflows it. Every shift of the loop stays in range exactly when the
    final value does.
   */
  lemma {:induction false} NoSignedOverflowIff(digits: seq<byte>)
    requires AllHex(digits)
    ensures (forall k :: 0 <= k < |digits| ==> 16 * HexValue(digits[..k]) < INT_LIMIT)
            <==> HexValue(digits) < INT_LIMIT
  {
    if |digits| > 0 {
      var init := digits[..|digits| - 1];
      assert 16 * HexValue(init) <= HexValue(digits);
      if HexValue(digits) < INT_LIMIT {
        forall k | 0 <= k < |digits|
          ensures 16 * HexValue(digits[..k]) < INT_LIMIT
        {
          PrefixMonotone(digits, k, |digits| - 1);
          assert digits[..|digits| - 1] == init;
        }
      } else {
        assert digits[..|digits| - 1] == init;
        // The last shift's result is a multiple of 16 below 2^31 only if
        // the final value is also below 2^31.
        assert HexValue(digits) == 16 * HexValue(init) + HexDigit(digits[|digits| - 1]);
      }
    }
  }

  /** A longer prefix of a digit string is worth at least as much. */
  lemma {:induction false} PrefixMonotone(digits: seq<byte>, i: nat, j: nat)
    requires AllHex(digits)
    requires i <= j <= |digits|
    ensures HexValue(digits[..i]) <= HexValue(digits[..j])
    decreases j - i
  {
    if i < j {
      PrefixMonotone(digits, i, j - 1);
      assert digits[..j][..j - 1] == digits[..j - 1];
    }
  }

  /** Seven digits or fewer can never overflow the signed accumulator. */
  lemma ShortPrefixExact(buf: seq<byte>)
    requires Terminated(buf)
    requires HexRunLength(buf) <= 7
    ensures ParseHex(buf) == PrefixValue(buf)
  {
    var run := buf[..HexRunLength(buf)];
    HexValueBound(run);
    assert Pow16(|run|) <= Pow16(7) by { Pow16Monotone(|run|, 7); }
  }

  lemma {:induction false} Pow16Monotone(m: nat, n: nat)
    requires m <= n
    ensures Pow16(m) <= Pow16(n)
    decreases n
  {
    if m < n {
      Pow16Monotone(m, n - 1);
    }
  }

  /** Digit strings that agree digit by digit have the same value. */
  lemma {:induction false} HexValueDigitwise(a: seq<byte>, b: seq<byte>)
    requires AllHex(a) && AllHex(b) && |a| == |b|
    requires forall k :: 0 <= k < |a| ==> HexDigit(a[k]) == HexDigit(b[k])
    ensures HexValue(a) == HexValue(b)
  {
    if |a| > 0 {
      HexValueDigitwise(a[..|a| - 1], b[..|b| - 1]);
    }
  }

  /**
    Buffers whose bytes classify alike, position by position, parse alike:
    the parser sees nothing of a byte but its digit value.
   */
  lemma ParseHexDigitwise(a: seq<byte>, b: seq<byte>)
    requires Terminated(a)
    requires |a| == |b|
    requires forall k :: 0 <= k < |a| ==> HexDigit(a[k]) == HexDigit(b[k])
    ensures Terminated(b)
    ensures ParseHex(a) == ParseHex(b)
  {
    var k :| 0 <= k < |a| && !IsHexChar(a[k]);
    assert !IsHexChar(b[k]);
    var n := HexRunLength(a);
    TerminatedRun(a);
    RunLengthUpTo(b, n);
    HexValueDigitwise(a[..n], b[..n]);
  }

  function UpperCase(buf: seq<byte>): (r: seq<byte>)
    ensures |r| == |buf|
    ensures forall k :: 0 <= k < |buf| ==> r[k] == ToUpper(buf[k])
  {
    seq(|buf|, k requires 0 <= k < |buf| => ToUpper(buf[k]))
  }

  function LowerCase(buf: seq<byte>): (r: seq<byte>)
    ensures |r| == |buf|
    ensures forall k :: 0 <= k < |buf| ==> r[k] == ToLower(buf[k])
  {
    seq(|buf|, k requires 0 <= k < |buf| => ToLower(buf[k]))
  }

  /** Parsing ignores the case of the letters in the buffer. */
  lemma ParseHexCaseInsensitive(buf: seq<byte>)
    requires Terminated(buf)
    ensures Terminated(UpperCase(buf)) && ParseHex(UpperCase(buf)) == ParseHex(buf)
    ensures Terminated(LowerCase(buf)) && ParseHex(LowerCase(buf)) == ParseHex(buf)
  {
    ParseHexDigitwise(buf, UpperCase(buf));
    ParseHexDigitwise(buf, LowerCase(buf));
  }

  /**
    The parser reads nothing past the first non-hex byte: whatever follows
    it leaves the result unchanged.
   */
  lemma ParseHexIgnoresTail(buf: seq<byte>, tail: seq<byte>)
    requires Terminated(buf)
    ensures var cut := buf[..HexRunLength(buf) + 1] + tail;
            Terminated(cut) && ParseHex(cut) == ParseHex(buf)
  {
    TerminatedRun(buf);
    var n := HexRunLength(buf);
    var cut := buf[..n + 1] + tail;
    assert cut[n] == buf[n];
    assert Terminated(cut);
    assert cut[..n] == buf[..n];
    RunLengthUpTo(cut, n);
  }

  /** The run stops at `n` when `n` hex digits are followed by a non-hex byte. */
  lemma RunLengthUpTo(buf: seq<byte>, n: nat)
    requires n < |buf|
    requires forall k :: 0 <= k < n ==> IsHexChar(buf[k])
    requires !IsHexChar(buf[n])
    ensures HexRunLength(buf) == n
  {
  }

  /** A digit string followed by a NUL terminator parses to its value. */
  lemma ParseDigitsThenNul(digits: seq<byte>)
    requires AllHex(digits)
    ensures Terminated(digits + [NUL])
    ensures ParseHex(digits + [NUL]) == HexValue(digits) % WORD
  {
    var buf := digits + [NUL];
    assert buf[|digits|] == NUL;
    assert buf[..|digits|] == digits;
    RunLengthUpTo(buf, |digits|);
  }
}
