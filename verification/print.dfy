/**
  The light-weight hexadecimal formatter. Each call sends its characters one
  by one to the UART; here a call is the sequence of bytes it sends, in order.
 */
module Print {
  import opened Bytes
  import opened Parse
  import Uart

  /** The upper-case hex character for a nibble. */
  function HexChar(h: nat): (c: byte)
    requires h < 16
    ensures IsUpperHexChar(c)
    ensures HexDigit(c) == h
  {
    if h < 10 then '0' as int + h else 'A' as int + h - 10
  }

  /** `(v >> shift) & 0x0f`. */
  function Nibble(v: nat, shift: nat): (h: nat)
    ensures h < 16
  {
    (v / Pow2(shift)) % 16
  }

  /**
    The formatting loop from shift `i` down to shift 0 in steps of four: one
    upper-case hex character per nibble, most significant first.
   */
  function EmitNibbles(v: nat, i: int): (out: seq<byte>)
    requires -4 <= i && i % 4 == 0
    ensures |out| == (i + 4) / 4
    ensures forall k :: 0 <= k < |out| ==> IsUpperHexChar(out[k])
    ensures forall k :: 0 <= k < |out| ==> HexDigit(out[k]) == Nibble(v, i - 4 * k)
    decreases i
  {
    if i < 0 then [] else [HexChar(Nibble(v, i))] + EmitNibbles(v, i - 4)
  }

  /** print_hex8: two upper-case hex characters, high nibble first. */
  function PrintHex8(v: byte): (out: seq<byte>)
    ensures |out| == 2
    ensures IsUpperHexChar(out[0]) && IsUpperHexChar(out[1])
    ensures HexDigit(out[0]) == v / 16 && HexDigit(out[1]) == v % 16
  {
    EmitNibbles(v, 4)
  }

  /** print_hex16: four upper-case hex characters, nibbles at shifts 12, 8, 4, 0. */
  function PrintHex16(v: uint16): (out: seq<byte>)
    ensures |out| == 4
    ensures forall k :: 0 <= k < 4 ==> IsUpperHexChar(out[k])
    ensures HexDigit(out[0]) == v / 0x1000
    ensures HexDigit(out[1]) == (v / 0x100) % 16
    ensures HexDigit(out[2]) == (v / 0x10) % 16
    ensures HexDigit(out[3]) == v % 16
  {
    EmitNibbles(v, 12)
  }

  /**
    The formatting loop as the source runs it: each character goes to the
    UART sink as soon as it is formed. The log grows by exactly the text
    `EmitNibbles` describes.
   */
  function SendNibbles(sent: seq<byte>, v: nat, i: int): (r: seq<byte>)
    requires -4 <= i && i % 4 == 0
    ensures r == sent + EmitNibbles(v, i)
    decreases i
  {
    if i < 0 then
      sent
    else
      var sent' := Uart.SendByte(sent, HexChar(Nibble(v, i)));
      assert sent' + EmitNibbles(v, i - 4) == sent + EmitNibbles(v, i);
      SendNibbles(sent', v, i - 4)
  }

  /** print_hex8 on the UART: the log gains the two characters of `PrintHex8(v)`, and nothing sent earlier changes. */
  function SendHex8(sent: seq<byte>, v: byte): (r: seq<byte>)
    ensures r == sent + PrintHex8(v)
    ensures |r| == |sent| + 2 && r[..|sent|] == sent
  {
    SendNibbles(sent, v, 4)
  }

  /** print_hex16 on the UART: the log gains the four characters of `PrintHex16(v)`, and nothing sent earlier changes. */
  function SendHex16(sent: seq<byte>, v: uint16): (r: seq<byte>)
    ensures r == sent + PrintHex16(v)
    ensures |r| == |sent| + 4 && r[..|sent|] == sent
  {
    SendNibbles(sent, v, 12)
  }

  /** The characters for a nibble are exactly the canonical hex alphabet. */
  lemma HexCharInverse(c: byte)
    requires IsUpperHexChar(c)
    ensures HexChar(HexDigit(c)) == c
  {
  }

  /** Upper-case hex strings with the same digit values are the same string. */
  lemma SameDigitsSameString(a: seq<byte>, b: seq<byte>)
    requires |a| == |b|
    requires forall k :: 0 <= k < |a| ==> IsUpperHexChar(a[k]) && IsUpperHexChar(b[k])
    requires forall k :: 0 <= k < |a| ==> HexDigit(a[k]) == HexDigit(b[k])
    ensures a == b
  {
  }

  /** Quotient and remainder are determined by any decomposition in range. */
  lemma DivModUnique(x: nat, m: nat, q: nat, r: nat)
    requires 0 <= r < m
    requires x == q * m + r
    ensures x / m == q && x % m == r
  {
    var q', r' := x / m, x % m;
    if q' < q {
      MulStep(q', q, m);
    } else if q < q' {
      MulStep(q, q', m);
    }
  }

  lemma MulStep(a: nat, b: nat, m: nat)
    requires a < b
    ensures a * m + m <= b * m
  {
    var k: nat := b - a - 1;
    assert b * m == a * m + m + k * m;
  }

  /** The nibbles of the two bytes of `v` are the nibbles of `v`. */
  lemma Split16Nibbles(v: uint16)
    ensures (v / 0x100) / 16 == v / 0x1000
    ensures (v % 0x100) / 16 == (v / 0x10) % 16
    ensures (v % 0x100) % 16 == v % 16
  {
  }

  /** Sixteen bits print as their high byte followed by their low byte. */
  lemma PrintHex16Split(v: uint16)
    ensures PrintHex16(v) == PrintHex8(v / 0x100) + PrintHex8(v % 0x100)
  {
    var hi, lo := PrintHex8(v / 0x100), PrintHex8(v % 0x100);
    Split16Nibbles(v);
    SameDigitsSameString(PrintHex16(v), hi + lo);
  }

  /** The two characters of print_hex8 are worth the byte they print. */
  lemma PrintHex8Value(v: byte)
    ensures AllHex(PrintHex8(v)) && HexValue(PrintHex8(v)) == v
  {
    var out := PrintHex8(v);
    assert AllHex(out);
    assert out[..|out| - 1] == out[..1];
    assert out[..1][..0] == [];
    assert HexValue(out[..1]) == v / 16;
    assert HexValue(out) == 16 * (v / 16) + v % 16;
  }

  /** The four characters of print_hex16 are worth the value they print. */
  lemma PrintHex16Value(v: uint16)
    ensures AllHex(PrintHex16(v)) && HexValue(PrintHex16(v)) == v
  {
    var hi, lo := v / 0x100, v % 0x100;
    PrintHex16Split(v);
    PrintHex8Value(hi);
    PrintHex8Value(lo);
    HexValueAppend(PrintHex8(hi), PrintHex8(lo));
    assert Pow16(2) == 0x100;
    assert HexValue(PrintHex16(v)) == hi * 0x100 + lo;
  }

  /** Parsing what print_hex8 sends, once NUL-terminated, gives the byte back. */
  lemma PrintHex8RoundTrip(v: byte)
    ensures Terminated(PrintHex8(v) + [NUL])
    ensures ParseHex(PrintHex8(v) + [NUL]) == v
  {
    PrintHex8Value(v);
    ParseDigitsThenNul(PrintHex8(v));
  }

  /** Parsing what print_hex16 sends, once NUL-terminated, gives the value back. */
  lemma PrintHex16RoundTrip(v: uint16)
    ensures Terminated(PrintHex16(v) + [NUL])
    ensures ParseHex(PrintHex16(v) + [NUL]) == v
  {
    PrintHex16Value(v);
    ParseDigitsThenNul(PrintHex16(v));
  }

  /**
    The other direction: two canonical upper-case hex characters, parsed and
    printed again, come back unchanged.
   */
  lemma ParseThenPrintHex8(s: seq<byte>)
    requires |s| == 2 && IsUpperHexChar(s[0]) && IsUpperHexChar(s[1])
    ensures Terminated(s + [NUL])
    ensures ParseHex(s + [NUL]) < 0x100
    ensures PrintHex8(ParseHex(s + [NUL])) == s
  {
    assert AllHex(s);
    ParseDigitsThenNul(s);
    var hi, lo := HexDigit(s[0]), HexDigit(s[1]);
    assert s[..|s| - 1] == s[..1];
    assert s[..1][..0] == [];
    assert HexValue(s[..1]) == hi;
    assert HexValue(s) == 16 * hi + lo;
    var v := ParseHex(s + [NUL]);
    assert v == 16 * hi + lo;
    DivModUnique(v, 16, hi, lo);
    SameDigitsSameString(PrintHex8(v), s);
  }
}
