/**
  The UART receive interrupt as a sequential state machine. Each interrupt
  reads the status register once; with a received byte it assembles the
  current line in the receive buffer and echoes printable input, otherwise a
  transmit-ready interrupt is masked off. Sending a byte appends it to the
  output log; the busy-wait on the transmitter is not modelled.
 */
module Uart {
  import opened Bytes

  /** UART_BUF_SIZE: capacity of the receive line buffer. */
  const BUF_SIZE: nat := 80

  /** Status register bits. */
  const STAT_RXRDY: bv32 := 0x01
  const STAT_TXRDY: bv32 := 0x04

  /** UART_BUF_FLAG_EOL: a carriage return has completed the line. */
  const BUF_FLAG_EOL: bv32 := 0x01

  /** Interrupt-enable bit that the transmit-ready branch clears. */
  const INT_TXRDY: bv32 := 0x04

  /** Bytes up to this value are control characters, never stored. */
  const LAST_CONTROL: byte := 31

  /**
    The handler's globals (`uart_rxbuf`, `uart_rxi`, `uart_buf_flags`), the
    interrupt-enable mask it clears, and every byte sent so far.
   */
  datatype State = State(
    rxbuf: seq<byte>,
    rxi: nat,
    flags: bv32,
    intEnable: bv32,
    sent: seq<byte>)

  /** The receive buffer has its declared size. */
  predicate WellFormed(s: State) {
    |s.rxbuf| == BUF_SIZE
  }

  /** The statically zeroed globals at reset. */
  function Initial(intEnable: bv32): (s: State)
    ensures WellFormed(s) && s.rxi == 0 && s.flags == 0 && s.sent == []
    ensures forall j :: 0 <= j < BUF_SIZE ==> s.rxbuf[j] == NUL
  {
    State(seq(BUF_SIZE, _ => NUL), 0, 0, intEnable, [])
  }

  /** MyUARTSendByte: the byte goes out after everything sent before it. */
  function SendByte(sent: seq<byte>, v: byte): (r: seq<byte>)
    ensures |r| == |sent| + 1
    ensures r[..|sent|] == sent && r[|sent|] == v
  {
    sent + [v]
  }

  /** `flags |= UART_BUF_FLAG_EOL`: raises the EOL bit and keeps every other bit. */
  function RaiseEol(flags: bv32): (r: bv32)
    ensures r & BUF_FLAG_EOL != 0
    ensures r & !BUF_FLAG_EOL == flags & !BUF_FLAG_EOL
  {
    flags | BUF_FLAG_EOL
  }

  /** A write of `mask` to the interrupt-enable clear register: those bits drop, the rest stay. */
  function ClearBits(enabled: bv32, mask: bv32): (r: bv32)
    ensures r & mask == 0
    ensures r & !mask == enabled & !mask
  {
    enabled & !mask
  }

  /** The status register reports a received byte. */
  predicate RxReady(status: bv32) {
    status & STAT_RXRDY != 0
  }

  /** The status register reports room in the transmitter. */
  predicate TxReady(status: bv32) {
    status & STAT_TXRDY != 0
  }

  predicate IsPrintable(c: byte) {
    c > LAST_CONTROL
  }

  /** Whether an interrupt with this status and received byte writes `rxbuf[rxi]`. */
  predicate Stores(status: bv32, c: byte) {
    RxReady(status) && (c == CR || IsPrintable(c))
  }

  /**
    The receive branch of the handler for the byte `c` just read from the
    receive data register. The buffer store is in bounds only while `rxi`
    is below the capacity; the handler itself never checks.
   */
  function ReceiveByte(s: State, c: byte): (r: State)
    requires WellFormed(s)
    requires c == CR || IsPrintable(c) ==> s.rxi < BUF_SIZE
    ensures WellFormed(r)
    // At most the slot at rxi changes; the EOL flag is the only flag that moves.
    ensures forall j :: 0 <= j < BUF_SIZE && j != s.rxi ==> r.rxbuf[j] == s.rxbuf[j]
    ensures r.flags == s.flags || r.flags == RaiseEol(s.flags)
    ensures r.intEnable == s.intEnable
    // Carriage return: terminate the line and flag it, echo nothing.
    ensures c == CR ==>
              && r.flags == RaiseEol(s.flags)
              && r.rxbuf[s.rxi] == NUL
              && r.rxi == s.rxi
              && r.sent == s.sent
    // Printable byte: echo it, store it, advance.
    ensures IsPrintable(c) ==>
              && r.sent == s.sent + [c]
              && r.rxbuf[s.rxi] == c
              && r.rxi == s.rxi + 1
              && r.flags == s.flags
    // Other control bytes are dropped without trace.
    ensures c != CR && !IsPrintable(c) ==> r == s
  {
    if c == CR then
      s.(flags := RaiseEol(s.flags), rxbuf := s.rxbuf[s.rxi := NUL])
    else if c > LAST_CONTROL then
      var echoed := SendByte(s.sent, c);
      s.(sent := echoed, rxbuf := s.rxbuf[s.rxi := c], rxi := s.rxi + 1)
    else
      s
  }

  /**
    UART0_IRQHandler, for status register value `status` and receive data
    `c` (read only when RXRDY is set). A received byte takes precedence over
    transmit-ready, which only masks its own interrupt.
   */
  function Handle(s: State, status: bv32, c: byte): (r: State)
    requires WellFormed(s)
    requires Stores(status, c) ==> s.rxi < BUF_SIZE
    ensures WellFormed(r)
    ensures RxReady(status) ==> r == ReceiveByte(s, c)
    ensures !RxReady(status) ==>
              r.rxbuf == s.rxbuf && r.rxi == s.rxi && r.flags == s.flags && r.sent == s.sent
    ensures !RxReady(status) && TxReady(status) ==> r.intEnable == ClearBits(s.intEnable, INT_TXRDY)
    ensures !RxReady(status) && !TxReady(status) ==> r == s
  {
    if RxReady(status) then
      ReceiveByte(s, c)
    else if TxReady(status) then
      s.(intEnable := ClearBits(s.intEnable, INT_TXRDY))
    else
      s
  }

  /** Whether a run of received bytes, starting at index `rxi`, stays in bounds. */
  predicate InBounds(rxi: nat, input: seq<byte>)
    decreases |input|
  {
    |input| == 0 ||
    (&& (input[0] == CR || IsPrintable(input[0]) ==> rxi < BUF_SIZE)
     && InBounds(if IsPrintable(input[0]) then rxi + 1 else rxi, input[1..]))
  }

  /** One receive interrupt per byte of `input`, in order. */
  function Receive(s: State, input: seq<byte>): (r: State)
    requires WellFormed(s)
    requires InBounds(s.rxi, input)
    ensures WellFormed(r)
    decreases |input|
  {
    if |input| == 0 then s else Receive(Handle(s, STAT_RXRDY, input[0]), input[1..])
  }

  predicate AllPrintable(input: seq<byte>) {
    forall k :: 0 <= k < |input| ==> IsPrintable(input[k])
  }

  /** Printable bytes that fit in the room left never leave the buffer. */
  lemma {:induction false} PrintableInBounds(rxi: nat, input: seq<byte>)
    requires AllPrintable(input)
    requires rxi + |input| <= BUF_SIZE
    ensures InBounds(rxi, input)
    decreases |input|
  {
    if |input| > 0 {
      PrintableInBounds(rxi + 1, input[1..]);
    }
  }

  /**
    Printable bytes advance the index by one each and are echoed in order;
    the flags stay as they were.
   */
  lemma {:induction false} ReceivePrintableCounts(s: State, input: seq<byte>)
    requires WellFormed(s)
    requires AllPrintable(input)
    requires s.rxi + |input| <= BUF_SIZE
    ensures InBounds(s.rxi, input)
    ensures Receive(s, input).rxi == s.rxi + |input|
    ensures Receive(s, input).sent == s.sent + input
    ensures Receive(s, input).flags == s.flags
    decreases |input|
  {
    PrintableInBounds(s.rxi, input);
    if |input| > 0 {
      var c := input[0];
      var s' := Handle(s, STAT_RXRDY, c);
      assert RxReady(STAT_RXRDY);
      ReceivePrintableCounts(s', input[1..]);
      assert Receive(s', input[1..]) == Receive(s, input);
      assert input == [c] + input[1..];
    }
  }

  /**
    Printable bytes are stored in order from the index where they start;
    nothing before that index changes.
   */
  lemma {:induction false} ReceivePrintable(s: State, input: seq<byte>)
    requires WellFormed(s)
    requires AllPrintable(input)
    requires s.rxi + |input| <= BUF_SIZE
    ensures InBounds(s.rxi, input)
    ensures Receive(s, input).rxi == s.rxi + |input|
    ensures Receive(s, input).rxbuf[s.rxi..s.rxi + |input|] == input
    ensures Receive(s, input).rxbuf[..s.rxi] == s.rxbuf[..s.rxi]
    decreases |input|
  {
    ReceivePrintableCounts(s, input);
    if |input| > 0 {
      var c := input[0];
      var s' := Handle(s, STAT_RXRDY, c);
      assert RxReady(STAT_RXRDY);
      assert s'.rxi == s.rxi + 1 && s'.rxbuf[s.rxi] == c;
      ReceivePrintable(s', input[1..]);
      var r := Receive(s', input[1..]);
      assert r == Receive(s, input);
      PrefixOfPrefix(r.rxbuf, s'.rxbuf, s.rxi, s'.rxi);
      assert r.rxbuf[s.rxi] == c by {
        assert r.rxbuf[..s'.rxi][s.rxi] == s'.rxbuf[..s'.rxi][s.rxi];
      }
      assert r.rxbuf[s.rxi..r.rxi] == [c] + r.rxbuf[s'.rxi..r.rxi];
      assert s'.rxbuf[..s.rxi] == s.rxbuf[..s.rxi];
    }
  }

  /** What the handler echoes for one received byte: the byte itself if it is printable. */
  function Echo(c: byte): (e: seq<byte>)
    ensures |e| <= 1
  {
    if IsPrintable(c) then [c] else []
  }

  /** The bytes of `input` that the handler echoes and stores: the printable ones, in order. */
  function Printables(input: seq<byte>): (p: seq<byte>)
    ensures |p| <= |input|
    ensures AllPrintable(p)
    decreases |input|
  {
    if |input| == 0 then [] else Echo(input[0]) + Printables(input[1..])
  }

  /** One receive interrupt sends the byte's echo and advances the index by its length. */
  lemma EchoStep(s: State, c: byte)
    requires WellFormed(s)
    requires c == CR || IsPrintable(c) ==> s.rxi < BUF_SIZE
    ensures Handle(s, STAT_RXRDY, c).sent == s.sent + Echo(c)
    ensures Handle(s, STAT_RXRDY, c).rxi == s.rxi + |Echo(c)|
  {
    assert RxReady(STAT_RXRDY);
  }

  /**
    Everything sent while receiving is the echo of the printable input, in
    order, and the index counts exactly those bytes: a carriage return ends
    a line but never moves the index back.
   */
  lemma {:induction false} ReceiveEchoes(s: State, input: seq<byte>)
    requires WellFormed(s)
    requires InBounds(s.rxi, input)
    ensures Receive(s, input).sent == s.sent + Printables(input)
    ensures Receive(s, input).rxi == s.rxi + |Printables(input)|
    decreases |input|
  {
    if |input| > 0 {
      var c := input[0];
      var s' := Handle(s, STAT_RXRDY, c);
      EchoStep(s, c);
      ReceiveEchoes(s', input[1..]);
      assert Receive(s, input) == Receive(s', input[1..]);
      assert s.sent + Printables(input) == s'.sent + Printables(input[1..]);
    }
  }

  /** Sequences that agree up to `j` agree up to any `i <= j`. */
  lemma PrefixOfPrefix(a: seq<byte>, b: seq<byte>, i: nat, j: nat)
    requires i <= j <= |a| && j <= |b|
    requires a[..j] == b[..j]
    ensures a[..i] == b[..i]
  {
  }

  /**
    A fresh line of fewer than BUF_SIZE printable bytes followed by a
    carriage return leaves exactly that line, NUL-terminated, in the buffer,
    with the EOL flag raised and the line echoed.
   */
  lemma ReceiveLine(s: State, line: seq<byte>)
    requires WellFormed(s) && s.rxi == 0
    requires AllPrintable(line)
    requires |line| < BUF_SIZE
    ensures InBounds(0, line + [CR])
    ensures var r := Receive(s, line + [CR]);
            && r.rxi == |line|
            && r.rxbuf[..|line|] == line
            && r.rxbuf[|line|] == NUL
            && r.flags & BUF_FLAG_EOL != 0
            && r.sent == s.sent + line
  {
    ReceivePrintableCounts(s, line);
    ReceivePrintable(s, line);
    ReceiveAppend(s, line, [CR]);
  }

  /** Receiving two runs is receiving the first and then the second. */
  lemma {:induction false} ReceiveAppend(s: State, a: seq<byte>, b: seq<byte>)
    requires WellFormed(s)
    requires InBounds(s.rxi, a)
    requires InBounds(Receive(s, a).rxi, b)
    ensures InBounds(s.rxi, a + b)
    ensures Receive(s, a + b) == Receive(Receive(s, a), b)
    decreases |a|
  {
    if |a| > 0 {
      assert (a + b)[1..] == a[1..] + b;
      ReceiveAppend(Handle(s, STAT_RXRDY, a[0]), a[1..], b);
    } else {
      assert a + b == b;
    }
  }

  /**
    The defect at the buffer bound, as written: after BUF_SIZE printable
    bytes the index equals the capacity, so the very next carriage return
    (or printable byte) would store one past the end of the buffer.
   */
  lemma FullLineOverflows(s: State, line: seq<byte>, c: byte)
    requires WellFormed(s) && s.rxi == 0
    requires AllPrintable(line) && |line| == BUF_SIZE
    requires c == CR || IsPrintable(c)
    ensures InBounds(0, line)
    ensures Receive(s, line).rxi == BUF_SIZE
    ensures !InBounds(0, line + [c])
  {
    ReceivePrintableCounts(s, line);
    if InBounds(0, line + [c]) {
      InBoundsPrefix(0, line, [c]);
      assert false;
    }
  }

  /** A run stays in bounds only if its continuation does, from where the run leaves the index. */
  lemma {:induction false} InBoundsPrefix(rxi: nat, a: seq<byte>, b: seq<byte>)
    requires InBounds(rxi, a + b)
    requires AllPrintable(a)
    ensures InBounds(rxi + |a|, b)
    decreases |a|
  {
    if |a| > 0 {
      assert (a + b)[1..] == a[1..] + b;
      assert (a + b)[0] == a[0];
      InBoundsPrefix(rxi + 1, a[1..], b);
    } else {
      assert a + b == b;
    }
  }

  /**
    The handler with the buffer reset the source leaves commented out: when
    the index reaches the capacity it returns to the start of the buffer.
   */
  function HandleWithReset(s: State, status: bv32, c: byte): (r: State)
    requires WellFormed(s) && s.rxi < BUF_SIZE
    ensures WellFormed(r) && r.rxi < BUF_SIZE
    ensures s.rxi + 1 < BUF_SIZE ==> r == Handle(s, status, c)
    // Buffer, echo, flags and enable mask are the handler's; only the index wraps.
    ensures r.rxbuf == Handle(s, status, c).rxbuf && r.rxi == Handle(s, status, c).rxi % BUF_SIZE
    ensures r.sent == Handle(s, status, c).sent && r.flags == Handle(s, status, c).flags
    ensures r.intEnable == Handle(s, status, c).intEnable
    // The byte that fills the last slot is stored there, and the index returns to 0.
    ensures s.rxi == BUF_SIZE - 1 && RxReady(status) && IsPrintable(c) ==>
              r.rxbuf[BUF_SIZE - 1] == c && r.rxi == 0
  {
    var r := Handle(s, status, c);
    if r.rxi == BUF_SIZE then r.(rxi := 0) else r
  }

  /** With the reset in place every byte sequence is received in bounds. */
  function ReceiveWithReset(s: State, input: seq<byte>): (r: State)
    requires WellFormed(s) && s.rxi < BUF_SIZE
    ensures WellFormed(r) && r.rxi < BUF_SIZE
    ensures |r.sent| <= |s.sent| + |input|
    decreases |input|
  {
    if |input| == 0 then s
    else ReceiveWithReset(HandleWithReset(s, STAT_RXRDY, input[0]), input[1..])
  }
}
