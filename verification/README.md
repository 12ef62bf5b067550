# LPC8xx Flash EEPROM: hex parsing, hex printing and UART line assembly

This project models three small byte-level pieces of the LPC8xx Flash EEPROM
firmware in Dafny and proves properties of them:

- **Hex parsing** (`src/parse.c`). `is_hex_digit` classifies a byte. It uses the
  bit-5 case fold, so 'A'..'F' are treated like 'a'..'f'. `parse_hex` builds the
  value of the leading run of hex digits in a buffer, big-endian, in a 32-bit
  accumulator.
- **Hex printing** (`src/print.c`). `print_hex8` and `print_hex16` send 2 or 4
  upper-case hex characters, most significant nibble first. Sending a byte is
  modelled as appending it to an output sequence, so each printer is a function
  from the value to the bytes it sends.
- **UART line assembly** (`src/uart.c`, `UART0_IRQHandler`). Each interrupt is a
  pure step over an immutable `Uart.State`. The state holds `uart_rxbuf`,
  `uart_rxi`, `uart_buf_flags`, the interrupt-enable mask and the log of sent
  bytes. A carriage return ends the line. A byte above 31 is echoed and
  appended. Other control bytes are ignored.

Modules: `Bytes` holds the fixed-width types, the ASCII classes and the
powers. `Parse`, `Print` and `Uart` follow the source files.

Modelling decisions:

- `parse_hex` keeps `res` in a signed `int` and returns it as `uint32_t`.
  The model keeps the accumulator as its 32-bit pattern. Each step is a
  4-bit shift modulo 2^32, plus the digit. The OR fills the four low bits the
  shift has just cleared, so it is the same as adding the digit.
- A signed shift that overflows is undefined behaviour in C. `NoSignedOverflowIff`
  says exactly when no shift overflows: when the value of the digit run is
  below 2^31. `ParseHex` states that the result equals the mathematical value
  in that case, and the value modulo 2^32 in every case.
- `parse_hex` runs until it reads a non-hex byte, so `ParseHex` requires one
  to be in the buffer. With no such byte the C loop reads past the end of the
  buffer.
- The printers' loops run `i` from 4 (or 12) down to 0 in steps of 4, and
  `EmitNibbles` follows that loop. `(v >> i) & 0x0f` is written
  `(v / 2^i) % 16`.
- The UART status register and the received byte are parameters of the step.
  `MyUARTSendByte` is an append to `sent`, and its busy-wait is not modelled.
  `print.c` calls `uart_send_byte`, which no header declares; it is taken to
  be this same output sink, and `Print.SendNibbles` sends each printed
  character through `Uart.SendByte`.
- The handler has no bound check on the buffer index. The stores at
  `src/uart.c:104` and `:109` are in bounds only while `uart_rxi < 80`.
  `Uart.Handle` therefore requires that whenever it stores. The index check
  at `src/uart.c:111-113` has an empty body: its `MyUARTBufReset()` call is
  commented out. See Findings.

## Model

| member | source | states |
|---|---|---|
| `Parse.HexDigit` | src/parse.c:15-27 | '0'..'9' give `c - '0'`; 'a'..'f' and 'A'..'F' give 10..15; the result is -1 exactly for the bytes outside those 22, so the bit-5 fold admits nothing else ('G', '@', '`', space and NUL among them) |
| `Parse.HexRunLength` | src/parse.c:32 | the scan length is the maximal leading run of hex digits: every byte before it is a hex digit, and the byte at it (if any) is not |
| `Parse.ScanHex` | src/parse.c:32-35 | the loop from position i with an accumulator that holds the value of the first i digits (mod 2^32) ends with the value of the whole digit run mod 2^32 |
| `Parse.ShiftIn` | src/parse.c:33-34 | one loop step in arithmetic terms: the new low nibble is the digit and the upper 28 bits are the old low 28 bits, so the digit never carries out of the word; the result is (res*16 + d) mod 2^32 |
| `Parse.ParseHex` | src/parse.c:29-37 | with a non-hex byte in the buffer, the result is the big-endian value of the leading hex run mod 2^32; it is that exact value when the value is below 2^31; it is 0 when the first byte is not a hex digit |
| `Parse.NoSignedOverflowIff` | src/parse.c:30-34 | every `res <<= 4` stays below 2^31 (no signed overflow) if and only if the final value is below 2^31 |
| `Parse.HexValueBound` | src/parse.c:32-35 | n hex digits are worth less than 16^n |
| `Parse.ShortPrefixExact` | src/parse.c:30-35 | a digit run of at most 7 digits parses to its exact value |
| `Parse.ParseHexDigitwise` | src/parse.c:32 | two buffers whose bytes have equal digit values position by position parse to the same value |
| `Parse.ParseHexCaseInsensitive` | src/parse.c:21-23 | upper-casing or lower-casing the buffer's letters does not change the parse |
| `Parse.ParseHexIgnoresTail` | src/parse.c:32 | only the bytes up to and including the first non-hex byte matter; any tail after it leaves the result unchanged |
| `Parse.ParseDigitsThenNul` | src/parse.c:29-37 | a digit string followed by NUL parses to its value mod 2^32 |
| `Print.HexChar` | src/print.c:16-20 | the character for a nibble is in '0'..'9' or upper-case 'A'..'F', and its digit value is that nibble |
| `Print.HexCharInverse` | src/print.c:16-20 | every upper-case hex character is the character printed for its own digit value |
| `Print.EmitNibbles` | src/print.c:14-21 | the loop from shift i down to 0 emits (i+4)/4 upper-case characters; the k-th encodes the nibble at shift i-4k |
| `Print.PrintHex8` | src/print.c:12-22 | exactly 2 upper-case hex characters; the first encodes `v >> 4`, the second `v & 0xF` |
| `Print.PrintHex16` | src/print.c:23-33 | exactly 4 upper-case hex characters encoding the nibbles at shifts 12, 8, 4 and 0, in that order |
| `Print.PrintHex16Split` | src/print.c:12-33 | `print_hex16(v)` sends what `print_hex8(v >> 8)` and then `print_hex8(v & 0xFF)` send |
| `Print.SendNibbles` | src/print.c:14-21 | the loop that hands each character to the UART sink (`Uart.SendByte`, src/uart.c:78-82) as it is formed leaves the log extended by exactly the characters `EmitNibbles` describes |
| `Print.SendHex8` | src/print.c:12-22 | `print_hex8(v)` adds exactly the two characters of `PrintHex8(v)` to the UART log and leaves everything sent before unchanged |
| `Print.SendHex16` | src/print.c:23-33 | `print_hex16(v)` adds exactly the four characters of `PrintHex16(v)` to the UART log and leaves everything sent before unchanged |
| `Parse.HexValueAppend` | src/parse.c:32-35 | the value of two digit strings written one after the other is the first's value times 16^(length of the second), plus the second's value |
| `Print.PrintHex8RoundTrip` | src/print.c:12-22 | `parse_hex` of the output of `print_hex8(v)` followed by NUL returns v |
| `Print.PrintHex16RoundTrip` | src/print.c:23-33 | `parse_hex` of the output of `print_hex16(v)` followed by NUL returns v |
| `Print.ParseThenPrintHex8` | src/parse.c:29-37 | two upper-case hex characters, parsed and printed with `print_hex8`, come back unchanged |
| `Uart.Initial` | src/uart.c:15-17 | the globals start as an all-zero buffer, index 0, no flags, nothing sent |
| `Uart.RaiseEol` | src/uart.c:103 | OR-ing in `UART_BUF_FLAG_EOL` sets bit 0 and preserves every other flag bit |
| `Uart.ClearBits` | src/uart.c:118 | writing 0x04 to the clear register drops that bit of the enable mask and keeps the rest |
| `Uart.ReceiveByte` | src/uart.c:99-114 | CR raises EOL, writes 0 at `rxbuf[rxi]`, keeps `rxi`, echoes nothing; a byte > 31 is echoed, stored at `rxbuf[rxi]`, and `rxi` grows by 1 with flags unchanged; any other byte changes nothing; only slot `rxi` can change; the store needs `rxi < 80` |
| `Uart.Handle` | src/uart.c:89-121 | RXRDY takes the receive branch whatever TXRDY says; TXRDY alone clears enable bit 0x04 and leaves buffer, index, flags and output alone |
| `Uart.PrintableInBounds` | src/uart.c:105-110 | printable bytes that fit in the room left keep every store in bounds |
| `Uart.ReceivePrintableCounts` | src/uart.c:105-110 | feeding k printable bytes advances `rxi` by k, echoes them in order and keeps the flags |
| `Uart.ReceivePrintable` | src/uart.c:105-110 | feeding k printable bytes stores them in order from the old index and leaves the slots before it alone |
| `Uart.ReceiveEchoes` | src/uart.c:102-110 | what the handler sends through `MyUARTSendByte` while receiving is exactly the printable input bytes, in input order (CR and other control bytes send nothing), and `rxi` advances by exactly their number, across line ends as well |
| `Uart.ReceiveAppend` | src/uart.c:89-121 | receiving two runs of bytes is receiving the first and then the second |
| `Uart.ReceiveLine` | src/uart.c:102-110 | from index 0, fewer than 80 printable bytes and then CR leave exactly that line, NUL-terminated, in the buffer, with EOL raised and the line echoed |
| `Uart.InBoundsPrefix` | src/uart.c:104-110 | a run stays in bounds only if what follows its printable prefix does, starting from the index that prefix leaves |
| `Uart.FullLineOverflows` | src/uart.c:109-113 | after 80 printable bytes from index 0, `rxi` is 80, so a following CR or printable byte would store past the buffer |
| `Uart.HandleWithReset` | src/uart.c:111-113 | with the disabled reset restored, the step is the handler as written except that the index is taken modulo 80: buffer, echo, flags and enable mask are the handler's, a printable byte at index 79 is stored in slot 79 and the index returns to 0, and the index stays below 80 after every interrupt |
| `Uart.ReceiveWithReset` | src/uart.c:89-121 | with the reset restored, any byte sequence is received with the index in bounds throughout |

## Left out

- `MyUARTInit` (`src/uart.c:29-75`) is register set-up and baud-divisor
  arithmetic for the peripheral; the enable mask it sets is a parameter of `Uart.Initial`.
- `MyUARTSendDrain` (`src/uart.c:84-87`) and the busy-wait in `MyUARTSendByte` only wait on
  hardware status bits. Sending is an atomic append.
- Concurrency between the interrupt handler and a foreground reader is not
  modelled. The handler is a sequential step. `src/uart.c` and
  `src/LPC8xx_Flash_EEPROM.c` never read the finished line or reset
  `uart_rxi`. `MyUARTBufReset` appears only in the comment at
  `src/uart.c:112` and is defined in none of the files modelled here.
  `HandleWithReset` resets only the index.
- `src/iap_driver.c` and `src/iap_driver.h` are calls into boot ROM whose behaviour cannot be seen.
- `src/cr_startup_lpc8xx.c` is the vector table and memory start-up.
- `_write` and `main` in `src/LPC8xx_Flash_EEPROM.c` are a plain send loop and a counter loop.
- The flash page store and the command interpreter are not modelled. `main`
  (`src/LPC8xx_Flash_EEPROM.c:32-46`) calls neither.
- Parse.ShiftIn: `res <<= 4; res |= d` is written as `(res * 16) mod 2^32 + d`. Its
  contract states the shift and OR in arithmetic terms; the equivalence with the
  32-bit operations themselves is not proved with bit-vectors.
- Parse.ParseHex: for a digit run worth 2^31 or more, the shift of the signed
  accumulator is undefined behaviour in C. The "mod 2^32" result is the
  two's-complement wrap that a Cortex-M0 compiler produces, not something C promises.
- Uart.ReceiveWithReset: its contract covers the index bound and the output
  length, not the line contents after a wrap.

## Findings

| source | as written | input that shows it | evidently intended | confidence | as-written member | corrected member |
|---|---|---|---|---|---|---|
| src/uart.c:109-113 | the index check at capacity has an empty body (`MyUARTBufReset()` is commented out), so `uart_rxi` reaches 80 and the next CR or printable byte writes `uart_rxbuf[80]`, one past the end | 80 printable bytes received from index 0, then `'\r'`; equally, several lines whose printable bytes total 80, since a CR never resets the index (`Uart.ReceiveEchoes`) | reset the buffer index when it reaches `UART_BUF_SIZE`, so every store stays inside the 80-byte buffer | high; not executed | `Uart.FullLineOverflows` | `Uart.HandleWithReset` |
