# minigdbstub packet engine in Dafny

This project models the packet engine of `minigdbstub.h`, a single-header
GDB stub. GDB talks to the stub over the Remote Serial Protocol (RSP). The
GDB manual's Remote Serial Protocol appendix, section "Overview", defines
the framing: a packet is `$`, the packet data, `#`, and a checksum written as
two hex digits. The checksum is the sum of the data bytes modulo 256. The
receiver answers `+` to acknowledge a packet and `-` to ask for it again.

The model covers:

- `DynCharBuffer`, the growable byte buffer (`DynBuffer`). It is a class
  whose `buffer`, `used` and `size` fields change in place.
- `minigdbstubComputeChecksum` (`PacketChecksum`). It is a loop proved
  against a recursive sum.
- `minigdbstubRecv` (`Receive`). The receive loop is an imperative method
  proved against a functional specification, `Scan`/`Body`/`Check`. That
  specification states what one receive does to the input from a given
  position: the command byte returned, the retransmissions requested, and
  where reading stops.
- `minigdbstubProcess` (`Dispatch`). The dispatch loop is proved against
  `Serve`, the session it produces.
- The host transport (`Transport.Link`). It is a finite input read through
  a cursor, which stands for `minigdbstubUsrGetchar`. It also keeps a log
  with one entry per call to `minigdbstubSend`.
- `ACK_PACKET` and `RESEND_PACKET`, as byte sequences.

`ReceiveFacts` proves properties of the receive specification:

- noise before `$` is skipped;
- a correct packet is accepted, whatever the case of its checksum digits;
- a wrong checksum costs exactly one retransmission request;
- whatever is accepted is a well-formed frame whose checksum matched
  (soundness).

`Dispatch` proves properties of a session:

- it returns to the host exactly after a continue or step request;
- every accepted command is acknowledged once.

`ReceiveExamples` and `DispatchExamples` work the repository's test
packets and a few further scenarios through the specification.

## Model

| member | source | states |
|---|---|---|
| DynBuffer.DynCharBuffer.constructor | minigdbstub.h:15-20 | a fresh, empty buffer (`used` 0) whose capacity is `startSize` |
| DynBuffer.DynCharBuffer.Insert | minigdbstub.h:21-29 | the byte is appended at index `old(used)` and the earlier bytes are unchanged; `used` grows by one and stays `<= size`; the capacity is unchanged when there was room, otherwise it doubles (see Findings for capacity 0) |
| DynBuffer.DynCharBuffer.Free | minigdbstub.h:30-34 | afterwards `used == size == 0` and the buffer holds nothing |
| DynBuffer.NewCapacity | minigdbstub.h:23-25 | the capacity before the write always has room for it and never shrinks; it is unchanged when there was room, and equals the source's doubling whenever the capacity is positive |
| DynBuffer.GrownSize | minigdbstub.h:23-24 | the capacity as written before the write: it never shrinks, and it has room for the write exactly when the buffer was not full or its capacity was positive |
| DynBuffer.ZeroCapacityOverflows | minigdbstub.h:23-28 | as written, a full buffer of capacity 0 doubles to 0, so index 0 is past the end |
| PacketChecksum.ComputeChecksum | minigdbstub.h:47-53 | the returned value is the sum of the first `len` bytes modulo 256 (the `unsigned char` accumulator wraps) |
| PacketChecksum.SumAppend | minigdbstub.h:49-51 | the byte sum splits over concatenation |
| PacketChecksum.ChecksumAppend | minigdbstub.h:47-53 | the checksum of `a + b` is the wrapped sum of the checksums of `a` and `b` |
| PacketChecksum.SumStep | minigdbstub.h:49-51 | each loop step adds the next byte's value to the sum |
| Hex.DigitValue | minigdbstub.h:96 | a hex digit in either case has a value below 16, and below 10 exactly for decimal digits |
| Hex.HexRunLength | minigdbstub.h:96 | the length of the leading run of hex digits: every byte in it is a digit, and the byte after it is not |
| Hex.HexPrefixValue | minigdbstub.h:96 | `strtol(..., 16)` on the checksum field: the value of the leading run of hex digits, 0 when there is none, and below 16 to the power of the run's length |
| Hex.PairValue | minigdbstub.h:96 | two characters read in base 16 give a value below 256: two digits give `16*d1 + d2`, one digit gives its value, and a leading non-digit gives 0 |
| Hex.HexByteRoundTrip | minigdbstub.h:96 | a byte written as two lower-case or two upper-case hex digits reads back as that byte |
| Hex.HexPrefixStops | minigdbstub.h:89-96 | the terminator written after the digits, or any non-digit, does not change the value read |
| Hex.HexPrefixCaseInsensitive | minigdbstub.h:96 | folding letters to lower case does not change the value read |
| Transport.Link.GetChar | minigdbstub.h:57 | returns the next input byte and advances the cursor by one, or returns `None` once the input is exhausted |
| Transport.Link.Send | minigdbstub.h:59-61 | the log gains exactly the argument and nothing else changes |
| Receive.Scan | minigdbstub.h:69-78 | one receive from position `i`: it stays within the input; an accepted packet spans at least `$`, `#` and two digits; a receive that accepts nothing has read the whole input |
| Receive.Body | minigdbstub.h:81-93 | collecting data up to `#`: the same bounds as `Scan`, measured from the current position |
| Receive.Check | minigdbstub.h:95-110 | after `#` at `h`, reading stops beyond `h`, and an accepted packet ends at `h + 3` or later |
| Receive.RecvLog | minigdbstub.h:98-110 | the replies to one receive: one `RESEND_PACKET` per rejected packet, then one `ACK_PACKET` if a packet was accepted |
| Receive.AwaitPacketStart | minigdbstub.h:73-78 | the bytes before the next `$` are consumed without effect on the outcome; if there is no `$`, the input is exhausted and the receive yields nothing |
| Receive.ReadPacketData | minigdbstub.h:81-93 | the buffer holds the data up to the first `#`, then `#`, the two checksum bytes and a terminator; the checksum offset is one past the `#`; the data holds no `#`; an incomplete read ends at the end of the input |
| Receive.ReadChecksumField | minigdbstub.h:86-89 | the two bytes after `#` and a terminator are appended, or the input runs out first |
| Receive.ChecksumMatches | minigdbstub.h:96-98 | the result is true exactly when the base-16 value of the field at the checksum offset equals the checksum of the `checksumOffset - 1` data bytes |
| Receive.PacketChecksumAgrees | minigdbstub.h:96-97 | in such a buffer, the first byte is the first data byte, the field value is that of the two wire bytes after `#`, and the bytes before `#` are the packet data |
| Receive.CheckOutcome | minigdbstub.h:98-110 | with both checksum bytes present: a match accepts the first data byte and stops after the field; a mismatch adds one retransmission and rescans after the field |
| Receive.BodyUpTo | minigdbstub.h:81-93 | with no `#` before `h`, collecting data reaches `h`: a `#` there is checked, and the end of the input yields nothing |
| Receive.ReceiveAttempt | minigdbstub.h:69-102 | one pass of the outer loop ends in one of three ways, each tied to `Scan`: input exhausted (nothing accepted), bad checksum (one retransmission, then what `Scan` does from the new position), or good checksum (buffer byte 0 accepted, nothing rescanned) |
| Receive.ReadPacket | minigdbstub.h:80-98 | the same three ways as `ReceiveAttempt`, tied to `Body` from just after the `$` |
| Receive.Recv | minigdbstub.h:63-112 | the returned command, the new cursor and the replies sent are those of `Scan` from the old cursor: one resend per rejected packet, then the ACK and the first data byte of the accepted one |
| ReceiveFacts.ScanSkipsNoise | minigdbstub.h:73-78 | resynchronisation: bytes other than `$` are discarded without effect |
| ReceiveFacts.AcceptsFrame | minigdbstub.h:95-110 | a frame whose checksum field matches yields the byte after `$` with no resend, and reading stops after the field |
| ReceiveFacts.RejectsFrame | minigdbstub.h:98-101 | a frame whose field does not match costs exactly one resend, and scanning restarts after the field |
| ReceiveFacts.AcceptsDigitsAt | minigdbstub.h:81-110 | a packet at `d` whose digits carry its checksum is accepted; the command is its first data byte, or `#` for empty data |
| ReceiveFacts.RejectsDigitsAt | minigdbstub.h:81-101 | a packet at `d` whose digits do not carry its checksum costs one resend, and reading resumes after the digits |
| ReceiveFacts.AcceptsPacketAt | minigdbstub.h:81-110 | a correctly framed packet at `d` is accepted with no resend |
| ReceiveFacts.AcceptsPacket | minigdbstub.h:69-110 | any correctly framed packet after `$`-free noise is accepted with no resend and ends the receive just after it |
| ReceiveFacts.AcceptsUpperCaseChecksum | minigdbstub.h:96 | checksum digits written in upper case are accepted too |
| ReceiveFacts.RetransmissionRecovers | minigdbstub.h:98-110 | a corrupted packet followed by its correct resend yields the command after exactly one resend request |
| ReceiveFacts.ScanSound | minigdbstub.h:69-110 | soundness: whatever is accepted comes from a `$ … # xx` frame at or after the start, whose data has no `#` and whose field value equals the data's checksum; the command is the byte after its `$` |
| ReceiveFacts.BodySound | minigdbstub.h:81-110 | the same soundness, for collection in progress |
| ReceiveFacts.CheckSound | minigdbstub.h:95-110 | the same soundness, from the `#` |
| ReceiveExamples.BasicRecv | tests/test_basic.cpp:7-16 | "$g#67" yields 'g' |
| ReceiveExamples.LeadingAckIgnored | tests/test_recv.cpp:15-39 | "+$g#67" yields 'g': the leading `+` is skipped |
| ReceiveExamples.LeadingAckThenG | tests/test_recv.cpp:15-39 | "+$G#47" yields 'G' |
| ReceiveExamples.LeadingAckThenC | tests/test_recv.cpp:15-39 | "+$c#63" yields 'c' |
| ReceiveExamples.LongPacket | tests/test_recv.cpp:15-39 | "+$Ga700467f#46" yields 'G' |
| ReceiveExamples.EmptyPacket | minigdbstub.h:96-104 | "$#00" is accepted (the checksum of no bytes is 0) and its command is `#` |
| ReceiveExamples.ResendThenAccept | minigdbstub.h:98-110 | "$g#00$g#67": one resend, then 'g' |
| Dispatch.Classify | minigdbstub.h:121-158 | a command ends the loop exactly when it is 'c' or 's'; it is unsupported exactly when it is none of the eleven handled characters |
| Dispatch.Serve | minigdbstub.h:115-160 | a session never reads beyond the input |
| Dispatch.Process | minigdbstub.h:115-160 | the commands received (a ghost result), the replies sent, where reading stops and whether the loop returned to the host are those of `Serve` from the old cursor |
| Dispatch.Round | minigdbstub.h:117-158 | one pass of the loop body: the replies sent are appended to the log; the session from the old cursor stops here when the input ran out (not resumed) or the command was 'c'/'s' (resumed), and otherwise equals this command followed by the session from the new cursor, which has advanced |
| Dispatch.AfterRound | minigdbstub.h:117-158 | one round of the loop: the session stops when the input runs out or after 'c'/'s', and otherwise continues from where the packet ended, having acknowledged it |
| Dispatch.ServeResumes | minigdbstub.h:143-148 | the loop returns to the host exactly when the last command received is 'c' or 's' |
| Dispatch.ServeNoEarlierEnd | minigdbstub.h:121-157 | no command before the last one is 'c' or 's': every other command loops back to receive |
| Dispatch.ServeExhausts | minigdbstub.h:117-119 | a session that did not return to the host has read the whole input |
| Dispatch.RecvAcks | minigdbstub.h:100-108 | one receive sends exactly one ACK when it accepts a packet and none otherwise |
| Dispatch.AcksAppend | minigdbstub.h:100-108 | ACKs in a concatenation of reply logs add up |
| Dispatch.ServeAcks | minigdbstub.h:108-119 | every command of a session is acknowledged exactly once |
| DispatchExamples.ReadThenContinue | minigdbstub.h:115-160 | "$g#67$c#63": both packets are acknowledged, 'g' loops and 'c' returns to the host |
| DispatchExamples.ReadThenInputEnds | minigdbstub.h:115-160 | "$g#67" alone: 'g' is acknowledged and the input runs out without a return to the host |

## Left out

- `minigdbstubUsrGetchar` and `minigdbstubUsrPutchar` are host I/O. The model replaces them with a finite input read through a cursor. `minigdbstubUsrPutchar` is never called by the core.
- Receive.Recv: when the input runs out, the model returns `None`. The C loops wait forever for more bytes, and a model over a finite input cannot do that.
- Dispatch.Process: the same holds when the input runs out before a continue or step request. The result `false` stands for "still waiting for input".
- Dispatch.Process: the `registersRaw`, `registersLen` and `signalNum` parameters are left out. The loop never reads them.
- Transport.Link.Send: `minigdbstubSend` has an empty body in the header. The model records each argument in a log and does not claim that any byte reaches the wire.
- The register, memory, file-I/O and halt-reason handlers are `TODO` placeholders. The model keeps their dispatch (`Classify`) and gives them no effect.
- The repository's tests are written against an API that is not part of this model, such as `mgdbProcObj`, `gdbPacket`, `MGDB_PKT_SIZE`, an error-returning `initDynCharBuffer`, a two-argument `minigdbstubRecv` and `minigdbstubSendRegs`. The mock `minigdbstubUsrGetchar` in `tests/test_common.hpp` never advances its index. From `tests/test_recv.cpp` the model takes only the packets (line 15) and the expected command `packet[2]` (line 39); from `tests/test_basic.cpp` it takes the packet "$g#67" and the expected 'g'. Their harness is not modelled.
- Hex.HexPrefixValue: `strtol` corner cases are not modelled, namely leading whitespace, a sign and a `0x` prefix. The checksum field is read as the value of its longest leading run of hex digits. With the two characters after `#`, they differ only for leading whitespace (any `isspace` character) or a sign.
- `ALLOC_ASSERT` only prints a message when `malloc`/`realloc` fails. The model takes allocation to succeed.
- Memory addresses are not modelled. After a free, the buffer is an empty allocation rather than `NULL`.
- PacketChecksum.ComputeChecksum: the loop index is an unbounded natural, while the C loop uses a signed `int` `i`. A length above `INT_MAX` would overflow it, which is undefined behaviour in C.
- Receive.ReadPacketData: `currentOffset` and `checksumOffset` are unbounded naturals, while the C code declares them signed `int`. A packet with more than `INT_MAX` data bytes would overflow them, which is undefined behaviour in C.
- DynBuffer.DynCharBuffer.Insert: `size_t` overflow of the doubled capacity is not modelled. Sizes are unbounded naturals.
- PacketChecksum.ComputeChecksum: bytes are unsigned values 0-255, while the C `char` may be signed. The sum modulo 256 and the comparisons with `$` and `#` are the same either way.
- A receive that gives up partway through because the input ran out leaves the buffer allocated in the model. The C code never gets there.

## Findings

| source | as written | input that shows it | evidently intended | confidence | as-written member | corrected member |
|---|---|---|---|---|---|---|
| minigdbstub.h:23-28 | when `used == size` the capacity becomes `size * 2`, then `buffer[used]` is written | a buffer initialised with `startSize` 0 (or freed), then one insert: the capacity stays 0 and index 0 is written past the allocation | grow to a capacity with room for the byte | high, not executed | DynBuffer.GrownSize, DynBuffer.ZeroCapacityOverflows | DynBuffer.NewCapacity, DynBuffer.DynCharBuffer.Insert |
