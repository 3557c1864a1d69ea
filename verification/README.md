# NodeFlight: models and proofs

NodeFlight is firmware for embedded control systems, written in C. This project models its most intricate parts
and proves what they promise, for all inputs and all runs.

| Component | Modules | C files |
|-|-|-|
| CRC loops | `ShiftRegister`, `Polynomials`, `Residues`, `Crc`, `CrcDistance`, `SdCard` | `lib/crc.c`, the CRC parts of `module/mgmt/sdcard.c` |
| Byte stuffing | `Hdlc` | `lib/hdlc.c` |
| Receive ring | `UartRx` | receive half of `platform/stm32/peripheral/uart.c` |
| NFCP link | `NfcpLink`, `LinkErrors` | `nfcp_tx_packet` and `nfcp_rx_packet` of `module/nfcp/nfcp.c` |
| NFCP session | `Ticks`, `NfcpSession` | the rest of `module/nfcp/nfcp.c`, `module/nfcp/nfcp_cls_mgmt.c` |
| Schedulers | `Scheduler`, `SchedulerRaces`, `SchedulerPeriod` | `core/scheduler.c` |
| String map | `Strops`, `StringMap` | `lib/map.c`, comparison and integers of `lib/strops.c` |
| Linker | `Linking`, `LinkOrder`, `Variables` | `core/variable.c` |
| Tokeniser | `Tokens` | `strops_split_argv` of `lib/strops.c` |
| F.Port | `Radix`, `FPort` | `module/rc_io/fport.c` |

The C functions that work step by step on buffers, rings and linked lists are methods on arrays and classes. Each is
proved against a function that says what it computes, and the laws are lemmas about those functions, or invariants
that every method keeps.

* **CRC.** `ShiftRegister` is the theory of a bit-serial register of any width: linear in state and input, injective
  when the lowest coefficient of the generator is set, parity-keeping when the generator has an odd number of
  coefficients. `Polynomials` shows that the register holds the remainder of a long division over GF(2), and that
  no other word is that remainder. `Crc` shows that the bit loops of `crc16` and `sdcard_crc7` are such registers.
  Burst detection, odd-error detection and the equivalence of the receiver's check with residue zero follow for
  messages of every length. `CrcDistance` finds the order of x modulo the CCITT generator, 32767, by multiplying
  residues (`Residues`), and with it exactly which pairs of flipped bits cancel: no error of one, two or three bits is
  accepted in up to 4095 bytes.
* **Link.** Stuffing and unstuffing are inverse to each other although both work inside one buffer. The receive ring
  is a queue for every interleaving of interrupt and reader. `NfcpLink.ReceivePackets` composes all of it: behind
  anything that ended in a boundary, whatever pieces the driver returns and whichever calls fail, what the receiver
  returns up to the first call that is interrupted in the middle of a frame is what was sent, in order and once each;
  and packets that wait in the ring are returned, one by each call that has time.
  `LinkErrors` carries the error detection from the check bytes to the bytes on the wire, for errors that leave escape
  and boundary bytes where they are, and to streams in which any of the frames are damaged so: the packets of the
  others are returned, in order and once each. One flipped bit that makes a boundary can deliver a packet that was
  never sent.
* **Session.** `NfcpSession.Nfcp` has as its invariant a property of everything ever sent. Between any two
  version-carrying responses the peer has been sent an abort, and a response is empty exactly when it repeats the id
  of the session in progress. The time comparisons are related to unbounded time, exactly. The task is proved to send,
  pass by pass, exactly what the packets taken off the ring and the session's expiry ask for.
* **Schedulers.** `Scheduler` proves the linked pools and the list of schedulers as the code runs under its mutex.
  `SchedulerRaces` lets the scheduler's task read the same pools without the mutex, one access at a time, and shows
  for every interleaving, in terms of the log of what was called, that each trigger runs exactly the clients that were
  initialised when it read their number, and that it comes to an end; and that a call of `sc_init_clients` comes to its
  end with every client initialised that is registered by then. `SchedulerPeriod` treats the period, which is
  tested and written without the mutex: exactly when all clients get the same one, and what callers must agree on.
* **Linker.** `Linking` says what any run of registrations and requests does, failed calls included: what each source
  holds, which calls return 0, which pointers are set to what, and when `vr_connect` can be believed. `LinkOrder` says
  exactly when the order of the calls does not matter. `Variables` proves the linked lists of the C code against them,
  and that no list node is lost or in two lists.
* **F.Port.** Sixteen 11-bit channels are a change of base from 256 to 2048. The sixteen shift-and-or expressions
  are proved to read its digits.

## What is assumed

* Memory accesses take effect one by one and in program order. Mutexes are taken and released as asked, memory
  allocation and task creation succeed, and `init`, `run` and the capability class do not call back into the code that
  is modelled here.
* The theorems about the receive ring are about readers that keep up. The interrupt handler does not check for room:
  `UartRx.Ring.RxIrq` says that a byte that does not fit loses everything in the ring.
* Packets have at most 127 bytes where a buffer of 259 bytes must hold their frame (`NfcpLink.FrameFits`); longer ones
  need the precondition that the frame fits.
* `vr_request` is called with a type other than the null type, and with a negative index only while its source is not
  registered; otherwise `vr_reloc_exec` reads outside the source's tables. Where a property compares calls in different
  orders, such an index counts as one that does not fit. `vr_register` is given as many variables as types.
* The numbers that `strops_word_to_int` reads fit an `int32_t`. `Strops.ReadInt` shows that this is enough: no value on
  the way leaves the range then.

## Where the code differs from its documentation

The model follows the code in each of these.

* `docs/nfcp.md:200` closes a session after 3 seconds; the code uses 5000 ticks.
* `docs/nfcp.md:202` lets a SESSION_ID request with id 0 close the session; the code ignores such a request, and
  neither closes nor refreshes the session (`NfcpSession.Nfcp.OpSessionId`).
* `docs/nfcp.md:137-139` puts the sequence number before the operation; the code puts the operation first.
* `docs/nfcp.md:190` has the device send an abort before every version response; the code sends it only if another
  session is open. That is enough for the property the abort is there for (`NfcpSession.VersionsSeparated`), because
  every closed session has been aborted, the first one by the reset at start.
* `docs/nfcp.md:197` says that an abort makes the receiver drop what it has so far. It does, unless that ends in an odd
  run of escape bytes and what is before the last of them, closed by the byte 0x5d, has the right check bytes
  (`NfcpLink.AbortRefuses`); then the abort delivers it (`NfcpLink.AbortDelivers`).
* `lib/hdlc.h:34` rules out boundaries inside a frame; an escaped one is accepted (`Hdlc.EscapedBoundaryAccepted`).
* `core/variable.c:150` says that a registered source has no request left. It has none exactly if all its waiting
  requests but the oldest fit (`Linking.DrainLeavesNothingIff`), whatever other calls fail. So `vr_connect` can report
  success although requests were not carried out; `Linking.AllHonouredIff` says exactly when it means that all were.
* `core/variable.c:41` keeps 16 bits of an index while a request waits. `LinkOrder.OrderIrrelevantIff` says when that
  makes the order of the calls matter, `LinkOrder.WideIndexBreaksOrder` is a case where it does.
* `core/scheduler.c:117` takes a slot without an `init` function for free. A client registered without one is
  overwritten by the next and never run (`Added` in `Scheduler.Sched.RegisterClient`).
* `core/scheduler.c:224-227` tests the period and then writes it, without a mutex. Two overlapping calls can both
  succeed, and the later write can come between two init calls (`SchedulerPeriod.OverlapSplitsPeriods`).
* `module/rc_io/fport.c:224` expects overlong data to fail the checksum. Data that fills the buffer a whole number of
  times is forgotten, and the frame behind it is accepted (`FPort.OverlongForgotten`, `FPort.OverlongAccepted`).
* `module/rc_io/fport.c:45-47` gives channel 17 the bit of the frame-lost flag (`FPort.Channel17IsSignalLoss`).
* `strops_split_argv` stops at a newline, but not at one that directly follows an unquoted argument
  (`Tokens.PrintedLine` says exactly when).

## Model

| member | source | states |
|---|---|---|
| ShiftRegister.RunLinear | src/lib/crc.c:30-40 | the bit steps are linear: xor of registers and of inputs gives xor of results |
| ShiftRegister.RunConcat | src/lib/crc.c:30-40 | feeding two inputs one after the other is feeding their concatenation |
| ShiftRegister.PreloadedInput | src/lib/crc.c:31-39 | adding input at the top of the register and clocking in zeros equals feeding it bit by bit |
| ShiftRegister.ShortInputLeavesTrace | src/lib/crc.c:32-39 | up to a register's width of input that is not all zero never leaves a clear register clear, if the generator's lowest coefficient is set |
| ShiftRegister.ClearedExactlyByOwnContents | src/lib/crc.c:32-39 | of all words of the register's width, exactly its own contents clears it |
| ShiftRegister.BurstLeavesTrace | src/lib/crc.c:30-40 | an error confined to a register's width of consecutive bits, anywhere in an input of any length, leaves a trace |
| ShiftRegister.RunParity | src/lib/crc.c:30-40 | a generator with an odd number of low coefficients carries the parity of the input |
| Polynomials.RunDivides | src/lib/crc.c:27-41 | the dividend is quotient times generator plus register, over GF(2), for every input |
| Polynomials.RemainderUnique | src/lib/crc.c:27-41 | a dividend has only one remainder below the generator's degree |
| Polynomials.RegisterIsRemainder | src/lib/crc.c:27-41 | the register is that remainder, and no other word is |
| Crc.Crc16Loop | src/lib/crc.c:21-42 | the two nested loops compute Crc16 of the buffer, for every initial value and polynomial |
| Crc.FeedByteIsRun | src/lib/crc.c:31-39 | one pass of the outer loop feeds the eight bits of a byte |
| Crc.Crc16IsRun | src/lib/crc.c:30-40 | crc16 is a 16-bit register clocked once for every message bit, most significant first |
| Crc.Crc16IsRemainder | src/lib/crc.c:27-41 | a word is the remainder of iv * x^(8n) + M * x^16 modulo x^16 + poly exactly if crc16 returns it |
| Crc.Crc16Linear | src/lib/crc.c:27-41 | crc16 is linear in initial value and message together |
| Crc.Crc16Concat | src/lib/crc.c:27-41 | the CRC of a concatenation is the CRC of the second part started from that of the first |
| Crc.DocVector | docs/nfcp.md:88-93 | the worked example of the protocol description |
| Crc.AcceptedIffResidueZero | src/module/nfcp/nfcp.c:209-213 | the receiver's comparison of the check bytes is the same as residue zero over payload and check bytes |
| Crc.AppendedCheckAccepted | src/module/nfcp/nfcp.c:141-143 | what the sender appends is accepted |
| Crc.UndetectedErrors | src/module/nfcp/nfcp.c:209-213 | an error passes exactly when it has residue zero itself |
| Crc.BurstRejected | src/module/nfcp/nfcp.c:209-213 | every non-zero error within 16 consecutive bits, not byte aligned, is rejected at every message length |
| Crc.Crc16Parity | src/lib/crc.c:30-40 | the parity of the CRC is that of initial value and message, for generators with an odd number of coefficients |
| Crc.OddErrorRejected | src/module/nfcp/nfcp.c:209-213 | every error that flips an odd number of bits is rejected |
| Residues.PowerSum | src/lib/crc.c:32-39 | clocked powers of x multiply as powers do, modulo any generator |
| CrcDistance.OrderIff | src/lib/crc.c:32-39 | k clocks with the CCITT generator bring a register that holds one back to one exactly if k is a multiple of 32767 |
| CrcDistance.DoubleErrorUndetectedIff | src/module/nfcp/nfcp.c:209-213 | an error of two bits passes exactly if they are a multiple of 32767 bits apart |
| CrcDistance.FewFlipsRejected | src/module/nfcp/nfcp.c:209-213 | one, two or three flipped bits in up to 4095 bytes are rejected |
| Crc.BitLoop7 | src/module/mgmt/sdcard.c:277-282 | the inner loop of the 7-bit CRC makes eight bit steps |
| Crc.Crc7Loop | src/module/mgmt/sdcard.c:268-286 | the loops compute Crc7 of the buffer |
| Crc.Crc7StateIsCrc16 | src/module/mgmt/sdcard.c:272-283 | the loop variable stays below 0x100 with a clear low bit, and is the upper half of crc16 with polynomial 0x1200 |
| Crc.Crc7IsRemainder | src/module/mgmt/sdcard.c:268-286 | the result ends in a one, and its top seven bits and no others are the remainder of M * x^7 modulo x^7 + x^3 + 1 |
| SdCard.ReceiveBlock | src/module/mgmt/sdcard.c:397-408 | the destination gets the data whatever the check says; success exactly if data and check bytes are accepted |
| SdCard.DamagedBlockRefused | src/module/mgmt/sdcard.c:400-403 | a block damaged within 16 consecutive bits, in an odd number of bits, or in one to three bits is refused |
| Hdlc.FrameUnstuff | src/lib/hdlc.c:21-52 | the buffer's first r bytes become the unstuffed frame, or -1 is returned; bytes behind the frame stay |
| Hdlc.UnstuffInPlace | src/lib/hdlc.c:33-51 | the loop, whose write index never passes its read index |
| Hdlc.FrameStuff | src/lib/hdlc.c:54-94 | the buffer holds exactly the stuffed frame afterwards, bytes behind it stay |
| Hdlc.StuffFromEnd | src/lib/hdlc.c:76-91 | writing backwards from the end never overwrites a byte that is still to be read |
| Hdlc.UnstuffStuff | src/lib/hdlc.c:33-93 | unstuffing a stuffed payload gives back the payload, whatever it was |
| Hdlc.StuffAlphabet | src/lib/hdlc.c:61-93 | the boundary occurs exactly as last byte, 0x17 and 0x19 never; the length is between n + 1 and 2n + 1 |
| Hdlc.StuffOneByte | src/lib/hdlc.c:61-93 | byte by byte: 0x7d, 0x7e, 0x17 and 0x19 are escaped, every other byte stands for itself, the boundary comes last |
| Hdlc.RefusedIffMalformed | src/lib/hdlc.c:33-51 | -1 exactly if a boundary stands where no escape byte covers it, or the frame ends inside an escape |
| Hdlc.RefusedIffDangling | src/lib/hdlc.c:38-42 | a frame cut at its boundary is refused exactly if an odd run of 0x7d precedes the boundary |
| Hdlc.EscapedBoundaryAccepted | src/lib/hdlc.c:38-45 | an escaped boundary inside a frame is taken as data |
| UartRx.Ring.RxIrq | src/platform/stm32/peripheral/uart.c:388-409 | the byte is appended to the queue, or everything is lost if there is no room; the wakeup decision in terms of what the ring holds |
| UartRx.Ring.Take | src/platform/stm32/peripheral/uart.c:359-361 | the oldest byte is removed, with interrupts between the accesses |
| UartRx.Ring.ReadLoop | src/platform/stm32/peripheral/uart.c:357-365 | the loop appends to the delivered bytes exactly what it stores |
| UartRx.Ring.RxRead | src/platform/stm32/peripheral/uart.c:340-367 | reads deliver consecutive received bytes; a delimiter can only be the last byte; a read that is neither full nor delimited leaves nothing behind that was there before; afterwards the interrupt handler wakes up the task that read |
| UartRx.Ring.DeliveredFirst | src/platform/stm32/peripheral/uart.c:340-409 | what was delivered is always a prefix of what was received |
| Ticks.SignedDiffTrue | src/module/nfcp/nfcp.c:193-195 | the signed difference of two counter values is the true difference while that is below half the range |
| NfcpLink.TxPacket | src/module/nfcp/nfcp.c:136-152 | the buffer holds the frame of the packet and its CRC |
| NfcpLink.DecodeFrame | src/module/nfcp/nfcp.c:136-216 | the receiver decodes a sent frame to the packet |
| NfcpLink.DocFrame | docs/nfcp.md:112-117 | the worked example of the protocol description, check bytes and framing included |
| NfcpLink.FrameFits | src/module/nfcp/nfcp.h:28-30 | frames of packets of up to 127 bytes fit the buffer |
| NfcpLink.ReadPiece | src/module/nfcp/nfcp.c:189-200 | the loop ends with a piece cut at the first boundary or by the buffer's size, or at the first reading of the clock at or after the deadline; it reads once for each reading before that, and leaves without a piece only after all that was there at its last read |
| NfcpLink.DecodePiece | src/module/nfcp/nfcp.c:201-215 | the piece is decoded in place, or refused |
| NfcpLink.RxPacket | src/module/nfcp/nfcp.c:183-216 | each outcome of the call, in terms of the consumed bytes and of the clock; a closed piece that stands first in the ring is what a call takes whose first reading comes before its deadline |
| NfcpLink.CutsAreFrames | src/module/nfcp/nfcp.c:192-200 | however a stream of frames arrives, the pieces cut off it are those frames |
| NfcpLink.WholeDelivery | src/module/nfcp/nfcp.c:136-216 | calls that are not interrupted in the middle of a frame return what the frames decode to, in order and once each, and all of it once all was read |
| NfcpLink.LastIsWhole | src/module/nfcp/nfcp.c:192-200 | once all that was sent has been read, the last call was not interrupted |
| NfcpLink.Listen | src/module/nfcp/nfcp.c:237-246 | one call after the other, whatever becomes of each: every call consumed a piece with its boundary last, and returned its decoding if it is a cut and nothing otherwise; a call that has time cuts a piece off or has then read all that was waiting |
| NfcpLink.ReceiveFrames | src/module/nfcp/nfcp.c:183-246 | end to end over the ring, for any closed frames behind anything that ends in a boundary: what they decode to is returned in order and once each up to the first interrupted call, and all of it once all was read; frames that wait in the ring at the start are all returned by as many calls that have time as there are frames and bytes before them |
| NfcpLink.ReceivePackets | src/module/nfcp/nfcp.c:136-246 | in particular, packets that were sent are returned, in order and once each; n packets that wait in the ring are returned by the first n calls that have time, whatever stands behind them |
| NfcpLink.WaitingFrames | src/module/nfcp/nfcp.c:183-246 | frames that wait behind what k calls have read are taken one by each of the next calls that have time, and returned as what they decode to |
| NfcpLink.BoundaryEndsPiece | src/module/nfcp/nfcp.c:192-201 | after any consumed boundary the receiver is between two pieces, whatever garbage or timeouts came before |
| NfcpLink.Resynchronisation | src/module/nfcp/nfcp.c:192-246 | for any run of calls, refused and timed-out ones included: from the boundary that ends whatever came before, the calls return what the frames that follow decode to, and all of it once all was read |
| NfcpLink.AbortRefuses | src/module/nfcp/nfcp.c:154-216 | the abort sequence makes the receiver drop a partial packet, except exactly if an odd run of escape bytes ends it and it has the right check bytes when closed by 0x5d |
| NfcpLink.AbortDelivers | src/module/nfcp/nfcp.c:154-216 | a partial packet that the abort delivers |
| LinkErrors.DamagedFrame | src/module/nfcp/nfcp.c:201-213 | unstuffing a frame damaged on the wire gives packet and check bytes with the thinned error |
| LinkErrors.UndetectedOnLink | src/module/nfcp/nfcp.c:201-213 | of the errors that leave boundaries, and escapes that unstuffing reads as such, where they are, exactly those whose thinned form has residue zero go unnoticed |
| LinkErrors.BurstRefused | src/module/nfcp/nfcp.c:201-213 | of these errors, none within 16 consecutive bits on the wire is accepted |
| LinkErrors.OddErrorRefused | src/module/nfcp/nfcp.c:201-213 | nor one that flips an odd number of bits on the wire |
| LinkErrors.DoubleErrorRefused | src/module/nfcp/nfcp.c:201-213 | nor one of two bits less than 32767 bits apart on the wire |
| LinkErrors.FewFlipsRefused | src/module/nfcp/nfcp.c:201-213 | nor one of one to three bits in a frame of up to 4095 bytes |
| LinkErrors.WireDecodes | src/module/nfcp/nfcp.c:192-216 | a stream in which any of the frames are damaged in these ways decodes to the packets of the others |
| LinkErrors.ReceiveUndamaged | src/module/nfcp/nfcp.c:183-246 | over the ring: the packets of the undamaged frames are returned, in order and once each, and nothing for the damaged ones; frames that wait in the ring at the start are all answered so by calls that have time |
| LinkErrors.FlippedIntoBoundary | src/module/nfcp/nfcp.c:192-213 | a flipped bit that makes a boundary can deliver a packet that was never sent |
| NfcpSession.LatestPosition | src/module/nfcp/nfcp_cls_mgmt.c:152-192 | where in what was sent the session in progress was opened, or that every session has been aborted |
| NfcpSession.VersionsSeparated | src/module/nfcp/nfcp_cls_mgmt.c:157-189 | between any two version-carrying responses of a run an abort was sent |
| NfcpSession.EmptyIffRefresh | src/module/nfcp/nfcp_cls_mgmt.c:157-189 | a response is empty exactly if it repeats the id opened last with no abort since |
| NfcpSession.OpenedOnce | src/module/nfcp/nfcp_cls_mgmt.c:157-168 | at any point at most one session is in progress |
| NfcpSession.PeerSees | src/module/nfcp/nfcp.c:136-163 | the peer's cuts of the wire are the pieces sent, and decode to what they mean; an abort decodes to nothing |
| NfcpSession.ExpiryExact | src/module/nfcp/nfcp.c:241-243 | the wrapping comparison agrees with unbounded time before the end and in every other half range after it, and nowhere else |
| NfcpSession.Nfcp.Reset | src/module/nfcp/nfcp.c:315-328 | no session, an abort on the wire, the full timeout ahead; establishes the invariant |
| NfcpSession.Nfcp.RefreshSession | src/module/nfcp/nfcp.c:330-334 | the end time is 5000 ticks after now, modulo 2^32 |
| NfcpSession.Nfcp.TxAbort | src/module/nfcp/nfcp.c:154-163 | the abort sequence is written |
| NfcpSession.Nfcp.TimedOut | src/module/nfcp/nfcp.c:241 | the wrapping test says late exactly from 5000 ticks after the last refresh on, while the check comes in time |
| NfcpSession.Nfcp.CheckTimeout | src/module/nfcp/nfcp.c:240-243 | no session survives a check made 5000 ticks after its last refresh, none is closed earlier |
| NfcpSession.Nfcp.FillResponse | src/module/nfcp/nfcp_cls_mgmt.c:176-186 | the bytes of a response |
| NfcpSession.Nfcp.AcceptSession | src/module/nfcp/nfcp_cls_mgmt.c:157-192 | what is sent for a request with a usable id, and that the invariant is kept |
| NfcpSession.Nfcp.OpSessionId | src/module/nfcp/nfcp_cls_mgmt.c:138-193 | which requests are ignored without effect, and what the others do |
| NfcpSession.DeadlinePassed | src/module/nfcp/nfcp.c:193-243 | a receiver that gave up at the deadline leaves a session that the following check finds expired |
| NfcpSession.Nfcp.Receive | src/module/nfcp/nfcp.c:237-238 | the receiver's readings of the clock move the time on; what it leaves in the buffer is the decoding of the piece it consumed; a time-out means the end time had been reached at the last reading; called before the end of the session it takes a piece or all that waits |
| NfcpSession.Nfcp.Dispatch | src/module/nfcp/nfcp.c:245-311 | which packets change the session, and what is sent for every packet |
| NfcpSession.Nfcp.Process | src/module/nfcp/nfcp.c:240-311 | exactly what a pass sends and which session it leaves, for every packet and for none: an abort if the session had expired, then what the packet asks for; a session open after it was accepted in it or less than 5000 ticks before its check |
| NfcpSession.Nfcp.TaskPass | src/module/nfcp/nfcp.c:237-311 | the same in terms of the piece taken off the ring; a pass whose receiver timed out sends an abort and nothing else and leaves no session, if the check comes in time |
| NfcpSession.Nfcp.Task | src/module/nfcp/nfcp.c:218-313 | from any initial memory contents: an abort, then pass by pass exactly what the packets received and the checks of the clock ask for, each pass starting with the session the one before left; no session that is 5000 ticks old at its check; n packets that wait in the ring are served by the first n passes, if these come before the session ends |
| NfcpSession.WaitingServed | src/module/nfcp/nfcp.c:237-311 | why: passes that take pieces one after the other, each called before the session ends, serve the packets whose frames waited when the first began |
| NfcpSession.RequestAnswered | src/module/nfcp/nfcp_cls_mgmt.c:138-193 | a pass that receives a session request leaves that session open and answers it, with the version exactly if the session was not open any more, behind one abort exactly if a session had expired or another was open |
| NfcpSession.RequestsAre | src/module/nfcp/nfcp_cls_mgmt.c:148-155 | the requests that are accepted, byte by byte |
| NfcpSession.AnswersAre | src/module/nfcp/nfcp.c:245-311 | the notice sent for an unknown class or operation, byte by byte: it repeats the first byte, the operation and the sequence number; what is sent for every other packet |
| NfcpSession.PackU32Bytes | src/lib/pack.h:23-30 | the four bytes of a session id can be read off the packed value, most significant first |
| NfcpSession.HeaderRoundTrip | src/module/nfcp/nfcp.c:248-267 | the header the task reads is the one put in front of the payload, for calls and informations |
| NfcpSession.ResponseMatchesRequest | src/module/nfcp/nfcp_cls_mgmt.c:176-186 | a response repeats class, operation and sequence number of its request and is marked as a response |
| NfcpSession.NoticesEndThere | src/module/nfcp/nfcp.c:269-294 | the error notices the device sends are themselves never answered |
| Scheduler.Sched.RegisterClient | src/core/scheduler.c:101-157 | the client is added behind the others, unless it has no init function, and nothing else changes; the slots stay a hole-free prefix of the pool chain |
| Scheduler.Sched.FillSlot | src/core/scheduler.c:119-122 | the three writes to a free slot |
| Scheduler.Sched.Attach | src/core/scheduler.c:146-153 | a filled pool is put at the end of the chain |
| Scheduler.Sched.ConfigureSource | src/core/scheduler.c:220-229 | in calls that do not overlap, the first non-negative period stays |
| Scheduler.Sched.InitPools | src/core/scheduler.c:262-271 | all clients have been initialised, once each, in order and with the final period, whatever earlier calls did |
| Scheduler.Schedulers.Get | src/core/scheduler.c:67-85 | finds the scheduler of a name, null exactly if there is none |
| Scheduler.Schedulers.Define | src/core/scheduler.c:159-218 | refused exactly for a bad priority or a taken name; names stay unique |
| Scheduler.Schedulers.Register | src/core/scheduler.c:101-157 | registration with one scheduler leaves the others untouched |
| Scheduler.Schedulers.InitClients | src/core/scheduler.c:245-276 | how far a call gets before a scheduler without period, and that it only adds init calls |
| SchedulerRaces.AlwaysInv | src/core/scheduler.c:101-307 | the invariant after every sequence of single accesses of writer and runner |
| SchedulerRaces.FirstFreeIsNext | src/core/scheduler.c:116-119 | the first slot without an init function is the one behind the registered clients |
| SchedulerRaces.RunnerIsSafe | src/core/scheduler.c:292-304 | every run call in the log uses run and storage of one client whose init was called before |
| SchedulerRaces.TriggersRunSnapshot | src/core/scheduler.c:296-304 | between a trigger and its end the run calls in the log are those of the first n clients initialised before it, once each and in order, and at no time are they more than the beginning of these |
| SchedulerRaces.EveryClientRuns | src/core/scheduler.c:296-304 | no client is left out: between a trigger and its end the log has a call of run with its own storage for every client of the snapshot that has a run function |
| SchedulerRaces.SnapshotIsRead | src/core/scheduler.c:292-296 | n is the value of clients_initialized at that step: the number of init calls so far, less one that is not counted yet |
| SchedulerRaces.TriggerFinishes | src/core/scheduler.c:297-304 | once schedulers are enabled, enough steps of the runner end a trigger, whatever the other tasks do meanwhile |
| SchedulerRaces.InitialisedOnceInOrder | src/core/scheduler.c:262-271 | under all interleavings init calls go to the first registered clients, once each and in order, and to no more |
| SchedulerRaces.InitFinishes | src/core/scheduler.c:245-276 | under all interleavings: a call of sc_init_clients ends after exactly one access for each slot, one more for each new client and one to end, and has then initialised every client registered by then |
| SchedulerRaces.UndisturbedInit | src/core/scheduler.c:257-272 | its accesses with nothing in between add up to the call: the mutex is free again, and the clients initialised are the clients registered, in order |
| SchedulerPeriod.OnePeriodIff | src/core/scheduler.c:220-265 | all init calls of a run were given one usable period exactly if all writes that were in force at an init call agree on one |
| SchedulerPeriod.OneAtATimeIsEnough | src/core/scheduler.c:220-265 | they are if no two configurations are between test and write at the same time |
| SchedulerPeriod.OneAtATimeStays | src/core/scheduler.c:224-228 | then a usable period is never changed |
| SchedulerPeriod.AlwaysOnePeriodIff | src/core/scheduler.c:220-265 | if nothing keeps configurations apart, every run gives one period exactly if a usable period among those asked for is the only one |
| SchedulerPeriod.OverlapSplitsPeriods | src/core/scheduler.c:224-227 | two overlapping configurations give two clients different periods |
| SchedulerRaces.UndisturbedRegistration | src/core/scheduler.c:114-155 | the single writes of a registration add up to the registration |
| Strops.Cmp | src/lib/strops.c:25-46 | computes the three-way comparison, zero exactly on equal strings |
| Strops.CompareZero | src/lib/strops.c:25-46 | the comparison is zero on equal strings and no others |
| Strops.CompareAntisymmetric | src/lib/strops.c:25-46 | exchanging the strings negates the result |
| Strops.CompareTransitive | src/lib/strops.c:25-46 | the comparison orders strings |
| Strops.CompareSign | src/lib/strops.c:25-46 | -1 exactly if the first string is a proper prefix or has the smaller character where they first differ, 1 exactly if the second one is or has |
| Strops.ReadInt | src/lib/strops.c:101-122 | the loop reads the number written in the leading digits, without leaving the range of int32_t exactly if that number is inside it |
| Strops.DecimalRoundTrip | src/lib/strops.c:101-122 | a printed number is read back, whatever non-digit follows it |
| Strops.NotANumber | src/lib/strops.c:101-122 | a word without a leading digit, behind a minus sign or not, is read as 0 |
| StringMap.LookupBind | src/lib/map.c:55-105 | after a set the tag has the new value and every other tag the old one |
| StringMap.BindKeepsOrder | src/lib/map.c:55-85 | tags keep the order of their first insertion |
| StringMap.Map.Get | src/lib/map.c:87-105 | the value of the tag in the abstract map, none exactly if it is unbound |
| StringMap.Map.SetInChunk | src/lib/map.c:62-76 | one chunk's part of a set: replaces, appends or goes on |
| StringMap.Map.Set | src/lib/map.c:55-85 | the abstract map is updated; tags stay unique and slots hole-free across any number of chunks |
| StringMap.Iter.Next | src/lib/map.c:115-141 | the next binding in order of insertion, none exactly at the end |
| StringMap.Iterate | src/lib/map.c:107-141 | an iteration ends and yields every binding once, in order |
| Linking.SourceAfter | src/core/variable.c:157-245 | what a source holds after any run, failed calls included: its first registration and what that left waiting |
| Linking.RunSucceedsIff | src/core/variable.c:157-245 | all calls return 0 exactly if no name is registered twice and every request for a registered name is offered a variable, by its cut index if it came first |
| Linking.PointerIs | src/core/variable.c:190-241 | after any run, failed calls included, a pointer is a variable exactly if the last request carried out for it wants that one; requests are carried out by their own call or by the registration they wait for, there the newest first |
| Linking.OfferMeans | src/core/variable.c:103-128 | the variable a request is offered: the one at its index, cut if it came early, of the first registration of its name, if the index is inside and the types agree |
| Linking.RequesterGets | src/core/variable.c:157-245 | after any run, a pointer that one request was made for is the variable at its index of the first registration exactly if index and type fit, and those of the newer requests that waited with it; otherwise it is not set |
| Linking.LateRequestSets | src/core/variable.c:236-242 | after any run, a request for a registered name sets its pointer to the variable at its index, or fails and sets nothing |
| Linking.ConnectedIff | src/core/variable.c:136-155 | after any run, failed calls included, vr_connect returns 0 exactly if every name used is registered and, of the requests that waited for it, all but the oldest fit |
| Linking.AllHonouredIff | src/core/variable.c:136-155 | every request was carried out exactly if vr_connect returns 0 and the oldest request of each name and those after its registration fit |
| LinkOrder.SmallIndicesHarmless | src/core/variable.c:41 | cutting does no harm to indices below 65536 |
| LinkOrder.RunMeaning | src/core/variable.c:157-245 | where cutting indices does no harm: a run succeeds exactly if no name is registered twice and every request fits its registration; then pointers are set exactly as requested |
| LinkOrder.OrderIrrelevant | src/core/variable.c:157-245 | there, two orders of the same calls both succeed or both fail, and set the same pointers, to the same variables if none is requested as two |
| LinkOrder.OrderIrrelevantIff | src/core/variable.c:157-245 | every order of the calls succeeds with the same pointers exactly if they fit each other, cutting an index to 16 bits changes no offer, and no pointer is requested as two variables |
| LinkOrder.LastRequestDecides | src/core/variable.c:236-241 | after the registration the request made last decides |
| LinkOrder.FirstRequestDecides | src/core/variable.c:190-201 | before the registration the request made first decides |
| Linking.ConnectedIffAllRegistered | src/core/variable.c:136-155 | if all calls returned 0, vr_connect returns 0 exactly if every name used was registered, and then every request was carried out |
| Linking.DrainLeavesNothingIff | src/core/variable.c:191-201 | a registration leaves no request waiting exactly if all but the oldest fit |
| Linking.FailureCanGoUnnoticed | src/core/variable.c:195-198 | the smallest run in which vr_connect returns 0 although a request was lost |
| LinkOrder.WideIndexBreaksOrder | src/core/variable.c:41 | an index of 65536 succeeds before the registration and fails after it |
| Variables.Source.Select | src/core/variable.c:103-128 | the variable at the index, exactly if no terminator stands at or before it in the table and the type there is the one asked for; none otherwise |
| Variables.Linker.RelocAlloc | src/core/variable.c:54-74 | takes the first free node, or a new one if there is none |
| Variables.Linker.RelocFree | src/core/variable.c:76-81 | puts the node in front of the free list |
| Variables.Linker.GetSource | src/core/variable.c:83-101 | the source of a name, a new one if there is none |
| Variables.Linker.RelocExec | src/core/variable.c:103-128 | sets the pointer exactly if index and type fit |
| Variables.Linker.DrainPending | src/core/variable.c:190-201 | the waiting requests are executed newest first up to the first that fails; only that one's node is lost |
| Variables.Linker.FillSource | src/core/variable.c:172-201 | the first registration of a source: its tables are stored, then the waiting requests are executed |
| Variables.Linker.VrRegister | src/core/variable.c:157-202 | the call does what Linking says; no node is lost unless it fails, and then one |
| Variables.ParsePrinted | src/core/variable.c:209-222 | the text name.index is split into that name and index, dots in the name included |
| Variables.NoDot | src/core/variable.c:217-220 | a text is refused exactly if it has no dot |
| Variables.FindDot | src/core/variable.c:210-216 | the loop finds the last dot |
| Variables.Linker.Defer | src/core/variable.c:227-235 | a request for a source that is not registered goes in front of its list, its index cut to 16 bits; only a new node is added to the nodes |
| Variables.Linker.VrRequest | src/core/variable.c:204-245 | the call does what Linking says; a text without a dot is refused without effect; nodes are recycled before new ones are made |
| Variables.Linker.VrConnect | src/core/variable.c:136-155 | returns 0 exactly if every source is registered and has nothing waiting |
| Variables.Linker.NodesAccountedFor | src/core/variable.c:54-81 | free list and waiting lists are acyclic, disjoint and hold all nodes; after successful calls these are all nodes ever made, and registered sources have none |
| Variables.Linker.ConnectedMeans | src/core/variable.c:136-155 | the result of vr_connect on the lists, and when it means that every request was carried out, in terms of the calls made, failed ones included |
| Variables.Linker.PointersMean | src/core/variable.c:190-241 | the requesters' pointers on the lists: as the last request carried out wants, in terms of the calls made, failed ones included |
| Variables.Linker.PointerSet | src/core/variable.c:157-245 | on the lists: the only request made for a pointer sets it to the variable it names exactly if it is reached, in terms of the calls made |
| Variables.SameCallsSameLinks | src/core/variable.c:157-245 | two linkers given the same calls in any order end with the same pointers |
| Tokens.SplitArgv | src/lib/strops.c:208-259 | every pointer leads to its argument when all is done, the argument count and the closing null; memory behind the text is untouched |
| Tokens.CopyWord | src/lib/strops.c:245-249 | the loop copies an unquoted argument downwards and leaves unread input alone |
| Tokens.CopyQuoted | src/lib/strops.c:234-237 | the loop copies a quoted argument downwards and leaves unread input alone |
| Tokens.TakeWord | src/lib/strops.c:245-254 | the write index stays behind the read index, except past the text's zero |
| Tokens.TakeQuoted | src/lib/strops.c:229-241 | the write index stays behind the read index |
| Tokens.LayoutAt | src/lib/strops.c:233-254 | an argument that has been written stays readable whatever is written behind it |
| Tokens.PrintedLine | src/lib/strops.c:216-256 | printing arguments with spaces and quotes and splitting the line gives back the arguments; exactly when a newline is passed over |
| Tokens.UnclosedQuote | src/lib/strops.c:234-241 | a quote that is never closed lasts to the end of the text |
| Radix.ChangeOfBase | src/module/rc_io/fport.c:274-295 | digits survive the change to another base of the same capacity and back |
| FPort.Checksum | src/module/rc_io/fport.c:257-265 | the fold ends, keeps the sum modulo 255, and gives 0xff exactly for positive multiples of 255 |
| FPort.SingleByteChange | src/module/rc_io/fport.c:250-270 | exactly which changes of one byte pass the length and checksum tests |
| FPort.ChannelAt | src/module/rc_io/fport.c:276-295 | channel i is bits 11i to 11i + 10 of the little-endian number |
| FPort.ReadChannels | src/module/rc_io/fport.c:274-295 | the sixteen expressions read exactly the base-2048 digits |
| FPort.UnpackPack | src/module/rc_io/fport.c:274-295 | unpacking undoes packing |
| FPort.PackUnpack | src/module/rc_io/fport.c:274-295 | packing undoes unpacking, so no bit is ignored |
| FPort.ProcessPiece | src/module/rc_io/fport.c:242-305 | the decision and the published values for every piece |
| FPort.ControlRoundTrip | src/module/rc_io/fport.c:242-301 | a control packet as a sender builds it is received with its sixteen channels scaled by (raw - 992) / 800, the bits 0x04 and 0x02 of the flags as channels 17 and 18, 0x08 as failsafe, 0x04 as signal loss, and its signal strength |
| FPort.PublishedIff | src/module/rc_io/fport.c:242-274 | exactly which pieces are published: 27 bytes after unstuffing, 0x19 and 0x00 first, with a sum that is a multiple of 255 |
| FPort.WrongByteRefused | src/module/rc_io/fport.c:242-274 | exactly which control packets with one wrong byte are published: those where it became 0xff from 0x00 or the reverse, behind length and type |
| FPort.ScaledInjective | src/module/rc_io/fport.c:195-204 | scaling keeps order, and maps 192 and 1792 to -1 and 1 |
| FPort.Channel17IsSignalLoss | src/module/rc_io/fport.c:296-300 | channel 17 is on exactly when signal loss is reported |
| FPort.ReadPiece | src/module/rc_io/fport.c:220-241 | the buffer ends up with what was read since it last started over, cut at the first boundary; loss is reported exactly if a read returned nothing, with one trigger for each such read, and never while a boundary waits in the ring; a piece that waits there is what is read |
| FPort.OverlongForgotten | src/module/rc_io/fport.c:222-226 | data that fills the buffer a whole number of times does not disturb the frame behind it |
| FPort.OverlongAccepted | src/module/rc_io/fport.c:222-301 | a control packet behind 64 bytes of data in one piece is received as if it had come alone |

## Left out

- The transmit half of the UART driver, registers, DMA, interrupts other than receive, and all other drivers.
- UartRx.Ring.RxRead: does not say that a zero return means the time ran out, because a stale notification also causes
  one.
- Log packets (`nfcp_cls_mgmt_log_handler`): other tasks send them between the pieces of the session trace, and they may
  be one byte longer than what always fits the buffer.
- NfcpSession.Nfcp.Dispatch: takes the capability class's answer, a packet of at most 127 bytes or none, as a parameter;
  the building of those packets is not modelled.
- NfcpSession.Nfcp.Task: makes as many passes as it is given delays for, where the C loop runs forever.
- FPort.ReadPiece: makes a given number of reads at most, where the C loop goes on until a boundary comes.
- FPort.ScaledInjective: is about real numbers, as is the scheduler period; rounding is not modelled.
- Variables.Linker.VrRequest: leaves the text alone, where the C function overwrites its last dot. The sources of the
  linker are a dictionary there; `StringMap` proves separately that the string map is one.
- SdCard.ReceiveBlock: starts where the card has announced its data; commands and tokens are not modelled.
- Strops.ReadInt: computes on unbounded numbers; what C computes from a number that leaves the range is not modelled.
- LinkErrors.BurstRefused: is about errors that keep the shape of the frame, that is boundaries and the escapes that
  unstuffing reads as such, as are the other rows of that module. Errors that change it are not, and cannot be, refused
  in general (`LinkErrors.FlippedIntoBoundary`).
- UartRx.Ring.RxIrq: what a reader gets from a ring that was overrun is not modelled further.
- `strops_line_copy`, `strops_argv_dup`, `strops_word_to_float`, allocation and its failures.
- Nodes for arithmetic, calculus and servos, configuration, resources, tracing, and FreeRTOS itself.
