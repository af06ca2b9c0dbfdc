# Verification of the Haier protocol stack

A Dafny model of the serial protocol stack of this repository, bottom up, and of the thermostat of its SmartAir2
simulator, with machine-checked proofs of what they promise. `dafny verify dfyconfig.toml` checks everything.

## What is modelled

| File | Contents |
|---|---|
| `Sequences.dfy`, `Bytes.dfy` | sequence laws; bytes and protocol constants |
| `Crc16.dfy` | CRC-16/ARC bit by bit, the lookup table, the two `crc16` routines, what damage the CRC finds |
| `Stuffing.dfy` | escaping: every `FF` is followed by `55`; blocks are found by counting the other bytes |
| `FrameFormat.dfy` | frames as values: building, printing, judging, and what a well-formed frame is |
| `FrameExamples.dfy` | what a frame without separators looks like, and literal bytes of frames with all kinds of escapes |
| `WireBuffer.dfy` | printing into a buffer through an eight-bit cursor |
| `HaierFrame.dfy` | class `HaierFrame`, method by method |
| `Deframer.dfy` | the receiver as a step function on the held bytes; chunking independence |
| `Resync.dfy`, `Soundness.dfy` | round trip of streams, self-synchronisation, soundness of acceptance |
| `Ring.dfy` | the receiver behind a ring of limited capacity: which frames it can hand over at all |
| `CircularBuffer.dfy` | class `CircularBuffer`, a bounded first-in-first-out sequence |
| `Reception.dfy` | the frames made of all chunks read so far |
| `ParserCursor.dfy`, `TransportLevelHandler.dfy` | the cursor invariant of `process_data`, false starts included, and the class proved to run the receiver of `Deframer.dfy` |
| `Transactions.dfy` | requests and answers as steps over values with a history |
| `TransactionHistory.dfy`, `TransactionRuns.dfy`, `TransactionSchedule.dfy`, `TransactionDraining.dfy`, `TransactionTiming.dfy` | the invariant of every run and what follows from it: accounts, when a loop writes and what, draining, distances in time |
| `HandlerWire.dfy`, `ProtocolHandler.dfy` | class `ProtocolHandler` on top of the real transport class, proved to take the steps of `Transactions.dfy` and to send what its history says |
| `WireExamples.dfy` | concrete messages of 256 and 257 bytes on the wire, and a frame too large for the default ring |
| `Thermostat.dfy`, `ThermostatDrift.dfy` | the simulated room as ticks over real numbers: cycles of the compressor, drift without it, hold and speed |
| `Simulator.dfy`, `ControlWords.dfy` | the classes that take these ticks, and what the words and keys of the control file mean |

The lemmas about the request protocol ask for the invariant `TransactionHistory.Inv`, which holds in the initial state and
after every step (`TransactionRuns.Run`), and which `ProtocolHandler` keeps as part of `Valid()`; so they hold of every
run, whatever the clock reads, the peer sends and the callbacks do.

Each class has the fields of its C++ counterpart and methods that update them in place. A method's contract equates the
new state with a function of the old one, and the properties are proved about that function.

A callback of the user is modelled as the list of calls it makes. Clock readings, received bytes and the contents of the
control file are inputs, arbitrary unless a lemma says otherwise.

## What the proofs found

* A frame of more than 256 stuffed bytes does not reach the wire intact but is reported as sent, and one of exactly 256
  bytes does but is reported as a failure, because the write cursor and the returned size have eight bits
  (`WireBuffer.BufferHoldsFrameIff`, `HandlerWire.RefusedSize`; messages for both are in `WireExamples.ExactlyTooLong` and
  `WireExamples.GarbledAndAccepted`). A garbled frame costs a receiver whose reads do not overflow no other frame that is
  followed by enough bytes (`HandlerWire.IntactWriteArrives`); with overflows the same holds of what has been read since
  the last one (`Protocol.ProtocolHandler.IntactWriteIsParsed`). `README.rst:101` allows 246 data bytes; the code refuses
  more than 233 (`doc/protocol_reference.rst:87` agrees with the code).
* A receiver with a ring of some capacity can be brought to hand over a frame if and only if the frame's stuffed body fits
  the ring (`Rings.HandsOverIff`). The default ring of 251 bytes takes every frame that the sender of this repository
  leaves intact (`Rings.IntactFitsDefault`), but not every well-formed frame: one with 233 data bytes, 18 of them `FF`, is
  never handed over (`WireExamples.TooLargeForDefaultRing`).
* `README.rst:102` describes the checksum as the sum of the frame's bytes. What the code computes, on both ends, is the sum
  of the bytes as they stand on the wire, a `55` behind every separator included (`FrameFormat.ChecksumIsWireSum`). The
  two agree exactly if type and data contain no `FF` (`FrameFormat.ChecksumIsPlainSumIff`, and
  `FrameFormat.ChecksumIsNotPlainSum` for a frame where they do not).
* `doc/protocol_reference.rst:121` promises a timeout of 300 ms for partial frames. Its guard (`protocol_transport.cpp:82`)
  is true of no status, so that a partial frame waits for as many bytes as it announces. `Resync.SelfSynchronising` gives
  the bound that results, 236 counted bytes from the start of an intact frame that finds room, and `Resync.SynchronisationBoundIsTight`
  exhibits streams in which a frame with 235 of them has not been delivered.
* An overflow of the ring buffer while the receiver hunts leaves the cursor behind bytes that it has never looked at, and
  the receiver can take them for separators (`ParserCursor.FalseStartTaken`). That is harmless: the frames handed over are
  at all times those of a hunt through the bytes kept (`Transport.TransportLevelHandler.ReadData` and `ProcessData`). Only
  what is held meanwhile can differ, and not even that unless such an overflow has come.
* A room above 60 degrees is cut to the limit after the compressor has been served. With the target at the limit that
  skips the hold, under an exact condition (`Thermostat.CutToTarget`, and `Thermostat.HoldSkipped` for a room where it
  does); for every other target up to 60 degrees `Thermostat.TargetReached` holds. The set point is a full byte and can ask
  for up to 271 degrees, but no room gets to a target above 60.

## Model

| member | source | states |
|---|---|---|
| `Crc16.CrcTable` | src/transport/haier_frame.cpp:15-48 | every table entry is eight shifts of the reflected polynomial A001 applied to its index |
| `Crc16.TableStepIsBitSerial` | src/transport/haier_frame.cpp:51-54 | a table step equals feeding the eight bits of the byte one at a time, for every register and byte |
| `Crc16.Crc16Next` | src/transport/haier_frame.cpp:51-54 | the single-byte routine takes one bit-serial CRC step |
| `Crc16.Crc16Buffer` | src/transport/haier_frame.cpp:56-66 | the buffer routine computes bit-serial CRC-16/ARC of the first bytes from any initial value |
| `Crc16.CrcInjective` | src/transport/haier_frame.cpp:51-66 | over the same bytes different registers stay different, as every step is injective |
| `Crc16.BurstDetected` | src/transport/haier_frame.cpp:51-66 | sequences that differ, but only within sixteen consecutive bits at any bit offset, have different CRCs |
| `Crc16.WindowDetected` | src/transport/haier_frame.cpp:51-66 | the register step behind it: registers that meet after three bytes which differ only in one window of sixteen bits have met all along, as the bytes are the same |
| `Crc16.TwoBytesDetected` | src/transport/haier_frame.cpp:51-66 | so do sequences that differ only in two adjacent bytes, whatever the damage |
| `Stuffing.StuffIffClean` | src/transport/haier_frame.cpp:335-357 | a block is the stuffed form of some data exactly when it has no bad escape and un-stuffs to that data |
| `Stuffing.BlockLengthUnique` | src/transport/protocol_transport.cpp:130-136 | the end of a stuffed block is the only place where the count of non-separator bytes fits and the last byte is no separator |
| `HaierFrames.Checksum` | src/transport/haier_frame.cpp:68-75 | the loop computes the sum of the bytes in eight bits |
| `FrameFormat.AcceptedIffWellFormed` | src/transport/haier_frame.cpp:183-299 | header and body are accepted as a frame if and only if length byte, flag, checksum with escape bytes and CRC are right, and the frame has just those fields |
| `FrameFormat.MadeFrameIsWellFormed` | src/transport/haier_frame.cpp:106-141 | what the constructor computes for up to 233 bytes is well-formed |
| `FrameFormat.FrameRestored` | src/transport/haier_frame.cpp:106-368 | printing and then parsing, header first, restores type, flag, data, checksum, CRC and escape count |
| `FrameFormat.DamageDetected` | src/transport/haier_frame.cpp:267-276 | a CRC frame whose data suffers a burst of up to sixteen bits is judged to have a wrong CRC |
| `FrameFormat.WrongChecksum` | src/transport/haier_frame.cpp:277-283 | an acceptable body with another checksum byte is refused for its checksum |
| `FrameFormat.HeaderVerdicts` | src/transport/haier_frame.cpp:183-253 | which of the errors of a header is found, as conditions on the length of the buffer and its first three bytes |
| `FrameFormat.ChecksumIsWireSum` | src/transport/haier_frame.cpp:114-140 | the checksum of a built frame is the eight-bit sum of its bytes as they stand on the wire between the separators and the checksum |
| `FrameFormat.AcceptedChecksumIsWireSum` | src/transport/haier_frame.cpp:254-283 | so is that of every accepted frame whose header has no separator but its type |
| `FrameFormat.ChecksumIsPlainSumIff` | src/transport/haier_frame.cpp:116-140 | the checksum of an acceptable frame is the plain sum of its bytes if and only if type and data contain no separator |
| `FrameFormat.ChecksumIsNotPlainSum` | src/transport/haier_frame.cpp:116-140 | a concrete frame whose checksum is not the plain sum |
| `FrameExamples.PlainOnWire` | src/transport/haier_frame.cpp:333-368 | a frame with nothing to escape is on the wire: two separators, size, flag, five zeros, type, data, sum and, with the flag, the CRC high byte first |
| `FrameExamples.EscapedOnWire` | test/simple_transport_test/test.cpp:109-122 | the literal bytes of a frame with escaped type, data and checksum and a CRC are its encoding, and a new receiver hands it over |
| `FrameExamples.SmallEscapedOnWire` | src/transport/haier_frame.cpp:106-141 | the literal bytes of a frame of type 1 with one data byte `FF` and no CRC |
| `WireBuffer.EncodedSizeIsExact` | src/transport/haier_frame.cpp:314-331 | the size computed from the fields is the length of the encoding |
| `WireBuffer.PairOnlyAtStart` | src/transport/haier_frame.cpp:333-368 | two adjacent separators occur in an encoding at its start and nowhere else, and it does not end in one |
| `WireBuffer.BufferHoldsFrameIff` | src/transport/haier_frame.cpp:333-368 | written through the eight-bit cursor, a buffer of the exact size holds the encoding if and only if it has at most 256 bytes |
| `WireBuffer.SpelledAsWritten` | src/transport/haier_frame.cpp:333-368 | the first 256 cells of a longer encoding are its end followed by what its end has not run over |
| `WireBuffer.EncodedSizeIff` | src/transport/haier_frame.cpp:314-331 | for a frame built from up to 255 bytes that size is right if and only if the eight-bit escape counter has not wrapped around |
| `WireBuffer.CountsEscapesIff` | src/transport/haier_frame.cpp:114-140 | which it does for a single message, type `FF` with 255 data bytes `FF` |
| `WireBuffer.EnoughRoom` | src/transport/haier_frame.cpp:333-368 | a buffer of the size computed is never overrun, be the size right or not |
| `WireExamples.ExactlyTooLong` | src/transport/protocol_transport.cpp:20-38 | a concrete message of 256 bytes on the wire, intact and refused |
| `WireExamples.GarbledAndAccepted` | src/transport/protocol_transport.cpp:20-38 | a concrete message of 257 bytes on the wire, garbled whatever the buffer held, and accepted |
| `WireBuffer.SetWithPostByte` | src/transport/haier_frame.cpp:335-341 | one byte and its escape go to the cells at the cursor, which wraps at 256 |
| `HaierFrames.HaierFrame.Build` | src/transport/haier_frame.cpp:106-141 | the constructor's loops build the frame of the specification |
| `HaierFrames.HaierFrame.ParseBuffer` | src/transport/haier_frame.cpp:183-299 | verdict, count and all fields afterwards, for a header, for a body and for both in one call, accepted or refused |
| `HaierFrames.BodyJudged` | src/transport/haier_frame.cpp:254-296 | a body in a call of its own is judged over its own bytes |
| `HaierFrames.OneCallRefuses` | src/transport/haier_frame.cpp:254-296 | in one call with its header it is judged over the wrong bytes: the smallest frame is refused |
| `HaierFrames.HaierFrame.GetBufferSize` | src/transport/haier_frame.cpp:314-331 | for every frame built from up to 255 bytes, the size reported is that of the encoding unless the escape counter has wrapped around |
| `HaierFrames.HaierFrame.FillBuffer` | src/transport/haier_frame.cpp:333-368 | for every such frame the buffer ends up as the encoding written through the wrapping cursor, which stays inside it, or untouched if the limit is below the size computed |
| `HaierFrames.HaierFrame.Reset` | src/transport/haier_frame.cpp:301-312 | the frame is empty again |
| `CircularBuffers.CircularBuffer.Push` | src/utils/circular_buffer.h:101-112 | appends an item if there is room |
| `CircularBuffers.CircularBuffer.PushAll` | src/utils/circular_buffer.h:114-128 | appends as many items as there is room for |
| `CircularBuffers.CircularBuffer.Pop` | src/utils/circular_buffer.h:130-145 | removes and returns the oldest items |
| `CircularBuffers.CircularBuffer.Reserve` | src/utils/circular_buffer.h:147-162 | hands out the free cells behind the tail, up to the end of the array, and counts them as stored |
| `CircularBuffers.CircularBuffer.Drop` | src/utils/circular_buffer.h:172-183 | removes the oldest items, at most all |
| `CircularBuffers.CircularBuffer.At` | src/utils/circular_buffer.h:87-91 | the item at an index counted from the oldest |
| `CircularBuffers.CircularBuffer.GetSize` | src/utils/circular_buffer.h:93-99 | the number of stored items |
| `CircularBuffers.ReservedAndFilled` | src/utils/circular_buffer.h:147-162 | reserving cells and then writing to them appends what was written |
| `Deframer.StepProgress` | src/transport/protocol_transport.cpp:100-248 | every step discards held bytes or lowers the mode, so that parsing terminates, also when an escape error discards nothing |
| `Deframer.RunInTwo` | src/transport/protocol_transport.cpp:80-256 | parsing a buffer whole, or a part first and the rest later, gives the same frames and the same state |
| `Deframer.ChunkingIndependent` | src/transport/protocol_transport.cpp:80-256 | for every stream and every cut into chunks, frames and final state are those of one call |
| `Resync.StreamRoundTrip` | src/transport/protocol_transport.cpp:20-38 | any chunked delivery of encoded frames with pair-free junk between them yields those frames in order and an empty receiver |
| `Resync.SelfSynchronising` | src/transport/protocol_transport.cpp:96-255 | from any reachable state and any garbage an intact frame is delivered once it and what follows hold 236 counted bytes |
| `Resync.SynchronisationBoundIsTight` | src/transport/protocol_transport.cpp:183-239 | after the literal beginning of a largest frame, any intact frame filled up with zeros to 235 counted bytes is still undelivered, and is delivered with one zero more |
| `Resync.ReachableRun` | src/transport/protocol_transport.cpp:96-255 | the parser states reached satisfy the invariant that the self-synchronisation starts from |
| `Resync.ReachableFeed` | src/transport/protocol_transport.cpp:80-256 | so do all states reached by any number of reads in any chunks |
| `Resync.FewBytesNoFrame` | src/transport/protocol_transport.cpp:134-236 | fewer than nine counted bytes never make a frame |
| `Resync.RefusedFrameSkipped` | src/transport/protocol_transport.cpp:183-250 | a frame refused for its checksum or CRC costs its own bytes and no others |
| `Resync.RefusedHeaderSkipped` | src/transport/protocol_transport.cpp:134-180 | so does a header that announces too little or too much |
| `Soundness.AcceptanceIsSound` | src/transport/protocol_transport.cpp:134-236 | for every stream in any chunks the frames handed over are disjoint, ordered pieces of it that spell well-formed frames |
| `Rings.HandsOverIff` | src/transport/protocol_transport.cpp:40-78 | reads of any streams can bring a receiver with a ring of a given capacity to hand over a well-formed frame if and only if the frame's stuffed body fits the ring |
| `Rings.MadeFrameHandsOver` | src/transport/protocol_transport.cpp:40-78 | the same of the frames that the constructor makes |
| `Rings.IntactFitsDefault` | src/protocol/haier_protocol.cpp:17 | the default ring of 251 bytes takes every frame of at most 256 bytes on the wire |
| `WireExamples.TooLargeForDefaultRing` | src/protocol/haier_protocol.cpp:17 | a concrete well-formed frame that a receiver with the default ring never hands over |
| `ParserCursor.BlockNext` | src/transport/protocol_transport.cpp:130-136 | counting separators finds a block complete exactly at its last byte |
| `ParserCursor.HuntSeparator` | src/transport/protocol_transport.cpp:103-109 | a further separator keeps the hunt's last two and changes nothing in what will be parsed, whatever the two bytes in front of it are |
| `ParserCursor.HuntFound` | src/transport/protocol_transport.cpp:110-123 | a start found behind two bytes that may be no separators leaves what will be parsed as it was |
| `ParserCursor.FalseStartPassed` | src/transport/protocol_transport.cpp:134-180 | behind a false start the code discards, up to an escape error or at the end of the refused header, what a hunt discards as well |
| `ParserCursor.FalseStartTaken` | src/transport/protocol_transport.cpp:103-123 | a concrete false start, with held bytes that differ from those of a hunt and the same frames |
| `ParserCursor.HeaderDecision` | src/transport/protocol_transport.cpp:134-180 | what is done with a complete header block, true or false, is what the receiver does |
| `ParserCursor.CursorAtEnd` | src/transport/protocol_transport.cpp:100-255 | when the bytes are used up there is nothing to hand over, and with an exact cursor no step to take |
| `ParserCursor.UnstuffNext` | src/transport/protocol_transport.cpp:145-155 | a step of un-stuffing copies or skips a byte as the block's un-stuffed form says and does not overrun the buffer |
| `Transport.TransportLevelHandler.ProcessData` | src/transport/protocol_transport.cpp:80-256 | terminates; appends to the queue the frames of the receiver's run from the state before, settles in its state and keeps the cursor invariant; reaches the very state if the cursor is exact, which it stays |
| `Transport.TransportLevelHandler.ReadData` | src/transport/protocol_transport.cpp:40-78 | reads min(available, capacity) bytes; of the held bytes and these the last that fit the capacity are kept; the parser's stage is kept if all do, and it hunts through the bytes kept otherwise; the parser invariant survives either way |
| `Transport.TransportLevelHandler.ReadChunks` | src/transport/protocol_transport.cpp:60-77 | two reservations are always enough for the bytes that fit |
| `Transport.TransportLevelHandler.ReadAndParse` | src/protocol/haier_protocol.cpp:42-43 | the two calls of a loop parse what the next read makes of the state, and the history of chunks and frames grows by that; what is kept is a step of `Rings.Ringing`, and the very state of the receiver as long as no read has overflowed in a hunt |
| `Transport.TransportLevelHandler.ParsedOfChunks` | src/transport/protocol_transport.cpp:40-256 | over any number of loops the frames parsed since the last overflow are those of the chunks read, as of one call on all of them |
| `Transport.TransportLevelHandler.StateIsReachable` | src/transport/protocol_transport.cpp:96-255 | every valid state of the class is one that self-synchronisation can start from |
| `Transport.TransportLevelHandler.NextFrameArrives` | src/transport/protocol_transport.cpp:40-255 | in what a handler has read since its last overflow, in any chunks and behind any garbage, an intact frame has been parsed once it and what follows hold 236 counted bytes |
| `Transport.TransportLevelHandler.HandedOverFitsRing` | src/transport/protocol_transport.cpp:40-255 | whatever a handler holds and reads next, it hands over no frame whose stuffed body exceeds its ring |
| `Transport.BringToHandOver` | src/transport/protocol_transport.cpp:40-255 | a new handler that is given a frame byte by byte hands it over, if its stuffed body fits the ring |
| `Transport.TransportLevelHandler.SendData` | src/transport/protocol_transport.cpp:20-38 | sends nothing beyond 233 data bytes; otherwise adds as many bytes as the encoding has to those sent before, the encoding itself exactly up to 256 bytes, beyond that its garbled form in the first 256; returns the size in eight bits |
| `Transport.TransportLevelHandler.Pop` | src/transport/protocol_transport.cpp:270-277 | takes the oldest frame of the queue |
| `Transport.TransportLevelHandler.Drop` | src/transport/protocol_transport.cpp:279-286 | forgets the oldest frames |
| `Transport.TransportLevelHandler.ResetProtocol` | src/transport/protocol_transport.cpp:258-268 | discards what has been scanned and hunts again |
| `TransactionHistory.LoopKeeps` | src/protocol/haier_protocol.cpp:40-160 | every loop keeps the invariant: history disciplined, queue, budgets and deadlines as the history says, waiting only for the request last written, all frames at hand parsed later |
| `TransactionHistory.PerformKeeps` | src/protocol/haier_protocol.cpp:206-237 | so does every call of the application or of a handler |
| `TransactionRuns.RetriesConserved` | src/protocol/haier_protocol.cpp:82-156 | a request is what was asked for, retry interval included; while it is queued its writes and its remaining budget add up to min(repeats, 9) + 1; afterwards it has exactly one outcome, whatever the run |
| `TransactionRuns.WrittenOnce` | src/protocol/haier_protocol.cpp:211-214 | a message that wants no answer is queued as such, is written at most once and leaves with one outcome |
| `TransactionRuns.OutcomeHasCause` | src/protocol/haier_protocol.cpp:83-156 | answered only in time, by a frame parsed in a later loop than the last write; timed out only after all writes and past the last deadline; dropped only after the last write failed |
| `TransactionRuns.SingleOutcome` | src/protocol/haier_protocol.cpp:82-156 | a request has one outcome if it has left the queue and none otherwise |
| `TransactionRuns.WritesInOrder` | src/protocol/haier_protocol.cpp:83-107 | queued writes carry the messages requested, in the order of the requests, none after the request's outcome |
| `TransactionRuns.CooldownRespected` | src/protocol/haier_protocol.cpp:83-107 | a queued write starts no earlier than the cooldown set by the write before it, of a request or an answer |
| `TransactionRuns.WaitingStartsFresh` | src/protocol/haier_protocol.cpp:47-107 | the loop that starts waiting leaves no frame at hand and has just written the request it remembers |
| `TransactionSchedule.RetriesWait` | src/protocol/haier_protocol.cpp:83-107 | from a successful write of a request that wants an answer to its next write it takes the retry interval asked for at least, whatever the clock and the handlers do |
| `TransactionSchedule.AllRetriesWait` | src/protocol/haier_protocol.cpp:83-107 | so it does between any two writes of it, the first successful, if the interval is not negative |
| `TransactionSchedule.IdleLoopWrites` | src/protocol/haier_protocol.cpp:47-109 | an idle loop with work writes if and only if the cooldown and the retry deadline that the history has set are over; what it writes, the deadlines it sets, and when it waits |
| `TransactionSchedule.WaitingLoopEnds` | src/protocol/haier_protocol.cpp:112-158 | a waiting loop ends the wait if and only if the deadline of the last write has passed or a frame is at hand; the oldest frame is the answer; timed out only when the writes are used up |
| `TransactionSchedule.AnswersCarryFlag` | src/protocol/haier_protocol.cpp:50-81 | the answers added by an idle loop are those its handler sends, in order, each with the flag chosen or that of the last of the frames at hand; all frames are gone afterwards |
| `TransactionSchedule.IntervalsInForce` | src/protocol/haier_protocol.cpp:186-204 | after a loop the two intervals are what the last call to set them in the handler has set |
| `TransactionDraining.EffectiveLoopsBounded` | src/protocol/haier_protocol.cpp:83-158 | in any run the loops that write, let a request leave or end a wait number at most twice the writes plus one for each request, old and new |
| `TransactionDraining.ExpiredIsEffective` | src/protocol/haier_protocol.cpp:83-134 | with work queued, nothing received and the deadlines passed, a loop is effective |
| `TransactionDraining.QueueDrains` | src/protocol/haier_protocol.cpp:83-158 | undisturbed, n requests with b writes left are gone after 2 b + n such loops, one more for a wait under way |
| `TransactionTiming.WritesSpaced` | src/protocol/haier_protocol.cpp:11-35 | with the default intervals and a clock that does not run backwards any two queued writes start at least 400 ms apart, whatever is written between them |
| `TransactionTiming.TimeoutsWait` | src/protocol/haier_protocol.cpp:10-115 | with the default intervals a request times out more than 200 ms after its last write |
| `HandlerWire.WritesArrive` | src/protocol/haier_protocol.cpp:162-184 | if no frame was garbled, a receiver of the bytes sent gets exactly the frames written, in the order of the history, in any chunks |
| `HandlerWire.IntactWriteArrives` | src/protocol/haier_protocol.cpp:162-184 | whatever else was garbled, a receiver that loses no bytes hands over an intact frame written anywhere in the history if 236 counted bytes were sent from its start on |
| `HandlerWire.DroppedIffRefused` | src/protocol/haier_protocol.cpp:83-108 | a request leaves silently if and only if the transport refuses its message, and then after as many futile writes as its budget has |
| `HandlerWire.RefusedSize` | src/transport/protocol_transport.cpp:20-38 | a message of at most 233 bytes is refused if and only if its frame takes exactly 256 bytes on the wire |
| `Protocol.ProtocolHandler.Loop` | src/protocol/haier_protocol.cpp:40-160 | one loop over the real transport, overflowing or not, is the step of the specification on the frames it parses; what it takes from the stream and adds to the chunks and frames so far |
| `Protocol.ProtocolHandler.HandleMessage` | src/protocol/haier_protocol.cpp:50-81 | while idle only the last frame at hand is handled, and its CRC flag remembered, for the answers of `AnswersCarryFlag` |
| `Protocol.ProtocolHandler.TryRequest` | src/protocol/haier_protocol.cpp:86-103 | a write of the front request, its charge, and what its success leads to: waiting, up to the answer timeout, and no retry before its interval is over |
| `Protocol.ProtocolHandler.WaitingLoop` | src/protocol/haier_protocol.cpp:112-158 | timeout before answer, retry before giving up, the handler running before the request leaves if answered and after if not |
| `Protocol.ProtocolHandler.WriteMessage` | src/protocol/haier_protocol.cpp:162-184 | the message goes to the transport and the cooldown starts, whether it succeeds or not |
| `Protocol.ProtocolHandler.SendAnswer` | src/protocol/haier_protocol.cpp:216-231 | an answer is written only while a message is handled, by default with that message's CRC flag |
| `Protocol.ProtocolHandler.SendMessage` | src/protocol/haier_protocol.cpp:206-209 | queues a request with a budget of min(repeats, 9) + 1 |
| `Protocol.ProtocolHandler.BytesSentAreReadBack` | src/protocol/haier_protocol.cpp:162-184 | the bytes a valid handler has sent are read back as the frames of its history |
| `Protocol.ProtocolHandler.ParsedIsWritten` | src/protocol/haier_protocol.cpp:40-184 | if a handler has read what another has sent, none of it garbled, its loops have parsed exactly the frames that the other has written |
| `Protocol.ProtocolHandler.IntactWriteIsParsed` | src/protocol/haier_protocol.cpp:40-184 | garbled frames and overflows or not, a handler has parsed an intact frame of another if that frame and 236 counted bytes from its start on are among what it has read since its last overflow |
| `Protocol.ProtocolHandler.CallFromOutside` | src/protocol/haier_protocol.cpp:206-237 | a call of the application between loops is the step of the specification, and the invariant stays |
| `Thermostat.MoveTowards` | tools/smartair2_simulator/smartair2_sim_control.cpp:237-243 | moves by the step, or to the goal if that is nearer, never past it |
| `Thermostat.ActiveTickApproaches` | tools/smartair2_simulator/smartair2_sim_control.cpp:372-383 | a tick of the compressor moves the room towards the target by 0.01 degrees a second at least, without crossing it, and either starts the hold there or is wanted again |
| `Thermostat.TargetReached` | tools/smartair2_simulator/smartair2_sim_control.cpp:372-383 | in cool, heat or automatic mode the room moves monotonically to the target and is held there after at most 100 seconds of tick time a degree |
| `Thermostat.CutToTarget` | tools/smartair2_simulator/smartair2_sim_control.cpp:245-250 | with the target at the limit of 60 degrees and the room above it, the hold starts if and only if the first tick gets within 0.02 degrees; otherwise the room is cut to the target without a hold |
| `Thermostat.HoldSkipped` | tools/smartair2_simulator/smartair2_sim_control.cpp:245-250 | a concrete room at 61 degrees that comes to a target of 60 without a hold |
| `Thermostat.StartsOnlyWhenDue` | tools/smartair2_simulator/smartair2_sim_control.cpp:360-401 | after the target the compressor starts only out of a drift, with a gap of at least the hysteresis and after the hold |
| `Thermostat.CompressorRestarts` | tools/smartair2_simulator/smartair2_sim_control.cpp:353-401 | if the settings let the drift reach the threshold of the mode, the compressor starts after at most 1000 seconds of drift time a degree and one tick |
| `Thermostat.CycleCompletes` | tools/smartair2_simulator/smartair2_sim_control.cpp:353-401 | from rest, given that much drift time and 6000 seconds more, the compressor starts and the target is reached again |
| `Thermostat.CyclesRecur` | tools/smartair2_simulator/smartair2_sim_control.cpp:326-404 | from the target, n times the hold, 1000 seconds for each degree of hysteresis and 6015 seconds contain n such cycles one after the other, for every n and every clock that does not run backwards |
| `ThermostatDrift.RestartsIff` | tools/smartair2_simulator/smartair2_sim_control.cpp:353-401 | given that time after the target, the compressor starts again if and only if the settings let the drift reach the threshold: drift delta or drift temperature in cool and heat mode, drift temperature in automatic, a possible room temperature in each |
| `ThermostatDrift.DriftsHome` | tools/smartair2_simulator/smartair2_sim_control.cpp:384-401 | with the power off, or in a mode without compressor after the hold, the room moves monotonically to the drift temperature, cut to 0 to 60 degrees, and is there within 1000 seconds a degree |
| `ThermostatDrift.DriftNotSooner` | tools/smartair2_simulator/smartair2_sim_control.cpp:398-400 | and it is not there sooner than after `passive_seconds_per_degree` seconds, however many degrees away it is, or 1000 seconds a degree if that is less |
| `ThermostatDrift.HoldIs` | tools/smartair2_simulator/smartair2_sim_control.cpp:377-382 | the hold lasts the seconds set, but for less than a millisecond |
| `ThermostatDrift.RoomHeld` | tools/smartair2_simulator/smartair2_sim_control.cpp:385-388 | as long as it lasts the room is at the target and the compressor off |
| `ThermostatDrift.TickTimes` | tools/smartair2_simulator/smartair2_sim_control.cpp:326-332 | the first tick takes no time, no tick takes more than five seconds, and a clock running backwards stands still |
| `ThermostatDrift.NoDynamics` | tools/smartair2_simulator/smartair2_sim_control.cpp:348-352 | without dynamics a tick leaves the room as it is and the compressor off |
| `ThermostatDrift.ElapsedIsRealTime` | tools/smartair2_simulator/smartair2_sim_control.cpp:326-332 | tick time is real time while ticks are at most five seconds apart |
| `ThermostatDrift.TargetNotSooner` | tools/smartair2_simulator/smartair2_sim_control.cpp:372-377 | the target is not reached sooner than the speed at the start allows |
| `ThermostatDrift.CoolingSecond` | tools/smartair2_simulator/smartair2_sim_control.cpp:372-377 | a literal second of cooling |
| `ThermostatDrift.CoolingNearby` | tools/smartair2_simulator/smartair2_sim_control.cpp:372-377 | literal ticks near the target: a tenth of a degree counts as the distance, and a hundredth of a degree a second is the least |
| `ThermostatDrift.ReachedNearby` | tools/smartair2_simulator/smartair2_sim_control.cpp:377-382 | a literal tick to within two hundredths of a degree, which counts as the target and starts the hold |
| `ThermostatDrift.DriftSecond` | tools/smartair2_simulator/smartair2_sim_control.cpp:389-400 | a literal second of drift in cool mode, away from the drift temperature |
| `ThermostatDrift.OffSecond` | tools/smartair2_simulator/smartair2_sim_control.cpp:389-400 | a literal second with the power off: from the target on towards the drift temperature |
| `Simulator.Runtime.Simulate` | tools/smartair2_simulator/smartair2_sim_control.cpp:326-404 | one call is one tick of the specification, reported to within half a degree |
| `Simulator.Runtime.LoadControl` | tools/smartair2_simulator/smartair2_sim_control.cpp:261-324 | nothing changes if the file is missing or as it was; otherwise the whole new state, settings within their limits, target between 16 and 30 degrees if the file gives one, room between 0 and 60 |
| `Simulator.Runtime.Init` | tools/smartair2_simulator/smartair2_sim_control.cpp:450-457 | room, humidity, settings and panel that the simulation starts from |
| `Simulator.Runtime.ControlTick` | tools/smartair2_simulator/smartair2_sim_control.cpp:459-465 | a tick with the settings, the room and the panel that the control file leaves, after a start if there has been none |
| `Simulator.Runtime.SyncRoom` | tools/smartair2_simulator/smartair2_sim_control.cpp:245-251 | room and humidity are kept in range and reported rounded |
| `ControlWords.ModeRead` | tools/smartair2_simulator/smartair2_sim_control.cpp:83-112 | the mode words read are the mode names reported, each for its mode; any other word changes nothing |
| `ControlWords.FanRead` | tools/smartair2_simulator/smartair2_sim_control.cpp:114-138 | the same of the fan |
| `ControlWords.SwingRead` | tools/smartair2_simulator/smartair2_sim_control.cpp:147-182 | a swing that is set is reported by the same name, whatever was set before; any other word is no swing |
| `ControlWords.SingleSetting` | tools/smartair2_simulator/smartair2_sim_control.cpp:271-281 | each number changes the setting that it is for, within its limit, and no other |
| `ControlWords.Unread` | tools/smartair2_simulator/smartair2_sim_control.cpp:208-281 | a number that cannot be read is as good as none; a drift temperature goes before an ambient one |
| `ControlWords.SingleControl` | tools/smartair2_simulator/smartair2_sim_control.cpp:287-307 | so do target, mode, fan and power on the panel; the power is on for the words 1, true, on and yes alone |
| `ControlWords.SingleSwitch` | tools/smartair2_simulator/smartair2_sim_control.cpp:308-318 | so do swing, turbo, quiet and display, the last three on for those four words alone |
| `ControlWords.NothingSaid` | tools/smartair2_simulator/smartair2_sim_control.cpp:261-324 | a file that says nothing changes nothing |
| `ControlWords.NewsOnce` | tools/smartair2_simulator/smartair2_sim_control.cpp:261-268 | a file is loaded once until it changes, or if it must be |

## Left out

- HandlerWire.WritesArrive: the exact list of frames is stated for histories without a garbled frame; `IntactWriteArrives` covers the intact frames of the others, and what a receiver makes of the garbled bytes is open, since they depend on what the buffer held.
- Protocol.ProtocolHandler.BytesSentAreReadBack: the same.
- Protocol.ProtocolHandler.ParsedIsWritten: the same.
- The 300 ms timeout of partial frames, which cannot happen, and the timestamps of received frames, which nothing reads.
- Bytes that reach the stream between `available()` and `read_array()`: a read sees one state of the stream.
- The decrement through a dangling reference after `pop()` when a request without answer was written (`haier_protocol.cpp:93-103`) is taken to have no effect; the model charges the write before the request can leave.
- Handler maps and `std::function`: one callback runs and its result is only logged; a callback does not call `loop()`.
- `HaierMessage`: a message is its type and payload bytes; subcommands are the first two payload bytes.
- Copying and assignment of `CircularBuffer` and moving of `HaierFrame`.
- Queue and size counters of `size_t` are unbounded; bytes, the checksum, the CRC and the write cursor have their widths.
- The reading of the simulator's control file line by line, the environment, and the status and event files; a number in the control file is missing, unreadable or a number.
- Floating-point rounding in the simulator: temperatures and times are real numbers. A hold of more than about 2.1 million seconds, which the control file does not rule out, exceeds the integer that its milliseconds are cast to (`smartair2_sim_control.cpp:381`); the model has no such limit.
- Logging, serial and socket input and output, the web console, and the hOn and SmartAir2 command handlers, which copy fields and give constant replies.
