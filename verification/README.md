# Proofs about the communication framework

A Dafny model of the framework's three stateful parts and of the path a frame takes through them,
with proofs that hold for every input, every run and every interleaving.

**From frames to bytes and back.** `Frames`, `Crc`, `Codec`, `RingBuffer`, `Parser` and `Stream`
follow the C functions step by step over arrays and ring indices. Each is proved against a pure
description: the CRC loop against division of polynomials over GF(2) (`BitPolynomials`), the codec
against `Encoded` and `DecodeCheck`, the ring against the byte sequence it holds, the parser over the
wrapped ring against a scanner on byte sequences (`Scanner`), the socket loops against functions of the
schedule of system calls (`Delivery`). About the pure descriptions it is proved which damage the decoder notices (`WireProperties`), that cutting the stream into chunks makes
no difference, that noise between frames loses no frame, and that every byte is accounted for.

**The message manager.** `Transactions` describes the request/reply protocol from outside: what is
put on the channel, what is reported, and when. Its results hold of every legal run: reuse distance
of sequence numbers, one end for every transaction, the retry bound, no early timeout, conservation of
the counters. `MessageManager` is the C state machine over its array of pending slots; every operation
is shown to extend a legal run, whatever the channel answers, and to change the slots as
`PendingSlots` says. The pending-state check is proved to decide exactly the invariant, so a manager
that starts valid never reports an invalid state.

**The synchronised queue.** `QueueMonitor` is a step machine for any number of threads on one mutex
and two condition variables, with spurious wakeups, newcomers overtaking woken threads, timeouts and
close at any moment, and `Wakeups` says when a wakeup can be lost. `PthreadQueue` has the operations
as the C code writes them, around the sequential `FrameQueue`; each call is one invocation, one
completion and legal steps of the machine. `EndToEnd` joins the three parts.

**Found false, with the exact condition.**

- *No lost wakeup* fails if a waiter that was signalled may still report a timeout, which
  `pthread_cond_timedwait()` (IEEE Std 1003.1-2008, System Interfaces) permits: the code returns without
  testing the queue again and passes the signal on to nobody. `Wakeups.LostWakeupExactly` gives the exact
  condition, for consumers and for producers separately and for every capacity: wakeups of a side are
  kept in all runs if and only if fewer than three threads use the queue or no call of that side has a
  finite limit other than 0. `StrandedRun` is the failing run for any finite limit. FIFO order and close
  need no such condition, and in every run the missing wakeups never exceed the signals lost that way.
- *Enough transfers deliver every frame* needs one transfer more than there are bytes: the receive loop
  tests whether to stop before it parses (examples/linux_runtime/main.c:203), so a runtime that stops
  right after the last byte was read leaves the last frame in the ring. `TransfersNeeded` proves this
  number exact, and that one transfer per byte is exact for sending.
- *A second `process_timeouts` at the same moment does nothing* fails at the clock's last value, where
  the new deadline cannot lie in the future (`RepeatsAtEndOfTime`), and for refused repeats.
  `SecondSweepQuietExactly` gives the condition for the whole sweep and `DueAgain` slot by slot, in both
  directions.
- *Decoding undoes encoding* holds exactly for frames with nothing but zeros behind their payload
  (`RoundTripExactly`); `RoundTripLosesTail` is a frame that does not come back.

**Fixed values.** `KnownValues` and the statements by bytes in `Codec` fix the wire format and the CRC's
parameters by literal values, `QueueCounts` and the counting results in `Transactions` and `Scanner` fix
what each statistics counter counts by counting steps.

**Conventions.** C integers are ranges of the mathematical integers, so every addition and index is
proved to stay in its type; saturation is written out. `COMM_FRAME_MAX_PAYLOAD_SIZE` is any value in
1..65535 and `SIZE_MAX` any value from 2^32-1 on; capacities, timeouts and retry limits are arbitrary.
Optional pointers (statistics) are nullable; other pointer parameters are non-null. Words are combined
bit by bit on Boolean sequences (`Words`), not with bit-vectors.

## Model

| member | source | states |
|---|---|---|
| Crc.ShiftByte | src/comm_codec.c:43-50 | eight shifts of the word are eight clocks of the 16-bit feedback register |
| Crc.Compute | src/comm_codec.c:34-54 | the two nested loops over words leave the value of the feedback register after exactly the given bytes |
| Crc.CrcIsRemainder | src/comm_codec.c:34-54 | the CRC is the one remainder of degree below 16 of the message (first word preset to ones, 16 zeros appended) on division by x^16+x^12+x^5+1: any quotient and remainder that recompose the dividend have this remainder |
| BitPolynomials.DivisionIdentity | src/comm_codec.c:39-51 | quotient times generator plus the register recompose the dividend, for every preset and message |
| BitPolynomials.RemainderUnique | src/comm_codec.c:39-51 | two decompositions of the same dividend have the same remainder |
| BitPolynomials.ZeroIffMultiple | src/comm_codec.c:39-51 | the register ends at zero exactly for multiples of the generator |
| BitPolynomials.RunInjective | src/comm_codec.c:43-50 | equal input takes different registers to different registers |
| Crc.CrcAffine | src/comm_codec.c:34-54 | crc(x) xor crc(y) xor crc(z) = crc(x xor y xor z) for equal lengths |
| Crc.ResidueZeroIffCrc | src/comm_codec.c:108-113 | the CRC of a message and two more bytes is zero exactly if they are the message's big-endian CRC |
| KnownValues.CheckValue | src/comm_codec.c:34-54 | the CRC of the nine digits "123456789" is 0x29B1, the catalogue's check value for CRC-16/CCITT-FALSE |
| Codec.Encode | src/comm_codec.c:56-117 | each rejection exactly, by the frame's fields, with the output untouched; otherwise the output starts with the encoding, laid out byte by byte as the wire format says, and is unchanged behind it |
| Codec.Decode | src/comm_codec.c:119-188 | each rejection exactly, by the input's bytes and in the source's order, with the frame untouched; otherwise the input has the layout of the frame filled in |
| Codec.RejectionsExactly | src/comm_codec.c:135-171 | each answer names the first question the bytes fail: length, sync, version, type, limit, size, checksum |
| Codec.EncodedLayout | src/comm_codec.c:94-113 | sync AA 55, version, type, big-endian number and length, payload, big-endian CRC over version to payload |
| Codec.LayoutDetermines | src/comm_codec.c:94-113 | only the encoding has this layout |
| KnownValues.LiteralEncodings | src/comm_codec.c:94-113 | the bytes of one frame of each of the four types |
| Codec.DecodeEncoded | src/comm_codec.c:88-188 | decoding an encoding gives the frame with the bytes after its payload cleared |
| Codec.EncodeDecoded | src/comm_codec.c:88-188 | everything the decoder accepts is the encoding of what it returns |
| Codec.DecodeCharacterised | src/comm_codec.c:119-188 | the decoder accepts b as f exactly if f is encodable, cleared after its payload, and b is its encoding |
| Codec.RoundTripExactly | src/comm_codec.c:174-184 | a frame comes back unchanged exactly if only zeros follow its payload |
| Codec.RoundTripLosesTail | src/comm_codec.c:174-184 | a frame that does not come back: an empty payload with a byte behind it |
| WireProperties.PrefixFree | src/comm_codec.c:88-113 | if two encodings, each followed by anything, agree, then the frames and the continuations agree |
| WireProperties.ConcatenationSplitsOnce | src/comm_codec.c:88-113 | a concatenation of encodings comes from one list of frames only |
| WireProperties.DamageUnnoticedIff | src/comm_codec.c:139-171 | damage to an encoding goes unnoticed exactly if sync, version, type and length still pass and the damage pattern from version to CRC is a multiple of the generator |
| WireProperties.BurstRejected | src/comm_codec.c:139-171 | damage within any 16 consecutive bits is rejected |
| WireProperties.OddDamageRejected | src/comm_codec.c:139-171 | any odd number of flipped bits is rejected |
| WireProperties.TwoBytesRejected | src/comm_codec.c:139-171 | damage within any two adjacent bytes, across any field borders, is rejected |
| Circular.WindowAppended | src/comm_ringbuffer.c:139-158 | storing behind a circular window extends it and disturbs nothing in it |
| RingBuffer.Ring.StateIsValid | src/comm_ringbuffer.c:28-49 | decides the ring's invariant |
| RingBuffer.Ring.constructor | src/comm_ringbuffer.c:51-70 | a new ring is valid and empty |
| RingBuffer.Ring.Reset | src/comm_ringbuffer.c:72-89 | any ring with storage becomes valid and empty |
| RingBuffer.Ring.Write | src/comm_ringbuffer.c:109-161 | appends all bytes, across the wrap, or refuses and changes nothing; which, is said exactly |
| RingBuffer.Ring.Peek | src/comm_ringbuffer.c:163-217 | copies out any stretch of the contents, across the wrap, and changes nothing else |
| RingBuffer.Ring.Discard | src/comm_ringbuffer.c:219-246 | drops bytes from the front or refuses |
| RingBuffer.Ring.Read | src/comm_ringbuffer.c:248-260 | peeks and drops in one, or refuses |
| Parser.NextInternal | src/comm_parser.c:41-178 | for every ring position: the scanner's frame, remaining bytes and counts; the frame is written only when one is ready; each error has its exact condition |
| Parser.NextWithStats | src/comm_parser.c:207-223 | the same with statistics, counter by counter |
| Parser.Examine | src/comm_parser.c:72-150 | one loop turn decides as the scanner does on the ring's contents and consumes nothing |
| Parser.DropCandidate | src/comm_parser.c:125-176 | drops one byte and counts the reason |
| Parser.DiscardOne | src/comm_parser.c:26-38 | drops one byte and counts it |
| Scanner.DecisionStable | src/comm_parser.c:72-176 | a decision to accept or to skip does not depend on bytes that arrive later |
| Scanner.DecisionsExactly | src/comm_parser.c:86-168 | which bytes at the front lead to waiting, to each kind of discarding, and to acceptance |
| Scanner.DrainSplit | src/comm_parser.c:72-178 | draining a stream in two parts gives the frames, rest and counts of draining it at once |
| Scanner.ChunkingInvariance | src/comm_parser.c:72-178 | the same for every way of cutting the stream |
| Scanner.DrainIsCalls | src/comm_parser.c:41-178 | draining is what repeated calls do until one asks for more |
| Scanner.RetainedWaits | src/comm_parser.c:93-139 | what a call retains is shorter than the longest encoding and still waits |
| Scanner.NoiseThenFrame | src/comm_parser.c:86-111 | noise without an adjacent AA 55, even ending in AA, is dropped byte for byte and the frame behind it found |
| Scanner.Resynchronises | src/comm_parser.c:86-176 | frames with such noise between them parse to exactly those frames, with every noise byte counted |
| Scanner.NoiseAtTheEnd | src/comm_parser.c:86-111 | trailing noise is dropped except for a last AA |
| Scanner.ConcatenationDrains | src/comm_parser.c:137-161 | concatenated encodings parse to exactly their frames with nothing left or dropped |
| Scanner.GenuineFrameCovered | src/comm_parser.c:163-176 | after arbitrary bytes, a genuine frame is found or its first byte lies inside an earlier accepted frame |
| Scanner.FailureCauses | src/comm_parser.c:150-168 | a candidate that fails to decode fails by version, type or CRC only |
| Scanner.EveryByteAccounted | src/comm_parser.c:125-176 | bytes are discarded, part of an accepted frame, or retained; decode and length failures never exceed discarded bytes |
| Scanner.TallyCounts | src/comm_parser.c:125-176 | each counter is exactly the number of dropped bytes with its cause: every byte, too large a length, a failed decoding, a wrong CRC |
| Stream.ReceiveFrame | examples/linux_runtime/main.c:199-238 | exactly what `Delivery.Receive` says of ring, wire and schedule; a frame is delivered only over good calls, and a failed call is the last one made and ends the transport; the ring always has room to read into |
| Stream.ReceiveAll | examples/linux_runtime/main.c:296-329 | hands on exactly the frames of `Delivery.Receive` and leaves exactly its ring contents, wire and schedule; frames handed on and still ahead are together those ahead at the start; nothing is read after a failed call |
| Stream.SendBytes | examples/linux_runtime/main.c:241-262 | writes exactly as many bytes as `Delivery.Write` says, in order, and reports success exactly if these are all |
| Stream.SendFrame | examples/linux_runtime/main.c:264-273 | the same for the encoding of a frame; a frame without encoding uses nothing |
| Stream.SendAll | examples/linux_runtime/main.c:275-294 | leaves exactly the wire, count and schedule of `Delivery.Send` |
| Delivery.SendUnderway | examples/linux_runtime/main.c:241-294 | whatever the schedule, the wire holds the frames sent whole and a proper part of the next |
| Delivery.SendProgress | examples/linux_runtime/main.c:241-262 | without a failure every transfer moves a byte, and sending falls short only at the end of the schedule |
| Delivery.WriteUses | examples/linux_runtime/main.c:241-262 | for every schedule: sending goes on over good calls only, a failed one is the last, and a call moves at most three bytes |
| Delivery.OnePiece | examples/linux_runtime/main.c:246-252 | one call moves exactly what it allows of the next three bytes |
| Delivery.UnderwayDelivers | examples/linux_runtime/main.c:199-273 | in such a wire the receiver finds exactly the frames sent whole |
| Delivery.ReceiveConserves | examples/linux_runtime/main.c:199-238 | for every schedule, frames handed on followed by those still ahead are those ahead at the start |
| Delivery.ReceiveProgress | examples/linux_runtime/main.c:203-232 | without a failure receiving ends only with an empty wire or an empty schedule, every transfer having read a byte |
| Delivery.ReceiveUses | examples/linux_runtime/main.c:203-232 | for every schedule: receiving goes on over good calls only; a failed or empty one is the last and the transport has then ended, which it otherwise does only on an empty wire |
| Delivery.FailureIsFinal | examples/linux_runtime/main.c:225-231 | the calls after a failed one have no influence on anything received |
| Delivery.TransfersNeeded | examples/linux_runtime/main.c:199-262 | the number of transfers that suffices for every schedule without failures, exactly: one per byte to send, one more than that to receive |
| Delivery.FramesArrive | examples/linux_runtime/main.c:199-329 | for schedules without failures and with that many transfers, all frames are sent and exactly they are delivered, in order; otherwise a beginning of those sent whole |
| Stream.Transport | examples/linux_runtime/main.c:199-329 | the methods run one after the other do just that, under conditions on the two schedules alone |
| FrameQueue.Queue.StateIsValid | src/comm_frame_queue.c:43-63 | decides the queue's invariant |
| FrameQueue.Queue.PushInternal | src/comm_frame_queue.c:143-181 | appends the frame or reports exactly why not, changing nothing; all counters |
| FrameQueue.Queue.PopInternal | src/comm_frame_queue.c:183-217 | takes the oldest frame or reports exactly why not, changing nothing; all counters |
| FrameQueue.Queue.ResetStats | src/comm_frame_queue.c:122-140 | clears the counters; the peak starts at the current depth |
| QueueMonitor.StepInv | ports/linux/comm_frame_queue_pthread.c:309-598 | every step of every thread keeps the invariant |
| QueueMonitor.RunInv | ports/linux/comm_frame_queue_pthread.c:309-598 | so does every run; with lost signals the missing wakeups are bounded by their number |
| QueueMonitor.FirstInFirstOut | ports/linux/comm_frame_queue_pthread.c:362-577 | under every interleaving, the frames popped followed by the queue are the frames pushed |
| QueueMonitor.NothingAcceptedAfterClose | ports/linux/comm_frame_queue_pthread.c:421-426 | after close no push succeeds |
| QueueMonitor.ClosedMeansDrained | ports/linux/comm_frame_queue_pthread.c:562-570 | pop reports a closed queue only when every accepted frame has been popped |
| QueueMonitor.ResultMeaning | ports/linux/comm_frame_queue_pthread.c:362-577 | what each result says about the queue at that moment |
| QueueCounts.SectionOutcome | ports/linux/comm_frame_queue_pthread.c:362-577 | everything a critical section decides, from the state it finds: wait, time out, refuse, or move which frame |
| QueueCounts.CloseOutcome | ports/linux/comm_frame_queue_pthread.c:276-295 | close closes, keeps the frames, and wakes exactly those asleep |
| QueueMonitor.MovesComplete | ports/linux/comm_frame_queue_pthread.c:428-577 | a critical section moves a frame exactly if it completes a successful call with that frame |
| Wakeups.MissingWakeupsBounded | ports/linux/comm_frame_queue_pthread.c:362-593 | on each side, the wakeups missing while one sleeps never exceed the signals that side lost |
| Wakeups.NoLostWakeup | ports/linux/comm_frame_queue_pthread.c:362-593 | a side that lost no signal: while one of it sleeps, what is available never outnumbers those woken and yet to run, whatever happened on the other side |
| Wakeups.UntimedSideKeepsWakeups | ports/linux/comm_frame_queue_pthread.c:379-452 | calls that return at once or wait without limit lose no wakeup of their side |
| Wakeups.StrandedRun | ports/linux/comm_frame_queue_pthread.c:392-406 | for every finite limit, capacity and three threads, and for either side, a run that leaves one asleep beside what it waits for |
| Wakeups.LostWakeupExactly | ports/linux/comm_frame_queue_pthread.c:362-593 | on either side, for every capacity: no run loses a wakeup, and none leaves a sleeper behind, exactly if there are fewer than three threads or no call of that side has a finite limit |
| Wakeups.SomebodyCanRun | ports/linux/comm_frame_queue_pthread.c:362-593 | on a side that lost no signal, if one sleeps beside something available, one that was woken can run |
| Wakeups.NeverAllAsleep | ports/linux/comm_frame_queue_pthread.c:362-593 | if consumers and producers sleep, one of them has been woken and can run |
| QueueMonitor.ClosedQueueReleases | ports/linux/comm_frame_queue_pthread.c:253-307 | after close nobody sleeps and every call that runs returns |
| QueueMonitor.StatsAlwaysBalance | ports/linux/comm_frame_queue_pthread.c:428-440 | pushed plus depth at the last reset equals popped plus depth; depth <= peak <= capacity; waits <= encounters |
| QueueCounts.StatsCount | ports/linux/comm_frame_queue_pthread.c:351-440 | over every run since the last reset: each counter is the number of calls completed with success, of calls completed with a timeout, or of first critical sections that found the open queue full or empty (waiting if they may); the peak is the deepest the queue has been |
| PthreadQueue.SharedQueue.Push | ports/linux/comm_frame_queue_pthread.c:309-457 | the thread invokes this call once, completes it once, and moves this frame exactly on success, by legal steps of the machine, others running whenever the mutex is free; the statistics are those of the machine |
| PthreadQueue.SharedQueue.Pop | ports/linux/comm_frame_queue_pthread.c:459-598 | the same; it moves exactly the frame it hands out, and writes the output only on success |
| PthreadQueue.SharedQueue.CoreIsValid | ports/linux/comm_frame_queue_pthread.c:46-60 | used plus free space equals the capacity exactly when the core is sound |
| PthreadQueue.SharedQueue.WaitingTurn | ports/linux/comm_frame_queue_pthread.c:367-419 | one turn of the loop: limit 0 times out at once, other limits sleep, a call without limit only goes on, a finite one may give up with the result its state demands |
| PthreadQueue.SharedQueue.AwaitTurn | ports/linux/comm_frame_queue_pthread.c:367-419 | the whole loop ends with the condition to proceed met, or with the call given up or asleep |
| PthreadQueue.SharedQueue.TimedOutSection | ports/linux/comm_frame_queue_pthread.c:392-406 | after a timeout: closed exactly if the queue is closed (and, for pop, empty), else timeout; nothing is moved |
| PthreadQueue.SharedQueue.Close | ports/linux/comm_frame_queue_pthread.c:253-307 | closes and wakes every waiter |
| PthreadQueue.SharedQueue.ResetStats | ports/linux/comm_frame_queue_pthread.c:231-251 | clears the counters; the peak starts at the current depth |
| PthreadQueue.SharedQueue.GetStats | ports/linux/comm_frame_queue_pthread.c:201-229 | field by field, those numbers since the last reset, up to the counters' maximum; the snapshot balances with the depth: pushed - popped = used - used at the last reset, used <= peak <= capacity |
| Transactions.RunInv | src/comm_message_manager.c:204-249 | in every reachable state: open requests within capacity, nonzero matching numbers, retries within the limit |
| Transactions.EveryTransactionEndsOnce | src/comm_message_manager.c:557-766 | over any stretch of any run the starts and ends of a sequence number balance: exactly one end between two starts |
| Transactions.OpenTransactionLife | src/comm_message_manager.c:557-765 | an open transaction has one start, no end, 1 + retries identical frames a waiting time apart, and a deadline behind all its waiting times |
| Transactions.WaitsFromLastCopy | src/comm_message_manager.c:557-566 | the deadline of an open transaction is its last copy's time plus exactly the timeout, or the clock's last value if that is passed |
| Transactions.RetryBound | src/comm_message_manager.c:718-765 | no transaction puts more than 1 + max_retries frames on the channel |
| Transactions.NoEarlyTimeout | src/comm_message_manager.c:714-733 | a final timeout comes after 1 + max_retries identical frames and not before start + (max_retries + 1) * timeout or the clock's last value, without assuming a monotone clock |
| Transactions.ReplyEndsItsRequest | src/comm_message_manager.c:644-674 | a matched reply ends exactly one earlier request of its number and reports its retries |
| Transactions.EndReportsRetries | src/comm_message_manager.c:650-674 | the one event that ends a transaction names the reply (or the request given up) and one less than the copies sent of its request |
| Transactions.SequenceReuseDistance | src/comm_message_manager.c:526-569 | between two requests with one number and no reset, at least 65535 - capacity others were sent, indeed 65534 less those open at the first |
| Transactions.FirstUnusedMeans | src/comm_message_manager.c:530-541 | the number chosen is the first unused one going upwards from the cursor to 65535 and then from 1 |
| Transactions.NumbersGoUp | src/comm_message_manager.c:132-139 | the next request gets the next number, 1 after 65535, if that is not in use, and else the first unused one behind it |
| Transactions.FirstNumberIsOne | src/comm_message_manager.c:378-380 | the first request of all, and the first after a reset, gets number 1 |
| Transactions.NumbersSuffice | src/comm_message_manager.c:526-541 | all numbers can be in use beside a free slot only if the capacity exceeds 65535 |
| Transactions.Conservation | src/comm_message_manager.c:29-80 | over any stretch: open before + requests = responses + errors + timeouts + cancelled + open after; frames sent = requests + retries + others |
| Transactions.TotalsCount | src/comm_message_manager.c:29-80 | each counter is exactly the number of steps it is there for |
| Transactions.ChannelledMean | src/comm_message_manager.c:552-557 | the channel holds every accepted request, repeat and other frame, once and in order |
| Transactions.PeakCovers | src/comm_message_manager.c:571-577 | the peak bounds every number of open requests since the reset |
| Transactions.PeakReached | src/comm_message_manager.c:571-577 | and was reached |
| Transactions.PeakWithin | src/comm_message_manager.c:571-577 | the peak never exceeds the capacity |
| PendingSlots.SlotReleased | src/comm_message_manager.c:668-674 | clearing a slot removes exactly its transaction |
| PendingSlots.SlotFilled | src/comm_message_manager.c:557-566 | filling a slot adds or replaces exactly one transaction |
| PendingSlots.FirstErrorIsFirst | src/comm_message_manager.c:744-753 | the reported error answers the earliest refused call, and none is reported exactly if none was refused |
| PendingSlots.MapMeans | src/comm_message_manager.c:268-287 | which channel answers each result stands for |
| PendingSlots.SweepTreats | src/comm_message_manager.c:714-766 | a sweep asks for an active request again, or gives it up, exactly if its deadline has come |
| PendingSlots.ExpiryEventsMean | src/comm_message_manager.c:718-733 | each request given up is reported once, in slot order, with its own frame and retries |
| PendingSlots.DueAgain | src/comm_message_manager.c:714-762 | after a sweep a slot is due at the same moment exactly if its repeat was refused or the clock is at its last value |
| PendingSlots.SecondSweepQuietExactly | src/comm_message_manager.c:704-768 | a second sweep at the same moment asks and reports nothing exactly if every repeat of the first was accepted and, when there was one, the clock was not at its last value |
| PendingSlots.SecondSweepQuiet | src/comm_message_manager.c:704-768 | and then it changes no slot either |
| PendingSlots.UnansweredRequestEnds | src/comm_message_manager.c:714-765 | with an accepting channel an unanswered request ends with the due sweep after its last permitted repeat, no earlier and no later; sweeps that come too early do nothing |
| PendingSlots.EveryRequestEnds | src/comm_message_manager.c:704-766 | the same for the whole array: all have ended exactly if each has met more due sweeps than it had repeats left |
| PendingSlots.SpacedSweepsEndAll | src/comm_message_manager.c:704-766 | 1 + max_retries sweeps a waiting time apart end every unanswered request |
| PendingSlots.RepeatsAtEndOfTime | src/comm_message_manager.c:256-265 | at the clock's last value an accepted repeat is due again at once |
| MessageManager.Init | src/comm_message_manager.c:343-392 | refuses zero capacity or timeout and touches nothing, or starts valid with every slot free |
| MessageManager.Manager.HasValidPendingState | src/comm_message_manager.c:204-249 | the nested loops decide exactly the invariant of cursor and slots |
| MessageManager.Manager.SoundMeans | src/comm_message_manager.c:211-246 | that invariant, field by field |
| MessageManager.Manager.FindUnusedSequence | src/comm_message_manager.c:530-541 | finds the cyclically first unused number from the cursor; fails exactly when all 65535 are used |
| MessageManager.Manager.FindPendingBySequence | src/comm_message_manager.c:169-183 | finds an active slot with the number exactly if there is one |
| MessageManager.Manager.FindFreePending | src/comm_message_manager.c:186-198 | finds the first free slot, or none is free |
| MessageManager.MakeDeadline | src/comm_message_manager.c:256-265 | now + timeout, or the clock's last value if that is passed |
| MessageManager.Manager.PushFrame | src/comm_message_manager.c:29-44 | one channel call, counted as sent or failed |
| MessageManager.Manager.NotifyEvent | src/comm_message_manager.c:47-80 | counts the event by its kind, then delivers it |
| MessageManager.Manager.SendRequest | src/comm_message_manager.c:489-580 | each result exactly when; on success exactly this frame goes out, the first free slot is filled with the deadline now + timeout, the cursor moves behind the number; on failure no slot, cursor or output changes; numbers never run out up to capacity 65535 |
| MessageManager.Manager.SendFrame | src/comm_message_manager.c:296-341 | result by length, number and channel; exactly this frame goes out if accepted, slots untouched |
| MessageManager.Manager.SendResponse | src/comm_message_manager.c:476-487 | the same for responses |
| MessageManager.Manager.SendReport | src/comm_message_manager.c:582-592 | the same for reports, with number 0 |
| MessageManager.Manager.SendError | src/comm_message_manager.c:594-605 | the same for errors |
| MessageManager.Manager.HandleFrame | src/comm_message_manager.c:607-683 | exactly one event with this frame: its kind by the frame's type and by whether a slot holds its number, its retries those of that slot; exactly the answered slot is freed; unknown types change nothing |
| MessageManager.Manager.ProcessSlot | src/comm_message_manager.c:704-766 | one slot: skipped, given up with its event, or repeated as the channel allows; exactly the step recorded, with this `now_ms` |
| MessageManager.Manager.GiveUp | src/comm_message_manager.c:718-734 | frees the slot, reports the request and records its final timeout at `now_ms` |
| MessageManager.Manager.Repeat | src/comm_message_manager.c:741-765 | asks the channel once; exactly if it accepts, the request goes out, the slot's retries go up by one and its deadline becomes now + timeout |
| MessageManager.Manager.ProcessTimeouts | src/comm_message_manager.c:685-769 | the whole array is treated slot by slot independently, steps and events in slot order and at `now_ms`, first channel error returned, for arbitrary channel answers; an active request is asked for again or given up exactly if the timeout has passed since its last copy; whatever is given up was sent 1 + max_retries times and has waited that many waiting times |
| MessageManager.Manager.Reset | src/comm_message_manager.c:458-474 | any state becomes valid and empty with cursor 1, without events; slots keep everything but their activity |
| MessageManager.Manager.ResetStats | src/comm_message_manager.c:441-456 | counting starts anew; slots and run are untouched |
| MessageManager.Manager.GetStats | src/comm_message_manager.c:426-439 | each field is the number of steps it counts since the last reset, up to its maximum; unsaturated fields satisfy the conservation laws; the peak is the most ever open, within the capacity |
| EndToEnd.ManagerFramesSurvive | src/comm_message_manager.c:543-550 | every frame the manager sends has an encoding and decodes to itself |
| EndToEnd.SentFramesArrive | examples/linux_runtime/main.c:275-294 | for every interleaving, every cutting into chunks and however far sending has got: the frames the manager sent are those the peer parses, then those not yet whole on the wire, then those still queued, in order |

## Left out

- Null-argument branches, and results that only foreign failures produce (`SYSTEM_ERROR`; the parser's ring errors after its first check): parameters are non-null and pthread calls succeed.
- Initialisation and destruction of the pthread objects, `clock_gettime` and the conversion to an absolute `timespec`: a timeout is an event that may happen to any sleeper with a finite limit.
- Stream.ReceiveFrame, Stream.SendBytes: system calls follow a finite schedule whose end means the runtime is stopping, since a loop without end has no result.
- PthreadQueue.SharedQueue.Push, PthreadQueue.SharedQueue.Pop: an operation is observed for an arbitrary but finite number of returns from waiting; after that it is reported as asleep.
- The mutex itself: one step of `QueueMonitor` is everything done while holding it; `LockMutex` and `Wait` promise only what legal steps of other threads allow.
- Stream.Transport: sends everything before it receives; that the order of sending and receiving does not matter is Delivery.ReceiveConserves and Scanner.ChunkingInvariance.
- The rest of examples/linux_runtime/main.c (sockets, signals, threads, reconnecting, printing) and all of examples/appliance_manager: orchestration and range checks.
- src/comm_frame_channel.c and ports/linux/comm_frame_channel_pthread.c: forwarding; the channel is an arbitrary sequence of answers, bound for good.
- Callbacks: events are appended to a list; re-entering the manager from a callback is forbidden by include/comm_message_manager.h and not modelled.
- Struct layout, padding and overlapping caller buffers: the documented non-overlap rules are preconditions.
- `comm_frame_queue_reset`, the `comm_parser_next*` and `comm_frame_queue_push/pop*` wrappers: one assignment or one call each.
