# Verified models of the LPC15xx chip library

Dafny models of the five parts of the LPC15xx chip library whose correctness rests on more
than one line of code, with proofs that they do what they are for. `dafny verify
dfyconfig.toml` checks everything.

| file | models |
|---|---|
| `Bits.dfy` | unsigned integers that wrap at 8, 16 and 32 bits, and the C operators on them, defined bit by bit |
| `RingModel.dfy`, `RingBatch.dfy` | the ring buffer on values: slots, counters, single and bulk operations, whole runs against a bounded FIFO |
| `RingBuffer.dfy` | the C structure over a byte array that is overwritten in place, proved against the two files above |
| `RingRuns.dfy` | runs of calls on that class, in place, against the model's runs and the FIFO |
| `SpscRing.dfy` | one producer and one consumer on the same buffer, interleaved at every index access and every byte copied |
| `SpscHistory.dfy` | whole schedules of the two, call by call: what was accepted, what was delivered, when calls return |
| `I2cTransfer.dfy`, `I2cRuns.dfy`, `I2cTheorems.dfy` | the I2C master transfer: handler, bus controller, the invariant of every run, what follows from it |
| `I2cWords.dfy` | the driver by numbers: its reaction to each status word, in the literal codes of the headers |
| `I2cCauses.dfy` | the final status names the event that ended the run, in both directions |
| `I2cDriver.dfy` | the driver over mutable registers and a mutable transfer structure, including the blocking call |
| `I2cTiming.dfy` | clock divider, SCL phases, bus speed |
| `UartClock.dfy` | the fractional UART base clock |
| `Stopwatch.dfy` | the repetitive timer, elapsed time, polling delays, tick conversions |
| `Nvic.dfy` | interrupt priority encoding and the priority registers |

**Ring buffer.** `head` and `tail` are free-running 32-bit counters; only their low bits
address a slot. The class `RingBuffer` gives for each method the complete new state (bytes
and both counters) as a function of the old one; the bulk operations, with their two
`memcpy` segments, are proved equal to repeated single operations; and `RunIsFifo` says that
no sequence of calls, whatever the counters have wrapped to, distinguishes the ring from a
bounded FIFO; `RingRuns.Execute` carries this to sequences of calls on the class itself.
For concurrent use, `SpscRing` proves the same conservation law for every interleaving,
under sequentially consistent memory, with no byte ever shared by the two copies;
`SpscHistory` adds that the stream is the concatenation of what the insertions accepted of
the areas their callers passed, dealt out by what the removals returned, that no call moves
less than was possible when it was made, and that every pending call returns.

**I2C master.** The controller is the environment: after each command written to MSTCTL it
reports any of the events that UM10204 sections 3.1.4, 3.1.6 and 3.1.10 allow, or loses
arbitration (section 3.1.8), reports a bus error or a reserved code, or wakes the driver
idly. A handler call is atomic, because the controller stretches the bus while an event is
pending. The bus trace is part of the state, and the traffic documented in the header is
defined independently of the driver (`Documented`).

**Arithmetic.** For the UART clock, the bus speed, the delay loops and the tick conversions
the documented promise does not hold for all arguments. Each is stated as a predicate and
proved to hold if and only if a condition on the arguments does:

- UART base clock, for rates up to the main clock, as the header documents: the promised
  window is met exactly if main clock / rate is at most 255; a larger divider is silently cut
  to eight bits (the cut result is at least twice the rate, or the clock is off). A rate above
  the main clock is never met in integer mode; in fractional mode only main clock + 1 can be
  met, exactly if the low byte of the multiplier, computed from a wrapped error, is zero
  (`FractionalRange`). Instance: 9600 baud sixteenfold from 72 MHz gives 339,622 Hz instead
  of 153,600 Hz.
- I2C bus speed: met exactly if main clock / (divider * speed) is between 4 and 18. Instance:
  400 kHz from 72 MHz with the divider left at 1 gives a period of 4 cycles, not 180.
- Polling delays: end within a bounded number of polls exactly if ticks + (longest gap
  between polls) is at most 2^32.
- Tick conversions: invertible exactly if they do not overflow.
- I2C transfer: the receive count never underflows exactly if there is something to send or
  to receive.

**Where code and documentation disagree**, the model follows the code:

- `RingBuffer_GetSize` returns the number of items, its comment says bytes.
- The bus speed comments name the system clock; the code reads the main clock.
- The header describes transfer options to ignore a missing acknowledge and to acknowledge
  the last byte; the transfer structure has no options member, and a missing acknowledge
  always ends the transfer.
- The comment on the status code I2CM_STATUS_NAK_DAT speaks of the address phase; the
  handler sets it in the data phase.
- `Chip_I2CM_XferBlocking` is documented to return non-zero on success; it returns non-zero
  on every outcome, and the status member tells which.

## Model

| member | source | states |
|---|---|---|
| RingModel.IndexIsMod | lpc_chip_15xx/src/ring_buffer.c:43-44 | the mask count - 1 selects the counter modulo count, and the 32-bit wrap of the counter does not disturb this |
| RingModel.CountersAgree | lpc_chip_15xx/inc/ring_buffer.h:103-136 | slots, item count, emptiness computed from the wrapped counters are those of the unbounded totals of inserted and popped items |
| RingModel.SlotsDiffer | lpc_chip_15xx/src/ring_buffer.c:43-44 | fewer than count steps never lead back to the same slot, also across the wrap of the counter |
| RingModel.Segments | lpc_chip_15xx/src/ring_buffer.c:95-105 | the two segments cover min(available, requested) items, the first stays before the end of the buffer, a second one exists only if the first reaches the end, and it ends before the first begins |
| RingModel.BlitSlot | lpc_chip_15xx/src/ring_buffer.c:78-79 | copying an item into a slot leaves every other slot's bytes as they were |
| RingModel.InsertIsEnqueue | lpc_chip_15xx/src/ring_buffer.c:70-83 | an insertion appends to the queue if fewer than count items are queued and returns 1, else changes nothing and returns 0; tail and geometry stay |
| RingModel.InsertWritesOneSlot | lpc_chip_15xx/src/ring_buffer.c:78-79 | an insertion writes to the slot selected by the head and to no other byte |
| RingModel.PopIsDequeue | lpc_chip_15xx/src/ring_buffer.c:122-135 | a removal delivers the oldest item and keeps the rest in order, or reports the empty queue; bytes and head stay |
| RingBatch.InsertRangeIsEnqueue | lpc_chip_15xx/src/ring_buffer.c:70-83 | repeated insertion accepts a batch up to the free space, in order |
| RingBatch.RefusedItems | lpc_chip_15xx/src/ring_buffer.c:86-119 | inserting a whole batch one by one is inserting its first min(free, n) items: the state and number that InsertMult must reach |
| RingBatch.InsertRangeStaysInside | lpc_chip_15xx/src/ring_buffer.c:86-119 | however many items are inserted, memory behind the count slots is untouched |
| RingBatch.SegmentIsInserts | lpc_chip_15xx/src/ring_buffer.c:107-110 | one memcpy of n items followed by head += n leaves the same bytes, head and tail as n single insertions |
| RingBatch.PopEachIsDequeue | lpc_chip_15xx/src/ring_buffer.c:122-135 | n removals deliver the min(n, count) oldest items in order and leave the rest |
| RingBatch.SegmentIsQueue | lpc_chip_15xx/src/ring_buffer.c:159-162 | the bytes of n consecutive slots from the tail on are the n oldest items |
| RingBatch.ItemsComeBack | lpc_chip_15xx/src/ring_buffer.c:70-171 | a batch comes out as it went in, behind the items queued before, up to the free space |
| RingBatch.BytesComeBack | lpc_chip_15xx/src/ring_buffer.c:70-171 | the same byte for byte for an area of items |
| RingBatch.StepIsFifo | lpc_chip_15xx/src/ring_buffer.c:59-171 | each operation on values, bulk ones as repeated single ones, flush included, does to the queue and replies what a bounded FIFO does |
| RingBatch.RunIsFifo | lpc_chip_15xx/src/ring_buffer.c:59-171 | every sequence of operations on values from every valid state gets the replies of a bounded FIFO and leaves its queue (on the class: RingRuns.Execute) |
| RingBuffers.MemCpy | lpc_chip_15xx/src/ring_buffer.c:79 | memcpy between distinct areas: the destination with the range replaced by the source range |
| RingBuffers.SegmentLengths | lpc_chip_15xx/src/ring_buffer.c:95-105 | the code's reassignments of cnt1, cnt2 and num compute Segments |
| RingBuffers.SecondSegment | lpc_chip_15xx/src/ring_buffer.c:112-116 | a second segment that is not empty starts at slot 0; in any case it ends inside the buffer |
| RingBuffers.ByteOffsetIs | lpc_chip_15xx/src/ring_buffer.c:78 | the 32-bit product of index and item size does not overflow and is the slot's byte offset |
| RingBuffers.TwoSegmentsAreInserts | lpc_chip_15xx/src/ring_buffer.c:107-116 | the two copies and two head updates stay inside buffer and source and equal cnt1 + cnt2 single insertions |
| RingBuffers.RingBuffer.constructor | lpc_chip_15xx/src/ring_buffer.c:59-67 | an initialised buffer is valid and holds the empty queue; its bytes are untouched |
| RingBuffers.RingBuffer.Flush | lpc_chip_15xx/inc/ring_buffer.h:83-86 | the queue becomes empty and both counters 0 |
| RingBuffers.RingBuffer.GetSize | lpc_chip_15xx/inc/ring_buffer.h:93-96 | queued and free items make up the size, which no queue exceeds |
| RingBuffers.RingBuffer.GetCount | lpc_chip_15xx/inc/ring_buffer.h:103-106 | the signed 32-bit difference of the counters is the number of queued items |
| RingBuffers.RingBuffer.GetFree | lpc_chip_15xx/inc/ring_buffer.h:113-116 | count minus the number of queued items, never negative |
| RingBuffers.RingBuffer.IsFull | lpc_chip_15xx/inc/ring_buffer.h:123-126 | true exactly if count items are queued |
| RingBuffers.RingBuffer.IsEmpty | lpc_chip_15xx/inc/ring_buffer.h:133-136 | true exactly if no item is queued |
| RingBuffers.RingBuffer.Insert | lpc_chip_15xx/src/ring_buffer.c:70-83 | bytes, counters and result are those of the model's Insert; the queue grows by the item or the call is refused |
| RingBuffers.RingBuffer.InsertMult | lpc_chip_15xx/src/ring_buffer.c:86-119 | same bytes, head, tail as min(free, num) single insertions, which is the result; the queue grows by exactly those items |
| RingBuffers.RingBuffer.Pop | lpc_chip_15xx/src/ring_buffer.c:122-135 | state and delivered bytes are those of the model's Pop; nothing is written when the queue is empty |
| RingBuffers.RingBuffer.PopMult | lpc_chip_15xx/src/ring_buffer.c:138-171 | ring and items are those of num single removals, of which min(count, num) deliver; the destination holds their bytes in order and is otherwise untouched |
| RingRuns.ItemsOfFlatten | lpc_chip_15xx/src/ring_buffer.c:86-116 | laying items out in an area and cutting it into items gives the items back |
| RingRuns.ExecuteInsertMult | lpc_chip_15xx/src/ring_buffer.c:86-119 | the two-segment insertion of a batch on the class is the model's bulk step, reply included |
| RingRuns.ExecutePopMult | lpc_chip_15xx/src/ring_buffer.c:138-171 | the two-segment removal on the class is the model's bulk step, delivered items included |
| RingRuns.Execute | lpc_chip_15xx/src/ring_buffer.c:59-171 | every sequence of calls on the class leaves the ring and gives the replies of the model's run, and those of a bounded FIFO |
| SpscRing.StepIsSafe | lpc_chip_15xx/src/ring_buffer.c:70-171 | every step of either side, at any interleaving, keeps the invariant on counters, queued bytes, partial copies and batch |
| SpscRing.WriteByteIsSafe | lpc_chip_15xx/src/ring_buffer.c:107-116 | writing a byte of a batch disturbs no queued byte and none already written |
| SpscRing.PublishIsSafe | lpc_chip_15xx/src/ring_buffer.c:110-116 | when the head moves, the published bytes are completely in place |
| SpscRing.ReleaseIsSafe | lpc_chip_15xx/src/ring_buffer.c:161-168 | when the tail moves, the released bytes have been delivered as published |
| SpscRing.QueuedIsPublished | lpc_chip_15xx/src/ring_buffer.c:70-171 | at every instant the queue in the buffer is, item by item, what was published and not yet released |
| SpscRing.NothingLost | lpc_chip_15xx/src/ring_buffer.c:70-171 | bytes delivered followed by the bytes of the queue are the bytes published |
| SpscRing.EveryScheduleIsFifo | lpc_chip_15xx/src/ring_buffer.c:70-171 | this holds after every schedule from an initialised buffer, and at most count items are queued |
| SpscRing.NoSharedByte | lpc_chip_15xx/src/ring_buffer.c:107-168 | no byte of the segment being written is a byte of the segment being read |
| SpscRing.OnlyAPrefixIsVisible | lpc_chip_15xx/src/ring_buffer.c:107-118 | during an insertion only a prefix of the batch is visible to the consumer; after it, exactly as many items of the batch as it returned |
| SpscRing.IndexReadsAreExact | lpc_chip_15xx/inc/ring_buffer.h:103-136 | a call is refused exactly if the queue is full (empty) when the index is read; otherwise a single call moves one item, and a bulk call's size is exact at its second read |
| SpscRing.StepOnQueue | lpc_chip_15xx/src/ring_buffer.c:70-171 | only a publication adds to the stream and only a release delivers, each by the segment's items; copying changes neither |
| SpscRing.OnlyWrite | lpc_chip_15xx/src/ring_buffer.c:78-116 | no step writes any byte but the producer's next byte of the batch, in its place in the segment, and each index is written by its own side only |
| SpscRing.CallsAreWaitFree | lpc_chip_15xx/src/ring_buffer.c:70-171 | every own step brings a pending call closer to its return, no step of the other side sets it back, and a call for num items begins with num * itemSz + 4 steps at most |
| SpscHistory.EveryScheduleByCalls | lpc_chip_15xx/src/ring_buffer.c:70-171 | after every schedule the stream is, insertion by insertion, as many items of each batch as the call returned, followed by a prefix of the pending batch; the removals cut its beginning into pieces as long as they returned; the batches are, in order, the areas that the callers passed, no removal returns more than was asked for, and each call moves at least what was asked for and had room (was queued) when it was made |
| SpscHistory.InsertReturns | lpc_chip_15xx/src/ring_buffer.c:70-119 | in every schedule with as many producer steps as the pending insertion has work left, it returns |
| SpscHistory.PopReturns | lpc_chip_15xx/src/ring_buffer.c:122-171 | in every schedule with as many consumer steps as the pending removal has work left, it returns |
| I2cTransfer.AddressByteIs | lpc_chip_15xx/src/i2cm_15xx.c:117-163 | the address byte is the slave address modulo 128, doubled, plus the read bit |
| I2cWords.HandleReacts | lpc_chip_15xx/src/i2cm_15xx.c:62-153 | on every status word, by its number: which fields of the structure change and to what, the final status as its header value, the data register, the value written to MSTCTL, and the fault flag cleared |
| I2cWords.ControlByCode | lpc_chip_15xx/inc/i2c_common_15xx.h:81-103 | the state codes 0 to 4 belong to the words 0x01, 0x03, 0x05, 0x07 and 0x09, and only without a fault flag is MSTCTL written |
| I2cWords.BeginReacts | lpc_chip_15xx/src/i2cm_15xx.c:156-166 | the start by numbers: status 0xFF, bits 0, 4 and 6 of the status word gone, the address byte in MSTDAT and behind a START on the bus |
| I2cRuns.BeginIsSafe | lpc_chip_15xx/src/i2cm_15xx.c:156-166 | whatever controller state and status bits Xfer finds, it starts a run with the right address on the bus and no fault flag |
| I2cRuns.ReactIsSafe | lpc_chip_15xx/inc/i2c_common_15xx.h:81-102 | every event of the controller keeps the invariant |
| I2cRuns.RxReadyIsSafe | lpc_chip_15xx/src/i2cm_15xx.c:89-103 | taking a byte stores it next in order and acknowledges it, or refuses the acknowledge and stops after the last one |
| I2cRuns.TxReadyIsSafe | lpc_chip_15xx/src/i2cm_15xx.c:106-128 | the next byte of the buffer goes out, or a repeated START with the read address, or a STOP |
| I2cRuns.NackStops | lpc_chip_15xx/src/i2cm_15xx.c:130-140 | a missing acknowledge ends the transfer with one STOP behind the refused byte and the status for an address or a data byte |
| I2cRuns.FaultEnds | lpc_chip_15xx/src/i2cm_15xx.c:66-78 | faults and unexpected calls end the transfer where the master waits, without a STOP and with the status of the fault; an idle wake-up changes nothing |
| I2cRuns.HandleIsSafe | lpc_chip_15xx/src/i2cm_15xx.c:62-153 | no handler call leaves the buffers, and each keeps the invariant or reaches an outcome |
| I2cRuns.HandleAdvances | lpc_chip_15xx/src/i2cm_15xx.c:175-180 | a call on an event counts against the bound and ends the transfer or gives the controller a new command |
| I2cTheorems.EveryRunIsSafe | lpc_chip_15xx/src/i2cm_15xx.c:62-182 | for every transfer, initial state and sequence of events and handler calls: sizes and buffers are consistent, no STOP before the end, fewer calls than the bound, and a finished run has one of the outcomes |
| I2cTheorems.SuccessIsDocumented | lpc_chip_15xx/inc/i2cm_15xx.h:283-303 | a run that ends OK has put exactly the documented form on the bus, with the bytes in buffer order, in tx + 1 (if tx > 0) + rx handler calls; memory behind the received bytes is untouched |
| I2cTheorems.BytesInOrder | lpc_chip_15xx/src/i2cm_15xx.c:89-128 | in every state bytes sent plus txSz and bytes received plus rxSz are the original sizes, the data bytes on the bus are that prefix of the transmit buffer, and the received ones stand in order in the receive buffer |
| I2cTheorems.StopsByOutcome | lpc_chip_15xx/src/i2cm_15xx.c:66-152 | exactly one STOP if a run ends OK or without acknowledge, none if it ends with lost arbitration, bus error or error; never more handler calls than a fault-free run |
| I2cTheorems.NoStaleFault | lpc_chip_15xx/src/i2cm_15xx.c:156-166 | without such an event in this run, no run ends with lost arbitration or bus error, whatever flags were set before |
| I2cTheorems.FaultsAreReported | lpc_chip_15xx/src/i2cm_15xx.c:66-151 | lost arbitration is reported before a bus error, each clears its own flag only; reserved codes and calls without an event give ERROR; the bus is left alone |
| I2cCauses.CallIsTold | lpc_chip_15xx/src/i2cm_15xx.c:62-153 | a handler call ends the run with the verdict on what the controller reported last, or goes on with nothing reported |
| I2cCauses.StatusNamesTheCause | lpc_chip_15xx/src/i2cm_15xx.c:62-182 | over every finished run, each status 0 to 5 of the header holds if and only if the event that ended the run is the one it stands for; idle wake-ups never end a run |
| I2cTheorems.EmptyTransferUnderflows | lpc_chip_15xx/src/i2cm_15xx.c:89-95 | with both sizes zero one received byte is stored and rxSz becomes 65535 |
| I2cTheorems.UnderflowIffEmpty | lpc_chip_15xx/src/i2cm_15xx.c:89-128 | rxSz stays within its original value in all runs if and only if a size is positive |
| I2cTheorems.SuccessIsReachable | lpc_chip_15xx/src/i2cm_15xx.c:156-182 | every transfer can end OK with any data from the slave |
| I2cDriver.Port.WriteStatus | lpc_chip_15xx/inc/i2cm_15xx.h:160-164 | of the two sticky flags those written as one are cleared and the others kept, and no other bit changes |
| I2cDriver.Port.WriteControl | lpc_chip_15xx/inc/i2cm_15xx.h:197-226 | the complete effect on registers and bus of writing 1 (CONTINUE), 2 (START) or 4 (STOP) |
| I2cDriver.ReceiveByte | lpc_chip_15xx/src/i2cm_15xx.c:89-103 | registers, structure, buffer and bus afterwards are the model's, and 1 or, after the last byte, 4 was written to MSTCTL |
| I2cDriver.TransmitByte | lpc_chip_15xx/src/i2cm_15xx.c:106-128 | registers, structure and bus afterwards are the model's, and 1, 2 or 4 was written to MSTCTL for a byte, the turn to reading, or the end |
| I2cDriver.HandleCode | lpc_chip_15xx/src/i2cm_15xx.c:82-146 | the same for the branches on the state code of a pending event |
| I2cDriver.XferHandler | lpc_chip_15xx/src/i2cm_15xx.c:62-153 | the whole state afterwards is the model's, on each status word as HandleReacts says, with the value of MSTCTL, and the result tells whether the status is other than 0xFF |
| I2cDriver.StartXfer | lpc_chip_15xx/src/i2cm_15xx.c:156-166 | the whole state afterwards is the model's start of a run, with the numbers of BeginReacts and 2 in MSTCTL |
| I2cDriver.AwaitPending | lpc_chip_15xx/src/i2cm_15xx.c:176-177 | the polling loop ends with an event pending, the invariant kept and no handler call spent |
| I2cDriver.XferBlocking | lpc_chip_15xx/src/i2cm_15xx.c:169-182 | against any answering controller the call returns, in one of the outcomes, within the number of handler calls of a fault-free run, which takes exactly that number |
| I2cTiming.ClockDivRoundTrip | lpc_chip_15xx/inc/i2c_common_15xx.h:238-258 | the divider is read back as set if and only if it is in 1..65536, and as 1 otherwise; the register holds one less |
| I2cTiming.ClockDivIs | lpc_chip_15xx/inc/i2c_common_15xx.h:255-258 | the getter's value for any register contents: the low 16 bits plus one |
| I2cTiming.TimeRegisterDecodes | lpc_chip_15xx/inc/i2cm_15xx.h:101-104 | what the hardware makes of any pair of phases: each modulo 8, in 2..9, the high phase in bits 4 to 6 of the word and the low one in bits 0 to 2 |
| I2cTiming.DutyCycleKept | lpc_chip_15xx/inc/i2cm_15xx.h:90-104 | both phases survive if and only if both are in the documented range |
| I2cTiming.BusSpeedDecodes | lpc_chip_15xx/src/i2cm_15xx.c:55-59 | the period is halved, an odd cycle going to the low phase, each half kept modulo 8 in 2..9, and they sum to the period if and only if it is in 4..18 |
| I2cTiming.BusSpeedMetIff | lpc_chip_15xx/src/i2cm_15xx.c:55-59 | the bus is at least as fast as requested, and slower with one cycle more, if and only if 4 * divider * speed <= main clock < 19 * divider * speed |
| I2cTiming.OddPeriodInstance | lpc_chip_15xx/src/i2cm_15xx.c:55-59 | 400 kHz from 72 MHz with divider 20 programs 0x23, 4 cycles high and 5 low |
| I2cTiming.TooFastInstance | lpc_chip_15xx/src/i2cm_15xx.c:55-59 | 400 kHz from 72 MHz with divider 1 programs a period of 4 cycles |
| I2cDriver.Port.SetClockDiv | lpc_chip_15xx/inc/i2c_common_15xx.h:238-246 | stores the divider less one, or 0 outside the documented range, so that exactly this range is read back and the divider is 1 otherwise |
| I2cDriver.Port.SetDutyCycle | lpc_chip_15xx/inc/i2cm_15xx.h:101-104 | stores the phases in their bits so that exactly the documented range is decoded |
| I2cDriver.Port.SetBusSpeed | lpc_chip_15xx/src/i2cm_15xx.c:55-59 | stores the two halves of the computed period, the low phase the longer one if it is odd; the request is met exactly in the stated range |
| UartClock.ProductFits | lpc_chip_15xx/src/clock_15xx.c:361-374 | the 32-bit product rate * div never overflows and is never zero |
| UartClock.SetRateIs | lpc_chip_15xx/src/clock_15xx.c:323-385 | the rate read back from the written registers, in arithmetic, both modes, divider cut to eight bits |
| UartClock.BaseRateIs | lpc_chip_15xx/src/clock_15xx.c:323-350 | the getter in arithmetic, for any contents of the two registers |
| UartClock.WordsAre | lpc_chip_15xx/src/clock_15xx.c:361-382 | the words written, in arithmetic: the divider modulo 256 (1 above the main clock); 0 without the fraction; with it 0xFF in the low byte and above it the floor of 256 * (main - p) / p for p = rate * (main / rate), or above the main clock the low byte of the wrapped multiplier |
| UartClock.IntegerModeIff | lpc_chip_15xx/src/clock_15xx.c:353-385 | requested rate <= returned rate and returned rate * (main / rate) <= main if and only if main / rate is in 1..255 |
| UartClock.InRange | lpc_chip_15xx/src/clock_15xx.c:361-367 | for a divider d = main / rate: rate <= main / d and d * (main / d) <= main < (d + 1) * rate |
| UartClock.CutDivider | lpc_chip_15xx/src/clock_15xx.c:367 | a divider above 255 gives at least twice the requested rate, or no clock |
| UartClock.MultiplierFits | lpc_chip_15xx/src/clock_15xx.c:373-377 | for rates up to the main clock the multiplier is below 256, so its mask loses nothing, and it is the floor of the exact value |
| UartClock.FractionalModeIff | lpc_chip_15xx/src/clock_15xx.c:353-385 | for every rate: the returned rate is positive, at most 1 below and less than 1/256 above the requested one if and only if main / rate is at most 255 for rates up to the main clock, and above it only for main + 1 under the stated condition on the multiplier |
| UartClock.ExactIff | lpc_chip_15xx/src/clock_15xx.c:353-385 | in either mode, a rate that divides the main clock is returned exactly if and only if main / rate is in 1..255 |
| UartClock.FractionHelps | lpc_chip_15xx/src/clock_15xx.c:369-382 | for every rate the fractional result never exceeds the integer one; for rates up to the main clock its distance from the request is at most the integer one's, or 1; above, both stay below the request |
| UartClock.AboveMainClock | lpc_chip_15xx/src/clock_15xx.c:361-364 | a rate above the main clock is not reached in either mode |
| UartClock.TooFastInstance | lpc_chip_15xx/src/clock_15xx.c:353-385 | 153,600 Hz from 72 MHz returns 339,622 Hz in either mode |
| UartClock.Syscon.SetUARTBaseClockRate | lpc_chip_15xx/src/clock_15xx.c:353-385 | registers and result are the model's and the registers hold the words of WordsAre, the getter reports the result from then on, and it keeps the promise of its mode exactly if main / rate is in 1..255 (integer mode), or under the condition of FractionalModeIff (fractional mode) |
| Stopwatch.SplitJoin | lpc_chip_15xx/src/ritimer_15xx.c:88-104 | a 64-bit value split over a register pair and joined again is itself |
| Stopwatch.JoinIs | lpc_chip_15xx/src/ritimer_15xx.c:95-104 | the getters' value of a register pair is high * 2^32 + low |
| Stopwatch.JoinLow | lpc_chip_15xx/src/stopwatch_15xx.c:76-80 | the joined counter cut to 32 bits is its low register |
| Stopwatch.ElapsedIs | lpc_chip_15xx/inc/stopwatch.h:59-62 | modular subtraction gives the true elapsed time modulo 2^32, hence the true one below 2^32 |
| Stopwatch.NeverEarly | lpc_chip_15xx/inc/stopwatch.h:103-107 | a delay found over has lasted at least that many true ticks, however often the counter has wrapped |
| Stopwatch.WaitingIsShort | lpc_chip_15xx/inc/stopwatch.h:103-107 | while a loop waits, and no gap jumps over the window, true elapsed time is below the delay |
| Stopwatch.MayNeverEnd | lpc_chip_15xx/inc/stopwatch.h:103-107 | otherwise some sequence of polls is still waiting after any number of them |
| Stopwatch.DelayEndsIff | lpc_chip_15xx/inc/stopwatch.h:103-107 | the number of polls is bounded if and only if ticks + gap <= 2^32 |
| Stopwatch.RoundTripIff | lpc_chip_15xx/src/stopwatch_15xx.c:89-110 | converting to ticks and back is the identity if and only if the conversion does not overflow |
| Stopwatch.MinuteInstance | lpc_chip_15xx/src/stopwatch_15xx.c:101-104 | 60,000 ms at 72 MHz wrap to 25,032,704 ticks |
| Stopwatch.RoundsDown | lpc_chip_15xx/src/stopwatch_15xx.c:89-110 | converting from ticks and back rounds down by less than one unit |
| Stopwatch.Accuracy | lpc_chip_15xx/src/stopwatch_15xx.c:69-110 | the precomputed rate makes a conversion short by less than one tick per unit |
| Stopwatch.RiTimer.SetCTRL | lpc_chip_15xx/src/ritimer_15xx.c:70-76 | sets the given bits, keeps the four control bits, drops all others |
| Stopwatch.RiTimer.SetCompareValue | lpc_chip_15xx/src/ritimer_15xx.c:88-104 | COMPVAL holds the value modulo 2^32, COMPVAL_H the rest, and the getter returns the value set |
| Stopwatch.StopWatch.Init | lpc_chip_15xx/src/stopwatch_15xx.c:61-73 | COMPVAL 0xFFFFFFFF and COMPVAL_H 0, exactly the control bits 1 to 3 set, rates precomputed |
| Stopwatch.StopWatch.Start | lpc_chip_15xx/src/stopwatch_15xx.c:76-80 | returns true time modulo 2^32 |
| Stopwatch.StopWatch.DelayTicks | lpc_chip_15xx/inc/stopwatch.h:103-107 | returns within max(ticks, 1) polls, not before `ticks` true ticks, and less than one gap after them |
| Stopwatch.StopWatch.DelayMs | lpc_chip_15xx/inc/stopwatch.h:114-119 | lasts mS * ticksPerMs modulo 2^32 ticks, and less than one gap longer; without overflow short of mS milliseconds by less than mS ticks |
| Stopwatch.StopWatch.DelayUs | lpc_chip_15xx/inc/stopwatch.h:126-131 | lasts uS * ticksPerUs modulo 2^32 ticks, and less than one gap longer; without overflow short of uS microseconds by less than uS ticks |
| Nvic.Widths | lpc_chip_15xx/inc/core_cm3.h:1449-1454 | for every group the two field widths sum to the number of implemented bits |
| Nvic.CodeFits | lpc_chip_15xx/inc/core_cm3.h:1447-1460 | an encoded priority fits the implemented bits |
| Nvic.DecodeEncode | lpc_chip_15xx/inc/core_cm3.h:1447-1486 | decoding an encoded pair gives both priorities cut to their fields |
| Nvic.EncodeDecode | lpc_chip_15xx/inc/core_cm3.h:1447-1486 | encoding a decoded code gives the code back: codes and in-range pairs correspond one to one |
| Nvic.CodeOrder | lpc_chip_15xx/inc/core_cm3.h:1447-1460 | codes of in-range pairs are ordered by group priority, then by subpriority |
| Nvic.PriorityByteIs | lpc_chip_15xx/inc/core_cm3.h:1405-1432 | the stored byte holds the priority modulo 2^P in its upper bits, and reading shifts it back |
| Nvic.StoredPairIsReadBack | lpc_chip_15xx/inc/core_cm3.h:1405-1486 | encode, set, get and decode return the pair, cut to its fields |
| Nvic.Priorities.SetPriority | lpc_chip_15xx/inc/core_cm3.h:1405-1411 | stores the priority modulo 2^P in the upper bits of IP[irqn], for a system handler of SHP[12 + irqn], and changes no other cell of either array |
| Nvic.Priorities.GetPriority | lpc_chip_15xx/inc/core_cm3.h:1425-1432 | returns the upper P bits of that cell |

## Left out

- RingBuffers.RingBuffer.constructor: takes the documented counts (powers of two from 2 to 2^30) and a buffer of at least count * itemSize and less than 2^31 bytes; other arguments are undefined in C.
- RingRuns.Execute: each bulk call's area is less than 2^31 bytes, as its int item count and size demand.
- RingBuffers.RingBuffer.InsertMult: a negative number of items is not modelled, because in C it becomes a huge memcpy length; source and destination areas are distinct, as memcpy demands. The same holds for PopMult.
- SpscRing.EveryScheduleIsFifo: assumes sequentially consistent memory; compiler reordering and barriers are not modelled. RingBuffer_Flush writes both indices and is in the sequential model only.
- I2cDriver.XferBlocking: assumes that the controller answers every command after finitely many polls with a non-idle event and MSTPENDING set (idle wake-ups, which could keep the loop busy, are excluded there by Answers, but not in the theorems over runs); transmit and receive buffer may be the same array from the same start, but not overlap otherwise; a transfer with both sizes zero is excluded, because the code then overruns the receive buffer, see UnderflowIffEmpty.
- I2cTheorems.EveryRunIsSafe: handler calls are atomic, and the transmit buffer does not change during the transfer, as the header demands.
- Stopwatch.StopWatch.DelayTicks: requires the condition of DelayEndsIff, without which the loop need not end; delays of more than the counter's range cannot be expressed in its argument.
- I2C clock stretching, electrical behaviour, 10-bit addresses, the monitor and slave functions are not modelled.
- The I2C slave driver, the CRC engine, the SCT input processing unit, and the single-register drivers (ADC, DAC, ACMP, GPIO, DMA, PMU, RTC, WWDT, SWM, INMUX) would add only bit assignments or depend on hardware behaviour that the sources do not fix.
- How the main and the system clock rate are derived from the clock sources: they are parameters.
- Chip_RIT_ClearCTRL, the RIT mask registers and Chip_RIT_SetTimerIntervalHz: same shape as the modelled setters.
- The write-one-to-clear interrupt bit of the RIT control register: SetCTRL is modelled as a plain register write.
- NVIC enable, pending and active bits and the priority grouping register: single-register accesses.
- Priorities of the fixed-priority exceptions (numbers below -12): the code indexes outside the array for them.
