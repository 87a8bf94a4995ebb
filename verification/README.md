# CTU CAN FD: verified models of the driver and of two small machines around it

A Dafny 4.11 project about the behaviour of the CTU CAN FD driver (transmit ring, bit-timing solver, frame codec,
receive path, timestamp read), the APB adaptor of the core, and the signal-hierarchy parser of the test framework.
`dafny verify dfyconfig.toml` checks all of it.

| module | what it holds |
|---|---|
| `Words`, `Division` | 32-bit words with explicit wrap-around; floor-division facts |
| `TxPriority` | the packed priority word and its rotation |
| `TxRing` | the TX ring as a step system: `ctucan_start_xmit`, the TXBHCI branch of `ctucan_interrupt`, `ctucan_tx_interrupt` and the core, one register access a step, in any interleaving |
| `TxRingSafety`, `TxRingTheorems` | the inductive invariant and what follows from it for every reachable state |
| `TxDriver` | the same functions as methods of an object, with other steps between any two accesses; each method is an execution of the step system |
| `BitTiming`, `BitTimingProofs` | `can_calc_bittiming`, `can_update_sample_point`, `can_fixup_bittiming` and the BTR/BTR_FD setters on unsigned 32-bit arithmetic; optimality, limits, round trips |
| `FrameCodec`, `RxStream` | frame words, `ctu_can_fd_insert_frame`, the reader, `ctucan_rx` and the loops of `ctucan_rx_poll` |
| `RxHandshake` | RBNEI, the interrupt handler, NAPI and the poll as a step system |
| `Timestamp` | the 64-bit read against a running counter |
| `ApbAdaptor` | the read and write strobes against a master of the AMBA APB Protocol Specification (ARM IHI 0024) |
| `Hierarchy` | the indentation parser |

## What is assumed about the core

The core appears only through these rules: with no buffer transmitting it moves the ready buffer of highest priority to
transmitting; a transmitting buffer ends in TOK, ERR or ABT and raises TXBHCI, or goes back to ready; only the driver
fills or empties buffers; TXTNF says that some buffer is empty; RBNEI is raised while it is enabled and the RX FIFO is
not empty; RWCNT counts the words after FRAME_FORM_W, which is 3 for remote frames.

## Where the code does not do what it is for

Each of these is kept as the code has it, with a witness and the exact condition.

- The last clear of TXBHCI in `ctucan_tx_interrupt` (driver/ctu_can_fd.c:647) discards the interrupt of a frame that
  completed since the last status read; doc/core/linux-driver.tex:147-158 says the buffer is checked again after every
  clear. `TxRingTheorems.StrandingRun` is a run that strands a frame, `TxRingTheorems.FinalClear` says exactly when that
  happens, and `TxRingTheorems.VariantNeverStrands` that skipping the clear in an idle pass repairs it. The comment
  at driver/ctu_can_fd.c:630 that no buffer was processed in the pass when the label is reached does not hold either; the model
  carries the flag.
- `can_calc_bittiming` can report success with no split written, sample point 0 and a wrong bit rate:
  `BitTimingProofs.SuccessWithoutSplit` is an input, `BitTimingProofs.MissingSplit` and
  `BitTimingProofs.UnsplittableQuanta` the condition, `BitTimingProofs.ZeroSegments` what it then returns.
- `can_update_sample_point` does not look at `tseg1_min`, so a calculation can succeed with a timing that
  `can_fixup_bittiming` then refuses: `BitTimingProofs.EarlySampleRefused` is an input, `BitTimingProofs.TooShortTseg1`,
  `BitTimingProofs.WithinLimits` and `BitTimingProofs.CalcThenFixup` the condition.
- The search tries two prescalers per bit length. That finds the best setting of the hardware whenever it finds any,
  but once the quotient for the longest bit exceeds the largest prescaler it tries nothing, not even that prescaler:
  `BitTimingProofs.MissedPrescaler` is an input, `BitTimingProofs.CandidateCondition` and
  `BitTimingProofs.SucceedsExactly` the condition.
- The register setters re-split only an overlong first phase segment, so segments given by hand can lose bits:
  `BitTimingProofs.HandSplitLosesBits`, `BitTimingProofs.RegisterOfFixed`.
- The RTR flag of base-format frames is overwritten (driver/ctu_can_fd_hw.c:101): `FrameCodec.BaseRemoteFlagLost`,
  `FrameCodec.IdRoundTrip`.
- The reader takes data words for remote frames that have none (driver/ctu_can_fd_hw.c:599) and is then inside the next
  frame: `FrameCodec.RemoteFrameOverread`, `FrameCodec.TakesItsWords`, `RxStream.StaysAtBoundary`.
- `ctucan_rx_poll` can report more than its quota: `RxHandshake.QuotaExceeded`, `RxHandshake.ReportedWork`.
- A write begun during the reset countdown of the APB adaptor is strobed more than once:
  `ApbAdaptor.WriteStrobedThrice`, `ApbAdaptor.WriteStrobedOnce`.

## Model

| member | source | states |
|---|---|---|
| `TxPriority.RotateIsCyclic` | driver/ctu_can_fd.c:547-558 | one rotation moves each of the low n nibbles up one place cyclically, for every word: nothing above nibble n-1 leaks back |
| `TxPriority.RotationInvariant` | driver/ctu_can_fd.c:187-190 | for 1, 2, 4 or 8 buffers, after any number k of rotations nibble (k+j) mod n is 7-j |
| `TxPriority.StrictRanking` | driver/ctu_can_fd.c:547-558 | the 3-bit priorities the core sees fall strictly along the n buffers counted from k |
| `TxPriority.SlotIsMasked` | driver/ctu_can_fd.c:301 | the buffer of frame number q is the bit-wise and of q with txb_mask, for every q and every buffer count |
| `TxPriority.DistinctSlots` | driver/ctu_can_fd.c:301 | frames less than n apart never share a buffer |
| `TxRingSafety.WrappedSlot` | driver/ctu_can_fd.c:301 | the masked 32-bit counter and the unbounded one name the same buffer through any number of wraps |
| `TxRingSafety.WrappedDifference` | driver/ctu_can_fd.c:586 | the signed-difference test on 32-bit counters is the comparison of the unbounded ones |
| `TxRingSafety.WrappedWindow` | driver/ctu_can_fd.c:586 | the 32-bit difference of the counters is the true number of frames between them |
| `TxRingSafety.SelectsOldest` | driver/ctu_can_fd.c:62-70 | in every state that meets the invariant the buffer the core selects holds the oldest incomplete frame |
| `TxRingSafety.RingKeeps` | driver/ctu_can_fd.c:282-651 | every enabled step keeps the ring invariant: counters, logs, buffers, echo slots, control points |
| `TxRingSafety.RunKeeps` | driver/ctu_can_fd.c:282-651 | so does every run, together with the priority word |
| `TxRingTheorems.FifoOrder` | driver/ctu_can_fd.c:62-70 | in every reachable state the completed frames are the accepted ones in order, and the retired ones are a prefix of the completed ones with the same outcomes |
| `TxRingTheorems.Conservation` | driver/ctu_can_fd.c:594-635 | accepted = tx_packets + tx_dropped + (head - tail), the window never exceeds n, and tx_packets counts exactly the frames retired as transmitted |
| `TxRingTheorems.WindowShape` | driver/ctu_can_fd.c:586-642 | between any two accesses the finished buffers are exactly a prefix of [tail, head), only the next one may be transmitting, and an empty one in the window is the one being filled |
| `TxRingTheorems.EchoWindow` | driver/ctu_can_fd.c:301-312 | an echo slot is occupied if and only if its frame is in the window and was stored |
| `TxRingTheorems.NoBugBranch` | driver/ctu_can_fd.c:301-312 | no run reaches the insert BUG branch, the unfinished-tail BUG branch, an occupied slot on put or an empty slot on get |
| `TxRingTheorems.PendingMeansFinished` | driver/ctu_can_fd.c:696-702 | TXBHCI pending at handler entry implies a nonempty window whose first buffer is finished |
| `TxRingTheorems.NotFullMeansHeadEmpty` | driver/ctu_can_fd.c:294-310 | TXTNF set at the entry of start_xmit implies the buffer at head is empty |
| `TxRingTheorems.BugBranchesTouchNothing` | driver/ctu_can_fd.c:307-310 | were they reached, the two BUG branches would end their call with every register, buffer and slot as it was |
| `TxRingTheorems.QuietUntilCompletion` | driver/ctu_can_fd.c:644-647 | acknowledging or clearing TXBHCI silences it until the next completion, whatever happens meanwhile |
| `TxRingTheorems.FinalClear` | driver/ctu_can_fd.c:643-648 | the idle clear strands a finished frame if and only if a completion falls between the last check and the clear; never in the variant that skips it |
| `TxRingTheorems.LastCheckSawNothing` | driver/ctu_can_fd.c:586-631 | every way into the idle clear comes from a check that found no finished buffer at the tail |
| `TxRingTheorems.VariantNeverStrands` | doc/core/linux-driver.tex:147-158 | with the idle clear skipped no reachable state has a finished buffer, an idle handler and no pending interrupt |
| `TxRingTheorems.StrandingRun` | driver/ctu_can_fd.c:643-648 | a run of the driver with four buffers that ends stranded |
| `TxDriver.Driver.constructor` | driver/ctu_can_fd.c:187-190 | chip start leaves the initial ring state |
| `TxDriver.Driver.Interfere` | driver/ctu_can_fd.c:282-323 | whatever the core and the other thread do in between leaves this thread's control point and log alone and never fills an empty buffer while start_xmit runs |
| `TxDriver.Driver.StartXmit` | driver/ctu_can_fd.c:282-323 | the frame is accepted if a buffer is empty on entry, whatever happens meanwhile; a busy result accepts nothing |
| `TxDriver.Driver.FillBuffer` | driver/ctu_can_fd.c:304-312 | from the buffer just taken, insertion succeeds and the frame is published |
| `TxDriver.Driver.CheckTail` | driver/ctu_can_fd.c:586-631 | loop test and status read end in a finished buffer or at the clear, never in the BUG branch |
| `TxDriver.Driver.RetireTail` | driver/ctu_can_fd.c:594-641 | exactly one frame is retired, by the steps account, rotate, set empty of the ring in this order |
| `TxDriver.Driver.ProcessAll` | driver/ctu_can_fd.c:585-642 | the inner loop terminates and its flag says whether it retired anything |
| `TxDriver.Driver.TxInterrupt` | driver/ctu_can_fd.c:566-651 | terminates within (head - tail at entry) + 1 passes when nothing is accepted meanwhile, at most one more than it retires always; on return a frame is stranded if and only if TXBHCI was raised at the last clear |
| `TxDriver.StepFrame` | driver/ctu_can_fd.c:282-651 | what each kind of step leaves alone |
| `BitTiming.UpdateSamplePoint` | driver/ctu_can_fd_linux_defs.c:84-127 | the loop returns the better of the two tries, the first on a tie, and keeps the caller's segments when neither is acceptable |
| `BitTiming.Evaluate` | driver/ctu_can_fd_linux_defs.c:159-170 | prescaler and bit-rate error of one loop value, and whether the prescaler is usable |
| `BitTimingProofs.BrpIsMultiple` | driver/ctu_can_fd_linux_defs.c:161-165 | for any step the prescaler tried is the multiple of brp_inc just below the rounded quotient |
| `BitTiming.Search` | driver/ctu_can_fd_linux_defs.c:157-192 | the result is the one candidate the request determines: a lexicographic minimum of (bit-rate error, sample-point error) over all loop values in spite of the early exit, ties broken as the loop does; UINT_MAX exactly when there is no candidate; the segments left behind come from some round |
| `BitTiming.HugeError` | driver/ctu_can_fd_linux_defs.c:194-204 | with no candidate the error check fails for every bit rate, even after truncation to 32 bits |
| `BitTiming.SelectedDivides` | driver/ctu_can_fd_linux_defs.c:236-237 | the final division is by a nonzero number, also with left-over segments |
| `BitTiming.WriteTiming` | driver/ctu_can_fd_linux_defs.c:214-237 | the fields written for a chosen prescaler and split |
| `BitTiming.CalcBittiming` | driver/ctu_can_fd_linux_defs.c:129-240 | EDOM leaves *bt alone and means no candidate or a winning one above 50 per mille; success means the timing of the winning candidate was written |
| `BitTiming.FixupBittiming` | driver/ctu_can_fd_linux_defs.c:248-280 | result and *bt on each of the three exits, without overflow of the total number of quanta |
| `BitTiming.SetBittiming` | driver/ctu_can_fd_hw.c:305-364 | the timing left in place and the word written to BTR or BTR_FD |
| `BitTimingProofs.BestSplit` | driver/ctu_can_fd_linux_defs.c:84-127 | for every number of quanta in the hardware range and nominal point below 100 % with a quantum before it: UINT_MAX if and only if no feasible split samples at or before the nominal point, otherwise a feasible split whose sample point is the latest such one |
| `BitTimingProofs.NoSplitCondition` | driver/ctu_can_fd_linux_defs.c:113-120 | no split is written if and only if the largest tseg2 still samples later than the nominal point |
| `BitTimingProofs.UnsplittableQuanta` | driver/ctu_can_fd_linux_defs.c:95-120 | that is if and only if 1000 * tseg2_max <= quanta * (999 - nominal) |
| `BitTimingProofs.TooShortTseg1` | driver/ctu_can_fd_linux_defs.c:95-120 | the split written has tseg1 below its minimum if and only if quanta * (nominal + 1) <= 1000 * (tseg1_min + 1) and quanta <= tseg1_min + 1 + tseg2_max |
| `BitTimingProofs.MissingSplit` | driver/ctu_can_fd_linux_defs.c:209-219 | a successful calculation reports sample point 0 if and only if no candidate of least bit-rate error can be split |
| `BitTimingProofs.ZeroSegments` | driver/ctu_can_fd_linux_defs.c:209-237 | such a success returns zero segments and freq / brp as bit rate |
| `BitTimingProofs.NothingLeftOver` | driver/ctu_can_fd_linux_defs.c:180-184 | longer bits are harder to split, so no segments are left over from candidates tried before |
| `BitTimingProofs.SuccessWithoutSplit` | driver/ctu_can_fd_linux_defs.c:209-240 | 64.77 MHz, 1000 bit/s, 75 %: success with zero segments, sample point 0 and 254000 bit/s |
| `BitTimingProofs.OneCandidate` | driver/ctu_can_fd_linux_defs.c:157-170 | for that clock the loop has exactly one usable value |
| `BitTimingProofs.MinimalRateError` | driver/ctu_can_fd_linux_defs.c:157-207 | the selected bit-rate error is minimal over all prescalers and all bit lengths of the hardware, not only over the two prescalers tried per length |
| `BitTimingProofs.CandidateCondition` | driver/ctu_can_fd_linux_defs.c:157-168 | the search has a candidate if and only if freq / (longest bit * bitrate) is at most brp_max |
| `BitTimingProofs.NearestWithoutCandidate` | driver/ctu_can_fd_linux_defs.c:157-168 | when it has none, the nearest of all settings is the largest prescaler with the longest bit |
| `BitTimingProofs.SucceedsExactly` | driver/ctu_can_fd_linux_defs.c:129-207 | the calculation succeeds if and only if some setting of the hardware is within 50 per mille of the request and that quotient is at most brp_max |
| `BitTimingProofs.MissedPrescaler` | driver/ctu_can_fd_linux_defs.c:162-167 | a request refused for want of a candidate that prescaler 255 meets within 0.3 % |
| `BitTimingProofs.OneWinner` | driver/ctu_can_fd_linux_defs.c:157-192 | a request determines the candidate it ends with |
| `BitTimingProofs.WithinLimits` | driver/ctu_can_fd_linux_defs.c:214-233 | a reported timing has tseg2, brp within limits, tseg1 up to its maximum, halves differing by at most one; sjw is 1 if the caller gave none and otherwise the smallest of the caller's, sjw_max and phase_seg2; tseg1 reaches its minimum if and only if the winning bit is not sampled too early |
| `BitTimingProofs.AimedPoint` | driver/ctu_can_fd_linux_defs.c:144-154 | the winner is the one for the caller's sample point, or for 750, 800 or 875 by bit rate if there is none, and no feasible split of it samples between the reported point and that one |
| `BitTimingProofs.WithinFivePercent` | driver/ctu_can_fd_linux_defs.c:194-207 | the bit rate returned is within 50 per mille of the request |
| `BitTimingProofs.PrescalerRoundTrip` | driver/ctu_can_fd_linux_defs.c:263-270 | the fixup recovers the prescaler from tq if and only if what tq lost, times the clock, is below 0.5 * 10^9 |
| `BitTimingProofs.CalcThenFixup` | driver/ctu_can_fd_linux_defs.c:248-280 | for clocks up to 500 MHz the fixup of a reported timing returns that timing if the split of the winning candidate is within limits, and ERANGE otherwise; for nominal points inside the bit, if and only if the winning bit is not sampled too early |
| `BitTimingProofs.LateCalcThenFixup` | driver/ctu_can_fd_linux_defs.c:248-280 | for nominal points late enough for the shortest bit that round trip is the identity |
| `BitTimingProofs.LateForTheCore` | driver/ctu_can_fd_hw.c:281-303 | for the limits of the core that is exactly 750 and later |
| `BitTimingProofs.EarlySampleRefused` | driver/ctu_can_fd_linux_defs.c:209-261 | 4 MHz, 1 Mbit/s, 50 %: the calculation succeeds with tseg1 = 1 and the fixup answers ERANGE |
| `BitTimingProofs.FixupKeeps` | driver/ctu_can_fd_linux_defs.c:255-261 | on every exit tq and the segments are unchanged and sjw is the caller's, or 1 if the caller gave none |
| `BitTimingProofs.FixupAccepts` | driver/ctu_can_fd_linux_defs.c:255-273 | ERANGE if and only if a segment or sjw is outside its limits; otherwise EINVAL if and only if the prescaler nearest to tq is |
| `BitTimingProofs.FixupComputes` | driver/ctu_can_fd_linux_defs.c:275-277 | on success bit rate and sample point are those of the accepted segments, rounded down |
| `BitTimingProofs.RegisterLossless` | driver/ctu_can_fd_regs.h:372-416 | the register fields read back as the timing if and only if every value fits its field |
| `BitTimingProofs.RegisterBits` | driver/ctu_can_fd_regs.h:372-416 | the word written, bit by bit: fields at bits 0, 7, 13, 19 and 27, of 7, 6 and 6 bits in BTR, of 6, 5 and 5 with a zero bit above in BTR_FD |
| `BitTimingProofs.RedistributedAt` | driver/ctu_can_fd_hw.c:315-323 | phase_seg1 is bounded by 63 or 31, the excess moves to prop_seg, nothing else changes |
| `BitTimingProofs.LimitsFillRegister` | driver/ctu_can_fd_hw.c:281-303 | the solver's limits are exactly the ranges of the register fields |
| `BitTimingProofs.RegisterOfCalculated` | driver/ctu_can_fd_hw.c:305-364 | a reported timing is written without loss, keeps prop_seg + phase_seg1, and a second write changes nothing |
| `BitTimingProofs.RegisterOfFixed` | driver/ctu_can_fd_hw.c:305-364 | for what the fixup accepts: no loss if and only if prop_seg fits, or phase_seg1 does not fit and tseg1 covers its field |
| `BitTimingProofs.HandSplitLosesBits` | driver/ctu_can_fd_hw.c:318-330 | an accepted timing that BTR cannot hold |
| `FrameCodec.DlcRoundUp` | driver/ctu_can_fd_linux_defs.c:35-66 | the code of a length is the smallest that holds it, the largest code if none does; exact if and only if the length is representable |
| `FrameCodec.DlcRoundTrip` | driver/ctu_can_fd_linux_defs.c:35-66 | every code survives the way through its length |
| `FrameCodec.IdRoundTrip` | driver/ctu_can_fd_hw.c:71-103 | an identifier in range is restored if and only if it is not a base-format remote frame |
| `FrameCodec.BaseRemoteFlagLost` | driver/ctu_can_fd_hw.c:101 | remote frame 0x123 comes back as a data frame |
| `FrameCodec.FfwRoundTrip` | driver/ctu_can_fd_frame.h:48-76 | packing and unpacking FRAME_FORM_W is the identity |
| `FrameCodec.InsertFrame` | driver/ctu_can_fd_hw.c:701-765 | succeeds if and only if the buffer exists and is accessible; refuses otherwise with nothing changed; the words written carry every field of the frame at its bit position, and the rest of the buffer is left alone |
| `FrameCodec.WriteData` | driver/ctu_can_fd_hw.c:755-762 | the data loop writes the payload words and nothing else |
| `FrameCodec.EncodedCarries` | driver/ctu_can_fd_frame.h:48-122 | the buffer then holds, bit by bit, DLC, RTR, IDE, FDF, TBF and BRS of the frame, its identifier, timestamp and payload bytes |
| `FrameCodec.TakesItsWords` | driver/ctu_can_fd_hw.c:581-603 | the reader consumes exactly the frame's words if and only if it is not a remote frame announcing data |
| `FrameCodec.RemoteFrameOverread` | driver/ctu_can_fd_hw.c:599 | a remote frame announcing 8 bytes has four words and the reader takes six |
| `FrameCodec.DeliveredHeader` | driver/ctu_can_fd_hw.c:567-596 | for every word sequence the core stores: identifier, BRS, ESI, length and timestamp delivered, as bits of the words |
| `FrameCodec.DeliveredData` | driver/ctu_can_fd_hw.c:598-602 | byte i delivered is byte i of the words behind the timestamp |
| `FrameCodec.FrameRoundTrip` | driver/ctu_can_fd_hw.c:559-603 | insert then read, whatever follows in the FIFO: length, BRS, timestamp and payload restored; identifier and word count restored under the two exact conditions above |
| `RxStream.Receiver.ReadRxData` | driver/ctu_can_fd_hw.c:567 | a data register read pops one word |
| `RxStream.Receiver.ReadData` | driver/ctu_can_fd_hw.c:598-602 | the data loop stores the payload words in order and takes ceil(len/4) of them |
| `RxStream.Receiver.ReadRxFrame` | driver/ctu_can_fd_hw.c:559-603 | frame, timestamp and remaining FIFO |
| `RxStream.Receiver.Rx` | driver/ctu_can_fd.c:336-366 | one call with the allocation succeeding or failing |
| `RxStream.Receiver.Arrivals` | driver/ctu_can_fd.c:494-501 | frames stored meanwhile leave what was delivered and what waits as it was |
| `RxStream.Receiver.RxBatch` | driver/ctu_can_fd.c:497-500 | the for loop delivers the first frames in order and the rest stay, whichever allocations fail and whatever arrives |
| `RxStream.Receiver.RxPoll` | driver/ctu_can_fd.c:494-502 | the poll terminates, delivers a prefix of the frames, arriving ones included, and stays below its quota only if its last look found the FIFO empty |
| `RxStream.DeliversNext` | driver/ctu_can_fd.c:343-361 | a call with memory delivers the next frame and ends at the next boundary |
| `RxStream.FailureLosesNothing` | driver/ctu_can_fd.c:354-358 | a call without memory keeps the first word and the unread words are the same |
| `RxStream.StreamDelivery` | driver/ctu_can_fd.c:336-366 | for any frames and any schedule of failures: exactly one frame per successful call, in order, none lost or torn, each counted once in rx_packets and with its length in rx_bytes |
| `RxStream.StaysAtBoundary` | driver/ctu_can_fd_hw.c:598-602 | a call ends at the next frame boundary if and only if the frame was readable or the last one; otherwise one or two words into the next frame |
| `RxHandshake.StepKeeps` | driver/ctu_can_fd.c:677-693 | every step of arrivals, handler, scheduler and poll keeps the handshake invariant |
| `RxHandshake.NoStrandedFrame` | driver/ctu_can_fd.c:530-542 | after any run, outside the handler's window, NAPI is scheduled, or a poll is about to re-enable RBNEI, or RBNEI is enabled and will not be ignored |
| `RxHandshake.AlwaysDeliverable` | driver/ctu_can_fd.c:494-542 | from every state of the invariant with a frame waiting, steps without arrivals lead to a delivery |
| `RxHandshake.EveryRunCanDeliver` | driver/ctu_can_fd.c:494-542 | the same after every run |
| `RxHandshake.DisabledUntilPollEnables` | driver/ctu_can_fd.c:688-691 | from the handler's disable until a poll enables it, RBNEI is off and cannot be raised, in every run |
| `RxHandshake.ClearedUntilRaised` | driver/ctu_can_fd.c:535-540 | after either clear RBNEI is pending again only if the core raised it |
| `RxHandshake.NoSpuriousHandling` | driver/ctu_can_fd.c:535-540 | after the poll's clear an idle handler stays out until the core raises RBNEI |
| `RxHandshake.IgnoredWhileScheduled` | driver/ctu_can_fd.c:677-684 | while RX_SCHED is set the handler neither clears nor disables RBNEI again |
| `RxHandshake.ScheduleNotLost` | driver/ctu_can_fd.c:692-693 | scheduling a poll while one runs leaves NAPI scheduled when that one finishes |
| `RxHandshake.FramesConserved` | driver/ctu_can_fd.c:497-500 | after every run the FIFO holds exactly the arrived frames that were not received |
| `RxHandshake.WorkIsCalls` | driver/ctu_can_fd.c:497-500 | the work reported is the number of calls of ctucan_rx in this poll |
| `RxHandshake.CompletesExactly` | driver/ctu_can_fd.c:530-531 | a poll hands back to the interrupt if and only if a look found the FIFO empty with quota left and nothing rescheduled it |
| `RxHandshake.ReportedWork` | driver/ctu_can_fd.c:494-502 | a poll reports more than its quota if and only if some read of the frame count exceeds what the quota has left |
| `RxHandshake.QuotaOverrun` | driver/ctu_can_fd.c:494-502 | the same for the work committed at any point of a poll |
| `RxHandshake.QuotaExceeded` | driver/ctu_can_fd.c:495-500 | a run from the initial state with quota 1 and two frames that reports 2 |
| `Timestamp.NotTorn` | driver/ctu_can_fd_hw.c:767-782 | if the counter advances at most 2^32 over the reads the result is its value at the low read that was used, across any wrap |
| `Timestamp.TornBeyond` | driver/ctu_can_fd_hw.c:767-782 | one tick more and a value the counter had at none of the reads is possible |
| `Timestamp.Counter.ReadTimestamp` | driver/ctu_can_fd_hw.c:767-782 | the read with the counter ticking between accesses |
| `ApbAdaptor.StrobeMeansCompletion` | src/apb/apb_ifc.vhd:138-144 | reg_rden_o is high if and only if a read completes in the next cycle |
| `ApbAdaptor.StrobeIsOneCycle` | src/apb/apb_ifc.vhd:116-117 | reg_rden_o is never high two cycles running |
| `ApbAdaptor.ReadStrobedOnce` | src/apb/apb_ifc.vhd:138-144 | each read transfer, also one begun during the countdown, is strobed exactly in the cycle before completion |
| `ApbAdaptor.TransferLength` | src/apb/apb_ifc.vhd:150-162 | a transfer takes one access cycle, or as many as the countdown had left at setup |
| `ApbAdaptor.WriteStrobedOnce` | src/apb/apb_ifc.vhd:148 | reg_wren_o is high in every access cycle, so once if and only if at most one countdown step was left |
| `ApbAdaptor.WriteStrobeMeansWriteAccess` | src/apb/apb_ifc.vhd:148 | reg_wren_o is high if and only if the cycle is an access cycle behind a write setup |
| `ApbAdaptor.ReadNeverWrites` | src/apb/apb_ifc.vhd:148 | no cycle of a read transfer is strobed as a write |
| `ApbAdaptor.ReadyAfterReset` | src/apb/apb_ifc.vhd:150-162 | after reset the adaptor is not ready for exactly three cycles |
| `ApbAdaptor.WriteStrobedThrice` | src/apb/apb_ifc.vhd:148 | a conforming write right after reset that is strobed three times |
| `Hierarchy.Parse` | test/testfw/ghw_parse/hierarchy.py:71-95 | the loop with its push, pops and in-place stores computes the fold of the line function over all lines |
| `Hierarchy.LineShaped` | test/testfw/ghw_parse/hierarchy.py:78-93 | every line keeps the stack one deeper than the indentation and a chain of dictionaries down to the last object |
| `Hierarchy.StackDepth` | test/testfw/ghw_parse/hierarchy.py:83-93 | for every input, after a non-blank line the stack is one deeper than that line's indentation and its top holds the line's object |
| `Hierarchy.ForestRead` | test/testfw/ghw_parse/hierarchy.py:78-93 | lines printed from a forest append that forest to the dictionary of their depth, whatever was read before |
| `Hierarchy.PrintParse` | test/testfw/ghw_parse/hierarchy.py:71-95 | printing a forest with distinct sibling names, one space a level, and parsing the lines gives the forest back, and its first tree as the answer |
| `Hierarchy.ParsePrintParse` | test/testfw/ghw_parse/hierarchy.py:71-95 | for every accepted input no dictionary has a key twice, and printing the hierarchy and parsing it again gives the same one |
| `Hierarchy.BlanksIgnored` | test/testfw/ghw_parse/hierarchy.py:79-81 | blank lines anywhere change nothing |
| `Hierarchy.StopsAtFirstBadLine` | test/testfw/ghw_parse/hierarchy.py:83-91 | the first bad line decides the error, its indentation before its text, whatever follows |
| `Hierarchy.PutIsAssignment` | test/testfw/ghw_parse/hierarchy.py:92 | storing an object sets its key, leaves every other key and moves none |

## Left out

- Probe, remove, PCI and platform glue, power management, LEDs, open and close: kernel plumbing over interfaces that are not part of this model.
- netif_stop_queue and netif_wake_queue: start_xmit may be called in any state here, so the results hold for every queue discipline; that the "no TXB free" message is never printed is not claimed.
- Rings of eight buffers: TX_STATUS and TX_COMMAND decode four, so the step system has 1, 2 or 4; the priority lemmas cover 8.
- `TxDriver.Driver` keeps the driver fields and registers in one record field, so that each method is an execution of the step system.
- Bus-off restart and echo flushing: a restart is re-entering the initial state.
- Error interrupts, filters, mode bits, error counters and the limit of 10000 turns of the interrupt loop: straight-line register accesses.
- RX overrun reporting in the poll, tx_bytes, and frames longer than 64 bytes: simple counters and a length the network stack rules out.
- `RxStream.Receiver.RxPoll`: the core's frame count is kept as a number beside the FIFO, and every arriving frame is one the reader takes whole.
- `RxStream.Receiver.Rx`: requires the first word to describe at most 64 bytes, the size of the frame buffer, which every word the core stores does.
- can_validate_bitrate, the predefined bit-rate table and the dispatch of can_get_bittiming: easy lookups.
- `BitTiming.CalcBittiming`: requires a nonzero clock, bit rate and 32-bit product quanta * bitrate, by which the code divides, and limits of at most 1000 quanta.
- `BitTimingProofs.WithinLimits`, `BitTimingProofs.MissingSplit`, `BitTimingProofs.RegisterOfCalculated`: nominal points of 100 % and later, or less than one quantum into the shortest bit, for which the unsigned arithmetic of can_update_sample_point wraps.
- `BitTimingProofs.MinimalRateError`, `BitTimingProofs.SucceedsExactly`: limits with prescaler steps of one, as the core has, and no 32-bit overflow of quanta * bitrate.
- Big-endian register layouts.
- The kinds of nodes the parser's factory builds: the factory is any function from a stripped line to an object name or a failure; dictionaries shared between stack and tree are paths into one value.
- Bus sampling, the protocol engine and the buffers of the core in VHDL: only the rules listed above.
- Kvaser logger, test framework, register generators and documentation tooling.
