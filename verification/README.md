# CellReplay link emulator: a verified model

CellReplay replays recorded cellular traces through `CellularQueue`, an emulator with two stages.

- The **delay stage** gives every packet a release time. It looks up an interpolated base delay in a
  recorded trace that repeats, packs packets into recorded *light* delivery opportunities of 1400 bytes,
  applies an offset by packet size, clamps the result so that it never goes backwards, and keeps the packets in
  a priority queue.
- The **link stage** is a FIFO drained by a cyclic schedule of *heavy* delivery opportunities of 1400 bytes
  each. A packet may be left half sent, and may bypass the stage only when it is empty.

The model has one module per component:

| file | content |
|---|---|
| `Packets.dfy`, `Arithmetic.dfy`, `TraceFile.dfy` | packets and frames; division facts and machine-integer conversions; the lines of a trace that are kept |
| `HeavySchedule.dfy` | the schedule, its cursor, and the closed form of opportunity times |
| `LinkStage.dfy` | the byte pipe, byte by byte and as a fluid server |
| `PacketQueues.dfy` | infinite, drop-tail and drop-head queues |
| `DelayTrace.dfy`, `DelayStage.dfy` | trace lookup, interpolation, size offset; packing and recorded releases |
| `DelayPacking.dfy`, `DelayReleases.dfy` | over runs of reads: instance, slot and room of every packet; its final release |
| `Emulator.dfy` | the emulator as a state machine over the calls of the event loop |
| `EmulatorInvariants.dfy`, `EmulatorRuns.dfy` | its invariants, and the laws of whole runs |
| `EmulatorDelays.dfy`, `EmulatorMoves.dfy` | the delay stage within the runs, and when packets leave it |
| `CellularQueue.dfy` | the object itself, field by field and loop by loop, against the state machine |
| `CodelPacketQueue.dfy`, `PiePacketQueue.dfy`, `ByteStreamQueue.dfy` | the AQM queues and the ring buffer |

The objects are classes whose methods update the source's fields in the source's loops. Each method is proved
equal to a function on values; the laws are lemmas about those functions. Seven results carry the rest:

- `EmulatorRuns.EndToEnd`: over any calls at any nondecreasing times, the infinite queue delivers exactly the
  packets read, in order, with their contents, in spite of the bypass.
- `EmulatorRuns.DepartureLaw`: the opportunity, and so the time, at which a packet leaves the link is fixed when
  it is accepted; nothing that happens later can change it. Under drop-head it is a bound
  (`EmulatorRuns.DepartsOrIsDropped`).
- `DelayStage.CursorIsHistoryIndependent` and `DelayStage.SlotCapacity`: every packet is placed in the recorded
  instance a stateless modular lookup gives for the arrival that opened it, whatever the cursor did before, and
  no light slot ever takes more than 1400 bytes. `EmulatorDelays.RunIsPlacements` carries the laws of these
  placements over to every run of the emulator.
- `DelayPacking.InstanceOpensExactly` and `DelayPacking.SlotExactly`: when a new instance opens and which slot a packet
  gets, from the arrivals, the trace and the bytes placed so far alone.
- `EmulatorMoves.NothingLeavesEarly`: over any run no packet leaves the delay stage before its release time, as read
  by the call that takes it out.
- `EmulatorRuns.NoMissedWakeup`: sleeping for `wait_time` never oversleeps, in spite of narrowing conversions.
- `CodelPacketQueues.EpisodeNeedsWholeInterval`: over any run, CoDel drops exactly when the pops of that run have
  been above target, unbroken, for a whole interval.

## Reading of the source

- **Clock.** Every `timestamp()` is a parameter. Runs assume only that readings never decrease. `wait_time`
  reads the clock twice; the wakeup law counts from its first reading, which is the reading it holds for.
- **Schedule and trace.** `HeavyPdo` is what the constructor checks. `Trace` adds what the constructor does not
  check but the recorder produces: the first time is 0, the last is positive, and each list of light opportunities
  is nonempty, sorted and starts at 0. The constructor also accepts traces whose first kept line is later than
  `--start-timestamp`; their first time is above 0, and they are outside `Trace` and the delay stage modelled here.
  `DelayTrace.LookupEndsExactly` covers them, and says what happens when the last time is 0.
- **Arithmetic.** Times are unbounded integers, and interpolation is exact instead of `float`. Conversions that
  narrow or wrap are written out where they can be seen: the size offset and the timer (64 bits), both waits
  (32 bits), the PIE differences (32 bits), the CoDel age (64 bits) and the ring-buffer indices (64 bits).
- **Drop-head assert.** `DroppingPacketQueue::dequeue` asserts that the limits hold, also while drop-head is still
  dropping. The emulator is modelled without that assert; `PacketQueues.DropHeadAssertExactly` says exactly when
  it would stop the process, and `PacketQueues.DropHeadAssertFires` gives a case.
- **Size counter.** A dropped packet is counted into `current_link_queue_size_` and never out again. So after the
  first drop the bypass is off for good (`EmulatorRuns.NoBypassAfterDrop`).
- **Light and heavy.** The comments in the two branches at src/frontend/cellular_queue.cc:459-463 are swapped; the
  model follows the code.
- **CoDel.** The inner result shadows the outer one, so the packet returned is the first one popped, not the last
  one as section 5.5 of RFC 8289 has it. `CodelPacketQueues.RuleAgreesExactly` says when the two agree, and
  `CodelPacketQueues.RuleDiffers` gives a run where they do not. An age that wraps around restarts the count
  (`CodelPacketQueues.EpisodeResumesExactly`). The source says that it ignores a drop decision for the only packet in
  the queue; yet a last packet above 1504 bytes can be dropped, inside an episode and outside, and
  `CodelPacketQueues.OversizeEmptiesExactly` says exactly when.
- **PIE.** A reference delay above 2^31 wraps around when narrowed; then an empty queue raises the drop probability
  (`PiePacketQueues.EmptyQueueDrainsExactly`) and a longer delay can lower it
  (`PiePacketQueues.ControllerMonotone`). A burst allowance of 2^31 or more is lost after one period,
  unless that period is an idle reset, which sets it anew (`PiePacketQueues.BurstSurvivesExactly`).
- **Size offset.** A negative offset larger than the recorded release wraps around to the end of the 64-bit range, and
  every later packet that does not wrap around too is held back to that time (`DelayReleases.StuckExactly`, `DelayReleases.StuckHoldsBack`).
- **Waits.** The waits are narrowed to 32 bits, and the sentinel of a finished schedule with them: it makes the link
  ask for nothing only during half of the time (`EmulatorRuns.FinishedWait`).
- **C++ classes.** The queues of the link differ only in `enqueue`; one class carries a discipline that stands for
  virtual dispatch. `std::priority_queue` is a sequence whose top is the minimum of the source's ordering.
- **History.** The fields `accepted`, `dropped`, `linkTime` and `now` of the emulator, and `pushed` and `popped` of the
  ring buffer, record the past so that laws can be stated; no decision reads them. `written` is what went to the
  descriptor, with the number and bypass flag the packet log gives it.

## Model

| member | source | states |
|---|---|---|
| HeavySchedule.LoadHeavySchedule | src/frontend/cellular_queue.cc:82-109 | loading succeeds iff the shifted times are nonempty, nondecreasing and end above 0, and says which of these failed |
| HeavySchedule.ShiftedByIndex | src/frontend/cellular_queue.cc:94-106 | the schedule holds the recorded times from the start on, in order, each less the start, and nothing else |
| HeavySchedule.UseManyClosedForm | src/frontend/cellular_queue.cc:211-232 | from any index and base, the cursor after j steps and its next time are the modular closed form |
| HeavySchedule.OpportunitiesOrdered | src/frontend/cellular_queue.cc:211-232 | opportunity times never decrease, also across the wraparound |
| HeavySchedule.FinishesExactly | src/frontend/cellular_queue.cc:220-232 | without repetition exactly the remaining n - d opportunities occur |
| HeavySchedule.DueExactly | src/frontend/cellular_queue.cc:237-244 | the j-th opportunity is among those the loop uses iff it exists and its closed-form time has come |
| HeavySchedule.DueSplit | src/frontend/cellular_queue.cc:237-244 | counting due opportunities in two stages gives the same count as in one |
| HeavySchedule.OfferedBytes | src/frontend/cellular_queue.cc:237-243 | b bytes have been offered iff the ceil(b/1400)-th opportunity has come |
| LinkStage.DrainAdd | src/frontend/cellular_queue.cc:246-274 | service is additive in bytes: boundaries between opportunities leave no trace |
| LinkStage.DrainIsFluid | src/frontend/cellular_queue.cc:246-274 | b bytes of service move exactly the longest waiting prefix that fits, and the backlog becomes max(0, backlog - b) |
| LinkStage.RationalizeIsFluid | src/frontend/cellular_queue.cc:237-276 | if k opportunities are due, `rationalize` is one fluid service of 1400 k bytes |
| LinkStage.PollingInvisible | src/frontend/cellular_queue.cc:237-276 | an earlier extra `rationalize` does not change the state a later one reaches, down to half-sent bytes, wraparound and `finished_` |
| LinkStage.ServedWhenCovered | src/frontend/cellular_queue.cc:246-274 | a waiting packet is sent iff the bytes up to its end are covered, otherwise exactly that many fewer bytes remain ahead |
| LinkStage.BurntStep | src/frontend/cellular_queue.cc:237-244 | one turn of the loop keeps the link on the fluid course and leaves strictly fewer opportunities due |
| PacketQueues.Excess | src/packet/drop_head_packet_queue.hh:25-28 | the number of drops from the head is the least after which both limits hold |
| PacketQueues.EnqueueCuts | src/packet/drop_head_packet_queue.hh:20-29 | for every discipline, queue and packet split into kept and lost parts, the limits stay met, and only drop-head disturbs what was queued |
| PacketQueues.DropTailAdmitsExactly | src/packet/dropping_packet_queue.cc:42-57 | drop-tail admits a packet iff packet count and byte sum with it are within the limits, 0 being no limit, and otherwise loses just it |
| PacketQueues.DropHeadKeepsLongest | src/packet/drop_head_packet_queue.hh:20-29 | drop-head keeps the longest suffix within both limits and loses the rest: every longer suffix is over one of them |
| PacketQueues.DropHeadKeepsLast | src/packet/drop_head_packet_queue.hh:20-29 | with a packet limit n alone the last n packets remain |
| PacketQueues.DropHeadAssertExactly | src/packet/dropping_packet_queue.cc:20-33 | the assert in `dequeue` survives a drop-head enqueue iff there is no byte limit, or the queue was empty, or the packet fits without the old head |
| PacketQueues.DropHeadAssertFires | src/packet/dropping_packet_queue.cc:30 | a byte limit can force two drops, and then the assert fails |
| PacketQueues.PacketQueue.Accept | src/packet/dropping_packet_queue.cc:74-79 | the packet is appended and both counters stay the true sums |
| PacketQueues.PacketQueue.Dequeue | src/packet/dropping_packet_queue.cc:20-33 | the head is removed, both counters stay the true sums, and limits that were met stay met |
| PacketQueues.PacketQueue.EnqueueInfinite | src/packet/infinite_packet_queue.hh:27-32 | the packet is appended and both counters stay the true sums |
| PacketQueues.PacketQueue.EnqueueDropTail | src/packet/drop_tail_packet_queue.hh:20-28 | the packet is appended iff it fits, and the closing assert holds |
| PacketQueues.PacketQueue.EnqueueDropHead | src/packet/drop_head_packet_queue.hh:20-29 | what remains is the longest suffix within both limits; reports whether the base assert held at every drop |
| DelayTrace.LoadDelayTrace | src/frontend/cellular_queue.cc:119-161 | loading succeeds iff the shifted times are nondecreasing and there are at least three |
| DelayTrace.ShiftedByIndex | src/frontend/cellular_queue.cc:146-156 | the trace holds the recorded instances from the start on, in order, with the start taken off their times and all else as recorded |
| DelayTrace.LookupEndsExactly | src/frontend/cellular_queue.cc:413-423 | on every trace the loader accepts, from any instance and any time, some number of turns with the wraparound ends the lookup loop iff the last recorded time is positive |
| DelayTrace.LookupIsUnique | src/frontend/cellular_queue.cc:413-423 | the stateless lookup is the one interval of the trace that contains the time |
| DelayTrace.InterpolatedOnLine | src/frontend/cellular_queue.cc:427-433 | the base delay is the integer part of the point on the line between the two neighbouring records |
| DelayTrace.InterpolatedBetween | src/frontend/cellular_queue.cc:427-433 | the base delay lies between the two neighbouring recorded delays, and the denominator is never 0 |
| DelayTrace.OffsetAtEntries | src/frontend/cellular_queue.cc:530-547 | the size offset takes the table's values at whole hundreds and is constant beyond both ends |
| DelayTrace.OffsetOnLine | src/frontend/cellular_queue.cc:537-545 | between two whole hundreds of bytes the offset lies on the line through their table entries |
| DelayTrace.OffsetBetween | src/frontend/cellular_queue.cc:530-547 | the size offset lies between its neighbouring table entries |
| DelayTrace.OffsetMonotone | src/frontend/cellular_queue.cc:530-547 | a nondecreasing table gives an offset nondecreasing over all packet sizes |
| DelayTrace.RoundIsNearest | src/frontend/cellular_queue.cc:576 | rounding moves the offset by at most one half and is symmetric around 0 |
| DelayTrace.LatencyOffsetIsNearest | src/frontend/cellular_queue.cc:576 | the adjustment is the table's offset rounded to nearest, halves away from zero |
| DelayStage.FirstNotPassed | src/frontend/cellular_queue.cc:446-449 | the slot loop stops at the first recorded opportunity that has not passed |
| DelayStage.ChosenSlotAhead | src/frontend/cellular_queue.cc:464 | the chosen slot is still to come: the assert never fails |
| DelayStage.ReleaseBounds | src/frontend/cellular_queue.cc:571-588 | release times never decrease, and with nonnegative offsets none is before arrival plus base delay |
| DelayStage.BypassExactly | src/frontend/cellular_queue.cc:576-584 | a packet may bypass iff it got a light slot and was not clamped, and then its release is the recorded slot time up to its size offset |
| DelayStage.RestartExactly | src/frontend/cellular_queue.cc:408 | while slot k is in use a new instance starts iff the instance is older than pdo[k] by more than the timer, for any `int` timer; a sum of last release and timer below 0 wraps around, and then iff arrival plus base delay exceeds it after adding 2^64 |
| DelayStage.SlotSkippedExactly | src/frontend/cellular_queue.cc:443-449 | the clock skips a slot iff the packet comes after the slot in use but within the timer, so never with timer 0; or the timer is so negative that the sum wraps around |
| DelayStage.CursorIsHistoryIndependent | src/frontend/cellular_queue.cc:399-438 | over any reads from the constructor, the packet is placed in an instance that starts at the arrival which opened it, with the index and base delay of a stateless lookup at that arrival modulo the trace length, counted from the first packet |
| DelayPacking.CursorInNumbers | src/frontend/cellular_queue.cc:399-438 | the same in numbers: the opening arrival modulo the last recorded time lies in the interval of the index, and the base delay is the integer part of the line there |
| DelayPacking.FirstOpens | src/frontend/cellular_queue.cc:408-438 | the first packet opens the first instance, in its first slot |
| DelayPacking.InstanceOpensExactly | src/frontend/cellular_queue.cc:408 | over any reads, the next packet opens a new instance iff it comes later than the timer allows: after the slot the last packet used or, past the last slot, after the last packet by the last slot's lead over the base delay; with the wrapping case |
| DelayPacking.SlotExactly | src/frontend/cellular_queue.cc:439-457 | over any reads, a packet that stays gets the first slot from the last one used on that has not passed, if its bytes still fit there, and otherwise the slot right behind; a packet that opens an instance gets slot 0 |
| DelayPacking.RoomExactly | src/frontend/cellular_queue.cc:437-457 | the room left in the slot in use is 1400 less the bytes placed there |
| DelayStage.SlotCapacity | src/frontend/cellular_queue.cc:439-457 | over any reads, the packets placed in one slot of one instance total at most 1400 bytes |
| DelayStage.SlotsAdvance | src/frontend/cellular_queue.cc:446-454 | over any reads, instances never go back, and within one instance slots never do |
| DelayStage.ReleasesAsRecorded | src/frontend/cellular_queue.cc:459-468 | over any reads, before offset and clamp: slot k releases at the opening arrival + base delay there + pdo[k], never before the packet's own base delay; past the last slot the larger of base delay and last slot applies and the bypass is off |
| DelayReleases.FinalReleases | src/frontend/cellular_queue.cc:571-588 | over any reads, the final release is the recorded one with its offset unless that reorders, and then the later of recorded and latest release; the bypass stays on iff a light slot was found and nothing held the packet back |
| DelayReleases.ReleasesAreRunningMaximum | src/frontend/cellular_queue.cc:576-588 | with nonnegative offsets each packet is released at the largest recorded release plus offset among those read up to it |
| DelayReleases.StuckExactly | src/frontend/cellular_queue.cc:576-588 | over any reads with `int` offsets and recorded releases below 2^64 - 2^32, the latest release reaches the last 2^31 ms of the 64-bit range iff some recorded release was below its negative offset |
| DelayReleases.StuckHoldsBack | src/frontend/cellular_queue.cc:576-588 | from then on every packet that does not wrap around itself gets that same release and cannot bypass |
| EmulatorDelays.RunIsPlacements | src/frontend/cellular_queue.cc:278-598 | over any run the delay stage is in the state its accepted packets alone leave, every delayed packet has the arrival, size, release and bypass flag of its placement, and only packets placed with the flag are delivered past the link |
| EmulatorDelays.DelayedUntilMaximum | src/frontend/cellular_queue.cc:549-598 | in every reachable state, with nonnegative offsets, a delayed packet waits until the largest recorded release plus offset up to it |
| EmulatorMoves.WriteMovesExactly | src/frontend/cellular_queue.cc:278-288 | one `write_packets` takes packets out from the front: each is due at the reading taken for it, and the first that stays is not due at its own |
| EmulatorMoves.WriteStamps | src/frontend/cellular_queue.cc:290-300 | what enters the link in a call carries that call's reading as its arrival there, and contents, number, first arrival and release as delayed |
| EmulatorMoves.NothingLeavesEarly | src/frontend/cellular_queue.cc:278-349 | over any run, every frame written, on the link or dropped was taken out of the delay stage by a call that found the release time of its placement at or below the reading taken for it |
| EmulatorMoves.LinkStampsAreReadings | src/frontend/cellular_queue.cc:290-300 | over any run, the arrival a packet on the link carries is the reading of the call that took it out of the delay stage |
| Emulator.TopIndex | src/frontend/cellular_queue.hh:69-85 | the top of the priority queue is a packet nothing else is taken out before |
| Emulator.AcceptsExactly | src/frontend/cellular_queue.cc:549-556 | a read counts and delays a packet of 20 to 1400 bytes, and no other changes anything |
| EmulatorInvariants.StepKeepsInv | src/frontend/cellular_queue.cc:302-387 | every call of the event loop keeps order, conservation, size counter, limits, packet sizes and trace cursor |
| EmulatorInvariants.RunKeepsInv | src/frontend/cellular_queue.cc:237-387 | every state of every run satisfies the invariant |
| EmulatorInvariants.RationalizeKeepsInv | src/frontend/cellular_queue.cc:255-258 | serving the link keeps its invariant, and no waiting packet has an opportunity behind it |
| EmulatorInvariants.HandedKeepsChain | src/frontend/cellular_queue.cc:290-300 | entering the link keeps the order of all frames, and loses exactly those the queue drops |
| EmulatorInvariants.BypassKeepsChain | src/frontend/cellular_queue.cc:334-340 | a bypass leaves the order of all frames unchanged, because the link side is empty |
| EmulatorInvariants.EmptyLink | src/frontend/cellular_queue.cc:334 | the size counter is 0 iff nothing is in the output, half sent or queued and nothing was ever dropped |
| EmulatorRuns.EndToEnd | src/frontend/cellular_queue.cc:237-349 | with the infinite queue, written, output, half-sent, queued and delayed frames are in this order exactly the packets read |
| EmulatorRuns.EndToEndLossy | src/frontend/cellular_queue.cc:237-349 | with any queue the order is kept, and every packet read is accounted for once or dropped once |
| EmulatorRuns.ReleasesInArrivalOrder | src/frontend/cellular_queue.hh:69-85 | in every reachable state the priority queue takes packets out in order of arrival |
| EmulatorRuns.WriteLeavesNothingDue | src/frontend/cellular_queue.cc:329-349 | `write_packets` leaves no output, and no delayed packet that was due when it began |
| EmulatorRuns.LightTrafficSkipsLink | src/frontend/cellular_queue.cc:331-345 | with an empty link and only bypassing packets, `write_packets` delivers one packet per packet taken out and does not touch the link |
| EmulatorRuns.FirstPacketAnchorsSchedule | src/frontend/cellular_queue.cc:565-570 | the first packet moves every opportunity to count from its arrival, from whatever index polls have reached; later packets move none |
| EmulatorRuns.NoBypassAfterDrop | src/frontend/cellular_queue.cc:290-345 | after the first dropped packet no packet ever bypasses the link |
| EmulatorRuns.DepartureLaw | src/frontend/cellular_queue.cc:220-300 | with B unsent bytes up to its end, a packet departs with the ceil(B/1400)-th following opportunity, at its closed-form time, whatever comes later |
| EmulatorRuns.DepartsOrIsDropped | src/frontend/cellular_queue.cc:220-300 | for every queue, drop-head too: once the link has reached the ceil(B/1400)-th following opportunity, a packet that waited with B bytes up to its end has departed or was dropped, and not both |
| EmulatorRuns.NoMissedWakeup | src/frontend/cellular_queue.cc:352-387 | until `wait_time` has passed no delayed packet becomes due and `rationalize` changes nothing |
| EmulatorRuns.WaitDelayExactly | src/frontend/cellular_queue.cc:352-365 | the delay stage asks for the time to its first release modulo 2^32, so for the true one iff it is below 2^32, and for 65535 ms when empty |
| EmulatorRuns.WaitIsExact | src/frontend/cellular_queue.cc:352-387 | on an unfinished link, the whole wait in numbers: the smaller of the first release and the next opportunity, each narrowed; so it ends exactly at the earlier when they are less than 2^32 and 2^31 ms away |
| EmulatorRuns.WaitLinkExactly | src/frontend/cellular_queue.cc:367-380 | an unfinished link asks for the gap modulo 2^32, or 0 if that is 2^31 or more, and for the true gap iff it is below 2^31 |
| EmulatorRuns.FinishedWait | src/frontend/cellular_queue.cc:367-380 | once the schedule is used up every wait is 0 while the clock modulo 2^32 is below 2^31, and otherwise the link asks for what is left up to 2^32 - 1 |
| EmulatorRuns.ExtraPollInvisible | src/frontend/cellular_queue.cc:367-371 | two calls of `wait_time` leave the state a single later one leaves |
| CellularQueues.CellularQueue.constructor | src/frontend/cellular_queue.cc:37-72 | a new emulator is in the initial state of the state machine |
| CellularQueues.CellularQueue.SendOne | src/frontend/cellular_queue.cc:246-274 | one opportunity drains 1400 bytes; the asserts on arrival time and bytes left hold |
| CellularQueues.CellularQueue.BurnDue | src/frontend/cellular_queue.cc:237-276 | the nested loops terminate and are the fluid service of all due opportunities |
| CellularQueues.CellularQueue.Rationalize | src/frontend/cellular_queue.cc:237-276 | brings the link up to the given time and changes nothing else |
| CellularQueues.CellularQueue.PutPacketToLinkQueue | src/frontend/cellular_queue.cc:290-300 | refuses a packet over 1400 bytes, otherwise serves the link first and then enqueues and counts it |
| CellularQueues.CellularQueue.WritePacketsFromLinkQueue | src/frontend/cellular_queue.cc:302-322 | writes out the whole output in order; the counter stays above 0 at each write |
| CellularQueues.CellularQueue.GetNextFromDelayQueue | src/frontend/cellular_queue.cc:278-288 | removes the top packet iff it is due |
| CellularQueues.CellularQueue.WritePackets | src/frontend/cellular_queue.cc:329-349 | moves every due packet, by the bypass or through the link, and writes the output, with a clock read before every packet |
| CellularQueues.CellularQueue.WaitTimeLinkQueue | src/frontend/cellular_queue.cc:367-380 | brings the link up to date and gives the narrowed, clamped time to the next opportunity |
| CellularQueues.CellularQueue.GetWaitTime | src/frontend/cellular_queue.cc:382-387 | the smaller of the two waits, with the two clock readings of the source |
| CellularQueues.CellularQueue.PendingOutput | src/frontend/cellular_queue.cc:389-391 | true iff there is output or the narrowed wait is 0, so always when a packet is ready |
| CellularQueues.CellularQueue.FindInstance | src/frontend/cellular_queue.cc:413-423 | the wrapping search from the last position terminates at the stateless lookup |
| CellularQueues.CellularQueue.TakeSlot | src/frontend/cellular_queue.cc:443-457 | skips passed slots, moves on when the packet does not fit, and takes its bytes |
| CellularQueues.CellularQueue.GetPktReleaseTime | src/frontend/cellular_queue.cc:398-472 | the release time before offset and clamp, and all cursor fields |
| CellularQueues.CellularQueue.ReadPacket | src/frontend/cellular_queue.cc:549-598 | accepts a packet of 20 to 1400 bytes into the delay stage, and refuses any other without a change |
| CodelPacketQueues.GapIsRoot | src/packet/codel_packet_queue.cc:56-60 | the gap is the integer part of interval / sqrt(count) |
| CodelPacketQueues.GapShrinks | src/packet/codel_packet_queue.cc:56-60 | a larger count never gives a larger gap |
| CodelPacketQueues.PopIsJustified | src/packet/codel_packet_queue.cc:27-54 | a pop marks the next packet iff the pops so far have been above target, unbroken, for an interval, and it leaves the deadline they call for |
| CodelPacketQueues.EpisodeNeedsWholeInterval | src/packet/codel_packet_queue.cc:62-94 | over any run of arrivals and dequeues, judged by what its pops saw: a dequeue drops, starts an episode or stays in one exactly after an unbroken interval above target (inside an episode only when a drop is due), and so for every single drop |
| CodelPacketQueues.DropLoopLaw | src/packet/codel_packet_queue.cc:73-81 | the loop drops one packet per count, each when it is due, and moves the schedule by exactly the gaps of those counts, past the present unless the episode ends |
| CodelPacketQueues.DequeueDropsBehindHead | src/packet/codel_packet_queue.cc:62-94 | a dequeue splits the queue into its head, a dropped block and the rest; at most one packet is dropped outside an episode, and as many as the count grows inside |
| CodelPacketQueues.DropsExactly | src/packet/codel_packet_queue.cc:68-83 | a dequeue drops something iff its pop marks the next packet and, inside an episode, a drop is due |
| CodelPacketQueues.RuleAgreesExactly | src/packet/codel_packet_queue.cc:62-94 | the source pops the packets and reaches the state of the rule of RFC 8289 section 5.5; the rule delivers the last packet popped, so for distinct packets both deliver the same iff nothing is dropped |
| CodelPacketQueues.RuleDiffers | src/packet/codel_packet_queue.cc:83-94 | a run of five calls after which source and rule deliver two different packets |
| CodelPacketQueues.DequeueKeepsInv | src/packet/codel_packet_queue.cc:62-94 | lastcount never exceeds count, and dropping implies a positive count |
| CodelPacketQueues.DequeueCounts | src/packet/codel_packet_queue.cc:62-94 | count, lastcount and next drop after a dequeue in every case: inside an episode every drop was due and the schedule moved by their gaps, a new one takes its count from the last, otherwise nothing moves |
| CodelPacketQueues.DropSchedule | src/packet/codel_packet_queue.cc:68-91 | within an episode drops follow the control law exactly and are never further apart; a new one schedules from now |
| CodelPacketQueues.DropsNeverEmpty | src/packet/codel_packet_queue.cc:23-38 | a dequeue that drops anything leaves the queue nonempty unless the last packet is above 1504 bytes |
| CodelPacketQueues.OversizeEmptiesExactly | src/packet/codel_packet_queue.cc:23-38 | in every state, a dequeue drops and leaves the queue empty iff the last packet is above 1504 bytes, all before it are late, the deadline has passed, and every drop needed is due: exactly one outside an episode, those of the schedule inside |
| CodelPacketQueues.EpisodeResumesExactly | src/packet/codel_packet_queue.cc:86-88 | the count resumes iff it grew by more than one and the last scheduled drop is past by less than the window |
| CodelPacketQueues.CodelPacketQueue.PopHead | src/packet/codel_packet_queue.cc:27-54 | pops the head and gives the drop mark of the value model |
| CodelPacketQueues.CodelPacketQueue.Dequeue | src/packet/codel_packet_queue.cc:62-94 | terminates, never pops an empty queue, returns the old head, and keeps the queue behind the dropped block |
| CodelPacketQueues.CodelPacketQueue.Enqueue | src/packet/codel_packet_queue.cc:97-104 | admits a packet iff it fits |
| PiePacketQueues.PeriodsKeepInv | src/packet/pie_packet_queue.cc:136-187 | over any periods the probability stays in [0, 1], the allowance within the maximum burst, and the clock advances 30 ms each |
| PiePacketQueues.CatchesUp | src/packet/pie_packet_queue.cc:136-176 | the catch-up loop makes up for whole periods until at most 30 ms are left, and never reaches the present |
| PiePacketQueues.PeriodInNumbers | src/packet/pie_packet_queue.cc:138-186 | what a period does besides the probability: the delay is bytes over rate, the old delay moves on, 30 ms go off burst and clock, and exactly when idle burst, count and rate are reset |
| PiePacketQueues.CatchUpComposes | src/packet/pie_packet_queue.cc:131-187 | two catch-ups with the queue unchanged are one |
| PiePacketQueues.ReferenceIsEquilibrium | src/packet/pie_packet_queue.cc:149-160 | at the reference delay, and steady, the probability does not move |
| PiePacketQueues.ControllerResponse | src/packet/pie_packet_queue.cc:149-173 | the new probability in numbers: (error + 10 times the rise) over 1024, 256 or 128, kept in [0, 1], and a decay of 2% only without any delay or queue |
| PiePacketQueues.ControllerMonotone | src/packet/pie_packet_queue.cc:149-173 | over all probabilities, byte counts and delays below 2^31, a longer delay never gives a smaller probability iff the reference is at most 2^31 |
| PiePacketQueues.EmptyQueueDrains | src/packet/pie_packet_queue.cc:149-173 | an empty queue brings the probability to exactly 0 within ceil(1024/qdelay_ref) periods and keeps it there |
| PiePacketQueues.EmptyQueueDrainsExactly | src/packet/pie_packet_queue.cc:149-173 | it does so iff the reference is at most 2^31, where the narrowing keeps its sign |
| PiePacketQueues.AverageBetween | src/packet/pie_packet_queue.cc:95-101 | the departure rate never leaves the range of old average and sample |
| PiePacketQueues.AverageWeights | src/packet/pie_packet_queue.cc:95-101 | the average weighs the old one 7/8 and the sample 1/8, up to what rounding each eighth loses |
| PiePacketQueues.MeasuredKeepsInv | src/packet/pie_packet_queue.cc:84-119 | measuring keeps the invariant and never raises the burst allowance |
| PiePacketQueues.MeasuredInNumbers | src/packet/pie_packet_queue.cc:84-119 | when a measurement begins, what it counts, when it ends, and what that does to rate and burst |
| PiePacketQueues.DropsAtRandomExactly | src/packet/pie_packet_queue.cc:56-68 | a packet may be dropped at random iff no burst is allowed, the old delay is at half the reference or the probability at 0.2, and 3008 bytes are queued |
| PiePacketQueues.BurstProtects | src/packet/pie_packet_queue.cc:56-124 | with a maximum burst below 2^31 and no measurement under way, over any enqueues and dequeues no packet is dropped at random while the time taken by updates and measurements together is below the allowance |
| PiePacketQueues.BurstSurvivesExactly | src/packet/pie_packet_queue.cc:175-185 | after any period an allowance is left iff it was an idle reset or the allowance was above 30 ms and below 2^31 |
| PiePacketQueues.PiePacketQueue.CalculateDropProb | src/packet/pie_packet_queue.cc:126-188 | the loop terminates and applies exactly the missed periods |
| PiePacketQueues.PiePacketQueue.Enqueue | src/packet/pie_packet_queue.cc:35-77 | catches up, then admits a packet iff it keeps both limits and is not refused at random, with the conditions in numbers |
| PiePacketQueues.PiePacketQueue.Dequeue | src/packet/pie_packet_queue.cc:79-124 | removes the head, measures the departure rate, then catches up |
| ByteStreamQueues.AvailableIsExact | src/util/bytestream_queue.cc:20-30 | the wrapped counts are the true ones, and together they are size - 1 |
| ByteStreamQueues.PushAppends | src/util/bytestream_queue.cc:38-58 | a chunk within the contiguous space is appended and overwrites no unread byte, also at the wraparound |
| ByteStreamQueues.PopTakesFirst | src/util/bytestream_queue.cc:70-86 | the bytes offered are the oldest unread ones, and a partial write leaves exactly the rest |
| ByteStreamQueues.PoppedIsPrefixOfPushed | src/util/bytestream_queue.cc:32-87 | over any pushes and pops, what was popped is a prefix of what was pushed and the buffer holds the rest |
| ByteStreamQueues.ByteStreamQueue.Push | src/util/bytestream_queue.cc:32-62 | asks for all the free space up to the end of the buffer, appends what the descriptor delivered, reports the end of file iff that was nothing, and is nonempty afterwards |
| ByteStreamQueues.ByteStreamQueue.Pop | src/util/bytestream_queue.cc:64-87 | offers all that is held up to the end of the buffer; a nonempty prefix goes to the descriptor and the rest is kept |

## Left out

- EmulatorRuns.DepartureLaw: does not cover drop-head, where a later arrival can discard a waiting packet or one before it, so that there is no exact time; `EmulatorRuns.DepartsOrIsDropped` gives the bound that remains.
- EmulatorRuns.EndToEndLossy: covers the three disciplines the emulator offers; CoDel and PIE cannot be chosen there and are modelled on their own.
- DelayTrace.InterpolatedOnLine: does not model the rounding of `float`; the line is exact.
- CodelPacketQueues.GapIsRoot: does not model the rounding of `sqrt` in `double`; the integer part is exact.
- Delay traces whose first kept line is later than `--start-timestamp`: the delay-stage laws are for traces that start at 0.
- 32-bit overflow of packet counts, byte counts and CoDel's count: sizes are assumed to stay in range.
- The heap inside `std::priority_queue`: only its order is modelled.
- File parsing, queue-argument parsing, logging and `get_pkt_header_info`: input, output and struct casts.
- Exceptions and failed asserts as process termination: a refused packet leaves the state unchanged instead.
- PIE's random draw: a parameter.
- `loss_rate_`, `drop_dist_` and `prng_`: stored by the source and never used to drop a packet.
- The event loop, sockets, TUN devices, NAT, DNS and child processes: the event loop is any interleaving of calls.
- The recorder's clients, servers and scripts: used only as evidence for the shape of traces.
