# Pico data logger: the measurement queue and its delivery

A battery logger measures every fifteen minutes, stores each measurement in a queue in NOR flash,
and publishes the queue over MQTT when it can. This project models three parts of its firmware and
proves what they keep.

* The flash queue. Records of 256 bytes live in sectors of sixteen slots. A record is written body
  first and committed by clearing one bit of its state byte; it is retired by clearing one more.
  Appends take the lowest erased slot, order comes from sequence numbers, and whole sectors are
  erased once nothing in them is needed.
* The delivery loop: peek, publish at QoS 1, wait for PUBACK, retire.
* The clock that survives clock-gated sleep, and the fixed-phase schedule.

## How it is built

| layer | files |
|---|---|
| bytes | `LittleEndian`, `Crc32`, `CrcGenerator`, `RecordCodec`, `NorFlash` |
| slots | `Slots`, `Fifo`, `FlashSteps`, `QueueModel` |
| joining the two | `FlashImage`, `PowerLoss`, `MemoryRuns`, `MemoryHistory` |
| the imperative queue | `FlashQueue` |
| results about it | `CrashSafety`, `Session`, `Wear`, `Outage`, `Starvation`, `Fragmentation`, `TwoSectors` |
| delivery and time | `Delivery`, `Reach`, `Upload`, `Schedule`, `SleepClock` |

`FlashQueue.FlashQueue` works on the bytes of a `Device`. Every method states its result and new
state as a function of the old state (`QueueModel`), and states the list of byte operations it
issued, in order, and that the new bytes are what those operations make of the old ones. The device
counts the errors it reports; a method reports a storage error if and only if the device did during
the call, and then the bytes are ones that a cut of the same operations could leave.

Slot steps (`Put`, `Retire`, `Erase`) are the level at which the invariants are proved; `FlashImage`
proves that the byte operations, completed or cut at any bit, do what the steps completed or cut may
do. `MemoryRuns` and `MemoryHistory` carry this over whole lives of a memory: any sequence of
operations that complete, fail or are cut, and of recoveries that complete or are cut. `Contents` is
the queue a region stands for: its Active records, oldest first.

Assumptions about the hardware: a cut write has cleared some subset of the bits it would clear; an
erase cut short leaves each slot unchanged, erased or undecodable; a failed write of one state byte
has had no effect; other failed operations leave what a power cut could leave. Sequences stay
below 2^64 - 1 in the invariants, since the code wraps; the functions and methods themselves wrap.

## What turned out false

`README.md:377` of the firmware says that a full queue discards its oldest measurement so that
newer outage data continues to be captured, and `README.md:375` that 1,008 records are usable. The
code does not keep that promise in every run. `Fragmentation.FragmentationRefuses` gives, for every
region of three sectors or more, a run without any power cut (18 appends, 16 acknowledgments, then
appends only) after which the next append is refused with fewer records waiting than the capacity,
and so is every later one, through any number of appends and restarts, until an acknowledgment:
below capacity the eviction branch is not taken. `TwoSectors.TwoSectorsNeverRefuse` shows that three
is the least number of sectors for that, and `Outage.OutageNeverFails` that an outage starting from
a blank region is never affected. `Starvation.AppendSucceedsIff` gives the exact condition on the
queue before the call.

An empty queue may refuse too. When erasures fail while a region without erased slots is being
drained, the session goes on with nothing waiting and no erased slot, and since neither a refused
append (`src/flash_queue.rs:146-148`) nor an acknowledgment of nothing (`src/flash_queue.rs:162-164`)
reclaims, it refuses every append until a restart, although there are sectors it could erase.
`Starvation.DrainedAccepts` gives the exact condition, `Starvation.DrainedMayRefuse` such a queue,
`Reach.DrainedRegionReached` a run that ends in it, and `Session.StuckUntilRestart` how long it lasts.

## Model

| member | source | states |
|---|---|---|
| Crc32.Compute | src/flash_queue.rs:360-369 | the nested loops compute the checksum function |
| Crc32.AbsorbByte | src/flash_queue.rs:363-366 | eight turns of the inner loop are eight shift-xor steps |
| Crc32.ShiftXorLinear | src/flash_queue.rs:365 | one shift-xor step is linear |
| Crc32.ShiftsInjective | src/flash_queue.rs:364-366 | any number of steps is injective |
| CrcGenerator.StepMultipliesByX | src/flash_queue.rs:365 | read in reflected order, one shift-xor step multiplies by x modulo the generator of IEEE 802.3 |
| CrcGenerator.CheckValue | src/flash_queue.rs:360-369 | the checksum of the digits one to nine is the published check value |
| CrcGenerator.Residue | src/flash_queue.rs:318-319 | every message followed by its checksum leaves the same register |
| LittleEndian.DigitAt | src/flash_queue.rs:305-319 | byte i of an encoded integer is its digit for 256^i |
| Crc32.BurstDetected | src/flash_queue.rs:360-369 | messages of any length that differ only within four consecutive bytes have different checksums |
| RecordCodec.Layout | src/flash_queue.rs:296-321 | which byte of the image holds which field, in which order and with which codes |
| RecordCodec.Fill | src/flash_queue.rs:296-321 | the buffer filled field by field is the encoded image |
| RecordCodec.StoreCommonFields | src/flash_queue.rs:305-310 | the fields every version shares land at offsets 4..40 and nothing else changes |
| RecordCodec.DecodeEncode | src/flash_queue.rs:296-358 | every record reads back bit for bit, except that a non-finite voltage is missing |
| RecordCodec.ReadableIsWritten | src/flash_queue.rs:323-358 | the converse: every image that reads as a record is, up to its checksum, the frame one of the three versions lays out for some record, and reads as the upgrade of that |
| Types.FiniteIff | src/flash_queue.rs:353-354 | a voltage is kept exactly if its bits without the sign are below those of infinity |
| RecordCodec.Version1Upgrade | src/flash_queue.rs:323-358 | a version 1 image with its own checksum reads as the same common fields without voltage and power source |
| RecordCodec.Version2Upgrade | src/flash_queue.rs:323-358 | a version 2 image with its own checksum reads as the same fields without power source |
| RecordCodec.BurstMakesUnreadable | src/flash_queue.rs:323-333 | any change confined to four consecutive bytes of 2..44 makes an encoded record unreadable |
| RecordCodec.SameBeyondState | src/flash_queue.rs:323-333 | the state byte neither hides nor changes a record |
| NorFlash.Device.Write | src/flash_queue.rs:415-430 | programming ANDs the data in; a failure leaves a torn write, or nothing for a single byte, and is counted |
| NorFlash.Device.Erase | src/flash_queue.rs:431-435 | an erase sets the range; a failure leaves a torn erase and is counted |
| NorFlash.SlotKinds | src/flash_queue.rs:191-203 | which state byte and which decoding make a page erased, Active, retired or corrupt |
| Types.Increments | src/flash_queue.rs:134-145 | at the top the sequence wraps and the drop count stays |
| Slots.OldestBelow | src/flash_queue.rs:206-220 | the first Active slot with the least sequence |
| Slots.NewestBelow | src/flash_queue.rs:251-264 | the first decodable slot with the greatest sequence |
| Slots.FirstErasedFrom | src/flash_queue.rs:222-229 | the lowest erased slot |
| Fifo.ContentsAreActive | src/flash_queue.rs:206-220 | the contents are exactly the Active records |
| Fifo.ContentsAscend | src/flash_queue.rs:206-220 | they come in strictly ascending order of sequence |
| Fifo.PutEnqueues | src/flash_queue.rs:136-149 | a record with a larger sequence joins at the back, whichever slot it lands in |
| FlashSteps.StepEffect | src/flash_queue.rs:231-283 | completing or cutting one step keeps the region sound and never lowers the largest sequence; the contents gain one at the back, lose one at the front, or stay |
| QueueModel.ReclaimStepsRun | src/flash_queue.rs:265-283 | the erasures issued one by one make the reclaimed region, each allowed when issued |
| QueueModel.AppendEnabled | src/flash_queue.rs:123-151 | every step an append issues is allowed when issued: fresh sequence, lowest erased slot, oldest record, sector holding nothing needed |
| QueueModel.AcknowledgeEffect | src/flash_queue.rs:159-169 | acknowledge is dequeue, and keeps the invariant |
| QueueModel.AppendEffect | src/flash_queue.rs:123-151 | append is enqueue after an eviction if full; it fails only for want of a slot and then has still spent its sequence |
| QueueModel.EvictEffect | src/flash_queue.rs:132-135 | exactly the oldest record of a full queue goes, and then there is room |
| QueueModel.RecoverEffect | src/flash_queue.rs:76-104 | recovery keeps the contents; depth and next sequence follow from them |
| CrashSafety.ReclaimContract | src/flash_queue.rs:250-286 | Active slots and largest sequence unchanged; every sector erased, in use or holding the newest; a second run does nothing |
| CrashSafety.RecoveryIdempotent | src/flash_queue.rs:78-104 | recovery cut anywhere and run again ends with the same slots, depth and next sequence |
| CrashSafety.AppendLeaves | src/flash_queue.rs:123-151 | finished, refused or cut, an append leaves the contents before it, those after the eviction, or those with the record |
| CrashSafety.CrashRefinement | src/flash_queue.rs:123-169 | after a cut anywhere in an operation the next recovery finds the queue before it, the queue after it, or for an overflowing append the queue without its head |
| FlashImage.StepRuns | src/flash_queue.rs:231-283 | the byte operations of a step do to the slots what the step says |
| FlashImage.TornBody | src/flash_queue.rs:231-241 | a body torn at any bit reads as erased or corrupt |
| FlashImage.TornCommit | src/flash_queue.rs:241 | a commit byte cut short is either the old byte or the new one |
| FlashImage.TornRetire | src/flash_queue.rs:244-248 | so is a retirement |
| FlashImage.CutRefines | src/flash_queue.rs:186-204 | cut at any bit, they leave one of the regions the cut steps allow; a torn body never reads as a record |
| FlashImage.FlashDiscipline | src/flash_queue.rs:182-184 | every write only clears bits inside the region; every erase is one aligned sector of it without Active records |
| PowerLoss.PowerLossAnywhere | src/flash_queue.rs:123-169 | crash refinement down to single bits of the memory |
| PowerLoss.InterruptedRecovery | src/flash_queue.rs:78-104 | recovery idempotence down to single bits, for any memory contents |
| MemoryRuns.LifeIsRun | src/flash_queue.rs:50-169 | every life of the memory, with operations that complete, fail or are cut at any bit and recoveries that complete or are cut, is a run of the step system, state by state |
| MemoryRuns.ErasedMemoryIsBlank | src/flash_queue.rs:186-189 | a freshly erased memory is where a life can begin |
| MemoryHistory.MemoryNeverLoses | src/flash_queue.rs:50-169 | every life has one history of committed records that begins empty, to which every move adds exactly what it did, and of which the memory always holds what has not left, unaltered and in order |
| MemoryHistory.MoveAdds | src/flash_queue.rs:123-169 | a completed operation adds its whole effect; one that was cut or failed adds nothing, everything, or only its eviction; a recovery, cut or not, adds nothing |
| MemoryHistory.RecoveryFindsTheRest | src/flash_queue.rs:76-104 | at any moment of a life a recovery finds exactly what was committed and has not left |
| PowerLoss.NothingOutside | src/flash_queue.rs:182-184 | completed, failed or cut at any bit, an operation leaves every byte outside the region as it was |
| PowerLoss.EveryOperationProper | src/flash_queue.rs:231-283 | the flash discipline holds for every operation of every good queue |
| FlashQueue.FlashQueue.ReadSlot | src/flash_queue.rs:186-204 | a slot reads as its bytes say |
| FlashQueue.FlashQueue.FindOldest | src/flash_queue.rs:206-220 | finds the oldest Active record and its slot |
| FlashQueue.FlashQueue.FindErasedSlot | src/flash_queue.rs:222-229 | finds the lowest erased slot |
| FlashQueue.FlashQueue.PeekOldest | src/flash_queue.rs:155-157 | the head of the queue, if any |
| FlashQueue.FlashQueue.WriteState | src/flash_queue.rs:244-248 | one state byte is programmed, or nothing |
| FlashQueue.FlashQueue.WriteRecord | src/flash_queue.rs:231-242 | body first with the state byte erased, then the commit byte; on an error the slot is unchanged or corrupt |
| FlashQueue.FlashQueue.FindNewest | src/flash_queue.rs:251-264 | finds the slot with the greatest decodable sequence |
| FlashQueue.FlashQueue.InspectSector | src/flash_queue.rs:266-275 | the inner loop finds whether a sector is active and whether it is dirty |
| FlashQueue.FlashQueue.ReclaimSector | src/flash_queue.rs:265-283 | erases the sector exactly when it is reclaimable |
| FlashQueue.FlashQueue.ReclaimInactiveSectors | src/flash_queue.rs:250-286 | the nested scans erase exactly the reclaimable sectors, in order, unless the device failed; then a cut of that |
| FlashQueue.FlashQueue.AcknowledgeOldest | src/flash_queue.rs:159-169 | dequeue, by exactly the operations issued, unless the device failed; then the bytes are a cut of them, counters still consistent |
| FlashQueue.FlashQueue.RemoveOldest | src/flash_queue.rs:171-174 | retires the oldest record, as acknowledging does |
| FlashQueue.FlashQueue.MakeRoom | src/flash_queue.rs:132-135 | a full queue loses its oldest record and counts it, any other stays as it is |
| FlashQueue.FlashQueue.Place | src/flash_queue.rs:145-150 | the record goes into the lowest erased slot, or nothing happens |
| FlashQueue.FlashQueue.Append | src/flash_queue.rs:123-153 | enqueue with drop-oldest, by exactly the operations issued, unless the device failed; then the bytes are a cut of them, and sequence and drop count tell whether it was before or after the eviction |
| FlashQueue.FlashQueue.Survey | src/flash_queue.rs:76-98 | the recovery scan counts Active and undecodable slots and finds the largest sequence, unless a read failed |
| FlashQueue.FlashQueue.Recover | src/flash_queue.rs:50-105 | refuses exactly the bad geometries; otherwise, unless the device failed, rebuilds the queue from flash alone and reports the numbers of Active and of undecodable slots |
| FlashQueue.GoodGeometryIff | src/flash_queue.rs:55-67 | good are two or more whole sectors that end within the flash and below 2^32, on byte-writable flash with 4096-byte sectors |
| FlashQueue.FirmwareRegion | src/main.rs:51-53 | the firmware's own region, which ends where the flash ends, is accepted |
| Session.SessionIsFifo | src/flash_queue.rs:123-169 | over any session, what was waiting followed by what was accepted is what left followed by what waits |
| Session.Conservation | src/main.rs:700-712 | depth plus dropped plus acknowledged equals recovered depth plus accepted, refused appends included |
| Session.WindowStaysContiguous | src/flash_queue.rs:136-150 | without refusals the waiting sequences are exactly [next - depth, next) |
| Session.WindowSurvivesPowerCut | src/flash_queue.rs:78-104 | a power cut and the recovery after it leave such a window again |
| Wear.WearBound | src/flash_queue.rs:250-286 | over any run without power cuts, at most two erasures per sixteen accepted records |
| Wear.StepStaysPaid | src/flash_queue.rs:222-286 | each abandoned partly filled sector has a full erasure below it to its name, because allocation is lowest-first |
| Outage.OutageNeverFails | src/flash_queue.rs:116-151 | appends only, from blank: all accepted, record k in slot k mod (16 S - 1), contents are the newest records up to capacity, the rest counted as dropped |
| Starvation.StarvationNeedsRecords | src/flash_queue.rs:132-148 | on a reclaimed region an append fails only with S - 1 records still waiting after the eviction, on a sound one only with S |
| Starvation.DrainedAccepts | src/flash_queue.rs:145-148 | a drained queue accepts iff a slot is erased; always on a reclaimed region, and always after a restart |
| Starvation.DrainedMayRefuse | src/flash_queue.rs:145-167 | a good queue that is drained, refuses, is left as it was by refused appends and acknowledgments of nothing, and accepts after a restart |
| Reach.DrainedRegionReached | src/flash_queue.rs:265-283 | failing erasures lead to it |
| Session.StuckUntilRestart | src/flash_queue.rs:145-167 | a drained queue without an erased slot refuses every append through any number of appends and acknowledgments, until a restart |
| Starvation.StarvationBoundIsTight | src/flash_queue.rs:145-148 | for every number of sectors a sound region with exactly S waiting refuses |
| Reach.TightRegionReached | src/flash_queue.rs:231-242 | appends cut in their bodies lead to that region |
| Starvation.AppendSucceedsIff | src/flash_queue.rs:132-148 | for every good queue: an append succeeds iff a slot is erased, or the queue is full and retiring its oldest record lets some sector be erased |
| Starvation.AppendSucceedsIffReclaimed | src/flash_queue.rs:132-148 | on a reclaimed region: iff a slot is erased, or the queue is full and its oldest record is the last waiting in a sector without the newest |
| Starvation.AfterIsReclaimed | src/flash_queue.rs:149-167 | an operation that gets to reclaiming leaves a reclaimed region, whatever it started from; a refused append without eviction and an acknowledgment of nothing leave the slots as they were |
| Starvation.RefusalStarves | src/flash_queue.rs:132-148 | a refusal on a reclaimed region leaves a starved queue: no slot, nothing to erase, not full |
| Starvation.StarvationLasts | src/flash_queue.rs:132-148 | a starved queue refuses, and neither an append nor a restart changes its slots |
| Session.StarvedUntilAcknowledged | src/flash_queue.rs:132-148 | it refuses every append after any number of appends and restarts, until an acknowledgment |
| Fragmentation.FragmentationRefuses | README.md:377 | the promise of continued capture fails for every region of three sectors or more, without any power cut, and goes on failing through any appends and restarts until an acknowledgment |
| TwoSectors.TwoSectorsNeverRefuse | README.md:377 | with two sectors no run without power cuts ever refuses a measurement |
| Delivery.NextInv | src/main.rs:747-855 | the invariant of the whole step system survives every step, power cuts and storage errors included |
| Delivery.NothingLost | src/flash_queue.rs:76-104 | in every reachable state, what was ever committed is what has left followed by what a recovery finds |
| Delivery.SequencesNeverReused | src/flash_queue.rs:76-98 | across any number of reboots no two committed records share a sequence, and the counter exceeds them all |
| Delivery.AtLeastOnceInOrder | README.md:357 | everything that left was delivered or evicted; the broker's sequences never fall; without repeats each delivered record appears exactly once |
| Delivery.EvictedOnlyWhenFull | src/flash_queue.rs:132-135 | an unacknowledged record is lost only from a full queue, and it is the head |
| Delivery.RunGrows | src/flash_queue.rs:250-286 | over a run histories only grow and the largest sequence on flash never falls |
| Upload.CaptureAndEnqueue | src/main.rs:662-725 | without clock or sample nothing changes; otherwise the queue becomes what an append makes of it, stored exactly if a slot was found, unless the device failed; then it is as before, without its head if full, or holds the sample anyway |
| Upload.RetireHead | src/main.rs:840-851 | after PUBACK the head leaves, or if the device failed stays or has left, and nothing else changes |
| Upload.HandOver | src/main.rs:762-851 | the head is published once and retired once acknowledged; it fails exactly if encoder, broker or device did |
| Upload.DrainQueue | src/main.rs:747-855 | terminates; what it retires is a prefix of the queue in order, each delivered first; false exactly if encoder, broker or device failed, and otherwise the broker has received the whole queue |
| Schedule.NextDeadlineIsLeast | src/schedule.rs:2-5 | the least in-phase time after now, or the next slot when woken early |
| Schedule.ScheduleKeepsPhase | src/main.rs:1135-1148 | over a run all deadlines are in phase and strictly increase |
| SleepClock.Sleeper.WaitUntil | src/power.rs:43-163 | on battery it waits awake for at most 20 ms and otherwise sleeps, unless the alarm is refused or less than 2 ms are left; application time never goes backward; one sleep moves the drift by less than a millisecond and wakes at most a millisecond early |
| SleepClock.Sleeper.SleepFor | src/power.rs:60-162 | if the alarm is accepted, sleeps until it fires and adds to the offset the correction for exactly the time between |
| SleepClock.SleepAdvances | src/schedule.rs:9-11 | one sleep advances the clock by the larger of the two readings, within a millisecond of the truth |
| SleepClock.DriftBound | src/power.rs:153-160 | over any list of sleeps the corrections differ from the time the native timer missed by less than a millisecond for each sleep |
| SleepClock.RunCycles | src/main.rs:1075-1149 | over any number of cycles the deadlines follow the schedule, application time never goes backward, offset and missed time are those of the sleeps that took place, and what was asked of the timers is accounted for |
| SleepClock.RunKeepsPhaseAndTime | src/main.rs:1135-1148 | in such a run all deadlines are in phase and strictly increase, the clock drifts by less than a millisecond for each sleep, no cycle starts more than 2 ms early unless an alarm was refused, and on battery at most 20 ms a cycle are waited awake |

## Left out

- NorFlash.Device.Erase: a failed or cut erase is taken to leave each slot unchanged, erased or undecodable; an erase torn at the level of bits could turn a retired state byte back into a committed one, and the code has no guard against it.
- Wear.WearBound: says nothing about runs with power cuts, where torn bodies use up slots without a record being accepted.
- Upload.DrainQueue: the publish, its timeouts and the wait for PUBACK are one nondeterministic call, and so is JSON encoding; each counts its failures.
- SleepClock.Sleeper.WaitUntil: 64-bit overflow of microsecond counts is not modelled, nor are the clock, PLL, interrupt and pad registers.
- Schedule.NextDeadlineIsLeast: the sum is taken not to overflow 64 bits.
- SleepClock.DriftBound: the two clocks read before a sleep are taken as read at the same instant, and so are the two read after it.
- Floating point: a float is its 32 bits, and only the finite test looks inside.
- Sequence wrap-around at 2^64 and arbitrary bit rot: the code gives no guarantee there; the invariants assume a fresh sequence below 2^64 - 1.
- `reclaim_inactive_sectors` is split into four methods (`FindNewest`, `InspectSector`, `ReclaimSector`, `ReclaimInactiveSectors`), `append` into `Append`, `MakeRoom` and `Place`, `drain_queue` into `DrainQueue`, `HandOver` and `RetireHead`, `encode` into `Fill` and its helpers, `wait_until` into `WaitUntil` and `SleepFor`, and the main loop into `RunCycle` and `RunCycles`; the loops and their order are the firmware's.
- The broker's connection, Wi-Fi, DHCP, DNS, NTP, LED, voltage sampling, configuration, status and backoff: input and output around the queue; the step system keeps only their success, failure and timeouts.
- A publication still in flight when its attempt was abandoned is taken not to arrive later; the code opens a new session for each attempt.
