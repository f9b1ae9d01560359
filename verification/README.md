# A verified model of the NRC7292 host driver's protocol core

The driver under `package/src/nrc` runs an IEEE 802.11ah access point or station on a
target reached over SPI.  This project models the parts of it that decide something, and
proves what they guarantee over all inputs and all runs:

* **Target wake time** (`nrc-twt-sched.c`, `nrc-mac80211-twt.c`): the access point
  quantises a wake interval, divides it into service slots, places stations in slots and
  answers each setup request with ACCEPT, DICTATE or REJECT (sections 9.4.2.199 and 10.47
  of IEEE Std 802.11-2020).
* **Transport** (`hif.c`, `nrc-hif-cspi.c`): two transmit queues and their drain, the
  pending credit of every access category, wrapping slot and credit counters, the framing
  of received packets, and the CRC-7 of commands.
* **Vendor elements** (`nrc-mac80211.c`): byte buffers of vendor-specific elements
  (section 9.4.2.25 of IEEE Std 802.11-2020) edited in place, and the backup that replays
  them after a watchdog reset.
* **Three loops with state**: firmware fragments (`nrc-fw.c`), the inactivity countdown of
  an access point (`nrc-pm.c`, section 11.21.13 of IEEE Std 802.11-2020) and the trimmed
  mean of the signal statistics (`nrc-stats.c`).

Where the driver updates state step by step the model does too: a class or method with
loops is proved to move the state as a specification function says, and the theorems are
about that function and about runs of it.

| file | contents |
|---|---|
| `Arith.dfy`, `Common.dfy` | shifts, rounding division, facts about multiples; shared types |
| `TwtInterval.dfy` | interval quantisation, start-up arithmetic |
| `TwtWindows.dfy` | service windows over all time |
| `TwtScheduler.dfy` | slot allocator, grading, setup and teardown as functions |
| `TwtNegotiation.dfy` | what an exchange, and two exchanges, yield |
| `TwtAnswers.dfy` | the answer to any frame, its wake time by the clocks of the run, and all that it changes |
| `TwtRuns.dfy` | the invariant of all runs and its consequences |
| `TwtFaults.dfy` | which configurations make a setup fault |
| `TwtReach.dfy`, `TwtFill.dfy` | states some run reaches; runs that fill the slots |
| `TwtTrap.dfy`, `TwtOverlap.dfy` | when a slot is overfilled; when windows of accepted flows meet |
| `TwtWitness.dfy` | short runs with a surprising answer |
| `TwtResponder.dfy` | the same operations in place |
| `VendorElements.dfy`, `VendorStore.dfy`, `VendorBuffers.dfy` | elements as bytes; the store, its runs and the replay; the buffers in place |
| `HifQueue.dfy`, `HifRuns.dfy`, `HifOrder.dfy`, `HifTransmit.dfy` | the order of a drain; interleaved runs; first in, first out; the queues and counters in place |
| `SpiCounters.dfy`, `SpiSlots.dfy` | 16-bit differences; transmit slots and credit |
| `SpiFrames.dfy`, `SpiReceive.dfy`, `SpiRxRuns.dfy`, `SpiRxPort.dfy` | packets in slots; reception of one packet; runs of reception; the same in place |
| `Crc7.dfy` | CRC-7 |
| `Firmware.dfy`, `ApIdle.dfy`, `MovingAverage.dfy` | the three loops |

## What the proofs found

Properties that do not hold of the code are stated with their exact condition, and an input or
a run that meets it.

* `cal_twt_interval` (nrc-twt-sched.c:61-103) returns mantissa 0 for intervals from
  65535 * 2^31 + 2^30 up to 2^47: the best candidate is then 65536 and is cut to 16 bits
  (`TwtInterval.CalTwtInterval`).  The interval the scheduler works with is then zero, and
  some setup divides by it.
* The number of slots is not checked.  With fewer services than a group holds there is no slot;
  FCFS and Balanced with groups of one then reject, but Balanced with larger groups writes
  past the table.  These are all the faults there are (`TwtFaults.SomeSetupFaultsIff`,
  `NoSetupFaultsInRuns`, `TwtInterval.ReadyIsSafeIff`, `TwtFaults.WithoutSlots`).
* The slots fit the interval except when the product in `twt_param_check` overflows 64 bits
  (`SlotsFitInterval`), but can exceed the quantised interval by the quantisation error
  (`SlotsOverrun`).  Windows of accepted flows meet in some run exactly when the slots do not
  fit (`TwtOverlap.WindowsMeetInSomeRunIff`); two services of 131073 microseconds are enough
  (`QuantisedSumMeets`).
* The Balanced fallback (nrc-twt-sched.c:168-171) takes slot 0 without looking at it.  Some run
  exceeds the group size exactly with Balanced, two slots or more and groups of two or more
  (`TwtTrap.SomeRunOverfillsIff`), and then by any number, while another slot has room
  (`BalancedOverfills`); four stations in groups of two and 10 microseconds will do
  (`StartUpOverfills`).  `OverfillsIffFallbackOnFullSlot` says which allocation does it.
* A dictated exponent of 32 or more does not fit its five-bit field; the station is then
  dictated again whenever it complies (`ResubmissionSettles`).  An interval that is rounded up
  gets the largest exponent that denotes it, so that 2^32 - 1 microseconds already suffice
  (`TwtWitness.WrappedExponentIsDictated`).
* A request for interval zero is accepted at the base interval (`AcceptKeepsInterval`,
  `TwtWitness.ZeroIntervalIsAccepted`).
* A station that repeats an accepted request is rejected unless it wrote the interval with
  the access point's own mantissa (`RepeatAcceptedIff`,
  `TwtWitness.OtherSpellingIsRejectedAgain`).
* A slot reserved by a setup whose list node could not be allocated is never given back; the
  counts agree with the lists if and only if that never happened (`CountsAgreeIffNoLeak`,
  `TwtWitness.FailedNodeLeaks`).
* A drain that ends while it holds a frame back forgets the frame and its credit (hif.c:222-225
  and 237-239, and 213-216 in builds for kernels before 4.1), `nrc_hif_cleanup` drops frames
  with their credit, and enqueueing without a work queue releases a packet that stays queued
  (`CleanIffNothingForgotten`; the runs `FailedWaitForgets`, `SleepForgets` and
  `LateWimForgets`).
* An ordinary management frame queued while running makes waiting deauth frames lose their
  precedence over WIMs (`EnqueuedPlan`, `DeauthLosesPrecedence`).
* The credit report is one too high exactly when the 8-bit front counter has wrapped past the
  rear (nrc-hif-cspi.c:799; `ReportInEveryRun`), which happens for every credit limit
  (`ReportOneTooHigh`).
* The receive path never takes a packet of more than 34 slots, and with 33 slots posted at once
  the status read is content but `spi_rx_skb` gives up and resets (nrc-hif-cspi.c:567-574 and
  1322-1333; `LongestPacket`, `RefusedIff`).  Its second test for garbage (lines 657-665) fails
  exactly when a status read by another thread has reset reception since the look, or finds
  exactly 33 slots pending once the packet's slots are taken (`RestIs`, `SecondTestFails`);
  with at most 32 slots pending it never fails (`SpiRxRuns.FetchIff`).
* With two interfaces the replay can put back data that has been replaced since
  (`TwoInterfacesDisagree`); with one, a lookup gives what the last write left, whatever resets
  there were (`SingleInterfaceLookup`).
* Data frames do not rewind the inactivity countdown of a station whose 16-bit period is
  zero although its countdown runs (`HeedsDataIff`, `UnheededDisconnection`); with an unscaled
  period of 65536 a station that sends before every tick is disconnected
  (`ChattyStationDisconnected`).  A response with hostapd's own element stops the rewinding
  but not the timer, and the driver may still disconnect the station (`HandedToHostapd`).
* The statistics crash for a ring of two, and the SNR crashes before the first sample
  (`MovingAverage.Ring.Compute`).

Two comments differ from the code, which the model follows: nrc-hif-cspi.c:580 gives the
receive slot 456 bytes (it has 492), and nrc-pm.c:713 speaks of QoS null frames (any data
frame counts).

## Model

| member | source | states |
|---|---|---|
| `TwtInterval.CalTwtInterval` | package/src/nrc/nrc-twt-sched.c:61-103 | the pair found is a nearest representable one, and the preferred one of these, exactly below 65535·2^31 + 2^30; from there to 2^47 the mantissa is 0; above, failure |
| `TwtInterval.ChosenIsUnique` | package/src/nrc/nrc-twt-sched.c:74-100 | nearest, above rather than below on a tie, smallest exponent below and largest above: this fixes the pair |
| `TwtInterval.NearestErrorBound` | package/src/nrc/nrc-twt-sched.c:61-103 | a nearest pair is exact up to 65535 and within one part in 65536 above |
| `TwtInterval.SlotsFitInterval` | package/src/nrc/nrc-twt-sched.c:37-59 | whichever parameter is derived, the slots fit the interval if and only if the product did not overflow 64 bits |
| `TwtInterval.DerivedIntervalIsTight` | package/src/nrc/nrc-twt-sched.c:43-45 | a derived interval is exactly that of the slots, unless it overflowed |
| `TwtInterval.DerivedCountIsTight` | package/src/nrc/nrc-twt-sched.c:46-48 | a derived count is in whole groups and one more would not fit |
| `TwtInterval.DerivedPeriodIsTight` | package/src/nrc/nrc-twt-sched.c:49-53 | a derived service period is the longest that lets the slots fit; fewer services than a group divide by zero |
| `TwtInterval.UnsuitableIff` | package/src/nrc/nrc-twt-sched.c:37-59 | TWT stays off unless exactly two of the three parameters are given |
| `TwtInterval.DerivedValuesWrap` | package/src/nrc/nrc-twt-sched.c:43-48 | a product of 2^64 gives interval 0, and a count of 2^32 + 5 gives 5 |
| `TwtInterval.FinishInit` | package/src/nrc/nrc-twt-sched.c:590-637 | start-up refuses oversized intervals and unknown algorithms, otherwise works with the interval the chosen pair denotes |
| `TwtInterval.TwtSchedInit` | package/src/nrc/nrc-twt-sched.c:561-637 | the whole start-up arithmetic from the three parameters, with its division by zero |
| `TwtInterval.ReadyIsSafeIff` | package/src/nrc/nrc-twt-sched.c:590-637 | a scheduler that came up cannot fault if and only if its interval is above 0 and below the limit, and it has a slot or FCFS or groups of one |
| `TwtInterval.ComesUpIff` | package/src/nrc/nrc-twt-sched.c:590-637 | the scheduler comes up if and only if the parameters are suitable, the algorithm is 0 or 1 and the interval is below 2^47, and then with these parameters |
| `TwtFaults.SomeSetupFaultsIff` | package/src/nrc/nrc-twt-sched.c:159-201 | some setup faults if and only if the interval is 0, or there is no slot and the algorithm is Balanced with groups of two or more |
| `TwtFaults.NoSetupFaultsInRuns` | package/src/nrc/nrc-twt-sched.c:462-559 | otherwise no setup faults in any state of any run |
| `TwtFaults.WithoutSlots` | package/src/nrc/nrc-twt-sched.c:37-59 | parameters that leave no slot, and when they fault |
| `TwtInterval.SlotsOverrun` | package/src/nrc/nrc-twt-sched.c:577-602 | slots laid out from the requested interval exceed the quantised one by at most the quantisation error |
| `TwtInterval.ShortIntervalsFit` | package/src/nrc/nrc-twt-sched.c:577-628 | for 16-bit intervals the slots fit the interval the scheduler works with |
| `TwtWindows.WakesStayOnGrid` | package/src/nrc/nrc-twt-sched.c:110-148 | a period that is a multiple of the interval keeps every wake of a flow on its slot's grid |
| `TwtWindows.NeverOverlapIffSlotsFit` | package/src/nrc/nrc-twt-sched.c:110-148 | windows of different slots are disjoint for all repetitions if and only if the slots fit the interval |
| `TwtNegotiation.IdleCapMeaning` | package/src/nrc/nrc-twt-sched.c:493-506 | the shortening loop leaves the largest smaller multiple whose flow is within BSS max idle |
| `TwtNegotiation.GradeMeaning` | package/src/nrc/nrc-twt-sched.c:488-528 | the multiple chosen is the largest allowed power of two up to 8; nothing is dictated if and only if it is the request itself and within BSS max idle |
| `TwtNegotiation.RewrittenDenotes` | package/src/nrc/nrc-twt-sched.c:550-555 | the mantissa and exponent written back denote the multiple of the base interval |
| `TwtNegotiation.AnswerMeaning` | package/src/nrc/nrc-mac80211-twt.c:499-580 | the command of the answer, what the frame then carries, and what is stored |
| `TwtNegotiation.AcceptKeepsInterval` | package/src/nrc/nrc-mac80211-twt.c:539-550 | ACCEPT stores exactly the requested interval if and only if that is not zero |
| `TwtNegotiation.DictateOffers` | package/src/nrc/nrc-twt-sched.c:488-556 | DICTATE offers base·2^k, k at most 3, not above the request unless that is below base, within BSS max idle if base is, and no allowed power of two is larger |
| `TwtNegotiation.ResubmissionSettles` | package/src/nrc/nrc-mac80211-twt.c:373-558 | in any later state in which the station has no agreement, complying with DICTATE is dictated again if and only if the exponent leaves its field or base exceeds BSS max idle; otherwise accepted if and only if a slot and a node are there |
| `TwtNegotiation.WrappedOffer` | package/src/nrc/nrc-mac80211-twt.c:556-558 | an exponent of 32 or more denotes less than the base interval once it is in the frame |
| `TwtAnswers.AnswerTable` | package/src/nrc/nrc-mac80211-twt.c:373-580 | the answer to any frame in any reachable state: malformed, repeated, too early, dictated unless the interval is 0, 1, 2, 4 or 8 base intervals and within BSS max idle, else accepted if and only if a slot has room and there is memory |
| `TwtAnswers.AcceptCarriesFirstWake` | package/src/nrc/nrc-twt-sched.c:110-148 | an ACCEPT carries the start time, the service periods before the chosen slot, and the intervals passed, one more unless a second is left from now |
| `TwtAnswers.WakeTimeInEveryRun` | package/src/nrc/nrc-twt-sched.c:462-559 | in every run that time follows from the run's own start, periods and clock values |
| `TwtAnswers.RunShowsClock` | package/src/nrc/nrc-twt-sched.c:686-740 | in every run the scheduler has started at the first start with a clock value that BSS max idle admits, and counts the periods since |
| `TwtAnswers.AcceptEffect` | package/src/nrc/nrc-twt-sched.c:530-556 | all that an ACCEPT changes: slot, list, counts, allocator fields and the stored flow |
| `TwtAnswers.UnplacedEffect` | package/src/nrc/nrc-twt-sched.c:511-556 | all that a request changes that is dictated or finds no room |
| `TwtAnswers.LeakEffect` | package/src/nrc/nrc-twt-sched.c:530-541 | all that a request changes that finds a slot and no memory |
| `TwtAnswers.TeardownEffect` | package/src/nrc/nrc-twt-sched.c:407-458 | all that a teardown changes, and when it changes nothing |
| `TwtAnswers.StationsComeAndGo` | package/src/nrc/nrc-mac80211.c:2505-2549 | joining gives no agreement; leaving is a teardown and then forgets the station |
| `TwtScheduler.FirstChoice` | package/src/nrc/nrc-twt-sched.c:158-181 | the search stops at the first slot that satisfies the algorithm's test |
| `TwtRuns.PicksFirstSuitable` | package/src/nrc/nrc-twt-sched.c:151-201 | FCFS takes the first slot with room; Balanced the first least loaded one, or slot 0 as fallback |
| `TwtRuns.AllocationFailsIffFull` | package/src/nrc/nrc-twt-sched.c:158-189 | in every reachable state allocation fails if and only if every slot is at its maximum, for both algorithms |
| `TwtRuns.OverfillsIffFallbackOnFullSlot` | package/src/nrc/nrc-twt-sched.c:168-172 | an allocation overfills a slot if and only if the fallback meets a full slot 0 |
| `TwtRuns.NextTwtIsEarliestInTime` | package/src/nrc/nrc-twt-sched.c:110-148 | the wake time is the earliest repetition of the slot that leaves the station one second, if and only if the next period's does |
| `TwtRuns.EntryAddKeepsInv` | package/src/nrc/nrc-twt-sched.c:462-559 | counts, lists, mask bits, loads and wake times stay consistent through every outcome of an add |
| `TwtRuns.SetupKeepsInv` | package/src/nrc/nrc-mac80211-twt.c:499-580 | the same for a whole setup exchange |
| `TwtRuns.TeardownKeepsInv` | package/src/nrc/nrc-twt-sched.c:407-458 | the same for a teardown, which also finds usable pointers and counts and clears the mask bit |
| `TwtRuns.CountsAgreeInEveryRun` | package/src/nrc/nrc-twt-sched.c:191-201 | in every run the total count is the sum of the slot counts, and exceeds the list lengths by exactly the number of leaked reservations |
| `TwtRuns.CountsAgreeIffNoLeak` | package/src/nrc/nrc-twt-sched.c:191-201 | counts and lists agree, in total and slot by slot, if and only if no event of the run leaked |
| `TwtRuns.StepLeaks` | package/src/nrc/nrc-twt-sched.c:530-541 | an event leaks one reservation if and only if it reserves a slot and then finds no memory for the list node |
| `TwtRuns.MaskIffExactlyOneEntry` | package/src/nrc/nrc-twt-sched.c:426-454 | in every run a mask bit is set if and only if some list holds the station, then once over all lists and where its flow points |
| `TwtRuns.AgreedWindowsNeverOverlap` | package/src/nrc/nrc-twt-sched.c:110-148 | in every run whose slots fit, service windows of stations in different slots never overlap, for all repetitions of both |
| `TwtOverlap.WindowsMeetInSomeRunIff` | package/src/nrc/nrc-twt-sched.c:110-148 | with two slots or more, windows of two accepted flows in different slots meet in some run if and only if the slots do not fit |
| `TwtOverlap.QuantisedSumMeets` | package/src/nrc/nrc-twt-sched.c:577-602 | two services of 131073 microseconds come up with such an interval |
| `TwtRuns.FcfsWithinCapacity` | package/src/nrc/nrc-twt-sched.c:175-181 | FCFS never exceeds the group size in any run |
| `TwtRuns.BalancedAddOnlyIsEven` | package/src/nrc/nrc-twt-sched.c:159-174 | until the first teardown Balanced keeps all loads within one of each other and within the group size |
| `TwtRuns.MinimumTracksLoads` | package/src/nrc/nrc-twt-sched.c:434-438 | the running minimum never exceeds a load and trails the least by at most one, in every run |
| `TwtRuns.RepeatedSetupIsInert` | package/src/nrc/nrc-mac80211-twt.c:424-436 | a setup for a station that has an agreement changes nothing |
| `TwtRuns.RepeatAcceptedIff` | package/src/nrc/nrc-mac80211-twt.c:427-432 | repeating an accepted request is accepted again if and only if it uses the scheduler's own mantissa |
| `TwtRuns.TeardownUndoesSetup` | package/src/nrc/nrc-twt-sched.c:431-454 | teardown after setup restores all counts, lists and other stations |
| `TwtRuns.DictateKeepsOccupancy` | package/src/nrc/nrc-twt-sched.c:521-533 | DICTATE leaves the table and every other station as they were |
| `TwtTrap.SomeRunOverfillsIff` | package/src/nrc/nrc-twt-sched.c:159-174 | some run exceeds the group size of some slot if and only if the algorithm is Balanced, there are two slots or more and groups of two or more |
| `TwtTrap.BalancedOverfills` | package/src/nrc/nrc-twt-sched.c:168-171 | in all these configurations, for every k, a run without failures leaves slot 0 k + 1 above its maximum while slot 1 has room |
| `TwtTrap.StartUpOverfills` | package/src/nrc/nrc-twt-sched.c:49-53 | four stations in groups of two and 10 microseconds come up as such a configuration |
| `TwtFill.AddStation` | package/src/nrc/nrc-twt-sched.c:151-202 | while some slot has room, a station that joins and asks for the base interval is accepted, into the slot the allocator chooses |
| `TwtWitness.ZeroIntervalIsAccepted` | package/src/nrc/nrc-twt-sched.c:488-533 | a run in which interval zero is accepted at the base interval |
| `TwtWitness.OtherSpellingIsRejectedAgain` | package/src/nrc/nrc-mac80211-twt.c:424-436 | a run in which an accepted request is rejected when it is repeated |
| `TwtWitness.FailedNodeLeaks` | package/src/nrc/nrc-twt-sched.c:536-541 | a run in which a reservation leaks |
| `TwtWitness.RoundedUp` | package/src/nrc/nrc-twt-sched.c:74-100 | 2^32 - 1 is quantised to mantissa 2 and exponent 31 |
| `TwtWitness.TieGoesUp` | package/src/nrc/nrc-twt-sched.c:84-99 | 2^17 - 1 is equally near to 2^17 - 2 and 2^17, and becomes mantissa 1 and exponent 17 |
| `TwtWitness.WrappedExponentIsDictated` | package/src/nrc/nrc-mac80211-twt.c:552-558 | with that interval a request is dictated 2 microseconds, and again when it complies |
| `TwtResponder.Responder.constructor` | package/src/nrc/nrc-twt-sched.c:607-628 | the scheduler starts in the state all runs start from |
| `TwtResponder.Responder.FindUnusedEntry` | package/src/nrc/nrc-twt-sched.c:151-202 | in place: the slot chosen and the new table are those of the specification |
| `TwtResponder.Responder.GradeFlow` | package/src/nrc/nrc-twt-sched.c:490-528 | both loops, with the source's bit test, compute the grade |
| `TwtResponder.Responder.NextTwtOf` | package/src/nrc/nrc-twt-sched.c:110-148 | the wake time, in the source's steps |
| `TwtResponder.Responder.SchedEntryAdd` | package/src/nrc/nrc-twt-sched.c:462-559 | in place: result and whole new state are those of the specification |
| `TwtResponder.Responder.FlowGetFor` | package/src/nrc/nrc-mac80211-twt.c:403-453 | fresh, same or refused, and what it writes |
| `TwtResponder.Responder.MacAddTwtSetup` | package/src/nrc/nrc-mac80211-twt.c:499-580 | in place: rewritten frame and new state are those of the specification, and the invariant is kept |
| `TwtResponder.Responder.SchedEntryDel` | package/src/nrc/nrc-twt-sched.c:407-458 | in place: never follows a bad pointer, removes the station's node and counts, keeps the invariant |
| `TwtResponder.Responder.SchedStartUp` | package/src/nrc/nrc-twt-sched.c:686-740 | starts only when BSS max idle admits the interval and the clock was read |
| `TwtResponder.Responder.NextPeriod` | package/src/nrc/nrc-twt-sched.c:224-254 | a period passes |
| `VendorElements.DecodeEncode` | package/src/nrc/nrc-mac80211.c:4235-4243 | round trip: the bytes written for a list of elements read back as that list |
| `VendorElements.FindInEncoding` | package/src/nrc/nrc-mac80211.c:4191-4192 | the byte search finds the first element with the subcommand |
| `VendorElements.CutIsWithout` | package/src/nrc/nrc-mac80211.c:4194-4199 | closing the gap in the bytes is removing that element from the list |
| `VendorStore.DropIsOthers` | package/src/nrc/nrc-mac80211.c:4168-4203 | removal deletes only its own element and keeps the others in order |
| `VendorStore.RemoveIsMapRemoval` | package/src/nrc/nrc-mac80211.c:4168-4203 | on the map from subcommand to data, removal removes one key |
| `VendorStore.UpdateIsMapUpdate` | package/src/nrc/nrc-mac80211.c:4205-4251 | an update sets one key to the data written, refuses bad lengths, or overruns the buffer; well-formedness with distinct subcommands is kept |
| `VendorStore.AppendIsRecorded` | package/src/nrc/nrc-mac80211.c:4434-4511 | a command that succeeds on subcommands 0 to 4 or 12 to 26 leaves its pair once, at the end of its interface's own list; all others leave the lists alone |
| `VendorStore.RemovalIsRecorded` | package/src/nrc/nrc-mac80211.c:4253-4264 | a removal of such a subcommand that was stored takes the pair off that list |
| `VendorStore.ForgottenIsNotReplayed` | package/src/nrc/nrc-mac80211.c:4454-4468 | once an interface's list is forgotten its replay does nothing |
| `VendorStore.ReplayWrites` | package/src/nrc/nrc-mac80211.c:4324-4362 | a replay that completes leaves every listed pair in the map and nothing else changed |
| `VendorStore.ReplayKeepsMapIffBackupAgrees` | package/src/nrc/nrc-mac80211.c:4324-4362 | the replay completes and leaves the map unchanged if and only if every backed-up pair is in it |
| `VendorStore.ReplayTargetsMatch` | package/src/nrc/nrc-mac80211.c:4347-4358 | the replay updates a frame exactly for the pairs that are backed up, and the one whose buffer holds them |
| `VendorStore.Run` | package/src/nrc/nrc-mac80211.c:4168-4264 | every run of updates, removals and replays keeps the store well formed |
| `VendorStore.LookupIsLastWrite` | package/src/nrc/nrc-mac80211.c:4168-4264 | after any run without an overrun whose replays agree with the map, a lookup gives what the last write to the subcommand left, over all buffers and interfaces |
| `VendorStore.ReplayFreeLookup` | package/src/nrc/nrc-mac80211.c:4168-4264 | in particular in every run without a replay |
| `VendorStore.SingleInterfaceLookup` | package/src/nrc/nrc-mac80211.c:4324-4511 | and, with commands from one interface, in every run with any replays |
| `VendorStore.SingleInterfaceReplayIsNeutral` | package/src/nrc/nrc-mac80211.c:4415-4511 | with commands from one interface, the replay leaves the map unchanged at any point of any run |
| `VendorStore.TwoInterfacesDisagree` | package/src/nrc/nrc-mac80211.c:4415-4511 | with two interfaces a replay can change the map |
| `VendorBuffers.Skb.RemoveElement` | package/src/nrc/nrc-mac80211.c:4188-4202 | search, memmove and trim in place |
| `VendorBuffers.Skb.AppendElement` | package/src/nrc/nrc-mac80211.c:4235-4243 | the byte stores in place append exactly the octets 221, length, FC, FF, AA, subcommand and the payload |
| `VendorBuffers.FrameOfSubcommand` | package/src/nrc/nrc-mac80211.c:4174-4186 | subcommands 0 to 11 and 27 belong to beacons, 12 to 16 to probe requests, 17 to 21 to probe responses, 22 to 26 to association requests |
| `VendorBuffers.UpdateChangesFrame` | package/src/nrc/nrc-mac80211.c:4205-4251 | an update cuts the old element out of that frame's bytes and appends the new one if it then fits; the other frames keep theirs |
| `VendorBuffers.Vendor.Remove` | package/src/nrc/nrc-mac80211.c:4168-4203 | in place: removes the key, and cuts its element out of the frame of that subcommand alone |
| `VendorBuffers.Vendor.Update` | package/src/nrc/nrc-mac80211.c:4205-4251 | in place: result and store are those of the specification; by the number of the subcommand, which frame then ends with the element, while the others keep their bytes |
| `VendorBuffers.Vendor.BackupDelete` | package/src/nrc/nrc-mac80211.c:4415-4432 | unlinks the first entry with the subcommand |
| `VendorBuffers.Vendor.BackupInsert` | package/src/nrc/nrc-mac80211.c:4434-4489 | replaces the subcommand's entry by a new one at the end |
| `VendorBuffers.Vendor.CommandAppend` | package/src/nrc/nrc-mac80211.c:4492-4511 | update and backup together: the frame that ends with the element, and the list that ends with the pair |
| `VendorBuffers.Vendor.CommandRemove` | package/src/nrc/nrc-mac80211.c:4253-4264 | removal and backup together; nothing when the element is missing |
| `VendorBuffers.Vendor.ReinstallAll` | package/src/nrc/nrc-mac80211.c:4340-4360 | the loop over the list is the replay |
| `HifQueue.PlanIsPermutation` | package/src/nrc/hif.c:189-269 | the order of a drain holds every queued packet as often as it was queued |
| `HifQueue.CreditCovers` | package/src/nrc/hif.c:110 | a frame's credit is the least that covers its length in buffers; other packets take none |
| `HifQueue.EnqueuedPlan` | package/src/nrc/hif.c:484-505 | where a newly queued frame ends up in the order of the next drain |
| `HifQueue.DeauthLosesPrecedence` | package/src/nrc/hif.c:484-489 | a queued management frame sends a waiting deauth frame behind the WIMs |
| `HifRuns.QueuedWimPlan` | package/src/nrc/hif.c:500-504 | a WIM or loopback packet is sent after all WIMs that wait and before all frames but the leading deauth frames |
| `HifOrder.FirstInFirstOut` | package/src/nrc/hif.c:189-270 | in every interleaved run WIMs are sent in the order they were handed over, and so are ordinary frames, held and queued ones following |
| `HifOrder.AllWimsInOrder` | package/src/nrc/hif.c:189-270 | when no wait fails and nothing is cleaned up, those sent and those queued are all the WIMs handed over, in order |
| `HifTransmit.HifDevice.FreeSkb` | package/src/nrc/hif.c:91-134 | releasing a frame is the release of a run: it gives back exactly what it took |
| `HifTransmit.HifDevice.Next` | package/src/nrc/hif.c:196-235 | the choice of the next packet, with push-back, deauth pre-emption and held frame, is that of a round |
| `HifTransmit.HifDevice.TakeAndSend` | package/src/nrc/hif.c:190-268 | choosing, waiting, sending and freeing is one round of a run |
| `HifTransmit.HifDevice.DrainQueue` | package/src/nrc/hif.c:190-268 | the inner loop for a queue ends, and is that many rounds |
| `HifTransmit.HifDevice.Work` | package/src/nrc/hif.c:179-270 | the drain is exactly a run of rounds; sent, dropped, forgotten and left over are together the plan, in order; with every wait successful and the target awake all of (leading deauths, WIMs, other frames) is sent, each once |
| `HifTransmit.HifDevice.Xmit` | package/src/nrc/hif.c:949-973 | charging, queueing and releasing a packet is the matching step of a run, for frames and WIMs; which queue and which end it goes to, and the credit it takes |
| `HifTransmit.HifDevice.Enqueue` | package/src/nrc/hif.c:484-505 | the queue and the end of it that a packet goes to |
| `HifTransmit.HifDevice.Clean` | package/src/nrc/hif.c:1289-1302 | the cleanup loops are the cleanup step of a run: both queues are emptied in order and all credit stays |
| `HifRuns.DrainFollowsPlan` | package/src/nrc/hif.c:189-269 | a drain on its own follows the plan to the end, or to the wait that fails |
| `HifRuns.DrainIsRun` | package/src/nrc/hif.c:189-269 | a drain is a run of rounds, so what holds of all runs holds of it |
| `HifRuns.PendingCreditIsConserved` | package/src/nrc/hif.c:103-130 | in every interleaved run pending credit is what queued, held and forgotten frames owe, less what was released while queued |
| `HifRuns.RoundSendsNextOfPlan` | package/src/nrc/hif.c:190-268 | between any interleaved steps, a successful round sends the first packet of the plan of the queues at that moment and leaves the rest of it |
| `HifRuns.PacketsAreConserved` | package/src/nrc/hif.c:179-270 | in every interleaved run each packet handed over is sent, released, forgotten, held or queued exactly as often |
| `HifRuns.CleanIffNothingForgotten` | package/src/nrc/hif.c:212-240 | the steps that break the account, exactly |
| `HifRuns.CleanupIsSound` | package/src/nrc/hif.c:1289-1302 | cleanup drops all frames and leaves their credit pending |
| `HifRuns.FailedWaitForgets` | package/src/nrc/hif.c:237-239 | a run in which a failed wait loses the frame held back and its credit |
| `HifRuns.SleepForgets` | package/src/nrc/hif.c:213-216 | in a build without CONFIG_USE_TXQ, a run in which the target falling asleep does |
| `HifRuns.LateWimForgets` | package/src/nrc/hif.c:222-225 | a run in which a WIM queued late does |
| `SpiCounters.WrapDifference` | package/src/nrc/nrc-hif-cspi.c:501-504 | it is the true difference of the unbounded counters while that is below 65536 |
| `SpiSlots.StepRefines` | package/src/nrc/nrc-hif-cspi.c:1497-1558 | offering, polling and sending keep the wrapped counters in step with the unbounded ones |
| `SpiSlots.PolledIs` | package/src/nrc/nrc-hif-cspi.c:1305-1320 | a poll takes the register over, or sets head 32 and tail 65535 if it is more than 32 ahead |
| `SpiSlots.SendUses` | package/src/nrc/nrc-hif-cspi.c:1537-1552 | a packet uses the least number of slots of 456 bytes that hold it |
| `SpiSlots.WrappedCountersAreExact` | package/src/nrc/nrc-hif-cspi.c:1305-1320 | in every run with at most 32 slots outstanding the difference is what is known less what is used, no slot is used that was not offered, and the reset is never taken |
| `SpiSlots.ReportInEveryRun` | package/src/nrc/nrc-hif-cspi.c:794-803 | after any run within the credit the report is the remaining credit if and only if the front has not wrapped past the rear, and otherwise one higher |
| `SpiSlots.ReportOneTooHigh` | package/src/nrc/nrc-hif-cspi.c:799 | for every credit limit a run that ends with a report one too high |
| `SpiSlots.CreditReport` | package/src/nrc/nrc-hif-cspi.c:794-803 | the report always lies between 0 and the maximum |
| `SpiSlots.OctetIs` | package/src/nrc/nrc-hif-cspi.c:1340-1357 | octet i of a status word, least significant first |
| `SpiSlots.TxPort.UpdateStatus` | package/src/nrc/nrc-hif-cspi.c:1305-1320 | the slot part of a status read, in place |
| `SpiSlots.TxPort.WaitForXmit` | package/src/nrc/nrc-hif-cspi.c:1497-1535 | success if and only if the packet's slots are available, after at most one poll and one sleep, or the sleep ended because the thread is to stop |
| `SpiSlots.TxPort.Xmit` | package/src/nrc/nrc-hif-cspi.c:1537-1563 | uses the packet's slots and charges its queue alone, or does nothing while closing or in loopback |
| `SpiSlots.TxPort.UpdateCredit` | package/src/nrc/nrc-hif-cspi.c:1340-1357 | the octets of the first status word go to queues 0 to 3 and those of the second to 4 to 7 or 6 to 9, by the number of hardware queues; the counters stay those of the unbounded counts |
| `SpiSlots.TxPort.CreditSkb` | package/src/nrc/nrc-hif-cspi.c:794-810 | every report of the loop is exact if and only if that queue has not wrapped, and otherwise one higher |
| `SpiReceive.ReceivedIff` | package/src/nrc/nrc-hif-cspi.c:531-682 | with status reads by other threads at every point: the packet at the host's slot is received if and only if 1 to 32 slots are pending at the first look and, for more than one slot, the others at the second, no status read up to taking them finds more than 33, and one after that not exactly 33; then exactly its slots are consumed |
| `SpiFrames.PacketIsMessage` | package/src/nrc/nrc-hif.h:376-385 | packets are exactly the octets of messages: type below 11, four octets, the payload length with its low octet first, two octets, and a payload that is not empty |
| `SpiReceive.MessageReceivedIff` | package/src/nrc/nrc-hif-cspi.c:577-682 | the octets of any message at the host's slot are received as they are under that condition, for (length + 8 + 491) / 492 slots |
| `SpiReceive.GarbageIff` | package/src/nrc/nrc-hif-cspi.c:594-601 | a slot is garbage, and resets reception, if and only if its type is 11 or more or both length octets are zero |
| `SpiReceive.TenRefusalsReset` | package/src/nrc/nrc-hif-cspi.c:567-575 | the first test resets reception ten times in a row and then only gives the packet up; a packet received starts the count again |
| `SpiReceive.RefusedIff` | package/src/nrc/nrc-hif-cspi.c:567-574 | a packet is refused by the first test if and only if the host knows of more than 32 slots, or finds exactly 33 when it has to look |
| `SpiReceive.RestIs` | package/src/nrc/nrc-hif-cspi.c:620-665 | when the rest of a packet is complete, late or refused: the second test for garbage fails if and only if a status read has reset reception since the look or finds exactly 33 slots pending after the packet |
| `SpiReceive.SecondTestFails` | package/src/nrc/nrc-hif-cspi.c:645-665 | a packet of two slots, both known, is given up when a status read after taking them finds 33 more |
| `SpiReceive.LongestPacket` | package/src/nrc/nrc-hif-cspi.c:1322-1333 | no packet of more than 34 slots is ever received |
| `SpiRxRuns.FetchIff` | package/src/nrc/nrc-hif-cspi.c:531-682 | in a run with at most 32 slots pending the next packet is received if and only if its slots are posted by the second look, and reception is never reset |
| `SpiRxRuns.StepKeepsInStep` | package/src/nrc/nrc-hif-cspi.c:510-689 | posting, polling and receiving keep the host at a packet boundary unless a packet is given up |
| `SpiRxRuns.ReceivedIsPrefixOfPosted` | package/src/nrc/nrc-hif-cspi.c:577-682 | in every such run what was received is the first packets sent, all posted in full, and the slots consumed are exactly theirs |
| `SpiRxRuns.FramingRoundTripIff` | package/src/nrc/nrc-hif-cspi.c:577-682 | framed packets can all be recovered in some such run if and only if none needs more than 33 slots, whatever fills the slots |
| `SpiRxRuns.MessagesRoundTripIff` | package/src/nrc/nrc-hif-cspi.c:577-682 | any messages, framed with any filling, can be recovered octet by octet in some such run if and only if no payload is longer than 16228 |
| `SpiRxPort.SecondReadFits` | package/src/nrc/nrc-hif-cspi.c:647-668 | the word-rounded second read stays within the packet's slots and covers the packet |
| `SpiRxPort.RxPort.Grow` | package/src/nrc/nrc-hif-cspi.c:605-613 | the larger buffer has room for the rounded read and keeps the first slot |
| `SpiRxPort.RxPort.AwaitRest` | package/src/nrc/nrc-hif-cspi.c:615-665 | the wait for the rest of a packet, taking its slots and the second test, in place, with status reads in between |
| `SpiRxPort.RxPort.RxSkb` | package/src/nrc/nrc-hif-cspi.c:510-689 | in place, with both tests for garbage and within the buffer: the outcome and the counters are those of the specification |
| `SpiRxPort.RxPort.ServeAll` | package/src/nrc/nrc-hif-cspi.c:510-689 | posting, status reads and reception in any order, in place, are the run |
| `Crc7.Crc7Byte` | package/src/nrc/nrc-hif-cspi.c:109-121 | the bit loop in place |
| `Crc7.ComputeCrc7` | package/src/nrc/nrc-hif-cspi.c:123-132 | the byte loop in place |
| `Crc7.CrcIsSerialRegister` | package/src/nrc/nrc-hif-cspi.c:109-132 | the byte loop computes the bit-serial CRC-7 register of x^7 + x^3 + 1 |
| `Crc7.CrcIsXorLinear` | package/src/nrc/nrc-hif-cspi.c:109-132 | the CRC of an XOR of equally long messages is the XOR of their CRCs |
| `Crc7.ByteErrorDetectedIffNotGenerator` | package/src/nrc/nrc-hif-cspi.c:109-132 | changing one byte of a message of any length is detected unless the change is the generator |
| `Crc7.SingleBitErrorDetected` | package/src/nrc/nrc-hif-cspi.c:109-132 | flipping any one bit of a message of any length changes the CRC |
| `Firmware.Downloader.constructor` | package/src/nrc/nrc-fw.c:163-173 | the loop state before the first fragment |
| `Firmware.Downloader.Checksum` | package/src/nrc/nrc-fw.c:35-43 | the byte sum |
| `Firmware.ByteSumAdds` | package/src/nrc/nrc-fw.c:35-43 | the sum of no bytes, of one, and of two parts |
| `Firmware.Downloader.UpdateFrag` | package/src/nrc/nrc-fw.c:54-74 | the fragment is the current chunk at its address, with its checksum and end mark |
| `Firmware.Downloader.CheckNextFrag` | package/src/nrc/nrc-fw.c:108-133 | goes on to the next chunk, or stops after the last |
| `Firmware.Downloader.Download` | package/src/nrc/nrc-fw.c:185-187 | the do-while loop ends after one fragment a chunk |
| `Firmware.DownloadRebuildsImage` | package/src/nrc/nrc-fw.c:54-187 | writing the payloads at their addresses rebuilds the image from the start address and nothing else; exactly the last is marked; lengths add up; checksums are byte sums |
| `ApIdle.UsfRoundsDown` | package/src/nrc/nrc-mac80211.c:2466-2490 | a scaled period stands for the period rounded down to the smallest unit in which it fits 14 bits |
| `ApIdle.HeedsDataIff` | package/src/nrc/nrc-mac80211.c:2534-2541 | when the 16-bit copy of a period is zero |
| `ApIdle.JoiningStarts` | package/src/nrc/nrc-mac80211.c:2530-2542 | joining starts the countdown from the unscaled period |
| `ApIdle.CountdownIsExact` | package/src/nrc/nrc-pm.c:266-287 | over every run of ticks and data frames the ticks left are the allowance less the silence |
| `ApIdle.TimerAndCounter` | package/src/nrc/nrc-pm.c:266-287 | timer and counter in closed form, any number of ticks up to L·P after a data frame of any run |
| `ApIdle.DisconnectedExactlyWhenDue` | package/src/nrc/nrc-pm.c:266-287 | the disconnecting tick is the first with which the silence reaches L·P + 1, or L·P before any data |
| `ApIdle.StoppedForGood` | package/src/nrc/nrc-pm.c:268-277 | after disconnection the countdown stays stopped and no second one follows |
| `ApIdle.NeverDisconnectedIff` | package/src/nrc/nrc-pm.c:713-721 | a station is never disconnected if and only if no silence reaches the allowance |
| `ApIdle.UnheededDisconnection` | package/src/nrc/nrc-pm.c:714-715 | with a zero 16-bit period the station is disconnected on tick L·P whatever it sends |
| `ApIdle.DisconnectedAfterJoining` | package/src/nrc/nrc-pm.c:266-287 | from joining with any period, scaled or not: the tick that disconnects |
| `ApIdle.ChattyStationDisconnected` | package/src/nrc/nrc-mac80211.c:2537-2541 | with an unscaled period of 65536 a station that sends before every tick is disconnected |
| `ApIdle.HandedToHostapd` | package/src/nrc/nrc-pm.c:626-648 | once a response carries hostapd's own element, at any point of any run, the driver still disconnects the station, whatever it sends, if and only if its counter stood at two, on the tick that ends its timer |
| `ApIdle.Station.RxData` | package/src/nrc/nrc-pm.c:713-721 | a data frame, in place |
| `ApIdle.Expire` | package/src/nrc/nrc-pm.c:266-287 | the timer handler moves every station of the list by one tick and disconnects exactly those that are due |
| `MovingAverage.Ring.constructor` | package/src/nrc/nrc-stats.c:46-64 | an empty ring of zeros |
| `MovingAverage.Ring.Update` | package/src/nrc/nrc-stats.c:72-93 | after any number of updates the slots hold the last samples, rotated |
| `MovingAverage.Ring.Scan` | package/src/nrc/nrc-stats.c:118-124 | the loop finds sum, minimum and maximum of the slots in use |
| `MovingAverage.Ring.Compute` | package/src/nrc/nrc-stats.c:108-141 | the figure for the samples seen, with both crashes |
| `MovingAverage.SlotsAreSamples` | package/src/nrc/nrc-stats.c:187-221 | the figure does not depend on where the ring starts or on the zeros it began with |
| `MovingAverage.TrimmedMeanMeaning` | package/src/nrc/nrc-stats.c:137-140 | the figure is the mean of the samples left when one minimum and one maximum are taken out, rounded toward zero, and lies between these |
| `MovingAverage.FigureMeaning` | package/src/nrc/nrc-stats.c:187-221 | so after three or more samples, for the last min(n, count) of them |
| `MovingAverage.FewSamples` | package/src/nrc/nrc-stats.c:126-135 | the figure, or the crash, for fewer than three samples or slots |
| `Arith.TruncDivMeaning` | package/src/nrc/nrc-stats.c:211 | C's division rounds toward zero, for either sign |

## Left out

- SPI transfers, GPIO, interrupts, kernel threads, locks and timers appear only as steps, ticks and parameters; clocks, TSF values and allocation results are parameters.
- TWT: the stop and restart of the scheduler; runs cover one started period, since the start time is fixed only there.
- TWT: 64-bit wrap of TSF values, clock drift correction and the timer that drives the periods; times are unbounded here.
- TWT: a setup before any scheduler exists; nrc_twt_sched_entry_add reads the scheduler before it checks the pointer (nrc-twt-sched.c:468-479).
- TWT: what follows a fault; runs start from configurations that cannot fault, and `TwtFaults` says which these are.
- TwtResponder.Responder.NextPeriod: counts the period and notes the time; reading the TSF, the drift values kept for debugging and the adjustment of the timer are not modelled.
- TWT: the association path that saves and restores a setup (nrc-mac80211-twt.c:77-371), service statistics, and more than the one flow a station may have.
- Vendor elements: the four buffers exist from the start; the driver allocates each on first use. The beacon and probe updates sent to the target, and the timer of remote commands (its removal is a `Remove` event), are not modelled.
- Vendor elements: subcommands that select no buffer, for which the driver follows an uninitialised pointer, and failed allocations of a backup entry.
- Vendor elements: the search through the buffer is a kernel function (cfg80211_find_vendor_ie) that is not part of this repository; it is modelled as Linux documents it.
- HifTransmit.HifDevice.Work: nothing is enqueued during one drain; `HifRuns` lets every other step happen between any two rounds.
- HifTransmit.HifDevice.Xmit: WIMs that are dropped before they reach the queues (suspended transport, invalid interface) are not handed to it.
- HIF: transports that queue a packet themselves (HIF_TX_QUEUED) and power-save WIMs that sleep during transmission; the credit of `nrc_xmit_injected_frame` (hif.c:807-818) is that of `Xmit` without the loopback branch.
- SpiRxPort.RxPort.RxSkb: a wait that does not end becomes an outcome; failed reads and a thread told to stop are left out. A status read is one step here, register and head together, and there is at most one between two steps of the reception.
- SpiFrames: hosts that are not little-endian; the driver reads the length field without conversion.
- SpiReceive: what is read after reception has been reset, and what the target does then or after a packet was given up half way; a reset ends the reads of the call, and a packet given up ends the run.
- SpiSlots.TxPort.Xmit: sending without the slots, after a wait that succeeded only because the thread is to stop.
- Firmware: acknowledgements, the packet around a fragment, padding of the last fragment, and an empty image, for which the do-while loop would not end.
- HifRuns.SleepForgets: the branch is compiled only without CONFIG_USE_TXQ, which nrc-build-config.h:127-128 defines for kernels from 4.1; in other builds the event it uses does not occur.
- AP inactivity: building and sending the deauthentication, and joining again, which starts anew. A (re)association response is not an event of the runs: `HandedToHostapd` says what hostapd's own element in it does; without room for the driver's element the handler clears the 16-bit period and then reads through a null pointer (nrc-pm.c:656-673), which is not modelled; the other frames of an association leave the countdown alone.
- Statistics: 32-bit overflow of the sum, for rings of more than eight million slots, and the list of stations.
- Power save and watchdog recovery of the transport, WIM matching, mac80211 callbacks, keys, scanning, regulatory tables, netlink, command line tools, board data, debugging and tracing: glue, constants and input or output.
