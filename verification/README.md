# Verified model of the DualSense bridge firmware core

This project models the parts of the M61 DualSense firmware in which several tasks share state or in which an
optimised form has to equal a plain one, and proves what those parts are for.

* **Audio epoch store** (`Epoch*.dfy`). Eight slots collect 512 USB frames each, are encoded and read in pairs by
  three tasks. Every locked region is one atomic step, every unlocked copy is a sequence of single writes or reads,
  and a generation reset may occur between any two steps. Proved: integrity of emitted pairs, ownership, conservation,
  total allocation, emission order, progress, packetisation independence and that no call loses or repeats a frame.
  `EpochStore.dfy` is the store as a mutable class whose methods are proved to compute the same steps.
* **Bluetooth TX scheduler** (`Tx*.dfy`). A two-deep realtime queue and two latest-wins state slots. Proved over every
  run: each accepted version has exactly one fate, counters balance, realtime items leave in order, late finishes have
  no effect, and bounded waiting with its exact ceilings. `Pipeline.dfy` composes store and scheduler; a pair read that
  a reset interrupts leaves its copy in the idle slot, as the source does.
* **CRC and codecs** (`Crc.dfy`, `WebConfig.dfy`, `OutputState.dfy`, `OutputReports.dfy`). Registers and bytes are
  bit-vectors. The CRC is that of section 3.2.9 of IEEE 802.3.
* **USB gadget parts** (`Resampler.dfy`, `FeatureReports.dfy`, `MicSteps.dfy`, `MicRing.dfy`).
* **Profiling and frequency governor** (`PerfProfile.dfy`, `PerfSeqlock.dfy`, `DvfsSteps.dfy`, `DvfsGovernor.dfy`).

The `...Steps` modules hold one function per atomic step; the classes hold the fields, arrays and loops of the source
and are proved against those functions; the lemmas speak about the functions over whole runs. `EpochOutcomes.dfy`,
`TxOutcomes.dfy`, `ConfigLayout.dfy` and `ReportLayout.dfy` say, for every reachable state or every input, what each
operation does without naming the functions that compute it.

## Assumptions

* 32-bit counters do not wrap. Epoch runs are followed while fewer than 4294967295 epochs have been opened in a
  generation (the oldest-slot searches start from that sentinel with a strict comparison), scheduler runs while fewer
  than 4294967295 versions have been accepted. Tick counters of the governor do wrap, and are modelled so.
* One ingester, one encoder and one reader use the epoch store, as in `m61_usb_gamepad.c:1380`, `m61_usb_gamepad.c:1437`
  and `main.c:2547`, and a reset brings a generation larger than any before it, as the caller's counter does.
* Callers of the scheduler serialize their calls, as its header demands. They may finish any selection they were ever
  handed, as late as they like: every scheduler theorem is for all such callers.
* The tick rate is 1000 Hz, so milliseconds and ticks are the same number.

## Where the code differs from its description

* A stored record's header version and the schema version inside its body are checked separately: a version 5 record
  may hold a version 1 body. Defaults then follow the inner version (`AcceptedRecordIsMigrated`).
* A refused decode may already have filled the caller's configuration; the model returns what was written.
* A frequency change the hardware refuses leaves 320 MHz, so the running frequency can fall without the downshift rules
  having been met (`FailedUpshiftFalls`); `RunningFallsExactly` says when it falls.
* An epoch filled with the speaker off is complete at once and can overtake older epochs still being encoded
  (`SpeakerOffOvertakesExactly`), so emission order is claimed for generations whose speaker is not switched off.
* The burst limit of three realtime items ahead of a waiting state item is not a limit for every caller: finishing an
  old state selection with success starts the burst again. `GuardedExactly` and `UnguardedRunsOver` give the exact
  condition, `RealtimeBurstIsBounded` the bound that always holds and `EveryCeilingIsReached` that it is reached;
  `main.c` meets the condition (`LatestOnlyIsGuarded`).

## Model

| member | source | states |
|---|---|---|
| HapticsMath.DivPow2RoundsTowardZero | m61/dualsense_hidp_probe/m61_audio_epoch.c:73-84 | the shift helper divides with the remainder taking the dividend's sign, for every value and shift |
| HapticsMath.UnityGainIsGeneralGain | m61/dualsense_hidp_probe/m61_audio_epoch.c:86-104 | the unity-gain shortcut equals the general conversion at gain 256 |
| HapticsMath.ConversionRange | m61/dualsense_hidp_probe/m61_audio_epoch.c:86-104 | for every 16-bit sample and every gain the converted sample lies in -127 to 126 and keeps its sign |
| HapticsMath.ConversionIsExact | m61/dualsense_hidp_probe/m61_audio_epoch.c:73-104 | for every 16-bit sample and every gain the stored byte is, as a signed number v, the one with 32768 v <= 127 t < 32768 (v + 1), t the sample times gain / 256 cut off at 32767; for negative samples the mirror image cut off at 32768 |
| EpochStore.EpochStore.AllocateSlotLocked | m61/dualsense_hidp_probe/m61_audio_epoch.c:127-190 | the two scan loops over the array compute the allocation step: first free slot, else the oldest evictable one, else a counted refusal |
| EpochStore.EpochStore.ClaimLocked | m61/dualsense_hidp_probe/m61_audio_epoch.c:261-292 | the first locked region of the ingest loop: stop, retry, or a chunk that fits the slot |
| EpochStore.EpochStore.CommitLocked | m61/dualsense_hidp_probe/m61_audio_epoch.c:329-348 | the second locked region revalidates ownership before completing the epoch |
| EpochStore.EpochStore.IngestUsb | m61/dualsense_hidp_probe/m61_audio_epoch.c:251-350 | the chunk loop on the slot array computes the ingest function and terminates |
| EpochStore.EpochStore.Reset | m61/dualsense_hidp_probe/m61_audio_epoch.c:199-224 | reset cancels owned slots, retires the rest as stale and counts exactly those |
| EpochStore.EpochStore.TakeEncodeJob | m61/dualsense_hidp_probe/m61_audio_epoch.c:352-381 | takes the oldest ready slot of the current generation and nothing else |
| EpochStore.EpochStore.BeginEncodeLocked | m61/dualsense_hidp_probe/m61_audio_epoch.c:390-415 | first locked region of complete_encode, every refusal branch with its counters |
| EpochStore.EpochStore.EndEncodeLocked | m61/dualsense_hidp_probe/m61_audio_epoch.c:422-438 | second locked region of complete_encode: completes only the slot still encoding that epoch |
| EpochStore.EpochStore.CompleteEncode | m61/dualsense_hidp_probe/m61_audio_epoch.c:383-439 | both regions around the copy, when nothing interrupts |
| EpochStore.EpochStore.BeginPairLocked | m61/dualsense_hidp_probe/m61_audio_epoch.c:449-507 | first locked region of take_adjacent_pair: claim two adjacent epochs or drop the oldest as a discontinuity |
| EpochStore.EpochStore.EndPairLocked | m61/dualsense_hidp_probe/m61_audio_epoch.c:528-552 | second locked region: emit, retire as stale, or leave the slots alone |
| EpochStore.EpochStore.TakeAdjacentPair | m61/dualsense_hidp_probe/m61_audio_epoch.c:441-553 | both regions around the copies, when nothing interrupts |
| EpochStore.UninterruptedTake | m61/dualsense_hidp_probe/m61_audio_epoch.c:441-553 | without interruption every claimed pair is delivered, so a call that returns false has copied nothing |
| EpochInvariant.WriteFrameWrites | m61/dualsense_hidp_probe/m61_audio_epoch.c:297-325 | one turn of the copy loop extends the written prefix of an epoch by one frame: PCM, decimated haptics and peak |
| EpochOutcomes.PeakIsLargestByte | m61/dualsense_hidp_probe/m61_audio_epoch.c:106-113 | the reported peak is the largest distance from silence among the haptics bytes written, and one of them has it |
| EpochSafety.AllocationNeverRefuses | m61/dualsense_hidp_probe/m61_audio_epoch.c:127-153 | in every reachable state the allocator finds a slot that neither the encoder nor the reader owns |
| EpochSafety.KeyFindsJob | m61/dualsense_hidp_probe/m61_audio_epoch.c:115-125 | the (generation, epoch) key of a held job finds the job's own slot, whatever resets happened since |
| EpochSafety.BufferIsFaithful | m61/dualsense_hidp_probe/m61_audio_epoch.c:512-552 | a copy that survives the second check holds the bytes of its two epochs, although it was made byte by byte without the lock |
| EpochTheorems.NextKeepsInv | m61/dualsense_hidp_probe/m61_audio_epoch.c:199-553 | every locked region, every single unlocked copy and a reset at any point keep the invariant |
| EpochTheorems.EveryActionExtendsARun | m61/dualsense_hidp_probe/m61_audio_epoch.c:199-553 | no run blocks: every step is defined in every reachable state |
| EpochTheorems.EveryEmittedPairIsFaithful | m61/dualsense_hidp_probe/m61_audio_epoch.c:251-553 | over every interleaving each pair returned as true carries, for both epochs, the haptics of that epoch's 512 accepted frames and the Opus bytes submitted for it |
| EpochTheorems.EncoderReadsItsEpoch | m61/dualsense_hidp_probe/m61_audio_epoch.c:352-381 | what a current encoder reads is the PCM of its epoch: frames 512e to 512e+511 of the generation's stream |
| EpochTheorems.OwnedPayloadIsStable | m61/dualsense_hidp_probe/m61_audio_epoch.c:199-553 | no step writes PCM or haptics of a slot being encoded, or PCM, haptics or Opus bytes of a slot being read, cancelled or not |
| EpochTheorems.EpochsAreConserved | m61/dualsense_hidp_probe/m61_audio_epoch.c:127-553 | started = emitted + dropped + stale + occupied in every reachable state, emitted is twice the pairs, and the discontinuity counters add up |
| EpochTheorems.IngestNeverRefuses | m61/dualsense_hidp_probe/m61_audio_epoch.c:272-277 | the refusal branch is never taken, and an evicted slot is never one in use |
| EpochTheorems.ReaderMakesProgress | m61/dualsense_hidp_probe/m61_audio_epoch.c:441-507 | with two completed epochs every reader call claims an adjacent pair or retires exactly one epoch |
| EpochOutcomes.ReaderWaits | m61/dualsense_hidp_probe/m61_audio_epoch.c:472-486 | in every reachable state with at most one completed epoch the reader claims nothing and changes nothing |
| EpochOutcomes.SomeOldestComplete | m61/dualsense_hidp_probe/m61_audio_epoch.c:450-457 | as long as an epoch is complete there is an oldest completed one, so the next three are about every such state |
| EpochOutcomes.ReaderClaimsPair | m61/dualsense_hidp_probe/m61_audio_epoch.c:489-507 | when the successor of the oldest completed epoch is complete with the same speaker flag, exactly those two slots are claimed |
| EpochOutcomes.ReaderDropsAtSpeakerChange | m61/dualsense_hidp_probe/m61_audio_epoch.c:489-497 | with another speaker flag exactly the oldest is freed and counted as a speaker change |
| EpochOutcomes.ReaderDropsAtGap | m61/dualsense_hidp_probe/m61_audio_epoch.c:472-486 | when later epochs are complete but the successor is not, exactly the oldest is freed and counted as a gap; these three and ReaderWaits cover every case |
| EpochOutcomes.PairEnds | m61/dualsense_hidp_probe/m61_audio_epoch.c:528-552 | a finished copy returns true exactly when no reset came in between, and both slots are free either way, with the counters of each case |
| EpochOutcomes.NoJobWithoutReady | m61/dualsense_hidp_probe/m61_audio_epoch.c:359-371 | without a ready epoch there is no job and no change |
| EpochOutcomes.SomeOldestReady | m61/dualsense_hidp_probe/m61_audio_epoch.c:360-367 | as long as an epoch is ready there is an oldest ready one |
| EpochOutcomes.JobIsOldestReady | m61/dualsense_hidp_probe/m61_audio_epoch.c:352-381 | that epoch is handed out and exactly its slot becomes ENCODING |
| EpochOutcomes.EncodeBegins | m61/dualsense_hidp_probe/m61_audio_epoch.c:390-415 | the first region of complete_encode in every reachable state: on to the copy, a drop without 200 bytes, or stale after a reset |
| EpochOutcomes.EncodeEnds | m61/dualsense_hidp_probe/m61_audio_epoch.c:422-438 | in every reachable state whose copy is finished the second region returns true exactly when the generation is still the job's, and then that slot alone becomes COMPLETE holding the submitted bytes; else it is freed as stale |
| EpochOutcomes.CompleteEncodeOutcome | m61/dualsense_hidp_probe/m61_audio_epoch.c:383-439 | uninterrupted, 200 bytes for an ENCODING slot complete it and return true, anything else drops it, and a slot in another state is left alone |
| EpochOutcomes.UnknownKeyIsRefused | m61/dualsense_hidp_probe/m61_audio_epoch.c:390-396 | a key no slot carries is refused without effect |
| EpochOutcomes.OpensInFreeSlot | m61/dualsense_hidp_probe/m61_audio_epoch.c:127-190 | a new epoch opens in the lowest free slot as long as there is one |
| EpochOutcomes.OpensInOldest | m61/dualsense_hidp_probe/m61_audio_epoch.c:138-190 | without a free slot the oldest epoch nobody is using gives way and is counted as dropped |
| EpochOutcomes.ClaimOutcome | m61/dualsense_hidp_probe/m61_audio_epoch.c:261-292 | one claim of an ingest call: refused without effect exactly in another generation, else a chunk of the open or a newly opened epoch, as long as room and call allow |
| EpochOutcomes.CommitOutcome | m61/dualsense_hidp_probe/m61_audio_epoch.c:329-348 | a chunk commits exactly in its own generation, and the one that fills its epoch moves it to READY_ENCODE or COMPLETE by its speaker flag |
| EpochOutcomes.ResetOutcome | m61/dualsense_hidp_probe/m61_audio_epoch.c:199-224 | a reset cancels what encoder and reader hold, frees all else, restarts the epoch count and adds to the stale counter what it freed |
| EpochTheorems.UninterruptedPairIsEmitted | m61/dualsense_hidp_probe/m61_audio_epoch.c:528-552 | a claimed pair is emitted exactly when no reset changed the generation meanwhile |
| EpochTheorems.HistoryOnlyGrows | m61/dualsense_hidp_probe/m61_audio_epoch.c:199-553 | accepted frames, submitted packets and emitted pairs are never rewritten by a later step |
| EpochOrder.NextKeepsOrder | m61/dualsense_hidp_probe/m61_audio_epoch.c:199-553 | every step keeps COMPLETE < ENCODING < READY_ENCODE < FILLING in generations whose speaker never goes off |
| EpochOrder.StagesAreOrdered | m61/dualsense_hidp_probe/m61_audio_epoch.c:352-553 | that order holds in every reachable state of such a generation |
| EpochOrder.PairsLeaveInOrder | m61/dualsense_hidp_probe/m61_audio_epoch.c:441-553 | the pairs of such a generation are emitted with strictly increasing epochs that never overlap |
| EpochOrder.SpeakerOffOvertakesExactly | m61/dualsense_hidp_probe/m61_audio_epoch.c:337-347 | completing an epoch keeps the stages in order exactly when its speaker was on or no older epoch waits for or is inside the encoder |
| EpochIngest.FramesOfConcatenation | m61/dualsense_hidp_probe/m61_audio_epoch.c:258-260 | cutting bytes at a frame boundary concatenates the frame lists |
| EpochIngest.PacketRoundTrip | m61/dualsense_hidp_probe/m61_audio_epoch.c:297-318 | reading a packet gives back the frames it was packed from: channel order, byte order and sign, whatever partial frame follows |
| EpochIngest.LoopIsFrameByFrame | m61/dualsense_hidp_probe/m61_audio_epoch.c:260-349 | the chunked loop leaves what pushing its frames one at a time leaves |
| EpochIngest.BytesAreFrames | m61/dualsense_hidp_probe/m61_audio_epoch.c:251-350 | the same for a whole byte string, its trailing partial frame ignored |
| EpochIngest.PacketisationIndependence | m61/dualsense_hidp_probe/m61_audio_epoch.c:251-350 | ingesting A then B leaves the same slots and counters as ingesting A and B at once, capture times aside, whenever A is whole frames |
| EpochStream.PacketsAreInterchangeable | m61/dualsense_hidp_probe/m61_audio_epoch.c:251-350 | the same for the store of every reachable state between two ingest calls, in which there is always a slot to open |
| EpochStream.IngestAddsItsFrames | m61/dualsense_hidp_probe/m61_audio_epoch.c:251-350 | over every interleaving an ingest call, whatever generation it is stamped with, adds a prefix of its frames to that generation's stream and nothing to any other: all of them, once each and in order, when it ends in that generation, none when that generation was over before it began |
| TxScheduler.BtTxScheduler.ClearPending | m61/dualsense_hidp_probe/m61_bt_tx_scheduler.c:43-61 | the loop over the queue retires each pending slot once and resets burst and turn |
| TxScheduler.BtTxScheduler.ResetGeneration | m61/dualsense_hidp_probe/m61_bt_tx_scheduler.c:148-156 | everything waiting expires before the generation changes |
| TxScheduler.BtTxScheduler.Oldest | m61/dualsense_hidp_probe/m61_bt_tx_scheduler.c:63-76 | the sentinel scan finds the pending slot with the smallest sequence number |
| TxScheduler.BtTxScheduler.PublishRealtime | m61/dualsense_hidp_probe/m61_bt_tx_scheduler.c:158-195 | idle slot, else replace the oldest; the new version and sequence number |
| TxScheduler.BtTxScheduler.IngestEpochPair | m61/dualsense_hidp_probe/m61_bt_tx_scheduler.c:197-234 | a full queue leaves the store untouched; otherwise one pair is taken and accepted or rejected; a take that gives nothing has claimed and copied nothing |
| TxScheduler.BtTxScheduler.PublishState31 | m61/dualsense_hidp_probe/m61_bt_tx_scheduler.c:236-270 | latest wins, with the length and generation refusals |
| TxScheduler.BtTxScheduler.PublishState32 | m61/dualsense_hidp_probe/m61_bt_tx_scheduler.c:272-299 | latest wins, with the generation refusal |
| TxScheduler.BtTxScheduler.Select | m61/dualsense_hidp_probe/m61_bt_tx_scheduler.c:301-368 | clean-up, burst limit and turn-taking of the state classes |
| TxOutcomes.CleanUpKeepsFresh | m61/dualsense_hidp_probe/m61_bt_tx_scheduler.c:78-109 | the clean-up keeps exactly the items of the current generation that are, for realtime ones, at most 64 ms old |
| TxOutcomes.SelectedClass | m61/dualsense_hidp_probe/m61_bt_tx_scheduler.c:301-368 | a selection's class is in the mask and has a fresh item, nothing is selected exactly when there is no such class, realtime gives way exactly when a state item is ready and three went out, and turns decide between state classes |
| TxOutcomes.SelectedItem | m61/dualsense_hidp_probe/m61_bt_tx_scheduler.c:328-366 | the fresh realtime item accepted first, or the state slot, named by version, generation and creation time |
| TxScheduler.BtTxScheduler.SelectionIsCurrent | m61/dualsense_hidp_probe/m61_bt_tx_scheduler.c:370-393 | a selection is current exactly while its slot holds its version in its generation |
| TxScheduler.BtTxScheduler.Finish | m61/dualsense_hidp_probe/m61_bt_tx_scheduler.c:395-455 | success, retry and drop, and no effect for a selection that is not current |
| TxOutcomes.LateFinish | m61/dualsense_hidp_probe/m61_bt_tx_scheduler.c:407-420 | a finish for anything but the item waiting under that version changes nothing |
| TxOutcomes.RetryOutcome | m61/dualsense_hidp_probe/m61_bt_tx_scheduler.c:411-417 | a retry keeps the item and counts once |
| TxOutcomes.RealtimeFinish | m61/dualsense_hidp_probe/m61_bt_tx_scheduler.c:421-434 | sent or dropped, a realtime item leaves its slot and adds to the burst |
| TxOutcomes.StateFinish | m61/dualsense_hidp_probe/m61_bt_tx_scheduler.c:421-450 | a state item sent ends the burst and passes the turn, a dropped one does neither |
| TxOutcomes.RealtimePublish | m61/dualsense_hidp_probe/m61_bt_tx_scheduler.c:158-195 | a pair of another generation is rejected and counted, any other takes an idle slot, else that of the item accepted first |
| TxOutcomes.PairIngested | m61/dualsense_hidp_probe/m61_bt_tx_scheduler.c:197-234 | a pair from the store takes the first idle slot; of another generation it is rejected and only left there unqueued |
| TxOutcomes.ReportPublish | m61/dualsense_hidp_probe/m61_bt_tx_scheduler.c:236-270 | a report over 64 bytes is refused uncounted, one of another generation counted, any other waits with exactly its bytes |
| TxOutcomes.MicPublish | m61/dualsense_hidp_probe/m61_bt_tx_scheduler.c:272-299 | the same for the microphone state |
| TxOutcomes.NewGeneration | m61/dualsense_hidp_probe/m61_bt_tx_scheduler.c:148-156 | a new generation finds nothing waiting, no burst and state 31 first |
| TxInvariant.EvictKeepsLedger | m61/dualsense_hidp_probe/m61_bt_tx_scheduler.c:26-41 | taking an item out of its place keeps every version either waiting in one place or retired once |
| TxInvariant.PlaceKeepsLedger | m61/dualsense_hidp_probe/m61_bt_tx_scheduler.c:17-24 | accepting an item under the next version keeps the same |
| TxTheorems.NextKeepsInv | m61/dualsense_hidp_probe/m61_bt_tx_scheduler.c:137-455 | publish, ingest, select, finish and reset in any order keep ledger, counters and queue order |
| TxTheorems.EveryVersionHasOneFate | m61/dualsense_hidp_probe/m61_bt_tx_scheduler.c:17-61 | in every reachable state each accepted version is waiting, or was retired exactly once, and never both |
| TxTheorems.RetiredStaysRetired | m61/dualsense_hidp_probe/m61_bt_tx_scheduler.c:370-455 | a retired version never waits again, and a late finish for it returns false and changes nothing |
| TxTheorems.TransmittedInOrder | m61/dualsense_hidp_probe/m61_bt_tx_scheduler.c:63-76 | sequence numbers of transmitted realtime items strictly increase over every run |
| TxTheorems.EveryTransmissionIsListed | m61/dualsense_hidp_probe/m61_bt_tx_scheduler.c:421-434 | the list of transmitted items is complete: the counter is its length |
| TxTheorems.CountersBalance | m61/dualsense_hidp_probe/m61_bt_tx_scheduler.c:26-61 | per class accepted = transmitted + dropped + replaced + stale + pending, each counter equals the number of such events, and pending is the occupied places |
| TxTheorems.NothingOutlivesItsGeneration | m61/dualsense_hidp_probe/m61_bt_tx_scheduler.c:97-109 | every waiting item carries the current generation, so drop_wrong_generation_state never changes anything |
| TxTheorems.CurrentSelectionIsFaithful | m61/dualsense_hidp_probe/m61_bt_tx_scheduler.c:370-393 | a current selection shows exactly what was accepted under its version |
| TxTheorems.ItemsOnlyGrow | m61/dualsense_hidp_probe/m61_bt_tx_scheduler.c:137-455 | over every run what was accepted, retired, transmitted or handed out stays on record in its order |
| TxWaiting.RealtimeBurstIsBounded | m61/dualsense_hidp_probe/m61_bt_tx_scheduler.c:323-336 | for every caller: while a state class is ready at every select and none is chosen, at most 3 * (1 + state items sent) realtime items are retired, and only the state selections handed out before the window, at most one a class, can be sent |
| TxWaiting.GuardedExactly | m61/dualsense_hidp_probe/m61_bt_tx_scheduler.c:435-442 | what was retired and the credit left fit in three if and only if no state item was finished with success after a realtime item had been retired in the window |
| TxWaiting.GuardedBurstIsThree | m61/dualsense_hidp_probe/m61_bt_tx_scheduler.c:323-336 | under that guard at most three realtime items are retired |
| TxWaiting.LatestOnlyIsGuarded | m61/dualsense_hidp_probe/main.c:2611-2659 | a caller that finishes only its latest selection, as main.c does, meets the guard |
| TxCeilings.AllowanceIsExact | m61/dualsense_hidp_probe/m61_bt_tx_scheduler.c:301-455 | no continuation of such a window retires more than was retired plus the allowance, and some continuation retires exactly that many |
| TxCeilings.BurstOfThreeExactly | m61/dualsense_hidp_probe/m61_bt_tx_scheduler.c:323-336 | every continuation keeps the bound of three if and only if what was retired plus the allowance does |
| TxCeilings.UnguardedRunsOver | m61/dualsense_hidp_probe/m61_bt_tx_scheduler.c:435-442 | whenever the guard was violated, the run extends to a window that retires more than three |
| TxCeilings.EveryCeilingIsReached | m61/dualsense_hidp_probe/m61_bt_tx_scheduler.c:301-455 | for k = 0, 1 and 2, all there can be, some run sends k state items and retires 3 * (1 + k) realtime items |
| TxWaiting.State32WaitIsBounded | m61/dualsense_hidp_probe/m61_bt_tx_scheduler.c:111-135 | for every caller a waiting, eligible state-32 item is selected after at most seven retirements of other items, and one more for each state item dropped instead of sent |
| TxTurns.Allowance32IsExact | m61/dualsense_hidp_probe/m61_bt_tx_scheduler.c:111-135 | the wait is exact: dropped state items aside no continuation of such a wait retires more than its allowance, and one that drops nothing retires exactly that |
| TxTurns.SevenIsReached | m61/dualsense_hidp_probe/m61_bt_tx_scheduler.c:111-135 | seven is reached: three realtime items, a report and three more |
| Pipeline.EpochsMatchRealtimeItems | m61/dualsense_hidp_probe/m61_bt_tx_scheduler.c:197-234 | epochs emitted by the store = 2 * (realtime accepted + rejected), and the epoch and item counters balance end to end |
| Pipeline.SelectedPairIsFaithful | m61/dualsense_hidp_probe/m61_bt_tx_scheduler.c:197-234 | what a current realtime selection shows is one of the store's emitted pairs, faithful to its USB frames and Opus bytes |
| Pipeline.FullQueueLeavesStoreAlone | m61/dualsense_hidp_probe/m61_bt_tx_scheduler.c:208-216 | with two items pending an ingest call changes neither scheduler nor store |
| Crc.TableIsBitwise | m61/dualsense_hidp_probe/dualsense_output.c:79-88 | two nibble look-ups equal eight bit steps for every register and byte |
| Crc.UpdateByTable | m61/dualsense_hidp_probe/dualsense_output.c:76-91 | the table loop computes the bitwise register over every byte string |
| Crc.UpdateBitwise | m61/dualsense_hidp_probe/m61_web_config.c:54-67 | the bit loop of crc32_ieee computes the same register |
| Crc.CheckValue | m61/dualsense_hidp_probe/m61_web_config.c:54-67 | the CRC of the digits 1 to 9 is CBF43926 |
| Crc.UpdateComposes | m61/dualsense_hidp_probe/dualsense_output.c:222-230 | the register composes over concatenation |
| Crc.UpdateInjective | m61/dualsense_hidp_probe/m61_web_config.c:54-67 | equal bytes keep different registers different |
| Crc.FourBytesAreOneWord | m61/dualsense_hidp_probe/m61_web_config.c:54-67 | four bytes act like 32 bit steps on the register with their little-endian word mixed in |
| Crc.SealedExactlyAtResidue | m61/dualsense_hidp_probe/dualsense_output.c:93-101 | a message ends in its complemented CRC exactly when the register over all of it is 0xDEBB20E3 |
| Crc.WindowIsDetected | m61/dualsense_hidp_probe/m61_web_config.c:54-67 | two messages that differ only inside four consecutive bytes never leave the same register |
| OutputReports.OnlyTheCrcSeals | m61/dualsense_hidp_probe/dualsense_output.c:93-101 | of all four-byte trailers exactly the seeded CRC leaves the residue |
| OutputReports.SeededCrcIsCrcOfSeedAndData | m61/dualsense_hidp_probe/dualsense_output.c:222-240 | the seeded report CRC is crc32_ieee of the seed byte followed by the data |
| OutputReports.FillCrc | m61/dualsense_hidp_probe/dualsense_output.c:93-101 | seals the first len bytes and writes nothing but the trailer |
| OutputReports.FeatureFillCrc | m61/dualsense_hidp_probe/dualsense_output.c:242-255 | the feature variant, with buffers under four bytes left alone |
| OutputReports.OutputContext.MakeReport31 | m61/dualsense_hidp_probe/dualsense_output.c:257-273 | every byte: id, sequence nibble, tag, the state with its defaults, zeros, and a sealed trailer; false leaves everything alone |
| OutputState.LatestAllowedWins | m61/dualsense_hidp_probe/dualsense_output.c:121-211 | each byte of the stored state is the one of the latest host state whose flag bit allowed it, and bytes without a flag never change |
| OutputState.MergeIsIdempotent | m61/dualsense_hidp_probe/dualsense_output.c:121-211 | merging the same host state twice changes nothing more |
| OutputState.QuietMotors | m61/dualsense_hidp_probe/dualsense_output.c:138-157 | the merged rumble bits are the host's, without them both motor bytes are zero, and the permission bits of the stored flags stay |
| ReportLayout.PermissionTable | m61/dualsense_hidp_probe/dualsense_output.c:140-208 | every byte of the merged state and the host bit that lets it in |
| OutputReports.OutputContext.ApplyUsbSetState | m61/dualsense_hidp_probe/dualsense_output.c:121-211 | the sequence of gated copies on the state computes the per-byte merge; a short payload changes nothing |
| OutputReports.OutputContext.MakeReport31FromUsb | m61/dualsense_hidp_probe/dualsense_output.c:481-502 | every byte of the same report after the host state was merged; false leaves everything alone |
| OutputReports.OutputContext.MakeReport32 | m61/dualsense_hidp_probe/dualsense_output.c:275-292 | every byte of report 0x32 in the same way |
| OutputReports.OutputContext.MakeReport32AudioStatus | m61/dualsense_hidp_probe/dualsense_output.c:450-479 | every byte: header with block length, microphone flag, five buffer lengths and the packet counter, zeros, sealed trailer |
| OutputReports.OutputContext.MakeReport36Audio | m61/dualsense_hidp_probe/dualsense_output.c:314-376 | every byte: header, state block, haptics block, speaker block cut or padded to 200 bytes, zeros, sealed trailer; a buffer that is too short counts as absent |
| OutputReports.OutputContext.MakeAudioRt | m61/dualsense_hidp_probe/dualsense_output.c:378-448 | every byte: header with the counter advanced by two, two haptics blocks, two Opus packets cut or padded to 200 bytes, sealed trailer |
| ReportLayout.NibbleCounts | m61/dualsense_hidp_probe/dualsense_output.c:267-269 | the high nibble of the second byte counts reports modulo 16, the low one is empty |
| ReportLayout.StateReports | m61/dualsense_hidp_probe/dualsense_output.c:257-292 | offset by offset, what reports 0x31 and 0x32 carry |
| ReportLayout.StatusReport | m61/dualsense_hidp_probe/dualsense_output.c:450-479 | offset by offset, what the status report carries |
| ReportLayout.AudioReport | m61/dualsense_hidp_probe/dualsense_output.c:314-376 | offset by offset, what report 0x36 carries: state, haptics and speaker packet, and zeros for what is absent or too short |
| ReportLayout.RealtimeReport | m61/dualsense_hidp_probe/dualsense_output.c:378-448 | offset by offset, what report 0x39 carries: two haptics blocks and two packets in order, and zeros for what is absent |
| WebConfig.EncodeConfig | m61/dualsense_hidp_probe/m61_web_config.c:122-155 | writes exactly the encoded body at the given offset or refuses without writing |
| WebConfig.EncodeRecord | m61/dualsense_hidp_probe/m61_web_config.c:290-311 | writes the sealed record and nothing beyond it; an invalid configuration leaves the header, a cleared record and everything beyond it as it was |
| WebConfig.DecodeConfig | m61/dualsense_hidp_probe/m61_web_config.c:157-219 | the field-by-field decoder computes the decode function, error codes included |
| WebConfig.DecodeRecordBytes | m61/dualsense_hidp_probe/m61_web_config.c:313-365 | the record decoder with its bitwise CRC computes the record decode function |
| WebConfig.BodyRoundTrip | m61/dualsense_hidp_probe/m61_web_config.c:122-219 | decode(encode(c)) = c for every valid configuration |
| WebConfig.RecordRoundTrip | m61/dualsense_hidp_probe/m61_web_config.c:290-365 | the same through the sealed record |
| WebConfig.AcceptedBodyIsMigrated | m61/dualsense_hidp_probe/m61_web_config.c:157-219 | whatever any of the five schemas accepts is valid, has the documented defaults, survives re-encoding, and a framed body is accepted exactly when its configuration is valid |
| WebConfig.AcceptedRecordIsMigrated | m61/dualsense_hidp_probe/m61_web_config.c:313-365 | the same for records, whose inner schema may be older than their header says but never newer |
| WebConfig.SealedAtResidue | m61/dualsense_hidp_probe/m61_web_config.c:54-67 | a record is sealed exactly when the register over all of it ends in the residue |
| WebConfig.AlteredRecordIsRefused | m61/dualsense_hidp_probe/m61_web_config.c:313-365 | a sealed record altered only inside four consecutive bytes, trailer included, is refused before its body is read |
| WebConfig.RecordAcceptance | m61/dualsense_hidp_probe/m61_web_config.c:313-365 | exactly which byte strings the record decoder accepts |
| ConfigLayout.BodyLayout | m61/dualsense_hidp_probe/m61_web_config.c:122-155 | the offset of every field of an encoded body |
| ConfigLayout.SwitchBits | m61/dualsense_hidp_probe/m61_web_config.c:137-141 | the four switches are bits 0 to 3 of byte 8 and no other bit is set |
| ConfigLayout.AcceptedExactly | m61/dualsense_hidp_probe/m61_web_config.c:98-219 | which bytes of the five schemas are accepted, with every range spelled out, and which refusal code belongs to what |
| ConfigLayout.DecodedFields | m61/dualsense_hidp_probe/m61_web_config.c:157-219 | what a framed body decodes to, field by field, with the defaults of the older schemas |
| ConfigLayout.RecordLayout | m61/dualsense_hidp_probe/m61_web_config.c:290-311 | header, body and trailer of a record |
| Resampler.RecurrenceTracksPosition | m61/dualsense_hidp_probe/m61_usb_gamepad.c:2553-2563 | the advance-by-one-or-two recurrence is floor(n * 512 / 480) and its remainder |
| Resampler.BlockPosition | m61/dualsense_hidp_probe/m61_usb_gamepad.c:2506-2516 | within a block of fifteen outputs the source frame is 16 * block + i and the remainder 32 * i |
| Resampler.BlockPointIsPoint | m61/dualsense_hidp_probe/m61_usb_gamepad.c:2517-2527 | rounding by 7 over 15 equals rounding by 240 over 480, for every pair of samples |
| Resampler.OutputLiesBetween | m61/dualsense_hidp_probe/m61_usb_gamepad.c:2534-2551 | each output lies between its two source samples and within half a unit of the exact value, so the clamp never acts and nothing leaves 32 bits |
| Resampler.ReadsStayInside | m61/dualsense_hidp_probe/m61_usb_gamepad.c:2505-2566 | both frames every output reads exist |
| Resampler.ResampleBlocks | m61/dualsense_hidp_probe/m61_usb_gamepad.c:2505-2529 | the block loops on arrays produce the specified output |
| Resampler.ResampleGeneral | m61/dualsense_hidp_probe/m61_usb_gamepad.c:2531-2564 | the recurrence loop on arrays produces the same |
| Resampler.FormsAgree | m61/dualsense_hidp_probe/m61_usb_gamepad.c:2503-2566 | for every input and every output frame the block formula, the recurrence and the interpolation at n * 512 / 480 give the same two samples |
| Resampler.OutputIsNearest | m61/dualsense_hidp_probe/m61_usb_gamepad.c:2503-2566 | each output frame is, within half a unit, the input at n * 512 / 480 with its channels exchanged |
| FeatureReports.AskedKeepsOrder | m61/dualsense_hidp_probe/m61_usb_gamepad.c:1860-1902 | asking keeps ids distinct and order fixed, refuses only id 0 or when full, and leaves the larger of the two lengths, a length outside 1 to 64 counting as 64 |
| FeatureReports.WithoutCutsOne | m61/dualsense_hidp_probe/m61_usb_gamepad.c:1838-1858 | compaction removes the one request with that id and closes the gap in order |
| FeatureReports.WithoutKeepsOthers | m61/dualsense_hidp_probe/m61_usb_gamepad.c:1838-1858 | and keeps exactly the others |
| FeatureReports.StoreUpdatesMap | m61/dualsense_hidp_probe/m61_usb_gamepad.c:2592-2609 | storing a report sets one key; another is forgotten only when all 32 slots hold other reports |
| FeatureReports.EvictsOnlyWhenFull | m61/dualsense_hidp_probe/m61_usb_gamepad.c:2592-2606 | another report gives way exactly when the new one is unknown and no slot is free, and then it is the next victim in turn |
| FeatureReports.InvalidateUpdatesMap | m61/dualsense_hidp_probe/m61_usb_gamepad.c:1820-1829 | invalidating removes exactly one key |
| FeatureReports.CacheIsBounded | m61/dualsense_hidp_probe/m61_usb_gamepad.c:1810-1818 | the cache is a map of at most 32 reports |
| FeatureReports.FeatureStore.RequestReport | m61/dualsense_hidp_probe/m61_usb_gamepad.c:1860-1902 | the ring search, coalesce and append refine the list operation |
| FeatureReports.FeatureStore.RemoveQueued | m61/dualsense_hidp_probe/m61_usb_gamepad.c:1838-1858 | the in-place compaction of the ring refines the filter |
| FeatureReports.FeatureStore.TakeRequest | m61/dualsense_hidp_probe/m61_usb_gamepad.c:2637-2660 | take pops the front of the list |
| FeatureReports.FeatureStore.StoreReport | m61/dualsense_hidp_probe/m61_usb_gamepad.c:2580-2613 | store updates the map, advances the victim index and removes the queued request |
| FeatureReports.FeatureStore.InvalidateReport | m61/dualsense_hidp_probe/m61_usb_gamepad.c:1820-1829 | the cache search removes exactly that key and leaves the queue alone |
| FeatureReports.FeatureStore.ClearReports | m61/dualsense_hidp_probe/m61_usb_gamepad.c:2621-2635 | clears both |
| FeatureReports.FeatureStore.GetReport | m61/dualsense_hidp_probe/m61_usb_gamepad.c:3296-3316 | answers a cached report cut to the requested length, else queues the request |
| MicRuns.NextKeepsInv | m61/dualsense_hidp_probe/m61_usb_gamepad.c:1186-1253 | claims, single word writes, publishes, starts, completions and flushes in any order keep the ring invariant |
| MicRuns.CompletedIsPrefixOfPublished | m61/dualsense_hidp_probe/m61_usb_gamepad.c:2283-2306 | since the latest flush the completed packets are a prefix of the published ones and the count is their difference |
| MicRuns.RefusedOnlyWhenFull | m61/dualsense_hidp_probe/m61_usb_gamepad.c:1196-1202 | a push is refused exactly when it is empty or all 32 packets are taken |
| MicRuns.PublishedPacketIsTheSamples | m61/dualsense_hidp_probe/m61_usb_gamepad.c:1206-1251 | a published packet is the next 48 samples, padded with silence and flagged audible exactly when one of them is not zero, and a push stops early only when the ring is full |
| MicRuns.TransferSendsOldest | m61/dualsense_hidp_probe/m61_usb_gamepad.c:2043-2074 | the transfer in flight carries the oldest packet that has not completed |
| MicRuns.PrepareSelectsOldest | m61/dualsense_hidp_probe/m61_usb_gamepad.c:2043-2074 | a busy or unusable endpoint is left alone; otherwise the oldest published packet that has not completed becomes active, and silence is chosen exactly when there is none |
| MicRuns.StartOutcome | m61/dualsense_hidp_probe/m61_usb_gamepad.c:2076-2116 | an accepted start is silence exactly when nothing published is left, a refused one leaves the ring as it was |
| MicRuns.CompletionOutcome | m61/dualsense_hidp_probe/m61_usb_gamepad.c:2283-2320 | a completion adds the packet in flight to the completed ones, and after the accepted start inside it silence is in flight exactly when nothing published is left |
| MicRuns.PacketIsStereo | m61/dualsense_hidp_probe/m61_usb_gamepad.c:1206-1226 | each word of a packet holds its 16-bit sample in both halves |
| MicRuns.FlushOutcome | m61/dualsense_hidp_probe/m61_usb_gamepad.c:1066-1082 | a flush leaves nothing published, every packet free and the endpoint busy only if it was and the caller keeps it so |
| MicRing.MicPacketRing.PushMicPcm | m61/dualsense_hidp_probe/m61_usb_gamepad.c:1186-1253 | the push loop on the ring computes the step functions run to the end |
| MicRing.MicPacketRing.PrepareAudioIn | m61/dualsense_hidp_probe/m61_usb_gamepad.c:2043-2074 | consumer packet, silence, or nothing |
| MicRing.MicPacketRing.StartAudioIn | m61/dualsense_hidp_probe/m61_usb_gamepad.c:2076-2116 | a refused transfer gives the packet back |
| MicRing.MicPacketRing.CompletionCallback | m61/dualsense_hidp_probe/m61_usb_gamepad.c:2283-2320 | release, then the next start attempt |
| MicRing.MicPacketRing.FlushMicQueues | m61/dualsense_hidp_probe/m61_usb_gamepad.c:1066-1082 | everything free, cursors at zero |
| PerfProfile.BucketsCountSamples | m61/dualsense_hidp_probe/m61_perf_profile.c:76-83 | the first n buckets count exactly the samples below n * 250 us, all 65 count every sample |
| PerfProfile.PercentileBrackets | m61/dualsense_hidp_probe/m61_perf_profile.c:85-108 | the reported value brackets the nearest-rank percentile of all samples: v - 250 <= q < v below 16000, v = 16000 otherwise |
| PerfProfile.ProfileCountsSamples | m61/dualsense_hidp_probe/m61_perf_profile.c:291-321 | after every run sample counter and histogram total agree and the histogram is that of the run |
| PerfProfile.ProfileTotals | m61/dualsense_hidp_probe/m61_perf_profile.c:291-321 | the totals are the sums over the run, the maxima its largest values, and the last values those of the last record |
| PerfProfile.ProfilePercentileBrackets | m61/dualsense_hidp_probe/m61_perf_profile.c:503-514 | end to end: after any run of at most 4294967295 records the percentile computed from the profile's own histogram and counter brackets the nearest-rank percentile of the run, and the saturated histogram total is that counter |
| PerfProfile.CodecProfile.RecordSample | m61/dualsense_hidp_probe/m61_perf_profile.c:291-321 | recording on the fields and the array computes the record step and moves the sequence by two |
| PerfProfile.CodecProfile.Percentile | m61/dualsense_hidp_probe/m61_perf_profile.c:85-108 | the cumulative loop computes the reported value |
| PerfProfile.CodecProfile.HistogramSampleCount | m61/dualsense_hidp_probe/m61_perf_profile.c:173-182 | the saturating histogram total |
| PerfSeqlock.AcceptedCopyIsOneInstant | m61/dualsense_hidp_probe/m61_perf_profile.c:544-564 | a copy accepted by the sequence check is the whole profile after some prefix of the recorded samples, whatever order the recorder writes and the reader copies the fields in, for every interleaving, and although a field may be copied torn while records go on |
| PerfSeqlock.AcceptedCopyIsConsistent | m61/dualsense_hidp_probe/m61_perf_profile.c:572-577 | encode_consistent and decode_consistent are always true |
| PerfSeqlock.UndisturbedCopyIsAccepted | m61/dualsense_hidp_probe/m61_perf_profile.c:551-557 | a copy during which no record begins is accepted and shows every sample so far |
| DvfsSteps.TickBeforeIsRealOrder | m61/dualsense_hidp_probe/m61_dvfs.c:223-226 | the wrapped comparison is the order of real times within half the tick range |
| DvfsSteps.WrappedDifferenceIsElapsed | m61/dualsense_hidp_probe/m61_dvfs.c:330-333 | at least the wrapped difference of real time has passed, however often the counter wrapped |
| DvfsSteps.TargetIsMaximum | m61/dualsense_hidp_probe/m61_dvfs.c:247-281 | the realtime target is the maximum of 320 and every active floor, boost and audio request |
| DvfsSteps.RealtimeTarget | m61/dualsense_hidp_probe/m61_dvfs.c:247-281 | and lies in 320 to 400 |
| DvfsSteps.ExpireKeepsTarget | m61/dualsense_hidp_probe/m61_dvfs.c:264-266 | dropping expired boosts does not change the target and takes away nothing that still holds |
| DvfsSteps.AudioFloorValues | m61/dualsense_hidp_probe/m61_dvfs.c:228-245 | audio asks for 400 MHz while both directions are active, 384 while one is, nothing otherwise |
| DvfsSteps.ActivityLasts | m61/dualsense_hidp_probe/m61_dvfs.c:528-556 | work of an enabled direction keeps it active for 250 ms of real time and no longer, other work changes nothing |
| DvfsSteps.BoostLasts | m61/dualsense_hidp_probe/m61_dvfs.c:486-504 | a boost is asked for from its request until its lease ends in real time; what is refused has its code and no effect |
| DvfsSteps.FloorRequest | m61/dualsense_hidp_probe/m61_dvfs.c:476-484 | which floors are accepted, and what refusal leaves |
| DvfsSteps.SwitchingOff | m61/dualsense_hidp_probe/m61_dvfs.c:506-526 | switching a direction off ends its activity and touches nothing of the other |
| DvfsRuns.DownshiftsAreEarned | m61/dualsense_hidp_probe/m61_dvfs.c:325-340 | in every run a lower target is applied under the realtime governor only after every iteration of at least the last 2000 ms wanted exactly it and 500 ms passed since the last transition |
| DvfsRuns.DownshiftsExactly | m61/dualsense_hidp_probe/m61_dvfs.c:325-340 | in every run an iteration that finds a lower target under the realtime governor applies it exactly when the longest stretch of iterations holding that downshift spans 2000 ms and the last change lies 500 ms back, as the wrapping counter shows |
| DvfsRuns.UpshiftsAreImmediate | m61/dualsense_hidp_probe/m61_dvfs.c:317-324 | a higher target is applied by the iteration that first sees it, and nothing but the target is ever asked of the hardware |
| DvfsRuns.ManualIsImmediate | m61/dualsense_hidp_probe/m61_dvfs.c:317-324 | under the manual governor one iteration makes the chosen frequency run, or 320 MHz when the change failed |
| DvfsRuns.ManualChoices | m61/dualsense_hidp_probe/m61_dvfs.c:415-437 | the frequencies of the three profiles, and which single frequencies are accepted |
| DvfsRuns.RunningFollowsApplied | m61/dualsense_hidp_probe/m61_dvfs.c:283-344 | only iterations change the running frequency: each begins with what the one before left and leaves it alone, leaves the target it applied, or 320 MHz after a failed change |
| DvfsRuns.RunningFallsExactly | m61/dualsense_hidp_probe/m61_dvfs.c:283-344 | under the realtime governor the running frequency falls exactly when an earned downshift succeeded or a change failed above 320 MHz |
| DvfsRuns.FailedUpshiftFalls | m61/dualsense_hidp_probe/m61_dvfs.c:283-324 | a run in which a failed upshift from 384 to 400 MHz leaves 320, which nothing had earned |
| DvfsRuns.FrequencyStaysValid | m61/dualsense_hidp_probe/m61_dvfs.c:100-105 | the running frequency never leaves the range requests may ask for |
| DvfsGovernor.Governor.AskFloor | m61/dualsense_hidp_probe/m61_dvfs.c:476-484 | request validation with its error code |
| DvfsGovernor.Governor.AskBoost | m61/dualsense_hidp_probe/m61_dvfs.c:486-504 | request validation and the lease end |
| DvfsGovernor.Governor.SetAudioEnabled | m61/dualsense_hidp_probe/m61_dvfs.c:506-526 | switching a direction off ends its activity at once |
| DvfsGovernor.Governor.NoteAudioActivity | m61/dualsense_hidp_probe/m61_dvfs.c:528-560 | work of an enabled direction extends its activity, other work changes nothing |
| DvfsGovernor.Governor.RealtimeFloor | m61/dualsense_hidp_probe/m61_dvfs.c:247-281 | the client loop computes the target and clears exactly the expired boosts |
| DvfsGovernor.Governor.WorkerIteration | m61/dualsense_hidp_probe/m61_dvfs.c:303-344 | one iteration on the fields computes the worker step |

## Left out

- Bluetooth host stack, L2CAP, USB device core, Opus, flash storage, PLL registers and GPIO: foreign calls; their results are parameters.
- NULL pointer checks: arguments are values, absent buffers are options.
- Counter wrap-around of 32-bit statistics, versions, sequence numbers and seqlock counters.
- The aligned word copy of the ingest loop writes the same two samples as the unaligned one; only the value written is modelled.
- Pipeline profiling branches (`CONFIG_M61_PIPELINE_PROFILE`), hardware performance counters and the derived averages and rates of the full snapshot.
- The whole-class methods `IngestUsb`, `CompleteEncode`, `TakeAdjacentPair` and `PushMicPcm` are run without interruption; interruption is covered by the interleaved systems, whose steps their locked regions compute.
- Emission order across a speaker on to off change inside one generation, where the code gives none.
- The input report parser.
- Web command and telemetry encoding, and the run-time copy of the configuration with its sequence counter (the same protocol as the profile's).
- The USB OUT ingress ring before the ingest call, whose cursors are not realigned on reset.
- The microphone ring while a transfer is prepared but its start result is not yet known, and SUSPEND events, which clear the busy flag without giving the active packet back.
- Worker wake-up times of the governor: iterations happen at arbitrary times. Concurrent requests during one iteration and the hardware change itself are not interleaved.
- Governor start-up from stored settings and the status query.
- The realtime scheduling decision function and stick dead zones, which have no state.
