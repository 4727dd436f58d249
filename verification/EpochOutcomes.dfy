/** What each locked region of the epoch store does in a reachable state: the whole outcome, without its algorithm. */
module EpochOutcomes {
  import opened Basics
  import opened EpochTypes
  import opened HapticsMath
  import opened EpochSteps
  import opened EpochSystem
  import opened EpochInvariant
  import opened EpochSafety
  import opened EpochStore

  // Slot i changes its state and nothing else changes in the slots.
  function Moved(slots: seq<Slot>, i: nat, state: SlotState): (r: seq<Slot>)
    requires i < |slots|
    ensures |r| == |slots|
  {
    slots[i := slots[i].(state := state)]
  }

  ghost predicate InState(s: System, i: nat, state: SlotState) {
    i < |s.store.slots| && s.store.slots[i].state == state
  }

  // ---- the reader: take_adjacent_pair ----

  ghost predicate OldestComplete(s: System, i: nat) {
    && InState(s, i, Complete)
    && forall j: nat :: InState(s, j, Complete) ==> s.store.slots[i].epoch <= s.store.slots[j].epoch
  }

  // Some completed epoch follows that of slot i directly.
  ghost predicate SuccessorIn(s: System, i: nat, j: nat) {
    InState(s, i, Complete) && InState(s, j, Complete) && s.store.slots[j].epoch == s.store.slots[i].epoch + 1
  }

  // Every completed slot belongs to the current generation, and its epoch is below the search sentinel.
  lemma CompleteIsPairable(s: System, i: nat)
    requires Inv(s) && InState(s, i, Complete)
    ensures Matches(Pairable(s.store.stats.generation), s.store.slots[i]) && s.store.slots[i].epoch < UINT32_MAX
  {
    hide EmittedInv, FillingInv, Full, Encoded, EncoderInv, ReaderInv, NonFree, Distinct;
    assert SlotInv(s, s.store.slots[i], i);
  }

  /** With at most one completed epoch the reader waits: nothing is claimed and nothing changes. */
  lemma ReaderWaits(s: System)
    requires Inv(s) && forall i: nat, j: nat :: InState(s, i, Complete) && InState(s, j, Complete) ==> i == j
    ensures BeginPair(s.store) == (s.store, None)
  {
    hide Inv, First, Oldest;
    var g := s.store.stats.generation;
    var first := Oldest(s.store.slots, Pairable(g));
    if first >= 0 {
      assert InState(s, first, Complete);
      var second := First(s.store.slots, PairableEpoch(g, s.store.slots[first].epoch + 1));
      assert second >= 0 ==> InState(s, second, Complete);
      var newer := First(s.store.slots, NewerComplete(s.store.slots[first].epoch));
      assert newer >= 0 ==> InState(s, newer, Complete);
    }
  }

  // The search finds the oldest completed epoch.
  lemma ReaderFindsOldest(s: System, i: nat)
    requires Inv(s) && OldestComplete(s, i)
    ensures Oldest(s.store.slots, Pairable(s.store.stats.generation)) == i < |s.store.slots|
  {
    var first := Oldest(s.store.slots, Pairable(s.store.stats.generation));
    CompleteIsPairable(s, i);
    assert InState(s, first, Complete);
    hide Oldest, SlotsInv, IngesterInv, FillingInv, EncoderInv, ReaderInv, LogInv, Conserved, EmittedInv;
    CompleteIsPairable(s, first);
  }

  /** As long as an epoch is complete there is an oldest one. */
  lemma SomeOldestComplete(s: System, k: nat)
    requires Inv(s) && InState(s, k, Complete)
    ensures exists i: nat :: OldestComplete(s, i)
  {
    CompleteIsPairable(s, k);
    var first := Oldest(s.store.slots, Pairable(s.store.stats.generation));
    hide Inv, Oldest;
    forall j: nat | InState(s, j, Complete)
      ensures s.store.slots[first].epoch <= s.store.slots[j].epoch
    {
      CompleteIsPairable(s, j);
    }
    assert OldestComplete(s, first);
  }

  lemma ReaderFindsSuccessor(s: System, i: nat, j: nat)
    requires Inv(s) && SuccessorIn(s, i, j)
    ensures First(s.store.slots, PairableEpoch(s.store.stats.generation, s.store.slots[i].epoch + 1)) == j
  {
    var wanted := PairableEpoch(s.store.stats.generation, s.store.slots[i].epoch + 1);
    var second := First(s.store.slots, wanted);
    hide First, SlotsInv, IngesterInv, FillingInv, EncoderInv, ReaderInv, LogInv, Conserved, EmittedInv;
    CompleteIsPairable(s, j);
    assert Matches(wanted, s.store.slots[j]);
    assert InState(s, second, Complete);
  }

  lemma ReaderFindsNewer(s: System, i: nat, k: nat)
    requires Inv(s) && OldestComplete(s, i) && InState(s, k, Complete) && k != i
    ensures First(s.store.slots, NewerComplete(s.store.slots[i].epoch)) >= 0
  {
    CompleteIsPairable(s, i);
    CompleteIsPairable(s, k);
    hide First, SlotsInv, IngesterInv, FillingInv, EncoderInv, ReaderInv, LogInv, Conserved, EmittedInv;
    assert s.store.slots[k].epoch != s.store.slots[i].epoch;
    assert Matches(NewerComplete(s.store.slots[i].epoch), s.store.slots[k]);
  }

  lemma NoSuccessorFound(s: System, i: nat)
    requires Inv(s) && OldestComplete(s, i) && forall j: nat :: !SuccessorIn(s, i, j)
    ensures First(s.store.slots, PairableEpoch(s.store.stats.generation, s.store.slots[i].epoch + 1)) < 0
  {
    var second := First(s.store.slots, PairableEpoch(s.store.stats.generation, s.store.slots[i].epoch + 1));
    hide Inv, First;
    assert second >= 0 ==> SuccessorIn(s, i, second);
  }

  // What the region does once its three searches found what they found.
  lemma BeginPairBranches(st: Store, i: nat)
    requires Oldest(st.slots, Pairable(st.stats.generation)) == i < |st.slots|
    ensures var second, newer, t := First(st.slots, PairableEpoch(st.stats.generation, st.slots[i].epoch + 1)),
                                    First(st.slots, NewerComplete(st.slots[i].epoch)), st.stats;
            var dropped := t.(epochsDropped := t.epochsDropped + 1, epochDiscontinuities := t.epochDiscontinuities + 1);
            && (second < 0 && newer >= 0 ==>
                  BeginPair(st) == (Store(Moved(st.slots, i, Free), st.filling, dropped.(epochGaps := t.epochGaps + 1)), None))
            && (second >= 0 && st.slots[second].speakerEnabled != st.slots[i].speakerEnabled ==>
                  BeginPair(st) == (Store(Moved(st.slots, i, Free), st.filling,
                                          dropped.(speakerStateDiscontinuities := t.speakerStateDiscontinuities + 1)), None))
            && (second >= 0 && st.slots[second].speakerEnabled == st.slots[i].speakerEnabled ==>
                  BeginPair(st) == (st.(slots := Moved(Moved(st.slots, i, Reading), second, Reading)),
                                    Some(PairClaim(i, second, t.generation, st.slots[i].epoch, st.slots[i].capturedUs,
                                                   st.slots[second].capturedUs, st.slots[i].speakerEnabled))))
  {
    hide First, Oldest;
  }

  /** When the successor of the oldest completed epoch is complete with the same speaker flag, exactly those two are claimed. */
  lemma ReaderClaimsPair(s: System, i: nat, j: nat)
    requires Inv(s) && OldestComplete(s, i) && SuccessorIn(s, i, j)
    requires s.store.slots[j].speakerEnabled == s.store.slots[i].speakerEnabled
    ensures var head, next := s.store.slots[i], s.store.slots[j];
            BeginPair(s.store) ==
              (s.store.(slots := Moved(Moved(s.store.slots, i, Reading), j, Reading)),
               Some(PairClaim(i, j, s.store.stats.generation, head.epoch, head.capturedUs, next.capturedUs, head.speakerEnabled)))
  {
    hide *;
    ReaderFindsOldest(s, i);
    ReaderFindsSuccessor(s, i, j);
    BeginPairBranches(s.store, i);
  }

  /** With another speaker flag exactly the oldest epoch is given up, and counted as a change of the speaker. */
  lemma ReaderDropsAtSpeakerChange(s: System, i: nat, j: nat)
    requires Inv(s) && OldestComplete(s, i) && SuccessorIn(s, i, j)
    requires s.store.slots[j].speakerEnabled != s.store.slots[i].speakerEnabled
    ensures var t := s.store.stats;
            BeginPair(s.store) ==
              (Store(Moved(s.store.slots, i, Free), s.store.filling,
                     t.(epochsDropped := t.epochsDropped + 1, epochDiscontinuities := t.epochDiscontinuities + 1,
                        speakerStateDiscontinuities := t.speakerStateDiscontinuities + 1)),
               None)
  {
    hide *;
    ReaderFindsOldest(s, i);
    ReaderFindsSuccessor(s, i, j);
    BeginPairBranches(s.store, i);
  }

  /** When later epochs are complete but the successor is not, exactly the oldest is given up, and counted as a gap. */
  lemma ReaderDropsAtGap(s: System, i: nat, k: nat)
    requires Inv(s) && OldestComplete(s, i) && InState(s, k, Complete) && k != i
    requires forall j: nat :: !SuccessorIn(s, i, j)
    ensures var t := s.store.stats;
            BeginPair(s.store) ==
              (Store(Moved(s.store.slots, i, Free), s.store.filling,
                     t.(epochsDropped := t.epochsDropped + 1, epochDiscontinuities := t.epochDiscontinuities + 1,
                        epochGaps := t.epochGaps + 1)),
               None)
  {
    hide *;
    ReaderFindsOldest(s, i);
    ReaderFindsNewer(s, i, k);
    NoSuccessorFound(s, i);
    BeginPairBranches(s.store, i);
  }

  /** A finished copy is delivered exactly when no reset came in between; either way both slots are free again. */
  lemma PairEnds(s: System)
    requires Inv(s) && s.rdr.RdCopy?
    ensures var c, t := s.rdr.claim, s.store.stats;
            var (after, ok) := EndPair(s.store, c);
            && (ok <==> c.generation == t.generation)
            && c.first < SLOT_COUNT && c.second < SLOT_COUNT && |s.store.slots| == SLOT_COUNT
            && after.slots == Moved(Moved(s.store.slots, c.first, Free), c.second, Free) && after.filling == s.store.filling
            && after.stats == if ok then t.(epochsEmitted := t.epochsEmitted + 2, adjacentPairs := t.adjacentPairs + 1)
                              else t.(epochsStale := t.epochsStale + 2)
  {
    hide EmittedInv, FillingInv, Full, Encoded, EncoderInv, LogInv, NonFree, Conserved, PairOf, PairBytes, Distinct;
    assert SlotInv(s, s.store.slots[s.rdr.claim.first], s.rdr.claim.first);
    assert SlotInv(s, s.store.slots[s.rdr.claim.second], s.rdr.claim.second);
  }

  // ---- the encoder: take_encode_job and complete_encode ----

  ghost predicate OldestReady(s: System, i: nat) {
    && InState(s, i, ReadyEncode)
    && forall j: nat :: InState(s, j, ReadyEncode) ==> s.store.slots[i].epoch <= s.store.slots[j].epoch
  }

  lemma ReadyIsEncodable(s: System, i: nat)
    requires Inv(s) && InState(s, i, ReadyEncode)
    ensures Matches(Encodable(s.store.stats.generation), s.store.slots[i]) && s.store.slots[i].epoch < UINT32_MAX
  {
    hide EmittedInv, FillingInv, Full, Encoded, EncoderInv, ReaderInv, NonFree, Distinct;
    assert SlotInv(s, s.store.slots[i], i);
  }

  lemma SomeOldestReady(s: System, k: nat)
    requires Inv(s) && InState(s, k, ReadyEncode)
    ensures exists i: nat :: OldestReady(s, i)
  {
    ReadyIsEncodable(s, k);
    var first := Oldest(s.store.slots, Encodable(s.store.stats.generation));
    hide Inv, Oldest;
    forall j: nat | InState(s, j, ReadyEncode)
      ensures s.store.slots[first].epoch <= s.store.slots[j].epoch
    {
      ReadyIsEncodable(s, j);
    }
    assert OldestReady(s, first);
  }

  /** Without a ready epoch there is no job, and nothing changes. */
  lemma NoJobWithoutReady(s: System)
    requires Inv(s) && forall i: nat :: !InState(s, i, ReadyEncode)
    ensures TakeJob(s.store) == (s.store, None)
  {
    hide Inv, Oldest;
    var sel := Oldest(s.store.slots, Encodable(s.store.stats.generation));
    assert sel >= 0 ==> InState(s, sel, ReadyEncode);
  }

  /** The oldest ready epoch is handed out, and exactly its slot moves on. */
  lemma JobIsOldestReady(s: System, i: nat)
    requires Inv(s) && OldestReady(s, i)
    ensures var slot, t := s.store.slots[i], s.store.stats;
            TakeJob(s.store) == (Store(Moved(s.store.slots, i, Encoding), s.store.filling, t.(encodeJobs := t.encodeJobs + 1)),
                                 Some(EncodeJob(t.generation, slot.epoch, slot.capturedUs, i)))
  {
    ReadyIsEncodable(s, i);
    var sel := Oldest(s.store.slots, Encodable(s.store.stats.generation));
    assert InState(s, sel, ReadyEncode);
    ReadyIsEncodable(s, sel);
    hide Oldest, SlotsInv, IngesterInv, FillingInv, EncoderInv, ReaderInv, LogInv, Conserved, EmittedInv;
  }

  /**
   A finished copy completes its epoch exactly when no reset came in between: then that slot alone becomes
   COMPLETE, holding the submitted bytes. After a reset the slot is freed as stale.
   */
  lemma EncodeEnds(s: System)
    requires Inv(s) && s.enc.EncCopy? && s.enc.copied == OPUS_LEN
    ensures var i, t := s.enc.slot, s.store.stats;
            && i < |s.store.slots|
            && var (after, ok) := EndEncode(s.store, i, s.enc.generation, s.enc.epoch);
               && (ok <==> s.enc.generation == t.generation)
               && after.slots == Moved(s.store.slots, i, if ok then Complete else Free) && after.filling == s.store.filling
               && s.store.slots[i].speakerOpus == s.enc.opus
               && after.stats == if ok then t.(epochsCompleted := t.epochsCompleted + 1) else t.(epochsStale := t.epochsStale + 1)
  {
    hide EmittedInv, FillingInv, Full, Encoded, ReaderInv, LogInv, NonFree, Conserved, Distinct;
    var slot := s.store.slots[s.enc.slot];
    assert SlotInv(s, slot, s.enc.slot);
    assert slot.speakerOpus[..OPUS_LEN] == slot.speakerOpus && s.enc.opus[..OPUS_LEN] == s.enc.opus;
  }

  /** The first region goes on to the copy, drops an epoch without usable bytes, or frees one a reset cancelled. */
  lemma EncodeBegins(s: System, bytes: Option<seq<Byte>>)
    requires Inv(s) && s.enc.EncJob?
    ensures var i, t := s.enc.slot, s.store.stats;
            var usable := bytes.Some? && |bytes.value| == 200;
            && i < |s.store.slots|
            && BeginEncode(s.store, s.enc.generation, s.enc.epoch, usable) ==
               if s.enc.generation != t.generation then
                 (Store(Moved(s.store.slots, i, Free), s.store.filling, t.(epochsStale := t.epochsStale + 1)), None)
               else if !usable then
                 (Store(Moved(s.store.slots, i, Free), s.store.filling,
                        t.(epochsDropped := t.epochsDropped + 1, encodeFailures := t.encodeFailures + 1)), None)
               else (s.store, Some(i))
  {
    KeyFindsJob(s);
    hide First, EmittedInv, FillingInv, Full, Encoded, ReaderInv, LogInv, NonFree, Conserved, Distinct;
    assert SlotInv(s, s.store.slots[s.enc.slot], s.enc.slot);
  }

  /** A result for a key no slot carries is refused without effect. */
  lemma UnknownKeyIsRefused(s: System, generation: nat, epoch: nat, opus: Option<seq<Byte>>)
    requires forall i: nat :: i < |s.store.slots| && s.store.slots[i].state != Free ==>
               s.store.slots[i].generation != generation || s.store.slots[i].epoch != epoch
    ensures CompleteEncodeAtOnce(s.store, generation, epoch, opus) == (s.store, false)
  {
    hide First;
    var sel := First(s.store.slots, Keyed(generation, epoch));
    if sel >= 0 { assert false; }
  }

  // Slot i and its key are found by the key.
  lemma KeyFindsSlot(s: System, i: nat)
    requires Inv(s) && i < SLOT_COUNT && s.store.slots[i].state != Free
    ensures First(s.store.slots, Keyed(s.store.slots[i].generation, s.store.slots[i].epoch)) == i
  {
    assert |s.store.slots| == SLOT_COUNT;
    hide SlotsInv, IngesterInv, FillingInv, EncoderInv, ReaderInv, LogInv, Conserved, EmittedInv;
    assert Matches(Keyed(s.store.slots[i].generation, s.store.slots[i].epoch), s.store.slots[i]);
  }

  /**
   Uninterrupted, complete_encode with 200 bytes turns the encoding slot of its key into a COMPLETE one that
   holds them and returns true; without usable bytes it drops the epoch; any other slot in use is left alone.
   */
  lemma CompleteEncodeOutcome(s: System, i: nat, opus: Option<seq<Byte>>)
    requires Inv(s) && i < SLOT_COUNT && s.store.slots[i].state != Free && s.store.slots[i].generation == s.store.stats.generation
    ensures |s.store.slots| == SLOT_COUNT
    ensures var slot, t := s.store.slots[i], s.store.stats;
            CompleteEncodeAtOnce(s.store, slot.generation, slot.epoch, opus) ==
              if slot.state != Encoding then (s.store, false)
              else if opus.Some? && |opus.value| == 200 then
                (Store(s.store.slots[i := slot.(state := Complete, speakerOpus := opus.value)], s.store.filling,
                       t.(epochsCompleted := t.epochsCompleted + 1)), true)
              else
                (Store(Moved(s.store.slots, i, Free), s.store.filling,
                       t.(epochsDropped := t.epochsDropped + 1, encodeFailures := t.encodeFailures + 1)), false)
  {
    KeyFindsSlot(s, i);
    hide First, EmittedInv, IngesterInv, FillingInv, Full, Encoded, EncoderInv, ReaderInv, LogInv, NonFree, Conserved, Distinct;
    var slot := s.store.slots[i];
    assert SlotInv(s, slot, i);
    if slot.state == Encoding && opus.Some? && |opus.value| == 200 {
      var done := slot.(state := Complete, speakerOpus := opus.value);
      assert s.store.slots[i := slot.(speakerOpus := opus.value)][i := done] == s.store.slots[i := done];
    }
  }

  // ---- the ingester: allocation, claim and commit ----

  ghost predicate FirstFree(s: System, i: nat) {
    InState(s, i, Free) && forall j: nat :: j < i ==> !InState(s, j, Free)
  }

  // Nothing is free, and i is the oldest epoch that nobody is filling, encoding or reading.
  ghost predicate OldestEvictable(s: System, i: nat) {
    && (forall j: nat :: !InState(s, j, Free))
    && (InState(s, i, ReadyEncode) || InState(s, i, Complete))
    && forall j: nat :: InState(s, j, ReadyEncode) || InState(s, j, Complete) ==>
         s.store.slots[i].epoch <= s.store.slots[j].epoch
  }

  // What opening an epoch in slot i leaves.
  function OpenedIn(st: Store, i: nat, capturedUs: nat, speakerEnabled: bool, evicts: bool): Store
    requires i < |st.slots|
  {
    var t, slot := st.stats, st.slots[i];
    Store(st.slots[i := Slot(t.generation, t.nextEpoch, capturedUs, 0, Filling, speakerEnabled,
                             slot.haptics, slot.speakerPcm, slot.speakerOpus, 0, false)],
          i,
          t.(nextEpoch := t.nextEpoch + 1, epochsStarted := t.epochsStarted + 1,
             epochsDropped := if evicts then t.epochsDropped + 1 else t.epochsDropped))
  }

  /** A new epoch opens in the lowest free slot as long as there is one. */
  lemma OpensInFreeSlot(s: System, i: nat, capturedUs: nat, speakerEnabled: bool)
    requires |s.store.slots| == SLOT_COUNT && FirstFree(s, i)
    ensures Allocate(s.store, capturedUs, speakerEnabled) ==
            Allocation(OpenedIn(s.store, i, capturedUs, speakerEnabled, false), i)
  {
    var free := First(s.store.slots, AnyFree);
    hide First, Oldest;
    assert Matches(AnyFree, s.store.slots[i]);
    assert InState(s, free, Free);
  }

  /** Without a free slot the oldest epoch nobody is using gives way, and is counted as dropped. */
  lemma OpensInOldest(s: System, i: nat, capturedUs: nat, speakerEnabled: bool)
    requires Inv(s) && OldestEvictable(s, i)
    ensures Allocate(s.store, capturedUs, speakerEnabled) ==
            Allocation(OpenedIn(s.store, i, capturedUs, speakerEnabled, true), i)
  {
    var free := First(s.store.slots, AnyFree);
    assert free >= 0 ==> InState(s, free, Free);
    var sel := Oldest(s.store.slots, Evictable);
    EvictableIsBounded(s, i);
    assert Matches(Evictable, s.store.slots[i]);
    EvictableIsBounded(s, sel);
    hide First, Oldest, SlotsInv, IngesterInv, FillingInv, EncoderInv, ReaderInv, LogInv, Conserved, EmittedInv;
    assert InState(s, sel, ReadyEncode) || InState(s, sel, Complete);
  }

  lemma EvictableIsBounded(s: System, i: nat)
    requires Inv(s) && (InState(s, i, ReadyEncode) || InState(s, i, Complete))
    ensures s.store.slots[i].generation == s.store.stats.generation && s.store.slots[i].epoch < UINT32_MAX
  {
    hide EmittedInv, FillingInv, Full, Encoded, EncoderInv, ReaderInv, NonFree, Distinct;
    assert SlotInv(s, s.store.slots[i], i);
  }

  /**
   One claim of an ingest call with frames left: refused without effect exactly when the store has another
   generation; else a chunk of the open epoch, or of a newly opened one, as long as its room and the call allow.
   */
  lemma ClaimOutcome(s: System, call: Call, remaining: nat)
    requires Inv(s) && s.ing.IngLoop? && s.ing.call == call && remaining > 0
    ensures |s.store.slots| == SLOT_COUNT && ChunkReady(s.store)
    ensures s.store.filling == INVALID_SLOT ==> 0 <= Allocate(s.store, call.capturedUs, call.speakerEnabled).selected
    ensures var st := s.store;
            var a := Allocate(st, call.capturedUs, call.speakerEnabled);
            ClaimChunk(st, call.generation, call.capturedUs, call.speakerEnabled, remaining) ==
              if call.generation != st.stats.generation then ClaimResult(st, Stop)
              else if st.filling != INVALID_SLOT then
                ClaimResult(st, Chunk(st.filling, st.slots[st.filling].pcmFrames, Min(512 - st.slots[st.filling].pcmFrames, remaining)))
              else ClaimResult(a.store, Chunk(a.selected, 0, Min(512, remaining)))
  {
    if s.store.filling == INVALID_SLOT { AllocationNeverRefuses(s, call.capturedUs, call.speakerEnabled); }
    hide EmittedInv, Written, Full, Encoded, EncoderInv, ReaderInv, LogInv, NonFree, Conserved, Distinct, First, Oldest;
  }

  /** A copied chunk commits exactly in its own generation; the one that fills its epoch moves it on. */
  lemma CommitOutcome(s: System)
    requires Inv(s) && s.ing.IngCommit?
    ensures var i, st, t := s.ing.selected, s.store, s.store.stats;
            && i < |st.slots|
            && var slot := st.slots[i];
               CommitChunk(st, s.ing.call.generation, i, s.ing.complete) ==
                 if s.ing.call.generation != t.generation then CommitResult(st, false)
                 else if !s.ing.complete then CommitResult(st, true)
                 else CommitResult(
                   Store(Moved(st.slots, i, if slot.speakerEnabled then ReadyEncode else Complete), INVALID_SLOT,
                         t.(hapticsSamplePairs := t.hapticsSamplePairs + 32,
                            hapticsNonzeroEpochs := t.hapticsNonzeroEpochs + (if slot.hapticsPeak > 0 then 1 else 0),
                            hapticsLastPeak := slot.hapticsPeak,
                            epochsCompleted := t.epochsCompleted + (if slot.speakerEnabled then 0 else 1))), true)
  {
    hide EmittedInv, Full, Encoded, EncoderInv, ReaderInv, LogInv, NonFree, Conserved, Distinct, Peak, PcmAt, HapticsAt;
    assert SlotInv(s, s.store.slots[s.ing.selected], s.ing.selected);
  }

  /** The peak a completed epoch reports is the largest magnitude among its 64 haptics bytes. */
  lemma PeakIsLargestByte(slot: Slot, part: seq<Sample>, n: nat)
    requires WellSized(slot) && n <= |part| && n <= USB_FRAMES && Written(slot, part, n)
    ensures forall k :: 0 <= k < 64 && 16 * (k / 2) < n ==> Distance(slot.haptics[k]) <= slot.hapticsPeak
    ensures slot.hapticsPeak == 0 || exists k :: 0 <= k < 64 && 16 * (k / 2) < n && Distance(slot.haptics[k]) == slot.hapticsPeak
  {
    hide Written, Distance;
    forall k | 0 <= k < 64 && 16 * (k / 2) < n
      ensures Distance(slot.haptics[k]) <= slot.hapticsPeak
    {
      PeakBoundsByte(slot, part, n, k);
    }
    if slot.hapticsPeak > 0 { var k := PeakByte(slot, part, n); }
  }

  lemma PeakBoundsByte(slot: Slot, part: seq<Sample>, n: nat, k: nat)
    requires WellSized(slot) && n <= |part| && n <= USB_FRAMES && Written(slot, part, n) && k < 64 && 16 * (k / 2) < n
    ensures Distance(slot.haptics[k]) <= slot.hapticsPeak
  {
    PeakIsWritten(slot, part, n);
    ByteDistances(slot, part, n, k / 2);
    PeakCovers(part, n, k / 2);
    hide Written, Peak, Distance, ConvertHaptics, Magnitude;
  }

  lemma PeakByte(slot: Slot, part: seq<Sample>, n: nat) returns (k: nat)
    requires WellSized(slot) && n <= |part| && n <= USB_FRAMES && Written(slot, part, n) && slot.hapticsPeak > 0
    ensures k < 64 && 16 * (k / 2) < n && Distance(slot.haptics[k]) == slot.hapticsPeak
  {
    PeakIsWritten(slot, part, n);
    var m := PeakReached(part, n);
    ByteDistances(slot, part, n, m);
    hide Written, Peak, Distance, ConvertHaptics, Magnitude;
    assert 2 * m / 2 == m == (2 * m + 1) / 2;
    k := if Distance(slot.haptics[2 * m]) == slot.hapticsPeak then 2 * m else 2 * m + 1;
  }

  lemma PeakIsWritten(slot: Slot, part: seq<Sample>, n: nat)
    requires WellSized(slot) && n <= |part| && n <= USB_FRAMES && Written(slot, part, n)
    ensures slot.hapticsPeak == Peak(part, n)
  {
  }

  // How far a haptics byte is from silence.
  function Distance(b: Byte): nat {
    if Int8(b) >= 0 then Int8(b) else 0 - Int8(b)
  }

  lemma ValueIsUnique(sample: Int16, gainQ8: nat, v: int, w: int)
    requires IsHapticsValue(sample, gainQ8, v) && IsHapticsValue(sample, gainQ8, w)
    ensures v == w
  {
    hide ScaledLevel;
  }

  lemma ByteDistances(slot: Slot, part: seq<Sample>, n: nat, m: nat)
    requires WellSized(slot) && n <= |part| && n <= USB_FRAMES && Written(slot, part, n) && 16 * m < n
    ensures Distance(slot.haptics[2 * m]) == Magnitude(ConvertHaptics(part[16 * m].frame.hapticsLeft, part[16 * m].gainQ8))
    ensures Distance(slot.haptics[2 * m + 1]) == Magnitude(ConvertHaptics(part[16 * m].frame.hapticsRight, part[16 * m].gainQ8))
  {
    var x := part[16 * m];
    assert HapticsAt(slot.haptics, part, m);
    hide Written;
    ByteDistance(slot.haptics[2 * m], x.frame.hapticsLeft, x.gainQ8);
    ByteDistance(slot.haptics[2 * m + 1], x.frame.hapticsRight, x.gainQ8);
  }

  lemma ByteDistance(b: Byte, sample: Int16, gainQ8: nat)
    requires IsHapticsValue(sample, gainQ8, Int8(b))
    ensures Distance(b) == Magnitude(ConvertHaptics(sample, gainQ8))
  {
    ConversionIsExact(sample, gainQ8);
    ValueIsUnique(sample, gainQ8, Int8(b), ConvertHaptics(sample, gainQ8));
  }

  lemma {:induction false} PeakCovers(part: seq<Sample>, n: nat, m: nat)
    requires n <= |part| && 16 * m < n
    ensures SampleMagnitude(part[16 * m]) <= Peak(part, n)
  {
    hide SampleMagnitude;
    if 16 * m < n - 1 { PeakCovers(part, n - 1, m); }
  }

  lemma {:induction false} PeakReached(part: seq<Sample>, n: nat) returns (m: nat)
    requires n <= |part|
    ensures Peak(part, n) > 0 ==> 16 * m < n && SampleMagnitude(part[16 * m]) == Peak(part, n)
  {
    hide SampleMagnitude;
    m := 0;
    if n > 0 {
      m := PeakReached(part, n - 1);
      if (n - 1) % 16 == 0 && Peak(part, n) != Peak(part, n - 1) { m := (n - 1) / 16; }
    }
  }

  // ---- reset ----

  /** A reset cancels what encoder and reader hold, frees every other slot, and counts the epochs it freed. */
  lemma ResetOutcome(s: System, generation: nat)
    ensures var st, t := s.store, s.store.stats;
            var after := Reset(st, generation);
            && |after.slots| == |st.slots|
            && (forall i :: 0 <= i < |st.slots| ==>
                  after.slots[i] == st.slots[i].(state :=
                    if st.slots[i].state in {Encoding, CancelledEncoding} then CancelledEncoding
                    else if st.slots[i].state in {Reading, CancelledReading} then CancelledReading
                    else Free))
            && after.filling == INVALID_SLOT
            && NonFree(after.slots) <= NonFree(st.slots)
            && after.stats == t.(generation := generation, nextEpoch := 0, generationResets := t.generationResets + 1,
                                 epochsStale := t.epochsStale + (NonFree(st.slots) - NonFree(after.slots)))
  {
    ResetConserves(s.store.slots);
    hide NonFree, RetiredCount, CancelAll;
  }
}
