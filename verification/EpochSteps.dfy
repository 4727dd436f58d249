/**
 The locked regions and the unlocked writes of the epoch store, each as one function from store to store.
 The class in EpochStore.dfy is proved to compute these functions; EpochSystem.dfy interleaves them.
 */
module EpochSteps {
  import opened Basics
  import opened EpochTypes
  import opened HapticsMath

  // What a scan over the slots is looking for.
  datatype Wanted =
    | AnyFree
    | Evictable
    | Encodable(generation: nat)
    | Pairable(generation: nat)
    | PairableEpoch(generation: nat, epoch: nat)
    | NewerComplete(epoch: nat)
    | Keyed(generation: nat, epoch: nat)

  predicate Matches(w: Wanted, slot: Slot) {
    match w
    case AnyFree => slot.state == Free
    case Evictable => slot.state == ReadyEncode || slot.state == Complete
    case Encodable(g) => slot.state == ReadyEncode && slot.generation == g
    case Pairable(g) => slot.state == Complete && slot.generation == g
    case PairableEpoch(g, e) => slot.state == Complete && slot.generation == g && slot.epoch == e
    case NewerComplete(e) => slot.state == Complete && slot.epoch > e
    case Keyed(g, e) => slot.state != Free && slot.generation == g && slot.epoch == e
  }

  /** The lowest matching index, or -1. */
  function First(slots: seq<Slot>, w: Wanted): (sel: int)
    ensures -1 <= sel < |slots|
    ensures sel >= 0 ==> Matches(w, slots[sel])
    ensures forall j :: 0 <= j < |slots| && Matches(w, slots[j]) ==> 0 <= sel <= j
  {
    if |slots| == 0 then -1
    else
      var p := First(slots[..|slots| - 1], w);
      if p >= 0 then p
      else if Matches(w, slots[|slots| - 1]) then |slots| - 1
      else -1
  }

  /** The matching index with the smallest epoch below UINT32_MAX, the lowest such index, or -1. */
  function Oldest(slots: seq<Slot>, w: Wanted): (sel: int)
    ensures -1 <= sel < |slots|
    ensures sel >= 0 ==> Matches(w, slots[sel]) && slots[sel].epoch < UINT32_MAX
    ensures forall j :: 0 <= j < |slots| && Matches(w, slots[j]) && slots[j].epoch < UINT32_MAX ==>
                          sel >= 0 && slots[sel].epoch <= slots[j].epoch
    ensures forall j :: 0 <= j < sel && Matches(w, slots[j]) ==> slots[sel].epoch < slots[j].epoch
  {
    if |slots| == 0 then -1
    else
      var n := |slots| - 1;
      var p := Oldest(slots[..n], w);
      var bound := if p < 0 then UINT32_MAX else slots[p].epoch;
      if Matches(w, slots[n]) && slots[n].epoch < bound then n else p
  }

  // ----- ingest ---------------------------------------------------------------------------------

  datatype Allocation = Allocation(store: Store, selected: int)

  function Allocate(st: Store, capturedUs: nat, speakerEnabled: bool): Allocation {
    var free := First(st.slots, AnyFree);
    var sel := if free >= 0 then free else Oldest(st.slots, Evictable);
    if sel < 0 then
      Allocation(st.(stats := st.stats.(epochsDropped := st.stats.epochsDropped + 1)), -1)
    else
      Allocation(Store(st.slots[sel := Claimed(st, sel, capturedUs, speakerEnabled)], sel,
                       OpeningStats(st.stats, free < 0)), sel)
  }

  function OpeningStats(stats: Stats, evicts: bool): Stats {
    stats.(nextEpoch := stats.nextEpoch + 1,
           epochsStarted := stats.epochsStarted + 1,
           epochsDropped := stats.epochsDropped + (if evicts then 1 else 0))
  }

  function Claimed(st: Store, sel: nat, capturedUs: nat, speakerEnabled: bool): Slot
    requires sel < |st.slots|
  {
    st.slots[sel].(
      generation := st.stats.generation,
      epoch := st.stats.nextEpoch,
      capturedUs := capturedUs,
      pcmFrames := 0,
      speakerEnabled := speakerEnabled,
      hapticsPeak := 0,
      hapticsNonzero := false,
      state := Filling)
  }

  datatype Claim = Stop | Retry | Chunk(selected: nat, pcmFrame: nat, frames: nat)

  datatype ClaimResult = ClaimResult(store: Store, claim: Claim)

  function ClaimChunk(st: Store, generation: nat, capturedUs: nat, speakerEnabled: bool, remaining: nat)
    : (r: ClaimResult)
    requires ChunkReady(st)
    ensures r.claim.Chunk? ==> r.claim.selected < |r.store.slots| && r.claim.frames <= remaining
    ensures |r.store.slots| == |st.slots|
  {
    if generation != st.stats.generation then ClaimResult(st, Stop)
    else if st.filling != INVALID_SLOT then ClaimIn(st, remaining)
    else
      var a := Allocate(st, capturedUs, speakerEnabled);
      if a.selected < 0 then ClaimResult(a.store, Stop) else ClaimIn(a.store, remaining)
  }

  predicate ChunkReady(st: Store) {
    && |st.slots| == SLOT_COUNT
    && (st.filling == INVALID_SLOT || (st.filling < SLOT_COUNT && st.slots[st.filling].pcmFrames <= USB_FRAMES))
  }

  function ClaimIn(st: Store, remaining: nat): (r: ClaimResult)
    requires st.filling < |st.slots| && st.slots[st.filling].pcmFrames <= USB_FRAMES
    ensures r.claim.Chunk? ==> r.claim.selected < |r.store.slots| && r.claim.frames <= remaining
    ensures |r.store.slots| == |st.slots|
  {
    var slot := st.slots[st.filling];
    if slot.state != Filling then ClaimResult(st.(filling := INVALID_SLOT), Retry)
    else
      var room := USB_FRAMES - slot.pcmFrames;
      ClaimResult(st, Chunk(st.filling, slot.pcmFrames, if remaining > room then room else remaining))
  }

  /** One iteration of the copy loop: frame number `dst` of the slot becomes `sample`. */
  function WriteFrame(slot: Slot, dst: nat, sample: Sample): (r: Slot)
    requires WellSized(slot) && dst < USB_FRAMES
    ensures WellSized(r)
  {
    var f := sample.frame;
    var pcm := slot.speakerPcm[dst * 2 := f.speakerLeft][dst * 2 + 1 := f.speakerRight];
    if dst % HAPTICS_DECIMATION != 0 then slot.(speakerPcm := pcm)
    else
      var out := (dst / HAPTICS_DECIMATION) * 2;
      var left := ConvertHaptics(f.hapticsLeft, sample.gainQ8);
      var right := ConvertHaptics(f.hapticsRight, sample.gainQ8);
      Metered(Metered(slot.(speakerPcm := pcm,
                            haptics := slot.haptics[out := AsByte(left)][out + 1 := AsByte(right)]),
                      left),
              right)
  }

  function Metered(slot: Slot, sample: int): Slot {
    var m := Magnitude(sample);
    slot.(hapticsNonzero := slot.hapticsNonzero || m != 0,
          hapticsPeak := if m > slot.hapticsPeak then m else slot.hapticsPeak)
  }

  datatype CommitResult = CommitResult(store: Store, more: bool)

  function CommitChunk(st: Store, generation: nat, sel: nat, complete: bool): CommitResult
    requires sel < |st.slots|
  {
    var slot := st.slots[sel];
    if generation != st.stats.generation || st.filling != sel || slot.generation != generation ||
       slot.state != Filling then CommitResult(st, false)
    else if complete then CommitResult(Filled(st, sel), true)
    else CommitResult(st, true)
  }

  function Filled(st: Store, sel: nat): Store
    requires sel < |st.slots|
  {
    var slot := st.slots[sel];
    var stats := st.stats.(
      hapticsSamplePairs := st.stats.hapticsSamplePairs + 32,
      hapticsNonzeroEpochs := st.stats.hapticsNonzeroEpochs + (if slot.hapticsNonzero then 1 else 0),
      hapticsLastPeak := slot.hapticsPeak,
      epochsCompleted := st.stats.epochsCompleted + (if slot.speakerEnabled then 0 else 1));
    Store(st.slots[sel := slot.(state := if slot.speakerEnabled then ReadyEncode else Complete)],
          INVALID_SLOT, stats)
  }

  // ----- reset ----------------------------------------------------------------------------------

  function CancelledState(state: SlotState): SlotState {
    match state
    case Encoding => CancelledEncoding
    case CancelledEncoding => CancelledEncoding
    case Reading => CancelledReading
    case CancelledReading => CancelledReading
    case _ => Free
  }

  function CancelAll(slots: seq<Slot>): (r: seq<Slot>)
    ensures |r| == |slots|
    ensures forall i :: 0 <= i < |slots| ==> r[i] == slots[i].(state := CancelledState(slots[i].state))
  {
    if |slots| == 0 then []
    else
      var last := slots[|slots| - 1];
      CancelAll(slots[..|slots| - 1]) + [last.(state := CancelledState(last.state))]
  }

  predicate Retires(slot: Slot) {
    slot.state == Filling || slot.state == ReadyEncode || slot.state == Complete
  }

  function RetiredCount(slots: seq<Slot>): nat {
    if |slots| == 0 then 0
    else RetiredCount(slots[..|slots| - 1]) + (if Retires(slots[|slots| - 1]) then 1 else 0)
  }

  function Reset(st: Store, generation: nat): Store {
    Store(CancelAll(st.slots),
          INVALID_SLOT,
          st.stats.(generation := generation,
                    nextEpoch := 0,
                    generationResets := st.stats.generationResets + 1,
                    epochsStale := st.stats.epochsStale + RetiredCount(st.slots)))
  }

  // ----- encoder --------------------------------------------------------------------------------

  // The job's PCM pointer is represented by the slot it points into.
  datatype EncodeJob = EncodeJob(generation: nat, epoch: nat, capturedUs: nat, slot: nat)

  function TakeJob(st: Store): (r: (Store, Option<EncodeJob>))
    ensures |r.0.slots| == |st.slots|
  {
    var sel := Oldest(st.slots, Encodable(st.stats.generation));
    if sel < 0 then (st, None)
    else
      var slot := st.slots[sel];
      (Store(st.slots[sel := slot.(state := Encoding)], st.filling,
             st.stats.(encodeJobs := st.stats.encodeJobs + 1)),
       Some(EncodeJob(slot.generation, slot.epoch, slot.capturedUs, sel)))
  }

  function Retire(st: Store, sel: nat): Store
    requires sel < |st.slots|
  {
    st.(slots := st.slots[sel := st.slots[sel].(state := Free)])
  }

  function OneStale(st: Store, sel: nat): Store
    requires sel < |st.slots|
  {
    Retire(st, sel).(stats := st.stats.(epochsStale := st.stats.epochsStale + 1))
  }

  function OneDropped(st: Store, sel: nat): Store
    requires sel < |st.slots|
  {
    Retire(st, sel).(stats := st.stats.(epochsDropped := st.stats.epochsDropped + 1))
  }

  /** First locked region of complete_encode; `usable` says the caller passed 200 bytes. Some(slot) to copy. */
  function BeginEncode(st: Store, generation: nat, epoch: nat, usable: bool): (r: (Store, Option<nat>))
    ensures |r.0.slots| == |st.slots|
    ensures r.1.Some? ==> r.1.value < |st.slots| && usable
  {
    var sel := First(st.slots, Keyed(generation, epoch));
    if sel < 0 then (st, None)
    else if st.slots[sel].state == CancelledEncoding || generation != st.stats.generation then
      (OneStale(st, sel), None)
    else if st.slots[sel].state != Encoding then (st, None)
    else if !usable then
      var dropped := OneDropped(st, sel);
      (dropped.(stats := dropped.stats.(encodeFailures := st.stats.encodeFailures + 1)), None)
    else (st, Some(sel))
  }

  /** Second locked region of complete_encode, after the unlocked copy into slot `sel`. */
  function EndEncode(st: Store, sel: nat, generation: nat, epoch: nat): (r: (Store, bool))
    requires sel < |st.slots|
    ensures |r.0.slots| == |st.slots|
  {
    var slot := st.slots[sel];
    if slot.state == CancelledEncoding || generation != st.stats.generation then (OneStale(st, sel), false)
    else if slot.state != Encoding || slot.generation != generation || slot.epoch != epoch then (st, false)
    else
      (Store(st.slots[sel := slot.(state := Complete)], st.filling,
             st.stats.(epochsCompleted := st.stats.epochsCompleted + 1)), true)
  }

  // ----- reader ---------------------------------------------------------------------------------

  datatype PairClaim = PairClaim(
    first: nat,
    second: nat,
    generation: nat,
    firstEpoch: nat,
    firstCapturedUs: nat,
    secondCapturedUs: nat,
    speakerEnabled: bool)

  /** First locked region of take_adjacent_pair. */
  function BeginPair(st: Store): (r: (Store, Option<PairClaim>))
    ensures |r.0.slots| == |st.slots|
    ensures r.1.Some? ==> r.1.value.first < |st.slots| && r.1.value.second < |st.slots|
  {
    var g := st.stats.generation;
    var first := Oldest(st.slots, Pairable(g));
    if first < 0 then (st, None)
    else
      var oldest := st.slots[first].epoch;
      var second := First(st.slots, PairableEpoch(g, oldest + 1));
      if second < 0 then
        if First(st.slots, NewerComplete(oldest)) < 0 then (st, None)
        else
          var dropped := OneDropped(st, first);
          (dropped.(stats := dropped.stats.(
             epochGaps := st.stats.epochGaps + 1,
             epochDiscontinuities := st.stats.epochDiscontinuities + 1)), None)
      else if st.slots[first].speakerEnabled != st.slots[second].speakerEnabled then
        var dropped := OneDropped(st, first);
        (dropped.(stats := dropped.stats.(
           speakerStateDiscontinuities := st.stats.speakerStateDiscontinuities + 1,
           epochDiscontinuities := st.stats.epochDiscontinuities + 1)), None)
      else
        var slots := st.slots[first := st.slots[first].(state := Reading)];
        (st.(slots := slots[second := slots[second].(state := Reading)]),
         Some(PairClaim(first, second, g, oldest, st.slots[first].capturedUs,
                        st.slots[second].capturedUs, st.slots[first].speakerEnabled)))
  }

  /** Second locked region of take_adjacent_pair, after the unlocked copy out of both slots. */
  function EndPair(st: Store, c: PairClaim): (r: (Store, bool))
    requires c.first < |st.slots| && c.second < |st.slots|
    ensures |r.0.slots| == |st.slots|
  {
    var a := st.slots[c.first];
    var b := st.slots[c.second];
    var freed := Retire(Retire(st, c.first), c.second);
    if a.state == CancelledReading || b.state == CancelledReading || c.generation != st.stats.generation then
      (freed.(stats := st.stats.(epochsStale := st.stats.epochsStale + 2)), false)
    else if a.state != Reading || b.state != Reading || a.generation != c.generation ||
            b.generation != c.generation || a.epoch != c.firstEpoch || b.epoch != c.firstEpoch + 1 then
      (st, false)
    else
      (freed.(stats := st.stats.(epochsEmitted := st.stats.epochsEmitted + 2,
                                 adjacentPairs := st.stats.adjacentPairs + 1)), true)
  }

  /** What the copy out of two claimed slots yields; Opus bytes are zeroed when the speaker is off. */
  function PairOf(st: Store, c: PairClaim): Pair
    requires c.first < |st.slots| && c.second < |st.slots|
  {
    Pair(c.generation, c.firstEpoch, c.firstCapturedUs, c.secondCapturedUs, c.speakerEnabled,
         st.slots[c.first].haptics, st.slots[c.second].haptics,
         if c.speakerEnabled then st.slots[c.first].speakerOpus else Repeat<Byte>(0, OPUS_LEN),
         if c.speakerEnabled then st.slots[c.second].speakerOpus else Repeat<Byte>(0, OPUS_LEN))
  }
}
