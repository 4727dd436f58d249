/** The store as the firmware keeps it: an array of slots, a filling index and counters, updated in place. */
module EpochStore {
  import opened Basics
  import opened EpochTypes
  import opened EpochSteps
  import opened EpochSystem
  import opened EpochIngest

  /** complete_encode without interruption: both locked regions around the copy. */
  function CompleteEncodeAtOnce(st: Store, generation: nat, epoch: nat, opus: Option<seq<Byte>>)
    : (r: (Store, bool))
  {
    var (begun, slot) := BeginEncode(st, generation, epoch, opus.Some? && |opus.value| == OPUS_LEN);
    match slot
    case None => (begun, false)
    case Some(i) =>
      var copied := begun.(slots := begun.slots[i := begun.slots[i].(speakerOpus := opus.value)]);
      EndEncode(copied, i, generation, epoch)
  }

  /** take_adjacent_pair without interruption. */
  function TakePairAtOnce(st: Store): (Store, Option<Pair>) {
    var (begun, claim) := BeginPair(st);
    match claim
    case None => (begun, None)
    case Some(c) =>
      var (ended, ok) := EndPair(begun, c);
      (ended, if ok then Some(PairOf(begun, c)) else None)
  }

  class EpochStore {
    var slots: array<Slot>
    var filling: nat
    var stats: Stats

    ghost predicate Valid()
      reads this
    {
      slots.Length == SLOT_COUNT
    }

    ghost function Model(): Store
      reads this, slots
    {
      Store(slots[..], filling, stats)
    }

    constructor (generation: nat)
      ensures Valid() && fresh(slots)
      ensures Model() == InitialStore(generation)
    {
      var initial := InitialStore(generation);
      slots := new Slot[SLOT_COUNT] [initial.slots[0], initial.slots[1], initial.slots[2], initial.slots[3],
                                     initial.slots[4], initial.slots[5], initial.slots[6], initial.slots[7]];
      filling := INVALID_SLOT;
      stats := initial.stats;
    }

    method ScanFirst(w: Wanted) returns (selected: int)
      ensures selected == First(slots[..], w)
    {
      selected := -1;
      var i := 0;
      while i < slots.Length && selected < 0
        invariant 0 <= i <= slots.Length
        invariant selected == First(slots[..i], w)
        invariant selected >= 0 ==> selected == i - 1
      {
        assert slots[..i + 1][..i] == slots[..i];
        if Matches(w, slots[i]) {
          selected := i;
        }
        i := i + 1;
      }
      FirstOfPrefix(slots[..], i, w);
    }

    method ScanOldest(w: Wanted) returns (selected: int)
      ensures selected == Oldest(slots[..], w)
    {
      selected := -1;
      var oldest := UINT32_MAX;
      for i := 0 to slots.Length
        invariant selected == Oldest(slots[..i], w)
        invariant oldest == if selected < 0 then UINT32_MAX else slots[selected].epoch
      {
        assert slots[..i + 1][..i] == slots[..i];
        if Matches(w, slots[i]) && slots[i].epoch < oldest {
          oldest := slots[i].epoch;
          selected := i;
        }
      }
      assert slots[..slots.Length] == slots[..];
    }

    method AllocateSlotLocked(capturedUs: nat, speakerEnabled: bool) returns (selected: int)
      requires Valid()
      modifies this`filling, this`stats, slots
      ensures Valid()
      ensures Model() == Allocate(old(Model()), capturedUs, speakerEnabled).store
      ensures selected == Allocate(old(Model()), capturedUs, speakerEnabled).selected
    {
      selected := ScanFirst(AnyFree);
      if selected < 0 {
        selected := ScanOldest(Evictable);
        stats := stats.(epochsDropped := stats.epochsDropped + 1);
        if selected < 0 {
          return;
        }
      }
      slots[selected] := slots[selected].(
        generation := stats.generation, epoch := stats.nextEpoch, capturedUs := capturedUs, pcmFrames := 0,
        speakerEnabled := speakerEnabled, hapticsPeak := 0, hapticsNonzero := false, state := Filling);
      stats := stats.(nextEpoch := stats.nextEpoch + 1, epochsStarted := stats.epochsStarted + 1);
      filling := selected;
    }

    /** First locked region of an ingest round. */
    method ClaimLocked(generation: nat, capturedUs: nat, speakerEnabled: bool, remaining: nat) returns (claim: Claim)
      requires Valid() && IngestReady(Model())
      modifies this`filling, this`stats, slots
      ensures Valid()
      ensures ClaimResult(Model(), claim) ==
              ClaimChunk(old(Model()), generation, capturedUs, speakerEnabled, remaining)
    {
      hide First, Oldest;
      if generation != stats.generation {
        return Stop;
      }
      if filling == INVALID_SLOT {
        var selected := AllocateSlotLocked(capturedUs, speakerEnabled);
        if selected < 0 {
          return Stop;
        }
      }
      if slots[filling].state != Filling {
        filling := INVALID_SLOT;
        return Retry;
      }
      var room := USB_FRAMES - slots[filling].pcmFrames;
      claim := Chunk(filling, slots[filling].pcmFrames, if remaining > room then room else remaining);
    }

    /** Second locked region of an ingest round. */
    method CommitLocked(generation: nat, selected: nat, complete: bool) returns (more: bool)
      requires Valid() && selected < SLOT_COUNT
      modifies this`filling, this`stats, slots
      ensures Valid()
      ensures CommitResult(Model(), more) == CommitChunk(old(Model()), generation, selected, complete)
    {
      var slot := slots[selected];
      if generation != stats.generation || filling != selected || slot.generation != generation ||
         slot.state != Filling {
        return false;
      }
      if complete {
        stats := stats.(
          hapticsSamplePairs := stats.hapticsSamplePairs + 32,
          hapticsNonzeroEpochs := stats.hapticsNonzeroEpochs + (if slot.hapticsNonzero then 1 else 0),
          hapticsLastPeak := slot.hapticsPeak,
          epochsCompleted := stats.epochsCompleted + (if slot.speakerEnabled then 0 else 1));
        slots[selected] := slot.(state := if slot.speakerEnabled then ReadyEncode else Complete);
        filling := INVALID_SLOT;
      }
      more := true;
    }

    /** The unlocked copy of one chunk into the slot being filled. */
    method CopyFrames(data: seq<Byte>, frame: nat, chunk: nat, selected: nat, pcmFrame: nat, gainQ8: nat)
      requires Valid() && IngestReady(Model()) && selected < SLOT_COUNT
      requires pcmFrame + chunk <= USB_FRAMES && 8 * (frame + chunk) <= |data|
      modifies slots
      ensures Model() == CopyChunk(old(Model()), selected, pcmFrame,
                                   Tag(UsbFrames(data)[frame..frame + chunk], gainQ8))
    {
      ghost var samples := Tag(UsbFrames(data)[frame..frame + chunk], gainQ8);
      ghost var before := slots[..];
      hide WriteFrame, IngestReady, UsbFrames, Tag, FrameAt;
      for i := 0 to chunk
        invariant WellSized(slots[selected])
        invariant slots[..] == before[selected := slots[selected]]
        invariant slots[selected] == WriteFrames(before[selected], pcmFrame, samples[..i])
      {
        PrefixWrites(before[selected], pcmFrame, samples, i);
        slots[selected] := WriteFrame(slots[selected], pcmFrame + i, Sample(FrameAt(data, frame + i), gainQ8));
      }
      assert samples[..chunk] == samples;
      slots[selected] := slots[selected].(pcmFrames := pcmFrame + chunk);
    }

    /** One round: claim, copy, commit. */
    method IngestRound(data: seq<Byte>, frame: nat, generation: nat, capturedUs: nat, speakerEnabled: bool,
                       gainQ8: nat)
      returns (next: nat, more: bool)
      requires Valid() && IngestReady(Model()) && frame < |data| / USB_FRAME_BYTES
      modifies this`filling, this`stats, slots
      ensures Valid()
      ensures (Model(), next, more) ==
              Round(old(Model()), Call(UsbFrames(data), generation, capturedUs, speakerEnabled, gainQ8), frame)
    {
      hide ClaimChunk, CommitChunk, CopyChunk, IngestReady, FirstFrames, Tag, WellSized;
      ghost var before := Model();
      ghost var call := Call(UsbFrames(data), generation, capturedUs, speakerEnabled, gainQ8);
      var remaining := |data| / USB_FRAME_BYTES - frame;
      ClaimKeepsReady(before, call, remaining);
      var claim := ClaimLocked(generation, capturedUs, speakerEnabled, remaining);
      match claim
      case Stop =>
        next, more := frame, false;
      case Retry =>
        next, more := frame, true;
      case Chunk(selected, pcmFrame, chunk) =>
        CopyFrames(data, frame, chunk, selected, pcmFrame, gainQ8);
        next := frame + chunk;
        more := CommitLocked(generation, selected, pcmFrame + chunk == USB_FRAMES);
    }

    /** The chunked ingest loop, run without interruption. */
    method IngestUsb(data: seq<Byte>, generation: nat, capturedUs: nat, speakerEnabled: bool, gainQ8: nat)
      requires Valid() && IngestReady(Model())
      modifies this`filling, this`stats, slots
      ensures Valid() && IngestReady(Model())
      ensures Model() == IngestBytes(old(Model()), data, generation, capturedUs, speakerEnabled, gainQ8)
    {
      if |data| < USB_FRAME_BYTES {
        return;
      }
      var frames := |data| / USB_FRAME_BYTES;
      ghost var call := Call(UsbFrames(data), generation, capturedUs, speakerEnabled, gainQ8);
      ghost var result := IngestLoop(Model(), call, 0);
      var frame := 0;
      while frame < frames
        invariant Valid() && IngestReady(Model()) && frame <= frames
        invariant IngestLoop(Model(), call, frame) == result
        decreases frames - frame, if filling == INVALID_SLOT then 0 else 1
      {
        LoopIsRound(Model(), call, frame);
        var next, more := IngestRound(data, frame, generation, capturedUs, speakerEnabled, gainQ8);
        frame := next;
        if !more {
          return;
        }
      }
    }

    method Reset(generation: nat)
      requires Valid()
      modifies this`filling, this`stats, slots
      ensures Valid()
      ensures Model() == EpochSteps.Reset(old(Model()), generation)
    {
      hide CancelAll, RetiredCount;
      ghost var before := slots[..];
      var stale := 0;
      RetiredCountStep(before, 0);
      for i := 0 to slots.Length
        invariant forall j :: i <= j < slots.Length ==> slots[j] == before[j]
        invariant forall j :: 0 <= j < i ==> slots[j] == before[j].(state := CancelledState(before[j].state))
        invariant stale == RetiredCount(before[..i]) && stats == old(stats)
      {
        RetiredCountStep(before, i);
        var slot := slots[i];
        if slot.state == Encoding || slot.state == CancelledEncoding {
          slots[i] := slot.(state := CancelledEncoding);
        } else if slot.state == Reading || slot.state == CancelledReading {
          slots[i] := slot.(state := CancelledReading);
        } else if slot.state != Free {
          slots[i] := slot.(state := Free);
          stale := stale + 1;
        }
      }
      stats := stats.(generation := generation, nextEpoch := 0, generationResets := stats.generationResets + 1,
                      epochsStale := stats.epochsStale + stale);
      filling := INVALID_SLOT;
      assert before[..slots.Length] == before;
      assert slots[..] == CancelAll(before);
    }

    method TakeEncodeJob() returns (job: Option<EncodeJob>)
      requires Valid()
      modifies this`stats, slots
      ensures Valid()
      ensures (Model(), job) == TakeJob(old(Model()))
    {
      var selected := ScanOldest(Encodable(stats.generation));
      if selected < 0 {
        return None;
      }
      slots[selected] := slots[selected].(state := Encoding);
      stats := stats.(encodeJobs := stats.encodeJobs + 1);
      job := Some(EncodeJob(slots[selected].generation, slots[selected].epoch, slots[selected].capturedUs, selected));
    }

    method Release(i: nat)
      requires Valid() && i < SLOT_COUNT
      modifies slots
      ensures Valid() && Model() == Retire(old(Model()), i)
    {
      slots[i] := slots[i].(state := Free);
      assert slots[..] == old(slots[..])[i := slots[i]];
    }

    // First locked region of complete_encode.
    method BeginEncodeLocked(generation: nat, epoch: nat, usable: bool) returns (selected: Option<nat>)
      requires Valid()
      modifies this`stats, slots
      ensures Valid() && (Model(), selected) == BeginEncode(old(Model()), generation, epoch, usable)
    {
      hide First;
      var found := ScanFirst(Keyed(generation, epoch));
      if found < 0 {
        return None;
      }
      if slots[found].state == CancelledEncoding || generation != stats.generation {
        Release(found);
        stats := stats.(epochsStale := stats.epochsStale + 1);
        return None;
      }
      if slots[found].state != Encoding || !usable {
        if slots[found].state == Encoding {
          Release(found);
          stats := stats.(encodeFailures := stats.encodeFailures + 1, epochsDropped := stats.epochsDropped + 1);
        }
        return None;
      }
      selected := Some(found);
    }

    // Second locked region of complete_encode.
    method EndEncodeLocked(selected: nat, generation: nat, epoch: nat) returns (ok: bool)
      requires Valid() && selected < SLOT_COUNT
      modifies this`stats, slots
      ensures Valid() && (Model(), ok) == EndEncode(old(Model()), selected, generation, epoch)
    {
      if slots[selected].state == CancelledEncoding || generation != stats.generation {
        Release(selected);
        stats := stats.(epochsStale := stats.epochsStale + 1);
        return false;
      }
      if slots[selected].state != Encoding || slots[selected].generation != generation || slots[selected].epoch != epoch {
        return false;
      }
      slots[selected] := slots[selected].(state := Complete);
      assert slots[..] == old(slots[..])[selected := slots[selected]];
      stats := stats.(epochsCompleted := stats.epochsCompleted + 1);
      ok := true;
    }

    method CompleteEncode(generation: nat, epoch: nat, opus: Option<seq<Byte>>) returns (ok: bool)
      requires Valid()
      modifies this`stats, slots
      ensures Valid()
      ensures (Model(), ok) == CompleteEncodeAtOnce(old(Model()), generation, epoch, opus)
    {
      hide BeginEncode, EndEncode;
      var selected := BeginEncodeLocked(generation, epoch, opus.Some? && |opus.value| == OPUS_LEN);
      if selected.None? {
        return false;
      }
      ghost var begun := slots[..];
      slots[selected.value] := slots[selected.value].(speakerOpus := opus.value);
      assert slots[..] == begun[selected.value := slots[selected.value]];
      ok := EndEncodeLocked(selected.value, generation, epoch);
    }

    // First locked region of take_adjacent_pair.
    method BeginPairLocked() returns (claim: Option<PairClaim>)
      requires Valid()
      modifies this`stats, slots
      ensures Valid() && (Model(), claim) == BeginPair(old(Model()))
    {
      hide First, Oldest;
      var generation := stats.generation;
      var first := ScanOldest(Pairable(generation));
      if first < 0 {
        return None;
      }
      var oldest := slots[first].epoch;
      var second := ScanFirst(PairableEpoch(generation, oldest + 1));
      if second < 0 {
        var newer := ScanFirst(NewerComplete(oldest));
        if newer >= 0 {
          Release(first);
          stats := stats.(epochsDropped := stats.epochsDropped + 1, epochGaps := stats.epochGaps + 1,
                          epochDiscontinuities := stats.epochDiscontinuities + 1);
        }
        return None;
      }
      if slots[first].speakerEnabled != slots[second].speakerEnabled {
        Release(first);
        stats := stats.(epochsDropped := stats.epochsDropped + 1,
                        speakerStateDiscontinuities := stats.speakerStateDiscontinuities + 1,
                        epochDiscontinuities := stats.epochDiscontinuities + 1);
        return None;
      }
      claim := Some(PairClaim(first, second, generation, oldest, slots[first].capturedUs, slots[second].capturedUs,
                              slots[first].speakerEnabled));
      slots[first] := slots[first].(state := Reading);
      ghost var mid := slots[..];
      assert mid == old(slots[..])[first := slots[first]];
      slots[second] := slots[second].(state := Reading);
      assert slots[..] == mid[second := slots[second]];
    }

    // Second locked region of take_adjacent_pair.
    method EndPairLocked(claim: PairClaim) returns (ok: bool)
      requires Valid() && claim.first < SLOT_COUNT && claim.second < SLOT_COUNT
      modifies this`stats, slots
      ensures Valid() && (Model(), ok) == EndPair(old(Model()), claim)
    {
      var a, b := slots[claim.first], slots[claim.second];
      if a.state == CancelledReading || b.state == CancelledReading || claim.generation != stats.generation {
        Release(claim.first);
        Release(claim.second);
        stats := stats.(epochsStale := stats.epochsStale + 2);
        return false;
      }
      if a.state != Reading || b.state != Reading || a.generation != claim.generation || b.generation != claim.generation
         || a.epoch != claim.firstEpoch || b.epoch != claim.firstEpoch + 1 {
        return false;
      }
      Release(claim.first);
      Release(claim.second);
      stats := stats.(epochsEmitted := stats.epochsEmitted + 2, adjacentPairs := stats.adjacentPairs + 1);
      ok := true;
    }

    method TakeAdjacentPair() returns (pair: Option<Pair>)
      requires Valid()
      modifies this`stats, slots
      ensures Valid()
      ensures (Model(), pair) == TakePairAtOnce(old(Model()))
      ensures pair.None? <==> BeginPair(old(Model())).1.None?
    {
      UninterruptedTake(Model());
      hide BeginPair, EndPair;
      var claim := BeginPairLocked();
      if claim.None? {
        return None;
      }
      var copied := CopyPair(claim.value);
      var ok := EndPairLocked(claim.value);
      pair := if ok then Some(copied) else None;
    }

    // The copies between the two locked regions; a silent pair gets zeroed Opus packets.
    method CopyPair(claim: PairClaim) returns (copied: Pair)
      requires Valid() && claim.first < SLOT_COUNT && claim.second < SLOT_COUNT
      ensures copied == PairOf(Model(), claim)
    {
      hide Repeat;
      var none := Repeat<Byte>(0, OPUS_LEN);
      var first, second := slots[claim.first], slots[claim.second];
      copied := Pair(claim.generation, claim.firstEpoch, claim.firstCapturedUs, claim.secondCapturedUs, claim.speakerEnabled,
                     first.haptics, second.haptics,
                     if claim.speakerEnabled then first.speakerOpus else none,
                     if claim.speakerEnabled then second.speakerOpus else none);
    }
  }

  /** Without interruption every claimed pair is delivered, so a take that returns nothing has copied nothing. */
  lemma UninterruptedTake(st: Store)
    ensures BeginPair(st).1.Some? ==> EndPair(BeginPair(st).0, BeginPair(st).1.value).1
    ensures TakePairAtOnce(st).1.None? <==> BeginPair(st).1.None?
  {
    hide Oldest, First, PairOf;
  }

  lemma PrefixWrites(slot: Slot, first: nat, samples: seq<Sample>, i: nat)
    requires WellSized(slot) && first + |samples| <= USB_FRAMES && i < |samples|
    ensures WriteFrames(slot, first, samples[..i + 1]) == WriteFrame(WriteFrames(slot, first, samples[..i]), first + i, samples[i])
  {
    assert samples[..i + 1][..i] == samples[..i];
  }

  lemma {:induction false} FirstOfPrefix(slots: seq<Slot>, n: nat, w: Wanted)
    requires n <= |slots| && (First(slots[..n], w) >= 0 || n == |slots|)
    ensures First(slots, w) == First(slots[..n], w)
    decreases |slots| - n
  {
    if n < |slots| {
      assert slots[..n + 1][..n] == slots[..n];
      FirstOfPrefix(slots, n + 1, w);
    } else {
      assert slots[..n] == slots;
    }
  }

  lemma RetiredCountStep(slots: seq<Slot>, i: nat)
    requires i < |slots|
    ensures RetiredCount(slots[..0]) == 0
    ensures RetiredCount(slots[..i + 1]) == RetiredCount(slots[..i]) + (if Retires(slots[i]) then 1 else 0)
  {
    assert slots[..i + 1][..i] == slots[..i];
  }
}
