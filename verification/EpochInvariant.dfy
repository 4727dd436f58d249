/** What every reachable state of the interleaved epoch store satisfies. */
module EpochInvariant {
  import opened Basics
  import opened EpochTypes
  import opened HapticsMath
  import opened EpochSteps
  import opened EpochSystem

  // ----- meaning of slot contents ---------------------------------------------------------------

  /** Frames 512e .. 512e+511 of a generation's stream. */
  function EpochPart(stream: seq<Sample>, e: nat): (part: seq<Sample>)
    requires 512 * (e + 1) <= |stream|
    ensures |part| == 512
  {
    stream[512 * e..512 * (e + 1)]
  }

  ghost predicate PcmAt(pcm: seq<int>, sample: Sample, k: nat)
    requires |pcm| == PCM_LEN && k < USB_FRAMES
  {
    pcm[2 * k] == sample.frame.speakerLeft && pcm[2 * k + 1] == sample.frame.speakerRight
  }

  /** Haptics byte pair m holds the values of frame 16 m, left and right, at the gain of that frame. */
  ghost predicate HapticsAt(haptics: seq<Byte>, part: seq<Sample>, m: nat)
    requires |haptics| == HAPTICS_LEN && m < 32 && 16 * m < |part|
  {
    var x := part[16 * m];
    && IsHapticsValue(x.frame.hapticsLeft, x.gainQ8, Int8(haptics[2 * m]))
    && IsHapticsValue(x.frame.hapticsRight, x.gainQ8, Int8(haptics[2 * m + 1]))
  }

  ghost predicate IsPcmOf(pcm: seq<int>, part: seq<Sample>) {
    |pcm| == PCM_LEN && |part| == USB_FRAMES && forall k :: 0 <= k < USB_FRAMES ==> PcmAt(pcm, part[k], k)
  }

  ghost predicate IsHapticsOf(haptics: seq<Byte>, part: seq<Sample>) {
    |haptics| == HAPTICS_LEN && |part| == USB_FRAMES && forall m :: 0 <= m < 32 ==> HapticsAt(haptics, part, m)
  }

  function SampleMagnitude(x: Sample): nat {
    Max(Magnitude(ConvertHaptics(x.frame.hapticsLeft, x.gainQ8)),
        Magnitude(ConvertHaptics(x.frame.hapticsRight, x.gainQ8)))
  }

  /** Largest haptics magnitude among the decimated frames of the first n. */
  function Peak(part: seq<Sample>, n: nat): nat
    requires n <= |part|
  {
    if n == 0 then 0
    else if (n - 1) % HAPTICS_DECIMATION == 0 then Max(Peak(part, n - 1), SampleMagnitude(part[n - 1]))
    else Peak(part, n - 1)
  }

  /** The first n frames of `part` are in the slot. */
  ghost predicate Written(slot: Slot, part: seq<Sample>, n: nat)
    requires WellSized(slot) && n <= |part| && n <= USB_FRAMES
  {
    && (forall k :: 0 <= k < n ==> PcmAt(slot.speakerPcm, part[k], k))
    && (forall m :: 0 <= m < 32 && 16 * m < n ==> HapticsAt(slot.haptics, part, m))
    && slot.hapticsPeak == Peak(part, n)
    && slot.hapticsNonzero == (slot.hapticsPeak > 0)
  }

  lemma {:induction false} PeakOfPrefix(part: seq<Sample>, longer: seq<Sample>, n: nat)
    requires n <= |part| && part <= longer
    ensures Peak(part, n) == Peak(longer, n)
  {
    if n > 0 {
      PeakOfPrefix(part, longer, n - 1);
      assert part[n - 1] == longer[n - 1];
    }
  }

  lemma WrittenInLonger(slot: Slot, part: seq<Sample>, longer: seq<Sample>, n: nat)
    requires WellSized(slot) && n <= |part| && n <= USB_FRAMES && part <= longer
    requires Written(slot, part, n)
    ensures Written(slot, longer, n)
  {
    PeakOfPrefix(part, longer, n);
    forall m | 0 <= m < 32 && 16 * m < n
      ensures HapticsAt(slot.haptics, longer, m)
    {
      assert HapticsAt(slot.haptics, part, m);
      assert part[16 * m] == longer[16 * m];
    }
  }

  lemma WriteFrameWrites(slot: Slot, part: seq<Sample>, n: nat)
    requires WellSized(slot) && n < |part| && n < USB_FRAMES
    requires Written(slot, part, n)
    ensures Written(WriteFrame(slot, n, part[n]), part, n + 1)
  {
    WritesPcm(slot, part, n);
    WritesHaptics(slot, part, n);
    WritesPeak(slot, part, n);
    hide WriteFrame, Peak, PcmAt, HapticsAt;
  }

  lemma WritesPcm(slot: Slot, part: seq<Sample>, n: nat)
    requires WellSized(slot) && n < |part| && n < USB_FRAMES
    requires Written(slot, part, n)
    ensures forall k :: 0 <= k < n + 1 ==> PcmAt(WriteFrame(slot, n, part[n]).speakerPcm, part[k], k)
  {
    hide Peak, HapticsAt, ConvertHaptics;
    var r := WriteFrame(slot, n, part[n]);
    forall k | 0 <= k < n + 1
      ensures PcmAt(r.speakerPcm, part[k], k)
    {
      if k < n {
        assert PcmAt(slot.speakerPcm, part[k], k);
      }
    }
  }

  lemma WritesHaptics(slot: Slot, part: seq<Sample>, n: nat)
    requires WellSized(slot) && n < |part| && n < USB_FRAMES
    requires Written(slot, part, n)
    ensures forall m :: 0 <= m < 32 && 16 * m < n + 1 ==> HapticsAt(WriteFrame(slot, n, part[n]).haptics, part, m)
  {
    ConversionIsExact(part[n].frame.hapticsLeft, part[n].gainQ8);
    ConversionIsExact(part[n].frame.hapticsRight, part[n].gainQ8);
    hide Peak, PcmAt, ConvertHaptics, IsHapticsValue, AsByte, Int8, Magnitude;
    var r := WriteFrame(slot, n, part[n]);
    forall m | 0 <= m < 32 && 16 * m < n + 1
      ensures HapticsAt(r.haptics, part, m)
    {
      if 16 * m < n {
        assert HapticsAt(slot.haptics, part, m);
      }
    }
  }

  lemma WritesPeak(slot: Slot, part: seq<Sample>, n: nat)
    requires WellSized(slot) && n < |part| && n < USB_FRAMES
    requires Written(slot, part, n)
    ensures var r := WriteFrame(slot, n, part[n]);
            r.hapticsPeak == Peak(part, n + 1) && r.hapticsNonzero == (r.hapticsPeak > 0)
  {
    hide PcmAt, HapticsAt, ConvertHaptics;
  }

  // ----- the invariant --------------------------------------------------------------------------

  function NonFree(slots: seq<Slot>): nat {
    if |slots| == 0 then 0
    else NonFree(slots[..|slots| - 1]) + (if slots[|slots| - 1].state != Free then 1 else 0)
  }

  ghost predicate OpenedAs(slot: Slot, log: History) {
    var openings := OpeningsOf(log, slot.generation);
    && slot.epoch < |openings|
    && openings[slot.epoch] == Opening(slot.capturedUs, slot.speakerEnabled)
  }

  /** A filled slot holds exactly its part of its generation's stream. */
  ghost predicate Full(slot: Slot, log: History) {
    var stream := StreamOf(log, slot.generation);
    && WellSized(slot)
    && 512 * (slot.epoch + 1) <= |stream|
    && Written(slot, EpochPart(stream, slot.epoch), USB_FRAMES)
    && OpenedAs(slot, log)
  }

  ghost predicate Encoded(slot: Slot, log: History) {
    slot.speakerEnabled ==>
      && (slot.generation, slot.epoch) in log.opus
      && slot.speakerOpus == log.opus[(slot.generation, slot.epoch)]
  }

  ghost predicate EncoderOwns(enc: Encoder, i: nat) {
    !enc.EncIdle? && enc.slot == i
  }

  ghost predicate ReaderOwns(rdr: Reader, i: nat) {
    rdr.RdCopy? && (rdr.claim.first == i || rdr.claim.second == i)
  }

  ghost predicate SlotInv(s: System, slot: Slot, i: nat) {
    var g := s.store.stats.generation;
    && WellSized(slot)
    && (slot.state != Free ==>
          && slot.generation <= g
          && (slot.generation == g ==> slot.epoch < s.store.stats.nextEpoch))
    && match slot.state
       case Free => true
       case Filling =>
         slot.generation == g && s.store.filling == i && OpenedAs(slot, s.log)
         && (slot.generation, slot.epoch) !in s.log.opus
       case ReadyEncode =>
         slot.generation == g && slot.speakerEnabled && Full(slot, s.log)
         && (slot.generation, slot.epoch) !in s.log.opus
       case Encoding =>
         slot.generation == g && slot.speakerEnabled && Full(slot, s.log) && EncoderOwns(s.enc, i)
       case Complete => slot.generation == g && Full(slot, s.log) && Encoded(slot, s.log)
       case Reading =>
         slot.generation == g && Full(slot, s.log) && Encoded(slot, s.log) && ReaderOwns(s.rdr, i)
       case CancelledEncoding => slot.generation < g && EncoderOwns(s.enc, i)
       case CancelledReading => slot.generation < g && ReaderOwns(s.rdr, i)
  }

  ghost predicate SlotsInv(s: System) {
    && |s.store.slots| == SLOT_COUNT
    && forall i :: 0 <= i < SLOT_COUNT ==> SlotInv(s, s.store.slots[i], i)
  }

  ghost predicate Distinct(slots: seq<Slot>) {
    forall i, j :: 0 <= i < j < |slots| && slots[i].state != Free && slots[j].state != Free ==>
                     slots[i].generation != slots[j].generation || slots[i].epoch != slots[j].epoch
  }

  ghost predicate IngesterInv(s: System)
    requires |s.store.slots| == SLOT_COUNT
  {
    var g := s.store.stats.generation;
    match s.ing
    case IngIdle => true
    case IngLoop(call, frame) => frame <= |call.frames|
    case IngCopy(call, frame, sel, pcmFrame, frames, copied) =>
      && sel < SLOT_COUNT && copied <= frames && pcmFrame + frames <= USB_FRAMES
      && 0 < frames && frame + frames <= |call.frames|
      && call.generation <= g
      && (if call.generation == g then s.store.filling == sel else s.store.slots[sel].state == Free)
    case IngCommit(call, frame, sel, complete) =>
      && sel < SLOT_COUNT && frame <= |call.frames|
      && call.generation <= g
      && (if call.generation == g then s.store.filling == sel else s.store.slots[sel].state == Free)
  }

  // From `first` on, `part` is what the call's frames from `frame` on say.
  ghost predicate Upcoming(part: seq<Sample>, first: nat, call: Call, frame: nat) {
    forall k :: first <= k < |part| ==>
      && frame + (k - first) < |call.frames|
      && part[k] == Sample(call.frames[frame + (k - first)], call.gainQ8)
  }

  /** The filling slot holds the tail of the stream, up to the frame the copy loop has reached. */
  ghost predicate FillingInv(s: System)
    requires |s.store.slots| == SLOT_COUNT
  {
    var g := s.store.stats.generation;
    var stream := StreamOf(s.log, g);
    if s.store.filling == INVALID_SLOT then |stream| == 512 * s.store.stats.nextEpoch
    else
      && s.store.filling < SLOT_COUNT
      && var slot := s.store.slots[s.store.filling];
      && WellSized(slot)
      && slot.state == Filling && slot.generation == g && slot.epoch + 1 == s.store.stats.nextEpoch
      && 512 * slot.epoch <= |stream|
      && var part := stream[512 * slot.epoch..];
      if s.ing.IngCopy? && s.ing.call.generation == g then
        && slot.pcmFrames == s.ing.pcmFrame
        && |part| == s.ing.pcmFrame + s.ing.frames <= USB_FRAMES
        && s.ing.frame + s.ing.frames <= |s.ing.call.frames|
        && s.ing.copied <= s.ing.frames
        && Written(slot, part, s.ing.pcmFrame + s.ing.copied)
        && Upcoming(part, s.ing.pcmFrame, s.ing.call, s.ing.frame)
      else
        && |part| == slot.pcmFrames <= USB_FRAMES
        && Written(slot, part, slot.pcmFrames)
        && if s.ing.IngCommit? && s.ing.call.generation == g then
             s.ing.complete == (slot.pcmFrames == USB_FRAMES)
           else slot.pcmFrames < USB_FRAMES
  }

  ghost predicate EncoderInv(s: System)
    requires |s.store.slots| == SLOT_COUNT
  {
    s.enc.EncIdle? ||
    (&& s.enc.slot < SLOT_COUNT
     && var slot := s.store.slots[s.enc.slot];
     && WellSized(slot)
     && (slot.state == Encoding || slot.state == CancelledEncoding)
     && slot.generation == s.enc.generation && slot.epoch == s.enc.epoch
     && if s.enc.EncJob? then (s.enc.generation, s.enc.epoch) !in s.log.opus
        else
          && (s.enc.generation, s.enc.epoch) in s.log.opus
          && s.log.opus[(s.enc.generation, s.enc.epoch)] == s.enc.opus
          && |s.enc.opus| == OPUS_LEN && s.enc.copied <= OPUS_LEN
          && slot.speakerOpus[..s.enc.copied] == s.enc.opus[..s.enc.copied])
  }

  ghost predicate ReaderInv(s: System)
    requires |s.store.slots| == SLOT_COUNT
  {
    s.rdr.RdCopy? ==>
      && var c := s.rdr.claim;
      && c.first < SLOT_COUNT && c.second < SLOT_COUNT && c.first != c.second
      && var a := s.store.slots[c.first];
      && var b := s.store.slots[c.second];
      && WellSized(a) && WellSized(b)
      && (a.state == Reading || a.state == CancelledReading) && b.state == a.state
      && a.generation == c.generation && b.generation == c.generation
      && a.epoch == c.firstEpoch && b.epoch == c.firstEpoch + 1
      && a.capturedUs == c.firstCapturedUs && b.capturedUs == c.secondCapturedUs
      && a.speakerEnabled == c.speakerEnabled && b.speakerEnabled == c.speakerEnabled
      && s.rdr.buffer <= PairBytes(PairOf(s.store, c))
  }

  ghost predicate LogInv(s: System) {
    var g := s.store.stats.generation;
    && s.store.stats.nextEpoch <= UINT32_MAX
    && (forall h :: h in s.log.streams ==> h <= g)
    && (forall h :: h in s.log.openings ==> h <= g)
    && |OpeningsOf(s.log, g)| == s.store.stats.nextEpoch
    && (forall key: (nat, nat) :: key in s.log.opus ==>
          key.0 <= g && (key.0 == g ==> key.1 < s.store.stats.nextEpoch))
  }

  /** Conservation: every opened epoch was emitted, dropped, retired as stale, or still sits in a slot. */
  ghost predicate Conserved(s: System) {
    var t := s.store.stats;
    && t.epochsStarted == t.epochsEmitted + t.epochsDropped + t.epochsStale + NonFree(s.store.slots)
    && t.epochsEmitted == 2 * t.adjacentPairs
    && t.adjacentPairs == |s.log.emitted|
    && t.epochDiscontinuities == t.epochGaps + t.speakerStateDiscontinuities
    && t.epochDiscontinuities + t.encodeFailures <= t.epochsDropped
  }

  /** The bytes of an emitted pair are those of its two epochs. */
  ghost predicate PairFaithful(p: Pair, log: History) {
    var stream := StreamOf(log, p.generation);
    var openings := OpeningsOf(log, p.generation);
    var e := p.firstEpoch;
    && 512 * (e + 2) <= |stream| && e + 1 < |openings|
    && IsHapticsOf(p.firstHaptics, EpochPart(stream, e))
    && IsHapticsOf(p.secondHaptics, EpochPart(stream, e + 1))
    && openings[e] == Opening(p.firstCapturedUs, p.speakerEnabled)
    && openings[e + 1] == Opening(p.secondCapturedUs, p.speakerEnabled)
    && if p.speakerEnabled then
         && (p.generation, e) in log.opus && p.firstOpus == log.opus[(p.generation, e)]
         && (p.generation, e + 1) in log.opus && p.secondOpus == log.opus[(p.generation, e + 1)]
       else p.firstOpus == Repeat<Byte>(0, OPUS_LEN) && p.secondOpus == Repeat<Byte>(0, OPUS_LEN)
  }

  ghost predicate EmittedInv(log: History) {
    forall i :: 0 <= i < |log.emitted| ==> PairFaithful(log.emitted[i], log)
  }

  ghost predicate Inv(s: System) {
    && SlotsInv(s)
    && Distinct(s.store.slots)
    && IngesterInv(s)
    && FillingInv(s)
    && EncoderInv(s)
    && ReaderInv(s)
    && LogInv(s)
    && Conserved(s)
    && EmittedInv(s.log)
  }

  lemma InvIsRunnable(s: System)
    requires Inv(s)
    ensures Runnable(s)
  {
    if s.ing.IngCopy? {
      assert SlotInv(s, s.store.slots[s.ing.selected], s.ing.selected);
    }
  }

  lemma InitialInv(generation: nat)
    ensures Inv(Initial(generation))
  {
    AllFree(InitialStore(generation).slots);
  }

  lemma {:induction false} AllFree(slots: seq<Slot>)
    requires forall i :: 0 <= i < |slots| ==> slots[i].state == Free
    ensures NonFree(slots) == 0
  {
    if |slots| > 0 {
      AllFree(slots[..|slots| - 1]);
    }
  }

  // ----- counting -------------------------------------------------------------------------------

  function Occupies(slot: Slot): nat {
    if slot.state != Free then 1 else 0
  }

  lemma {:induction false} NonFreeUpdate(slots: seq<Slot>, i: nat, slot: Slot)
    requires i < |slots|
    ensures NonFree(slots[i := slot]) + Occupies(slots[i]) == NonFree(slots) + Occupies(slot)
  {
    var n := |slots| - 1;
    if i < n {
      assert slots[i := slot][..n] == slots[..n][i := slot];
      NonFreeUpdate(slots[..n], i, slot);
    } else {
      assert slots[i := slot][..n] == slots[..n];
    }
  }

  lemma {:induction false} ResetConserves(slots: seq<Slot>)
    ensures NonFree(CancelAll(slots)) + RetiredCount(slots) == NonFree(slots)
  {
    if |slots| > 0 {
      var n := |slots| - 1;
      ResetConserves(slots[..n]);
      assert CancelAll(slots)[..n] == CancelAll(slots[..n]);
    }
  }
}
