/**
 A whole, uninterrupted call of ingest: the source's chunked loop, a frame-at-a-time form, and the proof that
 they agree. Cutting the same bytes into packets differently therefore changes nothing but capture times.
 */
module EpochIngest {
  import opened Basics
  import opened EpochTypes
  import opened HapticsMath
  import opened EpochSteps
  import opened EpochSystem
  import opened EpochInvariant
  import opened EpochSafety

  // ----- bytes to frames ------------------------------------------------------------------------

  function FrameAt(data: seq<Byte>, k: nat): Frame
    requires 8 * k + 8 <= |data|
  {
    Frame(I16(data[8 * k], data[8 * k + 1]), I16(data[8 * k + 2], data[8 * k + 3]),
          I16(data[8 * k + 4], data[8 * k + 5]), I16(data[8 * k + 6], data[8 * k + 7]))
  }

  function FirstFrames(data: seq<Byte>, n: nat): (r: seq<Frame>)
    requires 8 * n <= |data|
    ensures |r| == n && forall k :: 0 <= k < n ==> r[k] == FrameAt(data, k)
  {
    if n == 0 then [] else FirstFrames(data, n - 1) + [FrameAt(data, n - 1)]
  }

  /** Trailing bytes short of a frame are ignored. */
  function UsbFrames(data: seq<Byte>): seq<Frame> {
    FirstFrames(data, |data| / USB_FRAME_BYTES)
  }

  lemma ShiftedFrame(a: seq<Byte>, b: seq<Byte>, n: nat, k: nat)
    requires |a| == 8 * n && k >= n && 8 * k + 8 <= |a + b|
    ensures FrameAt(a + b, k) == FrameAt(b, k - n)
  {
  }

  lemma FramesOfConcatenation(a: seq<Byte>, b: seq<Byte>)
    requires |a| % USB_FRAME_BYTES == 0
    ensures UsbFrames(a + b) == UsbFrames(a) + UsbFrames(b)
  {
    var n := |a| / USB_FRAME_BYTES;
    var whole := UsbFrames(a + b);
    var parts := UsbFrames(a) + UsbFrames(b);
    assert |whole| == |parts|;
    forall k | 0 <= k < |whole|
      ensures whole[k] == parts[k]
    {
      if k >= n {
        ShiftedFrame(a, b, n, k);
      }
    }
  }

  // A frame as the host sends it: four samples, low byte first, speaker before haptics and left before right.
  function FrameBytes(f: Frame): (r: seq<Byte>)
    ensures |r| == 8
  {
    [f.speakerLeft % 256, f.speakerLeft % 65536 / 256, f.speakerRight % 256, f.speakerRight % 65536 / 256,
     f.hapticsLeft % 256, f.hapticsLeft % 65536 / 256, f.hapticsRight % 256, f.hapticsRight % 65536 / 256]
  }

  function Packed(frames: seq<Frame>): (r: seq<Byte>)
    ensures |r| == 8 * |frames|
  {
    if frames == [] then [] else Packed(frames[..|frames| - 1]) + FrameBytes(frames[|frames| - 1])
  }

  lemma SampleRoundTrip(v: Int16)
    ensures I16(v % 256, v % 65536 / 256) == v
  {
    var u := v % 65536;
    assert u == if v >= 0 then v else v + 65536;
    assert v % 256 == u % 256;
  }

  lemma FrameRoundTrip(f: Frame)
    ensures UsbFrames(FrameBytes(f)) == [f]
  {
    SampleRoundTrip(f.speakerLeft);
    SampleRoundTrip(f.speakerRight);
    SampleRoundTrip(f.hapticsLeft);
    SampleRoundTrip(f.hapticsRight);
    hide I16;
    assert FrameAt(FrameBytes(f), 0) == f;
  }

  /** Reading a packet gives back the frames it was packed from, whatever partial frame follows. */
  lemma {:induction false} PacketRoundTrip(frames: seq<Frame>, rest: seq<Byte>)
    requires |rest| < USB_FRAME_BYTES
    ensures UsbFrames(Packed(frames) + rest) == frames
  {
    hide FrameBytes, FrameAt;
    FramesOfConcatenation(Packed(frames), rest);
    assert UsbFrames(rest) == [];
    if frames == [] {
      assert UsbFrames([]) == [];
    } else {
      var n := |frames| - 1;
      PacketRoundTrip(frames[..n], []);
      assert Packed(frames[..n]) + [] == Packed(frames[..n]);
      FramesOfConcatenation(Packed(frames[..n]), FrameBytes(frames[n]));
      FrameRoundTrip(frames[n]);
    }
  }

  // ----- the chunked loop -----------------------------------------------------------------------

  function WriteFrames(slot: Slot, dst: nat, samples: seq<Sample>): (r: Slot)
    requires WellSized(slot) && dst + |samples| <= USB_FRAMES
    ensures WellSized(r)
    ensures r == slot.(speakerPcm := r.speakerPcm, haptics := r.haptics,
                       hapticsPeak := r.hapticsPeak, hapticsNonzero := r.hapticsNonzero)
  {
    if |samples| == 0 then slot
    else
      var n := |samples| - 1;
      WriteFrame(WriteFrames(slot, dst, samples[..n]), dst + n, samples[n])
  }

  /** What the loop needs to run and to end: a slot being filled has room left. */
  ghost predicate IngestReady(st: Store) {
    && |st.slots| == SLOT_COUNT
    && (forall i :: 0 <= i < SLOT_COUNT ==> WellSized(st.slots[i]))
    && (st.filling == INVALID_SLOT ||
        (st.filling < SLOT_COUNT &&
         (st.slots[st.filling].state == Filling ==>
            && st.slots[st.filling].pcmFrames < USB_FRAMES
            && st.slots[st.filling].generation == st.stats.generation)))
  }

  ghost function CopyChunk(st: Store, sel: nat, pcmFrame: nat, samples: seq<Sample>): (r: Store)
    requires IngestReady(st) && sel < SLOT_COUNT && pcmFrame + |samples| <= USB_FRAMES
    ensures |r.slots| == SLOT_COUNT && forall i :: 0 <= i < SLOT_COUNT ==> WellSized(r.slots[i])
  {
    st.(slots := st.slots[sel :=
          WriteFrames(st.slots[sel], pcmFrame, samples).(pcmFrames := pcmFrame + |samples|)])
  }

  /** One round of the loop: both locked regions around the copy. */
  ghost function Round(st: Store, call: Call, frame: nat): (r: (Store, nat, bool))
    requires IngestReady(st) && frame < |call.frames|
    ensures IngestReady(r.0) && frame <= r.1 <= |call.frames|
    ensures r.2 ==> r.1 > frame || (st.filling != INVALID_SLOT && r.0.filling == INVALID_SLOT)
  {
    var r := ClaimChunk(st, call.generation, call.capturedUs, call.speakerEnabled, |call.frames| - frame);
    ClaimKeepsReady(st, call, |call.frames| - frame);
    match r.claim
    case Stop => (r.store, frame, false)
    case Retry => (r.store, frame, true)
    case Chunk(sel, pcmFrame, n) =>
      var done := CopyAndCommit(r.store, call, frame, n);
      (done.store, frame + n, done.more)
  }

  // The unlocked copy of n frames into the slot being filled, then the second locked region.
  ghost function CopyAndCommit(st: Store, call: Call, frame: nat, n: nat): (done: CommitResult)
    requires IngestReady(st) && st.filling < SLOT_COUNT && st.slots[st.filling].state == Filling
    requires call.generation == st.stats.generation && frame + n <= |call.frames|
    requires st.slots[st.filling].pcmFrames + n <= USB_FRAMES
    ensures done.more && IngestReady(done.store)
  {
    var pcmFrame := st.slots[st.filling].pcmFrames;
    var samples := Tag(call.frames[frame..frame + n], call.gainQ8);
    ChunkCommits(st, call.generation, samples);
    CommitChunk(CopyChunk(st, st.filling, pcmFrame, samples), call.generation, st.filling, pcmFrame + n == USB_FRAMES)
  }

  ghost function IngestLoop(st: Store, call: Call, frame: nat): (r: Store)
    requires IngestReady(st) && frame <= |call.frames|
    ensures IngestReady(r)
    decreases |call.frames| - frame, if st.filling == INVALID_SLOT then 0 else 1
  {
    if frame == |call.frames| then st
    else
      var (store, next, more) := Round(st, call, frame);
      if more then IngestLoop(store, call, next) else store
  }

  lemma ClaimKeepsReady(st: Store, call: Call, remaining: nat)
    requires IngestReady(st) && remaining > 0
    ensures var r := ClaimChunk(st, call.generation, call.capturedUs, call.speakerEnabled, remaining);
            && IngestReady(r.store)
            && (r.claim.Retry? ==> st.filling != INVALID_SLOT && r.store.filling == INVALID_SLOT)
            && (r.claim.Chunk? ==>
                  && 0 < r.claim.frames <= remaining && r.claim.pcmFrame + r.claim.frames <= USB_FRAMES
                  && call.generation == r.store.stats.generation
                  && r.claim.selected == r.store.filling < SLOT_COUNT
                  && r.store.slots[r.claim.selected].state == Filling
                  && r.store.slots[r.claim.selected].pcmFrames == r.claim.pcmFrame)
  {
    hide First, Oldest;
  }

  /** A copied chunk of the slot being filled commits, and leaves a store the loop can go on with. */
  lemma ChunkCommits(st: Store, generation: nat, samples: seq<Sample>)
    requires IngestReady(st) && st.filling < SLOT_COUNT && st.slots[st.filling].state == Filling
    requires generation == st.stats.generation
    requires st.slots[st.filling].pcmFrames + |samples| <= USB_FRAMES
    ensures var p := st.slots[st.filling].pcmFrames;
            var done := CommitChunk(CopyChunk(st, st.filling, p, samples), generation, st.filling,
                                    p + |samples| == USB_FRAMES);
            done.more && IngestReady(done.store)
  {
    hide WriteFrames;
  }

  ghost function IngestBytes(st: Store, data: seq<Byte>, generation: nat, capturedUs: nat, speakerEnabled: bool,
                             gainQ8: nat): (r: Store)
    requires IngestReady(st)
    ensures IngestReady(r)
  {
    if |data| < USB_FRAME_BYTES then st
    else IngestLoop(st, Call(UsbFrames(data), generation, capturedUs, speakerEnabled, gainQ8), 0)
  }

  // ----- one frame at a time --------------------------------------------------------------------

  // The store after one more frame in slot sel.
  function Pushed(st: Store, sel: nat, sample: Sample): Store
    requires sel < |st.slots| && WellSized(st.slots[sel]) && st.slots[sel].pcmFrames < USB_FRAMES
  {
    var n := st.slots[sel].pcmFrames;
    var slot := WriteFrame(st.slots[sel], n, sample).(pcmFrames := n + 1);
    var written := st.(slots := st.slots[sel := slot]);
    if n + 1 == USB_FRAMES then Filled(written, sel) else written
  }

  ghost function FrameStep(st: Store, call: Call, frame: Frame): (r: Store)
    requires IngestReady(st)
    ensures IngestReady(r)
  {
    if call.generation != st.stats.generation then st
    else
      var ready := if st.filling != INVALID_SLOT then st
                   else Allocate(st, call.capturedUs, call.speakerEnabled).store;
      assert IngestReady(ready) by { AllocateKeepsReady(st, call); }
      if ready.filling == INVALID_SLOT || ready.slots[ready.filling].state != Filling then ready
      else Pushed(ready, ready.filling, Sample(frame, call.gainQ8))
  }

  lemma AllocateKeepsReady(st: Store, call: Call)
    requires IngestReady(st)
    ensures st.filling == INVALID_SLOT ==>
              IngestReady(Allocate(st, call.capturedUs, call.speakerEnabled).store)
  {
    hide First, Oldest;
  }

  /** Every frame pushed on its own, in order. */
  ghost function FrameByFrame(st: Store, call: Call, frames: seq<Frame>): (r: Store)
    requires IngestReady(st)
    ensures IngestReady(r)
  {
    if |frames| == 0 then st
    else
      var n := |frames| - 1;
      FrameStep(FrameByFrame(st, call, frames[..n]), call, frames[n])
  }

  lemma {:induction false} FrameByFrameSplits(st: Store, call: Call, a: seq<Frame>, b: seq<Frame>)
    requires IngestReady(st)
    ensures FrameByFrame(st, call, a + b) == FrameByFrame(FrameByFrame(st, call, a), call, b)
    decreases |b|
  {
    hide FrameStep, IngestReady;
    if |b| == 0 {
      assert a + b == a;
    } else {
      var n := |b| - 1;
      assert (a + b)[..|a + b| - 1] == a + b[..n];
      FrameByFrameSplits(st, call, a, b[..n]);
    }
  }

  /**
   A store as reset and runs leave it: some slot is owned by no other task, and the slots that may be evicted
   carry epochs opened in the current generation, of which fewer than UINT32_MAX exist.
   */
  ghost predicate NeverFull(st: Store, more: nat) {
    && IngestReady(st)
    && (st.filling != INVALID_SLOT ==> st.slots[st.filling].state == Filling)
    && st.stats.nextEpoch + more <= UINT32_MAX
    && (exists i :: 0 <= i < SLOT_COUNT && Unclaimed(st.slots[i]))
    && (forall i :: 0 <= i < SLOT_COUNT && Matches(Evictable, st.slots[i]) ==>
          st.slots[i].epoch < st.stats.nextEpoch)
    && (forall i :: 0 <= i < SLOT_COUNT && st.slots[i].state == Filling ==>
          st.filling == i && st.slots[i].epoch < st.stats.nextEpoch)
  }

  predicate Unclaimed(slot: Slot) {
    slot.state in {Free, Filling, ReadyEncode, Complete}
  }

  lemma OpensWhenIdle(st: Store, call: Call, more: nat)
    requires NeverFull(st, more) && more > 0 && st.filling == INVALID_SLOT
    ensures var a := Allocate(st, call.capturedUs, call.speakerEnabled);
            && 0 <= a.selected < SLOT_COUNT
            && a.store.filling == a.selected
            && a.store.slots[a.selected].state == Filling
            && NeverFull(a.store, more - 1)
  {
    hide First, Oldest;
    var i :| 0 <= i < SLOT_COUNT && Unclaimed(st.slots[i]);
    assert Matches(AnyFree, st.slots[i]) || Matches(Evictable, st.slots[i]);
    var a := Allocate(st, call.capturedUs, call.speakerEnabled);
    assert Unclaimed(a.store.slots[a.selected]);
    forall j | 0 <= j < SLOT_COUNT && Matches(Evictable, a.store.slots[j])
      ensures a.store.slots[j].epoch < a.store.stats.nextEpoch
    {
      assert Matches(Evictable, st.slots[j]);
    }
  }

  lemma StepNeverFull(st: Store, call: Call, frame: Frame, more: nat)
    requires NeverFull(st, more) && more > 0
    ensures NeverFull(FrameStep(st, call, frame), more - 1)
  {
    if call.generation == st.stats.generation {
      hide First, Oldest, Allocate, WriteFrame;
      if st.filling == INVALID_SLOT {
        OpensWhenIdle(st, call, more);
      }
      var ready := if st.filling != INVALID_SLOT then st
                   else Allocate(st, call.capturedUs, call.speakerEnabled).store;
      assert NeverFull(ready, more - 1) by {
        var i :| 0 <= i < SLOT_COUNT && Unclaimed(ready.slots[i]);
      }
      WriteFrameKeeps(ready.slots[ready.filling], ready.slots[ready.filling].pcmFrames,
                      Sample(frame, call.gainQ8));
      assert Unclaimed(FrameStep(st, call, frame).slots[ready.filling]);
      forall j | 0 <= j < SLOT_COUNT && Matches(Evictable, FrameStep(st, call, frame).slots[j])
        ensures FrameStep(st, call, frame).slots[j].epoch < FrameStep(st, call, frame).stats.nextEpoch
      {
        assert j != ready.filling ==> Matches(Evictable, ready.slots[j]);
      }
    } else {
      var i :| 0 <= i < SLOT_COUNT && Unclaimed(st.slots[i]);
    }
  }

  lemma NeverFullIsReady(st: Store, more: nat)
    requires NeverFull(st, more)
    ensures IngestReady(st)
  {
  }

  lemma {:induction false} FramesNeverFull(st: Store, call: Call, frames: seq<Frame>, more: nat)
    requires NeverFull(st, more) && more >= |frames|
    ensures NeverFull(FrameByFrame(st, call, frames), more - |frames|)
  {
    if |frames| > 0 {
      hide NeverFull, FrameStep;
      var n := |frames| - 1;
      FramesNeverFull(st, call, frames[..n], more);
      NeverFullIsReady(st, more);
      StepNeverFull(FrameByFrame(st, call, frames[..n]), call, frames[n], more - n);
    }
  }

  lemma {:induction false} MismatchedFrames(st: Store, call: Call, frames: seq<Frame>)
    requires IngestReady(st) && call.generation != st.stats.generation
    ensures FrameByFrame(st, call, frames) == st
  {
    if |frames| > 0 {
      MismatchedFrames(st, call, frames[..|frames| - 1]);
    }
  }

  ghost predicate Open(st: Store, call: Call) {
    && IngestReady(st) && st.filling != INVALID_SLOT && st.slots[st.filling].state == Filling
    && call.generation == st.stats.generation
  }

  /** What claiming, copying and committing a chunk leaves. */
  ghost function ChunkDone(st: Store, call: Call, frames: seq<Frame>): Store
    requires Open(st, call) && st.slots[st.filling].pcmFrames + |frames| <= USB_FRAMES
  {
    var p := st.slots[st.filling].pcmFrames;
    var copied := CopyChunk(st, st.filling, p, Tag(frames, call.gainQ8));
    if p + |frames| == USB_FRAMES then Filled(copied, st.filling) else copied
  }

  lemma CopyOneMore(st: Store, call: Call, frames: seq<Frame>)
    requires Open(st, call) && |frames| > 0
    requires st.slots[st.filling].pcmFrames + |frames| <= USB_FRAMES
    ensures var p := st.slots[st.filling].pcmFrames;
            var n := |frames| - 1;
            var before := CopyChunk(st, st.filling, p, Tag(frames[..n], call.gainQ8));
            && Open(before, call)
            && FrameStep(before, call, frames[n]) == ChunkDone(st, call, frames)
  {
    hide WriteFrames, WriteFrame, Allocate, Filled, FrameStep;
    var sel := st.filling;
    var p := st.slots[sel].pcmFrames;
    var n := |frames| - 1;
    var samples := Tag(frames, call.gainQ8);
    assert samples[..n] == Tag(frames[..n], call.gainQ8) && samples[n] == Sample(frames[n], call.gainQ8);
    var before := CopyChunk(st, sel, p, samples[..n]);
    assert before.slots[sel].pcmFrames == p + n;
    assert Open(before, call);
    ChunkGrows(st, sel, p, samples);
    StepInOpenSlot(before, call, frames[n]);
    hide Tag, CopyChunk, IngestReady;
  }

  lemma ChunkGrows(st: Store, sel: nat, p: nat, samples: seq<Sample>)
    requires IngestReady(st) && sel < SLOT_COUNT && p + |samples| <= USB_FRAMES && |samples| > 0
    ensures var n := |samples| - 1;
            var before := CopyChunk(st, sel, p, samples[..n]);
            && WellSized(before.slots[sel])
            && var next := WriteFrame(before.slots[sel], p + n, samples[n]).(pcmFrames := p + n + 1);
            CopyChunk(st, sel, p, samples) == before.(slots := before.slots[sel := next])
  {
    var n := |samples| - 1;
    var x := WriteFrames(st.slots[sel], p, samples[..n]);
    WriteFramesStep(st.slots[sel], p, samples);
    WriteFrameIgnoresCount(x, p + n, samples[n]);
    hide WriteFrames, WriteFrame, IngestReady;
  }

  lemma WriteFramesStep(slot: Slot, dst: nat, samples: seq<Sample>)
    requires WellSized(slot) && dst + |samples| <= USB_FRAMES && |samples| > 0
    ensures var n := |samples| - 1;
            WriteFrames(slot, dst, samples) == WriteFrame(WriteFrames(slot, dst, samples[..n]), dst + n, samples[n])
  {
    hide WriteFrame;
  }

  lemma WriteFrameIgnoresCount(slot: Slot, dst: nat, sample: Sample)
    requires WellSized(slot) && dst < USB_FRAMES
    ensures WriteFrame(slot.(pcmFrames := dst), dst, sample) == WriteFrame(slot, dst, sample).(pcmFrames := dst)
  {
  }

  lemma StepInOpenSlot(st: Store, call: Call, frame: Frame)
    requires Open(st, call)
    ensures var n := st.slots[st.filling].pcmFrames;
            var slot := WriteFrame(st.slots[st.filling], n, Sample(frame, call.gainQ8)).(pcmFrames := n + 1);
            var written := st.(slots := st.slots[st.filling := slot]);
            FrameStep(st, call, frame) == if n + 1 == USB_FRAMES then Filled(written, st.filling) else written
  {
  }

  /** Frames that do not complete the epoch leave what copying them in one go leaves. */
  lemma {:induction false} PartialChunk(st: Store, call: Call, frames: seq<Frame>)
    requires Open(st, call)
    requires st.slots[st.filling].pcmFrames + |frames| < USB_FRAMES
    ensures FrameByFrame(st, call, frames) ==
            CopyChunk(st, st.filling, st.slots[st.filling].pcmFrames, Tag(frames, call.gainQ8))
  {
    var sel := st.filling;
    if |frames| == 0 {
      assert st.slots[sel := st.slots[sel]] == st.slots;
    } else {
      hide WriteFrame, Allocate, FrameStep, CopyChunk;
      PartialChunk(st, call, frames[..|frames| - 1]);
      CopyOneMore(st, call, frames);
    }
  }

  /** A chunk is its frames, one by one. */
  lemma ChunkIsFrames(st: Store, call: Call, frames: seq<Frame>)
    requires Open(st, call) && st.slots[st.filling].pcmFrames + |frames| <= USB_FRAMES
    ensures FrameByFrame(st, call, frames) == ChunkDone(st, call, frames)
  {
    if st.slots[st.filling].pcmFrames + |frames| < USB_FRAMES {
      PartialChunk(st, call, frames);
    } else {
      hide WriteFrame, Allocate, FrameStep, CopyChunk, Filled;
      PartialChunk(st, call, frames[..|frames| - 1]);
      CopyOneMore(st, call, frames);
    }
  }

  /** Opening the epoch first changes nothing: the first frame would have opened it. */
  lemma {:induction false} FirstFrameOpens(st: Store, call: Call, frames: seq<Frame>)
    requires IngestReady(st) && st.filling == INVALID_SLOT && |frames| > 0
    requires call.generation == st.stats.generation
    requires var a := Allocate(st, call.capturedUs, call.speakerEnabled); a.selected >= 0 && Open(a.store, call)
    ensures FrameByFrame(st, call, frames) ==
            FrameByFrame(Allocate(st, call.capturedUs, call.speakerEnabled).store, call, frames)
  {
    hide WriteFrame, Allocate, Open;
    var n := |frames| - 1;
    var start := Allocate(st, call.capturedUs, call.speakerEnabled).store;
    if n == 0 {
      assert frames[..0] == [];
      OpeningStep(st, call, frames[0]);
    } else {
      FirstFrameOpens(st, call, frames[..n]);
    }
  }

  lemma OpeningStep(st: Store, call: Call, frame: Frame)
    requires IngestReady(st) && st.filling == INVALID_SLOT && call.generation == st.stats.generation
    requires var a := Allocate(st, call.capturedUs, call.speakerEnabled); a.selected >= 0 && Open(a.store, call)
    ensures FrameStep(st, call, frame) ==
            FrameStep(Allocate(st, call.capturedUs, call.speakerEnabled).store, call, frame)
  {
    hide WriteFrame, First, Oldest;
  }

  /** The chunked loop computes the frame-at-a-time result. */
  lemma {:induction false} LoopIsFrameByFrame(st: Store, call: Call, frame: nat, more: nat)
    requires NeverFull(st, more) && frame <= |call.frames| && more >= |call.frames| - frame
    ensures IngestLoop(st, call, frame) == FrameByFrame(st, call, call.frames[frame..])
    decreases |call.frames| - frame, 1
  {
    var rest := call.frames[frame..];
    if frame < |call.frames| {
      if call.generation != st.stats.generation {
        MismatchedFrames(st, call, rest);
      } else {
        hide WriteFrame, WriteFrames, First, Oldest;
        if st.filling == INVALID_SLOT {
          OpensWhenIdle(st, call, more);
          FirstFrameOpens(st, call, rest);
          LoopOpens(st, call, frame);
          OpenLoopIsFrameByFrame(Allocate(st, call.capturedUs, call.speakerEnabled).store, call, frame, more - 1);
        } else {
          OpenLoopIsFrameByFrame(st, call, frame, more);
        }
      }
    }
  }

  lemma LoopOpens(st: Store, call: Call, frame: nat)
    requires IngestReady(st) && st.filling == INVALID_SLOT && frame < |call.frames|
    requires call.generation == st.stats.generation
    requires var a := Allocate(st, call.capturedUs, call.speakerEnabled); a.selected >= 0 && Open(a.store, call)
    ensures IngestLoop(st, call, frame) ==
            IngestLoop(Allocate(st, call.capturedUs, call.speakerEnabled).store, call, frame)
  {
    var start := Allocate(st, call.capturedUs, call.speakerEnabled).store;
    hide WriteFrames, First, Oldest, CopyChunk, CommitChunk, Tag, IngestLoop;
    assert Round(st, call, frame) == Round(start, call, frame);
    LoopIsRound(st, call, frame);
    LoopIsRound(start, call, frame);
  }

  lemma LoopIsRound(st: Store, call: Call, frame: nat)
    requires IngestReady(st) && frame < |call.frames|
    ensures var (store, next, more) := Round(st, call, frame);
            IngestLoop(st, call, frame) == if more then IngestLoop(store, call, next) else store
  {
    hide Round, IngestReady;
  }

  function ChunkSize(st: Store, call: Call, frame: nat): (n: nat)
    requires st.filling < |st.slots| && st.slots[st.filling].pcmFrames < USB_FRAMES && frame < |call.frames|
    ensures 0 < n <= |call.frames| - frame && st.slots[st.filling].pcmFrames + n <= USB_FRAMES
  {
    var room := USB_FRAMES - st.slots[st.filling].pcmFrames;
    if |call.frames| - frame > room then room else |call.frames| - frame
  }

  lemma {:induction false} OpenLoopIsFrameByFrame(st: Store, call: Call, frame: nat, more: nat)
    requires NeverFull(st, more) && Open(st, call)
    requires frame < |call.frames| && more + 1 >= |call.frames| - frame
    ensures IngestLoop(st, call, frame) == FrameByFrame(st, call, call.frames[frame..])
    decreases |call.frames| - frame, 0
  {
    hide IngestLoop, FrameByFrame, ChunkDone, NeverFull, ChunkSize;
    var n := ChunkSize(st, call, frame);
    var head := call.frames[frame..frame + n];
    ChunkIsFrames(st, call, head);
    LoopTakesChunk(st, call, frame);
    ChunkNeverFull(st, call, head, more);
    OpenLoopTail(st, call, frame, n, ChunkDone(st, call, head), more);
  }

  lemma {:induction false} OpenLoopTail(st: Store, call: Call, frame: nat, n: nat, done: Store, more: nat)
    requires IngestReady(st) && NeverFull(done, more)
    requires 0 < n && frame + n <= |call.frames| && more >= |call.frames| - (frame + n)
    requires IngestLoop(st, call, frame) == IngestLoop(done, call, frame + n)
    requires FrameByFrame(st, call, call.frames[frame..frame + n]) == done
    ensures IngestLoop(st, call, frame) == FrameByFrame(st, call, call.frames[frame..])
    decreases |call.frames| - (frame + n), 2
  {
    hide NeverFull, IngestLoop, FrameByFrame, IngestReady;
    var head := call.frames[frame..frame + n];
    assert call.frames[frame..] == head + call.frames[frame + n..];
    FrameByFrameSplits(st, call, head, call.frames[frame + n..]);
    LoopIsFrameByFrame(done, call, frame + n, more);
  }

  lemma ChunkNeverFull(st: Store, call: Call, frames: seq<Frame>, more: nat)
    requires NeverFull(st, more) && Open(st, call)
    requires st.slots[st.filling].pcmFrames + |frames| <= USB_FRAMES
    ensures NeverFull(ChunkDone(st, call, frames), more)
  {
    hide WriteFrames, Tag;
    var t := ChunkDone(st, call, frames);
    assert Unclaimed(t.slots[st.filling]);
    forall j | 0 <= j < SLOT_COUNT && Matches(Evictable, t.slots[j])
      ensures t.slots[j].epoch < t.stats.nextEpoch
    {
      assert j != st.filling ==> Matches(Evictable, st.slots[j]);
    }
  }

  lemma LoopTakesChunk(st: Store, call: Call, frame: nat)
    requires Open(st, call) && frame < |call.frames|
    ensures var n := ChunkSize(st, call, frame);
            var done := ChunkDone(st, call, call.frames[frame..frame + n]);
            IngestReady(done) && IngestLoop(st, call, frame) == IngestLoop(done, call, frame + n)
  {
    hide Round, IngestLoop, ChunkDone, ChunkSize;
    RoundTakesChunk(st, call, frame);
    LoopIsRound(st, call, frame);
    hide Open, IngestReady;
  }

  lemma RoundTakesChunk(st: Store, call: Call, frame: nat)
    requires Open(st, call) && frame < |call.frames|
    ensures var n := ChunkSize(st, call, frame);
            Round(st, call, frame) == (ChunkDone(st, call, call.frames[frame..frame + n]), frame + n, true)
  {
    hide WriteFrames, First, Oldest, Tag, Allocate;
  }

  // ----- packetisation --------------------------------------------------------------------------

  predicate SameSlotButTime(a: Slot, b: Slot) {
    a == b.(capturedUs := a.capturedUs)
  }

  predicate SameButTimes(a: Store, b: Store) {
    && a.filling == b.filling && a.stats == b.stats && |a.slots| == |b.slots|
    && forall i :: 0 <= i < |a.slots| ==> SameSlotButTime(a.slots[i], b.slots[i])
  }

  lemma ScansIgnoreTimes(a: seq<Slot>, b: seq<Slot>, w: Wanted)
    requires |a| == |b| && forall i :: 0 <= i < |a| ==> SameSlotButTime(a[i], b[i])
    ensures First(a, w) == First(b, w) && Oldest(a, w) == Oldest(b, w)
  {
    hide First, Oldest;
    forall i | 0 <= i < |a|
      ensures Matches(w, a[i]) == Matches(w, b[i]) && a[i].epoch == b[i].epoch
    {
      assert SameSlotButTime(a[i], b[i]);
    }
    hide Matches, SameSlotButTime;
    var p, q := Oldest(a, w), Oldest(b, w);
    assert p >= 0 ==> Matches(w, b[p]);
    assert q >= 0 ==> Matches(w, a[q]);
    var f, g := First(a, w), First(b, w);
    assert f >= 0 ==> Matches(w, b[f]);
    assert g >= 0 ==> Matches(w, a[g]);
  }

  predicate SameCallButTime(c: Call, d: Call) {
    c.generation == d.generation && c.speakerEnabled == d.speakerEnabled && c.gainQ8 == d.gainQ8
  }

  lemma ClaimedIgnoresTimes(a: Store, b: Store, c: Call, d: Call, sel: nat)
    requires SameButTimes(a, b) && SameCallButTime(c, d) && sel < |a.slots|
    ensures SameSlotButTime(Claimed(a, sel, c.capturedUs, c.speakerEnabled), Claimed(b, sel, d.capturedUs, d.speakerEnabled))
  {
    assert SameSlotButTime(a.slots[sel], b.slots[sel]);
  }

  lemma PutIgnoresTimes(a: Store, b: Store, sel: nat, x: Slot, y: Slot, filling: nat, stats: Stats)
    requires SameButTimes(a, b) && sel < |a.slots| && SameSlotButTime(x, y)
    ensures SameButTimes(Store(a.slots[sel := x], filling, stats), Store(b.slots[sel := y], filling, stats))
  {
    hide SameSlotButTime;
  }

  lemma AllocateIgnoresTimes(a: Store, b: Store, c: Call, d: Call)
    requires SameButTimes(a, b) && SameCallButTime(c, d)
    ensures SameButTimes(Allocate(a, c.capturedUs, c.speakerEnabled).store,
                         Allocate(b, d.capturedUs, d.speakerEnabled).store)
  {
    ScansIgnoreTimes(a.slots, b.slots, AnyFree);
    ScansIgnoreTimes(a.slots, b.slots, Evictable);
    hide First, Oldest, Claimed, SameSlotButTime, Matches, OpeningStats;
    var x := Allocate(a, c.capturedUs, c.speakerEnabled);
    var sel := x.selected;
    if sel >= 0 {
      ClaimedIgnoresTimes(a, b, c, d, sel);
      PutIgnoresTimes(a, b, sel, Claimed(a, sel, c.capturedUs, c.speakerEnabled),
                      Claimed(b, sel, d.capturedUs, d.speakerEnabled), sel, x.store.stats);
    }
  }

  lemma WriteFrameIgnoresTime(a: Slot, b: Slot, dst: nat, sample: Sample)
    requires WellSized(a) && WellSized(b) && SameSlotButTime(a, b) && dst < USB_FRAMES
    ensures SameSlotButTime(WriteFrame(a, dst, sample), WriteFrame(b, dst, sample))
  {
  }

  lemma StepIgnoresTimes(a: Store, b: Store, c: Call, d: Call, frame: Frame)
    requires IngestReady(a) && IngestReady(b) && SameButTimes(a, b) && SameCallButTime(c, d)
    ensures SameButTimes(FrameStep(a, c, frame), FrameStep(b, d, frame))
  {
    if c.generation == a.stats.generation {
      AllocateKeepsReady(a, c);
      AllocateKeepsReady(b, d);
      AllocateIgnoresTimes(a, b, c, d);
      hide WriteFrame, Allocate;
      var readyA := if a.filling != INVALID_SLOT then a else Allocate(a, c.capturedUs, c.speakerEnabled).store;
      var readyB := if b.filling != INVALID_SLOT then b else Allocate(b, d.capturedUs, d.speakerEnabled).store;
      if readyA.filling != INVALID_SLOT && readyA.slots[readyA.filling].state == Filling {
        PushIgnoresTimes(readyA, readyB, readyA.filling, Sample(frame, c.gainQ8));
      }
    }
  }

  lemma PushIgnoresTimes(a: Store, b: Store, sel: nat, sample: Sample)
    requires SameButTimes(a, b) && sel < |a.slots| && WellSized(a.slots[sel]) && WellSized(b.slots[sel])
    requires a.slots[sel].pcmFrames < USB_FRAMES && b.slots[sel].pcmFrames < USB_FRAMES
    ensures SameButTimes(Pushed(a, sel, sample), Pushed(b, sel, sample))
  {
    hide WriteFrame;
    assert SameSlotButTime(a.slots[sel], b.slots[sel]);
    WriteFrameIgnoresTime(a.slots[sel], b.slots[sel], a.slots[sel].pcmFrames, sample);
  }

  lemma {:induction false} FramesIgnoreTimes(a: Store, b: Store, c: Call, d: Call, frames: seq<Frame>)
    requires IngestReady(a) && IngestReady(b) && SameButTimes(a, b) && SameCallButTime(c, d)
    ensures SameButTimes(FrameByFrame(a, c, frames), FrameByFrame(b, d, frames))
  {
    if |frames| > 0 {
      hide SameButTimes, FrameStep, IngestReady;
      var n := |frames| - 1;
      FramesIgnoreTimes(a, b, c, d, frames[..n]);
      StepIgnoresTimes(FrameByFrame(a, c, frames[..n]), FrameByFrame(b, d, frames[..n]), c, d, frames[n]);
    }
  }

  /** Ingesting bytes is pushing their frames one by one. */
  lemma BytesAreFrames(st: Store, data: seq<Byte>, call: Call, more: nat)
    requires NeverFull(st, more) && more >= |data| / USB_FRAME_BYTES
    ensures IngestBytes(st, data, call.generation, call.capturedUs, call.speakerEnabled, call.gainQ8) ==
            FrameByFrame(st, call, UsbFrames(data))
  {
    NeverFullIsReady(st, more);
    hide NeverFull, IngestLoop, FrameStep, FirstFrames;
    if |data| >= USB_FRAME_BYTES {
      var c := call.(frames := UsbFrames(data));
      LoopIsFrameByFrame(st, c, 0, more);
      assert c.frames[0..] == c.frames;
      FramesIgnoreCallFrames(st, c, call, c.frames);
    }
  }

  lemma {:induction false} FramesIgnoreCallFrames(st: Store, c: Call, d: Call, frames: seq<Frame>)
    requires IngestReady(st) && c == d.(frames := c.frames)
    ensures FrameByFrame(st, c, frames) == FrameByFrame(st, d, frames)
  {
    hide FrameStep, IngestReady;
    if |frames| > 0 {
      var n := |frames| - 1;
      FramesIgnoreCallFrames(st, c, d, frames[..n]);
      StepIgnoresCallFrames(FrameByFrame(st, c, frames[..n]), c, d, frames[n]);
    }
  }

  lemma StepIgnoresCallFrames(st: Store, c: Call, d: Call, frame: Frame)
    requires IngestReady(st) && c == d.(frames := c.frames)
    ensures FrameStep(st, c, frame) == FrameStep(st, d, frame)
  {
    hide WriteFrame, Allocate;
  }

  /**
   Packetisation independence: cutting a byte string after a whole number of frames and ingesting the two
   pieces leaves the same slots and the same counters as ingesting it at once, capture times aside.
   */
  lemma PacketisationIndependence(st: Store, a: seq<Byte>, b: seq<Byte>, first: Call, second: Call, whole: Call)
    requires NeverFull(st, (|a| + |b|) / USB_FRAME_BYTES) && |a| % USB_FRAME_BYTES == 0
    requires SameCallButTime(first, whole) && SameCallButTime(second, whole)
    ensures var g := whole.generation;
            var on := whole.speakerEnabled;
            var gain := whole.gainQ8;
            var afterA := IngestBytes(st, a, g, first.capturedUs, on, gain);
            SameButTimes(IngestBytes(afterA, b, g, second.capturedUs, on, gain),
                         IngestBytes(st, a + b, g, whole.capturedUs, on, gain))
  {
    var na := |a| / USB_FRAME_BYTES;
    var nb := |b| / USB_FRAME_BYTES;
    assert (|a| + |b|) / USB_FRAME_BYTES == na + nb;
    hide NeverFull, FrameStep, FrameByFrame, FirstFrames, IngestBytes, SameButTimes;
    BytesAreFrames(st, a, first, na + nb);
    var afterA := FrameByFrame(st, first, UsbFrames(a));
    FramesNeverFull(st, first, UsbFrames(a), na + nb);
    BytesAreFrames(afterA, b, second, nb);
    BytesAreFrames(st, a + b, whole, na + nb);
    FramesOfConcatenation(a, b);
    FrameByFrameSplits(st, whole, UsbFrames(a), UsbFrames(b));
    SameStoreSameTimes(st);
    FramesIgnoreTimes(st, st, first, whole, UsbFrames(a));
    FramesIgnoreTimes(afterA, FrameByFrame(st, whole, UsbFrames(a)), second, whole, UsbFrames(b));
  }

  lemma SameStoreSameTimes(st: Store)
    ensures SameButTimes(st, st)
  {
  }

  /** Between ingest calls every reachable store is one packetisation independence applies to. */
  lemma IdleStoreIsNeverFull(s: System, more: nat)
    requires Inv(s) && s.ing.IngIdle? && s.store.stats.nextEpoch + more <= UINT32_MAX
    ensures NeverFull(s.store, more)
  {
    hide EmittedInv, NonFree, Written, Full, Encoded, PairOf, PairBytes, LogInv, Conserved, Distinct;
    forall i | 0 <= i < SLOT_COUNT
      ensures SlotInv(s, s.store.slots[i], i)
    {
    }
    var i := Unowned(s.enc, s.rdr);
    assert Unclaimed(s.store.slots[i]);
  }
}
