/** Every transition keeps the invariant, so every run does. */
module EpochSafety {
  import opened Basics
  import opened EpochTypes
  import opened EpochSteps
  import opened EpochSystem
  import opened EpochInvariant

  // ----- framing --------------------------------------------------------------------------------

  /** The meaning of a filled slot does not depend on its state or on its Opus bytes. */
  lemma FullIgnoresState(a: Slot, b: Slot, log: History)
    requires Full(a, log) && WellSized(b)
    requires b == a.(state := b.state, speakerOpus := b.speakerOpus)
    ensures Full(b, log)
  {
    var part := EpochPart(StreamOf(log, a.generation), a.epoch);
    hide Peak, HapticsAt;
    assert Written(b, part, USB_FRAMES) by {
      forall k | 0 <= k < USB_FRAMES
        ensures PcmAt(b.speakerPcm, part[k], k)
      {
        assert PcmAt(a.speakerPcm, part[k], k);
      }
    }
  }

  ghost predicate Untouched(s: System, t: System, i: nat)
    requires |s.store.slots| == |t.store.slots| == SLOT_COUNT && i < SLOT_COUNT
  {
    && t.store.slots[i] == s.store.slots[i]
    && (s.store.filling == i ==> t.store.filling == i)
    && (EncoderOwns(s.enc, i) ==> EncoderOwns(t.enc, i))
    && (ReaderOwns(s.rdr, i) ==> ReaderOwns(t.rdr, i))
  }

  /** Streams and openings only grow at the end, and a submitted Opus packet is never replaced. */
  ghost predicate LogExtends(a: History, b: History) {
    && (forall g :: StreamOf(a, g) <= StreamOf(b, g))
    && (forall g :: OpeningsOf(a, g) <= OpeningsOf(b, g))
    && (forall key :: key in a.opus ==> key in b.opus && b.opus[key] == a.opus[key])
  }

  lemma PartExtends(a: History, b: History, g: nat, e: nat)
    requires LogExtends(a, b) && 512 * (e + 1) <= |StreamOf(a, g)|
    ensures 512 * (e + 1) <= |StreamOf(b, g)|
    ensures EpochPart(StreamOf(b, g), e) == EpochPart(StreamOf(a, g), e)
  {
    assert StreamOf(a, g) <= StreamOf(b, g);
  }

  lemma FullExtends(slot: Slot, a: History, b: History)
    requires LogExtends(a, b) && Full(slot, a)
    ensures Full(slot, b)
  {
    hide Written, EpochPart;
    PartExtends(a, b, slot.generation, slot.epoch);
    assert OpeningsOf(a, slot.generation) <= OpeningsOf(b, slot.generation);
  }

  lemma PairFaithfulExtends(p: Pair, a: History, b: History)
    requires LogExtends(a, b) && PairFaithful(p, a)
    ensures PairFaithful(p, b)
  {
    hide IsHapticsOf, EpochPart, Repeat;
    PartExtends(a, b, p.generation, p.firstEpoch);
    PartExtends(a, b, p.generation, p.firstEpoch + 1);
    assert OpeningsOf(a, p.generation) <= OpeningsOf(b, p.generation);
  }

  lemma EmittedExtends(a: History, b: History)
    requires LogExtends(a, b) && EmittedInv(a) && b.emitted == a.emitted
    ensures EmittedInv(b)
  {
    hide PairFaithful;
    forall i | 0 <= i < |b.emitted|
      ensures PairFaithful(b.emitted[i], b)
    {
      PairFaithfulExtends(a.emitted[i], a, b);
    }
  }

  ghost predicate AwaitsOpus(slot: Slot) {
    slot.state == Filling || slot.state == ReadyEncode
  }

  /** A step that keeps the generation leaves the invariant of every slot it did not touch. */
  lemma SlotsCarryOver(s: System, t: System, touched: set<nat>)
    requires SlotsInv(s) && |t.store.slots| == SLOT_COUNT && LogExtends(s.log, t.log)
    requires t.store.stats.generation == s.store.stats.generation
    requires t.store.stats.nextEpoch >= s.store.stats.nextEpoch
    requires forall i: nat :: i < SLOT_COUNT ==>
               if i in touched then SlotInv(t, t.store.slots[i], i)
               else
                 && Untouched(s, t, i)
                 && (AwaitsOpus(s.store.slots[i]) ==>
                      (s.store.slots[i].generation, s.store.slots[i].epoch) !in t.log.opus)
    ensures SlotsInv(t)
  {
    forall i: nat | i < SLOT_COUNT
      ensures SlotInv(t, t.store.slots[i], i)
    {
      if i !in touched {
        assert Untouched(s, t, i);
        SlotCarries(s, t, i);
      }
    }
  }

  /** The same for a step that leaves the log alone. */
  lemma SlotsCarry(s: System, t: System, touched: set<nat>)
    requires SlotsInv(s) && |t.store.slots| == SLOT_COUNT && t.log == s.log
    requires t.store.stats.generation == s.store.stats.generation
    requires t.store.stats.nextEpoch == s.store.stats.nextEpoch
    requires forall i: nat :: i < SLOT_COUNT ==>
               if i in touched then SlotInv(t, t.store.slots[i], i) else Untouched(s, t, i)
    ensures SlotsInv(t)
  {
    hide Full, Encoded, OpenedAs;
    forall i: nat | i < SLOT_COUNT && i !in touched
      ensures AwaitsOpus(s.store.slots[i]) ==>
                (s.store.slots[i].generation, s.store.slots[i].epoch) !in t.log.opus
    {
      assert SlotInv(s, s.store.slots[i], i);
    }
    hide SlotInv, Untouched;
    SlotsCarryOver(s, t, touched);
  }

  lemma SlotCarries(s: System, t: System, i: nat)
    requires |s.store.slots| == |t.store.slots| == SLOT_COUNT && i < SLOT_COUNT && LogExtends(s.log, t.log)
    requires t.store.stats.generation == s.store.stats.generation
    requires t.store.stats.nextEpoch >= s.store.stats.nextEpoch
    requires SlotInv(s, s.store.slots[i], i) && Untouched(s, t, i)
    requires AwaitsOpus(s.store.slots[i]) ==>
               (s.store.slots[i].generation, s.store.slots[i].epoch) !in t.log.opus
    ensures SlotInv(t, t.store.slots[i], i)
  {
    hide Full;
    var slot := s.store.slots[i];
    if Full(slot, s.log) {
      FullExtends(slot, s.log, t.log);
    }
    assert OpeningsOf(s.log, slot.generation) <= OpeningsOf(t.log, slot.generation);
  }

  /** Encoder and reader steps touch no Free and no Filling slot, so the ingest side does not notice them. */
  lemma IngestSideCarries(s: System, t: System)
    requires |s.store.slots| == |t.store.slots| == SLOT_COUNT
    requires IngesterInv(s) && FillingInv(s)
    requires t.ing == s.ing && t.store.filling == s.store.filling
    requires t.store.stats.generation == s.store.stats.generation
    requires StreamOf(t.log, t.store.stats.generation) == StreamOf(s.log, s.store.stats.generation)
    requires t.store.stats.nextEpoch == s.store.stats.nextEpoch
    requires forall i :: 0 <= i < SLOT_COUNT && (s.store.slots[i].state == Free || s.store.slots[i].state == Filling)
                         ==> t.store.slots[i] == s.store.slots[i]
    ensures IngesterInv(t) && FillingInv(t)
  {
    hide Written, Upcoming;
  }

  /** Slots that keep their key, or are freed, stay distinct. */
  lemma DistinctCarries(a: seq<Slot>, b: seq<Slot>)
    requires Distinct(a) && |a| == |b|
    requires forall i :: 0 <= i < |a| && b[i].state != Free ==>
               a[i].state != Free && a[i].generation == b[i].generation && a[i].epoch == b[i].epoch
    ensures Distinct(b)
  {
  }

  // Every part of the invariant for one step, proved part by part.
  lemma PartsMakeInv(t: System)
    requires SlotsInv(t) && Distinct(t.store.slots)
    requires IngesterInv(t) && FillingInv(t) && EncoderInv(t) && ReaderInv(t)
    requires LogInv(t) && Conserved(t) && EmittedInv(t.log)
    ensures Inv(t)
  {
  }

  // ----- ingest ---------------------------------------------------------------------------------

  lemma EnterKeepsInv(s: System, call: Call)
    requires Inv(s)
    ensures Inv(EnterNext(s, call))
  {
    if s.ing.IngIdle? {
      OutsideCopyKeepsInv(s, IngLoop(call, 0));
    }
  }

  predicate OutsideCopy(ing: Ingester) {
    ing.IngIdle? || (ing.IngLoop? && ing.frame <= |ing.call.frames|)
  }

  // Between chunks the ingester may start, stop or go on without the store noticing.
  lemma OutsideCopyKeepsInv(s: System, ing: Ingester)
    requires Inv(s) && OutsideCopy(s.ing) && OutsideCopy(ing)
    ensures Inv(s.(ing := ing))
  {
    OutsideCopyTasks(s, ing);
    OutsideCopySlots(s, ing);
    hide *;
    PartsMakeInv(s.(ing := ing));
  }

  lemma OutsideCopyTasks(s: System, ing: Ingester)
    requires Inv(s) && OutsideCopy(s.ing) && OutsideCopy(ing)
    ensures var t := s.(ing := ing);
            |t.store.slots| == SLOT_COUNT && IngesterInv(t) && FillingInv(t) && EncoderInv(t) && ReaderInv(t)
  {
    hide SlotInv, Written, Upcoming, EmittedInv, Conserved, LogInv, Distinct, PairOf, PairBytes;
  }

  lemma OutsideCopySlots(s: System, ing: Ingester)
    requires Inv(s)
    ensures var t := s.(ing := ing);
            SlotsInv(t) && Distinct(t.store.slots) && Conserved(t) && LogInv(t) && EmittedInv(t.log)
  {
    hide Full, Encoded, OpenedAs, EmittedInv, IngesterInv, FillingInv, EncoderInv, ReaderInv;
    SlotsCarry(s, s.(ing := ing), {});
  }

  lemma CopyFrameKeepsInv(s: System)
    requires Inv(s) && Runnable(s)
    ensures Inv(CopyFrameNext(s))
  {
    if s.ing.IngCopy? && s.ing.copied < s.ing.frames {
      CopyFrameFills(s);
      CopyFrameSlots(s);
      CopyFrameTasks(s);
      hide *;
      PartsMakeInv(CopyFrameNext(s));
    }
  }

  lemma CopyFrameSlots(s: System)
    requires Inv(s) && Runnable(s) && s.ing.IngCopy? && s.ing.copied < s.ing.frames
    ensures var t := CopyFrameNext(s);
            SlotsInv(t) && Distinct(t.store.slots) && Conserved(t) && LogInv(t) && EmittedInv(t.log)
  {
    var t := CopyFrameNext(s);
    var sel := s.ing.selected;
    var slot := s.store.slots[sel];
    WriteFrameKeeps(slot, s.ing.pcmFrame + s.ing.copied,
                    Sample(s.ing.call.frames[s.ing.frame + s.ing.copied], s.ing.call.gainQ8));
    hide Full, Encoded, EmittedInv, NonFree, WriteFrame, FillingInv, EncoderInv, ReaderInv, PairBytes, PairOf;
    assert SlotInv(s, slot, sel);
    NonFreeUpdate(s.store.slots, sel, t.store.slots[sel]);
    DistinctCarries(s.store.slots, t.store.slots);
    SlotsCarry(s, t, {sel});
  }

  lemma CopyFrameTasks(s: System)
    requires Inv(s) && Runnable(s) && s.ing.IngCopy? && s.ing.copied < s.ing.frames
    ensures var t := CopyFrameNext(s);
            |t.store.slots| == SLOT_COUNT && IngesterInv(t) && EncoderInv(t) && ReaderInv(t)
  {
    var t := CopyFrameNext(s);
    var sel := s.ing.selected;
    var slot := s.store.slots[sel];
    WriteFrameKeeps(slot, s.ing.pcmFrame + s.ing.copied,
                    Sample(s.ing.call.frames[s.ing.frame + s.ing.copied], s.ing.call.gainQ8));
    CopiedSlotIsUnowned(s);
    hide SlotsInv, FillingInv, EmittedInv, Conserved, LogInv, Distinct, WriteFrame;
    assert forall i :: 0 <= i < SLOT_COUNT && i != sel ==> t.store.slots[i] == s.store.slots[i];
  }

  // The slot being copied into is filling or was freed by a reset, so neither encoder nor reader holds it.
  lemma CopiedSlotIsUnowned(s: System)
    requires Inv(s) && s.ing.IngCopy?
    ensures s.ing.selected < SLOT_COUNT == |s.store.slots|
    ensures s.store.slots[s.ing.selected].state == Filling || s.store.slots[s.ing.selected].state == Free
    ensures !EncoderOwns(s.enc, s.ing.selected) && !ReaderOwns(s.rdr, s.ing.selected)
  {
    hide Full, Encoded, EmittedInv, Conserved, LogInv, Distinct, Written;
    assert SlotInv(s, s.store.slots[s.ing.selected], s.ing.selected);
  }

  lemma WriteFrameKeeps(slot: Slot, dst: nat, sample: Sample)
    requires WellSized(slot) && dst < USB_FRAMES
    ensures var r := WriteFrame(slot, dst, sample);
            r == slot.(speakerPcm := r.speakerPcm, haptics := r.haptics,
                       hapticsPeak := r.hapticsPeak, hapticsNonzero := r.hapticsNonzero)
  {
  }

  lemma CopyFrameFills(s: System)
    requires Inv(s) && Runnable(s) && s.ing.IngCopy? && s.ing.copied < s.ing.frames
    ensures FillingInv(CopyFrameNext(s))
  {
    if s.ing.call.generation == s.store.stats.generation {
      ActiveCopyFills(s);
    } else {
      StaleCopyLeavesFilling(s);
    }
  }

  // What the write does to the filling slot: one more frame of the stream's tail.
  lemma ActiveWrite(s: System)
    requires FillingSlotInv(s) && s.ing.IngCopy? && s.ing.copied < s.ing.frames
    requires s.ing.call.generation == s.store.stats.generation && s.store.filling == s.ing.selected
    ensures var slot := s.store.slots[s.ing.selected];
            var n := s.ing.pcmFrame + s.ing.copied;
            var stream := StreamOf(s.log, slot.generation);
            var sample := Sample(s.ing.call.frames[s.ing.frame + s.ing.copied], s.ing.call.gainQ8);
            && n < USB_FRAMES && 512 * slot.epoch <= |stream| && n < |stream[512 * slot.epoch..]|
            && stream[512 * slot.epoch..][n] == sample
            && Written(WriteFrame(slot, n, sample), stream[512 * slot.epoch..], n + 1)
            && WellSized(WriteFrame(slot, n, sample))
  {
    var slot := s.store.slots[s.ing.selected];
    var n := s.ing.pcmFrame + s.ing.copied;
    var part := StreamOf(s.log, slot.generation)[512 * slot.epoch..];
    hide WriteFrame, Written;
    assert part[n] == Sample(s.ing.call.frames[s.ing.frame + (n - s.ing.pcmFrame)], s.ing.call.gainQ8);
    WriteFrameWrites(slot, part, n);
  }

  ghost predicate FillingSlotInv(s: System) {
    |s.store.slots| == SLOT_COUNT && FillingInv(s) && s.store.filling < SLOT_COUNT
  }

  lemma ActiveCopyFills(s: System)
    requires Inv(s) && Runnable(s) && s.ing.IngCopy? && s.ing.copied < s.ing.frames
    requires s.ing.call.generation == s.store.stats.generation
    ensures FillingInv(CopyFrameNext(s))
  {
    assert s.store.filling == s.ing.selected && FillingSlotInv(s);
    hide Inv, FillingInv, ReadReady, ChunkReady, WriteFrame, Written, StreamOf;
    ActiveWrite(s);
    var n := s.ing.pcmFrame + s.ing.copied;
    var sample := Sample(s.ing.call.frames[s.ing.frame + s.ing.copied], s.ing.call.gainQ8);
    var slot := s.store.slots[s.ing.selected];
    WriteFrameKeeps(slot, n, sample);
    FilledByOne(s, CopyFrameNext(s), WriteFrame(slot, n, sample));
  }

  // The filling slot and the copy position move on together by one frame.
  lemma FilledByOne(s: System, t: System, slot: Slot)
    requires FillingSlotInv(s) && s.ing.IngCopy? && s.ing.copied < s.ing.frames
    requires s.ing.call.generation == s.store.stats.generation && s.store.filling == s.ing.selected
    requires var sel := s.ing.selected;
             && t.store == s.store.(slots := s.store.slots[sel := slot])
             && t.ing == s.ing.(copied := s.ing.copied + 1) && t.log == s.log
             && slot == s.store.slots[sel].(speakerPcm := slot.speakerPcm, haptics := slot.haptics,
                                            hapticsPeak := slot.hapticsPeak, hapticsNonzero := slot.hapticsNonzero)
    requires var stream := StreamOf(s.log, slot.generation);
             && WellSized(slot) && 512 * slot.epoch <= |stream|
             && s.ing.pcmFrame + s.ing.copied < USB_FRAMES && s.ing.pcmFrame + s.ing.copied < |stream[512 * slot.epoch..]|
             && Written(slot, stream[512 * slot.epoch..], s.ing.pcmFrame + s.ing.copied + 1)
    ensures |t.store.slots| == SLOT_COUNT && FillingInv(t)
  {
    hide Written, Upcoming, StreamOf;
  }

  lemma StaleCopyLeavesFilling(s: System)
    requires Inv(s) && Runnable(s) && s.ing.IngCopy? && s.ing.copied < s.ing.frames
    requires s.ing.call.generation != s.store.stats.generation
    ensures FillingInv(CopyFrameNext(s))
  {
    hide SlotsInv, Distinct, EncoderInv, ReaderInv, LogInv, Conserved, EmittedInv, ReadReady, WriteFrame, Written;
    if s.store.filling != INVALID_SLOT {
      assert s.store.filling != s.ing.selected;
    }
  }

  lemma StoreCountKeepsInv(s: System)
    requires Inv(s) && Runnable(s)
    ensures Inv(StoreCountNext(s))
  {
    if s.ing.IngCopy? && s.ing.copied >= s.ing.frames {
      StoreCountSlots(s);
      StoreCountTasks(s);
      hide *;
      PartsMakeInv(StoreCountNext(s));
    }
  }

  lemma CountedSlotInv(s: System)
    requires Inv(s) && Runnable(s) && s.ing.IngCopy? && s.ing.copied >= s.ing.frames
    ensures var t := StoreCountNext(s);
            var slot := s.store.slots[s.ing.selected];
            && t.store.slots == s.store.slots[s.ing.selected := slot.(pcmFrames := s.ing.pcmFrame + s.ing.frames)]
            && SlotInv(t, t.store.slots[s.ing.selected], s.ing.selected)
  {
    CopiedSlotIsUnowned(s);
    hide Full, Encoded, EmittedInv, NonFree, PairBytes, PairOf, FillingInv, EncoderInv, ReaderInv, Distinct, Conserved, LogInv;
    assert SlotInv(s, s.store.slots[s.ing.selected], s.ing.selected);
  }

  lemma StoreCountSlots(s: System)
    requires Inv(s) && Runnable(s) && s.ing.IngCopy? && s.ing.copied >= s.ing.frames
    ensures var t := StoreCountNext(s);
            SlotsInv(t) && Distinct(t.store.slots) && Conserved(t) && LogInv(t) && EmittedInv(t.log)
  {
    CountedSlotInv(s);
    hide EmittedInv, NonFree, PairBytes, PairOf, FillingInv, EncoderInv, ReaderInv, Distinct, SlotInv;
    var t := StoreCountNext(s);
    var sel := s.ing.selected;
    DistinctCarries(s.store.slots, t.store.slots);
    NonFreeUpdate(s.store.slots, sel, t.store.slots[sel]);
    SlotsCarry(s, t, {sel});
  }

  lemma StoreCountTasks(s: System)
    requires Inv(s) && Runnable(s) && s.ing.IngCopy? && s.ing.copied >= s.ing.frames
    ensures var t := StoreCountNext(s);
            |t.store.slots| == SLOT_COUNT && IngesterInv(t) && FillingInv(t) && EncoderInv(t) && ReaderInv(t)
  {
    CopiedSlotIsUnowned(s);
    hide SlotsInv, EmittedInv, Conserved, LogInv, Distinct, Peak, HapticsAt, PcmAt;
    var t := StoreCountNext(s);
    assert forall i :: 0 <= i < SLOT_COUNT && i != s.ing.selected ==> t.store.slots[i] == s.store.slots[i];
  }

  lemma CommitKeepsInv(s: System)
    requires Inv(s) && Runnable(s)
    ensures Inv(CommitNext(s))
  {
    if s.ing.IngCommit? {
      CommitSlots(s);
      CommitTasks(s);
      hide *;
      PartsMakeInv(CommitNext(s));
    }
  }

  ghost predicate Completes(s: System) {
    s.ing.IngCommit? && s.ing.call.generation == s.store.stats.generation && s.ing.complete
  }

  lemma CommitSlots(s: System)
    requires Inv(s) && s.ing.IngCommit? && s.ing.selected < |s.store.slots|
    ensures var t := CommitNext(s);
            SlotsInv(t) && Distinct(t.store.slots) && Conserved(t) && LogInv(t) && EmittedInv(t.log)
  {
    if Completes(s) {
      CompletedSlots(s);
    } else {
      hide Full, Encoded, Written, EmittedInv, NonFree, IngesterInv, FillingInv, EncoderInv, ReaderInv, EpochPart;
      var t := CommitNext(s);
      assert t.store == s.store;
      SlotsCarry(s, t, {});
    }
  }

  lemma CompletedSlots(s: System)
    requires Inv(s) && Completes(s) && s.ing.selected < |s.store.slots|
    ensures var t := CommitNext(s);
            SlotsInv(t) && Distinct(t.store.slots) && Conserved(t) && LogInv(t) && EmittedInv(t.log)
  {
    FilledIsFull(s);
    FilledSlot(s);
    hide Full, Encoded, Written, EmittedInv, NonFree, IngesterInv, FillingInv, EncoderInv, ReaderInv, EpochPart;
    var t := CommitNext(s);
    var sel := s.ing.selected;
    NonFreeUpdate(s.store.slots, sel, t.store.slots[sel]);
    DistinctCarries(s.store.slots, t.store.slots);
    SlotsCarry(s, t, {sel});
  }

  lemma FilledSlot(s: System)
    requires Inv(s) && Completes(s) && s.ing.selected < |s.store.slots|
    requires Full(Filled(s.store, s.ing.selected).slots[s.ing.selected], s.log)
    ensures var t := CommitNext(s);
            var sel := s.ing.selected;
            && |t.store.slots| == |s.store.slots|
            && SlotInv(t, t.store.slots[sel], sel)
            && t.store.slots == s.store.slots[sel := t.store.slots[sel]]
            && s.store.slots[sel].state == Filling && t.store.slots[sel].state != Free
            && t.store.slots[sel].generation == s.store.slots[sel].generation
            && t.store.slots[sel].epoch == s.store.slots[sel].epoch
  {
    hide Full, Written, EmittedInv, Conserved, LogInv, EncoderInv, ReaderInv, Distinct, EpochPart;
    assert SlotInv(s, s.store.slots[s.ing.selected], s.ing.selected);
  }

  lemma CommitTasks(s: System)
    requires Inv(s) && s.ing.IngCommit? && s.ing.selected < |s.store.slots|
    ensures var t := CommitNext(s);
            |t.store.slots| == SLOT_COUNT && IngesterInv(t) && FillingInv(t) && EncoderInv(t) && ReaderInv(t)
  {
    if Completes(s) {
      FilledIsFull(s);
      CompletedFilling(s);
      CompletedOwners(s);
      hide *;
    } else {
      UncommittedFilling(s);
      UncommittedOthers(s);
      hide *;
    }
  }

  lemma UncommittedFilling(s: System)
    requires Inv(s) && s.ing.IngCommit? && s.ing.selected < |s.store.slots| && !Completes(s)
    ensures |CommitNext(s).store.slots| == SLOT_COUNT && FillingInv(CommitNext(s))
  {
    StoreKept(s);
    hide Written, EmittedInv, Conserved, LogInv, Distinct, SlotInv, EncoderInv, ReaderInv, CommitChunk;
  }

  lemma UncommittedOthers(s: System)
    requires Inv(s) && s.ing.IngCommit? && s.ing.selected < |s.store.slots| && !Completes(s)
    ensures var t := CommitNext(s);
            |t.store.slots| == SLOT_COUNT && IngesterInv(t) && EncoderInv(t) && ReaderInv(t)
  {
    StoreKept(s);
    hide FillingInv, EmittedInv, Conserved, LogInv, Distinct, SlotInv, CommitChunk, PairBytes, PairOf;
  }

  lemma StoreKept(s: System)
    requires s.ing.IngCommit? && s.ing.selected < |s.store.slots| && !Completes(s)
    ensures CommitChunk(s.store, s.ing.call.generation, s.ing.selected, s.ing.complete).store == s.store
  {
  }

  lemma CompletedFilling(s: System)
    requires Inv(s) && Completes(s) && s.ing.selected < |s.store.slots|
    requires |StreamOf(s.log, s.store.stats.generation)| == 512 * s.store.stats.nextEpoch
    ensures var t := CommitNext(s);
            |t.store.slots| == SLOT_COUNT && IngesterInv(t) && FillingInv(t)
  {
    CompletedWasFilling(s);
    hide FillingInv, SlotInv, EmittedInv, Conserved, LogInv, Distinct, EncoderInv, ReaderInv;
    var t := CommitNext(s);
    NothingFilling(t);
  }

  lemma NothingFilling(t: System)
    requires |t.store.slots| == SLOT_COUNT && t.store.filling == INVALID_SLOT
    requires |StreamOf(t.log, t.store.stats.generation)| == 512 * t.store.stats.nextEpoch
    ensures FillingInv(t)
  {
  }

  // The slot that was completed belonged to neither the encoder nor the reader.
  lemma CompletedOwners(s: System)
    requires Inv(s) && Completes(s) && s.ing.selected < |s.store.slots|
    ensures var t := CommitNext(s);
            |t.store.slots| == SLOT_COUNT && EncoderInv(t) && ReaderInv(t)
  {
    var sel := s.ing.selected;
    assert s.store.slots[sel].state == Filling by { CompletedWasFilling(s); }
    hide FillingInv, IngesterInv, SlotInv, EmittedInv, Conserved, LogInv, Distinct;
  }

  lemma CompletedWasFilling(s: System)
    requires Inv(s) && Completes(s) && s.ing.selected < |s.store.slots|
    ensures s.store.slots[s.ing.selected].state == Filling && s.store.filling == s.ing.selected
    ensures s.store.slots[s.ing.selected].generation == s.ing.call.generation
  {
    hide SlotInv, EmittedInv, Conserved, LogInv, Distinct, EncoderInv, ReaderInv, Written;
  }

  lemma FilledIsFull(s: System)
    requires Inv(s) && s.ing.IngCommit? && s.ing.complete
    requires s.ing.call.generation == s.store.stats.generation
    ensures var slot := Filled(s.store, s.ing.selected).slots[s.ing.selected];
            Full(slot, s.log)
    ensures |StreamOf(s.log, s.store.stats.generation)| == 512 * s.store.stats.nextEpoch
  {
    hide EmittedInv, NonFree, PairBytes, Peak, HapticsAt, PcmAt;
    var slot := s.store.slots[s.ing.selected];
    var stream := StreamOf(s.log, slot.generation);
    assert SlotInv(s, slot, s.ing.selected);
    assert stream[512 * slot.epoch..] == EpochPart(stream, slot.epoch);
    assert Full(slot, s.log);
    FullIgnoresState(slot, Filled(s.store, s.ing.selected).slots[s.ing.selected], s.log);
  }

  // ----- encoder --------------------------------------------------------------------------------

  lemma TakeJobKeepsInv(s: System)
    requires Inv(s)
    ensures Inv(TakeJobNext(s))
  {
    hide EmittedInv, NonFree, PairBytes, Written, Full, Encoded, Oldest;
    var t := TakeJobNext(s);
    var job := TakeJob(s.store).1;
    if s.enc.EncIdle? && job.Some? {
      var sel := job.value.slot;
      var slot := s.store.slots[sel];
      assert SlotInv(s, slot, sel);
      FullIgnoresState(slot, t.store.slots[sel], s.log);
      NonFreeUpdate(s.store.slots, sel, t.store.slots[sel]);
      SlotsCarry(s, t, {sel});
    } else {
      SlotsCarry(s, t, {});
    }
  }

  lemma CopyOpusKeepsInv(s: System)
    requires Inv(s) && Runnable(s)
    ensures Inv(CopyOpusNext(s))
  {
    if s.enc.EncCopy? && s.enc.copied < OPUS_LEN {
      CopyOpusSlots(s);
      CopyOpusTasks(s);
      hide *;
      PartsMakeInv(CopyOpusNext(s));
    }
  }

  lemma CopyOpusSlots(s: System)
    requires Inv(s) && Runnable(s) && s.enc.EncCopy? && s.enc.copied < OPUS_LEN
    ensures var t := CopyOpusNext(s);
            SlotsInv(t) && Distinct(t.store.slots) && Conserved(t) && LogInv(t) && EmittedInv(t.log)
  {
    hide EmittedInv, NonFree, PairBytes, PairOf, Full, Encoded, FillingInv, IngesterInv, ReaderInv, Distinct;
    var t := CopyOpusNext(s);
    var sel := s.enc.slot;
    var slot := s.store.slots[sel];
    assert SlotInv(s, slot, sel);
    if slot.state == Encoding {
      FullIgnoresState(slot, t.store.slots[sel], s.log);
    }
    DistinctCarries(s.store.slots, t.store.slots);
    NonFreeUpdate(s.store.slots, sel, t.store.slots[sel]);
    SlotsCarry(s, t, {sel});
  }

  lemma CopyOpusTasks(s: System)
    requires Inv(s) && Runnable(s) && s.enc.EncCopy? && s.enc.copied < OPUS_LEN
    ensures var t := CopyOpusNext(s);
            |t.store.slots| == SLOT_COUNT && IngesterInv(t) && FillingInv(t) && EncoderInv(t) && ReaderInv(t)
  {
    hide EmittedInv, Conserved, PairBytes, Full, Encoded, FillingInv, IngesterInv, Distinct, LogInv;
    var t := CopyOpusNext(s);
    var sel := s.enc.slot;
    assert SlotInv(s, s.store.slots[sel], sel);
    IngestSideCarries(s, t);
    var k := s.enc.copied;
    assert t.store.slots[sel].speakerOpus[..k + 1] == s.store.slots[sel].speakerOpus[..k] + [s.enc.opus[k]];
    assert s.enc.opus[..k + 1] == s.enc.opus[..k] + [s.enc.opus[k]];
  }

  lemma EncodedSlotInv(s: System)
    requires Inv(s) && s.enc.EncCopy? && s.enc.copied >= OPUS_LEN
    ensures var t := EndEncodeNext(s);
            SlotInv(t, t.store.slots[s.enc.slot], s.enc.slot)
  {
    hide EmittedInv, NonFree, Written, Full, FillingInv, IngesterInv, ReaderInv, Conserved, Distinct;
    var t := EndEncodeNext(s);
    var slot := s.store.slots[s.enc.slot];
    assert SlotInv(s, slot, s.enc.slot);
    assert slot.speakerOpus == slot.speakerOpus[..OPUS_LEN];
    assert s.enc.opus == s.enc.opus[..OPUS_LEN];
    if slot.state == Encoding {
      FullIgnoresState(slot, t.store.slots[s.enc.slot], s.log);
    }
  }

  lemma EndEncodeKeepsInv(s: System)
    requires Inv(s) && Runnable(s)
    ensures Inv(EndEncodeNext(s))
  {
    if s.enc.EncCopy? && s.enc.copied >= OPUS_LEN {
      EndEncodeSlots(s);
      EndEncodeTasks(s);
      hide *;
      PartsMakeInv(EndEncodeNext(s));
    }
  }

  lemma EndEncodeSlots(s: System)
    requires Inv(s) && s.enc.EncCopy? && s.enc.copied >= OPUS_LEN
    ensures var t := EndEncodeNext(s);
            SlotsInv(t) && Distinct(t.store.slots) && Conserved(t) && LogInv(t) && EmittedInv(t.log)
  {
    EncodedSlotInv(s);
    hide EmittedInv, NonFree, PairBytes, PairOf, Full, Encoded, FillingInv, IngesterInv, ReaderInv, Distinct;
    var t := EndEncodeNext(s);
    var sel := s.enc.slot;
    var slot := s.store.slots[sel];
    assert SlotInv(s, slot, sel);
    assert t.store.slots == s.store.slots[sel := slot.(state := t.store.slots[sel].state)];
    DistinctCarries(s.store.slots, t.store.slots);
    NonFreeUpdate(s.store.slots, sel, t.store.slots[sel]);
    SlotsCarry(s, t, {sel});
  }

  lemma EndEncodeTasks(s: System)
    requires Inv(s) && s.enc.EncCopy? && s.enc.copied >= OPUS_LEN
    ensures var t := EndEncodeNext(s);
            |t.store.slots| == SLOT_COUNT && IngesterInv(t) && FillingInv(t) && EncoderInv(t) && ReaderInv(t)
  {
    hide EmittedInv, Conserved, PairBytes, Full, Encoded, FillingInv, IngesterInv, Distinct, LogInv;
    var t := EndEncodeNext(s);
    var sel := s.enc.slot;
    assert SlotInv(s, s.store.slots[sel], sel);
    IngestSideCarries(s, t);
  }

  /** The key of the job the encoder holds finds the job's own slot, whatever happened since. */
  lemma KeyFindsJob(s: System)
    requires Inv(s) && !s.enc.EncIdle?
    ensures First(s.store.slots, Keyed(s.enc.generation, s.enc.epoch)) == s.enc.slot
  {
    hide EmittedInv, NonFree, PairBytes, Written, Full, Encoded;
    assert Matches(Keyed(s.enc.generation, s.enc.epoch), s.store.slots[s.enc.slot]);
  }

  ghost predicate Refused(s: System, bytes: Option<seq<Byte>>) {
    s.enc.EncJob?
    && BeginEncode(s.store, s.enc.generation, s.enc.epoch, bytes.Some? && |bytes.value| == OPUS_LEN).1.None?
  }

  lemma RefusedSubmitKeepsInv(s: System, bytes: Option<seq<Byte>>)
    requires Inv(s) && Refused(s, bytes)
    ensures Inv(SubmitNext(s, bytes))
  {
    RefusedSubmitSlots(s, bytes);
    RefusedSubmitTasks(s, bytes);
    hide *;
    PartsMakeInv(SubmitNext(s, bytes));
  }

  lemma RefusedSubmitSlots(s: System, bytes: Option<seq<Byte>>)
    requires Inv(s) && Refused(s, bytes)
    ensures var t := SubmitNext(s, bytes);
            SlotsInv(t) && Distinct(t.store.slots) && Conserved(t) && LogInv(t) && EmittedInv(t.log)
  {
    KeyFindsJob(s);
    hide EmittedInv, NonFree, PairBytes, Full, Encoded, FillingInv, IngesterInv, ReaderInv, Distinct, First;
    var t := SubmitNext(s, bytes);
    var sel := s.enc.slot;
    assert SlotInv(s, s.store.slots[sel], sel);
    assert t.store.slots == s.store.slots[sel := s.store.slots[sel].(state := Free)];
    DistinctCarries(s.store.slots, t.store.slots);
    NonFreeUpdate(s.store.slots, sel, t.store.slots[sel]);
    SlotsCarry(s, t, {sel});
  }

  lemma RefusedSubmitTasks(s: System, bytes: Option<seq<Byte>>)
    requires Inv(s) && Refused(s, bytes)
    ensures var t := SubmitNext(s, bytes);
            |t.store.slots| == SLOT_COUNT && IngesterInv(t) && FillingInv(t) && EncoderInv(t) && ReaderInv(t)
  {
    KeyFindsJob(s);
    hide EmittedInv, Conserved, LogInv, Full, Encoded, FillingInv, IngesterInv, Distinct, First;
    var t := SubmitNext(s, bytes);
    var sel := s.enc.slot;
    assert SlotInv(s, s.store.slots[sel], sel);
    assert t.store.slots == s.store.slots[sel := s.store.slots[sel].(state := Free)];
    IngestSideCarries(s, t);
  }

  // ----- reader ---------------------------------------------------------------------------------

  lemma SameButReader(s: System, t: System)
    requires Inv(s) && t == s.(rdr := t.rdr)
    ensures FillingInv(t) && IngesterInv(t) && EncoderInv(t) && Conserved(t) && LogInv(t)
  {
    hide EmittedInv, NonFree, Written, SlotInv, Distinct;
  }

  lemma CopyPairKeepsInv(s: System)
    requires Inv(s) && Runnable(s)
    ensures Inv(CopyPairNext(s))
  {
    hide EmittedInv, NonFree, PairBytes, PairOf, FillingInv, IngesterInv, EncoderInv, SlotInv, Distinct, Conserved;
    var t := CopyPairNext(s);
    if t != s {
      assert FillingInv(t) && IngesterInv(t) && EncoderInv(t) && Conserved(t) by {
        SameButReader(s, t);
      }
      SlotsCarry(s, t, {});
      var view := PairBytes(PairOf(s.store, s.rdr.claim));
      var n := |s.rdr.buffer|;
      assert view[..n + 1] == view[..n] + [view[n]];
    }
  }

  lemma BeginPairKeepsInv(s: System)
    requires Inv(s)
    ensures Inv(BeginPairNext(s))
  {
    hide EmittedInv, NonFree, PairBytes, Full, FillingInv, IngesterInv, Distinct, Oldest, First;
    var t := BeginPairNext(s);
    if !s.rdr.RdIdle? || t.store == s.store {
      assert t == s;
    } else if t.rdr.RdIdle? {
      DroppedHeadKeepsInv(s);
    } else {
      ClaimedPairKeepsInv(s);
    }
  }

  lemma DroppedHeadKeepsInv(s: System)
    requires Inv(s) && s.rdr.RdIdle? && BeginPair(s.store).1.None? && BeginPair(s.store).0 != s.store
    ensures Inv(BeginPairNext(s))
  {
    DroppedHeadSlots(s);
    DroppedHeadTasks(s);
    hide *;
    PartsMakeInv(BeginPairNext(s));
  }

  lemma DroppedHeadSlots(s: System)
    requires Inv(s) && s.rdr.RdIdle? && BeginPair(s.store).1.None? && BeginPair(s.store).0 != s.store
    ensures var t := BeginPairNext(s);
            SlotsInv(t) && Distinct(t.store.slots) && Conserved(t) && LogInv(t) && EmittedInv(t.log)
  {
    hide EmittedInv, NonFree, PairBytes, Full, FillingInv, IngesterInv, EncoderInv, Distinct, Oldest, First;
    var t := BeginPairNext(s);
    var first := Oldest(s.store.slots, Pairable(s.store.stats.generation));
    assert SlotInv(s, s.store.slots[first], first);
    assert t.store.slots == s.store.slots[first := s.store.slots[first].(state := Free)];
    DistinctCarries(s.store.slots, t.store.slots);
    NonFreeUpdate(s.store.slots, first, t.store.slots[first]);
    SlotsCarry(s, t, {first});
  }

  lemma DroppedHeadTasks(s: System)
    requires Inv(s) && s.rdr.RdIdle? && BeginPair(s.store).1.None? && BeginPair(s.store).0 != s.store
    ensures var t := BeginPairNext(s);
            |t.store.slots| == SLOT_COUNT && IngesterInv(t) && FillingInv(t) && EncoderInv(t) && ReaderInv(t)
  {
    hide EmittedInv, NonFree, Conserved, LogInv, PairBytes, Full, FillingInv, IngesterInv, Distinct, Oldest, First;
    var t := BeginPairNext(s);
    var first := Oldest(s.store.slots, Pairable(s.store.stats.generation));
    assert SlotInv(s, s.store.slots[first], first);
    assert t.store.slots == s.store.slots[first := s.store.slots[first].(state := Free)];
    IngestSideCarries(s, t);
  }

  lemma ClaimedPairKeepsInv(s: System)
    requires Inv(s) && s.rdr.RdIdle? && BeginPair(s.store).1.Some?
    ensures Inv(BeginPairNext(s))
  {
    ClaimedPairSlots(s);
    ClaimedPairTasks(s);
    hide *;
    PartsMakeInv(BeginPairNext(s));
  }

  lemma ClaimedPairSlots(s: System)
    requires Inv(s) && s.rdr.RdIdle? && BeginPair(s.store).1.Some?
    ensures var t := BeginPairNext(s);
            SlotsInv(t) && Distinct(t.store.slots) && Conserved(t) && LogInv(t) && EmittedInv(t.log)
  {
    hide EmittedInv, NonFree, PairBytes, Full, FillingInv, IngesterInv, EncoderInv, Distinct, Oldest, First;
    var t := BeginPairNext(s);
    var c := t.rdr.claim;
    var a := s.store.slots[c.first];
    var b := s.store.slots[c.second];
    assert SlotInv(s, a, c.first) && SlotInv(s, b, c.second);
    assert c.first != c.second;
    FullIgnoresState(a, t.store.slots[c.first], s.log);
    FullIgnoresState(b, t.store.slots[c.second], s.log);
    DistinctCarries(s.store.slots, t.store.slots);
    var mid := s.store.slots[c.first := t.store.slots[c.first]];
    NonFreeUpdate(s.store.slots, c.first, t.store.slots[c.first]);
    NonFreeUpdate(mid, c.second, t.store.slots[c.second]);
    SlotsCarry(s, t, {c.first, c.second});
  }

  lemma ClaimedPairTasks(s: System)
    requires Inv(s) && s.rdr.RdIdle? && BeginPair(s.store).1.Some?
    ensures var t := BeginPairNext(s);
            |t.store.slots| == SLOT_COUNT && IngesterInv(t) && FillingInv(t) && EncoderInv(t) && ReaderInv(t)
  {
    hide EmittedInv, Conserved, LogInv, PairBytes, Full, FillingInv, IngesterInv, Distinct, Oldest, First;
    var t := BeginPairNext(s);
    var c := t.rdr.claim;
    assert SlotInv(s, s.store.slots[c.first], c.first) && SlotInv(s, s.store.slots[c.second], c.second);
    IngestSideCarries(s, t);
  }

  // ----- steps that extend the log --------------------------------------------------------------

  lemma SubmitKeepsInv(s: System, bytes: Option<seq<Byte>>)
    requires Inv(s)
    ensures Inv(SubmitNext(s, bytes))
  {
    if s.enc.EncJob? {
      if Refused(s, bytes) {
        RefusedSubmitKeepsInv(s, bytes);
      } else {
        AcceptedSubmitKeepsInv(s, bytes);
      }
    }
  }

  lemma AcceptedSubmitKeepsInv(s: System, bytes: Option<seq<Byte>>)
    requires Inv(s) && s.enc.EncJob? && bytes.Some? && |bytes.value| == OPUS_LEN
    requires BeginEncode(s.store, s.enc.generation, s.enc.epoch, true).1.Some?
    ensures Inv(SubmitNext(s, bytes))
  {
    AcceptedSubmitSlots(s, bytes);
    AcceptedSubmitTasks(s, bytes);
    hide *;
    PartsMakeInv(SubmitNext(s, bytes));
  }

  lemma AcceptedSubmitSlots(s: System, bytes: Option<seq<Byte>>)
    requires Inv(s) && s.enc.EncJob? && bytes.Some? && |bytes.value| == OPUS_LEN
    requires BeginEncode(s.store, s.enc.generation, s.enc.epoch, true).1.Some?
    ensures var t := SubmitNext(s, bytes);
            SlotsInv(t) && Distinct(t.store.slots) && Conserved(t) && LogInv(t) && EmittedInv(t.log)
  {
    KeyFindsJob(s);
    hide EmittedInv, NonFree, FillingInv, IngesterInv, ReaderInv, Full, Encoded, Written, First;
    var t := SubmitNext(s, bytes);
    var sel := s.enc.slot;
    assert SlotInv(s, s.store.slots[sel], sel);
    assert LogExtends(s.log, t.log);
    EmittedExtends(s.log, t.log);
    FullExtends(s.store.slots[sel], s.log, t.log);
    SlotsCarryOver(s, t, {sel});
  }

  lemma AcceptedSubmitTasks(s: System, bytes: Option<seq<Byte>>)
    requires Inv(s) && s.enc.EncJob? && bytes.Some? && |bytes.value| == OPUS_LEN
    requires BeginEncode(s.store, s.enc.generation, s.enc.epoch, true).1.Some?
    ensures var t := SubmitNext(s, bytes);
            |t.store.slots| == SLOT_COUNT && IngesterInv(t) && FillingInv(t) && EncoderInv(t) && ReaderInv(t)
  {
    KeyFindsJob(s);
    AcceptedSubmitStore(s);
    AcceptedSubmitIngest(s, bytes);
    hide EmittedInv, Conserved, LogInv, Distinct, PairBytes, PairOf, SlotInv, FillingInv, IngesterInv, BeginEncode, First;
  }

  lemma AcceptedSubmitStore(s: System)
    requires s.enc.EncJob? && BeginEncode(s.store, s.enc.generation, s.enc.epoch, true).1.Some?
    ensures BeginEncode(s.store, s.enc.generation, s.enc.epoch, true).0 == s.store
    ensures BeginEncode(s.store, s.enc.generation, s.enc.epoch, true).1.value
            == First(s.store.slots, Keyed(s.enc.generation, s.enc.epoch))
  {
    hide First;
  }

  lemma AcceptedSubmitIngest(s: System, bytes: Option<seq<Byte>>)
    requires Inv(s) && s.enc.EncJob? && bytes.Some? && |bytes.value| == OPUS_LEN
    requires BeginEncode(s.store, s.enc.generation, s.enc.epoch, true).1.Some?
    requires BeginEncode(s.store, s.enc.generation, s.enc.epoch, true).0 == s.store
    ensures var t := SubmitNext(s, bytes);
            |t.store.slots| == SLOT_COUNT && IngesterInv(t) && FillingInv(t)
  {
    hide EmittedInv, Conserved, LogInv, Distinct, SlotInv, EncoderInv, ReaderInv, BeginEncode, FillingInv, IngesterInv;
    IngestSideCarries(s, SubmitNext(s, bytes));
  }

  lemma EndPairKeepsInv(s: System)
    requires Inv(s) && Runnable(s)
    ensures Inv(EndPairNext(s))
  {
    if s.rdr.RdCopy? && |s.rdr.buffer| == PAIR_BYTES {
      EndPairFrees(s);
      FreedPairStructure(s, EndPairNext(s));
      EndPairConserves(s);
      EmittedPairIsFaithful(s);
      hide *;
      PartsMakeInv(EndPairNext(s));
    }
  }

  lemma EndPairFrees(s: System)
    requires Inv(s) && Runnable(s) && s.rdr.RdCopy? && |s.rdr.buffer| == PAIR_BYTES
    ensures FreesPair(s, EndPairNext(s))
  {
    hide EmittedInv, NonFree, Conserved, LogInv, PairBytes, PairOf, Full, Encoded, FillingInv, IngesterInv, EncoderInv, Distinct;
    var c := s.rdr.claim;
    assert SlotInv(s, s.store.slots[c.first], c.first);
    assert SlotInv(s, s.store.slots[c.second], c.second);
  }

  lemma EndPairConserves(s: System)
    requires Inv(s) && Runnable(s) && s.rdr.RdCopy? && |s.rdr.buffer| == PAIR_BYTES
    requires FreesPair(s, EndPairNext(s))
    ensures Conserved(EndPairNext(s))
  {
    hide EmittedInv, NonFree, LogInv, PairBytes, PairOf, Full, Encoded, FillingInv, IngesterInv, EncoderInv, Distinct;
    var t := EndPairNext(s);
    var c := s.rdr.claim;
    assert SlotInv(s, s.store.slots[c.first], c.first);
    assert SlotInv(s, s.store.slots[c.second], c.second);
    NonFreeUpdate(s.store.slots, c.first, t.store.slots[c.first]);
    NonFreeUpdate(s.store.slots[c.first := t.store.slots[c.first]], c.second, t.store.slots[c.second]);
  }

  ghost predicate FreesPair(s: System, t: System)
    requires ReadReady(s) && s.rdr.RdCopy?
  {
    && t.rdr.RdIdle? && t.ing == s.ing && t.enc == s.enc
    && t.log == s.log.(emitted := t.log.emitted)
    && t.store == s.store.(slots := t.store.slots, stats := t.store.stats)
    && t.store.stats.generation == s.store.stats.generation
    && t.store.stats.nextEpoch == s.store.stats.nextEpoch
    && t.store.slots == s.store.slots
                          [s.rdr.claim.first := s.store.slots[s.rdr.claim.first].(state := Free)]
                          [s.rdr.claim.second := s.store.slots[s.rdr.claim.second].(state := Free)]
  }

  lemma FreedPairStructure(s: System, t: System)
    requires Inv(s) && ReadReady(s) && s.rdr.RdCopy? && FreesPair(s, t)
    ensures SlotsInv(t) && Distinct(t.store.slots) && IngesterInv(t) && FillingInv(t) && EncoderInv(t)
    ensures ReaderInv(t) && LogInv(t)
  {
    FreedPairSlots(s, t);
    FreedPairTasks(s, t);
    hide EmittedInv, NonFree, SlotsInv, FillingInv, IngesterInv, EncoderInv, Distinct, Conserved, PairBytes, PairOf;
    DistinctCarries(s.store.slots, t.store.slots);
  }

  lemma FreedPairTasks(s: System, t: System)
    requires Inv(s) && ReadReady(s) && s.rdr.RdCopy? && FreesPair(s, t)
    ensures |t.store.slots| == SLOT_COUNT && IngesterInv(t) && FillingInv(t) && EncoderInv(t)
  {
    assert |s.store.slots| == SLOT_COUNT;
    hide EmittedInv, NonFree, SlotsInv, FillingInv, IngesterInv, Distinct, Conserved, LogInv, PairBytes, PairOf;
    IngestSideCarries(s, t);
  }

  lemma FreedPairSlots(s: System, t: System)
    requires Inv(s) && ReadReady(s) && s.rdr.RdCopy? && FreesPair(s, t)
    ensures SlotsInv(t)
  {
    hide EmittedInv, NonFree, PairBytes, PairOf, Full, Encoded, FillingInv, IngesterInv, EncoderInv, Distinct,
         Conserved, LogInv;
    var c := s.rdr.claim;
    assert LogExtends(s.log, t.log);
    forall i: nat | i < SLOT_COUNT
      ensures SlotInv(t, t.store.slots[i], i)
    {
      assert SlotInv(s, s.store.slots[i], i);
      if i != c.first && i != c.second {
        SlotCarries(s, t, i);
      }
    }
  }

  /** What the reader appends to the emitted list is faithful, because the copy raced with nothing. */
  lemma EmittedPairIsFaithful(s: System)
    requires Inv(s) && Runnable(s) && s.rdr.RdCopy? && |s.rdr.buffer| == PAIR_BYTES
    ensures EmittedInv(EndPairNext(s).log)
  {
    var t := EndPairNext(s);
    var c := s.rdr.claim;
    hide NonFree, FillingInv, IngesterInv, Distinct, Written;
    forall i | 0 <= i < |t.log.emitted|
      ensures PairFaithful(t.log.emitted[i], t.log)
    {
      hide PairFaithful, Repeat;
      assert LogExtends(s.log, t.log);
      if i < |s.log.emitted| {
        PairFaithfulExtends(s.log.emitted[i], s.log, t.log);
      } else {
        BufferIsFaithful(s);
        PairFaithfulExtends(PairFromBytes(c, s.rdr.buffer), s.log, t.log);
      }
    }
  }

  lemma BufferIsFaithful(s: System)
    requires Inv(s) && s.rdr.RdCopy? && |s.rdr.buffer| == PAIR_BYTES
    requires EndPair(s.store, s.rdr.claim).1
    ensures PairFaithful(PairFromBytes(s.rdr.claim, s.rdr.buffer), s.log)
  {
    PairOfFaithful(s);
    PairOfIsSized(s);
    hide PairFaithful, PairOf, SlotInv, Distinct, IngesterInv, FillingInv, EncoderInv, LogInv, Conserved, EmittedInv, EndPair;
    var p := PairOf(s.store, s.rdr.claim);
    PairBytesBack(s.rdr.claim, p);
    assert s.rdr.buffer == PairBytes(p);
  }

  lemma PairOfIsSized(s: System)
    requires Inv(s) && s.rdr.RdCopy?
    ensures s.rdr.claim.first < |s.store.slots| && s.rdr.claim.second < |s.store.slots|
    ensures var p := PairOf(s.store, s.rdr.claim);
            && |p.firstHaptics| == HAPTICS_LEN && |p.secondHaptics| == HAPTICS_LEN
            && |p.firstOpus| == OPUS_LEN && |p.secondOpus| == OPUS_LEN
            && p == Pair(s.rdr.claim.generation, s.rdr.claim.firstEpoch, s.rdr.claim.firstCapturedUs,
                         s.rdr.claim.secondCapturedUs, s.rdr.claim.speakerEnabled,
                         p.firstHaptics, p.secondHaptics, p.firstOpus, p.secondOpus)
  {
    hide SlotInv, Distinct, IngesterInv, FillingInv, EncoderInv, LogInv, Conserved, EmittedInv, PairBytes, Repeat;
  }

  // Cutting a pair's bytes at the field boundaries gives the pair back.
  lemma PairBytesBack(c: PairClaim, p: Pair)
    requires |p.firstHaptics| == HAPTICS_LEN && |p.secondHaptics| == HAPTICS_LEN
    requires |p.firstOpus| == OPUS_LEN && |p.secondOpus| == OPUS_LEN
    requires p == Pair(c.generation, c.firstEpoch, c.firstCapturedUs, c.secondCapturedUs, c.speakerEnabled,
                       p.firstHaptics, p.secondHaptics, p.firstOpus, p.secondOpus)
    ensures |PairBytes(p)| == PAIR_BYTES && PairFromBytes(c, PairBytes(p)) == p
  {
    var b := PairBytes(p);
    assert b[..64] == p.firstHaptics && b[64..128] == p.secondHaptics;
    assert b[128..328] == p.firstOpus && b[328..528] == p.secondOpus;
  }

  lemma PairOfFaithful(s: System)
    requires Inv(s) && s.rdr.RdCopy?
    requires EndPair(s.store, s.rdr.claim).1
    ensures PairFaithful(PairOf(s.store, s.rdr.claim), s.log)
  {
    hide NonFree, FillingInv, IngesterInv, Distinct, EmittedInv, EncoderInv, Conserved, PairBytes, Repeat;
    var c := s.rdr.claim;
    var a := s.store.slots[c.first];
    var b := s.store.slots[c.second];
    assert SlotInv(s, a, c.first) && SlotInv(s, b, c.second);
    FullHaptics(a, s.log);
    FullHaptics(b, s.log);
  }

  lemma FullHaptics(slot: Slot, log: History)
    requires Full(slot, log)
    ensures IsHapticsOf(slot.haptics, EpochPart(StreamOf(log, slot.generation), slot.epoch))
    ensures IsPcmOf(slot.speakerPcm, EpochPart(StreamOf(log, slot.generation), slot.epoch))
  {
  }

  // ----- reset ----------------------------------------------------------------------------------

  lemma ResetKeepsInv(s: System, generation: nat)
    requires Inv(s)
    ensures Inv(ResetNext(s, generation))
  {
    if generation > s.store.stats.generation {
      var t := ResetNext(s, generation);
      ResetSlots(s, generation);
      ResetTasks(s, generation);
      hide EmittedInv, NonFree, SlotsInv, IngesterInv, FillingInv, EncoderInv, ReaderInv, RetiredCount;
      ResetConserves(s.store.slots);
      DistinctCarries(s.store.slots, t.store.slots);
    }
  }

  lemma ResetSlots(s: System, generation: nat)
    requires Inv(s) && generation > s.store.stats.generation
    ensures SlotsInv(ResetNext(s, generation))
  {
    hide EmittedInv, NonFree, Full, Encoded, CancelAll, RetiredCount, IngesterInv, FillingInv, EncoderInv,
         ReaderInv;
    var t := ResetNext(s, generation);
    forall i | 0 <= i < SLOT_COUNT
      ensures SlotInv(t, t.store.slots[i], i)
    {
      assert SlotInv(s, s.store.slots[i], i);
    }
  }

  lemma ResetTasks(s: System, generation: nat)
    requires Inv(s) && generation > s.store.stats.generation
    ensures var t := ResetNext(s, generation);
            IngesterInv(t) && FillingInv(t) && EncoderInv(t) && ReaderInv(t)
  {
    hide EmittedInv, NonFree, PairBytes, SlotInv, Written, CancelAll, RetiredCount, Distinct;
  }

  // ----- claiming a chunk -----------------------------------------------------------------------

  function Owned(enc: Encoder, rdr: Reader, i: nat): bool {
    (!enc.EncIdle? && enc.slot == i) || (rdr.RdCopy? && (rdr.claim.first == i || rdr.claim.second == i))
  }

  /** Three owners leave one of any four slots alone. */
  function Unowned(enc: Encoder, rdr: Reader): (i: nat)
    ensures i < 4 && !EncoderOwns(enc, i) && !ReaderOwns(rdr, i)
  {
    if !Owned(enc, rdr, 0) then 0 else if !Owned(enc, rdr, 1) then 1 else if !Owned(enc, rdr, 2) then 2 else 3
  }

  /** At most three slots cannot be evicted, so allocation never refuses. */
  lemma AllocationNeverRefuses(s: System, capturedUs: nat, speakerEnabled: bool)
    requires Inv(s) && s.store.filling == INVALID_SLOT
    ensures 0 <= Allocate(s.store, capturedUs, speakerEnabled).selected < SLOT_COUNT
  {
    hide EmittedInv, NonFree, PairBytes, PairOf, Full, Encoded, Written, Oldest, First, Distinct, Claimed;
    var i := Unowned(s.enc, s.rdr);
    var slot := s.store.slots[i];
    assert SlotInv(s, slot, i);
    assert Matches(AnyFree, slot) || Matches(Evictable, slot);
  }

  // A claim that opens an epoch is the opening followed by a claim in the slot just opened.
  function OpenNext(s: System, call: Call): System {
    var a := Allocate(s.store, call.capturedUs, call.speakerEnabled);
    var g := call.generation;
    s.(store := a.store,
       log := s.log.(openings := s.log.openings[g :=
                OpeningsOf(s.log, g) + [Opening(call.capturedUs, call.speakerEnabled)]]))
  }

  ghost predicate MayOpen(s: System, call: Call) {
    && Inv(s) && s.ing.IngLoop? && s.ing.call == call && call.generation == s.store.stats.generation
    && s.store.filling == INVALID_SLOT && s.store.stats.nextEpoch < UINT32_MAX
  }

  lemma OpenedSlot(s: System, call: Call)
    requires MayOpen(s, call)
    ensures var a := Allocate(s.store, call.capturedUs, call.speakerEnabled);
            var t := OpenNext(s, call);
            && 0 <= a.selected < SLOT_COUNT
            && !EncoderOwns(s.enc, a.selected) && !ReaderOwns(s.rdr, a.selected)
            && s.store.slots[a.selected].state != Filling
            && t.store == Store(s.store.slots[a.selected :=
                                  Claimed(s.store, a.selected, call.capturedUs, call.speakerEnabled)],
                                a.selected, t.store.stats)
            && t.store.stats == s.store.stats.(
                 nextEpoch := s.store.stats.nextEpoch + 1,
                 epochsStarted := s.store.stats.epochsStarted + 1,
                 epochsDropped := s.store.stats.epochsDropped + Occupies(s.store.slots[a.selected]))
            && LogExtends(s.log, t.log)
  {
    AllocationNeverRefuses(s, call.capturedUs, call.speakerEnabled);
    hide EmittedInv, NonFree, PairBytes, PairOf, Full, Encoded, Written, Oldest, First, Distinct, Claimed, FillingInv;
    var a := Allocate(s.store, call.capturedUs, call.speakerEnabled);
    assert SlotInv(s, s.store.slots[a.selected], a.selected);
  }

  lemma OpenKeepsInv(s: System, call: Call)
    requires MayOpen(s, call)
    ensures Inv(OpenNext(s, call))
  {
    OpenedSlot(s, call);
    var t := OpenNext(s, call);
    var sel := t.store.filling;
    OpenFills(s, call);
    OpenSlots(s, call);
    hide EmittedInv, NonFree, PairBytes, Full, Encoded, Written, Allocate, SlotInv, FillingInv, OpenNext;
    EmittedExtends(s.log, t.log);
    NonFreeUpdate(s.store.slots, sel, t.store.slots[sel]);
    OpenDistinct(s, call);
  }

  lemma OpenDistinct(s: System, call: Call)
    requires MayOpen(s, call)
    ensures Distinct(OpenNext(s, call).store.slots)
  {
    OpenedSlot(s, call);
    hide EmittedInv, NonFree, PairBytes, Full, Encoded, Written, Allocate, FillingInv, OpenNext, SlotInv;
    var t := OpenNext(s, call);
    forall i | 0 <= i < SLOT_COUNT && s.store.slots[i].state != Free
      ensures s.store.slots[i].generation == call.generation ==> s.store.slots[i].epoch < s.store.stats.nextEpoch
    {
      LiveEpochBound(s, i);
    }
  }

  lemma LiveEpochBound(s: System, i: nat)
    requires Inv(s) && i < SLOT_COUNT && s.store.slots[i].state != Free
    ensures s.store.slots[i].generation <= s.store.stats.generation
    ensures s.store.slots[i].generation == s.store.stats.generation ==>
              s.store.slots[i].epoch < s.store.stats.nextEpoch
  {
    assert SlotInv(s, s.store.slots[i], i);
  }

  lemma OpenFills(s: System, call: Call)
    requires MayOpen(s, call)
    ensures var t := OpenNext(s, call);
            FillingInv(t) && IngesterInv(t) && EncoderInv(t) && ReaderInv(t) && LogInv(t)
  {
    OpenedSlot(s, call);
    hide EmittedInv, NonFree, PairBytes, Full, Encoded, Allocate, Distinct, Conserved;
    var t := OpenNext(s, call);
    assert SlotInv(s, s.store.slots[t.store.filling], t.store.filling);
    assert StreamOf(t.log, call.generation) == StreamOf(s.log, call.generation);
    assert StreamOf(t.log, call.generation)[512 * s.store.stats.nextEpoch..] == [];
  }

  lemma OpenSlots(s: System, call: Call)
    requires MayOpen(s, call)
    ensures SlotsInv(OpenNext(s, call))
  {
    OpenedSlot(s, call);
    hide EmittedInv, NonFree, PairBytes, Full, Encoded, Written, Allocate, Distinct, Conserved, FillingInv,
         EncoderInv, ReaderInv, IngesterInv;
    var t := OpenNext(s, call);
    var sel := t.store.filling;
    forall i: nat | i < SLOT_COUNT
      ensures SlotInv(t, t.store.slots[i], i)
    {
      assert SlotInv(s, s.store.slots[i], i);
      if i != sel {
        hide OpenNext;
        SlotCarries(s, t, i);
      }
    }
  }

  /** Claiming the next chunk of the slot being filled. */
  function JoinNext(s: System): System
    requires s.ing.IngLoop? && s.ing.frame <= |s.ing.call.frames|
    requires s.store.filling < |s.store.slots| && s.store.slots[s.store.filling].pcmFrames <= USB_FRAMES
  {
    var call := s.ing.call;
    var slot := s.store.slots[s.store.filling];
    var room := USB_FRAMES - slot.pcmFrames;
    var remaining := |call.frames| - s.ing.frame;
    var n := if remaining > room then room else remaining;
    s.(ing := IngCopy(call, s.ing.frame, s.store.filling, slot.pcmFrames, n, 0),
       log := Accept(s.log, call, s.ing.frame, n, false))
  }

  ghost predicate MayJoin(s: System) {
    && Inv(s) && s.ing.IngLoop? && s.ing.frame < |s.ing.call.frames|
    && s.ing.call.generation == s.store.stats.generation && s.store.filling != INVALID_SLOT
  }

  lemma JoinKeepsInv(s: System)
    requires MayJoin(s)
    ensures Inv(JoinNext(s))
  {
    var t := JoinNext(s);
    JoinFills(s);
    hide EmittedInv, NonFree, PairBytes, PairOf, Full, Encoded, FillingInv, Written, Distinct;
    assert LogExtends(s.log, t.log);
    EmittedExtends(s.log, t.log);
    forall i: nat | i < SLOT_COUNT && AwaitsOpus(s.store.slots[i])
      ensures (s.store.slots[i].generation, s.store.slots[i].epoch) !in t.log.opus
    {
      assert SlotInv(s, s.store.slots[i], i);
    }
    hide SlotInv;
    SlotsCarryOver(s, t, {});
  }

  lemma JoinFills(s: System)
    requires MayJoin(s)
    ensures FillingInv(JoinNext(s)) && IngesterInv(JoinNext(s))
  {
    hide EmittedInv, NonFree, PairBytes, PairOf, Full, Encoded, Distinct, Conserved, EncoderInv, ReaderInv;
    var t := JoinNext(s);
    var g := s.store.stats.generation;
    var slot := s.store.slots[s.store.filling];
    var before := StreamOf(s.log, g);
    var after := StreamOf(t.log, g);
    var part := before[512 * slot.epoch..];
    var longer := after[512 * slot.epoch..];
    assert before <= after;
    assert part <= longer;
    hide Written, Upcoming;
    WrittenInLonger(slot, part, longer, slot.pcmFrames);
  }

  lemma ClaimKeepsInv(s: System)
    requires Inv(s) && Runnable(s)
    ensures Inv(ClaimNext(s))
  {
    hide EmittedInv, NonFree, PairBytes, PairOf, Full, Encoded, Written, Distinct, Conserved, Accept, Allocate,
         EncoderInv, ReaderInv, SlotInv, LogInv;
    if s.ing.IngLoop? && s.store.stats.nextEpoch < UINT32_MAX {
      var call := s.ing.call;
      if s.ing.frame >= |call.frames| || call.generation != s.store.stats.generation {
        IdleKeepsInv(s);
      } else if s.store.filling != INVALID_SLOT {
        JoinKeepsInv(s);
        assert ClaimNext(s) == JoinNext(s);
      } else {
        OpenedSlot(s, call);
        OpenKeepsInv(s, call);
        var mid := OpenNext(s, call);
        JoinKeepsInv(mid);
        ClaimIsOpenThenJoin(s);
      }
    }
  }

  lemma IdleKeepsInv(s: System)
    requires Inv(s) && s.ing.IngLoop?
    ensures Inv(s.(ing := IngIdle))
  {
    assert IngesterInv(s);
    OutsideCopyKeepsInv(s, IngIdle);
  }

  lemma ClaimIsOpenThenJoin(s: System)
    requires Inv(s) && s.ing.IngLoop? && s.ing.frame < |s.ing.call.frames| && MayOpen(s, s.ing.call)
    requires MayJoin(OpenNext(s, s.ing.call))
    ensures ClaimNext(s) == JoinNext(OpenNext(s, s.ing.call))
  {
    hide EmittedInv, NonFree, PairBytes, PairOf, Full, Encoded, Written, Distinct, Conserved, First, Oldest,
         EncoderInv, ReaderInv, SlotInv, LogInv, Tag;
    OpenedSlot(s, s.ing.call);
  }
}
