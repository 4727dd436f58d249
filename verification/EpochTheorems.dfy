/** The claims about whole runs of the epoch store: integrity, conservation, ownership. */
module EpochTheorems {
  import opened Basics
  import opened EpochTypes
  import opened EpochSteps
  import opened EpochSystem
  import opened EpochInvariant
  import opened EpochSafety

  lemma NextKeepsInv(s: System, a: Action)
    requires Inv(s)
    ensures Runnable(s) && Inv(Next(s, a))
  {
    InvIsRunnable(s);
    hide Inv, Runnable;
    match a
    case EnterIngest(call) => EnterKeepsInv(s, call);
    case ClaimRegion => ClaimKeepsInv(s);
    case CopyFrame => CopyFrameKeepsInv(s);
    case StoreFrameCount => StoreCountKeepsInv(s);
    case CommitRegion => CommitKeepsInv(s);
    case TakeJobRegion => TakeJobKeepsInv(s);
    case SubmitRegion(bytes) => SubmitKeepsInv(s, bytes);
    case CopyOpusByte => CopyOpusKeepsInv(s);
    case EndEncodeRegion => EndEncodeKeepsInv(s);
    case BeginPairRegion => BeginPairKeepsInv(s);
    case CopyPairByte => CopyPairKeepsInv(s);
    case EndPairRegion => EndPairKeepsInv(s);
    case ResetRegion(g) => ResetKeepsInv(s, g);
  }

  // Any interleaving of the tasks' steps and of resets: actions[i] leads from states[i] to states[i + 1].
  ghost predicate Run(states: seq<System>, actions: seq<Action>) {
    && |states| == |actions| + 1
    && (exists generation :: states[0] == Initial(generation))
    && forall i :: 0 <= i < |actions| ==> Runnable(states[i]) && states[i + 1] == Next(states[i], actions[i])
  }

  lemma {:induction false} RunKeepsInv(states: seq<System>, actions: seq<Action>, n: nat)
    requires Run(states, actions) && n < |states|
    ensures Inv(states[n])
  {
    hide Inv, Runnable, Initial, Next;
    if n == 0 {
      var generation :| states[0] == Initial(generation);
      InitialInv(generation);
    } else {
      RunKeepsInv(states, actions, n - 1);
      NextKeepsInv(states[n - 1], actions[n - 1]);
    }
  }

  /** No run ever blocks: every action is defined in every reachable state and extends the run. */
  lemma EveryActionExtendsARun(states: seq<System>, actions: seq<Action>, a: Action)
    requires Run(states, actions) && |states| == |actions| + 1
    ensures Runnable(states[|actions|])
    ensures Run(states + [Next(states[|actions|], a)], actions + [a])
  {
    hide Inv, Runnable, Initial, Next, Run;
    RunKeepsInv(states, actions, |actions|);
    NextKeepsInv(states[|actions|], a);
    ExtendRun(states, actions, a);
  }

  lemma ExtendRun(states: seq<System>, actions: seq<Action>, a: Action)
    requires Run(states, actions) && Runnable(states[|actions|])
    ensures Run(states + [Next(states[|actions|], a)], actions + [a])
  {
    hide Runnable, Initial, Next;
    var longer, more := states + [Next(states[|actions|], a)], actions + [a];
    forall i | 0 <= i < |more|
      ensures Runnable(longer[i]) && longer[i + 1] == Next(longer[i], more[i])
    {
      assert longer[i] == states[i];
      if i < |actions| { assert longer[i + 1] == states[i + 1] && more[i] == actions[i]; }
    }
    assert longer[0] == states[0];
  }

  /**
   Data integrity under preemption. Every pair ever returned carries, for both of its epochs, the haptics
   of that epoch's 512 accepted USB frames and, when the speaker is on, the Opus bytes submitted for it.
   */
  lemma EveryEmittedPairIsFaithful(states: seq<System>, actions: seq<Action>, n: nat, i: nat)
    requires Run(states, actions) && n < |states| && i < |states[n].log.emitted|
    ensures PairFaithful(states[n].log.emitted[i], states[n].log)
  {
    hide Run, PairFaithful;
    RunKeepsInv(states, actions, n);
    assert EmittedInv(states[n].log);
  }

  /** What the encoder reads is its epoch's PCM: 512 consecutive frames of the generation's stream. */
  lemma EncoderReadsItsEpoch(states: seq<System>, actions: seq<Action>, n: nat)
    requires Run(states, actions) && n < |states|
    requires !states[n].enc.EncIdle? && states[n].store.stats.generation == states[n].enc.generation
    ensures var s := states[n];
            var stream := StreamOf(s.log, s.enc.generation);
            && s.enc.slot < |s.store.slots|
            && 512 * (s.enc.epoch + 1) <= |stream|
            && IsPcmOf(s.store.slots[s.enc.slot].speakerPcm, EpochPart(stream, s.enc.epoch))
  {
    hide Run, Conserved, EmittedInv, FillingInv, Distinct, ReaderInv, Written;
    RunKeepsInv(states, actions, n);
    var s := states[n];
    assert SlotInv(s, s.store.slots[s.enc.slot], s.enc.slot);
    FullHaptics(s.store.slots[s.enc.slot], s.log);
  }

  /** Conservation of epochs over every run, with the derived counters. */
  lemma EpochsAreConserved(states: seq<System>, actions: seq<Action>, n: nat)
    requires Run(states, actions) && n < |states|
    ensures var s := states[n];
            var t := s.store.stats;
            && t.epochsStarted ==
                 t.epochsEmitted + t.epochsDropped + t.epochsStale + NonFree(s.store.slots)
            && t.epochsEmitted == 2 * t.adjacentPairs == 2 * |s.log.emitted|
            && t.epochDiscontinuities == t.epochGaps + t.speakerStateDiscontinuities
            && t.epochDiscontinuities + t.encodeFailures <= t.epochsDropped
  {
    hide Run, NonFree;
    RunKeepsInv(states, actions, n);
    assert Conserved(states[n]);
  }

  /** The refusal branch of the allocator is never taken, and evicting is always of a filled, unowned slot. */
  lemma IngestNeverRefuses(states: seq<System>, actions: seq<Action>, n: nat, capturedUs: nat, speakerEnabled: bool)
    requires Run(states, actions) && n < |states|
    requires states[n].store.filling == INVALID_SLOT
    ensures var s := states[n];
            var sel := Allocate(s.store, capturedUs, speakerEnabled).selected;
            && 0 <= sel < |s.store.slots|
            && s.store.slots[sel].state in {Free, ReadyEncode, Complete}
            && !EncoderOwns(s.enc, sel) && !ReaderOwns(s.rdr, sel)
  {
    hide Run, Conserved, EmittedInv, FillingInv, Distinct, Full, Encoded, First, Oldest, Claimed, PairBytes;
    RunKeepsInv(states, actions, n);
    var s := states[n];
    AllocationNeverRefuses(s, capturedUs, speakerEnabled);
    var sel := Allocate(s.store, capturedUs, speakerEnabled).selected;
    assert SlotInv(s, s.store.slots[sel], sel);
  }

  ghost predicate BeingEncoded(slot: Slot) {
    slot.state == Encoding || slot.state == CancelledEncoding
  }

  ghost predicate BeingRead(slot: Slot) {
    slot.state == Reading || slot.state == CancelledReading
  }

  ghost predicate PayloadKept(before: Slot, after: Slot) {
    && (BeingEncoded(before) || BeingRead(before) ==>
          after.speakerPcm == before.speakerPcm && after.haptics == before.haptics)
    && (BeingRead(before) ==> after.speakerOpus == before.speakerOpus)
  }

  ghost predicate PayloadsKept(s: System, t: System) {
    && |s.store.slots| == |t.store.slots| == SLOT_COUNT
    && forall i :: 0 <= i < SLOT_COUNT ==> PayloadKept(s.store.slots[i], t.store.slots[i])
  }

  /**
   Ownership: no step of any task writes PCM or haptics of a slot while it is being encoded, or any payload of
   a slot while it is being read, cancelled or not.
   */
  lemma OwnedPayloadIsStable(s: System, a: Action)
    requires Inv(s) && Runnable(s)
    ensures PayloadsKept(s, Next(s, a))
  {
    assert |s.store.slots| == SLOT_COUNT;
    if a.EnterIngest? || a.CopyPairByte? {
      hide Inv, PairBytes, PairOf;
    } else {
      hide Inv, Runnable, PayloadsKept;
      match a
      case ClaimRegion => ClaimLeavesOwned(s);
      case CopyFrame => CopyFrameLeavesOwned(s);
      case StoreFrameCount => StoreCountLeavesOwned(s);
      case CommitRegion => CommitLeavesOwned(s);
      case TakeJobRegion => TakeJobLeavesOwned(s);
      case SubmitRegion(bytes) => SubmitLeavesOwned(s, bytes);
      case CopyOpusByte => OpusLeavesOwned(s);
      case EndEncodeRegion => EndEncodeLeavesOwned(s);
      case BeginPairRegion => BeginPairLeavesOwned(s);
      case EndPairRegion => EndPairLeavesOwned(s);
      case ResetRegion(g) => ResetLeavesOwned(s, g);
      case _ =>
    }
  }

  lemma ClaimLeavesOwned(s: System)
    requires Inv(s)
    ensures PayloadsKept(s, ClaimNext(s))
  {
    hide Conserved, EmittedInv, Distinct, Full, Encoded, First, Oldest, Written, ReaderInv, EncoderInv, LogInv,
         Tag, Accept;
  }

  lemma CopyFrameLeavesOwned(s: System)
    requires Inv(s) && Runnable(s)
    ensures PayloadsKept(s, CopyFrameNext(s))
  {
    hide Conserved, EmittedInv, Distinct, Full, Encoded, Written, WriteFrame, ReaderInv, EncoderInv, LogInv;
  }

  lemma StoreCountLeavesOwned(s: System)
    requires Inv(s) && Runnable(s)
    ensures PayloadsKept(s, StoreCountNext(s))
  {
    assert |s.store.slots| == SLOT_COUNT;
    hide Inv, ReadReady;
  }

  lemma CommitLeavesOwned(s: System)
    requires Inv(s) && Runnable(s)
    ensures PayloadsKept(s, CommitNext(s))
  {
    assert |s.store.slots| == SLOT_COUNT;
    hide Inv, ReadReady, CopyReady;
  }

  lemma TakeJobLeavesOwned(s: System)
    requires |s.store.slots| == SLOT_COUNT
    ensures PayloadsKept(s, TakeJobNext(s))
  {
    hide Oldest;
  }

  lemma SubmitLeavesOwned(s: System, bytes: Option<seq<Byte>>)
    requires |s.store.slots| == SLOT_COUNT
    ensures PayloadsKept(s, SubmitNext(s, bytes))
  {
    hide First;
  }

  // The encoder writes Opus bytes into its own slot, which nobody reads.
  lemma OpusLeavesOwned(s: System)
    requires Inv(s) && Runnable(s)
    ensures PayloadsKept(s, CopyOpusNext(s))
  {
    hide Conserved, EmittedInv, Distinct, ReaderInv, LogInv, FillingInv, IngesterInv, SlotInv, PairBytes, PairOf;
  }

  lemma EndEncodeLeavesOwned(s: System)
    requires |s.store.slots| == SLOT_COUNT && Runnable(s)
    ensures PayloadsKept(s, EndEncodeNext(s))
  {
    hide ReadReady, CopyReady;
  }

  lemma BeginPairLeavesOwned(s: System)
    requires |s.store.slots| == SLOT_COUNT
    ensures PayloadsKept(s, BeginPairNext(s))
  {
    hide First, Oldest;
  }

  lemma EndPairLeavesOwned(s: System)
    requires |s.store.slots| == SLOT_COUNT && Runnable(s)
    ensures PayloadsKept(s, EndPairNext(s))
  {
    hide PairBytes, PairOf;
  }

  lemma ResetLeavesOwned(s: System, generation: nat)
    requires |s.store.slots| == SLOT_COUNT
    ensures PayloadsKept(s, ResetNext(s, generation))
  {
    hide CancelAll;
  }

  /** The observer's history only grows: accepted frames and submitted packets are never rewritten. */
  lemma HistoryOnlyGrows(s: System, a: Action)
    requires Inv(s) && Runnable(s)
    ensures LogExtends(s.log, Next(s, a).log)
    ensures s.log.emitted <= Next(s, a).log.emitted
  {
    hide Conserved, EmittedInv, FillingInv, Distinct, Full, Encoded, First, Oldest, Written, CancelAll,
         WriteFrame, ReaderInv, LogInv, PairBytes, PairOf, Tag, SlotInv, Allocate;
  }

  /**
   With two or more completed epochs waiting, every reader call makes progress: it either claims an adjacent
   pair or retires exactly the oldest epoch as a discontinuity.
   */
  lemma ReaderMakesProgress(s: System, i: nat, j: nat)
    requires Inv(s) && s.rdr.RdIdle?
    requires i < SLOT_COUNT && j < SLOT_COUNT && i != j
    requires s.store.slots[i].state == Complete && s.store.slots[j].state == Complete
    ensures var (after, claim) := BeginPair(s.store);
            if claim.Some? then
              && claim.value.first != claim.value.second
              && s.store.slots[claim.value.first].state == Complete
              && s.store.slots[claim.value.second].state == Complete
              && s.store.slots[claim.value.second].epoch == s.store.slots[claim.value.first].epoch + 1
              && NonFree(after.slots) == NonFree(s.store.slots)
            else
              && NonFree(after.slots) + 1 == NonFree(s.store.slots)
              && after.stats.epochsDropped == s.store.stats.epochsDropped + 1
              && after.stats.epochDiscontinuities == s.store.stats.epochDiscontinuities + 1
  {
    hide EmittedInv, FillingInv, Full, Encoded, Oldest, First, EncoderInv, ReaderInv, NonFree, Conserved;
    assert SlotInv(s, s.store.slots[i], i) && SlotInv(s, s.store.slots[j], j);
    var first := Oldest(s.store.slots, Pairable(s.store.stats.generation));
    assert Matches(Pairable(s.store.stats.generation), s.store.slots[i]);
    assert Matches(Pairable(s.store.stats.generation), s.store.slots[j]);
    var k := if i == first then j else i;
    assert s.store.slots[k].epoch > s.store.slots[first].epoch;
    assert Matches(NewerComplete(s.store.slots[first].epoch), s.store.slots[k]);
    var after := BeginPair(s.store).0;
    NonFreeUpdate(s.store.slots, first, s.store.slots[first].(state := Free));
    if BeginPair(s.store).1.Some? {
      var second := BeginPair(s.store).1.value.second;
      var mid := s.store.slots[first := s.store.slots[first].(state := Reading)];
      NonFreeUpdate(s.store.slots, first, mid[first]);
      NonFreeUpdate(mid, second, mid[second].(state := Reading));
    }
  }

  /** A claimed pair that no reset interrupts is emitted. */
  lemma UninterruptedPairIsEmitted(s: System)
    requires Inv(s) && Runnable(s) && s.rdr.RdCopy? && |s.rdr.buffer| == PAIR_BYTES
    ensures s.rdr.claim.generation == s.store.stats.generation <==>
            |EndPairNext(s).log.emitted| == |s.log.emitted| + 1
  {
    hide EmittedInv, FillingInv, Full, Encoded, EncoderInv, LogInv, NonFree, Conserved, PairOf, PairBytes;
    assert SlotInv(s, s.store.slots[s.rdr.claim.first], s.rdr.claim.first);
    assert SlotInv(s, s.store.slots[s.rdr.claim.second], s.rdr.claim.second);
  }
}
