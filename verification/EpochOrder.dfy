/**
 Emission order. As long as the speaker flag of a generation never goes from on to off, the stages of the
 store are ordered by epoch, so pairs leave in strictly increasing epoch order.
 */
module EpochOrder {
  import opened Basics
  import opened EpochTypes
  import opened EpochSteps
  import opened EpochSystem
  import opened EpochInvariant
  import opened EpochSafety
  import opened EpochTheorems

  predicate Live(slot: Slot) {
    slot.state in {Filling, ReadyEncode, Encoding, Complete, Reading}
  }

  // How far a slot is from being emitted.
  function Rank(slot: Slot): nat {
    match slot.state
    case Reading => 0
    case Complete => 1
    case Encoding => 2
    case ReadyEncode => 3
    case _ => 4
  }

  /** Within generation g, once the speaker is on it stays on. */
  ghost predicate SpeakerStaysOn(log: History, g: nat) {
    var o := OpeningsOf(log, g);
    forall e, f :: 0 <= e < f < |o| && o[e].speakerEnabled ==> o[f].speakerEnabled
  }

  predicate InOrder(a: Slot, b: Slot) {
    Live(a) && Live(b) && Rank(a) < Rank(b) ==> a.epoch < b.epoch
  }

  ghost predicate StagesOrdered(slots: seq<Slot>) {
    forall i, j :: 0 <= i < |slots| && 0 <= j < |slots| ==> InOrder(slots[i], slots[j])
  }

  ghost predicate Behind(epoch: nat, slots: seq<Slot>) {
    forall i :: 0 <= i < |slots| && Live(slots[i]) ==> epoch < slots[i].epoch
  }

  ghost predicate EmittedBehind(s: System) {
    forall k :: 0 <= k < |s.log.emitted| && s.log.emitted[k].generation == s.store.stats.generation ==>
      && s.log.emitted[k].firstEpoch + 1 < s.store.stats.nextEpoch
      && Behind(s.log.emitted[k].firstEpoch + 1, s.store.slots)
  }

  /** The pairs emitted for generation g, in emission order, have strictly increasing epochs. */
  ghost predicate EmittedInOrder(log: History, g: nat) {
    forall k, m :: 0 <= k < m < |log.emitted| && log.emitted[k].generation == g == log.emitted[m].generation
                   ==> log.emitted[k].firstEpoch + 1 < log.emitted[m].firstEpoch
  }

  ghost predicate GenerationsInOrder(s: System) {
    && (forall k :: 0 <= k < |s.log.emitted| ==> s.log.emitted[k].generation <= s.store.stats.generation)
    && (forall k, m :: 0 <= k < m < |s.log.emitted| ==>
          s.log.emitted[k].generation <= s.log.emitted[m].generation)
  }

  ghost predicate OrderInv(s: System) {
    && GenerationsInOrder(s)
    && (SpeakerStaysOn(s.log, s.store.stats.generation) ==> StagesOrdered(s.store.slots) && EmittedBehind(s))
    && (forall g :: SpeakerStaysOn(s.log, g) ==> EmittedInOrder(s.log, g))
  }

  /** What the order argument needs to know about the slots. */
  ghost predicate LiveFacts(s: System) {
    && |s.store.slots| == SLOT_COUNT
    && Distinct(s.store.slots)
    && forall i :: 0 <= i < SLOT_COUNT && Live(s.store.slots[i]) ==>
         && s.store.slots[i].generation == s.store.stats.generation
         && s.store.slots[i].epoch < s.store.stats.nextEpoch
         && OpenedAs(s.store.slots[i], s.log)
         && (s.store.slots[i].state == ReadyEncode || s.store.slots[i].state == Encoding ==>
               s.store.slots[i].speakerEnabled)
         && (s.store.slots[i].state == Encoding ==> EncoderOwns(s.enc, i))
         && (s.store.slots[i].state == Reading ==> ReaderOwns(s.rdr, i))
         && (s.store.slots[i].state == Filling ==> s.store.filling == i)
  }

  lemma InvGivesLiveFacts(s: System)
    requires Inv(s)
    ensures LiveFacts(s)
  {
    hide EmittedInv, Written, IngesterInv, FillingInv, EncoderInv, ReaderInv, LogInv, Conserved, EpochPart, OpenedAs;
    forall i | 0 <= i < SLOT_COUNT && Live(s.store.slots[i])
      ensures SlotInv(s, s.store.slots[i], i)
    {
    }
  }

  lemma SpeakerFlagLookedBack(a: History, b: History, g: nat)
    requires LogExtends(a, b) && SpeakerStaysOn(b, g)
    ensures SpeakerStaysOn(a, g)
  {
    assert OpeningsOf(a, g) <= OpeningsOf(b, g);
  }

  /** Nothing is emitted by the step, and the slots keep their order: the order invariant carries over. */
  lemma OrderCarries(s: System, t: System)
    requires OrderInv(s) && LogExtends(s.log, t.log) && t.log.emitted == s.log.emitted
    requires t.store.stats.generation == s.store.stats.generation
    requires SpeakerStaysOn(t.log, t.store.stats.generation) && StagesOrdered(s.store.slots) && EmittedBehind(s)
             ==> StagesOrdered(t.store.slots) && EmittedBehind(t)
    ensures OrderInv(t)
  {
    hide StagesOrdered, EmittedBehind;
    forall g | SpeakerStaysOn(t.log, g)
      ensures SpeakerStaysOn(s.log, g)
    {
      SpeakerFlagLookedBack(s.log, t.log, g);
    }
  }

  /** Steps after which every live slot was live before, with the same epoch, leave emissions behind. */
  ghost predicate LiveBefore(a: seq<Slot>, b: seq<Slot>) {
    |a| == |b| && forall i :: 0 <= i < |a| && Live(b[i]) ==> Live(a[i]) && b[i].epoch == a[i].epoch
  }

  lemma BehindCarries(s: System, t: System)
    requires EmittedBehind(s) && LiveBefore(s.store.slots, t.store.slots)
    requires t.log.emitted == s.log.emitted
    requires t.store.stats.generation == s.store.stats.generation
    requires t.store.stats.nextEpoch == s.store.stats.nextEpoch
    ensures EmittedBehind(t)
  {
    forall k | 0 <= k < |t.log.emitted| && t.log.emitted[k].generation == t.store.stats.generation
      ensures Behind(t.log.emitted[k].firstEpoch + 1, t.store.slots)
    {
      assert Behind(s.log.emitted[k].firstEpoch + 1, s.store.slots);
    }
  }

  /** Slot i moves to another stage, ahead of and behind the right neighbours. */
  lemma OneSlotMoves(slots: seq<Slot>, i: nat, slot: Slot)
    requires StagesOrdered(slots) && i < |slots|
    requires forall j :: 0 <= j < |slots| && j != i ==> InOrder(slots[j], slot) && InOrder(slot, slots[j])
    ensures StagesOrdered(slots[i := slot])
  {
    hide InOrder;
    var after := slots[i := slot];
    assert InOrder(slot, slot) by { InOrderSelf(slot); }
    forall j, k | 0 <= j < |after| && 0 <= k < |after|
      ensures InOrder(after[j], after[k])
    {
      if j != i && k != i {
        assert InOrder(slots[j], slots[k]);
      }
    }
  }

  lemma InOrderSelf(slot: Slot)
    ensures InOrder(slot, slot)
  {
  }

  lemma HarmlessStep(s: System, t: System)
    requires OrderInv(s) && LogExtends(s.log, t.log) && t.log.emitted == s.log.emitted
    requires t.store.stats.generation == s.store.stats.generation
    requires t.store.stats.nextEpoch == s.store.stats.nextEpoch
    requires |t.store.slots| == |s.store.slots|
    requires forall i :: 0 <= i < |s.store.slots| && Live(t.store.slots[i]) ==>
               && t.store.slots[i].state == s.store.slots[i].state
               && t.store.slots[i].epoch == s.store.slots[i].epoch
    ensures OrderInv(t)
  {
    if StagesOrdered(s.store.slots) && EmittedBehind(s) {
      BehindCarries(s, t);
      forall i, j | 0 <= i < |t.store.slots| && 0 <= j < |t.store.slots|
        ensures InOrder(t.store.slots[i], t.store.slots[j])
      {
        assert InOrder(s.store.slots[i], s.store.slots[j]);
      }
    }
    OrderCarries(s, t);
  }

  lemma ClaimKeepsOrder(s: System)
    requires Inv(s) && Runnable(s) && OrderInv(s)
    ensures OrderInv(ClaimNext(s))
  {
    var t := ClaimNext(s);
    HistoryOnlyGrows(s, ClaimRegion);
    ClaimKeepsEmitted(s);
    InvGivesLiveFacts(s);
    ClaimChangesOneSlot(s);
    hide Inv, Runnable, OrderInv, ClaimNext, OpenedAs, LiveFacts, OpensEpochIn, StagesOrdered, EmittedBehind;
    if t.store.slots == s.store.slots && t.store.stats.nextEpoch == s.store.stats.nextEpoch {
      HarmlessStep(s, t);
    } else {
      var sel :| 0 <= sel < SLOT_COUNT && OpensEpochIn(s, t, sel);
      if StagesOrdered(s.store.slots) && EmittedBehind(s) {
        OpeningKeepsStages(s, t, sel);
        OpeningStaysBehind(s, t, sel);
      }
      OrderCarries(s, t);
    }
  }

  // A newly opened epoch is behind every live one.
  lemma OpeningKeepsStages(s: System, t: System, sel: nat)
    requires LiveFacts(s) && sel < SLOT_COUNT == |t.store.slots| && OpensEpochIn(s, t, sel) && StagesOrdered(s.store.slots)
    ensures StagesOrdered(t.store.slots)
  {
    hide OpenedAs, StagesOrdered, Distinct;
    forall j | 0 <= j < SLOT_COUNT && j != sel
      ensures InOrder(s.store.slots[j], t.store.slots[sel]) && InOrder(t.store.slots[sel], s.store.slots[j])
    {
    }
    OneSlotMoves(s.store.slots, sel, t.store.slots[sel]);
  }

  lemma OpeningStaysBehind(s: System, t: System, sel: nat)
    requires LiveFacts(s) && sel < SLOT_COUNT == |t.store.slots| && OpensEpochIn(s, t, sel) && EmittedBehind(s)
    requires t.log.emitted == s.log.emitted && t.store.stats.generation == s.store.stats.generation
    ensures EmittedBehind(t)
  {
    hide OpenedAs, Distinct;
    forall k | 0 <= k < |t.log.emitted| && t.log.emitted[k].generation == t.store.stats.generation
      ensures Behind(t.log.emitted[k].firstEpoch + 1, t.store.slots)
    {
      assert Behind(s.log.emitted[k].firstEpoch + 1, s.store.slots);
    }
  }

  ghost predicate OpensEpochIn(s: System, t: System, sel: int)
    requires |s.store.slots| == |t.store.slots| == SLOT_COUNT && 0 <= sel < SLOT_COUNT
  {
    && s.store.filling == INVALID_SLOT
    && t.store.slots == s.store.slots[sel := t.store.slots[sel]]
    && t.store.slots[sel].state == Filling && t.store.slots[sel].epoch == s.store.stats.nextEpoch
    && t.store.stats.nextEpoch == s.store.stats.nextEpoch + 1
  }

  lemma ClaimChangesOneSlot(s: System)
    requires Inv(s)
    ensures var t := ClaimNext(s);
            && |t.store.slots| == SLOT_COUNT
            && t.store.stats.generation == s.store.stats.generation
            && ((t.store.slots == s.store.slots && t.store.stats.nextEpoch == s.store.stats.nextEpoch) ||
                (exists sel :: 0 <= sel < SLOT_COUNT && OpensEpochIn(s, t, sel)))
  {
    hide EmittedInv, EncoderInv, ReaderInv, LogInv, Conserved, SlotInv, IngesterInv, First, Oldest, Accept, Written,
         Distinct;
    var t := ClaimNext(s);
    if t.store.slots != s.store.slots || t.store.stats.nextEpoch != s.store.stats.nextEpoch {
      var a := Allocate(s.store, s.ing.call.capturedUs, s.ing.call.speakerEnabled);
      assert 0 <= a.selected < SLOT_COUNT && OpensEpochIn(s, t, a.selected);
    }
  }

  lemma ClaimKeepsEmitted(s: System)
    requires Runnable(s)
    ensures ClaimNext(s).log.emitted == s.log.emitted
  {
    hide Tag;
  }

  /** Filling ends: the newest epoch waits for the encoder, or is complete at once when the speaker is off. */
  lemma CommitKeepsOrder(s: System)
    requires Inv(s) && Runnable(s) && OrderInv(s)
    ensures OrderInv(CommitNext(s))
  {
    InvGivesLiveFacts(s);
    var t := CommitNext(s);
    if t.store == s.store {
      HarmlessStep(s, t);
    } else {
      var sel := s.ing.selected;
      hide EmittedInv, EncoderInv, ReaderInv, LogInv, Conserved, SlotInv, SlotsInv, OrderInv, IngesterInv, Written;
      assert s.store.slots[sel].state == Filling;
      assert t.store.slots == s.store.slots[sel := t.store.slots[sel]];
      if SpeakerStaysOn(s.log, s.store.stats.generation) && StagesOrdered(s.store.slots) && EmittedBehind(s) {
        forall j | 0 <= j < SLOT_COUNT && j != sel
          ensures InOrder(s.store.slots[j], t.store.slots[sel]) && InOrder(t.store.slots[sel], s.store.slots[j])
        {
          assert InOrder(s.store.slots[j], s.store.slots[sel]);
        }
        hide CommitNext, FillingInv, InOrder;
        OneSlotMoves(s.store.slots, sel, t.store.slots[sel]);
        BehindCarries(s, t);
      }
      OrderCarries(s, t);
    }
  }

  lemma TakeJobKeepsOrder(s: System)
    requires Inv(s) && OrderInv(s)
    ensures OrderInv(TakeJobNext(s))
  {
    var t := TakeJobNext(s);
    TakeJobLeavesLive(s);
    if StagesOrdered(s.store.slots) && EmittedBehind(s) {
      TakenJobInOrder(s);
      BehindCarries(s, t);
    }
    hide Inv, OrderInv, StagesOrdered, EmittedBehind, TakeJob;
    OrderCarries(s, t);
  }

  lemma TakeJobLeavesLive(s: System)
    ensures var t := TakeJobNext(s);
            && LiveBefore(s.store.slots, t.store.slots) && t.log == s.log
            && t.store.stats.generation == s.store.stats.generation && t.store.stats.nextEpoch == s.store.stats.nextEpoch
  {
    hide Oldest;
  }

  lemma TakenJobInOrder(s: System)
    requires Inv(s) && StagesOrdered(s.store.slots)
    ensures StagesOrdered(TakeJobNext(s).store.slots)
  {
    InvGivesLiveFacts(s);
    hide EmittedInv, ReaderInv, LogInv, Conserved, SlotInv, SlotsInv, FillingInv, IngesterInv, Oldest, EncoderInv, OpenedAs;
    var t := TakeJobNext(s);
    if t.store.slots != s.store.slots {
      var sel := TakeJob(s.store).1.value.slot;
      assert t.store.slots == s.store.slots[sel := s.store.slots[sel].(state := Encoding)];
      hide TakeJob;
      forall j | 0 <= j < SLOT_COUNT && j != sel
        ensures InOrder(s.store.slots[j], t.store.slots[sel]) && InOrder(t.store.slots[sel], s.store.slots[j])
      {
        assert InOrder(s.store.slots[j], s.store.slots[sel]) && InOrder(s.store.slots[sel], s.store.slots[j]);
        assert s.store.slots[j].state == ReadyEncode ==> Matches(Encodable(s.store.stats.generation), s.store.slots[j]);
      }
      OneSlotMoves(s.store.slots, sel, t.store.slots[sel]);
    }
  }

  lemma EndEncodeKeepsOrder(s: System)
    requires Inv(s) && Runnable(s) && OrderInv(s)
    ensures OrderInv(EndEncodeNext(s))
  {
    InvGivesLiveFacts(s);
    var t := EndEncodeNext(s);
    EndEncodeMoves(s);
    hide Inv, Runnable, OrderInv, OpenedAs, EndEncodeNext, StagesOrdered, EmittedBehind, LiveFacts;
    if Completed(s, t) {
      if StagesOrdered(s.store.slots) && EmittedBehind(s) {
        EncodedInOrder(s, t);
        EncodedLeavesLive(s, t);
        BehindCarries(s, t);
      }
      OrderCarries(s, t);
    } else {
      HarmlessStep(s, t);
    }
  }

  // The encoder's slot went from ENCODING to COMPLETE, and nothing else changed.
  ghost predicate Completed(s: System, t: System) {
    && |s.store.slots| == SLOT_COUNT && s.enc.EncCopy? && s.enc.slot < SLOT_COUNT
    && s.store.slots[s.enc.slot].state == Encoding
    && t.store.slots == s.store.slots[s.enc.slot := s.store.slots[s.enc.slot].(state := Complete)]
  }

  lemma EndEncodeMoves(s: System)
    requires Inv(s)
    ensures var t := EndEncodeNext(s);
            && t.log == s.log && |t.store.slots| == |s.store.slots| == SLOT_COUNT
            && t.store.stats.generation == s.store.stats.generation
            && t.store.stats.nextEpoch == s.store.stats.nextEpoch
            && (Completed(s, t) ||
                forall i :: 0 <= i < SLOT_COUNT && Live(t.store.slots[i]) ==>
                  && t.store.slots[i].state == s.store.slots[i].state
                  && t.store.slots[i].epoch == s.store.slots[i].epoch)
  {
    hide EmittedInv, ReaderInv, LogInv, Conserved, SlotInv, FillingInv, IngesterInv, Distinct;
  }

  lemma EncodedInOrder(s: System, t: System)
    requires LiveFacts(s) && Completed(s, t) && StagesOrdered(s.store.slots)
    ensures StagesOrdered(t.store.slots)
  {
    hide OpenedAs, Distinct;
    var sel := s.enc.slot;
    forall j | 0 <= j < SLOT_COUNT && j != sel
      ensures InOrder(s.store.slots[j], t.store.slots[sel]) && InOrder(t.store.slots[sel], s.store.slots[j])
    {
      assert InOrder(s.store.slots[j], s.store.slots[sel]) && InOrder(s.store.slots[sel], s.store.slots[j]);
    }
    OneSlotMoves(s.store.slots, sel, t.store.slots[sel]);
  }

  lemma EncodedLeavesLive(s: System, t: System)
    requires Completed(s, t)
    ensures LiveBefore(s.store.slots, t.store.slots)
  {
  }

  lemma BeginPairKeepsOrder(s: System)
    requires Inv(s) && OrderInv(s)
    ensures OrderInv(BeginPairNext(s))
  {
    if !s.rdr.RdIdle? || BeginPairNext(s).rdr.RdIdle? {
      NoPairKeepsOrder(s);
    } else {
      ClaimedPairKeepsOrder(s);
    }
  }

  lemma NoPairKeepsOrder(s: System)
    requires Inv(s) && OrderInv(s) && (!s.rdr.RdIdle? || BeginPairNext(s).rdr.RdIdle?)
    ensures OrderInv(BeginPairNext(s))
  {
    NoPairLeavesLive(s);
    hide Inv, OrderInv, BeginPair;
    HarmlessStep(s, BeginPairNext(s));
  }

  lemma NoPairLeavesLive(s: System)
    requires !s.rdr.RdIdle? || BeginPairNext(s).rdr.RdIdle?
    ensures var t := BeginPairNext(s);
            && |t.store.slots| == |s.store.slots|
            && t.store.stats.generation == s.store.stats.generation && t.store.stats.nextEpoch == s.store.stats.nextEpoch
            && forall i :: 0 <= i < |s.store.slots| && Live(t.store.slots[i]) ==>
                 && t.store.slots[i].state == s.store.slots[i].state
                 && t.store.slots[i].epoch == s.store.slots[i].epoch
  {
    hide Oldest, First;
  }

  lemma ClaimedPairKeepsOrder(s: System)
    requires Inv(s) && OrderInv(s) && s.rdr.RdIdle? && BeginPairNext(s).rdr.RdCopy?
    ensures OrderInv(BeginPairNext(s))
  {
    InvGivesLiveFacts(s);
    ClaimLeavesLive(s);
    hide EmittedInv, EncoderInv, ReaderInv, LogInv, Conserved, SlotInv, SlotsInv, OrderInv, IngesterInv, FillingInv,
         BeginPair, OpenedAs;
    var t := BeginPairNext(s);
    if StagesOrdered(s.store.slots) && EmittedBehind(s) {
      ClaimedPairInOrder(s);
      BehindCarries(s, t);
    }
    OrderCarries(s, t);
  }

  lemma ClaimLeavesLive(s: System)
    requires s.rdr.RdIdle? && BeginPairNext(s).rdr.RdCopy?
    ensures var t := BeginPairNext(s);
            && LiveBefore(s.store.slots, t.store.slots)
            && t.store.stats.generation == s.store.stats.generation && t.store.stats.nextEpoch == s.store.stats.nextEpoch
  {
    hide Oldest, First;
  }

  lemma ClaimedPairInOrder(s: System)
    requires Inv(s) && LiveFacts(s) && StagesOrdered(s.store.slots) && s.rdr.RdIdle?
    requires BeginPairNext(s).rdr.RdCopy?
    ensures StagesOrdered(BeginPairNext(s).store.slots)
  {
    hide EmittedInv, EncoderInv, ReaderInv, LogInv, Conserved, SlotInv, SlotsInv, IngesterInv, FillingInv,
         Oldest, First, OpenedAs;
    var t := BeginPairNext(s);
    var c := t.rdr.claim;
    var a := s.store.slots[c.first];
    var b := s.store.slots[c.second];
    assert a.epoch + 1 == b.epoch && a.state == Complete && b.state == Complete;
    forall j | 0 <= j < SLOT_COUNT && j != c.first && j != c.second && Live(s.store.slots[j])
      ensures Rank(s.store.slots[j]) > 0 && b.epoch < s.store.slots[j].epoch
    {
      assert InOrder(a, s.store.slots[j]) && InOrder(b, s.store.slots[j]);
      assert Matches(Pairable(s.store.stats.generation), s.store.slots[j]) <==> s.store.slots[j].state == Complete;
    }
    hide BeginPair;
    forall i, j | 0 <= i < SLOT_COUNT && 0 <= j < SLOT_COUNT
      ensures InOrder(t.store.slots[i], t.store.slots[j])
    {
      assert InOrder(s.store.slots[i], s.store.slots[j]);
    }
  }

  ghost predicate Emits(s: System, t: System, p: Pair)
    requires s.rdr.RdCopy? && |s.store.slots| == SLOT_COUNT
  {
    var c := s.rdr.claim;
    && c.first < SLOT_COUNT && c.second < SLOT_COUNT && c.first != c.second
    && s.store.slots[c.first].state == Reading && s.store.slots[c.second].state == Reading
    && s.store.slots[c.first].epoch == p.firstEpoch && s.store.slots[c.second].epoch == p.firstEpoch + 1
    && p.generation == s.store.stats.generation == t.store.stats.generation
    && t.store.stats.nextEpoch == s.store.stats.nextEpoch
    && t.store.slots == s.store.slots[c.first := s.store.slots[c.first].(state := Free)]
                                     [c.second := s.store.slots[c.second].(state := Free)]
    && t.log == s.log.(emitted := s.log.emitted + [p])
  }

  lemma EmissionKeepsOrder(s: System, t: System, p: Pair)
    requires LiveFacts(s) && OrderInv(s) && s.rdr.RdCopy? && Emits(s, t, p)
    ensures OrderInv(t)
  {
    hide OpenedAs;
    var c := s.rdr.claim;
    forall g | SpeakerStaysOn(t.log, g)
      ensures SpeakerStaysOn(s.log, g) && EmittedInOrder(t.log, g)
    {
      SpeakerFlagLookedBack(s.log, t.log, g);
      assert EmittedInOrder(s.log, g);
      if g == p.generation {
        forall k | 0 <= k < |s.log.emitted| && s.log.emitted[k].generation == g
          ensures s.log.emitted[k].firstEpoch + 1 < p.firstEpoch
        {
          assert Behind(s.log.emitted[k].firstEpoch + 1, s.store.slots);
        }
      }
    }
    if SpeakerStaysOn(t.log, p.generation) {
      forall i | 0 <= i < SLOT_COUNT && Live(t.store.slots[i])
        ensures p.firstEpoch + 1 < t.store.slots[i].epoch
      {
        assert InOrder(s.store.slots[c.second], s.store.slots[i]);
      }
      forall i, j | 0 <= i < SLOT_COUNT && 0 <= j < SLOT_COUNT
        ensures InOrder(t.store.slots[i], t.store.slots[j])
      {
        assert InOrder(s.store.slots[i], s.store.slots[j]);
      }
      forall k | 0 <= k < |t.log.emitted| && t.log.emitted[k].generation == t.store.stats.generation
        ensures Behind(t.log.emitted[k].firstEpoch + 1, t.store.slots)
      {
        if k < |s.log.emitted| {
          assert Behind(s.log.emitted[k].firstEpoch + 1, s.store.slots);
        }
      }
    }
  }

  lemma EndPairKeepsOrder(s: System)
    requires Inv(s) && Runnable(s) && OrderInv(s)
    ensures OrderInv(EndPairNext(s))
  {
    InvGivesLiveFacts(s);
    var t := EndPairNext(s);
    hide EmittedInv, EncoderInv, LogInv, Conserved, SlotInv, SlotsInv, FillingInv, IngesterInv, PairBytes, OpenedAs,
         OrderInv;
    if t.log == s.log {
      HarmlessStep(s, t);
    } else {
      var p := t.log.emitted[|s.log.emitted|];
      assert Emits(s, t, p);
      hide EndPairNext;
      EmissionKeepsOrder(s, t, p);
    }
  }

  lemma ResetKeepsOrder(s: System, generation: nat)
    requires Inv(s) && OrderInv(s)
    ensures OrderInv(ResetNext(s, generation))
  {
    hide EmittedInv, EncoderInv, ReaderInv, LogInv, Conserved, SlotInv, FillingInv, IngesterInv, CancelAll, RetiredCount;
    var t := ResetNext(s, generation);
  }

  lemma NextKeepsOrder(s: System, a: Action)
    requires Inv(s) && Runnable(s) && OrderInv(s)
    ensures OrderInv(Next(s, a))
  {
    match a
    case ClaimRegion => ClaimKeepsOrder(s);
    case CommitRegion => CommitKeepsOrder(s);
    case TakeJobRegion => TakeJobKeepsOrder(s);
    case EndEncodeRegion => EndEncodeKeepsOrder(s);
    case BeginPairRegion => BeginPairKeepsOrder(s);
    case EndPairRegion => EndPairKeepsOrder(s);
    case ResetRegion(g) => ResetKeepsOrder(s, g);
    case _ => QuietStepKeepsOrder(s, a);
  }

  lemma QuietStepKeepsOrder(s: System, a: Action)
    requires Inv(s) && Runnable(s) && OrderInv(s)
    requires a.EnterIngest? || a.CopyFrame? || a.StoreFrameCount? || a.SubmitRegion? || a.CopyOpusByte? ||
             a.CopyPairByte?
    ensures OrderInv(Next(s, a))
  {
    hide EmittedInv, ReaderInv, LogInv, Conserved, SlotInv, OrderInv, FillingInv, IngesterInv, First, PairBytes,
         WriteFrame;
    HistoryOnlyGrows(s, a);
    QuietStepKeepsStages(s, a);
    HarmlessStep(s, Next(s, a));
  }

  lemma QuietStepKeepsStages(s: System, a: Action)
    requires Inv(s) && Runnable(s)
    requires a.EnterIngest? || a.CopyFrame? || a.StoreFrameCount? || a.SubmitRegion? || a.CopyOpusByte? ||
             a.CopyPairByte?
    ensures var t := Next(s, a);
            && t.log.emitted == s.log.emitted
            && t.store.stats.generation == s.store.stats.generation
            && t.store.stats.nextEpoch == s.store.stats.nextEpoch
            && |t.store.slots| == |s.store.slots|
            && forall i :: 0 <= i < |s.store.slots| && Live(t.store.slots[i]) ==>
                 && t.store.slots[i].state == s.store.slots[i].state
                 && t.store.slots[i].epoch == s.store.slots[i].epoch
  {
    hide Inv, First, PairBytes;
  }

  lemma {:induction false} RunsAreOrdered(states: seq<System>, actions: seq<Action>, n: nat)
    requires Run(states, actions) && n < |states|
    ensures Inv(states[n]) && OrderInv(states[n])
  {
    hide Inv, OrderInv, Next, Initial, Runnable;
    RunKeepsInv(states, actions, n);
    if n == 0 {
      InitialOrder(states[0]);
    } else {
      RunsAreOrdered(states, actions, n - 1);
      NextKeepsOrder(states[n - 1], actions[n - 1]);
    }
  }

  lemma InitialOrder(s: System)
    requires exists generation :: s == Initial(generation)
    ensures OrderInv(s)
  {
  }

  /**
   In a generation whose speaker flag never goes from on to off, the pairs returned to the reader have
   strictly increasing epochs; generations themselves never go backwards.
   */
  lemma PairsLeaveInOrder(states: seq<System>, actions: seq<Action>, n: nat, k: nat, m: nat)
    requires Run(states, actions) && n < |states| && k < m < |states[n].log.emitted|
    ensures var log := states[n].log;
            && log.emitted[k].generation <= log.emitted[m].generation
            && (log.emitted[k].generation == log.emitted[m].generation &&
                SpeakerStaysOn(log, log.emitted[k].generation) ==>
                  log.emitted[k].firstEpoch + 1 < log.emitted[m].firstEpoch)
  {
    hide Run, Inv, StagesOrdered, EmittedBehind;
    RunsAreOrdered(states, actions, n);
    var log := states[n].log;
    if SpeakerStaysOn(log, log.emitted[k].generation) {
      assert EmittedInOrder(log, log.emitted[k].generation);
    }
  }

  /** The same condition keeps the stages of the pipeline ordered at every moment. */
  lemma StagesAreOrdered(states: seq<System>, actions: seq<Action>, n: nat, i: nat, j: nat)
    requires Run(states, actions) && n < |states| && i < SLOT_COUNT && j < SLOT_COUNT
    requires SpeakerStaysOn(states[n].log, states[n].store.stats.generation)
    ensures var slots := states[n].store.slots;
            && |slots| == SLOT_COUNT
            && (slots[i].state == Complete && slots[j].state == Encoding ==> slots[i].epoch < slots[j].epoch)
            && (slots[i].state == Encoding && slots[j].state == ReadyEncode ==> slots[i].epoch < slots[j].epoch)
            && (slots[i].state == Complete && slots[j].state == ReadyEncode ==> slots[i].epoch < slots[j].epoch)
            && (slots[i].state in {Complete, Encoding, ReadyEncode} && slots[j].state == Filling ==>
                  slots[i].epoch < slots[j].epoch)
  {
    hide Run, SlotInv, EmittedBehind, EmittedInOrder, Distinct, FillingInv, IngesterInv, EncoderInv, ReaderInv, LogInv,
         Conserved, EmittedInv;
    RunsAreOrdered(states, actions, n);
    assert InOrder(states[n].store.slots[i], states[n].store.slots[j]);
  }

  // The epoch just filled is the newest, and every other live slot is past filling.
  lemma FilledIsNewest(s: System, j: nat)
    requires Inv(s) && s.ing.IngCommit? && s.ing.complete && s.ing.call.generation == s.store.stats.generation
    requires StagesOrdered(s.store.slots)
    ensures var sel := s.ing.selected;
            && sel < SLOT_COUNT == |s.store.slots| && s.store.slots[sel].state == Filling
            && CommitNext(s).store.slots == s.store.slots[sel := CommitNext(s).store.slots[sel]]
            && CommitNext(s).store.slots[sel] == s.store.slots[sel].(state := CommitNext(s).store.slots[sel].state)
            && CommitNext(s).store.slots[sel].state == (if s.store.slots[sel].speakerEnabled then ReadyEncode else Complete)
            && (j < SLOT_COUNT && j != sel && Live(s.store.slots[j]) ==>
                  s.store.slots[j].epoch < s.store.slots[sel].epoch && s.store.slots[j].state != Filling)
  {
    InvGivesLiveFacts(s);
    hide EmittedInv, EncoderInv, ReaderInv, LogInv, Conserved, SlotInv, SlotsInv, Written, OpenedAs;
    if j < SLOT_COUNT {
      assert InOrder(s.store.slots[j], s.store.slots[s.ing.selected]);
    }
  }

  // Slot sel of `slots`, filled and newest, moves to `slot`.
  ghost predicate NewestFilled(slots: seq<Slot>, sel: nat, slot: Slot) {
    && |slots| == SLOT_COUNT && sel < SLOT_COUNT && StagesOrdered(slots)
    && slots[sel].state == Filling
    && slot == slots[sel].(state := if slots[sel].speakerEnabled then ReadyEncode else Complete)
    && forall j :: 0 <= j < SLOT_COUNT && j != sel && Live(slots[j]) ==>
                     slots[j].epoch < slots[sel].epoch && slots[j].state != Filling
  }

  predicate AtEncoder(slot: Slot) {
    slot.state == ReadyEncode || slot.state == Encoding
  }

  lemma OvertakesWaiting(slots: seq<Slot>, sel: nat, slot: Slot, i: nat)
    requires NewestFilled(slots, sel, slot) && StagesOrdered(slots[sel := slot])
    requires !slots[sel].speakerEnabled && i < SLOT_COUNT
    ensures !AtEncoder(slots[i])
  {
    assert InOrder(slots[sel := slot][sel], slots[sel := slot][i]);
  }

  lemma OvertakesNobody(slots: seq<Slot>, sel: nat, slot: Slot)
    requires NewestFilled(slots, sel, slot)
    requires slots[sel].speakerEnabled || forall i :: 0 <= i < SLOT_COUNT ==> !AtEncoder(slots[i])
    ensures StagesOrdered(slots[sel := slot])
  {
    hide StagesOrdered;
    OneSlotMoves(slots, sel, slot);
  }

  /**
   Where the order is lost, exactly: an epoch completed with the speaker off overtakes if and only if an
   earlier epoch still waits for, or is inside, the encoder.
   */
  lemma SpeakerOffOvertakesExactly(s: System)
    requires Inv(s) && s.ing.IngCommit? && s.ing.complete && s.ing.call.generation == s.store.stats.generation
    requires StagesOrdered(s.store.slots)
    ensures StagesOrdered(CommitNext(s).store.slots) <==>
            s.store.slots[s.ing.selected].speakerEnabled ||
            forall i :: 0 <= i < SLOT_COUNT ==> !AtEncoder(s.store.slots[i])
  {
    var slots, sel := s.store.slots, s.ing.selected;
    var slot := CommitNext(s).store.slots[sel];
    FilledIsNewest(s, 0);
    forall j: nat | true
      ensures j < SLOT_COUNT && j != sel && Live(slots[j]) ==> slots[j].epoch < slots[sel].epoch && slots[j].state != Filling
    {
      FilledIsNewest(s, j);
    }
    hide Inv, CommitNext, Live, AtEncoder, StagesOrdered;
    assert NewestFilled(slots, sel, slot);
    if StagesOrdered(slots[sel := slot]) && !slots[sel].speakerEnabled {
      forall i | 0 <= i < SLOT_COUNT
        ensures !AtEncoder(slots[i])
      {
        OvertakesWaiting(slots, sel, slot, i);
      }
    } else if slots[sel].speakerEnabled || forall i :: 0 <= i < SLOT_COUNT ==> !AtEncoder(slots[i]) {
      OvertakesNobody(slots, sel, slot);
    }
  }
}
