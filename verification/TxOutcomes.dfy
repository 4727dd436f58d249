/** What each scheduler call does, for every state: the whole outcome, without its algorithm. */
module TxOutcomes {
  import opened Basics
  import opened EpochTypes
  import opened TxSteps

  // ---- select ----

  // A realtime item that is of the current generation and at most 64 ms old.
  ghost predicate Fresh(s: Scheduler, i: nat, nowUs: nat) {
    && i < |s.rt| && s.rt[i].pending
    && s.rt[i].payload.generation == s.generation
    && nowUs <= s.rt[i].createdUs + 64000
  }

  ghost predicate FreshState<T>(slot: StateSlot<T>, generation: nat) {
    slot.pending && slot.generation == generation
  }

  ghost predicate OldestFresh(s: Scheduler, i: nat, nowUs: nat) {
    && Fresh(s, i, nowUs)
    && forall j: nat :: Fresh(s, j, nowUs) && j != i ==> s.rt[i].sequence < s.rt[j].sequence
  }

  function Emptied(rt: seq<RtSlot>, i: nat, b: bool): (r: seq<RtSlot>)
    requires i < |rt|
    ensures |r| == |rt|
  {
    if b then rt[i := rt[i].(pending := false)] else rt
  }

  /** The clean-up keeps exactly what is fresh. */
  lemma CleanUpKeepsFresh(s: Scheduler, nowUs: nat, e: Eligible)
    requires Shaped(s)
    ensures var t := Select(s, nowUs, e).0;
            && |t.rt| == |s.rt|
            && (forall i: nat :: i < |s.rt| ==> t.rt[i] == s.rt[i].(pending := Fresh(s, i, nowUs)))
            && t.s31 == s.s31.(pending := FreshState(s.s31, s.generation))
            && t.s32 == s.s32.(pending := FreshState(s.s32, s.generation))
            && t == s.(rt := t.rt, s31 := t.s31, s32 := t.s32, rtMetrics := t.rtMetrics, m31 := t.m31, m32 := t.m32)
  {
    hide RetireMetric, Pick;
  }

  // What the caller's mask and the clean-up leave to choose from.
  ghost predicate Choice(s: Scheduler, nowUs: nat, e: Eligible, c: TxClass) {
    match c
    case Realtime => e.realtime && exists i: nat :: Fresh(s, i, nowUs)
    case State31 => e.state31 && FreshState(s.s31, s.generation)
    case State32 => e.state32 && FreshState(s.s32, s.generation)
    case NoClass => false
  }

  /**
   Which class is selected. Only a class of the mask with a fresh item is; nothing is selected exactly when there
   is none. Realtime goes first until three items went out in a row with a state item ready, and of two ready
   state classes the one whose turn it is goes first.
   */
  lemma SelectedClass(s: Scheduler, nowUs: nat, e: Eligible)
    requires Shaped(s)
    ensures var picked := Select(s, nowUs, e).1;
            var rt, r31, r32 := Choice(s, nowUs, e, Realtime), Choice(s, nowUs, e, State31), Choice(s, nowUs, e, State32);
            && (picked.None? <==> !rt && !r31 && !r32)
            && (picked.Some? ==>
                  && (picked.value.txClass == Realtime <==> rt && (s.rtBurst < 3 || (!r31 && !r32)))
                  && (picked.value.txClass == State31 <==> r31 && !(rt && s.rtBurst < 3) && !(s.nextStateClass == State32 && r32))
                  && (picked.value.txClass == State32 <==> r32 && !(rt && s.rtBurst < 3) && (s.nextStateClass == State32 || !r31)))
  {
    CleanUpKeepsFresh(s, nowUs, e);
    var t := Select(s, nowUs, e).0;
    OldestIsPending(t);
    hide DropStaleRealtime, DropWrongGenerationState, OldestRealtime, Fresh;
    assert (exists i: nat :: Fresh(s, i, nowUs)) <==> t.rt[0].pending || t.rt[1].pending by {
      FreshIsPending(s, t, nowUs);
    }
  }

  lemma FreshIsPending(s: Scheduler, t: Scheduler, nowUs: nat)
    requires |s.rt| == |t.rt| == RT_DEPTH && forall i: nat :: i < |s.rt| ==> t.rt[i] == s.rt[i].(pending := Fresh(s, i, nowUs))
    ensures (exists i: nat :: Fresh(s, i, nowUs)) <==> t.rt[0].pending || t.rt[1].pending
  {
    forall i: nat | Fresh(s, i, nowUs)
      ensures t.rt[0].pending || t.rt[1].pending
    {
      assert t.rt[i].pending;
    }
    assert t.rt[0].pending ==> Fresh(s, 0, nowUs);
    assert t.rt[1].pending ==> Fresh(s, 1, nowUs);
  }

  lemma OldestIsPending(t: Scheduler)
    requires |t.rt| == RT_DEPTH && forall i :: 0 <= i < RT_DEPTH && t.rt[i].pending ==> t.rt[i].sequence < UINT64_MAX
    ensures OldestRealtime(t.rt) >= 0 <==> t.rt[0].pending || t.rt[1].pending
  {
  }

  /** Which item of the class: the fresh realtime item accepted first, or the state slot, named by its version. */
  lemma SelectedItem(s: Scheduler, nowUs: nat, e: Eligible)
    requires Shaped(s)
    ensures var picked := Select(s, nowUs, e).1;
            picked.Some? ==>
              var sel := picked.value;
              match sel.txClass
              case Realtime =>
                && (forall i: nat :: OldestFresh(s, i, nowUs) ==> sel.slot == i)
                && Fresh(s, sel.slot, nowUs)
                && sel == Selection(Realtime, sel.slot, s.generation, s.rt[sel.slot].version, s.rt[sel.slot].createdUs)
              case State31 => sel == Selection(State31, 0, s.generation, s.s31.version, s.s31.createdUs)
              case State32 => sel == Selection(State32, 0, s.generation, s.s32.version, s.s32.createdUs)
              case NoClass => false
  {
    CleanUpKeepsFresh(s, nowUs, e);
    var t := Select(s, nowUs, e).0;
    hide DropStaleRealtime, DropWrongGenerationState, Fresh;
    if t.rt[0].pending { assert Fresh(s, 0, nowUs); }
    if t.rt[1].pending { assert Fresh(s, 1, nowUs); }
    FreshHasGeneration(s, nowUs);
  }

  lemma FreshHasGeneration(s: Scheduler, nowUs: nat)
    ensures forall i: nat :: Fresh(s, i, nowUs) ==> s.rt[i].payload.generation == s.generation
  {
  }

  // ---- finish ----

  // The counters after one item of a class was sent or dropped.
  function Counted(m: Metrics, result: FinishResult): Metrics {
    Metrics(m.accepted, if result == Success then m.transmitted + 1 else m.transmitted, m.replaced, m.stale, m.retried,
            if result == Drop then m.dropped + 1 else m.dropped, m.rejected, if m.pending > 0 then m.pending - 1 else 0)
  }

  /** A finish of anything but the item still waiting under that version, in that generation, changes nothing. */
  lemma LateFinish(s: Scheduler, sel: Selection, result: FinishResult)
    requires !(sel.generation == s.generation &&
               match sel.txClass
               case Realtime => sel.slot < |s.rt| && s.rt[sel.slot].pending && s.rt[sel.slot].version == sel.version
               case State31 => s.s31.pending && s.s31.version == sel.version
               case State32 => s.s32.pending && s.s32.version == sel.version
               case NoClass => false)
    ensures Finish(s, sel, result) == (s, false)
  {
  }

  /** A retry keeps the item and counts once. */
  lemma RetryOutcome(s: Scheduler, sel: Selection)
    requires IsCurrent(s, sel)
    ensures Finish(s, sel, Again) ==
            (if sel.txClass == Realtime then s.(rtMetrics := s.rtMetrics.(retried := s.rtMetrics.retried + 1))
             else if sel.txClass == State31 then s.(m31 := s.m31.(retried := s.m31.retried + 1))
             else s.(m32 := s.m32.(retried := s.m32.retried + 1)), true)
  {
  }

  /** A realtime item sent or dropped leaves its slot, and either way counts toward the burst. */
  lemma RealtimeFinish(s: Scheduler, sel: Selection, result: FinishResult)
    requires IsCurrent(s, sel) && sel.txClass == Realtime && result != Again
    ensures Finish(s, sel, result) ==
            (s.(rt := Emptied(s.rt, sel.slot, true), rtMetrics := Counted(s.rtMetrics, result),
                rtBurst := if s.rtBurst < 255 then s.rtBurst + 1 else s.rtBurst), true)
  {
  }

  /** A state item sent ends the burst and gives the turn to the other class; dropped, it does neither. */
  lemma StateFinish(s: Scheduler, sel: Selection, result: FinishResult)
    requires IsCurrent(s, sel) && sel.txClass != Realtime && result != Again
    ensures var t := Finish(s, sel, result).0;
            && Finish(s, sel, result).1
            && t.rtBurst == (if result == Success then 0 else s.rtBurst)
            && t.nextStateClass == (if result == Drop then s.nextStateClass else if sel.txClass == State31 then State32 else State31)
            && t == (if sel.txClass == State31
                     then s.(s31 := s.s31.(pending := false), m31 := Counted(s.m31, result),
                             rtBurst := t.rtBurst, nextStateClass := t.nextStateClass)
                     else s.(s32 := s.s32.(pending := false), m32 := Counted(s.m32, result),
                             rtBurst := t.rtBurst, nextStateClass := t.nextStateClass))
  {
  }

  // ---- publish and ingest ----

  // The item `pair` in place i under the next version and sequence number.
  function Queued(s: Scheduler, i: nat, pair: Pair, m: Metrics): Scheduler
    requires i < |s.rt|
  {
    s.(nextVersion := s.nextVersion + 1, nextSequence := s.nextSequence + 1, rtMetrics := m,
       rt := s.rt[i := RtSlot(true, s.nextVersion + 1, s.nextSequence, pair.firstCapturedUs, pair)])
  }

  // Where a realtime item goes: the first slot nobody waits in, else that of the item accepted first.
  ghost predicate GoesTo(s: Scheduler, i: nat) {
    && |s.rt| == 2 && i < 2
    && if !s.rt[0].pending then i == 0
       else if !s.rt[1].pending then i == 1
       else s.rt[i].sequence < s.rt[1 - i].sequence
  }

  /** A pair of another generation is rejected and counted; any other is queued, at need in place of the oldest. */
  lemma RealtimePublish(s: Scheduler, pair: Pair, i: nat)
    requires Shaped(s) && s.nextVersion < UINT32_MAX && GoesTo(s, i)
    ensures var m := s.rtMetrics;
            PublishRealtime(s, pair) ==
              if pair.generation != s.generation then (s.(rtMetrics := m.(rejected := m.rejected + 1)), false)
              else (Queued(s, i, pair, if s.rt[i].pending then m.(accepted := m.accepted + 1, replaced := m.replaced + 1)
                                       else m.(accepted := m.accepted + 1, pending := m.pending + 1)), true)
  {
  }

  /** A pair taken from the store goes to an idle slot; of another generation it stays there unqueued. */
  lemma PairIngested(s: Scheduler, pair: Pair, i: nat)
    requires Shaped(s) && s.nextVersion < UINT32_MAX && GoesTo(s, i) && !s.rt[i].pending
    ensures var m := s.rtMetrics;
            IngestPair(s, pair) ==
              if pair.generation != s.generation then
                (s.(rt := s.rt[i := s.rt[i].(payload := pair)], rtMetrics := m.(rejected := m.rejected + 1)), false)
              else (Queued(s, i, pair, m.(accepted := m.accepted + 1, pending := m.pending + 1)), true)
  {
  }

  // Latest wins: an item still waiting is replaced.
  function AcceptedOver(m: Metrics, waiting: bool): Metrics {
    m.(accepted := m.accepted + 1, replaced := if waiting then m.replaced + 1 else m.replaced,
       pending := if waiting then m.pending else m.pending + 1)
  }

  /** A report over 64 bytes is refused uncounted, one of another generation counted; else it takes the slot. */
  lemma ReportPublish(s: Scheduler, report: seq<Byte>, includesId: bool, generation: nat, createdUs: nat)
    requires Shaped(s) && s.nextVersion < UINT32_MAX
    ensures var (t, ok) := PublishState31(s, report, includesId, generation, createdUs);
            && (ok <==> |report| <= 64 && generation == s.generation)
            && (|report| > 64 ==> t == s)
            && (|report| <= 64 && generation != s.generation ==> t == s.(m31 := s.m31.(rejected := s.m31.rejected + 1)))
            && (ok ==>
                  && t == s.(nextVersion := s.nextVersion + 1, m31 := AcceptedOver(s.m31, s.s31.pending), s31 := t.s31)
                  && t.s31.pending && t.s31.generation == generation && t.s31.version == s.nextVersion + 1
                  && t.s31.createdUs == createdUs && t.s31.payload.includesId == includesId
                  && t.s31.payload.len == |report| && t.s31.payload.report[..|report|] == report)
  {
  }

  lemma MicPublish(s: Scheduler, active: bool, generation: nat, createdUs: nat)
    requires s.nextVersion < UINT32_MAX
    ensures PublishState32(s, active, generation, createdUs) ==
            if generation != s.generation then (s.(m32 := s.m32.(rejected := s.m32.rejected + 1)), false)
            else (s.(nextVersion := s.nextVersion + 1, m32 := AcceptedOver(s.m32, s.s32.pending),
                     s32 := StateSlot(true, generation, s.nextVersion + 1, createdUs, active)), true)
  {
  }

  /** A new generation finds nothing waiting, no burst, and state-31 items first. */
  lemma NewGeneration(s: Scheduler, generation: nat)
    requires Shaped(s)
    ensures var t := ResetGeneration(s, generation);
            && t.generation == generation && t.rtBurst == 0 && t.nextStateClass == State31
            && |t.rt| == |s.rt| && (forall i :: 0 <= i < |t.rt| ==> t.rt[i] == s.rt[i].(pending := false))
            && t.s31 == s.s31.(pending := false) && t.s32 == s.s32.(pending := false)
            && t.nextVersion == s.nextVersion && t.nextSequence == s.nextSequence
  {
  }
}
