/** The scheduler as the mutable object its callers share, proved against the step functions of TxSteps. */
module TxScheduler {
  import opened Basics
  import opened EpochTypes
  import opened TxSteps
  import opened TxSystem
  import opened EpochSteps
  import EpochStore

  class BtTxScheduler {
    var generation: nat
    var nextVersion: nat
    var nextSequence: nat
    var rtBurst: nat
    var nextStateClass: TxClass
    const realtime: array<RtSlot>
    var state31: StateSlot<Report31>
    var state32: StateSlot<bool>
    var rtMetrics: Metrics
    var m31: Metrics
    var m32: Metrics

    ghost function Model(): Scheduler
      reads this, realtime
    {
      Scheduler(generation, nextVersion, nextSequence, rtBurst, nextStateClass, realtime[..], state31, state32,
                rtMetrics, m31, m32)
    }

    ghost predicate Valid()
      reads this, realtime
    {
      Shaped(Model())
    }

    constructor (generation: nat)
      ensures Valid() && fresh(realtime)
      ensures Model() == Fresh(generation)
    {
      this.generation := generation;
      nextVersion, nextSequence, rtBurst, nextStateClass := 0, 0, 0, State31;
      var none := Metrics(0, 0, 0, 0, 0, 0, 0, 0);
      var idle := RtSlot(false, 0, 0, 0, Pair(0, 0, 0, 0, false, [], [], [], []));
      realtime := new RtSlot[RT_DEPTH](_ => idle);
      state31 := StateSlot(false, 0, 0, 0, Report31(0, false, Repeat<Byte>(0, REPORT_MAX)));
      state32 := StateSlot(false, 0, 0, 0, false);
      rtMetrics, m31, m32 := none, none, none;
    }

    method TakeVersion() returns (version: nat)
      modifies this`nextVersion
      ensures version == nextVersion == NextVersion(old(nextVersion))
    {
      nextVersion := (nextVersion + 1) % 0x1_0000_0000;
      if nextVersion == 0 {
        nextVersion := nextVersion + 1;
      }
      version := nextVersion;
    }

    method RetireRealtime(stale: bool)
      modifies this`rtMetrics
      ensures rtMetrics == RetireMetric(old(rtMetrics), stale)
    {
      if stale {
        rtMetrics := rtMetrics.(stale := rtMetrics.stale + 1);
      }
      if rtMetrics.pending > 0 {
        rtMetrics := rtMetrics.(pending := rtMetrics.pending - 1);
      }
    }

    method FindIdle() returns (selected: int)
      requires Valid()
      ensures selected == FirstIdle(realtime[..])
    {
      selected := -1;
      for i := 0 to RT_DEPTH
        invariant selected == -1
        invariant forall j :: 0 <= j < i ==> realtime[j].pending
      {
        if !realtime[i].pending {
          selected := i;
          break;
        }
      }
    }

    method Oldest() returns (selected: int)
      requires Valid()
      ensures selected == OldestRealtime(realtime[..])
    {
      selected := -1;
      var oldest := UINT64_MAX;
      for i := 0 to RT_DEPTH
        invariant i == 0 ==> selected == -1 && oldest == UINT64_MAX
        invariant i == 1 ==> selected == (if realtime[0].pending && realtime[0].sequence < UINT64_MAX then 0 else -1)
        invariant i == 2 ==> selected == OldestRealtime(realtime[..])
        invariant oldest == if 0 <= selected < RT_DEPTH then realtime[selected].sequence else UINT64_MAX
      {
        if realtime[i].pending && realtime[i].sequence < oldest {
          selected := i;
          oldest := realtime[i].sequence;
        }
      }
    }

    method ClearPending(stale: bool)
      requires Valid()
      modifies this, realtime
      ensures Valid() && Model() == TxSteps.ClearPending(old(Model()), stale)
    {
      ghost var before := realtime[..];
      for i := 0 to RT_DEPTH
        invariant Model() == old(Model()).(rt := realtime[..], rtMetrics := rtMetrics)
        invariant forall j :: 0 <= j < RT_DEPTH ==>
                    realtime[j] == if j < i then before[j].(pending := false) else before[j]
        invariant rtMetrics == RetireMany(old(rtMetrics), PendingIn(before, i), stale)
      {
        if realtime[i].pending {
          realtime[i] := realtime[i].(pending := false);
          RetireRealtime(stale);
        }
      }
      assert realtime[..] == [before[0].(pending := false), before[1].(pending := false)];
      if state31.pending {
        state31 := state31.(pending := false);
        m31 := RetireMetric(m31, stale);
      }
      if state32.pending {
        state32 := state32.(pending := false);
        m32 := RetireMetric(m32, stale);
      }
      rtBurst := 0;
      nextStateClass := State31;
    }

    method ResetGeneration(generation: nat)
      requires Valid()
      modifies this, realtime
      ensures Valid() && Model() == TxSteps.ResetGeneration(old(Model()), generation)
    {
      ClearPending(true);
      this.generation := generation;
    }

    method Fill(i: nat, pair: Pair)
      requires Valid() && i < RT_DEPTH && nextSequence < UINT64_MAX
      modifies this`nextVersion, this`nextSequence, realtime
      ensures Valid() && Model() == StoreRealtime(old(Model()), i, pair)
    {
      realtime[i] := realtime[i].(pending := false);
      var version := TakeVersion();
      var sequence := nextSequence;
      nextSequence := nextSequence + 1;
      realtime[i] := RtSlot(true, version, sequence, pair.firstCapturedUs, pair);
      assert realtime[..] == old(realtime[..])[i := realtime[i]];
    }

    method PublishRealtime(pair: Pair) returns (ok: bool)
      requires Valid() && nextSequence < UINT64_MAX
      modifies this, realtime
      ensures Valid() && (Model(), ok) == TxSteps.PublishRealtime(old(Model()), pair)
    {
      if pair.generation != generation {
        rtMetrics := rtMetrics.(rejected := rtMetrics.rejected + 1);
        return false;
      }
      var selected := FindIdle();
      if selected < 0 {
        selected := Oldest();
        rtMetrics := rtMetrics.(replaced := rtMetrics.replaced + 1);
      } else {
        rtMetrics := rtMetrics.(pending := rtMetrics.pending + 1);
      }
      Fill(selected, pair);
      rtMetrics := rtMetrics.(accepted := rtMetrics.accepted + 1);
      ok := true;
    }

    /**
     Pulls a pair from the epoch store only when a slot is idle: a full queue leaves the store untouched.
     When nothing comes back, nothing was claimed and so nothing was copied into the idle slot.
     */
    method IngestEpochPair(store: EpochStore.EpochStore) returns (ok: bool, offer: Option<Pair>)
      requires Valid() && nextSequence < UINT64_MAX
      requires store.Valid() && realtime != (store.slots as object) && this != (store as object)
      modifies this, realtime, store, store.slots
      ensures Valid() && store.Valid()
      ensures FirstIdle(old(realtime[..])) < 0 ==> store.Model() == old(store.Model()) && offer == None
      ensures FirstIdle(old(realtime[..])) >= 0 ==>
                (store.Model(), offer) == EpochStore.TakePairAtOnce(old(store.Model()))
      ensures if offer.Some? then (Model(), ok) == IngestPair(old(Model()), offer.value)
              else Model() == old(Model()) && !ok
      ensures FirstIdle(old(realtime[..])) >= 0 && offer.None? ==> BeginPair(old(store.Model())).1.None?
    {
      hide EpochStore.TakePairAtOnce, StoreRealtime;
      offer := None;
      var selected := FindIdle();
      if selected < 0 {
        return false, None;
      }
      offer := store.TakeAdjacentPair();
      if offer.None? {
        return false, None;
      }
      if offer.value.generation != generation {
        realtime[selected] := realtime[selected].(payload := offer.value);
        assert realtime[..] == old(realtime[..])[selected := realtime[selected]];
        rtMetrics := rtMetrics.(rejected := rtMetrics.rejected + 1);
        return false, offer;
      }
      Fill(selected, offer.value);
      rtMetrics := rtMetrics.(pending := rtMetrics.pending + 1, accepted := rtMetrics.accepted + 1);
      ok := true;
    }

    method PublishState31(report: seq<Byte>, includesId: bool, generation: nat, createdUs: nat) returns (ok: bool)
      requires Valid()
      modifies this
      ensures Valid() && (Model(), ok) == TxSteps.PublishState31(old(Model()), report, includesId, generation, createdUs)
    {
      if |report| > REPORT_MAX {
        return false;
      }
      if generation != this.generation {
        m31 := m31.(rejected := m31.rejected + 1);
        return false;
      }
      if state31.pending {
        m31 := m31.(replaced := m31.replaced + 1);
      } else {
        m31 := m31.(pending := m31.pending + 1);
      }
      var bytes := report + state31.payload.report[|report|..];
      state31 := state31.(payload := Report31(|report|, includesId, bytes), generation := generation, createdUs := createdUs);
      var version := TakeVersion();
      state31 := state31.(version := version, pending := true);
      m31 := m31.(accepted := m31.accepted + 1);
      ok := true;
    }

    method PublishState32(micActive: bool, generation: nat, createdUs: nat) returns (ok: bool)
      requires Valid()
      modifies this
      ensures Valid() && (Model(), ok) == TxSteps.PublishState32(old(Model()), micActive, generation, createdUs)
    {
      if generation != this.generation {
        m32 := m32.(rejected := m32.rejected + 1);
        return false;
      }
      if state32.pending {
        m32 := m32.(replaced := m32.replaced + 1);
      } else {
        m32 := m32.(pending := m32.pending + 1);
      }
      state32 := state32.(payload := micActive, generation := generation, createdUs := createdUs);
      var version := TakeVersion();
      state32 := state32.(version := version, pending := true);
      m32 := m32.(accepted := m32.accepted + 1);
      ok := true;
    }

    method DropStale(nowUs: nat)
      requires Valid()
      modifies this`rtMetrics, realtime
      ensures Valid() && Model() == DropStaleRealtime(old(Model()), nowUs)
    {
      ghost var start := Model();
      for i := 0 to RT_DEPTH
        invariant Valid()
        invariant i == 0 ==> Model() == start
        invariant i == 1 ==> Model() == WithoutStale(start, 0, nowUs)
        invariant i == 2 ==> Model() == WithoutStale(WithoutStale(start, 0, nowUs), 1, nowUs)
      {
        ghost var before := Model();
        var slot := realtime[i];
        if slot.pending {
          var age := if nowUs >= slot.createdUs then nowUs - slot.createdUs else 0;
          if slot.payload.generation != generation || age > RT_MAX_AGE_US {
            realtime[i] := slot.(pending := false);
            RetireRealtime(true);
            assert realtime[..] == before.rt[i := slot.(pending := false)];
          }
        }
        assert Model() == WithoutStale(before, i, nowUs);
      }
    }

    method DropWrongGeneration()
      requires Valid()
      modifies this`state31, this`state32, this`m31, this`m32
      ensures Valid() && Model() == DropWrongGenerationState(old(Model()))
    {
      if state31.pending && state31.generation != generation {
        state31 := state31.(pending := false);
        m31 := RetireMetric(m31, true);
      }
      if state32.pending && state32.generation != generation {
        state32 := state32.(pending := false);
        m32 := RetireMetric(m32, true);
      }
    }

    method Select(nowUs: nat, eligible: Eligible) returns (selection: Option<Selection>)
      requires Valid()
      modifies this, realtime
      ensures Valid() && (Model(), selection) == TxSteps.Select(old(Model()), nowUs, eligible)
    {
      DropStale(nowUs);
      DropWrongGeneration();
      var rtSlot := Oldest();
      var stateClass: TxClass;
      if nextStateClass == State32 {
        if state32.pending && eligible.state32 {
          stateClass := State32;
        } else {
          stateClass := if state31.pending && eligible.state31 then State31 else NoClass;
        }
      } else if state31.pending && eligible.state31 {
        stateClass := State31;
      } else {
        stateClass := if state32.pending && eligible.state32 then State32 else NoClass;
      }
      if rtSlot >= 0 && eligible.realtime && (rtBurst < MAX_RT_BURST || stateClass == NoClass) {
        var slot := realtime[rtSlot];
        return Some(Selection(Realtime, rtSlot, slot.payload.generation, slot.version, slot.createdUs));
      }
      if stateClass == State31 {
        return Some(Selection(State31, 0, state31.generation, state31.version, state31.createdUs));
      }
      if stateClass == State32 {
        return Some(Selection(State32, 0, state32.generation, state32.version, state32.createdUs));
      }
      // Nothing else is left: the realtime case was taken above whenever no state class was ready.
      selection := None;
    }

    method SelectionIsCurrent(sel: Selection) returns (current: bool)
      requires Valid()
      ensures current == IsCurrent(Model(), sel)
    {
      if sel.generation != generation {
        return false;
      }
      match sel.txClass
      case Realtime =>
        current := sel.slot < RT_DEPTH && realtime[sel.slot].pending && realtime[sel.slot].version == sel.version;
      case State31 => current := state31.pending && state31.version == sel.version;
      case State32 => current := state32.pending && state32.version == sel.version;
      case NoClass => current := false;
    }

    method Finish(sel: Selection, result: FinishResult) returns (ok: bool)
      requires Valid()
      modifies this, realtime
      ensures Valid() && (Model(), ok) == TxSteps.Finish(old(Model()), sel, result)
    {
      var current := SelectionIsCurrent(sel);
      if !current {
        return false;
      }
      match sel.txClass {
        case Realtime => rtMetrics := Outcome(rtMetrics, result);
        case State31 => m31 := Outcome(m31, result);
        case State32 => m32 := Outcome(m32, result);
        case NoClass =>
      }
      if result == Again {
        return true;
      }
      match sel.txClass {
        case Realtime =>
          realtime[sel.slot] := realtime[sel.slot].(pending := false);
          assert realtime[..] == old(realtime[..])[sel.slot := realtime[sel.slot]];
          RetireRealtime(false);
          if rtBurst < UINT8_MAX {
            rtBurst := rtBurst + 1;
          }
        case State31 =>
          state31 := state31.(pending := false);
          m31 := RetireMetric(m31, false);
          if result == Success {
            rtBurst := 0;
            nextStateClass := State32;
          }
        case State32 =>
          state32 := state32.(pending := false);
          m32 := RetireMetric(m32, false);
          if result == Success {
            rtBurst := 0;
            nextStateClass := State31;
          }
        case NoClass =>
      }
      ok := true;
    }
  }

  ghost function PendingIn(rt: seq<RtSlot>, n: nat): nat
    requires n <= |rt|
  {
    if n == 0 then 0 else PendingIn(rt, n - 1) + (if rt[n - 1].pending then 1 else 0)
  }
}
