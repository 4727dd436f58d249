/** The Bluetooth TX scheduler: a two-deep realtime queue, two latest-wins state slots, and per-class counters. */
module TxSteps {
  import opened Basics
  import opened EpochTypes

  const RT_DEPTH: nat := 2
  const RT_MAX_AGE_US: nat := 64000
  const MAX_RT_BURST: nat := 3
  const REPORT_MAX: nat := 64
  const UINT8_MAX: nat := 255
  const UINT64_MAX: nat := 0xFFFF_FFFF_FFFF_FFFF

  datatype TxClass = NoClass | Realtime | State31 | State32

  datatype FinishResult = Success | Again | Drop

  datatype Metrics = Metrics(
    accepted: nat, transmitted: nat, replaced: nat, stale: nat,
    retried: nat, dropped: nat, rejected: nat, pending: nat)

  datatype RtSlot = RtSlot(pending: bool, version: nat, sequence: nat, createdUs: nat, payload: Pair)

  datatype Report31 = Report31(len: nat, includesId: bool, report: seq<Byte>)

  datatype StateSlot<T> = StateSlot(pending: bool, generation: nat, version: nat, createdUs: nat, payload: T)

  datatype Scheduler = Scheduler(
    generation: nat,
    nextVersion: nat,
    nextSequence: nat,
    rtBurst: nat,
    nextStateClass: TxClass,
    rt: seq<RtSlot>,
    s31: StateSlot<Report31>,
    s32: StateSlot<bool>,
    rtMetrics: Metrics,
    m31: Metrics,
    m32: Metrics)

  // The payload pointer of a selection is the slot its class and index name.
  datatype Selection = Selection(txClass: TxClass, slot: nat, generation: nat, version: nat, createdUs: nat)

  // The class mask passed to select.
  datatype Eligible = Eligible(realtime: bool, state31: bool, state32: bool)

  ghost predicate Shaped(s: Scheduler) {
    && |s.rt| == RT_DEPTH
    && |s.s31.payload.report| == REPORT_MAX
    && (forall i :: 0 <= i < RT_DEPTH && s.rt[i].pending ==> s.rt[i].sequence < UINT64_MAX)
  }

  /** Version numbers are 32 bits wide and skip zero when they wrap. */
  function NextVersion(v: nat): nat {
    var w := (v + 1) % 0x1_0000_0000;
    if w == 0 then 1 else w
  }

  function RetireMetric(m: Metrics, stale: bool): Metrics {
    m.(stale := m.stale + (if stale then 1 else 0), pending := if m.pending > 0 then m.pending - 1 else 0)
  }

  function PendingCount(rt: seq<RtSlot>): nat
    requires |rt| == RT_DEPTH
  {
    (if rt[0].pending then 1 else 0) + (if rt[1].pending then 1 else 0)
  }

  function RetireMany(m: Metrics, n: nat, stale: bool): Metrics {
    if n == 0 then m else RetireMetric(RetireMany(m, n - 1, stale), stale)
  }

  function ClearPending(s: Scheduler, stale: bool): Scheduler
    requires |s.rt| == RT_DEPTH
  {
    s.(rt := [s.rt[0].(pending := false), s.rt[1].(pending := false)],
       rtMetrics := RetireMany(s.rtMetrics, PendingCount(s.rt), stale),
       s31 := s.s31.(pending := false),
       m31 := if s.s31.pending then RetireMetric(s.m31, stale) else s.m31,
       s32 := s.s32.(pending := false),
       m32 := if s.s32.pending then RetireMetric(s.m32, stale) else s.m32,
       rtBurst := 0,
       nextStateClass := State31)
  }

  function ResetGeneration(s: Scheduler, generation: nat): Scheduler
    requires |s.rt| == RT_DEPTH
  {
    ClearPending(s, true).(generation := generation)
  }

  function FirstIdle(rt: seq<RtSlot>): (i: int)
    requires |rt| == RT_DEPTH
    ensures -1 <= i < RT_DEPTH
    ensures i >= 0 ==> !rt[i].pending
    ensures i < 0 ==> rt[0].pending && rt[1].pending
  {
    if !rt[0].pending then 0 else if !rt[1].pending then 1 else -1
  }

  /** The pending slot with the smallest sequence number below UINT64_MAX, or -1. */
  function OldestRealtime(rt: seq<RtSlot>): (i: int)
    requires |rt| == RT_DEPTH
    ensures -1 <= i < RT_DEPTH
    ensures i >= 0 ==> rt[i].pending && rt[i].sequence < UINT64_MAX
    ensures forall j :: 0 <= j < RT_DEPTH && rt[j].pending && rt[j].sequence < UINT64_MAX ==>
                          i >= 0 && rt[i].sequence <= rt[j].sequence
  {
    var first := if rt[0].pending && rt[0].sequence < UINT64_MAX then 0 else -1;
    if rt[1].pending && rt[1].sequence < (if first < 0 then UINT64_MAX else rt[0].sequence) then 1 else first
  }

  function StoreRealtime(s: Scheduler, i: nat, pair: Pair): Scheduler
    requires i < |s.rt|
  {
    var version := NextVersion(s.nextVersion);
    s.(nextVersion := version,
       nextSequence := s.nextSequence + 1,
       rt := s.rt[i := RtSlot(true, version, s.nextSequence, pair.firstCapturedUs, pair)])
  }

  function PublishRealtime(s: Scheduler, pair: Pair): (Scheduler, bool)
    requires Shaped(s)
  {
    if pair.generation != s.generation then
      (s.(rtMetrics := s.rtMetrics.(rejected := s.rtMetrics.rejected + 1)), false)
    else
      var idle := FirstIdle(s.rt);
      var i := if idle >= 0 then idle else OldestRealtime(s.rt);
      var m := s.rtMetrics;
      (StoreRealtime(s, i, pair).(rtMetrics :=
         if idle >= 0 then m.(pending := m.pending + 1, accepted := m.accepted + 1)
         else m.(replaced := m.replaced + 1, accepted := m.accepted + 1)), true)
  }

  /** ingest_epoch_pair once the store handed over `pair` for the idle slot. */
  function IngestPair(s: Scheduler, pair: Pair): (Scheduler, bool)
    requires Shaped(s)
  {
    var i := FirstIdle(s.rt);
    if i < 0 then (s, false)
    else if pair.generation != s.generation then
      (s.(rt := s.rt[i := s.rt[i].(payload := pair)],
          rtMetrics := s.rtMetrics.(rejected := s.rtMetrics.rejected + 1)), false)
    else
      var m := s.rtMetrics;
      (StoreRealtime(s, i, pair).(rtMetrics := m.(pending := m.pending + 1, accepted := m.accepted + 1)), true)
  }

  /** A read of the store that fails after its copy has overwritten the payload of the idle slot it copied into. */
  function Overwrite(s: Scheduler, partial: Pair): Scheduler
    requires |s.rt| == RT_DEPTH
  {
    var i := FirstIdle(s.rt);
    if i < 0 then s else s.(rt := s.rt[i := s.rt[i].(payload := partial)])
  }

  function Accepting(m: Metrics, replacing: bool): Metrics {
    if replacing then m.(replaced := m.replaced + 1, accepted := m.accepted + 1)
    else m.(pending := m.pending + 1, accepted := m.accepted + 1)
  }

  /** The first |report| bytes of the slot's report are overwritten, the rest stays. */
  function PublishState31(s: Scheduler, report: seq<Byte>, includesId: bool, generation: nat, createdUs: nat)
    : (Scheduler, bool)
    requires Shaped(s)
  {
    if |report| > REPORT_MAX then (s, false)
    else if generation != s.generation then
      (s.(m31 := s.m31.(rejected := s.m31.rejected + 1)), false)
    else
      var version := NextVersion(s.nextVersion);
      var bytes := report + s.s31.payload.report[|report|..];
      (s.(m31 := Accepting(s.m31, s.s31.pending),
          nextVersion := version,
          s31 := StateSlot(true, generation, version, createdUs, Report31(|report|, includesId, bytes))), true)
  }

  function PublishState32(s: Scheduler, micActive: bool, generation: nat, createdUs: nat): (Scheduler, bool) {
    if generation != s.generation then
      (s.(m32 := s.m32.(rejected := s.m32.rejected + 1)), false)
    else
      var version := NextVersion(s.nextVersion);
      (s.(m32 := Accepting(s.m32, s.s32.pending),
          nextVersion := version,
          s32 := StateSlot(true, generation, version, createdUs, micActive)), true)
  }

  predicate IsStaleRt(s: Scheduler, slot: RtSlot, nowUs: nat) {
    var age := if nowUs >= slot.createdUs then nowUs - slot.createdUs else 0;
    slot.pending && (slot.payload.generation != s.generation || age > RT_MAX_AGE_US)
  }

  function WithoutStale(s: Scheduler, i: nat, nowUs: nat): Scheduler
    requires i < |s.rt|
  {
    if !IsStaleRt(s, s.rt[i], nowUs) then s
    else s.(rt := s.rt[i := s.rt[i].(pending := false)], rtMetrics := RetireMetric(s.rtMetrics, true))
  }

  function DropStaleRealtime(s: Scheduler, nowUs: nat): Scheduler
    requires |s.rt| == RT_DEPTH
  {
    WithoutStale(WithoutStale(s, 0, nowUs), 1, nowUs)
  }

  function DropWrongGenerationState(s: Scheduler): Scheduler {
    var t := if s.s31.pending && s.s31.generation != s.generation then
               s.(s31 := s.s31.(pending := false), m31 := RetireMetric(s.m31, true)) else s;
    if t.s32.pending && t.s32.generation != t.generation then
      t.(s32 := t.s32.(pending := false), m32 := RetireMetric(t.m32, true)) else t
  }

  predicate Ready31(s: Scheduler, e: Eligible) {
    s.s31.pending && e.state31
  }

  predicate Ready32(s: Scheduler, e: Eligible) {
    s.s32.pending && e.state32
  }

  function SelectStateClass(s: Scheduler, e: Eligible): TxClass {
    if s.nextStateClass == State32 then
      if Ready32(s, e) then State32 else if Ready31(s, e) then State31 else NoClass
    else
      if Ready31(s, e) then State31 else if Ready32(s, e) then State32 else NoClass
  }

  function RealtimeSelection(s: Scheduler, i: nat): Selection
    requires i < |s.rt|
  {
    Selection(Realtime, i, s.rt[i].payload.generation, s.rt[i].version, s.rt[i].createdUs)
  }

  function Pick(s: Scheduler, e: Eligible): Option<Selection>
    requires |s.rt| == RT_DEPTH
  {
    var i := OldestRealtime(s.rt);
    var stateClass := SelectStateClass(s, e);
    if i >= 0 && e.realtime && (s.rtBurst < MAX_RT_BURST || stateClass == NoClass) then Some(RealtimeSelection(s, i))
    else match stateClass
         case State31 => Some(Selection(State31, 0, s.s31.generation, s.s31.version, s.s31.createdUs))
         case State32 => Some(Selection(State32, 0, s.s32.generation, s.s32.version, s.s32.createdUs))
         case _ => if i >= 0 && e.realtime then Some(RealtimeSelection(s, i)) else None
  }

  function Select(s: Scheduler, nowUs: nat, e: Eligible): (Scheduler, Option<Selection>)
    requires |s.rt| == RT_DEPTH
  {
    var t := DropWrongGenerationState(DropStaleRealtime(s, nowUs));
    (t, Pick(t, e))
  }

  predicate IsCurrent(s: Scheduler, sel: Selection) {
    && sel.generation == s.generation
    && match sel.txClass
       case Realtime => sel.slot < |s.rt| && s.rt[sel.slot].pending && s.rt[sel.slot].version == sel.version
       case State31 => s.s31.pending && s.s31.version == sel.version
       case State32 => s.s32.pending && s.s32.version == sel.version
       case NoClass => false
  }

  function Outcome(m: Metrics, result: FinishResult): Metrics {
    match result
    case Success => m.(transmitted := m.transmitted + 1)
    case Again => m.(retried := m.retried + 1)
    case Drop => m.(dropped := m.dropped + 1)
  }

  function Finish(s: Scheduler, sel: Selection, result: FinishResult): (Scheduler, bool) {
    if !IsCurrent(s, sel) then (s, false)
    else if result == Again then
      (match sel.txClass
       case Realtime => s.(rtMetrics := Outcome(s.rtMetrics, Again))
       case State31 => s.(m31 := Outcome(s.m31, Again))
       case _ => s.(m32 := Outcome(s.m32, Again)), true)
    else
      (match sel.txClass
       case Realtime =>
         s.(rt := s.rt[sel.slot := s.rt[sel.slot].(pending := false)],
            rtMetrics := RetireMetric(Outcome(s.rtMetrics, result), false),
            rtBurst := if s.rtBurst < UINT8_MAX then s.rtBurst + 1 else s.rtBurst)
       case State31 =>
         var t := s.(s31 := s.s31.(pending := false), m31 := RetireMetric(Outcome(s.m31, result), false));
         if result == Success then t.(rtBurst := 0, nextStateClass := State32) else t
       case _ =>
         var t := s.(s32 := s.s32.(pending := false), m32 := RetireMetric(Outcome(s.m32, result), false));
         if result == Success then t.(rtBurst := 0, nextStateClass := State31) else t, true)
  }
}
