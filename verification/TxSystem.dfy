/** The scheduler with its callers: publishes, ingests, selects, finishes and resets in any order. */
module TxSystem {
  import opened Basics
  import opened EpochTypes
  import opened TxSteps

  const PLACES: nat := 4

  datatype Content = PairContent(pair: Pair) | ReportContent(report: seq<Byte>, includesId: bool) | MicContent(active: bool)

  datatype Item = Item(generation: nat, createdUs: nat, content: Content)

  datatype Fate = Transmitted | Dropped | Replaced | Expired

  datatype Retirement = Retirement(version: nat, txClass: TxClass, fate: Fate)

  // items[v - 1] is what was accepted under version v; sent lists the sequence numbers of transmitted realtime items.
  datatype TxState = TxState(
    sched: Scheduler,
    handed: set<Selection>,
    items: seq<Item>,
    retired: seq<Retirement>,
    sent: seq<nat>)

  datatype TxAction =
    | ResetTo(newGeneration: nat)
    | PublishPair(pair: Pair)
    | IngestFrom(offer: Option<Pair>)
    | AbandonRead(partial: Pair)
    | PublishReport(report: seq<Byte>, includesId: bool, generation: nat, createdUs: nat)
    | PublishMic(active: bool, generation: nat, createdUs: nat)
    | SelectAt(nowUs: nat, eligible: Eligible)
    | FinishWith(sel: Selection, result: FinishResult)

  function Fresh(generation: nat): Scheduler {
    var none := Metrics(0, 0, 0, 0, 0, 0, 0, 0);
    var noPair := Pair(0, 0, 0, 0, false, [], [], [], []);
    var idle := RtSlot(false, 0, 0, 0, noPair);
    Scheduler(generation, 0, 0, 0, State31, [idle, idle],
              StateSlot(false, 0, 0, 0, Report31(0, false, Repeat<Byte>(0, REPORT_MAX))), StateSlot(false, 0, 0, 0, false),
              none, none, none)
  }

  ghost predicate Initial(st: TxState) {
    exists generation :: st == TxState(Fresh(generation), {}, [], [], [])
  }

  // No 32-bit version and no 64-bit sequence number has wrapped.
  predicate NoWrap(s: Scheduler) {
    s.nextVersion < UINT32_MAX && s.nextSequence < UINT64_MAX
  }

  ghost predicate Enabled(st: TxState, a: TxAction) {
    && Shaped(st.sched)
    && NoWrap(st.sched)
    && (a.FinishWith? ==> a.sel in st.handed)
  }

  // The four places an accepted item can wait in: two realtime slots and the two state slots.
  function Occupants(s: Scheduler): (occ: seq<Option<nat>>)
    requires |s.rt| == RT_DEPTH
    ensures |occ| == PLACES
  {
    [if s.rt[0].pending then Some(s.rt[0].version) else None,
     if s.rt[1].pending then Some(s.rt[1].version) else None,
     if s.s31.pending then Some(s.s31.version) else None,
     if s.s32.pending then Some(s.s32.version) else None]
  }

  function ClassAt(place: nat): TxClass {
    if place < 2 then Realtime else if place == 2 then State31 else State32
  }

  function Leaves(occ: seq<Option<nat>>, place: nat, fate: Fate): seq<Retirement>
    requires place < |occ|
  {
    if occ[place].Some? then [Retirement(occ[place].value, ClassAt(place), fate)] else []
  }

  function LeavesIf(b: bool, occ: seq<Option<nat>>, place: nat, fate: Fate): seq<Retirement>
    requires place < |occ|
  {
    if b then Leaves(occ, place, fate) else []
  }

  /** The items a step takes out of their places, each with the reason. */
  function Departures(s: Scheduler, a: TxAction): seq<Retirement>
    requires Shaped(s)
  {
    var occ := Occupants(s);
    match a
    case ResetTo(_) => Leaves(occ, 0, Expired) + Leaves(occ, 1, Expired) + Leaves(occ, 2, Expired) + Leaves(occ, 3, Expired)
    case PublishPair(pair) =>
      if pair.generation != s.generation || FirstIdle(s.rt) >= 0 then []
      else Leaves(occ, OldestRealtime(s.rt), Replaced)
    case IngestFrom(_) => []
    case AbandonRead(_) => []
    case PublishReport(report, _, generation, _) =>
      LeavesIf(|report| <= REPORT_MAX && generation == s.generation, occ, 2, Replaced)
    case PublishMic(_, generation, _) => LeavesIf(generation == s.generation, occ, 3, Replaced)
    case SelectAt(nowUs, _) =>
      LeavesIf(IsStaleRt(s, s.rt[0], nowUs), occ, 0, Expired)
      + LeavesIf(IsStaleRt(s, s.rt[1], nowUs), occ, 1, Expired)
      + LeavesIf(s.s31.generation != s.generation, occ, 2, Expired)
      + LeavesIf(s.s32.generation != s.generation, occ, 3, Expired)
    case FinishWith(sel, result) =>
      if !IsCurrent(s, sel) || result == Again then []
      else [Retirement(sel.version, sel.txClass, if result == Drop then Dropped else Transmitted)]
  }

  /** What a step accepts. */
  function Arrivals(s: Scheduler, a: TxAction): seq<Item>
    requires Shaped(s)
  {
    match a
    case PublishPair(pair) =>
      if pair.generation == s.generation then [Item(pair.generation, pair.firstCapturedUs, PairContent(pair))] else []
    case IngestFrom(Some(pair)) =>
      if FirstIdle(s.rt) >= 0 && pair.generation == s.generation
      then [Item(pair.generation, pair.firstCapturedUs, PairContent(pair))] else []
    case PublishReport(report, includesId, generation, createdUs) =>
      if |report| <= REPORT_MAX && generation == s.generation
      then [Item(generation, createdUs, ReportContent(report, includesId))] else []
    case PublishMic(active, generation, createdUs) =>
      if generation == s.generation then [Item(generation, createdUs, MicContent(active))] else []
    case _ => []
  }

  function After(s: Scheduler, a: TxAction): Scheduler
    requires Shaped(s)
  {
    match a
    case ResetTo(generation) => ResetGeneration(s, generation)
    case PublishPair(pair) => PublishRealtime(s, pair).0
    case IngestFrom(offer) => if offer.Some? then IngestPair(s, offer.value).0 else s
    case AbandonRead(partial) => Overwrite(s, partial)
    case PublishReport(report, includesId, generation, createdUs) =>
      PublishState31(s, report, includesId, generation, createdUs).0
    case PublishMic(active, generation, createdUs) => PublishState32(s, active, generation, createdUs).0
    case SelectAt(nowUs, eligible) => Select(s, nowUs, eligible).0
    case FinishWith(sel, result) => Finish(s, sel, result).0
  }

  function HandedBy(s: Scheduler, a: TxAction): set<Selection>
    requires Shaped(s)
  {
    match a
    case SelectAt(nowUs, eligible) =>
      var picked := Select(s, nowUs, eligible).1;
      if picked.Some? then {picked.value} else {}
    case _ => {}
  }

  function SentBy(s: Scheduler, a: TxAction): seq<nat>
    requires Shaped(s)
  {
    match a
    case FinishWith(sel, result) =>
      if IsCurrent(s, sel) && result == Success && sel.txClass == Realtime then [s.rt[sel.slot].sequence] else []
    case _ => []
  }

  function Next(st: TxState, a: TxAction): TxState
    requires Enabled(st, a)
  {
    TxState(After(st.sched, a),
            st.handed + HandedBy(st.sched, a),
            st.items + Arrivals(st.sched, a),
            st.retired + Departures(st.sched, a),
            st.sent + SentBy(st.sched, a))
  }

  // A run: states[0] is initial and actions[i] leads from states[i] to states[i + 1].
  ghost predicate Run(states: seq<TxState>, actions: seq<TxAction>) {
    && |states| == |actions| + 1
    && Initial(states[0])
    && (forall i :: 0 <= i < |actions| ==> Enabled(states[i], actions[i]) && states[i + 1] == Next(states[i], actions[i]))
  }
}
