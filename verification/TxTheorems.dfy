/** Every scheduler step keeps the invariant, and what follows for whole runs. */
module TxTheorems {
  import opened Basics
  import opened EpochTypes
  import opened TxSteps
  import opened TxSystem
  import opened TxInvariant

  // ---- the ledger over the scheduler's steps ----

  ghost predicate LedgerAfter(s: Scheduler, a: TxAction, log: seq<Retirement>)
    requires Shaped(s)
  {
    && |After(s, a).rt| == RT_DEPTH
    && Ledger(Occupants(After(s, a)), log + Departures(s, a), After(s, a).nextVersion)
  }

  lemma PublishLedger(occ: seq<Option<nat>>, log: seq<Retirement>, n: nat, place: nat)
    requires Ledger(occ, log, n) && place < |occ|
    ensures Ledger(occ[place := Some(n + 1)], log + Leaves(occ, place, Replaced), n + 1)
  {
    hide Ledger;
    EvictKeepsLedger(occ, log, n, place, Replaced);
    var occ' := occ[place := None];
    PlaceKeepsLedger(occ', log + Leaves(occ, place, Replaced), n, place);
    assert occ'[place := Some(n + 1)] == occ[place := Some(n + 1)];
  }

  lemma PublishPairLedger(s: Scheduler, log: seq<Retirement>, pair: Pair)
    requires Shaped(s) && NoWrap(s) && Ledger(Occupants(s), log, s.nextVersion)
    ensures LedgerAfter(s, PublishPair(pair), log)
  {
    hide Ledger;
    if pair.generation == s.generation {
      var idle := FirstIdle(s.rt);
      var i := if idle >= 0 then idle else OldestRealtime(s.rt);
      PublishLedger(Occupants(s), log, s.nextVersion, i);
      assert Occupants(PublishRealtime(s, pair).0) == Occupants(s)[i := Some(s.nextVersion + 1)];
      if idle >= 0 {
        assert Leaves(Occupants(s), i, Replaced) == [];
      }
    } else {
      assert log + Departures(s, PublishPair(pair)) == log;
    }
  }

  lemma IngestLedger(s: Scheduler, log: seq<Retirement>, offer: Option<Pair>)
    requires Shaped(s) && NoWrap(s) && Ledger(Occupants(s), log, s.nextVersion)
    ensures LedgerAfter(s, IngestFrom(offer), log)
  {
    hide Ledger;
    assert log + Departures(s, IngestFrom(offer)) == log;
    var i := FirstIdle(s.rt);
    if offer.Some? && i >= 0 && offer.value.generation == s.generation {
      PlaceKeepsLedger(Occupants(s), log, s.nextVersion, i);
      assert Occupants(IngestPair(s, offer.value).0) == Occupants(s)[i := Some(s.nextVersion + 1)];
    } else {
      assert Occupants(After(s, IngestFrom(offer))) == Occupants(s);
    }
  }

  lemma AbandonLedger(s: Scheduler, log: seq<Retirement>, partial: Pair)
    requires Shaped(s) && Ledger(Occupants(s), log, s.nextVersion)
    ensures LedgerAfter(s, AbandonRead(partial), log)
  {
    hide Ledger;
    assert log + Departures(s, AbandonRead(partial)) == log;
    assert Occupants(After(s, AbandonRead(partial))) == Occupants(s);
  }

  lemma PublishStateLedger(s: Scheduler, log: seq<Retirement>, a: TxAction)
    requires Shaped(s) && NoWrap(s) && Ledger(Occupants(s), log, s.nextVersion)
    requires a.PublishReport? || a.PublishMic?
    ensures LedgerAfter(s, a, log)
  {
    hide Ledger;
    if Arrivals(s, a) == [] {
      assert log + Departures(s, a) == log;
    } else {
      var place := if a.PublishReport? then 2 else 3;
      PublishLedger(Occupants(s), log, s.nextVersion, place);
      assert Occupants(After(s, a)) == Occupants(s)[place := Some(s.nextVersion + 1)];
    }
  }

  lemma EvictIfKeepsLedger(b: bool, occ: seq<Option<nat>>, log: seq<Retirement>, n: nat, place: nat, fate: Fate)
    requires Ledger(occ, log, n) && place < |occ|
    ensures Ledger(VacatedIf(b, occ, place), log + LeavesIf(b, occ, place, fate), n)
  {
    hide Ledger;
    if b {
      EvictKeepsLedger(occ, log, n, place, fate);
    } else {
      assert log + LeavesIf(b, occ, place, fate) == log;
    }
  }

  function VacatedIf(b: bool, occ: seq<Option<nat>>, place: nat): (r: seq<Option<nat>>)
    requires place < |occ|
    ensures |r| == |occ|
  {
    if b then occ[place := None] else occ
  }

  lemma SelectVacates(s: Scheduler, nowUs: nat)
    requires Shaped(s)
    ensures var t := DropWrongGenerationState(DropStaleRealtime(s, nowUs));
            && |t.rt| == RT_DEPTH
            && t.nextVersion == s.nextVersion
            && Occupants(t) ==
               VacatedIf(s.s32.generation != s.generation,
                 VacatedIf(s.s31.generation != s.generation,
                   VacatedIf(IsStaleRt(s, s.rt[1], nowUs),
                     VacatedIf(IsStaleRt(s, s.rt[0], nowUs), Occupants(s), 0), 1), 2), 3)
  {
    hide RetireMetric;
    var u := DropStaleRealtime(s, nowUs);
    assert u.rt[0] == s.rt[0].(pending := s.rt[0].pending && !IsStaleRt(s, s.rt[0], nowUs));
    assert u.rt[1] == s.rt[1].(pending := s.rt[1].pending && !IsStaleRt(s, s.rt[1], nowUs));
  }

  lemma LeavesElsewhere(b: bool, b': bool, occ: seq<Option<nat>>, place: nat, other: nat, fate: Fate)
    requires place < |occ| && other < |occ| && place != other
    ensures LeavesIf(b, VacatedIf(b', occ, other), place, fate) == LeavesIf(b, occ, place, fate)
  {
  }

  // Up to four places are emptied in turn, each noticed in the log.
  lemma EvictFour(occ: seq<Option<nat>>, log: seq<Retirement>, n: nat, b0: bool, b1: bool, b2: bool, b3: bool)
    requires |occ| == PLACES && Ledger(occ, log, n)
    ensures Ledger(VacatedIf(b3, VacatedIf(b2, VacatedIf(b1, VacatedIf(b0, occ, 0), 1), 2), 3),
                   log + (LeavesIf(b0, occ, 0, Expired) + LeavesIf(b1, occ, 1, Expired)
                          + LeavesIf(b2, occ, 2, Expired) + LeavesIf(b3, occ, 3, Expired)), n)
  {
    hide Ledger, LeavesIf, VacatedIf;
    var occ1 := VacatedIf(b0, occ, 0);
    var occ2 := VacatedIf(b1, occ1, 1);
    var occ3 := VacatedIf(b2, occ2, 2);
    var log1 := log + LeavesIf(b0, occ, 0, Expired);
    var log2 := log1 + LeavesIf(b1, occ1, 1, Expired);
    var log3 := log2 + LeavesIf(b2, occ2, 2, Expired);
    EvictIfKeepsLedger(b0, occ, log, n, 0, Expired);
    EvictIfKeepsLedger(b1, occ1, log1, n, 1, Expired);
    EvictIfKeepsLedger(b2, occ2, log2, n, 2, Expired);
    EvictIfKeepsLedger(b3, occ3, log3, n, 3, Expired);
    LeavesElsewhere(b1, b0, occ, 1, 0, Expired);
    LeavesElsewhere(b2, b1, occ1, 2, 1, Expired);
    LeavesElsewhere(b2, b0, occ, 2, 0, Expired);
    LeavesElsewhere(b3, b2, occ2, 3, 2, Expired);
    LeavesElsewhere(b3, b1, occ1, 3, 1, Expired);
    LeavesElsewhere(b3, b0, occ, 3, 0, Expired);
    assert log3 + LeavesIf(b3, occ3, 3, Expired)
        == log + (LeavesIf(b0, occ, 0, Expired) + LeavesIf(b1, occ, 1, Expired)
                  + LeavesIf(b2, occ, 2, Expired) + LeavesIf(b3, occ, 3, Expired));
  }

  lemma ResetLedger(s: Scheduler, log: seq<Retirement>, generation: nat)
    requires Shaped(s) && Ledger(Occupants(s), log, s.nextVersion)
    ensures LedgerAfter(s, ResetTo(generation), log)
  {
    hide Ledger;
    var occ := Occupants(s);
    EvictFour(occ, log, s.nextVersion, true, true, true, true);
    assert Occupants(ResetGeneration(s, generation)) == occ[0 := None][1 := None][2 := None][3 := None];
  }

  lemma SelectLedger(s: Scheduler, log: seq<Retirement>, nowUs: nat, e: Eligible)
    requires Shaped(s) && Ledger(Occupants(s), log, s.nextVersion)
    ensures LedgerAfter(s, SelectAt(nowUs, e), log)
  {
    hide Ledger, IsStaleRt, DropStaleRealtime, DropWrongGenerationState, Pick, VacatedIf, LeavesIf, Occupants;
    SelectVacates(s, nowUs);
    EvictFour(Occupants(s), log, s.nextVersion, IsStaleRt(s, s.rt[0], nowUs), IsStaleRt(s, s.rt[1], nowUs),
              s.s31.generation != s.generation, s.s32.generation != s.generation);
  }

  lemma FinishLedger(s: Scheduler, log: seq<Retirement>, sel: Selection, result: FinishResult)
    requires Shaped(s) && Ledger(Occupants(s), log, s.nextVersion)
    ensures LedgerAfter(s, FinishWith(sel, result), log)
  {
    hide Ledger;
    if !IsCurrent(s, sel) || result == Again {
      assert log + Departures(s, FinishWith(sel, result)) == log;
      assert Occupants(Finish(s, sel, result).0) == Occupants(s);
    } else {
      var place := match sel.txClass case Realtime => sel.slot case State31 => 2 case _ => 3;
      EvictKeepsLedger(Occupants(s), log, s.nextVersion, place, if result == Drop then Dropped else Transmitted);
      assert Occupants(Finish(s, sel, result).0) == Occupants(s)[place := None];
    }
  }

  lemma LedgerKept(st: TxState, a: TxAction)
    requires Shaped(st.sched) && NoWrap(st.sched) && Ledger(Occupants(st.sched), st.retired, st.sched.nextVersion)
    ensures LedgerAfter(st.sched, a, st.retired)
  {
    hide Ledger, LedgerAfter;
    match a
    case ResetTo(generation) => ResetLedger(st.sched, st.retired, generation);
    case PublishPair(pair) => PublishPairLedger(st.sched, st.retired, pair);
    case IngestFrom(offer) => IngestLedger(st.sched, st.retired, offer);
    case AbandonRead(partial) => AbandonLedger(st.sched, st.retired, partial);
    case PublishReport(_, _, _, _) => PublishStateLedger(st.sched, st.retired, a);
    case PublishMic(_, _, _) => PublishStateLedger(st.sched, st.retired, a);
    case SelectAt(nowUs, e) => SelectLedger(st.sched, st.retired, nowUs, e);
    case FinishWith(sel, result) => FinishLedger(st.sched, st.retired, sel, result);
  }

  // ---- what waits is what was accepted ----

  lemma PairsStayHeld(s: Scheduler, t: Scheduler, items: seq<Item>, arr: seq<Item>, i: nat)
    requires |s.rt| == RT_DEPTH && |t.rt| == RT_DEPTH && i < RT_DEPTH
    requires HoldsPair(s.rt[i], s, items)
    requires t.rt[i].pending ==> t.rt[i] == s.rt[i] && t.generation == s.generation
    requires s.nextSequence <= t.nextSequence
    ensures HoldsPair(t.rt[i], t, items + arr)
  {
  }

  lemma StatesStayHeld(s: Scheduler, t: Scheduler, items: seq<Item>, arr: seq<Item>)
    ensures Holds31(s, items) && (t.s31.pending ==> t.s31 == s.s31 && t.generation == s.generation) ==>
              Holds31(t, items + arr)
    ensures Holds32(s, items) && (t.s32.pending ==> t.s32 == s.s32 && t.generation == s.generation) ==>
              Holds32(t, items + arr)
  {
  }

  lemma RealtimeHolds(st: TxState, a: TxAction)
    requires Holds(st) && Enabled(st, a) && (a.PublishPair? || a.IngestFrom?)
    ensures Holds(Next(st, a))
  {
    hide RetireMetric, Departures, HoldsPair, Holds31, Holds32;
    var s, t := st.sched, After(st.sched, a);
    var arr := Arrivals(s, a);
    StatesStayHeld(s, t, st.items, arr);
    forall i | 0 <= i < RT_DEPTH && (t.rt[i] == s.rt[i] || !t.rt[i].pending)
      ensures HoldsPair(t.rt[i], t, st.items + arr)
    {
      PairsStayHeld(s, t, st.items, arr, i);
    }
    if arr != [] {
      NewPairHolds(s, t, st.items, arr[0]);
      assert arr == [arr[0]];
      var pair := if a.PublishPair? then a.pair else a.offer.value;
      var idle := FirstIdle(s.rt);
      var i := if idle >= 0 then idle else OldestRealtime(s.rt);
      assert t.rt[i] == RtSlot(true, s.nextVersion + 1, s.nextSequence, pair.firstCapturedUs, pair);
      assert t.rt[1 - i] == s.rt[1 - i];
    }
  }

  lemma NewPairHolds(s: Scheduler, t: Scheduler, items: seq<Item>, item: Item)
    requires |items| == s.nextVersion && t.nextSequence == s.nextSequence + 1 && item.generation == t.generation
    ensures item.content.PairContent? && item.content.pair.generation == t.generation ==>
              HoldsPair(RtSlot(true, s.nextVersion + 1, s.nextSequence, item.createdUs, item.content.pair), t, items + [item])
  {
  }

  lemma StateHolds(st: TxState, a: TxAction)
    requires Holds(st) && Enabled(st, a) && (a.PublishReport? || a.PublishMic?)
    ensures Holds(Next(st, a))
  {
    hide RetireMetric, Departures, HoldsPair;
    var s, t := st.sched, After(st.sched, a);
    var arr := Arrivals(s, a);
    StatesStayHeld(s, t, st.items, arr);
    PairsStayHeld(s, t, st.items, arr, 0);
    PairsStayHeld(s, t, st.items, arr, 1);
    if arr != [] && a.PublishReport? {
      assert t.s31.payload.report[..t.s31.payload.len] == a.report;
    }
  }

  // Places are only emptied, and either nothing waits any more or the generation is unchanged.
  ghost predicate OnlyEmpties(s: Scheduler, t: Scheduler) {
    && |s.rt| == RT_DEPTH && |t.rt| == RT_DEPTH
    && t.nextVersion == s.nextVersion && t.nextSequence == s.nextSequence
    && |t.s31.payload.report| == |s.s31.payload.report|
    && (forall i :: 0 <= i < RT_DEPTH && t.rt[i].pending ==> t.rt[i] == s.rt[i] && t.generation == s.generation)
    && (t.s31.pending ==> t.s31 == s.s31 && t.generation == s.generation)
    && (t.s32.pending ==> t.s32 == s.s32 && t.generation == s.generation)
  }

  lemma EmptyingHolds(st: TxState, t: Scheduler)
    requires Holds(st) && OnlyEmpties(st.sched, t)
    ensures Holds(st.(sched := t))
  {
    hide HoldsPair, Holds31, Holds32;
    assert st.items + [] == st.items;
    StatesStayHeld(st.sched, t, st.items, []);
    PairsStayHeld(st.sched, t, st.items, [], 0);
    PairsStayHeld(st.sched, t, st.items, [], 1);
  }

  lemma StaleEmpties(s: Scheduler, i: nat, nowUs: nat)
    requires |s.rt| == RT_DEPTH && i < RT_DEPTH
    ensures OnlyEmpties(s, WithoutStale(s, i, nowUs))
  {
    hide RetireMetric, IsStaleRt;
  }

  lemma WrongGenerationEmpties(s: Scheduler)
    requires |s.rt| == RT_DEPTH
    ensures OnlyEmpties(s, DropWrongGenerationState(s))
  {
    hide RetireMetric;
  }

  lemma SelectEmpties(s: Scheduler, nowUs: nat, e: Eligible)
    requires |s.rt| == RT_DEPTH
    ensures OnlyEmpties(s, Select(s, nowUs, e).0)
  {
    hide WithoutStale, DropWrongGenerationState, Pick;
    StaleEmpties(s, 0, nowUs);
    StaleEmpties(WithoutStale(s, 0, nowUs), 1, nowUs);
    WrongGenerationEmpties(DropStaleRealtime(s, nowUs));
  }

  lemma OtherEmpties(s: Scheduler, a: TxAction)
    requires Shaped(s) && (a.ResetTo? || a.SelectAt? || a.FinishWith? || a.AbandonRead?)
    ensures OnlyEmpties(s, After(s, a)) && Arrivals(s, a) == []
  {
    hide RetireMetric, RetireMany, Outcome, Select;
    if a.SelectAt? { SelectEmpties(s, a.nowUs, a.eligible); }
  }

  lemma OtherHolds(st: TxState, a: TxAction)
    requires Holds(st) && Enabled(st, a) && (a.ResetTo? || a.SelectAt? || a.FinishWith? || a.AbandonRead?)
    ensures Holds(Next(st, a))
  {
    hide After, Arrivals, Departures, OnlyEmpties, HoldsPair, Holds31, Holds32;
    OtherEmpties(st.sched, a);
    EmptyingHolds(st, After(st.sched, a));
    assert st.items + Arrivals(st.sched, a) == st.items;
  }

  lemma HoldsKept(st: TxState, a: TxAction)
    requires Holds(st) && Enabled(st, a)
    ensures Holds(Next(st, a))
  {
    hide Holds, After;
    match a
    case PublishPair(_) => RealtimeHolds(st, a);
    case IngestFrom(_) => RealtimeHolds(st, a);
    case PublishReport(_, _, _, _) => StateHolds(st, a);
    case PublishMic(_, _, _) => StateHolds(st, a);
    case _ => OtherHolds(st, a);
  }

  // ---- the counters over the scheduler's steps ----

  ghost predicate Moves(m: Metrics, m': Metrics, occupied: nat, occupied': nat, c: TxClass, arr: seq<Item>, dep: seq<Retirement>) {
    && m'.accepted == m.accepted + AcceptedCount(arr, c)
    && m'.transmitted == m.transmitted + Tally(dep, c, Transmitted)
    && m'.dropped == m.dropped + Tally(dep, c, Dropped)
    && m'.replaced == m.replaced + Tally(dep, c, Replaced)
    && m'.stale == m.stale + Tally(dep, c, Expired)
    && m'.pending == occupied'
    && occupied' + m'.transmitted + m'.dropped + m'.replaced + m'.stale - m'.accepted
       == occupied + m.transmitted + m.dropped + m.replaced + m.stale - m.accepted
  }

  lemma MovesBalance(m: Metrics, m': Metrics, occupied: nat, occupied': nat, c: TxClass,
                     items: seq<Item>, arr: seq<Item>, log: seq<Retirement>, dep: seq<Retirement>)
    requires Balanced(m, c, occupied, items, log)
    requires Moves(m, m', occupied, occupied', c, arr, dep) && |arr| <= 1
    ensures Balanced(m', c, occupied', items + arr, log + dep)
  {
    TallyConcat(log, dep, c, Transmitted);
    TallyConcat(log, dep, c, Dropped);
    TallyConcat(log, dep, c, Replaced);
    TallyConcat(log, dep, c, Expired);
    if arr == [] {
      assert items + arr == items;
    } else {
      assert arr == [] + [arr[0]];
      AcceptedOne([], arr[0], c);
      AcceptedOne(items, arr[0], c);
    }
  }

  ghost predicate TalliesTo(dep: seq<Retirement>, place: nat, n: nat, fate: Fate) {
    forall c, f :: Tally(dep, c, f) == if c == ClassAt(place) && f == fate then n else 0
  }

  lemma TallyLeaves(b: bool, occ: seq<Option<nat>>, place: nat, fate: Fate)
    requires place < |occ|
    ensures TalliesTo(LeavesIf(b, occ, place, fate), place, One(b && occ[place].Some?), fate)
    ensures TalliesTo(Leaves(occ, place, fate), place, One(occ[place].Some?), fate)
  {
    var dep := Leaves(occ, place, fate);
    if dep != [] {
      assert dep == [dep[0]] && dep[..0] == [];
    }
  }

  // The three per-class counter records move together over one step.
  ghost predicate AllMove(s: Scheduler, t: Scheduler, arr: seq<Item>, dep: seq<Retirement>)
    requires |s.rt| == RT_DEPTH && |t.rt| == RT_DEPTH
  {
    && Moves(s.rtMetrics, t.rtMetrics, PendingCount(s.rt), PendingCount(t.rt), Realtime, arr, dep)
    && Moves(s.m31, t.m31, One(s.s31.pending), One(t.s31.pending), State31, arr, dep)
    && Moves(s.m32, t.m32, One(s.s32.pending), One(t.s32.pending), State32, arr, dep)
  }

  ghost predicate PendingCounted(s: Scheduler)
    requires |s.rt| == RT_DEPTH
  {
    && s.rtMetrics.pending == PendingCount(s.rt)
    && s.m31.pending == One(s.s31.pending)
    && s.m32.pending == One(s.s32.pending)
  }

  lemma ArrivalCounts(arr: seq<Item>)
    requires |arr| <= 1
    ensures forall c :: AcceptedCount(arr, c) == if arr != [] && ClassOf(arr[0].content) == c then 1 else 0
  {
    if arr != [] { assert arr[..0] == []; }
  }

  lemma TalliesAdd(a: seq<Retirement>, b: seq<Retirement>)
    ensures forall c, f :: Tally(a + b, c, f) == Tally(a, c, f) + Tally(b, c, f)
  {
    forall c, f
      ensures Tally(a + b, c, f) == Tally(a, c, f) + Tally(b, c, f)
    {
      TallyConcat(a, b, c, f);
    }
  }

  // The place a publish or ingest fills.
  function Target(s: Scheduler, a: TxAction): (place: nat)
    requires Shaped(s)
    ensures place < PLACES
  {
    match a
    case PublishReport(_, _, _, _) => 2
    case PublishMic(_, _, _) => 3
    case _ => if FirstIdle(s.rt) >= 0 then FirstIdle(s.rt) else OldestRealtime(s.rt)
  }

  predicate TargetTaken(s: Scheduler, a: TxAction)
    requires Shaped(s)
  {
    match a
    case PublishPair(_) => FirstIdle(s.rt) < 0
    case PublishReport(_, _, _, _) => s.s31.pending
    case PublishMic(_, _, _) => s.s32.pending
    case _ => false
  }

  lemma PublishTallies(s: Scheduler, a: TxAction, c: TxClass, fate: Fate)
    requires Shaped(s) && !a.ResetTo? && !a.SelectAt? && !a.FinishWith?
    ensures Tally(Departures(s, a), c, fate) ==
              One(Arrivals(s, a) != [] && c == ClassAt(Target(s, a)) && fate == Replaced && TargetTaken(s, a))
  {
    hide Tally, OldestRealtime;
    TallyLeaves(true, Occupants(s), Target(s, a), Replaced);
    NoTally();
  }

  // Publishing accepts at most one item and replaces at most one.
  lemma PublishMoves(s: Scheduler, a: TxAction)
    requires Shaped(s) && NoWrap(s) && PendingCounted(s)
    requires !a.ResetTo? && !a.SelectAt? && !a.FinishWith?
    ensures AllMove(s, After(s, a), Arrivals(s, a), Departures(s, a))
  {
    hide Tally, AcceptedCount, OldestRealtime, Departures, Occupants;
    ArrivalCounts(Arrivals(s, a));
    forall c, fate | true
      ensures Tally(Departures(s, a), c, fate) ==
                One(Arrivals(s, a) != [] && c == ClassAt(Target(s, a)) && fate == Replaced && TargetTaken(s, a))
    {
      PublishTallies(s, a, c, fate);
    }
    if Arrivals(s, a) == [] {
    } else if a.PublishPair? {
    } else if a.IngestFrom? {
    } else {
    }
  }

  lemma NoTally()
    ensures forall c, f :: Tally([], c, f) == 0
  {
  }

  lemma FourTallies(x0: seq<Retirement>, x1: seq<Retirement>, x2: seq<Retirement>, x3: seq<Retirement>)
    ensures forall c, f :: Tally(x0 + x1 + x2 + x3, c, f) == Tally(x0, c, f) + Tally(x1, c, f) + Tally(x2, c, f) + Tally(x3, c, f)
  {
    TalliesAdd(x0, x1);
    TalliesAdd(x0 + x1, x2);
    TalliesAdd(x0 + x1 + x2, x3);
  }

  lemma ResetMoves(s: Scheduler, generation: nat)
    requires Shaped(s) && PendingCounted(s)
    ensures AllMove(s, ResetGeneration(s, generation), [], Departures(s, ResetTo(generation)))
  {
    hide Tally, AcceptedCount;
    var occ := Occupants(s);
    ArrivalCounts([]);
    forall i: nat | i < PLACES
      ensures TalliesTo(Leaves(occ, i, Expired), i, One(occ[i].Some?), Expired)
    {
      TallyLeaves(true, occ, i, Expired);
    }
    FourTallies(Leaves(occ, 0, Expired), Leaves(occ, 1, Expired), Leaves(occ, 2, Expired), Leaves(occ, 3, Expired));
    RetireManyCounts(s.rtMetrics, PendingCount(s.rt));
  }

  lemma {:induction false} RetireManyCounts(m: Metrics, n: nat)
    requires n <= m.pending
    ensures RetireMany(m, n, true) == m.(stale := m.stale + n, pending := m.pending - n)
  {
    if n > 0 { RetireManyCounts(m, n - 1); }
  }

  // How many items of class c the two clean-up passes of select expire.
  function ExpiringIn(s: Scheduler, nowUs: nat, c: TxClass): nat
    requires |s.rt| == RT_DEPTH
  {
    match c
    case Realtime => One(IsStaleRt(s, s.rt[0], nowUs)) + One(IsStaleRt(s, s.rt[1], nowUs))
    case State31 => One(s.s31.pending && s.s31.generation != s.generation)
    case State32 => One(s.s32.pending && s.s32.generation != s.generation)
    case NoClass => 0
  }

  lemma SelectTallies(s: Scheduler, nowUs: nat, e: Eligible, c: TxClass, fate: Fate)
    requires Shaped(s)
    ensures Tally(Departures(s, SelectAt(nowUs, e)), c, fate) ==
              if fate == Expired then ExpiringIn(s, nowUs, c) else 0
  {
    hide Tally;
    var occ := Occupants(s);
    var b0, b1 := IsStaleRt(s, s.rt[0], nowUs), IsStaleRt(s, s.rt[1], nowUs);
    var b2, b3 := s.s31.generation != s.generation, s.s32.generation != s.generation;
    TallyLeaves(b0, occ, 0, Expired);
    TallyLeaves(b1, occ, 1, Expired);
    TallyLeaves(b2, occ, 2, Expired);
    TallyLeaves(b3, occ, 3, Expired);
    FourTallies(LeavesIf(b0, occ, 0, Expired), LeavesIf(b1, occ, 1, Expired),
                LeavesIf(b2, occ, 2, Expired), LeavesIf(b3, occ, 3, Expired));
  }

  lemma SelectMoves(s: Scheduler, nowUs: nat, e: Eligible)
    requires Shaped(s) && PendingCounted(s)
    ensures AllMove(s, Select(s, nowUs, e).0, [], Departures(s, SelectAt(nowUs, e)))
  {
    hide Tally, AcceptedCount, IsStaleRt, Pick, DropStaleRealtime, DropWrongGenerationState, PendingCount, Departures;
    ArrivalCounts([]);
    StaleSlotsCounted(s, nowUs);
    forall c, fate | true
      ensures Tally(Departures(s, SelectAt(nowUs, e)), c, fate) ==
                if fate == Expired then ExpiringIn(s, nowUs, c) else 0
    {
      SelectTallies(s, nowUs, e, c, fate);
    }
  }

  // The first clean-up pass empties the stale slots and counts them.
  lemma StaleRealtimeCounted(s: Scheduler, nowUs: nat)
    requires Shaped(s) && PendingCounted(s)
    ensures var t := DropStaleRealtime(s, nowUs);
            var b0, b1 := IsStaleRt(s, s.rt[0], nowUs), IsStaleRt(s, s.rt[1], nowUs);
            && |t.rt| == RT_DEPTH
            && PendingCounted(t)
            && t == s.(rt := t.rt, rtMetrics := t.rtMetrics)
            && PendingCount(t.rt) == PendingCount(s.rt) - One(b0) - One(b1)
            && t.rtMetrics == s.rtMetrics.(stale := s.rtMetrics.stale + One(b0) + One(b1), pending := t.rtMetrics.pending)
            && (b0 ==> s.rt[0].pending) && (b1 ==> s.rt[1].pending)
  {
    var u := WithoutStale(s, 0, nowUs);
    assert IsStaleRt(u, u.rt[1], nowUs) == IsStaleRt(s, s.rt[1], nowUs);
  }

  // What the two clean-up passes of select do to the slots and the counters.
  lemma StaleSlotsCounted(s: Scheduler, nowUs: nat)
    requires Shaped(s) && PendingCounted(s)
    ensures var t := DropWrongGenerationState(DropStaleRealtime(s, nowUs));
            var b0, b1 := IsStaleRt(s, s.rt[0], nowUs), IsStaleRt(s, s.rt[1], nowUs);
            var b2 := s.s31.pending && s.s31.generation != s.generation;
            var b3 := s.s32.pending && s.s32.generation != s.generation;
            && |t.rt| == RT_DEPTH
            && PendingCounted(t)
            && PendingCount(t.rt) == PendingCount(s.rt) - One(b0) - One(b1)
            && t.rtMetrics == s.rtMetrics.(stale := s.rtMetrics.stale + One(b0) + One(b1), pending := t.rtMetrics.pending)
            && t.m31 == s.m31.(stale := s.m31.stale + One(b2), pending := t.m31.pending)
            && t.m32 == s.m32.(stale := s.m32.stale + One(b3), pending := t.m32.pending)
            && One(t.s31.pending) == One(s.s31.pending) - One(b2)
            && One(t.s32.pending) == One(s.s32.pending) - One(b3)
            && (b0 ==> s.rt[0].pending) && (b1 ==> s.rt[1].pending)
  {
    hide DropStaleRealtime, IsStaleRt, PendingCount;
    StaleRealtimeCounted(s, nowUs);
  }

  lemma FinishMoves(s: Scheduler, sel: Selection, result: FinishResult)
    requires Shaped(s) && PendingCounted(s)
    ensures AllMove(s, Finish(s, sel, result).0, [], Departures(s, FinishWith(sel, result)))
  {
    hide Tally, AcceptedCount;
    ArrivalCounts([]);
    NoTally();
    if IsCurrent(s, sel) && result != Again {
      var occ := Occupants(s);
      var place := match sel.txClass case Realtime => sel.slot case State31 => 2 case _ => 3;
      var fate := if result == Drop then Dropped else Transmitted;
      TallyLeaves(true, occ, place, fate);
      assert Departures(s, FinishWith(sel, result)) == Leaves(occ, place, fate);
    }
  }

  lemma AccountsKept(st: TxState, a: TxAction)
    requires Inv(st) && Enabled(st, a)
    ensures Shaped(Next(st, a).sched) && Accounts(Next(st, a))
  {
    hide Moves, Ledger, Fifo, After, Departures, PendingCount;
    HoldsKept(st, a);
    var s, t := st.sched, After(st.sched, a);
    var arr, dep := Arrivals(s, a), Departures(s, a);
    AllMoves(s, a);
    MovesBalance(s.rtMetrics, t.rtMetrics, PendingCount(s.rt), PendingCount(t.rt), Realtime, st.items, arr, st.retired, dep);
    MovesBalance(s.m31, t.m31, One(s.s31.pending), One(t.s31.pending), State31, st.items, arr, st.retired, dep);
    MovesBalance(s.m32, t.m32, One(s.s32.pending), One(t.s32.pending), State32, st.items, arr, st.retired, dep);
  }

  lemma AllMoves(s: Scheduler, a: TxAction)
    requires Shaped(s) && NoWrap(s) && PendingCounted(s) && |After(s, a).rt| == RT_DEPTH
    ensures AllMove(s, After(s, a), Arrivals(s, a), Departures(s, a))
  {
    hide AllMove, Departures, PendingCounted;
    match a
    case ResetTo(generation) => ResetMoves(s, generation);
    case SelectAt(nowUs, e) => SelectMoves(s, nowUs, e);
    case FinishWith(sel, result) => FinishMoves(s, sel, result);
    case _ => PublishMoves(s, a);
  }

  // ---- the order of the realtime queue ----

  // No realtime slot is filled; some may be emptied.
  ghost predicate Shrinks(s: Scheduler, t: Scheduler)
    requires |s.rt| == RT_DEPTH && |t.rt| == RT_DEPTH
  {
    && t.nextVersion >= s.nextVersion && t.nextSequence == s.nextSequence
    && (forall i :: 0 <= i < RT_DEPTH && t.rt[i].pending ==> t.rt[i] == s.rt[i])
  }

  // Slot i receives a new item, the other keeps its own.
  ghost predicate Fills(s: Scheduler, t: Scheduler, i: nat)
    requires |s.rt| == RT_DEPTH && |t.rt| == RT_DEPTH && i < RT_DEPTH
  {
    && t.nextVersion == s.nextVersion + 1 && t.nextSequence == s.nextSequence + 1
    && t.rt[i].sequence == s.nextSequence && t.rt[i].version == s.nextVersion + 1
    && t.rt[1 - i] == s.rt[1 - i]
  }

  ghost predicate SequencesBounded(s: Scheduler)
    requires |s.rt| == RT_DEPTH
  {
    forall i :: 0 <= i < RT_DEPTH && s.rt[i].pending ==> s.rt[i].sequence < s.nextSequence
  }

  lemma ShrinkKeepsFifo(st: TxState, t: Scheduler)
    requires |st.sched.rt| == RT_DEPTH && |t.rt| == RT_DEPTH && Fifo(st) && Shrinks(st.sched, t)
    ensures Fifo(st.(sched := t))
  {
    forall sel | sel in st.handed
      ensures sel.version <= t.nextVersion && HandedOldest(t, sel)
    {
      assert HandedOldest(st.sched, sel);
    }
  }

  lemma FillKeepsFifo(st: TxState, t: Scheduler, i: nat)
    requires |st.sched.rt| == RT_DEPTH && |t.rt| == RT_DEPTH && i < RT_DEPTH
    requires Fifo(st) && SequencesBounded(st.sched) && Fills(st.sched, t, i)
    ensures Fifo(st.(sched := t))
  {
    forall sel | sel in st.handed
      ensures sel.version <= t.nextVersion && HandedOldest(t, sel)
    {
      assert HandedOldest(st.sched, sel);
    }
  }

  lemma PickIsOldest(s: Scheduler, e: Eligible)
    requires Shaped(s)
    ensures Pick(s, e).Some? && Pick(s, e).value.txClass == Realtime ==>
              && Pick(s, e).value.slot < RT_DEPTH
              && s.rt[Pick(s, e).value.slot].version == Pick(s, e).value.version
              && s.rt[Pick(s, e).value.slot].pending
              && forall i :: 0 <= i < RT_DEPTH && s.rt[i].pending ==> s.rt[Pick(s, e).value.slot].sequence <= s.rt[i].sequence
  {
    assert forall i :: 0 <= i < RT_DEPTH && s.rt[i].pending ==> s.rt[i].sequence < UINT64_MAX;
  }

  lemma SelectKeepsFifo(st: TxState, nowUs: nat, e: Eligible)
    requires Holds(st) && Fifo(st) && Enabled(st, SelectAt(nowUs, e)) && Shaped(Select(st.sched, nowUs, e).0)
    requires Holds(st.(sched := Select(st.sched, nowUs, e).0))
    ensures Fifo(Next(st, SelectAt(nowUs, e)))
  {
    hide RetireMetric, Departures, Arrivals, Pick, DropStaleRealtime, DropWrongGenerationState;
    var s, t := st.sched, Select(st.sched, nowUs, e).0;
    SelectEmpties(s, nowUs, e);
    ShrinkKeepsFifo(st, t);
    PickIsOldest(t, e);
    assert st.sent + SentBy(s, SelectAt(nowUs, e)) == st.sent;
    var picked := Pick(t, e);
    assert picked.Some? ==> picked.value.version <= t.nextVersion by { PickedVersion(t, e, st.items); }
  }

  lemma PickedVersion(t: Scheduler, e: Eligible, items: seq<Item>)
    requires Shaped(t) && |items| == t.nextVersion
    requires HoldsPair(t.rt[0], t, items) && HoldsPair(t.rt[1], t, items) && Holds31(t, items) && Holds32(t, items)
    ensures Pick(t, e).Some? ==> IsCurrent(t, Pick(t, e).value) && Pick(t, e).value.version <= t.nextVersion
  {
  }

  lemma FinishKeepsFifo(st: TxState, sel: Selection, result: FinishResult)
    requires Holds(st) && Fifo(st) && Enabled(st, FinishWith(sel, result)) && Shaped(Finish(st.sched, sel, result).0)
    ensures Fifo(Next(st, FinishWith(sel, result)))
  {
    hide RetireMetric, Departures, Arrivals, Outcome;
    var s, t := st.sched, Finish(st.sched, sel, result).0;
    ShrinkKeepsFifo(st, t);
    assert HandedOldest(s, sel);
    assert st.handed + HandedBy(s, FinishWith(sel, result)) == st.handed;
    var sent := SentBy(s, FinishWith(sel, result));
    if sent == [] {
      assert st.sent + sent == st.sent;
    }
  }

  lemma FillsAt(s: Scheduler, a: TxAction)
    requires Shaped(s) && NoWrap(s) && (a.PublishPair? || a.IngestFrom?) && Arrivals(s, a) != []
    requires |After(s, a).rt| == RT_DEPTH
    ensures Fills(s, After(s, a), if FirstIdle(s.rt) >= 0 then FirstIdle(s.rt) else OldestRealtime(s.rt))
  {
  }

  lemma FifoKept(st: TxState, a: TxAction)
    requires Inv(st) && Enabled(st, a)
    ensures Shaped(Next(st, a).sched) && Fifo(Next(st, a))
  {
    hide RetireMetric, RetireMany, Departures, Ledger, Accounts, Fifo, Shrinks, Fills, OldestRealtime;
    HoldsKept(st, a);
    var s, t := st.sched, After(st.sched, a);
    if a.SelectAt? {
      SelectHolds(st, a.nowUs, a.eligible);
      SelectKeepsFifo(st, a.nowUs, a.eligible);
    } else if a.FinishWith? {
      FinishKeepsFifo(st, a.sel, a.result);
    } else {
      assert st.handed + HandedBy(s, a) == st.handed;
      assert st.sent + SentBy(s, a) == st.sent;
      if (a.PublishPair? || a.IngestFrom?) && Arrivals(s, a) != [] {
        FillsAt(s, a);
        FillKeepsFifo(st, t, if FirstIdle(s.rt) >= 0 then FirstIdle(s.rt) else OldestRealtime(s.rt));
      } else {
        OthersShrink(s, a);
        ShrinkKeepsFifo(st, t);
      }
      FifoReadsOnly(st.(sched := t), Next(st, a));
    }
  }

  lemma FifoReadsOnly(st: TxState, other: TxState)
    requires |st.sched.rt| == RT_DEPTH && Fifo(st)
    requires other.sched == st.sched && other.handed == st.handed && other.sent == st.sent
    ensures Fifo(other)
  {
  }

  lemma SelectHolds(st: TxState, nowUs: nat, e: Eligible)
    requires Holds(st) && Enabled(st, SelectAt(nowUs, e)) && Holds(Next(st, SelectAt(nowUs, e)))
    ensures Holds(st.(sched := Select(st.sched, nowUs, e).0))
  {
    assert st.items + Arrivals(st.sched, SelectAt(nowUs, e)) == st.items;
  }

  lemma OthersShrink(s: Scheduler, a: TxAction)
    requires Shaped(s) && NoWrap(s) && !a.SelectAt? && !a.FinishWith? && |After(s, a).rt| == RT_DEPTH
    requires (a.PublishPair? || a.IngestFrom?) ==> Arrivals(s, a) == []
    ensures Shrinks(s, After(s, a))
  {
  }

  lemma NextKeepsInv(st: TxState, a: TxAction)
    requires Inv(st) && Enabled(st, a)
    ensures Inv(Next(st, a))
  {
    hide After, Departures, Arrivals, Holds, Ledger, Accounts, Fifo;
    HoldsKept(st, a);
    LedgerKept(st, a);
    AccountsKept(st, a);
    FifoKept(st, a);
  }

  lemma {:induction false} RunKeepsInv(states: seq<TxState>, actions: seq<TxAction>, n: nat)
    requires Run(states, actions) && n < |states|
    ensures Inv(states[n])
  {
    hide Inv;
    if n == 0 {
      InitialInv(states[0]);
    } else {
      RunKeepsInv(states, actions, n - 1);
      NextKeepsInv(states[n - 1], actions[n - 1]);
    }
  }

  // ---- whole runs ----

  ghost predicate Waiting(s: Scheduler, v: nat)
    requires |s.rt| == RT_DEPTH
  {
    Some(v) in Occupants(s)
  }

  ghost predicate LeftExactlyOnce(log: seq<Retirement>, v: nat) {
    exists i :: 0 <= i < |log| && log[i].version == v && forall j :: 0 <= j < |log| && log[j].version == v ==> j == i
  }

  /** Every version ever handed out is either still waiting or was retired exactly once, never both. */
  lemma EveryVersionHasOneFate(states: seq<TxState>, actions: seq<TxAction>, n: nat, v: nat)
    requires Run(states, actions) && n < |states|
    requires |states[n].sched.rt| == RT_DEPTH
    ensures 1 <= v <= states[n].sched.nextVersion ==>
              (Waiting(states[n].sched, v) <==> !LeftExactlyOnce(states[n].retired, v))
    ensures !(1 <= v <= states[n].sched.nextVersion) ==>
              !Waiting(states[n].sched, v) && forall i :: 0 <= i < |states[n].retired| ==> states[n].retired[i].version != v
  {
    hide Run, Holds, Accounts, Fifo, Occupants;
    RunKeepsInv(states, actions, n);
    var occ, log := Occupants(states[n].sched), states[n].retired;
    if 1 <= v <= states[n].sched.nextVersion && Some(v) !in occ {
      assert Left(log, v);
      var i :| 0 <= i < |log| && log[i].version == v;
      assert forall j :: 0 <= j < |log| && log[j].version == v ==> j == i;
    }
  }

  lemma StepKeepsGone(st: TxState, a: TxAction, v: nat)
    requires Inv(st) && Enabled(st, a) && Inv(Next(st, a))
    requires 1 <= v <= st.sched.nextVersion && !Waiting(st.sched, v)
    ensures v <= Next(st, a).sched.nextVersion && !Waiting(Next(st, a).sched, v)
  {
    hide After, Departures, Arrivals, Holds, Accounts, Fifo, Occupants;
    VersionsGrow(st.sched, a);
    assert Left(st.retired, v);
    var i :| 0 <= i < |st.retired| && st.retired[i].version == v;
    assert Next(st, a).retired[i].version == v;
  }

  lemma VersionsGrow(s: Scheduler, a: TxAction)
    requires Shaped(s) && NoWrap(s)
    ensures s.nextVersion <= After(s, a).nextVersion
  {
    hide RetireMetric, RetireMany, Outcome, Pick;
  }

  /** Once a version has left its place it never comes back, and a late finish for it is refused without effect. */
  lemma {:induction false} RetiredStaysRetired(states: seq<TxState>, actions: seq<TxAction>, m: nat, n: nat, v: nat, sel: Selection, result: FinishResult)
    requires Run(states, actions) && m <= n < |states|
    requires |states[m].sched.rt| == RT_DEPTH && |states[n].sched.rt| == RT_DEPTH
    requires 1 <= v <= states[m].sched.nextVersion && !Waiting(states[m].sched, v)
    requires sel.version == v
    ensures v <= states[n].sched.nextVersion && !Waiting(states[n].sched, v)
    ensures Finish(states[n].sched, sel, result) == (states[n].sched, false)
  {
    hide Inv, Enabled, Next;
    if m < n {
      RunKeepsInv(states, actions, n - 1);
      InvShape(states[n - 1]);
      RetiredStaysRetired(states, actions, m, n - 1, v, sel, result);
      NextKeepsInv(states[n - 1], actions[n - 1]);
      StepKeepsGone(states[n - 1], actions[n - 1], v);
    }
    CurrentIsWaiting(states[n].sched, sel);
  }

  lemma InvShape(st: TxState)
    requires Inv(st)
    ensures Shaped(st.sched)
  {
  }

  lemma CurrentIsWaiting(s: Scheduler, sel: Selection)
    requires |s.rt| == RT_DEPTH
    ensures IsCurrent(s, sel) ==> Waiting(s, sel.version)
  {
    if IsCurrent(s, sel) {
      var occ := Occupants(s);
      var place := match sel.txClass case Realtime => sel.slot case State31 => 2 case _ => 3;
      assert occ[place] == Some(sel.version);
    }
  }

  /** Transmitted realtime items leave in the order they were accepted. */
  lemma TransmittedInOrder(states: seq<TxState>, actions: seq<TxAction>, n: nat)
    requires Run(states, actions) && n < |states|
    ensures forall i, j :: 0 <= i < j < |states[n].sent| ==> states[n].sent[i] < states[n].sent[j]
  {
    hide Run, Holds, Accounts, Ledger;
    RunKeepsInv(states, actions, n);
  }

  lemma SentCounted(s: Scheduler, a: TxAction)
    requires Shaped(s)
    ensures After(s, a).rtMetrics.transmitted == s.rtMetrics.transmitted + |SentBy(s, a)|
  {
    hide Pick, IsStaleRt, RetireMany, Select, Finish;
    if a.SelectAt? {
      SelectKeepsTransmitted(s, a.nowUs, a.eligible);
    } else if a.FinishWith? {
      FinishCountsTransmitted(s, a.sel, a.result);
    } else {
      RetireKeepsTransmitted(s.rtMetrics, PendingCount(s.rt));
    }
  }

  lemma SelectKeepsTransmitted(s: Scheduler, nowUs: nat, e: Eligible)
    requires Shaped(s)
    ensures Select(s, nowUs, e).0.rtMetrics.transmitted == s.rtMetrics.transmitted
  {
    hide Pick, IsStaleRt;
  }

  lemma FinishCountsTransmitted(s: Scheduler, sel: Selection, result: FinishResult)
    requires Shaped(s)
    ensures Finish(s, sel, result).0.rtMetrics.transmitted ==
              s.rtMetrics.transmitted + |SentBy(s, FinishWith(sel, result))|
  {
  }

  lemma {:induction false} RetireKeepsTransmitted(m: Metrics, n: nat)
    ensures RetireMany(m, n, true).transmitted == m.transmitted
  {
    if n > 0 { RetireKeepsTransmitted(m, n - 1); }
  }

  /** The list of transmitted realtime items is complete: the transmitted counter is its length. */
  lemma {:induction false} EveryTransmissionIsListed(states: seq<TxState>, actions: seq<TxAction>, n: nat)
    requires Run(states, actions) && n < |states|
    ensures states[n].sched.rtMetrics.transmitted == |states[n].sent|
  {
    hide After, SentBy, Departures, Arrivals, HandedBy;
    if n > 0 {
      EveryTransmissionIsListed(states, actions, n - 1);
      SentCounted(states[n - 1].sched, actions[n - 1]);
    }
  }

  /** In each class the counters balance, and pending is the number of occupied places. */
  lemma CountersBalance(states: seq<TxState>, actions: seq<TxAction>, n: nat)
    requires Run(states, actions) && n < |states|
    ensures var st := states[n];
            && |st.sched.rt| == RT_DEPTH
            && Balanced(st.sched.rtMetrics, Realtime, PendingCount(st.sched.rt), st.items, st.retired)
            && Balanced(st.sched.m31, State31, One(st.sched.s31.pending), st.items, st.retired)
            && Balanced(st.sched.m32, State32, One(st.sched.s32.pending), st.items, st.retired)
  {
    hide Run, Ledger, Fifo, Balanced;
    RunKeepsInv(states, actions, n);
  }

  /** A waiting item always belongs to the current generation, so the clean-up of state items never finds anything. */
  lemma NothingOutlivesItsGeneration(states: seq<TxState>, actions: seq<TxAction>, n: nat, nowUs: nat)
    requires Run(states, actions) && n < |states|
    ensures var s := states[n].sched;
            && |s.rt| == RT_DEPTH
            && (forall i :: 0 <= i < RT_DEPTH && s.rt[i].pending ==> s.rt[i].payload.generation == s.generation)
            && DropWrongGenerationState(DropStaleRealtime(s, nowUs)) == DropStaleRealtime(s, nowUs)
  {
    hide Run, Ledger, Fifo, Accounts;
    RunKeepsInv(states, actions, n);
  }

  // What a selection's payload pointer shows in state s.
  function Shown(s: Scheduler, sel: Selection): Option<Content>
    requires Shaped(s)
  {
    match sel.txClass
    case Realtime => if sel.slot < RT_DEPTH then Some(PairContent(s.rt[sel.slot].payload)) else None
    case State31 =>
      if s.s31.payload.len <= REPORT_MAX
      then Some(ReportContent(s.s31.payload.report[..s.s31.payload.len], s.s31.payload.includesId)) else None
    case State32 => Some(MicContent(s.s32.payload))
    case NoClass => None
  }

  /** A current selection, however long ago it was handed out, shows exactly what was accepted under its version. */
  lemma CurrentSelectionIsFaithful(states: seq<TxState>, actions: seq<TxAction>, n: nat, sel: Selection)
    requires Run(states, actions) && n < |states|
    requires IsCurrent(states[n].sched, sel)
    ensures Shaped(states[n].sched) && 1 <= sel.version <= |states[n].items|
    ensures states[n].items[sel.version - 1].generation == sel.generation
    ensures Shown(states[n].sched, sel) == Some(states[n].items[sel.version - 1].content)
  {
    hide Run, Ledger, Fifo, Accounts;
    RunKeepsInv(states, actions, n);
  }

  /** The scheduler's history only grows: what was accepted, retired, transmitted or handed out is never rewritten. */
  lemma {:induction false} ItemsOnlyGrow(states: seq<TxState>, actions: seq<TxAction>, m: nat, n: nat)
    requires Run(states, actions) && m <= n < |states|
    ensures states[m].items <= states[n].items && states[m].retired <= states[n].retired
    ensures states[m].sent <= states[n].sent && states[m].handed <= states[n].handed
  {
    hide Initial, Enabled, After, Arrivals, Departures;
    if m < n {
      ItemsOnlyGrow(states, actions, m, n - 1);
    }
  }
}
