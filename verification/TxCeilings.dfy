/** The waiting bounds are exact: every run with numbers left can be continued until its allowance is used up. */
module TxCeilings {
  import opened Basics
  import opened EpochTypes
  import opened TxSteps
  import opened TxSystem
  import opened TxInvariant
  import opened TxTheorems
  import opened TxWaiting

  // From step m to its end the run passes over the waiting state items.
  ghost predicate Overtaken(states: seq<TxState>, actions: seq<TxAction>, m: nat) {
    && m < |states| == |actions| + 1
    && Run(states, actions)
    && StatePassedOver(states, actions, m, |states| - 1)
  }

  ghost predicate Continues(states: seq<TxState>, actions: seq<TxAction>, states': seq<TxState>, actions': seq<TxAction>, m: nat) {
    && states <= states' && actions <= actions'
    && Overtaken(states', actions', m)
  }

  /** Realtime items retired from step m to the end of the run. */
  function RetiredSince(states: seq<TxState>, actions: seq<TxAction>, m: nat): nat
    requires m < |states| == |actions| + 1
  {
    RealtimeRetired(states, actions, m, |states| - 1)
  }

  function End(states: seq<TxState>): TxState
    requires |states| > 0
  {
    states[|states| - 1]
  }

  // Two versions and one sequence number are left for each of k more realtime items.
  predicate NumbersLeft(s: Scheduler, k: nat) {
    s.nextVersion + 2 * k < UINT32_MAX && s.nextSequence + k < UINT64_MAX
  }

  ghost function StatesOutstanding(st: TxState): nat {
    One(Outstanding(st, State31)) + One(Outstanding(st, State32))
  }

  // ---- one more step ----

  lemma {:induction false} RetiredOfPrefix(states: seq<TxState>, actions: seq<TxAction>,
                        states': seq<TxState>, actions': seq<TxAction>, m: nat, n: nat)
    requires m <= n < |states| == |actions| + 1 && |states'| == |actions'| + 1
    requires states <= states' && actions <= actions'
    ensures RealtimeRetired(states', actions', m, n) == RealtimeRetired(states, actions, m, n)
  {
    hide RetiresRealtime;
    if n > m { RetiredOfPrefix(states, actions, states', actions', m, n - 1); }
  }

  lemma RunExtends(states: seq<TxState>, actions: seq<TxAction>, a: TxAction)
    requires Run(states, actions) && Enabled(End(states), a)
    ensures Run(states + [Next(End(states), a)], actions + [a])
  {
    hide Next, Initial, Enabled;
    var states', actions' := states + [Next(End(states), a)], actions + [a];
    forall i | 0 <= i < |actions'|
      ensures Enabled(states'[i], actions'[i]) && states'[i + 1] == Next(states'[i], actions'[i])
    {
      if i < |actions| {
        assert states'[i] == states[i] && states'[i + 1] == states[i + 1] && actions'[i] == actions[i];
      }
    }
  }

  lemma Extend(states: seq<TxState>, actions: seq<TxAction>, m: nat, a: TxAction)
    returns (states': seq<TxState>, actions': seq<TxAction>)
    requires Overtaken(states, actions, m) && Enabled(End(states), a) && PassesOver(End(states).sched, a)
    ensures Continues(states, actions, states', actions', m) && |states'| == |states| + 1
    ensures End(states') == Next(End(states), a)
    ensures RetiredSince(states', actions', m) ==
            RetiredSince(states, actions, m) + One(RetiresRealtime(End(states).sched, a))
  {
    hide Next, Run, Enabled, PassesOver, RetiresRealtime;
    states', actions' := states + [Next(End(states), a)], actions + [a];
    RunExtends(states, actions, a);
    RetiredOfPrefix(states, actions, states', actions', m, |states| - 1);
    assert forall i :: 0 <= i < |actions| ==> states'[i] == states[i] && actions'[i] == actions[i];
  }

  // ---- the steps that use up allowance ----

  // A step that leaves slot and hands of class c alone leaves its outstanding selection.
  lemma StaysOutstanding(st: TxState, a: TxAction, c: TxClass)
    requires Enabled(st, a) && After(st.sched, a).generation == st.sched.generation
    requires c == State31 || c == State32
    requires if c == State31 then After(st.sched, a).s31 == st.sched.s31 else After(st.sched, a).s32 == st.sched.s32
    ensures Outstanding(st, c) ==> Outstanding(Next(st, a), c)
  {
    hide After, Arrivals, Departures, SentBy, HandedBy;
    if Outstanding(st, c) {
      var sel :| sel in st.handed && sel.txClass == c && IsCurrent(st.sched, sel);
      assert sel in Next(st, a).handed && IsCurrent(After(st.sched, a), sel);
    }
  }

  ghost predicate Keeps(st: TxState, st': TxState) {
    && Inv(st')
    && st'.sched.nextStateClass == st.sched.nextStateClass && st'.sched.s32.pending == st.sched.s32.pending
    && Room(st'.sched) == Room(st.sched) && Credit(st') == Credit(st)
    && Outstanding(st', State31) == Outstanding(st, State31)
    && Outstanding(st', State32) == Outstanding(st, State32)
  }

  lemma KeepsIfQuiet(st: TxState, a: TxAction)
    requires Inv(st) && Enabled(st, a) && PassesOver(st.sched, a) && Credit(st) == Room(st.sched)
    requires After(st.sched, a).s32.pending == st.sched.s32.pending && !Retires(st.sched, a)
    requires Outstanding(st, State31) ==> Outstanding(Next(st, a), State31)
    requires Outstanding(st, State32) ==> Outstanding(Next(st, a), State32)
    ensures Keeps(st, Next(st, a))
  {
    hide Inv, Next, After, Outstanding, Enabled, PassesOver, Retires, Ready31, Ready32;
    NextKeepsInv(st, a);
    NextSched(st, a);
    PassingReady(st.sched, a);
    QuietTurn(st, a);
    CreditStep(st, a);
    NoneAdded(st, a);
  }

  lemma NoneAdded(st: TxState, a: TxAction)
    requires Inv(st) && Enabled(st, a) && PassesOver(st.sched, a)
    ensures Outstanding(Next(st, a), State31) ==> Outstanding(st, State31)
    ensures Outstanding(Next(st, a), State32) ==> Outstanding(st, State32)
  {
    hide Inv, Next, Outstanding, Enabled, Select;
    OutstandingBefore(st, a, State31);
    OutstandingBefore(st, a, State32);
  }

  const ALL: Eligible := Eligible(true, true, true)

  predicate StateWaits(s: Scheduler) {
    s.s31.pending || s.s32.pending
  }

  predicate RealtimeWaits(s: Scheduler)
    requires |s.rt| == RT_DEPTH
  {
    s.rt[0].pending || s.rt[1].pending
  }

  // With no report waiting, one can be published.
  lemma AskReport(st: TxState) returns (a: TxAction)
    requires Inv(st) && NoWrap(st.sched) && Credit(st) == Room(st.sched) && !st.sched.s31.pending
    ensures a.PublishReport?
    ensures Enabled(st, a) && PassesOver(st.sched, a) && !Retires(st.sched, a) && Keeps(st, Next(st, a))
    ensures var t := Next(st, a).sched;
            t.s31.pending && t.nextVersion == st.sched.nextVersion + 1 && t.nextSequence == st.sched.nextSequence
  {
    hide Ledger, Accounts, Fifo, HoldsPair, Holds31, Holds32, Keeps, Outstanding;
    a := PublishReport([], true, st.sched.generation, 0);
    assert !Outstanding(st, State31) by { NotWaiting(st); }
    StaysOutstanding(st, a, State32);
    KeepsIfQuiet(st, a);
  }

  lemma NotWaiting(st: TxState)
    ensures !st.sched.s31.pending ==> !Outstanding(st, State31)
  {
  }

  function PairOf(generation: nat): Pair {
    Pair(generation, 0, 0, 0, false, [], [], [], [])
  }

  // A realtime item can be published at any time.
  lemma OfferPair(st: TxState) returns (a: TxAction)
    requires Inv(st) && NoWrap(st.sched) && Room(st.sched) > 0
    ensures a.PublishPair?
    ensures Enabled(st, a) && PassesOver(st.sched, a) && !Retires(st.sched, a) && Keeps(st, Next(st, a))
    ensures var t := Next(st, a).sched;
            && |t.rt| == RT_DEPTH && RealtimeWaits(t) && StateWaits(t) == StateWaits(st.sched)
            && t.nextVersion == st.sched.nextVersion + 1 && t.nextSequence == st.sched.nextSequence + 1
  {
    hide Ledger, Accounts, Fifo, HoldsPair, Holds31, Holds32, Keeps, Outstanding;
    a := PublishPair(PairOf(st.sched.generation));
    StaysOutstanding(st, a, State31);
    StaysOutstanding(st, a, State32);
    KeepsIfQuiet(st, a);
  }

  // At time zero nothing is stale, so the oldest realtime item is picked while the burst has room.
  lemma PicksRealtime(st: TxState) returns (sel: Selection)
    requires Inv(st) && Room(st.sched) > 0 && StateWaits(st.sched) && RealtimeWaits(st.sched)
    ensures Select(st.sched, 0, ALL) == (st.sched, Some(sel))
    ensures sel.txClass == Realtime && IsCurrent(st.sched, sel)
  {
    hide Ledger, Accounts, Fifo;
    var i := OldestRealtime(st.sched.rt);
    sel := RealtimeSelection(st.sched, i);
  }

  lemma SelectPair(st: TxState) returns (a: TxAction, sel: Selection)
    requires Inv(st) && NoWrap(st.sched) && Room(st.sched) > 0 && StateWaits(st.sched) && RealtimeWaits(st.sched)
    ensures Enabled(st, a) && PassesOver(st.sched, a) && !Retires(st.sched, a) && Keeps(st, Next(st, a))
    ensures a == SelectAt(0, ALL) && Next(st, a).sched == st.sched
    ensures sel in Next(st, a).handed && sel.txClass == Realtime && IsCurrent(st.sched, sel)
  {
    hide Ledger, Accounts, Fifo, HoldsPair, Holds31, Holds32, Keeps, Outstanding, Select, IsCurrent;
    a := SelectAt(0, ALL);
    sel := PicksRealtime(st);
    StaysOutstanding(st, a, State31);
    StaysOutstanding(st, a, State32);
    KeepsIfQuiet(st, a);
  }

  // Sending an outstanding realtime item costs exactly one.
  lemma SendPair(st: TxState, sel: Selection)
    requires Inv(st) && NoWrap(st.sched) && sel in st.handed && sel.txClass == Realtime && IsCurrent(st.sched, sel)
    ensures var a := FinishWith(sel, Success);
            var st' := Next(st, a);
            && Enabled(st, a) && PassesOver(st.sched, a) && RetiresRealtime(st.sched, a)
            && Inv(st') && st'.sched.nextVersion == st.sched.nextVersion && st'.sched.nextSequence == st.sched.nextSequence
            && Outstanding(st', State31) == Outstanding(st, State31)
            && Outstanding(st', State32) == Outstanding(st, State32)
            && st'.sched.nextStateClass == st.sched.nextStateClass && st'.sched.s32.pending == st.sched.s32.pending
            && Credit(st) == Credit(st') + 1
  {
    hide Ledger, Accounts, Fifo, HoldsPair, Holds31, Holds32, Outstanding, RetireMetric, Outcome;
    var a := FinishWith(sel, Success);
    NextKeepsInv(st, a);
    RealtimeOutstanding(st, a);
    RetiringLeavesNone(st, a);
    StaysOutstanding(st, a, State31);
    StaysOutstanding(st, a, State32);
    NoneAdded(st, a);
    RealtimeRetiredTurn(st.sched, a);
  }

  // With no credit left, sending an outstanding state item starts the burst again.
  lemma SendState(st: TxState) returns (a: TxAction)
    requires Inv(st) && NoWrap(st.sched) && Credit(st) == 0 && StatesOutstanding(st) > 0
    ensures Enabled(st, a) && PassesOver(st.sched, a) && !RetiresRealtime(st.sched, a)
    ensures var st' := Next(st, a);
            && Inv(st') && st'.sched.nextVersion == st.sched.nextVersion && st'.sched.nextSequence == st.sched.nextSequence
            && StatesOutstanding(st') + 1 == StatesOutstanding(st)
            && Credit(st') == MAX_RT_BURST
  {
    hide Ledger, Accounts, Fifo, HoldsPair, Holds31, Holds32, RetireMetric, Outcome;
    var c := if Outstanding(st, State31) then State31 else State32;
    var sel :| sel in st.handed && sel.txClass == c && IsCurrent(st.sched, sel);
    hide Outstanding;
    a := FinishWith(sel, Success);
    NextKeepsInv(st, a);
    StateRetired(st, a);
    OutstandingStates(st, a);
    if c == State31 { StaysOutstanding(st, a, State32); } else { StaysOutstanding(st, a, State31); }
  }

  // ---- using up the allowance ----

  // The report a select needs to see waiting.
  lemma EnsureStateWaits(states: seq<TxState>, actions: seq<TxAction>, m: nat)
    returns (states': seq<TxState>, actions': seq<TxAction>)
    requires Overtaken(states, actions, m) && Inv(End(states)) && NumbersLeft(End(states).sched, 1)
    requires Room(End(states).sched) > 0
    ensures Continues(states, actions, states', actions', m) && Keeps(End(states), End(states'))
    ensures RetiredSince(states', actions', m) == RetiredSince(states, actions, m)
    ensures var s, t := End(states).sched, End(states').sched;
            StateWaits(t) && t.nextVersion <= s.nextVersion + 1 && t.nextSequence == s.nextSequence
  {
    hide Inv, Next, Keeps, Run, StatePassedOver, Outstanding, Allowance, RealtimeRetired, Enabled, PassesOver, RetiresRealtime, Room;
    states', actions' := states, actions;
    if StateWaits(End(states).sched) {
      KeepsItself(End(states));
    } else {
      var a := AskReport(End(states));
      NotRealtime(End(states).sched, a);
      states', actions' := Extend(states, actions, m, a);
    }
  }

  lemma KeepsItself(st: TxState)
    requires Inv(st)
    ensures Keeps(st, st)
  {
  }

  lemma NotRealtime(s: Scheduler, a: TxAction)
    requires !Retires(s, a)
    ensures !RetiresRealtime(s, a)
  {
  }

  // With room in the burst, one more realtime item is published, selected and sent.
  lemma SendOne(states: seq<TxState>, actions: seq<TxAction>, m: nat)
    returns (states': seq<TxState>, actions': seq<TxAction>)
    requires Overtaken(states, actions, m) && Inv(End(states)) && NumbersLeft(End(states).sched, 1)
    requires Room(End(states).sched) > 0
    ensures Continues(states, actions, states', actions', m) && Inv(End(states'))
    ensures RetiredSince(states', actions', m) == RetiredSince(states, actions, m) + 1
    ensures StatesOutstanding(End(states')) == StatesOutstanding(End(states))
    ensures Credit(End(states)) == Credit(End(states')) + 1
    ensures var s, t := End(states).sched, End(states').sched;
            t.nextVersion <= s.nextVersion + 2 && t.nextSequence == s.nextSequence + 1
  {
    hide Inv, Next, Run, StatePassedOver, Outstanding, RealtimeRetired, Enabled, PassesOver, RetiresRealtime, Room, Credit,
         StateWaits, RealtimeWaits, IsCurrent;
    var states1, actions1 := EnsureStateWaits(states, actions, m);
    var offer := OfferPair(End(states1));
    NotRealtime(End(states1).sched, offer);
    var states2, actions2 := Extend(states1, actions1, m, offer);
    var pick, sel := SelectPair(End(states2));
    NotRealtime(End(states2).sched, pick);
    var states3, actions3 := Extend(states2, actions2, m, pick);
    SendPair(End(states3), sel);
    states', actions' := Extend(states3, actions3, m, FinishWith(sel, Success));
  }

  // Every run with numbers left can be continued until its allowance is used up.
  lemma Exhaust(states: seq<TxState>, actions: seq<TxAction>, m: nat)
    returns (states': seq<TxState>, actions': seq<TxAction>)
    requires Overtaken(states, actions, m) && Inv(End(states))
    requires NumbersLeft(End(states).sched, Allowance(End(states)))
    ensures Continues(states, actions, states', actions', m)
    ensures RetiredSince(states', actions', m) == RetiredSince(states, actions, m) + Allowance(End(states))
    decreases StatesOutstanding(End(states)), Credit(End(states))
  {
    hide Inv, Next, Run, StatePassedOver, Outstanding, RealtimeRetired, Enabled, PassesOver, RetiresRealtime, Room, Credit;
    var st := End(states);
    RoomIsCredit(st);
    if Credit(st) > 0 {
      var states1, actions1;
      if Room(st.sched) > 0 {
        states1, actions1 := SendOne(states, actions, m);
      } else {
        var sel := CreditIsHeld(st);
        SendPair(st, sel);
        states1, actions1 := Extend(states, actions, m, FinishWith(sel, Success));
      }
      states', actions' := Exhaust(states1, actions1, m);
    } else if StatesOutstanding(st) > 0 {
      var late := SendState(st);
      var states1, actions1 := Extend(states, actions, m, late);
      states', actions' := Exhaust(states1, actions1, m);
    } else {
      states', actions' := states, actions;
    }
  }

  lemma CreditIsHeld(st: TxState) returns (sel: Selection)
    requires Credit(st) > 0 && Room(st.sched) == 0
    ensures sel in st.handed && sel.txClass == Realtime && IsCurrent(st.sched, sel)
  {
    sel :| sel in st.handed && sel.txClass == Realtime && IsCurrent(st.sched, sel);
  }

  /**
   The allowance is exact: no continuation of the window retires more realtime items than were retired so far
   plus the allowance, and one retires exactly that many.
   */
  lemma AllowanceIsExact(states: seq<TxState>, actions: seq<TxAction>, m: nat)
    requires Overtaken(states, actions, m)
    requires NumbersLeft(End(states).sched, Allowance(End(states)))
    ensures var most := RetiredSince(states, actions, m) + Allowance(End(states));
            && (forall states', actions' | Continues(states, actions, states', actions', m) ::
                  RetiredSince(states', actions', m) <= most)
            && (exists states', actions' ::
                  Continues(states, actions, states', actions', m) && RetiredSince(states', actions', m) == most)
  {
    hide Inv, Allowance, RealtimeRetired, Run, StatePassedOver;
    RunKeepsInv(states, actions, |states| - 1);
    forall states', actions' | Continues(states, actions, states', actions', m)
      ensures RetiredSince(states', actions', m) <= RetiredSince(states, actions, m) + Allowance(End(states))
    {
      AllowanceSpent(states', actions', m, |states| - 1, |states'| - 1);
      RetiredOfPrefix(states, actions, states', actions', m, |states| - 1);
    }
    var states', actions' := Exhaust(states, actions, m);
    assert Continues(states, actions, states', actions', m);
  }

  /** No continuation of the window breaks the bound of three exactly when what was retired and the allowance fit in it. */
  lemma BurstOfThreeExactly(states: seq<TxState>, actions: seq<TxAction>, m: nat)
    requires Overtaken(states, actions, m)
    requires NumbersLeft(End(states).sched, Allowance(End(states)))
    ensures (forall states', actions' | Continues(states, actions, states', actions', m) ::
               RetiredSince(states', actions', m) <= MAX_RT_BURST)
            <==> RetiredSince(states, actions, m) + Allowance(End(states)) <= MAX_RT_BURST
  {
    hide Allowance, Overtaken, Continues, RetiredSince, NumbersLeft;
    AllowanceIsExact(states, actions, m);
  }

  /** Whenever the guard was violated in the window, the run extends to one retiring more than three. */
  lemma UnguardedRunsOver(states: seq<TxState>, actions: seq<TxAction>, m: nat)
    requires Overtaken(states, actions, m)
    requires NumbersLeft(End(states).sched, Allowance(End(states)))
    requires !Guarded(states, actions, m, |states| - 1)
    ensures exists states', actions' ::
              Continues(states, actions, states', actions', m) && RetiredSince(states', actions', m) > MAX_RT_BURST
  {
    hide Run, StatePassedOver, Guarded, Outstanding, RealtimeRetired, Continues;
    GuardedExactly(states, actions, m, |states| - 1);
    AllowanceIsExact(states, actions, m);
  }

  // ---- the ceilings are reached ----

  // The report and the microphone state are published and selected in turn, and stay unfinished.
  function OpeningActions(k: nat): seq<TxAction>
    requires 1 <= k <= 2
  {
    if k == 1 then [PublishReport([], true, 0, 0), SelectAt(0, ALL)]
    else [PublishMic(true, 0, 0), SelectAt(0, Eligible(true, false, true))]
  }

  ghost predicate Opened(st: TxState, k: nat, waiting: nat) {
    && Inv(st)
    && st.sched.nextVersion == waiting && st.sched.nextSequence == 0
    && st.sched.generation == 0 && st.sched.nextStateClass == State31 && st.sched.rtBurst == 0
    && !RealtimeWaits(st.sched)
    && st.sched.s31.pending == (waiting >= 1) && st.sched.s32.pending == (waiting == 2)
    && (Outstanding(st, State31) <==> k >= 1)
    && (Outstanding(st, State32) <==> k == 2)
  }

  lemma OpeningPublish(st: TxState, k: nat)
    requires 1 <= k <= 2 && Opened(st, k - 1, k - 1)
    ensures Enabled(st, OpeningActions(k)[0]) && Opened(Next(st, OpeningActions(k)[0]), k - 1, k)
  {
    hide RetireMetric, Outstanding, Ledger, Accounts, Fifo, HoldsPair, Holds31, Holds32;
    var a := OpeningActions(k)[0];
    NextKeepsInv(st, a);
    OutstandingBefore(st, a, State31);
    OutstandingBefore(st, a, State32);
    if k == 2 { StaysOutstanding(st, a, State31); }
  }

  lemma OpeningPick(st: TxState, k: nat)
    requires 1 <= k <= 2 && Opened(st, k - 1, k)
    ensures Enabled(st, OpeningActions(k)[1]) && Opened(Next(st, OpeningActions(k)[1]), k, k)
  {
    hide RetireMetric, Outstanding, Ledger, Accounts, Fifo;
    var a := OpeningActions(k)[1];
    var s := st.sched;
    var sel := if k == 1 then Selection(State31, 0, 0, s.s31.version, s.s31.createdUs)
               else Selection(State32, 0, 0, s.s32.version, s.s32.createdUs);
    assert Select(s, 0, a.eligible) == (s, Some(sel));
    NextKeepsInv(st, a);
    HandedIsOutstanding(Next(st, a), sel);
    if k == 1 {
      OutstandingBefore(st, a, State32);
    } else {
      StaysOutstanding(st, a, State31);
    }
  }

  lemma HandedIsOutstanding(st: TxState, sel: Selection)
    requires sel in st.handed && IsCurrent(st.sched, sel)
    ensures Outstanding(st, sel.txClass)
  {
  }

  lemma Opening(k: nat) returns (states: seq<TxState>, actions: seq<TxAction>)
    requires k <= 2
    ensures |states| == |actions| + 1 && Run(states, actions) && Opened(End(states), k, k)
  {
    hide Run, Opened, Enabled, Next;
    if k == 0 {
      states, actions := [TxState(Fresh(0), {}, [], [], [])], [];
      EmptyRun(states[0]);
    } else {
      states, actions := Opening(k - 1);
      var st := End(states);
      var publish, pick := OpeningActions(k)[0], OpeningActions(k)[1];
      OpeningPublish(st, k);
      RunExtends(states, actions, publish);
      OpeningPick(Next(st, publish), k);
      RunExtends(states + [Next(st, publish)], actions + [publish], pick);
      states, actions := states + [Next(st, publish)] + [Next(Next(st, publish), pick)], actions + [publish] + [pick];
    }
  }

  lemma EmptyRun(st: TxState)
    requires st == TxState(Fresh(0), {}, [], [], [])
    ensures Run([st], []) && Opened(st, 0, 0)
  {
    InitialInv(st);
  }

  /** The bounds for every caller are reached: with k state items sent, 3 * (1 + k) realtime items go out. */
  lemma EveryCeilingIsReached(k: nat)
    requires k <= 2
    ensures exists states: seq<TxState>, actions: seq<TxAction>, m: nat ::
              && Overtaken(states, actions, m)
              && StateSent(states, actions, m, |states| - 1) == k
              && RetiredSince(states, actions, m) == MAX_RT_BURST * (1 + k)
  {
    hide Run, Inv, Outstanding, Fresh, RealtimeRetired, StateSent;
    var states, actions := Opening(k);
    var m := |states| - 1;
    NothingYet(states, actions, m);
    var states', actions' := Exhaust(states, actions, m);
    RealtimeBurstIsBounded(states', actions', m, |states'| - 1);
    assert states'[m] == End(states);
  }

  lemma NothingYet(states: seq<TxState>, actions: seq<TxAction>, m: nat)
    requires m < |states| == |actions| + 1
    ensures RealtimeRetired(states, actions, m, m) == 0
  {
  }
}
