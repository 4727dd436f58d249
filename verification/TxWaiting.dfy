/** Bounded waiting: how many items can be retired while a state item keeps waiting, for every caller. */
module TxWaiting {
  import opened Basics
  import opened EpochTypes
  import opened TxSteps
  import opened TxSystem
  import opened TxInvariant
  import opened TxTheorems

  predicate Retires(s: Scheduler, a: TxAction) {
    a.FinishWith? && IsCurrent(s, a.sel) && a.result != Again
  }

  predicate RetiresRealtime(s: Scheduler, a: TxAction) {
    Retires(s, a) && a.sel.txClass == Realtime
  }

  predicate SendsState(s: Scheduler, a: TxAction) {
    Retires(s, a) && a.sel.txClass != Realtime && a.result == Success
  }

  predicate RetiresOther(s: Scheduler, a: TxAction) {
    Retires(s, a) && a.sel.txClass != State32
  }

  predicate DropsState(s: Scheduler, a: TxAction) {
    Retires(s, a) && a.sel.txClass != Realtime && a.result == Drop
  }

  /** Realtime items sent or dropped by finishes in the window. */
  function RealtimeRetired(states: seq<TxState>, actions: seq<TxAction>, m: nat, n: nat): nat
    requires m <= n < |states| == |actions| + 1
  {
    if n == m then 0
    else RealtimeRetired(states, actions, m, n - 1) + One(RetiresRealtime(states[n - 1].sched, actions[n - 1]))
  }

  /** State items sent by finishes in the window. */
  function StateSent(states: seq<TxState>, actions: seq<TxAction>, m: nat, n: nat): nat
    requires m <= n < |states| == |actions| + 1
  {
    if n == m then 0
    else StateSent(states, actions, m, n - 1) + One(SendsState(states[n - 1].sched, actions[n - 1]))
  }

  /** Items other than state-32 ones sent or dropped by finishes in the window. */
  function OthersRetired(states: seq<TxState>, actions: seq<TxAction>, m: nat, n: nat): nat
    requires m <= n < |states| == |actions| + 1
  {
    if n == m then 0
    else OthersRetired(states, actions, m, n - 1) + One(RetiresOther(states[n - 1].sched, actions[n - 1]))
  }

  /** State items dropped by finishes in the window. */
  function StateDropped(states: seq<TxState>, actions: seq<TxAction>, m: nat, n: nat): nat
    requires m <= n < |states| == |actions| + 1
  {
    if n == m then 0
    else StateDropped(states, actions, m, n - 1) + One(DropsState(states[n - 1].sched, actions[n - 1]))
  }

  // No reset; and if this is a select, some state class waits and is eligible, yet a realtime item is chosen.
  ghost predicate PassesOver(s: Scheduler, a: TxAction) {
    && !a.ResetTo?
    && (a.SelectAt? ==>
          && Shaped(s)
          && (Ready31(s, a.eligible) || Ready32(s, a.eligible))
          && Select(s, a.nowUs, a.eligible).1.Some?
          && Select(s, a.nowUs, a.eligible).1.value.txClass == Realtime)
  }

  ghost predicate StatePassedOver(states: seq<TxState>, actions: seq<TxAction>, m: nat, n: nat)
    requires m <= n < |states| == |actions| + 1
  {
    forall i :: m <= i < n ==> PassesOver(states[i].sched, actions[i])
  }

  // No reset; and if this is a select, state-32 items are eligible, yet none is chosen.
  ghost predicate PassesOver32(s: Scheduler, a: TxAction) {
    && !a.ResetTo?
    && (a.SelectAt? ==>
          && Shaped(s)
          && a.eligible.state32
          && (Select(s, a.nowUs, a.eligible).1.Some? ==> Select(s, a.nowUs, a.eligible).1.value.txClass != State32))
  }

  // In the window a state-32 item is always waiting, eligible at every select, and never chosen.
  ghost predicate State32PassedOver(states: seq<TxState>, actions: seq<TxAction>, m: nat, n: nat)
    requires m <= n < |states| == |actions| + 1
  {
    && (forall i :: m <= i <= n ==> states[i].sched.s32.pending)
    && (forall i :: m <= i < n ==> PassesOver32(states[i].sched, actions[i]))
  }

  // A handed-out selection of class c can still be finished.
  ghost predicate Outstanding(st: TxState, c: TxClass) {
    exists sel :: sel in st.handed && sel.txClass == c && IsCurrent(st.sched, sel)
  }

  function Room(s: Scheduler): nat {
    if s.rtBurst < MAX_RT_BURST then MAX_RT_BURST - s.rtBurst else 0
  }

  /** How many realtime items can still be retired before a state item is sent. */
  ghost function Credit(st: TxState): nat {
    if Outstanding(st, Realtime) && Room(st.sched) == 0 then 1 else Room(st.sched)
  }

  /** How many realtime items can still be retired before a state item is selected: a state selection handed out
      earlier can be sent in the meantime, which starts the burst again. */
  ghost function Allowance(st: TxState): nat {
    Credit(st) + MAX_RT_BURST * (One(Outstanding(st, State31)) + One(Outstanding(st, State32)))
  }

  /** How many items other than the waiting state-32 item can still be retired before it is selected. */
  ghost function Allowance32(st: TxState): nat {
    Credit(st) + (if st.sched.nextStateClass != State32 || Outstanding(st, State31) then MAX_RT_BURST + 1 else 0)
  }

  // ---- one step ----

  // A publish takes a new version, so it revives no old selection.
  lemma CurrentBeforePublish(s: Scheduler, a: TxAction, sel: Selection)
    requires Shaped(s) && NoWrap(s) && !a.ResetTo? && !a.SelectAt? && !a.FinishWith? && sel.version <= s.nextVersion
    ensures IsCurrent(After(s, a), sel) ==> IsCurrent(s, sel)
  {
    hide OldestRealtime, Accepting;
  }

  lemma CurrentBefore(st: TxState, a: TxAction, sel: Selection)
    requires Inv(st) && Enabled(st, a) && !a.ResetTo? && sel.version <= st.sched.nextVersion
    ensures IsCurrent(After(st.sched, a), sel) ==> IsCurrent(st.sched, sel)
  {
    hide Inv, After;
    if a.SelectAt? || a.FinishWith? {
      OtherEmpties(st.sched, a);
    } else {
      CurrentBeforePublish(st.sched, a, sel);
    }
  }

  lemma OutstandingBefore(st: TxState, a: TxAction, c: TxClass)
    requires Inv(st) && Enabled(st, a) && !a.ResetTo?
    requires a.SelectAt? ==> var picked := Select(st.sched, a.nowUs, a.eligible).1;
                             picked.Some? ==> picked.value.txClass != c
    ensures Outstanding(Next(st, a), c) ==> Outstanding(st, c)
  {
    hide After, Arrivals, Departures, SentBy, IsCurrent, Holds, Ledger, Accounts, HandedOldest, Select;
    if Outstanding(Next(st, a), c) {
      var sel :| sel in Next(st, a).handed && sel.txClass == c && IsCurrent(After(st.sched, a), sel);
      assert sel in st.handed;
      CurrentBefore(st, a, sel);
    }
  }

  // The clean-up of a select leaves the state slots and the turn alone.
  lemma SelectKeepsTurn(st: TxState, nowUs: nat, e: Eligible)
    requires Inv(st)
    ensures var t := Select(st.sched, nowUs, e).0;
            && t.s31 == st.sched.s31 && t.s32 == st.sched.s32
            && t.rtBurst == st.sched.rtBurst && t.nextStateClass == st.sched.nextStateClass
  {
    hide Ledger, Accounts, Fifo, RetireMetric, Pick, IsStaleRt;
  }

  // A step that finishes nothing keeps burst and turn.
  lemma QuietTurn(st: TxState, a: TxAction)
    requires Inv(st) && Enabled(st, a) && !a.ResetTo? && !Retires(st.sched, a)
    ensures var t := After(st.sched, a);
            t.rtBurst == st.sched.rtBurst && t.nextStateClass == st.sched.nextStateClass
  {
    hide Ledger, Accounts, Fifo, HoldsPair, Holds31, Holds32, RetireMetric, Outcome, Pick, Select;
    if a.SelectAt? { SelectKeepsTurn(st, a.nowUs, a.eligible); }
  }

  // With a state class ready, a realtime item is chosen only while the burst has room.
  lemma RealtimeNeedsRoom(st: TxState, nowUs: nat, e: Eligible)
    requires Inv(st) && (Ready31(st.sched, e) || Ready32(st.sched, e))
    ensures var picked := Select(st.sched, nowUs, e).1;
            picked.Some? && picked.value.txClass == Realtime ==> Room(st.sched) > 0
  {
    hide Ledger, Accounts, Fifo, DropStaleRealtime, DropWrongGenerationState;
    SelectKeepsTurn(st, nowUs, e);
  }

  // A state-31 item is chosen over a waiting state-32 item only when it is its turn.
  lemma Report31NeedsTurn(st: TxState, nowUs: nat, e: Eligible)
    requires Inv(st) && Ready32(st.sched, e)
    ensures var picked := Select(st.sched, nowUs, e).1;
            picked.Some? && picked.value.txClass == State31 ==> st.sched.nextStateClass != State32
  {
    hide Ledger, Accounts, Fifo, DropStaleRealtime, DropWrongGenerationState;
    SelectKeepsTurn(st, nowUs, e);
  }

  // Only the oldest realtime item is ever outstanding, so retiring it leaves none.
  lemma RetiringLeavesNone(st: TxState, a: TxAction)
    requires Inv(st) && Enabled(st, a) && RetiresRealtime(st.sched, a)
    ensures !Outstanding(Next(st, a), Realtime)
  {
    hide Holds, Ledger, Accounts, RetireMetric, Outcome, Arrivals, Departures, SentBy;
    var s, t := st.sched, After(st.sched, a);
    assert HandedOldest(s, a.sel);
    forall sel | sel in Next(st, a).handed && sel.txClass == Realtime
      ensures !IsCurrent(t, sel)
    {
      assert HandedOldest(s, sel);
    }
  }

  lemma StateRetired(st: TxState, a: TxAction)
    requires Inv(st) && Enabled(st, a) && Retires(st.sched, a) && a.sel.txClass != Realtime
    ensures Outstanding(st, a.sel.txClass) && !Outstanding(Next(st, a), a.sel.txClass)
    ensures var t := After(st.sched, a);
            && (a.result == Drop ==> t.rtBurst == st.sched.rtBurst && t.nextStateClass == st.sched.nextStateClass)
            && (a.result == Success ==> t.rtBurst == 0)
            && (a.result == Success && a.sel.txClass == State31 ==> t.nextStateClass == State32)
            && (a.sel.txClass == State32 ==> !t.s32.pending)
  {
    hide Inv, RetireMetric, Outcome, Arrivals, Departures, SentBy;
  }

  lemma RealtimeRetiredTurn(s: Scheduler, a: TxAction)
    requires Shaped(s) && RetiresRealtime(s, a)
    ensures After(s, a).rtBurst == if s.rtBurst < UINT8_MAX then s.rtBurst + 1 else s.rtBurst
    ensures After(s, a).nextStateClass == s.nextStateClass
  {
    hide RetireMetric, Outcome;
  }

  /** A realtime retirement costs one credit, and only sending a state item gives credit back. */
  lemma CreditStep(st: TxState, a: TxAction)
    requires Inv(st) && Enabled(st, a) && !a.ResetTo?
    requires a.SelectAt? ==> Ready31(st.sched, a.eligible) || Ready32(st.sched, a.eligible)
    ensures Credit(Next(st, a)) <= MAX_RT_BURST
    ensures !SendsState(st.sched, a) ==>
              Credit(Next(st, a)) + One(RetiresRealtime(st.sched, a)) <= Credit(st)
  {
    hide Inv, Next, IsCurrent, Outstanding, Select, Finish;
    assert Next(st, a).sched == After(st.sched, a) by { NextSched(st, a); }
    InvShape(st);
    if RetiresRealtime(st.sched, a) {
      RealtimeOutstanding(st, a);
      RetiringLeavesNone(st, a);
      RealtimeRetiredTurn(st.sched, a);
    } else {
      if Retires(st.sched, a) {
        StateRetired(st, a);
      } else {
        QuietTurn(st, a);
      }
      if a.SelectAt? { RealtimeNeedsRoom(st, a.nowUs, a.eligible); }
      if Room(st.sched) == 0 { OutstandingBefore(st, a, Realtime); }
    }
  }

  lemma NextSched(st: TxState, a: TxAction)
    requires Enabled(st, a)
    ensures Next(st, a).sched == After(st.sched, a)
  {
    hide After, Arrivals, Departures, SentBy, HandedBy;
  }

  lemma RealtimeOutstanding(st: TxState, a: TxAction)
    requires Enabled(st, a) && RetiresRealtime(st.sched, a)
    ensures Outstanding(st, Realtime)
  {
  }

  /** The room of the burst and the realtime items retired never shrink together. */
  lemma RoomStep(st: TxState, a: TxAction)
    requires Inv(st) && Enabled(st, a) && !a.ResetTo?
    ensures Room(st.sched) <= Room(Next(st, a).sched) + One(RetiresRealtime(st.sched, a))
    ensures SendsState(st.sched, a) ==> Room(Next(st, a).sched) == MAX_RT_BURST && !RetiresRealtime(st.sched, a)
  {
    hide Inv, Next, IsCurrent, Outstanding, Select, Finish;
    NextSched(st, a);
    InvShape(st);
    if RetiresRealtime(st.sched, a) {
      RealtimeRetiredTurn(st.sched, a);
    } else if Retires(st.sched, a) {
      StateRetired(st, a);
    } else {
      QuietTurn(st, a);
    }
  }

  // State selections handed out before the window are used up one by one, and none is added.
  lemma OutstandingStates(st: TxState, a: TxAction)
    requires Inv(st) && Enabled(st, a) && PassesOver(st.sched, a)
    ensures One(Outstanding(Next(st, a), State31)) + One(Outstanding(Next(st, a), State32)) + One(SendsState(st.sched, a))
            <= One(Outstanding(st, State31)) + One(Outstanding(st, State32))
  {
    hide Inv, Next, IsCurrent, Outstanding, Select, Finish;
    OutstandingBefore(st, a, State31);
    OutstandingBefore(st, a, State32);
    if SendsState(st.sched, a) {
      StateRetired(st, a);
      ClassOfCurrent(st.sched, a.sel);
    }
  }

  lemma ClassOfCurrent(s: Scheduler, sel: Selection)
    requires IsCurrent(s, sel)
    ensures sel.txClass != NoClass
  {
  }

  lemma AllowanceStep(st: TxState, a: TxAction)
    requires Inv(st) && Enabled(st, a) && PassesOver(st.sched, a)
    ensures Allowance(Next(st, a)) + One(RetiresRealtime(st.sched, a)) <= Allowance(st)
  {
    hide Inv, Next, IsCurrent, Outstanding, Select, Finish, Enabled, Credit, Retires;
    CreditStep(st, a);
    OutstandingStates(st, a);
  }

  lemma Allowance32Step(st: TxState, a: TxAction)
    requires Inv(st) && Enabled(st, a) && PassesOver32(st.sched, a)
    requires st.sched.s32.pending && Next(st, a).sched.s32.pending
    ensures Allowance32(Next(st, a)) + One(RetiresOther(st.sched, a)) <= Allowance32(st) + One(DropsState(st.sched, a))
  {
    hide Inv, Next, IsCurrent, Outstanding, Select, Finish, Credit;
    NextSched(st, a);
    InvShape(st);
    CreditStep(st, a);
    if Retires(st.sched, a) && a.sel.txClass != Realtime {
      StateRetired(st, a);
      ClassOfCurrent(st.sched, a.sel);
      OutstandingBefore(st, a, State31);
    } else {
      if Retires(st.sched, a) { RealtimeRetiredTurn(st.sched, a); } else { QuietTurn(st, a); }
      if a.SelectAt? { Report31NeedsTurn(st, a.nowUs, a.eligible); }
      if st.sched.nextStateClass == State32 { OutstandingBefore(st, a, State31); }
    }
  }

  // ---- windows ----

  /** Over a passed-over window each realtime retirement uses up allowance, and none is ever added. */
  lemma {:induction false} AllowanceSpent(states: seq<TxState>, actions: seq<TxAction>, m: nat, k: nat, n: nat)
    requires Run(states, actions) && m <= k <= n < |states|
    requires StatePassedOver(states, actions, m, n)
    ensures RealtimeRetired(states, actions, m, n) + Allowance(states[n])
            <= RealtimeRetired(states, actions, m, k) + Allowance(states[k])
  {
    hide Next, Allowance, Inv, RetiresRealtime, PassesOver, Enabled, Initial;
    if n > k {
      AllowanceSpent(states, actions, m, k, n - 1);
      RunKeepsInv(states, actions, n - 1);
      AllowanceStep(states[n - 1], actions[n - 1]);
    }
  }

  /** State selections are never handed out inside the window, so at most the outstanding ones are sent. */
  lemma {:induction false} StatesRunOut(states: seq<TxState>, actions: seq<TxAction>, m: nat, n: nat)
    requires Run(states, actions) && m <= n < |states|
    requires StatePassedOver(states, actions, m, n)
    ensures StateSent(states, actions, m, n)
              + One(Outstanding(states[n], State31)) + One(Outstanding(states[n], State32))
            <= One(Outstanding(states[m], State31)) + One(Outstanding(states[m], State32))
  {
    hide Next, Outstanding, Inv, SendsState, PassesOver, Enabled, Initial;
    if n > m {
      StatesRunOut(states, actions, m, n - 1);
      RunKeepsInv(states, actions, n - 1);
      OutstandingStates(states[n - 1], actions[n - 1]);
    }
  }

  lemma CreditBound(st: TxState)
    ensures Credit(st) <= MAX_RT_BURST
  {
    hide Outstanding;
  }

  lemma PassingReady(s: Scheduler, a: TxAction)
    requires PassesOver(s, a)
    ensures !a.ResetTo? && (a.SelectAt? ==> Ready31(s, a.eligible) || Ready32(s, a.eligible))
  {
    hide Ready31, Ready32, Select;
  }

  lemma {:induction false} CreditSpent(states: seq<TxState>, actions: seq<TxAction>, m: nat, n: nat)
    requires Run(states, actions) && m <= n < |states|
    requires StatePassedOver(states, actions, m, n)
    ensures RealtimeRetired(states, actions, m, n) + Credit(states[n])
            <= MAX_RT_BURST * (1 + StateSent(states, actions, m, n))
  {
    hide Next, Credit, Inv, RetiresRealtime, SendsState, PassesOver, Enabled, Initial, Ready31, Ready32;
    CreditBound(states[n]);
    if n > m {
      CreditSpent(states, actions, m, n - 1);
      RunKeepsInv(states, actions, n - 1);
      PassingReady(states[n - 1].sched, actions[n - 1]);
      CreditStep(states[n - 1], actions[n - 1]);
      RoomStep(states[n - 1], actions[n - 1]);
    }
  }

  /**
   Whoever calls the scheduler and however late: while some state class is ready at every select and none is
   chosen, every state item sent buys at most three more realtime items, and only the state selections handed
   out before the window can be sent, one of each class.
   */
  lemma RealtimeBurstIsBounded(states: seq<TxState>, actions: seq<TxAction>, m: nat, n: nat)
    requires Run(states, actions) && m <= n < |states|
    requires StatePassedOver(states, actions, m, n)
    ensures var sent := StateSent(states, actions, m, n);
            && RealtimeRetired(states, actions, m, n) <= MAX_RT_BURST * (1 + sent)
            && sent <= One(Outstanding(states[m], State31)) + One(Outstanding(states[m], State32))
  {
    hide Run, StatePassedOver, Outstanding, Credit, RealtimeRetired, StateSent;
    CreditSpent(states, actions, m, n);
    StatesRunOut(states, actions, m, n);
  }

  // No state item is sent once a realtime item was retired in the window.
  ghost predicate Guarded(states: seq<TxState>, actions: seq<TxAction>, m: nat, n: nat)
    requires m <= n < |states| == |actions| + 1
  {
    forall i :: m <= i < n && SendsState(states[i].sched, actions[i]) ==> RealtimeRetired(states, actions, m, i) == 0
  }

  /** The bound of three holds, with what may still be retired, exactly while the guard does. */
  lemma {:induction false} GuardedExactly(states: seq<TxState>, actions: seq<TxAction>, m: nat, n: nat)
    requires Run(states, actions) && m <= n < |states|
    requires StatePassedOver(states, actions, m, n)
    ensures Guarded(states, actions, m, n) <==>
              RealtimeRetired(states, actions, m, n) + Credit(states[n]) <= MAX_RT_BURST
    ensures !Guarded(states, actions, m, n) ==>
              RealtimeRetired(states, actions, m, n) + Room(states[n].sched) > MAX_RT_BURST
  {
    hide Next, Credit, Inv, RetiresRealtime, SendsState, PassesOver, Enabled, Initial, Ready31, Ready32, Room;
    CreditBound(states[n]);
    RoomIsCredit(states[n]);
    if n > m {
      GuardedExactly(states, actions, m, n - 1);
      RunKeepsInv(states, actions, n - 1);
      PassingReady(states[n - 1].sched, actions[n - 1]);
      CreditStep(states[n - 1], actions[n - 1]);
      RoomStep(states[n - 1], actions[n - 1]);
      assert Guarded(states, actions, m, n) <==>
               Guarded(states, actions, m, n - 1)
               && (SendsState(states[n - 1].sched, actions[n - 1]) ==> RealtimeRetired(states, actions, m, n - 1) == 0);
    }
  }

  lemma RoomIsCredit(st: TxState)
    ensures Room(st.sched) <= Credit(st)
  {
    hide Outstanding;
  }

  /** While a state class is ready at every select, a guarded caller retires at most three realtime items. */
  lemma GuardedBurstIsThree(states: seq<TxState>, actions: seq<TxAction>, m: nat, n: nat)
    requires Run(states, actions) && m <= n < |states|
    requires StatePassedOver(states, actions, m, n) && Guarded(states, actions, m, n)
    ensures RealtimeRetired(states, actions, m, n) <= MAX_RT_BURST
  {
    hide Run, StatePassedOver, Guarded, RealtimeRetired, Credit, Room;
    GuardedExactly(states, actions, m, n);
  }

  // What the latest select handed out: a caller that keeps one selection record overwrites it.
  ghost function Latest(states: seq<TxState>, actions: seq<TxAction>, n: nat): Option<Selection>
    requires n < |states| == |actions| + 1
  {
    if n == 0 then None
    else if actions[n - 1].SelectAt? && Shaped(states[n - 1].sched) then
      Select(states[n - 1].sched, actions[n - 1].nowUs, actions[n - 1].eligible).1
    else Latest(states, actions, n - 1)
  }

  ghost predicate LatestOnly(states: seq<TxState>, actions: seq<TxAction>, m: nat, n: nat)
    requires m <= n < |states| == |actions| + 1
  {
    forall i :: m <= i < n && actions[i].FinishWith? ==> Latest(states, actions, i) == Some(actions[i].sel)
  }

  /** A caller that only finishes its latest selection is guarded. */
  lemma LatestOnlyIsGuarded(states: seq<TxState>, actions: seq<TxAction>, m: nat, n: nat)
    requires m <= n < |states| == |actions| + 1
    requires StatePassedOver(states, actions, m, n) && LatestOnly(states, actions, m, n)
    ensures Guarded(states, actions, m, n)
  {
    hide Select, StatePassedOver, IsCurrent;
    forall i | m <= i < n && SendsState(states[i].sched, actions[i])
      ensures RealtimeRetired(states, actions, m, i) == 0
    {
      LatestWasRealtime(states, actions, m, i, n);
    }
  }

  // Once a realtime item was retired in the window, the latest selection is a realtime one.
  lemma {:induction false} LatestWasRealtime(states: seq<TxState>, actions: seq<TxAction>, m: nat, i: nat, n: nat)
    requires m <= i <= n < |states| == |actions| + 1
    requires StatePassedOver(states, actions, m, n) && LatestOnly(states, actions, m, n)
    ensures RealtimeRetired(states, actions, m, i) > 0 ==>
              Latest(states, actions, i).Some? && Latest(states, actions, i).value.txClass == Realtime
  {
    hide Select, Ready31, Ready32, IsCurrent;
    if i > m { LatestWasRealtime(states, actions, m, i - 1, n); }
  }

  lemma {:induction false} Allowance32Spent(states: seq<TxState>, actions: seq<TxAction>, m: nat, k: nat, n: nat)
    requires Run(states, actions) && m <= k <= n < |states|
    requires State32PassedOver(states, actions, m, n)
    ensures OthersRetired(states, actions, m, n) + Allowance32(states[n]) + StateDropped(states, actions, m, k)
            <= OthersRetired(states, actions, m, k) + Allowance32(states[k]) + StateDropped(states, actions, m, n)
  {
    hide Next, Allowance32, Inv, RetiresOther, DropsState, PassesOver32, Enabled, Initial;
    if n > k {
      Allowance32Spent(states, actions, m, k, n - 1);
      RunKeepsInv(states, actions, n - 1);
      assert states[n].sched.s32.pending;
      Allowance32Step(states[n - 1], actions[n - 1]);
    }
  }

  /** A state-32 item that keeps waiting is selected after at most seven retirements of other items, whoever the
      caller is; a state-31 item that is dropped and not sent adds one. */
  lemma State32WaitIsBounded(states: seq<TxState>, actions: seq<TxAction>, m: nat, n: nat)
    requires Run(states, actions) && m <= n < |states|
    requires State32PassedOver(states, actions, m, n)
    ensures OthersRetired(states, actions, m, n) <= 2 * MAX_RT_BURST + 1 + StateDropped(states, actions, m, n)
  {
    hide Run, State32PassedOver, Credit;
    Allowance32Spent(states, actions, m, m, n);
    CreditBound(states[m]);
  }
}
