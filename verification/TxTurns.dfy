/** The wait of a state-32 item is exact too: every such wait can be drawn out until its allowance is used up. */
module TxTurns {
  import opened Basics
  import opened EpochTypes
  import opened TxSteps
  import opened TxSystem
  import opened TxInvariant
  import opened TxTheorems
  import opened TxWaiting
  import opened TxCeilings

  // From step m to its end the run passes over a waiting state-32 item.
  ghost predicate Overtaken32(states: seq<TxState>, actions: seq<TxAction>, m: nat) {
    && m < |states| == |actions| + 1
    && Run(states, actions)
    && State32PassedOver(states, actions, m, |states| - 1)
  }

  ghost predicate Continues32(states: seq<TxState>, actions: seq<TxAction>, states': seq<TxState>, actions': seq<TxAction>, m: nat) {
    && states <= states' && actions <= actions'
    && Overtaken32(states', actions', m)
  }

  /** Items of the other classes retired, and state items dropped, from step m to the end of the run. */
  function OthersSince(states: seq<TxState>, actions: seq<TxAction>, m: nat): nat
    requires m < |states| == |actions| + 1
  {
    OthersRetired(states, actions, m, |states| - 1)
  }

  function DroppedSince(states: seq<TxState>, actions: seq<TxAction>, m: nat): nat
    requires m < |states| == |actions| + 1
  {
    StateDropped(states, actions, m, |states| - 1)
  }

  // The turn of the other state class, or a report of it still to be finished, lies ahead.
  ghost predicate ReportAhead(st: TxState) {
    st.sched.nextStateClass != State32 || Outstanding(st, State31)
  }

  // ---- one more step ----

  lemma {:induction false} OthersOfPrefix(states: seq<TxState>, actions: seq<TxAction>,
                        states': seq<TxState>, actions': seq<TxAction>, m: nat, n: nat)
    requires m <= n < |states| == |actions| + 1 && |states'| == |actions'| + 1
    requires states <= states' && actions <= actions'
    ensures OthersRetired(states', actions', m, n) == OthersRetired(states, actions, m, n)
    ensures StateDropped(states', actions', m, n) == StateDropped(states, actions, m, n)
  {
    hide RetiresOther, DropsState;
    if n > m { OthersOfPrefix(states, actions, states', actions', m, n - 1); }
  }

  lemma Extend32(states: seq<TxState>, actions: seq<TxAction>, m: nat, a: TxAction)
    returns (states': seq<TxState>, actions': seq<TxAction>)
    requires Overtaken32(states, actions, m) && Enabled(End(states), a) && PassesOver32(End(states).sched, a)
    requires Next(End(states), a).sched.s32.pending
    ensures Continues32(states, actions, states', actions', m) && |states'| == |states| + 1
    ensures End(states') == Next(End(states), a)
    ensures OthersSince(states', actions', m) ==
            OthersSince(states, actions, m) + One(RetiresOther(End(states).sched, a))
    ensures DroppedSince(states', actions', m) ==
            DroppedSince(states, actions, m) + One(DropsState(End(states).sched, a))
  {
    hide Next, Run, Enabled, PassesOver32, RetiresOther, DropsState;
    states', actions' := states + [Next(End(states), a)], actions + [a];
    RunExtends(states, actions, a);
    OthersOfPrefix(states, actions, states', actions', m, |states| - 1);
    assert forall i :: 0 <= i < |actions| ==> states'[i] == states[i] && actions'[i] == actions[i];
    assert states'[|actions|] == states[|actions|];
  }

  lemma PassesBoth(s: Scheduler, a: TxAction)
    requires PassesOver(s, a) && (a.SelectAt? ==> a.eligible.state32)
    ensures PassesOver32(s, a)
  {
    hide Select, Ready31, Ready32;
  }

  lemma QuietRetiresNone(s: Scheduler, a: TxAction)
    requires !Retires(s, a)
    ensures !RetiresOther(s, a) && !DropsState(s, a)
  {
  }

  // ---- the steps that use up allowance ----

  // With room in the burst, one more realtime item is published, selected and sent.
  lemma SendAnother(states: seq<TxState>, actions: seq<TxAction>, m: nat)
    returns (states': seq<TxState>, actions': seq<TxAction>)
    requires Overtaken32(states, actions, m) && Inv(End(states)) && NumbersLeft(End(states).sched, 1)
    requires End(states).sched.s32.pending && Room(End(states).sched) > 0
    ensures Continues32(states, actions, states', actions', m) && Inv(End(states'))
    ensures OthersSince(states', actions', m) == OthersSince(states, actions, m) + 1
    ensures DroppedSince(states', actions', m) == DroppedSince(states, actions, m)
    ensures ReportAhead(End(states')) == ReportAhead(End(states)) && End(states').sched.s32.pending
    ensures Credit(End(states)) == Credit(End(states')) + 1
    ensures var s, t := End(states).sched, End(states').sched;
            t.nextVersion == s.nextVersion + 1 && t.nextSequence == s.nextSequence + 1
  {
    hide Inv, Next, Run, State32PassedOver, Outstanding, OthersRetired, StateDropped, Enabled, PassesOver, PassesOver32,
         RetiresOther, DropsState, Room, Credit, RealtimeWaits, IsCurrent;
    var offer := OfferPair(End(states));
    PassesBoth(End(states).sched, offer);
    QuietRetiresNone(End(states).sched, offer);
    var states1, actions1 := Extend32(states, actions, m, offer);
    var pick, sel := SelectPair(End(states1));
    PassesBoth(End(states1).sched, pick);
    QuietRetiresNone(End(states1).sched, pick);
    var states2, actions2 := Extend32(states1, actions1, m, pick);
    states', actions' := SendHeld(states2, actions2, m, sel);
  }

  // A realtime item already handed out is sent.
  lemma SendHeld(states: seq<TxState>, actions: seq<TxAction>, m: nat, sel: Selection)
    returns (states': seq<TxState>, actions': seq<TxAction>)
    requires Overtaken32(states, actions, m) && Inv(End(states)) && NoWrap(End(states).sched)
    requires sel in End(states).handed && sel.txClass == Realtime && IsCurrent(End(states).sched, sel)
    requires End(states).sched.s32.pending
    ensures Continues32(states, actions, states', actions', m) && Inv(End(states'))
    ensures OthersSince(states', actions', m) == OthersSince(states, actions, m) + 1
    ensures DroppedSince(states', actions', m) == DroppedSince(states, actions, m)
    ensures ReportAhead(End(states')) == ReportAhead(End(states)) && End(states').sched.s32.pending
    ensures Credit(End(states)) == Credit(End(states')) + 1
    ensures var s, t := End(states).sched, End(states').sched;
            t.nextVersion == s.nextVersion && t.nextSequence == s.nextSequence
  {
    hide Inv, Next, Run, State32PassedOver, Outstanding, OthersRetired, StateDropped, Enabled, PassesOver, PassesOver32,
         Room, Credit, IsCurrent;
    var a := FinishWith(sel, Success);
    SendPair(End(states), sel);
    PassesBoth(End(states).sched, a);
    states', actions' := Extend32(states, actions, m, a);
  }

  // With the burst used up and its turn come, a waiting report is picked.
  lemma PicksReport(st: TxState) returns (sel: Selection)
    requires Inv(st) && Room(st.sched) == 0 && st.sched.s31.pending && st.sched.nextStateClass != State32
    ensures Select(st.sched, 0, ALL) == (st.sched, Some(sel))
    ensures sel.txClass == State31 && IsCurrent(st.sched, sel)
  {
    hide Ledger, Accounts, Fifo;
    var s := st.sched;
    sel := Selection(State31, 0, s.s31.generation, s.s31.version, s.s31.createdUs);
  }

  lemma SelectReport(st: TxState) returns (a: TxAction, sel: Selection)
    requires Inv(st) && NoWrap(st.sched) && Credit(st) == 0 && Room(st.sched) == 0
    requires st.sched.s31.pending && st.sched.nextStateClass != State32
    ensures Enabled(st, a) && PassesOver32(st.sched, a) && !Retires(st.sched, a)
    ensures Inv(Next(st, a)) && Next(st, a).sched == st.sched
    ensures sel in Next(st, a).handed && sel.txClass == State31 && IsCurrent(st.sched, sel)
  {
    hide Inv, Select, IsCurrent;
    InvShape(st);
    a := SelectAt(0, ALL);
    sel := PicksReport(st);
    NextKeepsInv(st, a);
  }

  // A report that was handed out is sent: the burst starts again, and the next turn is that of the state-32 item.
  lemma SendReport(states: seq<TxState>, actions: seq<TxAction>, m: nat, sel: Selection)
    returns (states': seq<TxState>, actions': seq<TxAction>)
    requires Overtaken32(states, actions, m) && Inv(End(states)) && NoWrap(End(states).sched)
    requires sel in End(states).handed && sel.txClass == State31 && IsCurrent(End(states).sched, sel)
    requires End(states).sched.s32.pending
    ensures Continues32(states, actions, states', actions', m) && Inv(End(states'))
    ensures OthersSince(states', actions', m) == OthersSince(states, actions, m) + 1
    ensures DroppedSince(states', actions', m) == DroppedSince(states, actions, m)
    ensures !ReportAhead(End(states')) && End(states').sched.s32.pending
    ensures Credit(End(states')) == MAX_RT_BURST
    ensures var s, t := End(states).sched, End(states').sched;
            t.nextVersion == s.nextVersion && t.nextSequence == s.nextSequence
  {
    hide Inv, Run, State32PassedOver, Outstanding, OthersRetired, StateDropped, IsCurrent, RetireMetric, Outcome;
    var st := End(states);
    InvShape(st);
    var a := FinishWith(sel, Success);
    StateRetired(st, a);
    NextKeepsInv(st, a);
    states', actions' := Extend32(states, actions, m, a);
  }

  // With no credit left and the report's turn still ahead, a report is sent, published first where none waits.
  lemma TakeTurn(states: seq<TxState>, actions: seq<TxAction>, m: nat)
    returns (states': seq<TxState>, actions': seq<TxAction>)
    requires Overtaken32(states, actions, m) && Inv(End(states)) && NumbersLeft(End(states).sched, 1)
    requires End(states).sched.s32.pending && Credit(End(states)) == 0 && ReportAhead(End(states))
    ensures Continues32(states, actions, states', actions', m) && Inv(End(states'))
    ensures OthersSince(states', actions', m) == OthersSince(states, actions, m) + 1
    ensures DroppedSince(states', actions', m) == DroppedSince(states, actions, m)
    ensures !ReportAhead(End(states')) && End(states').sched.s32.pending
    ensures Credit(End(states')) == MAX_RT_BURST
    ensures var s, t := End(states).sched, End(states').sched;
            t.nextVersion <= s.nextVersion + 1 && t.nextSequence == s.nextSequence
  {
    hide Inv, Next, Run, State32PassedOver, Outstanding, OthersRetired, StateDropped, Enabled, PassesOver, PassesOver32,
         RetiresOther, DropsState, Room, Credit, IsCurrent;
    var st := End(states);
    RoomIsCredit(st);
    if st.sched.nextStateClass == State32 {
      var sel := HeldReport(st);
      states', actions' := SendReport(states, actions, m, sel);
    } else {
      var states1, actions1 := states, actions;
      if !st.sched.s31.pending {
        var ask := AskReport(st);
        PassesBoth(st.sched, ask);
        QuietRetiresNone(st.sched, ask);
        states1, actions1 := Extend32(states, actions, m, ask);
      }
      var pick, sel := SelectReport(End(states1));
      QuietRetiresNone(End(states1).sched, pick);
      var states2, actions2 := Extend32(states1, actions1, m, pick);
      states', actions' := SendReport(states2, actions2, m, sel);
    }
  }

  lemma HeldReport(st: TxState) returns (sel: Selection)
    requires Outstanding(st, State31)
    ensures sel in st.handed && sel.txClass == State31 && IsCurrent(st.sched, sel)
  {
    sel :| sel in st.handed && sel.txClass == State31 && IsCurrent(st.sched, sel);
  }

  lemma Exhaust32(states: seq<TxState>, actions: seq<TxAction>, m: nat)
    returns (states': seq<TxState>, actions': seq<TxAction>)
    requires Overtaken32(states, actions, m) && Inv(End(states)) && End(states).sched.s32.pending
    requires NumbersLeft(End(states).sched, Allowance32(End(states)))
    ensures Continues32(states, actions, states', actions', m)
    ensures OthersSince(states', actions', m) == OthersSince(states, actions, m) + Allowance32(End(states))
    ensures DroppedSince(states', actions', m) == DroppedSince(states, actions, m)
    decreases ReportAhead(End(states)), Credit(End(states))
  {
    hide Inv, Next, Run, State32PassedOver, Outstanding, OthersRetired, StateDropped, Room, Credit, IsCurrent;
    var st := End(states);
    RoomIsCredit(st);
    if Credit(st) > 0 {
      var states1, actions1;
      if Room(st.sched) > 0 {
        states1, actions1 := SendAnother(states, actions, m);
      } else {
        var sel := CreditIsHeld(st);
        states1, actions1 := SendHeld(states, actions, m, sel);
      }
      states', actions' := Exhaust32(states1, actions1, m);
    } else if ReportAhead(st) {
      var states1, actions1 := TakeTurn(states, actions, m);
      states', actions' := Exhaust32(states1, actions1, m);
    } else {
      states', actions' := states, actions;
    }
  }

  /**
   The wait is exact: dropped state items aside, no continuation retires more other items than were retired so
   far plus the allowance, and one that drops nothing retires exactly that many.
   */
  lemma Allowance32IsExact(states: seq<TxState>, actions: seq<TxAction>, m: nat)
    requires Overtaken32(states, actions, m)
    requires NumbersLeft(End(states).sched, Allowance32(End(states)))
    ensures var most := OthersSince(states, actions, m) + Allowance32(End(states));
            var dropped := DroppedSince(states, actions, m);
            && (forall states', actions' | Continues32(states, actions, states', actions', m) ::
                  OthersSince(states', actions', m) + dropped <= most + DroppedSince(states', actions', m))
            && (exists states', actions' ::
                  && Continues32(states, actions, states', actions', m)
                  && OthersSince(states', actions', m) == most && DroppedSince(states', actions', m) == dropped)
  {
    hide Inv, Allowance32, OthersRetired, StateDropped, Run;
    RunKeepsInv(states, actions, |states| - 1);
    assert End(states).sched.s32.pending;
    hide State32PassedOver;
    forall states', actions' | Continues32(states, actions, states', actions', m)
      ensures OthersSince(states', actions', m) + DroppedSince(states, actions, m)
           <= OthersSince(states, actions, m) + Allowance32(End(states)) + DroppedSince(states', actions', m)
    {
      Allowance32Spent(states', actions', m, |states| - 1, |states'| - 1);
      OthersOfPrefix(states, actions, states', actions', m, |states| - 1);
    }
    var states', actions' := Exhaust32(states, actions, m);
    assert Continues32(states, actions, states', actions', m);
  }

  /** Seven is reached: three realtime items, a report, and three realtime items again. */
  lemma SevenIsReached()
    ensures exists states: seq<TxState>, actions: seq<TxAction>, m: nat ::
              && Overtaken32(states, actions, m)
              && OthersSince(states, actions, m) == 2 * MAX_RT_BURST + 1 && DroppedSince(states, actions, m) == 0
  {
    hide Inv, OthersRetired, StateDropped;
    var st0 := TxState(Fresh(0), {}, [], [], []);
    var a := PublishMic(true, 0, 0);
    EmptyRun(st0);
    RunExtends([st0], [], a);
    var states, actions := [st0] + [Next(st0, a)], [] + [a];
    RunKeepsInv(states, actions, 1);
    hide Run;
    assert OthersSince(states, actions, 1) == 0 && DroppedSince(states, actions, 1) == 0 by { NoneYet(states, actions); }
    assert Allowance32(End(states)) == 2 * MAX_RT_BURST + 1;
    var states', actions' := Exhaust32(states, actions, 1);
    assert Overtaken32(states', actions', 1);
  }

  lemma NoneYet(states: seq<TxState>, actions: seq<TxAction>)
    requires |states| == 2 && |actions| == 1
    ensures OthersSince(states, actions, 1) == 0 && DroppedSince(states, actions, 1) == 0
  {
  }
}
