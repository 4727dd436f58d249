/** The scheduler's invariant: a ledger of versions, counters that balance, and a realtime queue in order. */
module TxInvariant {
  import opened Basics
  import opened EpochTypes
  import opened TxSteps
  import opened TxSystem

  // Every version 1..n waits in exactly one place or left exactly once.
  ghost predicate Ledger(occ: seq<Option<nat>>, log: seq<Retirement>, n: nat) {
    && (forall k :: 0 <= k < |occ| && occ[k].Some? ==> 1 <= occ[k].value <= n)
    && (forall j, k :: 0 <= j < k < |occ| && occ[j].Some? ==> occ[j] != occ[k])
    && (forall i :: 0 <= i < |log| ==> 1 <= log[i].version <= n && Some(log[i].version) !in occ)
    && (forall i, j :: 0 <= i < j < |log| ==> log[i].version != log[j].version)
    && (forall v: nat :: 1 <= v <= n && Some(v) !in occ ==> Left(log, v))
  }

  ghost predicate Left(log: seq<Retirement>, v: nat) {
    exists i :: 0 <= i < |log| && log[i].version == v
  }

  function Tally(log: seq<Retirement>, c: TxClass, fate: Fate): nat {
    if log == [] then 0
    else Tally(log[..|log| - 1], c, fate) + (if log[|log| - 1].txClass == c && log[|log| - 1].fate == fate then 1 else 0)
  }

  function ClassOf(content: Content): TxClass {
    match content
    case PairContent(_) => Realtime
    case ReportContent(_, _) => State31
    case MicContent(_) => State32
  }

  function AcceptedCount(items: seq<Item>, c: TxClass): nat {
    if items == [] then 0
    else AcceptedCount(items[..|items| - 1], c) + (if ClassOf(items[|items| - 1].content) == c then 1 else 0)
  }

  ghost predicate Balanced(m: Metrics, c: TxClass, occupied: nat, items: seq<Item>, log: seq<Retirement>) {
    && m.accepted == AcceptedCount(items, c)
    && m.transmitted == Tally(log, c, Transmitted)
    && m.dropped == Tally(log, c, Dropped)
    && m.replaced == Tally(log, c, Replaced)
    && m.stale == Tally(log, c, Expired)
    && m.pending == occupied
    && m.accepted == m.transmitted + m.dropped + m.replaced + m.stale + m.pending
  }

  function One(b: bool): nat {
    if b then 1 else 0
  }

  ghost predicate Accounts(st: TxState)
    requires |st.sched.rt| == RT_DEPTH
  {
    && Balanced(st.sched.rtMetrics, Realtime, PendingCount(st.sched.rt), st.items, st.retired)
    && Balanced(st.sched.m31, State31, One(st.sched.s31.pending), st.items, st.retired)
    && Balanced(st.sched.m32, State32, One(st.sched.s32.pending), st.items, st.retired)
  }

  ghost predicate HoldsPair(slot: RtSlot, s: Scheduler, items: seq<Item>) {
    slot.pending ==>
      && slot.payload.generation == s.generation
      && slot.sequence < s.nextSequence
      && 1 <= slot.version <= |items|
      && items[slot.version - 1] == Item(s.generation, slot.createdUs, PairContent(slot.payload))
  }

  ghost predicate Holds31(s: Scheduler, items: seq<Item>) {
    s.s31.pending ==>
      && s.s31.generation == s.generation
      && 1 <= s.s31.version <= |items|
      && s.s31.payload.len <= |s.s31.payload.report|
      && items[s.s31.version - 1] == Item(s.generation, s.s31.createdUs,
           ReportContent(s.s31.payload.report[..s.s31.payload.len], s.s31.payload.includesId))
  }

  ghost predicate Holds32(s: Scheduler, items: seq<Item>) {
    s.s32.pending ==>
      && s.s32.generation == s.generation
      && 1 <= s.s32.version <= |items|
      && items[s.s32.version - 1] == Item(s.generation, s.s32.createdUs, MicContent(s.s32.payload))
  }

  // Every waiting item is the one accepted under its version, and belongs to the current generation.
  ghost predicate Holds(st: TxState) {
    && Shaped(st.sched)
    && |st.items| == st.sched.nextVersion
    && HoldsPair(st.sched.rt[0], st.sched, st.items)
    && HoldsPair(st.sched.rt[1], st.sched, st.items)
    && Holds31(st.sched, st.items)
    && Holds32(st.sched, st.items)
  }

  // A handed-out realtime selection that is still current names the oldest waiting item.
  ghost predicate HandedOldest(s: Scheduler, sel: Selection)
    requires |s.rt| == RT_DEPTH
  {
    sel.txClass == Realtime && sel.slot < RT_DEPTH && s.rt[sel.slot].pending && s.rt[sel.slot].version == sel.version ==>
      forall i :: 0 <= i < RT_DEPTH && s.rt[i].pending ==> s.rt[sel.slot].sequence <= s.rt[i].sequence
  }

  ghost predicate Fifo(st: TxState)
    requires |st.sched.rt| == RT_DEPTH
  {
    && (forall i, j :: 0 <= i < j < RT_DEPTH && st.sched.rt[i].pending && st.sched.rt[j].pending ==>
          st.sched.rt[i].sequence != st.sched.rt[j].sequence)
    && (forall sel :: sel in st.handed ==> sel.version <= st.sched.nextVersion && HandedOldest(st.sched, sel))
    && (forall i, j :: 0 <= i < j < |st.sent| ==> st.sent[i] < st.sent[j])
    && (forall i :: 0 <= i < |st.sent| ==> st.sent[i] < st.sched.nextSequence)
    && (forall i, k :: 0 <= i < |st.sent| && 0 <= k < RT_DEPTH && st.sched.rt[k].pending ==>
          st.sent[i] < st.sched.rt[k].sequence)
  }

  ghost predicate Inv(st: TxState) {
    && Holds(st)
    && Ledger(Occupants(st.sched), st.retired, st.sched.nextVersion)
    && Accounts(st)
    && Fifo(st)
  }

  lemma InitialInv(st: TxState)
    requires Initial(st)
    ensures Inv(st)
  {
  }

  // ---- the ledger ----

  lemma EvictKeepsLedger(occ: seq<Option<nat>>, log: seq<Retirement>, n: nat, place: nat, fate: Fate)
    requires Ledger(occ, log, n) && place < |occ|
    ensures Ledger(occ[place := None], log + Leaves(occ, place, fate), n)
  {
    var occ' := occ[place := None];
    var log' := log + Leaves(occ, place, fate);
    if occ[place].Some? {
      forall v: nat | 1 <= v <= n
        ensures Some(v) in occ' || Left(log', v)
      {
        if Left(log, v) {
          var i :| 0 <= i < |log| && log[i].version == v;
          assert log'[i].version == v;
        } else {
          var k :| 0 <= k < |occ| && occ[k] == Some(v);
          if k == place {
            assert log'[|log|].version == v;
          } else {
            assert occ'[k] == Some(v);
          }
        }
      }
      forall i | 0 <= i < |log'|
        ensures 1 <= log'[i].version <= n && Some(log'[i].version) !in occ'
      {
        if i < |log| { assert log'[i] == log[i]; }
      }
    } else {
      assert log' == log && occ' == occ;
    }
  }

  lemma PlaceKeepsLedger(occ: seq<Option<nat>>, log: seq<Retirement>, n: nat, place: nat)
    requires Ledger(occ, log, n) && place < |occ| && occ[place] == None
    ensures Ledger(occ[place := Some(n + 1)], log, n + 1)
  {
    var occ' := occ[place := Some(n + 1)];
    forall v: nat | 1 <= v <= n + 1
      ensures Some(v) in occ' || Left(log, v)
    {
      if v == n + 1 {
        assert occ'[place] == Some(v);
      } else if !Left(log, v) {
        var k :| 0 <= k < |occ| && occ[k] == Some(v);
        assert occ'[k] == Some(v);
      }
    }
  }

  // ---- the counters ----

  lemma {:induction false} TallyConcat(a: seq<Retirement>, b: seq<Retirement>, c: TxClass, fate: Fate)
    ensures Tally(a + b, c, fate) == Tally(a, c, fate) + Tally(b, c, fate)
  {
    if b == [] {
      assert a + b == a;
    } else {
      TallyConcat(a, b[..|b| - 1], c, fate);
      assert (a + b)[..|a + b| - 1] == a + b[..|b| - 1];
    }
  }

  lemma AcceptedOne(items: seq<Item>, item: Item, c: TxClass)
    ensures AcceptedCount(items + [item], c) == AcceptedCount(items, c) + One(ClassOf(item.content) == c)
  {
    assert (items + [item])[..|items|] == items;
  }
}
