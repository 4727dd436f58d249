/**
 The epoch store feeding the scheduler: the reader of the store is the scheduler's ingest call, whose
 steps interleave with the ingester, the encoder and generation resets.
 */
module Pipeline {
  import opened Basics
  import opened EpochTypes
  import opened EpochSteps
  import A = EpochSystem
  import AI = EpochInvariant
  import AS = EpochSafety
  import AT = EpochTheorems
  import opened TxSteps
  import X = TxSystem
  import XI = TxInvariant
  import XT = TxTheorems

  datatype Pipe = Pipe(audio: A.System, tx: X.TxState)

  datatype PipeAction =
    | AudioStep(step: A.Action)
    | SchedulerStep(call: X.TxAction)
    | BeginIngest
    | CopyByte
    | EndIngest

  predicate ReaderStep(a: A.Action) {
    a.BeginPairRegion? || a.CopyPairByte? || a.EndPairRegion?
  }

  // Callers serialize access to the scheduler, and only ingest_epoch_pair feeds its realtime queue.
  ghost predicate MayCall(p: Pipe, a: X.TxAction) {
    p.audio.rdr.RdIdle? && !a.PublishPair? && !a.IngestFrom? && !a.AbandonRead? && X.Enabled(p.tx, a)
  }

  ghost predicate Ready(p: Pipe) {
    A.Runnable(p.audio) && Shaped(p.tx.sched) && X.NoWrap(p.tx.sched)
  }

  ghost function Next(p: Pipe, a: PipeAction): Pipe {
    if !Ready(p) then p
    else match a
         case AudioStep(step) => if ReaderStep(step) then p else p.(audio := A.Next(p.audio, step))
         case SchedulerStep(call) => if MayCall(p, call) then p.(tx := X.Next(p.tx, call)) else p
         case BeginIngest =>
           // The queue is checked before the store is asked.
           if FirstIdle(p.tx.sched.rt) < 0 then p else p.(audio := A.BeginPairNext(p.audio))
         case CopyByte => p.(audio := A.CopyPairNext(p.audio))
         case EndIngest =>
           var audio := A.EndPairNext(p.audio);
           if |audio.log.emitted| > |p.audio.log.emitted| then
             Pipe(audio, X.Next(p.tx, X.IngestFrom(Some(audio.log.emitted[|audio.log.emitted| - 1]))))
           else if p.audio.rdr.RdCopy? && audio.rdr.RdIdle? then
             // A reset came in between: the copy stays behind in the idle slot.
             Pipe(audio, X.Next(p.tx, X.AbandonRead(A.PairFromBytes(p.audio.rdr.claim, p.audio.rdr.buffer))))
           else p.(audio := audio)
  }

  ghost predicate Faithful(items: seq<X.Item>, log: A.History) {
    forall i :: 0 <= i < |items| && items[i].content.PairContent? ==>
      && AI.PairFaithful(items[i].content.pair, log)
      && items[i].content.pair in log.emitted
  }

  ghost predicate PipeInv(p: Pipe) {
    && AI.Inv(p.audio)
    && XI.Inv(p.tx)
    && (p.audio.rdr.RdCopy? ==> FirstIdle(p.tx.sched.rt) >= 0)
    && |p.audio.log.emitted| == p.tx.sched.rtMetrics.accepted + p.tx.sched.rtMetrics.rejected
    && Faithful(p.tx.items, p.audio.log)
  }

  lemma StartInv(generation: nat, txGeneration: nat)
    ensures PipeInv(Pipe(A.Initial(generation), X.TxState(X.Fresh(txGeneration), {}, [], [], [])))
  {
    hide AI.Inv, XI.Inv;
    AI.InitialInv(generation);
    XI.InitialInv(X.TxState(X.Fresh(txGeneration), {}, [], [], []));
  }

  lemma FaithfulExtends(items: seq<X.Item>, a: A.History, b: A.History)
    requires Faithful(items, a) && AS.LogExtends(a, b) && a.emitted <= b.emitted
    ensures Faithful(items, b)
  {
    hide AI.PairFaithful, AS.LogExtends;
    forall i | 0 <= i < |items| && items[i].content.PairContent?
      ensures AI.PairFaithful(items[i].content.pair, b)
    {
      AS.PairFaithfulExtends(items[i].content.pair, a, b);
    }
  }

  lemma AudioKeeps(p: Pipe, step: A.Action)
    requires PipeInv(p) && A.Runnable(p.audio)
    requires !ReaderStep(step) || (step.BeginPairRegion? && FirstIdle(p.tx.sched.rt) >= 0) || step.CopyPairByte?
             || (step.EndPairRegion? && A.EndPairNext(p.audio).log == p.audio.log)
    ensures PipeInv(p.(audio := A.Next(p.audio, step)))
  {
    AudioEmitsOnlyAtEnd(p.audio, step);
    hide AI.Inv, XI.Inv, A.Runnable, A.Next, Faithful, AS.LogExtends;
    AT.NextKeepsInv(p.audio, step);
    AT.HistoryOnlyGrows(p.audio, step);
    FaithfulExtends(p.tx.items, p.audio.log, A.Next(p.audio, step).log);
  }

  lemma AudioEmitsOnlyAtEnd(s: A.System, step: A.Action)
    requires A.Runnable(s)
    ensures !step.EndPairRegion? ==> A.Next(s, step).log.emitted == s.log.emitted
    ensures A.Next(s, step).rdr.RdCopy? ==> s.rdr.RdCopy? || step.BeginPairRegion?
  {
    hide BeginPair, ClaimChunk, CommitChunk, WriteFrame, TakeJob, BeginEncode, EndEncode, Reset, EndPair, A.Tag,
         A.PairBytes;
  }

  lemma SchedulerKeeps(p: Pipe, a: X.TxAction)
    requires PipeInv(p) && p.audio.rdr.RdIdle? && !a.PublishPair? && !a.IngestFrom? && X.Enabled(p.tx, a)
    ensures PipeInv(p.(tx := X.Next(p.tx, a)))
  {
    CallsDoNotFeed(p.tx.sched, a);
    hide AI.Inv, XI.Inv, X.After, X.Departures, Faithful;
    XT.NextKeepsInv(p.tx, a);
    OtherItemsFaithful(p.tx, a, p.audio.log);
  }

  ghost predicate NotFed(s: Scheduler, t: Scheduler) {
    t.rtMetrics.accepted == s.rtMetrics.accepted && t.rtMetrics.rejected == s.rtMetrics.rejected
  }

  lemma SelectDoesNotFeed(s: Scheduler, nowUs: nat)
    requires |s.rt| == RT_DEPTH
    ensures NotFed(s, DropWrongGenerationState(DropStaleRealtime(s, nowUs)))
  {
    hide IsStaleRt;
  }

  lemma CallsDoNotFeed(s: Scheduler, a: X.TxAction)
    requires Shaped(s) && !a.PublishPair? && !a.IngestFrom?
    ensures NotFed(s, X.After(s, a))
    ensures forall i :: 0 <= i < |X.Arrivals(s, a)| ==> !X.Arrivals(s, a)[i].content.PairContent?
  {
    hide Pick, DropStaleRealtime, DropWrongGenerationState, PendingCount;
    if a.SelectAt? {
      SelectDoesNotFeed(s, a.nowUs);
    } else if a.ResetTo? {
      RetireKeepsAccepted(s.rtMetrics, PendingCount(s.rt));
    }
  }

  lemma {:induction false} RetireKeepsAccepted(m: Metrics, n: nat)
    ensures RetireMany(m, n, true).accepted == m.accepted && RetireMany(m, n, true).rejected == m.rejected
  {
    if n > 0 { RetireKeepsAccepted(m, n - 1); }
  }

  lemma OtherItemsFaithful(tx: X.TxState, a: X.TxAction, log: A.History)
    requires X.Enabled(tx, a) && Faithful(tx.items, log) && !a.PublishPair? && !a.IngestFrom?
    ensures Faithful(X.Next(tx, a).items, log)
  {
    CallsDoNotFeed(tx.sched, a);
    hide X.After, X.Departures, X.Arrivals, AI.PairFaithful;
  }

  lemma EndEmits(s: A.System)
    requires AI.Inv(s) && A.Runnable(s)
    ensures var t := A.EndPairNext(s);
            if |t.log.emitted| > |s.log.emitted| then
              && s.rdr.RdCopy? && t.rdr.RdIdle?
              && |t.log.emitted| == |s.log.emitted| + 1
              && AI.PairFaithful(t.log.emitted[|s.log.emitted|], t.log)
            else t.log == s.log
  {
    hide AI.PairFaithful, AI.Conserved, AI.SlotsInv, AI.FillingInv, AI.EncoderInv, AI.ReaderInv, AI.LogInv, AI.IngesterInv,
         AI.Distinct, EndPair, A.PairBytes, A.PairFromBytes;
    assert A.Next(s, A.EndPairRegion) == A.EndPairNext(s);
    AT.NextKeepsInv(s, A.EndPairRegion);
  }

  lemma DeliveryKeeps(p: Pipe)
    requires PipeInv(p) && Ready(p)
    requires var t := A.EndPairNext(p.audio); |t.log.emitted| > |p.audio.log.emitted|
    ensures PipeInv(Next(p, EndIngest))
  {
    hide AI.Inv, XI.Inv, X.After, X.Departures, X.Arrivals, A.EndPairNext, AS.LogExtends, AI.PairFaithful;
    EndEmits(p.audio);
    var t := A.EndPairNext(p.audio);
    var pair := t.log.emitted[|p.audio.log.emitted|];
    assert A.Next(p.audio, A.EndPairRegion) == t;
    AT.NextKeepsInv(p.audio, A.EndPairRegion);
    AT.HistoryOnlyGrows(p.audio, A.EndPairRegion);
    Deliver(p, t, pair);
  }

  lemma Deliver(p: Pipe, t: A.System, pair: Pair)
    requires PipeInv(p) && Ready(p) && AI.Inv(t) && p.audio.rdr.RdCopy? && t.rdr.RdIdle?
    requires AS.LogExtends(p.audio.log, t.log) && p.audio.log.emitted <= t.log.emitted
    requires |t.log.emitted| == |p.audio.log.emitted| + 1 && t.log.emitted[|p.audio.log.emitted|] == pair
    requires AI.PairFaithful(pair, t.log)
    ensures PipeInv(Pipe(t, X.Next(p.tx, X.IngestFrom(Some(pair)))))
  {
    IngestCounts(p.tx.sched, pair);
    hide AI.Inv, XI.Inv, X.After, X.Departures, X.Arrivals, A.Runnable, AS.LogExtends, AI.PairFaithful;
    hide Faithful;
    XT.NextKeepsInv(p.tx, X.IngestFrom(Some(pair)));
    FaithfulExtends(p.tx.items, p.audio.log, t.log);
    FaithfulPlus(p.tx.items, X.Arrivals(p.tx.sched, X.IngestFrom(Some(pair))), pair, t.log);
  }

  lemma FaithfulPlus(items: seq<X.Item>, arr: seq<X.Item>, pair: Pair, log: A.History)
    requires Faithful(items, log) && AI.PairFaithful(pair, log) && pair in log.emitted
    requires |arr| <= 1 && (|arr| == 1 ==> arr[0].content == X.PairContent(pair))
    ensures Faithful(items + arr, log)
  {
    hide AI.PairFaithful;
  }

  lemma IngestCounts(s: Scheduler, pair: Pair)
    requires Shaped(s) && FirstIdle(s.rt) >= 0
    ensures var t := X.After(s, X.IngestFrom(Some(pair)));
            t.rtMetrics.accepted + t.rtMetrics.rejected == s.rtMetrics.accepted + s.rtMetrics.rejected + 1
    ensures var arr := X.Arrivals(s, X.IngestFrom(Some(pair)));
            |arr| <= 1 && (|arr| == 1 ==> arr[0].content == X.PairContent(pair))
  {
  }

  lemma StoreStepsKeep(p: Pipe, a: PipeAction)
    requires PipeInv(p) && Ready(p) && (a.AudioStep? || a.BeginIngest? || a.CopyByte?)
    ensures PipeInv(Next(p, a))
  {
    hide PipeInv, A.BeginPairNext, A.CopyPairNext;
    var step := match a case AudioStep(step) => step case BeginIngest => A.BeginPairRegion case _ => A.CopyPairByte;
    var moves := match a case AudioStep(step) => !ReaderStep(step) case BeginIngest => FirstIdle(p.tx.sched.rt) >= 0 case _ => true;
    if moves {
      AudioKeeps(p, step);
      assert Next(p, a) == p.(audio := A.Next(p.audio, step));
    }
  }

  lemma NextKeeps(p: Pipe, a: PipeAction)
    requires PipeInv(p)
    ensures PipeInv(Next(p, a))
  {
    hide PipeInv, Ready, X.Next, A.Next, A.EndPairNext, A.BeginPairNext, A.CopyPairNext;
    if Ready(p) {
      match a
      case SchedulerStep(call) => if MayCall(p, call) { SchedulerKeeps(p, call); }
      case EndIngest => EndIngestKeeps(p);
      case _ => StoreStepsKeep(p, a);
    }
  }

  lemma EndsAtWholeCopy(s: A.System)
    requires A.ReadReady(s) && s.rdr.RdCopy? && A.EndPairNext(s).rdr.RdIdle?
    ensures |s.rdr.buffer| == A.PAIR_BYTES
  {
  }

  lemma EndIngestKeeps(p: Pipe)
    requires PipeInv(p) && Ready(p)
    ensures PipeInv(Next(p, EndIngest))
  {
    hide AI.Inv, XI.Inv, A.EndPairNext, Faithful;
    if |A.EndPairNext(p.audio).log.emitted| > |p.audio.log.emitted| {
      DeliveryKeeps(p);
    } else {
      EndEmits(p.audio);
      AudioKeeps(p, A.EndPairRegion);
      var t := A.EndPairNext(p.audio);
      if p.audio.rdr.RdCopy? && t.rdr.RdIdle? {
        EndsAtWholeCopy(p.audio);
        SchedulerKeeps(p.(audio := t), X.AbandonRead(A.PairFromBytes(p.audio.rdr.claim, p.audio.rdr.buffer)));
      }
    }
  }

  // Any interleaving of store steps, scheduler calls and ingest steps.
  ghost predicate Run(states: seq<Pipe>, actions: seq<PipeAction>) {
    && |states| == |actions| + 1
    && Initial(states[0])
    && forall i :: 0 <= i < |actions| ==> states[i + 1] == Next(states[i], actions[i])
  }

  ghost predicate Initial(p: Pipe) {
    exists generation, txGeneration ::
      p == Pipe(A.Initial(generation), X.TxState(X.Fresh(txGeneration), {}, [], [], []))
  }

  lemma {:induction false} RunKeepsInv(states: seq<Pipe>, actions: seq<PipeAction>, n: nat)
    requires Run(states, actions) && n < |states|
    ensures PipeInv(states[n])
  {
    hide PipeInv, Next, A.Initial, X.Fresh;
    if n == 0 {
      var generation, txGeneration :|
        states[0] == Pipe(A.Initial(generation), X.TxState(X.Fresh(txGeneration), {}, [], [], []));
      StartInv(generation, txGeneration);
    } else {
      RunKeepsInv(states, actions, n - 1);
      NextKeeps(states[n - 1], actions[n - 1]);
    }
  }

  /** Two epochs leave the store for every realtime item the scheduler accepted or rejected. */
  lemma EpochsMatchRealtimeItems(states: seq<Pipe>, actions: seq<PipeAction>, n: nat)
    requires Run(states, actions) && n < |states|
    ensures var p := states[n];
            && p.audio.store.stats.epochsEmitted == 2 * (p.tx.sched.rtMetrics.accepted + p.tx.sched.rtMetrics.rejected)
            && |p.tx.sched.rt| == RT_DEPTH
            && p.audio.store.stats.epochsStarted ==
                 2 * (p.tx.sched.rtMetrics.transmitted + p.tx.sched.rtMetrics.dropped + p.tx.sched.rtMetrics.replaced
                      + p.tx.sched.rtMetrics.stale + PendingCount(p.tx.sched.rt) + p.tx.sched.rtMetrics.rejected)
                 + p.audio.store.stats.epochsDropped + p.audio.store.stats.epochsStale
                 + AI.NonFree(p.audio.store.slots)
  {
    hide Run, XI.Ledger, XI.Fifo, AI.NonFree;
    RunKeepsInv(states, actions, n);
    assert AI.Conserved(states[n].audio);
    assert XI.Accounts(states[n].tx);
  }

  /** End to end: what a current realtime selection shows is faithful to the USB frames and Opus bytes of its epochs. */
  lemma SelectedPairIsFaithful(states: seq<Pipe>, actions: seq<PipeAction>, n: nat, sel: Selection)
    requires Run(states, actions) && n < |states|
    requires IsCurrent(states[n].tx.sched, sel) && sel.txClass == Realtime
    ensures var p := states[n];
            && sel.slot < |p.tx.sched.rt|
            && p.tx.sched.rt[sel.slot].payload.generation == sel.generation
            && AI.PairFaithful(p.tx.sched.rt[sel.slot].payload, p.audio.log)
            && p.tx.sched.rt[sel.slot].payload in p.audio.log.emitted
  {
    hide Run, XI.Ledger, XI.Fifo, XI.Accounts, AI.PairFaithful, AI.Inv;
    RunKeepsInv(states, actions, n);
  }

  /** A full realtime queue leaves the store, the reader and the scheduler untouched. */
  lemma FullQueueLeavesStoreAlone(states: seq<Pipe>, actions: seq<PipeAction>, n: nat)
    requires Run(states, actions) && n < |states|
    requires states[n].tx.sched.rtMetrics.pending == RT_DEPTH
    ensures Next(states[n], BeginIngest) == states[n] && states[n].audio.rdr.RdIdle?
  {
    hide Run, XI.Ledger, XI.Fifo, AI.Inv;
    RunKeepsInv(states, actions, n);
    assert XI.Accounts(states[n].tx);
  }
}
