/** What one ingest call adds to its generation's stream, over whole runs. */
module EpochStream {
  import opened Basics
  import opened EpochTypes
  import opened EpochSteps
  import opened EpochSystem
  import opened EpochInvariant
  import opened EpochSafety
  import opened EpochIngest
  import opened EpochTheorems

  // Since `start`, the call added its first k frames to its generation's stream and nothing to any other.
  ghost predicate Added(start: History, log: History, call: Call, k: nat) {
    && k <= |call.frames|
    && StreamOf(log, call.generation) == StreamOf(start, call.generation) + Tag(call.frames[..k], call.gainQ8)
    && forall g :: g != call.generation ==> StreamOf(log, g) == StreamOf(start, g)
  }

  // How many frames of its call the ingester has accepted.
  function Reached(ing: Ingester, call: Call): nat {
    match ing
    case IngIdle => |call.frames|
    case IngLoop(_, frame) => frame
    case IngCopy(_, frame, _, _, frames, _) => frame + frames
    case IngCommit(_, frame, _, _) => frame
  }

  // How far the call has come, by whether the store's generation is still older than the call's, is the same, or is newer.
  ghost predicate Contributing(start: System, s: System, call: Call) {
    var g := s.store.stats.generation;
    && (!s.ing.IngIdle? ==> s.ing.call == call)
    && start.store.stats.generation <= g
    && (exists k :: Added(start.log, s.log, call, k))
    && (g < call.generation ==> Added(start.log, s.log, call, 0) && (!s.ing.IngIdle? ==> s.ing == IngLoop(call, 0)))
    && (g == call.generation ==> Added(start.log, s.log, call, Reached(s.ing, call)))
    && (start.store.stats.generation > call.generation ==> Added(start.log, s.log, call, 0))
  }

  lemma TagConcat(a: seq<Frame>, b: seq<Frame>, gainQ8: nat)
    ensures Tag(a + b, gainQ8) == Tag(a, gainQ8) + Tag(b, gainQ8)
  {
    hide Tag;
  }

  lemma AcceptAdds(start: History, log: History, call: Call, frame: nat, n: nat, opens: bool)
    requires Added(start, log, call, frame) && frame + n <= |call.frames|
    ensures Added(start, Accept(log, call, frame, n, opens), call, frame + n)
  {
    hide Tag;
    TagConcat(call.frames[..frame], call.frames[frame..frame + n], call.gainQ8);
    assert call.frames[..frame] + call.frames[frame..frame + n] == call.frames[..frame + n];
  }

  lemma ClaimContributes(start: System, s: System, call: Call)
    requires Inv(s) && ChunkReady(s.store) && !s.ing.IngIdle? && Contributing(start, s, call)
    ensures Contributing(start, ClaimNext(s), call)
  {
    hide SlotsInv, Distinct, EncoderInv, ReaderInv, LogInv, Conserved, EmittedInv, Added, Accept, Allocate, Tag;
    var t := ClaimNext(s);
    ClaimKeepsGeneration(s);
    if s.ing.IngLoop? && t.ing.IngCopy? {
      AcceptAdds(start.log, s.log, call, s.ing.frame, t.ing.frames, t.store.stats.nextEpoch > s.store.stats.nextEpoch);
    } else if s.ing.IngLoop? && t.ing.IngIdle? && call.generation == s.store.stats.generation && s.ing.frame < |call.frames| {
      NeverStops(s);
    }
  }

  lemma ClaimKeepsGeneration(s: System)
    requires ChunkReady(s.store)
    ensures ClaimNext(s).store.stats.generation == s.store.stats.generation
  {
    hide First, Oldest, Accept;
  }

  // In its own generation an ingest call is never turned away.
  lemma NeverStops(s: System)
    requires Inv(s) && ChunkReady(s.store) && s.ing.IngLoop? && s.ing.frame < |s.ing.call.frames|
    requires s.ing.call.generation == s.store.stats.generation
    ensures !ClaimNext(s).ing.IngIdle?
  {
    hide Inv, Allocate;
    var call := s.ing.call;
    if s.store.stats.nextEpoch < UINT32_MAX && s.store.filling == INVALID_SLOT {
      AllocationNeverRefuses(s, call.capturedUs, call.speakerEnabled);
    }
  }

  // In its own generation a copied chunk always commits.
  lemma CommitContributes(start: System, s: System, call: Call)
    requires Inv(s) && !s.ing.IngIdle? && Contributing(start, s, call)
    requires s.ing.IngCommit? ==> s.ing.selected < |s.store.slots|
    ensures Contributing(start, CommitNext(s), call)
  {
    hide Distinct, EncoderInv, ReaderInv, LogInv, Conserved, EmittedInv, Added, SlotInv, Written, NonFree;
  }

  lemma QuietContributes(start: System, s: System, a: Action, call: Call)
    requires Runnable(s) && !s.ing.IngIdle? && Contributing(start, s, call) && !a.ClaimRegion? && !a.CommitRegion?
    ensures Contributing(start, Next(s, a), call)
  {
    hide Added, WriteFrame, PairBytes, PairOf, First, Oldest, CancelAll;
    var t := Next(s, a);
    assert t.log.streams == s.log.streams;
    SameStreamsSameAdded(start.log, s.log, t.log, call);
  }

  lemma SameStreamsSameAdded(start: History, a: History, b: History, call: Call)
    requires a.streams == b.streams
    ensures forall k :: Added(start, a, call, k) == Added(start, b, call, k)
  {
    hide Tag;
    assert forall g :: StreamOf(a, g) == StreamOf(b, g);
  }

  lemma StepContributes(start: System, s: System, a: Action, call: Call)
    requires Inv(s) && Runnable(s) && !s.ing.IngIdle? && Contributing(start, s, call)
    ensures Contributing(start, Next(s, a), call)
  {
    hide Inv, Contributing;
    if a.ClaimRegion? {
      ClaimContributes(start, s, call);
    } else if a.CommitRegion? {
      CommitContributes(start, s, call);
    } else {
      QuietContributes(start, s, a, call);
    }
  }

  // Step m enters the call, and the ingester is busy with it until step n.
  ghost predicate CallSpans(states: seq<System>, actions: seq<Action>, call: Call, m: nat, n: nat) {
    && m < n < |states| == |actions| + 1
    && actions[m] == EnterIngest(call) && states[m].ing.IngIdle?
    && forall i :: m < i < n ==> !states[i].ing.IngIdle?
  }

  lemma {:induction false} CallContributes(states: seq<System>, actions: seq<Action>, call: Call, m: nat, n: nat)
    requires Run(states, actions) && CallSpans(states, actions, call, m, n)
    ensures Contributing(states[m], states[n], call)
    decreases n
  {
    hide Contributing, Runnable, Inv, Initial, EnterNext, ClaimNext, CopyFrameNext, StoreCountNext, CommitNext;
    if n == m + 1 {
      EnterContributes(states[m], call);
    } else {
      hide Next;
      CallContributes(states, actions, call, m, n - 1);
      RunKeepsInv(states, actions, n - 1);
      StepContributes(states[m], states[n - 1], actions[n - 1], call);
    }
  }

  lemma EnterContributes(s: System, call: Call)
    requires s.ing.IngIdle?
    ensures Contributing(s, EnterNext(s, call), call)
  {
    assert Added(s.log, EnterNext(s, call).log, call, 0);
  }

  /**
   Nothing is lost and nothing is repeated. Whatever other tasks and resets do meanwhile, an ingest call only ever
   adds the first k of its frames to its generation's stream and leaves every other stream alone. When it ends
   while the store is in its generation, it has added all of them; when the store had left its generation before
   it began, it adds none.
   */
  lemma IngestAddsItsFrames(states: seq<System>, actions: seq<Action>, call: Call, m: nat, n: nat)
    requires Run(states, actions) && CallSpans(states, actions, call, m, n)
    ensures var before, after := StreamOf(states[m].log, call.generation), StreamOf(states[n].log, call.generation);
            && (exists k :: 0 <= k <= |call.frames| && after == before + Tag(call.frames[..k], call.gainQ8))
            && (states[n].ing.IngIdle? && states[n].store.stats.generation == call.generation ==>
                  after == before + Tag(call.frames, call.gainQ8))
            && (states[m].store.stats.generation > call.generation ==> after == before)
    ensures forall g :: g != call.generation ==> StreamOf(states[n].log, g) == StreamOf(states[m].log, g)
  {
    hide Run, StreamOf;
    CallContributes(states, actions, call, m, n);
    assert call.frames[..|call.frames|] == call.frames;
    var k :| Added(states[m].log, states[n].log, call, k);
  }

  /**
   Packetisation independence in every reachable state between two ingest calls: the store of a run then always
   has a slot to open, so cutting the bytes into packets differently changes nothing but capture times.
   */
  lemma PacketsAreInterchangeable(states: seq<System>, actions: seq<Action>, n: nat,
                                  a: seq<Byte>, b: seq<Byte>, first: Call, second: Call, whole: Call)
    requires Run(states, actions) && n < |states| && states[n].ing.IngIdle?
    requires states[n].store.stats.nextEpoch + (|a| + |b|) / USB_FRAME_BYTES <= UINT32_MAX
    requires |a| % USB_FRAME_BYTES == 0 && SameCallButTime(first, whole) && SameCallButTime(second, whole)
    ensures var st := states[n].store;
            var g, on, gain := whole.generation, whole.speakerEnabled, whole.gainQ8;
            && IngestReady(st)
            && var afterA := IngestBytes(st, a, g, first.capturedUs, on, gain);
               SameButTimes(IngestBytes(afterA, b, g, second.capturedUs, on, gain),
                            IngestBytes(st, a + b, g, whole.capturedUs, on, gain))
  {
    hide Run, Inv, NeverFull, IngestReady, IngestBytes, SameButTimes;
    RunKeepsInv(states, actions, n);
    IdleStoreIsNeverFull(states[n], (|a| + |b|) / USB_FRAME_BYTES);
    NeverFullIsReady(states[n].store, (|a| + |b|) / USB_FRAME_BYTES);
    PacketisationIndependence(states[n].store, a, b, first, second, whole);
  }
}
