/**
 One ingester, one encoder and one reader sharing the epoch store, interleaved at the granularity of
 locked regions and of single unlocked copies, with generation resets at any point in between.
 */
module EpochSystem {
  import opened Basics
  import opened EpochTypes
  import opened EpochSteps

  datatype Call = Call(frames: seq<Frame>, generation: nat, capturedUs: nat, speakerEnabled: bool, gainQ8: nat)

  datatype Ingester =
    | IngIdle
    | IngLoop(call: Call, frame: nat)
    | IngCopy(call: Call, frame: nat, selected: nat, pcmFrame: nat, frames: nat, copied: nat)
    | IngCommit(call: Call, frame: nat, selected: nat, complete: bool)

  datatype Encoder =
    | EncIdle
    | EncJob(generation: nat, epoch: nat, slot: nat)
    | EncCopy(generation: nat, epoch: nat, slot: nat, opus: seq<Byte>, copied: nat)

  datatype Reader =
    | RdIdle
    | RdCopy(claim: PairClaim, buffer: seq<Byte>)

  // What was decided when an epoch was opened.
  datatype Opening = Opening(capturedUs: nat, speakerEnabled: bool)

  /**
   What an outside observer saw. streams[g] is the sequence of USB frames accepted under generation g,
   openings[g] lists the epochs opened in it, opus holds the bytes submitted for an epoch, and emitted
   lists the pairs take_adjacent_pair returned true for.
   */
  datatype History = History(
    streams: map<nat, seq<Sample>>,
    openings: map<nat, seq<Opening>>,
    opus: map<(nat, nat), seq<Byte>>,
    emitted: seq<Pair>)

  datatype System = System(store: Store, ing: Ingester, enc: Encoder, rdr: Reader, log: History)

  datatype Action =
    | EnterIngest(call: Call)
    | ClaimRegion
    | CopyFrame
    | StoreFrameCount
    | CommitRegion
    | TakeJobRegion
    | SubmitRegion(bytes: Option<seq<Byte>>)
    | CopyOpusByte
    | EndEncodeRegion
    | BeginPairRegion
    | CopyPairByte
    | EndPairRegion
    | ResetRegion(generation: nat)

  function StreamOf(log: History, g: nat): seq<Sample> {
    if g in log.streams then log.streams[g] else []
  }

  function OpeningsOf(log: History, g: nat): seq<Opening> {
    if g in log.openings then log.openings[g] else []
  }

  function Tag(frames: seq<Frame>, gainQ8: nat): (r: seq<Sample>)
    ensures |r| == |frames|
    ensures forall i :: 0 <= i < |frames| ==> r[i] == Sample(frames[i], gainQ8)
  {
    if |frames| == 0 then []
    else Tag(frames[..|frames| - 1], gainQ8) + [Sample(frames[|frames| - 1], gainQ8)]
  }

  function PairBytes(p: Pair): seq<Byte> {
    p.firstHaptics + p.secondHaptics + p.firstOpus + p.secondOpus
  }

  const PAIR_BYTES: nat := 2 * HAPTICS_LEN + 2 * OPUS_LEN

  function PairFromBytes(c: PairClaim, b: seq<Byte>): Pair
    requires |b| == PAIR_BYTES
  {
    Pair(c.generation, c.firstEpoch, c.firstCapturedUs, c.secondCapturedUs, c.speakerEnabled,
         b[..64], b[64..128], b[128..328], b[328..528])
  }

  function InitialStore(generation: nat): Store {
    var empty := Slot(0, 0, 0, 0, Free, false, Repeat<Byte>(0, HAPTICS_LEN), Repeat<Byte>(0, PCM_LEN), Repeat<Byte>(0, OPUS_LEN), 0, false);
    Store([empty, empty, empty, empty, empty, empty, empty, empty], INVALID_SLOT,
          Stats(generation, 0, 0, 0, 0, 0, 0, 0, 0, 0, 0, 0, 0, 0, 0, 0, 0))
  }

  function Initial(generation: nat): System {
    System(InitialStore(generation), IngIdle, EncIdle, RdIdle, History(map[], map[], map[], []))
  }

  // ----- transitions ----------------------------------------------------------------------------

  function EnterNext(s: System, call: Call): System {
    if s.ing.IngIdle? then s.(ing := IngLoop(call, 0)) else s
  }

  // Runs are followed while fewer than UINT32_MAX epochs have been opened in a generation.
  function ClaimNext(s: System): System
    requires ChunkReady(s.store)
  {
    if !s.ing.IngLoop? || s.store.stats.nextEpoch >= UINT32_MAX then s
    else if s.ing.frame >= |s.ing.call.frames| then s.(ing := IngIdle)
    else
      var call := s.ing.call;
      var frame := s.ing.frame;
      var r := ClaimChunk(s.store, call.generation, call.capturedUs, call.speakerEnabled,
                          |call.frames| - frame);
      match r.claim
      case Stop => s.(store := r.store, ing := IngIdle)
      case Retry => s.(store := r.store)
      case Chunk(sel, pcmFrame, n) =>
        s.(store := r.store,
           ing := IngCopy(call, frame, sel, pcmFrame, n, 0),
           log := Accept(s.log, call, frame, n, r.store.stats.nextEpoch > s.store.stats.nextEpoch))
  }

  function Accept(log: History, call: Call, frame: nat, n: nat, opens: bool): History
    requires frame + n <= |call.frames|
  {
    var g := call.generation;
    log.(streams := log.streams[g := StreamOf(log, g) + Tag(call.frames[frame..frame + n], call.gainQ8)],
         openings := if opens then
                       log.openings[g := OpeningsOf(log, g) + [Opening(call.capturedUs, call.speakerEnabled)]]
                     else log.openings)
  }

  ghost predicate CopyReady(s: System) {
    s.ing.IngCopy? ==>
      && s.ing.selected < |s.store.slots|
      && WellSized(s.store.slots[s.ing.selected])
      && s.ing.pcmFrame + s.ing.frames <= USB_FRAMES
      && s.ing.frame + s.ing.frames <= |s.ing.call.frames|
  }

  ghost function CopyFrameNext(s: System): System
    requires CopyReady(s)
  {
    if !s.ing.IngCopy? || s.ing.copied >= s.ing.frames then s
    else
      var sel := s.ing.selected;
      var k := s.ing.copied;
      var sample := Sample(s.ing.call.frames[s.ing.frame + k], s.ing.call.gainQ8);
      s.(store := s.store.(slots := s.store.slots[sel :=
                             WriteFrame(s.store.slots[sel], s.ing.pcmFrame + k, sample)]),
         ing := s.ing.(copied := k + 1))
  }

  ghost function StoreCountNext(s: System): System
    requires CopyReady(s)
  {
    if !s.ing.IngCopy? || s.ing.copied < s.ing.frames then s
    else
      var sel := s.ing.selected;
      var count := s.ing.pcmFrame + s.ing.frames;
      s.(store := s.store.(slots := s.store.slots[sel := s.store.slots[sel].(pcmFrames := count)]),
         ing := IngCommit(s.ing.call, s.ing.frame + s.ing.frames, sel, count == USB_FRAMES))
  }

  function CommitNext(s: System): System
    requires s.ing.IngCommit? ==> s.ing.selected < |s.store.slots|
  {
    if !s.ing.IngCommit? then s
    else
      var r := CommitChunk(s.store, s.ing.call.generation, s.ing.selected, s.ing.complete);
      s.(store := r.store, ing := if r.more then IngLoop(s.ing.call, s.ing.frame) else IngIdle)
  }

  function TakeJobNext(s: System): System {
    if !s.enc.EncIdle? then s
    else
      var (store, job) := TakeJob(s.store);
      match job
      case None => s.(store := store)
      case Some(j) => s.(store := store, enc := EncJob(j.generation, j.epoch, j.slot))
  }

  // The encoder task completes exactly the job it holds, with 200 bytes or with a failure.
  function SubmitNext(s: System, bytes: Option<seq<Byte>>): System {
    if !s.enc.EncJob? then s
    else
      var usable := bytes.Some? && |bytes.value| == OPUS_LEN;
      var (store, slot) := BeginEncode(s.store, s.enc.generation, s.enc.epoch, usable);
      match slot
      case None => s.(store := store, enc := EncIdle)
      case Some(i) =>
        s.(store := store,
           enc := EncCopy(s.enc.generation, s.enc.epoch, i, bytes.value, 0),
           log := s.log.(opus := s.log.opus[(s.enc.generation, s.enc.epoch) := bytes.value]))
  }

  ghost function CopyOpusNext(s: System): System
    requires s.enc.EncCopy? ==> s.enc.slot < |s.store.slots| && WellSized(s.store.slots[s.enc.slot])
                                && |s.enc.opus| == OPUS_LEN
  {
    if !s.enc.EncCopy? || s.enc.copied >= OPUS_LEN then s
    else
      var slot := s.store.slots[s.enc.slot];
      var k := s.enc.copied;
      s.(store := s.store.(slots := s.store.slots[s.enc.slot :=
                             slot.(speakerOpus := slot.speakerOpus[k := s.enc.opus[k]])]),
         enc := s.enc.(copied := k + 1))
  }

  function EndEncodeNext(s: System): System
    requires s.enc.EncCopy? ==> s.enc.slot < |s.store.slots|
  {
    if !s.enc.EncCopy? || s.enc.copied < OPUS_LEN then s
    else s.(store := EndEncode(s.store, s.enc.slot, s.enc.generation, s.enc.epoch).0, enc := EncIdle)
  }

  function BeginPairNext(s: System): System {
    if !s.rdr.RdIdle? then s
    else
      var (store, claim) := BeginPair(s.store);
      s.(store := store, rdr := if claim.Some? then RdCopy(claim.value, []) else RdIdle)
  }

  ghost predicate ReadReady(s: System) {
    s.rdr.RdCopy? ==>
      && s.rdr.claim.first < |s.store.slots|
      && s.rdr.claim.second < |s.store.slots|
      && |PairBytes(PairOf(s.store, s.rdr.claim))| == PAIR_BYTES
  }

  ghost function CopyPairNext(s: System): System
    requires ReadReady(s)
  {
    if !s.rdr.RdCopy? || |s.rdr.buffer| >= PAIR_BYTES then s
    else
      var view := PairBytes(PairOf(s.store, s.rdr.claim));
      s.(rdr := s.rdr.(buffer := s.rdr.buffer + [view[|s.rdr.buffer|]]))
  }

  ghost function EndPairNext(s: System): System
    requires ReadReady(s)
  {
    if !s.rdr.RdCopy? || |s.rdr.buffer| != PAIR_BYTES then s
    else
      var (store, ok) := EndPair(s.store, s.rdr.claim);
      s.(store := store, rdr := RdIdle,
         log := if ok then
                  s.log.(emitted := s.log.emitted + [PairFromBytes(s.rdr.claim, s.rdr.buffer)])
                else s.log)
  }

  // Generations are stamped from a counter that only moves up, so a reset always brings a fresh one.
  function ResetNext(s: System, generation: nat): System {
    if generation <= s.store.stats.generation then s
    else s.(store := Reset(s.store, generation))
  }

  ghost predicate Runnable(s: System) {
    && ChunkReady(s.store)
    && CopyReady(s)
    && (s.ing.IngCommit? ==> s.ing.selected < |s.store.slots|)
    && (s.enc.EncCopy? ==> s.enc.slot < |s.store.slots| && WellSized(s.store.slots[s.enc.slot])
                           && |s.enc.opus| == OPUS_LEN)
    && ReadReady(s)
  }

  ghost function Next(s: System, a: Action): System
    requires Runnable(s)
  {
    match a
    case EnterIngest(call) => EnterNext(s, call)
    case ClaimRegion => ClaimNext(s)
    case CopyFrame => CopyFrameNext(s)
    case StoreFrameCount => StoreCountNext(s)
    case CommitRegion => CommitNext(s)
    case TakeJobRegion => TakeJobNext(s)
    case SubmitRegion(bytes) => SubmitNext(s, bytes)
    case CopyOpusByte => CopyOpusNext(s)
    case EndEncodeRegion => EndEncodeNext(s)
    case BeginPairRegion => BeginPairNext(s)
    case CopyPairByte => CopyPairNext(s)
    case EndPairRegion => EndPairNext(s)
    case ResetRegion(g) => ResetNext(s, g)
  }
}
