/**
 The microphone packet ring: 32 packets of 48 stereo words between the decoder task, which claims, fills and
 publishes, and the USB endpoint, which starts and completes transfers. Locked regions and unlocked writes
 are separate steps.
 */
module MicSteps {
  import opened Basics

  const DEPTH: nat := 32
  const WORDS: nat := 48
  const INVALID: nat := 255

  datatype PacketState = FreePacket | FillingPacket | ReadyPacket | DmaActive

  datatype Packet = Packet(state: PacketState, nonzero: bool, words: seq<nat>)

  datatype Ring = Ring(packets: seq<Packet>, producer: nat, consumer: nat, active: nat, count: nat, busy: bool)

  // Where the decoder task stands inside push_mic_pcm_stereo.
  datatype Producer = Resting | Pushing(mono: seq<int>, offset: nat, selected: nat, word: nat)

  ghost predicate Shaped(r: Ring) {
    && |r.packets| == DEPTH && r.producer < DEPTH && r.consumer < DEPTH
    && (r.active < DEPTH || r.active == INVALID)
    && (forall i :: 0 <= i < DEPTH ==> |r.packets[i].words| == WORDS)
  }

  /** A sample as one stereo word: the 16-bit value in both halves. */
  function StereoWord(sample: int): nat {
    (sample % 0x1_0000) * 0x1_0001
  }

  function Fits(mono: seq<int>, offset: nat): (n: nat)
    requires offset <= |mono|
    ensures n <= WORDS && offset + n <= |mono|
  {
    if |mono| - offset > WORDS then WORDS else |mono| - offset
  }

  function WordAt(mono: seq<int>, offset: nat, k: nat): nat
    requires offset <= |mono|
  {
    if k < Fits(mono, offset) then StereoWord(mono[offset + k]) else 0
  }

  /** The packet made from the samples at offset, padded with silence. */
  function PacketWords(mono: seq<int>, offset: nat): (w: seq<nat>)
    requires offset <= |mono|
    ensures |w| == WORDS
    ensures forall k :: 0 <= k < WORDS ==> w[k] == WordAt(mono, offset, k)
  {
    FirstWords(mono, offset, WORDS)
  }

  function FirstWords(mono: seq<int>, offset: nat, n: nat): (w: seq<nat>)
    requires offset <= |mono|
    ensures |w| == n
    ensures forall k :: 0 <= k < n ==> w[k] == WordAt(mono, offset, k)
  {
    if n == 0 then [] else FirstWords(mono, offset, n - 1) + [WordAt(mono, offset, n - 1)]
  }

  predicate Audible(mono: seq<int>, offset: nat)
    requires offset <= |mono|
  {
    exists j :: offset <= j < offset + Fits(mono, offset) && mono[j] != 0
  }

  // ---- the decoder task ----

  /** The first locked region of a push: claim the producer's packet, or refuse. */
  function ClaimFirst(r: Ring, mono: seq<int>): (Ring, Producer)
    requires Shaped(r)
  {
    if mono == [] || r.packets[r.producer].state != FreePacket then (r, Resting)
    else (r.(packets := r.packets[r.producer := r.packets[r.producer].(state := FillingPacket)]),
          Pushing(mono, 0, r.producer, 0))
  }

  /** One unlocked write into the claimed packet. */
  function FillWord(r: Ring, p: Producer): (Ring, Producer)
    requires Shaped(r) && p.Pushing? && p.offset <= |p.mono| && p.selected < DEPTH && p.word < WORDS
  {
    var packet := r.packets[p.selected];
    (r.(packets := r.packets[p.selected := packet.(words := packet.words[p.word := WordAt(p.mono, p.offset, p.word)])]),
     p.(word := p.word + 1))
  }

  /** The locked region after the copy: publish, then claim the next packet if samples are left. */
  function Publish(r: Ring, p: Producer): (Ring, Producer)
    requires Shaped(r) && p.Pushing? && p.offset <= |p.mono| && p.selected < DEPTH
  {
    if r.packets[p.selected].state != FillingPacket then (r, Resting)
    else
      var packet := r.packets[p.selected].(state := ReadyPacket, nonzero := Audible(p.mono, p.offset));
      var next := (p.selected + 1) % DEPTH;
      var done := r.(packets := r.packets[p.selected := packet], producer := next, count := r.count + 1);
      var offset := p.offset + Fits(p.mono, p.offset);
      if offset >= |p.mono| then (done, Resting)
      else if done.packets[next].state != FreePacket then (done, Resting)
      else (done.(packets := done.packets[next := done.packets[next].(state := FillingPacket)]),
            Pushing(p.mono, offset, next, 0))
  }

  // ---- the endpoint ----

  function Prepare(r: Ring, usable: bool): (Ring, Option<nat>)
    requires Shaped(r)
    ensures Prepare(r, usable).1.Some? ==> Prepare(r, usable).1.value < DEPTH || Prepare(r, usable).1.value == INVALID
  {
    if !usable || r.busy then (r, None)
    else if r.packets[r.consumer].state != ReadyPacket then (r.(active := INVALID, busy := true), Some(INVALID))
    else (r.(packets := r.packets[r.consumer := r.packets[r.consumer].(state := DmaActive)],
             active := r.consumer, busy := true),
          Some(r.consumer))
  }

  function StartFailed(r: Ring, selected: nat): Ring
    requires |r.packets| == DEPTH && (selected < DEPTH || selected == INVALID)
  {
    var s := if selected != INVALID && r.packets[selected].state == DmaActive then
               r.(packets := r.packets[selected := r.packets[selected].(state := ReadyPacket)]) else r;
    s.(active := INVALID, busy := false)
  }

  /** Preparing a transfer and learning at once whether the controller accepted it. */
  function StartAttempt(r: Ring, usable: bool, accepted: bool): Ring
    requires Shaped(r)
  {
    var (s, selected) := Prepare(r, usable);
    if selected.None? || accepted then s else StartFailed(s, selected.value)
  }

  function Release(r: Ring): Ring
    requires Shaped(r)
  {
    var s := r.(active := INVALID, busy := false);
    if r.active < DEPTH && r.packets[r.active].state == DmaActive then
      s.(packets := r.packets[r.active := r.packets[r.active].(state := FreePacket, nonzero := false)],
         consumer := (r.active + 1) % DEPTH,
         count := if r.count > 0 then r.count - 1 else r.count)
    else s
  }

  /** The completion callback: release the finished packet, then try to start the next one. */
  function Completion(r: Ring, usable: bool, accepted: bool): Ring
    requires Shaped(r)
  {
    StartAttempt(Release(r), usable, accepted)
  }

  function Freed(packets: seq<Packet>): (f: seq<Packet>)
    ensures |f| == |packets|
    ensures forall i :: 0 <= i < |packets| ==> f[i] == packets[i].(state := FreePacket, nonzero := false)
  {
    if packets == [] then []
    else Freed(packets[..|packets| - 1]) + [packets[|packets| - 1].(state := FreePacket, nonzero := false)]
  }

  /** flush_mic_queues; the endpoint callers also clear the busy flag. */
  function Flush(r: Ring, clearBusy: bool): Ring {
    Ring(Freed(r.packets), 0, 0, INVALID, 0, r.busy && !clearBusy)
  }
}

/** Any run of pushes, starts, completions and flushes, and what the ring guarantees over it. */
module MicRuns {
  import opened Basics
  import opened MicSteps

  // Since the latest flush: the packets published, in order, and those whose transfer completed.
  datatype State = State(ring: Ring, task: Producer, published: seq<seq<nat>>, completed: seq<seq<nat>>)

  datatype Action =
    | BeginPush(mono: seq<int>)
    | Fill
    | PublishStep
    | Start(usable: bool, accepted: bool)
    | CompleteTransfer(usable: bool, accepted: bool)
    | FlushAll(clearBusy: bool)

  ghost predicate Ready(s: State) {
    && Shaped(s.ring)
    && (s.task.Pushing? ==> s.task.offset < |s.task.mono| && s.task.selected < DEPTH && s.task.word <= WORDS)
  }

  function Next(s: State, a: Action): State
    requires Ready(s)
  {
    match a
    case BeginPush(mono) =>
      if !s.task.Resting? then s
      else var (r, p) := ClaimFirst(s.ring, mono); s.(ring := r, task := p)
    case Fill =>
      if !s.task.Pushing? || s.task.word >= WORDS then s
      else var (r, p) := FillWord(s.ring, s.task); s.(ring := r, task := p)
    case PublishStep =>
      if !s.task.Pushing? || s.task.word < WORDS then s
      else
        var (r, p) := Publish(s.ring, s.task);
        s.(ring := r, task := p,
           published := if s.ring.packets[s.task.selected].state == FillingPacket
                        then s.published + [PacketWords(s.task.mono, s.task.offset)] else s.published)
    case Start(usable, accepted) => s.(ring := StartAttempt(s.ring, usable, accepted))
    case CompleteTransfer(usable, accepted) =>
      var done := s.ring.active < DEPTH && s.ring.packets[s.ring.active].state == DmaActive;
      s.(ring := Completion(s.ring, usable, accepted),
         completed := if done then s.completed + [s.ring.packets[s.ring.active].words] else s.completed)
    case FlushAll(clearBusy) => State(Flush(s.ring, clearBusy), s.task, [], [])
  }

  function Initial(): State {
    State(Ring(Repeat(Packet(FreePacket, false, Repeat<nat>(0, WORDS)), DEPTH), 0, 0, INVALID, 0, false), Resting, [], [])
  }

  // Ring position k places after the consumer.
  function At(consumer: nat, k: nat): (i: nat)
    ensures i < DEPTH
  {
    (consumer + k) % DEPTH
  }

  ghost predicate TaskHolds(s: State)
    requires Shaped(s.ring)
  {
    s.task.Pushing? && s.task.selected < DEPTH && s.ring.packets[s.task.selected].state == FillingPacket
  }

  // What packet k places after the consumer must look like.
  ghost predicate PlaceInv(s: State, k: nat)
    requires Shaped(s.ring)
  {
    var packet := s.ring.packets[At(s.ring.consumer, k)];
    if k < s.ring.count then
      && |s.completed| + k < |s.published|
      && packet.words == s.published[|s.completed| + k]
      && (packet.state == ReadyPacket || (k == 0 && packet.state == DmaActive && s.ring.active == At(s.ring.consumer, 0)))
    else if k == s.ring.count && TaskHolds(s) then packet.state == FillingPacket
    else packet.state == FreePacket
  }

  ghost predicate Inv(s: State) {
    && Ready(s)
    && s.ring.count <= DEPTH
    && s.ring.producer == At(s.ring.consumer, s.ring.count)
    && (forall k :: 0 <= k < DEPTH ==> PlaceInv(s, k))
    && s.completed <= s.published
    && s.ring.count == |s.published| - |s.completed|
    && (TaskHolds(s) ==>
          && s.task.selected == s.ring.producer && s.ring.count < DEPTH
          && (forall k :: 0 <= k < s.task.word ==>
                s.ring.packets[s.task.selected].words[k] == WordAt(s.task.mono, s.task.offset, k)))
    && (s.task.Pushing? && !TaskHolds(s) ==> s.ring.packets[s.task.selected].state == FreePacket)
    && (s.ring.active != INVALID ==> s.ring.busy && s.ring.count > 0 && s.ring.active == s.ring.consumer
                                     && s.ring.packets[s.ring.active].state == DmaActive)
  }

  lemma InitialInv()
    ensures Inv(Initial())
  {
  }

  lemma PlacesDiffer(c: nat, j: nat, k: nat)
    requires j < DEPTH && k < DEPTH && j != k
    ensures At(c, j) != At(c, k)
  {
  }

  lemma ModuloShift(q: int, x: nat)
    requires x + DEPTH * q >= 0
    ensures (x + DEPTH * q) % DEPTH == x % DEPTH
  {
  }

  lemma PlaceAfter(c: nat, k: nat)
    ensures (At(c, k) + 1) % DEPTH == At(c, k + 1)
  {
    ModuloShift((c + k) / DEPTH, At(c, k) + 1);
  }

  lemma NextConsumer(c: nat, k: nat)
    ensures At((c + 1) % DEPTH, k) == At(c, k + 1)
  {
    ModuloShift((c + 1) / DEPTH, (c + 1) % DEPTH + k);
  }

  lemma PlacesWrap(c: nat, k: nat)
    ensures (At(c, k) + 1) % DEPTH == At(c, k + 1)
    ensures c < DEPTH ==> At(c, DEPTH) == At(c, 0) == c
    ensures At((c + 1) % DEPTH, k) == At(c, k + 1)
  {
    PlaceAfter(c, k);
    NextConsumer(c, k);
    ModuloShift(1, c);
  }

  lemma BeginKeepsInv(s: State, mono: seq<int>)
    requires Inv(s)
    ensures Inv(Next(s, BeginPush(mono)))
  {
    hide At;
    var t := Next(s, BeginPush(mono));
    if s.task.Resting? && t.task.Pushing? {
      PlacesWrap(s.ring.consumer, 0);
      assert PlaceInv(s, 0);
      assert s.ring.count < DEPTH;
      forall k | 0 <= k < DEPTH
        ensures PlaceInv(t, k)
      {
        assert PlaceInv(s, k);
        if k != s.ring.count { PlacesDiffer(s.ring.consumer, k, s.ring.count); }
      }
    }
  }

  lemma FillKeepsInv(s: State)
    requires Inv(s)
    ensures Inv(Next(s, Fill))
  {
    hide At;
    var t := Next(s, Fill);
    if s.task.Pushing? && s.task.word < WORDS {
      forall k | 0 <= k < DEPTH
        ensures PlaceInv(t, k)
      {
        assert PlaceInv(s, k);
      }
    }
  }

  lemma PublishKeepsInv(s: State)
    requires Inv(s)
    ensures Inv(Next(s, PublishStep))
  {
    if s.task.Pushing? && s.task.word >= WORDS {
      if TaskHolds(s) {
        PublishedKeepsInv(s);
      } else {
        AbandonedKeepsInv(s);
      }
    }
  }

  // The claimed packet becomes the next ready one.
  lemma PublishedKeepsInv(s: State)
    requires Inv(s) && s.task.Pushing? && s.task.word >= WORDS && TaskHolds(s)
    ensures Inv(Next(s, PublishStep))
  {
    PublishedPlaces(s);
    hide At, Audible, WordAt;
    PlacesWrap(s.ring.consumer, s.ring.count);
    PlacesWrap(s.ring.consumer, 0);
    assert PlaceInv(s, 0);
    hide PlaceInv;
  }

  lemma PublishedPlaces(s: State)
    requires Inv(s) && s.task.Pushing? && s.task.word >= WORDS && TaskHolds(s)
    ensures Ready(Next(s, PublishStep))
    ensures forall k :: 0 <= k < DEPTH ==> PlaceInv(Next(s, PublishStep), k)
  {
    hide At, Audible;
    var c := s.ring.consumer;
    PlacesWrap(c, s.ring.count);
    assert s.ring.packets[s.task.selected].words == PacketWords(s.task.mono, s.task.offset);
    hide PacketWords, WordAt, PlaceInv;
    forall k | 0 <= k < DEPTH
      ensures PlaceInv(Next(s, PublishStep), k)
    {
      PublishedPlace(s, k);
    }
  }

  lemma PublishedPlace(s: State, k: nat)
    requires Inv(s) && s.task.Pushing? && s.task.word >= WORDS && TaskHolds(s) && k < DEPTH
    requires s.ring.packets[s.task.selected].words == PacketWords(s.task.mono, s.task.offset)
    requires Shaped(Next(s, PublishStep).ring)
    ensures PlaceInv(Next(s, PublishStep), k)
  {
    hide At, Audible, PacketWords, WordAt;
    var c := s.ring.consumer;
    PlacesWrap(c, s.ring.count);
    assert PlaceInv(s, k);
    if k != s.ring.count { PlacesDiffer(c, k, s.ring.count); }
    if s.ring.count + 1 < DEPTH && k != s.ring.count + 1 { PlacesDiffer(c, k, s.ring.count + 1); }
  }

  // A flush took the claimed packet away: the push ends without touching the ring.
  lemma AbandonedKeepsInv(s: State)
    requires Inv(s) && s.task.Pushing? && s.task.word >= WORDS && !TaskHolds(s)
    ensures Inv(Next(s, PublishStep))
  {
    hide At, Audible, PacketWords;
    var t := Next(s, PublishStep);
    assert t == s.(task := Resting);
    forall k | 0 <= k < DEPTH
      ensures PlaceInv(t, k)
    {
      assert PlaceInv(s, k);
    }
  }

  lemma StartKeepsInv(s: State, usable: bool, accepted: bool)
    requires Inv(s)
    ensures Inv(Next(s, Start(usable, accepted)))
  {
    hide At;
    var t := Next(s, Start(usable, accepted));
    PlacesWrap(s.ring.consumer, 0);
    assert PlaceInv(s, 0);
    forall k | 0 <= k < DEPTH
      ensures PlaceInv(t, k)
    {
      assert PlaceInv(s, k);
      if k != 0 { PlacesDiffer(s.ring.consumer, k, 0); }
    }
  }

  // Completion is a release followed by a start attempt.
  function Released(s: State): State
    requires Ready(s)
  {
    var done := s.ring.active < DEPTH && s.ring.packets[s.ring.active].state == DmaActive;
    s.(ring := Release(s.ring),
       completed := if done then s.completed + [s.ring.packets[s.ring.active].words] else s.completed)
  }

  lemma ReleaseKeepsInv(s: State)
    requires Inv(s)
    ensures Inv(Released(s))
  {
    hide At;
    var t := Released(s);
    var c := s.ring.consumer;
    PlacesWrap(c, 0);
    assert PlaceInv(s, 0);
    if s.ring.active < DEPTH {
      PlacesWrap(c, s.ring.count - 1);
      forall k | 0 <= k < DEPTH
        ensures PlaceInv(t, k)
      {
        PlacesWrap(c, k);
        if k + 1 < DEPTH {
          assert PlaceInv(s, k + 1);
          PlacesDiffer(c, k + 1, 0);
        }
      }
    } else {
      forall k | 0 <= k < DEPTH
        ensures PlaceInv(t, k)
      {
        assert PlaceInv(s, k);
      }
    }
  }

  lemma FlushKeepsInv(s: State, clearBusy: bool)
    requires Inv(s)
    ensures Inv(Next(s, FlushAll(clearBusy)))
  {
  }

  lemma NextKeepsInv(s: State, a: Action)
    requires Inv(s)
    ensures Inv(Next(s, a))
  {
    hide Inv, Next;
    match a
    case BeginPush(mono) => BeginKeepsInv(s, mono);
    case Fill => FillKeepsInv(s);
    case PublishStep => PublishKeepsInv(s);
    case Start(usable, accepted) => StartKeepsInv(s, usable, accepted);
    case CompleteTransfer(usable, accepted) => CompleteKeepsInv(s, usable, accepted);
    case FlushAll(clearBusy) => FlushKeepsInv(s, clearBusy);
  }

  lemma CompleteKeepsInv(s: State, usable: bool, accepted: bool)
    requires Inv(s)
    ensures Inv(Next(s, CompleteTransfer(usable, accepted)))
  {
    hide Inv, StartAttempt, Release;
    InvIsReady(s);
    ReleaseKeepsInv(s);
    InvIsReady(Released(s));
    StartKeepsInv(Released(s), usable, accepted);
    assert Next(s, CompleteTransfer(usable, accepted)) == Next(Released(s), Start(usable, accepted));
  }

  lemma InvIsReady(s: State)
    requires Inv(s)
    ensures Ready(s)
  {
  }

  ghost predicate Run(states: seq<State>, actions: seq<Action>) {
    && |states| == |actions| + 1 && states[0] == Initial()
    && forall i :: 0 <= i < |actions| ==> Ready(states[i]) && states[i + 1] == Next(states[i], actions[i])
  }

  lemma {:induction false} RunKeepsInv(states: seq<State>, actions: seq<Action>, n: nat)
    requires Run(states, actions) && n < |states|
    ensures Inv(states[n])
  {
    hide Inv, Ready, Next, Initial;
    if n == 0 {
      InitialInv();
    } else {
      RunKeepsInv(states, actions, n - 1);
      NextKeepsInv(states[n - 1], actions[n - 1]);
    }
  }

  /** Between flushes the completed packets are a prefix of the published ones: in order, none lost, none repeated. */
  lemma CompletedIsPrefixOfPublished(states: seq<State>, actions: seq<Action>, n: nat)
    requires Run(states, actions) && n < |states|
    ensures var s := states[n];
            s.completed <= s.published && s.ring.count == |s.published| - |s.completed| <= DEPTH
  {
    hide Run, PlaceInv;
    RunKeepsInv(states, actions, n);
  }

  // How many of the first n packets are taken, by publication, transfer or claim.
  function Taken(packets: seq<Packet>, n: nat): nat
    requires n <= |packets|
  {
    if n == 0 then 0 else Taken(packets, n - 1) + (if packets[n - 1].state == FreePacket then 0 else 1)
  }

  lemma {:induction false} TakenAll(packets: seq<Packet>, n: nat)
    requires n <= |packets|
    ensures Taken(packets, n) <= n
    ensures Taken(packets, n) == n <==> forall i :: 0 <= i < n ==> packets[i].state != FreePacket
  {
    if n > 0 { TakenAll(packets, n - 1); }
  }

  /** A push is refused exactly when it is empty or every one of the 32 packets is taken. */
  lemma RefusedOnlyWhenFull(states: seq<State>, actions: seq<Action>, n: nat, mono: seq<int>)
    requires Run(states, actions) && n < |states| && states[n].task.Resting?
    ensures Ready(states[n])
    ensures Next(states[n], BeginPush(mono)).task.Resting? <==> mono == [] || states[n].ring.count == DEPTH
    ensures states[n].ring.count == DEPTH <==> Taken(states[n].ring.packets, DEPTH) == DEPTH
  {
    hide Run;
    RunKeepsInv(states, actions, n);
    var s := states[n];
    TakenAll(s.ring.packets, DEPTH);
    PlacesWrap(s.ring.consumer, 0);
    if s.ring.count < DEPTH {
      assert PlaceInv(s, s.ring.count);
    } else {
      assert PlaceInv(s, 0);
      forall i | 0 <= i < DEPTH
        ensures s.ring.packets[i].state != FreePacket
      {
        PlacesCover(s.ring.consumer, i);
        var k: nat :| k < DEPTH && At(s.ring.consumer, k) == i;
        assert PlaceInv(s, k);
      }
    }
  }

  lemma PlacesCover(c: nat, i: nat)
    requires i < DEPTH && c < DEPTH
    ensures exists k: nat :: k < DEPTH && At(c, k) == i
  {
    var k := (i + DEPTH - c) % DEPTH;
    assert At(c, k) == i;
  }

  /** A packet carries each sample's 16 bits in both channels of its word, and silence after the last sample. */
  lemma PacketIsStereo(mono: seq<int>, offset: nat, k: nat)
    requires offset <= |mono| && k < 48
    ensures var w := PacketWords(mono, offset)[k];
            if offset + k < |mono| then w % 65536 == w / 65536 == mono[offset + k] % 65536 else w == 0
  {
  }

  /** A step publishes at most the one packet its push has filled, cut from the samples it was given. */
  lemma PublishedPacketIsTheSamples(s: State)
    requires Inv(s) && TaskHolds(s) && s.task.word == WORDS
    ensures var t := Next(s, PublishStep);
            && t.published == s.published + [PacketWords(s.task.mono, s.task.offset)]
            && t.ring.packets[s.task.selected].words == t.published[|s.published|]
            && (t.ring.packets[s.task.selected].nonzero <==>
                  exists j :: s.task.offset <= j < |s.task.mono| && j < s.task.offset + WORDS && s.task.mono[j] != 0)
            && (t.task.Pushing? ==> t.task.mono == s.task.mono && t.task.offset == s.task.offset + WORDS)
            && (t.task.Resting? ==> s.task.offset + WORDS >= |s.task.mono| || t.ring.count == DEPTH)
  {
    PublishedFlag(s);
    hide At, Audible;
    PlacesWrap(s.ring.consumer, s.ring.count);
    assert s.ring.packets[s.task.selected].words == PacketWords(s.task.mono, s.task.offset);
    if s.ring.count + 1 < DEPTH {
      assert PlaceInv(s, s.ring.count + 1);
      PlacesDiffer(s.ring.consumer, s.ring.count, s.ring.count + 1);
    }
  }

  lemma PublishedFlag(s: State)
    requires Inv(s) && TaskHolds(s) && s.task.word == WORDS
    ensures Next(s, PublishStep).ring.packets[s.task.selected].nonzero <==>
              exists j :: s.task.offset <= j < |s.task.mono| && j < s.task.offset + WORDS && s.task.mono[j] != 0
  {
    assert Next(s, PublishStep).ring.packets[s.task.selected].nonzero == Audible(s.task.mono, s.task.offset);
    assert Audible(s.task.mono, s.task.offset) <==>
             exists j :: s.task.offset <= j < |s.task.mono| && j < s.task.offset + WORDS && s.task.mono[j] != 0;
  }

  /** An accepted transfer sends the oldest packet that has not completed. */
  lemma TransferSendsOldest(states: seq<State>, actions: seq<Action>, n: nat)
    requires Run(states, actions) && n < |states| && states[n].ring.active != INVALID
    ensures var s := states[n];
            && |s.ring.packets| == DEPTH
            && s.ring.active < DEPTH && |s.completed| < |s.published|
            && s.ring.packets[s.ring.active].words == s.published[|s.completed|]
            && s.ring.busy
  {
    hide Run;
    RunKeepsInv(states, actions, n);
    var s := states[n];
    PlacesWrap(s.ring.consumer, 0);
    assert PlaceInv(s, 0);
  }

  // ---- the endpoint in every reachable state ----

  // The packet at the consumer in another state; nothing else in the packets changes.
  function Head(r: Ring, state: PacketState): seq<Packet>
    requires Shaped(r)
  {
    r.packets[r.consumer := r.packets[r.consumer].(state := state)]
  }

  // With nothing in flight, the packet at the consumer is the oldest published one, if there is one left.
  lemma HeadIsOldest(s: State)
    requires Inv(s) && s.ring.active == INVALID
    ensures s.ring.packets[s.ring.consumer].state == ReadyPacket <==> |s.completed| < |s.published|
    ensures |s.completed| < |s.published| ==> s.ring.packets[s.ring.consumer].words == s.published[|s.completed|]
  {
    PlacesWrap(s.ring.consumer, 0);
    assert PlaceInv(s, 0);
  }

  lemma IdleHasNoTransfer(s: State)
    requires Inv(s) && !s.ring.busy
    ensures s.ring.active == INVALID
  {
  }

  /**
   Preparing a transfer. A busy or unusable endpoint is left alone. Otherwise the oldest published packet that has
   not completed is selected and becomes active, and silence is selected exactly when there is none.
   */
  lemma PrepareSelectsOldest(s: State, usable: bool)
    requires Inv(s)
    ensures var (r, selected) := Prepare(s.ring, usable);
            && (selected.None? <==> s.ring.busy || !usable)
            && (selected.None? ==> r == s.ring)
            && (selected.Some? && |s.completed| < |s.published| ==>
                  && selected.value == s.ring.consumer
                  && s.ring.packets[s.ring.consumer].words == s.published[|s.completed|]
                  && r == s.ring.(packets := Head(s.ring, DmaActive), active := s.ring.consumer, busy := true))
            && (selected.Some? && |s.completed| == |s.published| ==>
                  selected.value == INVALID && r == s.ring.(active := INVALID, busy := true))
            && |s.completed| <= |s.published|
  {
    hide PlaceInv;
    if !s.ring.busy {
      IdleHasNoTransfer(s);
      HeadIsOldest(s);
    }
  }

  /** A start on a usable idle endpoint: accepted it runs, with the oldest packet or silence; refused it leaves the ring as it was. */
  lemma StartOutcome(s: State, accepted: bool)
    requires Inv(s) && !s.ring.busy
    ensures var t := Next(s, Start(true, accepted));
            && t == s.(ring := t.ring)
            && (accepted ==>
                  && t.ring.busy && (t.ring.active == INVALID <==> |s.completed| == |s.published|)
                  && (t.ring.active != INVALID ==>
                        t.ring.active < DEPTH && t.ring.packets[t.ring.active].words == s.published[|s.completed|]))
            && (!accepted ==> t.ring == s.ring)
  {
    PrepareSelectsOldest(s, true);
    IdleHasNoTransfer(s);
    HeadIsOldest(s);
    hide PlaceInv, Prepare;
    assert Head(s.ring, DmaActive)[s.ring.consumer := s.ring.packets[s.ring.consumer].(state := ReadyPacket)] ==
           Head(s.ring, ReadyPacket);
    assert s.ring.packets[s.ring.consumer].state == ReadyPacket ==> Head(s.ring, ReadyPacket) == s.ring.packets;
  }

  /**
   A completion. The packet in flight, if there was one, joins the completed ones and its slot is free; then the
   next start goes with what is oldest now: after an accepted one silence is in flight exactly when nothing
   published is left, and without one the endpoint is idle.
   */
  lemma CompletionOutcome(s: State, usable: bool, accepted: bool)
    requires Inv(s)
    ensures var t := Next(s, CompleteTransfer(usable, accepted));
            && t.published == s.published && t.task == s.task
            && t.completed == (if s.ring.active == INVALID then s.completed else s.completed + [s.published[|s.completed|]])
            && (usable && accepted ==>
                  && t.ring.busy && (t.ring.active == INVALID <==> |t.completed| == |t.published|)
                  && (t.ring.active != INVALID ==>
                        && t.ring.active < DEPTH && |t.ring.packets| == DEPTH && |t.completed| < |t.published|
                        && t.ring.packets[t.ring.active].words == t.published[|t.completed|]))
            && (!usable || !accepted ==> !t.ring.busy && t.ring.active == INVALID)
  {
    InvIsReady(s);
    PlacesWrap(s.ring.consumer, 0);
    assert PlaceInv(s, 0);
    ReleaseKeepsInv(s);
    var mid := Released(s);
    assert !mid.ring.busy && mid.published == s.published && mid.task == s.task;
    assert Next(s, CompleteTransfer(usable, accepted)) == Next(mid, Start(usable, accepted));
    IdleHasNoTransfer(mid);
    hide PlaceInv, Release, Released, Inv;
    if usable {
      StartOutcome(mid, accepted);
    }
  }

  /** A flush leaves nothing published, every packet free and silent but its words, and the endpoint busy only if asked to. */
  lemma FlushOutcome(s: State, clearBusy: bool)
    requires Inv(s)
    ensures var t := Next(s, FlushAll(clearBusy));
            && t.published == [] && t.completed == [] && t.task == s.task
            && t.ring.count == 0 && t.ring.active == INVALID && t.ring.producer == 0 && t.ring.consumer == 0
            && (t.ring.busy <==> s.ring.busy && !clearBusy)
            && |t.ring.packets| == DEPTH
            && forall i :: 0 <= i < DEPTH ==> t.ring.packets[i] == Packet(FreePacket, false, s.ring.packets[i].words)
  {
    hide PlaceInv, Freed;
  }
}
