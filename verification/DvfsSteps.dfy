/** The frequency governor: request validation, the realtime target, and one worker iteration as a step. */
module DvfsSteps {
  import opened Basics

  const DEFAULT_MHZ: nat := 320
  const VALIDATED_MAX_MHZ: nat := 400
  const EXPERIMENTAL_MAX_MHZ: nat := 480
  const CLIENTS: nat := 4
  const DOWNSHIFT_DELAY: nat := 2000
  const MIN_RESIDENCY: nat := 500
  const AUDIO_HOLD: nat := 250
  const EINVAL: int := -22
  const TICK_MODULUS: nat := 0x1_0000_0000

  datatype Requests = Requests(
    floors: seq<nat>, boosts: seq<nat>, untils: seq<nat>,
    speakerEnabled: bool, micEnabled: bool,
    speakerActive: bool, micActive: bool, speakerUntil: nat, micUntil: nat)

  datatype Dvfs = Dvfs(
    manual: bool, manualMhz: nat, current: nat, requested: nat, req: Requests,
    pending: nat, since: nat, lastTransition: nat)

  // ---- ticks ----

  // The 32-bit tick counter at real time t milliseconds; the tick rate is 1000 Hz.
  function Tick(t: nat): (k: nat)
    ensures k < TICK_MODULUS
  {
    t % TICK_MODULUS
  }

  function TickDifference(a: nat, b: nat): nat {
    (a + TICK_MODULUS - b % TICK_MODULUS) % TICK_MODULUS
  }

  // The difference taken as a signed 32-bit number is negative.
  predicate TickBefore(a: nat, b: nat) {
    TickDifference(a, b) >= 0x8000_0000
  }

  /** Within half the counter's range the wrapped comparison is the order of real times. */
  lemma TickBeforeIsRealOrder(a: nat, b: nat)
    requires -0x8000_0000 <= a - b < 0x8000_0000
    ensures TickBefore(Tick(a), Tick(b)) <==> a < b
  {
    var d := TickDifference(Tick(a), Tick(b));
    assert (a - b) % TICK_MODULUS == d by { WrappedDifference(a, b); }
  }

  lemma WrappedDifference(a: nat, b: nat)
    ensures TickDifference(Tick(a), Tick(b)) == (a - b) % TICK_MODULUS
  {
    var x, y := Tick(a), Tick(b);
    assert a == x + TICK_MODULUS * (a / TICK_MODULUS);
    assert b == y + TICK_MODULUS * (b / TICK_MODULUS);
    var q := a / TICK_MODULUS - b / TICK_MODULUS;
    assert a - b == (x - y) + TICK_MODULUS * q;
    ModShift(x - y, q);
    ModShift(x - y, 1);
  }

  lemma ModShift(x: int, q: int)
    ensures (x + TICK_MODULUS * q) % TICK_MODULUS == x % TICK_MODULUS
  {
  }

  /** However often the counter wrapped, at least the wrapped difference of real time has passed. */
  lemma WrappedDifferenceIsElapsed(a: nat, b: nat)
    requires b <= a
    ensures TickDifference(Tick(a), Tick(b)) <= a - b
  {
    WrappedDifference(a, b);
  }

  // ---- requests ----

  predicate FrequencyValid(mhz: nat, allowExperimental: bool) {
    mhz >= DEFAULT_MHZ && (mhz <= VALIDATED_MAX_MHZ || (allowExperimental && mhz <= EXPERIMENTAL_MAX_MHZ))
  }

  predicate RequestValid(mhz: nat) {
    mhz == 0 || FrequencyValid(mhz, false)
  }

  ghost predicate ValidRequests(r: Requests) {
    && |r.floors| == CLIENTS && |r.boosts| == CLIENTS && |r.untils| == CLIENTS
    && (forall i :: 0 <= i < CLIENTS ==> RequestValid(r.floors[i]) && RequestValid(r.boosts[i]))
  }

  function RequestFloor(r: Requests, client: nat, mhz: nat): (Requests, int)
    requires ValidRequests(r)
  {
    if client >= CLIENTS || !RequestValid(mhz) then (r, EINVAL)
    else (r.(floors := r.floors[client := mhz]), 0)
  }

  function RequestBoost(r: Requests, client: nat, mhz: nat, hold: nat, now: nat): (Requests, int)
    requires ValidRequests(r)
  {
    if client >= CLIENTS || !RequestValid(mhz) || (mhz != 0 && hold == 0) then (r, EINVAL)
    else (r.(boosts := r.boosts[client := mhz],
             untils := r.untils[client := if mhz == 0 then now else Tick(now + hold)]), 0)
  }

  function AudioEnabled(r: Requests, speaker: bool, mic: bool): Requests {
    var s := r.(speakerEnabled := speaker, micEnabled := mic);
    var t := if !speaker && r.speakerActive then s.(speakerActive := false, speakerUntil := 0) else s;
    if !mic && r.micActive then t.(micActive := false, micUntil := 0) else t
  }

  function AudioActivity(r: Requests, speakerWork: bool, micWork: bool, now: nat): Requests {
    var s := if speakerWork && r.speakerEnabled then r.(speakerActive := true, speakerUntil := Tick(now + AUDIO_HOLD)) else r;
    if micWork && r.micEnabled then s.(micActive := true, micUntil := Tick(now + AUDIO_HOLD)) else s
  }

  // ---- the realtime target ----

  function AudioFloor(r: Requests, now: nat): (f: nat)
    ensures f in {0, 384, 400}
  {
    var speaker := r.speakerActive && TickBefore(now, r.speakerUntil);
    var mic := r.micActive && TickBefore(now, r.micUntil);
    if speaker && mic then 400 else if speaker || mic then 384 else 0
  }

  function BoostNow(r: Requests, now: nat, i: nat): nat
    requires i < |r.boosts| && i < |r.untils|
  {
    if TickBefore(now, r.untils[i]) then r.boosts[i] else 0
  }

  function ClientTarget(r: Requests, now: nat, n: nat): (t: nat)
    requires ValidRequests(r) && n <= CLIENTS
    ensures DEFAULT_MHZ <= t <= VALIDATED_MAX_MHZ
  {
    if n == 0 then DEFAULT_MHZ
    else Max(Max(ClientTarget(r, now, n - 1), r.floors[n - 1]), BoostNow(r, now, n - 1))
  }

  function RealtimeTarget(r: Requests, now: nat): (t: nat)
    requires ValidRequests(r)
    ensures DEFAULT_MHZ <= t <= VALIDATED_MAX_MHZ
  {
    Max(ClientTarget(r, now, CLIENTS), AudioFloor(r, now))
  }

  // A frequency some client or the audio path asks for at tick `now`.
  ghost predicate Requested(r: Requests, now: nat, mhz: nat) {
    || (exists i :: 0 <= i < |r.floors| && r.floors[i] == mhz)
    || (exists i :: 0 <= i < |r.boosts| && i < |r.untils| && r.boosts[i] == mhz && TickBefore(now, r.untils[i]))
    || AudioFloor(r, now) == mhz
  }

  /** The realtime target is the maximum of 320 and every active request. */
  lemma TargetIsMaximum(r: Requests, now: nat)
    requires ValidRequests(r)
    ensures var t := RealtimeTarget(r, now);
            && (forall mhz: nat :: Requested(r, now, mhz) ==> mhz <= t)
            && (t == DEFAULT_MHZ || Requested(r, now, t))
  {
    hide TickBefore;
    ClientTargetIsMaximum(r, now, CLIENTS);
  }

  lemma {:induction false} ClientTargetIsMaximum(r: Requests, now: nat, n: nat)
    requires ValidRequests(r) && n <= CLIENTS
    ensures var t := ClientTarget(r, now, n);
            && (forall i :: 0 <= i < n ==> r.floors[i] <= t && BoostNow(r, now, i) <= t)
            && (t == DEFAULT_MHZ || exists i :: 0 <= i < n && (r.floors[i] == t || (r.boosts[i] == t && TickBefore(now, r.untils[i]))))
  {
    hide TickBefore;
    if n > 0 { ClientTargetIsMaximum(r, now, n - 1); }
  }

  // Boosts found expired are dropped while the target is computed.
  function Expire(r: Requests, now: nat): (s: Requests)
    requires ValidRequests(r)
    ensures ValidRequests(s)
  {
    r.(boosts := [BoostNow(r, now, 0), BoostNow(r, now, 1), BoostNow(r, now, 2), BoostNow(r, now, 3)])
  }

  /** Dropping expired boosts does not change the target, and takes away nothing that still holds. */
  lemma ExpireKeepsTarget(r: Requests, now: nat)
    requires ValidRequests(r)
    ensures RealtimeTarget(Expire(r, now), now) == RealtimeTarget(r, now)
    ensures var s := Expire(r, now);
            && (forall i :: 0 <= i < 4 ==> s.boosts[i] == if TickBefore(now, r.untils[i]) then r.boosts[i] else 0)
            && s == r.(boosts := s.boosts)
  {
    hide TickBefore;
    var s := Expire(r, now);
    assert forall i :: 0 <= i < CLIENTS ==> BoostNow(s, now, i) == BoostNow(r, now, i);
    assert ClientTarget(s, now, 1) == ClientTarget(r, now, 1);
    assert ClientTarget(s, now, 2) == ClientTarget(r, now, 2);
    assert ClientTarget(s, now, 3) == ClientTarget(r, now, 3);
    assert ClientTarget(s, now, 4) == ClientTarget(r, now, 4);
  }

  // ---- what the requests mean in real time ----

  // A direction counts as active at real time t.
  ghost predicate Active(on: bool, until: nat, t: nat) {
    on && TickBefore(Tick(t), until)
  }

  /** Audio asks for 400 MHz while both directions are active, 384 while one is, and nothing otherwise. */
  lemma AudioFloorValues(r: Requests, t: nat)
    ensures var f := AudioFloor(r, Tick(t));
            var speaker, mic := Active(r.speakerActive, r.speakerUntil, t), Active(r.micActive, r.micUntil, t);
            (f == 400 <==> speaker && mic) && (f == 0 <==> !speaker && !mic) && (f == 384 <==> speaker != mic)
  {
    hide TickBefore;
  }

  /** Work of an enabled direction keeps it active for a quarter of a second, and no longer. */
  lemma ActivityLasts(r: Requests, speakerWork: bool, micWork: bool, at: nat, t: nat)
    requires at <= t < at + 0x8000_0000
    ensures var s := AudioActivity(r, speakerWork, micWork, Tick(at));
            && (if speakerWork && r.speakerEnabled then Active(s.speakerActive, s.speakerUntil, t) <==> t < at + 250
                else s.speakerActive == r.speakerActive && s.speakerUntil == r.speakerUntil)
            && (if micWork && r.micEnabled then Active(s.micActive, s.micUntil, t) <==> t < at + 250
                else s.micActive == r.micActive && s.micUntil == r.micUntil)
            && s == r.(speakerActive := s.speakerActive, speakerUntil := s.speakerUntil, micActive := s.micActive, micUntil := s.micUntil)
  {
    TickAdds(at, 250);
    TickBeforeIsRealOrder(t, at + 250);
    hide TickBefore, Tick;
  }

  lemma TickAdds(at: nat, n: nat)
    ensures Tick(Tick(at) + n) == Tick(at + n)
  {
    assert at == Tick(at) + TICK_MODULUS * (at / TICK_MODULUS);
    ModShift(Tick(at) + n, at / TICK_MODULUS);
  }

  /** A boost is asked for from its request until its lease ends, and a request for zero ends it. */
  lemma BoostLasts(r: Requests, client: nat, mhz: nat, hold: nat, at: nat, t: nat)
    requires ValidRequests(r) && at <= t < at + 0x8000_0000 && hold <= 0x7FFF_FFFF
    ensures var (s, code) := RequestBoost(r, client, mhz, hold, Tick(at));
            && (code == 0 <==> client < 4 && (mhz == 0 || (320 <= mhz <= 400 && hold > 0)))
            && (code != 0 ==> code == -22 && s == r)
            && (code == 0 ==>
                  && BoostNow(s, Tick(t), client) == (if t < at + hold then mhz else 0)
                  && s.floors == r.floors
                  && forall i :: 0 <= i < 4 && i != client ==> s.boosts[i] == r.boosts[i] && s.untils[i] == r.untils[i])
  {
    TickAdds(at, hold);
    TickBeforeIsRealOrder(t, at + hold);
    hide TickBefore, Tick;
  }

  /** A floor holds until it is replaced; frequencies outside 320 to 400 are refused. */
  lemma FloorRequest(r: Requests, client: nat, mhz: nat)
    requires ValidRequests(r)
    ensures var (s, code) := RequestFloor(r, client, mhz);
            && (code == 0 <==> client < 4 && (mhz == 0 || 320 <= mhz <= 400))
            && s == (if code == 0 then r.(floors := r.floors[client := mhz]) else r)
            && (code != 0 ==> code == -22)
  {
  }

  /** Switching a direction off ends its activity, and touches nothing of the other. */
  lemma SwitchingOff(r: Requests, speaker: bool, mic: bool, t: nat)
    ensures var s := AudioEnabled(r, speaker, mic);
            && s.speakerEnabled == speaker && s.micEnabled == mic
            && (Active(s.speakerActive, s.speakerUntil, t) <==> speaker && Active(r.speakerActive, r.speakerUntil, t))
            && (Active(s.micActive, s.micUntil, t) <==> mic && Active(r.micActive, r.micUntil, t))
            && s.floors == r.floors && s.boosts == r.boosts && s.untils == r.untils
  {
    hide TickBefore;
  }

  // ---- one worker iteration ----

  function Wanted(d: Dvfs, now: nat): nat
    requires ValidRequests(d.req)
  {
    if d.manual then d.manualMhz else RealtimeTarget(d.req, now)
  }

  // The hardware change to `target` at tick `now` and how it ended.
  function Applied(d: Dvfs, target: nat, now: nat, ok: bool): Dvfs {
    d.(current := if ok then target else DEFAULT_MHZ, requested := target,
       lastTransition := now, pending := 0, since := 0)
  }

  function Work(d: Dvfs, now: nat, ok: bool): (Dvfs, Option<nat>)
    requires ValidRequests(d.req)
  {
    var target := Wanted(d, now);
    var e := d.(requested := target, req := if d.manual then d.req else Expire(d.req, now));
    if target > d.current || (d.manual && target != d.current) then (Applied(e, target, now, ok), Some(target))
    else if target < d.current then
      var f := if d.pending != target then e.(pending := target, since := now) else e;
      if TickDifference(now, f.since) >= DOWNSHIFT_DELAY && TickDifference(now, f.lastTransition) >= MIN_RESIDENCY
      then (Applied(f, target, now, ok), Some(target))
      else (f, None)
    else (e.(pending := 0, since := 0), None)
  }
}

/** The governor over whole runs of requests and worker iterations at arbitrary times. */
module DvfsRuns {
  import opened Basics
  import opened DvfsSteps

  datatype Event =
    | Iterate(at: nat, ok: bool)
    | AskFloor(client: nat, mhz: nat)
    | AskBoost(client: nat, mhz: nat, hold: nat, at: nat)
    | EnableAudio(speaker: bool, mic: bool)
    | NoteActivity(speaker: bool, mic: bool, at: nat)
    | ChooseProfile(profile: nat)
    | ChooseFrequency(mhz: nat, allowExperimental: bool)
    | ChooseGovernor(manual: bool)

  // One worker iteration: when, what it wanted, what was running, what it applied and whether the hardware
  // followed, and what was running afterwards.
  datatype Iteration = Iteration(at: nat, manual: bool, target: nat, before: nat, applied: Option<nat>, ok: bool, after: nat)

  // clock is real time; from is where the current run of equal downshift targets began in the log.
  datatype State = State(d: Dvfs, clock: nat, start: nat, changedAt: nat, from: nat, log: seq<Iteration>)

  function ProfileMhz(profile: nat): nat {
    if profile == 0 then 320 else if profile == 1 then 384 else if profile == 2 then 400 else 0
  }

  function TimeOf(e: Event, clock: nat): nat {
    match e
    case Iterate(at, _) => at
    case AskBoost(_, _, _, at) => at
    case NoteActivity(_, _, at) => at
    case _ => clock
  }

  ghost predicate Enabled(s: State, e: Event) {
    ValidRequests(s.d.req) && s.clock <= TimeOf(e, s.clock)
  }

  function Next(s: State, e: Event): State
    requires ValidRequests(s.d.req)
  {
    match e
    case Iterate(at, ok) =>
      var now := Tick(at);
      var (d, applied) := Work(s.d, now, ok);
      State(d, at, s.start,
            if applied.Some? then at else s.changedAt,
            if d.pending == 0 || d.pending != s.d.pending then |s.log| else s.from,
            s.log + [Iteration(at, s.d.manual, Wanted(s.d, now), s.d.current, applied, ok, d.current)])
    case AskFloor(client, mhz) => s.(d := s.d.(req := RequestFloor(s.d.req, client, mhz).0))
    case AskBoost(client, mhz, hold, at) =>
      s.(d := s.d.(req := RequestBoost(s.d.req, client, mhz, hold, Tick(at)).0), clock := at)
    case EnableAudio(speaker, mic) => s.(d := s.d.(req := AudioEnabled(s.d.req, speaker, mic)))
    case NoteActivity(speaker, mic, at) => s.(d := s.d.(req := AudioActivity(s.d.req, speaker, mic, Tick(at))), clock := at)
    case ChooseProfile(profile) =>
      if ProfileMhz(profile) == 0 then s else s.(d := s.d.(manualMhz := ProfileMhz(profile), manual := true))
    case ChooseFrequency(mhz, allowExperimental) =>
      if FrequencyValid(mhz, allowExperimental) then s.(d := s.d.(manualMhz := mhz, manual := true)) else s
    case ChooseGovernor(manual) => s.(d := s.d.(manual := manual))
  }

  // The worker starts at real time `start` with nothing requested; its start counts as the first transition.
  ghost predicate Initial(s: State) {
    && s.d.req.floors == [0, 0, 0, 0] && s.d.req.boosts == [0, 0, 0, 0] && |s.d.req.untils| == CLIENTS
    && s.d.pending == 0 && s.d.since == 0 && s.d.lastTransition == Tick(s.start)
    && FrequencyValid(s.d.current, true) && FrequencyValid(s.d.manualMhz, true)
    && s.clock == s.start == s.changedAt && s.from == 0 && s.log == []
  }

  // The pending downshift has been wanted, without interruption, by every iteration since log[from].
  ghost predicate PendingRun(s: State) {
    s.d.pending != 0 ==>
      && s.from < |s.log|
      && s.d.since == Tick(s.log[s.from].at)
      && forall k :: s.from <= k < |s.log| ==>
           s.log[k].target == s.d.pending && !s.log[k].manual && s.log[k].applied == None
  }

  ghost predicate Inv(s: State) {
    && ValidRequests(s.d.req)
    && FrequencyValid(s.d.current, true) && FrequencyValid(s.d.manualMhz, true)
    && s.d.lastTransition == Tick(s.changedAt)
    && s.start <= s.changedAt <= s.clock
    && (forall k :: 0 <= k < |s.log| ==> s.log[k].at <= s.clock && (s.log[k].applied.Some? ==> s.log[k].at <= s.changedAt))
    && PendingRun(s)
    && Continuous(s)
    && InOrder(s)
    && PendingIsStretch(s)
    && s.changedAt == ChangedBefore(s.log, s.start, |s.log|)
    && LogHolds(s.log, s.start, |s.log|)
  }

  // What is pending is the whole latest stretch of iterations that held one downshift; nothing pending, no stretch.
  ghost predicate PendingIsStretch(s: State) {
    if s.d.pending == 0 then s.log == [] || !HoldsDown(s.log[|s.log| - 1])
    else
      && s.from < |s.log|
      && (forall k :: s.from <= k < |s.log| ==> Holds(s.log[k], s.d.pending))
      && (s.from == 0 || !Holds(s.log[s.from - 1], s.d.pending))
  }

  // Only iterations change the running frequency: each begins with what the one before left.
  ghost predicate Continuous(s: State) {
    && (forall k :: 0 < k < |s.log| ==> s.log[k].before == s.log[k - 1].after)
    && (s.log != [] ==> s.log[|s.log| - 1].after == s.d.current)
  }

  ghost predicate InOrder(s: State) {
    forall k, m :: 0 <= k <= m < |s.log| ==> s.start <= s.log[k].at <= s.log[m].at
  }

  // A lower frequency under the realtime governor: wanted by every iteration of the last two seconds at least,
  // and half a second after the latest transition.
  ghost predicate DownshiftEarned(log: seq<Iteration>, start: nat, i: nat)
    requires i < |log|
  {
    && log[i].at >= start + MIN_RESIDENCY
    && (forall k :: 0 <= k < i && log[k].applied.Some? ==> log[i].at >= log[k].at + MIN_RESIDENCY)
    && exists j :: WantedThroughout(log, j, i)
  }

  ghost predicate WantedThroughout(log: seq<Iteration>, j: nat, i: nat)
    requires i < |log|
  {
    && j <= i && log[i].at >= log[j].at + DOWNSHIFT_DELAY
    && forall k :: j <= k <= i ==> log[k].target == log[i].target && !log[k].manual && (k < i ==> log[k].applied == None)
  }

  // When the frequency was last changed before iteration i, or the worker started.
  function ChangedBefore(log: seq<Iteration>, start: nat, i: nat): nat
    requires i <= |log|
  {
    if i == 0 then start else if log[i - 1].applied.Some? then log[i - 1].at else ChangedBefore(log, start, i - 1)
  }

  // An iteration that wanted to go down under the realtime governor and did not yet.
  predicate HoldsDown(x: Iteration) {
    !x.manual && x.target < x.before && x.applied == None
  }

  predicate Holds(x: Iteration, target: nat) {
    HoldsDown(x) && x.target == target
  }

  // Iterations j to i - 1 are the longest stretch before i that held the downshift to i's target.
  ghost predicate HeldFrom(log: seq<Iteration>, j: nat, i: nat)
    requires i < |log|
  {
    && j <= i && (forall k :: j <= k < i ==> Holds(log[k], log[i].target))
    && (j == 0 || !Holds(log[j - 1], log[i].target))
  }

  // A lower target under the realtime governor is applied exactly when it has been held for 2000 ms and 500 ms
  // passed since the last change, both measured on the wrapping tick counter.
  ghost predicate DownshiftDecided(log: seq<Iteration>, start: nat, i: nat)
    requires i < |log|
  {
    !log[i].manual && log[i].target < log[i].before ==> forall j: nat :: HeldFrom(log, j, i) ==>
      (log[i].applied.Some? <==>
         && TickDifference(Tick(log[i].at), Tick(log[j].at)) >= DOWNSHIFT_DELAY
         && TickDifference(Tick(log[i].at), Tick(ChangedBefore(log, start, i))) >= MIN_RESIDENCY)
  }

  ghost predicate Justified(log: seq<Iteration>, start: nat, i: nat)
    requires i < |log|
  {
    var x := log[i];
    && (!x.manual ==> DEFAULT_MHZ <= x.target <= VALIDATED_MAX_MHZ)
    && (x.applied.Some? ==> x.applied.value == x.target != x.before)
    && (x.target > x.before ==> x.applied == Some(x.target))
    && x.after == (if x.applied.None? then x.before else if x.ok then x.target else DEFAULT_MHZ)
    && (x.manual ==> (x.applied.Some? <==> x.target != x.before))
    && (x.applied.Some? && x.target < x.before && !x.manual ==> DownshiftEarned(log, start, i))
  }

  ghost predicate LogHolds(log: seq<Iteration>, start: nat, n: nat)
    requires n <= |log|
  {
    forall k :: 0 <= k < n ==> Justified(log, start, k) && DownshiftDecided(log, start, k)
  }

  lemma InitialInv(s: State)
    requires Initial(s)
    ensures Inv(s)
  {
  }

  lemma JustifiedExtends(log: seq<Iteration>, x: Iteration, start: nat, i: nat)
    requires i < |log| && Justified(log, start, i)
    ensures Justified(log + [x], start, i)
  {
    var longer := log + [x];
    if longer[i].applied.Some? && longer[i].target < longer[i].before && !longer[i].manual {
      var j :| WantedThroughout(log, j, i);
      assert forall k :: 0 <= k <= i ==> longer[k] == log[k];
      assert WantedThroughout(longer, j, i);
    }
  }

  lemma {:induction false} ChangedExtends(log: seq<Iteration>, x: Iteration, start: nat, i: nat)
    requires i <= |log|
    ensures ChangedBefore(log + [x], start, i) == ChangedBefore(log, start, i)
  {
    if i > 0 { ChangedExtends(log, x, start, i - 1); }
  }

  lemma DecidedExtends(log: seq<Iteration>, x: Iteration, start: nat, i: nat)
    requires i < |log| && DownshiftDecided(log, start, i)
    ensures DownshiftDecided(log + [x], start, i)
  {
    hide Holds, ChangedBefore, TickDifference, Tick;
    ChangedExtends(log, x, start, i);
    var longer := log + [x];
    assert forall k :: 0 <= k <= i ==> longer[k] == log[k];
    forall j: nat | HeldFrom(longer, j, i)
      ensures HeldFrom(log, j, i)
    {
    }
  }

  // The stretch that ends with a new iteration begins where the pending downshift began, or with the iteration itself.
  lemma StretchBegins(s: State, x: Iteration, j: nat)
    requires PendingIsStretch(s) && HeldFrom(s.log + [x], j, |s.log|)
    ensures j == if s.d.pending == x.target && x.target != 0 then s.from else |s.log|
  {
    hide HoldsDown;
    var longer := s.log + [x];
    var i := |s.log|;
    assert forall k :: 0 <= k < i ==> longer[k] == s.log[k];
    assert j < i ==> Holds(longer[i - 1], x.target);
    if s.d.pending == x.target && x.target != 0 {
      assert forall k :: s.from <= k < i ==> Holds(longer[k], x.target);
    }
  }

  lemma IterateDecided(s: State, at: nat, ok: bool)
    requires Inv(s) && Enabled(s, Iterate(at, ok))
    ensures var t := Next(s, Iterate(at, ok));
            DownshiftDecided(t.log, s.start, |s.log|)
  {
    hide RealtimeTarget, Tick, TickDifference, Expire, Justified, DownshiftDecided, Holds, ChangedBefore;
    var t := Next(s, Iterate(at, ok));
    var i := |s.log|;
    var x := t.log[i];
    ChangedExtends(s.log, x, s.start, i);
    SelfDifference(at);
    if !x.manual && x.target < x.before {
      forall j: nat | HeldFrom(t.log, j, i)
        ensures x.applied.Some? <==>
                  && TickDifference(Tick(x.at), Tick(t.log[j].at)) >= DOWNSHIFT_DELAY
                  && TickDifference(Tick(x.at), Tick(ChangedBefore(t.log, s.start, i))) >= MIN_RESIDENCY
      {
        assert x.target >= DEFAULT_MHZ;
        StretchBegins(s, x, j);
        if s.d.pending == x.target { assert s.d.since == Tick(s.log[s.from].at); }
      }
    }
    assert DownshiftDecided(t.log, s.start, i) by { DecidedByCases(t.log, s.start, i); }
  }

  lemma DecidedByCases(log: seq<Iteration>, start: nat, i: nat)
    requires i < |log|
    requires !log[i].manual && log[i].target < log[i].before ==> forall j: nat | HeldFrom(log, j, i) ::
               (log[i].applied.Some? <==>
                  && TickDifference(Tick(log[i].at), Tick(log[j].at)) >= DOWNSHIFT_DELAY
                  && TickDifference(Tick(log[i].at), Tick(ChangedBefore(log, start, i))) >= MIN_RESIDENCY)
    ensures DownshiftDecided(log, start, i)
  {
    hide HeldFrom, TickDifference, Tick, ChangedBefore;
  }

  lemma IterateKeepsStretch(s: State, at: nat, ok: bool)
    requires Inv(s) && Enabled(s, Iterate(at, ok))
    ensures var t := Next(s, Iterate(at, ok));
            PendingIsStretch(t) && t.changedAt == ChangedBefore(t.log, t.start, |t.log|)
  {
    hide RealtimeTarget, Tick, TickDifference, Expire, Justified, DownshiftDecided, PendingRun;
    var t := Next(s, Iterate(at, ok));
    ChangedExtends(s.log, t.log[|s.log|], s.start, |s.log|);
  }

  lemma RequestsTouchRequests(s: State, e: Event)
    requires Inv(s) && Enabled(s, e) && !e.Iterate?
    ensures var t := Next(s, e);
            && ValidRequests(t.d.req) && FrequencyValid(t.d.manualMhz, true) && s.clock <= t.clock
            && t == s.(clock := t.clock, d := s.d.(manual := t.d.manual, manualMhz := t.d.manualMhz, req := t.d.req))
  {
    hide LogHolds, Tick, PendingRun, PendingIsStretch, Continuous, InOrder, ChangedBefore;
  }

  lemma RequestsKeepInv(s: State, e: Event)
    requires Inv(s) && Enabled(s, e) && !e.Iterate?
    ensures Inv(Next(s, e))
  {
    RequestsTouchRequests(s, e);
    hide LogHolds, Tick, HoldsDown, ChangedBefore, Next, ValidRequests, FrequencyValid;
  }

  lemma IterateJustified(s: State, at: nat, ok: bool)
    requires Inv(s) && Enabled(s, Iterate(at, ok))
    ensures var t := Next(s, Iterate(at, ok));
            Justified(t.log, s.start, |s.log|)
  {
    hide RealtimeTarget, Tick, TickDifference, Expire, DownshiftDecided, PendingIsStretch, ChangedBefore;
    var t := Next(s, Iterate(at, ok));
    var i := |s.log|;
    var x := t.log[i];
    assert forall k :: 0 <= k < i ==> t.log[k] == s.log[k];
    if x.applied.Some? && x.target < x.before && !x.manual {
      SelfDifference(at);
      assert s.d.pending == x.target;
      WrappedDifferenceIsElapsed(at, s.log[s.from].at);
      WrappedDifferenceIsElapsed(at, s.changedAt);
      assert WantedThroughout(t.log, s.from, i);
    }
  }

  lemma SelfDifference(at: nat)
    ensures TickDifference(Tick(at), Tick(at)) == 0
  {
  }

  lemma IterateKeepsRest(s: State, at: nat, ok: bool)
    requires Inv(s) && Enabled(s, Iterate(at, ok))
    ensures var t := Next(s, Iterate(at, ok));
            && ValidRequests(t.d.req)
            && FrequencyValid(t.d.current, true) && FrequencyValid(t.d.manualMhz, true)
            && t.d.lastTransition == Tick(t.changedAt)
            && t.start <= t.changedAt <= t.clock
            && (forall k :: 0 <= k < |t.log| ==> t.log[k].at <= t.clock && (t.log[k].applied.Some? ==> t.log[k].at <= t.changedAt))
            && PendingRun(t) && Continuous(t) && InOrder(t)
  {
    hide RealtimeTarget, Tick, TickDifference, Expire, Justified, DownshiftDecided, PendingIsStretch, ChangedBefore;
  }

  lemma LogExtends(log: seq<Iteration>, x: Iteration, start: nat)
    requires LogHolds(log, start, |log|)
    ensures LogHolds(log + [x], start, |log|)
  {
    hide Justified, DownshiftDecided;
    forall k | 0 <= k < |log|
      ensures Justified(log + [x], start, k) && DownshiftDecided(log + [x], start, k)
    {
      JustifiedExtends(log, x, start, k);
      DecidedExtends(log, x, start, k);
    }
  }

  lemma IterateAppends(s: State, at: nat, ok: bool)
    requires ValidRequests(s.d.req)
    ensures var t := Next(s, Iterate(at, ok));
            t.start == s.start && |t.log| == |s.log| + 1 && t.log == s.log + [t.log[|s.log|]]
  {
    hide Work, Wanted, Tick;
  }

  lemma IterateKeepsLog(s: State, at: nat, ok: bool)
    requires Inv(s) && Enabled(s, Iterate(at, ok))
    ensures var t := Next(s, Iterate(at, ok));
            LogHolds(t.log, t.start, |t.log|)
  {
    IterateJustified(s, at, ok);
    IterateDecided(s, at, ok);
    IterateAppends(s, at, ok);
    hide Next, Tick, Justified, DownshiftDecided, PendingRun, PendingIsStretch, Continuous, InOrder, ChangedBefore, FrequencyValid;
    LogExtends(s.log, Next(s, Iterate(at, ok)).log[|s.log|], s.start);
  }

  lemma NextKeepsInv(s: State, e: Event)
    requires Inv(s) && Enabled(s, e)
    ensures Inv(Next(s, e))
  {
    if e.Iterate? {
      IterateKeepsRest(s, e.at, e.ok);
      IterateKeepsStretch(s, e.at, e.ok);
      IterateKeepsLog(s, e.at, e.ok);
      hide Next, Tick, Justified, DownshiftDecided, PendingRun, PendingIsStretch, Continuous, InOrder, ChangedBefore, FrequencyValid;
    } else {
      RequestsKeepInv(s, e);
    }
  }

  ghost predicate Run(states: seq<State>, events: seq<Event>) {
    && |states| == |events| + 1 && Initial(states[0])
    && forall i :: 0 <= i < |events| ==> Enabled(states[i], events[i]) && states[i + 1] == Next(states[i], events[i])
  }

  lemma {:induction false} RunKeepsInv(states: seq<State>, events: seq<Event>, n: nat)
    requires Run(states, events) && n < |states|
    ensures Inv(states[n])
  {
    hide Inv, Initial, Enabled, Next;
    if n == 0 {
      InitialInv(states[0]);
    } else {
      RunKeepsInv(states, events, n - 1);
      NextKeepsInv(states[n - 1], events[n - 1]);
    }
  }

  /** Under the realtime governor every downshift of every run has been earned. */
  lemma DownshiftsAreEarned(states: seq<State>, events: seq<Event>, n: nat, i: nat)
    requires Run(states, events) && n < |states| && i < |states[n].log|
    requires var x := states[n].log[i]; !x.manual && x.applied.Some? && x.applied.value < x.before
    ensures DownshiftEarned(states[n].log, states[n].start, i)
  {
    hide Run, DownshiftEarned;
    RunKeepsInv(states, events, n);
    assert Justified(states[n].log, states[n].start, i);
  }

  // Elapsed time as the tick counter shows it, which is real elapsed time until the counter wraps.
  function Elapsed(later: nat, earlier: nat): nat
    requires earlier <= later
  {
    (later - earlier) % 0x1_0000_0000
  }

  /**
   Under the realtime governor an iteration that finds a lower target applies it exactly when the iterations before
   it have held that downshift for 2000 ms and the frequency has not changed for 500 ms, both as the counter shows.
   */
  lemma DownshiftsExactly(states: seq<State>, events: seq<Event>, n: nat, i: nat)
    requires Run(states, events) && n < |states| && i < |states[n].log|
    requires var x := states[n].log[i]; !x.manual && x.target < x.before
    ensures var log, start := states[n].log, states[n].start;
            && ChangedBefore(log, start, i) <= log[i].at
            && exists j: nat :: HeldFrom(log, j, i) && log[j].at <= log[i].at
                 && (log[i].applied == Some(log[i].target) <==>
                       Elapsed(log[i].at, log[j].at) >= 2000 && Elapsed(log[i].at, ChangedBefore(log, start, i)) >= 500)
  {
    hide Run, HeldFrom, ChangedBefore, TickDifference, Tick, DownshiftEarned;
    RunKeepsInv(states, events, n);
    var s := states[n];
    ChangedIsEarlier(s, i);
    var j := HeldSince(s.log, i, i);
    assert DownshiftDecided(s.log, s.start, i) && Justified(s.log, s.start, i);
    assert HeldFrom(s.log, j, i) && s.log[j].at <= s.log[i].at;
    WrappedDifference(s.log[i].at, s.log[j].at);
    WrappedDifference(s.log[i].at, ChangedBefore(s.log, s.start, i));
  }

  lemma {:induction false} ChangedIsEarlier(s: State, i: nat)
    requires InOrder(s) && i < |s.log|
    ensures ChangedBefore(s.log, s.start, i) <= s.log[i].at
  {
    if i > 0 { ChangedIsEarlier(s, i - 1); }
  }

  lemma {:induction false} HeldSince(log: seq<Iteration>, k: nat, i: nat) returns (j: nat)
    requires k <= i < |log|
    requires forall m :: k <= m < i ==> Holds(log[m], log[i].target)
    ensures HeldFrom(log, j, i) && j <= i
  {
    hide Holds;
    if k == 0 || !Holds(log[k - 1], log[i].target) { j := k; } else { j := HeldSince(log, k - 1, i); }
  }

  /** A higher target is applied by the iteration that first sees it; nothing is applied but the target itself. */
  lemma UpshiftsAreImmediate(states: seq<State>, events: seq<Event>, n: nat, i: nat)
    requires Run(states, events) && n < |states| && i < |states[n].log|
    ensures var x := states[n].log[i];
            && (x.target > x.before ==> x.applied == Some(x.target))
            && (x.applied.Some? ==> x.applied.value == x.target != x.before)
            && (!x.manual ==> DEFAULT_MHZ <= x.target <= VALIDATED_MAX_MHZ)
  {
    hide Run, DownshiftEarned;
    RunKeepsInv(states, events, n);
    assert Justified(states[n].log, states[n].start, i);
  }

  /**
   Under the manual governor one iteration makes the chosen frequency run, or 320 MHz when the change it took failed;
   when the chosen frequency runs already nothing is asked of the hardware.
   */
  lemma ManualIsImmediate(s: State, at: nat, ok: bool)
    requires Inv(s) && Enabled(s, Iterate(at, ok)) && s.d.manual
    ensures var t := Next(s, Iterate(at, ok));
            && |t.log| == |s.log| + 1
            && t.log[|s.log|].applied == (if s.d.manualMhz == s.d.current then None else Some(s.d.manualMhz))
            && t.d.current == (if ok || s.d.manualMhz == s.d.current then s.d.manualMhz else 320)
            && t.d.req == s.d.req && t.d.manual && t.d.manualMhz == s.d.manualMhz
  {
    hide Tick, LogHolds, TickDifference, FrequencyValid, ValidRequests;
  }

  /** The three profiles choose 320, 384 and 400 MHz; a single frequency is accepted up to 400 MHz, experimentally up to 480. */
  lemma ManualChoices(s: State, profile: nat, mhz: nat, experimental: bool)
    requires ValidRequests(s.d.req)
    ensures Next(s, ChooseProfile(profile)) ==
            if profile < 3 then s.(d := s.d.(manual := true, manualMhz := [320, 384, 400][profile])) else s
    ensures Next(s, ChooseFrequency(mhz, experimental)) ==
            if 320 <= mhz <= 400 || (experimental && 320 <= mhz <= 480) then s.(d := s.d.(manual := true, manualMhz := mhz)) else s
  {
  }

  /**
   What runs. Requests never change the running frequency: each iteration begins with what the one before left,
   and leaves it alone, or leaves the target it applied, or 320 MHz after a failed change.
   */
  lemma RunningFollowsApplied(states: seq<State>, events: seq<Event>, n: nat, i: nat)
    requires Run(states, events) && n < |states| && i < |states[n].log|
    ensures var log := states[n].log;
            && log[i].after == (if log[i].applied.None? then log[i].before else if log[i].ok then log[i].target else DEFAULT_MHZ)
            && log[i].before == (if i == 0 then states[0].d.current else log[i - 1].after)
            && states[n].d.current == log[|log| - 1].after
  {
    hide Run, DownshiftEarned;
    RunKeepsInv(states, events, n);
    assert Justified(states[n].log, states[n].start, i);
    if i == 0 { FirstBefore(states, events, n); }
  }

  lemma {:induction false} FirstBefore(states: seq<State>, events: seq<Event>, n: nat)
    requires Run(states, events) && n < |states|
    ensures if states[n].log == [] then states[n].d.current == states[0].d.current
            else states[n].log[0].before == states[0].d.current
  {
    hide Work, Wanted;
    if n > 0 { FirstBefore(states, events, n - 1); }
  }

  /**
   Under the realtime governor the running frequency falls in an iteration exactly when that iteration applied a
   lower target and the hardware followed, which was earned, or a change failed above 320 MHz, which nothing has
   to earn.
   */
  lemma RunningFallsExactly(states: seq<State>, events: seq<Event>, n: nat, i: nat)
    requires Run(states, events) && n < |states| && i < |states[n].log| && !states[n].log[i].manual
    ensures var log := states[n].log;
            var x := log[i];
            && (x.after < x.before <==>
                  x.applied.Some? && if x.ok then x.target < x.before else DEFAULT_MHZ < x.before)
            && (x.after < x.before && x.ok ==> DownshiftEarned(log, states[n].start, i))
            && (x.after < x.before && !x.ok ==> x.after == DEFAULT_MHZ)
  {
    hide Run, DownshiftEarned;
    RunKeepsInv(states, events, n);
    assert Justified(states[n].log, states[n].start, i);
  }

  // The only iteration of a run wanted 400 MHz, found 384 running and left 320, which nothing had earned.
  ghost predicate FailsUpwards(states: seq<State>, events: seq<Event>) {
    && Run(states, events)
    && var log := states[|events|].log;
       && |log| == 1 && !log[0].manual
       && log[0].target == 400 && log[0].before == 384 && log[0].after == DEFAULT_MHZ
       && !DownshiftEarned(log, states[|events|].start, 0)
  }

  /** A failed upshift is such an unearned fall. */
  lemma FailedUpshiftFalls()
    ensures exists states: seq<State>, events: seq<Event> :: FailsUpwards(states, events)
  {
    var req := Requests([0, 0, 0, 0], [0, 0, 0, 0], [0, 0, 0, 0], false, false, false, false, 0, 0);
    var s0 := State(Dvfs(false, DEFAULT_MHZ, 384, DEFAULT_MHZ, req, 0, 0, 0), 0, 0, 0, 0, []);
    var ask, work := AskFloor(0, 400), Iterate(0, false);
    var s1 := Next(s0, ask);
    AskedFor400(s1.d.req);
    hide RealtimeTarget, Expire;
    var s2 := Next(s1, work);
    assert s2.log == [Iteration(0, false, 400, 384, Some(400), false, DEFAULT_MHZ)];
    assert FailsUpwards([s0, s1, s2], [ask, work]);
  }

  lemma AskedFor400(r: Requests)
    requires ValidRequests(r) && r.floors == [400, 0, 0, 0] && r.boosts == [0, 0, 0, 0]
    requires !r.speakerActive && !r.micActive
    ensures RealtimeTarget(r, Tick(0)) == 400
  {
    hide Tick, TickBefore;
    assert ClientTarget(r, Tick(0), 1) == 400;
    assert ClientTarget(r, Tick(0), 2) == 400;
    assert ClientTarget(r, Tick(0), 3) == 400;
  }

  /** The running frequency never leaves the range any request may ask for. */
  lemma FrequencyStaysValid(states: seq<State>, events: seq<Event>, n: nat)
    requires Run(states, events) && n < |states|
    ensures FrequencyValid(states[n].d.current, true) && ValidRequests(states[n].d.req)
  {
    hide Run, FrequencyValid, ValidRequests;
    RunKeepsInv(states, events, n);
  }
}
