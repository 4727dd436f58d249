/** The governor's fields and worker as the mutable object the clients and the worker share. */
module DvfsGovernor {
  import opened Basics
  import opened DvfsSteps

  class Governor {
    var manual: bool
    var manualMhz: nat
    var current: nat
    var requested: nat
    const floors: array<nat>
    const boosts: array<nat>
    const untils: array<nat>
    var speakerEnabled: bool
    var micEnabled: bool
    var speakerActive: bool
    var micActive: bool
    var speakerUntil: nat
    var micUntil: nat
    var pending: nat
    var since: nat
    var lastTransition: nat
    var transitions: nat
    var failures: nat

    ghost predicate Valid()
      reads this, floors, boosts, untils
    {
      && floors != boosts && floors != untils && boosts != untils
      && ValidRequests(Asked())
    }

    ghost function Asked(): Requests
      reads this, floors, boosts, untils
    {
      Requests(floors[..], boosts[..], untils[..], speakerEnabled, micEnabled, speakerActive, micActive, speakerUntil, micUntil)
    }

    ghost function Model(): Dvfs
      reads this, floors, boosts, untils
    {
      Dvfs(manual, manualMhz, current, requested, Asked(), pending, since, lastTransition)
    }

    constructor (mhz: nat, now: nat)
      ensures Valid() && fresh(floors) && fresh(boosts) && fresh(untils)
      ensures Model() == Dvfs(true, mhz, mhz, mhz, Requests([0, 0, 0, 0], [0, 0, 0, 0], [0, 0, 0, 0],
                                                            false, false, false, false, 0, 0), 0, 0, now)
    {
      manual, manualMhz, current, requested := true, mhz, mhz, mhz;
      floors := new nat[CLIENTS](_ => 0);
      boosts := new nat[CLIENTS](_ => 0);
      untils := new nat[CLIENTS](_ => 0);
      speakerEnabled, micEnabled, speakerActive, micActive, speakerUntil, micUntil := false, false, false, false, 0, 0;
      pending, since, lastTransition, transitions, failures := 0, 0, now, 0, 0;
    }

    method AskFloor(client: nat, mhz: nat) returns (code: int)
      requires Valid()
      modifies floors
      ensures Valid() && (Asked(), code) == RequestFloor(old(Asked()), client, mhz)
    {
      if client >= CLIENTS {
        return EINVAL;
      }
      if mhz != 0 && !FrequencyValid(mhz, false) {
        return EINVAL;
      }
      floors[client] := mhz;
      assert floors[..] == old(floors[..])[client := mhz];
      code := 0;
    }

    method AskBoost(client: nat, mhz: nat, hold: nat, now: nat) returns (code: int)
      requires Valid()
      modifies boosts, untils
      ensures Valid() && (Asked(), code) == RequestBoost(old(Asked()), client, mhz, hold, now)
    {
      if client >= CLIENTS {
        return EINVAL;
      }
      if mhz != 0 && !FrequencyValid(mhz, false) {
        return EINVAL;
      }
      if mhz != 0 && hold == 0 {
        return EINVAL;
      }
      boosts[client] := mhz;
      untils[client] := if mhz == 0 then now else Tick(now + hold);
      assert boosts[..] == old(boosts[..])[client := mhz];
      assert untils[..] == old(untils[..])[client := untils[client]];
      code := 0;
    }

    method SetAudioEnabled(speaker: bool, mic: bool)
      requires Valid()
      modifies this
      ensures Valid() && Asked() == AudioEnabled(old(Asked()), speaker, mic)
      ensures Model() == old(Model()).(req := Asked())
    {
      speakerEnabled, micEnabled := speaker, mic;
      if !speaker && speakerActive {
        speakerActive, speakerUntil := false, 0;
      }
      if !mic && micActive {
        micActive, micUntil := false, 0;
      }
    }

    method NoteAudioActivity(speakerWork: bool, micWork: bool, now: nat)
      requires Valid()
      modifies this
      ensures Valid() && Asked() == AudioActivity(old(Asked()), speakerWork, micWork, now)
      ensures Model() == old(Model()).(req := Asked())
    {
      var speaker := speakerWork && speakerEnabled;
      var mic := micWork && micEnabled;
      if !speaker && !mic {
        return;
      }
      if speaker {
        speakerActive, speakerUntil := true, Tick(now + AUDIO_HOLD);
      }
      if mic {
        micActive, micUntil := true, Tick(now + AUDIO_HOLD);
      }
    }

    method AudioActivityFloor(now: nat) returns (mhz: nat)
      requires Valid()
      ensures mhz == AudioFloor(Asked(), now)
    {
      var speaker := speakerActive && TickBefore(now, speakerUntil);
      var mic := micActive && TickBefore(now, micUntil);
      if speaker && mic {
        return 400;
      }
      if speaker || mic {
        return 384;
      }
      mhz := 0;
    }

    // dvfs_realtime_floor: the client loop drops expired boosts on its way.
    method RealtimeFloor(now: nat) returns (target: nat)
      requires Valid()
      modifies boosts
      ensures Valid() && target == RealtimeTarget(old(Asked()), now)
      ensures Asked() == Expire(old(Asked()), now)
    {
      hide TickBefore;
      ghost var r := Asked();
      target := DEFAULT_MHZ;
      for i := 0 to CLIENTS
        invariant target == ClientTarget(r, now, i)
        invariant forall k :: 0 <= k < CLIENTS ==> boosts[k] == if k < i then BoostNow(r, now, k) else r.boosts[k]
      {
        if floors[i] > target {
          target := floors[i];
        }
        if boosts[i] != 0 && TickBefore(now, untils[i]) {
          if boosts[i] > target {
            target := boosts[i];
          }
        } else if boosts[i] != 0 {
          boosts[i] := 0;
        }
      }
      assert boosts[..] == Expire(r, now).boosts;
      var audio := AudioActivityFloor(now);
      if audio > target {
        target := audio;
      }
    }

    method ApplyFrequency(target: nat, now: nat, ok: bool)
      requires Valid()
      modifies this
      ensures Valid() && Model() == Applied(old(Model()), target, now, ok)
      ensures transitions + failures == old(transitions + failures) + 1
    {
      requested := target;
      if ok {
        current := target;
        transitions := transitions + 1;
      } else {
        current := DEFAULT_MHZ;
        failures := failures + 1;
      }
      lastTransition := now;
      pending := 0;
      since := 0;
    }

    // One iteration of the worker loop; `ok` is the outcome of the hardware change, if one is made.
    method WorkerIteration(now: nat, ok: bool) returns (applied: Option<nat>)
      requires Valid()
      modifies this, boosts
      ensures Valid() && (Model(), applied) == Work(old(Model()), now, ok)
    {
      hide RealtimeTarget, Expire, TickDifference;
      var target: nat;
      if manual {
        target := manualMhz;
      } else {
        target := RealtimeFloor(now);
      }
      requested := target;
      if target > current || (manual && target != current) {
        ApplyFrequency(target, now, ok);
        return Some(target);
      } else if target < current {
        if pending != target {
          pending := target;
          since := now;
        }
        if TickDifference(now, since) >= DOWNSHIFT_DELAY && TickDifference(now, lastTransition) >= MIN_RESIDENCY {
          ApplyFrequency(target, now, ok);
          return Some(target);
        }
      } else {
        pending := 0;
        since := 0;
      }
      applied := None;
    }
  }
}
