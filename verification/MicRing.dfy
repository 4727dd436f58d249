/** The ring as the arrays and cursors the driver keeps, proved against the step functions of MicSteps. */
module MicRing {
  import opened Basics
  import opened MicSteps

  /** n unlocked writes of a push in a row. */
  function FillMany(r: Ring, p: Producer, n: nat): (f: (Ring, Producer))
    requires Shaped(r) && p.Pushing? && p.offset <= |p.mono| && p.selected < DEPTH && p.word + n <= WORDS
    ensures Shaped(f.0) && f.1 == p.(word := p.word + n)
    decreases n
  {
    if n == 0 then (r, p)
    else var (s, q) := FillMany(r, p, n - 1); FillWord(s, q)
  }

  lemma PublishKeepsShape(r: Ring, p: Producer)
    requires Shaped(r) && p.Pushing? && p.offset < |p.mono| && p.selected < DEPTH
    ensures var (s, q) := Publish(r, p);
            && Shaped(s)
            && (q.Pushing? ==> q.mono == p.mono && p.offset < q.offset < |q.mono| && q.selected < DEPTH && q.word == 0)
  {
  }

  /** A push that nothing interrupts: fill, publish, and on to the next packet while one is free. */
  function PushRest(r: Ring, p: Producer): Ring
    requires Shaped(r)
    requires p.Pushing? ==> p.offset < |p.mono| && p.selected < DEPTH && p.word == 0
    decreases if p.Pushing? then |p.mono| - p.offset else 0
  {
    if p.Resting? then r
    else
      var (s, q) := FillMany(r, p, WORDS);
      PublishKeepsShape(s, q);
      var (t, next) := Publish(s, q);
      PushRest(t, next)
  }

  function PushAll(r: Ring, mono: seq<int>): Ring
    requires Shaped(r)
  {
    var (s, p) := ClaimFirst(r, mono);
    PushRest(s, p)
  }

  class MicPacketRing {
    const packets: array<Packet>
    var producer: nat
    var consumer: nat
    var active: nat
    var count: nat
    var busy: bool

    ghost function Model(): Ring
      reads this, packets
    {
      Ring(packets[..], producer, consumer, active, count, busy)
    }

    ghost predicate Valid()
      reads this, packets
    {
      Shaped(Model())
    }

    constructor ()
      ensures Valid() && fresh(packets)
      ensures producer == consumer == count == 0 && active == INVALID && !busy
      ensures forall i :: 0 <= i < packets.Length ==> packets[i].state == FreePacket
    {
      var silence := new nat[WORDS](_ => 0);
      var blank := Packet(FreePacket, false, silence[..]);
      packets := new Packet[DEPTH](_ => blank);
      producer, consumer, active, count, busy := 0, 0, INVALID, 0, false;
    }

    method PushMicPcm(mono: seq<int>)
      requires Valid()
      modifies this`producer, this`count, packets
      ensures Valid() && Model() == PushAll(old(Model()), mono)
    {
      hide FillMany, Audible, Publish;
      ghost var task := ClaimFirst(Model(), mono).1;
      if mono == [] || packets[producer].state != FreePacket {
        return;
      }
      var selected: nat := producer;
      packets[selected] := packets[selected].(state := FillingPacket);
      assert packets[..] == old(packets[..])[selected := packets[selected]];
      var offset: nat := 0;
      var going := true;
      while going
        invariant Valid()
        invariant consumer == old(consumer) && active == old(active) && busy == old(busy)
        invariant going ==> offset < |mono| && selected < DEPTH && task == Pushing(mono, offset, selected, 0)
        invariant !going ==> task == Resting
        invariant PushRest(Model(), task) == PushAll(old(Model()), mono)
        decreases if going then |mono| - offset + 1 else 0
      {
        ghost var before := Model();
        FillPacket(mono, offset, selected);
        PublishKeepsShape(Model(), task.(word := WORDS));
        ghost var (t, next) := Publish(Model(), task.(word := WORDS));
        going, offset, selected := PublishPacket(mono, offset, selected);
        task := next;
      }
    }

    // The copy loop of one packet, 48 words with silence after the last sample.
    method FillPacket(mono: seq<int>, offset: nat, selected: nat)
      requires Valid() && offset < |mono| && selected < DEPTH
      modifies packets
      ensures Valid()
      ensures (Model(), Pushing(mono, offset, selected, WORDS)) ==
                FillMany(old(Model()), Pushing(mono, offset, selected, 0), WORDS)
    {
      var n := Fits(mono, offset);
      for i := 0 to WORDS
        invariant Valid()
        invariant (Model(), Pushing(mono, offset, selected, i)) ==
                    FillMany(old(Model()), Pushing(mono, offset, selected, 0), i)
      {
        ghost var before := packets[..];
        var word := if i < n then StereoWord(mono[offset + i]) else 0;
        packets[selected] := packets[selected].(words := packets[selected].words[i := word]);
        assert packets[..] == before[selected := packets[selected]];
      }
    }

    method HasSound(mono: seq<int>, offset: nat) returns (sound: bool)
      requires offset <= |mono|
      ensures sound == Audible(mono, offset)
    {
      sound := false;
      for i := offset to offset + Fits(mono, offset)
        invariant sound == exists j :: offset <= j < i && mono[j] != 0
      {
        if mono[i] != 0 {
          sound := true;
        }
      }
    }

    method PublishPacket(mono: seq<int>, offset: nat, selected: nat) returns (going: bool, offset': nat, selected': nat)
      requires Valid() && offset < |mono| && selected < DEPTH
      modifies this`producer, this`count, packets
      ensures Valid()
      ensures (Model(), if going then Pushing(mono, offset', selected', 0) else Resting) ==
                Publish(old(Model()), Pushing(mono, offset, selected, WORDS))
    {
      offset', selected' := offset, selected;
      if packets[selected].state != FillingPacket {
        return false, offset, selected;
      }
      var sound := HasSound(mono, offset);
      packets[selected] := packets[selected].(nonzero := sound, state := ReadyPacket);
      assert packets[..] == old(packets[..])[selected := packets[selected]];
      producer := (selected + 1) % DEPTH;
      count := count + 1;
      offset' := offset + Fits(mono, offset);
      going := offset' < |mono|;
      if going {
        var next := producer;
        if packets[next].state != FreePacket {
          return false, offset', selected;
        }
        ghost var before := packets[..];
        packets[next] := packets[next].(state := FillingPacket);
        assert packets[..] == before[next := packets[next]];
        selected' := next;
      }
    }

    // prepare_audio_in_locked: None when no transfer is wanted, else the selected packet or INVALID for silence.
    method PrepareAudioIn(usable: bool) returns (selected: Option<nat>)
      requires Valid()
      modifies this`active, this`busy, packets
      ensures Valid() && (Model(), selected) == Prepare(old(Model()), usable)
    {
      if !usable || busy {
        return None;
      }
      var chosen := consumer;
      if packets[chosen].state != ReadyPacket {
        chosen := INVALID;
      }
      if chosen != INVALID {
        packets[chosen] := packets[chosen].(state := DmaActive);
        assert packets[..] == old(packets[..])[chosen := packets[chosen]];
        active := chosen;
      } else {
        active := INVALID;
      }
      busy := true;
      selected := Some(chosen);
    }

    method StartAudioIn(usable: bool, accepted: bool)
      requires Valid()
      modifies this`active, this`busy, packets
      ensures Valid() && Model() == StartAttempt(old(Model()), usable, accepted)
    {
      var selected := PrepareAudioIn(usable);
      if selected.Some? && !accepted {
        var chosen := selected.value;
        ghost var before := packets[..];
        if chosen != INVALID && packets[chosen].state == DmaActive {
          packets[chosen] := packets[chosen].(state := ReadyPacket);
          assert packets[..] == before[chosen := packets[chosen]];
        }
        active := INVALID;
        busy := false;
      }
    }

    method CompletionCallback(usable: bool, accepted: bool)
      requires Valid()
      modifies this`active, this`busy, this`consumer, this`count, packets
      ensures Valid() && Model() == Completion(old(Model()), usable, accepted)
    {
      var selected := active;
      active := INVALID;
      if selected < DEPTH && packets[selected].state == DmaActive {
        packets[selected] := packets[selected].(state := FreePacket, nonzero := false);
        assert packets[..] == old(packets[..])[selected := packets[selected]];
        consumer := (selected + 1) % DEPTH;
        if count > 0 {
          count := count - 1;
        }
      }
      busy := false;
      assert Model() == Release(old(Model()));
      StartAudioIn(usable, accepted);
    }

    method FlushMicQueues(clearBusy: bool)
      requires Valid()
      modifies this, packets
      ensures Valid() && Model() == Flush(old(Model()), clearBusy)
    {
      producer, consumer, active, count := 0, 0, INVALID, 0;
      busy := busy && !clearBusy;
      for i := 0 to DEPTH
        invariant producer == consumer == count == 0 && active == INVALID && busy == (old(busy) && !clearBusy)
        invariant forall k :: 0 <= k < DEPTH ==>
                    packets[k] == if k < i then old(packets[k]).(state := FreePacket, nonzero := false) else old(packets[k])
      {
        packets[i] := packets[i].(state := FreePacket, nonzero := false);
      }
      assert packets[..] == Freed(old(packets[..]));
    }
  }
}
