/** One recorder and one copying reader of a codec profile, interleaved field by field, each in any order of fields. */
module PerfSeqlock {
  import opened Basics
  import opened PerfProfile

  // The recorder and the copier each go through the cells in whatever order the compiler chose.
  datatype Writer = Quiet | Writing(sample: CodecSample, target: seq<nat>, written: set<nat>)

  datatype Copier = Waiting | Copying(before: nat, copied: map<nat, nat>)

  // What a finished snapshot returned, and the samples recorded completely at that moment.
  datatype Accepted = Accepted(copy: seq<nat>, recorded: seq<CodecSample>)

  datatype State = State(sequence: nat, cells: seq<nat>, writer: Writer, copier: Copier,
                         recorded: seq<CodecSample>, accepted: seq<Accepted>)

  // A 64-bit cell is copied in two halves: if a record begins between them the value is of no instant at all.
  datatype Action =
    | BeginRecord(sample: CodecSample)
    | WriteCell(index: nat)
    | EndRecord
    | BeginCopy
    | CopyCell(index: nat)
    | CopyTorn(index: nat, value: nat)
    | EndCopy

  ghost predicate Shaped(s: State) {
    && |s.cells| == CELLS
    && (s.writer.Writing? ==> |s.writer.target| == CELLS)
  }

  predicate AllWritten(written: set<nat>) {
    forall k :: 0 <= k < CELLS ==> k in written
  }

  predicate AllCopied(copied: map<nat, nat>) {
    forall k :: 0 <= k < CELLS ==> k in copied
  }

  function CopiedPrefix(copied: map<nat, nat>, n: nat): (copy: seq<nat>)
    requires AllCopied(copied) && n <= CELLS
    ensures |copy| == n && forall k :: 0 <= k < n ==> copy[k] == copied[k]
  {
    if n == 0 then [] else CopiedPrefix(copied, n - 1) + [copied[n - 1]]
  }

  function Next(s: State, a: Action): State
    requires Shaped(s)
  {
    match a
    case BeginRecord(x) =>
      if s.writer.Quiet? then s.(sequence := s.sequence + 1, writer := Writing(x, Record(s.cells, x), {})) else s
    case WriteCell(k) =>
      if s.writer.Writing? && k < CELLS && k !in s.writer.written then
        s.(cells := s.cells[k := s.writer.target[k]], writer := s.writer.(written := s.writer.written + {k}))
      else s
    case EndRecord =>
      if s.writer.Writing? && AllWritten(s.writer.written) then
        s.(sequence := s.sequence + 1, writer := Quiet, recorded := s.recorded + [s.writer.sample])
      else s
    case BeginCopy =>
      // An odd sequence sends the reader around again.
      if s.copier.Waiting? && s.sequence % 2 == 0 then s.(copier := Copying(s.sequence, map[])) else s
    case CopyCell(k) =>
      if s.copier.Copying? && k < CELLS then s.(copier := s.copier.(copied := s.copier.copied[k := s.cells[k]])) else s
    case CopyTorn(k, value) =>
      if s.copier.Copying? && k < CELLS && s.sequence != s.copier.before then
        s.(copier := s.copier.(copied := s.copier.copied[k := value]))
      else s
    case EndCopy =>
      if s.copier.Copying? && AllCopied(s.copier.copied) then
        var finished := s.(copier := Waiting);
        if s.sequence == s.copier.before then
          finished.(accepted := s.accepted + [Accepted(CopiedPrefix(s.copier.copied, CELLS), s.recorded)])
        else finished
      else s
  }

  function Initial(): State {
    State(0, Start(), Quiet, Waiting, [], [])
  }

  ghost predicate WriterInv(s: State)
    requires Shaped(s)
  {
    match s.writer
    case Quiet => s.sequence == 2 * |s.recorded| && s.cells == ProfileOf(s.recorded)
    case Writing(x, target, written) =>
      && s.sequence == 2 * |s.recorded| + 1
      && target == Record(ProfileOf(s.recorded), x)
      && forall k :: 0 <= k < CELLS ==> s.cells[k] == if k in written then target[k] else ProfileOf(s.recorded)[k]
  }

  ghost predicate CopierInv(s: State)
    requires Shaped(s)
  {
    s.copier.Copying? ==>
      && s.copier.before % 2 == 0 && s.copier.before <= s.sequence
      && (s.copier.before == s.sequence ==>
            forall k :: 0 <= k < CELLS && k in s.copier.copied ==> s.copier.copied[k] == s.cells[k])
  }

  ghost predicate AcceptedInv(s: State) {
    forall i :: 0 <= i < |s.accepted| ==>
      s.accepted[i].copy == ProfileOf(s.accepted[i].recorded) && s.accepted[i].recorded <= s.recorded
  }

  ghost predicate Inv(s: State) {
    Shaped(s) && WriterInv(s) && CopierInv(s) && AcceptedInv(s)
  }

  lemma InitialInv()
    ensures Inv(Initial())
  {
  }

  lemma WriterKeepsInv(s: State, a: Action)
    requires Inv(s) && (a.BeginRecord? || a.WriteCell? || a.EndRecord?)
    ensures Inv(Next(s, a))
  {
    hide Record;
    var t := Next(s, a);
    if a.EndRecord? && t != s {
      assert t.recorded[..|t.recorded| - 1] == s.recorded;
      assert t.cells == s.writer.target;
      assert ProfileOf(t.recorded) == Record(ProfileOf(s.recorded), s.writer.sample);
    }
  }

  lemma CopierKeepsInv(s: State, a: Action)
    requires Inv(s) && (a.BeginCopy? || a.CopyCell? || a.CopyTorn? || a.EndCopy?)
    ensures Inv(Next(s, a))
  {
    hide Record, ProfileOf;
    if a.EndCopy? && s.copier.Copying? && AllCopied(s.copier.copied) && s.sequence == s.copier.before {
      assert CopiedPrefix(s.copier.copied, CELLS) == s.cells;
    }
  }

  lemma NextKeepsInv(s: State, a: Action)
    requires Inv(s)
    ensures Inv(Next(s, a))
  {
    hide Inv, Next;
    if a.BeginRecord? || a.WriteCell? || a.EndRecord? {
      WriterKeepsInv(s, a);
    } else {
      CopierKeepsInv(s, a);
    }
  }

  // Any interleaving of recorder and reader.
  ghost predicate Run(states: seq<State>, actions: seq<Action>) {
    && |states| == |actions| + 1 && states[0] == Initial()
    && forall i :: 0 <= i < |actions| ==> Shaped(states[i]) && states[i + 1] == Next(states[i], actions[i])
  }

  lemma {:induction false} RunKeepsInv(states: seq<State>, actions: seq<Action>, n: nat)
    requires Run(states, actions) && n < |states|
    ensures Inv(states[n])
  {
    hide Inv, Shaped, Next, Initial;
    if n == 0 {
      InitialInv();
    } else {
      RunKeepsInv(states, actions, n - 1);
      NextKeepsInv(states[n - 1], actions[n - 1]);
    }
  }

  /** An accepted copy is the whole profile as it stood at one instant: after some prefix of the recorded samples. */
  lemma AcceptedCopyIsOneInstant(states: seq<State>, actions: seq<Action>, n: nat, i: nat)
    requires Run(states, actions) && n < |states| && i < |states[n].accepted|
    ensures var s := states[n];
            && s.accepted[i].recorded <= s.recorded
            && s.accepted[i].copy == ProfileOf(s.accepted[i].recorded)
  {
    hide Run, ProfileOf;
    RunKeepsInv(states, actions, n);
    assert AcceptedInv(states[n]);
  }

  /** encode_consistent and decode_consistent: the histogram of an accepted copy adds up to its sample counter. */
  lemma AcceptedCopyIsConsistent(states: seq<State>, actions: seq<Action>, n: nat, i: nat)
    requires Run(states, actions) && n < |states| && i < |states[n].accepted|
    requires |states[n].recorded| <= UINT32_MAX
    ensures var copy := states[n].accepted[i].copy;
            && |copy| == CELLS
            && Saturated(Sum(Histogram(copy), BUCKETS + 1)) == SampleCount(copy)
  {
    hide Run, ProfileOf, Histogram, SampleCount, Sum;
    AcceptedCopyIsOneInstant(states, actions, n, i);
    ProfileCountsSamples(states[n].accepted[i].recorded);
  }

  /** A copy during which no record begins is accepted, and shows every sample recorded so far. */
  lemma UndisturbedCopyIsAccepted(states: seq<State>, actions: seq<Action>, n: nat)
    requires Run(states, actions) && n < |states|
    requires var s := states[n];
             s.copier.Copying? && AllCopied(s.copier.copied) && s.copier.before == s.sequence
    ensures Shaped(states[n])
    ensures Next(states[n], EndCopy).accepted ==
              states[n].accepted + [Accepted(ProfileOf(states[n].recorded), states[n].recorded)]
  {
    hide Run, ProfileOf;
    RunKeepsInv(states, actions, n);
    assert CopiedPrefix(states[n].copier.copied, CELLS) == states[n].cells;
  }
}
