/** The controller state kept between reports, and how the host's USB state is merged into it. */
module OutputState {
  import opened Basics

  const SET_STATE_LEN: nat := 63
  const USB_STATE_LEN: nat := 47
  const FLAGS0: nat := 0
  const FLAGS1: nat := 1
  const RUMBLE_RIGHT: nat := 2
  const RUMBLE_LEFT: nat := 3
  const FLAGS2: nat := 38

  const SET_STATE_DEFAULT: seq<bv8> := [
    0xFD, 0xF7, 0x00, 0x00, 0x64, 0x64, 0xFF, 0x09,
    0x00, 0x0F, 0x00, 0x00, 0x00, 0x00, 0x00, 0x00,
    0x00, 0x00, 0x00, 0x00, 0x00, 0x00, 0x00, 0x00,
    0x00, 0x00, 0x00, 0x00, 0x00, 0x00, 0x00, 0x00,
    0x00, 0x00, 0x00, 0x00, 0x00, 0x01, 0x07, 0x00,
    0x00, 0x02, 0x01, 0x00, 0xFF, 0xD7, 0x00, 0x00,
    0x00, 0x00, 0x00, 0x00, 0x00, 0x00, 0x00, 0x00,
    0x00, 0x00, 0x00, 0x00, 0x00, 0x00, 0x00]

  /** State that was never set up falls back to the defaults. */
  function Ensured(state: seq<bv8>): (r: seq<bv8>)
    requires |state| == SET_STATE_LEN
    ensures |r| == SET_STATE_LEN
  {
    if state[FLAGS0] == 0 && state[FLAGS1] == 0 then SET_STATE_DEFAULT else state
  }

  predicate Has(flags: bv8, mask: bv8) {
    flags & mask != 0
  }

  // `kept` with the bits of `mask` taken from `flags`.
  function WithBits(kept: bv8, mask: bv8, flags: bv8): bv8 {
    (kept & !mask) | (flags & mask)
  }

  datatype Gate = Never | Flag(index: nat, mask: bv8)

  /** Which flag bit of the host's state allows its byte k to be taken over. */
  function GateOf(k: nat): (g: Gate)
    ensures g.Flag? ==> g.index in {FLAGS0, FLAGS1, FLAGS2} && 4 <= k < USB_STATE_LEN && k != FLAGS2
  {
    if k == 4 then Flag(FLAGS0, 0x10)
    else if k == 5 then Flag(FLAGS0, 0x20)
    else if k == 6 then Flag(FLAGS0, 0x40)
    else if k == 7 then Flag(FLAGS0, 0x80)
    else if k == 8 then Flag(FLAGS1, 0x01)
    else if k == 9 then Flag(FLAGS1, 0x02)
    else if 10 <= k < 21 then Flag(FLAGS0, 0x04)
    else if 21 <= k < 32 then Flag(FLAGS0, 0x08)
    else if k == 36 then Flag(FLAGS1, 0x40)
    else if k == 37 then Flag(FLAGS1, 0x80)
    else if k == 39 then Flag(FLAGS1, 0x20)
    else if k == 41 then Flag(FLAGS2, 0x02)
    else if k == 42 then Flag(FLAGS2, 0x01)
    else if k == 43 then Flag(FLAGS1, 0x10)
    else if 44 <= k < 47 then Flag(FLAGS1, 0x04)
    else Never
  }

  predicate Allowed(usb: seq<bv8>, k: nat)
    requires |usb| >= USB_STATE_LEN
  {
    var g := GateOf(k);
    g.Flag? && Has(usb[g.index], g.mask)
  }

  // The host asks for rumble in either of the two bits that select it.
  predicate Rumbles(usb: seq<bv8>)
    requires |usb| >= USB_STATE_LEN
  {
    Has(usb[FLAGS0], 0x02) || Has(usb[FLAGS2], 0x08)
  }

  /** Byte k after the merge: two flag bytes by bit, the rumble bytes by mode, every other byte by its gate. */
  function MergedByte(state: seq<bv8>, usb: seq<bv8>, k: nat): bv8
    requires |state| == SET_STATE_LEN && |usb| >= USB_STATE_LEN && k < SET_STATE_LEN
  {
    if k == FLAGS0 then WithBits(state[k], 0x03, usb[k])
    else if k == FLAGS2 then WithBits(state[k], 0x0C, usb[k])
    else if k == RUMBLE_RIGHT || k == RUMBLE_LEFT then if Rumbles(usb) then usb[k] else 0
    else if Allowed(usb, k) then usb[k]
    else state[k]
  }

  function MergedPrefix(state: seq<bv8>, usb: seq<bv8>, n: nat): (r: seq<bv8>)
    requires |state| == SET_STATE_LEN && |usb| >= USB_STATE_LEN && n <= SET_STATE_LEN
    ensures |r| == n && forall k :: 0 <= k < n ==> r[k] == MergedByte(state, usb, k)
  {
    if n == 0 then [] else MergedPrefix(state, usb, n - 1) + [MergedByte(state, usb, n - 1)]
  }

  function Merged(state: seq<bv8>, usb: seq<bv8>): (r: seq<bv8>)
    requires |state| == SET_STATE_LEN && |usb| >= USB_STATE_LEN
    ensures |r| == SET_STATE_LEN && forall k :: 0 <= k < SET_STATE_LEN ==> r[k] == MergedByte(state, usb, k)
  {
    MergedPrefix(state, usb, SET_STATE_LEN)
  }

  // ---- bits ----

  lemma BitsTaken(kept: bv8, mask: bv8, flags: bv8, m: bv8)
    requires m & !mask == 0
    ensures Has(WithBits(kept, mask, flags), m) == Has(flags, m)
  {
  }

  lemma BitsKept(kept: bv8, mask: bv8, flags: bv8, m: bv8)
    requires m & mask == 0
    ensures Has(WithBits(kept, mask, flags), m) == Has(kept, m)
  {
  }

  lemma BitsTwice(kept: bv8, mask: bv8, first: bv8, second: bv8)
    ensures WithBits(WithBits(kept, mask, first), mask, second) == WithBits(kept, mask, second)
  {
  }

  // ---- what the merge is for ----

  /** Per byte the latest merge that allowed it wins; the permission bits of the stored flags never change. */
  lemma LatestAllowedWins(state: seq<bv8>, first: seq<bv8>, second: seq<bv8>, k: nat)
    requires |state| == SET_STATE_LEN && |first| >= USB_STATE_LEN && |second| >= USB_STATE_LEN && k < SET_STATE_LEN
    ensures var r := Merged(Merged(state, first), second);
            && (GateOf(k).Flag? ==>
                  r[k] == if Allowed(second, k) then second[k] else if Allowed(first, k) then first[k] else state[k])
            && (GateOf(k).Never? && k !in {FLAGS0, FLAGS2, RUMBLE_RIGHT, RUMBLE_LEFT} ==> r[k] == state[k])
            && (k in {FLAGS0, FLAGS2, RUMBLE_RIGHT, RUMBLE_LEFT} ==> r[k] == Merged(state, second)[k])
  {
    hide WithBits, Has, Merged;
    BitsTwice(state[FLAGS0], 0x03, first[FLAGS0], second[FLAGS0]);
    BitsTwice(state[FLAGS2], 0x0C, first[FLAGS2], second[FLAGS2]);
  }

  /** Merging the same state again changes nothing. */
  lemma MergeIsIdempotent(state: seq<bv8>, usb: seq<bv8>)
    requires |state| == SET_STATE_LEN && |usb| >= USB_STATE_LEN
    ensures Merged(Merged(state, usb), usb) == Merged(state, usb)
  {
    hide Merged;
    forall k | 0 <= k < SET_STATE_LEN
      ensures Merged(Merged(state, usb), usb)[k] == Merged(state, usb)[k]
    {
      LatestAllowedWins(state, usb, usb, k);
    }
  }

  /** The stored flags say what the rumble bytes hold: whenever neither rumble bit is set both motors are off. */
  lemma QuietMotors(state: seq<bv8>, usb: seq<bv8>)
    requires |state| == SET_STATE_LEN && |usb| >= USB_STATE_LEN
    ensures var r := Merged(state, usb);
            && (Has(r[FLAGS0], 0x02) || Has(r[FLAGS2], 0x08) <==> Rumbles(usb))
            && (!Rumbles(usb) ==> r[RUMBLE_RIGHT] == 0 && r[RUMBLE_LEFT] == 0)
            && (forall m: bv8 :: m & 0x03 == 0 ==> Has(r[FLAGS0], m) == Has(state[FLAGS0], m))
            && r[FLAGS1] == state[FLAGS1]
  {
    BitsTaken(state[FLAGS0], 0x03, usb[FLAGS0], 0x02);
    BitsTaken(state[FLAGS2], 0x0C, usb[FLAGS2], 0x08);
    hide Has, WithBits;
    forall m: bv8 | m & 0x03 == 0
      ensures Has(Merged(state, usb)[FLAGS0], m) == Has(state[FLAGS0], m)
    {
      BitsKept(state[FLAGS0], 0x03, usb[FLAGS0], m);
    }
  }
}
