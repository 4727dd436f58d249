/** The output reports as the controller reads them: what stands at every offset before the CRC trailer. */
module ReportLayout {
  import opened Basics
  import opened OutputState
  import opened OutputReports

  // The byte at position k of a block that holds `bytes` and then zeros.
  function At(bytes: seq<bv8>, k: nat): bv8 {
    if k < |bytes| then bytes[k] else 0
  }

  /** The high nibble of the second byte counts reports, the low nibble is empty. */
  lemma NibbleCounts(sequence: bv8)
    ensures var n := SequenceNibble(sequence);
            && n >> 4 == sequence & 0x0F && n & 0x0F == 0
            && (SequenceNibble(sequence + 1) >> 4 == ((n >> 4) + 1) & 0x0F)
  {
  }

  /** Reports 0x31 and 0x32 carry the state block at offsets 3 and 4, and zeros after it. */
  lemma StateReports(sequence: bv8, state: seq<bv8>)
    requires |state| == 63
    ensures var b := Body31(sequence, state);
            && |b| == 74 && b[0] == 0x31 && b[1] == SequenceNibble(sequence) && b[2] == 0x10
            && b[3..66] == state && forall k :: 66 <= k < 74 ==> b[k] == 0
    ensures var b := Body32(sequence, state);
            && |b| == 138 && b[0] == 0x32 && b[1] == SequenceNibble(sequence) && b[2] == 0x90 && b[3] == 63
            && b[4..67] == state && forall k :: 67 <= k < 138 ==> b[k] == 0
  {
    hide SequenceNibble;
  }

  // The eleven header bytes of the status report and of report 0x36.
  ghost predicate HeaderOf(b: seq<bv8>, id: bv8, sequence: bv8, counter: bv8, micActive: bool, bufferLength: bv8) {
    && |b| >= 11 && b[0] == id && b[1] == SequenceNibble(sequence) && b[2] == 0x91 && b[3] == 7
    && b[4] == (if micActive then 0xFF else 0xFE)
    && (forall k :: 5 <= k < 10 ==> b[k] == if bufferLength == 0 then 64 else bufferLength)
    && b[10] == counter
  }

  lemma HeaderBytes(id: bv8, sequence: bv8, counter: bv8, micActive: bool, bufferLength: bv8, rest: seq<bv8>)
    ensures HeaderOf(StatusHeader(id, sequence, counter, micActive, bufferLength) + rest, id, sequence, counter, micActive, bufferLength)
  {
    hide SequenceNibble;
  }

  /** The status report is its header and zeros. */
  lemma StatusReport(sequence: bv8, counter: bv8, micActive: bool, bufferLength: bv8)
    ensures var b := StatusBody(sequence, counter, micActive, bufferLength);
            && |b| == 138 && HeaderOf(b, 0x32, sequence, counter, micActive, bufferLength)
            && forall k :: 11 <= k < 138 ==> b[k] == 0
  {
    HeaderBytes(0x32, sequence, counter, micActive, bufferLength, Repeat<bv8>(0, 127));
    hide HeaderOf, StatusHeader;
  }

  /**
   Report 0x36: the state block at 13, haptics at 78 (zeros unless 64 bytes were given), the speaker packet at 144
   cut or padded to 200 bytes, with its id marked at 142; no speaker packet, no block.
   */
  lemma AudioReport(sequence: bv8, counter: bv8, state: seq<bv8>, haptics: Option<seq<bv8>>, opus: Option<seq<bv8>>,
                    speakerBlockId: bv8, micActive: bool, bufferLength: bv8)
    requires |state| == 63
    ensures var b := Body36(sequence, counter, state, haptics, opus, speakerBlockId, micActive, bufferLength);
            && |b| == 394 && HeaderOf(b, 0x36, sequence, counter, micActive, bufferLength)
            && b[11] == 0x90 && b[12] == 63 && b[13..76] == state
            && b[76] == 0x92 && b[77] == 64
            && (forall k :: 78 <= k < 142 ==>
                  b[k] == if haptics.Some? && |haptics.value| >= 64 then haptics.value[k - 78] else 0)
            && (if opus.Some? && opus.value != []
                then
                  && b[142] == (if speakerBlockId == 0 then 0x93 else speakerBlockId | 0x80) && b[143] == 200
                  && forall k :: 144 <= k < 344 ==> b[k] == At(opus.value, k - 144)
                else forall k :: 142 <= k < 344 ==> b[k] == 0)
            && forall k :: 344 <= k < 394 ==> b[k] == 0
  {
    hide HeaderOf, StatusHeader, Haptics36, Speaker36;
    var block, audio, speaker := StateBlock(state), Haptics36(haptics), Speaker36(opus, speakerBlockId);
    var b := Body36(sequence, counter, state, haptics, opus, speakerBlockId, micActive, bufferLength);
    var head := StatusHeader(0x36, sequence, counter, micActive, bufferLength);
    HeaderBytes(0x36, sequence, counter, micActive, bufferLength, block + (audio + speaker + Repeat<bv8>(0, 50)));
    assert b == head + (block + (audio + speaker + Repeat<bv8>(0, 50)));
    HapticsBytes(haptics);
    SpeakerBytes(opus, speakerBlockId);
    assert b[13..76] == state;
    assert forall k :: 76 <= k < 142 ==> b[k] == audio[k - 76];
    assert forall k :: 142 <= k < 344 ==> b[k] == speaker[k - 142];
  }

  lemma HapticsBytes(haptics: Option<seq<bv8>>)
    ensures var a := Haptics36(haptics);
            && a[0] == 0x92 && a[1] == 64
            && forall k :: 2 <= k < 66 ==> a[k] == if haptics.Some? && |haptics.value| >= 64 then haptics.value[k - 2] else 0
  {
  }

  lemma SpeakerBytes(opus: Option<seq<bv8>>, speakerBlockId: bv8)
    ensures var a := Speaker36(opus, speakerBlockId);
            if opus.Some? && opus.value != []
            then
              && a[0] == (if speakerBlockId == 0 then 0x93 else speakerBlockId | 0x80) && a[1] == 200
              && forall k :: 2 <= k < 202 ==> a[k] == At(opus.value, k - 2)
            else forall k :: 0 <= k < 202 ==> a[k] == 0
  {
  }

  /**
   Report 0x39: the counter at 9, two haptics blocks at 12 and 76, two Opus packets at 142 and 342 cut or padded
   to 200 bytes with their id at 140; what is absent is zero, and without any packet there is no speaker block.
   */
  lemma RealtimeReport(sequence: bv8, counter: bv8, haptics0: Option<seq<bv8>>, haptics1: Option<seq<bv8>>,
                       opus0: Option<seq<bv8>>, opus1: Option<seq<bv8>>, speakerBlockId: bv8, micActive: bool, bufferLength: bv8)
    ensures var b := BodyRt(sequence, counter, haptics0, haptics1, opus0, opus1, speakerBlockId, micActive, bufferLength);
            && |b| == 543 && b[0] == 0x39 && b[1] == SequenceNibble(sequence) && b[2] == 0x91 && b[3] == 6
            && b[4] == (if micActive then 0x7F else 0x7E)
            && (forall k :: 5 <= k < 9 ==> b[k] == if bufferLength == 0 then 48 else bufferLength)
            && b[9] == counter && b[10] == 0xD2 && b[11] == 64
            && (forall k :: 12 <= k < 76 ==> b[k] == if haptics0.Some? then At(haptics0.value, k - 12) else 0)
            && (forall k :: 76 <= k < 140 ==> b[k] == if haptics1.Some? then At(haptics1.value, k - 76) else 0)
            && (if opus0.Some? || opus1.Some?
                then
                  && b[140] == (if speakerBlockId == 0 then 0xD3 else speakerBlockId | 0xC0) && b[141] == 200
                  && (forall k :: 142 <= k < 342 ==> b[k] == if opus0.Some? then At(opus0.value, k - 142) else 0)
                  && (forall k :: 342 <= k < 542 ==> b[k] == if opus1.Some? then At(opus1.value, k - 342) else 0)
                else forall k :: 140 <= k < 542 ==> b[k] == 0)
            && b[542] == 0
  {
    hide RtHeader, RtHaptics, RtSpeaker, SequenceNibble;
    var head, audio, speaker := RtHeader(sequence, counter, micActive, bufferLength), RtHaptics(haptics0, haptics1), RtSpeaker(opus0, opus1, speakerBlockId);
    var b := BodyRt(sequence, counter, haptics0, haptics1, opus0, opus1, speakerBlockId, micActive, bufferLength);
    RtHeaderBytes(sequence, counter, micActive, bufferLength);
    RtHapticsBytes(haptics0, haptics1);
    RtSpeakerBytes(opus0, opus1, speakerBlockId);
    assert forall k :: 0 <= k < 10 ==> b[k] == head[k];
    assert forall k :: 10 <= k < 140 ==> b[k] == audio[k - 10];
    assert forall k :: 140 <= k < 542 ==> b[k] == speaker[k - 140];
  }

  lemma RtHeaderBytes(sequence: bv8, counter: bv8, micActive: bool, bufferLength: bv8)
    ensures var b := RtHeader(sequence, counter, micActive, bufferLength);
            && b[0] == 0x39 && b[1] == SequenceNibble(sequence) && b[2] == 0x91 && b[3] == 6
            && b[4] == (if micActive then 0x7F else 0x7E)
            && (forall k :: 5 <= k < 9 ==> b[k] == if bufferLength == 0 then 48 else bufferLength)
            && b[9] == counter
  {
    hide SequenceNibble;
  }

  lemma RtHapticsBytes(haptics0: Option<seq<bv8>>, haptics1: Option<seq<bv8>>)
    ensures var a := RtHaptics(haptics0, haptics1);
            && a[0] == 0xD2 && a[1] == 64
            && (forall k :: 2 <= k < 66 ==> a[k] == if haptics0.Some? then At(haptics0.value, k - 2) else 0)
            && (forall k :: 66 <= k < 130 ==> a[k] == if haptics1.Some? then At(haptics1.value, k - 66) else 0)
  {
  }

  lemma RtSpeakerBytes(opus0: Option<seq<bv8>>, opus1: Option<seq<bv8>>, speakerBlockId: bv8)
    ensures var a := RtSpeaker(opus0, opus1, speakerBlockId);
            if opus0.Some? || opus1.Some?
            then
              && a[0] == (if speakerBlockId == 0 then 0xD3 else speakerBlockId | 0xC0) && a[1] == 200
              && (forall k :: 2 <= k < 202 ==> a[k] == if opus0.Some? then At(opus0.value, k - 2) else 0)
              && (forall k :: 202 <= k < 402 ==> a[k] == if opus1.Some? then At(opus1.value, k - 202) else 0)
            else forall k :: 0 <= k < 402 ==> a[k] == 0
  {
  }

  /** Every byte of the state after a merge, and the host's bit that lets it in. */
  lemma PermissionTable(state: seq<bv8>, usb: seq<bv8>)
    requires |state| == 63 && |usb| >= 47
    ensures var r := Merged(state, usb);
            && r[0] == (state[0] & 0xFC) | (usb[0] & 0x03) && r[1] == state[1]
            && r[38] == (state[38] & 0xF3) | (usb[38] & 0x0C)
            && (forall k :: 2 <= k < 4 ==> r[k] == if usb[0] & 0x02 != 0 || usb[38] & 0x08 != 0 then usb[k] else 0)
            && r[4] == (if usb[0] & 0x10 != 0 then usb[4] else state[4])
            && r[5] == (if usb[0] & 0x20 != 0 then usb[5] else state[5])
            && r[6] == (if usb[0] & 0x40 != 0 then usb[6] else state[6])
            && r[7] == (if usb[0] & 0x80 != 0 then usb[7] else state[7])
            && r[8] == (if usb[1] & 0x01 != 0 then usb[8] else state[8])
            && r[9] == (if usb[1] & 0x02 != 0 then usb[9] else state[9])
            && r[10..21] == (if usb[0] & 0x04 != 0 then usb[10..21] else state[10..21])
            && r[21..32] == (if usb[0] & 0x08 != 0 then usb[21..32] else state[21..32])
            && r[32..36] == state[32..36]
            && r[36] == (if usb[1] & 0x40 != 0 then usb[36] else state[36])
            && r[37] == (if usb[1] & 0x80 != 0 then usb[37] else state[37])
            && r[39] == (if usb[1] & 0x20 != 0 then usb[39] else state[39])
            && r[40] == state[40]
            && r[41] == (if usb[38] & 0x02 != 0 then usb[41] else state[41])
            && r[42] == (if usb[38] & 0x01 != 0 then usb[42] else state[42])
            && r[43] == (if usb[1] & 0x10 != 0 then usb[43] else state[43])
            && r[44..47] == (if usb[1] & 0x04 != 0 then usb[44..47] else state[44..47])
            && r[47..] == state[47..]
  {
    hide Merged;
    Masks(state[0], usb[0]);
    Masks(state[38], usb[38]);
    hide WithBits;
  }

  lemma Masks(kept: bv8, flags: bv8)
    ensures WithBits(kept, 0x03, flags) == (kept & 0xFC) | (flags & 0x03)
    ensures WithBits(kept, 0x0C, flags) == (kept & 0xF3) | (flags & 0x0C)
  {
  }
}
