/** The controller output reports: sequence nibble, packet counter, payload blocks and the CRC trailer. */
module OutputReports {
  import opened Basics
  import opened Crc
  import opened OutputState
  import opened WebConfig

  const REPORT31_LEN: nat := 78
  const REPORT32_LEN: nat := 142
  const REPORT36_LEN: nat := 398
  const AUDIO_RT_LEN: nat := 547
  const OUTPUT_SEED: bv8 := 0xA2
  const FEATURE_SEED: bv8 := 0x53
  const SPEAKER_BLOCK_ID: bv8 := 0x13

  /** What the controller checks: the register over seed, body and trailer ends in the fixed residue. */
  ghost predicate SealedReport(seed: bv8, report: seq<bv8>) {
    Update(ALL_ONES, [seed] + report) == RESIDUE
  }

  function SeededCrc(seed: bv8, data: seq<bv8>): bv32 {
    Crc.Finish(Update(Update(ALL_ONES, [seed]), data))
  }

  /** Sealing is exact: of all four-byte trailers only the little-endian CRC leaves the residue. */
  lemma OnlyTheCrcSeals(seed: bv8, body: seq<bv8>, trailer: seq<bv8>)
    requires |trailer| == 4
    ensures SealedReport(seed, body + trailer) <==> trailer == WordBytes(SeededCrc(seed, body))
  {
    hide Update, Word, WordBytes;
    SealedExactlyAtResidue(ALL_ONES, [seed] + body, trailer);
    assert [seed] + (body + trailer) == [seed] + body + trailer;
    UpdateComposes(ALL_ONES, [seed], body);
    WordOfBytes(SeededCrc(seed, body));
    BytesOfWord(trailer);
  }

  /** The seeded output CRC over data is the plain record CRC over the seed byte followed by data. */
  lemma SeededCrcIsCrcOfSeedAndData(seed: bv8, data: seq<bv8>)
    ensures SeededCrc(seed, data) == CrcIeee([seed] + data)
  {
    UpdateComposes(ALL_ONES, [seed], data);
  }

  method SealedCrc(seed: bv8, data: seq<bv8>) returns (crc: bv32)
    ensures crc == SeededCrc(seed, data)
  {
    crc := UpdateByTable(ALL_ONES, [seed]);
    crc := UpdateByTable(crc, data);
    crc := Crc.Finish(crc);
  }

  // fill_crc, and dualsense_feature_fill_crc with the feature seed.
  method FillCrc(seed: bv8, report: array<bv8>, len: nat)
    requires 4 <= len <= report.Length
    modifies report
    ensures SealedReport(seed, report[..len])
    ensures report[..len - 4] == old(report[..len - 4]) && report[len..] == old(report[len..])
  {
    hide Update, Word, WordBytes;
    var body := report[..len - 4];
    var crc := SealedCrc(seed, body);
    Put(report, len - 4, WordBytes(crc));
    assert report[..len - 4] == body;
    assert report[..len] == body + WordBytes(crc);
    OnlyTheCrcSeals(seed, body, WordBytes(crc));
  }

  method FeatureFillCrc(data: array<bv8>, len: nat)
    requires len <= data.Length
    modifies data
    ensures len >= 4 ==> SealedReport(FEATURE_SEED, data[..len])
    ensures len >= 4 ==> data[..len - 4] == old(data[..len - 4]) && data[len..] == old(data[len..])
    ensures len < 4 ==> data[..] == old(data[..])
  {
    if len >= 4 {
      FillCrc(FEATURE_SEED, data, len);
    }
  }

  function SequenceNibble(sequence: bv8): bv8 {
    (sequence & 0x0F) << 4
  }

  // ---- the reports before their trailer, block by block ----

  /** A block of n bytes: what is given of it, then zeros. */
  function Field(bytes: seq<bv8>, n: nat): (r: seq<bv8>)
    ensures |r| == n && forall k :: 0 <= k < n ==> r[k] == if k < |bytes| then bytes[k] else 0
  {
    if |bytes| >= n then bytes[..n] else bytes + Repeat<bv8>(0, n - |bytes|)
  }

  function Given(bytes: Option<seq<bv8>>): seq<bv8> {
    if bytes.Some? then bytes.value else []
  }

  // A zero parameter stands for its default.
  function OrDefault(v: bv8, default: bv8): bv8 {
    if v == 0 then default else v
  }

  function Body31(sequence: bv8, state: seq<bv8>): seq<bv8> {
    [0x31, SequenceNibble(sequence), 0x10] + state + Repeat<bv8>(0, 8)
  }

  function Body32(sequence: bv8, state: seq<bv8>): seq<bv8> {
    [0x32, SequenceNibble(sequence), 0x90, 63] + state + Repeat<bv8>(0, 71)
  }

  // Id and sequence, the audio tag with its length, the microphone flag, the buffer length repeated, the counter.
  function AudioHeader(id: bv8, sequence: bv8, blockLength: bv8, micFlag: bv8, bufferLength: bv8, copies: nat, counter: bv8)
    : (r: seq<bv8>)
    ensures |r| == 6 + copies
  {
    [id, SequenceNibble(sequence), 0x91, blockLength, micFlag] + Repeat(bufferLength, copies) + [counter]
  }

  // The header shared by the status report and report 0x36.
  function StatusHeader(id: bv8, sequence: bv8, counter: bv8, micActive: bool, bufferLength: bv8): (r: seq<bv8>)
    ensures |r| == 11
  {
    AudioHeader(id, sequence, 7, if micActive then 0xFF else 0xFE, OrDefault(bufferLength, 64), 5, counter)
  }

  function StatusBody(sequence: bv8, counter: bv8, micActive: bool, bufferLength: bv8): seq<bv8> {
    StatusHeader(0x32, sequence, counter, micActive, bufferLength) + Repeat<bv8>(0, 127)
  }

  function StateBlock(state: seq<bv8>): seq<bv8> {
    [0x90, 63] + state
  }

  // A haptics buffer shorter than 64 bytes counts as absent.
  function Haptics36(haptics: Option<seq<bv8>>): (r: seq<bv8>)
    ensures |r| == 66
  {
    [0x92, 64] + Field(if HasHaptics(haptics) then haptics.value else [], 64)
  }

  function Speaker36(opus: Option<seq<bv8>>, speakerBlockId: bv8): (r: seq<bv8>)
    ensures |r| == 202
  {
    if HasOpus(opus) then [OrDefault(speakerBlockId, SPEAKER_BLOCK_ID) | 0x80, 200] + Field(opus.value, 200)
    else Repeat<bv8>(0, 202)
  }

  /** Report 0x36: header, state block, haptics block, speaker block. */
  function Body36(sequence: bv8, counter: bv8, state: seq<bv8>, haptics: Option<seq<bv8>>, opus: Option<seq<bv8>>,
                  speakerBlockId: bv8, micActive: bool, bufferLength: bv8): seq<bv8>
  {
    StatusHeader(0x36, sequence, counter, micActive, bufferLength) + StateBlock(state)
    + (Haptics36(haptics) + Speaker36(opus, speakerBlockId) + Repeat<bv8>(0, 50))
  }

  function RtHeader(sequence: bv8, counter: bv8, micActive: bool, bufferLength: bv8): (r: seq<bv8>)
    ensures |r| == 10
  {
    AudioHeader(0x39, sequence, 6, if micActive then 0x7F else 0x7E, OrDefault(bufferLength, 48), 4, counter)
  }

  function RtHaptics(haptics0: Option<seq<bv8>>, haptics1: Option<seq<bv8>>): (r: seq<bv8>)
    ensures |r| == 130
  {
    [0xD2, 64] + (Field(Given(haptics0), 64) + Field(Given(haptics1), 64))
  }

  function RtSpeaker(opus0: Option<seq<bv8>>, opus1: Option<seq<bv8>>, speakerBlockId: bv8): (r: seq<bv8>)
    ensures |r| == 402
  {
    if opus0.Some? || opus1.Some? then
      [OrDefault(speakerBlockId, SPEAKER_BLOCK_ID) | 0xC0, 200] + (Field(Given(opus0), 200) + Field(Given(opus1), 200))
    else Repeat<bv8>(0, 402)
  }

  /** Report 0x39: header with the advanced counter, two haptics blocks, two Opus packets. */
  function BodyRt(sequence: bv8, counter: bv8, haptics0: Option<seq<bv8>>, haptics1: Option<seq<bv8>>, opus0: Option<seq<bv8>>,
                  opus1: Option<seq<bv8>>, speakerBlockId: bv8, micActive: bool, bufferLength: bv8): seq<bv8>
  {
    RtHeader(sequence, counter, micActive, bufferLength)
    + (RtHaptics(haptics0, haptics1) + RtSpeaker(opus0, opus1, speakerBlockId) + Repeat<bv8>(0, 1))
  }

  class OutputContext {
    var sequence: bv8
    var audioPacketCounter: bv8
    var setState: seq<bv8>

    ghost predicate Valid()
      reads this
    {
      |setState| == SET_STATE_LEN
    }

    constructor ()
      ensures Valid() && sequence == 0 && audioPacketCounter == 0 && setState == SET_STATE_DEFAULT
    {
      sequence, audioPacketCounter, setState := 0, 0, SET_STATE_DEFAULT;
    }

    method EnsureSetState()
      requires Valid()
      modifies this`setState
      ensures Valid() && setState == Ensured(old(setState))
    {
      if setState[0] == 0 && setState[1] == 0 {
        setState := SET_STATE_DEFAULT;
      }
    }

    // Bytes first to first + count are copied when the host allows them.
    method TakeBytes(first: nat, count: nat, allowed: bool, usb: seq<bv8>)
      requires Valid() && first + count <= USB_STATE_LEN <= |usb|
      modifies this`setState
      ensures Valid()
      ensures forall j :: 0 <= j < SET_STATE_LEN ==>
                setState[j] == if allowed && first <= j < first + count then usb[j] else old(setState)[j]
    {
      if allowed {
        setState := setState[..first] + usb[first..first + count] + setState[first + count..];
      }
    }

    // The flag bytes by bit, and the rumble bytes by the mode the merged flags now ask for.
    method MergeFlags(usb: seq<bv8>)
      requires Valid() && |usb| >= USB_STATE_LEN
      modifies this`setState
      ensures Valid()
      ensures forall j :: 0 <= j < SET_STATE_LEN ==>
                setState[j] == if j <= 3 || j == FLAGS2 then MergedByte(old(setState), usb, j) else old(setState)[j]
    {
      hide Has, WithBits;
      BitsTaken(setState[FLAGS0], 0x03, usb[FLAGS0], 0x02);
      BitsTaken(setState[FLAGS2], 0x0C, usb[FLAGS2], 0x08);
      setState := setState[FLAGS0 := WithBits(setState[FLAGS0], 0x03, usb[FLAGS0])];
      setState := setState[FLAGS2 := WithBits(setState[FLAGS2], 0x0C, usb[FLAGS2])];
      if Has(setState[FLAGS0], 0x02) || Has(setState[FLAGS2], 0x08) {
        setState := setState[RUMBLE_RIGHT := usb[RUMBLE_RIGHT]][RUMBLE_LEFT := usb[RUMBLE_LEFT]];
      } else {
        setState := setState[RUMBLE_RIGHT := 0][RUMBLE_LEFT := 0];
      }
    }

    // Volumes, audio control, mute light and mute.
    method MergeAudio(usb: seq<bv8>)
      requires Valid() && |usb| >= USB_STATE_LEN
      modifies this`setState
      ensures Valid()
      ensures forall j :: 0 <= j < SET_STATE_LEN ==>
                setState[j] == if 4 <= j < 10 then MergedByte(old(setState), usb, j) else old(setState)[j]
    {
      hide Has;
      TakeBytes(4, 1, Has(usb[FLAGS0], 0x10), usb);
      TakeBytes(5, 1, Has(usb[FLAGS0], 0x20), usb);
      TakeBytes(6, 1, Has(usb[FLAGS0], 0x40), usb);
      TakeBytes(7, 1, Has(usb[FLAGS0], 0x80), usb);
      TakeBytes(8, 1, Has(usb[FLAGS1], 0x01), usb);
      TakeBytes(9, 1, Has(usb[FLAGS1], 0x02), usb);
    }

    method MergeTriggers(usb: seq<bv8>)
      requires Valid() && |usb| >= USB_STATE_LEN
      modifies this`setState
      ensures Valid()
      ensures forall j :: 0 <= j < SET_STATE_LEN ==>
                setState[j] == if 10 <= j < 32 then MergedByte(old(setState), usb, j) else old(setState)[j]
    {
      hide Has;
      TakeBytes(10, 11, Has(usb[FLAGS0], 0x04), usb);
      TakeBytes(21, 11, Has(usb[FLAGS0], 0x08), usb);
    }

    // Motor power, second audio control, low pass, light fade and brightness, player lights and colour.
    method MergeLights(usb: seq<bv8>)
      requires Valid() && |usb| >= USB_STATE_LEN
      modifies this`setState
      ensures Valid()
      ensures forall j :: 0 <= j < SET_STATE_LEN ==>
                setState[j] == if 32 <= j && j != FLAGS2 then MergedByte(old(setState), usb, j) else old(setState)[j]
    {
      hide Has;
      TakeBytes(36, 1, Has(usb[FLAGS1], 0x40), usb);
      TakeBytes(37, 1, Has(usb[FLAGS1], 0x80), usb);
      TakeBytes(39, 1, Has(usb[FLAGS1], 0x20), usb);
      TakeBytes(41, 1, Has(usb[FLAGS2], 0x02), usb);
      TakeBytes(42, 1, Has(usb[FLAGS2], 0x01), usb);
      TakeBytes(43, 1, Has(usb[FLAGS1], 0x10), usb);
      TakeBytes(44, 3, Has(usb[FLAGS1], 0x04), usb);
    }

    // apply_usb_set_state.
    method ApplyUsbSetState(usb: seq<bv8>) returns (ok: bool)
      requires Valid()
      modifies this`setState
      ensures Valid() && ok == (|usb| >= USB_STATE_LEN)
      ensures setState == if ok then Merged(Ensured(old(setState)), usb) else old(setState)
    {
      hide Has, WithBits;
      if |usb| < USB_STATE_LEN {
        return false;
      }
      EnsureSetState();
      MergeFlags(usb);
      MergeAudio(usb);
      MergeTriggers(usb);
      MergeLights(usb);
      ok := true;
    }

    // The frame every builder shares: clear the report, then id and sequence nibble.
    method StartReport(id: bv8, report: array<bv8>, len: nat)
      requires 2 <= len <= report.Length
      modifies this`sequence, report
      ensures sequence == old(sequence) + 1
      ensures forall k :: 0 <= k < report.Length ==>
                report[k] == if k == 0 then id else if k == 1 then SequenceNibble(old(sequence))
                             else if k < len then 0 else old(report[k])
    {
      Clear(report, 0, len);
      report[0] := id;
      report[1] := SequenceNibble(sequence);
      sequence := sequence + 1;
    }

    method MakeReport31(report: array<bv8>) returns (ok: bool)
      requires Valid()
      modifies this`sequence, this`setState, report
      ensures Valid() && ok == (report.Length >= REPORT31_LEN)
      ensures !ok ==> report[..] == old(report[..]) && sequence == old(sequence) && setState == old(setState)
      ensures ok ==>
                && sequence == old(sequence) + 1 && setState == Ensured(old(setState))
                && report[..REPORT31_LEN - 4] == Body31(old(sequence), setState)
                && SealedReport(OUTPUT_SEED, report[..REPORT31_LEN])
                && report[REPORT31_LEN..] == old(report[REPORT31_LEN..])
    {
      if report.Length < REPORT31_LEN {
        return false;
      }
      EnsureSetState();
      FillReport31(report);
      ok := true;
    }

    method FillReport31(report: array<bv8>)
      requires Valid() && report.Length >= REPORT31_LEN
      modifies this`sequence, report
      ensures sequence == old(sequence) + 1
      ensures report[..REPORT31_LEN - 4] == Body31(old(sequence), setState)
      ensures SealedReport(OUTPUT_SEED, report[..REPORT31_LEN])
      ensures report[REPORT31_LEN..] == old(report[REPORT31_LEN..])
    {
      hide SealedReport, SequenceNibble;
      StartReport(0x31, report, REPORT31_LEN);
      report[2] := 0x10;
      Put(report, 3, setState);
      assert report[..REPORT31_LEN - 4] == report[..3] + report[3..66] + report[66..REPORT31_LEN - 4];
      assert report[..REPORT31_LEN - 4] == Body31(old(sequence), setState);
      FillCrc(OUTPUT_SEED, report, REPORT31_LEN);
    }

    method MakeReport31FromUsb(usbPayload: seq<bv8>, report: array<bv8>) returns (ok: bool)
      requires Valid()
      modifies this`sequence, this`setState, report
      ensures Valid() && ok == (report.Length >= REPORT31_LEN && |usbPayload| >= USB_STATE_LEN)
      ensures !ok ==> report[..] == old(report[..]) && sequence == old(sequence) && setState == old(setState)
      ensures ok ==>
                && sequence == old(sequence) + 1 && setState == Merged(Ensured(old(setState)), usbPayload)
                && report[..REPORT31_LEN - 4] == Body31(old(sequence), setState)
                && SealedReport(OUTPUT_SEED, report[..REPORT31_LEN])
                && report[REPORT31_LEN..] == old(report[REPORT31_LEN..])
    {
      if report.Length < REPORT31_LEN {
        return false;
      }
      ok := ApplyUsbSetState(usbPayload);
      if ok {
        FillReport31(report);
      }
    }

    method MakeReport32(report: array<bv8>) returns (ok: bool)
      requires Valid()
      modifies this`sequence, this`setState, report
      ensures Valid() && ok == (report.Length >= REPORT32_LEN)
      ensures !ok ==> report[..] == old(report[..]) && sequence == old(sequence) && setState == old(setState)
      ensures ok ==>
                && sequence == old(sequence) + 1 && setState == Ensured(old(setState))
                && report[..REPORT32_LEN - 4] == Body32(old(sequence), setState)
                && SealedReport(OUTPUT_SEED, report[..REPORT32_LEN])
                && report[REPORT32_LEN..] == old(report[REPORT32_LEN..])
    {
      hide SealedReport, Body32;
      if report.Length < REPORT32_LEN {
        return false;
      }
      EnsureSetState();
      FillReport32(report);
      ok := true;
    }

    method FillReport32(report: array<bv8>)
      requires Valid() && report.Length >= REPORT32_LEN
      modifies this`sequence, report
      ensures sequence == old(sequence) + 1
      ensures report[..REPORT32_LEN - 4] == Body32(old(sequence), setState)
      ensures SealedReport(OUTPUT_SEED, report[..REPORT32_LEN])
      ensures report[REPORT32_LEN..] == old(report[REPORT32_LEN..])
    {
      hide SealedReport, SequenceNibble;
      StartReport(0x32, report, REPORT32_LEN);
      report[2] := 0x90;
      report[3] := 63;
      Put(report, 4, setState);
      assert report[..REPORT32_LEN - 4] == report[..4] + report[4..67] + report[67..REPORT32_LEN - 4];
      assert report[..REPORT32_LEN - 4] == Body32(old(sequence), setState);
      FillCrc(OUTPUT_SEED, report, REPORT32_LEN);
    }

    method MakeReport32AudioStatus(micActive: bool, bufferLength: bv8, report: array<bv8>) returns (ok: bool)
      requires Valid()
      modifies this`sequence, this`audioPacketCounter, report
      ensures Valid() && ok == (report.Length >= REPORT32_LEN)
      ensures !ok ==> report[..] == old(report[..]) && sequence == old(sequence) && audioPacketCounter == old(audioPacketCounter)
      ensures ok ==>
                && sequence == old(sequence) + 1 && audioPacketCounter == old(audioPacketCounter) + 1
                && report[..REPORT32_LEN - 4] == StatusBody(old(sequence), old(audioPacketCounter), micActive, bufferLength)
                && SealedReport(OUTPUT_SEED, report[..REPORT32_LEN])
                && report[REPORT32_LEN..] == old(report[REPORT32_LEN..])
    {
      hide SealedReport, StatusHeader;
      if report.Length < REPORT32_LEN {
        return false;
      }
      StartStatus(0x32, micActive, bufferLength, report, REPORT32_LEN);
      assert report[..REPORT32_LEN - 4] == report[..11] + report[11..REPORT32_LEN - 4];
      assert report[11..REPORT32_LEN - 4] == Repeat<bv8>(0, 127);
      FillCrc(OUTPUT_SEED, report, REPORT32_LEN);
      ok := true;
    }

    // The header of the status report and of report 0x36, in a cleared report of len bytes.
    method StartStatus(id: bv8, micActive: bool, bufferLength: bv8, report: array<bv8>, len: nat)
      requires 11 <= len <= report.Length
      modifies this`sequence, this`audioPacketCounter, report
      ensures sequence == old(sequence) + 1 && audioPacketCounter == old(audioPacketCounter) + 1
      ensures report[..11] == StatusHeader(id, old(sequence), old(audioPacketCounter), micActive, bufferLength)
      ensures forall k :: 11 <= k < report.Length ==> report[k] == if k < len then 0 else old(report[k])
    {
      hide AudioHeader;
      var length := if bufferLength == 0 then 64 else bufferLength;
      StartAudio(id, 7, if micActive then 0xFF else 0xFE, length, 5, audioPacketCounter, report, len);
      audioPacketCounter := audioPacketCounter + 1;
    }

    method StartAudio(id: bv8, blockLength: bv8, micFlag: bv8, bufferLength: bv8, copies: nat, counter: bv8,
                      report: array<bv8>, len: nat)
      requires 6 + copies <= len <= report.Length
      modifies this`sequence, report
      ensures sequence == old(sequence) + 1
      ensures report[..6 + copies] == AudioHeader(id, old(sequence), blockLength, micFlag, bufferLength, copies, counter)
      ensures forall k :: 6 + copies <= k < report.Length ==> report[k] == if k < len then 0 else old(report[k])
    {
      hide SequenceNibble;
      StartReport(id, report, len);
      StartAudioBlock(blockLength, micFlag, bufferLength, copies, report);
      report[5 + copies] := counter;
      assert report[..5] == [id, SequenceNibble(old(sequence)), 0x91, blockLength, micFlag];
      assert report[5..5 + copies] == Repeat(bufferLength, copies);
      assert report[..6 + copies] == report[..5] + report[5..5 + copies] + [counter];
    }

    // Audio tag, block length, microphone flag and `copies` repetitions of the buffer length.
    method StartAudioBlock(blockLength: bv8, micFlag: bv8, bufferLength: bv8, copies: nat, report: array<bv8>)
      requires 5 + copies <= report.Length
      modifies report
      ensures report[2] == 0x91 && report[3] == blockLength && report[4] == micFlag
      ensures forall k :: 5 <= k < 5 + copies ==> report[k] == bufferLength
      ensures forall k :: 0 <= k < report.Length && !(2 <= k < 5 + copies) ==> report[k] == old(report[k])
    {
      report[2] := 0x91;
      report[3] := blockLength;
      report[4] := micFlag;
      for i := 0 to copies
        invariant report[2] == 0x91 && report[3] == blockLength && report[4] == micFlag
        invariant forall k :: 5 <= k < 5 + i ==> report[k] == bufferLength
        invariant forall k :: 0 <= k < report.Length && !(2 <= k < 5 + i) ==> report[k] == old(report[k])
      {
        report[5 + i] := bufferLength;
      }
    }

    // Absent buffers are None.
    method MakeReport36Audio(haptics: Option<seq<bv8>>, opus: Option<seq<bv8>>, speakerBlockId: bv8, micActive: bool,
                             bufferLength: bv8, report: array<bv8>) returns (ok: bool)
      requires Valid()
      modifies this`sequence, this`audioPacketCounter, this`setState, report
      ensures Valid()
      ensures ok == (report.Length >= REPORT36_LEN && (HasHaptics(haptics) || HasOpus(opus)))
      ensures !ok ==>
                && report[..] == old(report[..]) && setState == old(setState)
                && sequence == old(sequence) && audioPacketCounter == old(audioPacketCounter)
      ensures ok ==>
                && sequence == old(sequence) + 1 && audioPacketCounter == old(audioPacketCounter) + 1
                && setState == Ensured(old(setState))
      ensures ok ==>
                && report[..REPORT36_LEN - 4] == Body36(old(sequence), old(audioPacketCounter), setState, haptics, opus,
                                                        speakerBlockId, micActive, bufferLength)
                && SealedReport(OUTPUT_SEED, report[..REPORT36_LEN])
                && report[REPORT36_LEN..] == old(report[REPORT36_LEN..])
    {
      hide SealedReport, Body36, Ensured, HasHaptics, HasOpus;
      if report.Length < REPORT36_LEN || (!HasHaptics(haptics) && !HasOpus(opus)) {
        return false;
      }
      ok := true;
      EnsureSetState();
      FillReport36(haptics, opus, speakerBlockId, micActive, bufferLength, report);
    }

    method FillReport36(haptics: Option<seq<bv8>>, opus: Option<seq<bv8>>, speakerBlockId: bv8, micActive: bool,
                      bufferLength: bv8, report: array<bv8>)
      requires Valid() && report.Length >= REPORT36_LEN
      modifies this`sequence, this`audioPacketCounter, report
      ensures sequence == old(sequence) + 1 && audioPacketCounter == old(audioPacketCounter) + 1
      ensures report[..REPORT36_LEN - 4] == Body36(old(sequence), old(audioPacketCounter), setState, haptics, opus,
                                                   speakerBlockId, micActive, bufferLength)
      ensures SealedReport(OUTPUT_SEED, report[..REPORT36_LEN])
      ensures report[REPORT36_LEN..] == old(report[REPORT36_LEN..])
    {
      hide SealedReport, StatusHeader, StateBlock, Haptics36, Speaker36;
      ghost var rest := report[REPORT36_LEN..];
      Start36(micActive, bufferLength, report);
      assert report[REPORT36_LEN..] == rest;
      Put36Payload(haptics, opus, speakerBlockId, report);
      assert report[..REPORT36_LEN - 4] == report[..76] + report[76..REPORT36_LEN - 4];
      FillCrc(OUTPUT_SEED, report, REPORT36_LEN);
    }

    method Start36(micActive: bool, bufferLength: bv8, report: array<bv8>)
      requires Valid() && report.Length >= REPORT36_LEN
      modifies this`sequence, this`audioPacketCounter, report
      ensures sequence == old(sequence) + 1 && audioPacketCounter == old(audioPacketCounter) + 1
      ensures report[..76] == StatusHeader(0x36, old(sequence), old(audioPacketCounter), micActive, bufferLength)
                              + StateBlock(setState)
      ensures forall k :: 76 <= k < report.Length ==> report[k] == if k < REPORT36_LEN then 0 else old(report[k])
    {
      hide StatusHeader, StateBlock;
      StartStatus(0x36, micActive, bufferLength, report, REPORT36_LEN);
      PutStateBlock(report);
      assert report[..76] == report[..11] + report[11..76];
    }

    method PutStateBlock(report: array<bv8>)
      requires Valid() && report.Length >= REPORT36_LEN
      modifies report
      ensures report[..11] == old(report[..11]) && report[11..76] == StateBlock(setState)
      ensures forall k :: 76 <= k < report.Length ==> report[k] == old(report[k])
    {
      report[11] := 0x90;
      report[12] := 63;
      Put(report, 13, setState);
      assert report[11..76] == report[11..13] + report[13..76];
    }

    // Two haptics blocks and two Opus packets; the packet counter moves by two.
    method MakeAudioRt(haptics0: Option<seq<bv8>>, haptics1: Option<seq<bv8>>, opus0: Option<seq<bv8>>, opus1: Option<seq<bv8>>,
                       opusLength: nat, speakerBlockId: bv8, micActive: bool, bufferLength: bv8, report: array<bv8>)
      returns (ok: bool)
      requires Valid()
      requires haptics0.Some? ==> |haptics0.value| == 64
      requires haptics1.Some? ==> |haptics1.value| == 64
      requires opus0.Some? ==> |opus0.value| == opusLength
      requires opus1.Some? ==> |opus1.value| == opusLength
      modifies this`sequence, this`audioPacketCounter, report
      ensures Valid()
      ensures ok == (report.Length >= AUDIO_RT_LEN && (haptics0.Some? || haptics1.Some? || opus0.Some? || opus1.Some?))
      ensures !ok ==> report[..] == old(report[..]) && sequence == old(sequence) && audioPacketCounter == old(audioPacketCounter)
      ensures ok ==>
                && sequence == old(sequence) + 1 && audioPacketCounter == old(audioPacketCounter) + 2
                && report[..AUDIO_RT_LEN - 4] == BodyRt(old(sequence), audioPacketCounter, haptics0, haptics1, opus0, opus1,
                                                        speakerBlockId, micActive, bufferLength)
                && SealedReport(OUTPUT_SEED, report[..AUDIO_RT_LEN])
                && report[AUDIO_RT_LEN..] == old(report[AUDIO_RT_LEN..])
    {
      hide SealedReport, RtHeader, RtHaptics, RtSpeaker;
      if report.Length < AUDIO_RT_LEN || (haptics0.None? && haptics1.None? && opus0.None? && opus1.None?) {
        return false;
      }
      StartAudioRt(micActive, bufferLength, report);
      PutRtPayload(haptics0, haptics1, opus0, opus1, OpusCopied(opusLength), speakerBlockId, report);
      assert report[..AUDIO_RT_LEN - 4] == report[..10] + report[10..AUDIO_RT_LEN - 4];
      FillCrc(OUTPUT_SEED, report, AUDIO_RT_LEN);
      ok := true;
    }

    method StartAudioRt(micActive: bool, bufferLength: bv8, report: array<bv8>)
      requires Valid() && report.Length >= AUDIO_RT_LEN
      modifies this`sequence, this`audioPacketCounter, report
      ensures sequence == old(sequence) + 1 && audioPacketCounter == old(audioPacketCounter) + 2
      ensures report[..10] == RtHeader(old(sequence), audioPacketCounter, micActive, bufferLength)
      ensures forall k :: 10 <= k < report.Length ==> report[k] == if k < AUDIO_RT_LEN then 0 else old(report[k])
    {
      hide AudioHeader;
      audioPacketCounter := audioPacketCounter + 2;
      var length := if bufferLength == 0 then 48 else bufferLength;
      StartAudio(0x39, 6, if micActive then 0x7F else 0x7E, length, 4, audioPacketCounter, report, AUDIO_RT_LEN);
    }
  }

  method PutRtPayload(haptics0: Option<seq<bv8>>, haptics1: Option<seq<bv8>>, opus0: Option<seq<bv8>>, opus1: Option<seq<bv8>>,
                      n: nat, speakerBlockId: bv8, report: array<bv8>)
    requires report.Length >= AUDIO_RT_LEN && n <= 200 && forall k :: 10 <= k < AUDIO_RT_LEN ==> report[k] == 0
    requires (haptics0.Some? ==> |haptics0.value| == 64) && (haptics1.Some? ==> |haptics1.value| == 64)
    requires (opus0.Some? ==> n == OpusCopied(|opus0.value|)) && (opus1.Some? ==> n == OpusCopied(|opus1.value|))
    modifies report
    ensures report[..10] == old(report[..10])
    ensures report[10..AUDIO_RT_LEN - 4] ==
              RtHaptics(haptics0, haptics1) + RtSpeaker(opus0, opus1, speakerBlockId) + Repeat<bv8>(0, 1)
    ensures report[AUDIO_RT_LEN..] == old(report[AUDIO_RT_LEN..])
  {
    hide RtHaptics, RtSpeaker;
    PutRtHaptics(haptics0, haptics1, report);
    ghost var block := report[10..140];
    PutRtSpeaker(opus0, opus1, n, speakerBlockId, report);
    assert report[10..140] == block;
    assert report[542..AUDIO_RT_LEN - 4] == Repeat<bv8>(0, 1);
    assert report[10..AUDIO_RT_LEN - 4] == report[10..140] + report[140..542] + report[542..AUDIO_RT_LEN - 4];
  }

  lemma FieldSplits(bytes: seq<bv8>, n: nat, size: nat)
    requires n <= size && n <= |bytes| && (n == |bytes| || n == size)
    ensures Field(bytes, size) == bytes[..n] + Repeat<bv8>(0, size - n)
  {
  }

  // The first n of the given bytes at most, into a cleared block of size bytes.
  method PutIfSome(report: array<bv8>, at: nat, bytes: Option<seq<bv8>>, n: nat, size: nat)
    requires at + size <= report.Length && n <= size && (bytes.Some? ==> n <= |bytes.value| && (n == |bytes.value| || n == size))
    requires forall k :: at <= k < at + size ==> report[k] == 0
    modifies report
    ensures report[at..at + size] == Field(Given(bytes), size)
    ensures forall k :: 0 <= k < report.Length && !(at <= k < at + size) ==> report[k] == old(report[k])
  {
    if bytes.Some? {
      FieldSplits(bytes.value, n, size);
      hide Field;
      Put(report, at, bytes.value[..n]);
      assert report[at + n..at + size] == Repeat<bv8>(0, size - n);
      assert report[at..at + size] == report[at..at + n] + report[at + n..at + size];
    } else {
      assert report[at..at + size] == Field([], size);
    }
  }

  method Put36Payload(haptics: Option<seq<bv8>>, opus: Option<seq<bv8>>, speakerBlockId: bv8, report: array<bv8>)
    requires report.Length >= REPORT36_LEN && forall k :: 76 <= k < REPORT36_LEN ==> report[k] == 0
    modifies report
    ensures report[..76] == old(report[..76])
    ensures report[76..REPORT36_LEN - 4] == Haptics36(haptics) + Speaker36(opus, speakerBlockId) + Repeat<bv8>(0, 50)
    ensures report[REPORT36_LEN..] == old(report[REPORT36_LEN..])
  {
    hide Haptics36, Speaker36;
    Put36Haptics(haptics, report);
    ghost var block := report[76..142];
    Put36Speaker(opus, speakerBlockId, report);
    assert report[76..142] == block;
    assert report[344..REPORT36_LEN - 4] == Repeat<bv8>(0, 50);
    assert report[76..REPORT36_LEN - 4] == report[76..142] + report[142..344] + report[344..REPORT36_LEN - 4];
  }

  method Put36Haptics(haptics: Option<seq<bv8>>, report: array<bv8>)
    requires report.Length >= REPORT36_LEN && forall k :: 76 <= k < 142 ==> report[k] == 0
    modifies report
    ensures report[76..142] == Haptics36(haptics)
    ensures forall k :: 0 <= k < report.Length && !(76 <= k < 142) ==> report[k] == old(report[k])
  {
    report[76] := 0x92;
    report[77] := 64;
    PutIfSome(report, 78, if HasHaptics(haptics) then haptics else None, 64, 64);
    assert report[76..142] == report[76..78] + report[78..142];
  }

  method Put36Speaker(opus: Option<seq<bv8>>, speakerBlockId: bv8, report: array<bv8>)
    requires report.Length >= REPORT36_LEN && forall k :: 142 <= k < 344 ==> report[k] == 0
    modifies report
    ensures report[142..344] == Speaker36(opus, speakerBlockId)
    ensures forall k :: 0 <= k < report.Length && !(142 <= k < 344) ==> report[k] == old(report[k])
  {
    if HasOpus(opus) {
      var id := if speakerBlockId == 0 then SPEAKER_BLOCK_ID else speakerBlockId;
      report[142] := id | 0x80;
      report[143] := 200;
      PutIfSome(report, 144, opus, OpusCopied(|opus.value|), 200);
      assert report[142..344] == [id | 0x80, 200] + report[144..344];
    } else {
      assert report[142..344] == Repeat<bv8>(0, 202);
    }
  }

  method PutRtHaptics(haptics0: Option<seq<bv8>>, haptics1: Option<seq<bv8>>, report: array<bv8>)
    requires report.Length >= AUDIO_RT_LEN && forall k :: 10 <= k < 140 ==> report[k] == 0
    requires (haptics0.Some? ==> |haptics0.value| == 64) && (haptics1.Some? ==> |haptics1.value| == 64)
    modifies report
    ensures report[10..140] == RtHaptics(haptics0, haptics1)
    ensures forall k :: 0 <= k < report.Length && !(10 <= k < 140) ==> report[k] == old(report[k])
  {
    report[10] := 0xD2;
    report[11] := 64;
    PutTwo(report, 12, haptics0, haptics1, 64, 64);
    assert report[10..140] == [0xD2, 64] + report[12..140];
  }

  // Two blocks of the same size side by side.
  method PutTwo(report: array<bv8>, at: nat, first: Option<seq<bv8>>, second: Option<seq<bv8>>, n: nat, size: nat)
    requires at + 2 * size <= report.Length && n <= size
    requires first.Some? ==> n <= |first.value| && (n == |first.value| || n == size)
    requires second.Some? ==> n <= |second.value| && (n == |second.value| || n == size)
    requires forall k :: at <= k < at + 2 * size ==> report[k] == 0
    modifies report
    ensures report[at..at + 2 * size] == Field(Given(first), size) + Field(Given(second), size)
    ensures forall k :: 0 <= k < report.Length && !(at <= k < at + 2 * size) ==> report[k] == old(report[k])
  {
    hide Field, Given;
    PutIfSome(report, at, first, n, size);
    ghost var block := report[at..at + size];
    PutIfSome(report, at + size, second, n, size);
    assert report[at..at + size] == block;
    assert report[at..at + 2 * size] == report[at..at + size] + report[at + size..at + 2 * size];
  }

  method PutRtSpeaker(opus0: Option<seq<bv8>>, opus1: Option<seq<bv8>>, n: nat, speakerBlockId: bv8, report: array<bv8>)
    requires report.Length >= AUDIO_RT_LEN && n <= 200 && forall k :: 140 <= k < 542 ==> report[k] == 0
    requires opus0.Some? ==> n == OpusCopied(|opus0.value|)
    requires opus1.Some? ==> n == OpusCopied(|opus1.value|)
    modifies report
    ensures report[140..542] == RtSpeaker(opus0, opus1, speakerBlockId)
    ensures forall k :: 0 <= k < report.Length && !(140 <= k < 542) ==> report[k] == old(report[k])
  {
    hide Field;
    if opus0.Some? || opus1.Some? {
      var id := if speakerBlockId == 0 then SPEAKER_BLOCK_ID else speakerBlockId;
      report[140] := id | 0xC0;
      report[141] := 200;
      PutTwo(report, 142, opus0, opus1, n, 200);
      assert report[140..542] == [id | 0xC0, 200] + report[142..542];
    } else {
      assert report[140..542] == Repeat<bv8>(0, 402);
    }
  }

  predicate HasHaptics(haptics: Option<seq<bv8>>) {
    haptics.Some? && |haptics.value| >= 64
  }

  predicate HasOpus(opus: Option<seq<bv8>>) {
    opus.Some? && |opus.value| > 0
  }

  function OpusCopied(n: nat): (m: nat)
    ensures m <= n && m <= 200
  {
    if n > 200 then 200 else n
  }
}
