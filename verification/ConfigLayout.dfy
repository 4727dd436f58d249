/** The stored configuration byte by byte: where every field lies, and which bytes are accepted. */
module ConfigLayout {
  import Crc
  import opened WebConfig

  // A 16-bit field, low byte first.
  function LittleEndian(b: seq<bv8>, at: nat): bv16
    requires at + 1 < |b|
  {
    (b[at] as bv16) | ((b[at + 1] as bv16) << 8)
  }

  lemma BodyBytes(c: Config)
    ensures var b := Encoded(c);
            && b[..6] == [0x4D, 0x36, 0x31, 0x43, 5, 23]
            && b[6] == U16Low(c.capabilities) && b[7] == U16High(c.capabilities)
            && b[9] == c.speakerRoute && b[10] == c.cpuGovernor && b[11] == c.cpuProfile
            && b[12] == U16Low(c.manualCpuMhz) && b[13] == U16High(c.manualCpuMhz)
            && b[14] == U16Low(c.hapticsGainQ8) && b[15] == U16High(c.hapticsGainQ8)
  {
    hide FlagBits, U16Low, U16High;
  }

  lemma LaterBytes(c: Config)
    ensures var b := Encoded(c);
            && b[16] == c.idleTimeoutMinutes && b[17] == (if c.powerOffOnSuspend then 1 else 0)
            && b[18] == c.leftDeadzone && b[19] == c.rightDeadzone && b[20] == c.pollingMode
            && b[21] == c.ledBrightness && b[22] == c.audioBuffer
  {
    hide FlagBits, U16Low, U16High;
  }

  /** Every field of an encoded body at its offset. */
  lemma BodyLayout(c: Config)
    ensures var b := Encoded(c);
            && b[..6] == [0x4D, 0x36, 0x31, 0x43, 5, 23]
            && LittleEndian(b, 6) == c.capabilities
            && b[9] == c.speakerRoute && b[10] == c.cpuGovernor && b[11] == c.cpuProfile
            && LittleEndian(b, 12) == c.manualCpuMhz && LittleEndian(b, 14) == c.hapticsGainQ8
            && b[16] == c.idleTimeoutMinutes && b[17] == (if c.powerOffOnSuspend then 1 else 0)
            && b[18] == c.leftDeadzone && b[19] == c.rightDeadzone && b[20] == c.pollingMode
            && b[21] == c.ledBrightness && b[22] == c.audioBuffer
  {
    U16RoundTrip(c.capabilities);
    U16RoundTrip(c.manualCpuMhz);
    U16RoundTrip(c.hapticsGainQ8);
    BodyBytes(c);
    LaterBytes(c);
    hide FlagBits, U16Low, U16High, Encoded;
  }

  /** The four switches are bits 0 to 3 of byte 8, and no other bit is set. */
  lemma SwitchBits(c: Config)
    ensures var b := Encoded(c)[8];
            && (b & 1 == 1 <==> c.microphone) && (b & 2 == 2 <==> c.speaker)
            && (b & 4 == 4 <==> c.autoReconnect) && (b & 8 == 8 <==> c.statusLed)
            && b & 0xF0 == 0
  {
    hide U16Low, U16High;
  }

  // Magic, a known schema, and the size that belongs to it.
  ghost predicate Framed(input: seq<bv8>) {
    && |input| >= 16 && input[..4] == [0x4D, 0x36, 0x31, 0x43]
    && (input[4], input[5]) in {(1, 16), (2, 18), (3, 20), (4, 21), (5, 23)}
    && |input| >= BodyLength(input[4])
  }

  // Every field the schema has lies in its range; polling mode 3 is read as 2.
  ghost predicate InRange(input: seq<bv8>)
    requires Framed(input)
  {
    && input[9] <= 2 && input[10] <= 1 && input[11] <= 3
    && 320 <= LittleEndian(input, 12) <= 400
    && 256 <= LittleEndian(input, 14) <= 512
    && (input[4] >= 2 ==> input[16] <= 60)
    && (input[4] >= 3 ==> input[18] <= 30 && input[19] <= 30)
    && (input[4] >= 4 ==> input[20] <= 3)
    && (input[4] >= 5 ==> 1 <= input[21] <= 100 && 16 <= input[22] <= 127)
  }

  lemma FramingSizes(v: bv8, size: bv8)
    ensures (v, size) in {(1, 16), (2, 18), (3, 20), (4, 21), (5, 23)} <==> KnownVersion(v) && size == BodyByte(v)
    ensures KnownVersion(v) ==> 16 <= BodyLength(v) <= 23
    ensures KnownVersion(v) && v >= 2 ==> BodyLength(v) >= 18
    ensures KnownVersion(v) && v >= 3 ==> BodyLength(v) >= 20
    ensures KnownVersion(v) && v >= 4 ==> BodyLength(v) >= 21
    ensures KnownVersion(v) && v >= 5 ==> BodyLength(v) == 23
  {
  }

  /** A body is accepted exactly when it is framed and in range, and every refusal has its code. */
  lemma AcceptedExactly(input: seq<bv8>)
    ensures Framed(input) ==> |input| >= BodyLength(input[4]) && LongEnough(input)
    ensures var code := Decode(input).code;
            && (code >= 0 <==> Framed(input) && InRange(input))
            && (code == -4 <==> Framed(input) && !InRange(input))
            && (code == -2 <==> |input| >= 16 && input[..4] != [0x4D, 0x36, 0x31, 0x43])
            && (code == -3 <==> |input| >= 16 && input[..4] == [0x4D, 0x36, 0x31, 0x43] && !(1 <= input[4] <= 5))
            && code >= -4
  {
    if |input| >= 16 { FramingSizes(input[4], input[5]); }
    hide BodyByte, BodyLength, Flag;
    if Framed(input) { ValidIsInRange(input); }
    hide Valid, Parsed, InRange;
  }

  // The bytes a framed body's schema promises are there.
  predicate LongEnough(input: seq<bv8>) {
    && |input| >= 16
    && (input[4] >= 2 ==> |input| >= 18) && (input[4] >= 3 ==> |input| >= 20)
    && (input[4] >= 4 ==> |input| >= 21) && (input[4] >= 5 ==> |input| >= 23)
  }

  lemma ValidIsInRange(input: seq<bv8>)
    requires Framed(input) && KnownVersion(input[4]) && LongEnough(input)
    ensures Valid(Parsed(input)) <==> InRange(input)
  {
    hide Flag, BodyByte;
  }

  /** What an accepted or out-of-range body spells out, field by field, with the defaults of older schemas. */
  lemma DecodedFields(input: seq<bv8>)
    requires Framed(input)
    ensures Decode(input).written.Some? && LongEnough(input)
    ensures var c, v := Decode(input).written.value, input[4];
            && c.capabilities == LittleEndian(input, 6)
            && (c.microphone <==> input[8] & 1 != 0) && (c.speaker <==> input[8] & 2 != 0)
            && (c.autoReconnect <==> input[8] & 4 != 0) && (c.statusLed <==> input[8] & 8 != 0)
            && c.speakerRoute == input[9] && c.cpuGovernor == input[10] && c.cpuProfile == input[11]
            && c.manualCpuMhz == LittleEndian(input, 12) && c.hapticsGainQ8 == LittleEndian(input, 14)
            && (if v >= 2 then c.idleTimeoutMinutes == input[16] && (c.powerOffOnSuspend <==> input[17] & 1 != 0)
                else c.idleTimeoutMinutes == 0 && !c.powerOffOnSuspend)
            && (if v >= 3 then c.leftDeadzone == input[18] && c.rightDeadzone == input[19]
                else c.leftDeadzone == 0 && c.rightDeadzone == 0)
            && c.pollingMode == (if v < 4 then 0 else if input[20] == 3 then 2 else input[20])
            && (if v >= 5 then c.ledBrightness == input[21] && c.audioBuffer == input[22]
                else c.ledBrightness == 12 && c.audioBuffer == 48)
  {
    FramingSizes(input[4], input[5]);
    hide Valid, BodyByte, BodyLength;
  }

  /** The record header, and where body and trailer lie. */
  lemma RecordLayout(c: Config)
    ensures var r := RecordOf(c);
            && |r| == 33 && r[..6] == [0x4D, 0x36, 0x31, 0x57, 5, 23]
            && r[6..29] == Encoded(c) && Sealed(r)
  {
    hide Encoded, Crc.Update, Crc.Word, Crc.WordBytes, Crc.Finish;
    var r := RecordOf(c);
    Crc.WordOfBytes(CrcIeee(RecordBody(c)));
    assert r[..29] == RecordBody(c) && r[29..] == Crc.WordBytes(CrcIeee(RecordBody(c)));
  }
}
