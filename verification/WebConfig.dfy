/** The web configuration: a versioned 16 to 23 byte body, and the CRC-sealed record it is stored in. */
module WebConfig {
  import opened Basics
  import opened Crc

  const BODY_SIZE: nat := 23
  const RECORD_SIZE: nat := 33
  const SCHEMA_VERSION: bv8 := 5
  const BRIGHTNESS_DEFAULT: bv8 := 12
  const AUDIO_BUFFER_DEFAULT: bv8 := 48
  const CONFIG_MAGIC: seq<bv8> := [0x4D, 0x36, 0x31, 0x43]
  const RECORD_MAGIC: seq<bv8> := [0x4D, 0x36, 0x31, 0x57]

  datatype Config = Config(
    capabilities: bv16,
    microphone: bool,
    speaker: bool,
    autoReconnect: bool,
    statusLed: bool,
    speakerRoute: bv8,
    cpuGovernor: bv8,
    cpuProfile: bv8,
    manualCpuMhz: bv16,
    hapticsGainQ8: bv16,
    idleTimeoutMinutes: bv8,
    powerOffOnSuspend: bool,
    leftDeadzone: bv8,
    rightDeadzone: bv8,
    pollingMode: bv8,
    ledBrightness: bv8,
    audioBuffer: bv8)

  // The return code, and what the decoder wrote into the caller's record, if it got that far.
  datatype Decoded = Decoded(code: int, written: Option<Config>)

  predicate Valid(c: Config) {
    && c.speakerRoute <= 2
    && c.cpuGovernor <= 1
    && c.cpuProfile <= 3
    && 320 <= c.manualCpuMhz <= 400
    && 0x100 <= c.hapticsGainQ8 <= 0x200
    && c.idleTimeoutMinutes <= 60
    && c.leftDeadzone <= 30
    && c.rightDeadzone <= 30
    && c.pollingMode <= 2
    && 1 <= c.ledBrightness <= 100
    && 16 <= c.audioBuffer <= 127
  }

  function U16Low(v: bv16): bv8 {
    (v & 0xFF) as bv8
  }

  function U16High(v: bv16): bv8 {
    (v >> 8) as bv8
  }

  function U16(lo: bv8, hi: bv8): bv16 {
    (lo as bv16) | ((hi as bv16) << 8)
  }

  lemma U16RoundTrip(v: bv16)
    ensures U16(U16Low(v), U16High(v)) == v
  {
  }

  function FlagBits(c: Config): bv8 {
    (if c.microphone then 1 else 0) | (if c.speaker then 2 else 0)
    | (if c.autoReconnect then 4 else 0) | (if c.statusLed then 8 else 0)
  }

  predicate Flag(bits: bv8, mask: bv8) {
    bits & mask != 0
  }

  lemma FlagsRoundTrip(c: Config)
    ensures Flag(FlagBits(c), 1) == c.microphone && Flag(FlagBits(c), 2) == c.speaker
    ensures Flag(FlagBits(c), 4) == c.autoReconnect && Flag(FlagBits(c), 8) == c.statusLed
  {
  }

  function CoreFields(c: Config): seq<bv8> {
    [SCHEMA_VERSION, 23, U16Low(c.capabilities), U16High(c.capabilities),
     FlagBits(c), c.speakerRoute, c.cpuGovernor, c.cpuProfile,
     U16Low(c.manualCpuMhz), U16High(c.manualCpuMhz), U16Low(c.hapticsGainQ8), U16High(c.hapticsGainQ8)]
  }

  function LaterFields(c: Config): seq<bv8> {
    [c.idleTimeoutMinutes, if c.powerOffOnSuspend then 1 else 0,
     c.leftDeadzone, c.rightDeadzone, c.pollingMode, c.ledBrightness, c.audioBuffer]
  }

  /** The current-schema body of a configuration. */
  function Encoded(c: Config): (bytes: seq<bv8>)
    ensures |bytes| == BODY_SIZE
  {
    CONFIG_MAGIC + CoreFields(c) + LaterFields(c)
  }

  // The body size that belongs to a schema version, as the size byte of body and record header holds it.
  function BodyByte(version: bv8): bv8 {
    if version == 1 then 16 else if version == 2 then 18 else if version == 3 then 20 else if version == 4 then 21 else 23
  }

  function BodyLength(version: bv8): nat {
    BodyByte(version) as nat
  }

  predicate KnownVersion(version: bv8) {
    1 <= version <= SCHEMA_VERSION
  }

  function Parsed(input: seq<bv8>): Config
    requires |input| >= 16 && |input| >= BodyLength(input[4]) && KnownVersion(input[4])
  {
    var version := input[4];
    Config(U16(input[6], input[7]),
           Flag(input[8], 1), Flag(input[8], 2), Flag(input[8], 4), Flag(input[8], 8),
           input[9], input[10], input[11],
           U16(input[12], input[13]), U16(input[14], input[15]),
           if version >= 2 then input[16] else 0,
           version >= 2 && Flag(input[17], 1),
           if version >= 3 then input[18] else 0,
           if version >= 3 then input[19] else 0,
           if version >= 4 then (if input[20] == 3 then 2 else input[20]) else 0,
           if version >= 5 then input[21] else BRIGHTNESS_DEFAULT,
           if version >= 5 then input[22] else AUDIO_BUFFER_DEFAULT)
  }

  function Decode(input: seq<bv8>): Decoded {
    if |input| < 16 then Decoded(-1, None)
    else if input[..4] != CONFIG_MAGIC then Decoded(-2, None)
    else if !KnownVersion(input[4]) then Decoded(-3, None)
    else if input[5] != BodyByte(input[4]) || |input| < BodyLength(input[4]) then Decoded(-1, None)
    else Decoded(if Valid(Parsed(input)) then BodyLength(input[4]) else -4, Some(Parsed(input)))
  }

  function CrcIeee(data: seq<bv8>): bv32 {
    Crc.Finish(Update(ALL_ONES, data))
  }

  function RecordHeader(): (bytes: seq<bv8>)
    ensures |bytes| == 6
  {
    RECORD_MAGIC + [SCHEMA_VERSION, 23]
  }

  function RecordBody(c: Config): (bytes: seq<bv8>)
    ensures |bytes| == RECORD_SIZE - 4
  {
    RecordHeader() + Encoded(c)
  }

  function RecordOf(c: Config): (bytes: seq<bv8>)
    ensures |bytes| == RECORD_SIZE
  {
    RecordBody(c) + WordBytes(CrcIeee(RecordBody(c)))
  }

  predicate RecordLength(n: nat) {
    n in {26, 28, 30, 31, 33}
  }

  predicate Sealed(record: seq<bv8>) {
    |record| >= 4 && Word(record[|record| - 4..]) == CrcIeee(record[..|record| - 4])
  }

  function DecodeRecord(input: seq<bv8>): Decoded {
    if !RecordLength(|input|) then Decoded(-1, None)
    else if input[..4] != RECORD_MAGIC then Decoded(-2, None)
    else if !KnownVersion(input[4]) || input[5] != BodyByte(input[4]) then Decoded(-3, None)
    else if |input| != BodyLength(input[4]) + 10 then Decoded(-1, None)
    else if !Sealed(input) then Decoded(-5, None)
    else
      var body := Decode(input[6..6 + BodyLength(input[4])]);
      Decoded(if body.code < 0 then -4 else |input|, body.written)
  }

  // ---- the byte-writing codecs ----

  method PackFlags(config: Config) returns (flags: bv8)
    ensures flags == FlagBits(config)
  {
    flags := 0;
    if config.microphone { flags := flags | 1; }
    if config.speaker { flags := flags | 2; }
    if config.autoReconnect { flags := flags | 4; }
    if config.statusLed { flags := flags | 8; }
  }

  method Clear(output: array<bv8>, at: nat, n: nat)
    requires at + n <= output.Length
    modifies output
    ensures forall k :: 0 <= k < output.Length ==> output[k] == if at <= k < at + n then 0 else old(output[k])
  {
    for i := 0 to n
      invariant forall k :: 0 <= k < output.Length ==> output[k] == if at <= k < at + i then 0 else old(output[k])
    {
      output[at + i] := 0;
    }
  }

  // memcpy of a short run of bytes.
  method Put(output: array<bv8>, at: nat, bytes: seq<bv8>)
    requires at + |bytes| <= output.Length
    modifies output
    ensures output[at..at + |bytes|] == bytes
    ensures forall k :: 0 <= k < output.Length && !(at <= k < at + |bytes|) ==> output[k] == old(output[k])
  {
    for i := 0 to |bytes|
      invariant forall k :: 0 <= k < output.Length ==> output[k] == if at <= k < at + i then bytes[k - at] else old(output[k])
    {
      output[at + i] := bytes[i];
    }
  }

  // m61_web_config_encode writing at output[at..at + size].
  method EncodeConfig(config: Config, output: array<bv8>, at: nat, size: nat) returns (code: int)
    requires at + size <= output.Length
    modifies output
    ensures code == if Valid(config) && size >= BODY_SIZE then BODY_SIZE else -1
    ensures code < 0 ==> output[..] == old(output[..])
    ensures code >= 0 ==> output[at..at + BODY_SIZE] == Encoded(config)
    ensures forall k :: 0 <= k < output.Length && !(at <= k < at + BODY_SIZE) ==> output[k] == old(output[k])
  {
    hide FlagBits, U16Low, U16High, CoreFields, LaterFields, Valid;
    if !Valid(config) || size < BODY_SIZE {
      return -1;
    }
    Clear(output, at, BODY_SIZE);
    Put(output, at, CONFIG_MAGIC);
    WriteCore(config, output, at);
    WriteLater(config, output, at);
    code := BODY_SIZE;
    assert output[at..at + 4] == CONFIG_MAGIC;
    assert output[at + 4..at + 16] == CoreFields(config);
    assert output[at..at + BODY_SIZE] == output[at..at + 4] + output[at + 4..at + 16] + output[at + 16..at + 23];
  }

  // Bytes 4 to 9 and 10 to 15: the fields every schema version has.
  method WriteCore(config: Config, output: array<bv8>, at: nat)
    requires at + BODY_SIZE <= output.Length
    modifies output
    ensures output[at + 4..at + 16] == CoreFields(config)
    ensures forall k :: 0 <= k < output.Length && !(at + 4 <= k < at + 16) ==> output[k] == old(output[k])
  {
    hide FlagBits, U16Low, U16High;
    WriteIdentity(config, output, at);
    WriteRouting(config, output, at);
    assert output[at + 4..at + 16] == output[at + 4..at + 10] + output[at + 10..at + 16];
  }

  method WriteIdentity(config: Config, output: array<bv8>, at: nat)
    requires at + BODY_SIZE <= output.Length
    modifies output
    ensures output[at + 4..at + 10] == CoreFields(config)[..6]
    ensures forall k :: 0 <= k < output.Length && !(at + 4 <= k < at + 10) ==> output[k] == old(output[k])
  {
    hide FlagBits, U16Low, U16High;
    var flags := PackFlags(config);
    output[at + 4] := SCHEMA_VERSION;
    output[at + 5] := 23;
    output[at + 6] := U16Low(config.capabilities);
    output[at + 7] := U16High(config.capabilities);
    output[at + 8] := flags;
    output[at + 9] := config.speakerRoute;
  }

  method WriteRouting(config: Config, output: array<bv8>, at: nat)
    requires at + BODY_SIZE <= output.Length
    modifies output
    ensures output[at + 10..at + 16] == CoreFields(config)[6..]
    ensures forall k :: 0 <= k < output.Length && !(at + 10 <= k < at + 16) ==> output[k] == old(output[k])
  {
    output[at + 10] := config.cpuGovernor;
    output[at + 11] := config.cpuProfile;
    WriteMhzAndGain(config, output, at);
    assert output[at + 10..at + 16] == [config.cpuGovernor, config.cpuProfile] + output[at + 12..at + 16];
  }

  method WriteMhzAndGain(config: Config, output: array<bv8>, at: nat)
    requires at + BODY_SIZE <= output.Length
    modifies output
    ensures output[at + 12..at + 16] == CoreFields(config)[8..]
    ensures forall k :: 0 <= k < output.Length && !(at + 12 <= k < at + 16) ==> output[k] == old(output[k])
  {
    hide FlagBits, U16Low, U16High;
    output[at + 12] := U16Low(config.manualCpuMhz);
    output[at + 13] := U16High(config.manualCpuMhz);
    output[at + 14] := U16Low(config.hapticsGainQ8);
    output[at + 15] := U16High(config.hapticsGainQ8);
  }

  // Bytes 16 to 22: the fields added by schema versions 2 to 5. Byte 17 has been cleared.
  method WriteLater(config: Config, output: array<bv8>, at: nat)
    requires at + BODY_SIZE <= output.Length && output[at + 17] == 0
    modifies output
    ensures output[at + 16..at + 23] == LaterFields(config)
    ensures forall k :: 0 <= k < output.Length && !(at + 16 <= k < at + 23) ==> output[k] == old(output[k])
  {
    WritePowerOff(config, output, at);
    WriteTail(config, output, at);
    assert output[at + 16..at + 18] == LaterFields(config)[..2];
    assert output[at + 16..at + 23] == output[at + 16..at + 18] + output[at + 18..at + 23];
  }

  method WritePowerOff(config: Config, output: array<bv8>, at: nat)
    requires at + BODY_SIZE <= output.Length && output[at + 17] == 0
    modifies output
    ensures output[at + 16..at + 18] == LaterFields(config)[..2]
    ensures forall k :: 0 <= k < output.Length && !(at + 16 <= k < at + 18) ==> output[k] == old(output[k])
  {
    output[at + 16] := config.idleTimeoutMinutes;
    if config.powerOffOnSuspend { output[at + 17] := 1; }
  }

  method WriteTail(config: Config, output: array<bv8>, at: nat)
    requires at + BODY_SIZE <= output.Length
    modifies output
    ensures output[at + 18..at + 23] == LaterFields(config)[2..]
    ensures forall k :: 0 <= k < output.Length && !(at + 18 <= k < at + 23) ==> output[k] == old(output[k])
  {
    output[at + 18] := config.leftDeadzone;
    output[at + 19] := config.rightDeadzone;
    output[at + 20] := config.pollingMode;
    output[at + 21] := config.ledBrightness;
    output[at + 22] := config.audioBuffer;
  }

  /** On an invalid configuration the header has already been written and the rest of the record cleared. */
  method EncodeRecord(config: Config, output: array<bv8>) returns (code: int)
    modifies output
    ensures code == if Valid(config) && output.Length >= RECORD_SIZE then RECORD_SIZE else -1
    ensures code >= 0 ==> output[..] == RecordOf(config) + old(output[..])[RECORD_SIZE..]
    ensures !Valid(config) && output.Length >= RECORD_SIZE ==>
              output[..] == RecordHeader() + Repeat<bv8>(0, RECORD_SIZE - 6) + old(output[..])[RECORD_SIZE..]
    ensures output.Length < RECORD_SIZE ==> output[..] == old(output[..])
  {
    hide Encoded, Update, Word, WordBytes;
    if output.Length < RECORD_SIZE {
      return -1;
    }
    ghost var rest := output[RECORD_SIZE..];
    Clear(output, 0, RECORD_SIZE);
    Put(output, 0, RecordHeader());
    var body := EncodeConfig(config, output, 6, BODY_SIZE);
    assert output[..6] == RecordHeader();
    assert output[RECORD_SIZE..] == rest;
    if body < 0 {
      assert output[6..RECORD_SIZE] == Repeat<bv8>(0, RECORD_SIZE - 6);
      assert output[..] == output[..6] + output[6..RECORD_SIZE] + output[RECORD_SIZE..];
      return body;
    }
    assert output[..RECORD_SIZE - 4] == output[..6] + output[6..6 + BODY_SIZE] == RecordBody(config);
    var crc := UpdateBitwise(ALL_ONES, output[..RECORD_SIZE - 4]);
    Put(output, RECORD_SIZE - 4, WordBytes(Crc.Finish(crc)));
    code := RECORD_SIZE;
    assert output[RECORD_SIZE..] == rest;
    assert output[..RECORD_SIZE - 4] == RecordBody(config);
    assert output[..] == output[..RECORD_SIZE - 4] + output[RECORD_SIZE - 4..RECORD_SIZE] + output[RECORD_SIZE..];
  }

  // The field by field part of m61_web_config_decode.
  method ParseFields(input: seq<bv8>) returns (config: Config)
    requires |input| >= 16 && KnownVersion(input[4]) && |input| >= BodyLength(input[4])
    ensures config == Parsed(input)
  {
    hide U16, Flag;
    var version := input[4];
    config := Config(U16(input[6], input[7]),
                     Flag(input[8], 1), Flag(input[8], 2), Flag(input[8], 4), Flag(input[8], 8),
                     input[9], input[10], input[11], U16(input[12], input[13]), U16(input[14], input[15]),
                     0, false, 0, 0, 0, BRIGHTNESS_DEFAULT, AUDIO_BUFFER_DEFAULT);
    config := if version >= 2 then config.(idleTimeoutMinutes := input[16], powerOffOnSuspend := Flag(input[17], 1)) else config;
    config := if version >= 3 then config.(leftDeadzone := input[18], rightDeadzone := input[19]) else config;
    if version >= 4 {
      config := config.(pollingMode := if input[20] == 3 then 2 else input[20]);
    }
    config := if version >= SCHEMA_VERSION then config.(ledBrightness := input[21], audioBuffer := input[22]) else config;
  }

  method DecodeConfig(input: seq<bv8>) returns (result: Decoded)
    ensures result == Decode(input)
  {
    hide Parsed, Valid;
    if |input| < 16 {
      return Decoded(-1, None);
    }
    if input[..4] != CONFIG_MAGIC {
      return Decoded(-2, None);
    }
    var version := input[4];
    if version != 1 && version != 2 && version != 3 && version != 4 && version != SCHEMA_VERSION {
      return Decoded(-3, None);
    }
    if input[5] != BodyByte(version) || |input| < BodyLength(version) {
      return Decoded(-1, None);
    }
    var config := ParseFields(input);
    result := Decoded(if Valid(config) then BodyLength(version) else -4, Some(config));
  }

  method DecodeRecordBytes(input: seq<bv8>) returns (result: Decoded)
    ensures result == DecodeRecord(input)
  {
    hide Update, Word, Decode;
    if |input| != 33 && |input| != 30 && |input| != 31 && |input| != 28 && |input| != 26 {
      return Decoded(-1, None);
    }
    if input[..4] != RECORD_MAGIC {
      return Decoded(-2, None);
    }
    var version := input[4];
    if !KnownVersion(version) || input[5] != BodyByte(version) {
      return Decoded(-3, None);
    }
    var expected := BodyLength(version) + 10;
    if |input| != expected {
      return Decoded(-1, None);
    }
    var actual := UpdateBitwise(ALL_ONES, input[..expected - 4]);
    if Crc.Finish(actual) != Word(input[expected - 4..]) {
      return Decoded(-5, None);
    }
    var body := DecodeConfig(input[6..6 + BodyLength(version)]);
    result := Decoded(if body.code < 0 then -4 else expected, body.written);
  }

  // ---- round trips and migration ----

  /** Every valid configuration survives its body unchanged. */
  lemma BodyRoundTrip(c: Config)
    requires Valid(c)
    ensures Decode(Encoded(c)) == Decoded(BODY_SIZE, Some(c))
  {
    var e := Encoded(c);
    assert e[..4] == CONFIG_MAGIC;
    FieldsReadBack(c);
    assert Parsed(e) == c;
  }

  lemma FieldsReadBack(c: Config)
    requires Valid(c)
    ensures var e := Encoded(c);
            e[4] == SCHEMA_VERSION && Parsed(e) == c
  {
    hide U16Low, U16High, U16, Flag, FlagBits;
    U16RoundTrip(c.capabilities);
    U16RoundTrip(c.manualCpuMhz);
    U16RoundTrip(c.hapticsGainQ8);
    FlagsRoundTrip(c);
    SuspendBit();
  }

  lemma SuspendBit()
    ensures Flag(1, 1) && !Flag(0, 1)
  {
  }

  /** Every valid configuration survives the record it is stored in. */
  lemma RecordRoundTrip(c: Config)
    requires Valid(c)
    ensures DecodeRecord(RecordOf(c)) == Decoded(RECORD_SIZE, Some(c))
  {
    hide Encoded, Update, Word, WordBytes, Decode;
    var r := RecordOf(c);
    BodyRoundTrip(c);
    WordOfBytes(CrcIeee(RecordBody(c)));
    assert r[..4] == RECORD_MAGIC;
    assert r[RECORD_SIZE - 4..] == WordBytes(CrcIeee(RecordBody(c)));
    assert r[..RECORD_SIZE - 4] == RecordBody(c);
    assert r[6..6 + BODY_SIZE] == Encoded(c);
  }

  // What each schema version leaves to its default.
  ghost predicate Migrated(version: bv8, input: seq<bv8>, c: Config) {
    && (version < 2 ==> c.idleTimeoutMinutes == 0 && !c.powerOffOnSuspend)
    && (version < 3 ==> c.leftDeadzone == 0 && c.rightDeadzone == 0)
    && (version < 4 ==> c.pollingMode == 0)
    && (version >= 4 && |input| > 20 && input[20] == 3 ==> c.pollingMode == 2)
    && (version < 5 ==> c.ledBrightness == BRIGHTNESS_DEFAULT && c.audioBuffer == AUDIO_BUFFER_DEFAULT)
  }

  /**
   Whatever is accepted, from any of the five schemas, is valid, has the documented defaults for the fields its
   schema lacks, and survives re-encoding unchanged. A body that passes every framing check is accepted exactly
   when the configuration it spells out is valid.
   */
  lemma AcceptedBodyIsMigrated(input: seq<bv8>)
    ensures var d := Decode(input);
            && (d.code >= 0 ==>
                  && d.written.Some? && Valid(d.written.value)
                  && d.code == BodyLength(input[4]) <= |input|
                  && Migrated(input[4], input, d.written.value)
                  && Decode(Encoded(d.written.value)) == Decoded(BODY_SIZE, d.written))
            && (d.written.Some? ==> (d.code >= 0 <==> Valid(d.written.value)))
  {
    hide Encoded;
    var d := Decode(input);
    if d.code >= 0 {
      assert Valid(d.written.value);
      BodyRoundTrip(d.written.value);
    }
  }

  /**
   The same for stored records. The defaults follow the schema version inside the body, which the decoder lets
   differ from the version in the record header as long as it is not newer.
   */
  lemma AcceptedRecordIsMigrated(input: seq<bv8>)
    requires DecodeRecord(input).code >= 0
    ensures var d := DecodeRecord(input);
            && d.written.Some? && Valid(d.written.value)
            && 1 <= input[10] <= input[4] <= SCHEMA_VERSION
            && Migrated(input[10], input[6..], d.written.value)
            && DecodeRecord(RecordOf(d.written.value)) == Decoded(RECORD_SIZE, d.written)
  {
    hide Encoded, RecordOf, Sealed, Valid, Parsed;
    var d := DecodeRecord(input);
    var body := input[6..6 + BodyLength(input[4])];
    AcceptedBodyIsMigrated(body);
    BodyLengthSaysVersion(body[4], input[4]);
    RecordRoundTrip(d.written.value);
  }

  lemma BodyLengthSaysVersion(v: bv8, w: bv8)
    ensures KnownVersion(v) && KnownVersion(w) && BodyLength(v) <= BodyLength(w) ==> v <= w
  {
  }

  // ---- tamper detection ----

  /** A record is sealed exactly when the CRC register over all of it, trailer included, ends in the residue. */
  lemma SealedAtResidue(record: seq<bv8>)
    requires |record| >= 4
    ensures Sealed(record) <==> Update(ALL_ONES, record) == RESIDUE
  {
    hide Update, Word;
    assert record == record[..|record| - 4] + record[|record| - 4..];
    SealedExactlyAtResidue(ALL_ONES, record[..|record| - 4], record[|record| - 4..]);
  }

  /** A sealed record altered only inside four consecutive bytes, body or trailer or both, is refused. */
  lemma AlteredRecordIsRefused(record: seq<bv8>, altered: seq<bv8>, k: nat)
    requires RecordLength(|record|) && Sealed(record)
    requires DifferOnlyIn(record, altered, k) && altered != record
    ensures DecodeRecord(altered).code in {-1, -2, -3, -5} && DecodeRecord(altered).written == None
  {
    hide Update, Word, Decode, Sealed;
    SealedAtResidue(record);
    SealedAtResidue(altered);
    if Sealed(altered) {
      WindowIsDetected(ALL_ONES, record, altered, k);
    }
  }

  /** Exactly which byte strings the record decoder accepts. */
  lemma RecordAcceptance(input: seq<bv8>)
    ensures DecodeRecord(input).code >= 0 <==>
              && RecordLength(|input|) && input[..4] == RECORD_MAGIC
              && KnownVersion(input[4]) && input[5] == BodyByte(input[4]) && |input| == BodyLength(input[4]) + 10
              && Update(ALL_ONES, input) == RESIDUE
              && Decode(input[6..|input| - 4]).code >= 0
    ensures DecodeRecord(input).code >= 0 ==> DecodeRecord(input).code == |input|
  {
    hide Update, Word, Decode, Sealed;
    if |input| >= 4 {
      SealedAtResidue(input);
    }
  }
}
