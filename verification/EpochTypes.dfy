/** Data of the audio epoch store: eight slots, each collecting 512 USB frames into one epoch. */
module EpochTypes {
  import opened Basics

  const SLOT_COUNT: nat := 8
  const INVALID_SLOT: nat := 255
  const USB_FRAMES: nat := 512
  const USB_FRAME_BYTES: nat := 8
  const PCM_LEN: nat := 1024
  const HAPTICS_LEN: nat := 64
  const HAPTICS_DECIMATION: nat := 16
  const OPUS_LEN: nat := 200

  datatype SlotState =
    | Free
    | Filling
    | ReadyEncode
    | Encoding
    | Complete
    | Reading
    | CancelledEncoding
    | CancelledReading

  type Int16 = v: int | -32768 <= v <= 32767

  // One USB frame: two speaker channels followed by two haptics channels.
  datatype Frame = Frame(speakerLeft: Int16, speakerRight: Int16, hapticsLeft: Int16, hapticsRight: Int16)

  // A frame together with the haptics gain it was ingested with.
  datatype Sample = Sample(frame: Frame, gainQ8: nat)

  datatype Slot = Slot(
    generation: nat,
    epoch: nat,
    capturedUs: nat,
    pcmFrames: nat,
    state: SlotState,
    speakerEnabled: bool,
    haptics: seq<Byte>,
    speakerPcm: seq<int>,
    speakerOpus: seq<Byte>,
    hapticsPeak: nat,
    hapticsNonzero: bool)

  // The counters are unbounded; the point where a 32-bit epoch number matters is the search sentinel.
  datatype Stats = Stats(
    generation: nat,
    nextEpoch: nat,
    generationResets: nat,
    epochsStarted: nat,
    epochsCompleted: nat,
    epochsEmitted: nat,
    epochsDropped: nat,
    epochsStale: nat,
    encodeJobs: nat,
    encodeFailures: nat,
    adjacentPairs: nat,
    epochGaps: nat,
    epochDiscontinuities: nat,
    speakerStateDiscontinuities: nat,
    hapticsNonzeroEpochs: nat,
    hapticsSamplePairs: nat,
    hapticsLastPeak: nat)

  datatype Store = Store(slots: seq<Slot>, filling: nat, stats: Stats)

  // The record handed to the reader: two adjacent epochs of one generation.
  datatype Pair = Pair(
    generation: nat,
    firstEpoch: nat,
    firstCapturedUs: nat,
    secondCapturedUs: nat,
    speakerEnabled: bool,
    firstHaptics: seq<Byte>,
    secondHaptics: seq<Byte>,
    firstOpus: seq<Byte>,
    secondOpus: seq<Byte>)

  ghost predicate WellSized(slot: Slot) {
    && |slot.haptics| == HAPTICS_LEN
    && |slot.speakerPcm| == PCM_LEN
    && |slot.speakerOpus| == OPUS_LEN
    && slot.pcmFrames <= USB_FRAMES
  }
}

/** Sample arithmetic of the ingest path: little-endian decoding and the 16-bit to 8-bit haptics conversion. */
module HapticsMath {
  import opened Basics
  import opened EpochTypes

  function I16(lo: Byte, hi: Byte): Int16 {
    var raw := lo + 256 * hi;
    if raw < 32768 then raw else raw - 65536
  }

  function Pow2(shift: nat): (p: nat)
    ensures p > 0
  {
    if shift == 0 then 1 else 2 * Pow2(shift - 1)
  }

  // The source avoids overflowing on INT32_MIN by negating value + 1 before taking the magnitude.
  function DivPow2TowardZero(value: int, shift: nat): int {
    if value >= 0 then value / Pow2(shift)
    else
      var magnitude := -(value + 1) + 1;
      -(magnitude / Pow2(shift))
  }

  function Pcm16ToI8(sample: int, gainQ8: nat): int {
    var scaled := DivPow2TowardZero(sample * gainQ8, 8);
    var clamped := if scaled > 32767 then 32767 else if scaled < -32768 then -32768 else scaled;
    DivPow2TowardZero(clamped * 127, 15)
  }

  function Pcm16ToI8Unity(sample: int): int {
    DivPow2TowardZero(sample * 127, 15)
  }

  function ConvertHaptics(sample: int, gainQ8: nat): int {
    if gainQ8 == 256 then Pcm16ToI8Unity(sample) else Pcm16ToI8(sample, gainQ8)
  }

  function AsByte(v: int): Byte {
    v % 256
  }

  function Magnitude(sample: int): nat {
    if sample == -128 then 128 else if sample < 0 then -sample else sample
  }

  lemma Pow2Values()
    ensures Pow2(8) == 256 && Pow2(15) == 32768
  {
    assert Pow2(4) == 16;
    assert Pow2(8) == 256;
    assert Pow2(12) == 4096;
  }

  // Division by a power of two rounds toward zero: the remainder takes the sign of the dividend.
  lemma DivPow2RoundsTowardZero(value: int, shift: nat)
    ensures var p: int := Pow2(shift);
            var r := value - DivPow2TowardZero(value, shift) * p;
            if value >= 0 then 0 <= r < p else -p < r <= 0
  {
    var p: int := Pow2(shift);
    var m := if value >= 0 then value else -value;
    assert m == (m / p) * p + m % p;
    assert (-(m / p)) * p == -((m / p) * p);
  }

  // The gain-256 shortcut computes the same byte as the general path, and every conversion fits int8
  // with room to spare: -128 is never produced.
  lemma UnityGainIsGeneralGain(sample: int)
    requires -32768 <= sample <= 32767
    ensures Pcm16ToI8Unity(sample) == Pcm16ToI8(sample, 256)
  {
    Pow2Values();
    assert DivPow2TowardZero(sample * 256, 8) == sample;
  }

  lemma ConversionRange(sample: int, gainQ8: nat)
    requires -32768 <= sample <= 32767
    ensures -127 <= ConvertHaptics(sample, gainQ8) <= 126
    ensures sample >= 0 ==> ConvertHaptics(sample, gainQ8) >= 0
    ensures sample <= 0 ==> ConvertHaptics(sample, gainQ8) <= 0
  {
    Pow2Values();
    var product := sample * gainQ8;
    assert (sample >= 0 ==> product >= 0) && (sample <= 0 ==> product <= 0);
    ScaledRange(product);
  }

  // The value of a byte read as a signed 8-bit number.
  function Int8(b: Byte): int {
    if b < 128 then b else b - 256
  }

  // How far a 16-bit sample reaches after the gain, cut off at the end of the 16-bit range on its side of zero.
  function ScaledLevel(sample: Int16, gainQ8: nat): nat {
    if sample >= 0 then Min(sample * gainQ8 / 256, 32767) else Min((0 - sample) * gainQ8 / 256, 32768)
  }

  /** v is the sample after the gain on the scale of 127 for 32768, rounded toward zero. */
  ghost predicate IsHapticsValue(sample: Int16, gainQ8: nat, v: int) {
    var t := 127 * ScaledLevel(sample, gainQ8);
    if sample >= 0 then 32768 * v <= t < 32768 * (v + 1) else 32768 * -v <= t < 32768 * (-v + 1)
  }

  /** The conversion computes that value at every gain, and the stored byte reads back as it. */
  lemma ConversionIsExact(sample: Int16, gainQ8: nat)
    ensures var v := ConvertHaptics(sample, gainQ8);
            && IsHapticsValue(sample, gainQ8, v)
            && -127 <= v <= 126
            && AsByte(v) == v % 256 && Int8(AsByte(v)) == v
            && Magnitude(v) == (if v >= 0 then v else -v)
  {
    Pow2Values();
    ConversionRange(sample, gainQ8);
    if gainQ8 == 256 {
      UnityGainIsGeneralGain(sample);
      assert sample * 256 / 256 == sample && (0 - sample) * 256 / 256 == 0 - sample;
    }
    ScaledIsLevel(sample, gainQ8);
    LevelToValue(sample, gainQ8);
  }

  function Clipped(scaled: int): int {
    if scaled > 32767 then 32767 else if scaled < -32768 then -32768 else scaled
  }

  lemma ScaledIsLevel(sample: Int16, gainQ8: nat)
    ensures Clipped(DivPow2TowardZero(sample * gainQ8, 8)) ==
              if sample >= 0 then ScaledLevel(sample, gainQ8) else 0 - ScaledLevel(sample, gainQ8)
  {
    Pow2Values();
    if sample >= 0 {
      assert sample * gainQ8 >= 0;
    } else {
      assert (0 - sample) * gainQ8 == 0 - sample * gainQ8 >= 0;
    }
  }

  lemma LevelToValue(sample: Int16, gainQ8: nat)
    requires Clipped(DivPow2TowardZero(sample * gainQ8, 8)) ==
               if sample >= 0 then ScaledLevel(sample, gainQ8) else 0 - ScaledLevel(sample, gainQ8)
    ensures IsHapticsValue(sample, gainQ8, Pcm16ToI8(sample, gainQ8))
  {
    Pow2Values();
    hide ScaledLevel;
    var t: int := ScaledLevel(sample, gainQ8);
    assert Pcm16ToI8(sample, gainQ8) == DivPow2TowardZero((if sample >= 0 then t else -t) * 127, 15);
  }

  lemma ScaledRange(product: int)
    ensures var scaled := DivPow2TowardZero(product, 8);
            (product >= 0 ==> scaled >= 0) && (product <= 0 ==> scaled <= 0)
  {
    Pow2Values();
  }
}
