/** The 512 to 480 frame speaker resampler: the periodic 16 to 15 block form against the general recurrence. */
module Resampler {

  const IN_FRAMES: nat := 512
  const OUT_FRAMES: nat := 480

  function TruncDiv(x: int, d: int): int
    requires d > 0
  {
    if x >= 0 then x / d else -((-x) / d)
  }

  function ClampI16(v: int): int {
    if v > 32767 then 32767 else if v < -32768 then -32768 else v
  }

  // delta / den, rounded to the nearest integer by adding half of den away from zero before truncating.
  function Rounded(delta: int, half: nat, den: nat): int
    requires den > 0
  {
    TruncDiv(if delta >= 0 then delta + half else delta - half, den)
  }

  function Point(a: int, b: int, frac: nat): int {
    ClampI16(a + Rounded((b - a) * frac, OUT_FRAMES / 2, OUT_FRAMES))
  }

  function BlockPoint(a: int, b: int, i: nat): int {
    ClampI16(a + Rounded((b - a) * i, 7, 15))
  }

  /** Output frame n lies at position n * 512 / 480 of the input: whole part and remainder over 480. */
  function Position(n: nat): nat {
    n * IN_FRAMES / OUT_FRAMES
  }

  function Remainder(n: nat): nat {
    n * IN_FRAMES % OUT_FRAMES
  }

  /** No read leaves the source: both frames an output mixes exist. */
  lemma ReadsStayInside(n: nat)
    requires n < OUT_FRAMES
    ensures Position(n) + 1 < IN_FRAMES && Remainder(n) < OUT_FRAMES
  {
  }

  // The two channels mixed at source frame f; the input channels come swapped.
  function MixedFrame(src: seq<int>, f: nat, frac: nat): (int, int)
    requires 2 * f + 3 < |src|
  {
    (Point(src[2 * f + 1], src[2 * f + 3], frac), Point(src[2 * f], src[2 * f + 2], frac))
  }

  // What output frame n must be.
  function Output(src: seq<int>, n: nat): (int, int)
    requires |src| == 2 * IN_FRAMES && n < OUT_FRAMES
  {
    ReadsStayInside(n);
    MixedFrame(src, Position(n), Remainder(n))
  }

  ghost predicate Resampled(dst: seq<int>, src: seq<int>, n: nat)
    requires |src| == 2 * IN_FRAMES && |dst| >= 2 * n && n <= OUT_FRAMES
  {
    forall m :: 0 <= m < n ==> (dst[2 * m], dst[2 * m + 1]) == Output(src, m)
  }

  /** The recurrence: adding 512 to the remainder advances the source by one frame or by two. */
  lemma RecurrenceTracksPosition(n: nat)
    ensures var frac := Remainder(n) + IN_FRAMES;
            if frac >= 2 * OUT_FRAMES then
              Position(n + 1) == Position(n) + 2 && Remainder(n + 1) == frac - 2 * OUT_FRAMES
            else
              Position(n + 1) == Position(n) + 1 && Remainder(n + 1) == frac - OUT_FRAMES
  {
  }

  /** The period: within a block of 15 outputs the remainder is 32 per output and the source never skips. */
  lemma BlockPosition(block: nat, i: nat)
    requires i < 15
    ensures Position(15 * block + i) == 16 * block + i && Remainder(15 * block + i) == 32 * i
  {
  }

  /** Rounding by 7 over 15 gives, bit for bit, what rounding by 240 over 480 gives at remainder 32 i. */
  lemma BlockPointIsPoint(a: int, b: int, i: nat)
    ensures BlockPoint(a, b, i) == Point(a, b, 32 * i)
  {
    var d := (b - a) * i;
    assert (b - a) * (32 * i) == 32 * d;
    RoundingsAgree(d);
  }

  lemma RoundingsAgree(d: int)
    ensures Rounded(d, 7, 15) == Rounded(32 * d, 240, 480)
  {
    if d >= 0 {
      assert 32 * d + 240 == 16 * (2 * d + 15);
    } else {
      assert 240 - 32 * d == 16 * (15 - 2 * d);
    }
  }

  /**
   Each output lies between its two source samples and within half a unit of the exact interpolation, so the
   clamp never acts, and no intermediate value leaves 32 bits.
   */
  lemma OutputLiesBetween(a: int, b: int, frac: nat)
    requires -32768 <= a <= 32767 && -32768 <= b <= 32767 && frac < OUT_FRAMES
    ensures var r := a + Rounded((b - a) * frac, 240, 480);
            && (if a <= b then a <= r <= b else b <= r <= a)
            && Point(a, b, frac) == r
            && -240 <= 480 * (r - a) - (b - a) * frac <= 240
            && -0x8000_0000 <= (b - a) * frac - 240 && (b - a) * frac + 240 < 0x8000_0000
  {
    var delta := (b - a) * frac;
    if b >= a {
      assert 0 <= delta <= (b - a) * 479 by { Monotone(b - a, frac, 479); }
    } else {
      assert 0 <= -delta <= (a - b) * 479 by { Monotone(a - b, frac, 479); }
    }
  }

  /**
   Each output frame is the input at n * 512 / 480, with its channels exchanged: the left output interpolates the
   right input and the other way round, each within half a unit.
   */
  lemma OutputIsNearest(src: seq<int>, n: nat)
    requires |src| == 1024 && n < 480 && forall k :: 0 <= k < |src| ==> -32768 <= src[k] <= 32767
    ensures var f, frac := n * 512 / 480, n * 512 % 480;
            && f + 1 < 512
            && var (left, right) := Output(src, n);
               && -240 <= 480 * (left - src[2 * f + 1]) - (src[2 * f + 3] - src[2 * f + 1]) * frac <= 240
               && -240 <= 480 * (right - src[2 * f]) - (src[2 * f + 2] - src[2 * f]) * frac <= 240
  {
    ReadsStayInside(n);
    var f := Position(n);
    OutputLiesBetween(src[2 * f + 1], src[2 * f + 3], Remainder(n));
    OutputLiesBetween(src[2 * f], src[2 * f + 2], Remainder(n));
    hide Point;
  }

  lemma Monotone(x: nat, m: nat, n: nat)
    requires m <= n
    ensures 0 <= x * m <= x * n
  {
  }

  method MixInBlock(a: int, b: int, i: nat) returns (v: int)
    ensures v == Point(a, b, 32 * i)
  {
    var delta := (b - a) * i;
    if delta >= 0 {
      delta := delta + 7;
    } else {
      delta := delta - 7;
    }
    v := ClampI16(a + TruncDiv(delta, 15));
    BlockPointIsPoint(a, b, i);
  }

  // The channel loop of output i of a block.
  method BlockFrame(dst: array<int>, src: array<int>, block: nat, i: nat)
    requires src.Length == 2 * IN_FRAMES && dst.Length >= 2 * OUT_FRAMES && dst != src
    requires block < 32 && i < 15 && Resampled(dst[..], src[..], 15 * block + i)
    modifies dst
    ensures Resampled(dst[..], src[..], 15 * block + i + 1)
    ensures dst[2 * OUT_FRAMES..] == old(dst[2 * OUT_FRAMES..])
  {
    hide Point, Position, Remainder, Resampled, Output;
    ghost var n := 15 * block + i;
    ghost var want := MixedFrame(src[..], 16 * block + i, 32 * i);
    for channel := 0 to 2
      invariant forall k :: 0 <= k < dst.Length && !(2 * n <= k < 2 * n + channel) ==> dst[k] == old(dst[k])
      invariant channel >= 1 ==> dst[2 * n] == want.0
      invariant channel == 2 ==> dst[2 * n + 1] == want.1
    {
      var sourceChannel := 1 - channel;
      var a := src[block * 16 * 2 + i * 2 + sourceChannel];
      var b := src[block * 16 * 2 + i * 2 + sourceChannel + 2];
      var mixed := MixInBlock(a, b, i);
      dst[block * 15 * 2 + i * 2 + channel] := mixed;
    }
    BlockPosition(block, i);
    OneMoreFrame(old(dst[..]), dst[..], src[..], n);
  }

  lemma OneMoreFrame(before: seq<int>, after: seq<int>, src: seq<int>, n: nat)
    requires |src| == 2 * IN_FRAMES && |before| == |after| >= 2 * OUT_FRAMES && n < OUT_FRAMES
    requires Resampled(before, src, n)
    requires forall k :: 0 <= k < |after| && !(2 * n <= k < 2 * n + 2) ==> after[k] == before[k]
    requires Position(n) + 1 < IN_FRAMES
    requires (after[2 * n], after[2 * n + 1]) == MixedFrame(src, Position(n), Remainder(n))
    ensures Resampled(after, src, n + 1)
    ensures after[2 * OUT_FRAMES..] == before[2 * OUT_FRAMES..]
  {
    hide Position, Remainder, Point, MixedFrame;
    forall m | 0 <= m < n + 1
      ensures (after[2 * m], after[2 * m + 1]) == Output(src, m)
    {
      if m < n {
        assert (before[2 * m], before[2 * m + 1]) == Output(src, m);
      }
    }
  }

  /** The block form: 32 blocks of 15 outputs. */
  method ResampleBlocks(dst: array<int>, src: array<int>)
    requires src.Length == 2 * IN_FRAMES && dst.Length >= 2 * OUT_FRAMES && dst != src
    modifies dst
    ensures Resampled(dst[..], src[..], OUT_FRAMES)
    ensures dst[2 * OUT_FRAMES..] == old(dst[2 * OUT_FRAMES..])
  {
    hide Resampled;
    NothingYet(dst[..], src[..]);
    for block := 0 to 32
      invariant Resampled(dst[..], src[..], 15 * block)
      invariant dst[2 * OUT_FRAMES..] == old(dst[2 * OUT_FRAMES..])
    {
      for i := 0 to 15
        invariant Resampled(dst[..], src[..], 15 * block + i)
        invariant dst[2 * OUT_FRAMES..] == old(dst[2 * OUT_FRAMES..])
      {
        BlockFrame(dst, src, block, i);
      }
    }
  }

  lemma NothingYet(dst: seq<int>, src: seq<int>)
    requires |src| == 2 * IN_FRAMES
    ensures Resampled(dst, src, 0)
  {
  }

  method Mix(a: int, b: int, frac: nat) returns (v: int)
    ensures v == Point(a, b, frac)
  {
    var delta := (b - a) * frac;
    if delta >= 0 {
      delta := delta + OUT_FRAMES / 2;
    } else {
      delta := delta - OUT_FRAMES / 2;
    }
    v := ClampI16(a + TruncDiv(delta, OUT_FRAMES));
  }

  // The channel loop of one output frame of the general form.
  method GeneralFrame(dst: array<int>, src: array<int>, outFrame: nat, srcFrame: nat, frac: nat)
    requires src.Length == 2 * IN_FRAMES && dst.Length >= 2 * OUT_FRAMES && dst != src
    requires outFrame < OUT_FRAMES && srcFrame == Position(outFrame) && frac == Remainder(outFrame)
    requires Resampled(dst[..], src[..], outFrame)
    modifies dst
    ensures Resampled(dst[..], src[..], outFrame + 1)
    ensures dst[2 * OUT_FRAMES..] == old(dst[2 * OUT_FRAMES..])
  {
    ReadsStayInside(outFrame);
    hide Position, Remainder, Point, Resampled, Output;
    ghost var want := MixedFrame(src[..], srcFrame, frac);
    var nextFrame := srcFrame + 1;
    for channel := 0 to 2
      invariant forall k :: 0 <= k < dst.Length && !(2 * outFrame <= k < 2 * outFrame + channel) ==> dst[k] == old(dst[k])
      invariant channel >= 1 ==> dst[2 * outFrame] == want.0
      invariant channel == 2 ==> dst[2 * outFrame + 1] == want.1
    {
      var sourceChannel := 1 - channel;
      var a := src[srcFrame * 2 + sourceChannel];
      var b := src[nextFrame * 2 + sourceChannel];
      var mixed := Mix(a, b, frac);
      dst[outFrame * 2 + channel] := mixed;
    }
    OneMoreFrame(old(dst[..]), dst[..], src[..], outFrame);
  }

  /** The general form: the recurrence over source frame and remainder. */
  method ResampleGeneral(dst: array<int>, src: array<int>)
    requires src.Length == 2 * IN_FRAMES && dst.Length >= 2 * OUT_FRAMES && dst != src
    modifies dst
    ensures Resampled(dst[..], src[..], OUT_FRAMES)
    ensures dst[2 * OUT_FRAMES..] == old(dst[2 * OUT_FRAMES..])
  {
    NothingYet(dst[..], src[..]);
    var srcFrame, frac := 0, 0;
    assert srcFrame == Position(0) && frac == Remainder(0);
    hide Resampled, Position, Remainder;
    for outFrame := 0 to OUT_FRAMES
      invariant srcFrame == Position(outFrame) && frac == Remainder(outFrame)
      invariant Resampled(dst[..], src[..], outFrame)
      invariant dst[2 * OUT_FRAMES..] == old(dst[2 * OUT_FRAMES..])
    {
      GeneralFrame(dst, src, outFrame, srcFrame, frac);
      RecurrenceTracksPosition(outFrame);
      frac := frac + IN_FRAMES;
      if frac >= 2 * OUT_FRAMES {
        srcFrame := srcFrame + 2;
        frac := frac - 2 * OUT_FRAMES;
      } else {
        srcFrame := srcFrame + 1;
        frac := frac - OUT_FRAMES;
      }
    }
  }

  // ---- the two forms as functions ----

  /** Source frame and remainder the recurrence has reached at output n. */
  function Cursor(n: nat): (nat, nat) {
    if n == 0 then (0, 0)
    else
      var (srcFrame, frac) := Cursor(n - 1);
      if frac + IN_FRAMES >= 2 * OUT_FRAMES then (srcFrame + 2, frac + IN_FRAMES - 2 * OUT_FRAMES)
      else (srcFrame + 1, frac + IN_FRAMES - OUT_FRAMES)
  }

  lemma {:induction false} CursorIsPosition(n: nat)
    ensures Cursor(n) == (Position(n), Remainder(n))
  {
    if n > 0 {
      CursorIsPosition(n - 1);
      RecurrenceTracksPosition(n - 1);
    }
  }

  // Output n as the recurrence reaches it.
  function GeneralOutput(src: seq<int>, n: nat): (int, int)
    requires |src| == 2 * IN_FRAMES && n < OUT_FRAMES
  {
    CursorIsPosition(n);
    ReadsStayInside(n);
    MixedFrame(src, Cursor(n).0, Cursor(n).1)
  }

  // Output i of block n / 15, with the small rounding.
  function BlockOutput(src: seq<int>, n: nat): (int, int)
    requires |src| == 2 * IN_FRAMES && n < OUT_FRAMES
  {
    var i := n % 15;
    var f := 16 * (n / 15) + i;
    (BlockPoint(src[2 * f + 1], src[2 * f + 3], i), BlockPoint(src[2 * f], src[2 * f + 2], i))
  }

  /** The block form, the recurrence and the interpolation at n * 512 / 480 give the same output on every input. */
  lemma FormsAgree(src: seq<int>, n: nat)
    requires |src| == 2 * IN_FRAMES && n < OUT_FRAMES
    ensures BlockOutput(src, n) == GeneralOutput(src, n) == Output(src, n)
  {
    hide Point, BlockPoint, Position, Remainder, Cursor;
    CursorIsPosition(n);
    ReadsStayInside(n);
    var i := n % 15;
    BlockPosition(n / 15, i);
    var f := Position(n);
    BlockPointIsPoint(src[2 * f + 1], src[2 * f + 3], i);
    BlockPointIsPoint(src[2 * f], src[2 * f + 2], i);
  }
}
