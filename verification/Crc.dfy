/** CRC-32 of section 3.2.9 of IEEE 802.3: the bitwise step, the nibble table, and what a matching trailer means. */
module Crc {

  const POLYNOMIAL: bv32 := 0xEDB88320
  const ALL_ONES: bv32 := 0xFFFF_FFFF
  const RESIDUE: bv32 := 0xDEBB20E3

  // ---- the bit-by-bit definition ----

  function BitStep(r: bv32): bv32 {
    (r >> 1) ^ (POLYNOMIAL & (0 - (r & 1)))
  }

  function BitSteps(r: bv32, n: nat): bv32
    decreases n
  {
    if n == 0 then r else BitSteps(BitStep(r), n - 1)
  }

  function ByteStep(r: bv32, b: bv8): bv32 {
    BitSteps(r ^ (b as bv32), 8)
  }

  /** The register after the bytes of `data`, one after the other. */
  function Update(r: bv32, data: seq<bv8>): bv32 {
    if data == [] then r else ByteStep(Update(r, data[..|data| - 1]), data[|data| - 1])
  }

  // ---- the nibble table ----

  const NIBBLE_TABLE: seq<bv32> := [
    0x00000000, 0x1DB71064, 0x3B6E20C8, 0x26D930AC,
    0x76DC4190, 0x6B6B51F4, 0x4DB26158, 0x5005713C,
    0xEDB88320, 0xF00F9344, 0xD6D6A3E8, 0xCB61B38C,
    0x9B64C2B0, 0x86D3D2D4, 0xA00AE278, 0xBDBDF21C]

  // The table entry for the low four bits; the index is written as a case split on those bits.
  function LowNibble(r: bv32): (i: nat)
    ensures i < 16
  {
    (if r & 8 != 0 then 8 else 0) + (if r & 4 != 0 then 4 else 0) + (if r & 2 != 0 then 2 else 0) + (if r & 1 != 0 then 1 else 0)
  }

  function NibbleStep(r: bv32): bv32 {
    (r >> 4) ^ NIBBLE_TABLE[LowNibble(r)]
  }

  lemma NibbleStepIsFourBitSteps(r: bv32)
    ensures NibbleStep(r) == BitSteps(r, 4)
  {
    var s := BitStep(r);
    var t := BitStep(s);
    var u := BitStep(t);
    assert BitSteps(r, 4) == BitSteps(s, 3) == BitSteps(t, 2) == BitSteps(u, 1) == BitSteps(BitStep(u), 0) == BitStep(u);
  }

  lemma {:induction false} BitStepsAdd(r: bv32, m: nat, n: nat)
    ensures BitSteps(r, m + n) == BitSteps(BitSteps(r, m), n)
    decreases m
  {
    hide BitStep;
    if m > 0 { BitStepsAdd(BitStep(r), m - 1, n); }
  }

  /** Two table look-ups per byte compute the eight bit steps. */
  lemma TableIsBitwise(r: bv32, b: bv8)
    ensures NibbleStep(NibbleStep(r ^ (b as bv32))) == ByteStep(r, b)
  {
    hide NibbleStep, BitSteps;
    var x := r ^ (b as bv32);
    NibbleStepIsFourBitSteps(x);
    NibbleStepIsFourBitSteps(NibbleStep(x));
    BitStepsAdd(x, 4, 4);
  }

  /** crc32_le_update with the nibble table. */
  method UpdateByTable(start: bv32, data: seq<bv8>) returns (crc: bv32)
    ensures crc == Update(start, data)
  {
    hide NibbleStep, ByteStep;
    crc := start;
    for i := 0 to |data|
      invariant crc == Update(start, data[..i])
    {
      ghost var before := crc;
      crc := crc ^ (data[i] as bv32);
      crc := NibbleStep(crc);
      crc := NibbleStep(crc);
      TableIsBitwise(before, data[i]);
      assert data[..i + 1][..i] == data[..i];
    }
    assert data[..|data|] == data;
  }

  /** The bit-by-bit loop of crc32_ieee. */
  method UpdateBitwise(start: bv32, data: seq<bv8>) returns (crc: bv32)
    ensures crc == Update(start, data)
  {
    hide BitStep;
    crc := start;
    for i := 0 to |data|
      invariant crc == Update(start, data[..i])
    {
      ghost var before := crc;
      crc := crc ^ (data[i] as bv32);
      ghost var x := crc;
      for bit := 0 to 8
        invariant BitSteps(crc, 8 - bit) == BitSteps(x, 8)
      {
        crc := BitStep(crc);
      }
      assert data[..i + 1][..i] == data[..i];
    }
    assert data[..|data|] == data;
  }

  /** The check value: the CRC of the digits 1 to 9 is CBF43926. */
  lemma CheckValue()
    ensures Finish(Update(ALL_ONES, [0x31, 0x32, 0x33, 0x34, 0x35, 0x36, 0x37, 0x38, 0x39])) == 0xCBF43926
  {
    hide Update;
    var digits := [0x31, 0x32, 0x33, 0x34, 0x35, 0x36, 0x37, 0x38, 0x39];
    NoBytes(ALL_ONES, digits);
    OneByte(digits, 0, 0xFFFFFFFF, 0x7C231048);
    OneByte(digits, 1, 0x7C231048, 0xB0ACBB32);
    OneByte(digits, 2, 0xB0ACBB32, 0x77B79C2D);
    OneByte(digits, 3, 0x77B79C2D, 0x641C1F5C);
    OneByte(digits, 4, 0x641C1F5C, 0x340AC5E3);
    OneByte(digits, 5, 0x340AC5E3, 0xF68D2C9E);
    OneByte(digits, 6, 0xF68D2C9E, 0xAFFC9660);
    OneByte(digits, 7, 0xAFFC9660, 0x651F2550);
    OneByte(digits, 8, 0x651F2550, 0x340BC6D9);
    assert digits[..9] == digits;
  }

  lemma NoBytes(r: bv32, data: seq<bv8>)
    ensures Update(r, data[..0]) == r
  {
  }

  lemma OneByte(data: seq<bv8>, k: nat, r: bv32, s: bv32)
    requires k < |data| && Update(ALL_ONES, data[..k]) == r && NibbleStep(NibbleStep(r ^ (data[k] as bv32))) == s
    ensures Update(ALL_ONES, data[..k + 1]) == s
  {
    hide NibbleStep, ByteStep;
    TableIsBitwise(r, data[k]);
    assert data[..k + 1][..k] == data[..k];
  }

  lemma {:induction false} UpdateComposes(r: bv32, a: seq<bv8>, b: seq<bv8>)
    ensures Update(r, a + b) == Update(Update(r, a), b)
  {
    if b == [] {
      assert a + b == a;
    } else {
      UpdateComposes(r, a, b[..|b| - 1]);
      assert (a + b)[..|a + b| - 1] == a + b[..|b| - 1];
    }
  }

  // ---- injectivity and linearity ----

  lemma BitStepInjective(r: bv32, s: bv32)
    requires BitStep(r) == BitStep(s)
    ensures r == s
  {
  }

  lemma {:induction false} BitStepsInjective(r: bv32, s: bv32, n: nat)
    requires BitSteps(r, n) == BitSteps(s, n)
    ensures r == s
    decreases n
  {
    hide BitStep;
    if n > 0 {
      BitStepsInjective(BitStep(r), BitStep(s), n - 1);
      BitStepInjective(r, s);
    }
  }

  function Xor(a: bv32, b: bv32): bv32 {
    a ^ b
  }

  function Half(a: bv32): bv32 {
    a >> 1
  }

  predicate Odd(a: bv32) {
    a & 1 == 1
  }

  lemma LowBitCases(r: bv32)
    ensures r & 1 == 0 || r & 1 == 1
  {
  }

  lemma MaskedPolynomial()
    ensures POLYNOMIAL & (0 - 1) == POLYNOMIAL
    ensures POLYNOMIAL & (0 - 0) == 0
    ensures forall a: bv32 :: Xor(a, 0) == a
  {
  }

  lemma BitStepByCases(r: bv32)
    ensures BitStep(r) == if Odd(r) then Xor(Half(r), POLYNOMIAL) else Half(r)
  {
    LowBitCases(r);
    MaskedPolynomial();
    assert BitStep(r) == Xor(Half(r), POLYNOMIAL & (0 - (r & 1)));
    hide BitStep, Xor, Half;
  }

  lemma XorHalf(r: bv32, s: bv32)
    ensures Half(Xor(r, s)) == Xor(Half(r), Half(s))
    ensures Odd(Xor(r, s)) == (Odd(r) != Odd(s))
  {
  }

  lemma XorArranged(a: bv32, b: bv32, c: bv32)
    ensures Xor(Xor(a, c), b) == Xor(Xor(a, b), c) == Xor(a, Xor(b, c))
    ensures Xor(Xor(a, c), Xor(b, c)) == Xor(a, b)
  {
  }

  lemma BitStepLinear(r: bv32, s: bv32)
    ensures BitStep(Xor(r, s)) == Xor(BitStep(r), BitStep(s))
  {
    hide BitStep, Xor, Half, Odd;
    BitStepByCases(r);
    BitStepByCases(s);
    BitStepByCases(Xor(r, s));
    XorHalf(r, s);
    XorArranged(Half(r), Half(s), POLYNOMIAL);
  }

  lemma {:induction false} BitStepsLinear(r: bv32, s: bv32, n: nat)
    ensures BitSteps(Xor(r, s), n) == Xor(BitSteps(r, n), BitSteps(s, n))
    decreases n
  {
    hide BitStep, Xor;
    if n > 0 {
      BitStepLinear(r, s);
      BitStepsLinear(BitStep(r), BitStep(s), n - 1);
    }
  }

  lemma ByteStepIsXorThenSteps(r: bv32, b: bv8)
    ensures ByteStep(r, b) == BitSteps(Xor(r, b as bv32), 8)
  {
    hide BitSteps;
  }

  lemma XorCancels(r: bv32, s: bv32, x: bv32)
    requires Xor(r, x) == Xor(s, x)
    ensures r == s
  {
  }

  lemma ByteStepInjective(r: bv32, s: bv32, b: bv8)
    requires ByteStep(r, b) == ByteStep(s, b)
    ensures r == s
  {
    hide BitSteps, Xor, ByteStep;
    ByteStepIsXorThenSteps(r, b);
    ByteStepIsXorThenSteps(s, b);
    BitStepsInjective(Xor(r, b as bv32), Xor(s, b as bv32), 8);
    XorCancels(r, s, b as bv32);
  }

  /** Equal bytes keep different registers different. */
  lemma {:induction false} UpdateInjective(r: bv32, s: bv32, data: seq<bv8>)
    requires Update(r, data) == Update(s, data)
    ensures r == s
  {
    hide ByteStep;
    if data != [] {
      var d := data[..|data| - 1];
      ByteStepInjective(Update(r, d), Update(s, d), data[|data| - 1]);
      UpdateInjective(r, s, d);
    }
  }

  // ---- four bytes as one little-endian word ----

  function Word(d: seq<bv8>): bv32
    requires |d| == 4
  {
    (d[0] as bv32) | ((d[1] as bv32) << 8) | ((d[2] as bv32) << 16) | ((d[3] as bv32) << 24)
  }

  function WordBytes(w: bv32): (d: seq<bv8>)
    ensures |d| == 4
  {
    [(w & 0xFF) as bv8, ((w >> 8) & 0xFF) as bv8, ((w >> 16) & 0xFF) as bv8, ((w >> 24) & 0xFF) as bv8]
  }

  lemma WordOfBytes(w: bv32)
    ensures Word(WordBytes(w)) == w
  {
  }

  lemma BytesOfWord(d: seq<bv8>)
    requires |d| == 4
    ensures WordBytes(Word(d)) == d
  {
  }

  lemma StepOnce(x: bv32, n: nat)
    requires n > 0 && !Odd(x)
    ensures BitSteps(x, n) == BitSteps(Half(x), n - 1)
  {
    hide BitStep, Odd, Half;
    BitStepByCases(x);
  }

  function Down8(w: bv32): bv32 {
    w >> 8
  }

  function HighBytes(w: bv32): bv32 {
    w & 0xFFFF_FF00
  }

  // Four halvings of a word whose low four bits are clear meet only even values.
  lemma FourEven(x: bv32)
    requires x & 0xF == 0
    ensures !Odd(x) && !Odd(Half(x)) && !Odd(Half(Half(x))) && !Odd(Half(Half(Half(x))))
    ensures Half(Half(Half(Half(x)))) == x >> 4
  {
  }

  lemma HighBytesSplit(w: bv32)
    ensures HighBytes(w) & 0xF == 0 && (HighBytes(w) >> 4) & 0xF == 0
    ensures (HighBytes(w) >> 4) >> 4 == Down8(w)
  {
  }

  // Eight steps push a word without low byte one byte down.
  lemma EightStepsShift(w: bv32)
    ensures BitSteps(HighBytes(w), 8) == Down8(w)
  {
    hide BitSteps, Odd, Half, HighBytes, Down8;
    HighBytesSplit(w);
    var x := HighBytes(w);
    FourEven(x);
    FourEven(x >> 4);
    StepOnce(x, 8);
    StepOnce(Half(x), 7);
    StepOnce(Half(Half(x)), 6);
    StepOnce(Half(Half(Half(x))), 5);
    var y := Half(Half(Half(Half(x))));
    StepOnce(y, 4);
    StepOnce(Half(y), 3);
    StepOnce(Half(Half(y)), 2);
    StepOnce(Half(Half(Half(y))), 1);
    NoSteps(Half(Half(Half(Half(y)))));
  }

  lemma NoSteps(x: bv32)
    ensures BitSteps(x, 0) == x
  {
  }

  function LowByte(w: bv32): bv8 {
    (w & 0xFF) as bv8
  }

  lemma SplitLowByte(r: bv32, w: bv32)
    ensures Xor(r, w) == Xor(Xor(r, LowByte(w) as bv32), HighBytes(w))
  {
  }

  // Consuming the low byte of w leaves the rest of w one byte lower.
  lemma PeelByte(r: bv32, w: bv32)
    ensures BitSteps(Xor(r, w), 8) == Xor(ByteStep(r, LowByte(w)), Down8(w))
  {
    hide BitSteps, ByteStep, Xor, LowByte, HighBytes, Down8;
    SplitLowByte(r, w);
    BitStepsLinear(Xor(r, LowByte(w) as bv32), HighBytes(w), 8);
    EightStepsShift(w);
    ByteStepIsXorThenSteps(r, LowByte(w));
  }

  lemma FourBytesInTurn(r: bv32, d: seq<bv8>)
    requires |d| == 4
    ensures Update(r, d) == ByteStep(ByteStep(ByteStep(ByteStep(r, d[0]), d[1]), d[2]), d[3])
  {
    hide ByteStep;
    assert d[..3][..2] == d[..2] && d[..2][..1] == d[..1] && d[..1][..0] == [];
    assert Update(r, d[..1]) == ByteStep(Update(r, []), d[0]);
    assert Update(r, d[..2]) == ByteStep(Update(r, d[..1]), d[1]);
    assert Update(r, d[..3]) == ByteStep(Update(r, d[..2]), d[2]);
  }

  /** Four bytes fed one by one act like 32 bit steps on the register with their little-endian word mixed in. */
  lemma FourBytesAreOneWord(r: bv32, d: seq<bv8>)
    requires |d| == 4
    ensures Update(r, d) == BitSteps(Xor(r, Word(d)), 32)
  {
    hide BitSteps, ByteStep, Update, Word, Xor, LowByte, Down8;
    var w := Word(d);
    FourBytesInTurn(r, d);
    WordLayers(d);
    var r1 := ByteStep(r, d[0]);
    var r2 := ByteStep(r1, d[1]);
    var r3 := ByteStep(r2, d[2]);
    PeelByte(r, w);
    PeelByte(r1, Down8(w));
    PeelByte(r2, Down8(Down8(w)));
    PeelByte(r3, Down8(Down8(Down8(w))));
    BitStepsAdd(Xor(r, w), 8, 24);
    BitStepsAdd(Xor(r1, Down8(w)), 8, 16);
    BitStepsAdd(Xor(r2, Down8(Down8(w))), 8, 8);
  }

  lemma WordLayers(d: seq<bv8>)
    requires |d| == 4
    ensures var w := Word(d);
            && LowByte(w) == d[0] && LowByte(Down8(w)) == d[1]
            && LowByte(Down8(Down8(w))) == d[2] && LowByte(Down8(Down8(Down8(w)))) == d[3]
            && forall x :: Xor(x, Down8(Down8(Down8(Down8(w))))) == x
  {
  }

  // ---- a sealed message ----

  lemma ResidueOfAllOnes()
    ensures BitSteps(ALL_ONES, 32) == RESIDUE
  {
    hide BitSteps;
    var a := NibbleStep(ALL_ONES);
    var b := NibbleStep(a);
    var c := NibbleStep(b);
    var d := NibbleStep(c);
    var e := NibbleStep(d);
    var f := NibbleStep(e);
    var g := NibbleStep(f);
    assert NibbleStep(g) == RESIDUE;
    hide NibbleStep;
    NibbleStepIsFourBitSteps(ALL_ONES);
    NibbleStepIsFourBitSteps(a);
    NibbleStepIsFourBitSteps(b);
    NibbleStepIsFourBitSteps(c);
    NibbleStepIsFourBitSteps(d);
    NibbleStepIsFourBitSteps(e);
    NibbleStepIsFourBitSteps(f);
    NibbleStepIsFourBitSteps(g);
    BitStepsAdd(ALL_ONES, 4, 28);
    BitStepsAdd(a, 4, 24);
    BitStepsAdd(b, 4, 20);
    BitStepsAdd(c, 4, 16);
    BitStepsAdd(d, 4, 12);
    BitStepsAdd(e, 4, 8);
    BitStepsAdd(f, 4, 4);
  }

  // The value stored in a trailer: the complement of the register.
  function Finish(r: bv32): bv32 {
    !r
  }

  lemma XorToAllOnes(r: bv32, w: bv32)
    ensures Xor(r, w) == ALL_ONES <==> w == Finish(r)
  {
    XorComplement(r);
    XorCommutes(r, w);
    XorCommutes(r, Finish(r));
    hide Xor, Finish;
    if Xor(r, w) == ALL_ONES {
      XorCancels(w, Finish(r), r);
    }
  }

  lemma XorComplement(r: bv32)
    ensures Xor(r, Finish(r)) == ALL_ONES
  {
  }

  /** A message ends in its own complemented CRC exactly when its register ends in the fixed residue. */
  lemma SealedExactlyAtResidue(r: bv32, body: seq<bv8>, trailer: seq<bv8>)
    requires |trailer| == 4
    ensures Update(r, body + trailer) == RESIDUE <==> Word(trailer) == Finish(Update(r, body))
  {
    hide BitSteps, Update, Word, Xor, Finish;
    var s := Update(r, body);
    UpdateComposes(r, body, trailer);
    FourBytesAreOneWord(s, trailer);
    ResidueOfAllOnes();
    XorToAllOnes(s, Word(trailer));
    if Update(r, body + trailer) == RESIDUE {
      BitStepsInjective(Xor(s, Word(trailer)), ALL_ONES, 32);
    }
  }

  // Two messages of one length that agree outside the four bytes from k on.
  ghost predicate DifferOnlyIn(a: seq<bv8>, b: seq<bv8>, k: nat) {
    && |a| == |b| && k + 4 <= |a|
    && a[..k] == b[..k] && a[k + 4..] == b[k + 4..]
  }

  /** No two different messages that agree outside one window of four bytes leave the same register. */
  lemma WindowIsDetected(r: bv32, a: seq<bv8>, b: seq<bv8>, k: nat)
    requires DifferOnlyIn(a, b, k) && Update(r, a) == Update(r, b)
    ensures a == b
  {
    hide BitSteps, Update, Word, Xor;
    var p, wa, wb, t := a[..k], a[k..k + 4], b[k..k + 4], a[k + 4..];
    assert a == p + wa + t && b == p + wb + t;
    UpdateComposes(r, p + wa, t);
    UpdateComposes(r, p + wb, t);
    UpdateInjective(Update(r, p + wa), Update(r, p + wb), t);
    UpdateComposes(r, p, wa);
    UpdateComposes(r, p, wb);
    var s := Update(r, p);
    FourBytesAreOneWord(s, wa);
    FourBytesAreOneWord(s, wb);
    BitStepsInjective(Xor(s, Word(wa)), Xor(s, Word(wb)), 32);
    XorCommutes(s, Word(wa));
    XorCommutes(s, Word(wb));
    XorCancels(Word(wa), Word(wb), s);
    BytesOfWord(wa);
    BytesOfWord(wb);
  }

  lemma XorCommutes(a: bv32, b: bv32)
    ensures Xor(a, b) == Xor(b, a)
  {
  }
}
