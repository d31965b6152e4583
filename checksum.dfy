/**
 * The checksum engine: the reflected CRC-32 of ISO/IEC 3309 (HDLC) and IEEE 802.3,
 * polynomial 0xEDB88320, register preset to 0xFFFFFFFF, result complemented, one bit
 * shifted out per step and eight steps per byte.
 *
 * The routine in the original program (`oblicz_crc32`) ends each byte with
 * `crc := (crc >> 8) ^ temp` where the standard algorithm has `crc := temp`.
 * That routine is modelled as written (`Crc32AsWritten`, `ComputeCrc32AsWritten`),
 * with lemmas exhibiting how it differs, next to the standard algorithm (`Crc32`,
 * `ComputeCrc32`); the file format takes either routine through `Variant`.
 */
module Checksum {
  import opened LittleEndian

  const Polynomial: bv32 := 0xEDB8_8320
  const Preset: bv32 := 0xFFFF_FFFF
  const FinalXor: bv32 := 0xFFFF_FFFF

  /** One serial step: shift the register right by one bit, folding in the
      polynomial when the bit shifted out is set. `0 - (x & 1)` is all ones when
      that bit is set and zero otherwise, so the step is one bit-vector expression
      without a branch; `ShiftCases` gives the two branches of the original loop. */
  function Shift(x: bv32): (r: bv32) {
    (x >> 1) ^ (Polynomial & (0 - (x & 1)))
  }

  lemma ShiftCases(x: bv32)
    ensures x & 1 == 1 ==> Shift(x) == (x >> 1) ^ Polynomial
    ensures x & 1 == 0 ==> Shift(x) == x >> 1
  {
  }

  /** `k` serial steps. */
  function Shifts(x: bv32, k: nat): (r: bv32) {
    if k == 0 then x else Shift(Shifts(x, k - 1))
  }

  /** The standard register update for one byte. */
  function Update(crc: bv32, b: byte): (r: bv32) {
    Shifts(crc ^ b as bv32, 8)
  }

  /** The register after feeding `data`, byte by byte, into a register holding `crc`. */
  function Fold(crc: bv32, data: seq<byte>): (r: bv32) {
    if |data| == 0 then crc else Update(Fold(crc, data[..|data| - 1]), data[|data| - 1])
  }

  lemma FoldSnoc(crc: bv32, s: seq<byte>, b: byte)
    ensures Fold(crc, s + [b]) == Update(Fold(crc, s), b)
  {
    assert (s + [b])[..|s|] == s;
  }

  /** The eight steps written out, so that updates of constant registers can be
      evaluated. */
  lemma EightSteps(x: bv32)
    ensures Shifts(x, 8) == Shift(Shift(Shift(Shift(Shift(Shift(Shift(Shift(x))))))))
  {
    assert Shifts(x, 1) == Shift(x);
    assert Shifts(x, 2) == Shift(Shift(x));
    assert Shifts(x, 3) == Shift(Shift(Shift(x)));
    assert Shifts(x, 4) == Shift(Shift(Shift(Shift(x))));
    assert Shifts(x, 5) == Shift(Shift(Shift(Shift(Shift(x)))));
    assert Shifts(x, 6) == Shift(Shift(Shift(Shift(Shift(Shift(x))))));
    assert Shifts(x, 7) == Shift(Shift(Shift(Shift(Shift(Shift(Shift(x)))))));
  }

  lemma UpdateUnrolled(crc: bv32, b: byte)
    ensures Update(crc, b) == Shift(Shift(Shift(Shift(Shift(Shift(Shift(Shift(crc ^ b as bv32))))))))
  {
    EightSteps(crc ^ b as bv32);
  }

  /** The standard CRC-32 of `data`. */
  function Crc32(data: seq<byte>): (r: bv32)
    ensures |data| == 0 ==> r == 0
  {
    Fold(Preset, data) ^ FinalXor
  }

  /** The inner loop shared by both routines: eight serial steps on `temp`. */
  method ShiftByte(x: bv32) returns (temp: bv32)
    ensures temp == Shifts(x, 8)
  {
    temp := x;
    var j := 0;
    while j < 8
      invariant 0 <= j <= 8
      invariant temp == Shifts(x, j)
    {
      ShiftCases(temp);
      if temp & 1 == 1 {
        temp := (temp >> 1) ^ Polynomial;
      } else {
        temp := temp >> 1;
      }
      j := j + 1;
    }
  }

  /** The standard algorithm as a byte loop with an inner loop of eight bit steps. */
  method ComputeCrc32(data: seq<byte>) returns (crc: bv32)
    ensures crc == Crc32(data)
  {
    crc := Preset;
    var i := 0;
    while i < |data|
      invariant 0 <= i <= |data|
      invariant crc == Fold(Preset, data[..i])
    {
      var b := data[i];
      var temp := ShiftByte(crc ^ b as bv32);
      assert data[..i + 1] == data[..i] + [b];
      FoldSnoc(Preset, data[..i], b);
      crc := temp;
      i := i + 1;
    }
    assert data[..i] == data;
    crc := crc ^ FinalXor;
  }

  /** The register after each of the ASCII digits "12345"... */
  lemma LeadingDigitUpdates()
    ensures Update(0xFFFF_FFFF, 0x31) == 0x7C23_1048
    ensures Update(0x7C23_1048, 0x32) == 0xB0AC_BB32
    ensures Update(0xB0AC_BB32, 0x33) == 0x77B7_9C2D
    ensures Update(0x77B7_9C2D, 0x34) == 0x641C_1F5C
    ensures Update(0x641C_1F5C, 0x35) == 0x340A_C5E3
  {
    UpdateUnrolled(0xFFFF_FFFF, 0x31);
    UpdateUnrolled(0x7C23_1048, 0x32);
    UpdateUnrolled(0xB0AC_BB32, 0x33);
    UpdateUnrolled(0x77B7_9C2D, 0x34);
    UpdateUnrolled(0x641C_1F5C, 0x35);
  }

  /** ...and after each of "6789". */
  lemma TrailingDigitUpdates()
    ensures Update(0x340A_C5E3, 0x36) == 0xF68D_2C9E
    ensures Update(0xF68D_2C9E, 0x37) == 0xAFFC_9660
    ensures Update(0xAFFC_9660, 0x38) == 0x651F_2550
    ensures Update(0x651F_2550, 0x39) == 0x340B_C6D9
  {
    UpdateUnrolled(0x340A_C5E3, 0x36);
    UpdateUnrolled(0xF68D_2C9E, 0x37);
    UpdateUnrolled(0xAFFC_9660, 0x38);
    UpdateUnrolled(0x651F_2550, 0x39);
  }

  const Digits: seq<byte> := [0x31, 0x32, 0x33, 0x34, 0x35, 0x36, 0x37, 0x38, 0x39]

  lemma LeadingDigits()
    ensures Fold(Preset, Digits[..5]) == 0x340A_C5E3
  {
    var digits := Digits;
    LeadingDigitUpdates();
    assert digits[..0] == [];
    assert digits[..1] == digits[..0] + [digits[0]];
    FoldSnoc(Preset, digits[..0], digits[0]);
    assert digits[..2] == digits[..1] + [digits[1]];
    FoldSnoc(Preset, digits[..1], digits[1]);
    assert digits[..3] == digits[..2] + [digits[2]];
    FoldSnoc(Preset, digits[..2], digits[2]);
    assert digits[..4] == digits[..3] + [digits[3]];
    FoldSnoc(Preset, digits[..3], digits[3]);
    assert digits[..5] == digits[..4] + [digits[4]];
    FoldSnoc(Preset, digits[..4], digits[4]);
  }

  /** The check value of the CRC-32/ISO-HDLC catalogue entry: the CRC of the ASCII
      digits "123456789" is 0xCBF43926. */
  lemma CheckValue()
    ensures Crc32(Digits) == 0xCBF4_3926
  {
    var digits := Digits;
    LeadingDigits();
    TrailingDigitUpdates();
    assert digits[..6] == digits[..5] + [digits[5]];
    FoldSnoc(Preset, digits[..5], digits[5]);
    assert digits[..7] == digits[..6] + [digits[6]];
    FoldSnoc(Preset, digits[..6], digits[6]);
    assert digits[..8] == digits[..7] + [digits[7]];
    FoldSnoc(Preset, digits[..7], digits[7]);
    assert digits[..9] == digits[..8] + [digits[8]];
    FoldSnoc(Preset, digits[..8], digits[8]);
    assert digits[..9] == digits;
  }

  // ---------------------------------------------------------------------------
  // Error detection
  // ---------------------------------------------------------------------------

  /** A single step loses no information: the bit shifted out is recovered from the
      top bit of the result, because the polynomial has its top bit set. */
  lemma ShiftInjective(x: bv32, y: bv32)
    requires Shift(x) == Shift(y)
    ensures x == y
  {
  }

  lemma {:induction false} ShiftsInjective(x: bv32, y: bv32, k: nat)
    requires Shifts(x, k) == Shifts(y, k)
    ensures x == y
  {
    if k > 0 {
      ShiftInjective(Shifts(x, k - 1), Shifts(y, k - 1));
      ShiftsInjective(x, y, k - 1);
    }
  }

  /** Different registers give different registers after the same byte... */
  lemma UpdateInjective(c: bv32, d: bv32, b: byte)
    requires Update(c, b) == Update(d, b)
    ensures c == d
  {
    ShiftsInjective(c ^ b as bv32, d ^ b as bv32, 8);
  }

  /** ...and different bytes give different registers from the same register. */
  lemma UpdateInjectiveInByte(c: bv32, a: byte, b: byte)
    requires Update(c, a) == Update(c, b)
    ensures a == b
  {
    ShiftsInjective(c ^ a as bv32, c ^ b as bv32, 8);
  }

  lemma {:induction false} FoldAppend(crc: bv32, s: seq<byte>, t: seq<byte>)
    ensures Fold(crc, s + t) == Fold(Fold(crc, s), t)
    decreases |t|
  {
    if |t| == 0 {
      assert s + t == s;
    } else {
      var init, b := t[..|t| - 1], t[|t| - 1];
      assert t == init + [b];
      assert s + t == (s + init) + [b];
      FoldAppend(crc, s, init);
      FoldSnoc(crc, s + init, b);
      FoldSnoc(Fold(crc, s), init, b);
    }
  }

  /** Two different registers stay different whatever bytes follow. */
  lemma {:induction false} FoldKeepsDifference(c: bv32, d: bv32, t: seq<byte>)
    requires c != d
    ensures Fold(c, t) != Fold(d, t)
    decreases |t|
  {
    if |t| > 0 {
      var init, b := t[..|t| - 1], t[|t| - 1];
      assert t == init + [b];
      FoldKeepsDifference(c, d, init);
      FoldSnoc(c, init, b);
      FoldSnoc(d, init, b);
      if Fold(c, t) == Fold(d, t) {
        UpdateInjective(Fold(c, init), Fold(d, init), b);
      }
    }
  }

  /** The standard CRC-32 detects every corruption of a single byte. */
  lemma SingleByteErrorDetected(x: seq<byte>, y: seq<byte>, k: nat)
    requires |x| == |y| && k < |x|
    requires x[k] != y[k]
    requires forall i :: 0 <= i < |x| && i != k ==> x[i] == y[i]
    ensures Crc32(x) != Crc32(y)
  {
    var prefix, suffix := x[..k], x[k + 1..];
    assert x == (prefix + [x[k]]) + suffix;
    assert y == (prefix + [y[k]]) + suffix;
    FoldAppend(Preset, prefix + [x[k]], suffix);
    FoldAppend(Preset, prefix + [y[k]], suffix);
    var c := Fold(Preset, prefix);
    FoldSnoc(Preset, prefix, x[k]);
    FoldSnoc(Preset, prefix, y[k]);
    if Update(c, x[k]) == Update(c, y[k]) {
      UpdateInjectiveInByte(c, x[k], y[k]);
    }
    FoldKeepsDifference(Update(c, x[k]), Update(c, y[k]), suffix);
  }

  // ---------------------------------------------------------------------------
  // The routine as written in the original program
  // ---------------------------------------------------------------------------

  /** The register update of the original routine: after the eight steps it also
      folds the register shifted right by a byte into the result. */
  function UpdateAsWritten(crc: bv32, b: byte): (r: bv32) {
    (crc >> 8) ^ Update(crc, b)
  }

  function FoldAsWritten(crc: bv32, data: seq<byte>): (r: bv32) {
    if |data| == 0 then crc
    else UpdateAsWritten(FoldAsWritten(crc, data[..|data| - 1]), data[|data| - 1])
  }

  lemma FoldAsWrittenSnoc(crc: bv32, s: seq<byte>, b: byte)
    ensures FoldAsWritten(crc, s + [b]) == UpdateAsWritten(FoldAsWritten(crc, s), b)
  {
    assert (s + [b])[..|s|] == s;
  }

  lemma UpdateAsWrittenStep(crc: bv32, b: byte, temp: bv32)
    requires temp == Update(crc, b)
    ensures (crc >> 8) ^ temp == UpdateAsWritten(crc, b)
  {
  }

  /** The checksum the original routine returns. */
  function Crc32AsWritten(data: seq<byte>): (r: bv32)
    ensures |data| == 0 ==> r == 0
  {
    FoldAsWritten(Preset, data) ^ FinalXor
  }

  /** The original routine, loop for loop. */
  method ComputeCrc32AsWritten(data: seq<byte>) returns (crc: bv32)
    ensures crc == Crc32AsWritten(data)
  {
    crc := Preset;
    var i := 0;
    while i < |data|
      invariant 0 <= i <= |data|
      invariant crc == FoldAsWritten(Preset, data[..i])
    {
      var b := data[i];
      var temp := ShiftByte(crc ^ b as bv32);
      assert data[..i + 1] == data[..i] + [b];
      FoldAsWrittenSnoc(Preset, data[..i], b);
      assert temp == Update(crc, b);
      UpdateAsWrittenStep(crc, b, temp);
      crc := (crc >> 8) ^ temp;
      i := i + 1;
    }
    assert data[..i] == data;
    crc := crc ^ FinalXor;
  }

  /** A one-byte input on which the original routine and CRC-32 disagree. */
  lemma AsWrittenDiffersFromCrc32()
    ensures Crc32AsWritten([0x00]) == 0xD2FD_1072
    ensures Crc32([0x00]) == 0xD202_EF8D
  {
    var x: seq<byte> := [0x00];
    assert x == [] + [0x00];
    FoldAsWrittenSnoc(Preset, [], 0x00);
    FoldSnoc(Preset, [], 0x00);
    UpdateUnrolled(0xFFFF_FFFF, 0x00);
    assert Update(0xFFFF_FFFF, 0x00) == 0x2DFD_1072;
    assert UpdateAsWritten(0xFFFF_FFFF, 0x00) == 0x2D02_EF8D;
  }

  /** Two two-byte inputs that the original routine cannot tell apart while CRC-32,
      which detects every error burst of up to 32 bits, can. */
  lemma AsWrittenCollision()
    ensures Crc32AsWritten([0x00, 0x00]) == Crc32AsWritten([0x01, 0x96]) == 0x6CF6_0062
    ensures Crc32([0x00, 0x00]) == 0x41D9_12FF
    ensures Crc32([0x01, 0x96]) == 0x41AE_15CF
  {
    var x: seq<byte> := [0x00, 0x00];
    var y: seq<byte> := [0x01, 0x96];
    assert x == ([] + [0x00]) + [0x00];
    assert y == ([] + [0x01]) + [0x96];
    FoldAsWrittenSnoc(Preset, [], 0x00);
    FoldAsWrittenSnoc(Preset, [0x00], 0x00);
    FoldAsWrittenSnoc(Preset, [], 0x01);
    FoldAsWrittenSnoc(Preset, [0x01], 0x96);
    FoldSnoc(Preset, [], 0x00);
    FoldSnoc(Preset, [0x00], 0x00);
    FoldSnoc(Preset, [], 0x01);
    FoldSnoc(Preset, [0x01], 0x96);
    UpdateUnrolled(0xFFFF_FFFF, 0x00);
    assert UpdateAsWritten(0xFFFF_FFFF, 0x00) == 0x2D02_EF8D;
    UpdateUnrolled(0x2D02_EF8D, 0x00);
    assert UpdateAsWritten(0x2D02_EF8D, 0x00) == 0x9309_FF9D;
    UpdateUnrolled(0xFFFF_FFFF, 0x01);
    assert UpdateAsWritten(0xFFFF_FFFF, 0x01) == 0x5A05_DF1B;
    UpdateUnrolled(0x5A05_DF1B, 0x96);
    assert UpdateAsWritten(0x5A05_DF1B, 0x96) == 0x9309_FF9D;
    UpdateUnrolled(0xFFFF_FFFF, 0x00);
    assert Update(0xFFFF_FFFF, 0x00) == 0x2DFD_1072;
    UpdateUnrolled(0x2DFD_1072, 0x00);
    assert Update(0x2DFD_1072, 0x00) == 0xBE26_ED00;
    UpdateUnrolled(0xFFFF_FFFF, 0x01);
    assert Update(0xFFFF_FFFF, 0x01) == 0x5AFA_20E4;
    UpdateUnrolled(0x5AFA_20E4, 0x96);
    assert Update(0x5AFA_20E4, 0x96) == 0xBE51_EA30;
  }

  // The eight steps of an update are also stated as one bit-vector expression
  // (a chain of `var`s, each one step). Facts about the steps of a single byte are
  // proved on that expression, where the solver settles them bit by bit, and carried
  // back to `Shifts` through `ShiftsExpanded`. The bridge from nested `Shift` calls to
  // that expression is built one step at a time, `NestedSteps1` to `NestedStepsExpanded`.

  lemma NestedSteps1(x: bv32)
    ensures Shift(x) ==
      var s1 := (x >> 1) ^ (Polynomial & (0 - (x & 1)));
      s1
  {
  }

  lemma NestedSteps2(x: bv32)
    ensures Shift(Shift(x)) ==
      var s1 := (x >> 1) ^ (Polynomial & (0 - (x & 1)));
      var s2 := (s1 >> 1) ^ (Polynomial & (0 - (s1 & 1)));
      s2
  {
    NestedSteps1(x);
  }

  lemma NestedSteps3(x: bv32)
    ensures Shift(Shift(Shift(x))) ==
      var s1 := (x >> 1) ^ (Polynomial & (0 - (x & 1)));
      var s2 := (s1 >> 1) ^ (Polynomial & (0 - (s1 & 1)));
      var s3 := (s2 >> 1) ^ (Polynomial & (0 - (s2 & 1)));
      s3
  {
    NestedSteps2(x);
  }

  lemma NestedSteps4(x: bv32)
    ensures Shift(Shift(Shift(Shift(x)))) ==
      var s1 := (x >> 1) ^ (Polynomial & (0 - (x & 1)));
      var s2 := (s1 >> 1) ^ (Polynomial & (0 - (s1 & 1)));
      var s3 := (s2 >> 1) ^ (Polynomial & (0 - (s2 & 1)));
      var s4 := (s3 >> 1) ^ (Polynomial & (0 - (s3 & 1)));
      s4
  {
    NestedSteps3(x);
  }

  lemma NestedSteps5(x: bv32)
    ensures Shift(Shift(Shift(Shift(Shift(x))))) ==
      var s1 := (x >> 1) ^ (Polynomial & (0 - (x & 1)));
      var s2 := (s1 >> 1) ^ (Polynomial & (0 - (s1 & 1)));
      var s3 := (s2 >> 1) ^ (Polynomial & (0 - (s2 & 1)));
      var s4 := (s3 >> 1) ^ (Polynomial & (0 - (s3 & 1)));
      var s5 := (s4 >> 1) ^ (Polynomial & (0 - (s4 & 1)));
      s5
  {
    NestedSteps4(x);
  }

  lemma NestedSteps6(x: bv32)
    ensures Shift(Shift(Shift(Shift(Shift(Shift(x)))))) ==
      var s1 := (x >> 1) ^ (Polynomial & (0 - (x & 1)));
      var s2 := (s1 >> 1) ^ (Polynomial & (0 - (s1 & 1)));
      var s3 := (s2 >> 1) ^ (Polynomial & (0 - (s2 & 1)));
      var s4 := (s3 >> 1) ^ (Polynomial & (0 - (s3 & 1)));
      var s5 := (s4 >> 1) ^ (Polynomial & (0 - (s4 & 1)));
      var s6 := (s5 >> 1) ^ (Polynomial & (0 - (s5 & 1)));
      s6
  {
    NestedSteps5(x);
  }

  lemma NestedSteps7(x: bv32)
    ensures Shift(Shift(Shift(Shift(Shift(Shift(Shift(x))))))) ==
      var s1 := (x >> 1) ^ (Polynomial & (0 - (x & 1)));
      var s2 := (s1 >> 1) ^ (Polynomial & (0 - (s1 & 1)));
      var s3 := (s2 >> 1) ^ (Polynomial & (0 - (s2 & 1)));
      var s4 := (s3 >> 1) ^ (Polynomial & (0 - (s3 & 1)));
      var s5 := (s4 >> 1) ^ (Polynomial & (0 - (s4 & 1)));
      var s6 := (s5 >> 1) ^ (Polynomial & (0 - (s5 & 1)));
      var s7 := (s6 >> 1) ^ (Polynomial & (0 - (s6 & 1)));
      s7
  {
    NestedSteps6(x);
  }

  lemma NestedStepsExpanded(x: bv32)
    ensures Shift(Shift(Shift(Shift(Shift(Shift(Shift(Shift(x)))))))) ==
      var s1 := (x >> 1) ^ (Polynomial & (0 - (x & 1)));
      var s2 := (s1 >> 1) ^ (Polynomial & (0 - (s1 & 1)));
      var s3 := (s2 >> 1) ^ (Polynomial & (0 - (s2 & 1)));
      var s4 := (s3 >> 1) ^ (Polynomial & (0 - (s3 & 1)));
      var s5 := (s4 >> 1) ^ (Polynomial & (0 - (s4 & 1)));
      var s6 := (s5 >> 1) ^ (Polynomial & (0 - (s5 & 1)));
      var s7 := (s6 >> 1) ^ (Polynomial & (0 - (s6 & 1)));
      var s8 := (s7 >> 1) ^ (Polynomial & (0 - (s7 & 1)));
      s8
  {
    NestedSteps7(x);
  }

  lemma ShiftsExpanded(x: bv32)
    ensures Shifts(x, 8) ==
      var s1 := (x >> 1) ^ (Polynomial & (0 - (x & 1)));
      var s2 := (s1 >> 1) ^ (Polynomial & (0 - (s1 & 1)));
      var s3 := (s2 >> 1) ^ (Polynomial & (0 - (s2 & 1)));
      var s4 := (s3 >> 1) ^ (Polynomial & (0 - (s3 & 1)));
      var s5 := (s4 >> 1) ^ (Polynomial & (0 - (s4 & 1)));
      var s6 := (s5 >> 1) ^ (Polynomial & (0 - (s5 & 1)));
      var s7 := (s6 >> 1) ^ (Polynomial & (0 - (s6 & 1)));
      var s8 := (s7 >> 1) ^ (Polynomial & (0 - (s7 & 1)));
      s8
  {
    EightSteps(x);
    NestedStepsExpanded(x);
  }

  /** The bits above the low byte take no part in the folding: eight steps move them
      down by a byte and leave the rest to the low byte alone. */
  lemma ExpandedSplit(x: bv32)
    ensures
      (var s1 := (x >> 1) ^ (Polynomial & (0 - (x & 1)));
       var s2 := (s1 >> 1) ^ (Polynomial & (0 - (s1 & 1)));
       var s3 := (s2 >> 1) ^ (Polynomial & (0 - (s2 & 1)));
       var s4 := (s3 >> 1) ^ (Polynomial & (0 - (s3 & 1)));
       var s5 := (s4 >> 1) ^ (Polynomial & (0 - (s4 & 1)));
       var s6 := (s5 >> 1) ^ (Polynomial & (0 - (s5 & 1)));
       var s7 := (s6 >> 1) ^ (Polynomial & (0 - (s6 & 1)));
       var s8 := (s7 >> 1) ^ (Polynomial & (0 - (s7 & 1)));
       s8)
      ==
      (var t1 := ((x & 0xFF) >> 1) ^ (Polynomial & (0 - ((x & 0xFF) & 1)));
       var t2 := (t1 >> 1) ^ (Polynomial & (0 - (t1 & 1)));
       var t3 := (t2 >> 1) ^ (Polynomial & (0 - (t2 & 1)));
       var t4 := (t3 >> 1) ^ (Polynomial & (0 - (t3 & 1)));
       var t5 := (t4 >> 1) ^ (Polynomial & (0 - (t4 & 1)));
       var t6 := (t5 >> 1) ^ (Polynomial & (0 - (t5 & 1)));
       var t7 := (t6 >> 1) ^ (Polynomial & (0 - (t6 & 1)));
       var t8 := (t7 >> 1) ^ (Polynomial & (0 - (t7 & 1)));
       t8) ^ (x >> 8)
  {
  }

  /** Eight steps on two different byte values end in different low bytes. */
  lemma ExpandedLowByteInjective(i: bv32, j: bv32)
    ensures i < 256 && j < 256 && i != j ==>
        (var s1 := (i >> 1) ^ (Polynomial & (0 - (i & 1)));
         var s2 := (s1 >> 1) ^ (Polynomial & (0 - (s1 & 1)));
         var s3 := (s2 >> 1) ^ (Polynomial & (0 - (s2 & 1)));
         var s4 := (s3 >> 1) ^ (Polynomial & (0 - (s3 & 1)));
         var s5 := (s4 >> 1) ^ (Polynomial & (0 - (s4 & 1)));
         var s6 := (s5 >> 1) ^ (Polynomial & (0 - (s5 & 1)));
         var s7 := (s6 >> 1) ^ (Polynomial & (0 - (s6 & 1)));
         var s8 := (s7 >> 1) ^ (Polynomial & (0 - (s7 & 1)));
         s8) & 0xFF
        !=
        (var t1 := (j >> 1) ^ (Polynomial & (0 - (j & 1)));
         var t2 := (t1 >> 1) ^ (Polynomial & (0 - (t1 & 1)));
         var t3 := (t2 >> 1) ^ (Polynomial & (0 - (t2 & 1)));
         var t4 := (t3 >> 1) ^ (Polynomial & (0 - (t3 & 1)));
         var t5 := (t4 >> 1) ^ (Polynomial & (0 - (t4 & 1)));
         var t6 := (t5 >> 1) ^ (Polynomial & (0 - (t5 & 1)));
         var t7 := (t6 >> 1) ^ (Polynomial & (0 - (t6 & 1)));
         var t8 := (t7 >> 1) ^ (Polynomial & (0 - (t7 & 1)));
         t8) & 0xFF
  {
  }

  lemma StepsSplit(x: bv32)
    ensures (x >> 8) ^ Shifts(x, 8) == Shifts(x & 0xFF, 8)
  {
    ShiftsExpanded(x);
    ShiftsExpanded(x & 0xFF);
    ExpandedSplit(x);
  }

  /** The mechanism behind the difference: after the original routine's update the
      old register cancels out, and the new register is the eight steps applied to
      the low byte of `crc ^ b` alone, so it depends on nothing else. */
  lemma UpdateAsWrittenLowByte(crc: bv32, b: byte)
    ensures UpdateAsWritten(crc, b) == Shifts((crc ^ b as bv32) & 0xFF, 8)
  {
    StepsSplit(crc ^ b as bv32);
    assert (crc ^ b as bv32) >> 8 == crc >> 8;
  }

  /** Eight steps on different byte values end in different low bytes. */
  lemma StepsLowByteInjective(i: bv32, j: bv32)
    requires i < 256 && j < 256 && i != j
    ensures Shifts(i, 8) & 0xFF != Shifts(j, 8) & 0xFF
  {
    ShiftsExpanded(i);
    ShiftsExpanded(j);
    ExpandedLowByteInjective(i, j);
  }

  /** Different bytes give registers with different low bytes from the same register
      under the original routine's update. */
  lemma UpdateAsWrittenInjectiveInByte(c: bv32, a: byte, b: byte)
    requires a != b
    ensures UpdateAsWritten(c, a) & 0xFF != UpdateAsWritten(c, b) & 0xFF
  {
    UpdateAsWrittenLowByte(c, a);
    UpdateAsWrittenLowByte(c, b);
    StepsLowByteInjective((c ^ a as bv32) & 0xFF, (c ^ b as bv32) & 0xFF);
  }

  /** Registers with different low bytes keep different low bytes after the original
      routine's update with the same byte. */
  lemma UpdateAsWrittenKeepsLowDifference(c: bv32, d: bv32, b: byte)
    requires c & 0xFF != d & 0xFF
    ensures UpdateAsWritten(c, b) & 0xFF != UpdateAsWritten(d, b) & 0xFF
  {
    UpdateAsWrittenLowByte(c, b);
    UpdateAsWrittenLowByte(d, b);
    StepsLowByteInjective((c ^ b as bv32) & 0xFF, (d ^ b as bv32) & 0xFF);
  }

  /** Two registers with different low bytes stay so under the original routine,
      whatever bytes follow. */
  lemma {:induction false} FoldAsWrittenKeepsLowDifference(c: bv32, d: bv32, t: seq<byte>)
    requires c & 0xFF != d & 0xFF
    ensures FoldAsWritten(c, t) & 0xFF != FoldAsWritten(d, t) & 0xFF
    decreases |t|
  {
    if |t| > 0 {
      var init, b := t[..|t| - 1], t[|t| - 1];
      assert t == init + [b];
      FoldAsWrittenKeepsLowDifference(c, d, init);
      FoldAsWrittenSnoc(c, init, b);
      FoldAsWrittenSnoc(d, init, b);
      UpdateAsWrittenKeepsLowDifference(FoldAsWritten(c, init), FoldAsWritten(d, init), b);
    }
  }

  lemma {:induction false} FoldAsWrittenAppend(crc: bv32, s: seq<byte>, t: seq<byte>)
    ensures FoldAsWritten(crc, s + t) == FoldAsWritten(FoldAsWritten(crc, s), t)
    decreases |t|
  {
    if |t| == 0 {
      assert s + t == s;
    } else {
      var init, b := t[..|t| - 1], t[|t| - 1];
      assert t == init + [b];
      assert s + t == (s + init) + [b];
      FoldAsWrittenAppend(crc, s, init);
      FoldAsWrittenSnoc(crc, s + init, b);
      FoldAsWrittenSnoc(FoldAsWritten(crc, s), init, b);
    }
  }

  /** The original routine, too, detects every corruption of a single byte: the
      changed byte changes the low byte of the register, and that difference is
      carried to the end. What it misses are some changes of two bytes or more
      (`AsWrittenCollision`). */
  lemma AsWrittenSingleByteErrorDetected(x: seq<byte>, y: seq<byte>, k: nat)
    requires |x| == |y| && k < |x|
    requires x[k] != y[k]
    requires forall i :: 0 <= i < |x| && i != k ==> x[i] == y[i]
    ensures Crc32AsWritten(x) != Crc32AsWritten(y)
  {
    var prefix, suffix := x[..k], x[k + 1..];
    assert x == (prefix + [x[k]]) + suffix;
    assert y == (prefix + [y[k]]) + suffix;
    FoldAsWrittenAppend(Preset, prefix + [x[k]], suffix);
    FoldAsWrittenAppend(Preset, prefix + [y[k]], suffix);
    var c := FoldAsWritten(Preset, prefix);
    FoldAsWrittenSnoc(Preset, prefix, x[k]);
    FoldAsWrittenSnoc(Preset, prefix, y[k]);
    UpdateAsWrittenInjectiveInByte(c, x[k], y[k]);
    FoldAsWrittenKeepsLowDifference(UpdateAsWritten(c, x[k]), UpdateAsWritten(c, y[k]), suffix);
  }

  // ---------------------------------------------------------------------------
  // Choosing the routine
  // ---------------------------------------------------------------------------

  /** Which routine computes a file's checksum: the standard CRC-32, or the original
      program's routine as written. */
  datatype Variant = Standard | AsWritten

  /** The checksum of `data` under the chosen routine. */
  function ChecksumOf(v: Variant, data: seq<byte>): (r: bv32)
    ensures |data| == 0 ==> r == 0
  {
    match v
    case Standard => Crc32(data)
    case AsWritten => Crc32AsWritten(data)
  }

  /** The chosen routine's loops. */
  method ComputeChecksum(v: Variant, data: seq<byte>) returns (crc: bv32)
    ensures crc == ChecksumOf(v, data)
  {
    match v
    case Standard => crc := ComputeCrc32(data);
    case AsWritten => crc := ComputeCrc32AsWritten(data);
  }

  /** Whichever routine is chosen, it detects every corruption of a single byte. */
  lemma ChecksumSingleByteErrorDetected(v: Variant, x: seq<byte>, y: seq<byte>, k: nat)
    requires |x| == |y| && k < |x|
    requires x[k] != y[k]
    requires forall i :: 0 <= i < |x| && i != k ==> x[i] == y[i]
    ensures ChecksumOf(v, x) != ChecksumOf(v, y)
  {
    match v
    case Standard => SingleByteErrorDetected(x, y, k);
    case AsWritten => AsWrittenSingleByteErrorDetected(x, y, k);
  }
}
