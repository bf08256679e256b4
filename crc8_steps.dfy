/**
 * Bit-level facts about the checksum engine's shift step: a closed form
 * for one masked shift, and the splitting of a run of shifts in two.
 */
module Crc8Steps {
  import opened Crc8

  /** The lowest bit of `Xor(a, b)`, split on the lowest bit of `b`. */
  lemma XorStepBit(a: nat, b: nat)
    ensures b % 2 == 0 ==> Xor(a, b) == 2 * Xor(a / 2, b / 2) + a % 2
    ensures b % 2 == 1 ==> Xor(a, b) == 2 * Xor(a / 2, b / 2) + 1 - a % 2
  {
    XorStep(a, b);
  }

  /** One step of `Xor` once the exclusive-or of the halves is known. */
  lemma XorFrom(a: nat, b: nat, h: nat, r: nat)
    requires Xor(a / 2, b / 2) == h
    requires r == 2 * h + (if a % 2 == b % 2 then 0 else 1)
    ensures Xor(a, b) == r
  {
    XorStep(a, b);
  }

  /** The four low bits of an even number xor 0x31 (0b0011_0001). */
  lemma XorPolynomialLow(s: nat)
    requires s % 2 == 0
    ensures Xor(s, Polynomial) == 16 * Xor(s / 2 / 2 / 2 / 2, 3)
      + 8 * (s / 2 / 2 / 2 % 2) + 4 * (s / 2 / 2 % 2) + 2 * (s / 2 % 2) + 1
  {
    XorStepBit(s, 49);
    XorStepBit(s / 2, 24);
    XorStepBit(s / 2 / 2, 12);
    XorStepBit(s / 2 / 2 / 2, 6);
  }

  /** Exclusive-or with 3 flips the two lowest bits. */
  lemma XorThree(t: nat)
    ensures Xor(t, 3) == 4 * (t / 2 / 2) + 2 * (1 - t / 2 % 2) + 1 - t % 2
  {
    XorStepBit(t, 3);
    XorStepBit(t / 2, 1);
    assert Xor(t / 2 / 2, 0) == t / 2 / 2;
  }

  /** Folding the polynomial into an even byte sets bit 0 and flips bits 4 and 5. */
  lemma XorPolynomialOfEven(s: Byte)
    requires s % 2 == 0
    ensures Xor(s, Polynomial) == s + 1
      + (if (s / 16) % 2 == 0 then 16 else -16)
      + (if (s / 32) % 2 == 0 then 32 else -32)
  {
    XorPolynomialLow(s);
    XorThree(s / 2 / 2 / 2 / 2);
    var s1 := s / 2;
    var s2, b1 := s1 / 2, s1 % 2;
    var s3, b2 := s2 / 2, s2 % 2;
    var s4, b3 := s3 / 2, s3 % 2;
    var s5, b4 := s4 / 2, s4 % 2;
    var s6, b5 := s5 / 2, s5 % 2;
    var low := 8 * b3 + 4 * b2 + 2 * b1;
    assert s == 64 * s6 + 32 * b5 + 16 * b4 + low;
    DivModUnique(s, 16, s4, low);
    DivModUnique(s, 32, s5, 16 * b4 + low);
  }

  /** One masked shift as arithmetic: a doubling, and for bit 7 set the polynomial folded in. */
  lemma MaskedShiftOnceValue(m: Byte)
    ensures m < 0x80 ==> MaskedShiftOnce(m) == 2 * m
    ensures m >= 0x80 ==>
      MaskedShiftOnce(m) == 2 * m - 256 + 1
        + (if ((2 * m - 256) / 16) % 2 == 0 then 16 else -16)
        + (if ((2 * m - 256) / 32) % 2 == 0 then 32 else -32)
  {
    var s := (m * 2) % 256;
    if m >= 0x80 {
      assert s == 2 * m - 256;
      XorPolynomialOfEven(s);
    } else {
      assert s == 2 * m;
    }
  }

  /** One masked shift of a register known to hold `v`. */
  lemma ShiftFrom(m: Byte, v: Byte, r: Byte)
    requires m == v
    requires v < 0x80 ==> r == 2 * v
    requires v >= 0x80 ==>
      r == 2 * v - 256 + 1
        + (if ((2 * v - 256) / 16) % 2 == 0 then 16 else -16)
        + (if ((2 * v - 256) / 32) % 2 == 0 then 32 else -32)
    ensures MaskedShiftOnce(m) == r
  {
    MaskedShiftOnceValue(m);
  }

  /** `i + j` shifts are `i` shifts followed by `j` more. */
  lemma {:induction false} MaskedShiftsAdd(m: Byte, i: nat, j: nat)
    ensures MaskedShifts(m, i + j) == MaskedShifts(MaskedShifts(m, i), j)
  {
    if j > 0 {
      MaskedShiftsAdd(m, i, j - 1);
    }
  }
}
