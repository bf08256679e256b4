/**
 * A known-answer vector for the checksum engine: the two bytes 0xBE 0xEF
 * give the checksum 0x92, the example Sensirion publishes for the SGP30.
 *
 * Evaluating the register on constants is out of the solver's reach in
 * one piece, so the proof walks the standard CRC-8 a few shifts at a time,
 * each run pinned to its starting value, and glues the runs together with
 * `MaskedShiftsAdd`.
 */
module Crc8Vector {
  import opened Crc8
  import opened Crc8Steps

  // ---------------------------------------------------------------------
  // First byte: 0xFF xor 0xBE = 0x41, shifted to 0x0C.
  // ---------------------------------------------------------------------

  lemma XorFFBE(a: nat, b: nat)
    requires a == 0xFF && b == 0xBE
    ensures Xor(a, b) == 0x41
  {
    assert Xor(a / 256, b / 256) == 0;
    XorFrom(a / 128, b / 128, 0, 0);
    XorFrom(a / 64, b / 64, 0, 1);
    XorFrom(a / 32, b / 32, 1, 2);
    XorFrom(a / 16, b / 16, 2, 4);
    XorFrom(a / 8, b / 8, 4, 8);
    XorFrom(a / 4, b / 4, 8, 16);
    XorFrom(a / 2, b / 2, 16, 32);
    XorFrom(a, b, 32, 65);
  }

  lemma FirstXor(a: Byte, b: Byte)
    requires a == Init && b == 0xBE
    ensures XorByte(a, b) == 0x41
  {
    XorFFBE(a, b);
  }

  lemma FirstShifts41(x: Byte)
    requires x == 0x41
    ensures MaskedShifts(x, 4) == 0xD4
  {
    ShiftFrom(x, 0x41, 0x82);
    ShiftFrom(MaskedShifts(x, 1), 0x82, 0x35);
    ShiftFrom(MaskedShifts(x, 2), 0x35, 0x6A);
    ShiftFrom(MaskedShifts(x, 3), 0x6A, 0xD4);
  }

  lemma FirstShiftsD4(x: Byte)
    requires x == 0xD4
    ensures MaskedShifts(x, 1) == 0x99
  {
    ShiftFrom(x, 0xD4, 0x99);
  }

  lemma FirstShifts99(x: Byte)
    requires x == 0x99
    ensures MaskedShifts(x, 3) == 0x0C
  {
    ShiftFrom(x, 0x99, 0x03);
    ShiftFrom(MaskedShifts(x, 1), 0x03, 0x06);
    ShiftFrom(MaskedShifts(x, 2), 0x06, 0x0C);
  }

  /** The eight shifts after the first byte: 0x41 becomes 0x0C. */
  lemma FirstShifts(x: Byte)
    requires x == 0x41
    ensures MaskedShifts(x, BitsPerByte) == 0x0C
  {
    FirstShifts41(x);
    MaskedShiftsAdd(x, 4, 4);
    var y := MaskedShifts(x, 4);
    FirstShiftsD4(y);
    MaskedShiftsAdd(y, 1, 3);
    FirstShifts99(MaskedShifts(y, 1));
  }

  // ---------------------------------------------------------------------
  // Second byte: 0x0C xor 0xEF = 0xE3, shifted to 0x92.
  // ---------------------------------------------------------------------

  lemma Xor0CEF(a: nat, b: nat)
    requires a == 0x0C && b == 0xEF
    ensures Xor(a, b) == 0xE3
  {
    assert Xor(a / 16, b / 16) == 0xE;
    XorFrom(a / 8, b / 8, 14, 28);
    XorFrom(a / 4, b / 4, 28, 56);
    XorFrom(a / 2, b / 2, 56, 113);
    XorFrom(a, b, 113, 227);
  }

  lemma SecondXor(a: Byte, b: Byte)
    requires a == 0x0C && b == 0xEF
    ensures XorByte(a, b) == 0xE3
  {
    Xor0CEF(a, b);
  }

  lemma SecondShiftsE3(x: Byte)
    requires x == 0xE3
    ensures MaskedShifts(x, 1) == 0xF7
  {
    ShiftFrom(x, 0xE3, 0xF7);
  }

  lemma SecondShiftsF7(x: Byte)
    requires x == 0xF7
    ensures MaskedShifts(x, 1) == 0xDF
  {
    ShiftFrom(x, 0xF7, 0xDF);
  }

  lemma SecondShiftsDF(x: Byte)
    requires x == 0xDF
    ensures MaskedShifts(x, 1) == 0x8F
  {
    ShiftFrom(x, 0xDF, 0x8F);
  }

  lemma SecondShifts8F(x: Byte)
    requires x == 0x8F
    ensures MaskedShifts(x, 3) == 0xBC
  {
    ShiftFrom(x, 0x8F, 0x2F);
    ShiftFrom(MaskedShifts(x, 1), 0x2F, 0x5E);
    ShiftFrom(MaskedShifts(x, 2), 0x5E, 0xBC);
  }

  lemma SecondShiftsBC(x: Byte)
    requires x == 0xBC
    ensures MaskedShifts(x, 2) == 0x92
  {
    ShiftFrom(x, 0xBC, 0x49);
    ShiftFrom(MaskedShifts(x, 1), 0x49, 0x92);
  }

  /** The first three shifts after the second byte: 0xE3 becomes 0x8F. */
  lemma SecondShiftsHead(x: Byte)
    requires x == 0xE3
    ensures MaskedShifts(x, 3) == 0x8F
  {
    SecondShiftsE3(x);
    MaskedShiftsAdd(x, 1, 2);
    var y := MaskedShifts(x, 1);
    SecondShiftsF7(y);
    MaskedShiftsAdd(y, 1, 1);
    SecondShiftsDF(MaskedShifts(y, 1));
  }

  /** The eight shifts after the second byte: 0xE3 becomes 0x92. */
  lemma SecondShifts(x: Byte)
    requires x == 0xE3
    ensures MaskedShifts(x, BitsPerByte) == 0x92
  {
    SecondShiftsHead(x);
    MaskedShiftsAdd(x, 3, 5);
    var y := MaskedShifts(x, 3);
    SecondShifts8F(y);
    MaskedShiftsAdd(y, 3, 2);
    SecondShiftsBC(MaskedShifts(y, 3));
  }

  // ---------------------------------------------------------------------
  // The vector.
  // ---------------------------------------------------------------------

  /** The driver's checksum of 0xBE 0xEF is 0x92. */
  lemma ChecksumOfBeef()
    ensures Checksum([0xBE, 0xEF]) == 0x92
  {
    var data: seq<Byte> := [0xBE, 0xEF];
    ChecksumIsStandardCrc8(data);
    var first := data[..1];
    assert first[..0] == [] && first[0] == 0xBE && data[1] == 0xEF;
    FirstXor(StandardCrc8(first[..0]), first[0]);
    FirstShifts(XorByte(StandardCrc8(first[..0]), first[0]));
    SecondXor(StandardCrc8(first), data[1]);
    SecondShifts(XorByte(StandardCrc8(first), data[1]));
  }
}
