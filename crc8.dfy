/**
 * The checksum engine of the SGP30 driver: an 8-bit CRC with polynomial
 * 0x31 and initial value 0xFF, no reflection and no final exclusive-or
 * (catalogued as CRC-8/NRSC-5).
 *
 * The driver keeps its register in an unbounded integer and masks it to
 * eight bits only once, after the last byte. Here the register is a `nat`,
 * exclusive-or is `Xor` on naturals of any width, a left shift by one is a
 * doubling, `r & 0x80` is bit 7 of `r` and `r & 0xFF` is `r % 256`.
 */
module Crc8 {

  /** A byte as the bus delivers it: an integer in 0..255. */
  type Byte = x: nat | x < 256

  const Init: Byte := 0xFF
  const Polynomial: Byte := 0x31
  /** Passes of the inner loop per byte. */
  const BitsPerByte: nat := 8

  function Pow2(k: nat): (p: nat)
    ensures p >= 1
  {
    if k == 0 then 1 else 2 * Pow2(k - 1)
  }

  /** Bitwise exclusive-or of two naturals of any width. */
  function Xor(a: nat, b: nat): nat
    decreases a + b
  {
    if a == 0 then b
    else if b == 0 then a
    else 2 * Xor(a / 2, b / 2) + (if a % 2 == b % 2 then 0 else 1)
  }

  /** The recursive case of `Xor` holds also when an operand is zero. */
  lemma XorStep(a: nat, b: nat)
    ensures Xor(a, b) == 2 * Xor(a / 2, b / 2) + (if a % 2 == b % 2 then 0 else 1)
  {
    if a == 0 {
      assert Xor(0, b / 2) == b / 2;
    } else if b == 0 {
      assert Xor(a / 2, 0) == a / 2;
    }
  }

  lemma MulAtLeast(d: nat, k: nat)
    requires k >= 1
    ensures d * k >= d
  {
    assert d * k == d * (k - 1) + d;
  }

  /** Division with remainder is unique. */
  lemma DivModUnique(x: nat, d: nat, q: nat, r: nat)
    requires 0 <= r < d && x == d * q + r
    ensures x / d == q && x % d == r
  {
    var q', r' := x / d, x % d;
    assert x == d * q' + r';
    if q' < q {
      MulAtLeast(d, q - q');
    } else if q' > q {
      MulAtLeast(d, q' - q);
    }
  }

  /** Dropping the low bit of `x` and reducing modulo `m` commute. */
  lemma HalveMod(x: nat, m: nat)
    requires m > 0
    ensures (x % (2 * m)) / 2 == (x / 2) % m
    ensures (x % (2 * m)) % 2 == x % 2
  {
    var d := 2 * m;
    var q, r := x / d, x % d;
    assert x == d * q + r;
    var mq := m * q;
    assert d * q == 2 * mq;
    var h, l := r / 2, r % 2;
    assert r == 2 * h + l;
    assert h < m;
    DivModUnique(x, 2, mq + h, l);
    DivModUnique(x / 2, m, q, h);
  }

  /** Appending a low bit and reducing modulo `2 * m` commute. */
  lemma DoubleMod(x: nat, bit: nat, m: nat)
    requires bit < 2 && m > 0
    ensures (2 * x + bit) % (2 * m) == 2 * (x % m) + bit
  {
    var q, s := x / m, x % m;
    assert x == m * q + s;
    var mq := m * q;
    assert (2 * m) * q == 2 * mq;
    DivModUnique(2 * x + bit, 2 * m, q, 2 * s + bit);
  }

  /** The low `k` bits of an exclusive-or depend only on the low `k` bits of its operands. */
  lemma {:induction false} XorLowBits(a: nat, b: nat, k: nat)
    ensures Xor(a, b) % Pow2(k) == Xor(a % Pow2(k), b % Pow2(k))
  {
    if k == 0 {
      assert Xor(a % 1, b % 1) == Xor(0, 0) == 0;
    } else {
      var m := Pow2(k - 1);
      var bit := if a % 2 == b % 2 then 0 else 1;
      XorLowBits(a / 2, b / 2, k - 1);
      XorStep(a, b);
      XorStep(a % (2 * m), b % (2 * m));
      HalveMod(a, m);
      HalveMod(b, m);
      DoubleMod(Xor(a / 2, b / 2), bit, m);
    }
  }

  /** Exclusive-or never sets a bit above the operands' width. */
  lemma {:induction false} XorBound(a: nat, b: nat, k: nat)
    requires a < Pow2(k) && b < Pow2(k)
    ensures Xor(a, b) < Pow2(k)
  {
    if k > 0 {
      XorStep(a, b);
      XorBound(a / 2, b / 2, k - 1);
    }
  }

  /** Exclusive-or of two bytes is a byte. */
  function XorByte(a: Byte, b: Byte): Byte
  {
    assert Pow2(8) == 256;
    XorBound(a, b, 8);
    Xor(a, b)
  }

  // ---------------------------------------------------------------------
  // The driver's register: unbounded, masked once at the end.
  // ---------------------------------------------------------------------

  /** One pass of the inner loop: bit 7 set means shift and fold in the polynomial. */
  function ShiftOnce(r: nat): nat
  {
    if (r / 0x80) % 2 == 1 then Xor(r * 2, Polynomial) else r * 2
  }

  /** `k` passes of the inner loop. */
  function Shifts(r: nat, k: nat): nat
  {
    if k == 0 then r else ShiftOnce(Shifts(r, k - 1))
  }

  /** One pass of the outer loop: fold the byte in, then shift eight times. */
  function AbsorbByte(r: nat, b: Byte): nat
  {
    Shifts(Xor(r, b), BitsPerByte)
  }

  /** The unmasked register after the outer loop has consumed `data`. */
  function Register(data: seq<Byte>): nat
    decreases |data|
  {
    if data == [] then Init
    else AbsorbByte(Register(data[..|data| - 1]), data[|data| - 1])
  }

  /** The value the driver's checksum function returns for `data`. */
  function Checksum(data: seq<Byte>): Byte
  {
    Register(data) % 256
  }

  // ---------------------------------------------------------------------
  // The reference: CRC-8 with an 8-bit register masked at every step.
  // ---------------------------------------------------------------------

  function MaskedShiftOnce(m: Byte): Byte
  {
    var s := (m * 2) % 256;
    if m >= 0x80 then XorByte(s, Polynomial) else s
  }

  function MaskedShifts(m: Byte, k: nat): Byte
  {
    if k == 0 then m else MaskedShiftOnce(MaskedShifts(m, k - 1))
  }

  /** CRC-8 (poly 0x31, init 0xFF, not reflected, no final exclusive-or) of `data`. */
  function StandardCrc8(data: seq<Byte>): Byte
    decreases |data|
  {
    if data == [] then Init
    else MaskedShifts(XorByte(StandardCrc8(data[..|data| - 1]), data[|data| - 1]), BitsPerByte)
  }

  // ---------------------------------------------------------------------
  // Masking once at the end agrees with masking at every step.
  // ---------------------------------------------------------------------

  /** Bit 7 and the doubled low byte of the register depend only on its low byte. */
  lemma LowByteOfDouble(r: nat)
    ensures (r / 0x80) % 2 == 1 <==> r % 256 >= 0x80
    ensures (r * 2) % 256 == ((r % 256) * 2) % 256
  {
    var q, m := r / 256, r % 256;
    assert r == 256 * q + m;
    var t := m / 0x80;
    assert m == 0x80 * t + m % 0x80;
    DivModUnique(r, 0x80, 2 * q + t, m % 0x80);
    DivModUnique(2 * q + t, 2, q, t);
    DivModUnique(r * 2, 256, 2 * q + (m * 2) / 256, (m * 2) % 256);
  }

  lemma ShiftOnceLowByte(r: nat)
    ensures ShiftOnce(r) % 256 == MaskedShiftOnce(r % 256)
  {
    LowByteOfDouble(r);
    if (r / 0x80) % 2 == 1 {
      assert Pow2(8) == 256;
      XorLowBits(r * 2, Polynomial, 8);
    }
  }

  lemma {:induction false} ShiftsLowByte(r: nat, k: nat)
    ensures Shifts(r, k) % 256 == MaskedShifts(r % 256, k)
  {
    if k > 0 {
      ShiftsLowByte(r, k - 1);
      ShiftOnceLowByte(Shifts(r, k - 1));
    }
  }

  /** Folding a byte into the register and masking commute. */
  lemma XorLowByte(r: nat, b: Byte)
    ensures Xor(r, b) % 256 == XorByte(r % 256, b)
  {
    assert b % 256 == b;
    assert Pow2(8) == 256;
    XorLowBits(r, b, 8);
  }

  /** One pass of the outer loop keeps the low byte in step with the reference. */
  lemma AbsorbLowByte(r: nat, b: Byte)
    ensures AbsorbByte(r, b) % 256 == MaskedShifts(XorByte(r % 256, b), BitsPerByte)
  {
    XorLowByte(r, b);
    ShiftsLowByte(Xor(r, b), BitsPerByte);
  }

  /**
   * The driver's checksum, which never masks inside its loops, equals the
   * standard 8-bit CRC-8 for every input.
   */
  lemma {:induction false} ChecksumIsStandardCrc8(data: seq<Byte>)
    ensures Checksum(data) == StandardCrc8(data)
    decreases |data|
  {
    if data != [] {
      var prefix, b := data[..|data| - 1], data[|data| - 1];
      ChecksumIsStandardCrc8(prefix);
      AbsorbLowByte(Register(prefix), b);
    }
  }

  /**
   * The driver's checksum routine: a register updated in a nested loop,
   * masked to eight bits once on return.
   */
  method Crc(data: seq<Byte>) returns (c: Byte)
    ensures c == Checksum(data)
    ensures data == [] ==> c == Init
  {
    var reg: nat := Init;
    for i := 0 to |data|
      invariant reg == Register(data[..i])
    {
      assert data[..i + 1][..i] == data[..i];
      reg := Xor(reg, data[i]);
      ghost var start := reg;
      for j := 0 to BitsPerByte
        invariant reg == Shifts(start, j)
      {
        if (reg / 0x80) % 2 == 1 {
          reg := Xor(reg * 2, Polynomial);
        } else {
          reg := reg * 2;
        }
      }
    }
    assert data[..|data|] == data;
    c := reg % 256;
  }
}
