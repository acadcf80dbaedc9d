/** The bit-wise CRC-32 of zipper.c and nestedzipper.c (the two copies are identical):
    the reflected CRC-32 of ISO 3309 / ITU-T V.42 that APPNOTE.TXT section 4.4.7
    prescribes, with polynomial 0xEDB88320, the register preset to all ones and a final
    complement. */
module Crc32 {

  const Polynomial: bv32 := 0xEDB8_8320
  const Initial: bv32 := 0xFFFF_FFFF

  /** One pass of the inner loop: shift right, folding the polynomial in when the bit
      shifted out was set. */
  function Shift(r: bv32): bv32
  {
    if r & 1 != 0 then (r >> 1) ^ Polynomial else r >> 1
  }

  /** `Shift` applied `n` times. */
  function Shifts(r: bv32, n: nat): bv32
  {
    if n == 0 then r else Shift(Shifts(r, n - 1))
  }

  /** One pass of the outer loop: XOR the byte into the low bits, then eight shifts. */
  function ByteStep(r: bv32, b: bv8): bv32
  {
    Shifts(r ^ (b as bv32), 8)
  }

  /** The register after feeding `s` to a register holding `r`: the left fold of ByteStep. */
  function Update(r: bv32, s: seq<bv8>): bv32
  {
    if s == [] then r else ByteStep(Update(r, s[..|s| - 1]), s[|s| - 1])
  }

  /** The checksum of `s`: the complement of the register once every byte is in. The
      result is the raw 32-bit pattern; no sign is involved. */
  function Crc(s: seq<bv8>): bv32
  {
    !Update(Initial, s)
  }

  /** The body of the outer loop of crc32: XOR one byte into the register, then the
      inner loop of eight conditional shifts. */
  method FeedByte(crc: bv32, b: bv8) returns (reg: bv32)
    ensures reg == ByteStep(crc, b)
  {
    reg := crc ^ (b as bv32);
    ghost var mixed := reg;
    for j := 0 to 8
      invariant reg == Shifts(mixed, j)
    {
      if reg & 1 != 0 {
        reg := (reg >> 1) ^ Polynomial;
      } else {
        reg := reg >> 1;
      }
    }
  }

  /** crc32: preset the register, feed every byte, return the complement. */
  method Compute(data: seq<bv8>) returns (crc: bv32)
    ensures crc == Crc(data)
  {
    var reg: bv32 := Initial;
    for i := 0 to |data|
      invariant reg == Update(Initial, data[..i])
    {
      reg := FeedByte(reg, data[i]);
      assert data[..i + 1][..i] == data[..i];
    }
    assert data[..|data|] == data;
    crc := !reg;
  }

  /** The checksum of no bytes is the complement of the preset register: zero. */
  lemma CrcOfEmpty()
    ensures Crc([]) == 0
  {
  }

  /** Feeding two spans in turn is feeding their concatenation, so a checksum may be
      computed incrementally. */
  lemma {:induction false} UpdateAppend(r: bv32, a: seq<bv8>, b: seq<bv8>)
    ensures Update(r, a + b) == Update(Update(r, a), b)
  {
    if b == [] {
      assert a + b == a;
    } else {
      var b' := b[..|b| - 1];
      assert (a + b)[..|a + b| - 1] == a + b';
      UpdateAppend(r, a, b');
    }
  }

  /** The standard check value of CRC-32: the checksum of the nine ASCII digits
      "123456789" is 0xCBF43926. */
  lemma CheckValue()
    ensures Crc([0x31, 0x32, 0x33, 0x34, 0x35, 0x36, 0x37, 0x38, 0x39]) == 0xCBF4_3926
  {
    var a: seq<bv8> := [0x31, 0x32, 0x33];
    var b: seq<bv8> := [0x34, 0x35, 0x36];
    var c: seq<bv8> := [0x37, 0x38, 0x39];
    assert a + b + c == [0x31, 0x32, 0x33, 0x34, 0x35, 0x36, 0x37, 0x38, 0x39];
    UpdateAppend(Initial, a + b, c);
    UpdateAppend(Initial, a, b);
    CheckDigits123();
    CheckDigits456();
    CheckDigits789();
  }

  lemma CheckDigits123()
    ensures Update(Initial, [0x31, 0x32, 0x33]) == 0x77B7_9C2D
  {
    UpdateThree(Initial, 0x31, 0x32, 0x33);
    EightShifts(0xFFFF_FFFF ^ 0x31);
    EightShifts(0x7C23_1048 ^ 0x32);
    EightShifts(0xB0AC_BB32 ^ 0x33);
  }

  lemma CheckDigits456()
    ensures Update(0x77B7_9C2D, [0x34, 0x35, 0x36]) == 0xF68D_2C9E
  {
    UpdateThree(0x77B7_9C2D, 0x34, 0x35, 0x36);
    EightShifts(0x77B7_9C2D ^ 0x34);
    EightShifts(0x641C_1F5C ^ 0x35);
    EightShifts(0x340A_C5E3 ^ 0x36);
  }

  lemma CheckDigits789()
    ensures Update(0xF68D_2C9E, [0x37, 0x38, 0x39]) == 0x340B_C6D9
  {
    UpdateThree(0xF68D_2C9E, 0x37, 0x38, 0x39);
    EightShifts(0xF68D_2C9E ^ 0x37);
    EightShifts(0xAFFC_9660 ^ 0x38);
    EightShifts(0x651F_2550 ^ 0x39);
  }

  lemma UpdateThree(r: bv32, x: bv8, y: bv8, z: bv8)
    ensures Update(r, [x, y, z]) == ByteStep(ByteStep(ByteStep(r, x), y), z)
  {
    assert [x][..0] == [];
    assert Update(r, [x]) == ByteStep(r, x);
    assert [x, y][..1] == [x];
    assert Update(r, [x, y]) == ByteStep(Update(r, [x]), y);
    assert [x, y, z][..2] == [x, y];
  }

  lemma EightShifts(x: bv32)
    ensures Shifts(x, 8) == Shift(Shift(Shift(Shift(Shift(Shift(Shift(Shift(x))))))))
  {
    assert Shifts(x, 1) == Shift(x);
    assert Shifts(x, 2) == Shift(Shift(x));
    assert Shifts(x, 3) == Shift(Shifts(x, 2));
    assert Shifts(x, 4) == Shift(Shifts(x, 3));
    assert Shifts(x, 5) == Shift(Shifts(x, 4));
    assert Shifts(x, 6) == Shift(Shifts(x, 5));
    assert Shifts(x, 7) == Shift(Shifts(x, 6));
  }
}
