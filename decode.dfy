/** Fetching and decoding of CHIP-8 instruction words, exactly as
    `Chip8::single_cycle` in chip8.cpp does it (including its truncations).
    The C++ unsigned types are integer ranges; every mask, shift and
    narrowing assignment of the code is written out as the arithmetic it
    performs on those ranges. */
module Opcode {

  /** `uint8_t`. */
  type uint8 = x: int | 0 <= x < 0x100
  /** `uint16_t`. */
  type uint16 = x: int | 0 <= x < 0x1_0000

  /** The instruction word whose high byte is `hi` and low byte is `lo`:
      the C++ expression `hi << 8 | lo`, stored in a `uint16_t`. */
  function Word(hi: uint8, lo: uint8): (op: uint16)
    ensures op / 0x100 == hi && op % 0x100 == lo
  {
    hi * 0x100 + lo
  }

  /** Big-endian fetch of the instruction word at `pc`,
      `memory[pc] << 8 | memory[pc + 1]`. */
  function Fetch(mem: seq<uint8>, pc: int): (op: uint16)
    requires 0 <= pc && pc + 1 < |mem|
    ensures op / 0x100 == mem[pc] && op % 0x100 == mem[pc + 1]
  {
    Word(mem[pc], mem[pc + 1])
  }

  /** The instruction family, `uint8_t op_code = op >> 12`: the top nibble. */
  function Family(op: uint16): (f: uint8)
    ensures f < 0x10 && f * 0x1000 <= op < (f + 1) * 0x1000
  {
    op / 0x1000
  }

  /** The 12-bit address operand, `op & 0x0FFF`: the word without its family. */
  function Address(op: uint16): (a: uint16)
    ensures a < 0x1000 && op == Family(op) * 0x1000 + a
  {
    op % 0x1000
  }

  /** The 8-bit immediate operand, `op & 0x00FF` stored in a `uint8_t`: the
      low byte of the word. */
  function LowByte(op: uint16): (b: uint8)
    ensures op == (op / 0x100) * 0x100 + b
  {
    op % 0x100
  }

  /** The 4-bit immediate operand (sprite height), `op & 0x000F` stored in a
      `uint8_t`: the low nibble of the word. */
  function LowNibble(op: uint16): (n: uint8)
    ensures n < 0x10 && op == (op / 0x10) * 0x10 + n
  {
    op % 0x10
  }

  /** The register index the code computes for the X operand of 6xkk, 7xkk
      and Dxyn: `op & 0x0F00` (the X nibble times 0x100) assigned to a
      `uint8_t`, which keeps it modulo 0x100. (The evidently intended decode
      is `(op & 0x0F00) >> 8`.) */
  function XRegister(op: uint16): (reg: uint8)
    ensures reg < 16
  {
    (op / 0x100 % 0x10 * 0x100) % 0x100
  }

  /** The register index the code computes for the Y operand of Dxyn:
      `op & 0x00F0` (the Y nibble times 0x10) assigned to a `uint8_t`.
      (The evidently intended decode is `(op & 0x00F0) >> 4`.) */
  function YRegister(op: uint16): (reg: uint8)
    ensures reg % 0x10 == 0
  {
    (op / 0x10 % 0x10 * 0x10) % 0x100
  }

  /** The X operand always selects register V0: the nibble sits in bits
      8..11, exactly the bits the `uint8_t` truncation drops. */
  lemma XRegisterIsV0(op: uint16)
    ensures XRegister(op) == 0
  {
  }

  /** The Y operand is 16 times the Y nibble, so it names one of the 16
      registers only when the Y nibble is 0, and then it is V0. */
  lemma YRegisterInRange(op: uint16)
    ensures YRegister(op) == op / 0x10 % 0x10 * 0x10
    ensures YRegister(op) < 16 <==> op / 0x10 % 0x10 == 0
    ensures YRegister(op) < 16 ==> YRegister(op) == 0
  {
  }

  /** The mask `0x80 >> j` that selects bit `j` of a sprite row, counted
      from the most significant bit. */
  function ColumnMask(j: int): (mask: uint8)
    requires 0 <= j < 8
    ensures 0 < mask <= 0x80 && 0x80 % mask == 0
  {
    match j
    case 0 => 0x80
    case 1 => 0x40
    case 2 => 0x20
    case 3 => 0x10
    case 4 => 0x08
    case 5 => 0x04
    case 6 => 0x02
    case 7 => 0x01
  }

  /** Each mask is half the one before it and the last one is 1, so mask
      `j` is bit 7 - j. */
  lemma ColumnMasksHalve(j: int)
    requires 0 <= j < 8
    ensures j == 7 ==> ColumnMask(j) == 1
    ensures j < 7 ==> ColumnMask(j) == 2 * ColumnMask(j + 1)
  {
  }

  /** Whether bit `j` of a sprite row, counted from the most significant bit,
      is set: `(pixel & (0x80 >> j)) != 0`. */
  function SpriteBit(pixel: uint8, j: int): (isSet: bool)
    requires 0 <= j < 8
    ensures j == 0 ==> (isSet <==> pixel >= 0x80)
    ensures j == 7 ==> (isSet <==> pixel % 2 == 1)
    ensures pixel == 0 ==> !isSet
  {
    pixel / ColumnMask(j) % 2 == 1
  }

  // The arithmetic decodes above agree with the C++ bitwise operators, stated
  // for every 16-bit word `w` as a bit-vector.

  /** `Family` is `op >> 12`. */
  lemma FamilyIsShift(w: bv16)
    ensures Family(w as int) == (w >> 12) as int
  {
    assert w >> 12 == w / 0x1000;
  }

  /** `w` split at bit 12, as integers. */
  lemma SplitAt12(w: bv16)
    ensures w as int == ((w >> 12) as int) * 0x1000 + (w & 0x0FFF) as int
  {
    assert w == (w >> 12) * 0x1000 + (w & 0x0FFF);
  }

  /** `w` split at bit 8, as integers. */
  lemma SplitAt8(w: bv16)
    ensures w as int == ((w >> 8) as int) * 0x100 + (w & 0x00FF) as int
  {
    assert w == (w >> 8) * 0x100 + (w & 0x00FF);
  }

  /** `w` split at bit 4, as integers. */
  lemma SplitAt4(w: bv16)
    ensures w as int == ((w >> 4) as int) * 0x10 + (w & 0x000F) as int
  {
    assert w == (w >> 4) * 0x10 + (w & 0x000F);
  }

  /** Quotient and remainder by 16, 256 or 4096 are unique. */
  lemma RemainderUnique(n: int, q: int, r: int, d: int)
    requires d == 0x10 || d == 0x100 || d == 0x1000
    requires 0 <= r < d && n == q * d + r
    ensures n % d == r
  {
  }

  /** `Address` is `op & 0x0FFF`. */
  lemma AddressIsMask(w: bv16)
    ensures Address(w as int) == (w & 0x0FFF) as int
  {
    SplitAt12(w);
    assert (w & 0x0FFF) as int < 0x1000 by { assert w & 0x0FFF <= 0x0FFF; }
    RemainderUnique(w as int, (w >> 12) as int, (w & 0x0FFF) as int, 0x1000);
  }

  /** `LowByte` is `op & 0x00FF`. */
  lemma LowByteIsMask(w: bv16)
    ensures LowByte(w as int) == (w & 0x00FF) as int
  {
    SplitAt8(w);
    assert (w & 0x00FF) as int < 0x100 by { assert w & 0x00FF <= 0x00FF; }
    RemainderUnique(w as int, (w >> 8) as int, (w & 0x00FF) as int, 0x100);
  }

  /** `LowNibble` is `op & 0x000F`. */
  lemma LowNibbleIsMask(w: bv16)
    ensures LowNibble(w as int) == (w & 0x000F) as int
  {
    SplitAt4(w);
    assert (w & 0x000F) as int < 0x10 by { assert w & 0x000F <= 0x000F; }
    RemainderUnique(w as int, (w >> 4) as int, (w & 0x000F) as int, 0x10);
  }

  /** `XRegister` is `op & 0x0F00` narrowed to 8 bits. */
  lemma XRegisterIsMask(w: bv16)
    ensures XRegister(w as int) == ((w & 0x0F00) as int) % 256
  {
  }

  /** `Word` is `hi << 8 | lo`. */
  lemma WordIsShiftOr(hi: bv8, lo: bv8)
    ensures Word(hi as int, lo as int) == (((hi as bv16) << 8) | (lo as bv16)) as int
  {
  }

  /** `SpriteBit` is `(pixel & (0x80 >> j)) != 0`. */
  lemma SpriteBitIsMask(pixel: uint8, j: int)
    requires 0 <= j < 8
    ensures SpriteBit(pixel, j) == (((pixel as bv8) & ((0x80 as bv8) >> j)) != 0)
  {
  }
}
