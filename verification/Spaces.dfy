// The address spaces that GDB's addresses are split into (src/jtag.h:243-268): code
// starts at zero, each other memory at an offset of its own.

module Spaces {
  const DATA_SPACE: nat := 0x80_0000
  const EEPROM_SPACE: nat := 0x81_0000
  const FUSE_SPACE: nat := 0x82_0000
  const LOCK_SPACE: nat := 0x83_0000
  const SIG_SPACE: nat := 0x84_0000
  const REGISTER_SPACE: nat := 0x85_0000
  const BREAKPOINT_SPACE: nat := 0x90_0000

  // The bit of weight w in a.
  function Bit(a: nat, w: nat): (b: nat)
    requires w > 0
  {
    if a / w % 2 == 1 then w else 0
  }

  // The bits of a under the address space mask, 0x970000.
  function SpaceBits(a: nat): nat {
    Bit(a, 0x80_0000) + Bit(a, 0x10_0000) + Bit(a, 0x4_0000) + Bit(a, 0x2_0000) + Bit(a, 0x1_0000)
  }

  lemma SpaceBitsFit(a: nat)
    ensures SpaceBits(a) <= a
  {
    var q := a / 0x80_0000;
    var r := a % 0x80_0000;
    assert a == q * 0x80_0000 + r;
  }

  // What is left of an address under the complement of the mask.
  function WithoutSpace(a: nat): nat {
    SpaceBitsFit(a);
    a - SpaceBits(a)
  }

  lemma SpaceBitsOf(space: nat, a: nat)
    requires space in {EEPROM_SPACE, FUSE_SPACE, LOCK_SPACE, SIG_SPACE, BREAKPOINT_SPACE, REGISTER_SPACE, DATA_SPACE}
    requires a < 0x1_0000
    ensures SpaceBits(space + a) == space
  {
  }

  // The sixteen low bits, bit 19, bits 21 and 22, and all from bit 24 on.
  function KeptBits(a: nat): nat {
    a % 0x1_0000 + 0x8_0000 * (a / 0x8_0000 % 2) + 0x20_0000 * (a / 0x20_0000 % 4) + 0x100_0000 * (a / 0x100_0000)
  }

  // These are what is left; an offset with a 16-bit address leaves that address.
  lemma WithoutSpaceKeeps(a: nat)
    ensures WithoutSpace(a) == KeptBits(a)
  {
    var n := a / 0x1_0000;
    assert a / 0x2_0000 == n / 2 && a / 0x4_0000 == n / 4 && a / 0x8_0000 == n / 8 && a / 0x10_0000 == n / 16;
    assert a / 0x20_0000 == n / 32 && a / 0x80_0000 == n / 128 && a / 0x100_0000 == n / 256;
    BitsOf(n);
  }

  lemma BitsOf(n: nat)
    ensures n == n % 2 + 2 * (n / 2 % 2) + 4 * (n / 4 % 2) + 8 * (n / 8 % 2) + 16 * (n / 16 % 2) +
                 32 * (n / 32 % 4) + 128 * (n / 128 % 2) + 256 * (n / 256)
  {
    assert n / 4 == n / 2 / 2 && n / 8 == n / 4 / 2 && n / 16 == n / 8 / 2;
    assert n / 32 == n / 16 / 2 && n / 128 == n / 32 / 4 && n / 256 == n / 128 / 2;
  }

  lemma OffsetLeavesAddress(space: nat, a: nat)
    requires space in {0, 0x80_0000, 0x81_0000, 0x82_0000, 0x83_0000, 0x84_0000, 0x85_0000, 0x90_0000} && a < 0x1_0000
    ensures WithoutSpace(space + a) == a
  {
    if space != 0 {
      SpaceBitsOf(space, a);
    } else {
      assert SpaceBits(a) == 0;
    }
    hide SpaceBits;
  }
}
