/**
 The check value by which CRC-32 variants are told apart: the checksum of the nine digits
 "123456789". It fixes what the generator alone does not: the order of the bits, and the
 complement at the start and at the end.
 */
module Crc32Reference {
  import opened Bytes
  import opened Crc32

  // ----- The digits as words ----------------------------------------------------------------

  /** One more bit in front, the lowest. */
  lemma MoreBits(n: nat, len: nat, high: bv32, w: bv32)
    requires len > 0 && Pack(BitsOf(n / 2, len - 1)) == high && Xor(Up(high), Bit(n % 2 == 1)) == w
    ensures Pack(BitsOf(n, len)) == w
  {
    hide Xor, Up;
    assert BitsOf(n, len)[1..] == BitsOf(n / 2, len - 1);
  }

  lemma DigitHeads()
    ensures Pack(BitsOf(24, 7)) == 24 && Pack(BitsOf(25, 7)) == 25 && Pack(BitsOf(26, 7)) == 26
    ensures Pack(BitsOf(27, 7)) == 27 && Pack(BitsOf(28, 7)) == 28
  {
    hide Pack;
    assert Pack(BitsOf(0, 2)) == 0 by { NoBits(); }
    MoreBits(1, 3, 0, 1);
    MoreBits(3, 4, 1, 3);
    MoreBits(6, 5, 3, 6);
    MoreBits(7, 5, 3, 7);
    MoreBits(12, 6, 6, 12);
    MoreBits(13, 6, 6, 13);
    MoreBits(14, 6, 7, 14);
    MoreBits(24, 7, 12, 24);
    MoreBits(25, 7, 12, 25);
    MoreBits(26, 7, 13, 26);
    MoreBits(27, 7, 13, 27);
    MoreBits(28, 7, 14, 28);
  }

  lemma NoBits()
    ensures Pack(BitsOf(0, 2)) == 0
  {
    assert Pack(BitsOf(0, 0)) == 0;
    MoreBits(0, 1, 0, 0);
    MoreBits(0, 2, 0, 0);
  }

  lemma DigitWords()
    ensures Word(0x31) == 0x31 && Word(0x32) == 0x32 && Word(0x33) == 0x33
    ensures Word(0x34) == 0x34 && Word(0x35) == 0x35 && Word(0x36) == 0x36
    ensures Word(0x37) == 0x37 && Word(0x38) == 0x38 && Word(0x39) == 0x39
  {
    DigitHeads();
    hide Pack, BitsOf;
    MoreBits(49, 8, 24, 49);
    MoreBits(50, 8, 25, 50);
    MoreBits(51, 8, 25, 51);
    MoreBits(52, 8, 26, 52);
    MoreBits(53, 8, 26, 53);
    MoreBits(54, 8, 27, 54);
    MoreBits(55, 8, 27, 55);
    MoreBits(56, 8, 28, 56);
    MoreBits(57, 8, 28, 57);
  }

  // ----- The register ------------------------------------------------------------------------

  function FourShifts(c: bv32): bv32 { Shift(Shift(Shift(Shift(c)))) }

  lemma EightShifts(c: bv32)
    ensures Shifts(c, 8) == FourShifts(FourShifts(c))
  {
    hide Shift;
  }

  /** One octet, by way of the register half-way through it. */
  lemma Octet(c: bv32, b: byte, rest: seq<byte>, x: bv32, half: bv32, r: bv32)
    requires Word(b) == x && FourShifts(Xor(c, x)) == half && FourShifts(half) == r
    ensures Absorb(c, [b] + rest) == Absorb(r, rest)
  {
    hide Word, Xor, FourShifts;
    assert ([b] + rest)[1..] == rest;
    EightShifts(Xor(c, x));
  }

  lemma Digits1(rest: seq<byte>)
    ensures Absorb(0xffff_ffff, [0x31, 0x32, 0x33] + rest) == Absorb(0x77b7_9c2d, rest)
  {
    DigitWords();
    hide Word, Absorb;
    Octet(0xffff_ffff, 0x31, [0x32, 0x33] + rest, 0x31, 0xaff5_1d84, 0x7c23_1048);
    Octet(0x7c23_1048, 0x32, [0x33] + rest, 0x32, 0xd114_92ef, 0xb0ac_bb32);
    Octet(0xb0ac_bb32, 0x33, rest, 0x33, 0x16bd_dbd4, 0x77b7_9c2d);
    assert [0x31] + ([0x32, 0x33] + rest) == [0x31, 0x32, 0x33] + rest;
    assert [0x32] + ([0x33] + rest) == [0x32, 0x33] + rest;
  }

  lemma Digits4(rest: seq<byte>)
    ensures Absorb(0x77b7_9c2d, [0x34, 0x35, 0x36] + rest) == Absorb(0xf68d_2c9e, rest)
  {
    DigitWords();
    hide Word, Absorb;
    Octet(0x77b7_9c2d, 0x34, [0x35, 0x36] + rest, 0x34, 0xf774_ea85, 0x641c_1f5c);
    Octet(0x641c_1f5c, 0x35, [0x36] + rest, 0x35, 0xf64e_52b2, 0x340a_c5e3);
    Octet(0x340a_c5e3, 0x36, rest, 0x36, 0x682b_fda9, 0xf68d_2c9e);
    assert [0x34] + ([0x35, 0x36] + rest) == [0x34, 0x35, 0x36] + rest;
    assert [0x35] + ([0x36] + rest) == [0x35, 0x36] + rest;
  }

  lemma Digits7(rest: seq<byte>)
    ensures Absorb(0xf68d_2c9e, [0x37, 0x38, 0x39] + rest) == Absorb(0x340b_c6d9, rest)
  {
    DigitWords();
    hide Word, Absorb;
    Octet(0xf68d_2c9e, 0x37, [0x38, 0x39] + rest, 0x37, 0xff67_418e, 0xaffc_9660);
    Octet(0xaffc_9660, 0x38, [0x39] + rest, 0x38, 0xe747_4a45, 0x651f_2550);
    Octet(0x651f_2550, 0x39, rest, 0x39, 0xf65e_6112, 0x340b_c6d9);
    assert [0x37] + ([0x38, 0x39] + rest) == [0x37, 0x38, 0x39] + rest;
    assert [0x38] + ([0x39] + rest) == [0x38, 0x39] + rest;
  }

  lemma AbsorbNothing(c: bv32)
    ensures Absorb(c, []) == c
  {
  }

  lemma DigitsAbsorbed()
    ensures Absorb(ONES, [0x31, 0x32, 0x33, 0x34, 0x35, 0x36, 0x37, 0x38, 0x39]) == 0x340b_c6d9
  {
    hide Absorb;
    Digits1([0x34, 0x35, 0x36] + [0x37, 0x38, 0x39]);
    Digits4([0x37, 0x38, 0x39]);
    Digits7([]);
    AbsorbNothing(0x340b_c6d9);
    assert [0x31, 0x32, 0x33] + ([0x34, 0x35, 0x36] + [0x37, 0x38, 0x39])
        == [0x31, 0x32, 0x33, 0x34, 0x35, 0x36, 0x37, 0x38, 0x39];
    assert [0x37, 0x38, 0x39] + [] == [0x37, 0x38, 0x39];
  }

  // ----- The result ---------------------------------------------------------------------------

  /** The number is `bit` and twice the number of the upper bits. */
  lemma LowBit(c: bv32, n: nat, half: bv32, high: nat, bit: bool, v: nat)
    requires n > 0 && Half(c) == half && Number(half, n - 1) == high && Odd(c) == bit
    requires v == (if bit then 1 else 0) + 2 * high
    ensures Number(c, n) == v
  {
    hide Half, Odd;
  }

  lemma Check24()
    ensures Number(0x0000_00cb, 8) == 0xcb
  {
    assert Number(0, 0) == 0;
    hide Number;
    LowBit(0x0000_0001, 1, 0x0000_0000, 0x0, true, 0x1);
    LowBit(0x0000_0003, 2, 0x0000_0001, 0x1, true, 0x3);
    LowBit(0x0000_0006, 3, 0x0000_0003, 0x3, false, 0x6);
    LowBit(0x0000_000c, 4, 0x0000_0006, 0x6, false, 0xc);
    LowBit(0x0000_0019, 5, 0x0000_000c, 0xc, true, 0x19);
    LowBit(0x0000_0032, 6, 0x0000_0019, 0x19, false, 0x32);
    LowBit(0x0000_0065, 7, 0x0000_0032, 0x32, true, 0x65);
    LowBit(0x0000_00cb, 8, 0x0000_0065, 0x65, true, 0xcb);
  }

  lemma Check16()
    ensures Number(0x0000_cbf4, 16) == 0xcbf4
  {
    Check24();
    hide Number;
    LowBit(0x0000_0197, 9, 0x0000_00cb, 0xcb, true, 0x197);
    LowBit(0x0000_032f, 10, 0x0000_0197, 0x197, true, 0x32f);
    LowBit(0x0000_065f, 11, 0x0000_032f, 0x32f, true, 0x65f);
    LowBit(0x0000_0cbf, 12, 0x0000_065f, 0x65f, true, 0xcbf);
    LowBit(0x0000_197e, 13, 0x0000_0cbf, 0xcbf, false, 0x197e);
    LowBit(0x0000_32fd, 14, 0x0000_197e, 0x197e, true, 0x32fd);
    LowBit(0x0000_65fa, 15, 0x0000_32fd, 0x32fd, false, 0x65fa);
    LowBit(0x0000_cbf4, 16, 0x0000_65fa, 0x65fa, false, 0xcbf4);
  }

  lemma Check8()
    ensures Number(0x00cb_f439, 24) == 0xcbf439
  {
    Check16();
    hide Number;
    LowBit(0x0001_97e8, 17, 0x0000_cbf4, 0xcbf4, false, 0x197e8);
    LowBit(0x0003_2fd0, 18, 0x0001_97e8, 0x197e8, false, 0x32fd0);
    LowBit(0x0006_5fa1, 19, 0x0003_2fd0, 0x32fd0, true, 0x65fa1);
    LowBit(0x000c_bf43, 20, 0x0006_5fa1, 0x65fa1, true, 0xcbf43);
    LowBit(0x0019_7e87, 21, 0x000c_bf43, 0xcbf43, true, 0x197e87);
    LowBit(0x0032_fd0e, 22, 0x0019_7e87, 0x197e87, false, 0x32fd0e);
    LowBit(0x0065_fa1c, 23, 0x0032_fd0e, 0x32fd0e, false, 0x65fa1c);
    LowBit(0x00cb_f439, 24, 0x0065_fa1c, 0x65fa1c, true, 0xcbf439);
  }

  lemma Check0()
    ensures Number(0xcbf4_3926, 32) == 0xcbf43926
  {
    Check8();
    hide Number;
    LowBit(0x0197_e872, 25, 0x00cb_f439, 0xcbf439, false, 0x197e872);
    LowBit(0x032f_d0e4, 26, 0x0197_e872, 0x197e872, false, 0x32fd0e4);
    LowBit(0x065f_a1c9, 27, 0x032f_d0e4, 0x32fd0e4, true, 0x65fa1c9);
    LowBit(0x0cbf_4392, 28, 0x065f_a1c9, 0x65fa1c9, false, 0xcbf4392);
    LowBit(0x197e_8724, 29, 0x0cbf_4392, 0xcbf4392, false, 0x197e8724);
    LowBit(0x32fd_0e49, 30, 0x197e_8724, 0x197e8724, true, 0x32fd0e49);
    LowBit(0x65fa_1c93, 31, 0x32fd_0e49, 0x32fd0e49, true, 0x65fa1c93);
    LowBit(0xcbf4_3926, 32, 0x65fa_1c93, 0x65fa1c93, false, 0xcbf43926);
  }

  /** The published check value. */
  lemma CheckValue()
    ensures Checksum([0x31, 0x32, 0x33, 0x34, 0x35, 0x36, 0x37, 0x38, 0x39]) == 0xcbf4_3926
  {
    DigitsAbsorbed();
    Check0();
    hide Absorb, Number;
  }
}
