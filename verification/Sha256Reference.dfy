/**
 What pins the hash down from outside: its constants are the fractional parts of roots of
 primes (sections 4.2.2 and 5.3.3 of FIPS 180-4), and the digest of "abc" is the published
 one, computed round by round.
 */
module Sha256Reference {
  import opened Bytes
  import opened Primes
  import opened Sha256

  // ----- The constants ------------------------------------------------------------------------------

  const WORD: nat := 0x1_0000_0000

  /** The first 32 bits of the fractional part of the cube root of `p`. */
  ghost predicate CubeRootWord(w: bv32, p: nat) {
    exists n: nat :: n % WORD == w as nat && InCubes(n, p)
  }

  /** `n` is the cube root of `p`, shifted left by 32 bits and rounded down. */
  predicate InCubes(n: nat, p: nat) {
    n * n * n < p * 0x1_0000_0000_0000_0000_0000_0000 < (n + 1) * (n + 1) * (n + 1)
  }

  ghost predicate SquareRootWord(w: bv32, p: nat) {
    exists n: nat :: n % WORD == w as nat && InSquares(n, p)
  }

  predicate InSquares(n: nat, p: nat) {
    n * n < p * 0x1_0000_0000_0000_0000 < (n + 1) * (n + 1)
  }

  /** The constant of a round. */
  function Constant(t: nat): bv32
    requires t < 64
  {
    K[t]
  }

  /** What section 4.2.2 says of the constant of a round. */
  ghost predicate IsRootOfPrime(t: nat, p: nat)
    requires t < 64
  {
    IsNthPrime(t, p) && CubeRootWord(Constant(t), p)
  }

  /** From one constant and its prime `q` to the next ones. */
  lemma NextConstant(t: nat, q: nat, p: nat, w: bv32, n: nat)
    requires 0 < t < 64 && IsNthPrime(t - 1, q) && q < p < 324 && NextFrom(q + 1, p)
    requires Constant(t) == w && n % WORD == w as nat && InCubes(n, p)
    ensures IsRootOfPrime(t, p)
  {
    hide Constant, NextFrom, InCubes, IsNthPrime;
    NextNthPrime(t - 1, q, p);
  }

  lemma FirstPrime()
    ensures IsNthPrime(0, 2)
  {
    assert PrimesBelow(2) == PrimesBelow(1) == PrimesBelow(0) == 0;
    assert !IsPrime(0) && !IsPrime(1) && IsPrime(2);
  }

  lemma FirstConstant()
    ensures IsRootOfPrime(0, 2)
  {
    Constants0();
    FirstPrime();
    hide Constant, IsNthPrime;
    assert InCubes(0x1_428a_2f98, 2);
  }

  lemma Constants0()
    ensures Constant(0) == 0x428a_2f98 && Constant(1) == 0x7137_4491
    ensures Constant(2) == 0xb5c0_fbcf && Constant(3) == 0xe9b5_dba5
    ensures Constant(4) == 0x3956_c25b && Constant(5) == 0x59f1_11f1
    ensures Constant(6) == 0x923f_82a4 && Constant(7) == 0xab1c_5ed5
  {
  }

  lemma Constants8()
    ensures Constant(8) == 0xd807_aa98 && Constant(9) == 0x1283_5b01
    ensures Constant(10) == 0x2431_85be && Constant(11) == 0x550c_7dc3
    ensures Constant(12) == 0x72be_5d74 && Constant(13) == 0x80de_b1fe
    ensures Constant(14) == 0x9bdc_06a7 && Constant(15) == 0xc19b_f174
  {
  }

  lemma Constants16()
    ensures Constant(16) == 0xe49b_69c1 && Constant(17) == 0xefbe_4786
    ensures Constant(18) == 0x0fc1_9dc6 && Constant(19) == 0x240c_a1cc
    ensures Constant(20) == 0x2de9_2c6f && Constant(21) == 0x4a74_84aa
    ensures Constant(22) == 0x5cb0_a9dc && Constant(23) == 0x76f9_88da
  {
  }

  lemma Constants24()
    ensures Constant(24) == 0x983e_5152 && Constant(25) == 0xa831_c66d
    ensures Constant(26) == 0xb003_27c8 && Constant(27) == 0xbf59_7fc7
    ensures Constant(28) == 0xc6e0_0bf3 && Constant(29) == 0xd5a7_9147
    ensures Constant(30) == 0x06ca_6351 && Constant(31) == 0x1429_2967
  {
  }

  lemma Constants32()
    ensures Constant(32) == 0x27b7_0a85 && Constant(33) == 0x2e1b_2138
    ensures Constant(34) == 0x4d2c_6dfc && Constant(35) == 0x5338_0d13
    ensures Constant(36) == 0x650a_7354 && Constant(37) == 0x766a_0abb
    ensures Constant(38) == 0x81c2_c92e && Constant(39) == 0x9272_2c85
  {
  }

  lemma Constants40()
    ensures Constant(40) == 0xa2bf_e8a1 && Constant(41) == 0xa81a_664b
    ensures Constant(42) == 0xc24b_8b70 && Constant(43) == 0xc76c_51a3
    ensures Constant(44) == 0xd192_e819 && Constant(45) == 0xd699_0624
    ensures Constant(46) == 0xf40e_3585 && Constant(47) == 0x106a_a070
  {
  }

  lemma Constants48()
    ensures Constant(48) == 0x19a4_c116 && Constant(49) == 0x1e37_6c08
    ensures Constant(50) == 0x2748_774c && Constant(51) == 0x34b0_bcb5
    ensures Constant(52) == 0x391c_0cb3 && Constant(53) == 0x4ed8_aa4a
    ensures Constant(54) == 0x5b9c_ca4f && Constant(55) == 0x682e_6ff3
  {
  }

  lemma Constants56()
    ensures Constant(56) == 0x748f_82ee && Constant(57) == 0x78a5_636f
    ensures Constant(58) == 0x84c8_7814 && Constant(59) == 0x8cc7_0208
    ensures Constant(60) == 0x90be_fffa && Constant(61) == 0xa450_6ceb
    ensures Constant(62) == 0xbef9_a3f7 && Constant(63) == 0xc671_78f2
  {
  }

  lemma Primes0()
    ensures NextFrom(3, 3) && NextFrom(4, 5) && NextFrom(6, 7)
  {
  }

  lemma Primes4()
    ensures NextFrom(8, 11) && NextFrom(12, 13) && NextFrom(14, 17) && NextFrom(18, 19)
  {
  }

  lemma Cubes0()
    ensures InCubes(0x1_7137_4491, 3)
    ensures InCubes(0x1_b5c0_fbcf, 5)
    ensures InCubes(0x1_e9b5_dba5, 7)
    ensures InCubes(0x2_3956_c25b, 11)
    ensures InCubes(0x2_59f1_11f1, 13)
    ensures InCubes(0x2_923f_82a4, 17)
    ensures InCubes(0x2_ab1c_5ed5, 19)
  {
  }

  lemma Roots0()
    ensures IsRootOfPrime(0, 2) && IsRootOfPrime(1, 3)
    ensures IsRootOfPrime(2, 5) && IsRootOfPrime(3, 7)
    ensures IsRootOfPrime(4, 11) && IsRootOfPrime(5, 13)
    ensures IsRootOfPrime(6, 17) && IsRootOfPrime(7, 19)
  {
    FirstConstant();
    Constants0();
    Primes0();
    Primes4();
    Cubes0();
    hide Constant, IsNthPrime, CubeRootWord, NextFrom, InCubes;
    NextConstant(1, 2, 3, 0x7137_4491, 0x1_7137_4491);
    NextConstant(2, 3, 5, 0xb5c0_fbcf, 0x1_b5c0_fbcf);
    NextConstant(3, 5, 7, 0xe9b5_dba5, 0x1_e9b5_dba5);
    NextConstant(4, 7, 11, 0x3956_c25b, 0x2_3956_c25b);
    NextConstant(5, 11, 13, 0x59f1_11f1, 0x2_59f1_11f1);
    NextConstant(6, 13, 17, 0x923f_82a4, 0x2_923f_82a4);
    NextConstant(7, 17, 19, 0xab1c_5ed5, 0x2_ab1c_5ed5);
  }

  lemma Primes8()
    ensures NextFrom(20, 23) && NextFrom(24, 29) && NextFrom(30, 31) && NextFrom(32, 37)
  {
  }

  lemma Primes12()
    ensures NextFrom(38, 41) && NextFrom(42, 43) && NextFrom(44, 47) && NextFrom(48, 53)
  {
  }

  lemma Cubes8()
    ensures InCubes(0x2_d807_aa98, 23)
    ensures InCubes(0x3_1283_5b01, 29)
    ensures InCubes(0x3_2431_85be, 31)
    ensures InCubes(0x3_550c_7dc3, 37)
    ensures InCubes(0x3_72be_5d74, 41)
    ensures InCubes(0x3_80de_b1fe, 43)
    ensures InCubes(0x3_9bdc_06a7, 47)
    ensures InCubes(0x3_c19b_f174, 53)
  {
  }

  lemma Roots8()
    ensures IsRootOfPrime(8, 23) && IsRootOfPrime(9, 29)
    ensures IsRootOfPrime(10, 31) && IsRootOfPrime(11, 37)
    ensures IsRootOfPrime(12, 41) && IsRootOfPrime(13, 43)
    ensures IsRootOfPrime(14, 47) && IsRootOfPrime(15, 53)
  {
    Roots0();
    Constants8();
    Primes8();
    Primes12();
    Cubes8();
    hide Constant, IsNthPrime, CubeRootWord, NextFrom, InCubes;
    NextConstant(8, 19, 23, 0xd807_aa98, 0x2_d807_aa98);
    NextConstant(9, 23, 29, 0x1283_5b01, 0x3_1283_5b01);
    NextConstant(10, 29, 31, 0x2431_85be, 0x3_2431_85be);
    NextConstant(11, 31, 37, 0x550c_7dc3, 0x3_550c_7dc3);
    NextConstant(12, 37, 41, 0x72be_5d74, 0x3_72be_5d74);
    NextConstant(13, 41, 43, 0x80de_b1fe, 0x3_80de_b1fe);
    NextConstant(14, 43, 47, 0x9bdc_06a7, 0x3_9bdc_06a7);
    NextConstant(15, 47, 53, 0xc19b_f174, 0x3_c19b_f174);
  }

  lemma Primes16()
    ensures NextFrom(54, 59) && NextFrom(60, 61) && NextFrom(62, 67) && NextFrom(68, 71)
  {
  }

  lemma Primes20()
    ensures NextFrom(72, 73) && NextFrom(74, 79) && NextFrom(80, 83) && NextFrom(84, 89)
  {
  }

  lemma Cubes16()
    ensures InCubes(0x3_e49b_69c1, 59)
    ensures InCubes(0x3_efbe_4786, 61)
    ensures InCubes(0x4_0fc1_9dc6, 67)
    ensures InCubes(0x4_240c_a1cc, 71)
    ensures InCubes(0x4_2de9_2c6f, 73)
    ensures InCubes(0x4_4a74_84aa, 79)
    ensures InCubes(0x4_5cb0_a9dc, 83)
    ensures InCubes(0x4_76f9_88da, 89)
  {
  }

  lemma Roots16()
    ensures IsRootOfPrime(16, 59) && IsRootOfPrime(17, 61)
    ensures IsRootOfPrime(18, 67) && IsRootOfPrime(19, 71)
    ensures IsRootOfPrime(20, 73) && IsRootOfPrime(21, 79)
    ensures IsRootOfPrime(22, 83) && IsRootOfPrime(23, 89)
  {
    Roots8();
    Constants16();
    Primes16();
    Primes20();
    Cubes16();
    hide Constant, IsNthPrime, CubeRootWord, NextFrom, InCubes;
    NextConstant(16, 53, 59, 0xe49b_69c1, 0x3_e49b_69c1);
    NextConstant(17, 59, 61, 0xefbe_4786, 0x3_efbe_4786);
    NextConstant(18, 61, 67, 0x0fc1_9dc6, 0x4_0fc1_9dc6);
    NextConstant(19, 67, 71, 0x240c_a1cc, 0x4_240c_a1cc);
    NextConstant(20, 71, 73, 0x2de9_2c6f, 0x4_2de9_2c6f);
    NextConstant(21, 73, 79, 0x4a74_84aa, 0x4_4a74_84aa);
    NextConstant(22, 79, 83, 0x5cb0_a9dc, 0x4_5cb0_a9dc);
    NextConstant(23, 83, 89, 0x76f9_88da, 0x4_76f9_88da);
  }

  lemma Primes24()
    ensures NextFrom(90, 97) && NextFrom(98, 101) && NextFrom(102, 103) && NextFrom(104, 107)
  {
  }

  lemma Primes28()
    ensures NextFrom(108, 109) && NextFrom(110, 113) && NextFrom(114, 127) && NextFrom(128, 131)
  {
  }

  lemma Cubes24()
    ensures InCubes(0x4_983e_5152, 97)
    ensures InCubes(0x4_a831_c66d, 101)
    ensures InCubes(0x4_b003_27c8, 103)
    ensures InCubes(0x4_bf59_7fc7, 107)
    ensures InCubes(0x4_c6e0_0bf3, 109)
    ensures InCubes(0x4_d5a7_9147, 113)
    ensures InCubes(0x5_06ca_6351, 127)
    ensures InCubes(0x5_1429_2967, 131)
  {
  }

  lemma Roots24()
    ensures IsRootOfPrime(24, 97) && IsRootOfPrime(25, 101)
    ensures IsRootOfPrime(26, 103) && IsRootOfPrime(27, 107)
    ensures IsRootOfPrime(28, 109) && IsRootOfPrime(29, 113)
    ensures IsRootOfPrime(30, 127) && IsRootOfPrime(31, 131)
  {
    Roots16();
    Constants24();
    Primes24();
    Primes28();
    Cubes24();
    hide Constant, IsNthPrime, CubeRootWord, NextFrom, InCubes;
    NextConstant(24, 89, 97, 0x983e_5152, 0x4_983e_5152);
    NextConstant(25, 97, 101, 0xa831_c66d, 0x4_a831_c66d);
    NextConstant(26, 101, 103, 0xb003_27c8, 0x4_b003_27c8);
    NextConstant(27, 103, 107, 0xbf59_7fc7, 0x4_bf59_7fc7);
    NextConstant(28, 107, 109, 0xc6e0_0bf3, 0x4_c6e0_0bf3);
    NextConstant(29, 109, 113, 0xd5a7_9147, 0x4_d5a7_9147);
    NextConstant(30, 113, 127, 0x06ca_6351, 0x5_06ca_6351);
    NextConstant(31, 127, 131, 0x1429_2967, 0x5_1429_2967);
  }

  lemma Primes32()
    ensures NextFrom(132, 137) && NextFrom(138, 139) && NextFrom(140, 149) && NextFrom(150, 151)
  {
  }

  lemma Primes36()
    ensures NextFrom(152, 157) && NextFrom(158, 163) && NextFrom(164, 167) && NextFrom(168, 173)
  {
  }

  lemma Cubes32()
    ensures InCubes(0x5_27b7_0a85, 137)
    ensures InCubes(0x5_2e1b_2138, 139)
    ensures InCubes(0x5_4d2c_6dfc, 149)
    ensures InCubes(0x5_5338_0d13, 151)
    ensures InCubes(0x5_650a_7354, 157)
    ensures InCubes(0x5_766a_0abb, 163)
    ensures InCubes(0x5_81c2_c92e, 167)
    ensures InCubes(0x5_9272_2c85, 173)
  {
  }

  lemma Roots32()
    ensures IsRootOfPrime(32, 137) && IsRootOfPrime(33, 139)
    ensures IsRootOfPrime(34, 149) && IsRootOfPrime(35, 151)
    ensures IsRootOfPrime(36, 157) && IsRootOfPrime(37, 163)
    ensures IsRootOfPrime(38, 167) && IsRootOfPrime(39, 173)
  {
    Roots24();
    Constants32();
    Primes32();
    Primes36();
    Cubes32();
    hide Constant, IsNthPrime, CubeRootWord, NextFrom, InCubes;
    NextConstant(32, 131, 137, 0x27b7_0a85, 0x5_27b7_0a85);
    NextConstant(33, 137, 139, 0x2e1b_2138, 0x5_2e1b_2138);
    NextConstant(34, 139, 149, 0x4d2c_6dfc, 0x5_4d2c_6dfc);
    NextConstant(35, 149, 151, 0x5338_0d13, 0x5_5338_0d13);
    NextConstant(36, 151, 157, 0x650a_7354, 0x5_650a_7354);
    NextConstant(37, 157, 163, 0x766a_0abb, 0x5_766a_0abb);
    NextConstant(38, 163, 167, 0x81c2_c92e, 0x5_81c2_c92e);
    NextConstant(39, 167, 173, 0x9272_2c85, 0x5_9272_2c85);
  }

  lemma Primes40()
    ensures NextFrom(174, 179) && NextFrom(180, 181) && NextFrom(182, 191) && NextFrom(192, 193)
  {
  }

  lemma Primes44()
    ensures NextFrom(194, 197) && NextFrom(198, 199) && NextFrom(200, 211) && NextFrom(212, 223)
  {
  }

  lemma Cubes40()
    ensures InCubes(0x5_a2bf_e8a1, 179)
    ensures InCubes(0x5_a81a_664b, 181)
    ensures InCubes(0x5_c24b_8b70, 191)
    ensures InCubes(0x5_c76c_51a3, 193)
    ensures InCubes(0x5_d192_e819, 197)
    ensures InCubes(0x5_d699_0624, 199)
    ensures InCubes(0x5_f40e_3585, 211)
    ensures InCubes(0x6_106a_a070, 223)
  {
  }

  lemma Roots40()
    ensures IsRootOfPrime(40, 179) && IsRootOfPrime(41, 181)
    ensures IsRootOfPrime(42, 191) && IsRootOfPrime(43, 193)
    ensures IsRootOfPrime(44, 197) && IsRootOfPrime(45, 199)
    ensures IsRootOfPrime(46, 211) && IsRootOfPrime(47, 223)
  {
    Roots32();
    Constants40();
    Primes40();
    Primes44();
    Cubes40();
    hide Constant, IsNthPrime, CubeRootWord, NextFrom, InCubes;
    NextConstant(40, 173, 179, 0xa2bf_e8a1, 0x5_a2bf_e8a1);
    NextConstant(41, 179, 181, 0xa81a_664b, 0x5_a81a_664b);
    NextConstant(42, 181, 191, 0xc24b_8b70, 0x5_c24b_8b70);
    NextConstant(43, 191, 193, 0xc76c_51a3, 0x5_c76c_51a3);
    NextConstant(44, 193, 197, 0xd192_e819, 0x5_d192_e819);
    NextConstant(45, 197, 199, 0xd699_0624, 0x5_d699_0624);
    NextConstant(46, 199, 211, 0xf40e_3585, 0x5_f40e_3585);
    NextConstant(47, 211, 223, 0x106a_a070, 0x6_106a_a070);
  }

  lemma Primes48()
    ensures NextFrom(224, 227) && NextFrom(228, 229) && NextFrom(230, 233) && NextFrom(234, 239)
  {
  }

  lemma Primes52()
    ensures NextFrom(240, 241) && NextFrom(242, 251) && NextFrom(252, 257) && NextFrom(258, 263)
  {
  }

  lemma Cubes48()
    ensures InCubes(0x6_19a4_c116, 227)
    ensures InCubes(0x6_1e37_6c08, 229)
    ensures InCubes(0x6_2748_774c, 233)
    ensures InCubes(0x6_34b0_bcb5, 239)
    ensures InCubes(0x6_391c_0cb3, 241)
    ensures InCubes(0x6_4ed8_aa4a, 251)
    ensures InCubes(0x6_5b9c_ca4f, 257)
    ensures InCubes(0x6_682e_6ff3, 263)
  {
  }

  lemma Roots48()
    ensures IsRootOfPrime(48, 227) && IsRootOfPrime(49, 229)
    ensures IsRootOfPrime(50, 233) && IsRootOfPrime(51, 239)
    ensures IsRootOfPrime(52, 241) && IsRootOfPrime(53, 251)
    ensures IsRootOfPrime(54, 257) && IsRootOfPrime(55, 263)
  {
    Roots40();
    Constants48();
    Primes48();
    Primes52();
    Cubes48();
    hide Constant, IsNthPrime, CubeRootWord, NextFrom, InCubes;
    NextConstant(48, 223, 227, 0x19a4_c116, 0x6_19a4_c116);
    NextConstant(49, 227, 229, 0x1e37_6c08, 0x6_1e37_6c08);
    NextConstant(50, 229, 233, 0x2748_774c, 0x6_2748_774c);
    NextConstant(51, 233, 239, 0x34b0_bcb5, 0x6_34b0_bcb5);
    NextConstant(52, 239, 241, 0x391c_0cb3, 0x6_391c_0cb3);
    NextConstant(53, 241, 251, 0x4ed8_aa4a, 0x6_4ed8_aa4a);
    NextConstant(54, 251, 257, 0x5b9c_ca4f, 0x6_5b9c_ca4f);
    NextConstant(55, 257, 263, 0x682e_6ff3, 0x6_682e_6ff3);
  }

  lemma Primes56()
    ensures NextFrom(264, 269) && NextFrom(270, 271) && NextFrom(272, 277) && NextFrom(278, 281)
  {
  }

  lemma Primes60()
    ensures NextFrom(282, 283) && NextFrom(284, 293) && NextFrom(294, 307) && NextFrom(308, 311)
  {
  }

  lemma Cubes56()
    ensures InCubes(0x6_748f_82ee, 269)
    ensures InCubes(0x6_78a5_636f, 271)
    ensures InCubes(0x6_84c8_7814, 277)
    ensures InCubes(0x6_8cc7_0208, 281)
    ensures InCubes(0x6_90be_fffa, 283)
    ensures InCubes(0x6_a450_6ceb, 293)
    ensures InCubes(0x6_bef9_a3f7, 307)
    ensures InCubes(0x6_c671_78f2, 311)
  {
  }

  lemma Roots56()
    ensures IsRootOfPrime(56, 269) && IsRootOfPrime(57, 271)
    ensures IsRootOfPrime(58, 277) && IsRootOfPrime(59, 281)
    ensures IsRootOfPrime(60, 283) && IsRootOfPrime(61, 293)
    ensures IsRootOfPrime(62, 307) && IsRootOfPrime(63, 311)
  {
    Roots48();
    Constants56();
    Primes56();
    Primes60();
    Cubes56();
    hide Constant, IsNthPrime, CubeRootWord, NextFrom, InCubes;
    NextConstant(56, 263, 269, 0x748f_82ee, 0x6_748f_82ee);
    NextConstant(57, 269, 271, 0x78a5_636f, 0x6_78a5_636f);
    NextConstant(58, 271, 277, 0x84c8_7814, 0x6_84c8_7814);
    NextConstant(59, 277, 281, 0x8cc7_0208, 0x6_8cc7_0208);
    NextConstant(60, 281, 283, 0x90be_fffa, 0x6_90be_fffa);
    NextConstant(61, 283, 293, 0xa450_6ceb, 0x6_a450_6ceb);
    NextConstant(62, 293, 307, 0xbef9_a3f7, 0x6_bef9_a3f7);
    NextConstant(63, 307, 311, 0xc671_78f2, 0x6_c671_78f2);
  }

  /** The round constants are the fractional parts of the cube roots of the first 64 primes. */
  lemma ConstantsAreCubeRoots(t: nat)
    requires t < 64
    ensures exists p :: IsRootOfPrime(t, p)
  {
    hide IsRootOfPrime;
    if t < 8 { Roots0(); }
    if 8 <= t < 16 { Roots8(); }
    if 16 <= t < 24 { Roots16(); }
    if 24 <= t < 32 { Roots24(); }
    if 32 <= t < 40 { Roots32(); }
    if 40 <= t < 48 { Roots40(); }
    if 48 <= t < 56 { Roots48(); }
    if 56 <= t < 64 { Roots56(); }
  }

  /** The initial words are the fractional parts of the square roots of the first eight primes. */
  lemma InitialWordsAreSquareRoots()
    ensures IsNthPrime(0, 2) && SquareRootWord(H0.a, 2)
    ensures IsNthPrime(1, 3) && SquareRootWord(H0.b, 3)
    ensures IsNthPrime(2, 5) && SquareRootWord(H0.c, 5)
    ensures IsNthPrime(3, 7) && SquareRootWord(H0.d, 7)
    ensures IsNthPrime(4, 11) && SquareRootWord(H0.e, 11)
    ensures IsNthPrime(5, 13) && SquareRootWord(H0.f, 13)
    ensures IsNthPrime(6, 17) && SquareRootWord(H0.g, 17)
    ensures IsNthPrime(7, 19) && SquareRootWord(H0.h, 19)
  {
    Roots0();
    hide IsNthPrime, Constant;
    assert InSquares(0x1_6a09_e667, 2);
    assert InSquares(0x1_bb67_ae85, 3);
    assert InSquares(0x2_3c6e_f372, 5);
    assert InSquares(0x2_a54f_f53a, 7);
    assert InSquares(0x3_510e_527f, 11);
    assert InSquares(0x3_9b05_688c, 13);
    assert InSquares(0x4_1f83_d9ab, 17);
    assert InSquares(0x4_5be0_cd19, 19);
  }

  // ----- The padding ---------------------------------------------------------------------------

  /** Section 5.1.1: a one bit, the fewest zeros, and the length of the message in bits. */
  lemma PadMeans(m: seq<byte>)
    requires 8 * |m| < 0x1_0000_0000_0000_0000
    ensures var p := Pad(m);
      && |p| % 64 == 0 && |m| + 9 <= |p| < |m| + 9 + 64
      && m <= p && p[|m|] == 0x80
      && (forall i | |m| < i < |p| - 8 :: p[i] == 0)
      && BigEndian(p[|p| - 8..]) == 8 * |m|
  {
    hide ToBigEndian, BigEndian, Pow256, ZeroBytes;
    EightOctets();
    var p, z := Pad(m), Fill(ZeroBytes(|m|), 0);
    BigEndianRoundTrip(8 * |m|, 8);
    assert p == m + [0x80] + z + ToBigEndian(8 * |m|, 8);
    assert p[|p| - 8..] == ToBigEndian(8 * |m|, 8);
    forall i | |m| < i < |p| - 8 ensures p[i] == 0 {
      assert p[i] == z[i - |m| - 1];
    }
  }

  lemma EightOctets()
    ensures Pow256(8) == 0x1_0000_0000_0000_0000
  {
  }

  // ----- The digest of "abc" ------------------------------------------------------------------

  /** "abc", padded to one block. */
  const ABC: seq<byte> := [0x61, 0x62, 0x63, 0x80] + Fill(59, 0) + [24]

  lemma AbcPadded()
    ensures Pad([0x61, 0x62, 0x63]) == ABC
  {
    hide Fill;
    assert ToBigEndian(24, 8) == [0, 0, 0, 0, 0, 0, 0, 24];
    assert ZeroBytes(3) == 52;
  }

  lemma WordOf(b: seq<byte>, c0: bv32, c1: bv32, c2: bv32, c3: bv32)
    requires |b| == 4 && b[0] as bv32 == c0 && b[1] as bv32 == c1 && b[2] as bv32 == c2 && b[3] as bv32 == c3
    ensures Word(b[0], b[1], b[2], b[3]) == ((c0 << 24) | (c1 << 16)) | ((c2 << 8) | c3)
  {
  }

  lemma ZeroWord()
    ensures Word(0, 0, 0, 0) == 0
  {
    hide Word;
    WordOf([0, 0, 0, 0], 0, 0, 0, 0);
  }

  lemma AbcFirstWords()
    ensures Schedule(ABC, 0) == 0x6162_6380 && Schedule(ABC, 15) == 0x18
    ensures forall t :: 1 <= t < 15 ==> Schedule(ABC, t) == 0
  {
    hide Word;
    WordOf([0x61, 0x62, 0x63, 0x80], 0x61, 0x62, 0x63, 0x80);
    WordOf([0, 0, 0, 24], 0, 0, 0, 24);
    ZeroWord();
  }

  /** One more word of the schedule, from the words it depends on. */
  lemma NextWord(t: nat, w2: bv32, w7: bv32, w15: bv32, w16: bv32, w: bv32)
    requires 16 <= t < 64 && Add(Add(Add(SmallSigma1(w2), w7), SmallSigma0(w15)), w16) == w
    requires Schedule(ABC, t - 2) == w2 && Schedule(ABC, t - 7) == w7
    requires Schedule(ABC, t - 15) == w15 && Schedule(ABC, t - 16) == w16
    ensures Schedule(ABC, t) == w
  {
    hide Add, SmallSigma0, SmallSigma1;
    ScheduleStep(ABC, t);
  }

  lemma AbcWords16()
    ensures Schedule(ABC, 16) == 0x6162_6380 && Schedule(ABC, 17) == 0x000f_0000
    ensures Schedule(ABC, 18) == 0x7da8_6405 && Schedule(ABC, 19) == 0x6000_03c6
    ensures Schedule(ABC, 20) == 0x3e9d_7b78 && Schedule(ABC, 21) == 0x0183_fc00
    ensures Schedule(ABC, 22) == 0x12dc_bfdb && Schedule(ABC, 23) == 0xe2e2_c38e
  {
    AbcFirstWords();
    hide Schedule;
    NextWord(16, 0x0000_0000, 0x0000_0000, 0x0000_0000, 0x6162_6380, 0x6162_6380);
    NextWord(17, 0x0000_0018, 0x0000_0000, 0x0000_0000, 0x0000_0000, 0x000f_0000);
    NextWord(18, 0x6162_6380, 0x0000_0000, 0x0000_0000, 0x0000_0000, 0x7da8_6405);
    NextWord(19, 0x000f_0000, 0x0000_0000, 0x0000_0000, 0x0000_0000, 0x6000_03c6);
    NextWord(20, 0x7da8_6405, 0x0000_0000, 0x0000_0000, 0x0000_0000, 0x3e9d_7b78);
    NextWord(21, 0x6000_03c6, 0x0000_0000, 0x0000_0000, 0x0000_0000, 0x0183_fc00);
    NextWord(22, 0x3e9d_7b78, 0x0000_0018, 0x0000_0000, 0x0000_0000, 0x12dc_bfdb);
    NextWord(23, 0x0183_fc00, 0x6162_6380, 0x0000_0000, 0x0000_0000, 0xe2e2_c38e);
  }

  lemma AbcWords24()
    ensures Schedule(ABC, 24) == 0xc821_5c1a && Schedule(ABC, 25) == 0xb736_79a2
    ensures Schedule(ABC, 26) == 0xe5bc_3909 && Schedule(ABC, 27) == 0x3266_3c5b
    ensures Schedule(ABC, 28) == 0x9d20_9d67 && Schedule(ABC, 29) == 0xec87_26cb
    ensures Schedule(ABC, 30) == 0x7021_38a4 && Schedule(ABC, 31) == 0xd3b7_973b
  {
    AbcFirstWords();
    AbcWords16();
    hide Schedule;
    NextWord(24, 0x12dc_bfdb, 0x000f_0000, 0x0000_0000, 0x0000_0000, 0xc821_5c1a);
    NextWord(25, 0xe2e2_c38e, 0x7da8_6405, 0x0000_0000, 0x0000_0000, 0xb736_79a2);
    NextWord(26, 0xc821_5c1a, 0x6000_03c6, 0x0000_0000, 0x0000_0000, 0xe5bc_3909);
    NextWord(27, 0xb736_79a2, 0x3e9d_7b78, 0x0000_0000, 0x0000_0000, 0x3266_3c5b);
    NextWord(28, 0xe5bc_3909, 0x0183_fc00, 0x0000_0000, 0x0000_0000, 0x9d20_9d67);
    NextWord(29, 0x3266_3c5b, 0x12dc_bfdb, 0x0000_0000, 0x0000_0000, 0xec87_26cb);
    NextWord(30, 0x9d20_9d67, 0xe2e2_c38e, 0x0000_0018, 0x0000_0000, 0x7021_38a4);
    NextWord(31, 0xec87_26cb, 0xc821_5c1a, 0x6162_6380, 0x0000_0018, 0xd3b7_973b);
  }

  lemma AbcWords32()
    ensures Schedule(ABC, 32) == 0x93f5_997f && Schedule(ABC, 33) == 0x3b68_ba73
    ensures Schedule(ABC, 34) == 0xaff4_ffc1 && Schedule(ABC, 35) == 0xf10a_5c62
    ensures Schedule(ABC, 36) == 0x0a8b_3996 && Schedule(ABC, 37) == 0x72af_830a
    ensures Schedule(ABC, 38) == 0x9409_e33e && Schedule(ABC, 39) == 0x2464_1522
  {
    AbcWords16();
    AbcWords24();
    hide Schedule;
    NextWord(32, 0x7021_38a4, 0xb736_79a2, 0x000f_0000, 0x6162_6380, 0x93f5_997f);
    NextWord(33, 0xd3b7_973b, 0xe5bc_3909, 0x7da8_6405, 0x000f_0000, 0x3b68_ba73);
    NextWord(34, 0x93f5_997f, 0x3266_3c5b, 0x6000_03c6, 0x7da8_6405, 0xaff4_ffc1);
    NextWord(35, 0x3b68_ba73, 0x9d20_9d67, 0x3e9d_7b78, 0x6000_03c6, 0xf10a_5c62);
    NextWord(36, 0xaff4_ffc1, 0xec87_26cb, 0x0183_fc00, 0x3e9d_7b78, 0x0a8b_3996);
    NextWord(37, 0xf10a_5c62, 0x7021_38a4, 0x12dc_bfdb, 0x0183_fc00, 0x72af_830a);
    NextWord(38, 0x0a8b_3996, 0xd3b7_973b, 0xe2e2_c38e, 0x12dc_bfdb, 0x9409_e33e);
    NextWord(39, 0x72af_830a, 0x93f5_997f, 0xc821_5c1a, 0xe2e2_c38e, 0x2464_1522);
  }

  lemma AbcWords40()
    ensures Schedule(ABC, 40) == 0x9f47_bf94 && Schedule(ABC, 41) == 0xf0a6_4f5a
    ensures Schedule(ABC, 42) == 0x3e24_6a79 && Schedule(ABC, 43) == 0x2733_3ba3
    ensures Schedule(ABC, 44) == 0x0c47_63f2 && Schedule(ABC, 45) == 0x840a_bf27
    ensures Schedule(ABC, 46) == 0x7a29_0d5d && Schedule(ABC, 47) == 0x065c_43da
  {
    AbcWords24();
    AbcWords32();
    hide Schedule;
    NextWord(40, 0x9409_e33e, 0x3b68_ba73, 0xb736_79a2, 0xc821_5c1a, 0x9f47_bf94);
    NextWord(41, 0x2464_1522, 0xaff4_ffc1, 0xe5bc_3909, 0xb736_79a2, 0xf0a6_4f5a);
    NextWord(42, 0x9f47_bf94, 0xf10a_5c62, 0x3266_3c5b, 0xe5bc_3909, 0x3e24_6a79);
    NextWord(43, 0xf0a6_4f5a, 0x0a8b_3996, 0x9d20_9d67, 0x3266_3c5b, 0x2733_3ba3);
    NextWord(44, 0x3e24_6a79, 0x72af_830a, 0xec87_26cb, 0x9d20_9d67, 0x0c47_63f2);
    NextWord(45, 0x2733_3ba3, 0x9409_e33e, 0x7021_38a4, 0xec87_26cb, 0x840a_bf27);
    NextWord(46, 0x0c47_63f2, 0x2464_1522, 0xd3b7_973b, 0x7021_38a4, 0x7a29_0d5d);
    NextWord(47, 0x840a_bf27, 0x9f47_bf94, 0x93f5_997f, 0xd3b7_973b, 0x065c_43da);
  }

  lemma AbcWords48()
    ensures Schedule(ABC, 48) == 0xfb3e_89cb && Schedule(ABC, 49) == 0xcc76_17db
    ensures Schedule(ABC, 50) == 0xb9e6_6c34 && Schedule(ABC, 51) == 0xa999_3667
    ensures Schedule(ABC, 52) == 0x84ba_dedd && Schedule(ABC, 53) == 0xc214_62bc
    ensures Schedule(ABC, 54) == 0x1487_472c && Schedule(ABC, 55) == 0xb20f_7a99
  {
    AbcWords32();
    AbcWords40();
    hide Schedule;
    NextWord(48, 0x7a29_0d5d, 0xf0a6_4f5a, 0x3b68_ba73, 0x93f5_997f, 0xfb3e_89cb);
    NextWord(49, 0x065c_43da, 0x3e24_6a79, 0xaff4_ffc1, 0x3b68_ba73, 0xcc76_17db);
    NextWord(50, 0xfb3e_89cb, 0x2733_3ba3, 0xf10a_5c62, 0xaff4_ffc1, 0xb9e6_6c34);
    NextWord(51, 0xcc76_17db, 0x0c47_63f2, 0x0a8b_3996, 0xf10a_5c62, 0xa999_3667);
    NextWord(52, 0xb9e6_6c34, 0x840a_bf27, 0x72af_830a, 0x0a8b_3996, 0x84ba_dedd);
    NextWord(53, 0xa999_3667, 0x7a29_0d5d, 0x9409_e33e, 0x72af_830a, 0xc214_62bc);
    NextWord(54, 0x84ba_dedd, 0x065c_43da, 0x2464_1522, 0x9409_e33e, 0x1487_472c);
    NextWord(55, 0xc214_62bc, 0xfb3e_89cb, 0x9f47_bf94, 0x2464_1522, 0xb20f_7a99);
  }

  lemma AbcWords56()
    ensures Schedule(ABC, 56) == 0xef57_b9cd && Schedule(ABC, 57) == 0xebe6_b238
    ensures Schedule(ABC, 58) == 0x9fe3_095e && Schedule(ABC, 59) == 0x78bc_8d4b
    ensures Schedule(ABC, 60) == 0xa43f_cf15 && Schedule(ABC, 61) == 0x668b_2ff8
    ensures Schedule(ABC, 62) == 0xeeab_a2cc && Schedule(ABC, 63) == 0x12b1_edeb
  {
    AbcWords40();
    AbcWords48();
    hide Schedule;
    NextWord(56, 0x1487_472c, 0xcc76_17db, 0xf0a6_4f5a, 0x9f47_bf94, 0xef57_b9cd);
    NextWord(57, 0xb20f_7a99, 0xb9e6_6c34, 0x3e24_6a79, 0xf0a6_4f5a, 0xebe6_b238);
    NextWord(58, 0xef57_b9cd, 0xa999_3667, 0x2733_3ba3, 0x3e24_6a79, 0x9fe3_095e);
    NextWord(59, 0xebe6_b238, 0x84ba_dedd, 0x0c47_63f2, 0x2733_3ba3, 0x78bc_8d4b);
    NextWord(60, 0x9fe3_095e, 0xc214_62bc, 0x840a_bf27, 0x0c47_63f2, 0xa43f_cf15);
    NextWord(61, 0x78bc_8d4b, 0x1487_472c, 0x7a29_0d5d, 0x840a_bf27, 0x668b_2ff8);
    NextWord(62, 0xa43f_cf15, 0xb20f_7a99, 0x065c_43da, 0x7a29_0d5d, 0xeeab_a2cc);
    NextWord(63, 0x668b_2ff8, 0xef57_b9cd, 0xfb3e_89cb, 0x065c_43da, 0x12b1_edeb);
  }

  /** One more round, to a state whose new words are `a` and `e`. */
  lemma Step(t: nat, v: Vars, k: bv32, w: bv32, a: bv32, e: bv32) returns (r: Vars)
    requires t < 64 && Rounds(H0, ABC, t) == v && Constant(t) == k && Schedule(ABC, t) == w
    requires Round(v, k, w) == Vars(a, v.a, v.b, v.c, e, v.e, v.f, v.g)
    ensures r == Vars(a, v.a, v.b, v.c, e, v.e, v.f, v.g) && Rounds(H0, ABC, t + 1) == r
  {
    hide Round, Schedule;
    r := Vars(a, v.a, v.b, v.c, e, v.e, v.f, v.g);
  }

  lemma AbcRounds8()
    ensures Rounds(H0, ABC, 8)
         == Vars(0x85a0_7b5f, 0xe503_0380, 0x2b42_09f5, 0x0440_9a6a,
                 0x0c65_7a79, 0x9b27_a401, 0x7142_60ad, 0x43ad_a245)
  {
    AbcFirstWords();
    Constants0();
    hide Schedule, Constant;
    var v := Vars(0x6a09_e667, 0xbb67_ae85, 0x3c6e_f372, 0xa54f_f53a,
                  0x510e_527f, 0x9b05_688c, 0x1f83_d9ab, 0x5be0_cd19);
    v := Step(0, v, 0x428a_2f98, 0x6162_6380, 0x5d6a_ebcd, 0xfa2a_4622);
    v := Step(1, v, 0x7137_4491, 0x0000_0000, 0x5a6a_d9ad, 0x78ce_7989);
    v := Step(2, v, 0xb5c0_fbcf, 0x0000_0000, 0xc8c3_47a7, 0xf929_39eb);
    v := Step(3, v, 0xe9b5_dba5, 0x0000_0000, 0xd550_f666, 0x24e0_0850);
    v := Step(4, v, 0x3956_c25b, 0x0000_0000, 0x0440_9a6a, 0x43ad_a245);
    v := Step(5, v, 0x59f1_11f1, 0x0000_0000, 0x2b42_09f5, 0x7142_60ad);
    v := Step(6, v, 0x923f_82a4, 0x0000_0000, 0xe503_0380, 0x9b27_a401);
    v := Step(7, v, 0xab1c_5ed5, 0x0000_0000, 0x85a0_7b5f, 0x0c65_7a79);
  }

  lemma AbcRounds16()
    ensures Rounds(H0, ABC, 16)
         == Vars(0xb0fa_238e, 0xc064_5fde, 0xd932_eb16, 0x8791_2990,
                 0x0759_0dcd, 0x0b92_f20c, 0x745a_48de, 0x1e57_8218)
  {
    AbcRounds8();
    AbcFirstWords();
    Constants8();
    hide Schedule, Rounds, Constant;
    var v := Vars(0x85a0_7b5f, 0xe503_0380, 0x2b42_09f5, 0x0440_9a6a,
                  0x0c65_7a79, 0x9b27_a401, 0x7142_60ad, 0x43ad_a245);
    v := Step(8, v, 0xd807_aa98, 0x0000_0000, 0x8e04_ecb9, 0x32ca_2d8c);
    v := Step(9, v, 0x1283_5b01, 0x0000_0000, 0x8c87_346b, 0x1cc9_2596);
    v := Step(10, v, 0x2431_85be, 0x0000_0000, 0x4798_a3f4, 0x436b_23e8);
    v := Step(11, v, 0x550c_7dc3, 0x0000_0000, 0xf71f_c5a9, 0x816f_d6e9);
    v := Step(12, v, 0x72be_5d74, 0x0000_0000, 0x8791_2990, 0x1e57_8218);
    v := Step(13, v, 0x80de_b1fe, 0x0000_0000, 0xd932_eb16, 0x745a_48de);
    v := Step(14, v, 0x9bdc_06a7, 0x0000_0000, 0xc064_5fde, 0x0b92_f20c);
    v := Step(15, v, 0xc19b_f174, 0x0000_0018, 0xb0fa_238e, 0x0759_0dcd);
  }

  lemma AbcRounds24()
    ensures Rounds(H0, ABC, 24)
         == Vars(0xc5d5_3d8d, 0xa7a3_623f, 0xc260_6d6d, 0x9dc6_8b63,
                 0xaa47_c347, 0x49f5_114a, 0xe125_7970, 0x8ada_8930)
  {
    AbcRounds16();
    AbcWords16();
    Constants16();
    hide Schedule, Rounds, Constant;
    var v := Vars(0xb0fa_238e, 0xc064_5fde, 0xd932_eb16, 0x8791_2990,
                  0x0759_0dcd, 0x0b92_f20c, 0x745a_48de, 0x1e57_8218);
    v := Step(16, v, 0xe49b_69c1, 0x6162_6380, 0x21da_9a9b, 0x8034_229c);
    v := Step(17, v, 0xefbe_4786, 0x000f_0000, 0xc2fb_d9d1, 0x846e_e454);
    v := Step(18, v, 0x0fc1_9dc6, 0x7da8_6405, 0xfe77_7bbf, 0xcc89_9961);
    v := Step(19, v, 0x240c_a1cc, 0x6000_03c6, 0xe1f2_0c33, 0xb063_8179);
    v := Step(20, v, 0x2de9_2c6f, 0x3e9d_7b78, 0x9dc6_8b63, 0x8ada_8930);
    v := Step(21, v, 0x4a74_84aa, 0x0183_fc00, 0xc260_6d6d, 0xe125_7970);
    v := Step(22, v, 0x5cb0_a9dc, 0x12dc_bfdb, 0xa7a3_623f, 0x49f5_114a);
    v := Step(23, v, 0x76f9_88da, 0xe2e2_c38e, 0xc5d5_3d8d, 0xaa47_c347);
  }

  lemma AbcRounds32()
    ensures Rounds(H0, ABC, 32)
         == Vars(0x73b3_3bf5, 0xea99_2a22, 0xa006_0b30, 0x3634_82c9,
                 0xba59_1112, 0x0109_ab3a, 0xade7_9437, 0x6112_a3b7)
  {
    AbcRounds24();
    AbcWords24();
    Constants24();
    hide Schedule, Rounds, Constant;
    var v := Vars(0xc5d5_3d8d, 0xa7a3_623f, 0xc260_6d6d, 0x9dc6_8b63,
                  0xaa47_c347, 0x49f5_114a, 0xe125_7970, 0x8ada_8930);
    v := Step(24, v, 0x983e_5152, 0xc821_5c1a, 0x1c2c_2838, 0x2823_ef91);
    v := Step(25, v, 0xa831_c66d, 0xb736_79a2, 0xcde8_037d, 0x1438_3d8e);
    v := Step(26, v, 0xb003_27c8, 0xe5bc_3909, 0xb62e_c4bc, 0xc74c_6516);
    v := Step(27, v, 0xbf59_7fc7, 0x3266_3c5b, 0x77d3_7528, 0xedff_bff8);
    v := Step(28, v, 0xc6e0_0bf3, 0x9d20_9d67, 0x3634_82c9, 0x6112_a3b7);
    v := Step(29, v, 0xd5a7_9147, 0xec87_26cb, 0xa006_0b30, 0xade7_9437);
    v := Step(30, v, 0x06ca_6351, 0x7021_38a4, 0xea99_2a22, 0x0109_ab3a);
    v := Step(31, v, 0x1429_2967, 0xd3b7_973b, 0x73b3_3bf5, 0xba59_1112);
  }

  lemma AbcRounds40()
    ensures Rounds(H0, ABC, 40)
         == Vars(0x79ea_687a, 0x6dc5_7a8a, 0x34df_1604, 0x41a6_5cb1,
                 0x1efb_c0a0, 0xf078_1bc8, 0xa507_a53d, 0x0772_a26b)
  {
    AbcRounds32();
    AbcWords32();
    Constants32();
    hide Schedule, Rounds, Constant;
    var v := Vars(0x73b3_3bf5, 0xea99_2a22, 0xa006_0b30, 0x3634_82c9,
                  0xba59_1112, 0x0109_ab3a, 0xade7_9437, 0x6112_a3b7);
    v := Step(32, v, 0x27b7_0a85, 0x93f5_997f, 0x98e1_2507, 0x9cd9_f5f6);
    v := Step(33, v, 0x2e1b_2138, 0x3b68_ba73, 0xfe60_4df5, 0x5924_9dd3);
    v := Step(34, v, 0x4d2c_6dfc, 0xaff4_ffc1, 0xa9a7_738c, 0x085f_3833);
    v := Step(35, v, 0x5338_0d13, 0xf10a_5c62, 0x65a0_cfe4, 0xf4b0_02d6);
    v := Step(36, v, 0x650a_7354, 0x0a8b_3996, 0x41a6_5cb1, 0x0772_a26b);
    v := Step(37, v, 0x766a_0abb, 0x72af_830a, 0x34df_1604, 0xa507_a53d);
    v := Step(38, v, 0x81c2_c92e, 0x9409_e33e, 0x6dc5_7a8a, 0xf078_1bc8);
    v := Step(39, v, 0x9272_2c85, 0x2464_1522, 0x79ea_687a, 0x1efb_c0a0);
  }

  lemma AbcRounds48()
    ensures Rounds(H0, ABC, 48)
         == Vars(0x4172_328d, 0xa14c_14b0, 0x72ab_4b91, 0x2662_8815,
                 0xfecf_0bc6, 0xd57b_94a9, 0xb775_5da1, 0xa80f_11f0)
  {
    AbcRounds40();
    AbcWords40();
    Constants40();
    hide Schedule, Rounds, Constant;
    var v := Vars(0x79ea_687a, 0x6dc5_7a8a, 0x34df_1604, 0x41a6_5cb1,
                  0x1efb_c0a0, 0xf078_1bc8, 0xa507_a53d, 0x0772_a26b);
    v := Step(40, v, 0xa2bf_e8a1, 0x9f47_bf94, 0xd667_0766, 0x2635_2d63);
    v := Step(41, v, 0xa81a_664b, 0xf0a6_4f5a, 0xdf46_652f, 0x838b_2711);
    v := Step(42, v, 0xc24b_8b70, 0x3e24_6a79, 0x17aa_0dfe, 0xdecd_4715);
    v := Step(43, v, 0xc76c_51a3, 0x2733_3ba3, 0x9d4b_af93, 0xfda2_4c2e);
    v := Step(44, v, 0xd192_e819, 0x0c47_63f2, 0x2662_8815, 0xa80f_11f0);
    v := Step(45, v, 0xd699_0624, 0x840a_bf27, 0x72ab_4b91, 0xb775_5da1);
    v := Step(46, v, 0xf40e_3585, 0x7a29_0d5d, 0xa14c_14b0, 0xd57b_94a9);
    v := Step(47, v, 0x106a_a070, 0x065c_43da, 0x4172_328d, 0xfecf_0bc6);
  }

  lemma AbcRounds56()
    ensures Rounds(H0, ABC, 56)
         == Vars(0x38cc_9913, 0x3ec4_5cdb, 0xf570_2fdb, 0x101f_d28f,
                 0x54cb_266b, 0xe50e_1b4f, 0x9f47_87c3, 0x529e_7d00)
  {
    AbcRounds48();
    AbcWords48();
    Constants48();
    hide Schedule, Rounds, Constant;
    var v := Vars(0x4172_328d, 0xa14c_14b0, 0x72ab_4b91, 0x2662_8815,
                  0xfecf_0bc6, 0xd57b_94a9, 0xb775_5da1, 0xa80f_11f0);
    v := Step(48, v, 0x19a4_c116, 0xfb3e_89cb, 0x0575_7ceb, 0xbd71_4038);
    v := Step(49, v, 0x1e37_6c08, 0xcc76_17db, 0xf11b_faa8, 0x6e5c_390c);
    v := Step(50, v, 0x2748_774c, 0xb9e6_6c34, 0x7a05_08a1, 0x52f1_ccf7);
    v := Step(51, v, 0x34b0_bcb5, 0xa999_3667, 0x886e_7a22, 0x4923_1c1e);
    v := Step(52, v, 0x391c_0cb3, 0x84ba_dedd, 0x101f_d28f, 0x529e_7d00);
    v := Step(53, v, 0x4ed8_aa4a, 0xc214_62bc, 0xf570_2fdb, 0x9f47_87c3);
    v := Step(54, v, 0x5b9c_ca4f, 0x1487_472c, 0x3ec4_5cdb, 0xe50e_1b4f);
    v := Step(55, v, 0x682e_6ff3, 0xb20f_7a99, 0x38cc_9913, 0x54cb_266b);
  }

  lemma AbcRounds64()
    ensures Rounds(H0, ABC, 64)
         == Vars(0x506e_3058, 0xd39a_2165, 0x04d2_4d6c, 0xb85e_2ce9,
                 0x5ef5_0f24, 0xfb12_1210, 0x948d_25b6, 0x961f_4894)
  {
    AbcRounds56();
    AbcWords56();
    Constants56();
    hide Schedule, Rounds, Constant;
    var v := Vars(0x38cc_9913, 0x3ec4_5cdb, 0xf570_2fdb, 0x101f_d28f,
                  0x54cb_266b, 0xe50e_1b4f, 0x9f47_87c3, 0x529e_7d00);
    v := Step(56, v, 0x748f_82ee, 0xef57_b9cd, 0xfcd1_887b, 0x9b5e_906c);
    v := Step(57, v, 0x78a5_636f, 0xebe6_b238, 0xc062_d46f, 0x7e44_008e);
    v := Step(58, v, 0x84c8_7814, 0x9fe3_095e, 0xffb7_0472, 0x6d83_bfc6);
    v := Step(59, v, 0x8cc7_0208, 0x78bc_8d4b, 0xb6ae_8fff, 0xb21b_ad3d);
    v := Step(60, v, 0x90be_fffa, 0xa43f_cf15, 0xb85e_2ce9, 0x961f_4894);
    v := Step(61, v, 0xa450_6ceb, 0x668b_2ff8, 0x04d2_4d6c, 0x948d_25b6);
    v := Step(62, v, 0xbef9_a3f7, 0xeeab_a2cc, 0xd39a_2165, 0xfb12_1210);
    v := Step(63, v, 0xc671_78f2, 0x12b1_edeb, 0x506e_3058, 0x5ef5_0f24);
  }

  lemma AbcCompressed()
    ensures Compress(H0, ABC)
         == Vars(0xba78_16bf, 0x8f01_cfea, 0x4141_40de, 0x5dae_2223,
                 0xb003_61a3, 0x9617_7a9c, 0xb410_ff61, 0xf200_15ad)
  {
    AbcRounds64();
    hide Rounds;
  }

  lemma OctetsOf0()
    ensures WordOctets(0xba78_16bf) == [0xba, 0x78, 0x16, 0xbf]
    ensures WordOctets(0x8f01_cfea) == [0x8f, 0x01, 0xcf, 0xea]
    ensures WordOctets(0x4141_40de) == [0x41, 0x41, 0x40, 0xde]
    ensures WordOctets(0x5dae_2223) == [0x5d, 0xae, 0x22, 0x23]
  {
  }

  lemma OctetsOf4()
    ensures WordOctets(0xb003_61a3) == [0xb0, 0x03, 0x61, 0xa3]
    ensures WordOctets(0x9617_7a9c) == [0x96, 0x17, 0x7a, 0x9c]
    ensures WordOctets(0xb410_ff61) == [0xb4, 0x10, 0xff, 0x61]
    ensures WordOctets(0xf200_15ad) == [0xf2, 0x00, 0x15, 0xad]
  {
  }

  lemma OneBlock(v: Vars, b: seq<byte>)
    requires |b| == 64
    ensures Blocks(v, b) == Compress(v, b)
  {
    hide Compress;
    assert b[..64] == b && b[64..] == [];
  }

  lemma {:induction false} OctetsConcat(a: seq<bv32>, b: seq<bv32>)
    ensures Octets(a + b) == Octets(a) + Octets(b)
    decreases |a|
  {
    hide WordOctets;
    if a == [] {
      assert a + b == b;
    } else {
      assert (a + b)[1..] == a[1..] + b;
      OctetsConcat(a[1..], b);
    }
  }

  lemma TwoWords(a: bv32, b: bv32)
    ensures Octets([a, b]) == WordOctets(a) + WordOctets(b)
  {
    hide WordOctets;
    assert [a, b][1..] == [b] && [b][1..] == [];
    assert Octets([b]) == WordOctets(b) + Octets([]) == WordOctets(b);
  }

  lemma EightWords(v: Vars)
    ensures Digest(v) == WordOctets(v.a) + WordOctets(v.b) + (WordOctets(v.c) + WordOctets(v.d))
                       + (WordOctets(v.e) + WordOctets(v.f)) + (WordOctets(v.g) + WordOctets(v.h))
  {
    hide WordOctets, Octets;
    TwoWords(v.a, v.b);
    TwoWords(v.c, v.d);
    TwoWords(v.e, v.f);
    TwoWords(v.g, v.h);
    OctetsConcat([v.a, v.b], [v.c, v.d]);
    OctetsConcat([v.a, v.b] + [v.c, v.d], [v.e, v.f]);
    OctetsConcat([v.a, v.b] + [v.c, v.d] + [v.e, v.f], [v.g, v.h]);
    assert [v.a, v.b, v.c, v.d, v.e, v.f, v.g, v.h] == [v.a, v.b] + [v.c, v.d] + [v.e, v.f] + [v.g, v.h];
  }

  /** The published digest. */
  lemma AbcDigest()
    ensures Hash([0x61, 0x62, 0x63]) == [
      0xba, 0x78, 0x16, 0xbf, 0x8f, 0x01, 0xcf, 0xea, 0x41, 0x41, 0x40, 0xde, 0x5d, 0xae, 0x22, 0x23,
      0xb0, 0x03, 0x61, 0xa3, 0x96, 0x17, 0x7a, 0x9c, 0xb4, 0x10, 0xff, 0x61, 0xf2, 0x00, 0x15, 0xad
    ]
  {
    hide Compress, Pad, WordOctets, Blocks, Digest;
    AbcPadded();
    AbcCompressed();
    OneBlock(H0, ABC);
    EightWords(Compress(H0, ABC));
    OctetsOf0();
    OctetsOf4();
    assert Digest(Compress(H0, ABC))
        == [0xba, 0x78, 0x16, 0xbf, 0x8f, 0x01, 0xcf, 0xea, 0x41, 0x41, 0x40, 0xde, 0x5d, 0xae, 0x22, 0x23]
         + [0xb0, 0x03, 0x61, 0xa3, 0x96, 0x17, 0x7a, 0x9c, 0xb4, 0x10, 0xff, 0x61, 0xf2, 0x00, 0x15, 0xad];
  }

  /** After any earlier blocks, one more adds the result `r` of its 64 rounds to the eight words it started from. */
  lemma FeedForward(m: seq<byte>, block: seq<byte>, n: nat, r: Vars)
    requires |m| % 64 == 0 && |block| == 64 && n == 64 && r == Rounds(Blocks(H0, m), block, n)
    ensures (|m| + 64) % 64 == 0
    ensures var v := Blocks(H0, m);
      Blocks(H0, m + block) == Vars(Add(v.a, r.a), Add(v.b, r.b), Add(v.c, r.c), Add(v.d, r.d),
                                    Add(v.e, r.e), Add(v.f, r.f), Add(v.g, r.g), Add(v.h, r.h))
  {
    hide Blocks, Rounds, Add;
    BlocksAppend(H0, m, block);
  }
}
