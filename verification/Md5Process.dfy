/** md5_process of md5.cpp: 64 operations written out. */
module Md5Process {
  import opened HashBlocks
  import opened Md5Spec

  const T_MASK: bv32 := 0xffff_ffff
  const T1: bv32 := T_MASK ^ 0x2895_5b87
  const T2: bv32 := T_MASK ^ 0x1738_48a9
  const T3: bv32 := 0x2420_70db
  const T4: bv32 := T_MASK ^ 0x3e42_3111
  const T5: bv32 := T_MASK ^ 0x0a83_f050
  const T6: bv32 := 0x4787_c62a
  const T7: bv32 := T_MASK ^ 0x57cf_b9ec
  const T8: bv32 := T_MASK ^ 0x02b9_6afe
  const T9: bv32 := 0x6980_98d8
  const T10: bv32 := T_MASK ^ 0x74bb_0850
  const T11: bv32 := T_MASK ^ 0x0000_a44e
  const T12: bv32 := T_MASK ^ 0x76a3_2841
  const T13: bv32 := 0x6b90_1122
  const T14: bv32 := T_MASK ^ 0x0267_8e6c
  const T15: bv32 := T_MASK ^ 0x5986_bc71
  const T16: bv32 := 0x49b4_0821
  const T17: bv32 := T_MASK ^ 0x09e1_da9d
  const T18: bv32 := T_MASK ^ 0x3fbf_4cbf
  const T19: bv32 := 0x265e_5a51
  const T20: bv32 := T_MASK ^ 0x1649_3855
  const T21: bv32 := T_MASK ^ 0x29d0_efa2
  const T22: bv32 := 0x0244_1453
  const T23: bv32 := T_MASK ^ 0x275e_197e
  const T24: bv32 := T_MASK ^ 0x182c_0437
  const T25: bv32 := 0x21e1_cde6
  const T26: bv32 := T_MASK ^ 0x3cc8_f829
  const T27: bv32 := T_MASK ^ 0x0b2a_f278
  const T28: bv32 := 0x455a_14ed
  const T29: bv32 := T_MASK ^ 0x561c_16fa
  const T30: bv32 := T_MASK ^ 0x0310_5c07
  const T31: bv32 := 0x676f_02d9
  const T32: bv32 := T_MASK ^ 0x72d5_b375
  const T33: bv32 := T_MASK ^ 0x0005_c6bd
  const T34: bv32 := T_MASK ^ 0x788e_097e
  const T35: bv32 := 0x6d9d_6122
  const T36: bv32 := T_MASK ^ 0x021a_c7f3
  const T37: bv32 := T_MASK ^ 0x5b41_15bb
  const T38: bv32 := 0x4bde_cfa9
  const T39: bv32 := T_MASK ^ 0x0944_b49f
  const T40: bv32 := T_MASK ^ 0x4140_438f
  const T41: bv32 := 0x289b_7ec6
  const T42: bv32 := T_MASK ^ 0x155e_d805
  const T43: bv32 := T_MASK ^ 0x2b10_cf7a
  const T44: bv32 := 0x0488_1d05
  const T45: bv32 := T_MASK ^ 0x262b_2fc6
  const T46: bv32 := T_MASK ^ 0x1924_661a
  const T47: bv32 := 0x1fa2_7cf8
  const T48: bv32 := T_MASK ^ 0x3b53_a99a
  const T49: bv32 := T_MASK ^ 0x0bd6_ddbb
  const T50: bv32 := 0x432a_ff97
  const T51: bv32 := T_MASK ^ 0x546b_dc58
  const T52: bv32 := T_MASK ^ 0x036c_5fc6
  const T53: bv32 := 0x655b_59c3
  const T54: bv32 := T_MASK ^ 0x70f3_336d
  const T55: bv32 := T_MASK ^ 0x0010_0b82
  const T56: bv32 := T_MASK ^ 0x7a7b_a22e
  const T57: bv32 := 0x6fa8_7e4f
  const T58: bv32 := T_MASK ^ 0x01d3_191f
  const T59: bv32 := T_MASK ^ 0x5cfe_bceb
  const T60: bv32 := 0x4e08_11a1
  const T61: bv32 := T_MASK ^ 0x08ac_817d
  const T62: bv32 := T_MASK ^ 0x42c5_0dca
  const T63: bv32 := 0x2ad7_d2bb
  const T64: bv32 := T_MASK ^ 0x1479_2c6e

  lemma ConstantsOne()
    ensures T1 == Sine(0) && T2 == Sine(1) && T3 == Sine(2) && T4 == Sine(3)
    ensures T5 == Sine(4) && T6 == Sine(5) && T7 == Sine(6) && T8 == Sine(7)
    ensures T9 == Sine(8) && T10 == Sine(9) && T11 == Sine(10) && T12 == Sine(11)
    ensures T13 == Sine(12) && T14 == Sine(13) && T15 == Sine(14) && T16 == Sine(15)
  {
  }

  lemma ConstantsTwo()
    ensures T17 == Sine(16) && T18 == Sine(17) && T19 == Sine(18) && T20 == Sine(19)
    ensures T21 == Sine(20) && T22 == Sine(21) && T23 == Sine(22) && T24 == Sine(23)
    ensures T25 == Sine(24) && T26 == Sine(25) && T27 == Sine(26) && T28 == Sine(27)
    ensures T29 == Sine(28) && T30 == Sine(29) && T31 == Sine(30) && T32 == Sine(31)
  {
  }

  lemma ConstantsThree()
    ensures T33 == Sine(32) && T34 == Sine(33) && T35 == Sine(34) && T36 == Sine(35)
    ensures T37 == Sine(36) && T38 == Sine(37) && T39 == Sine(38) && T40 == Sine(39)
    ensures T41 == Sine(40) && T42 == Sine(41) && T43 == Sine(42) && T44 == Sine(43)
    ensures T45 == Sine(44) && T46 == Sine(45) && T47 == Sine(46) && T48 == Sine(47)
  {
  }

  lemma ConstantsFour()
    ensures T49 == Sine(48) && T50 == Sine(49) && T51 == Sine(50) && T52 == Sine(51)
    ensures T53 == Sine(52) && T54 == Sine(53) && T55 == Sine(54) && T56 == Sine(55)
    ensures T57 == Sine(56) && T58 == Sine(57) && T59 == Sine(58) && T60 == Sine(59)
    ensures T61 == Sine(60) && T62 == Sine(61) && T63 == Sine(62) && T64 == Sine(63)
  {
  }

  // Four operations, each on the register after the one before, bring every register back to its place.
  lemma FourSteps(h: Regs, x: seq<bv32>, n: nat, p: Regs, q: Regs)
    requires |x| == 16 && n <= 60 && p == Steps(h, x, n)
    requires q.a == Set(p.a, p.b, Aux(n, p.b, p.c, p.d), x[Index(n)], ShiftBy(n), Sine(n))
    requires q.d == Set(p.d, q.a, Aux(n + 1, q.a, p.b, p.c), x[Index(n + 1)], ShiftBy(n + 1), Sine(n + 1))
    requires q.c == Set(p.c, q.d, Aux(n + 2, q.d, q.a, p.b), x[Index(n + 2)], ShiftBy(n + 2), Sine(n + 2))
    requires q.b == Set(p.b, q.c, Aux(n + 3, q.c, q.d, q.a), x[Index(n + 3)], ShiftBy(n + 3), Sine(n + 3))
    ensures q == Steps(h, x, n + 4)
  {
    hide Set, Aux, Index, ShiftBy, Sine;
    var r1 := Step(p, n, x);
    var r2 := Step(r1, n + 1, x);
    var r3 := Step(r2, n + 2, x);
    assert r1 == Steps(h, x, n + 1) && r2 == Steps(h, x, n + 2) && r3 == Steps(h, x, n + 3);
  }

  // Round 1 of md5_process.
  method RoundOne(a0: bv32, b0: bv32, c0: bv32, d0: bv32, x: seq<bv32>, ghost h: Regs)
    returns (a: bv32, b: bv32, c: bv32, d: bv32)
    requires |x| == 16 && Regs(a0, b0, c0, d0) == Steps(h, x, 0)
    ensures Regs(a, b, c, d) == Steps(h, x, 16)
  {
    hide Set, F, G, H, I, Steps, Step;
    ConstantsOne();
    a, b, c, d := a0, b0, c0, d0;
    ghost var p := Regs(a, b, c, d);
    a := Set(a, b, F(b, c, d), x[0], 7, T1);
    d := Set(d, a, F(a, b, c), x[1], 12, T2);
    c := Set(c, d, F(d, a, b), x[2], 17, T3);
    b := Set(b, c, F(c, d, a), x[3], 22, T4);
    FourSteps(h, x, 0, p, Regs(a, b, c, d));
    p := Regs(a, b, c, d);
    a := Set(a, b, F(b, c, d), x[4], 7, T5);
    d := Set(d, a, F(a, b, c), x[5], 12, T6);
    c := Set(c, d, F(d, a, b), x[6], 17, T7);
    b := Set(b, c, F(c, d, a), x[7], 22, T8);
    FourSteps(h, x, 4, p, Regs(a, b, c, d));
    p := Regs(a, b, c, d);
    a := Set(a, b, F(b, c, d), x[8], 7, T9);
    d := Set(d, a, F(a, b, c), x[9], 12, T10);
    c := Set(c, d, F(d, a, b), x[10], 17, T11);
    b := Set(b, c, F(c, d, a), x[11], 22, T12);
    FourSteps(h, x, 8, p, Regs(a, b, c, d));
    p := Regs(a, b, c, d);
    a := Set(a, b, F(b, c, d), x[12], 7, T13);
    d := Set(d, a, F(a, b, c), x[13], 12, T14);
    c := Set(c, d, F(d, a, b), x[14], 17, T15);
    b := Set(b, c, F(c, d, a), x[15], 22, T16);
    FourSteps(h, x, 12, p, Regs(a, b, c, d));
    p := Regs(a, b, c, d);
  }

  // Round 2 of md5_process.
  method RoundTwo(a0: bv32, b0: bv32, c0: bv32, d0: bv32, x: seq<bv32>, ghost h: Regs)
    returns (a: bv32, b: bv32, c: bv32, d: bv32)
    requires |x| == 16 && Regs(a0, b0, c0, d0) == Steps(h, x, 16)
    ensures Regs(a, b, c, d) == Steps(h, x, 32)
  {
    hide Set, F, G, H, I, Steps, Step;
    ConstantsTwo();
    a, b, c, d := a0, b0, c0, d0;
    ghost var p := Regs(a, b, c, d);
    a := Set(a, b, G(b, c, d), x[1], 5, T17);
    d := Set(d, a, G(a, b, c), x[6], 9, T18);
    c := Set(c, d, G(d, a, b), x[11], 14, T19);
    b := Set(b, c, G(c, d, a), x[0], 20, T20);
    FourSteps(h, x, 16, p, Regs(a, b, c, d));
    p := Regs(a, b, c, d);
    a := Set(a, b, G(b, c, d), x[5], 5, T21);
    d := Set(d, a, G(a, b, c), x[10], 9, T22);
    c := Set(c, d, G(d, a, b), x[15], 14, T23);
    b := Set(b, c, G(c, d, a), x[4], 20, T24);
    FourSteps(h, x, 20, p, Regs(a, b, c, d));
    p := Regs(a, b, c, d);
    a := Set(a, b, G(b, c, d), x[9], 5, T25);
    d := Set(d, a, G(a, b, c), x[14], 9, T26);
    c := Set(c, d, G(d, a, b), x[3], 14, T27);
    b := Set(b, c, G(c, d, a), x[8], 20, T28);
    FourSteps(h, x, 24, p, Regs(a, b, c, d));
    p := Regs(a, b, c, d);
    a := Set(a, b, G(b, c, d), x[13], 5, T29);
    d := Set(d, a, G(a, b, c), x[2], 9, T30);
    c := Set(c, d, G(d, a, b), x[7], 14, T31);
    b := Set(b, c, G(c, d, a), x[12], 20, T32);
    FourSteps(h, x, 28, p, Regs(a, b, c, d));
    p := Regs(a, b, c, d);
  }

  // Round 3 of md5_process.
  method RoundThree(a0: bv32, b0: bv32, c0: bv32, d0: bv32, x: seq<bv32>, ghost h: Regs)
    returns (a: bv32, b: bv32, c: bv32, d: bv32)
    requires |x| == 16 && Regs(a0, b0, c0, d0) == Steps(h, x, 32)
    ensures Regs(a, b, c, d) == Steps(h, x, 48)
  {
    hide Set, F, G, H, I, Steps, Step;
    ConstantsThree();
    a, b, c, d := a0, b0, c0, d0;
    ghost var p := Regs(a, b, c, d);
    a := Set(a, b, H(b, c, d), x[5], 4, T33);
    d := Set(d, a, H(a, b, c), x[8], 11, T34);
    c := Set(c, d, H(d, a, b), x[11], 16, T35);
    b := Set(b, c, H(c, d, a), x[14], 23, T36);
    FourSteps(h, x, 32, p, Regs(a, b, c, d));
    p := Regs(a, b, c, d);
    a := Set(a, b, H(b, c, d), x[1], 4, T37);
    d := Set(d, a, H(a, b, c), x[4], 11, T38);
    c := Set(c, d, H(d, a, b), x[7], 16, T39);
    b := Set(b, c, H(c, d, a), x[10], 23, T40);
    FourSteps(h, x, 36, p, Regs(a, b, c, d));
    p := Regs(a, b, c, d);
    a := Set(a, b, H(b, c, d), x[13], 4, T41);
    d := Set(d, a, H(a, b, c), x[0], 11, T42);
    c := Set(c, d, H(d, a, b), x[3], 16, T43);
    b := Set(b, c, H(c, d, a), x[6], 23, T44);
    FourSteps(h, x, 40, p, Regs(a, b, c, d));
    p := Regs(a, b, c, d);
    a := Set(a, b, H(b, c, d), x[9], 4, T45);
    d := Set(d, a, H(a, b, c), x[12], 11, T46);
    c := Set(c, d, H(d, a, b), x[15], 16, T47);
    b := Set(b, c, H(c, d, a), x[2], 23, T48);
    FourSteps(h, x, 44, p, Regs(a, b, c, d));
    p := Regs(a, b, c, d);
  }

  // Round 4 of md5_process.
  method RoundFour(a0: bv32, b0: bv32, c0: bv32, d0: bv32, x: seq<bv32>, ghost h: Regs)
    returns (a: bv32, b: bv32, c: bv32, d: bv32)
    requires |x| == 16 && Regs(a0, b0, c0, d0) == Steps(h, x, 48)
    ensures Regs(a, b, c, d) == Steps(h, x, 64)
  {
    hide Set, F, G, H, I, Steps, Step;
    ConstantsFour();
    a, b, c, d := a0, b0, c0, d0;
    ghost var p := Regs(a, b, c, d);
    a := Set(a, b, I(b, c, d), x[0], 6, T49);
    d := Set(d, a, I(a, b, c), x[7], 10, T50);
    c := Set(c, d, I(d, a, b), x[14], 15, T51);
    b := Set(b, c, I(c, d, a), x[5], 21, T52);
    FourSteps(h, x, 48, p, Regs(a, b, c, d));
    p := Regs(a, b, c, d);
    a := Set(a, b, I(b, c, d), x[12], 6, T53);
    d := Set(d, a, I(a, b, c), x[3], 10, T54);
    c := Set(c, d, I(d, a, b), x[10], 15, T55);
    b := Set(b, c, I(c, d, a), x[1], 21, T56);
    FourSteps(h, x, 52, p, Regs(a, b, c, d));
    p := Regs(a, b, c, d);
    a := Set(a, b, I(b, c, d), x[8], 6, T57);
    d := Set(d, a, I(a, b, c), x[15], 10, T58);
    c := Set(c, d, I(d, a, b), x[6], 15, T59);
    b := Set(b, c, I(c, d, a), x[13], 21, T60);
    FourSteps(h, x, 56, p, Regs(a, b, c, d));
    p := Regs(a, b, c, d);
    a := Set(a, b, I(b, c, d), x[4], 6, T61);
    d := Set(d, a, I(a, b, c), x[11], 10, T62);
    c := Set(c, d, I(d, a, b), x[2], 15, T63);
    b := Set(b, c, I(c, d, a), x[9], 21, T64);
    FourSteps(h, x, 60, p, Regs(a, b, c, d));
    p := Regs(a, b, c, d);
  }
}
