/** The first test vector of section A.5 of RFC 1321, step by step: the constants, the tables and
    the byte order that specification and implementation share are those of the standard. */
module Md5Vector {
  import opened Common
  import opened ByteBits
  import opened Md5
  import opened Md5Stream

  // ---------------------------------------------------------------- rotations

  lemma {:induction false} RotlAdds(x: Word, a: nat, b: nat)
    ensures Rotl(x, a + b) == Rotl(Rotl(x, a), b)
    decreases a
  {
    if a > 0 {
      RotlAdds((x << 1) | (x >> 31), a - 1, b);
    }
  }

  lemma Rotl4(x: Word)
    ensures Rotl(x, 4) == (x << 4) | (x >> 28)
  {
  }

  lemma Rotl5(x: Word)
    ensures Rotl(x, 5) == (x << 5) | (x >> 27)
  {
  }

  lemma Rotl6(x: Word)
    ensures Rotl(x, 6) == (x << 6) | (x >> 26)
  {
  }

  lemma Rotl7(x: Word)
    ensures Rotl(x, 7) == (x << 7) | (x >> 25)
  {
  }

  lemma Rotl9(x: Word)
    ensures Rotl(x, 9) == (x << 9) | (x >> 23)
  {
  }

  lemma Rotl10(x: Word)
    ensures Rotl(x, 10) == (x << 10) | (x >> 22)
  {
  }

  lemma Rotl11(x: Word)
    ensures Rotl(x, 11) == (x << 11) | (x >> 21)
  {
  }

  lemma Rotl12(x: Word)
    ensures Rotl(x, 12) == (x << 12) | (x >> 20)
  {
  }

  lemma Rotl14(x: Word)
    ensures Rotl(x, 14) == (x << 14) | (x >> 18)
  {
    RotlAdds(x, 12, 2);
  }

  lemma Rotl15(x: Word)
    ensures Rotl(x, 15) == (x << 15) | (x >> 17)
  {
    RotlAdds(x, 11, 4);
  }

  lemma Rotl16(x: Word)
    ensures Rotl(x, 16) == (x << 16) | (x >> 16)
  {
    RotlAdds(x, 12, 4);
  }

  lemma Rotl17(x: Word)
    ensures Rotl(x, 17) == (x << 17) | (x >> 15)
  {
    RotlAdds(x, 12, 5);
  }

  lemma Rotl20(x: Word)
    ensures Rotl(x, 20) == (x << 20) | (x >> 12)
  {
    RotlAdds(x, 12, 8);
  }

  lemma Rotl21(x: Word)
    ensures Rotl(x, 21) == (x << 21) | (x >> 11)
  {
    RotlAdds(x, 12, 9);
  }

  lemma Rotl22(x: Word)
    ensures Rotl(x, 22) == (x << 22) | (x >> 10)
  {
    RotlAdds(x, 12, 10);
  }

  lemma Rotl23(x: Word)
    ensures Rotl(x, 23) == (x << 23) | (x >> 9)
  {
    RotlAdds(x, 12, 11);
  }

  // ---------------------------------------------------------------- one step

  /** The one block of the padded empty message. */
  function EmptyBlock(): Block { [0x80] + seq(15, _ => 0) }

  /** The message word, the shift and the constant of a step. */
  datatype Turn = Turn(x: Word, s: nat, t: Word)

  function TurnOf(n: nat): Turn {
    if n >= 64 then Turn(0, 0, 0)
    else Turn(EmptyBlock()[KRow(n / 16)[n % 16]], SRow(n / 16)[n % 16], TRow(n / 16)[n % 16])
  }

  function Turned(n: nat, r: Regs, u: Turn): Regs {
    var q := Roles(r, n % 4);
    Assign(r, n % 4, Operation(n / 16, q.a, q.b, q.c, q.d, u.x, u.s, u.t))
  }

  /** `after` holds of the registers after each step if it holds of those before the first. */
  ghost predicate Steps(after: (nat, Regs) -> bool, turn: nat -> Turn) {
    forall n: nat, r: Regs :: n < 64 && after(n, r) ==> after(n + 1, Turned(n, r, turn(n)))
  }

  lemma StepOnce(after: (nat, Regs) -> bool, turn: nat -> Turn, n: nat, r: Regs, v: Word, next: Regs)
    requires Steps(after, turn) && n < 64 && after(n, r) && next == Assign(r, n % 4, v)
    requires var q, u := Roles(r, n % 4), turn(n); v == Operation(n / 16, q.a, q.b, q.c, q.d, u.x, u.s, u.t)
    ensures after(n + 1, next)
  {
    assert next == Turned(n, r, turn(n));
  }

  function After(n: nat, r: Regs): bool { n <= 64 && RfcSteps(INIT(), EmptyBlock(), n) == r }

  lemma StepsAre()
    ensures Steps(After, TurnOf)
  {
    forall n: nat, r: Regs | n < 64 && After(n, r) ensures After(n + 1, Turned(n, r, TurnOf(n))) {
    }
  }

  // ---------------------------------------------------------------- the tables

  ghost predicate Columns0(turn: nat -> Turn) {
    && turn(0) == Turn(0x80, 7, 0xd76a_a478)
    && turn(1) == Turn(0, 12, 0xe8c7_b756)
    && turn(2) == Turn(0, 17, 0x2420_70db)
    && turn(3) == Turn(0, 22, 0xc1bd_ceee)
  }

  lemma ColumnsAre0()
    ensures Columns0(TurnOf)
  {
  }

  ghost predicate Columns4(turn: nat -> Turn) {
    && turn(4) == Turn(0, 7, 0xf57c_0faf)
    && turn(5) == Turn(0, 12, 0x4787_c62a)
    && turn(6) == Turn(0, 17, 0xa830_4613)
    && turn(7) == Turn(0, 22, 0xfd46_9501)
  }

  lemma ColumnsAre4()
    ensures Columns4(TurnOf)
  {
  }

  ghost predicate Columns8(turn: nat -> Turn) {
    && turn(8) == Turn(0, 7, 0x6980_98d8)
    && turn(9) == Turn(0, 12, 0x8b44_f7af)
    && turn(10) == Turn(0, 17, 0xffff_5bb1)
    && turn(11) == Turn(0, 22, 0x895c_d7be)
  }

  lemma ColumnsAre8()
    ensures Columns8(TurnOf)
  {
  }

  ghost predicate Columns12(turn: nat -> Turn) {
    && turn(12) == Turn(0, 7, 0x6b90_1122)
    && turn(13) == Turn(0, 12, 0xfd98_7193)
    && turn(14) == Turn(0, 17, 0xa679_438e)
    && turn(15) == Turn(0, 22, 0x49b4_0821)
  }

  lemma ColumnsAre12()
    ensures Columns12(TurnOf)
  {
  }

  ghost predicate Columns16(turn: nat -> Turn) {
    && turn(16) == Turn(0, 5, 0xf61e_2562)
    && turn(17) == Turn(0, 9, 0xc040_b340)
    && turn(18) == Turn(0, 14, 0x265e_5a51)
    && turn(19) == Turn(0x80, 20, 0xe9b6_c7aa)
  }

  lemma ColumnsAre16()
    ensures Columns16(TurnOf)
  {
  }

  ghost predicate Columns20(turn: nat -> Turn) {
    && turn(20) == Turn(0, 5, 0xd62f_105d)
    && turn(21) == Turn(0, 9, 0x0244_1453)
    && turn(22) == Turn(0, 14, 0xd8a1_e681)
    && turn(23) == Turn(0, 20, 0xe7d3_fbc8)
  }

  lemma ColumnsAre20()
    ensures Columns20(TurnOf)
  {
  }

  ghost predicate Columns24(turn: nat -> Turn) {
    && turn(24) == Turn(0, 5, 0x21e1_cde6)
    && turn(25) == Turn(0, 9, 0xc337_07d6)
    && turn(26) == Turn(0, 14, 0xf4d5_0d87)
    && turn(27) == Turn(0, 20, 0x455a_14ed)
  }

  lemma ColumnsAre24()
    ensures Columns24(TurnOf)
  {
  }

  ghost predicate Columns28(turn: nat -> Turn) {
    && turn(28) == Turn(0, 5, 0xa9e3_e905)
    && turn(29) == Turn(0, 9, 0xfcef_a3f8)
    && turn(30) == Turn(0, 14, 0x676f_02d9)
    && turn(31) == Turn(0, 20, 0x8d2a_4c8a)
  }

  lemma ColumnsAre28()
    ensures Columns28(TurnOf)
  {
  }

  ghost predicate Columns32(turn: nat -> Turn) {
    && turn(32) == Turn(0, 4, 0xfffa_3942)
    && turn(33) == Turn(0, 11, 0x8771_f681)
    && turn(34) == Turn(0, 16, 0x6d9d_6122)
    && turn(35) == Turn(0, 23, 0xfde5_380c)
  }

  lemma ColumnsAre32()
    ensures Columns32(TurnOf)
  {
  }

  ghost predicate Columns36(turn: nat -> Turn) {
    && turn(36) == Turn(0, 4, 0xa4be_ea44)
    && turn(37) == Turn(0, 11, 0x4bde_cfa9)
    && turn(38) == Turn(0, 16, 0xf6bb_4b60)
    && turn(39) == Turn(0, 23, 0xbebf_bc70)
  }

  lemma ColumnsAre36()
    ensures Columns36(TurnOf)
  {
  }

  ghost predicate Columns40(turn: nat -> Turn) {
    && turn(40) == Turn(0, 4, 0x289b_7ec6)
    && turn(41) == Turn(0x80, 11, 0xeaa1_27fa)
    && turn(42) == Turn(0, 16, 0xd4ef_3085)
    && turn(43) == Turn(0, 23, 0x0488_1d05)
  }

  lemma ColumnsAre40()
    ensures Columns40(TurnOf)
  {
  }

  ghost predicate Columns44(turn: nat -> Turn) {
    && turn(44) == Turn(0, 4, 0xd9d4_d039)
    && turn(45) == Turn(0, 11, 0xe6db_99e5)
    && turn(46) == Turn(0, 16, 0x1fa2_7cf8)
    && turn(47) == Turn(0, 23, 0xc4ac_5665)
  }

  lemma ColumnsAre44()
    ensures Columns44(TurnOf)
  {
  }

  ghost predicate Columns48(turn: nat -> Turn) {
    && turn(48) == Turn(0x80, 6, 0xf429_2244)
    && turn(49) == Turn(0, 10, 0x432a_ff97)
    && turn(50) == Turn(0, 15, 0xab94_23a7)
    && turn(51) == Turn(0, 21, 0xfc93_a039)
  }

  lemma ColumnsAre48()
    ensures Columns48(TurnOf)
  {
  }

  ghost predicate Columns52(turn: nat -> Turn) {
    && turn(52) == Turn(0, 6, 0x655b_59c3)
    && turn(53) == Turn(0, 10, 0x8f0c_cc92)
    && turn(54) == Turn(0, 15, 0xffef_f47d)
    && turn(55) == Turn(0, 21, 0x8584_5dd1)
  }

  lemma ColumnsAre52()
    ensures Columns52(TurnOf)
  {
  }

  ghost predicate Columns56(turn: nat -> Turn) {
    && turn(56) == Turn(0, 6, 0x6fa8_7e4f)
    && turn(57) == Turn(0, 10, 0xfe2c_e6e0)
    && turn(58) == Turn(0, 15, 0xa301_4314)
    && turn(59) == Turn(0, 21, 0x4e08_11a1)
  }

  lemma ColumnsAre56()
    ensures Columns56(TurnOf)
  {
  }

  ghost predicate Columns60(turn: nat -> Turn) {
    && turn(60) == Turn(0, 6, 0xf753_7e82)
    && turn(61) == Turn(0, 10, 0xbd3a_f235)
    && turn(62) == Turn(0, 15, 0x2ad7_d2bb)
    && turn(63) == Turn(0, 21, 0xeb86_d391)
  }

  lemma ColumnsAre60()
    ensures Columns60(TurnOf)
  {
  }

  // ---------------------------------------------------------------- the 64 steps

  lemma Steps0(after: (nat, Regs) -> bool, turn: nat -> Turn)
    requires Steps(after, turn) && Columns0(turn) && after(0, Regs(0x6745_2301, 0xefcd_ab89, 0x98ba_dcfe, 0x1032_5476))
    ensures after(4, Regs(0xa520_2774, 0x1b16_3203, 0xe7f0_6b23, 0xf595_92dd))
  {
    Rotl7(0xd76a_a4f7);
    StepOnce(after, turn, 0, Regs(0x6745_2301, 0xefcd_ab89, 0x98ba_dcfe, 0x1032_5476), 0xa520_2774,
             Regs(0xa520_2774, 0xefcd_ab89, 0x98ba_dcfe, 0x1032_5476));
    Rotl12(0xb695_0756);
    StepOnce(after, turn, 1, Regs(0xa520_2774, 0xefcd_ab89, 0x98ba_dcfe, 0x1032_5476), 0xf595_92dd,
             Regs(0xa520_2774, 0xefcd_ab89, 0x98ba_dcfe, 0xf595_92dd));
    Rotl17(0x6c23_792d);
    StepOnce(after, turn, 2, Regs(0xa520_2774, 0xefcd_ab89, 0x98ba_dcfe, 0xf595_92dd), 0xe7f0_6b23,
             Regs(0xa520_2774, 0xefcd_ab89, 0xe7f0_6b23, 0xf595_92dd));
    Rotl22(0x971b_80cc);
    StepOnce(after, turn, 3, Regs(0xa520_2774, 0xefcd_ab89, 0xe7f0_6b23, 0xf595_92dd), 0x1b16_3203,
             Regs(0xa520_2774, 0x1b16_3203, 0xe7f0_6b23, 0xf595_92dd));
  }

  lemma Steps4(after: (nat, Regs) -> bool, turn: nat -> Turn)
    requires Steps(after, turn) && Columns4(turn) && after(4, Regs(0xa520_2774, 0x1b16_3203, 0xe7f0_6b23, 0xf595_92dd))
    ensures after(8, Regs(0x3203_3344, 0x9bc1_3ce9, 0xf5b1_58db, 0x2f35_d494))
  {
    Rotl7(0x822d_da02);
    StepOnce(after, turn, 4, Regs(0xa520_2774, 0x1b16_3203, 0xe7f0_6b23, 0xf595_92dd), 0x3203_3344,
             Regs(0x3203_3344, 0x1b16_3203, 0xe7f0_6b23, 0xf595_92dd));
    Rotl12(0x150f_d32a);
    StepOnce(after, turn, 5, Regs(0x3203_3344, 0x1b16_3203, 0xe7f0_6b23, 0xf595_92dd), 0x2f35_d494,
             Regs(0x3203_3344, 0x1b16_3203, 0xe7f0_6b23, 0x2f35_d494));
    Rotl17(0xc223_e33d);
    StepOnce(after, turn, 6, Regs(0x3203_3344, 0x1b16_3203, 0xe7f0_6b23, 0x2f35_d494), 0xf5b1_58db,
             Regs(0x3203_3344, 0x1b16_3203, 0xf5b1_58db, 0x2f35_d494));
    Rotl22(0x3f90_3a98);
    StepOnce(after, turn, 7, Regs(0x3203_3344, 0x1b16_3203, 0xf5b1_58db, 0x2f35_d494), 0x9bc1_3ce9,
             Regs(0x3203_3344, 0x9bc1_3ce9, 0xf5b1_58db, 0x2f35_d494));
  }

  lemma Steps8(after: (nat, Regs) -> bool, turn: nat -> Turn)
    requires Steps(after, turn) && Columns8(turn) && after(8, Regs(0x3203_3344, 0x9bc1_3ce9, 0xf5b1_58db, 0x2f35_d494))
    ensures after(12, Regs(0x3893_b991, 0x7076_8a29, 0xe1ef_0576, 0xfce4_a312))
  {
    Rotl7(0x5139_a4f9);
    StepOnce(after, turn, 8, Regs(0x3203_3344, 0x9bc1_3ce9, 0xf5b1_58db, 0x2f35_d494), 0x3893_b991,
             Regs(0x3893_b991, 0x9bc1_3ce9, 0xf5b1_58db, 0x2f35_d494));
    Rotl12(0x981c_450e);
    StepOnce(after, turn, 9, Regs(0x3893_b991, 0x9bc1_3ce9, 0xf5b1_58db, 0x2f35_d494), 0xfce4_a312,
             Regs(0x3893_b991, 0x9bc1_3ce9, 0xf5b1_58db, 0xfce4_a312));
    Rotl17(0x3132_7285);
    StepOnce(after, turn, 10, Regs(0x3893_b991, 0x9bc1_3ce9, 0xf5b1_58db, 0xfce4_a312), 0xe1ef_0576,
             Regs(0x3893_b991, 0x9bc1_3ce9, 0xe1ef_0576, 0xfce4_a312));
    Rotl22(0x1e12_ce3a);
    StepOnce(after, turn, 11, Regs(0x3893_b991, 0x9bc1_3ce9, 0xe1ef_0576, 0xfce4_a312), 0x7076_8a29,
             Regs(0x3893_b991, 0x7076_8a29, 0xe1ef_0576, 0xfce4_a312));
  }

  lemma Steps12(after: (nat, Regs) -> bool, turn: nat -> Turn)
    requires Steps(after, turn) && Columns12(turn)
    requires after(12, Regs(0x3893_b991, 0x7076_8a29, 0xe1ef_0576, 0xfce4_a312))
    ensures after(16, Regs(0xf56c_7cf1, 0xd681_9c6a, 0x5aa5_3f75, 0x3749_43a7))
  {
    Rotl7(0x9109_ebe5);
    StepOnce(after, turn, 12, Regs(0x3893_b991, 0x7076_8a29, 0xe1ef_0576, 0xfce4_a312), 0xf56c_7cf1,
             Regs(0xf56c_7cf1, 0x7076_8a29, 0xe1ef_0576, 0xfce4_a312));
    Rotl12(0x6b64_1dcc);
    StepOnce(after, turn, 13, Regs(0xf56c_7cf1, 0x7076_8a29, 0xe1ef_0576, 0xfce4_a312), 0x3749_43a7,
             Regs(0xf56c_7cf1, 0x7076_8a29, 0xe1ef_0576, 0x3749_43a7));
    Rotl17(0xfde7_11ad);
    StepOnce(after, turn, 14, Regs(0xf56c_7cf1, 0x7076_8a29, 0xe1ef_0576, 0x3749_43a7), 0x5aa5_3f75,
             Regs(0xf56c_7cf1, 0x7076_8a29, 0x5aa5_3f75, 0x3749_43a7));
    Rotl22(0x7173_d5ef);
    StepOnce(after, turn, 15, Regs(0xf56c_7cf1, 0x7076_8a29, 0x5aa5_3f75, 0x3749_43a7), 0xd681_9c6a,
             Regs(0xf56c_7cf1, 0xd681_9c6a, 0x5aa5_3f75, 0x3749_43a7));
  }

  lemma Steps16(after: (nat, Regs) -> bool, turn: nat -> Turn)
    requires Steps(after, turn) && Columns16(turn)
    requires after(16, Regs(0xf56c_7cf1, 0xd681_9c6a, 0x5aa5_3f75, 0x3749_43a7))
    ensures after(20, Regs(0x1c7d_7513, 0xbd78_2e17, 0xc095_f13a, 0x7bd5_7a3a))
  {
    Rotl5(0x4a2f_dec5);
    StepOnce(after, turn, 16, Regs(0xf56c_7cf1, 0xd681_9c6a, 0x5aa5_3f75, 0x3749_43a7), 0x1c7d_7513,
             Regs(0x1c7d_7513, 0xd681_9c6a, 0x5aa5_3f75, 0x3749_43a7));
    Rotl9(0x93af_ac02);
    StepOnce(after, turn, 17, Regs(0x1c7d_7513, 0xd681_9c6a, 0x5aa5_3f75, 0x3749_43a7), 0x7bd5_7a3a,
             Regs(0x1c7d_7513, 0xd681_9c6a, 0x5aa5_3f75, 0x7bd5_7a3a));
    Rotl14(0xdc01_1301);
    StepOnce(after, turn, 18, Regs(0x1c7d_7513, 0xd681_9c6a, 0x5aa5_3f75, 0x7bd5_7a3a), 0xc095_f13a,
             Regs(0x1c7d_7513, 0xd681_9c6a, 0xc095_f13a, 0x7bd5_7a3a));
    Rotl20(0x23cd_dfce);
    StepOnce(after, turn, 19, Regs(0x1c7d_7513, 0xd681_9c6a, 0xc095_f13a, 0x7bd5_7a3a), 0xbd78_2e17,
             Regs(0x1c7d_7513, 0xbd78_2e17, 0xc095_f13a, 0x7bd5_7a3a));
  }

  lemma Steps20(after: (nat, Regs) -> bool, turn: nat -> Turn)
    requires Steps(after, turn) && Columns20(turn)
    requires after(20, Regs(0x1c7d_7513, 0xbd78_2e17, 0xc095_f13a, 0x7bd5_7a3a))
    ensures after(24, Regs(0x3d1e_3e6c, 0xe422_531a, 0xeb41_643e, 0x68b7_b3e3))
  {
    Rotl5(0xabfd_3082);
    StepOnce(after, turn, 20, Regs(0x1c7d_7513, 0xbd78_2e17, 0xc095_f13a, 0x7bd5_7a3a), 0x3d1e_3e6c,
             Regs(0x3d1e_3e6c, 0xbd78_2e17, 0xc095_f13a, 0x7bd5_7a3a));
    Rotl9(0xbb95_ccba);
    StepOnce(after, turn, 21, Regs(0x3d1e_3e6c, 0xbd78_2e17, 0xc095_f13a, 0x7bd5_7a3a), 0x68b7_b3e3,
             Regs(0x3d1e_3e6c, 0xbd78_2e17, 0xc095_f13a, 0x68b7_b3e3));
    Rotl14(0xc16e_0a26);
    StepOnce(after, turn, 22, Regs(0x3d1e_3e6c, 0xbd78_2e17, 0xc095_f13a, 0x68b7_b3e3), 0xeb41_643e,
             Regs(0x3d1e_3e6c, 0xbd78_2e17, 0xeb41_643e, 0x68b7_b3e3));
    Rotl20(0x0eed_cf8e);
    StepOnce(after, turn, 23, Regs(0x3d1e_3e6c, 0xbd78_2e17, 0xeb41_643e, 0x68b7_b3e3), 0xe422_531a,
             Regs(0x3d1e_3e6c, 0xe422_531a, 0xeb41_643e, 0x68b7_b3e3));
  }

  lemma Steps24(after: (nat, Regs) -> bool, turn: nat -> Turn)
    requires Steps(after, turn) && Columns24(turn)
    requires after(24, Regs(0x3d1e_3e6c, 0xe422_531a, 0xeb41_643e, 0x68b7_b3e3))
    ensures after(28, Regs(0x306e_c122, 0xa057_2807, 0xa3c6_63da, 0xd28c_77c2))
  {
    Rotl5(0x4262_6370);
    StepOnce(after, turn, 24, Regs(0x3d1e_3e6c, 0xe422_531a, 0xeb41_643e, 0x68b7_b3e3), 0x306e_c122,
             Regs(0x306e_c122, 0xe422_531a, 0xeb41_643e, 0x68b7_b3e3));
    Rotl9(0x5051_0edb);
    StepOnce(after, turn, 25, Regs(0x306e_c122, 0xe422_531a, 0xeb41_643e, 0x68b7_b3e3), 0xd28c_77c2,
             Regs(0x306e_c122, 0xe422_531a, 0xeb41_643e, 0xd28c_77c2));
    Rotl14(0xb063_44e7);
    StepOnce(after, turn, 26, Regs(0x306e_c122, 0xe422_531a, 0xeb41_643e, 0xd28c_77c2), 0xa3c6_63da,
             Regs(0x306e_c122, 0xe422_531a, 0xa3c6_63da, 0xd28c_77c2));
    Rotl20(0x0c42_dfc9);
    StepOnce(after, turn, 27, Regs(0x306e_c122, 0xe422_531a, 0xa3c6_63da, 0xd28c_77c2), 0xa057_2807,
             Regs(0x306e_c122, 0xa057_2807, 0xa3c6_63da, 0xd28c_77c2));
  }

  lemma Steps28(after: (nat, Regs) -> bool, turn: nat -> Turn)
    requires Steps(after, turn) && Columns28(turn)
    requires after(28, Regs(0x306e_c122, 0xa057_2807, 0xa3c6_63da, 0xd28c_77c2))
    ensures after(32, Regs(0x1370_7036, 0xa220_5f1f, 0x1c31_c384, 0xae78_13db))
  {
    Rotl5(0x7b98_ca41);
    StepOnce(after, turn, 28, Regs(0x306e_c122, 0xa057_2807, 0xa3c6_63da, 0xd28c_77c2), 0x1370_7036,
             Regs(0x1370_7036, 0xa057_2807, 0xa3c6_63da, 0xd28c_77c2));
    Rotl9(0xd2cd_83d1);
    StepOnce(after, turn, 29, Regs(0x1370_7036, 0xa057_2807, 0xa3c6_63da, 0xd28c_77c2), 0xae78_13db,
             Regs(0x1370_7036, 0xa057_2807, 0xa3c6_63da, 0xae78_13db));
    Rotl14(0xbea5_b6e6);
    StepOnce(after, turn, 30, Regs(0x1370_7036, 0xa057_2807, 0xa3c6_63da, 0xae78_13db), 0x1c31_c384,
             Regs(0x1370_7036, 0xa057_2807, 0x1c31_c384, 0xae78_13db));
    Rotl20(0xe9b9_b85e);
    StepOnce(after, turn, 31, Regs(0x1370_7036, 0xa057_2807, 0x1c31_c384, 0xae78_13db), 0xa220_5f1f,
             Regs(0x1370_7036, 0xa220_5f1f, 0x1c31_c384, 0xae78_13db));
  }

  lemma Steps32(after: (nat, Regs) -> bool, turn: nat -> Turn)
    requires Steps(after, turn) && Columns32(turn)
    requires after(32, Regs(0x1370_7036, 0xa220_5f1f, 0x1c31_c384, 0xae78_13db))
    ensures after(36, Regs(0xdf63_eaa1, 0x004b_6669, 0x12f3_e755, 0xc368_9f5b))
  {
    Rotl4(0x23d4_38b8);
    StepOnce(after, turn, 32, Regs(0x1370_7036, 0xa220_5f1f, 0x1c31_c384, 0xae78_13db), 0xdf63_eaa1,
             Regs(0xdf63_eaa1, 0xa220_5f1f, 0x1c31_c384, 0xae78_13db));
    Rotl11(0x975c_8096);
    StepOnce(after, turn, 33, Regs(0xdf63_eaa1, 0xa220_5f1f, 0x1c31_c384, 0xae78_13db), 0xc368_9f5b,
             Regs(0xdf63_eaa1, 0xa220_5f1f, 0x1c31_c384, 0xc368_9f5b));
    Rotl16(0x47fa_4f8b);
    StepOnce(after, turn, 34, Regs(0xdf63_eaa1, 0xa220_5f1f, 0x1c31_c384, 0xc368_9f5b), 0x12f3_e755,
             Regs(0xdf63_eaa1, 0xa220_5f1f, 0x12f3_e755, 0xc368_9f5b));
    Rotl23(0xaefe_29da);
    StepOnce(after, turn, 35, Regs(0xdf63_eaa1, 0xa220_5f1f, 0x12f3_e755, 0xc368_9f5b), 0x004b_6669,
             Regs(0xdf63_eaa1, 0x004b_6669, 0x12f3_e755, 0xc368_9f5b));
  }

  lemma Steps36(after: (nat, Regs) -> bool, turn: nat -> Turn)
    requires Steps(after, turn) && Columns36(turn)
    requires after(36, Regs(0xdf63_eaa1, 0x004b_6669, 0x12f3_e755, 0xc368_9f5b))
    ensures after(40, Regs(0x5f7a_9b2e, 0xc5dc_8c15, 0x91ca_4cb7, 0xabc3_4e16))
  {
    Rotl4(0x55f2_f34c);
    StepOnce(after, turn, 36, Regs(0xdf63_eaa1, 0x004b_6669, 0x12f3_e755, 0xc368_9f5b), 0x5f7a_9b2e,
             Regs(0x5f7a_9b2e, 0x004b_6669, 0x12f3_e755, 0xc368_9f5b));
    Rotl11(0x5d09_8916);
    StepOnce(after, turn, 37, Regs(0x5f7a_9b2e, 0x004b_6669, 0x12f3_e755, 0xc368_9f5b), 0xabc3_4e16,
             Regs(0x5f7a_9b2e, 0x004b_6669, 0x12f3_e755, 0xabc3_4e16));
    Rotl16(0xfea1_e606);
    StepOnce(after, turn, 38, Regs(0x5f7a_9b2e, 0x004b_6669, 0x12f3_e755, 0xabc3_4e16), 0x91ca_4cb7,
             Regs(0x5f7a_9b2e, 0x004b_6669, 0x91ca_4cb7, 0xabc3_4e16));
    Rotl23(0x247e_bc68);
    StepOnce(after, turn, 39, Regs(0x5f7a_9b2e, 0x004b_6669, 0x91ca_4cb7, 0xabc3_4e16), 0xc5dc_8c15,
             Regs(0x5f7a_9b2e, 0xc5dc_8c15, 0x91ca_4cb7, 0xabc3_4e16));
  }

  lemma Steps40(after: (nat, Regs) -> bool, turn: nat -> Turn)
    requires Steps(after, turn) && Columns40(turn)
    requires after(40, Regs(0x5f7a_9b2e, 0xc5dc_8c15, 0x91ca_4cb7, 0xabc3_4e16))
    ensures after(44, Regs(0x4497_169d, 0x0fe3_2453, 0xfd95_f243, 0x76fd_93d4))
  {
    Rotl4(0x87eb_a8a8);
    StepOnce(after, turn, 40, Regs(0x5f7a_9b2e, 0xc5dc_8c15, 0x91ca_4cb7, 0xabc3_4e16), 0x4497_169d,
             Regs(0x4497_169d, 0xc5dc_8c15, 0x91ca_4cb7, 0xabc3_4e16));
    Rotl11(0xa6e6_4ccf);
    StepOnce(after, turn, 41, Regs(0x4497_169d, 0xc5dc_8c15, 0x91ca_4cb7, 0xabc3_4e16), 0x76fd_93d4,
             Regs(0x4497_169d, 0xc5dc_8c15, 0x91ca_4cb7, 0x76fd_93d4));
    Rotl16(0x5e6f_8698);
    StepOnce(after, turn, 42, Regs(0x4497_169d, 0xc5dc_8c15, 0x91ca_4cb7, 0x76fd_93d4), 0xfd95_f243,
             Regs(0x4497_169d, 0xc5dc_8c15, 0xfd95_f243, 0x76fd_93d4));
    Rotl23(0x9a64_2024);
    StepOnce(after, turn, 43, Regs(0x4497_169d, 0xc5dc_8c15, 0xfd95_f243, 0x76fd_93d4), 0x0fe3_2453,
             Regs(0x4497_169d, 0x0fe3_2453, 0xfd95_f243, 0x76fd_93d4));
  }

  lemma Steps44(after: (nat, Regs) -> bool, turn: nat -> Turn)
    requires Steps(after, turn) && Columns44(turn)
    requires after(44, Regs(0x4497_169d, 0x0fe3_2453, 0xfd95_f243, 0x76fd_93d4))
    ensures after(48, Regs(0x3f55_edfd, 0xca7d_2dbd, 0x68d8_4ea2, 0x22a3_1f54))
  {
    Rotl4(0xa2f7_2c9a);
    StepOnce(after, turn, 44, Regs(0x4497_169d, 0x0fe3_2453, 0xfd95_f243, 0x76fd_93d4), 0x3f55_edfd,
             Regs(0x3f55_edfd, 0x0fe3_2453, 0xfd95_f243, 0x76fd_93d4));
    Rotl11(0x2afc_69a6);
    StepOnce(after, turn, 45, Regs(0x3f55_edfd, 0x0fe3_2453, 0xfd95_f243, 0x76fd_93d4), 0x22a3_1f54,
             Regs(0x3f55_edfd, 0x0fe3_2453, 0xfd95_f243, 0x22a3_1f54));
    Rotl16(0x2f4e_4635);
    StepOnce(after, turn, 46, Regs(0x3f55_edfd, 0x0fe3_2453, 0xfd95_f243, 0x22a3_1f54), 0x68d8_4ea2,
             Regs(0x3f55_edfd, 0x0fe3_2453, 0x68d8_4ea2, 0x22a3_1f54));
    Rotl23(0x49be_36c3);
    StepOnce(after, turn, 47, Regs(0x3f55_edfd, 0x0fe3_2453, 0x68d8_4ea2, 0x22a3_1f54), 0xca7d_2dbd,
             Regs(0x3f55_edfd, 0xca7d_2dbd, 0x68d8_4ea2, 0x22a3_1f54));
  }

  lemma Steps48(after: (nat, Regs) -> bool, turn: nat -> Turn)
    requires Steps(after, turn) && Columns48(turn)
    requires after(48, Regs(0x3f55_edfd, 0xca7d_2dbd, 0x68d8_4ea2, 0x22a3_1f54))
    ensures after(52, Regs(0x93aa_2577, 0x561e_0689, 0xcd85_b8cb, 0x1688_dc85))
  {
    Rotl6(0xeb24_b3de);
    StepOnce(after, turn, 48, Regs(0x3f55_edfd, 0xca7d_2dbd, 0x68d8_4ea2, 0x22a3_1f54), 0x93aa_2577,
             Regs(0x93aa_2577, 0xca7d_2dbd, 0x68d8_4ea2, 0x22a3_1f54));
    Rotl10(0xc3a0_b7ad);
    StepOnce(after, turn, 49, Regs(0x93aa_2577, 0xca7d_2dbd, 0x68d8_4ea2, 0x22a3_1f54), 0x1688_dc85,
             Regs(0x93aa_2577, 0xca7d_2dbd, 0x68d8_4ea2, 0x1688_dc85));
    Rotl15(0xb88d_6df9);
    StepOnce(after, turn, 50, Regs(0x93aa_2577, 0xca7d_2dbd, 0x68d8_4ea2, 0x1688_dc85), 0xcd85_b8cb,
             Regs(0x93aa_2577, 0xca7d_2dbd, 0xcd85_b8cb, 0x1688_dc85));
    Rotl21(0xc26d_f444);
    StepOnce(after, turn, 51, Regs(0x93aa_2577, 0xca7d_2dbd, 0xcd85_b8cb, 0x1688_dc85), 0x561e_0689,
             Regs(0x93aa_2577, 0x561e_0689, 0xcd85_b8cb, 0x1688_dc85));
  }

  lemma Steps52(after: (nat, Regs) -> bool, turn: nat -> Turn)
    requires Steps(after, turn) && Columns52(turn)
    requires after(52, Regs(0x93aa_2577, 0x561e_0689, 0xcd85_b8cb, 0x1688_dc85))
    ensures after(56, Regs(0x5625_a114, 0x1e77_fa61, 0x392a_d0d0, 0x3450_f42b))
  {
    Rotl6(0x2c00_1e6a);
    StepOnce(after, turn, 52, Regs(0x93aa_2577, 0x561e_0689, 0xcd85_b8cb, 0x1688_dc85), 0x5625_a114,
             Regs(0x5625_a114, 0x561e_0689, 0xcd85_b8cb, 0x1688_dc85));
    Rotl10(0xc5f7_8ad4);
    StepOnce(after, turn, 53, Regs(0x5625_a114, 0x561e_0689, 0xcd85_b8cb, 0x1688_dc85), 0x3450_f42b,
             Regs(0x5625_a114, 0x561e_0689, 0xcd85_b8cb, 0x3450_f42b));
    Rotl15(0xb94a_09b3);
    StepOnce(after, turn, 54, Regs(0x5625_a114, 0x561e_0689, 0xcd85_b8cb, 0x3450_f42b), 0x392a_d0d0,
             Regs(0x5625_a114, 0x561e_0689, 0x392a_d0d0, 0x3450_f42b));
    Rotl21(0x694c_8f2a);
    StepOnce(after, turn, 55, Regs(0x5625_a114, 0x561e_0689, 0x392a_d0d0, 0x3450_f42b), 0x1e77_fa61,
             Regs(0x5625_a114, 0x1e77_fa61, 0x392a_d0d0, 0x3450_f42b));
  }

  lemma Steps56(after: (nat, Regs) -> bool, turn: nat -> Turn)
    requires Steps(after, turn) && Columns56(turn)
    requires after(56, Regs(0x5625_a114, 0x1e77_fa61, 0x392a_d0d0, 0x3450_f42b))
    ensures after(60, Regs(0x474a_9c8c, 0x3013_0182, 0x3659_4b14, 0xdfce_00bc))
  {
    Rotl6(0xaca3_4a88);
    StepOnce(after, turn, 56, Regs(0x5625_a114, 0x1e77_fa61, 0x392a_d0d0, 0x3450_f42b), 0x474a_9c8c,
             Regs(0x474a_9c8c, 0x1e77_fa61, 0x392a_d0d0, 0x3450_f42b));
    Rotl10(0x0c26_20d9);
    StepOnce(after, turn, 57, Regs(0x474a_9c8c, 0x1e77_fa61, 0x392a_d0d0, 0x3450_f42b), 0xdfce_00bc,
             Regs(0x474a_9c8c, 0x1e77_fa61, 0x392a_d0d0, 0xdfce_00bc));
    Rotl15(0x94b0_ad16);
    StepOnce(after, turn, 58, Regs(0x474a_9c8c, 0x1e77_fa61, 0x392a_d0d0, 0xdfce_00bc), 0x3659_4b14,
             Regs(0x474a_9c8c, 0x1e77_fa61, 0x3659_4b14, 0xdfce_00bc));
    Rotl21(0xcdb3_77cd);
    StepOnce(after, turn, 59, Regs(0x474a_9c8c, 0x1e77_fa61, 0x3659_4b14, 0xdfce_00bc), 0x3013_0182,
             Regs(0x474a_9c8c, 0x3013_0182, 0x3659_4b14, 0xdfce_00bc));
  }

  lemma Steps60(after: (nat, Regs) -> bool, turn: nat -> Turn)
    requires Steps(after, turn) && Columns60(turn)
    requires after(60, Regs(0x474a_9c8c, 0x3013_0182, 0x3659_4b14, 0xdfce_00bc))
    ensures after(64, Regs(0x7246_fad3, 0x14e4_5506, 0xff4e_a3eb, 0x6e10_a476))
  {
    Rotl6(0x4508_cfe5);
    StepOnce(after, turn, 60, Regs(0x474a_9c8c, 0x3013_0182, 0x3659_4b14, 0xdfce_00bc), 0x7246_fad3,
             Regs(0x7246_fad3, 0x3013_0182, 0x3659_4b14, 0xdfce_00bc));
    Rotl10(0x68fe_f26a);
    StepOnce(after, turn, 61, Regs(0x7246_fad3, 0x3013_0182, 0x3659_4b14, 0xdfce_00bc), 0x6e10_a476,
             Regs(0x7246_fad3, 0x3013_0182, 0x3659_4b14, 0x6e10_a476));
    Rotl15(0xfeeb_227b);
    StepOnce(after, turn, 62, Regs(0x7246_fad3, 0x3013_0182, 0x3659_4b14, 0x6e10_a476), 0xff4e_a3eb,
             Regs(0x7246_fad3, 0x3013_0182, 0xff4e_a3eb, 0x6e10_a476));
    Rotl21(0xad88_d8ac);
    StepOnce(after, turn, 63, Regs(0x7246_fad3, 0x3013_0182, 0xff4e_a3eb, 0x6e10_a476), 0x14e4_5506,
             Regs(0x7246_fad3, 0x14e4_5506, 0xff4e_a3eb, 0x6e10_a476));
  }

  lemma Round1(after: (nat, Regs) -> bool)
    requires Steps(after, TurnOf) && after(0, Regs(0x6745_2301, 0xefcd_ab89, 0x98ba_dcfe, 0x1032_5476))
    ensures after(16, Regs(0xf56c_7cf1, 0xd681_9c6a, 0x5aa5_3f75, 0x3749_43a7))
  {
    ColumnsAre0();
    ColumnsAre4();
    ColumnsAre8();
    ColumnsAre12();
    Steps0(after, TurnOf);
    Steps4(after, TurnOf);
    Steps8(after, TurnOf);
    Steps12(after, TurnOf);
  }

  lemma Round2(after: (nat, Regs) -> bool)
    requires Steps(after, TurnOf) && after(16, Regs(0xf56c_7cf1, 0xd681_9c6a, 0x5aa5_3f75, 0x3749_43a7))
    ensures after(32, Regs(0x1370_7036, 0xa220_5f1f, 0x1c31_c384, 0xae78_13db))
  {
    ColumnsAre16();
    ColumnsAre20();
    ColumnsAre24();
    ColumnsAre28();
    Steps16(after, TurnOf);
    Steps20(after, TurnOf);
    Steps24(after, TurnOf);
    Steps28(after, TurnOf);
  }

  lemma Round3(after: (nat, Regs) -> bool)
    requires Steps(after, TurnOf) && after(32, Regs(0x1370_7036, 0xa220_5f1f, 0x1c31_c384, 0xae78_13db))
    ensures after(48, Regs(0x3f55_edfd, 0xca7d_2dbd, 0x68d8_4ea2, 0x22a3_1f54))
  {
    ColumnsAre32();
    ColumnsAre36();
    ColumnsAre40();
    ColumnsAre44();
    Steps32(after, TurnOf);
    Steps36(after, TurnOf);
    Steps40(after, TurnOf);
    Steps44(after, TurnOf);
  }

  lemma Round4(after: (nat, Regs) -> bool)
    requires Steps(after, TurnOf) && after(48, Regs(0x3f55_edfd, 0xca7d_2dbd, 0x68d8_4ea2, 0x22a3_1f54))
    ensures after(64, Regs(0x7246_fad3, 0x14e4_5506, 0xff4e_a3eb, 0x6e10_a476))
  {
    ColumnsAre48();
    ColumnsAre52();
    ColumnsAre56();
    ColumnsAre60();
    Steps48(after, TurnOf);
    Steps52(after, TurnOf);
    Steps56(after, TurnOf);
    Steps60(after, TurnOf);
  }

  lemma Rounds(after: (nat, Regs) -> bool)
    requires Steps(after, TurnOf) && after(0, INIT())
    ensures after(64, Regs(0x7246_fad3, 0x14e4_5506, 0xff4e_a3eb, 0x6e10_a476))
  {
    Round1(after);
    Round2(after);
    Round3(after);
    Round4(after);
  }

  lemma EmptyCompressed()
    ensures Compress(INIT(), EmptyBlock()) == Regs(0xd98c_1dd4, 0x04b2_008f, 0x9809_80e9, 0x7e42_f8ec)
  {
    StepsAre();
    Rounds(After);
    assert 4 * |EmptyBlock()| == 64;
  }

  // ---------------------------------------------------------------- the digest

  lemma EmptyPadded()
    ensures Padded([]) == [0x80] + Zeros(63)
  {
    assert LengthField([]) == Zeros(8) by {
      var none: Bytes := [];
      assert 8 * |none| % 0x1_0000_0000_0000_0000 == 0;
      forall i | 0 <= i < 8 ensures LengthByte(0, i) == 0 {
        NoLength(i);
      }
    }
    assert PadZeros(0) == 55;
  }

  lemma {:induction false} NoLength(i: nat)
    ensures LengthByte(0, i) == 0
  {
    if i > 0 {
      NoLength(i - 1);
    }
  }

  lemma MarkedWord()
    ensures WordOf([0x80, 0, 0, 0]) == 0x80 && WordOf([0, 0, 0, 0]) == 0
  {
    ToBitsBack(0x80);
    assert (0x80 as bv8) as int == 0x80;
  }

  lemma EmptyWords(b: Bytes)
    requires b == [0x80] + Zeros(63)
    ensures WordsOf(b) == EmptyBlock()
  {
    MarkedWord();
    forall i | 0 <= i < 16 ensures WordsOf(b)[i] == EmptyBlock()[i] {
      if i == 0 {
        assert b[4 * i..4 * i + 4] == [0x80, 0, 0, 0];
      } else {
        assert b[4 * i..4 * i + 4] == [0, 0, 0, 0];
      }
    }
  }

  /** MD5 ("") = d41d8cd98f00b204e9800998ecf8427e. */
  lemma EmptyDigest()
    ensures Digest([]) ==
      [0xd4, 0x1d, 0x8c, 0xd9, 0x8f, 0x00, 0xb2, 0x04, 0xe9, 0x80, 0x09, 0x98, 0xec, 0xf8, 0x42, 0x7e]
  {
    var b: Bytes := [0x80] + Zeros(63);
    EmptyPadded();
    EmptyWords(b);
    EmptyCompressed();
    assert b[..|b| - 64] == [] && b[|b| - 64..] == b;
    Written();
  }

  lemma Written()
    ensures Output(Regs(0xd98c_1dd4, 0x04b2_008f, 0x9809_80e9, 0x7e42_f8ec))
      == [0xd4, 0x1d, 0x8c, 0xd9, 0x8f, 0x00, 0xb2, 0x04, 0xe9, 0x80, 0x09, 0x98, 0xec, 0xf8, 0x42, 0x7e]
  {
  }
}
