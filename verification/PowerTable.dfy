// external/double-conversion/cached-powers.cc: the table of cached powers, and
// what 64 more bits of each power show: every entry is within half a unit of its
// power of ten, and no double is just below a power of ten.
module PowerTable {
  import opened Powers
  import opened DiyFps
  import opened CachedPowers
  import opened DecimalMeaning
  import opened Ieee
  import opened Logarithms
  import opened Rounding
  import opened Underflow

  const TWO_25: int := 0x200_0000
  const TWO_26: int := 0x400_0000
  const TWO_62: int := 0x4000_0000_0000_0000
  const TWO_75: int := 0x800_0000_0000_0000_0000

  // An entry; its power of ten, between low and High in units of
  // 2^(binaryExponent - 64); and the significands of the largest doubles below
  // this power and the next seven ones.
  datatype Row = Row(significand: uint64, binaryExponent: int, low: nat, slack: nat,
                     q0: nat, q1: nat, q2: nat, q3: nat, q4: nat, q5: nat, q6: nat, q7: nat) {
    function High(): nat { low + slack }

    predicate WithinHalfUnit()
    {
      && TWO_63 <= significand
      && (2 * significand - 1) * TWO_63 <= low
      && High() <= (2 * significand + 1) * TWO_63
    }

    // The next row is 10^8 times this one.
    predicate FollowedBy(next: Row)
    {
      || (next.binaryExponent == binaryExponent + 26 && IsTimes(next, TWO_26))
      || (next.binaryExponent == binaryExponent + 27 && IsTimes(next, 2 * TWO_26))
    }

    predicate IsTimes(next: Row, p: nat)
    {
      p * next.low <= 100_000_000 * low && 100_000_000 * High() <= p * next.High()
    }

    // 'times' of these units are above q of 53 bits, not just above, and q does
    // not begin with 28 ones.
    predicate Clear(q: nat, times: nat, p: nat)
    {
      && HIDDEN_BIT <= q < 2 * HIDDEN_BIT - TWO_25
      && (IsClear(times * low, times * High(), q, p) || IsClear(times * low, times * High(), q, 2 * p))
    }
  }

  // The number between a and b is more than a 2^-62nd above q * p, and below
  // (q + 1) * p.
  predicate IsClear(a: nat, b: nat, q: nat, p: nat)
  {
    b < (q + 1) * p && b <= (a - q * p) * TWO_62
  }

  // These powers of ten are doubles.
  predicate IsExact(k: int) { 0 <= k <= 22 }

  function DecimalExponent(i: int): int { MIN_DECIMAL_EXPONENT + DECIMAL_EXPONENT_DISTANCE * i }

  predicate TensClear(r: Row, d: int)
  {
    && (IsExact(d) || r.Clear(r.q0, 1, 1 * TWO_75))
    && (IsExact(d + 1) || r.Clear(r.q1, 5, 4 * TWO_75))
    && (IsExact(d + 2) || r.Clear(r.q2, 25, 16 * TWO_75))
    && (IsExact(d + 3) || r.Clear(r.q3, 125, 64 * TWO_75))
    && (IsExact(d + 4) || r.Clear(r.q4, 625, 512 * TWO_75))
    && (IsExact(d + 5) || r.Clear(r.q5, 3125, 2048 * TWO_75))
    && (IsExact(d + 6) || r.Clear(r.q6, 15625, 8192 * TWO_75))
    && (IsExact(d + 7) || r.Clear(r.q7, 78125, 65536 * TWO_75))
  }

  predicate Checked(r: Row, next: Row, d: int)
  {
    r.WithinHalfUnit() && r.FollowedBy(next) && TensClear(r, d)
  }

  // The entries, from 10^-348 to 10^340; the row behind them only ends the chain.
  const ROW_0 := Row(0xfa8f_d5a0_081c_0288, -1220, 0xfa8f_d5a0_081c_0288_1732_c869_cd60_e453, 1,
    0x1f51fab4010380, 0x13933cb080a230, 0x18780bdca0cabc, 0x1e960ed3c8fd6b,
    0x131dc9445d9e63, 0x17e53b957505fb, 0x1dde8a7ad2477a, 0x12ab168cc36cac)
  const ROW_1 := Row(0xbaae_e17f_a23e_bf76, -1193, 0xbaae_e17f_a23e_bf76_5d79_bcf0_0d2d_f649, 2,
    0x1755dc2ff447d7, 0x1d2b533bf159cd, 0x123b140576d820, 0x16c9d906d48e28,
    0x1c7c4f4889b1b3, 0x11cdb18d560f0f, 0x16411df0ab92d3, 0x1bd1656cd67788)
  const ROW_2 := Row(0x8b16_fb20_3055_ac76, -1166, 0x8b16_fb20_3055_ac76_4c3b_cb50_21af_cc30, 3,
    0x1162df64060ab5, 0x15bb973d078d62, 0x1b2a7d0c4970bb, 0x10fa8e27ade675,
    0x153931b1996012, 0x1a877e1dffb817, 0x1094aed2bfd30e, 0x14b9da876fc7d2)
  const ROW_3 := Row(0xcf42_894a_5dce_35ea, -1140, 0xcf42_894a_5dce_35ea_5206_4cac_8286_75b7, 5,
    0x19e851294bb9c6, 0x103132b9cf541c, 0x143d7f68432923, 0x194cdf4253f36c,
    0x1fa01712e8f047, 0x13c40e6bd1962c, 0x18b51206c5fbb7, 0x1ee25688777aa5)
  const ROW_4 := Row(0x9a6b_b0aa_5565_3b2d, -1113, 0x9a6b_b0aa_5565_3b2d_47b2_33c9_2125_366d, 4,
    0x134d76154aaca7, 0x1820d39a9d57d1, 0x1e29088144adc5, 0x12d9a550caec9b,
    0x17900ea4fda7c2, 0x1d74124e3d11b2, 0x12688b70e62b0f, 0x1702ae4d1fb5d3)
  const ROW_5 := Row(0xe61a_cf03_3d1a_45df, -1087, 0xe61a_cf03_3d1a_45df_6fb9_2487_298e_33bb, 6,
    0x1cc359e067a348, 0x11fa182c40c60d, 0x16789e3750f790, 0x1c16c5c5253575,
    0x118e3b9b374169, 0x15f1ca820511c3, 0x1b6e3d22865634, 0x1124e63593f5e0)
  const ROW_6 := Row(0xab70_fe17_c79a_c6ca, -1060, 0xab70_fe17_c79a_c6ca_6dbd_630a_48aa_f404, 6,
    0x156e1fc2f8f358, 0x1ac9a7b3b7302f, 0x10be08d0527e1d, 0x14ed8b04671da4,
    0x1a28edc580e50d, 0x1059949b708f28, 0x146ff9c24cb2f2, 0x198bf832dfdfaf)
  const ROW_7 := Row(0xff77_b1fc_bebc_dc4f, -1034, 0xff77_b1fc_bebc_dc4f_25e8_e89c_13bb_0f77, 10,
    0x1feef63f97d79b, 0x13f559e7bee6c1, 0x18f2b061aea071, 0x1f2f5c7a1a488d,
    0x137d99cc506d58, 0x185d003f6488ae, 0x1e74404f3daada, 0x1308a831868ac8)
  const ROW_8 := Row(0xbe56_91ef_416b_d60c, -1007, 0xbe56_91ef_416b_d60c_23cc_986b_c656_d551, 8,
    0x17cad23de82d7a, 0x1dbd86cd6238d9, 0x129674405d6387, 0x173c115074bc69,
    0x1d0b15a491eb84, 0x1226ed86db3332, 0x16b0a8e891ffff, 0x1c5cd322b67fff)
  const ROW_9 := Row(0x8dd0_1fad_907f_fc3c, -980, 0x8dd0_1fad_907f_fc3b_ae3d_a7d9_7f67_92e1, 7,
    0x11ba03f5b20fff, 0x162884f31e93ff, 0x1bb2a62fe638ff, 0x114fa7ddefe39f,
    0x15a391d56bdc87, 0x1b0c764ac6d3a9, 0x10e7c9eebc4449, 0x1521bc6a6b555c)
  const ROW_10 := Row(0xd351_5c28_3155_9a83, -954, 0xd351_5c28_3155_9a83_0d5a_5b44_ca87_3dff, 12,
    0x1a6a2b85062ab3, 0x10825b3323dab0, 0x14a2f1ffecd15c, 0x19cbae7fe805b3,
    0x101f4d0ff1038f, 0x14272053ed4473, 0x1930e868e89590, 0x1f7d228322baf5)
  const ROW_11 := Row(0x9d71_ac8f_ada6_c9b5, -927, 0x9d71_ac8f_ada6_c9b5_6f77_3fc3_603d_b4a5, 10,
    0x13ae3591f5b4d9, 0x1899c2f673220f, 0x1ec033b40fea93, 0x1338205089f29c,
    0x18062864ac6f43, 0x1e07b27dd78b13, 0x12c4cf8ea6b6ec, 0x177603725064a7)
  const ROW_12 := Row(0xea9c_2277_23ee_8bcb, -901, 0xea9c_2277_23ee_8bcb_465e_15a9_79c1_cad5, 16,
    0x1d53844ee47dd1, 0x125432b14ecea2, 0x16e93f5da2824b, 0x1ca38f350b22de,
    0x11e6398126f5cb, 0x165fc7e170b33d, 0x1bf7b9d9cce00d, 0x117ad428200c08)
  const ROW_13 := Row(0xaecc_4991_4078_536d, -874, 0xaecc_4991_4078_536d_58fa_e9f7_7388_6e13, 13,
    0x15d98932280f0a, 0x1b4feb7eb212cd, 0x1111f32f2f4bc0, 0x15566ffafb1eb0,
    0x1aac0bf9b9e65c, 0x10ab877c142ff9, 0x14d6695b193bf8, 0x1a0c03b1df8af6)
  const ROW_14 := Row(0x823c_1279_5db6_ce57, -847, 0x823c_1279_5db6_ce57_76c5_3d08_d6b7_0853, 11,
    0x1047824f2bb6d9, 0x145962e2f6a490, 0x196fbb9bb44db4, 0x1fcbaa82a16121,
    0x13df4a91a4dcb4, 0x18d71d360e13e2, 0x1f0ce4839198da, 0x13680ed23aff88)
  const ROW_15 := Row(0xc210_9436_4dfb_5637, -821, 0xc210_9436_4dfb_5636_9859_15fc_12f5_42dd, 17,
    0x18421286c9bf6a, 0x1e5297287c2f45, 0x12f39e794d9d8b, 0x17b08617a104ee,
    0x1d9ca79d894629, 0x1281e8c275cbda, 0x172262f3133ed0, 0x1ceafbafd80e84)
  const ROW_16 := Row(0x9096_ea6f_3848_984f, -794, 0x9096_ea6f_3848_984f_3ff0_d2c8_5def_761b, 14,
    0x1212dd4de70913, 0x169794a160cb57, 0x1c3d79c9b8fe2d, 0x11a66c1e139edc,
    0x16100725988693, 0x1b9408eefea838, 0x113c85955f2923, 0x158ba6fab6f36c)
  const ROW_17 := Row(0xd774_85cb_2582_3ac7, -768, 0xd774_85cb_2582_3ac7_7d63_3293_366b_8281, 22,
    0x1aee90b964b047, 0x10d51a73deee2c, 0x150a6110d6a9b7, 0x1a4cf9550c5425,
    0x10701bd527b497, 0x148c22ca71a1bd, 0x19af2b7d0e0a2c, 0x100d7b2e28c65b)
  const ROW_18 := Row(0xa086_cfcd_97bf_97f4, -741, 0xa086_cfcd_97bf_97f3_80e8_a40e_ccd2_289d, 17,
    0x1410d9f9b2f7f2, 0x191510781fb5ef, 0x1f5a549627a36b, 0x139874ddd8c623,
    0x187e92154ef7ac, 0x1e9e369aa2b597, 0x1322e220a5b17e, 0x17eb9aa8cf1dde)
  const ROW_19 := Row(0xef34_0a98_172a_ace5, -715, 0xef34_0a98_172a_ace4_86fb_8971_16c8_7c29, 26,
    0x1de6815302e555, 0x12b010d3e1cf55, 0x175c1508da432a, 0x1d331a4b10d3f5,
    0x123ff06eea8479, 0x16cfec8aa52597, 0x1c83e7ad4e6efd, 0x11d270cc51055e)
  const ROW_20 := Row(0xb238_67fb_2a35_b28e, -688, 0xb238_67fb_2a35_b28d_e99e_619a_4f23_aa3a, 21,
    0x16470cff6546b6, 0x1bd8d03f3e9863, 0x11678227871f3e, 0x15c162b168e70e,
    0x1b31bb5dc320d1, 0x10ff151a99f482, 0x153eda614071a3, 0x1a8e90f9908e0c)
  const ROW_21 := Row(0x84c8_d4df_d2c6_3f3b, -661, 0x84c8_d4df_d2c6_3f3b_29ec_d9f4_0041_e06c, 17,
    0x10991a9bfa58c7, 0x14bf6142f8eef9, 0x19ef3993b72ab8, 0x103583fc527ab3,
    0x1442e4fb671960, 0x19539e3a40dfb8, 0x1fa885c8d117a6, 0x13c9539d82aec7)
  const ROW_22 := Row(0xc5dd_4427_1ad3_cdba, -635, 0xc5dd_4427_1ad3_cdba_40ef_f1e1_853f_29f2, 26,
    0x18bba884e35a79, 0x1eea92a61c3118, 0x13529ba7d19eaf, 0x18274291c6065a,
    0x1e3113363787f1, 0x12deac01e2b4f6, 0x179657025b6234, 0x1d7becc2f23ac1)
  const ROW_23 := Row(0x936b_9fce_bb25_c996, -608, 0x936b_9fce_bb25_c995_cab1_0dd9_00be_ec2c, 20,
    0x126d73f9d764b9, 0x1708d0f84d3de7, 0x1ccb0536608d61, 0x11fee341fc585c,
    0x167e9c127b6e74, 0x1c1e43171a4a11, 0x1192e9ee706e4a, 0x15f7a46a0c89dd)
  const ROW_24 := Row(0xdbac_6c24_7d62_a584, -582, 0xdbac_6c24_7d62_a583_df45_f746_b74a_bf2b, 31,
    0x1b758d848fac54, 0x11297872d9cbb4, 0x1573d68f903ea2, 0x1ad0cc33744e4a,
    0x10c27fa028b0ee, 0x14f31f8832dd2a, 0x1a2fe76a3f9474, 0x105df0a267bcc9)
  const ROW_25 := Row(0xa3ab_6658_0d5f_daf6, -555, 0xa3ab_6658_0d5f_daf5_c13e_60d0_d2e0_ebaf, 24,
    0x14756ccb01abfb, 0x1992c7fdc216fa, 0x1ff779fd329cb8, 0x13faac3e3fa1f3,
    0x18f9574dcf8a70, 0x1f37ad21436d0c, 0x1382cc34ca2427, 0x18637f41fcad31)
  const ROW_26 := Row(0xf3e2_f893_dec3_f126, -529, 0xf3e2_f893_dec3_f126_5a89_dba3_c3ef_ccea, 36,
    0x1e7c5f127bd87e, 0x130dbb6b8d674e, 0x17d12a4670c122, 0x1dc574d80cf16b,
    0x129b69070816e2, 0x17424348ca1c9b, 0x1d12d41afca3c2, 0x122bc490dde659)
  const ROW_27 := Row(0xb5b5_ada8_aaff_80b8, -502, 0xb5b5_ada8_aaff_80b8_0d81_9992_1324_56ae, 27,
    0x16b6b5b5155ff0, 0x1c6463225ab7ec, 0x11bebdf578b2f3, 0x162e6d72d6dfb0,
    0x1bba08cf8c979c, 0x11544581b7dec1, 0x15a956e225d672, 0x1b13ac9aaf4c0e)
  const ROW_28 := Row(0x8762_5f05_6c7c_4a8b, -475, 0x8762_5f05_6c7c_4a8b_1147_1cd7_64ad_4969, 21,
    0x10ec4be0ad8f89, 0x15275ed8d8f36b, 0x1a71368f0f3046, 0x1086c219697e2c,
    0x14a8729fc3ddb7, 0x19d28f47b4d524, 0x1023998cd10537, 0x142c7ff0054684)
  const ROW_29 := Row(0xc9bc_ff60_34c1_3053, -449, 0xc9bc_ff60_34c1_3052_fc89_b393_dd02_f0a7, 32,
    0x19379fec069826, 0x1f8587e7083e2f, 0x13b374f06526dd, 0x18a0522c7e7095,
    0x1ec866b79e0cba, 0x133d4032c2c7f4, 0x180c903f7379f1, 0x1e0fb44f50586e)
  const ROW_30 := Row(0x964e_858c_91ba_2655, -422, 0x964e_858c_91ba_2655_3a6a_07f8_d510_f865, 24,
    0x12c9d0b1923744, 0x177c44ddf6c515, 0x1d5b561574765b, 0x125915cd68c9f9,
    0x16ef5b40c2fc77, 0x1cab3210f3bb95, 0x11eaff4a98553d, 0x1665bf1d3e6a8c)
  const ROW_31 := Row(0xdff9_7724_7029_7ebd, -396, 0xdff9_7724_7029_7ebd_5978_7e2b_93bc_56e6, 37,
    0x1bff2ee48e052f, 0x117f7d4ed8c33d, 0x15df5ca28ef40d, 0x1b5733cb32b110,
    0x1116805effaeaa, 0x155c2076bf9a55, 0x1ab328946f80ea, 0x10aff95cc5b092)
  const ROW_32 := Row(0xa6df_bd9f_b8e5_b88f, -369, 0xa6df_bd9f_b8e5_b88e_cb4c_cd50_0f6b_b946, 28,
    0x14dbf7b3f71cb7, 0x1a12f5a0f4e3e4, 0x104bd984990e6f, 0x145ecfe5bf520a,
    0x197683df2f268d, 0x1fd424d6faf030, 0x13e497065cd61e, 0x18ddbcc7f40ba6)
  const ROW_33 := Row(0xf8a9_5fcf_8874_7d94, -343, 0xf8a9_5fcf_8874_7d94_75a4_4c63_97ce_9116, 43,
    0x1f152bf9f10e8f, 0x136d3b7c36a919, 0x18488a5b445360, 0x1e5aacf2156838,
    0x12f8ac174d6123, 0x17b6d71d20b96c, 0x1da48ce468e7c7, 0x1286d80ec190dc)
  const ROW_34 := Row(0xb944_7093_8fa8_9bcf, -316, 0xb944_7093_8fa8_9bce_f808_e40e_8d5b_3e5a, 33,
    0x17288e1271f513, 0x1cf2b1970e7258, 0x1217aefe690777, 0x169d9abe034955,
    0x1c45016d841baa, 0x11ab20e472914a, 0x1615e91d8f359d, 0x1b9b6364f30304)
  const ROW_35 := Row(0x8a08_f0f8_bf0f_156b, -289, 0x8a08_f0f8_bf0f_156b_1b8e_9ecb_641b_58f3, 26,
    0x11411e1f17e1e2, 0x159165a6ddda5b, 0x1af5bf109550f2, 0x10d9976a5d5297,
    0x150ffd44f4a73d, 0x1a53fc9631d10c, 0x10747ddddf22a7, 0x14919d5556eb51)
  const ROW_36 := Row(0xcdb0_2555_6531_31b6, -263, 0xcdb0_2555_6531_31b6_3792_f412_cb06_793a, 39,
    0x19b604aaaca626, 0x1011c2eaabe7d7, 0x141633a556e1cd, 0x191bc08eac9a41,
    0x1f62b0b257c0d1, 0x139dae6f76d883, 0x18851a0b548ea3, 0x1ea6608e29b24c)
  const ROW_37 := Row(0x993f_e2c6_d07b_7fac, -236, 0x993f_e2c6_d07b_7fab_e546_a803_8efe_401a, 30,
    0x1327fc58da0f6f, 0x17f1fb6f10934b, 0x1dee7a4ad4b81e, 0x12b50c6ec4f313,
    0x17624f8a762fd8, 0x1d3ae36d13bbce, 0x1244ce242c5560, 0x16d601ad376ab9)
  const ROW_38 := Row(0xe45c_10c4_2a2b_3b06, -210, 0xe45c_10c4_2a2b_3b05_8cb8_9a7d_b77c_5054, 46,
    0x1c8b8218854567, 0x11d7314f534b60, 0x164cfda3281e38, 0x1be03d0bf225c6,
    0x116c262777579c, 0x15c72fb1552d83, 0x1b38fb9daa78e4, 0x11039d428a8b8e)
  const ROW_39 := Row(0xaa24_2499_6973_92d3, -183, 0xaa24_2499_6973_92d2_dde5_0bd1_d5d0_b9d8, 36,
    0x154484932d2e72, 0x1a95a5b7f87a0e, 0x109d8792fb4c49, 0x14c4e977ba1f5b,
    0x19f623d5a8a732, 0x1039d66589687f, 0x14484bfeebc29f, 0x195a5efea6b347)
  const ROW_40 := Row(0xfd87_b5f2_8300_ca0e, -157, 0xfd87_b5f2_8300_ca0d_8bca_9d6e_1888_53e1, 55,
    0x1fb0f6be506019, 0x13ce9a36f23c0f, 0x18c240c4aecb13, 0x1ef2d0f5da7dd8,
    0x1357c299a88ea7, 0x182db34012b251, 0x1e392010175ee5, 0x12e3b40a0e9b4f)
  const ROW_41 := Row(0xbce5_0864_9211_1aeb, -130, 0xbce5_0864_9211_1aea_88f4_bb1c_a6bc_f56f, 42,
    0x179ca10c924223, 0x1d83c94fb6d2ac, 0x12725dd1d243ab, 0x170ef54646d496,
    0x1cd2b297d889bc, 0x1203af9ee75615, 0x16849b86a12b9b, 0x1c25c268497681)
  const ROW_42 := Row(0x8cbc_cc09_6f50_88cc, -103, 0x8cbc_cc09_6f50_88cb_f93f_87b7_442e_45c4, 32,
    0x119799812dea11, 0x15fd7fe1796495, 0x1b7cdfd9d7bdba, 0x112e0be826d694,
    0x15798ee2308c39, 0x1ad7f29abcaf48, 0x10c6f7a0b5ed8d, 0x14f8b588e368f0)
  const ROW_43 := Row(0xd1b7_1758_e219_652c, -77, 0xd1b7_1758_e219_652b_d3c3_6113_404e_a490, 49,
    0x1a36e2eb1c432c, 0x10624dd2f1a9fb, 0x147ae147ae147a, 0x19999999999999,
    0x1fffffffffffff, 0x13ffffffffffff, 0x18ffffffffffff, 0x1f3fffffffffff)
  const ROW_44 := Row(0x9c40_0000_0000_0000, -50, 0x9c3f_ffff_ffff_ffff_ffff_ffff_ffff_ffed, 38,
    0x1387ffffffffff, 0x1869ffffffffff, 0x1e847fffffffff, 0x1312cfffffffff,
    0x17d783ffffffff, 0x1dcd64ffffffff, 0x12a05f1fffffff, 0x174876e7ffffff)
  const ROW_45 := Row(0xe8d4_a510_0000_0000, -24, 0xe8d4_a50f_ffff_ffff_ffff_ffff_ffff_ffe3, 58,
    0x1d1a94a1ffffff, 0x12309ce53fffff, 0x16bcc41e8fffff, 0x1c6bf52633ffff,
    0x11c37937e07fff, 0x16345785d89fff, 0x1bc16d674ec7ff, 0x1158e460913cff)
  const ROW_46 := Row(0xad78_ebc5_ac62_0000, 3, 0xad78_ebc5_ac61_ffff_ffff_ffff_ffff_ffea, 44,
    0x15af1d78b58c3f, 0x1b1ae4d6e2ef4f, 0x10f0cf064dd591, 0x152d02c7e14af6,
    0x1a784379d99db4, 0x108b2a2c280290, 0x14adf4b7320334, 0x19d971e4fe8401)
  const ROW_47 := Row(0x813f_3978_f894_0984, 30, 0x813f_3978_f894_0984_3fff_ffff_ffff_ffef, 34,
    0x1027e72f1f1281, 0x1431e0fae6d721, 0x193e5939a08ce9, 0x1f8def8808b024,
    0x13b8b5b5056e16, 0x18a6e32246c99c, 0x1ed09bead87c03, 0x13426172c74d82)
  const ROW_48 := Row(0xc097_ce7b_c907_15b3, 56, 0xc097_ce7b_c907_15b3_4b9f_0fff_ffff_ffe6, 52,
    0x1812f9cf7920e2, 0x1e17b84357691b, 0x12ced32a16a1b1, 0x178287f49c4a1d,
    0x1d6329f1c35ca4, 0x125dfa371a19e6, 0x16f578c4e0a060, 0x1cb2d6f618c878)
  const ROW_49 := Row(0x8f7e_32ce_7bea_5c70, 83, 0x8f7e_32ce_7bea_5c6f_e482_0023_a1ff_ffec, 40,
    0x11efc659cf7d4b, 0x166bb7f0435c9e, 0x1c06a5ec5433c6, 0x118427b3b4a05b,
    0x15e531a0a1c872, 0x1b5e7e08ca3a8f, 0x111b0ec57e6499, 0x1561d276ddfdc0)
  const ROW_50 := Row(0xd5d2_38a4_abe9_8068, 109, 0xd5d2_38a4_abe9_8068_72a4_9045_98d6_d862, 60,
    0x1aba4714957d30, 0x10b46c6cdd6e3e, 0x14e1878814c9cd, 0x1a19e96a19fc40,
    0x105031e2503da8, 0x14643e5ae44d12, 0x197d4df19d6057, 0x1fdca16e04b86d)
  const ROW_51 := Row(0x9f4f_2726_179a_2245, 136, 0x9f4f_2726_179a_2245_01d7_6242_2c94_657a, 46,
    0x13e9e4e4c2f344, 0x18e45e1df3b015, 0x1f1d75a5709c1a, 0x13726987666190,
    0x184f03e93ff9f4, 0x1e62c4e38ff872, 0x12fdbb0e39fb47, 0x17bd29d1c87a19)
  const ROW_52 := Row(0xed63_a231_d4c4_fb27, 162, 0xed63_a231_d4c4_fb27_4ca7_aaa8_63ee_4bbb, 69,
    0x1dac74463a989f, 0x128bc8abe49f63, 0x172ebad6ddc73c, 0x1cfa698c95390b,
    0x121c81f7dd43a7, 0x16a3a275d49491, 0x1c4c8b1349b9b5, 0x11afd6ec0e1411)
  const ROW_53 := Row(0xb0de_6538_8cc8_ada8, 189, 0xb0de_6538_8cc8_ada8_3b25_a55f_4329_4bb2, 52,
    0x161bcca7119915, 0x1ba2bfd0d5ff5b, 0x1145b7e285bf98, 0x159725db272f7f,
    0x1afcef51f0fb5e, 0x10de1593369d1b, 0x15159af8044462, 0x1a5b01b605557a)
  const ROW_54 := Row(0x83c7_088e_1aab_65db, 216, 0x83c7_088e_1aab_65db_7926_67c6_da79_e0e6, 40,
    0x1078e111c3556c, 0x14971956342ac7, 0x19bcdfabc13579, 0x10160bcb58c16c,
    0x141b8ebe2ef1c7, 0x1922726dbaae39, 0x1f6b0f092959c7, 0x13a2e965b9d81c)
  const ROW_55 := Row(0xc45d_1df9_4271_1d9a, 242, 0xc45d_1df9_4271_1d9a_3ba5_d0bd_324f_8376, 60,
    0x188ba3bf284e23, 0x1eae8caef261ac, 0x132d17ed577d0b, 0x17f85de8ad5c4e,
    0x1df67562d8b362, 0x12ba095dc7701d, 0x17688bb5394c25, 0x1d42aea2879f2e)
  const ROW_56 := Row(0x924d_692c_a61b_e758, 269, 0x924d_692c_a61b_e758_593c_2626_705f_9c40, 45,
    0x1249ad2594c37c, 0x16dc186ef9f45c, 0x1c931e8ab87173, 0x11dbf316b346e7,
    0x1652efdc6018a1, 0x1be7abd3781eca, 0x1170cb642b133e, 0x15ccfe3d35d80e)
  const ROW_57 := Row(0xda01_ee64_1a70_8dea, 295, 0xda01_ee64_1a70_8de9_e80e_6f48_20cc_9474, 68,
    0x1b403dcc834e11, 0x1108269fd210cb, 0x154a3047c694fd, 0x1a9cbc59b83a3d,
    0x10a1f5b8132466, 0x14ca732617ed7f, 0x19fd0fef9de8df, 0x103e29f5c2b18b)
  const ROW_58 := Row(0xa26d_a399_9aef_774a, 322, 0xa26d_a399_9aef_7749_e3be_5e33_0f38_f084, 52,
    0x144db473335dee, 0x1961219000356a, 0x1fb969f40042c5, 0x13d3e2388029bb,
    0x18c8dac6a0342a, 0x1efb1178484134, 0x135ceaeb2d28c0, 0x183425a5f872f1)
  const ROW_59 := Row(0xf209_787b_b47d_6b85, 348, 0xf209_787b_b47d_6b84_c067_8c5d_bd23_a473, 78,
    0x1e412f0f768fad, 0x12e8bd69aa19cc, 0x17a2ecc414a03f, 0x1d8ba7f519c84f,
    0x127748f9301d31, 0x17151b377c247e, 0x1cda62055b2d9d, 0x12087d4358fc82)
  const ROW_60 := Row(0xb454_e4a1_79dd_1877, 375, 0xb454_e4a1_79dd_1877_29ba_be45_98c3_11de, 59,
    0x168a9c942f3ba3, 0x1c2d43b93b0a8b, 0x119c4a53c4e697, 0x16035ce8b6203d,
    0x1b843422e3a84c, 0x1132a095ce492f, 0x157f48bb41db7b, 0x1adf1aea12525a)
  const ROW_61 := Row(0x865b_8692_5b9b_c5c2, 402, 0x865b_8692_5b9b_c5c2_0b8a_2392_ba45_a99c, 45,
    0x10cb70d24b7378, 0x14fe4d06de5056, 0x1a3de04895e46c, 0x1066ac2d5daec3,
    0x14805738b51a74, 0x19a06d06e26112, 0x100444244d7cab, 0x1405552d60dbd6)
  const ROW_62 := Row(0xc835_53c5_c896_5d3d, 428, 0xc835_53c5_c896_5d3d_6f92_8294_94e5_aca6, 68,
    0x1906aa78b912cb, 0x1f485516e7577e, 0x138d352e5096af, 0x18708279e4bc5a,
    0x1e8ca3185deb71, 0x1317e5ef3ab327, 0x17dddf6b095ff0, 0x1dd55745cbb7ec)
  const ROW_63 := Row(0x952a_b45c_fa97_a0b3, 455, 0x952a_b45c_fa97_a0b2_dd94_5a74_7bf2_616a, 52,
    0x12a5568b9f52f4, 0x174eac2e8727b1, 0x1d22573a28f19d, 0x12357684599702,
    0x16c2d4256ffcc2, 0x1c73892ecbfbf3, 0x11c835bd3f7d78, 0x163a432c8f5cd6)
  const ROW_64 := Row(0xde46_9fbd_99a0_5fe3, 481, 0xde46_9fbd_99a0_5fe3_6fca_5f8e_d9ae_f395, 78,
    0x1bc8d3f7b3340b, 0x115d847ad00087, 0x15b4e5998400a9, 0x1b221effe500d3,
    0x10f5535fef2084, 0x1532a837eae8a5, 0x1a7f5245e5a2ce, 0x108f936baf85c1)
  const ROW_65 := Row(0xa59b_c234_db39_8c25, 508, 0xa59b_c234_db39_8c25_43fa_b983_7e69_9079, 59,
    0x14b378469b6731, 0x19e056584240fd, 0x102c35f729689e, 0x14374374f3c2c6,
    0x1945145230b377, 0x1f965966bce055, 0x13bdf7e0360c35, 0x18ad75d8438f43)
  const ROW_66 := Row(0xf6c6_9a72_a398_9f5c, 534, 0xf6c6_9a72_a398_9f5b_8aad_549e_5727_3d1a, 89,
    0x1ed8d34e547313, 0x13478410f4c7ec, 0x1819651531f9e7, 0x1e1fbe5a7e7861,
    0x12d3d6f88f0b3c, 0x1788ccb6b2ce0c, 0x1d6affe45f818f, 0x1262dfeebbb0f9)
  const ROW_67 := Row(0xb7dc_bf53_54e9_bece, 561, 0xb7dc_bf53_54e9_bece_0c11_ed6d_538a_eb0f, 67,
    0x16fb97ea6a9d37, 0x1cba7de5054485, 0x11f48eaf234ad3, 0x1671b25aec1d88,
    0x1c0e1ef1a724ea, 0x1188d357087712, 0x15eb082cca94d7, 0x1b65ca37fd3a0d)
  const ROW_68 := Row(0x88fc_f317_f222_41e2, 588, 0x88fc_f317_f222_41e2_441f_ece3_bdf8_1eeb, 51,
    0x111f9e62fe4448, 0x156785fbbdd55a, 0x1ac1677aad4ab0, 0x10b8e0acac4eae,
    0x14e718d7d7625a, 0x1a20df0dcd3af0, 0x10548b68a044d6, 0x1469ae42c8560c)
  const ROW_69 := Row(0xcc20_ce9b_d35c_78a5, 614, 0xcc20_ce9b_d35c_78a5_31ec_038d_f7b4_41d0, 77,
    0x198419d37a6b8f, 0x1fe52048590672, 0x13ef342d37a407, 0x18eb0138858d09,
    0x1f25c186a6f04c, 0x137798f428562f, 0x18557f31326bbb, 0x1e6adefd7f06aa)
  const ROW_70 := Row(0x9816_5af3_7b21_53df, 641, 0x9816_5af3_7b21_53de_c372_7a33_7a8b_702f, 58,
    0x1302cb5e6f642a, 0x17c37e360b3d35, 0x1db45dc38e0c82, 0x1290ba9a38c7d1,
    0x1734e940c6f9c5, 0x1d022390f8b837, 0x1221563a9b7322, 0x16a9abc9424feb)
  const ROW_71 := Row(0xe2a0_b5dc_971f_303a, 667, 0xe2a0_b5dc_971f_303a_2e44_ae64_840f_d5f5, 87,
    0x1c5416bb92e3e6, 0x11b48e353bce6f, 0x1621b1c28ac20b, 0x1baa1e332d728e,
    0x114a52dffc6799, 0x159ce797fb817f, 0x1b04217dfa61df, 0x10e294eebc7d2b)
  const ROW_72 := Row(0xa8d9_d153_5ce3_b396, 694, 0xa8d9_d153_5ce3_b396_7f18_39a7_41a1_4cee, 66,
    0x151b3a2a6b9c76, 0x1a6208b5068394, 0x107d457124123c, 0x149c96cd6d16cb,
    0x19c3bc80c85c7e, 0x101a55d07d39cf, 0x1420eb449c8842, 0x19292615c3aa53)
  const ROW_73 := Row(0xfb9b_7cd9_a4a7_443c, 720, 0xfb9b_7cd9_a4a7_443c_1698_40ef_017d_a382, 99,
    0x1f736f9b3494e8, 0x13a825c100dd11, 0x18922f31411455, 0x1eb6bafd91596b,
    0x133234de7ad7e2, 0x17fec216198ddb, 0x1dfe729b9ff152, 0x12bf07a143f6d3)
  const ROW_74 := Row(0xbb76_4c4c_a7a4_4410, 747, 0xbb76_4c4c_a7a4_440f_9d6d_1ad4_1abe_37ce, 75,
    0x176ec98994f488, 0x1d4a7bebfa31aa, 0x124e8d737c5f0a, 0x16e230d05b76cd,
    0x1c9abd04725480, 0x11e0b622c774d0, 0x1658e3ab795204, 0x1bef1c9657a685)
  const ROW_75 := Row(0x8bab_8eef_b640_9c1a, 774, 0x8bab_8eef_b640_9c1a_1ad0_89b6_c2f7_5473, 57,
    0x117571ddf6c813, 0x15d2ce55747a18, 0x1b4781ead1989e, 0x110cb132c2ff63,
    0x154fdd7f73bf3b, 0x1aa3d4df50af0a, 0x10a6650b926d66, 0x14cffe4e7708c0)
  const ROW_76 := Row(0xd01f_ef10_a657_842c, 800, 0xd01f_ef10_a657_842c_2d2b_7569_b043_2d5c, 86,
    0x1a03fde214caf0, 0x10427ead4cfed6, 0x14531e58a03e8b, 0x1967e5eec84e2e,
    0x1fc1df6a7a61ba, 0x13d92ba28c7d14, 0x18cf768b2f9c59, 0x1f03542dfb8370)
  const ROW_77 := Row(0x9b10_a4e5_e991_3129, 827, 0x9b10_a4e5_e991_3128_ca7c_f2b4_191c_8307, 66,
    0x1362149cbd3226, 0x183a99c3ec7eaf, 0x1e494034e79e5b, 0x12edc82110c2f9,
    0x17a93a2954f3b7, 0x1d9388b3aa30a5, 0x127c35704a5e67, 0x171b42cc5cf601)
  const ROW_78 := Row(0xe710_9bfb_a19c_0c9d, 853, 0xe710_9bfb_a19c_0c9d_0cc5_1267_0a78_3aa5, 100,
    0x1ce2137f743381, 0x120d4c2fa8a030, 0x16909f3b92c83d, 0x1c34c70a777a4c,
    0x11a0fc668aac6f, 0x16093b802d578b, 0x1b8b8a6038ad6e, 0x1137367c236c65)
  const ROW_79 := Row(0xac28_20d9_623b_f429, 880, 0xac28_20d9_623b_f429_5463_45fa_9fbd_cd20, 76,
    0x1585041b2c477e, 0x1ae64521f7595e, 0x10cfeb353a97da, 0x1503e602893dd1,
    0x1a44df832b8d45, 0x106b0bb1fb384b, 0x1485ce9e7a065e, 0x19a742461887f6)
  const ROW_80 := Row(0x8044_4b5e_7aa7_cf85, 907, 0x8044_4b5e_7aa7_cf85_7980_d163_cf5b_8198, 57,
    0x1008896bcf54f9, 0x140aabc6c32a38, 0x190d56b873f4c6, 0x1f50ac6690f1f8,
    0x13926bc01a973b, 0x187706b0213d09, 0x1e94c85c298c4c, 0x131cfd3999f7af)
  const ROW_81 := Row(0xbf21_e440_03ac_dd2d, 933, 0xbf21_e440_03ac_dd2c_e047_0a63_e6bd_569a, 86,
    0x17e43c8800759b, 0x1ddd4baa009302, 0x12aa4f4a405be1, 0x1754e31cd072d9,
    0x1d2a1be4048f90, 0x123a516e82d9ba, 0x16c8e5ca239028, 0x1c7b1f3cac7433)
  const ROW_82 := Row(0x8e67_9c2f_5e44_ff8f, 960, 0x8e67_9c2f_5e44_ff8f_570f_09ea_a7ea_7629, 65,
    0x11ccf385ebc89f, 0x1640306766bac7, 0x1bd03c81406979, 0x116225d0c841ec,
    0x15baaf44fa5267, 0x1b295b1638e701, 0x10f9d8ede39060, 0x15384f295c7478)
  const ROW_83 := Row(0xd433_179d_9c8c_b841, 986, 0xd433_179d_9c8c_b841_5fa6_0692_a461_51bd, 97,
    0x1a8662f3b39197, 0x1093fdd8503afe, 0x14b8fd4e6449bd, 0x19e73ca1fd5c2d,
    0x103085e53e599c, 0x143ca75e8df003, 0x194bd136316c04, 0x1f9ec583bdc705)
  const ROW_84 := Row(0x9e19_db92_b4e3_1ba9, 1013, 0x9e19_db92_b4e3_1ba9_6c07_a2c2_6a83_46ae, 73,
    0x13c33b72569c63, 0x18b40a4eec437c, 0x1ee10ce2a7545b, 0x134ca80da894b9,
    0x181fd21112b9e7, 0x1e27c695576861, 0x12d8dc1d56a13c, 0x178f1324ac498b)
  const ROW_85 := Row(0xeb96_bf6e_badf_77d9, 1039, 0xeb96_bf6e_badf_77d8_e41c_5bd1_8c57_e85a, 110,
    0x1d72d7edd75bee, 0x1267c6f4a69975, 0x1701b8b1d03fd2, 0x1cc226de444fc7,
    0x11f9584aeab1dc, 0x1677ae5da55e53, 0x1c1599f50eb5e8, 0x118d80392931b1)
  const ROW_86 := Row(0xaf87_023b_9bf0_ee6b, 1066, 0xaf87_023b_9bf0_ee6a_eb8f_ad7c_7f86_808c, 83,
    0x15f0e047737e1d, 0x1b6d1859505da5, 0x11242f37d23a87, 0x156d3b05c6c929,
    0x1ac889c7387b73, 0x10bd561c834d28, 0x14ecaba3a42072, 0x1a27d68c8d288e)
  const ROW_87 := Row(0x82c7_30be_c1ca_c961, 1093, 0x82c7_30be_c1ca_c960_8f26_fdb7_c3c3_0a1f, 62, 0, 0, 0, 0, 0, 0, 0, 0)

  function TableRow(i: int): Row
  {
    match i
    case 0 => ROW_0 case 1 => ROW_1 case 2 => ROW_2 case 3 => ROW_3
    case 4 => ROW_4 case 5 => ROW_5 case 6 => ROW_6 case 7 => ROW_7
    case 8 => ROW_8 case 9 => ROW_9 case 10 => ROW_10 case 11 => ROW_11
    case 12 => ROW_12 case 13 => ROW_13 case 14 => ROW_14 case 15 => ROW_15
    case 16 => ROW_16 case 17 => ROW_17 case 18 => ROW_18 case 19 => ROW_19
    case 20 => ROW_20 case 21 => ROW_21 case 22 => ROW_22 case 23 => ROW_23
    case 24 => ROW_24 case 25 => ROW_25 case 26 => ROW_26 case 27 => ROW_27
    case 28 => ROW_28 case 29 => ROW_29 case 30 => ROW_30 case 31 => ROW_31
    case 32 => ROW_32 case 33 => ROW_33 case 34 => ROW_34 case 35 => ROW_35
    case 36 => ROW_36 case 37 => ROW_37 case 38 => ROW_38 case 39 => ROW_39
    case 40 => ROW_40 case 41 => ROW_41 case 42 => ROW_42 case 43 => ROW_43
    case 44 => ROW_44 case 45 => ROW_45 case 46 => ROW_46 case 47 => ROW_47
    case 48 => ROW_48 case 49 => ROW_49 case 50 => ROW_50 case 51 => ROW_51
    case 52 => ROW_52 case 53 => ROW_53 case 54 => ROW_54 case 55 => ROW_55
    case 56 => ROW_56 case 57 => ROW_57 case 58 => ROW_58 case 59 => ROW_59
    case 60 => ROW_60 case 61 => ROW_61 case 62 => ROW_62 case 63 => ROW_63
    case 64 => ROW_64 case 65 => ROW_65 case 66 => ROW_66 case 67 => ROW_67
    case 68 => ROW_68 case 69 => ROW_69 case 70 => ROW_70 case 71 => ROW_71
    case 72 => ROW_72 case 73 => ROW_73 case 74 => ROW_74 case 75 => ROW_75
    case 76 => ROW_76 case 77 => ROW_77 case 78 => ROW_78 case 79 => ROW_79
    case 80 => ROW_80 case 81 => ROW_81 case 82 => ROW_82 case 83 => ROW_83
    case 84 => ROW_84 case 85 => ROW_85 case 86 => ROW_86
    case _ => ROW_87
  }

  lemma Rows0()
    ensures Checked(ROW_0, ROW_1, -348) && Checked(ROW_1, ROW_2, -340) && Checked(ROW_2, ROW_3, -332)
  {
  }

  lemma Rows3()
    ensures Checked(ROW_3, ROW_4, -324) && Checked(ROW_4, ROW_5, -316) && Checked(ROW_5, ROW_6, -308)
  {
  }

  lemma Rows6()
    ensures Checked(ROW_6, ROW_7, -300) && Checked(ROW_7, ROW_8, -292) && Checked(ROW_8, ROW_9, -284)
  {
  }

  lemma Rows9()
    ensures Checked(ROW_9, ROW_10, -276) && Checked(ROW_10, ROW_11, -268) && Checked(ROW_11, ROW_12, -260)
  {
  }

  lemma Rows12()
    ensures Checked(ROW_12, ROW_13, -252) && Checked(ROW_13, ROW_14, -244) && Checked(ROW_14, ROW_15, -236)
  {
  }

  lemma Rows15()
    ensures Checked(ROW_15, ROW_16, -228) && Checked(ROW_16, ROW_17, -220) && Checked(ROW_17, ROW_18, -212)
  {
  }

  lemma Rows18()
    ensures Checked(ROW_18, ROW_19, -204) && Checked(ROW_19, ROW_20, -196) && Checked(ROW_20, ROW_21, -188)
  {
  }

  lemma Rows21()
    ensures Checked(ROW_21, ROW_22, -180) && Checked(ROW_22, ROW_23, -172) && Checked(ROW_23, ROW_24, -164)
  {
  }

  lemma Rows24()
    ensures Checked(ROW_24, ROW_25, -156) && Checked(ROW_25, ROW_26, -148) && Checked(ROW_26, ROW_27, -140)
  {
  }

  lemma Rows27()
    ensures Checked(ROW_27, ROW_28, -132) && Checked(ROW_28, ROW_29, -124) && Checked(ROW_29, ROW_30, -116)
  {
  }

  lemma Rows30()
    ensures Checked(ROW_30, ROW_31, -108) && Checked(ROW_31, ROW_32, -100) && Checked(ROW_32, ROW_33, -92)
  {
  }

  lemma Rows33()
    ensures Checked(ROW_33, ROW_34, -84) && Checked(ROW_34, ROW_35, -76) && Checked(ROW_35, ROW_36, -68)
  {
  }

  lemma Rows36()
    ensures Checked(ROW_36, ROW_37, -60) && Checked(ROW_37, ROW_38, -52) && Checked(ROW_38, ROW_39, -44)
  {
  }

  lemma Rows39()
    ensures Checked(ROW_39, ROW_40, -36) && Checked(ROW_40, ROW_41, -28) && Checked(ROW_41, ROW_42, -20)
  {
  }

  lemma Rows42()
    ensures Checked(ROW_42, ROW_43, -12) && Checked(ROW_43, ROW_44, -4) && Checked(ROW_44, ROW_45, 4)
  {
  }

  lemma Rows45()
    ensures Checked(ROW_45, ROW_46, 12) && Checked(ROW_46, ROW_47, 20) && Checked(ROW_47, ROW_48, 28)
  {
  }

  lemma Rows48()
    ensures Checked(ROW_48, ROW_49, 36) && Checked(ROW_49, ROW_50, 44) && Checked(ROW_50, ROW_51, 52)
  {
  }

  lemma Rows51()
    ensures Checked(ROW_51, ROW_52, 60) && Checked(ROW_52, ROW_53, 68) && Checked(ROW_53, ROW_54, 76)
  {
  }

  lemma Rows54()
    ensures Checked(ROW_54, ROW_55, 84) && Checked(ROW_55, ROW_56, 92) && Checked(ROW_56, ROW_57, 100)
  {
  }

  lemma Rows57()
    ensures Checked(ROW_57, ROW_58, 108) && Checked(ROW_58, ROW_59, 116) && Checked(ROW_59, ROW_60, 124)
  {
  }

  lemma Rows60()
    ensures Checked(ROW_60, ROW_61, 132) && Checked(ROW_61, ROW_62, 140) && Checked(ROW_62, ROW_63, 148)
  {
  }

  lemma Rows63()
    ensures Checked(ROW_63, ROW_64, 156) && Checked(ROW_64, ROW_65, 164) && Checked(ROW_65, ROW_66, 172)
  {
  }

  lemma Rows66()
    ensures Checked(ROW_66, ROW_67, 180) && Checked(ROW_67, ROW_68, 188) && Checked(ROW_68, ROW_69, 196)
  {
  }

  lemma Rows69()
    ensures Checked(ROW_69, ROW_70, 204) && Checked(ROW_70, ROW_71, 212) && Checked(ROW_71, ROW_72, 220)
  {
  }

  lemma Rows72()
    ensures Checked(ROW_72, ROW_73, 228) && Checked(ROW_73, ROW_74, 236) && Checked(ROW_74, ROW_75, 244)
  {
  }

  lemma Rows75()
    ensures Checked(ROW_75, ROW_76, 252) && Checked(ROW_76, ROW_77, 260) && Checked(ROW_77, ROW_78, 268)
  {
  }

  lemma Rows78()
    ensures Checked(ROW_78, ROW_79, 276) && Checked(ROW_79, ROW_80, 284) && Checked(ROW_80, ROW_81, 292)
  {
  }

  lemma Rows81()
    ensures Checked(ROW_81, ROW_82, 300) && Checked(ROW_82, ROW_83, 308) && Checked(ROW_83, ROW_84, 316)
  {
  }

  lemma Rows84()
    ensures Checked(ROW_84, ROW_85, 324) && Checked(ROW_85, ROW_86, 332) && Checked(ROW_86, ROW_87, 340)
  {
  }

  lemma RowChecked(i: nat)
    requires i < 87
    ensures Checked(TableRow(i), TableRow(i + 1), DecimalExponent(i))
  {
    hide Checked;
    if i < 18 {
      Rows0();
      Rows3();
      Rows6();
      Rows9();
      Rows12();
      Rows15();
    } else if i < 36 {
      Rows18();
      Rows21();
      Rows24();
      Rows27();
      Rows30();
      Rows33();
    } else if i < 54 {
      Rows36();
      Rows39();
      Rows42();
      Rows45();
      Rows48();
      Rows51();
    } else if i < 72 {
      Rows54();
      Rows57();
      Rows60();
      Rows63();
      Rows66();
      Rows69();
    } else {
      Rows72();
      Rows75();
      Rows78();
      Rows81();
      Rows84();
    }
  }

  // ---------- Every row encloses its power of ten ----------

  ghost predicate Encloses(low: nat, high: nat, x: int, d: int)
  {
    BinaryValue(low, x) <= RPow(10, d) <= BinaryValue(high, x)
  }

  lemma FirstRow()
    ensures Encloses(TableRow(0).low, TableRow(0).High(), TableRow(0).binaryExponent - 64, -348)
  {
    hide Pow, RPow;
    Five342();
    Five9();
    Underflow.Twos();
    TwoTo64();
    PowAdd(5, 342, 6);
    PowAdd(2, 64, 64);
    PowAdd(2, 128, 8);
    PowAdd(2, 800, 136);
    TwoTo8();
    DecimalAgainstBinary(1, 348, TableRow(0).low, 1284);
    DecimalAgainstBinary(1, 348, TableRow(0).High(), 1284);
  }

  // Bounds of ten times eight, in units that are 2^n times as large.
  lemma NextBounds(low: nat, high: nat, x: int, d: int, low': nat, high': nat, n: nat, p: nat)
    requires Encloses(low, high, x, d) && p == Pow(2, n)
    requires p * low' <= 100_000_000 * low && 100_000_000 * high <= p * high'
    ensures Encloses(low', high', x + n, d + 8)
  {
    hide RPow, Pow;
    TenTo8();
    RPowNat(10, 8);
    RPowAdd(10, 8, d);
    RPowNat(2, n);
    RPowAdd(2, n, x);
    RPowPos(2, x);
    var u, t, q := RPow(2, x), RPow(10, d), p as real;
    ScaledBound(low' as real, q, 100_000_000.0, low as real, u, t, (p * low') as real);
    ScaledBound(high' as real, q, 100_000_000.0, high as real, u, t, (p * high') as real);
    RealMul(p, low');
    RealMul(p, high');
  }

  lemma ScaledBound(b: real, q: real, c: real, a: real, u: real, t: real, qb: real)
    requires 0.0 < u && 0.0 < c && qb == q * b
    ensures qb <= c * a && a * u <= t ==> b * (q * u) <= c * t
    ensures c * a <= qb && t <= a * u ==> c * t <= b * (q * u)
  {
    assert b * (q * u) == qb * u;
    assert c * a * u == c * (a * u);
    if qb <= c * a && a * u <= t {
      RealMulLe(qb, c * a, u);
      RealMulLe(a * u, t, c);
    }
    if c * a <= qb && t <= a * u {
      RealMulLe(c * a, qb, u);
      RealMulLe(t, a * u, c);
    }
  }

  lemma NextRow(a: Row, b: Row, d: int)
    requires a.FollowedBy(b) && Encloses(a.low, a.High(), a.binaryExponent - 64, d)
    ensures Encloses(b.low, b.High(), b.binaryExponent - 64, d + 8)
  {
    hide Pow, RPow, Encloses;
    TwoTo27();
    PowStep(2, 26);
    if b.binaryExponent == a.binaryExponent + 26 {
      NextBounds(a.low, a.High(), a.binaryExponent - 64, d, b.low, b.High(), 26, TWO_26);
    } else {
      NextBounds(a.low, a.High(), a.binaryExponent - 64, d, b.low, b.High(), 27, 2 * TWO_26);
    }
  }

  lemma {:induction false} RowEncloses(i: nat)
    requires i < 87
    ensures Encloses(TableRow(i).low, TableRow(i).High(), TableRow(i).binaryExponent - 64, DecimalExponent(i))
  {
    hide TableRow, Encloses, Row.FollowedBy, Row.WithinHalfUnit, TensClear;
    if i == 0 {
      FirstRow();
    } else {
      RowEncloses(i - 1);
      RowChecked(i - 1);
      NextRow(TableRow(i - 1), TableRow(i), DecimalExponent(i - 1));
    }
  }

  // ---------- The table is what it is documented to hold ----------

  function CachedPowerAt(i: nat): CachedPower
  {
    CachedPower(TableRow(i).significand, TableRow(i).binaryExponent, DecimalExponent(i))
  }

  const CACHED_POWERS: seq<CachedPower> := seq(87, (i: nat) => CachedPowerAt(i))

  lemma HalfUnits(r: Row, d: int)
    requires r.WithinHalfUnit() && Encloses(r.low, r.High(), r.binaryExponent - 64, d)
    ensures CachedPower(r.significand, r.binaryExponent, d).IsGood()
  {
    hide Pow, RPow;
    var s: int, x := r.significand, r.binaryExponent - 64;
    TwoTo64();
    PowStep(2, 63);
    RPowNat(2, 63);
    RPowAdd(2, 63, x);
    RPowPos(2, x);
    RealMul(2 * s - 1, TWO_63);
    RealMul(2 * s + 1, TWO_63);
    CountedProductLe((2 * s - 1) * TWO_63, r.low, RPow(2, x), RPow(2, x));
    CountedProductLe(r.High(), (2 * s + 1) * TWO_63, RPow(2, x), RPow(2, x));
    RealAssoc((2 * s - 1) as real, TWO_63 as real, RPow(2, x));
    RealAssoc((2 * s + 1) as real, TWO_63 as real, RPow(2, x));
  }

  lemma EntryIsGood(i: nat)
    requires i < 87
    ensures CachedPowerAt(i).IsGood()
  {
    hide TableRow, Encloses, Row.FollowedBy, Row.WithinHalfUnit, TensClear;
    RowChecked(i);
    RowEncloses(i);
    HalfUnits(TableRow(i), DecimalExponent(i));
  }

  // Each of the 87 entries is normalized and within half a unit of its power.
  lemma TableIsGood()
    ensures GoodCache(CACHED_POWERS)
  {
    hide CachedPower.IsGood, TableRow;
    forall i | 0 <= i < 87
      ensures CACHED_POWERS[i].IsGood()
    {
      EntryIsGood(i);
    }
  }

  // ---------- No double is just below a power of ten ----------

  lemma ShiftedNumber(f: nat, e: int, y: int)
    requires y <= e
    ensures 0 <= f * Pow(2, e - y) && BinaryValue(f, e) == BinaryValue(f * Pow(2, e - y), y)
  {
    hide RPow, Pow;
    PowPos(2, e - y);
    MulLe(0, f, Pow(2, e - y));
    RPowNat(2, e - y);
    RPowAdd(2, e - y, y);
    RealMul(f, Pow(2, e - y));
    RealAssoc(f as real, Pow(2, e - y) as real, RPow(2, y));
  }

  lemma UnitOrder(a: int, b: int, y: int)
    ensures a < b <==> BinaryValue(a, y) < BinaryValue(b, y)
    ensures a <= b <==> BinaryValue(a, y) <= BinaryValue(b, y)
  {
    hide RPow;
    RPowPos(2, y);
    ScaleLe(a, b, RPow(2, y));
  }

  lemma FineNumber(f: nat, e: int, y: int)
    requires e < y && f < 2 * HIDDEN_BIT
    ensures BinaryValue(f, e) <= BinaryValue(HIDDEN_BIT, y)
  {
    hide RPow, Pow;
    TwoTo53();
    BelowPower(2, f, 53, e);
    RPowMono(2, 53 + e, 52 + y);
    RPowNat(2, 52);
    RPowAdd(2, 52, y);
  }

  // A number of 53 bits below q + 1 units is at most q units.
  lemma AtMostUnits(f: nat, e: int, y: int, q: nat)
    requires HIDDEN_BIT <= q && f < 2 * HIDDEN_BIT && BinaryValue(f, e) < BinaryValue(q + 1, y)
    ensures BinaryValue(f, e) <= BinaryValue(q, y)
  {
    hide BinaryValue, Pow;
    if y <= e {
      ShiftedNumber(f, e, y);
      UnitOrder(f * Pow(2, e - y), q + 1, y);
      UnitOrder(f * Pow(2, e - y), q, y);
    } else {
      FineNumber(f, e, y);
      UnitOrder(HIDDEN_BIT, q, y);
    }
  }

  // All numbers of 53 bits below t are at most q * p.
  lemma BelowMultiple(f: nat, e: int, q: nat, p: nat, s: nat, x: int, b: nat, t: real)
    requires p == Pow(2, s) && HIDDEN_BIT <= q && f < 2 * HIDDEN_BIT && b < (q + 1) * p
    requires BinaryValue(f, e) < t <= BinaryValue(b, x)
    ensures BinaryValue(f, e) <= BinaryValue(q * p, x)
  {
    hide BinaryValue, Pow;
    ShiftedNumber(q, x + s, x);
    ShiftedNumber(q + 1, x + s, x);
    UnitOrder(b, (q + 1) * p, x);
    AtMostUnits(f, e, x + s, q);
  }

  // What is left above q * p is more than a 2^-62nd.
  lemma ClearMeaning(v: real, q: nat, p: nat, a: nat, b: nat, x: int, t: real)
    requires v <= BinaryValue(q * p, x) && BinaryValue(a, x) <= t <= BinaryValue(b, x)
    requires b <= (a - q * p) * TWO_62
    ensures t <= TWO_62 as real * (t - v)
  {
    hide RPow;
    UnitOrder(b, (a - q * p) * TWO_62, x);
    GapTimes(a, q * p, TWO_62, x);
  }

  lemma GapTimes(a: int, b: int, n: int, x: int)
    ensures BinaryValue((a - b) * n, x) == n as real * (BinaryValue(a, x) - BinaryValue(b, x))
  {
    hide RPow;
    RealMul(a - b, n);
    Distributed(a as real, b as real, n as real, RPow(2, x));
  }

  lemma Distributed(a: real, b: real, n: real, u: real)
    ensures (a - b) * n * u == n * (a * u - b * u)
  {
  }

  lemma ClearAt(f: nat, e: int, low: nat, high: nat, x: int, d: int, q: nat, p: nat, s: nat)
    requires Encloses(low, high, x, d) && p == Pow(2, s) && HIDDEN_BIT <= q && IsClear(low, high, q, p)
    requires f < 2 * HIDDEN_BIT && BinaryValue(f, e) < RPow(10, d)
    ensures RPow(10, d) <= TWO_62 as real * (RPow(10, d) - BinaryValue(f, e))
  {
    hide RPow, Pow, BinaryValue;
    BelowMultiple(f, e, q, p, s, x, high, RPow(10, d));
    ClearMeaning(BinaryValue(f, e), q, p, low, high, x, RPow(10, d));
  }

  // j tens more are j fives and j twos.
  lemma TimesTens(low: nat, high: nat, x: int, d: int, j: nat)
    requires Encloses(low, high, x, d)
    ensures 0 <= Pow(5, j) * low <= Pow(5, j) * high
    ensures Encloses(Pow(5, j) * low, Pow(5, j) * high, x + j, d + j)
  {
    hide RPow, Pow;
    PowProduct(2, 5, j);
    PowPos(2, j);
    PowPos(5, j);
    RPowPos(2, x);
    RPowNat(10, j);
    RPowNat(2, j);
    RPowAdd(10, j, d);
    RPowAdd(2, j, x);
    RealMul(Pow(2, j), Pow(5, j));
    RealMul(Pow(5, j), low);
    RealMul(Pow(5, j), high);
    ScaleLe(low, high, RPow(2, x));
    MulLe(low, high, Pow(5, j));
    MulLe(0, low, Pow(5, j));
    FivesAndTwos(low as real, Pow(5, j) as real, Pow(2, j) as real, RPow(2, x));
    FivesAndTwos(high as real, Pow(5, j) as real, Pow(2, j) as real, RPow(2, x));
    RealMulLe(low as real * RPow(2, x), RPow(10, d), RPow(10, j));
    RealMulLe(RPow(10, d), high as real * RPow(2, x), RPow(10, j));
  }

  lemma FivesAndTwos(a: real, fives: real, twos: real, u: real)
    ensures fives * a * (twos * u) == a * u * (twos * fives)
  {
  }

  lemma SmallFives()
    ensures Pow(5, 0) == 1 && Pow(5, 1) == 5 && Pow(5, 2) == 25 && Pow(5, 3) == 125
    ensures Pow(5, 4) == 625 && Pow(5, 5) == 3125 && Pow(5, 6) == 15625 && Pow(5, 7) == 78125
  {
  }

  lemma TwosFrom75()
    ensures Pow(2, 75) == TWO_75 && Pow(2, 76) == 2 * TWO_75 && Pow(2, 77) == 4 * TWO_75 && Pow(2, 78) == 8 * TWO_75
    ensures Pow(2, 79) == 16 * TWO_75 && Pow(2, 80) == 32 * TWO_75 && Pow(2, 81) == 64 * TWO_75
    ensures Pow(2, 82) == 128 * TWO_75 && Pow(2, 84) == 512 * TWO_75 && Pow(2, 85) == 1024 * TWO_75
    ensures Pow(2, 86) == 2048 * TWO_75 && Pow(2, 87) == 4096 * TWO_75 && Pow(2, 88) == 8192 * TWO_75
    ensures Pow(2, 89) == 16384 * TWO_75 && Pow(2, 91) == 65536 * TWO_75 && Pow(2, 92) == 131072 * TWO_75
  {
    hide Pow;
    TwoTo64();
    TwoTo8();
    TwoTo4();
    TwoTo1();
    PowAdd(2, 64, 8);
    PowAdd(2, 72, 3);
    forall n | 75 <= n < 92 ensures Pow(2, n + 1) == 2 * Pow(2, n) { PowStep(2, n); }
    assert Pow(2, 76) == 2 * TWO_75 && Pow(2, 77) == 4 * TWO_75 && Pow(2, 78) == 8 * TWO_75;
    assert Pow(2, 79) == 16 * TWO_75 && Pow(2, 80) == 32 * TWO_75 && Pow(2, 81) == 64 * TWO_75;
    assert Pow(2, 82) == 128 * TWO_75 && Pow(2, 83) == 256 * TWO_75 && Pow(2, 84) == 512 * TWO_75;
    assert Pow(2, 85) == 1024 * TWO_75 && Pow(2, 86) == 2048 * TWO_75 && Pow(2, 87) == 4096 * TWO_75;
    assert Pow(2, 88) == 8192 * TWO_75 && Pow(2, 89) == 16384 * TWO_75 && Pow(2, 90) == 32768 * TWO_75;
  }

  lemma ClearTen(f: nat, e: int, r: Row, d: int, q: nat, j: nat, s: nat)
    requires Encloses(r.low, r.High(), r.binaryExponent - 64, d)
    requires r.Clear(q, Pow(5, j), Pow(2, s))
    requires f < 2 * HIDDEN_BIT && BinaryValue(f, e) < RPow(10, d + j)
    ensures RPow(10, d + j) <= TWO_62 as real * (RPow(10, d + j) - BinaryValue(f, e))
  {
    hide RPow, Pow, Encloses;
    TimesTens(r.low, r.High(), r.binaryExponent - 64, d, j);
    PowStep(2, s);
    var x := r.binaryExponent - 64 + j;
    if IsClear(Pow(5, j) * r.low, Pow(5, j) * r.High(), q, Pow(2, s)) {
      ClearAt(f, e, Pow(5, j) * r.low, Pow(5, j) * r.High(), x, d + j, q, Pow(2, s), s);
    } else {
      ClearAt(f, e, Pow(5, j) * r.low, Pow(5, j) * r.High(), x, d + j, q, Pow(2, s + 1), s + 1);
    }
  }

  lemma ClearRow(f: nat, e: int, r: Row, d: int, j: nat)
    requires Encloses(r.low, r.High(), r.binaryExponent - 64, d) && TensClear(r, d)
    requires j < 8 && !IsExact(d + j) && f < 2 * HIDDEN_BIT && BinaryValue(f, e) < RPow(10, d + j)
    ensures RPow(10, d + j) <= TWO_62 as real * (RPow(10, d + j) - BinaryValue(f, e))
  {
    hide RPow, Pow, Encloses, Row.Clear;
    SmallFives();
    TwosFrom75();
    match j
    case 0 => ClearTen(f, e, r, d, r.q0, 0, 75);
    case 1 => ClearTen(f, e, r, d, r.q1, 1, 77);
    case 2 => ClearTen(f, e, r, d, r.q2, 2, 79);
    case 3 => ClearTen(f, e, r, d, r.q3, 3, 81);
    case 4 => ClearTen(f, e, r, d, r.q4, 4, 84);
    case 5 => ClearTen(f, e, r, d, r.q5, 5, 86);
    case 6 => ClearTen(f, e, r, d, r.q6, 6, 88);
    case _ => ClearTen(f, e, r, d, r.q7, 7, 91);
  }

  // Whole numbers n > g of a unit, where one of them has 53 bits.
  lemma ApartByOne(n: nat, g: nat, y: int)
    requires BinaryValue(g, y) < BinaryValue(n, y) && (n < 2 * HIDDEN_BIT || g < 2 * HIDDEN_BIT)
    ensures BinaryValue(n, y) <= TWO_62 as real * (BinaryValue(n, y) - BinaryValue(g, y))
  {
    hide BinaryValue;
    UnitOrder(g, n, y);
    UnitOrder(n, (n - g) * TWO_62, y);
    GapTimes(n, g, TWO_62, y);
  }

  lemma ExactPowers(k: int)
    requires IsExact(k)
    ensures Pow(5, k) < 2 * HIDDEN_BIT
  {
    hide Pow;
    Five19();
    SmallFives();
    PowAdd(5, 19, 3);
    PowMono(5, k, 22);
  }

  lemma FivesAndBits(k: nat)
    ensures RPow(10, k) == BinaryValue(Pow(5, k), k)
  {
    hide RPow, Pow;
    PowProduct(2, 5, k);
    RPowNat(10, k);
    RPowNat(2, k);
    RealMul(Pow(5, k), Pow(2, k));
  }

  // A power of ten that is a double itself.
  lemma BelowExact(f: nat, e: int, k: int)
    requires IsExact(k) && f < 2 * HIDDEN_BIT && BinaryValue(f, e) < RPow(10, k)
    ensures RPow(10, k) <= TWO_62 as real * (RPow(10, k) - BinaryValue(f, e))
  {
    hide RPow, Pow, BinaryValue;
    ExactPowers(k);
    FivesAndBits(k);
    if k <= e {
      ShiftedNumber(f, e, k);
      ApartByOne(Pow(5, k), f * Pow(2, e - k), k);
    } else {
      ShiftedNumber(Pow(5, k), k, e);
      ApartByOne(Pow(5, k) * Pow(2, k - e), f, e);
    }
  }

  lemma NumberBelow(f: nat, e: int, k: int)
    requires -348 <= k <= 347 && f < 2 * HIDDEN_BIT && BinaryValue(f, e) < RPow(10, k)
    ensures RPow(10, k) <= TWO_62 as real * (RPow(10, k) - BinaryValue(f, e))
  {
    hide RPow, TableRow, Encloses, Row.FollowedBy, Row.WithinHalfUnit, TensClear;
    if IsExact(k) {
      BelowExact(f, e, k);
    } else {
      var i, j := (k + 348) / 8, (k + 348) % 8;
      RowChecked(i);
      RowEncloses(i);
      ClearRow(f, e, TableRow(i), DecimalExponent(i), j);
    }
  }

  lemma DoubleRange(v: Double)
    requires v.IsFinitePositive()
    ensures RPow(10, -348) <= v.Value() < RPow(10, 347)
  {
    hide RPow, Pow;
    v.Layout();
    var f, e := v.Significand(), v.Exponent();
    AtLeastUnit(f, e);
    RPowMono(2, DENORMAL_EXPONENT, e);
    TenBelowTwo(-348, DENORMAL_EXPONENT);
    TwoTo53();
    BelowPower(2, f, 53, e);
    RPowMono(2, 53 + e, 1024);
    TwoBelowTen(1024, 347);
  }

  lemma AtLeastUnit(f: nat, e: int)
    requires 1 <= f
    ensures RPow(2, e) <= f as real * RPow(2, e)
  {
    hide RPow;
    RPowPos(2, e);
    RealMulLe(1.0, f as real, RPow(2, e));
  }

  // A double below a power of ten is more than a 2^-62nd below it.
  lemma NoDoubleJustBelow(v: Double, k: int)
    requires v.IsFinitePositive() && v.Value() < RPow(10, k)
    ensures RPow(10, k) <= TWO_62 as real * (RPow(10, k) - v.Value())
  {
    hide RPow, BinaryValue;
    v.Layout();
    DoubleRange(v);
    BinaryIs(v.Significand(), v.Exponent());
    if k < -348 {
      RPowMono(10, k, -348);
    } else if k <= 347 {
      NumberBelow(v.Significand(), v.Exponent(), k);
    } else {
      RPowMono(10, 348, k);
      RPowStep(10, 347);
    }
  }

  // ---------- No power of ten is just below a power of two ----------

  // t is at most all but a 2^-28th of u.
  ghost predicate NotAllOnes(t: real, u: real) { 268435456.0 * t <= 268435455.0 * u }

  lemma BitUnits(y: int)
    ensures RPow(2, 52 + y) == BinaryValue(HIDDEN_BIT, y) && RPow(2, 53 + y) == BinaryValue(2 * HIDDEN_BIT, y)
  {
    hide RPow, Pow;
    TwoTo53();
    RPowNat(2, 52);
    RPowNat(2, 53);
    RPowAdd(2, 52, y);
    RPowAdd(2, 53, y);
  }

  lemma TimesUnits(c: int, m: int, y: int)
    ensures BinaryValue(c * m, y) == c as real * BinaryValue(m, y)
  {
    hide RPow;
    RealMul(c, m);
    RealAssoc(c as real, m as real, RPow(2, y));
  }

  // A number between q and q + 1 units, where q has 53 bits but does not begin
  // with 28 ones.
  lemma NoOnesInFront(t: real, q: nat, y: int, n: int)
    requires BinaryValue(q, y) <= t < BinaryValue(q + 1, y) && t < RPow(2, n)
    requires HIDDEN_BIT <= q < 2 * HIDDEN_BIT - TWO_25
    ensures NotAllOnes(t, RPow(2, n))
  {
    hide RPow, BinaryValue;
    BitUnits(y);
    UnitOrder(HIDDEN_BIT, q, y);
    if n <= 52 + y { RPowMono(2, n, 52 + y); } else { RPowMono(2, 53 + y, n); }
    UnitOrder(268435456 * (q + 1), 268435455 * (2 * HIDDEN_BIT), y);
    TimesUnits(268435456, q + 1, y);
    TimesUnits(268435455, 2 * HIDDEN_BIT, y);
  }

  lemma BoundedAt(low: nat, high: nat, x: int, d: int, q: nat, p: nat, s: nat, n: int)
    requires Encloses(low, high, x, d) && p == Pow(2, s) && IsClear(low, high, q, p)
    requires HIDDEN_BIT <= q < 2 * HIDDEN_BIT - TWO_25 && RPow(10, d) < RPow(2, n)
    ensures NotAllOnes(RPow(10, d), RPow(2, n))
  {
    hide RPow, Pow, BinaryValue, NotAllOnes;
    ShiftedNumber(q, x + s, x);
    ShiftedNumber(q + 1, x + s, x);
    UnitOrder(q * p, low, x);
    UnitOrder(high, (q + 1) * p, x);
    NoOnesInFront(RPow(10, d), q, x + s, n);
  }

  lemma BoundedTen(r: Row, d: int, q: nat, j: nat, s: nat, n: int)
    requires Encloses(r.low, r.High(), r.binaryExponent - 64, d)
    requires r.Clear(q, Pow(5, j), Pow(2, s)) && RPow(10, d + j) < RPow(2, n)
    ensures NotAllOnes(RPow(10, d + j), RPow(2, n))
  {
    hide RPow, Pow, Encloses, NotAllOnes;
    TimesTens(r.low, r.High(), r.binaryExponent - 64, d, j);
    PowStep(2, s);
    var x := r.binaryExponent - 64 + j;
    if IsClear(Pow(5, j) * r.low, Pow(5, j) * r.High(), q, Pow(2, s)) {
      BoundedAt(Pow(5, j) * r.low, Pow(5, j) * r.High(), x, d + j, q, Pow(2, s), s, n);
    } else {
      BoundedAt(Pow(5, j) * r.low, Pow(5, j) * r.High(), x, d + j, q, Pow(2, s + 1), s + 1, n);
    }
  }

  lemma BoundedRow(r: Row, d: int, j: nat, n: int)
    requires Encloses(r.low, r.High(), r.binaryExponent - 64, d) && TensClear(r, d)
    requires j < 8 && !IsExact(d + j) && RPow(10, d + j) < RPow(2, n)
    ensures NotAllOnes(RPow(10, d + j), RPow(2, n))
  {
    hide RPow, Pow, Encloses, Row.Clear, NotAllOnes;
    SmallFives();
    TwosFrom75();
    match j
    case 0 => BoundedTen(r, d, r.q0, 0, 75, n);
    case 1 => BoundedTen(r, d, r.q1, 1, 77, n);
    case 2 => BoundedTen(r, d, r.q2, 2, 79, n);
    case 3 => BoundedTen(r, d, r.q3, 3, 81, n);
    case 4 => BoundedTen(r, d, r.q4, 4, 84, n);
    case 5 => BoundedTen(r, d, r.q5, 5, 86, n);
    case 6 => BoundedTen(r, d, r.q6, 6, 88, n);
    case _ => BoundedTen(r, d, r.q7, 7, 91, n);
  }

  // An exact power as a number of 53 bits.
  lemma ShiftedFive(k: nat, c: nat, q: nat, n: int)
    requires IsExact(k) && Pow(5, k) * Pow(2, c) == q && HIDDEN_BIT <= q < 2 * HIDDEN_BIT - TWO_25
    requires RPow(10, k) < RPow(2, n)
    ensures NotAllOnes(RPow(10, k), RPow(2, n))
  {
    hide RPow, Pow, BinaryValue, NotAllOnes;
    FivesAndBits(k);
    ShiftedNumber(Pow(5, k), k, k - c);
    UnitOrder(q, q + 1, k - c);
    NoOnesInFront(RPow(10, k), q, k - c, n);
  }

  lemma FivesTo22()
    ensures Pow(5, 8) == 390625 && Pow(5, 9) == 1953125 && Pow(5, 10) == 9765625 && Pow(5, 11) == 48828125
    ensures Pow(5, 12) == 244140625 && Pow(5, 13) == 1220703125 && Pow(5, 14) == 6103515625 && Pow(5, 15) == 30517578125
    ensures Pow(5, 16) == 152587890625 && Pow(5, 17) == 762939453125 && Pow(5, 18) == 3814697265625
    ensures Pow(5, 19) == 19073486328125 && Pow(5, 20) == 95367431640625
    ensures Pow(5, 21) == 476837158203125 && Pow(5, 22) == 2384185791015625
  {
    hide Pow;
    SmallFives();
    forall k | 7 <= k < 22 ensures Pow(5, k + 1) == 5 * Pow(5, k) { PowStep(5, k); }
    assert Pow(5, 8) == 390625 && Pow(5, 9) == 1953125 && Pow(5, 10) == 9765625;
  }

  lemma TwosTo52()
    ensures Pow(2, 1) == 0x2 && Pow(2, 4) == 0x10 && Pow(2, 6) == 0x40 && Pow(2, 8) == 0x100
    ensures Pow(2, 11) == 0x800 && Pow(2, 13) == 0x2000 && Pow(2, 15) == 0x8000 && Pow(2, 18) == 0x4_0000
    ensures Pow(2, 20) == 0x10_0000 && Pow(2, 22) == 0x40_0000 && Pow(2, 25) == 0x200_0000 && Pow(2, 27) == 0x800_0000
    ensures Pow(2, 29) == 0x2000_0000 && Pow(2, 32) == 0x1_0000_0000 && Pow(2, 34) == 0x4_0000_0000 && Pow(2, 36) == 0x10_0000_0000
    ensures Pow(2, 39) == 0x80_0000_0000 && Pow(2, 41) == 0x200_0000_0000 && Pow(2, 43) == 0x800_0000_0000 && Pow(2, 46) == 0x4000_0000_0000
    ensures Pow(2, 48) == 0x1_0000_0000_0000 && Pow(2, 50) == 0x4_0000_0000_0000 && Pow(2, 52) == 0x10_0000_0000_0000
  {
    hide Pow;
    TwoTo1();
    forall c | 1 <= c < 52 ensures Pow(2, c + 1) == 2 * Pow(2, c) { PowStep(2, c); }
    assert Pow(2, 2) == 0x4 && Pow(2, 3) == 0x8 && Pow(2, 4) == 0x10;
    assert Pow(2, 5) == 0x20 && Pow(2, 6) == 0x40 && Pow(2, 7) == 0x80;
    assert Pow(2, 8) == 0x100 && Pow(2, 9) == 0x200;
    assert Pow(2, 10) == 0x400 && Pow(2, 11) == 0x800 && Pow(2, 12) == 0x1000;
    assert Pow(2, 13) == 0x2000 && Pow(2, 14) == 0x4000 && Pow(2, 15) == 0x8000;
    assert Pow(2, 16) == 0x1_0000 && Pow(2, 17) == 0x2_0000;
    assert Pow(2, 18) == 0x4_0000 && Pow(2, 19) == 0x8_0000 && Pow(2, 20) == 0x10_0000;
    assert Pow(2, 21) == 0x20_0000 && Pow(2, 22) == 0x40_0000 && Pow(2, 23) == 0x80_0000;
    assert Pow(2, 24) == 0x100_0000 && Pow(2, 25) == 0x200_0000;
    assert Pow(2, 26) == 0x400_0000 && Pow(2, 27) == 0x800_0000 && Pow(2, 28) == 0x1000_0000;
    assert Pow(2, 29) == 0x2000_0000 && Pow(2, 30) == 0x4000_0000 && Pow(2, 31) == 0x8000_0000;
    assert Pow(2, 32) == 0x1_0000_0000 && Pow(2, 33) == 0x2_0000_0000;
    assert Pow(2, 34) == 0x4_0000_0000 && Pow(2, 35) == 0x8_0000_0000 && Pow(2, 36) == 0x10_0000_0000;
    assert Pow(2, 37) == 0x20_0000_0000 && Pow(2, 38) == 0x40_0000_0000 && Pow(2, 39) == 0x80_0000_0000;
    assert Pow(2, 40) == 0x100_0000_0000 && Pow(2, 41) == 0x200_0000_0000;
    assert Pow(2, 42) == 0x400_0000_0000 && Pow(2, 43) == 0x800_0000_0000 && Pow(2, 44) == 0x1000_0000_0000;
    assert Pow(2, 45) == 0x2000_0000_0000 && Pow(2, 46) == 0x4000_0000_0000 && Pow(2, 47) == 0x8000_0000_0000;
    assert Pow(2, 48) == 0x1_0000_0000_0000 && Pow(2, 49) == 0x2_0000_0000_0000;
    assert Pow(2, 50) == 0x4_0000_0000_0000 && Pow(2, 51) == 0x8_0000_0000_0000 && Pow(2, 52) == 0x10_0000_0000_0000;
  }

  lemma ExactNotJustBelow(k: int, n: int)
    requires IsExact(k) && RPow(10, k) < RPow(2, n)
    ensures NotAllOnes(RPow(10, k), RPow(2, n))
  {
    hide RPow, Pow, NotAllOnes;
    SmallFives();
    FivesTo22();
    TwosTo52();
    match k
    case 0 => ShiftedFive(0, 52, 0x10_0000_0000_0000, n);
    case 1 => ShiftedFive(1, 50, 0x14_0000_0000_0000, n);
    case 2 => ShiftedFive(2, 48, 0x19_0000_0000_0000, n);
    case 3 => ShiftedFive(3, 46, 0x1f_4000_0000_0000, n);
    case 4 => ShiftedFive(4, 43, 0x13_8800_0000_0000, n);
    case 5 => ShiftedFive(5, 41, 0x18_6a00_0000_0000, n);
    case 6 => ShiftedFive(6, 39, 0x1e_8480_0000_0000, n);
    case 7 => ShiftedFive(7, 36, 0x13_12d0_0000_0000, n);
    case 8 => ShiftedFive(8, 34, 0x17_d784_0000_0000, n);
    case 9 => ShiftedFive(9, 32, 0x1d_cd65_0000_0000, n);
    case 10 => ShiftedFive(10, 29, 0x12_a05f_2000_0000, n);
    case 11 => ShiftedFive(11, 27, 0x17_4876_e800_0000, n);
    case 12 => ShiftedFive(12, 25, 0x1d_1a94_a200_0000, n);
    case 13 => ShiftedFive(13, 22, 0x12_309c_e540_0000, n);
    case 14 => ShiftedFive(14, 20, 0x16_bcc4_1e90_0000, n);
    case 15 => ShiftedFive(15, 18, 0x1c_6bf5_2634_0000, n);
    case 16 => ShiftedFive(16, 15, 0x11_c379_37e0_8000, n);
    case 17 => ShiftedFive(17, 13, 0x16_3457_85d8_a000, n);
    case 18 => ShiftedFive(18, 11, 0x1b_c16d_674e_c800, n);
    case 19 => ShiftedFive(19, 8, 0x11_58e4_6091_3d00, n);
    case 20 => ShiftedFive(20, 6, 0x15_af1d_78b5_8c40, n);
    case 21 => ShiftedFive(21, 4, 0x1b_1ae4_d6e2_ef50, n);
    case _ => ShiftedFive(22, 1, 0x10_f0cf_064d_d592, n);
  }

  // A power of ten below a power of two is below it by more than a 2^-28th.
  lemma NoTenJustBelowTwo(k: int, n: int)
    requires -348 <= k <= 347 && RPow(10, k) < RPow(2, n)
    ensures 268435456.0 * RPow(10, k) <= 268435455.0 * RPow(2, n)
  {
    hide RPow, TableRow, Encloses, Row.FollowedBy, Row.WithinHalfUnit, TensClear;
    if IsExact(k) {
      ExactNotJustBelow(k, n);
    } else {
      var i, j := (k + 348) / 8, (k + 348) % 8;
      RowChecked(i);
      RowEncloses(i);
      BoundedRow(TableRow(i), DecimalExponent(i), j, n);
    }
  }
}
