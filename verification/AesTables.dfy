/** The tables of src/crypto/oaes_lib.c, sixteen entries to a row, and what they tabulate in the field with 256
    elements of section 4 of FIPS 197. */
module AesTables {

  /** The entry of a row for the low half of a byte. */
  function Entry(row: bv128, b: bv8): (r: bv8) {
    ((row >> (0x78 - 8 * (b & 0x0f))) & 0xff) as bv8
  }

  /** oaes_sub_byte */
  function SubByte(b: bv8): (r: bv8) {
    Entry(
      match b & 0xf0
      case 0x00 => 0x637c_777b_f26b_6fc5_3001_672b_fed7_ab76
      case 0x10 => 0xca82_c97d_fa59_47f0_add4_a2af_9ca4_72c0
      case 0x20 => 0xb7fd_9326_363f_f7cc_34a5_e5f1_71d8_3115
      case 0x30 => 0x04c7_23c3_1896_059a_0712_80e2_eb27_b275
      case 0x40 => 0x0983_2c1a_1b6e_5aa0_523b_d6b3_29e3_2f84
      case 0x50 => 0x53d1_00ed_20fc_b15b_6acb_be39_4a4c_58cf
      case 0x60 => 0xd0ef_aafb_434d_3385_45f9_027f_503c_9fa8
      case 0x70 => 0x51a3_408f_929d_38f5_bcb6_da21_10ff_f3d2
      case 0x80 => 0xcd0c_13ec_5f97_4417_c4a7_7e3d_645d_1973
      case 0x90 => 0x6081_4fdc_222a_9088_46ee_b814_de5e_0bdb
      case 0xa0 => 0xe032_3a0a_4906_245c_c2d3_ac62_9195_e479
      case 0xb0 => 0xe7c8_376d_8dd5_4ea9_6c56_f4ea_657a_ae08
      case 0xc0 => 0xba78_252e_1ca6_b4c6_e8dd_741f_4bbd_8b8a
      case 0xd0 => 0x703e_b566_4803_f60e_6135_57b9_86c1_1d9e
      case 0xe0 => 0xe1f8_9811_69d9_8e94_9b1e_87e9_ce55_28df
      case _ => 0x8ca1_890d_bfe6_4268_4199_2d0f_b054_bb16,
      b)
  }

  /** oaes_inv_sub_byte */
  function InvSubByte(b: bv8): (r: bv8) {
    Entry(
      match b & 0xf0
      case 0x00 => 0x5209_6ad5_3036_a538_bf40_a39e_81f3_d7fb
      case 0x10 => 0x7ce3_3982_9b2f_ff87_348e_4344_c4de_e9cb
      case 0x20 => 0x547b_9432_a6c2_233d_ee4c_950b_42fa_c34e
      case 0x30 => 0x082e_a166_28d9_24b2_765b_a249_6d8b_d125
      case 0x40 => 0x72f8_f664_8668_9816_d4a4_5ccc_5d65_b692
      case 0x50 => 0x6c70_4850_fded_b9da_5e15_4657_a78d_9d84
      case 0x60 => 0x90d8_ab00_8cbc_d30a_f7e4_5805_b8b3_4506
      case 0x70 => 0xd02c_1e8f_ca3f_0f02_c1af_bd03_0113_8a6b
      case 0x80 => 0x3a91_1141_4f67_dcea_97f2_cfce_f0b4_e673
      case 0x90 => 0x96ac_7422_e7ad_3585_e2f9_37e8_1c75_df6e
      case 0xa0 => 0x47f1_1a71_1d29_c589_6fb7_620e_aa18_be1b
      case 0xb0 => 0xfc56_3e4b_c6d2_7920_9adb_c0fe_78cd_5af4
      case 0xc0 => 0x1fdd_a833_8807_c731_b112_1059_2780_ec5f
      case 0xd0 => 0x6051_7fa9_19b5_4a0d_2de5_7a9f_93c9_9cef
      case 0xe0 => 0xa0e0_3b4d_ae2a_f5b0_c8eb_bb3c_8353_9961
      case _ => 0x172b_047e_ba77_d626_e169_1463_5521_0c7d,
      b)
  }

  /** oaes_gf_mul by 2 */
  function Mul2(b: bv8): (r: bv8) {
    Entry(
      match b & 0xf0
      case 0x00 => 0x0002_0406_080a_0c0e_1012_1416_181a_1c1e
      case 0x10 => 0x2022_2426_282a_2c2e_3032_3436_383a_3c3e
      case 0x20 => 0x4042_4446_484a_4c4e_5052_5456_585a_5c5e
      case 0x30 => 0x6062_6466_686a_6c6e_7072_7476_787a_7c7e
      case 0x40 => 0x8082_8486_888a_8c8e_9092_9496_989a_9c9e
      case 0x50 => 0xa0a2_a4a6_a8aa_acae_b0b2_b4b6_b8ba_bcbe
      case 0x60 => 0xc0c2_c4c6_c8ca_ccce_d0d2_d4d6_d8da_dcde
      case 0x70 => 0xe0e2_e4e6_e8ea_ecee_f0f2_f4f6_f8fa_fcfe
      case 0x80 => 0x1b19_1f1d_1311_1715_0b09_0f0d_0301_0705
      case 0x90 => 0x3b39_3f3d_3331_3735_2b29_2f2d_2321_2725
      case 0xa0 => 0x5b59_5f5d_5351_5755_4b49_4f4d_4341_4745
      case 0xb0 => 0x7b79_7f7d_7371_7775_6b69_6f6d_6361_6765
      case 0xc0 => 0x9b99_9f9d_9391_9795_8b89_8f8d_8381_8785
      case 0xd0 => 0xbbb9_bfbd_b3b1_b7b5_aba9_afad_a3a1_a7a5
      case 0xe0 => 0xdbd9_dfdd_d3d1_d7d5_cbc9_cfcd_c3c1_c7c5
      case _ => 0xfbf9_fffd_f3f1_f7f5_ebe9_efed_e3e1_e7e5,
      b)
  }

  /** oaes_gf_mul by 3 */
  function Mul3(b: bv8): (r: bv8) {
    Entry(
      match b & 0xf0
      case 0x00 => 0x0003_0605_0c0f_0a09_181b_1e1d_1417_1211
      case 0x10 => 0x3033_3635_3c3f_3a39_282b_2e2d_2427_2221
      case 0x20 => 0x6063_6665_6c6f_6a69_787b_7e7d_7477_7271
      case 0x30 => 0x5053_5655_5c5f_5a59_484b_4e4d_4447_4241
      case 0x40 => 0xc0c3_c6c5_cccf_cac9_d8db_dedd_d4d7_d2d1
      case 0x50 => 0xf0f3_f6f5_fcff_faf9_e8eb_eeed_e4e7_e2e1
      case 0x60 => 0xa0a3_a6a5_acaf_aaa9_b8bb_bebd_b4b7_b2b1
      case 0x70 => 0x9093_9695_9c9f_9a99_888b_8e8d_8487_8281
      case 0x80 => 0x9b98_9d9e_9794_9192_8380_8586_8f8c_898a
      case 0x90 => 0xaba8_adae_a7a4_a1a2_b3b0_b5b6_bfbc_b9ba
      case 0xa0 => 0xfbf8_fdfe_f7f4_f1f2_e3e0_e5e6_efec_e9ea
      case 0xb0 => 0xcbc8_cdce_c7c4_c1c2_d3d0_d5d6_dfdc_d9da
      case 0xc0 => 0x5b58_5d5e_5754_5152_4340_4546_4f4c_494a
      case 0xd0 => 0x6b68_6d6e_6764_6162_7370_7576_7f7c_797a
      case 0xe0 => 0x3b38_3d3e_3734_3132_2320_2526_2f2c_292a
      case _ => 0x0b08_0d0e_0704_0102_1310_1516_1f1c_191a,
      b)
  }

  /** oaes_gf_mul by 9 */
  function Mul9(b: bv8): (r: bv8) {
    Entry(
      match b & 0xf0
      case 0x00 => 0x0009_121b_242d_363f_4841_5a53_6c65_7e77
      case 0x10 => 0x9099_828b_b4bd_a6af_d8d1_cac3_fcf5_eee7
      case 0x20 => 0x3b32_2920_1f16_0d04_737a_6168_575e_454c
      case 0x30 => 0xaba2_b9b0_8f86_9d94_e3ea_f1f8_c7ce_d5dc
      case 0x40 => 0x767f_646d_525b_4049_3e37_2c25_1a13_0801
      case 0x50 => 0xe6ef_f4fd_c2cb_d0d9_aea7_bcb5_8a83_9891
      case 0x60 => 0x4d44_5f56_6960_7b72_050c_171e_2128_333a
      case 0x70 => 0xddd4_cfc6_f9f0_ebe2_959c_878e_b1b8_a3aa
      case 0x80 => 0xece5_fef7_c8c1_dad3_a4ad_b6bf_8089_929b
      case 0x90 => 0x7c75_6e67_5851_4a43_343d_262f_1019_020b
      case 0xa0 => 0xd7de_c5cc_f3fa_e1e8_9f96_8d84_bbb2_a9a0
      case 0xb0 => 0x474e_555c_636a_7178_0f06_1d14_2b22_3930
      case 0xc0 => 0x9a93_8881_beb7_aca5_d2db_c0c9_f6ff_e4ed
      case 0xd0 => 0x0a03_1811_2e27_3c35_424b_5059_666f_747d
      case 0xe0 => 0xa1a8_b3ba_858c_979e_e9e0_fbf2_cdc4_dfd6
      case _ => 0x3138_232a_151c_070e_7970_6b62_5d54_4f46,
      b)
  }

  /** oaes_gf_mul by 11 */
  function MulB(b: bv8): (r: bv8) {
    Entry(
      match b & 0xf0
      case 0x00 => 0x000b_161d_2c27_3a31_5853_4e45_747f_6269
      case 0x10 => 0xb0bb_a6ad_9c97_8a81_e8e3_fef5_c4cf_d2d9
      case 0x20 => 0x7b70_6d66_575c_414a_2328_353e_0f04_1912
      case 0x30 => 0xcbc0_ddd6_e7ec_f1fa_9398_858e_bfb4_a9a2
      case 0x40 => 0xf6fd_e0eb_dad1_ccc7_aea5_b8b3_8289_949f
      case 0x50 => 0x464d_505b_6a61_7c77_1e15_0803_3239_242f
      case 0x60 => 0x8d86_9b90_a1aa_b7bc_d5de_c3c8_f9f2_efe4
      case 0x70 => 0x3d36_2b20_111a_070c_656e_7378_4942_5f54
      case 0x80 => 0xf7fc_e1ea_dbd0_cdc6_afa4_b9b2_8388_959e
      case 0x90 => 0x474c_515a_6b60_7d76_1f14_0902_3338_252e
      case 0xa0 => 0x8c87_9a91_a0ab_b6bd_d4df_c2c9_f8f3_eee5
      case 0xb0 => 0x3c37_2a21_101b_060d_646f_7279_4843_5e55
      case 0xc0 => 0x010a_171c_2d26_3b30_5952_4f44_757e_6368
      case 0xd0 => 0xb1ba_a7ac_9d96_8b80_e9e2_fff4_c5ce_d3d8
      case 0xe0 => 0x7a71_6c67_565d_404b_2229_343f_0e05_1813
      case _ => 0xcac1_dcd7_e6ed_f0fb_9299_848f_beb5_a8a3,
      b)
  }

  /** oaes_gf_mul by 13 */
  function MulD(b: bv8): (r: bv8) {
    Entry(
      match b & 0xf0
      case 0x00 => 0x000d_1a17_3439_2e23_6865_727f_5c51_464b
      case 0x10 => 0xd0dd_cac7_e4e9_fef3_b8b5_a2af_8c81_969b
      case 0x20 => 0xbbb6_a1ac_8f82_9598_d3de_c9c4_e7ea_fdf0
      case 0x30 => 0x6b66_717c_5f52_4548_030e_1914_373a_2d20
      case 0x40 => 0x6d60_777a_5954_434e_0508_1f12_313c_2b26
      case 0x50 => 0xbdb0_a7aa_8984_939e_d5d8_cfc2_e1ec_fbf6
      case 0x60 => 0xd6db_ccc1_e2ef_f8f5_beb3_a4a9_8a87_909d
      case 0x70 => 0x060b_1c11_323f_2825_6e63_7479_5a57_404d
      case 0x80 => 0xdad7_c0cd_eee3_f4f9_b2bf_a8a5_868b_9c91
      case 0x90 => 0x0a07_101d_3e33_2429_626f_7875_565b_4c41
      case 0xa0 => 0x616c_7b76_5558_4f42_0904_131e_3d30_272a
      case 0xb0 => 0xb1bc_aba6_8588_9f92_d9d4_c3ce_ede0_f7fa
      case 0xc0 => 0xb7ba_ada0_838e_9994_dfd2_c5c8_ebe6_f1fc
      case 0xd0 => 0x676a_7d70_535e_4944_0f02_1518_3b36_212c
      case 0xe0 => 0x0c01_161b_3835_222f_6469_7e73_505d_4a47
      case _ => 0xdcd1_c6cb_e8e5_f2ff_b4b9_aea3_808d_9a97,
      b)
  }

  /** oaes_gf_mul by 14 */
  function MulE(b: bv8): (r: bv8) {
    Entry(
      match b & 0xf0
      case 0x00 => 0x000e_1c12_3836_242a_707e_6c62_4846_545a
      case 0x10 => 0xe0ee_fcf2_d8d6_c4ca_909e_8c82_a8a6_b4ba
      case 0x20 => 0xdbd5_c7c9_e3ed_fff1_aba5_b7b9_939d_8f81
      case 0x30 => 0x3b35_2729_030d_1f11_4b45_5759_737d_6f61
      case 0x40 => 0xada3_b1bf_959b_8987_ddd3_c1cf_e5eb_f9f7
      case 0x50 => 0x4d43_515f_757b_6967_3d33_212f_050b_1917
      case 0x60 => 0x7678_6a64_4e40_525c_0608_1a14_3e30_222c
      case 0x70 => 0x9698_8a84_aea0_b2bc_e6e8_faf4_ded0_c2cc
      case 0x80 => 0x414f_5d53_7977_656b_313f_2d23_0907_151b
      case 0x90 => 0xa1af_bdb3_9997_858b_d1df_cdc3_e9e7_f5fb
      case 0xa0 => 0x9a94_8688_a2ac_beb0_eae4_f6f8_d2dc_cec0
      case 0xb0 => 0x7a74_6668_424c_5e50_0a04_1618_323c_2e20
      case 0xc0 => 0xece2_f0fe_d4da_c8c6_9c92_808e_a4aa_b8b6
      case 0xd0 => 0x0c02_101e_343a_2826_7c72_606e_444a_5856
      case 0xe0 => 0x3739_2b25_0f01_131d_4749_5b55_7f71_636d
      case _ => 0xd7d9_cbc5_efe1_f3fd_a7a9_bbb5_9f91_838d,
      b)
  }

  // ---------------------------------------------------------------------------
  // What they tabulate
  // ---------------------------------------------------------------------------

  /** The inverse substitution undoes the substitution. */
  lemma SubByteInverse(b: bv8)
    ensures InvSubByte(SubByte(b)) == b
  {
    if b & 0x80 == 0 {
      SubByteInverseLow(b);
    } else {
      SubByteInverseHigh(b);
    }
  }

  lemma SubByteInverseLow(b: bv8)
    requires b & 0x80 == 0
    ensures InvSubByte(SubByte(b)) == b
  {
  }

  lemma SubByteInverseHigh(b: bv8)
    requires b & 0x80 != 0
    ensures InvSubByte(SubByte(b)) == b
  {
  }

  // Addition in the field, and the laws its proofs use.

  function Xor(a: bv8, b: bv8): (r: bv8) {
    a ^ b
  }

  lemma XorCancels(a: bv8, k: bv8)
    ensures Xor(Xor(a, k), k) == a
  {
  }

  lemma Interchange(a: bv8, b: bv8, c: bv8, d: bv8)
    ensures Xor(Xor(a, b), Xor(c, d)) == Xor(Xor(a, c), Xor(b, d))
  {
    assert (a ^ b) ^ (c ^ d) == (a ^ c) ^ (b ^ d);
  }

  lemma Rotate(a: bv8, b: bv8, c: bv8, d: bv8)
    ensures Xor(Xor(a, b), Xor(c, d)) == Xor(Xor(b, c), Xor(d, a))
  {
    assert (a ^ b) ^ (c ^ d) == (b ^ c) ^ (d ^ a);
  }

  lemma Zeros(a: bv8)
    ensures Xor(Xor(a, 0), Xor(0, 0)) == a
  {
  }

  /** Multiplication by x modulo x^8 + x^4 + x^3 + x + 1. */
  function Xtime(b: bv8): (r: bv8) {
    Xor(b << 1, Overflow(b))
  }

  function Overflow(b: bv8): (r: bv8) {
    if b & 0x80 == 0 then 0 else 0x1b
  }

  lemma XtimeAdds(a: bv8, b: bv8)
    ensures Xtime(Xor(a, b)) == Xor(Xtime(a), Xtime(b))
  {
    hide Xor, Overflow;
    ShiftAdds(a, b);
    OverflowAdds(a, b);
    Interchange(a << 1, b << 1, Overflow(a), Overflow(b));
  }

  lemma ShiftAdds(a: bv8, b: bv8)
    ensures Xor(a, b) << 1 == Xor(a << 1, b << 1)
  {
    assert (a ^ b) << 1 == (a << 1) ^ (b << 1);
  }

  lemma OverflowAdds(a: bv8, b: bv8)
    ensures Overflow(Xor(a, b)) == Xor(Overflow(a), Overflow(b))
  {
    assert (a ^ b) & 0x80 == 0 <==> (a & 0x80 == 0 <==> b & 0x80 == 0);
  }

  function Xtime2(b: bv8): (r: bv8) {
    Xtime(Xtime(b))
  }

  function Xtime3(b: bv8): (r: bv8) {
    Xtime(Xtime2(b))
  }

  lemma XtimesAdd(a: bv8, b: bv8)
    ensures Xtime(Xor(a, b)) == Xor(Xtime(a), Xtime(b))
    ensures Xtime2(Xor(a, b)) == Xor(Xtime2(a), Xtime2(b))
    ensures Xtime3(Xor(a, b)) == Xor(Xtime3(a), Xtime3(b))
  {
    hide Xor, Xtime;
    XtimeAdds(a, b);
    XtimeAdds(Xtime(a), Xtime(b));
    XtimeAdds(Xtime2(a), Xtime2(b));
  }

  lemma MulTable2(b: bv8)
    ensures Mul2(b) == Xtime(b)
  {
  }

  lemma MulTable3(b: bv8)
    ensures Mul3(b) == Xor(Xtime(b), b)
  {
  }

  lemma MulTable9(b: bv8)
    ensures Mul9(b) == Xor(Xtime3(b), b)
  {
  }

  lemma MulTableB(b: bv8)
    ensures MulB(b) == Xor(Xtime3(b), Xor(Xtime(b), b))
  {
  }

  lemma MulTableD(b: bv8)
    ensures MulD(b) == Xor(Xtime3(b), Xor(Xtime2(b), b))
  {
  }

  lemma MulTableE(b: bv8)
    ensures MulE(b) == Xor(Xtime3(b), Xor(Xtime2(b), Xtime(b)))
  {
  }

  // ---------------------------------------------------------------------------
  // The substitution (section 5.1.1 of FIPS 197)
  // ---------------------------------------------------------------------------

  /** The product in the field, by the bits of the first factor. */
  function Product(a: bv8, b: bv8): (r: bv8) {
    var b3 := Xtime3(b);
    var b6 := Xtime3(b3);
    Xor(Low(a, b, Xtime(b), Xtime2(b), b3), High(a, Xtime(b3), Xtime2(b3), b6, Xtime(b6)))
  }

  function Part(a: bv8, bit: bv8, b: bv8): (r: bv8) {
    if a & bit == 0 then 0 else b
  }

  /** The tables are those of the product. */
  lemma TablesAreProducts(b: bv8)
    ensures Product(2, b) == Mul2(b) && Product(3, b) == Mul3(b) && Product(9, b) == Mul9(b)
    ensures Product(11, b) == MulB(b) && Product(13, b) == MulD(b) && Product(14, b) == MulE(b)
  {
    hide Mul2, Mul3, Mul9, MulB, MulD, MulE, Xtime, Xtime2, Xtime3, Xor, Product;
    MulTable2(b); MulTable3(b); MulTable9(b); MulTableB(b); MulTableD(b); MulTableE(b);
    ProductByTwo(b); ProductByThree(b);
    ProductByNine(b); ProductByEleven(b); ProductByThirteen(b); ProductByFourteen(b);
  }

  lemma ProductByTwo(b: bv8)
    ensures Product(2, b) == Xtime(b)
  {
  }

  lemma ProductByThree(b: bv8)
    ensures Product(3, b) == Xor(Xtime(b), b)
  {
  }

  lemma ProductByNine(b: bv8)
    ensures Product(9, b) == Xor(Xtime3(b), b)
  {
  }

  lemma ProductByEleven(b: bv8)
    ensures Product(11, b) == Xor(Xtime3(b), Xor(Xtime(b), b))
  {
  }

  lemma ProductByThirteen(b: bv8)
    ensures Product(13, b) == Xor(Xtime3(b), Xor(Xtime2(b), b))
  {
  }

  lemma ProductByFourteen(b: bv8)
    ensures Product(14, b) == Xor(Xtime3(b), Xor(Xtime2(b), Xtime(b)))
  {
  }

  lemma ProductAdds(x: bv8, y: bv8, b: bv8)
    ensures Product(Xor(x, y), b) == Xor(Product(x, b), Product(y, b))
  {
    hide Xtime, Xtime2, Xtime3, Xor, Part;
    var b3 := Xtime3(b);
    var b6 := Xtime3(b3);
    PartsAdd(x, y, b, Xtime(b), Xtime2(b), b3);
    HighPartsAdd(x, y, Xtime(b3), Xtime2(b3), b6, Xtime(b6));
    Interchange(Low(x, b, Xtime(b), Xtime2(b), b3), Low(y, b, Xtime(b), Xtime2(b), b3),
                High(x, Xtime(b3), Xtime2(b3), b6, Xtime(b6)), High(y, Xtime(b3), Xtime2(b3), b6, Xtime(b6)));
  }

  function Low(a: bv8, p: bv8, q: bv8, r: bv8, s: bv8): (t: bv8) {
    Xor(Xor(Part(a, 0x01, p), Part(a, 0x02, q)), Xor(Part(a, 0x04, r), Part(a, 0x08, s)))
  }

  function High(a: bv8, p: bv8, q: bv8, r: bv8, s: bv8): (t: bv8) {
    Xor(Xor(Part(a, 0x10, p), Part(a, 0x20, q)), Xor(Part(a, 0x40, r), Part(a, 0x80, s)))
  }

  lemma PartsAdd(x: bv8, y: bv8, p: bv8, q: bv8, r: bv8, s: bv8)
    ensures Low(Xor(x, y), p, q, r, s) == Xor(Low(x, p, q, r, s), Low(y, p, q, r, s))
  {
    hide Xor, Part;
    PartAdds(x, y, 0x01, p); PartAdds(x, y, 0x02, q); PartAdds(x, y, 0x04, r); PartAdds(x, y, 0x08, s);
    Interchange(Part(x, 0x01, p), Part(y, 0x01, p), Part(x, 0x02, q), Part(y, 0x02, q));
    Interchange(Part(x, 0x04, r), Part(y, 0x04, r), Part(x, 0x08, s), Part(y, 0x08, s));
    Interchange(Xor(Part(x, 0x01, p), Part(x, 0x02, q)), Xor(Part(y, 0x01, p), Part(y, 0x02, q)),
                Xor(Part(x, 0x04, r), Part(x, 0x08, s)), Xor(Part(y, 0x04, r), Part(y, 0x08, s)));
  }

  lemma HighPartsAdd(x: bv8, y: bv8, p: bv8, q: bv8, r: bv8, s: bv8)
    ensures High(Xor(x, y), p, q, r, s) == Xor(High(x, p, q, r, s), High(y, p, q, r, s))
  {
    hide Xor, Part;
    PartAdds(x, y, 0x10, p); PartAdds(x, y, 0x20, q); PartAdds(x, y, 0x40, r); PartAdds(x, y, 0x80, s);
    Interchange(Part(x, 0x10, p), Part(y, 0x10, p), Part(x, 0x20, q), Part(y, 0x20, q));
    Interchange(Part(x, 0x40, r), Part(y, 0x40, r), Part(x, 0x80, s), Part(y, 0x80, s));
    Interchange(Xor(Part(x, 0x10, p), Part(x, 0x20, q)), Xor(Part(y, 0x10, p), Part(y, 0x20, q)),
                Xor(Part(x, 0x40, r), Part(x, 0x80, s)), Xor(Part(y, 0x40, r), Part(y, 0x80, s)));
  }

  lemma PartAdds(x: bv8, y: bv8, bit: bv8, b: bv8)
    requires bit == 0x01 || bit == 0x02 || bit == 0x04 || bit == 0x08 || bit == 0x10 || bit == 0x20 || bit == 0x40 ||
             bit == 0x80
    ensures Part(Xor(x, y), bit, b) == Xor(Part(x, bit, b), Part(y, bit, b))
  {
    assert (x ^ y) & bit == 0 <==> (x & bit == 0 <==> y & bit == 0);
  }

  /** Bit i of the result is bits i, i + 4, i + 5, i + 6 and i + 7 of x, modulo 8, and that of 63 hex. */
  function Affine(x: bv8): (r: bv8) {
    x ^ ((x << 1) | (x >> 7)) ^ ((x << 2) | (x >> 6)) ^ ((x << 3) | (x >> 5)) ^ ((x << 4) | (x >> 4)) ^ 0x63
  }

  function InvAffine(y: bv8): (x: bv8) {
    ((y << 1) | (y >> 7)) ^ ((y << 3) | (y >> 5)) ^ ((y << 6) | (y >> 2)) ^ 0x05
  }

  lemma AffineInverse(x: bv8)
    ensures Affine(InvAffine(x)) == x
  {
  }

  lemma ReciprocalLow(b: bv8)
    requires b != 0 && b & 0x80 == 0
    ensures Product(InvAffine(SubByte(b)), b) == 1
  {
  }

  lemma ReciprocalHigh(b: bv8)
    requires b & 0x80 != 0
    ensures Product(InvAffine(SubByte(b)), b) == 1
  {
  }

  lemma NoZeroDivisors(a: bv8, b: bv8)
    requires Product(a, b) == 0
    ensures a == 0 || b == 0
  {
    if b & 0x80 != 0 {
      NoZeroDivisorsHigh(a, b);
    } else if b & 0x40 != 0 {
      NoZeroDivisorsMiddle(a, b);
    } else {
      NoZeroDivisorsLow(a, b);
    }
  }

  lemma NoZeroDivisorsHigh(a: bv8, b: bv8)
    requires Product(a, b) == 0 && b & 0x80 != 0
    ensures a == 0
  {
  }

  lemma NoZeroDivisorsMiddle(a: bv8, b: bv8)
    requires Product(a, b) == 0 && b & 0xc0 == 0x40
    ensures a == 0
  {
  }

  lemma NoZeroDivisorsLow(a: bv8, b: bv8)
    requires Product(a, b) == 0 && b & 0xc0 == 0
    ensures a == 0 || b == 0
  {
  }

  /** The substitution is the reciprocal in the field, followed by the affine map; zero goes to 63 hex. */
  lemma SubByteIsAffineReciprocal(b: bv8, x: bv8)
    ensures SubByte(0) == 0x63
    ensures b != 0 ==> exists r :: Product(r, b) == 1
    ensures Product(x, b) == 1 ==> SubByte(b) == Affine(x)
  {
    assert SubByte(0) == 0x63;
    hide Product, SubByte, Affine, InvAffine, Xor;
    if b == 0 {
      NothingTimesZero(x);
    } else {
      var r := InvAffine(SubByte(b));
      if b & 0x80 == 0 {
        ReciprocalLow(b);
      } else {
        ReciprocalHigh(b);
      }
      if Product(x, b) == 1 {
        ProductAdds(x, r, b);
        SameCancels(1);
        NoZeroDivisors(Xor(x, r), b);
        XorIsZero(x, r);
        AffineInverse(SubByte(b));
      }
    }
  }

  lemma NothingTimesZero(x: bv8)
    ensures Product(x, 0) == 0
  {
  }

  lemma SameCancels(a: bv8)
    ensures Xor(a, a) == 0
  {
  }

  lemma XorIsZero(a: bv8, b: bv8)
    requires Xor(a, b) == 0
    ensures a == b
  {
  }

  /** And the inverse substitution is undone by it, too. */
  lemma InvSubByteInverse(b: bv8)
    ensures SubByte(InvSubByte(b)) == b
  {
    if b & 0x80 == 0 {
      InvSubByteInverseLow(b);
    } else {
      InvSubByteInverseHigh(b);
    }
  }

  lemma InvSubByteInverseLow(b: bv8)
    requires b & 0x80 == 0
    ensures SubByte(InvSubByte(b)) == b
  {
  }

  lemma InvSubByteInverseHigh(b: bv8)
    requires b & 0x80 != 0
    ensures SubByte(InvSubByte(b)) == b
  {
  }

  // ---------------------------------------------------------------------------
  // Columns
  // ---------------------------------------------------------------------------

  datatype Column = Column(a: bv8, b: bv8, c: bv8, d: bv8) {
    /** The byte in row r, rows being counted modulo four. */
    function At(r: nat): (x: bv8) {
      match r % 4
      case 0 => a
      case 1 => b
      case 2 => c
      case _ => d
    }
  }

  /** A byte of a mixed column; the others are those of the column turned round. */
  function MixByte(a: bv8, b: bv8, c: bv8, d: bv8): (r: bv8) {
    Xor(Xor(Mul2(a), Mul3(b)), Xor(c, d))
  }

  /** oaes_mix_cols */
  function MixColumn(w: Column): (r: Column) {
    Column(MixByte(w.a, w.b, w.c, w.d), MixByte(w.b, w.c, w.d, w.a),
           MixByte(w.c, w.d, w.a, w.b), MixByte(w.d, w.a, w.b, w.c))
  }

  /** Each byte of a mixed column is a combination of all four (section 5.1.3 of FIPS 197). */
  lemma MixColumnAt(w: Column, r: nat)
    requires r < 4
    ensures MixColumn(w).At(r) == Xor(Xor(Product(2, w.At(r)), Product(3, w.At(r + 1))), Xor(w.At(r + 2), w.At(r + 3)))
  {
    hide Xor, Product, MixByte;
    MixByteIs(w.At(r), w.At(r + 1), w.At(r + 2), w.At(r + 3));
  }

  lemma MixByteIs(a: bv8, b: bv8, c: bv8, d: bv8)
    ensures MixByte(a, b, c, d) == Xor(Xor(Product(2, a), Product(3, b)), Xor(c, d))
  {
    hide Xor, Product, Mul2, Mul3;
    TablesAreProducts(a);
    TablesAreProducts(b);
  }

  function UnmixByte(a: bv8, b: bv8, c: bv8, d: bv8): (r: bv8) {
    Xor(Xor(MulE(a), MulB(b)), Xor(MulD(c), Mul9(d)))
  }

  /** oaes_inv_mix_cols */
  function InvMixColumn(w: Column): (r: Column) {
    Column(UnmixByte(w.a, w.b, w.c, w.d), UnmixByte(w.b, w.c, w.d, w.a),
           UnmixByte(w.c, w.d, w.a, w.b), UnmixByte(w.d, w.a, w.b, w.c))
  }

  /** Unmixing is linear. */
  lemma UnmixAdds(a: bv8, b: bv8, c: bv8, d: bv8, p: bv8, q: bv8, r: bv8, s: bv8)
    ensures UnmixByte(Xor(a, p), Xor(b, q), Xor(c, r), Xor(d, s)) == Xor(UnmixByte(a, b, c, d), UnmixByte(p, q, r, s))
  {
    hide Mul9, MulB, MulD, MulE, Xor;
    ProductsAdd(a, p);
    ProductsAdd(b, q);
    ProductsAdd(c, r);
    ProductsAdd(d, s);
    Interchange(MulE(a), MulE(p), MulB(b), MulB(q));
    Interchange(MulD(c), MulD(r), Mul9(d), Mul9(s));
    Interchange(Xor(MulE(a), MulB(b)), Xor(MulE(p), MulB(q)), Xor(MulD(c), Mul9(d)), Xor(MulD(r), Mul9(s)));
  }

  lemma ProductsAdd(a: bv8, b: bv8)
    ensures Mul9(Xor(a, b)) == Xor(Mul9(a), Mul9(b)) && MulB(Xor(a, b)) == Xor(MulB(a), MulB(b))
    ensures MulD(Xor(a, b)) == Xor(MulD(a), MulD(b)) && MulE(Xor(a, b)) == Xor(MulE(a), MulE(b))
  {
    hide Mul9, MulB, MulD, MulE, Xtime, Xtime2, Xtime3, Xor;
    MulTable9(a); MulTable9(b); MulTable9(Xor(a, b));
    MulTableB(a); MulTableB(b); MulTableB(Xor(a, b));
    MulTableD(a); MulTableD(b); MulTableD(Xor(a, b));
    MulTableE(a); MulTableE(b); MulTableE(Xor(a, b));
    XtimesAdd(a, b);
    Interchange(Xtime3(a), Xtime3(b), a, b);
    Interchange(Xtime(a), Xtime(b), a, b);
    Interchange(Xtime2(a), Xtime2(b), a, b);
    Interchange(Xtime2(a), Xtime2(b), Xtime(a), Xtime(b));
    Interchange(Xtime3(a), Xtime3(b), Xor(Xtime(a), a), Xor(Xtime(b), b));
    Interchange(Xtime3(a), Xtime3(b), Xor(Xtime2(a), a), Xor(Xtime2(b), b));
    Interchange(Xtime3(a), Xtime3(b), Xor(Xtime2(a), Xtime(a)), Xor(Xtime2(b), Xtime(b)));
  }

  // The first row of the product of the two matrices is that of the identity.

  lemma FirstEntry(a: bv8)
    ensures UnmixByte(Mul2(a), a, a, Mul3(a)) == a
  {
    hide Mul2, Mul3, Mul9, MulB, MulD, MulE;
    MulTable2(a); MulTable3(a);
    MulTableE(Mul2(a)); MulTableB(a); MulTableD(a); MulTable9(Mul3(a));
  }

  lemma SecondEntry(a: bv8)
    ensures UnmixByte(Mul3(a), Mul2(a), a, a) == 0
  {
    hide Mul2, Mul3, Mul9, MulB, MulD, MulE;
    MulTable2(a); MulTable3(a);
    MulTableE(Mul3(a)); MulTableB(Mul2(a)); MulTableD(a); MulTable9(a);
  }

  lemma ThirdEntry(a: bv8)
    ensures UnmixByte(a, Mul3(a), Mul2(a), a) == 0
  {
    hide Mul2, Mul3, Mul9, MulB, MulD, MulE;
    MulTable2(a); MulTable3(a);
    MulTableE(a); MulTableB(Mul3(a)); MulTableD(Mul2(a)); MulTable9(a);
  }

  lemma FourthEntry(a: bv8)
    ensures UnmixByte(a, a, Mul3(a), Mul2(a)) == 0
  {
    hide Mul2, Mul3, Mul9, MulB, MulD, MulE;
    MulTable2(a); MulTable3(a);
    MulTableE(a); MulTableB(a); MulTableD(Mul3(a)); MulTable9(Mul2(a));
  }

  lemma UnmixOfMix(a: bv8, b: bv8, c: bv8, d: bv8)
    ensures UnmixByte(MixByte(a, b, c, d), MixByte(b, c, d, a), MixByte(c, d, a, b), MixByte(d, a, b, c)) == a
  {
    hide Mul2, Mul3, UnmixByte, Xor;
    FirstEntry(a); SecondEntry(b); ThirdEntry(c); FourthEntry(d);
    UnmixAdds(Mul2(a), a, a, Mul3(a), Mul3(b), Mul2(b), b, b);
    UnmixAdds(c, Mul3(c), Mul2(c), c, d, d, Mul3(d), Mul2(d));
    UnmixAdds(Xor(Mul2(a), Mul3(b)), Xor(a, Mul2(b)), Xor(a, b), Xor(Mul3(a), b),
              Xor(c, d), Xor(Mul3(c), d), Xor(Mul2(c), Mul3(d)), Xor(c, Mul2(d)));
    Rotate(a, Mul2(b), Mul3(c), d);
    Rotate(Mul2(c), Mul3(d), a, b);
    Rotate(Mul3(d), a, b, Mul2(c));
    Rotate(Mul2(d), Mul3(a), b, c);
    Zeros(a);
  }

  lemma MixColumnInverse(w: Column)
    ensures InvMixColumn(MixColumn(w)) == w
  {
    hide MixByte, UnmixByte;
    UnmixOfMix(w.a, w.b, w.c, w.d);
    UnmixOfMix(w.b, w.c, w.d, w.a);
    UnmixOfMix(w.c, w.d, w.a, w.b);
    UnmixOfMix(w.d, w.a, w.b, w.c);
  }
}
