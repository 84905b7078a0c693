/** The AES S-box and its inverse, as the tables the code uses. */
module AesSboxes {
  /** Row `hi` of the S-box: sixteen entries, the first most significant. */
  function SboxRow(hi: bv8): bv128 {
    if hi == 0 then 0x637c777b_f26b6fc5_3001672b_fed7ab76
    else if hi == 1 then 0xca82c97d_fa5947f0_add4a2af_9ca472c0
    else if hi == 2 then 0xb7fd9326_363ff7cc_34a5e5f1_71d83115
    else if hi == 3 then 0x04c723c3_1896059a_071280e2_eb27b275
    else if hi == 4 then 0x09832c1a_1b6e5aa0_523bd6b3_29e32f84
    else if hi == 5 then 0x53d100ed_20fcb15b_6acbbe39_4a4c58cf
    else if hi == 6 then 0xd0efaafb_434d3385_45f9027f_503c9fa8
    else if hi == 7 then 0x51a3408f_929d38f5_bcb6da21_10fff3d2
    else if hi == 8 then 0xcd0c13ec_5f974417_c4a77e3d_645d1973
    else if hi == 9 then 0x60814fdc_222a9088_46eeb814_de5e0bdb
    else if hi == 10 then 0xe0323a0a_4906245c_c2d3ac62_9195e479
    else if hi == 11 then 0xe7c8376d_8dd54ea9_6c56f4ea_657aae08
    else if hi == 12 then 0xba78252e_1ca6b4c6_e8dd741f_4bbd8b8a
    else if hi == 13 then 0x703eb566_4803f60e_613557b9_86c11d9e
    else if hi == 14 then 0xe1f89811_69d98e94_9b1e87e9_ce5528df
    else 0x8ca1890d_bfe64268_41992d0f_b054bb16
  }

  /** Row `hi` of the inverse S-box. */
  function InverseSboxRow(hi: bv8): bv128 {
    if hi == 0 then 0x52096ad5_3036a538_bf40a39e_81f3d7fb
    else if hi == 1 then 0x7ce33982_9b2fff87_348e4344_c4dee9cb
    else if hi == 2 then 0x547b9432_a6c2233d_ee4c950b_42fac34e
    else if hi == 3 then 0x082ea166_28d924b2_765ba249_6d8bd125
    else if hi == 4 then 0x72f8f664_86689816_d4a45ccc_5d65b692
    else if hi == 5 then 0x6c704850_fdedb9da_5e154657_a78d9d84
    else if hi == 6 then 0x90d8ab00_8cbcd30a_f7e45805_b8b34506
    else if hi == 7 then 0xd02c1e8f_ca3f0f02_c1afbd03_01138a6b
    else if hi == 8 then 0x3a911141_4f67dcea_97f2cfce_f0b4e673
    else if hi == 9 then 0x96ac7422_e7ad3585_e2f937e8_1c75df6e
    else if hi == 10 then 0x47f11a71_1d29c589_6fb7620e_aa18be1b
    else if hi == 11 then 0xfc563e4b_c6d27920_9adbc0fe_78cd5af4
    else if hi == 12 then 0x1fdda833_8807c731_b1121059_2780ec5f
    else if hi == 13 then 0x60517fa9_19b54a0d_2de57a9f_93c99cef
    else if hi == 14 then 0xa0e03b4d_ae2af5b0_c8ebbb3c_83539961
    else 0x172b047e_ba77d626_e1691463_55210c7d
  }

  function Entry(row: bv128, lo: bv8): bv8
    requires lo <= 0xf
  {
    ((row >> ((0xf - lo) * 8)) & 0xff) as bv8
  }

  function Sub(b: bv8): bv8 {
    Entry(SboxRow(b >> 4), b & 0xf)
  }

  function InvSub(b: bv8): bv8 {
    Entry(InverseSboxRow(b >> 4), b & 0xf)
  }

  lemma SubInverseInFirstQuarter(b: bv8)
    requires b < 0x40
    ensures InvSub(Sub(b)) == b
  {
  }

  lemma SubInverseInSecondQuarter(b: bv8)
    requires 0x40 <= b < 0x80
    ensures InvSub(Sub(b)) == b
  {
  }

  lemma SubInverseInThirdQuarter(b: bv8)
    requires 0x80 <= b < 0xc0
    ensures InvSub(Sub(b)) == b
  {
  }

  lemma SubInverseInLastQuarter(b: bv8)
    requires 0xc0 <= b
    ensures InvSub(Sub(b)) == b
  {
  }

  /** The two tables undo each other. */
  lemma SubInverse(b: bv8)
    ensures InvSub(Sub(b)) == b
  {
    hide Sub, InvSub;
    if b < 0x40 {
      SubInverseInFirstQuarter(b);
    } else if b < 0x80 {
      SubInverseInSecondQuarter(b);
    } else if b < 0xc0 {
      SubInverseInThirdQuarter(b);
    } else {
      SubInverseInLastQuarter(b);
    }
  }
}
