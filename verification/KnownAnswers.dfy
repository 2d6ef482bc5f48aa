/** A known answer of the whole text cipher: the text "%" under the key "0123456789abcdef". */
module KnownAnswers {
  import opened Machine
  import opened Xxtea
  import XxteaText
  import Base64
  import Edcode

  const KEY_TEXT: seq<byte> := [48, 49, 50, 51, 52, 53, 54, 55, 56, 57, 97, 98, 99, 100, 101, 102]
  const KEY: seq<u32> := [0x3332_3130, 0x3736_3534, 0x6261_3938, 0x6665_6463]

  /** After r rounds the sum is s and the two words are a and b. */
  ghost predicate After(r: nat, s: u32, a: u32, b: u32) {
    SumAfter(r) == s && EncryptRounds([37, 1], KeyMixer(KEY), r) == [a, b]
  }

  lemma RoundOfTwo(a: u32, b: u32, m: Mixer)
    ensures var a' := Add32(a, m(0, b, b)); Forward([a, b], 0, m) == [a', Add32(b, m(1, a', a'))]
  {
    var v := [a, b];
    var a' := Add32(a, m(0, b, b));
    assert Mix(v, 0, m) == [a', b];
    assert Mix([a', b], 1, m) == [a', Add32(b, m(1, a', a'))];
    assert Forward(v, 0, m) == Forward([a', b], 1, m) == Forward([a', Add32(b, m(1, a', a'))], 2, m);
  }

  function Neighbour(e: nat): (f: nat)
    requires e < 4
    ensures f < 4
  {
    if e % 2 == 0 then e + 1 else e - 1
  }

  lemma FirstTwoKeys(s: u32, e: nat)
    requires e < 4 && e == s / 4 % 4
    ensures KeyIndex(0, s) == e && KeyIndex(1, s) == Neighbour(e)
  {
    hide KeyIndex;
    KeyIndexBits(0, s);
    KeyIndexBits(1, s);
    if e == 0 {
    } else if e == 1 {
    } else if e == 2 {
    } else {
    }
  }

  lemma Next(r: nat, s: u32, a: u32, b: u32, e: nat, s': u32, a': u32, b': u32)
    requires After(r, s, a, b) && s' == Add32(s, DELTA) && e < 4 && e == s' / 4 % 4
    requires a' == Add32(a, Mx(b, b, s', KEY[e])) && b' == Add32(b, Mx(a', a', s', KEY[Neighbour(e)]))
    ensures After(r + 1, s', a', b')
  {
    hide Mx;
    hide KeyIndex;
    FirstTwoKeys(s', e);
    RoundOfTwo(a, b, KeyMixer(KEY)(s'));
  }

  lemma Mixed0To4()
    ensures Mx(1, 1, 0x9e37_79b9, 0x6261_3938) == 0x0098_b2e5
    ensures Mx(0x0098_b30a, 0x0098_b30a, 0x9e37_79b9, 0x6665_6463) == 0x0e53_926d
    ensures Mx(0x0e53_926e, 0x0e53_926e, 0x3c6e_f372, 0x3332_3130) == 0x71af_2da2
    ensures Mx(0x7247_e0ac, 0x7247_e0ac, 0x3c6e_f372, 0x3736_3534) == 0x675e_5dfc
    ensures Mx(0x75b1_f06a, 0x75b1_f06a, 0xdaa6_6d2b, 0x6261_3938) == 0xedfb_e04b
    ensures Mx(0x6043_c0f7, 0x6043_c0f7, 0xdaa6_6d2b, 0x6665_6463) == 0x4b4d_c739
    ensures Mx(0xc0ff_b7a3, 0xc0ff_b7a3, 0x78dd_e6e4, 0x3736_3534) == 0xb236_7c2b
    ensures Mx(0x127a_3d22, 0x127a_3d22, 0x78dd_e6e4, 0x3332_3130) == 0xe488_5d3d
  {
  }

  lemma Rounds0To4()
    requires After(0, 0, 37, 1)
    ensures After(4, 0x78dd_e6e4, 0x127a_3d22, 0xa588_14e0)
  {
    hide Mx;
    hide After;
    Mixed0To4();
    Next(0, 0, 37, 1, 2, 0x9e37_79b9, 0x0098_b30a, 0x0e53_926e);
    Next(1, 0x9e37_79b9, 0x0098_b30a, 0x0e53_926e, 0, 0x3c6e_f372, 0x7247_e0ac, 0x75b1_f06a);
    Next(2, 0x3c6e_f372, 0x7247_e0ac, 0x75b1_f06a, 2, 0xdaa6_6d2b, 0x6043_c0f7, 0xc0ff_b7a3);
    Next(3, 0xdaa6_6d2b, 0x6043_c0f7, 0xc0ff_b7a3, 1, 0x78dd_e6e4, 0x127a_3d22, 0xa588_14e0);
  }

  lemma Mixed4To8()
    ensures Mx(0xa588_14e0, 0xa588_14e0, 0x1715_609d, 0x6665_6463) == 0xa9b6_bac3
    ensures Mx(0xbc30_f7e5, 0xbc30_f7e5, 0x1715_609d, 0x6261_3938) == 0x40dc_de82
    ensures Mx(0xe664_f362, 0xe664_f362, 0xb54c_da56, 0x3736_3534) == 0x3d5e_7dd5
    ensures Mx(0xf98f_75ba, 0xf98f_75ba, 0xb54c_da56, 0x3332_3130) == 0x7e38_962a
    ensures Mx(0x649d_898c, 0x649d_898c, 0x5384_540f, 0x6665_6463) == 0xec8f_3f1f
    ensures Mx(0xe61e_b4d9, 0xe61e_b4d9, 0x5384_540f, 0x6261_3938) == 0x2668_af7a
    ensures Mx(0x8b06_3906, 0x8b06_3906, 0xf1bb_cdc8, 0x6261_3938) == 0xad60_d81c
    ensures Mx(0x937f_8cf5, 0x937f_8cf5, 0xf1bb_cdc8, 0x6665_6463) == 0x3922_2752
  {
  }

  lemma Rounds4To8()
    requires After(4, 0x78dd_e6e4, 0x127a_3d22, 0xa588_14e0)
    ensures After(8, 0xf1bb_cdc8, 0x937f_8cf5, 0xc428_6058)
  {
    hide Mx;
    hide After;
    Mixed4To8();
    Next(4, 0x78dd_e6e4, 0x127a_3d22, 0xa588_14e0, 3, 0x1715_609d, 0xbc30_f7e5, 0xe664_f362);
    Next(5, 0x1715_609d, 0xbc30_f7e5, 0xe664_f362, 1, 0xb54c_da56, 0xf98f_75ba, 0x649d_898c);
    Next(6, 0xb54c_da56, 0xf98f_75ba, 0x649d_898c, 3, 0x5384_540f, 0xe61e_b4d9, 0x8b06_3906);
    Next(7, 0x5384_540f, 0xe61e_b4d9, 0x8b06_3906, 2, 0xf1bb_cdc8, 0x937f_8cf5, 0xc428_6058);
  }

  lemma Mixed8To12()
    ensures Mx(0xc428_6058, 0xc428_6058, 0x8ff3_4781, 0x3332_3130) == 0x3276_b2ac
    ensures Mx(0xc5f6_3fa1, 0xc5f6_3fa1, 0x8ff3_4781, 0x3736_3534) == 0x6511_0fe8
    ensures Mx(0x2939_7040, 0x2939_7040, 0x2e2a_c13a, 0x6261_3938) == 0x6e37_ce78
    ensures Mx(0x342e_0e19, 0x342e_0e19, 0x2e2a_c13a, 0x6665_6463) == 0x792e_51fa
    ensures Mx(0xa267_c23a, 0xa267_c23a, 0xcc62_3af3, 0x3332_3130) == 0x41e6_f933
    ensures Mx(0x7615_074c, 0x7615_074c, 0xcc62_3af3, 0x3736_3534) == 0xb0ed_f904
    ensures Mx(0x5355_bb3e, 0x5355_bb3e, 0x6a99_b4ac, 0x6665_6463) == 0xe001_ab47
    ensures Mx(0x5616_b293, 0x5616_b293, 0x6a99_b4ac, 0x6261_3938) == 0xb792_eed0
  {
  }

  lemma Rounds8To12()
    requires After(8, 0xf1bb_cdc8, 0x937f_8cf5, 0xc428_6058)
    ensures After(12, 0x6a99_b4ac, 0x5616_b293, 0x0ae8_aa0e)
  {
    hide Mx;
    hide After;
    Mixed8To12();
    Next(8, 0xf1bb_cdc8, 0x937f_8cf5, 0xc428_6058, 0, 0x8ff3_4781, 0xc5f6_3fa1, 0x2939_7040);
    Next(9, 0x8ff3_4781, 0xc5f6_3fa1, 0x2939_7040, 2, 0x2e2a_c13a, 0x342e_0e19, 0xa267_c23a);
    Next(10, 0x2e2a_c13a, 0x342e_0e19, 0xa267_c23a, 0, 0xcc62_3af3, 0x7615_074c, 0x5355_bb3e);
    Next(11, 0xcc62_3af3, 0x7615_074c, 0x5355_bb3e, 3, 0x6a99_b4ac, 0x5616_b293, 0x0ae8_aa0e);
  }

  lemma Mixed12To16()
    ensures Mx(0x0ae8_aa0e, 0x0ae8_aa0e, 0x08d1_2e65, 0x3736_3534) == 0x9bd5_80ac
    ensures Mx(0xf1ec_333f, 0xf1ec_333f, 0x08d1_2e65, 0x3332_3130) == 0x7d25_7d95
    ensures Mx(0x880e_27a3, 0x880e_27a3, 0xa708_a81e, 0x6665_6463) == 0xab2d_7d08
    ensures Mx(0x9d19_b047, 0x9d19_b047, 0xa708_a81e, 0x6261_3938) == 0x0b4f_9ece
    ensures Mx(0x935d_c671, 0x935d_c671, 0x4540_21d7, 0x3736_3534) == 0x0b2c_0d3e
    ensures Mx(0xa845_bd85, 0xa845_bd85, 0x4540_21d7, 0x3332_3130) == 0xbdd5_62df
    ensures Mx(0x5133_2950, 0x5133_2950, 0xe377_9b90, 0x3332_3130) == 0x4b1f_e714
    ensures Mx(0xf365_a499, 0xf365_a499, 0xe377_9b90, 0x3736_3534) == 0x2621_6cf5
  {
  }

  lemma Rounds12To16()
    requires After(12, 0x6a99_b4ac, 0x5616_b293, 0x0ae8_aa0e)
    ensures After(16, 0xe377_9b90, 0xf365_a499, 0x7754_9645)
  {
    hide Mx;
    hide After;
    Mixed12To16();
    Next(12, 0x6a99_b4ac, 0x5616_b293, 0x0ae8_aa0e, 1, 0x08d1_2e65, 0xf1ec_333f, 0x880e_27a3);
    Next(13, 0x08d1_2e65, 0xf1ec_333f, 0x880e_27a3, 3, 0xa708_a81e, 0x9d19_b047, 0x935d_c671);
    Next(14, 0xa708_a81e, 0x9d19_b047, 0x935d_c671, 1, 0x4540_21d7, 0xa845_bd85, 0x5133_2950);
    Next(15, 0x4540_21d7, 0xa845_bd85, 0x5133_2950, 0, 0xe377_9b90, 0xf365_a499, 0x7754_9645);
  }

  lemma Mixed16To20()
    ensures Mx(0x7754_9645, 0x7754_9645, 0x81af_1549, 0x6261_3938) == 0x56bd_c6b7
    ensures Mx(0x4a23_6b50, 0x4a23_6b50, 0x81af_1549, 0x6665_6463) == 0x219d_03c8
    ensures Mx(0x98f1_9a0d, 0x98f1_9a0d, 0x1fe6_8f02, 0x3332_3130) == 0x31d3_b839
    ensures Mx(0x7bf7_2389, 0x7bf7_2389, 0x1fe6_8f02, 0x3736_3534) == 0x2cc2_d751
    ensures Mx(0xc5b4_715e, 0xc5b4_715e, 0xbe1e_08bb, 0x6261_3938) == 0x7791_c0f6
    ensures Mx(0xf388_e47f, 0xf388_e47f, 0xbe1e_08bb, 0x6665_6463) == 0x133b_5ebe
    ensures Mx(0xd8ef_d01c, 0xd8ef_d01c, 0x5c55_8274, 0x3736_3534) == 0x8fcd_0d23
    ensures Mx(0x8355_f1a2, 0x8355_f1a2, 0x5c55_8274, 0x3332_3130) == 0xa1eb_3971
  {
  }

  lemma Rounds16To20()
    requires After(16, 0xe377_9b90, 0xf365_a499, 0x7754_9645)
    ensures After(20, 0x5c55_8274, 0x8355_f1a2, 0x7adb_098d)
  {
    hide Mx;
    hide After;
    Mixed16To20();
    Next(16, 0xe377_9b90, 0xf365_a499, 0x7754_9645, 2, 0x81af_1549, 0x4a23_6b50, 0x98f1_9a0d);
    Next(17, 0x81af_1549, 0x4a23_6b50, 0x98f1_9a0d, 0, 0x1fe6_8f02, 0x7bf7_2389, 0xc5b4_715e);
    Next(18, 0x1fe6_8f02, 0x7bf7_2389, 0xc5b4_715e, 2, 0xbe1e_08bb, 0xf388_e47f, 0xd8ef_d01c);
    Next(19, 0xbe1e_08bb, 0xf388_e47f, 0xd8ef_d01c, 1, 0x5c55_8274, 0x8355_f1a2, 0x7adb_098d);
  }

  lemma Mixed20To24()
    ensures Mx(0x7adb_098d, 0x7adb_098d, 0xfa8c_fc2d, 0x6665_6463) == 0x16b0_9bd7
    ensures Mx(0x9a06_8d79, 0x9a06_8d79, 0xfa8c_fc2d, 0x6261_3938) == 0x4700_225b
    ensures Mx(0xc1db_2be8, 0xc1db_2be8, 0x98c4_75e6, 0x3736_3534) == 0x56e0_2e16
    ensures Mx(0xf0e6_bb8f, 0xf0e6_bb8f, 0x98c4_75e6, 0x3332_3130) == 0xff62_1249
    ensures Mx(0xc13d_3e31, 0xc13d_3e31, 0x36fb_ef9f, 0x6665_6463) == 0x91ee_7a0b
    ensures Mx(0x82d5_359a, 0x82d5_359a, 0x36fb_ef9f, 0x6261_3938) == 0xd8ae_9870
    ensures Mx(0x99eb_d6a1, 0x99eb_d6a1, 0xd533_6958, 0x6261_3938) == 0xb883_bb67
    ensures Mx(0x3b58_f101, 0x3b58_f101, 0xd533_6958, 0x6665_6463) == 0xd434_3c07
  {
  }

  lemma Rounds20To24()
    requires After(20, 0x5c55_8274, 0x8355_f1a2, 0x7adb_098d)
    ensures After(24, 0xd533_6958, 0x3b58_f101, 0x6e20_12a8)
  {
    hide Mx;
    hide After;
    Mixed20To24();
    Next(20, 0x5c55_8274, 0x8355_f1a2, 0x7adb_098d, 3, 0xfa8c_fc2d, 0x9a06_8d79, 0xc1db_2be8);
    Next(21, 0xfa8c_fc2d, 0x9a06_8d79, 0xc1db_2be8, 1, 0x98c4_75e6, 0xf0e6_bb8f, 0xc13d_3e31);
    Next(22, 0x98c4_75e6, 0xf0e6_bb8f, 0xc13d_3e31, 3, 0x36fb_ef9f, 0x82d5_359a, 0x99eb_d6a1);
    Next(23, 0x36fb_ef9f, 0x82d5_359a, 0x99eb_d6a1, 2, 0xd533_6958, 0x3b58_f101, 0x6e20_12a8);
  }

  lemma Mixed24To28()
    ensures Mx(0x6e20_12a8, 0x6e20_12a8, 0x736a_e311, 0x3332_3130) == 0xd1eb_665b
    ensures Mx(0x0d44_575c, 0x0d44_575c, 0x736a_e311, 0x3736_3534) == 0xb3c8_6840
    ensures Mx(0x21e8_7ae8, 0x21e8_7ae8, 0x11a2_5cca, 0x6261_3938) == 0xd2ba_23a6
    ensures Mx(0xdffe_7b02, 0xdffe_7b02, 0x11a2_5cca, 0x6665_6463) == 0xdae9_d839
    ensures Mx(0xfcd2_5321, 0xfcd2_5321, 0xafd9_d683, 0x3332_3130) == 0xe584_b122
    ensures Mx(0xc583_2c24, 0xc583_2c24, 0xafd9_d683, 0x3736_3534) == 0x0db3_4202
    ensures Mx(0x0a85_9523, 0x0a85_9523, 0x4e11_503c, 0x6665_6463) == 0x6239_eee6
    ensures Mx(0x27bd_1b0a, 0x27bd_1b0a, 0x4e11_503c, 0x6261_3938) == 0xb167_f5d9
  {
  }

  lemma Rounds24To28()
    requires After(24, 0xd533_6958, 0x3b58_f101, 0x6e20_12a8)
    ensures After(28, 0x4e11_503c, 0x27bd_1b0a, 0xbbed_8afc)
  {
    hide Mx;
    hide After;
    Mixed24To28();
    Next(24, 0xd533_6958, 0x3b58_f101, 0x6e20_12a8, 0, 0x736a_e311, 0x0d44_575c, 0x21e8_7ae8);
    Next(25, 0x736a_e311, 0x0d44_575c, 0x21e8_7ae8, 2, 0x11a2_5cca, 0xdffe_7b02, 0xfcd2_5321);
    Next(26, 0x11a2_5cca, 0xdffe_7b02, 0xfcd2_5321, 0, 0xafd9_d683, 0xc583_2c24, 0x0a85_9523);
    Next(27, 0xafd9_d683, 0xc583_2c24, 0x0a85_9523, 3, 0x4e11_503c, 0x27bd_1b0a, 0xbbed_8afc);
  }

  lemma Mixed28To32()
    ensures Mx(0xbbed_8afc, 0xbbed_8afc, 0xec48_c9f5, 0x3736_3534) == 0x708f_6497
    ensures Mx(0x984c_7fa1, 0x984c_7fa1, 0xec48_c9f5, 0x3332_3130) == 0xe241_17b8
    ensures Mx(0x9e2e_a2b4, 0x9e2e_a2b4, 0x8a80_43ae, 0x6665_6463) == 0x6181_592a
    ensures Mx(0xf9cd_d8cb, 0xf9cd_d8cb, 0x8a80_43ae, 0x6261_3938) == 0x6a27_38cb
    ensures Mx(0x0855_db7f, 0x0855_db7f, 0x28b7_bd67, 0x3736_3534) == 0xc52a_9ba5
    ensures Mx(0xbef8_7470, 0xbef8_7470, 0x28b7_bd67, 0x3332_3130) == 0xd274_55a6
    ensures Mx(0xdaca_3125, 0xdaca_3125, 0xc6ef_3720, 0x3332_3130) == 0x23e5_ef8b
    ensures Mx(0xe2de_63fb, 0xe2de_63fb, 0xc6ef_3720, 0x3736_3534) == 0x4434_db68
  {
  }

  lemma Rounds28To32()
    requires After(28, 0x4e11_503c, 0x27bd_1b0a, 0xbbed_8afc)
    ensures After(32, 0xc6ef_3720, 0xe2de_63fb, 0x1eff_0c8d)
  {
    hide Mx;
    hide After;
    Mixed28To32();
    Next(28, 0x4e11_503c, 0x27bd_1b0a, 0xbbed_8afc, 1, 0xec48_c9f5, 0x984c_7fa1, 0x9e2e_a2b4);
    Next(29, 0xec48_c9f5, 0x984c_7fa1, 0x9e2e_a2b4, 3, 0x8a80_43ae, 0xf9cd_d8cb, 0x0855_db7f);
    Next(30, 0x8a80_43ae, 0xf9cd_d8cb, 0x0855_db7f, 1, 0x28b7_bd67, 0xbef8_7470, 0xdaca_3125);
    Next(31, 0x28b7_bd67, 0xbef8_7470, 0xdaca_3125, 0, 0xc6ef_3720, 0xe2de_63fb, 0x1eff_0c8d);
  }

  /** The cipher words of the packed text and its length. */
  lemma KnownWords()
    ensures Encrypt([37, 1], KEY) == [0xe2de_63fb, 0x1eff_0c8d]
  {
    assert After(0, 0, 37, 1);
    hide After;
    Rounds0To4();
    Rounds4To8();
    Rounds8To12();
    Rounds12To16();
    Rounds16To20();
    Rounds20To24();
    Rounds24To28();
    Rounds28To32();
    FromRounds(0xc6ef_3720, 0xe2de_63fb, 0x1eff_0c8d);
  }

  lemma FromRounds(s: u32, a: u32, b: u32)
    requires After(32, s, a, b)
    ensures Encrypt([37, 1], KEY) == [a, b]
  {
    hide KeyMixer;
    hide EncryptRounds;
  }

  const CIPHER: seq<byte> := [251, 99, 222, 226, 141, 12, 255, 30]

  lemma KnownKey()
    ensures XxteaText.Pack(KEY_TEXT[..16]) == KEY
  {
    var k := XxteaText.Pack(KEY_TEXT[..16]);
    assert KEY_TEXT[..16] == KEY_TEXT;
    assert k[0] == XxteaText.WordAt(KEY_TEXT, 0) && k[1] == XxteaText.WordAt(KEY_TEXT, 1);
    assert k[2] == XxteaText.WordAt(KEY_TEXT, 2) && k[3] == XxteaText.WordAt(KEY_TEXT, 3);
  }

  lemma KnownBytes()
    ensures XxteaText.EncryptBytes([37], KEY_TEXT) == CIPHER
  {
    hide Encrypt;
    KnownKey();
    KnownWords();
    assert XxteaText.Pack([37]) + [1] == [37, 1] by {
      assert XxteaText.Pack([37])[0] == XxteaText.WordAt([37], 0) == 37;
    }
    UnpackTwo(0xe2de_63fb, 0x1eff_0c8d);
  }

  lemma UnpackTwo(a: u32, b: u32)
    ensures XxteaText.Unpack([a, b], 8) == [
      a % 0x100, a / 0x100 % 0x100, a / 0x1_0000 % 0x100, a / 0x100_0000 % 0x100,
      b % 0x100, b / 0x100 % 0x100, b / 0x1_0000 % 0x100, b / 0x100_0000 % 0x100]
  {
  }

  lemma KnownBase64()
    ensures Base64.Encoded(CIPHER) == [43, 50, 80, 101, 52, 111, 48, 77, 47, 120, 52, 61]
  {
    var t := Base64.Encoded(CIPHER);
    FirstGroups();
    LastGroup();
    hide *;
    GroupOf(0);
    GroupOf(1);
    GroupOf(2);
    assert t[..0] == [] && t[..12] == t;
  }

  lemma FirstGroups()
    ensures Chars(0) == [43, 50, 80, 101] && Chars(1) == [52, 111, 48, 77]
  {
    hide Base64.CharOf;
    Base64.FullGroup(CIPHER, 0);
    Base64.FullGroup(CIPHER, 1);
  }

  lemma LastGroup()
    ensures Chars(2) == [47, 120, 52, 61]
  {
    hide Base64.CharOf;
    Base64.LastGroup(CIPHER, 2);
  }

  function Chars(g: nat): seq<byte> {
    [Base64.CharOf(CIPHER, g, 0), Base64.CharOf(CIPHER, g, 1), Base64.CharOf(CIPHER, g, 2), Base64.CharOf(CIPHER, g, 3)]
  }

  lemma GroupOf(g: nat)
    requires g < 3
    ensures 4 * g + 4 <= |Base64.Encoded(CIPHER)| == 12
    ensures Base64.Encoded(CIPHER)[..4 * g + 4] == Base64.Encoded(CIPHER)[..4 * g] + Chars(g)
  {
    hide Base64.Encoded;
    hide Base64.CharOf;
    Base64.EncodedGroup(CIPHER, g);
  }

  /** The text that comes out: "-2Pe4o0M_x4.". */
  lemma KnownText()
    ensures Edcode.Encoded([37], KEY_TEXT) == [45, 50, 80, 101, 52, 111, 48, 77, 95, 120, 52, 46]
  {
    hide XxteaText.EncryptBytes;
    hide Base64.Encoded;
    KnownBytes();
    KnownBase64();
  }
}
