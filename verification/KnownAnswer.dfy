/**
 Four numbers of one generator in literals, computed round by round: key 1, 2, 3, 4, the path true, false, true,
 and the draws 8 to 11. A state is numbered by the rounds done; a keyed one has had its subkey added as well.
 */
module KnownAnswer {
  import opened Threefish
  import opened RandomGenerator

  const KEY := Block(1, 2, 3, 4)
  const STATE_0 := Block(5, 8, 0, 0)

  const KEYED_0 := Block(0x0000000000000006, 0x0000000000000017, 0x0000000000000028, 0x0000000000000004)
  const STATE_1 := Block(0x000000000000001d, 0x000000000004002c, 0x000000000000002c, 0x000000000005c01d)
  const STATE_2 := Block(0x0000000000040049, 0x3a0000000005cbc9, 0x000000000005c049, 0x02c0000000040009)
  const STATE_3 := Block(0x3a0000000009cc12, 0x06c00902c009c052, 0x02c000000009c052, 0x3a0002e5e494cc12)
  const STATE_4 := Block(0x40c00902c0138c64, 0xae5980a2a49ed0d8, 0x3cc002e5e49e8c64, 0x98c1295ac12b8624)
  const KEYED_4 := Block(0x40c00902c0138c66, 0xae5980a2a49ed100, 0x3cc002e5e49e8c90, 0xb49245356b27a04b)
  const STATE_5 := Block(0xef1989a564b25d66, 0x271d088c26e2a6b1, 0xf152481b4fc62cdb, 0xaa50b40765eeee67)
  const STATE_6 := Block(0x163692318b950417, 0x90e28a7c5b5361e7, 0x9ba2fc22b5b51b42, 0xbf9adbf6c9b60daf)
  const STATE_7 := Block(0xa7191cade6e865fe, 0xa68fb59a1484ce47, 0x5b3dd8197f6b28f1, 0x395a968417852879)
  const STATE_8 := Block(0x4da8d247fb6d3445, 0x831d46e4afaac7ee, 0x94986e9d96f0516a, 0x592c1c005de281df)
  const KEYED_8 := Block(0x4da8d247fb6d3448, 0x831d46e4afaac81a, 0xb0698a7840ec6b9d, 0x592c1c005de281e2)
  const STATE_9 := Block(0xd0c6192cab17fc62, 0x1595fb9a1f2cb453, 0x0995a6789eceed7f, 0x817f32c619115ca5)
  const STATE_10 := Block(0xe65c14c6ca44b0b5, 0xc016275b3bd2689d, 0x8b14d93eb7e04a24, 0xa36d4d9973e5427e)
  const STATE_11 := Block(0xa6723c2206171952, 0xcbc0587b468815d1, 0x2e8226d82bc58ca2, 0x0befd51648f71241)
  const STATE_12 := Block(0x7232949d4c9f2f23, 0x2493b3cf09463c2a, 0x3a71fbee74bc9ee3, 0x0a399bf59d9d951a)
  const KEYED_12 := Block(0x7232949d4c9f2f27, 0x4064cfa9b342565d, 0x3a71fbee74bc9f09, 0x0a399bf59d9d951f)
  const STATE_13 := Block(0xb2976446ffe18584, 0x7f90bdda062903c3, 0x44ab97e4125a3428, 0xe1f1e0ea45614c1b)
  const STATE_14 := Block(0x32282221060a8947, 0x3893dc98437a3e5c, 0x269d78ce57bb8043, 0x72d8fdc5297c08cd)
  const STATE_15 := Block(0x6abbfeb94984c7a3, 0xe83c2991b26b3f2f, 0x9976769381378910, 0x1a59b1cb28892f5a)
  const STATE_16 := Block(0x52f8284afbf006d2, 0x9b590704b39909a1, 0xb3d0285ea9c0b86a, 0xe093176513cc2f43)
  const KEYED_16 := Block(0x6ec94425a5ec20f8, 0x9b590704b39909c7, 0xb3d0285ea9c0b894, 0xe093176513cc2f4a)
  const STATE_17 := Block(0x0a224b2a59852abf, 0x83062c0f92c6074d, 0x94633fc3bd8ce7de, 0x4be367cc1bf4cc69)
  const STATE_18 := Block(0x8d287739ec4b320c, 0x32d1614041b65ddf, 0xe046a78fd981b447, 0xf9f0475b2cb21e6c)
  const STATE_19 := Block(0xbff9d87a2e018feb, 0x68288212f674899f, 0xda36eeeb0633d2b3, 0x1fd90354c198e75b)
  const STATE_20 := Block(0x28225a8d2476198a, 0xc913195c3cecd096, 0xfa0ff23fc7ccba0e, 0x2d3218d3eae72a67)
  const KEYED_20 := Block(0x28225a8d2476198b, 0xc913195c3cecd0c0, 0xfa0ff23fc7ccba1e, 0x2d3218d3eae72a70)
  const STATE_21 := Block(0xf13573e96162ea4b, 0xf28c5ff3e8d7d529, 0x27420b13b2b3e48e, 0x494caa48e0f0cc79)
  const STATE_22 := Block(0xe3c1d3dd4a3abf74, 0xba2a3b539f632593, 0x708eb55c93a4b107, 0x168baf7e5dc64541)
  const STATE_23 := Block(0x9dec0f30e99de507, 0x588d154ba12f54a3, 0x871a64daf16af648, 0xd304a7dda7e06991)
  const STATE_24 := Block(0xf679247c8acd39aa, 0xfdff65294a4ff804, 0x5a1f0cb8994b5fd9, 0x575670dfd2402ce1)
  const KEYED_24 := Block(0xf679247c8acd39ac, 0xfdff65294a4ff814, 0x5a1f0cb8994b6002, 0x73278cba7c3c470d)
  const STATE_25 := Block(0xf47889a5d51d31c0, 0x41fce54f528ad428, 0xcd4699731587a70f, 0x2d32db362b180ebf)
  const STATE_26 := Block(0x36756ef527a805e8, 0x8423111f2cc985d3, 0xfa7974a9409fb5ce, 0x74f1713b735d2d45)
  const STATE_27 := Block(0xba98801454718bbb, 0x3247a090428dd860, 0x6f6ae5e4b3fce313, 0x350ee4d6bdb39a33)
  const STATE_28 := Block(0xece020a496ff641b, 0x120a8cddd06ce791, 0xa479cabb71b07d46, 0xa41432acc744681d)
  const KEYED_28 := Block(0xece020a496ff641e, 0x120a8cddd06ce7ba, 0xc04ae6961bac9794, 0xa41432acc7446825)
  const STATE_29 := Block(0xfeeaad82676c4bd8, 0xead7c909aad89ae0, 0x645f1942e2f0ffb9, 0x454a744d13485ec1)
  const STATE_30 := Block(0xe9c2768c1244e6b8, 0x0eed5cbb73d54a2e, 0xa9a98d8ff6395e7a, 0xcf7a4c39e0068c0e)
  const STATE_31 := Block(0xf8afd347861a30e6, 0x775bd86ad58c341b, 0x7923d9c9d63fea88, 0x409466356bd565ce)
  const STATE_32 := Block(0x700babb25ba66501, 0xd26d5a3102813663, 0xb9b83fff42155056, 0xa5879fa92cfdbd6b)
  const KEYED_32 := Block(0x700babb25ba66505, 0xee3e760bac7d50b1, 0xb9b83fff42155064, 0xa5879fa92cfdbd75)
  const STATE_33 := Block(0x5e4a21be0823b5b6, 0xc096f355d266a85e, 0x5f3fdfa86f130dd9, 0xc3c8caa15c0fce39)
  const STATE_34 := Block(0x1ee11513da8a5e14, 0x508f3bdc899ac38e, 0x2308aa49cb22dc12, 0x9b0d1c7cefd7787e)
  const STATE_35 := Block(0x6f7050f0642521a2, 0x696db85db7e6287f, 0xbe15c6c6bafa5490, 0x81349d91a30d663f)
  const STATE_36 := Block(0xd8de094e1c0b4a21, 0x5ee6a3a8789408fb, 0x3f4a64585e07bacf, 0xf56902f8e0ce45cc)
  const KEYED_36 := Block(0xf4af2528c6076447, 0x5ee6a3a878940909, 0x3f4a64585e07baf6, 0xf56902f8e0ce45d8)
  const STATE_37 := Block(0x5395c8d13e9b6d50, 0xf52fece0d404053f, 0x34b367513ed600ce, 0x0364e0c32c26a017)
  const STATE_38 := Block(0x48c5b5b2129f728f, 0x76147ad600fdd0d3, 0x381848146afca0e5, 0x498a48f9e9a7478e)
  const STATE_39 := Block(0xbeda3088139d4362, 0xbfd8f8dfb7318ae1, 0x81a2910e54a3e873, 0xf30261634b9eb421)
  const STATE_40 := Block(0x7eb32967cacece43, 0x3f3a46505340fdf7, 0x74a4f271a0429c94, 0xc982a3867516369c)
  const KEYED_40 := Block(0x7eb32967cacece44, 0x3f3a46505340fe1e, 0x74a4f271a0429cbf, 0xc982a386751636aa)
  const STATE_41 := Block(0xbded6fb81e0fcc62, 0x9da1e0ee23f21aeb, 0x3e2795f81558d369, 0x2c797b68218843ac)
  const STATE_42 := Block(0x5b8f50a64201e74d, 0x32f9e396e6a20792, 0x6aa1116036e11715, 0xf5368ab84ce3d86c)
  const STATE_43 := Block(0x8e89343d28a3eedf, 0xbc0ff0edb54e57cd, 0x5fd79c1883c4ef81, 0x45fa653ee1ba922e)
  const STATE_44 := Block(0x4a99252addf246ac, 0x9280449fda332673, 0xa5d20157657f81af, 0xcb67389c7438bf1b)
  const KEYED_44 := Block(0x4a99252addf246ae, 0x9280449fda33269e, 0xa5d20157657f81c0, 0xe73854771e34d94c)
  const STATE_45 := Block(0xdd1969cab8256d4c, 0xb163e7574dc4f3e2, 0x8d0a55ce83b45b0c, 0xe2ad0f8785006dc5)
  const STATE_46 := Block(0x8e7d512205ea612e, 0xbf4f1d060e6896fb, 0x6fb7655608b4c8d1, 0xb285fd7afc3fb25f)
  const STATE_47 := Block(0x4dcc6e281452f829, 0x7c826d3d9318da4f, 0x223d62d104f47b30, 0xa331525c0c6b5a72)
  const STATE_48 := Block(0xca4edb65a76bd278, 0xc905ef5fb26e87fe, 0xc56eb52d115fd5a2, 0x5956012adbe9bf45)
  const KEYED_48 := Block(0xca4edb65a76bd27b, 0xc905ef5fb26e880f, 0xe13fd107bb5befed, 0x5956012adbe9bf52)
  const STATE_49 := Block(0x9354cac559da5a8a, 0x3bbf09db2817f669, 0x3a95d2329745af3f, 0xe883265efbd9a8cb)
  const STATE_50 := Block(0xcf13d4a081f250f3, 0xb4c9fedd2ee8eb5b, 0x2318f891931f580a, 0xa9806f501c40d18c)
  const STATE_51 := Block(0x83ddd37db0db3c4e, 0x8c48eb482f0f798a, 0xcc9967e1af602996, 0xed4aa7081d0158b1)
  const STATE_52 := Block(0x1026bec5dfeab5d8, 0x19cf18d465356344, 0xb9e40ee9cc618247, 0x993bd7c03e058489)
  const KEYED_52 := Block(0x1026bec5dfeab5dc, 0x35a034af0f317d8f, 0xb9e40ee9cc618270, 0x993bd7c03e058498)
  const STATE_53 := Block(0x45c6f374ef1c336b, 0x2f14ef9b3810a888, 0x531fe6aa0a670708, 0x1bd8918ff1777302)
  const STATE_54 := Block(0x74dbe310272cdbf3, 0xe7e0872e8cee5bb7, 0x6ef87839fbde7a0a, 0x5ef9e8d51cca15f7)
  const STATE_55 := Block(0x5cbc6a3eb41b37aa, 0xf8b5538a657f2e7b, 0xcdf2610f18a89001, 0x8323e8220e288ec4)
  const STATE_56 := Block(0x5571bdc9199a6625, 0x5f3ec7f5a5f2f6e7, 0x5116493126d11ec5, 0x300e93b2e12f35af)
  const KEYED_56 := Block(0x7142d9a3c396804b, 0x5f3ec7f5a5f2f710, 0x5116493126d11ed4, 0x300e93b2e12f35c0)
  const STATE_57 := Block(0xd081a1996989775b, 0x12963dcb3dc0649a, 0x8124dce408005494, 0x617cc8e5d44d6094)
  const STATE_58 := Block(0xe317df64a749dbf5, 0xca635c5817e52fe9, 0xe2a1a5c9dc4db528, 0xaab6f6077bfa07f3)
  const STATE_59 := Block(0xad7b3bbcbf2f0bde, 0x775f687beeb1ba60, 0x8d589bd15847bd1b, 0x8170c92b4bca3a70)
  const STATE_60 := Block(0x24daa438ade0c63e, 0x778e2aec8a08d2e2, 0x0ec964fca411f78b, 0xcf37ab457bd78a30)
  const KEYED_60 := Block(0x24daa438ade0c63f, 0x778e2aec8a08d2f1, 0x0ec964fca411f7b3, 0xcf37ab457bd78a43)
  const STATE_61 := Block(0x9c68cf2537e99930, 0x29ae04c58186d77c, 0xde0110421fe981f6, 0x457cde80d5068565)
  const STATE_62 := Block(0xc616d3eab97070ac, 0xee95e3929ca6530c, 0x237deec2f4f0075b, 0x73c9d981384110cd)
  const STATE_63 := Block(0xb4acb77d5616c3b8, 0xf709d8001e6dea5e, 0x9747c8442d311828, 0x8716e0f31c645af4)
  const STATE_64 := Block(0xabb68f7d7484ae16, 0x023af3c3ce8393ef, 0x1e5ea9374995731c, 0xb5db6523838d7616)
  const KEYED_64 := Block(0xabb68f7d7484ae18, 0x023af3c3ce839417, 0x1e5ea93749957348, 0xd1ac80fe2d89904c)
  const STATE_65 := Block(0xadf183414308422f, 0x70f507bce753d238, 0xf00b2a35771f0394, 0x110170e1a60d82a1)
  const STATE_66 := Block(0x1ee68afe2a5c1467, 0x432e99f6de609d30, 0x010c9b171d2c8635, 0x3d6185ae5192615a)
  const STATE_67 := Block(0x621524f508bcb197, 0xac0f7af80f3b49de, 0x3e6e20c56ebee78f, 0x997a14bb909d26db)
  const STATE_68 := Block(0x0e249fed17f7fb75, 0xc44ceef3d01e9918, 0xd7e83580ff5c0e6a, 0x8fcbc0ecf09ec0a0)
  const KEYED_68 := Block(0x0e249fed17f7fb78, 0xc44ceef3d01e9944, 0xf3b9515ba958289d, 0x8fcbc0ecf09ec0b2)
  const STATE_69 := Block(0xd2718ee0e81694bc, 0x62b8932d86616896, 0x8385124899f6e94f, 0x35d1b3d2619e0d61)
  const STATE_70 := Block(0x352a220e6e77fd52, 0xa26be0031b42e5ed, 0xb956c61afb94f6b0, 0x6f0fbaa04abc9cca)
  const STATE_71 := Block(0xd796021189bae33f, 0x80742f9c74ca5094, 0x286680bb4651937a, 0x611fad9185d7e8a8)
  const STATE_72 := Block(0x580a31adfe8533d3, 0x0c51c6e4ad36d1b3, 0x89862e4ccc297c22, 0x2cc061397ef11c4f)
  const ANSWER := Block(0x580a31adfe8533d7, 0x2822e2bf5732ebe6, 0x89862e4ccc297c48, 0x2cc061397ef11c63)

  // ----- the subkeys -----

  lemma KeyWords()
    ensures KeyWord(KEY, 0) == 1 && KeyWord(KEY, 1) == 2 && KeyWord(KEY, 2) == 3 && KeyWord(KEY, 3) == 4
    ensures KeyWord(KEY, 4) == 0x1bd1_1bda_a9fc_1a26
    ensures TweakWord(0) == 13 && TweakWord(1) == 37 && TweakWord(2) == 40
  {
  }

  lemma KeyedFrom0()
    ensures AddBlock(STATE_0, Subkey(KEY, 0)) == KEYED_0
    ensures AddBlock(STATE_4, Subkey(KEY, 1)) == KEYED_4
    ensures AddBlock(STATE_8, Subkey(KEY, 2)) == KEYED_8
  {
    hide Subkey, KeyWord, TweakWord;
    SubkeysFrom0(KEY);
    KeyWords();
  }

  lemma KeyedFrom3()
    ensures AddBlock(STATE_12, Subkey(KEY, 3)) == KEYED_12
    ensures AddBlock(STATE_16, Subkey(KEY, 4)) == KEYED_16
    ensures AddBlock(STATE_20, Subkey(KEY, 5)) == KEYED_20
  {
    hide Subkey, KeyWord, TweakWord;
    SubkeysFrom3(KEY);
    KeyWords();
  }

  lemma KeyedFrom6()
    ensures AddBlock(STATE_24, Subkey(KEY, 6)) == KEYED_24
    ensures AddBlock(STATE_28, Subkey(KEY, 7)) == KEYED_28
    ensures AddBlock(STATE_32, Subkey(KEY, 8)) == KEYED_32
  {
    hide Subkey, KeyWord, TweakWord;
    SubkeysFrom6(KEY);
    KeyWords();
  }

  lemma KeyedFrom9()
    ensures AddBlock(STATE_36, Subkey(KEY, 9)) == KEYED_36
    ensures AddBlock(STATE_40, Subkey(KEY, 10)) == KEYED_40
    ensures AddBlock(STATE_44, Subkey(KEY, 11)) == KEYED_44
  {
    hide Subkey, KeyWord, TweakWord;
    SubkeysFrom9(KEY);
    KeyWords();
  }

  lemma KeyedFrom12()
    ensures AddBlock(STATE_48, Subkey(KEY, 12)) == KEYED_48
    ensures AddBlock(STATE_52, Subkey(KEY, 13)) == KEYED_52
    ensures AddBlock(STATE_56, Subkey(KEY, 14)) == KEYED_56
  {
    hide Subkey, KeyWord, TweakWord;
    SubkeysFrom12(KEY);
    KeyWords();
  }

  lemma KeyedFrom15()
    ensures AddBlock(STATE_60, Subkey(KEY, 15)) == KEYED_60
    ensures AddBlock(STATE_64, Subkey(KEY, 16)) == KEYED_64
    ensures AddBlock(STATE_68, Subkey(KEY, 17)) == KEYED_68
  {
    hide Subkey, KeyWord, TweakWord;
    SubkeysFrom15(KEY);
    KeyWords();
  }

  lemma KeyedFrom18()
    ensures AddBlock(STATE_72, Subkey(KEY, 18)) == ANSWER
  {
    hide Subkey, KeyWord, TweakWord;
    SubkeysFrom18(KEY);
    KeyWords();
  }

  lemma Mixed(d: nat, v: Block)
    requires d < 8
    ensures var f0, f2 := Plus(v.w0, v.w1), Plus(v.w2, v.w3);
      MixAndPermute(d, v) ==
        Block(f0, Xor(Rotl(v.w3, Distance(d, true)), f2), f2, Xor(Rotl(v.w1, Distance(d, false)), f0))
  {
  }

  // ----- the rounds -----

  lemma MixedFrom0()
    ensures MixAndPermute(0, KEYED_0) == STATE_1 && MixAndPermute(1, STATE_1) == STATE_2
    ensures MixAndPermute(2, STATE_2) == STATE_3 && MixAndPermute(3, STATE_3) == STATE_4
  {
    hide MixAndPermute;
    Mixed(0, KEYED_0);
    Mixed(1, STATE_1);
    Mixed(2, STATE_2);
    Mixed(3, STATE_3);
  }

  lemma MixedFrom4()
    ensures MixAndPermute(4, KEYED_4) == STATE_5 && MixAndPermute(5, STATE_5) == STATE_6
    ensures MixAndPermute(6, STATE_6) == STATE_7 && MixAndPermute(7, STATE_7) == STATE_8
  {
    hide MixAndPermute;
    Mixed(4, KEYED_4);
    Mixed(5, STATE_5);
    Mixed(6, STATE_6);
    Mixed(7, STATE_7);
  }

  lemma MixedFrom8()
    ensures MixAndPermute(0, KEYED_8) == STATE_9 && MixAndPermute(1, STATE_9) == STATE_10
    ensures MixAndPermute(2, STATE_10) == STATE_11 && MixAndPermute(3, STATE_11) == STATE_12
  {
    hide MixAndPermute;
    Mixed(0, KEYED_8);
    Mixed(1, STATE_9);
    Mixed(2, STATE_10);
    Mixed(3, STATE_11);
  }

  lemma MixedFrom12()
    ensures MixAndPermute(4, KEYED_12) == STATE_13 && MixAndPermute(5, STATE_13) == STATE_14
    ensures MixAndPermute(6, STATE_14) == STATE_15 && MixAndPermute(7, STATE_15) == STATE_16
  {
    hide MixAndPermute;
    Mixed(4, KEYED_12);
    Mixed(5, STATE_13);
    Mixed(6, STATE_14);
    Mixed(7, STATE_15);
  }

  lemma MixedFrom16()
    ensures MixAndPermute(0, KEYED_16) == STATE_17 && MixAndPermute(1, STATE_17) == STATE_18
    ensures MixAndPermute(2, STATE_18) == STATE_19 && MixAndPermute(3, STATE_19) == STATE_20
  {
    hide MixAndPermute;
    Mixed(0, KEYED_16);
    Mixed(1, STATE_17);
    Mixed(2, STATE_18);
    Mixed(3, STATE_19);
  }

  lemma MixedFrom20()
    ensures MixAndPermute(4, KEYED_20) == STATE_21 && MixAndPermute(5, STATE_21) == STATE_22
    ensures MixAndPermute(6, STATE_22) == STATE_23 && MixAndPermute(7, STATE_23) == STATE_24
  {
    hide MixAndPermute;
    Mixed(4, KEYED_20);
    Mixed(5, STATE_21);
    Mixed(6, STATE_22);
    Mixed(7, STATE_23);
  }

  lemma MixedFrom24()
    ensures MixAndPermute(0, KEYED_24) == STATE_25 && MixAndPermute(1, STATE_25) == STATE_26
    ensures MixAndPermute(2, STATE_26) == STATE_27 && MixAndPermute(3, STATE_27) == STATE_28
  {
    hide MixAndPermute;
    Mixed(0, KEYED_24);
    Mixed(1, STATE_25);
    Mixed(2, STATE_26);
    Mixed(3, STATE_27);
  }

  lemma MixedFrom28()
    ensures MixAndPermute(4, KEYED_28) == STATE_29 && MixAndPermute(5, STATE_29) == STATE_30
    ensures MixAndPermute(6, STATE_30) == STATE_31 && MixAndPermute(7, STATE_31) == STATE_32
  {
    hide MixAndPermute;
    Mixed(4, KEYED_28);
    Mixed(5, STATE_29);
    Mixed(6, STATE_30);
    Mixed(7, STATE_31);
  }

  lemma MixedFrom32()
    ensures MixAndPermute(0, KEYED_32) == STATE_33 && MixAndPermute(1, STATE_33) == STATE_34
    ensures MixAndPermute(2, STATE_34) == STATE_35 && MixAndPermute(3, STATE_35) == STATE_36
  {
    hide MixAndPermute;
    Mixed(0, KEYED_32);
    Mixed(1, STATE_33);
    Mixed(2, STATE_34);
    Mixed(3, STATE_35);
  }

  lemma MixedFrom36()
    ensures MixAndPermute(4, KEYED_36) == STATE_37 && MixAndPermute(5, STATE_37) == STATE_38
    ensures MixAndPermute(6, STATE_38) == STATE_39 && MixAndPermute(7, STATE_39) == STATE_40
  {
    hide MixAndPermute;
    Mixed(4, KEYED_36);
    Mixed(5, STATE_37);
    Mixed(6, STATE_38);
    Mixed(7, STATE_39);
  }

  lemma MixedFrom40()
    ensures MixAndPermute(0, KEYED_40) == STATE_41 && MixAndPermute(1, STATE_41) == STATE_42
    ensures MixAndPermute(2, STATE_42) == STATE_43 && MixAndPermute(3, STATE_43) == STATE_44
  {
    hide MixAndPermute;
    Mixed(0, KEYED_40);
    Mixed(1, STATE_41);
    Mixed(2, STATE_42);
    Mixed(3, STATE_43);
  }

  lemma MixedFrom44()
    ensures MixAndPermute(4, KEYED_44) == STATE_45 && MixAndPermute(5, STATE_45) == STATE_46
    ensures MixAndPermute(6, STATE_46) == STATE_47 && MixAndPermute(7, STATE_47) == STATE_48
  {
    hide MixAndPermute;
    Mixed(4, KEYED_44);
    Mixed(5, STATE_45);
    Mixed(6, STATE_46);
    Mixed(7, STATE_47);
  }

  lemma MixedFrom48()
    ensures MixAndPermute(0, KEYED_48) == STATE_49 && MixAndPermute(1, STATE_49) == STATE_50
    ensures MixAndPermute(2, STATE_50) == STATE_51 && MixAndPermute(3, STATE_51) == STATE_52
  {
    hide MixAndPermute;
    Mixed(0, KEYED_48);
    Mixed(1, STATE_49);
    Mixed(2, STATE_50);
    Mixed(3, STATE_51);
  }

  lemma MixedFrom52()
    ensures MixAndPermute(4, KEYED_52) == STATE_53 && MixAndPermute(5, STATE_53) == STATE_54
    ensures MixAndPermute(6, STATE_54) == STATE_55 && MixAndPermute(7, STATE_55) == STATE_56
  {
    hide MixAndPermute;
    Mixed(4, KEYED_52);
    Mixed(5, STATE_53);
    Mixed(6, STATE_54);
    Mixed(7, STATE_55);
  }

  lemma MixedFrom56()
    ensures MixAndPermute(0, KEYED_56) == STATE_57 && MixAndPermute(1, STATE_57) == STATE_58
    ensures MixAndPermute(2, STATE_58) == STATE_59 && MixAndPermute(3, STATE_59) == STATE_60
  {
    hide MixAndPermute;
    Mixed(0, KEYED_56);
    Mixed(1, STATE_57);
    Mixed(2, STATE_58);
    Mixed(3, STATE_59);
  }

  lemma MixedFrom60()
    ensures MixAndPermute(4, KEYED_60) == STATE_61 && MixAndPermute(5, STATE_61) == STATE_62
    ensures MixAndPermute(6, STATE_62) == STATE_63 && MixAndPermute(7, STATE_63) == STATE_64
  {
    hide MixAndPermute;
    Mixed(4, KEYED_60);
    Mixed(5, STATE_61);
    Mixed(6, STATE_62);
    Mixed(7, STATE_63);
  }

  lemma MixedFrom64()
    ensures MixAndPermute(0, KEYED_64) == STATE_65 && MixAndPermute(1, STATE_65) == STATE_66
    ensures MixAndPermute(2, STATE_66) == STATE_67 && MixAndPermute(3, STATE_67) == STATE_68
  {
    hide MixAndPermute;
    Mixed(0, KEYED_64);
    Mixed(1, STATE_65);
    Mixed(2, STATE_66);
    Mixed(3, STATE_67);
  }

  lemma MixedFrom68()
    ensures MixAndPermute(4, KEYED_68) == STATE_69 && MixAndPermute(5, STATE_69) == STATE_70
    ensures MixAndPermute(6, STATE_70) == STATE_71 && MixAndPermute(7, STATE_71) == STATE_72
  {
    hide MixAndPermute;
    Mixed(4, KEYED_68);
    Mixed(5, STATE_69);
    Mixed(6, STATE_70);
    Mixed(7, STATE_71);
  }

  lemma FourMore(s: nat, before: Block, keyed: Block, a: Block, b: Block, c: Block, after: Block)
    requires s < 18 && Rounds(KEY, STATE_0, 4 * s) == before && AddBlock(before, Subkey(KEY, s)) == keyed
    requires var i := if s % 2 == 0 then 0 else 4;
      && MixAndPermute(i, keyed) == a && MixAndPermute(i + 1, a) == b
      && MixAndPermute(i + 2, b) == c && MixAndPermute(i + 3, c) == after
    ensures Rounds(KEY, STATE_0, 4 * s + 4) == after
  {
    hide MixAndPermute, AddBlock, Subkey, Rounds;
    FourRounds(KEY, STATE_0, s);
  }

  lemma NoRoundsYet()
    ensures Rounds(KEY, STATE_0, 0) == STATE_0
  {
  }

  lemma RoundsTo24()
    ensures Rounds(KEY, STATE_0, 24) == STATE_24
  {
    hide *;
    NoRoundsYet();
    KeyedFrom0();
    MixedFrom0();
    FourMore(0, STATE_0, KEYED_0, STATE_1, STATE_2, STATE_3, STATE_4);
    MixedFrom4();
    FourMore(1, STATE_4, KEYED_4, STATE_5, STATE_6, STATE_7, STATE_8);
    MixedFrom8();
    FourMore(2, STATE_8, KEYED_8, STATE_9, STATE_10, STATE_11, STATE_12);
    KeyedFrom3();
    MixedFrom12();
    FourMore(3, STATE_12, KEYED_12, STATE_13, STATE_14, STATE_15, STATE_16);
    MixedFrom16();
    FourMore(4, STATE_16, KEYED_16, STATE_17, STATE_18, STATE_19, STATE_20);
    MixedFrom20();
    FourMore(5, STATE_20, KEYED_20, STATE_21, STATE_22, STATE_23, STATE_24);
  }

  lemma RoundsTo48()
    ensures Rounds(KEY, STATE_0, 48) == STATE_48
  {
    hide *;
    RoundsTo24();
    KeyedFrom6();
    MixedFrom24();
    FourMore(6, STATE_24, KEYED_24, STATE_25, STATE_26, STATE_27, STATE_28);
    MixedFrom28();
    FourMore(7, STATE_28, KEYED_28, STATE_29, STATE_30, STATE_31, STATE_32);
    MixedFrom32();
    FourMore(8, STATE_32, KEYED_32, STATE_33, STATE_34, STATE_35, STATE_36);
    KeyedFrom9();
    MixedFrom36();
    FourMore(9, STATE_36, KEYED_36, STATE_37, STATE_38, STATE_39, STATE_40);
    MixedFrom40();
    FourMore(10, STATE_40, KEYED_40, STATE_41, STATE_42, STATE_43, STATE_44);
    MixedFrom44();
    FourMore(11, STATE_44, KEYED_44, STATE_45, STATE_46, STATE_47, STATE_48);
  }

  lemma RoundsTo72()
    ensures Rounds(KEY, STATE_0, 72) == STATE_72
  {
    hide *;
    RoundsTo48();
    KeyedFrom12();
    MixedFrom48();
    FourMore(12, STATE_48, KEYED_48, STATE_49, STATE_50, STATE_51, STATE_52);
    MixedFrom52();
    FourMore(13, STATE_52, KEYED_52, STATE_53, STATE_54, STATE_55, STATE_56);
    MixedFrom56();
    FourMore(14, STATE_56, KEYED_56, STATE_57, STATE_58, STATE_59, STATE_60);
    KeyedFrom15();
    MixedFrom60();
    FourMore(15, STATE_60, KEYED_60, STATE_61, STATE_62, STATE_63, STATE_64);
    MixedFrom64();
    FourMore(16, STATE_64, KEYED_64, STATE_65, STATE_66, STATE_67, STATE_68);
    MixedFrom68();
    FourMore(17, STATE_68, KEYED_68, STATE_69, STATE_70, STATE_71, STATE_72);
  }

  // ----- the numbers -----

  lemma BlockOfEight()
    ensures Encrypt(KEY, Input(5, 8)) == ANSWER
  {
    hide Rounds, AddBlock, Subkey;
    RoundsTo72();
    KeyedFrom18();
  }

  const START := Generator(KEY, Block(0, 0, 0, 0), 0, 0, 0)
  const PATH := [true, false, true]

  lemma ReachedByPath()
    ensures AfterPath(START, PATH) == Generator(KEY, Block(0, 0, 0, 0), 5, 0, 3)
  {
    hide AfterPath;
    assert PATH == [] + [true] + [false] + [true];
    NoSteps(START);
    LastStep(START, [], true);
    LastStep(START, [] + [true], false);
    LastStep(START, [] + [true] + [false], true);
  }

  lemma CountOfEight()
    ensures Count(8) == 8
  {
    assert Count(4) == 4;
  }

  /** The draws 8 to 11 after the path. */
  lemma FourNumbers()
    ensures var g := AfterPath(START, PATH);
      && Drawn(AfterDraws(g, 8)).1 == 0x580a31adfe8533d7 && Drawn(AfterDraws(g, 9)).1 == 0x2822e2bf5732ebe6
      && Drawn(AfterDraws(g, 10)).1 == 0x89862e4ccc297c48 && Drawn(AfterDraws(g, 11)).1 == 0x2cc061397ef11c63
  {
    hide Drawn, AfterDraws, Encrypt, AfterPath, Count;
    ReachedByPath();
    CountOfEight();
    BlockOfEight();
    var g := AfterPath(START, PATH);
    NthNumber(g, 8);
    NthNumber(g, 9);
    NthNumber(g, 10);
    NthNumber(g, 11);
  }
}
