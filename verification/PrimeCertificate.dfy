/** The number p = 2^255 - 19 is prime. A chain of primes leads to it, each witnessed by the
    prime factors of its predecessor. */
module PrimeCertificate {
  import opened Primes
  import opened Certificates
  import opened Prime25519

  const Q237: int := 0xabaf8c6b094_fd0f32c2ccabab86_4dbecd99144679c1_adf804898fb2042b
  const Q116: int := 0xe87c2a477b815_a1793787395b23e1
  const Q51: int := 0x6d1cafa129d0b
  const Q23: int := 0x82d4b5

  lemma SmallPrimes()
    ensures Prime(103) && Prime(127) && Prime(353) && Prime(991)
  {
    PrimeByTrial(103, 1);
    PrimeByTrial(127, 1);
    PrimeByTrial(353, 1);
    PrimeByTrial(991, 2);
  }

  lemma NoDivisorsUpTo100()
    ensures NoDivisors(75707, 3, 5)
  {
  }

  lemma NoDivisorsUpTo200()
    ensures NoDivisors(75707, 103, 5)
  {
  }

  lemma NoDivisorsUpTo280()
    ensures NoDivisors(75707, 203, 4)
  {
  }

  lemma Prime75707()
    ensures Prime(75707)
  {
    hide NoDivisors;
    NoDivisorsUpTo100();
    NoDivisorsUpTo200();
    NoDivisorsUpTo280();
    NoDivisorsBoth(75707, 3, 5, 5);
    NoDivisorsBoth(75707, 3, 10, 4);
    PrimeByTrial(75707, 14);
  }

  /** A number whose power 991 is 1 modulo Q23. */
  const Q23By991: Base := Base(0x346cd1, 0x1d7e53, 0x730281)

  lemma BaseOfQ23By991()
    ensures ValidBase(Q23, Q23By991)
  {
  }

  lemma Q23By991Reaches()
    ensures Reaches(Q23, Q23By991.b, 991, 1)
  {
    StartOfPowers(Q23, Q23By991.b);
    BaseOfQ23By991();
    hide Reaches, ValidBase;
    Follow(Q23, Q23By991, 0, 1,
      Step(3, 0x730281, Step(3, 0x67873c, Step(1, 0x159ed7, Step(3, 0x4cd86a, Step(3, 1, End))))), 991, 1);
  }

  lemma WitnessQ23By991()
    requires Prime(991)
    ensures Witness(Q23, 991, Q23By991.b, 0xf79eb)
  {
    hide Reaches, Prime, Witness;
    Q23By991Reaches();
    WitnessReached(Q23, 991, Q23By991.b, 0xf79eb);
  }

  /** A number whose power 103 is 1 modulo Q23. */
  const Q23By103: Base := Base(0x41f04d, 0x742961, 0x1cd377)

  lemma BaseOfQ23By103()
    ensures ValidBase(Q23, Q23By103)
  {
  }

  lemma Q23By103Reaches()
    ensures Reaches(Q23, Q23By103.b, 103, 1)
  {
    StartOfPowers(Q23, Q23By103.b);
    BaseOfQ23By103();
    hide Reaches, ValidBase;
    Follow(Q23, Q23By103, 0, 1,
      Step(1, 0x41f04d, Step(2, 0x6b322a, Step(1, 0x222e32, Step(3, 1, End)))), 103, 1);
  }

  lemma WitnessQ23By103()
    requires Prime(103)
    ensures Witness(Q23, 103, Q23By103.b, 0x35e15b)
  {
    hide Reaches, Prime, Witness;
    Q23By103Reaches();
    WitnessReached(Q23, 103, Q23By103.b, 0x35e15b);
  }

  lemma Q23IsPrime()
    ensures Prime(Q23)
  {
    SmallPrimes();
    hide Prime, Witness;
    WitnessQ23By991();
    WitnessQ23By103();
    PrimeByTwo(Q23, 991, Q23By991.b, 0xf79eb, 103, Q23By103.b, 0x35e15b);
  }

  /** A number whose power Q23 is 1 modulo Q51. */
  const Q51ByQ23: Base := Base(0x3c3ffdef7c0b1, 0x158280d1c7fe9, 0x5d17f17b76d79)

  lemma BaseOfQ51ByQ23()
    ensures ValidBase(Q51, Q51ByQ23)
  {
  }

  lemma Q51ByQ23Part0()
    ensures Reaches(Q51, Q51ByQ23.b, 0x82d4b, 0x11a52cb514f6b)
  {
    StartOfPowers(Q51, Q51ByQ23.b);
    BaseOfQ51ByQ23();
    hide Reaches, ValidBase;
    Follow(Q51, Q51ByQ23, 0, 1,
      Step(2, 0x158280d1c7fe9, Step(0, 0xa1a81c865ef3, Step(0, 0x612344a925350, Step(2, 0x626b6bf964a0b,
      Step(3, 0x1af1b0376649d, Step(1, 0x67339e4b07ecd, Step(1, 0x3e3bdbc06dca4, Step(0, 0x5319205ebe88c,
      Step(2, 0x2741e82e93a2c, Step(3, 0x11a52cb514f6b, End)))))))))), 0x82d4b, 0x11a52cb514f6b);
  }

  lemma Q51ByQ23Part1(e: int)
    requires Reaches(Q51, Q51ByQ23.b, e, 0x11a52cb514f6b)
    ensures Reaches(Q51, Q51ByQ23.b, 16 * e + 5, 1)
  {
    BaseOfQ51ByQ23();
    hide Reaches, ValidBase;
    Follow(Q51, Q51ByQ23, e, 0x11a52cb514f6b,
      Step(1, 0x5967ff7111a20, Step(1, 1, End)), 16 * e + 5, 1);
  }

  lemma WitnessQ51ByQ23()
    requires Prime(Q23)
    ensures Witness(Q51, Q23, Q51ByQ23.b, 0x495bef080ea35)
  {
    hide Reaches, Prime, Witness;
    Q51ByQ23Part0();
    Q51ByQ23Part1(0x82d4b);
    WitnessReached(Q51, Q23, Q51ByQ23.b, 0x495bef080ea35);
  }

  /** A number whose power 127 is 1 modulo Q51. */
  const Q51By127: Base := Base(0x20c92d89f364e, 0x39f9bbd080fb6, 0x4d2fe94a48f17)

  lemma BaseOfQ51By127()
    ensures ValidBase(Q51, Q51By127)
  {
  }

  lemma Q51By127Reaches()
    ensures Reaches(Q51, Q51By127.b, 127, 1)
  {
    StartOfPowers(Q51, Q51By127.b);
    BaseOfQ51By127();
    hide Reaches, ValidBase;
    Follow(Q51, Q51By127, 0, 1,
      Step(1, 0x20c92d89f364e, Step(3, 0x2b2b91dd75da8, Step(3, 0x4b1087828e7c0, Step(3, 1, End)))), 127, 1);
  }

  lemma WitnessQ51By127()
    requires Prime(127)
    ensures Witness(Q51, 127, Q51By127.b, 0x6a4e3f18a99bc)
  {
    hide Reaches, Prime, Witness;
    Q51By127Reaches();
    WitnessReached(Q51, 127, Q51By127.b, 0x6a4e3f18a99bc);
  }

  lemma Q51IsPrime()
    ensures Prime(Q51)
  {
    Q23IsPrime();
    SmallPrimes();
    hide Prime, Witness;
    WitnessQ51ByQ23();
    WitnessQ51By127();
    PrimeByTwo(Q51, Q23, Q51ByQ23.b, 0x495bef080ea35, 127, Q51By127.b, 0x6a4e3f18a99bc);
  }

  /** A number whose power Q51 is 1 modulo Q116. */
  const Q116ByQ51: Base := Base(0xaedd80ab27e8d_e3ca5f2fb22d5403,
    0xb0da74ed5d709_49974a587c3858eb,
    0x22f28959a6094_f3ec9a3cec3753fd)

  lemma BaseOfQ116ByQ51()
    ensures ValidBase(Q116, Q116ByQ51)
  {
  }

  lemma Q116ByQ51Part0()
    ensures Reaches(Q116, Q116ByQ51.b, 0x6d1ca, 0x832c61ba16d59_cb5e168e09fefff3)
  {
    StartOfPowers(Q116, Q116ByQ51.b);
    BaseOfQ116ByQ51();
    hide Reaches, ValidBase;
    Follow(Q116, Q116ByQ51, 0, 1,
      Step(1, 0xaedd80ab27e8d_e3ca5f2fb22d5403,
      Step(2, 0x7b07abf2a0b_dfa0b9dd400295ab,
      Step(3, 0x86f41bda7c9b2_a0ea67579a5971cd,
      Step(1, 0x53d31a0a415a6_47d81ba17c64cb9c,
      Step(0, 0x71f9ced5e7ced_7df9a9a7c51912e1,
      Step(1, 0x8a4ce1ca61270_808e9f80c903fa92,
      Step(3, 0xb93588d98b4_1cdea0a321d17728,
      Step(0, 0x311c7da706526_c7b84452ad03a077,
      Step(2, 0xe49cda690b915_41a0b4bdedd2400b,
      Step(2, 0x832c61ba16d59_cb5e168e09fefff3, End)))))))))), 0x6d1ca, 0x832c61ba16d59_cb5e168e09fefff3);
  }

  lemma Q116ByQ51Part1(e: int)
    requires Reaches(Q116, Q116ByQ51.b, e, 0x832c61ba16d59_cb5e168e09fefff3)
    ensures Reaches(Q116, Q116ByQ51.b, 0x100000 * e + 0xfa129, 0x2b021a7ab552f_243edc3ba9800c8e)
  {
    BaseOfQ116ByQ51();
    hide Reaches, ValidBase;
    Follow(Q116, Q116ByQ51, e, 0x832c61ba16d59_cb5e168e09fefff3,
      Step(3, 0x3153b66101825_5cbd0a0f75054ca4,
      Step(3, 0xdef4b93c24632_6ad733ff245e8807,
      Step(2, 0x1a044229e28f7_3659f53fba8831ae,
      Step(2, 0x2b80db59644f0_26a0903288aaaa5d,
      Step(0, 0x8abf84e490585_b935976b1bdd486b,
      Step(1, 0x523c96f162978_ca422a4dfdd98edb,
      Step(0, 0x74d5f338e0a62_31fe90cf6f410723,
      Step(2, 0x1acf64ac33b95_3f3a87c1cd463c50,
      Step(2, 0xd2f25f4ad230f_919bdeb95c0e36f4,
      Step(1, 0x2b021a7ab552f_243edc3ba9800c8e, End)))))))))), 0x100000 * e + 0xfa129,
      0x2b021a7ab552f_243edc3ba9800c8e);
  }

  lemma Q116ByQ51Part2(e: int)
    requires Reaches(Q116, Q116ByQ51.b, e, 0x2b021a7ab552f_243edc3ba9800c8e)
    ensures Reaches(Q116, Q116ByQ51.b, 4096 * e + 3339, 1)
  {
    BaseOfQ116ByQ51();
    hide Reaches, ValidBase;
    Follow(Q116, Q116ByQ51, e, 0x2b021a7ab552f_243edc3ba9800c8e,
      Step(3, 0x8b6152c1cfcd0_923cce5add5d51c5,
      Step(1, 0xdd5967d7f1594_8d246efbdead218c,
      Step(0, 0x7ad56a78a8c4b_8c1209fe3b3e6158,
      Step(0, 0x26780b9ac5112_b06374380fca4b4c,
      Step(2, 0x570414ecf62a6_0bea569123ff9dbd,
      Step(3, 1, End)))))), 4096 * e + 3339, 1);
  }

  lemma WitnessQ116ByQ51()
    requires Prime(Q51)
    ensures Witness(Q116, Q51, Q116ByQ51.b, 0xe5e342b4c0a3d_507894bab5f20e8b)
  {
    hide Reaches, Prime, Witness;
    Q116ByQ51Part0();
    Q116ByQ51Part1(0x6d1ca);
    Q116ByQ51Part2(0x6d1cafa129);
    WitnessReached(Q116, Q51, Q116ByQ51.b, 0xe5e342b4c0a3d_507894bab5f20e8b);
  }

  /** A number whose power 75707 is 1 modulo Q116. */
  const Q116By75707: Base := Base(0xb52295a2da9f8_731db89340ad8f16,
    0x3b62fbf0454bf_ca4ca95012ca0a4e,
    0x192a4f7fe39cf_2a756bb0a1d6643d)

  lemma BaseOfQ116By75707()
    ensures ValidBase(Q116, Q116By75707)
  {
  }

  lemma Q116By75707Reaches()
    ensures Reaches(Q116, Q116By75707.b, 75707, 1)
  {
    StartOfPowers(Q116, Q116By75707.b);
    BaseOfQ116By75707();
    hide Reaches, ValidBase;
    Follow(Q116, Q116By75707, 0, 1,
      Step(1, 0xb52295a2da9f8_731db89340ad8f16,
      Step(0, 0x2174c0a841e2d_f47e13363bef9ea2,
      Step(2, 0xcfd659340de94_c881dab80db7037e,
      Step(1, 0x282892bd7af02_fdc6b74bc6a00cb5,
      Step(3, 0x865f84902bb65_0cd8fd9bc7728748,
      Step(2, 0xb9bb4aa8ec80f_1b5aa6826013cdb6,
      Step(3, 0x32a1a63676b5a_7639cbf583865565,
      Step(2, 0x8fb529b4e1ef4_8735493911e8a902,
      Step(3, 1, End))))))))), 75707, 1);
  }

  lemma WitnessQ116By75707()
    requires Prime(75707)
    ensures Witness(Q116, 75707, Q116By75707.b, 0x1bb0fee20f004_33b82723f09a47f3)
  {
    hide Reaches, Prime, Witness;
    Q116By75707Reaches();
    WitnessReached(Q116, 75707, Q116By75707.b, 0x1bb0fee20f004_33b82723f09a47f3);
  }

  lemma Q116IsPrime()
    ensures Prime(Q116)
  {
    Q51IsPrime();
    Prime75707();
    hide Prime, Witness;
    WitnessQ116ByQ51();
    WitnessQ116By75707();
    PrimeByTwo(Q116, Q51, Q116ByQ51.b, 0xe5e342b4c0a3d_507894bab5f20e8b, 75707, Q116By75707.b,
    0x1bb0fee20f004_33b82723f09a47f3);
  }

  /** A number whose power Q116 is 1 modulo Q237. */
  const Q237ByQ116: Base := Base(0xa118eb0f9d8_184bab59e8e45df7_36d65fba3c64f4aa_855bc8921ac18308,
    0xa5ccf5d3db5_6ce62be5238a5308_5cf2ecc7232c8797_eb546caaddfb617c,
    0x8b4cf1d206f_83670a1bd65b3b55_31c0696ae852450b_960b7180d25e9d0e)

  lemma BaseOfQ237ByQ116()
    ensures ValidBase(Q237, Q237ByQ116)
  {
  }

  lemma Q237ByQ116Part0()
    ensures Reaches(Q237, Q237ByQ116.b, 0xe87c2, 0xa4221117ec6_14844a3207f77b9b_3be05f68d922de37_afd7a54e101a8de5)
  {
    StartOfPowers(Q237, Q237ByQ116.b);
    BaseOfQ237ByQ116();
    hide Reaches, ValidBase;
    Follow(Q237, Q237ByQ116, 0, 1,
      Step(3, 0x8b4cf1d206f_83670a1bd65b3b55_31c0696ae852450b_960b7180d25e9d0e,
      Step(2, 0x58dc130308_dd4efe1f821ac60f_a137b9ef44bdb398_e9534e07e281a56e,
      Step(2, 0x7d85cfde4f0_0836c342a258930b_e7dfa0b10a763f91_6e2724f0cfaab568,
      Step(0, 0x96b3210909a_8c8117c615e847ef_91d9bb7579d4c7da_760f5028d0d749ee,
      Step(1, 0x2639a6ecb28_39b20f25da83ede3_c574b0807b352e7c_dd33d4a86415a61d,
      Step(3, 0x23d6a1da936_a6f2e2c3d154bbd7_25a5227612211b8f_ad6a6ae7b8c04b12,
      Step(3, 0x66e62422dac_05613028954ef8af_6a89794fe4cb8fc3_9a01a67918ac4463,
      Step(0, 0x73e2b308c4d_77136eb35c70ef47_81525bbb4035cd27_c88fb02700bbe077,
      Step(0, 0xa48ce48fa3f_1e6756db9b4c7308_58ecadac6628919b_4ae5b86a2d798ccb,
      Step(2, 0xa4221117ec6_14844a3207f77b9b_3be05f68d922de37_afd7a54e101a8de5, End)))))))))), 0xe87c2,
      0xa4221117ec6_14844a3207f77b9b_3be05f68d922de37_afd7a54e101a8de5);
  }

  lemma Q237ByQ116Part1(e: int)
    requires Reaches(Q237, Q237ByQ116.b, e, 0xa4221117ec6_14844a3207f77b9b_3be05f68d922de37_afd7a54e101a8de5)
    ensures Reaches(Q237, Q237ByQ116.b, 0x100000 * e + 0xa477b,
                      0x4145cdc672c_ce1babe03b600ef3_4e5cc90c4a8f76da_fbaa7e74f4d58d14)
  {
    BaseOfQ237ByQ116();
    hide Reaches, ValidBase;
    Follow(Q237, Q237ByQ116, e, 0xa4221117ec6_14844a3207f77b9b_3be05f68d922de37_afd7a54e101a8de5,
      Step(2, 0x7e3eca5495a_5e3c2212eb868848_7e79bc6c042389f0_1a1b706748ef3332,
      Step(2, 0x6997c13781f_e17841280a22b659_c00834a959d6138e_c9d3f2821d9d2c64,
      Step(1, 0x45deae5d173_3e9e844d8f1737a4_66b03c3269c73dc1_2c13607bd020f10c,
      Step(0, 0x5109b0515e8_fba2c205ecedd141_6f736fecc816926b_9a887bbbc62ff635,
      Step(1, 0x3917f5d4e24_b10f3b58aaacad33_99baa5982d0d3819_b4be1d9ed76dff91,
      Step(3, 0x8c4e4b1bd51_e029a05cebe12fcd_639608ca9d69136c_13fec807f0df59f1,
      Step(1, 0xa3dfd549c4_6392b28ec4e53be7_d094e059fa1b1a6e_42df45b515096160,
      Step(3, 0xc21b19452b_898884e91a01ccf7_1d26c0c00f96f6de_89e8a751442eee1b,
      Step(2, 0x1521b4139d5_9dd46e5565b9db56_8908af5f45f9eaee_f2ebe1a7d5d9f911,
      Step(3, 0x4145cdc672c_ce1babe03b600ef3_4e5cc90c4a8f76da_fbaa7e74f4d58d14, End)))))))))),
      0x100000 * e + 0xa477b, 0x4145cdc672c_ce1babe03b600ef3_4e5cc90c4a8f76da_fbaa7e74f4d58d14);
  }

  lemma Q237ByQ116Part2(e: int)
    requires Reaches(Q237, Q237ByQ116.b, e, 0x4145cdc672c_ce1babe03b600ef3_4e5cc90c4a8f76da_fbaa7e74f4d58d14)
    ensures Reaches(Q237, Q237ByQ116.b, 0x100000 * e + 0x815a1,
                      0xc333e695c5_57dea1833a6d4c2e_bd8e9becd7e01880_c70229f73ef0ee6f)
  {
    BaseOfQ237ByQ116();
    hide Reaches, ValidBase;
    Follow(Q237, Q237ByQ116, e, 0x4145cdc672c_ce1babe03b600ef3_4e5cc90c4a8f76da_fbaa7e74f4d58d14,
      Step(2, 0x4c37276d969_1be7c056b2f28a7d_7fc2d5573e792c34_a16d50a712730344,
      Step(0, 0x4909b9ea2ec_9a7b910cf3eb8baf_b40f4867d33792b4_378132e9998d4c8a,
      Step(0, 0x937e3ad229d_4b3d482feb386306_ef59a45880b0eb66_769396237b6737ea,
      Step(1, 0x5bc94b0f9f6_1f6290a8e318de81_76e243bf0ac26d08_70c5dc8fc7072899,
      Step(1, 0xdb193a211c_8411a640a2dc7820_09608f9d15f6db4a_3705061675dcae21,
      Step(1, 0x41a0bd26931_51d443b62e7c331b_15e77c8072326dd1_6e247efb7bfbbe39,
      Step(2, 0x3c9ba986d51_528485eba12677a5_3fb2e15dbf3be389_8cd080468f3081ce,
      Step(2, 0x3adf545ec73_b51fedeb89bde091_359c2417c7ff0a2a_6cf0a26dc49f2e97,
      Step(0, 0x8085b9363e0_4ff6f91ca4f73590_73735fc00b5b247a_bd03f5e7c6be0ada,
      Step(1, 0xc333e695c5_57dea1833a6d4c2e_bd8e9becd7e01880_c70229f73ef0ee6f, End)))))))))),
      0x100000 * e + 0x815a1, 0xc333e695c5_57dea1833a6d4c2e_bd8e9becd7e01880_c70229f73ef0ee6f);
  }

  lemma Q237ByQ116Part3(e: int)
    requires Reaches(Q237, Q237ByQ116.b, e, 0xc333e695c5_57dea1833a6d4c2e_bd8e9becd7e01880_c70229f73ef0ee6f)
    ensures Reaches(Q237, Q237ByQ116.b, 0x100000 * e + 0x79378,
                      0x576f3c4c28_aec4e2460338906a_b9ac647159bbe648_3e87e60682c6b6c3)
  {
    BaseOfQ237ByQ116();
    hide Reaches, ValidBase;
    Follow(Q237, Q237ByQ116, e, 0xc333e695c5_57dea1833a6d4c2e_bd8e9becd7e01880_c70229f73ef0ee6f,
      Step(1, 0x42a137b599d_4ccaff49da9f7f91_a3595e00e3c24721_375b63d046801884,
      Step(3, 0xe0b5ae692b_e86abe4f0763d240_a8c16e14af973a04_42bf342a9877f25f,
      Step(2, 0x5544d14241e_0efc6ed836c88025_7df8dbd63fd0ba65_02c7b66617d9db60,
      Step(1, 0x4dbda4b7be7_c597933d2c2e02ed_65b14f8b8beb749f_b71e27a01b85eac5,
      Step(0, 0x112745b5b0a_c7355ea2834b6a1f_04b75b62f6ce591b_21e384cae733b0e9,
      Step(3, 0x7879a5f5967_4f0f8baee443d589_90af1d4b8284319c_c263bb828de171d2,
      Step(1, 0x1b38053a9c0_1248edb08b3a3206_56956ef9d30e027f_f2e771a3ad53c1a6,
      Step(3, 0x87eb4cb255a_29a8e7c5a4e5083a_911c9193628ec41e_6c414f36ebcf160b,
      Step(2, 0xccae0b69a0_5f5ce20b55c81b50_394bdfe023d0428c_b66710b71d1c8354,
      Step(0, 0x576f3c4c28_aec4e2460338906a_b9ac647159bbe648_3e87e60682c6b6c3, End)))))))))),
      0x100000 * e + 0x79378, 0x576f3c4c28_aec4e2460338906a_b9ac647159bbe648_3e87e60682c6b6c3);
  }

  lemma Q237ByQ116Part4(e: int)
    requires Reaches(Q237, Q237ByQ116.b, e, 0x576f3c4c28_aec4e2460338906a_b9ac647159bbe648_3e87e60682c6b6c3)
    ensures Reaches(Q237, Q237ByQ116.b, 0x100000 * e + 0x7395b,
                      0x231fd691256_47c9c3524a011dce_fd665c1ec24fd926_19a6b2314f466802)
  {
    BaseOfQ237ByQ116();
    hide Reaches, ValidBase;
    Follow(Q237, Q237ByQ116, e, 0x576f3c4c28_aec4e2460338906a_b9ac647159bbe648_3e87e60682c6b6c3,
      Step(1, 0x25f1bebb0dd_9b80cc0aa701df7c_2f76d1e3076919f7_c7b0f234463399d8,
      Step(3, 0x64cac31c919_b935f1547c173a2e_cab65db86cdc408a_49da5b2070910130,
      Step(0, 0x1f1faa2ad73_d39374e4b9a14393_289259e73ff1d149_fd4c38a014fc8e2c,
      Step(3, 0x42a75d74dd5_854e48c5bc6f3120_861bfa26cdc4b107_213726e674ef60d3,
      Step(2, 0x452787058f6_02bea144998ad11a_c27816a18e6dbb18_035d5a8e033003a6,
      Step(1, 0x1eef041bbbe_4684ed28066981df_940860160a7f2a67_079c025a8bcc97ee,
      Step(1, 0x3640de1fdec_fb7b133784f9091e_75f84e8a6fe8cff6_469f06a72a559eac,
      Step(1, 0xaa8753e2e48_c553a6ee84837a7a_faa12e90be701a6d_6ebc59a010d5907c,
      Step(2, 0x8c36d937b7f_b8d95297ae3f389b_d5be20a467de3843_73d8a4fdd91c9628,
      Step(3, 0x231fd691256_47c9c3524a011dce_fd665c1ec24fd926_19a6b2314f466802, End)))))))))),
      0x100000 * e + 0x7395b, 0x231fd691256_47c9c3524a011dce_fd665c1ec24fd926_19a6b2314f466802);
  }

  lemma Q237ByQ116Part5(e: int)
    requires Reaches(Q237, Q237ByQ116.b, e, 0x231fd691256_47c9c3524a011dce_fd665c1ec24fd926_19a6b2314f466802)
    ensures Reaches(Q237, Q237ByQ116.b, 0x10000 * e + 9185, 1)
  {
    BaseOfQ237ByQ116();
    hide Reaches, ValidBase;
    Follow(Q237, Q237ByQ116, e, 0x231fd691256_47c9c3524a011dce_fd665c1ec24fd926_19a6b2314f466802,
      Step(0, 0x29dbd3ecd30_42d5e90b82161bf9_09eb5bb0722739ab_4fb5798e80b6a3a7,
      Step(2, 0x430f5a0aceb_9a83e8cecc8696a4_a796abd5746ff3b4_aad08f17e18a89f2,
      Step(0, 0x4cec2728ade_cc3dac46ad3cda7a_0378037a6d643031_1d36321168174082,
      Step(3, 0xa7f2a89537e_29ecc3ef90f60dbb_855ebdbd8184e692_2ec0915f7e3b8486,
      Step(3, 0x1dec702ff51_4def393a13de3791_001b6fec476630ba_72aca68d010bb15a,
      Step(2, 0x9d6ef5f5f52_fef9387c54ea455f_297eab23cc8947f1_566a17c9ec5cccaf,
      Step(0, 0xd5132c9e69_001a4c28ac602732_7fd2ad76e94ff28a_7be4fb3616a5677a,
      Step(1, 1, End)))))))), 0x10000 * e + 9185, 1);
  }

  lemma WitnessQ237ByQ116()
    requires Prime(Q116)
    ensures Witness(Q237, Q116, Q237ByQ116.b, 0xa35a14fb145_2ddd0fca6eef50ac_9bd9a369cab89410_4fc366d4fa595e38)
  {
    hide Reaches, Prime, Witness;
    Q237ByQ116Part0();
    Q237ByQ116Part1(0xe87c2);
    Q237ByQ116Part2(0xe87c2a477b);
    Q237ByQ116Part3(0xe87c2a477b815a1);
    Q237ByQ116Part4(0xe87c_2a477b815a179378);
    Q237ByQ116Part5(0xe87c2a477_b815a1793787395b);
    WitnessReached(Q237, Q116, Q237ByQ116.b, 0xa35a14fb145_2ddd0fca6eef50ac_9bd9a369cab89410_4fc366d4fa595e38);
  }

  /** A number whose power 353 is 1 modulo Q237. */
  const Q237By353: Base := Base(0x13d9dc1e500_9af5c4c2541515b8_7c068b913c42d9a7_644ce63ffe960964,
    0x2572760ca51_df43d4d5bd713dc6_b8e7a8b09f9681f2_1960a8072a319ebf,
    0x215bfc61935_85338540f420d08b_73d12bf271ac8c7e_43f1e1f40860195a)

  lemma BaseOfQ237By353()
    ensures ValidBase(Q237, Q237By353)
  {
  }

  lemma Q237By353Reaches()
    ensures Reaches(Q237, Q237By353.b, 353, 1)
  {
    StartOfPowers(Q237, Q237By353.b);
    BaseOfQ237By353();
    hide Reaches, ValidBase;
    Follow(Q237, Q237By353, 0, 1,
      Step(1, 0x13d9dc1e500_9af5c4c2541515b8_7c068b913c42d9a7_644ce63ffe960964,
      Step(1, 0x3a5adc0270a_1579c057b90d909d_269d1f5e50e82e0d_275380727441c789,
      Step(2, 0x67f02c1c6aa_edf6f0ea9de00aaa_a87af708006a0070_524c58b9200d890c,
      Step(0, 0x59fd720abef_5a6f7fbf35322cee_3379c47e94e091aa_da181b69c8e92965,
      Step(1, 1, End))))), 353, 1);
  }

  lemma WitnessQ237By353()
    requires Prime(353)
    ensures Witness(Q237, 353, Q237By353.b, 0x57f48885910_87bd9c3eb0c0f278_ba4fddc26c6cce3b_2e8944893fcd09ab)
  {
    hide Reaches, Prime, Witness;
    Q237By353Reaches();
    WitnessReached(Q237, 353, Q237By353.b, 0x57f48885910_87bd9c3eb0c0f278_ba4fddc26c6cce3b_2e8944893fcd09ab);
  }

  lemma Q237IsPrime()
    ensures Prime(Q237)
  {
    Q116IsPrime();
    SmallPrimes();
    hide Prime, Witness;
    WitnessQ237ByQ116();
    WitnessQ237By353();
    PrimeByTwo(Q237, Q116, Q237ByQ116.b, 0xa35a14fb145_2ddd0fca6eef50ac_9bd9a369cab89410_4fc366d4fa595e38, 353,
    Q237By353.b, 0x57f48885910_87bd9c3eb0c0f278_ba4fddc26c6cce3b_2e8944893fcd09ab);
  }

  /** A number whose power Q237 is 1 modulo P. */
  const PByQ237: Base := Base(0xf1ba0c491eeef8_3c49fc1b744331bb_096d4893142c1874_31f7b03e61a75a49,
    0x709073d1ffed0339_97883f60abf9ed49_b8362089b7f71c7d_9dea1ea56f01adee,
    0x4ea246ccb138e2f7_55443ef3daf40219_e5fcbc7235ea2317_1ab32bdfd9ba1c66)

  lemma BaseOfPByQ237()
    ensures ValidBase(P, PByQ237)
  {
  }

  lemma PByQ237Part0()
    ensures Reaches(P, PByQ237.b, 0xabaf8, 0x1dadfa118c804147_f38342b13a809bd4_89473f161be3cb12_5ec35016f0baf036)
  {
    StartOfPowers(P, PByQ237.b);
    BaseOfPByQ237();
    hide Reaches, ValidBase;
    Follow(P, PByQ237, 0, 1,
      Step(2, 0x709073d1ffed0339_97883f60abf9ed49_b8362089b7f71c7d_9dea1ea56f01adee,
      Step(2, 0xde3eefd0bbc5680_6ab55ac396d56536_597518ca60c8bf89_5e478d477333e84d,
      Step(2, 0x20a53b8acc952df9_3aea51ce9d19b169_22de85fdf57dfc2d_df28d1a90dcd5c07,
      Step(3, 0x206fd5b3d4c68b4e_2d908036ae1b16e4_911d221e05170272_58ca8648cae9df61,
      Step(2, 0x4046bd38be5d3d4f_cebb0e64abf0bc24_53d46d9b95a8d83b_59ce18f55b686889,
      Step(2, 0x622abf3ba84630b1_c78623f273cef549_8215708711695936_3dc76bc858dadc06,
      Step(3, 0x1b1fd343b4c5dd12_d86f1aa9dcd532e0_25ffed3b0ad1f12f_2eda876d7a634642,
      Step(3, 0x5fde9c5122278812_c06536482605c2a3_a7b23185dbb19d8e_f04cae67c0020692,
      Step(2, 0x2abc0b874a38e29_40465b615bffdb6d_c321808eaa693f78_c208ffe09f41a1c6,
      Step(0, 0x1dadfa118c804147_f38342b13a809bd4_89473f161be3cb12_5ec35016f0baf036, End)))))))))), 0xabaf8,
      0x1dadfa118c804147_f38342b13a809bd4_89473f161be3cb12_5ec35016f0baf036);
  }

  lemma PByQ237Part1(e: int)
    requires Reaches(P, PByQ237.b, e, 0x1dadfa118c804147_f38342b13a809bd4_89473f161be3cb12_5ec35016f0baf036)
    ensures Reaches(P, PByQ237.b, 0x100000 * e + 0xc6b09,
                      0x20f1e54f465a32c_f2be5a1530a987ed_4057d48ae46bb593_aca2aac6d53954ab)
  {
    BaseOfPByQ237();
    hide Reaches, ValidBase;
    Follow(P, PByQ237, e, 0x1dadfa118c804147_f38342b13a809bd4_89473f161be3cb12_5ec35016f0baf036,
      Step(3, 0x42b46e1a95fb5f3a_97725084bb33d6c4_a294b6580b5454ea_392fde331c211c50,
      Step(0, 0x6ab9446f2fd2cc9b_0e3d84e2a3e9326a_e3703f22d1f89b53_655acb7921b442ae,
      Step(1, 0x1cd0e3de30318dbd_09003d65dc46fe17_9f6934eaf40fc4f3_1234a55cacdafc75,
      Step(2, 0x2fb68890fb9d699f_5c26bef68430ece1_c910a3378f0aa05d_a3513eab05eb1f0f,
      Step(2, 0x3ab413a3dda977ab_29e4ee7ce5a24924_1dffcb20ff9d774f_55c77eb17dbf3c8e,
      Step(3, 0x5679a457f3f9d312_d133adc8fdef7161_de05d229f96e741a_1616a1d3bbb18c7a,
      Step(0, 0x1e421e8bc5f82781_49d3539d6a06b05e_578cce9da8a8dcef_ed198effaa38a44c,
      Step(0, 0x29afa85dcabde5f9_fb5b594cdf54c766_8ba4121e4542c8e9_98c7faed07eae4dc,
      Step(2, 0x149fada88136c7aa_e3fd0d56aa59202d_b1e12ec3a7202039_9e2dcac5356dd1fd,
      Step(1, 0x20f1e54f465a32c_f2be5a1530a987ed_4057d48ae46bb593_aca2aac6d53954ab, End)))))))))),
      0x100000 * e + 0xc6b09, 0x20f1e54f465a32c_f2be5a1530a987ed_4057d48ae46bb593_aca2aac6d53954ab);
  }

  lemma PByQ237Part2(e: int)
    requires Reaches(P, PByQ237.b, e, 0x20f1e54f465a32c_f2be5a1530a987ed_4057d48ae46bb593_aca2aac6d53954ab)
    ensures Reaches(P, PByQ237.b, 0x100000 * e + 0x4fd0f,
                      0x2088a85bfeed3aa5_0710c8f24742a0ba_d652ba7e4c2bbb05_78cd3ed942694a2b)
  {
    BaseOfPByQ237();
    hide Reaches, ValidBase;
    Follow(P, PByQ237, e, 0x20f1e54f465a32c_f2be5a1530a987ed_4057d48ae46bb593_aca2aac6d53954ab,
      Step(1, 0x25077c77a63c5734_190e06c2f38e153a_da52c9208983a49e_c3e83e39ca650d0d,
      Step(0, 0x68afa9bc0909b911_996836028aae7434_c8b2b107f1270948_2f280331d893c583,
      Step(3, 0x4c12133080ca764_bc0c84a9516a9372_44d2351d7504f074_885c3bacc634e88d,
      Step(3, 0x471f152bf9b3873b_869c9330df042660_bcddabf5cfe9571c_7ab8e09dd6276132,
      Step(3, 0x7512e77e51dc76a2_39d5f7433804ae2f_4e0a9567afea3dc4_a1eee0ca69ab4c77,
      Step(1, 0x56a706447989e113_3d5a4b694e77dc0f_b5766dae4ca20bad_5ac7428ce030ba65,
      Step(0, 0x6d5235f572ce7705_8749b94ef0c65dc3_dfddff52b85d31f8_0ff625db5eeef237,
      Step(0, 0x7d417ec6d98a1286_b74f85f5140448d4_347e8bc4e5cd04fc_3df149a0575e3a90,
      Step(3, 0x8dfee1e1b27bd0e_7028ada4f9ab839d_883f209217343c88_e64fbd1572f03880,
      Step(3, 0x2088a85bfeed3aa5_0710c8f24742a0ba_d652ba7e4c2bbb05_78cd3ed942694a2b, End)))))))))),
      0x100000 * e + 0x4fd0f, 0x2088a85bfeed3aa5_0710c8f24742a0ba_d652ba7e4c2bbb05_78cd3ed942694a2b);
  }

  lemma PByQ237Part3(e: int)
    requires Reaches(P, PByQ237.b, e, 0x2088a85bfeed3aa5_0710c8f24742a0ba_d652ba7e4c2bbb05_78cd3ed942694a2b)
    ensures Reaches(P, PByQ237.b, 0x100000 * e + 0x32c2c,
                      0x3a4ff0bad668aae8_ee21301a2ea87405_593b3f928b0646ba_f03caadf60a729f7)
  {
    BaseOfPByQ237();
    hide Reaches, ValidBase;
    Follow(P, PByQ237, e, 0x2088a85bfeed3aa5_0710c8f24742a0ba_d652ba7e4c2bbb05_78cd3ed942694a2b,
      Step(0, 0x120173a9d1c23cef_e169ae6a9594d893_208de899a04b73b6_f85f2809f3b4c15c,
      Step(3, 0x408bb1af6f2e580b_0e1b2810ab3dd9cb_f8766a3093981657_14a58144c3f56e75,
      Step(0, 0x71c3adf5d617a959_1bc758a60aeafe94_e871d4f39ed09716_25289da78ba07fd0,
      Step(2, 0x598738696b1a78ef_858825e3bb42b77d_3c440b0ffb4023d0_34e430d68a10f92d,
      Step(3, 0x6a6071a7dcea1af2_065a435440a0f69f_10605d6e4fbc49a7_4fbe68c0520e6df9,
      Step(0, 0x1e660ac6a55e6e31_11a1534f02b14663_794ff79244fb34ce_df622299d628ac38,
      Step(0, 0x2851bd007acd8d12_7a96e681a5147556_49246561cd0e743a_e5feacdd379e6ce1,
      Step(2, 0x51180164514973e4_545bf09b322ea4da_a755664baeb901d6_eb28dd91b6399a38,
      Step(3, 0x4fd6c4a4f2ab9202_8ad7e8e7c28dbbb8_94eb8fb08a50e4f9_9399372c6bcadb5c,
      Step(0, 0x3a4ff0bad668aae8_ee21301a2ea87405_593b3f928b0646ba_f03caadf60a729f7, End)))))))))),
      0x100000 * e + 0x32c2c, 0x3a4ff0bad668aae8_ee21301a2ea87405_593b3f928b0646ba_f03caadf60a729f7);
  }

  lemma PByQ237Part4(e: int)
    requires Reaches(P, PByQ237.b, e, 0x3a4ff0bad668aae8_ee21301a2ea87405_593b3f928b0646ba_f03caadf60a729f7)
    ensures Reaches(P, PByQ237.b, 0x100000 * e + 0xcabab,
                      0x74c27c48a7b8c413_267e3ad84fb42217_2e3bd9245e06ec10_0e49b0833a2e5d4b)
  {
    BaseOfPByQ237();
    hide Reaches, ValidBase;
    Follow(P, PByQ237, e, 0x3a4ff0bad668aae8_ee21301a2ea87405_593b3f928b0646ba_f03caadf60a729f7,
      Step(3, 0x20fde7fc9957dd11_a867a2c4b307c7c9_1963ea072b897998_cdb7069db572793d,
      Step(0, 0x72b9d444f95f46b8_ad9f0e0ef87e4038_ad3e36b33dd74960_9dfc106e8e9a6051,
      Step(2, 0x24ab9f45bd4a4757_d4777478edff94e9_28b99ea50d790362_033312a35ee0435f,
      Step(2, 0x2ff99ed066da1874_29838f40e8d46dcf_272f51dba77afab1_63c10446a53a8b72,
      Step(2, 0x4ce306502f60831b_c6d924493f4d22ce_514f935849e37cc0_e8bca8d7ea4afe18,
      Step(3, 0x125807166bf9a6e0_2e26fbc39953d518_5ffefc092a4a4121_39accbb5d8440f76,
      Step(2, 0x4765f2a22892c923_60a6fd164e70ba48_24e8d91519b7b610_465505660e420db1,
      Step(2, 0x25b8863664a2c65_e100b5d96599a41b_343dabc28440377b_2a6243bde8282771,
      Step(2, 0xd619ccfc6199823_806750dbb4fb04a3_58e1d5555a2e1a54_5f9b2ffecd7f489b,
      Step(3, 0x74c27c48a7b8c413_267e3ad84fb42217_2e3bd9245e06ec10_0e49b0833a2e5d4b, End)))))))))),
      0x100000 * e + 0xcabab, 0x74c27c48a7b8c413_267e3ad84fb42217_2e3bd9245e06ec10_0e49b0833a2e5d4b);
  }

  lemma PByQ237Part5(e: int)
    requires Reaches(P, PByQ237.b, e, 0x74c27c48a7b8c413_267e3ad84fb42217_2e3bd9245e06ec10_0e49b0833a2e5d4b)
    ensures Reaches(P, PByQ237.b, 0x100000 * e + 0x864db,
                      0x5e08c0e904ecf69c_6d01bf9e0dd74977_e4cb5b552c0cf454_8878a1fe608f73cd)
  {
    BaseOfPByQ237();
    hide Reaches, ValidBase;
    Follow(P, PByQ237, e, 0x74c27c48a7b8c413_267e3ad84fb42217_2e3bd9245e06ec10_0e49b0833a2e5d4b,
      Step(2, 0xef4e8a6b5335e71_8464d99ea63238c1_f431cc85f2ce304b_9955ecf813853b00,
      Step(0, 0x70375f32e278a736_6b098a856fcff94e_b55ef90f8e8eae65_73dcec0d1e3b3ee4,
      Step(1, 0x4297ceff3eb507f5_737d9b6e10353dba_0956eb67d43a6eb9_1b26598f04b2e93f,
      Step(2, 0x4d72af793f012f31_44a98a1b96ccd45a_7144dcf75fd557d9_2941d9d9b6f1a811,
      Step(1, 0x3fb7fda957cff97a_18f25d50d2025558_a4af39169f1c0afe_615a2c2e8be44016,
      Step(0, 0x6bcd80e7d3ed2f48_1a54c95c22f4d561_1004ca745b245e41_06a3e56e28600971,
      Step(3, 0x7aec489208ba02e9_1257d345b6ff9cda_eaf37db31c57c05b_786554b186a99333,
      Step(1, 0xe7aaa5b2c2d55d4_d632e9bdf8ac84b1_041911e93ae83cae_3f93733119c113a4,
      Step(2, 0x56ca03633b8811bb_29cd8d750c1ed87f_225e051ee9bf3d04_2db569d83294e5b0,
      Step(3, 0x5e08c0e904ecf69c_6d01bf9e0dd74977_e4cb5b552c0cf454_8878a1fe608f73cd, End)))))))))),
      0x100000 * e + 0x864db, 0x5e08c0e904ecf69c_6d01bf9e0dd74977_e4cb5b552c0cf454_8878a1fe608f73cd);
  }

  lemma PByQ237Part6(e: int)
    requires Reaches(P, PByQ237.b, e, 0x5e08c0e904ecf69c_6d01bf9e0dd74977_e4cb5b552c0cf454_8878a1fe608f73cd)
    ensures Reaches(P, PByQ237.b, 0x100000 * e + 0xecd99,
                      0x5cb23a07f0029392_f6e377875706d02f_20992fdf2a2241e0_b4fdb4585212bce7)
  {
    BaseOfPByQ237();
    hide Reaches, ValidBase;
    Follow(P, PByQ237, e, 0x5e08c0e904ecf69c_6d01bf9e0dd74977_e4cb5b552c0cf454_8878a1fe608f73cd,
      Step(3, 0x3b127da5595ab21_092d6ddd00933729_87408a48a7bb353d_d18f98b2cf1147ec,
      Step(2, 0x26e65ef8be9735f8_22472757ad3ae14f_df112e15d950ae1d_1e8f68f4dae0a5cb,
      Step(3, 0x3662fbf29d4a5453_e74ffa5345b5ccb5_4c96630512014d47_91418e2052a8aa5d,
      Step(0, 0x1ff921169ce8eb39_e2b2d89c7b840a00_c8bdb992423d2b38_2d585236579ec933,
      Step(3, 0x3f1cb0cfb5c7bfb8_8b009016bdaf1853_284d2a9d44046664_6002d303b4c007a4,
      Step(1, 0x6540220c2ff6f077_27e06770a7f9ce29_69acf5697655c874_3cdb340367468cad,
      Step(2, 0x5b03ad4188eb393a_96c354149435d019_40a62f450414284d_3b6b75cc817b86e2,
      Step(1, 0x2c23dd39e9d257c_7625aca98364116e_5e31a38258a6ed1f_b367d109a0f286cf,
      Step(2, 0x49e400bb6eecb5bb_35a63d70a3b14d38_3697a2a106629545_6ac571acb5fe1673,
      Step(1, 0x5cb23a07f0029392_f6e377875706d02f_20992fdf2a2241e0_b4fdb4585212bce7, End)))))))))),
      0x100000 * e + 0xecd99, 0x5cb23a07f0029392_f6e377875706d02f_20992fdf2a2241e0_b4fdb4585212bce7);
  }

  lemma PByQ237Part7(e: int)
    requires Reaches(P, PByQ237.b, e, 0x5cb23a07f0029392_f6e377875706d02f_20992fdf2a2241e0_b4fdb4585212bce7)
    ensures Reaches(P, PByQ237.b, 0x100000 * e + 0x14467,
                      0x565e91c9f3c25b_6052c1ee26a55b16_1299d9d98d5f4620_27ee9a85a3365cff)
  {
    BaseOfPByQ237();
    hide Reaches, ValidBase;
    Follow(P, PByQ237, e, 0x5cb23a07f0029392_f6e377875706d02f_20992fdf2a2241e0_b4fdb4585212bce7,
      Step(0, 0x3307c8530ac39ebb_f5db17b92442821a_11572fe1d1c40259_06708a5662b4ad60,
      Step(1, 0x5810a04f1cd81ed8_e7cd3241f4285462_560e114366e53b1b_55eb4d07055dfab2,
      Step(1, 0xb972427e4c493c9_f1c0b75916300016_d8512f160839cce8_e768552b972af872,
      Step(0, 0x6aaa7687155754d7_52cd79d9700db592_7e1eb54bd7054633_82dd210abb661ab5,
      Step(1, 0x6049bb9862b7dad5_420b469e9c5f643a_3d67fb1933538f3a_9ac6c2bb90c260b6,
      Step(0, 0x734cd3108ddf15e0_e5e1c19aa5df9297_e03066eb0567d334_9f47da79e01335f7,
      Step(1, 0x518ab6d958cc47e0_2e52a745b2551ad8_791100f66ee81662_966ca9e407bef803,
      Step(2, 0x71be1da760f4c39_d9e1d7af6a79959d_a6f603a79ace4860_5ee447483ad957fc,
      Step(1, 0x7f208b30bee5ca82_8ae7467d7617c8c9_518cc2c2f3b3e90b_06bc75573935f253,
      Step(3, 0x565e91c9f3c25b_6052c1ee26a55b16_1299d9d98d5f4620_27ee9a85a3365cff, End)))))))))),
      0x100000 * e + 0x14467, 0x565e91c9f3c25b_6052c1ee26a55b16_1299d9d98d5f4620_27ee9a85a3365cff);
  }

  lemma PByQ237Part8(e: int)
    requires Reaches(P, PByQ237.b, e, 0x565e91c9f3c25b_6052c1ee26a55b16_1299d9d98d5f4620_27ee9a85a3365cff)
    ensures Reaches(P, PByQ237.b, 0x100000 * e + 0x9c1ad,
                      0x18100f62e51ce4c7_74066aa84638363a_32143223b97da968_c57cf8def22821b7)
  {
    BaseOfPByQ237();
    hide Reaches, ValidBase;
    Follow(P, PByQ237, e, 0x565e91c9f3c25b_6052c1ee26a55b16_1299d9d98d5f4620_27ee9a85a3365cff,
      Step(2, 0x1d4ae2fa1e3969ef_f503165d9c0e164d_e64116fe5a5c53d2_febff879f91d02e8,
      Step(1, 0x5325fda423778193_2fab467f84baa0cc_d6c742e2ebae5830_b29e24393b6bbd41,
      Step(3, 0x666085ad24b2f2d_da30823d0e147b54_d255a48d44dca787_9c43a4beb6437f04,
      Step(0, 0x2a5ea2c514438720_624e33dedaa9fbe6_05e55ace3a1e9aac_58494d9b1fd482cc,
      Step(0, 0x33932da903b6f4f8_83d8ac0281a15096_42b69d1f9e88c560_7420c7e62801d08a,
      Step(1, 0x6c0eb20c8ed317ab_dafd170465c91f74_8f8e5f100184466e_411b495fabc9aa39,
      Step(2, 0x47a985ab85613ee9_453e2eb9aeffdcb6_5e219e40f89e9043_ec993047c2b7cf7e,
      Step(2, 0x28367540d567e8cc_03c54018a6bcfcc7_4a761686f5381a0c_1ab23ac029d6d760,
      Step(3, 0x3fe4332b65078599_a85c651774a1a1fa_37ebedfb1c9a0049_6a5e9b1c0c446c6f,
      Step(1, 0x18100f62e51ce4c7_74066aa84638363a_32143223b97da968_c57cf8def22821b7, End)))))))))),
      0x100000 * e + 0x9c1ad, 0x18100f62e51ce4c7_74066aa84638363a_32143223b97da968_c57cf8def22821b7);
  }

  lemma PByQ237Part9(e: int)
    requires Reaches(P, PByQ237.b, e, 0x18100f62e51ce4c7_74066aa84638363a_32143223b97da968_c57cf8def22821b7)
    ensures Reaches(P, PByQ237.b, 0x100000 * e + 0xf8048,
                      0x1ef090a7514b1305_121dffd1d17232c7_221af7b86d1dc130_0d4a7d7c5857e93f)
  {
    BaseOfPByQ237();
    hide Reaches, ValidBase;
    Follow(P, PByQ237, e, 0x18100f62e51ce4c7_74066aa84638363a_32143223b97da968_c57cf8def22821b7,
      Step(3, 0x4e6d7260b1537e82_5dc893994cc0a0ff_d7854bc3ee6687b8_827093487ffb3727,
      Step(3, 0x77c29d3540fd172d_bf616ad4b0fb57df_65ca9d768f847a9c_e2e179347a7f7470,
      Step(2, 0x13ab3e86fc4cd578_3ec28221bf1d290e_75df6129cfb4a0cf_cf6e85a75779de75,
      Step(0, 0x21134695adb30e4_f572ae6b7a46ca2e_a787d2b502887c9d_d6618a850549d5da,
      Step(0, 0x139ea97ea9aaa3c6_d9047451ae774123_65bb25357b214201_6d72a7fdebc86e71,
      Step(0, 0x2a25440ed8fe4dc8_b6c08632942cb9aa_89bfed75b475ff0e_6b3693ec46ff4d31,
      Step(1, 0x5e0c9d13f09097a5_7f414fa5a04d4f8a_4dec605213e9c732_df7c1cd2d4d0b1fb,
      Step(0, 0x37178aea0bb4d858_17ee3f7274bc9efd_ff85527dcdcb95c0_785386941baec09d,
      Step(2, 0x22e7a766b1b29885_e4a84b8b8b3e80e0_4db4ce86c429be70_6d7d58f4b1277bd3,
      Step(0, 0x1ef090a7514b1305_121dffd1d17232c7_221af7b86d1dc130_0d4a7d7c5857e93f, End)))))))))),
      0x100000 * e + 0xf8048, 0x1ef090a7514b1305_121dffd1d17232c7_221af7b86d1dc130_0d4a7d7c5857e93f);
  }

  lemma PByQ237Part10(e: int)
    requires Reaches(P, PByQ237.b, e, 0x1ef090a7514b1305_121dffd1d17232c7_221af7b86d1dc130_0d4a7d7c5857e93f)
    ensures Reaches(P, PByQ237.b, 0x100000 * e + 0x98fb2,
                      0x3882b53e39915aaf_95431c9b8b22fc6f_d7560cf728094b67_374aab3af58ff0db)
  {
    BaseOfPByQ237();
    hide Reaches, ValidBase;
    Follow(P, PByQ237, e, 0x1ef090a7514b1305_121dffd1d17232c7_221af7b86d1dc130_0d4a7d7c5857e93f,
      Step(2, 0x50b82f4da7c8faf8_b36a30e336d8a44f_a7a59aa3872977f5_568ec48c6101ba2d,
      Step(1, 0x726464dc514497f7_14acb47ad4872984_d9b112756d5d2b1d_b920dbe02fabd52b,
      Step(2, 0xd826b69a278e8d0_c716157124d06fea_88ad392e27133ed4_ba3a93c9ea0ad0cd,
      Step(0, 0x43858a89fa780fc3_2e3e06457787b9c4_90888baef23175bb_ca0cabcbed18052e,
      Step(3, 0x3ae5fe9810f4d4e6_b6474c1b45f20f34_fc2fd326ec54d08e_c0cd145a90ac0212,
      Step(3, 0x1e2bef643f7a1603_77e7dd036a4d6c06_42b4dd24b17dbea3_ed3b352f889d2c95,
      Step(2, 0x630715a1fa4e4424_7feba27b363642e1_d5a5e430bfa4dedd_a53c25323dee15df,
      Step(3, 0x779804032778e125_b8eb79b772d9d7b3_e73093f720b7a759_309e5e4c8d850ed8,
      Step(0, 0x29d46a557fb5b049_ba95c15d2fa1258f_1559a69d186ce1e0_240b2fb379b455b5,
      Step(2, 0x3882b53e39915aaf_95431c9b8b22fc6f_d7560cf728094b67_374aab3af58ff0db, End)))))))))),
      0x100000 * e + 0x98fb2, 0x3882b53e39915aaf_95431c9b8b22fc6f_d7560cf728094b67_374aab3af58ff0db);
  }

  lemma PByQ237Part11(e: int)
    requires Reaches(P, PByQ237.b, e, 0x3882b53e39915aaf_95431c9b8b22fc6f_d7560cf728094b67_374aab3af58ff0db)
    ensures Reaches(P, PByQ237.b, 0x10000 * e + 1067, 1)
  {
    BaseOfPByQ237();
    hide Reaches, ValidBase;
    Follow(P, PByQ237, e, 0x3882b53e39915aaf_95431c9b8b22fc6f_d7560cf728094b67_374aab3af58ff0db,
      Step(0, 0x4cdd9483e1c41766_79fe1de3f96ec39c_89a42fade04cd1fe_44968cf088c95333,
      Step(0, 0x7665bdb55a01f0d0_12e89ecceb440abd_6ee8d914c3f3296c_8c9b4d3d242f444c,
      Step(1, 0x2aeee574e88f8307_56938e64f44f4c34_4bce1b27cc1b9230_6eb01732303e843b,
      Step(0, 0x47006af951dcc956_4c5306caeeb65ad2_387deb17740fee8e_417a965e14051c10,
      Step(0, 0x6a43f73dfb5f30b8_3778821eb1927938_e545d7908fedd646_3dec632c87886fa7,
      Step(2, 0x17785ba81c8ac511_a579ed67b34c586a_098799305eda0603_773275cca20eb457,
      Step(2, 0x12ea2b3618cf962_77ddcd4ecf82b3a6_827c49685349b3bb_5a95d3af7f81a569,
      Step(3, 1, End)))))))), 0x10000 * e + 1067, 1);
  }

  lemma WitnessPByQ237()
    requires Prime(Q237)
    ensures Witness(P, Q237, PByQ237.b, 0x7acaff384090e983_b641a51e1df08070_78e467d06ab81645_55f0f7fd51653bdc)
  {
    hide Reaches, Prime, Witness;
    PByQ237Part0();
    PByQ237Part1(0xabaf8);
    PByQ237Part2(0xabaf8c6b09);
    PByQ237Part3(0xabaf8c6b094fd0f);
    PByQ237Part4(0xabaf_8c6b094fd0f32c2c);
    PByQ237Part5(0xabaf8c6b0_94fd0f32c2ccabab);
    PByQ237Part6(0xabaf8c6b094fd0_f32c2ccabab864db);
    PByQ237Part7(0xaba_f8c6b094fd0f32c2_ccabab864dbecd99);
    PByQ237Part8(0xabaf8c6b_094fd0f32c2ccaba_b864dbecd9914467);
    PByQ237Part9(0xabaf8c6b094fd_0f32c2ccabab864d_becd99144679c1ad);
    PByQ237Part10(0xab_af8c6b094fd0f32c_2ccabab864dbecd9_9144679c1adf8048);
    PByQ237Part11(0xabaf8c6_b094fd0f32c2ccab_ab864dbecd991446_79c1adf804898fb2);
    WitnessReached(P, Q237, PByQ237.b, 0x7acaff384090e983_b641a51e1df08070_78e467d06ab81645_55f0f7fd51653bdc);
  }

  /** The modulus is prime. */
  lemma PIsPrime()
    ensures Prime(P)
  {
    Q237IsPrime();
    hide Prime, Witness;
    WitnessPByQ237();
    PrimeByOne(P, Q237, PByQ237.b, 0x7acaff384090e983_b641a51e1df08070_78e467d06ab81645_55f0f7fd51653bdc);
  }
}
