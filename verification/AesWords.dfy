/** The AES steps of common/aes.ml on 128-bit words, with tables packed into words, and that
    they are the byte-wise steps of the cipher. */
module AesWords {
  import opened AesField
  import opened Aes256
  import opened Aes256Cipher

  type word = bv128

  // ---- words and bytes -------------------------------------------------------

  function Byte0(w: word): byte { ((w >> 0) & 0xff) as byte }
  function Byte1(w: word): byte { ((w >> 8) & 0xff) as byte }
  function Byte2(w: word): byte { ((w >> 16) & 0xff) as byte }
  function Byte3(w: word): byte { ((w >> 24) & 0xff) as byte }
  function Byte4(w: word): byte { ((w >> 32) & 0xff) as byte }
  function Byte5(w: word): byte { ((w >> 40) & 0xff) as byte }
  function Byte6(w: word): byte { ((w >> 48) & 0xff) as byte }
  function Byte7(w: word): byte { ((w >> 56) & 0xff) as byte }
  function Byte8(w: word): byte { ((w >> 64) & 0xff) as byte }
  function Byte9(w: word): byte { ((w >> 72) & 0xff) as byte }
  function Byte10(w: word): byte { ((w >> 80) & 0xff) as byte }
  function Byte11(w: word): byte { ((w >> 88) & 0xff) as byte }
  function Byte12(w: word): byte { ((w >> 96) & 0xff) as byte }
  function Byte13(w: word): byte { ((w >> 104) & 0xff) as byte }
  function Byte14(w: word): byte { ((w >> 112) & 0xff) as byte }
  function Byte15(w: word): byte { ((w >> 120) & 0xff) as byte }

  /** word_subword: the sixteen bytes of a word, least significant first. */
  function Bytes(w: word): Block {
    [Byte0(w), Byte1(w), Byte2(w), Byte3(w), Byte4(w), Byte5(w), Byte6(w), Byte7(w),
     Byte8(w), Byte9(w), Byte10(w), Byte11(w), Byte12(w), Byte13(w), Byte14(w), Byte15(w)]
  }

  /** word_join_list_16_8: the word with the listed bytes, most significant first. */
  function Join(b15: byte, b14: byte, b13: byte, b12: byte, b11: byte, b10: byte, b9: byte, b8: byte,
                b7: byte, b6: byte, b5: byte, b4: byte, b3: byte, b2: byte, b1: byte, b0: byte): word {
    ((b15 as word) << 120) | ((b14 as word) << 112) | ((b13 as word) << 104) | ((b12 as word) << 96) |
    ((b11 as word) << 88) | ((b10 as word) << 80) | ((b9 as word) << 72) | ((b8 as word) << 64) |
    ((b7 as word) << 56) | ((b6 as word) << 48) | ((b5 as word) << 40) | ((b4 as word) << 32) |
    ((b3 as word) << 24) | ((b2 as word) << 16) | ((b1 as word) << 8) | (b0 as word)
  }

  lemma JoinBytes(b15: byte, b14: byte, b13: byte, b12: byte, b11: byte, b10: byte, b9: byte, b8: byte,
                  b7: byte, b6: byte, b5: byte, b4: byte, b3: byte, b2: byte, b1: byte, b0: byte)
    ensures Bytes(Join(b15, b14, b13, b12, b11, b10, b9, b8, b7, b6, b5, b4, b3, b2, b1, b0))
         == [b0, b1, b2, b3, b4, b5, b6, b7, b8, b9, b10, b11, b12, b13, b14, b15]
  {
  }

  // ---- packed tables ---------------------------------------------------------

  /** The byte of a word that a nibble selects. */
  function Row(w: word, n: byte): byte {
    Pick(n, Byte0(w), Byte1(w), Byte2(w), Byte3(w), Byte4(w), Byte5(w), Byte6(w), Byte7(w),
         Byte8(w), Byte9(w), Byte10(w), Byte11(w), Byte12(w), Byte13(w), Byte14(w), Byte15(w))
  }

  /** Byte x of the 2048-bit word joined from sixteen words, the first one most significant. */
  function Lookup(w15: word, w14: word, w13: word, w12: word, w11: word, w10: word, w9: word, w8: word,
                  w7: word, w6: word, w5: word, w4: word, w3: word, w2: word, w1: word, w0: word, x: byte): byte {
    var n := x & 15;
    Pick(x >> 4, Row(w0, n), Row(w1, n), Row(w2, n), Row(w3, n), Row(w4, n), Row(w5, n), Row(w6, n), Row(w7, n),
         Row(w8, n), Row(w9, n), Row(w10, n), Row(w11, n), Row(w12, n), Row(w13, n), Row(w14, n), Row(w15, n))
  }

  function SubByte(x: byte): byte {
    Lookup(0x16bb54b00f2d99416842e6bf0d89a18c, 0xdf2855cee9871e9b948ed9691198f8e1,
           0x9e1dc186b95735610ef6034866b53e70, 0x8a8bbd4b1f74dde8c6b4a61c2e2578ba,
           0x08ae7a65eaf4566ca94ed58d6d37c8e7, 0x79e4959162acd3c25c2406490a3a32e0,
           0xdb0b5ede14b8ee4688902a22dc4f8160, 0x73195d643d7ea7c41744975fec130ccd,
           0xd2f3ff1021dab6bcf5389d928f40a351, 0xa89f3c507f02f94585334d43fbaaefd0,
           0xcf584c4a39becb6a5bb1fc20ed00d153, 0x842fe329b3d63b52a05a6e1b1a2c8309,
           0x75b227ebe28012079a059618c323c704, 0x1531d871f1e5a534ccf73f362693fdb7,
           0xc072a49cafa2d4adf04759fa7dc982ca, 0x76abd7fe2b670130c56f6bf27b777c63,
           x)
  }

  function InvSubByte(x: byte): byte {
    Lookup(0x7d0c2155631469e126d677ba7e042b17, 0x619953833cbbebc8b0f52aae4d3be0a0,
           0xef9cc9939f7ae52d0d4ab519a97f5160, 0x5fec8027591012b131c7078833a8dd1f,
           0xf45acd78fec0db9a2079d2c64b3e56fc, 0x1bbe18aa0e62b76f89c5291d711af147,
           0x6edf751ce837f9e28535ade72274ac96, 0x73e6b4f0cecff297eadc674f4111913a,
           0x6b8a130103bdafc1020f3fca8f1e2cd0, 0x0645b3b80558e4f70ad3bc8c00abd890,
           0x849d8da75746155edab9edfd5048706c, 0x92b6655dcc5ca4d41698688664f6f872,
           0x25d18b6d49a25b76b224d92866a12e08, 0x4ec3fa420b954cee3d23c2a632947b54,
           0xcbe9dec444438e3487ff2f9b8239e37c, 0xfbd7f3819ea340bf38a53630d56a0952,
           x)
  }

  function FFmul02(x: byte): byte {
    Lookup(0xE5E7E1E3EDEFE9EBF5F7F1F3FDFFF9FB, 0xC5C7C1C3CDCFC9CBD5D7D1D3DDDFD9DB,
           0xA5A7A1A3ADAFA9ABB5B7B1B3BDBFB9BB, 0x858781838D8F898B959791939D9F999B,
           0x656761636D6F696B757771737D7F797B, 0x454741434D4F494B555751535D5F595B,
           0x252721232D2F292B353731333D3F393B, 0x050701030D0F090B151711131D1F191B,
           0xFEFCFAF8F6F4F2F0EEECEAE8E6E4E2E0, 0xDEDCDAD8D6D4D2D0CECCCAC8C6C4C2C0,
           0xBEBCBAB8B6B4B2B0AEACAAA8A6A4A2A0, 0x9E9C9A98969492908E8C8A8886848280,
           0x7E7C7A78767472706E6C6A6866646260, 0x5E5C5A58565452504E4C4A4846444240,
           0x3E3C3A38363432302E2C2A2826242220, 0x1E1C1A18161412100E0C0A0806040200,
           x)
  }

  function FFmul03(x: byte): byte {
    Lookup(0x1A191C1F16151013020104070E0D080B, 0x2A292C2F26252023323134373E3D383B,
           0x7A797C7F76757073626164676E6D686B, 0x4A494C4F46454043525154575E5D585B,
           0xDAD9DCDFD6D5D0D3C2C1C4C7CECDC8CB, 0xEAE9ECEFE6E5E0E3F2F1F4F7FEFDF8FB,
           0xBAB9BCBFB6B5B0B3A2A1A4A7AEADA8AB, 0x8A898C8F86858083929194979E9D989B,
           0x818287848D8E8B88999A9F9C95969390, 0xB1B2B7B4BDBEBBB8A9AAAFACA5A6A3A0,
           0xE1E2E7E4EDEEEBE8F9FAFFFCF5F6F3F0, 0xD1D2D7D4DDDEDBD8C9CACFCCC5C6C3C0,
           0x414247444D4E4B48595A5F5C55565350, 0x717277747D7E7B78696A6F6C65666360,
           0x212227242D2E2B28393A3F3C35363330, 0x111217141D1E1B18090A0F0C05060300,
           x)
  }

  function FFmul09(x: byte): byte {
    Lookup(0x464F545D626B70790E071C152A233831, 0xD6DFC4CDF2FBE0E99E978C85BAB3A8A1,
           0x7D746F6659504B42353C272E1118030A, 0xEDE4FFF6C9C0DBD2A5ACB7BE8188939A,
           0x3039222B141D060F78716A635C554E47, 0xA0A9B2BB848D969FE8E1FAF3CCC5DED7,
           0x0B0219102F263D34434A5158676E757C, 0x9B928980BFB6ADA4D3DAC1C8F7FEE5EC,
           0xAAA3B8B18E879C95E2EBF0F9C6CFD4DD, 0x3A3328211E170C05727B6069565F444D,
           0x9198838AB5BCA7AED9D0CBC2FDF4EFE6, 0x0108131A252C373E49405B526D647F76,
           0xDCD5CEC7F8F1EAE3949D868FB0B9A2AB, 0x4C455E5768617A73040D161F2029323B,
           0xE7EEF5FCC3CAD1D8AFA6BDB48B829990, 0x777E656C535A41483F362D241B120900,
           x)
  }

  function FFmul0B(x: byte): byte {
    Lookup(0xA3A8B5BE8F849992FBF0EDE6D7DCC1CA, 0x1318050E3F3429224B405D56676C717A,
           0xD8D3CEC5F4FFE2E9808B969DACA7BAB1, 0x68637E75444F5259303B262D1C170A01,
           0x555E434879726F640D061B10212A373C, 0xE5EEF3F8C9C2DFD4BDB6ABA0919A878C,
           0x2E2538330209141F767D606B5A514C47, 0x9E958883B2B9A4AFC6CDD0DBEAE1FCF7,
           0x545F424978736E650C071A11202B363D, 0xE4EFF2F9C8C3DED5BCB7AAA1909B868D,
           0x2F2439320308151E777C616A5B504D46, 0x9F948982B3B8A5AEC7CCD1DAEBE0FDF6,
           0xA2A9B4BF8E859893FAF1ECE7D6DDC0CB, 0x1219040F3E3528234A415C57666D707B,
           0xD9D2CFC4F5FEE3E8818A979CADA6BBB0, 0x69627F74454E5358313A272C1D160B00,
           x)
  }

  function FFmul0D(x: byte): byte {
    Lookup(0x979A8D80A3AEB9B4FFF2E5E8CBC6D1DC, 0x474A5D50737E69642F2235381B16010C,
           0x2C21363B1815020F44495E53707D6A67, 0xFCF1E6EBC8C5D2DF94998E83A0ADBAB7,
           0xFAF7E0EDCEC3D4D9929F8885A6ABBCB1, 0x2A27303D1E130409424F5855767B6C61,
           0x414C5B5675786F622924333E1D10070A, 0x919C8B86A5A8BFB2F9F4E3EECDC0D7DA,
           0x4D40575A7974636E25283F32111C0B06, 0x9D90878AA9A4B3BEF5F8EFE2C1CCDBD6,
           0xF6FBECE1C2CFD8D59E938489AAA7B0BD, 0x262B3C31121F08054E4354597A77606D,
           0x202D3A3714190E034845525F7C71666B, 0xF0FDEAE7C4C9DED39895828FACA1B6BB,
           0x9B96818CAFA2B5B8F3FEE9E4C7CADDD0, 0x4B46515C7F726568232E3934171A0D00,
           x)
  }

  function FFmul0E(x: byte): byte {
    Lookup(0x8D83919FB5BBA9A7FDF3E1EFC5CBD9D7, 0x6D63717F555B49471D13010F252B3937,
           0x56584A446E60727C26283A341E10020C, 0xB6B8AAA48E80929CC6C8DAD4FEF0E2EC,
           0x202E3C321816040A505E4C426866747A, 0xC0CEDCD2F8F6E4EAB0BEACA28886949A,
           0xFBF5E7E9C3CDDFD18B859799B3BDAFA1, 0x1B150709232D3F316B657779535D4F41,
           0xCCC2D0DEF4FAE8E6BCB2A0AE848A9896, 0x2C22303E141A08065C52404E646A7876,
           0x17190B052F21333D67697B755F51434D, 0xF7F9EBE5CFC1D3DD87899B95BFB1A3AD,
           0x616F7D735957454B111F0D032927353B, 0x818F9D93B9B7A5ABF1FFEDE3C9C7D5DB,
           0xBAB4A6A8828C9E90CAC4D6D8F2FCEEE0, 0x5A544648626C7E702A243638121C0E00,
           x)
  }

  lemma SubByteTable(x: byte)
    ensures SubByte(x) == Sbox(x)
  {
  }

  lemma InvSubByteTable(x: byte)
    ensures InvSubByte(x) == InvSbox(x)
  {
  }

  lemma FFmul02Table(x: byte)
    ensures FFmul02(x) == Xtime(x)
  {
  }

  lemma FFmul03Table(x: byte)
    ensures FFmul03(x) == Triple(x)
  {
  }

  lemma FFmul09Table(x: byte)
    ensures FFmul09(x) == Times9(x)
  {
  }

  lemma FFmul0BTable(x: byte)
    ensures FFmul0B(x) == TimesB(x)
  {
  }

  lemma FFmul0DTable(x: byte)
    ensures FFmul0D(x) == TimesD(x)
  {
  }

  lemma FFmul0ETable(x: byte)
    ensures FFmul0E(x) == TimesE(x)
  {
  }

  // ---- the steps on words ----------------------------------------------------

  function AesSubBytes(w: word): word {
    Join(SubByte(Byte15(w)), SubByte(Byte14(w)), SubByte(Byte13(w)), SubByte(Byte12(w)),
         SubByte(Byte11(w)), SubByte(Byte10(w)), SubByte(Byte9(w)), SubByte(Byte8(w)),
         SubByte(Byte7(w)), SubByte(Byte6(w)), SubByte(Byte5(w)), SubByte(Byte4(w)),
         SubByte(Byte3(w)), SubByte(Byte2(w)), SubByte(Byte1(w)), SubByte(Byte0(w)))
  }

  function AesInvSubBytes(w: word): word {
    Join(InvSubByte(Byte15(w)), InvSubByte(Byte14(w)), InvSubByte(Byte13(w)), InvSubByte(Byte12(w)),
         InvSubByte(Byte11(w)), InvSubByte(Byte10(w)), InvSubByte(Byte9(w)), InvSubByte(Byte8(w)),
         InvSubByte(Byte7(w)), InvSubByte(Byte6(w)), InvSubByte(Byte5(w)), InvSubByte(Byte4(w)),
         InvSubByte(Byte3(w)), InvSubByte(Byte2(w)), InvSubByte(Byte1(w)), InvSubByte(Byte0(w)))
  }

  function AesShiftRows(w: word): word {
    Join(Byte11(w), Byte6(w), Byte1(w), Byte12(w),
         Byte7(w), Byte2(w), Byte13(w), Byte8(w),
         Byte3(w), Byte14(w), Byte9(w), Byte4(w),
         Byte15(w), Byte10(w), Byte5(w), Byte0(w))
  }

  function AesInvShiftRows(w: word): word {
    Join(Byte3(w), Byte6(w), Byte9(w), Byte12(w),
         Byte15(w), Byte2(w), Byte5(w), Byte8(w),
         Byte11(w), Byte14(w), Byte1(w), Byte4(w),
         Byte7(w), Byte10(w), Byte13(w), Byte0(w))
  }

  function MixWord(a: byte, b: byte, c: byte, d: byte): byte {
    FFmul02(a) ^ (FFmul03(b) ^ (c ^ d))
  }

  function InvMixWord(a: byte, b: byte, c: byte, d: byte): byte {
    FFmul0E(a) ^ (FFmul0B(b) ^ (FFmul0D(c) ^ FFmul09(d)))
  }

  function AesMixColumns(w: word): word {
    Join(MixWord(Byte15(w), Byte12(w), Byte13(w), Byte14(w)), MixWord(Byte14(w), Byte15(w), Byte12(w), Byte13(w)),
         MixWord(Byte13(w), Byte14(w), Byte15(w), Byte12(w)), MixWord(Byte12(w), Byte13(w), Byte14(w), Byte15(w)),
         MixWord(Byte11(w), Byte8(w), Byte9(w), Byte10(w)), MixWord(Byte10(w), Byte11(w), Byte8(w), Byte9(w)),
         MixWord(Byte9(w), Byte10(w), Byte11(w), Byte8(w)), MixWord(Byte8(w), Byte9(w), Byte10(w), Byte11(w)),
         MixWord(Byte7(w), Byte4(w), Byte5(w), Byte6(w)), MixWord(Byte6(w), Byte7(w), Byte4(w), Byte5(w)),
         MixWord(Byte5(w), Byte6(w), Byte7(w), Byte4(w)), MixWord(Byte4(w), Byte5(w), Byte6(w), Byte7(w)),
         MixWord(Byte3(w), Byte0(w), Byte1(w), Byte2(w)), MixWord(Byte2(w), Byte3(w), Byte0(w), Byte1(w)),
         MixWord(Byte1(w), Byte2(w), Byte3(w), Byte0(w)), MixWord(Byte0(w), Byte1(w), Byte2(w), Byte3(w)))
  }

  function AesInvMixColumns(w: word): word {
    Join(InvMixWord(Byte15(w), Byte12(w), Byte13(w), Byte14(w)), InvMixWord(Byte14(w), Byte15(w), Byte12(w), Byte13(w)),
         InvMixWord(Byte13(w), Byte14(w), Byte15(w), Byte12(w)), InvMixWord(Byte12(w), Byte13(w), Byte14(w), Byte15(w)),
         InvMixWord(Byte11(w), Byte8(w), Byte9(w), Byte10(w)), InvMixWord(Byte10(w), Byte11(w), Byte8(w), Byte9(w)),
         InvMixWord(Byte9(w), Byte10(w), Byte11(w), Byte8(w)), InvMixWord(Byte8(w), Byte9(w), Byte10(w), Byte11(w)),
         InvMixWord(Byte7(w), Byte4(w), Byte5(w), Byte6(w)), InvMixWord(Byte6(w), Byte7(w), Byte4(w), Byte5(w)),
         InvMixWord(Byte5(w), Byte6(w), Byte7(w), Byte4(w)), InvMixWord(Byte4(w), Byte5(w), Byte6(w), Byte7(w)),
         InvMixWord(Byte3(w), Byte0(w), Byte1(w), Byte2(w)), InvMixWord(Byte2(w), Byte3(w), Byte0(w), Byte1(w)),
         InvMixWord(Byte1(w), Byte2(w), Byte3(w), Byte0(w)), InvMixWord(Byte0(w), Byte1(w), Byte2(w), Byte3(w)))
  }

  // ---- refinement ------------------------------------------------------------

  lemma LowBytesAt(w: word)
    ensures Bytes(w)[0] == Byte0(w) && Bytes(w)[1] == Byte1(w) && Bytes(w)[2] == Byte2(w) && Bytes(w)[3] == Byte3(w)
    ensures Bytes(w)[4] == Byte4(w) && Bytes(w)[5] == Byte5(w) && Bytes(w)[6] == Byte6(w) && Bytes(w)[7] == Byte7(w)
  {
    hide Byte0, Byte1, Byte2, Byte3, Byte4, Byte5, Byte6, Byte7;
    hide Byte8, Byte9, Byte10, Byte11, Byte12, Byte13, Byte14, Byte15;
  }

  lemma HighBytesAt(w: word)
    ensures Bytes(w)[8] == Byte8(w) && Bytes(w)[9] == Byte9(w) && Bytes(w)[10] == Byte10(w) && Bytes(w)[11] == Byte11(w)
    ensures Bytes(w)[12] == Byte12(w) && Bytes(w)[13] == Byte13(w)
    ensures Bytes(w)[14] == Byte14(w) && Bytes(w)[15] == Byte15(w)
  {
    hide Byte0, Byte1, Byte2, Byte3, Byte4, Byte5, Byte6, Byte7;
    hide Byte8, Byte9, Byte10, Byte11, Byte12, Byte13, Byte14, Byte15;
  }

  lemma BytesAt(w: word)
    ensures Bytes(w)[0] == Byte0(w) && Bytes(w)[1] == Byte1(w) && Bytes(w)[2] == Byte2(w) && Bytes(w)[3] == Byte3(w)
    ensures Bytes(w)[4] == Byte4(w) && Bytes(w)[5] == Byte5(w) && Bytes(w)[6] == Byte6(w) && Bytes(w)[7] == Byte7(w)
    ensures Bytes(w)[8] == Byte8(w) && Bytes(w)[9] == Byte9(w) && Bytes(w)[10] == Byte10(w) && Bytes(w)[11] == Byte11(w)
    ensures Bytes(w)[12] == Byte12(w) && Bytes(w)[13] == Byte13(w)
    ensures Bytes(w)[14] == Byte14(w) && Bytes(w)[15] == Byte15(w)
  {
    hide *;
    LowBytesAt(w);
    HighBytesAt(w);
  }

  lemma SubBytesList(w: word)
    ensures Bytes(AesSubBytes(w)) == [SubByte(Byte0(w)), SubByte(Byte1(w)), SubByte(Byte2(w)), SubByte(Byte3(w)),
         SubByte(Byte4(w)), SubByte(Byte5(w)), SubByte(Byte6(w)), SubByte(Byte7(w)),
         SubByte(Byte8(w)), SubByte(Byte9(w)), SubByte(Byte10(w)), SubByte(Byte11(w)),
         SubByte(Byte12(w)), SubByte(Byte13(w)), SubByte(Byte14(w)), SubByte(Byte15(w))]
  {
    hide Byte0, Byte1, Byte2, Byte3, Byte4, Byte5, Byte6, Byte7;
    hide Byte8, Byte9, Byte10, Byte11, Byte12, Byte13, Byte14, Byte15;
    hide SubByte;
    JoinBytes(SubByte(Byte15(w)), SubByte(Byte14(w)), SubByte(Byte13(w)), SubByte(Byte12(w)),
              SubByte(Byte11(w)), SubByte(Byte10(w)), SubByte(Byte9(w)), SubByte(Byte8(w)),
              SubByte(Byte7(w)), SubByte(Byte6(w)), SubByte(Byte5(w)), SubByte(Byte4(w)),
              SubByte(Byte3(w)), SubByte(Byte2(w)), SubByte(Byte1(w)), SubByte(Byte0(w)));
  }

  lemma SubBytesSpec(s: Block)
    ensures SubBytes(s) == [Sbox(s[0]), Sbox(s[1]), Sbox(s[2]), Sbox(s[3]),
         Sbox(s[4]), Sbox(s[5]), Sbox(s[6]), Sbox(s[7]),
         Sbox(s[8]), Sbox(s[9]), Sbox(s[10]), Sbox(s[11]),
         Sbox(s[12]), Sbox(s[13]), Sbox(s[14]), Sbox(s[15])]
  {
    hide Sbox;
  }

  /** Substituting in a word is substituting its bytes. */
  lemma SubBytesRefines(w: word)
    ensures Bytes(AesSubBytes(w)) == SubBytes(Bytes(w))
  {
    hide *;
    SubBytesList(w);
    SubBytesSpec(Bytes(w));
    BytesAt(w);
    SubByteTable(Byte0(w));
    SubByteTable(Byte1(w));
    SubByteTable(Byte2(w));
    SubByteTable(Byte3(w));
    SubByteTable(Byte4(w));
    SubByteTable(Byte5(w));
    SubByteTable(Byte6(w));
    SubByteTable(Byte7(w));
    SubByteTable(Byte8(w));
    SubByteTable(Byte9(w));
    SubByteTable(Byte10(w));
    SubByteTable(Byte11(w));
    SubByteTable(Byte12(w));
    SubByteTable(Byte13(w));
    SubByteTable(Byte14(w));
    SubByteTable(Byte15(w));
  }

  lemma InvSubBytesList(w: word)
    ensures Bytes(AesInvSubBytes(w)) == [InvSubByte(Byte0(w)), InvSubByte(Byte1(w)), InvSubByte(Byte2(w)),
         InvSubByte(Byte3(w)),
         InvSubByte(Byte4(w)), InvSubByte(Byte5(w)), InvSubByte(Byte6(w)), InvSubByte(Byte7(w)),
         InvSubByte(Byte8(w)), InvSubByte(Byte9(w)), InvSubByte(Byte10(w)), InvSubByte(Byte11(w)),
         InvSubByte(Byte12(w)), InvSubByte(Byte13(w)), InvSubByte(Byte14(w)), InvSubByte(Byte15(w))]
  {
    hide Byte0, Byte1, Byte2, Byte3, Byte4, Byte5, Byte6, Byte7;
    hide Byte8, Byte9, Byte10, Byte11, Byte12, Byte13, Byte14, Byte15;
    hide InvSubByte;
    JoinBytes(InvSubByte(Byte15(w)), InvSubByte(Byte14(w)), InvSubByte(Byte13(w)), InvSubByte(Byte12(w)),
              InvSubByte(Byte11(w)), InvSubByte(Byte10(w)), InvSubByte(Byte9(w)), InvSubByte(Byte8(w)),
              InvSubByte(Byte7(w)), InvSubByte(Byte6(w)), InvSubByte(Byte5(w)), InvSubByte(Byte4(w)),
              InvSubByte(Byte3(w)), InvSubByte(Byte2(w)), InvSubByte(Byte1(w)), InvSubByte(Byte0(w)));
  }

  lemma InvSubBytesSpec(s: Block)
    ensures InvSubBytes(s) == [InvSbox(s[0]), InvSbox(s[1]), InvSbox(s[2]), InvSbox(s[3]),
         InvSbox(s[4]), InvSbox(s[5]), InvSbox(s[6]), InvSbox(s[7]),
         InvSbox(s[8]), InvSbox(s[9]), InvSbox(s[10]), InvSbox(s[11]),
         InvSbox(s[12]), InvSbox(s[13]), InvSbox(s[14]), InvSbox(s[15])]
  {
    hide InvSbox;
  }

  lemma InvSubBytesRefines(w: word)
    ensures Bytes(AesInvSubBytes(w)) == InvSubBytes(Bytes(w))
  {
    hide *;
    InvSubBytesList(w);
    InvSubBytesSpec(Bytes(w));
    BytesAt(w);
    InvSubByteTable(Byte0(w));
    InvSubByteTable(Byte1(w));
    InvSubByteTable(Byte2(w));
    InvSubByteTable(Byte3(w));
    InvSubByteTable(Byte4(w));
    InvSubByteTable(Byte5(w));
    InvSubByteTable(Byte6(w));
    InvSubByteTable(Byte7(w));
    InvSubByteTable(Byte8(w));
    InvSubByteTable(Byte9(w));
    InvSubByteTable(Byte10(w));
    InvSubByteTable(Byte11(w));
    InvSubByteTable(Byte12(w));
    InvSubByteTable(Byte13(w));
    InvSubByteTable(Byte14(w));
    InvSubByteTable(Byte15(w));
  }

  lemma ShiftRowsRefines(w: word)
    ensures Bytes(AesShiftRows(w)) == ShiftRows(Bytes(w))
    ensures Bytes(AesInvShiftRows(w)) == InvShiftRows(Bytes(w))
  {
    hide Byte0, Byte1, Byte2, Byte3, Byte4, Byte5, Byte6, Byte7;
    hide Byte8, Byte9, Byte10, Byte11, Byte12, Byte13, Byte14, Byte15;
    JoinBytes(Byte11(w), Byte6(w), Byte1(w), Byte12(w),
              Byte7(w), Byte2(w), Byte13(w), Byte8(w),
              Byte3(w), Byte14(w), Byte9(w), Byte4(w),
              Byte15(w), Byte10(w), Byte5(w), Byte0(w));
    JoinBytes(Byte3(w), Byte6(w), Byte9(w), Byte12(w),
              Byte15(w), Byte2(w), Byte5(w), Byte8(w),
              Byte11(w), Byte14(w), Byte1(w), Byte4(w),
              Byte7(w), Byte10(w), Byte13(w), Byte0(w));
    hide Join;
  }

  lemma MixWordRefines(a: byte, b: byte, c: byte, d: byte)
    ensures MixWord(a, b, c, d) == Mix0(a, b, c, d)
  {
    hide FFmul02, FFmul03, Xtime;
    FFmul02Table(a);
    FFmul03Table(b);
  }

  lemma InvMixWordRefines(a: byte, b: byte, c: byte, d: byte)
    ensures InvMixWord(a, b, c, d) == InvMix0(a, b, c, d)
  {
    hide FFmul0E, FFmul0B, FFmul0D, FFmul09, TimesE, TimesB, TimesD, Times9;
    InvMix0Times(a, b, c, d);
    hide InvMix0;
    FFmul0ETable(a);
    FFmul0BTable(b);
    FFmul0DTable(c);
    FFmul09Table(d);
  }

  /** The four entries of a mixed column, as the word version orders their arguments. */
  lemma MixColumnRefines(a: byte, b: byte, c: byte, d: byte)
    ensures MixWord(a, b, c, d) == Mix0(a, b, c, d) && MixWord(b, c, d, a) == Mix1(a, b, c, d)
    ensures MixWord(c, d, a, b) == Mix2(a, b, c, d) && MixWord(d, a, b, c) == Mix3(a, b, c, d)
  {
    MixRotates(a, b, c, d);
    hide MixWord, Mix0, Mix1, Mix2, Mix3;
    MixWordRefines(a, b, c, d);
    MixWordRefines(b, c, d, a);
    MixWordRefines(c, d, a, b);
    MixWordRefines(d, a, b, c);
  }

  lemma InvMixColumnRefines(a: byte, b: byte, c: byte, d: byte)
    ensures InvMixWord(a, b, c, d) == InvMix0(a, b, c, d) && InvMixWord(b, c, d, a) == InvMix1(a, b, c, d)
    ensures InvMixWord(c, d, a, b) == InvMix2(a, b, c, d) && InvMixWord(d, a, b, c) == InvMix3(a, b, c, d)
  {
    InvMixRotates(a, b, c, d);
    hide InvMixWord, InvMix0, InvMix1, InvMix2, InvMix3;
    InvMixWordRefines(a, b, c, d);
    InvMixWordRefines(b, c, d, a);
    InvMixWordRefines(c, d, a, b);
    InvMixWordRefines(d, a, b, c);
  }

  lemma MixColumnsList(w: word)
    ensures Bytes(AesMixColumns(w)) == [MixWord(Byte0(w), Byte1(w), Byte2(w), Byte3(w)),
         MixWord(Byte1(w), Byte2(w), Byte3(w), Byte0(w)),
         MixWord(Byte2(w), Byte3(w), Byte0(w), Byte1(w)), MixWord(Byte3(w), Byte0(w), Byte1(w), Byte2(w)),
         MixWord(Byte4(w), Byte5(w), Byte6(w), Byte7(w)), MixWord(Byte5(w), Byte6(w), Byte7(w), Byte4(w)),
         MixWord(Byte6(w), Byte7(w), Byte4(w), Byte5(w)), MixWord(Byte7(w), Byte4(w), Byte5(w), Byte6(w)),
         MixWord(Byte8(w), Byte9(w), Byte10(w), Byte11(w)), MixWord(Byte9(w), Byte10(w), Byte11(w), Byte8(w)),
         MixWord(Byte10(w), Byte11(w), Byte8(w), Byte9(w)), MixWord(Byte11(w), Byte8(w), Byte9(w), Byte10(w)),
         MixWord(Byte12(w), Byte13(w), Byte14(w), Byte15(w)), MixWord(Byte13(w), Byte14(w), Byte15(w), Byte12(w)),
         MixWord(Byte14(w), Byte15(w), Byte12(w), Byte13(w)), MixWord(Byte15(w), Byte12(w), Byte13(w), Byte14(w))]
  {
    hide Byte0, Byte1, Byte2, Byte3, Byte4, Byte5, Byte6, Byte7;
    hide Byte8, Byte9, Byte10, Byte11, Byte12, Byte13, Byte14, Byte15;
    hide MixWord;
    JoinBytes(MixWord(Byte15(w), Byte12(w), Byte13(w), Byte14(w)), MixWord(Byte14(w), Byte15(w), Byte12(w), Byte13(w)),
              MixWord(Byte13(w), Byte14(w), Byte15(w), Byte12(w)), MixWord(Byte12(w), Byte13(w), Byte14(w), Byte15(w)),
              MixWord(Byte11(w), Byte8(w), Byte9(w), Byte10(w)), MixWord(Byte10(w), Byte11(w), Byte8(w), Byte9(w)),
              MixWord(Byte9(w), Byte10(w), Byte11(w), Byte8(w)), MixWord(Byte8(w), Byte9(w), Byte10(w), Byte11(w)),
              MixWord(Byte7(w), Byte4(w), Byte5(w), Byte6(w)), MixWord(Byte6(w), Byte7(w), Byte4(w), Byte5(w)),
              MixWord(Byte5(w), Byte6(w), Byte7(w), Byte4(w)), MixWord(Byte4(w), Byte5(w), Byte6(w), Byte7(w)),
              MixWord(Byte3(w), Byte0(w), Byte1(w), Byte2(w)), MixWord(Byte2(w), Byte3(w), Byte0(w), Byte1(w)),
              MixWord(Byte1(w), Byte2(w), Byte3(w), Byte0(w)), MixWord(Byte0(w), Byte1(w), Byte2(w), Byte3(w)));
  }

  lemma MixColumnsRefines(w: word)
    ensures Bytes(AesMixColumns(w)) == MixColumns(Bytes(w))
  {
    hide MixWord, Mix0, Mix1, Mix2, Mix3, AesMixColumns, MixColumns, Bytes;
    hide Byte0, Byte1, Byte2, Byte3, Byte4, Byte5, Byte6, Byte7;
    hide Byte8, Byte9, Byte10, Byte11, Byte12, Byte13, Byte14, Byte15;
    MixColumnsList(w);
    BytesAt(w);
    var s := Bytes(w);
    MixedColumn(s, 0);
    MixedColumn(s, 1);
    MixedColumn(s, 2);
    MixedColumn(s, 3);
    MixColumnRefines(s[0], s[1], s[2], s[3]);
    MixColumnRefines(s[4], s[5], s[6], s[7]);
    MixColumnRefines(s[8], s[9], s[10], s[11]);
    MixColumnRefines(s[12], s[13], s[14], s[15]);
  }

  lemma InvMixColumnsList(w: word)
    ensures Bytes(AesInvMixColumns(w)) == [InvMixWord(Byte0(w), Byte1(w), Byte2(w), Byte3(w)),
         InvMixWord(Byte1(w), Byte2(w), Byte3(w), Byte0(w)),
         InvMixWord(Byte2(w), Byte3(w), Byte0(w), Byte1(w)), InvMixWord(Byte3(w), Byte0(w), Byte1(w), Byte2(w)),
         InvMixWord(Byte4(w), Byte5(w), Byte6(w), Byte7(w)), InvMixWord(Byte5(w), Byte6(w), Byte7(w), Byte4(w)),
         InvMixWord(Byte6(w), Byte7(w), Byte4(w), Byte5(w)), InvMixWord(Byte7(w), Byte4(w), Byte5(w), Byte6(w)),
         InvMixWord(Byte8(w), Byte9(w), Byte10(w), Byte11(w)), InvMixWord(Byte9(w), Byte10(w), Byte11(w), Byte8(w)),
         InvMixWord(Byte10(w), Byte11(w), Byte8(w), Byte9(w)), InvMixWord(Byte11(w), Byte8(w), Byte9(w), Byte10(w)),
         InvMixWord(Byte12(w), Byte13(w), Byte14(w), Byte15(w)), InvMixWord(Byte13(w), Byte14(w), Byte15(w), Byte12(w)),
         InvMixWord(Byte14(w), Byte15(w), Byte12(w), Byte13(w)), InvMixWord(Byte15(w), Byte12(w), Byte13(w), Byte14(w))]
  {
    hide Byte0, Byte1, Byte2, Byte3, Byte4, Byte5, Byte6, Byte7;
    hide Byte8, Byte9, Byte10, Byte11, Byte12, Byte13, Byte14, Byte15;
    hide InvMixWord;
    JoinBytes(InvMixWord(Byte15(w), Byte12(w), Byte13(w), Byte14(w)),
    InvMixWord(Byte14(w), Byte15(w), Byte12(w), Byte13(w)),
              InvMixWord(Byte13(w), Byte14(w), Byte15(w), Byte12(w)),
              InvMixWord(Byte12(w), Byte13(w), Byte14(w), Byte15(w)),
              InvMixWord(Byte11(w), Byte8(w), Byte9(w), Byte10(w)),
              InvMixWord(Byte10(w), Byte11(w), Byte8(w), Byte9(w)),
              InvMixWord(Byte9(w), Byte10(w), Byte11(w), Byte8(w)),
              InvMixWord(Byte8(w), Byte9(w), Byte10(w), Byte11(w)),
              InvMixWord(Byte7(w), Byte4(w), Byte5(w), Byte6(w)), InvMixWord(Byte6(w), Byte7(w), Byte4(w), Byte5(w)),
              InvMixWord(Byte5(w), Byte6(w), Byte7(w), Byte4(w)), InvMixWord(Byte4(w), Byte5(w), Byte6(w), Byte7(w)),
              InvMixWord(Byte3(w), Byte0(w), Byte1(w), Byte2(w)), InvMixWord(Byte2(w), Byte3(w), Byte0(w), Byte1(w)),
              InvMixWord(Byte1(w), Byte2(w), Byte3(w), Byte0(w)), InvMixWord(Byte0(w), Byte1(w), Byte2(w), Byte3(w)));
  }

  lemma InvMixColumnsRefines(w: word)
    ensures Bytes(AesInvMixColumns(w)) == InvMixColumns(Bytes(w))
  {
    hide InvMixWord, InvMix0, InvMix1, InvMix2, InvMix3, AesInvMixColumns, InvMixColumns, Bytes;
    hide Byte0, Byte1, Byte2, Byte3, Byte4, Byte5, Byte6, Byte7;
    hide Byte8, Byte9, Byte10, Byte11, Byte12, Byte13, Byte14, Byte15;
    InvMixColumnsList(w);
    BytesAt(w);
    var s := Bytes(w);
    UnmixedColumn(s, 0);
    UnmixedColumn(s, 1);
    UnmixedColumn(s, 2);
    UnmixedColumn(s, 3);
    InvMixColumnRefines(s[0], s[1], s[2], s[3]);
    InvMixColumnRefines(s[4], s[5], s[6], s[7]);
    InvMixColumnRefines(s[8], s[9], s[10], s[11]);
    InvMixColumnRefines(s[12], s[13], s[14], s[15]);
  }

  /** Every multiplication table holds the products that the shift-and-add loop computes. */
  lemma TablesAreProducts(x: byte)
    ensures FFmul02(x) == GfMul(0x02, x) && FFmul03(x) == GfMul(0x03, x)
    ensures FFmul09(x) == GfMul(0x09, x) && FFmul0B(x) == GfMul(0x0b, x)
    ensures FFmul0D(x) == GfMul(0x0d, x) && FFmul0E(x) == GfMul(0x0e, x)
  {
    hide FFmul02, FFmul03, FFmul09, FFmul0B, FFmul0D, FFmul0E, GfMul, Times9, TimesB, TimesD, TimesE, Xtime;
    FFmul02Table(x);
    Product2(x);
    FFmul03Table(x);
    Product3(x);
    FFmul09Table(x);
    Product9(x);
    FFmul0BTable(x);
    ProductB(x);
    FFmul0DTable(x);
    ProductD(x);
    FFmul0ETable(x);
    ProductE(x);
  }

  lemma SameWord(v: word, w: word)
    requires Byte0(v) == Byte0(w) && Byte1(v) == Byte1(w) && Byte2(v) == Byte2(w) && Byte3(v) == Byte3(w)
    requires Byte4(v) == Byte4(w) && Byte5(v) == Byte5(w) && Byte6(v) == Byte6(w) && Byte7(v) == Byte7(w)
    requires Byte8(v) == Byte8(w) && Byte9(v) == Byte9(w) && Byte10(v) == Byte10(w) && Byte11(v) == Byte11(w)
    requires Byte12(v) == Byte12(w) && Byte13(v) == Byte13(w) && Byte14(v) == Byte14(w) && Byte15(v) == Byte15(w)
    ensures v == w
  {
  }

  /** A word is determined by its bytes. */
  lemma BytesInjective(v: word, w: word)
    requires Bytes(v) == Bytes(w)
    ensures v == w
  {
    BytesAt(v);
    BytesAt(w);
    hide Bytes;
    SameWord(v, w);
  }

  /** The steps on words undo each other in both orders. */
  lemma WordStepsInverse(w: word)
    ensures AesInvSubBytes(AesSubBytes(w)) == w && AesSubBytes(AesInvSubBytes(w)) == w
    ensures AesInvShiftRows(AesShiftRows(w)) == w && AesShiftRows(AesInvShiftRows(w)) == w
    ensures AesInvMixColumns(AesMixColumns(w)) == w && AesMixColumns(AesInvMixColumns(w)) == w
  {
    hide *;
    var s := Bytes(w);
    SubBytesInverse(s);
    ShiftRowsInverse(s);
    MixColumnsInverse(s);
    SubBytesRefines(w);
    SubBytesRefines(AesInvSubBytes(w));
    InvSubBytesRefines(w);
    InvSubBytesRefines(AesSubBytes(w));
    ShiftRowsRefines(w);
    ShiftRowsRefines(AesInvShiftRows(w));
    ShiftRowsRefines(AesShiftRows(w));
    MixColumnsRefines(w);
    MixColumnsRefines(AesInvMixColumns(w));
    InvMixColumnsRefines(w);
    InvMixColumnsRefines(AesMixColumns(w));
    BytesInjective(AesInvSubBytes(AesSubBytes(w)), w);
    BytesInjective(AesSubBytes(AesInvSubBytes(w)), w);
    BytesInjective(AesInvShiftRows(AesShiftRows(w)), w);
    BytesInjective(AesShiftRows(AesInvShiftRows(w)), w);
    BytesInjective(AesInvMixColumns(AesMixColumns(w)), w);
    BytesInjective(AesMixColumns(AesInvMixColumns(w)), w);
  }

  // ---- key expansion ---------------------------------------------------------

  type quad = bv32

  /** The four bytes of a 32-bit word, lowest first. */
  function QuadBytes(q: quad): Word {
    [(q & 0xff) as byte, ((q >> 8) & 0xff) as byte, ((q >> 16) & 0xff) as byte, ((q >> 24) & 0xff) as byte]
  }

  function JoinQuad(b3: byte, b2: byte, b1: byte, b0: byte): quad {
    ((b3 as quad) << 24) | ((b2 as quad) << 16) | ((b1 as quad) << 8) | (b0 as quad)
  }

  lemma JoinQuadBytes(b3: byte, b2: byte, b1: byte, b0: byte)
    ensures QuadBytes(JoinQuad(b3, b2, b1, b0)) == [b0, b1, b2, b3]
  {
  }

  function AesRotWord(q: quad): quad {
    var t := QuadBytes(q);
    JoinQuad(t[0], t[3], t[2], t[1])
  }

  function AesSubWord(q: quad): quad {
    var t := QuadBytes(q);
    JoinQuad(SubByte(t[3]), SubByte(t[2]), SubByte(t[1]), SubByte(t[0]))
  }

  /** The word operations of the key expansion, on a 32-bit word. */
  lemma KeyWordStepsRefine(q: quad)
    ensures QuadBytes(AesRotWord(q)) == RotWord(QuadBytes(q))
    ensures QuadBytes(AesSubWord(q)) == SubWord(QuadBytes(q))
  {
    hide QuadBytes, JoinQuad, SubByte, Sbox;
    var t := QuadBytes(q);
    JoinQuadBytes(t[0], t[3], t[2], t[1]);
    JoinQuadBytes(SubByte(t[3]), SubByte(t[2]), SubByte(t[1]), SubByte(t[0]));
    SubByteTable(t[0]);
    SubByteTable(t[1]);
    SubByteTable(t[2]);
    SubByteTable(t[3]);
  }
}
