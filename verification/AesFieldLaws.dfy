/** GF(2^8) is a field, and the substitution table is the affine map of its inverses, as section
    5.1.1 of FIPS 197 defines it. */
module AesFieldLaws {
  import opened AesField

  /* Multiplication commutes */

  lemma {:induction false} RaiseAdditive(a: byte, c: byte, i: nat)
    ensures Raise(Plus(a, c), i) == Plus(Raise(a, i), Raise(c, i))
  {
    if i == 0 {
    } else {
      hide Xtime, Plus;
      RaiseAdditive(a, c, i - 1);
      XtimeAdditive(Raise(a, i - 1), Raise(c, i - 1));
    }
  }

  lemma PlusZero(a: byte)
    ensures Plus(a, 0) == a == Plus(0, a)
  {
  }

  lemma {:induction false} PartialFirst(a: byte, c: byte, b: byte, i: nat)
    ensures PartialProduct(Plus(a, c), b, i) == Plus(PartialProduct(a, b, i), PartialProduct(c, b, i))
  {
    if i == 0 {
    } else {
      hide Plus, Drop, Raise;
      PartialFirst(a, c, b, i - 1);
      RaiseAdditive(a, c, i - 1);
      PlusZero(0);
      Exchange(PartialProduct(a, b, i - 1), PartialProduct(c, b, i - 1), Term(a, b, i - 1), Term(c, b, i - 1));
    }
  }

  /** Multiplication distributes over a sum on its left as well. */
  lemma FirstAdditive(a: byte, c: byte, b: byte)
    ensures GfMul(Plus(a, c), b) == Plus(GfMul(a, b), GfMul(c, b))
  {
    hide Plus, PartialProduct;
    PartialFirst(a, c, b, 8);
  }

  lemma Commute01(a: byte, b: byte)
    requires a & 0xfc == 0
    ensures GfMul(a, b) == GfMul(b, a)
  {
    GfMulBits(a, b);
    GfMulBits(b, a);
    hide GfMul;
  }

  lemma Commute23(a: byte, b: byte)
    requires a & 0xf3 == 0
    ensures GfMul(a, b) == GfMul(b, a)
  {
    GfMulBits(a, b);
    GfMulBits(b, a);
    hide GfMul;
  }

  lemma Commute45(a: byte, b: byte)
    requires a & 0xcf == 0
    ensures GfMul(a, b) == GfMul(b, a)
  {
    GfMulBits(a, b);
    GfMulBits(b, a);
    hide GfMul;
  }

  lemma Commute67(a: byte, b: byte)
    requires a & 0x3f == 0
    ensures GfMul(a, b) == GfMul(b, a)
  {
    GfMulBits(a, b);
    GfMulBits(b, a);
    hide GfMul;
  }

  lemma PairsOfBits(a: byte)
    ensures a == Plus(Plus(a & 0x03, a & 0x0c), Plus(a & 0x30, a & 0xc0))
    ensures (a & 0x03) & 0xfc == 0 && (a & 0x0c) & 0xf3 == 0 && (a & 0x30) & 0xcf == 0 && (a & 0xc0) & 0x3f == 0
  {
  }

  lemma PairCommutes(a: byte, c: byte, b: byte)
    requires GfMul(a, b) == GfMul(b, a) && GfMul(c, b) == GfMul(b, c)
    ensures GfMul(Plus(a, c), b) == GfMul(b, Plus(a, c))
  {
    hide GfMul, Plus;
    FirstAdditive(a, c, b);
    GfMulAdditive(b, a, c);
  }

  lemma GfMulCommutes(a: byte, b: byte)
    ensures GfMul(a, b) == GfMul(b, a)
  {
    PairsOfBits(a);
    var a0, a1, a2, a3 := a & 0x03, a & 0x0c, a & 0x30, a & 0xc0;
    hide GfMul, Plus;
    Commute01(a0, b);
    Commute23(a1, b);
    Commute45(a2, b);
    Commute67(a3, b);
    PairCommutes(a0, a1, b);
    PairCommutes(a2, a3, b);
    PairCommutes(Plus(a0, a1), Plus(a2, a3), b);
  }

  /* Multiplication associates */

  lemma {:induction false} RaiseXtime(a: byte, i: nat)
    ensures Raise(Xtime(a), i) == Xtime(Raise(a, i))
  {
    if i == 0 {
    } else {
      hide Xtime;
      RaiseXtime(a, i - 1);
    }
  }

  lemma XtimeZero()
    ensures Xtime(0) == 0
  {
  }

  lemma {:induction false} XtimePartial(a: byte, b: byte, i: nat)
    ensures PartialProduct(Xtime(a), b, i) == Xtime(PartialProduct(a, b, i))
  {
    if i == 0 {
      XtimeZero();
    } else {
      hide Xtime, Plus, Drop, Raise;
      XtimeZero();
      XtimePartial(a, b, i - 1);
      RaiseXtime(a, i - 1);
      XtimeAdditive(PartialProduct(a, b, i - 1), Term(a, b, i - 1));
    }
  }

  lemma {:induction false} RaiseProduct(a: byte, b: byte, i: nat)
    ensures GfMul(Raise(a, i), b) == Raise(GfMul(a, b), i)
  {
    if i == 0 {
    } else {
      hide Xtime, PartialProduct;
      RaiseProduct(a, b, i - 1);
      XtimePartial(Raise(a, i - 1), b, 8);
    }
  }

  lemma TimesZero(a: byte)
    ensures GfMul(a, 0) == 0
  {
    GfMulBits(a, 0);
    hide GfMul;
  }

  lemma {:induction false} PartialAssociates(a: byte, b: byte, c: byte, i: nat)
    ensures PartialProduct(GfMul(a, b), c, i) == GfMul(a, PartialProduct(b, c, i))
  {
    if i == 0 {
      TimesZero(a);
    } else {
      hide GfMul, Plus, Drop, Raise;
      PartialAssociates(a, b, c, i - 1);
      GfMulAdditive(a, PartialProduct(b, c, i - 1), Term(b, c, i - 1));
      GfMulCommutes(a, Raise(b, i - 1));
      RaiseProduct(b, a, i - 1);
      GfMulCommutes(b, a);
      TimesZero(a);
    }
  }

  lemma ProductIs(a: byte, b: byte)
    ensures GfMul(a, b) == PartialProduct(a, b, 8)
  {
    hide PartialProduct;
  }

  lemma GfMulAssociates(a: byte, b: byte, c: byte)
    ensures GfMul(GfMul(a, b), c) == GfMul(a, GfMul(b, c))
  {
    PartialAssociates(a, b, c, 8);
    ProductIs(GfMul(a, b), c);
    ProductIs(b, c);
    hide *;
  }

  lemma TimesOne(a: byte)
    ensures GfMul(a, 1) == a
  {
    GfMulBits(a, 1);
    hide GfMul;
  }

  /* Inverses and the substitution table */

  /** Bit i of the result is the sum of the bits i, i + 4, i + 5, i + 6, i + 7 and bit i of {63}. */
  function AffineMap(x: byte): byte {
    x ^ ((x << 1) | (x >> 7)) ^ ((x << 2) | (x >> 6)) ^ ((x << 3) | (x >> 5)) ^ ((x << 4) | (x >> 4)) ^ 0x63
  }

  /** The inverse of the affine map. */
  function AffineBack(x: byte): byte {
    ((x << 1) | (x >> 7)) ^ ((x << 3) | (x >> 5)) ^ ((x << 6) | (x >> 2)) ^ 0x05
  }

  lemma AffineMapBack(x: byte)
    ensures AffineMap(AffineBack(x)) == x && AffineBack(AffineMap(x)) == x
  {
  }

  /** The discrete logarithm to the base {03}, and 0 for 0: the order in which the proof below
      goes through the bytes. */
  function Log(x: byte): byte {
    var n := x & 15;
    Pick(x >> 4,
      Pick(n, 0x00, 0x00, 0x19, 0x01, 0x32, 0x02, 0x1a, 0xc6, 0x4b, 0xc7, 0x1b, 0x68, 0x33, 0xee, 0xdf, 0x03),
      Pick(n, 0x64, 0x04, 0xe0, 0x0e, 0x34, 0x8d, 0x81, 0xef, 0x4c, 0x71, 0x08, 0xc8, 0xf8, 0x69, 0x1c, 0xc1),
      Pick(n, 0x7d, 0xc2, 0x1d, 0xb5, 0xf9, 0xb9, 0x27, 0x6a, 0x4d, 0xe4, 0xa6, 0x72, 0x9a, 0xc9, 0x09, 0x78),
      Pick(n, 0x65, 0x2f, 0x8a, 0x05, 0x21, 0x0f, 0xe1, 0x24, 0x12, 0xf0, 0x82, 0x45, 0x35, 0x93, 0xda, 0x8e),
      Pick(n, 0x96, 0x8f, 0xdb, 0xbd, 0x36, 0xd0, 0xce, 0x94, 0x13, 0x5c, 0xd2, 0xf1, 0x40, 0x46, 0x83, 0x38),
      Pick(n, 0x66, 0xdd, 0xfd, 0x30, 0xbf, 0x06, 0x8b, 0x62, 0xb3, 0x25, 0xe2, 0x98, 0x22, 0x88, 0x91, 0x10),
      Pick(n, 0x7e, 0x6e, 0x48, 0xc3, 0xa3, 0xb6, 0x1e, 0x42, 0x3a, 0x6b, 0x28, 0x54, 0xfa, 0x85, 0x3d, 0xba),
      Pick(n, 0x2b, 0x79, 0x0a, 0x15, 0x9b, 0x9f, 0x5e, 0xca, 0x4e, 0xd4, 0xac, 0xe5, 0xf3, 0x73, 0xa7, 0x57),
      Pick(n, 0xaf, 0x58, 0xa8, 0x50, 0xf4, 0xea, 0xd6, 0x74, 0x4f, 0xae, 0xe9, 0xd5, 0xe7, 0xe6, 0xad, 0xe8),
      Pick(n, 0x2c, 0xd7, 0x75, 0x7a, 0xeb, 0x16, 0x0b, 0xf5, 0x59, 0xcb, 0x5f, 0xb0, 0x9c, 0xa9, 0x51, 0xa0),
      Pick(n, 0x7f, 0x0c, 0xf6, 0x6f, 0x17, 0xc4, 0x49, 0xec, 0xd8, 0x43, 0x1f, 0x2d, 0xa4, 0x76, 0x7b, 0xb7),
      Pick(n, 0xcc, 0xbb, 0x3e, 0x5a, 0xfb, 0x60, 0xb1, 0x86, 0x3b, 0x52, 0xa1, 0x6c, 0xaa, 0x55, 0x29, 0x9d),
      Pick(n, 0x97, 0xb2, 0x87, 0x90, 0x61, 0xbe, 0xdc, 0xfc, 0xbc, 0x95, 0xcf, 0xcd, 0x37, 0x3f, 0x5b, 0xd1),
      Pick(n, 0x53, 0x39, 0x84, 0x3c, 0x41, 0xa2, 0x6d, 0x47, 0x14, 0x2a, 0x9e, 0x5d, 0x56, 0xf2, 0xd3, 0xab),
      Pick(n, 0x44, 0x11, 0x92, 0xd9, 0x23, 0x20, 0x2e, 0x89, 0xb4, 0x7c, 0xb8, 0x26, 0x77, 0x99, 0xe3, 0xa5),
      Pick(n, 0x67, 0x4a, 0xed, 0xde, 0xc5, 0x31, 0xfe, 0x18, 0x0d, 0x63, 0x8c, 0x80, 0xc0, 0xf7, 0x70, 0x07))
  }

  function Thrice(x: byte): byte {
    Xtime(x) ^ x
  }

  /** Multiplying by {03} adds one to the logarithm. */
  lemma LogStepLow(x: byte)
    requires 0 < x < 0x80
    ensures if Log(x) == 0xfe then Thrice(x) == 1 else Log(Thrice(x)) == Log(x) + 1
  {
  }

  lemma LogStepHigh(x: byte)
    requires x >= 0x80
    ensures if Log(x) == 0xfe then Thrice(x) == 1 else Log(Thrice(x)) == Log(x) + 1
  {
  }

  /** Three times what the table holds, before the affine map, for three times x is what it holds
      for x; stated from the side of x. */
  lemma TableStepLow(x: byte)
    requires 0 < x < 0x80
    ensures InvSbox(AffineMap(Thrice(AffineBack(Sbox(Thrice(x)))))) == x
  {
  }

  lemma TableStepHigh(x: byte)
    requires x >= 0x80
    ensures InvSbox(AffineMap(Thrice(AffineBack(Sbox(Thrice(x)))))) == x
  {
  }

  lemma TableStep(x: byte)
    requires x != 0
    ensures Thrice(AffineBack(Sbox(Thrice(x)))) == AffineBack(Sbox(x))
  {
    hide *;
    var y := Thrice(AffineBack(Sbox(Thrice(x))));
    if x < 0x80 {
      TableStepLow(x);
    } else {
      TableStepHigh(x);
    }
    InvSboxInverse(AffineMap(y));
    AffineMapBack(y);
  }

  lemma LogStep(x: byte)
    requires x != 0
    ensures if Log(x) == 0xfe then Thrice(x) == 1 else Log(Thrice(x)) == Log(x) + 1
  {
    hide *;
    if x < 0x80 {
      LogStepLow(x);
    } else {
      LogStepHigh(x);
    }
  }

  lemma LogRange(x: byte)
    requires x != 0
    ensures Log(x) <= 0xfe && Thrice(x) != 0
  {
  }

  lemma ThriceIs(x: byte)
    ensures Thrice(x) == Xtime(x) ^ x
  {
  }

  lemma TripleProduct(x: byte, y: byte)
    ensures GfMul(Thrice(x), y) == GfMul(x, Thrice(y))
  {
    Product3(x);
    Product3(y);
    hide *;
    GfMulCommutes(3, x);
    GfMulAssociates(x, 3, y);
    ThriceIs(x);
    ThriceIs(y);
  }

  lemma OneFromTable()
    ensures AffineBack(Sbox(1)) == 1
  {
  }

  lemma Successor(a: byte, b: byte)
    requires a <= 0xfe && a != 0xfe && b == a + 1
    ensures b as int == a as int + 1
  {
  }

  lemma LogRises(x: byte, rank: nat)
    requires x != 0 && rank == 0xff - Log(x) as int && Log(x) != 0xfe
    ensures rank > 0 && rank - 1 == 0xff - Log(Thrice(x)) as int
  {
    hide *;
    LogRange(x);
    LogStep(x);
    Successor(Log(x), Log(Thrice(x)));
  }

  /** Along the powers of {03}, which reach every byte but 0, the product stays 1. */
  lemma {:induction false} InverseByRank(x: byte, rank: nat)
    requires x != 0 && rank == 0xff - Log(x) as int
    ensures GfMul(x, AffineBack(Sbox(x))) == 1
    decreases rank
  {
    var y := Thrice(x);
    hide *;
    LogRange(x);
    TableStep(x);
    if Log(x) == 0xfe {
      LogStep(x);
      OneFromTable();
      TimesOne(1);
    } else {
      LogRises(x, rank);
      InverseByRank(y, rank - 1);
    }
    TripleProduct(x, AffineBack(Sbox(y)));
  }

  lemma InverseFromTable(x: byte)
    requires x != 0
    ensures GfMul(x, AffineBack(Sbox(x))) == 1
  {
    hide *;
    InverseByRank(x, 0xff - Log(x) as int);
  }

  /** Inverses are unique. */
  lemma InverseUnique(x: byte, y: byte, z: byte)
    requires GfMul(x, y) == 1 && GfMul(x, z) == 1
    ensures y == z
  {
    hide GfMul;
    GfMulAssociates(z, x, y);
    GfMulCommutes(z, x);
    GfMulCommutes(1, y);
    TimesOne(y);
    TimesOne(z);
  }

  /** The table holds the affine map of the inverse, and {63} for 0, which has none. */
  lemma SboxIsAffine(x: byte, y: byte)
    ensures Sbox(0) == AffineMap(0)
    ensures GfMul(x, y) == 1 ==> Sbox(x) == AffineMap(y)
    ensures x != 0 ==> exists z :: GfMul(x, z) == 1
  {
    if x == 0 {
      GfMulCommutes(0, y);
      TimesZero(y);
    } else {
      InverseFromTable(x);
      AffineMapBack(Sbox(x));
      if GfMul(x, y) == 1 {
        hide GfMul;
        InverseUnique(x, y, AffineBack(Sbox(x)));
      }
    }
  }
}
