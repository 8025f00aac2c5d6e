/** The AES S-boxes and GF(2^8) arithmetic of FIPS 197, on bytes as 8-bit vectors. */
module AesField {

  type byte = bv8

  /** Entry n of a table row. */
  function Pick(n: byte, e0: byte, e1: byte, e2: byte, e3: byte, e4: byte, e5: byte, e6: byte, e7: byte,
                e8: byte, e9: byte, e10: byte, e11: byte, e12: byte, e13: byte, e14: byte, e15: byte): byte {
    if n < 8 then
      if n < 4 then
        if n < 2 then
          if n < 1 then e0 else e1
        else
          if n < 3 then e2 else e3
      else
        if n < 6 then
          if n < 5 then e4 else e5
        else
          if n < 7 then e6 else e7
    else
      if n < 12 then
        if n < 10 then
          if n < 9 then e8 else e9
        else
          if n < 11 then e10 else e11
      else
        if n < 14 then
          if n < 13 then e12 else e13
        else
          if n < 15 then e14 else e15
  }

  /** The substitution table, FIPS 197 figure 7. */
  function Sbox(x: byte): byte {
    var n := x & 15;
    Pick(x >> 4,
      Pick(n, 0x63, 0x7c, 0x77, 0x7b, 0xf2, 0x6b, 0x6f, 0xc5, 0x30, 0x01, 0x67, 0x2b, 0xfe, 0xd7, 0xab, 0x76),
      Pick(n, 0xca, 0x82, 0xc9, 0x7d, 0xfa, 0x59, 0x47, 0xf0, 0xad, 0xd4, 0xa2, 0xaf, 0x9c, 0xa4, 0x72, 0xc0),
      Pick(n, 0xb7, 0xfd, 0x93, 0x26, 0x36, 0x3f, 0xf7, 0xcc, 0x34, 0xa5, 0xe5, 0xf1, 0x71, 0xd8, 0x31, 0x15),
      Pick(n, 0x04, 0xc7, 0x23, 0xc3, 0x18, 0x96, 0x05, 0x9a, 0x07, 0x12, 0x80, 0xe2, 0xeb, 0x27, 0xb2, 0x75),
      Pick(n, 0x09, 0x83, 0x2c, 0x1a, 0x1b, 0x6e, 0x5a, 0xa0, 0x52, 0x3b, 0xd6, 0xb3, 0x29, 0xe3, 0x2f, 0x84),
      Pick(n, 0x53, 0xd1, 0x00, 0xed, 0x20, 0xfc, 0xb1, 0x5b, 0x6a, 0xcb, 0xbe, 0x39, 0x4a, 0x4c, 0x58, 0xcf),
      Pick(n, 0xd0, 0xef, 0xaa, 0xfb, 0x43, 0x4d, 0x33, 0x85, 0x45, 0xf9, 0x02, 0x7f, 0x50, 0x3c, 0x9f, 0xa8),
      Pick(n, 0x51, 0xa3, 0x40, 0x8f, 0x92, 0x9d, 0x38, 0xf5, 0xbc, 0xb6, 0xda, 0x21, 0x10, 0xff, 0xf3, 0xd2),
      Pick(n, 0xcd, 0x0c, 0x13, 0xec, 0x5f, 0x97, 0x44, 0x17, 0xc4, 0xa7, 0x7e, 0x3d, 0x64, 0x5d, 0x19, 0x73),
      Pick(n, 0x60, 0x81, 0x4f, 0xdc, 0x22, 0x2a, 0x90, 0x88, 0x46, 0xee, 0xb8, 0x14, 0xde, 0x5e, 0x0b, 0xdb),
      Pick(n, 0xe0, 0x32, 0x3a, 0x0a, 0x49, 0x06, 0x24, 0x5c, 0xc2, 0xd3, 0xac, 0x62, 0x91, 0x95, 0xe4, 0x79),
      Pick(n, 0xe7, 0xc8, 0x37, 0x6d, 0x8d, 0xd5, 0x4e, 0xa9, 0x6c, 0x56, 0xf4, 0xea, 0x65, 0x7a, 0xae, 0x08),
      Pick(n, 0xba, 0x78, 0x25, 0x2e, 0x1c, 0xa6, 0xb4, 0xc6, 0xe8, 0xdd, 0x74, 0x1f, 0x4b, 0xbd, 0x8b, 0x8a),
      Pick(n, 0x70, 0x3e, 0xb5, 0x66, 0x48, 0x03, 0xf6, 0x0e, 0x61, 0x35, 0x57, 0xb9, 0x86, 0xc1, 0x1d, 0x9e),
      Pick(n, 0xe1, 0xf8, 0x98, 0x11, 0x69, 0xd9, 0x8e, 0x94, 0x9b, 0x1e, 0x87, 0xe9, 0xce, 0x55, 0x28, 0xdf),
      Pick(n, 0x8c, 0xa1, 0x89, 0x0d, 0xbf, 0xe6, 0x42, 0x68, 0x41, 0x99, 0x2d, 0x0f, 0xb0, 0x54, 0xbb, 0x16))
  }

  /** The inverse substitution table, FIPS 197 figure 14. */
  function InvSbox(x: byte): byte {
    var n := x & 15;
    Pick(x >> 4,
      Pick(n, 0x52, 0x09, 0x6a, 0xd5, 0x30, 0x36, 0xa5, 0x38, 0xbf, 0x40, 0xa3, 0x9e, 0x81, 0xf3, 0xd7, 0xfb),
      Pick(n, 0x7c, 0xe3, 0x39, 0x82, 0x9b, 0x2f, 0xff, 0x87, 0x34, 0x8e, 0x43, 0x44, 0xc4, 0xde, 0xe9, 0xcb),
      Pick(n, 0x54, 0x7b, 0x94, 0x32, 0xa6, 0xc2, 0x23, 0x3d, 0xee, 0x4c, 0x95, 0x0b, 0x42, 0xfa, 0xc3, 0x4e),
      Pick(n, 0x08, 0x2e, 0xa1, 0x66, 0x28, 0xd9, 0x24, 0xb2, 0x76, 0x5b, 0xa2, 0x49, 0x6d, 0x8b, 0xd1, 0x25),
      Pick(n, 0x72, 0xf8, 0xf6, 0x64, 0x86, 0x68, 0x98, 0x16, 0xd4, 0xa4, 0x5c, 0xcc, 0x5d, 0x65, 0xb6, 0x92),
      Pick(n, 0x6c, 0x70, 0x48, 0x50, 0xfd, 0xed, 0xb9, 0xda, 0x5e, 0x15, 0x46, 0x57, 0xa7, 0x8d, 0x9d, 0x84),
      Pick(n, 0x90, 0xd8, 0xab, 0x00, 0x8c, 0xbc, 0xd3, 0x0a, 0xf7, 0xe4, 0x58, 0x05, 0xb8, 0xb3, 0x45, 0x06),
      Pick(n, 0xd0, 0x2c, 0x1e, 0x8f, 0xca, 0x3f, 0x0f, 0x02, 0xc1, 0xaf, 0xbd, 0x03, 0x01, 0x13, 0x8a, 0x6b),
      Pick(n, 0x3a, 0x91, 0x11, 0x41, 0x4f, 0x67, 0xdc, 0xea, 0x97, 0xf2, 0xcf, 0xce, 0xf0, 0xb4, 0xe6, 0x73),
      Pick(n, 0x96, 0xac, 0x74, 0x22, 0xe7, 0xad, 0x35, 0x85, 0xe2, 0xf9, 0x37, 0xe8, 0x1c, 0x75, 0xdf, 0x6e),
      Pick(n, 0x47, 0xf1, 0x1a, 0x71, 0x1d, 0x29, 0xc5, 0x89, 0x6f, 0xb7, 0x62, 0x0e, 0xaa, 0x18, 0xbe, 0x1b),
      Pick(n, 0xfc, 0x56, 0x3e, 0x4b, 0xc6, 0xd2, 0x79, 0x20, 0x9a, 0xdb, 0xc0, 0xfe, 0x78, 0xcd, 0x5a, 0xf4),
      Pick(n, 0x1f, 0xdd, 0xa8, 0x33, 0x88, 0x07, 0xc7, 0x31, 0xb1, 0x12, 0x10, 0x59, 0x27, 0x80, 0xec, 0x5f),
      Pick(n, 0x60, 0x51, 0x7f, 0xa9, 0x19, 0xb5, 0x4a, 0x0d, 0x2d, 0xe5, 0x7a, 0x9f, 0x93, 0xc9, 0x9c, 0xef),
      Pick(n, 0xa0, 0xe0, 0x3b, 0x4d, 0xae, 0x2a, 0xf5, 0xb0, 0xc8, 0xeb, 0xbb, 0x3c, 0x83, 0x53, 0x99, 0x61),
      Pick(n, 0x17, 0x2b, 0x04, 0x7e, 0xba, 0x77, 0xd6, 0x26, 0xe1, 0x69, 0x14, 0x63, 0x55, 0x21, 0x0c, 0x7d))
  }

  lemma SboxInverseLow(x: byte)
    requires x < 0x80
    ensures InvSbox(Sbox(x)) == x
  {
  }

  lemma SboxInverseHigh(x: byte)
    requires x >= 0x80
    ensures InvSbox(Sbox(x)) == x
  {
  }

  lemma InvSboxInverseLow(x: byte)
    requires x < 0x80
    ensures Sbox(InvSbox(x)) == x
  {
  }

  lemma InvSboxInverseHigh(x: byte)
    requires x >= 0x80
    ensures Sbox(InvSbox(x)) == x
  {
  }

  /** The two tables undo each other. */
  lemma SboxInverse(x: byte)
    ensures InvSbox(Sbox(x)) == x
  {
    hide Sbox, InvSbox;
    if x < 0x80 {
      SboxInverseLow(x);
    } else {
      SboxInverseHigh(x);
    }
  }

  lemma InvSboxInverse(x: byte)
    ensures Sbox(InvSbox(x)) == x
  {
    hide Sbox, InvSbox;
    if x < 0x80 {
      InvSboxInverseLow(x);
    } else {
      InvSboxInverseHigh(x);
    }
  }

  /** Addition in GF(2^8). Proofs below keep it folded, so that sums are only ever rearranged
      by the lemmas that say so. */
  function Plus(p: byte, q: byte): byte {
    p ^ q
  }

  lemma PlusCommutes(p: byte, q: byte)
    ensures Plus(p, q) == Plus(q, p)
  {
  }

  lemma PlusAssociates(p: byte, q: byte, r: byte)
    ensures Plus(Plus(p, q), r) == Plus(p, Plus(q, r))
  {
  }

  lemma Exchange(p: byte, q: byte, r: byte, s: byte)
    ensures Plus(Plus(p, q), Plus(r, s)) == Plus(Plus(p, r), Plus(q, s))
  {
    hide Plus;
    PlusAssociates(p, q, Plus(r, s));
    PlusAssociates(q, r, s);
    PlusCommutes(q, r);
    PlusAssociates(r, q, s);
    PlusAssociates(p, r, Plus(q, s));
  }

  /** Multiplication by {02}. */
  function Xtime(x: byte): byte {
    (x << 1) ^ ((x >> 7) * 0x1b)
  }

  lemma XtimeAdditive(x: byte, y: byte)
    ensures Xtime(Plus(x, y)) == Plus(Xtime(x), Xtime(y))
  {
  }

  /** b without its i lowest bits, and a times {02}^i. */
  function Drop(b: byte, i: nat): byte {
    if i == 0 then b else Drop(b, i - 1) >> 1
  }

  function Raise(a: byte, i: nat): byte {
    if i == 0 then a else Xtime(Raise(a, i - 1))
  }

  /** The partial product of bit i of b. */
  function Term(a: byte, b: byte, i: nat): byte {
    if Drop(b, i) & 1 == 1 then Raise(a, i) else 0
  }

  /** The sum of a {02}^k over the bits k < i that are set in b. */
  function PartialProduct(a: byte, b: byte, i: nat): byte {
    if i == 0 then 0
    else Plus(PartialProduct(a, b, i - 1), Term(a, b, i - 1))
  }

  /** The product in GF(2^8) modulo x^8 + x^4 + x^3 + x + 1. */
  function GfMul(a: byte, b: byte): byte {
    PartialProduct(a, b, 8)
  }

  lemma {:induction false} DropAdditive(b: byte, c: byte, i: nat)
    ensures Drop(Plus(b, c), i) == Plus(Drop(b, i), Drop(c, i))
  {
    if i == 0 {
    } else {
      DropAdditive(b, c, i - 1);
    }
  }

  lemma TermAdditive(a: byte, b: byte, c: byte, i: nat)
    ensures Term(a, Plus(b, c), i) == Plus(Term(a, b, i), Term(a, c, i))
  {
    DropAdditive(b, c, i);
    hide Drop, Raise;
  }

  lemma {:induction false} PartialProductAdditive(a: byte, b: byte, c: byte, i: nat)
    ensures PartialProduct(a, Plus(b, c), i) == Plus(PartialProduct(a, b, i), PartialProduct(a, c, i))
  {
    if i == 0 {
    } else {
      hide Term, Plus;
      PartialProductAdditive(a, b, c, i - 1);
      TermAdditive(a, b, c, i - 1);
      Exchange(PartialProduct(a, b, i - 1), PartialProduct(a, c, i - 1), Term(a, b, i - 1), Term(a, c, i - 1));
    }
  }

  /** Multiplication distributes over addition, which is exclusive or. */
  lemma GfMulAdditive(a: byte, b: byte, c: byte)
    ensures GfMul(a, Plus(b, c)) == Plus(GfMul(a, b), GfMul(a, c))
  {
    hide Plus, PartialProduct;
    PartialProductAdditive(a, b, c, 8);
  }

  lemma PartialStep(a: byte, b: byte, i: nat)
    ensures PartialProduct(a, b, 0) == 0
    ensures PartialProduct(a, b, i + 1) == Plus(PartialProduct(a, b, i), Term(a, b, i))
  {
  }

  lemma FirstFour(a: byte, b: byte)
    ensures PartialProduct(a, b, 4) == Term(a, b, 0) ^ Term(a, b, 1) ^ Term(a, b, 2) ^ Term(a, b, 3)
  {
    hide Term, PartialProduct;
    PartialStep(a, b, 0);
    PartialStep(a, b, 1);
    PartialStep(a, b, 2);
    PartialStep(a, b, 3);
  }

  lemma LastFour(a: byte, b: byte)
    ensures GfMul(a, b)
      == PartialProduct(a, b, 4) ^ Term(a, b, 4) ^ Term(a, b, 5) ^ Term(a, b, 6) ^ Term(a, b, 7)
  {
    hide Term, PartialProduct;
    PartialStep(a, b, 4);
    PartialStep(a, b, 5);
    PartialStep(a, b, 6);
    PartialStep(a, b, 7);
  }

  lemma SumOfTerms(a: byte, b: byte)
    ensures GfMul(a, b) == Term(a, b, 0) ^ Term(a, b, 1) ^ Term(a, b, 2) ^ Term(a, b, 3)
                         ^ Term(a, b, 4) ^ Term(a, b, 5) ^ Term(a, b, 6) ^ Term(a, b, 7)
  {
    hide Term, PartialProduct, GfMul;
    FirstFour(a, b);
    LastFour(a, b);
  }

  lemma TermIs(a: byte, b: byte, i: nat, c: byte)
    requires Drop(b, i) == c
    ensures Term(a, b, i) == if c & 1 == 1 then Raise(a, i) else 0
  {
  }

  lemma Drops(b: byte)
    ensures Drop(b, 0) == b && Drop(b, 1) == b >> 1 && Drop(b, 2) == b >> 2 && Drop(b, 3) == b >> 3
    ensures Drop(b, 4) == b >> 4 && Drop(b, 5) == b >> 5 && Drop(b, 6) == b >> 6 && Drop(b, 7) == b >> 7
  {
  }

  lemma Raises(a: byte)
    ensures var (a1, a2, a3) := (Xtime(a), Xtime(Xtime(a)), Xtime(Xtime(Xtime(a))));
      var (a4, a5, a6) := (Xtime(a3), Xtime(Xtime(a3)), Xtime(Xtime(Xtime(a3))));
      && Raise(a, 0) == a && Raise(a, 1) == a1 && Raise(a, 2) == a2 && Raise(a, 3) == a3
      && Raise(a, 4) == a4 && Raise(a, 5) == a5 && Raise(a, 6) == a6 && Raise(a, 7) == Xtime(a6)
  {
    hide Xtime;
  }

  lemma BitTests(b: byte)
    ensures (b >> 1) & 1 == 1 <==> b & 2 == 2
    ensures (b >> 2) & 1 == 1 <==> b & 4 == 4
    ensures (b >> 3) & 1 == 1 <==> b & 8 == 8
    ensures (b >> 4) & 1 == 1 <==> b & 16 == 16
    ensures (b >> 5) & 1 == 1 <==> b & 32 == 32
    ensures (b >> 6) & 1 == 1 <==> b & 64 == 64
    ensures (b >> 7) & 1 == 1 <==> b & 128 == 128
  {
  }

  lemma Terms(a: byte, b: byte)
    ensures var (a1, a2, a3) := (Xtime(a), Xtime(Xtime(a)), Xtime(Xtime(Xtime(a))));
      var (a4, a5, a6) := (Xtime(a3), Xtime(Xtime(a3)), Xtime(Xtime(Xtime(a3))));
      && Term(a, b, 0) == (if b & 1 == 1 then a else 0)
      && Term(a, b, 1) == (if b & 2 == 2 then a1 else 0)
      && Term(a, b, 2) == (if b & 4 == 4 then a2 else 0)
      && Term(a, b, 3) == (if b & 8 == 8 then a3 else 0)
      && Term(a, b, 4) == (if b & 16 == 16 then a4 else 0)
      && Term(a, b, 5) == (if b & 32 == 32 then a5 else 0)
      && Term(a, b, 6) == (if b & 64 == 64 then a6 else 0)
      && Term(a, b, 7) == (if b & 128 == 128 then Xtime(a6) else 0)
  {
    hide Xtime, Term, Raise, Drop;
    Raises(a);
    Drops(b);
    TermIs(a, b, 0, b);
    TermIs(a, b, 1, b >> 1);
    TermIs(a, b, 2, b >> 2);
    TermIs(a, b, 3, b >> 3);
    TermIs(a, b, 4, b >> 4);
    TermIs(a, b, 5, b >> 5);
    TermIs(a, b, 6, b >> 6);
    TermIs(a, b, 7, b >> 7);
    BitTests(b);
  }

  /** The eight partial products, written out. */
  lemma GfMulBits(a: byte, b: byte)
    ensures var (a1, a2, a3) := (Xtime(a), Xtime(Xtime(a)), Xtime(Xtime(Xtime(a))));
      var (a4, a5, a6) := (Xtime(a3), Xtime(Xtime(a3)), Xtime(Xtime(Xtime(a3))));
      GfMul(a, b)
        == (if b & 1 == 1 then a else 0) ^ (if b & 2 == 2 then a1 else 0)
         ^ (if b & 4 == 4 then a2 else 0) ^ (if b & 8 == 8 then a3 else 0)
         ^ (if b & 16 == 16 then a4 else 0) ^ (if b & 32 == 32 then a5 else 0)
         ^ (if b & 64 == 64 then a6 else 0) ^ (if b & 128 == 128 then Xtime(a6) else 0)
  {
    hide Xtime;
    Terms(a, b);
    SumOfTerms(a, b);
  }

  /** The constants of InvMixColumns as combinations of doublings. */
  function Times9(x: byte): byte {
    Xtime(Xtime(Xtime(x))) ^ x
  }

  function TimesB(x: byte): byte {
    Xtime(Xtime(Xtime(x))) ^ Xtime(x) ^ x
  }

  function TimesD(x: byte): byte {
    Xtime(Xtime(Xtime(x))) ^ Xtime(Xtime(x)) ^ x
  }

  function TimesE(x: byte): byte {
    Xtime(Xtime(Xtime(x))) ^ Xtime(Xtime(x)) ^ Xtime(x)
  }

  lemma Product2(x: byte)
    ensures GfMul(0x02, x) == Xtime(x)
  {
    GfMulBits(0x02, x);
    hide GfMul;
  }

  lemma Product3(x: byte)
    ensures GfMul(0x03, x) == Xtime(x) ^ x
  {
    GfMulBits(0x03, x);
    hide GfMul;
  }

  lemma ProductE(x: byte)
    ensures GfMul(0x0e, x) == TimesE(x)
  {
    GfMulBits(0x0e, x);
    hide GfMul;
  }

  lemma ProductB(x: byte)
    ensures GfMul(0x0b, x) == TimesB(x)
  {
    GfMulBits(0x0b, x);
    hide GfMul;
  }

  lemma ProductD(x: byte)
    ensures GfMul(0x0d, x) == TimesD(x)
  {
    GfMulBits(0x0d, x);
    hide GfMul;
  }

  lemma Product9(x: byte)
    ensures GfMul(0x09, x) == Times9(x)
  {
    GfMulBits(0x09, x);
    hide GfMul;
  }
}
