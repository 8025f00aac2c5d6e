/** The curve of RFC 7748 and RFC 8032: scalarbase computes multiples of the base point, and
    X25519 multiples of any curve point. */
module Curve25519 {
  import opened Arith
  import opened Bytes
  import opened Limbs
  import opened Prime25519
  import opened Primes
  import opened PrimeCertificate
  import opened PrimeField
  import opened DoubleAndAdd
  import opened EdwardsFormulas
  import opened EdwardsComplete
  import opened EdwardsGroup
  import opened MontgomeryLadder
  import Edwards25519
  import Scalarmult25519

  /* The field and the curve constant */

  /** A square root of -1. */
  const ROOT: int := 0x2b8324804fc1df0b_2b4d00993dfbd7a7_2f431806ad2fe478_c4ee1b274a0ea0b0

  const FIELD: Parameters := Parameters(P, ROOT, Edwards25519.D, Rfc7748.A24)
  lemma ClassAt(p: int, a: int)
    requires p > 0
    ensures Class(p, a) == a % p
  {
    RemainderIs(p, p, a);
  }

  lemma FieldIsField()
    ensures IsField(FIELD)
  {
    PIsPrime();
    ClassAt(P, ROOT * ROOT);
    ClassAt(P, -1);
    hide Prime, Class;
    ModShiftIs(ROOT * ROOT, -1, 0xecaa2e2f6a2302c_cedb31ac05720688_238ced2078f3eb0e_c9f22e8f621972e5, P);
  }

  /** A square root of d times the root of -1. */
  const MIXED: int := 0x7a4caaa70b841468_8acbab668c1491ea_324356d2f1159255_8acfd534b5a3e445

  /** The curve constant is no square, and 121665 belongs to it. */
  lemma FieldIsTwisted()
    ensures IsField(FIELD) && IsTwisted(FIELD)
  {
    FieldIsField();
    hide IsField, IsTwisted, Same, Class;
    var F: Field := FIELD;
    SameBy(F, MIXED * MIXED, Edwards25519.D * ROOT,
           0x58f925bd4c53b08b_dfc3e00918b63acc_b6499e0e7a1b574b_d1ca73343456698d);
    SameBy(F, (1 + Rfc7748.A24) * (1 + Edwards25519.D), 1, 77955);
    TwistedBy(F, 0x0fffffffffffffff_ffffffffffffffff_ffffffffffffffff_fffffffffffffffd, MIXED);
  }

  /** Equality, by counting down: what is known of the field below is what lemmas say of it, so
      that no proof computes with its constants unasked. */
  ghost predicate Counts(a: int, b: int)
    decreases if a < 0 then 0 else a
  {
    if a <= 0 then a == b else Counts(a - 1, b - 1)
  }

  lemma {:induction false} CountsIs(a: int, b: int)
    ensures Counts(a, b) <==> a == b
    decreases if a < 0 then 0 else a
  {
    if a > 0 {
      CountsIs(a - 1, b - 1);
    }
  }

  ghost predicate IsCurve25519(F: Parameters) {
    Counts(F.p, P) && Counts(F.root, ROOT) && Counts(F.d, Edwards25519.D) && Counts(F.a24, Rfc7748.A24)
  }

  lemma Fields(F: Parameters, p: int, root: int, d: int, a24: int)
    requires p == P && root == ROOT && d == Edwards25519.D && a24 == Rfc7748.A24
    ensures F == Parameters(p, root, d, a24) ==> IsCurve25519(F)
    ensures IsCurve25519(F) ==> F == Parameters(p, root, d, a24)
  {
    hide Counts;
    CountsIs(F.p, p);
    CountsIs(F.root, root);
    CountsIs(F.d, d);
    CountsIs(F.a24, a24);
  }

  lemma FieldExists()
    ensures IsField(FIELD) && IsTwisted(FIELD) && IsCurve25519(FIELD)
  {
    FieldIsTwisted();
    assert FIELD == Parameters(P, ROOT, Edwards25519.D, Rfc7748.A24);
    hide *;
    Fields(FIELD, P, ROOT, Edwards25519.D, Rfc7748.A24);
  }

  /** The field of 2^255 - 19 elements, with the constants of the curve. */
  ghost const F25519: Twisted := (FieldExists(); var F: Twisted :| IsCurve25519(F); F)

  lemma Components()
    ensures F25519.p == P && F25519.root == ROOT && F25519.d == Edwards25519.D && F25519.a24 == Rfc7748.A24
  {
    assert IsCurve25519(F25519);
    hide *;
    Fields(F25519, P, ROOT, Edwards25519.D, Rfc7748.A24);
  }

  /* Edwards coordinates */

  lemma OperationsAgree()
    ensures forall a, b :: Mul(a, b) == FMul(F25519, a, b)
    ensures forall a, b :: Add(a, b) == FAdd(F25519, a, b)
    ensures forall a, b :: Sub(a, b) == FSub(F25519, a, b)
  {
    Components();
  }

  lemma FormulasAgree(p: Coords, q: Coords)
    ensures Edwards25519.PointAdd(p, q) == Sum(F25519, p, q)
  {
    OperationsAgree();
    Components();
    hide Mul, Add, Sub, FMul, FAdd, FSub;
  }

  lemma {:induction false} RunAgrees(q: Coords, s: nat, n: nat, i: nat)
    requires i <= n
    ensures Run(Edwards25519.PointAdd, IDENTITY, q, s, n, i) == Run(Adder(F25519), IDENTITY, q, s, n, i)
    decreases n - i
  {
    if i < n {
      hide Edwards25519.PointAdd, Sum, High;
      RunAgrees(q, s, n, i + 1);
      var (p', q') := Run(Adder(F25519), IDENTITY, q, s, n, i + 1);
      FormulasAgree(p', p');
      FormulasAgree(q', q');
      FormulasAgree(p', q');
      FormulasAgree(q', p');
    }
  }

  /** From any curve point scalarmult computes the multiple that the scalar says, in the group of
      the curve. */
  lemma ScalarmultOnCurve(q: Coords, s: seq<u8>)
    requires |s| == 32 && Genuine(F25519, q)
    ensures var r := Run(Edwards25519.PointAdd, IDENTITY, q, LittleEndian(s), 256, 0).0;
      Genuine(F25519, r) && ToAffine(F25519, r) == Times(F25519, LittleEndian(s), ToAffine(F25519, q))
  {
    hide *;
    RunAgrees(q, LittleEndian(s), 256, 0);
    LittleEndianRange(s);
    Edwards25519.Pow256Of2(|s|);
    LadderOnCurve(F25519, q, LittleEndian(s), 8 * |s|);
  }

  /** The base point of section 5.1 of RFC 8032. */
  const BASE: Affine := Affine(Edwards25519.BASE_X, Edwards25519.BASE_Y)

  lemma BaseRange()
    ensures 0 <= BASE.x < P && 0 <= BASE.y < P
  {
  }

  lemma BaseEquation()
    ensures Same(F25519, BASE.y * BASE.y - BASE.x * BASE.x,
                 1 + F25519.d * ((BASE.x * BASE.y) * (BASE.x * BASE.y)))
  {
    Components();
    hide Same;
    SameBy(F25519, Edwards25519.BASE_Y * Edwards25519.BASE_Y - Edwards25519.BASE_X * Edwards25519.BASE_X,
           1 + Edwards25519.D * ((Edwards25519.BASE_X * Edwards25519.BASE_Y) *
                                 (Edwards25519.BASE_X * Edwards25519.BASE_Y)),
           Edwards25519.QUOTIENT);
  }

  lemma BaseOn()
    ensures OnAffine(F25519, BASE)
  {
    Components();
    hide *;
    BaseRange();
    BaseEquation();
    AffineIs(F25519, BASE);
  }

  lemma BaseEmbedded()
    ensures Edwards25519.BasePoint() == Embed(F25519, BASE)
  {
    Components();
    hide Value;
    Edwards25519.BasePointLimbs();
    ModSmall(Edwards25519.BASE_X, P);
    ModSmall(Edwards25519.BASE_Y, P);
  }

  /** scalarbase computes the scalar times the base point, for every scalar. */
  lemma ScalarBaseMultiplies(s: seq<u8>)
    requires |s| == 32
    ensures var r := Run(Edwards25519.PointAdd, IDENTITY, Edwards25519.BasePoint(), LittleEndian(s), 256, 0).0;
      Genuine(F25519, r) && ToAffine(F25519, r) == Times(F25519, LittleEndian(s), BASE)
  {
    hide *;
    BaseOn();
    BaseEmbedded();
    EmbedGenuine(F25519, BASE);
    ScalarmultOnCurve(Edwards25519.BasePoint(), s);
  }

  /* X25519 */

  lemma DifferentialAgrees(F: Field, x1: int, s: Rfc7748.State)
    requires forall a, b :: Mul(a, b) == FMul(F, a, b)
    requires forall a, b :: Add(a, b) == FAdd(F, a, b)
    requires forall a, b :: Sub(a, b) == FSub(F, a, b)
    requires F.a24 == Rfc7748.A24
    ensures Rfc7748.Formulas(x1, s) == Differential(F, x1, s)
  {
    hide Mul, Add, Sub, FMul, FAdd, FSub;
  }
  lemma StepAgrees(x1: int, bit: int, s: Rfc7748.State)
    ensures Rfc7748.Step(x1, bit, s) == StepIn(F25519, x1, bit, s)
  {
    hide Rfc7748.Formulas, Differential, Mul, Add, Sub, FMul, FAdd, FSub;
    OperationsAgree();
    Components();
    DifferentialAgrees(F25519, x1, Rfc7748.Cswap((s.swap + bit) % 2, s));
  }

  lemma BitIsHigh(k: nat, t: nat)
    ensures Rfc7748.Bit(k, t) == High(k, t) % 2
  {
    hide Pow;
  }

  lemma {:induction false} LadderAgrees(k: nat, x1: int, t: nat)
    requires t <= 255
    ensures Rfc7748.Ladder(k, x1, t) == LadderIn(F25519, k, x1, 255, t)
    decreases 255 - t
  {
    if t < 255 {
      hide Rfc7748.Step, StepIn, High, Rfc7748.Bit;
      LadderAgrees(k, x1, t + 1);
      BitIsHigh(k, t);
      StepAgrees(x1, High(k, t) % 2, LadderIn(F25519, k, x1, 255, t + 1));
    }
  }
  lemma NumberAgrees(k: nat, u: int)
    ensures Rfc7748.X25519Number(k, u) == NumberIn(F25519, k, 255, u)
  {
    Components();
    LadderAgrees(k, u % P, 0);
    hide Rfc7748.Ladder, LadderIn, Pow;
  }

  /** The encoding of a point's u. */
  ghost function Encoded(a: Affine): seq<u8> {
    var u := UOf(F25519, a);
    if u < 0 then [] else ToLittleEndian(u, 32)
  }

  lemma Fifteen()
    ensures Pow(2, 15) == 0x8000
  {
    assert Pow(2, 3) == 8 && Pow(2, 4) == 16;
    hide Pow;
    PowAdd(2, 4, 4);
    PowAdd(2, 8, 4);
    PowAdd(2, 12, 3);
  }

  lemma Power255(e: nat)
    requires e == 255
    ensures Pow(2, e) == TWO255
  {
    Fifteen();
    hide Pow;
    PowAdd(2, 15, 15);
    PowAdd(2, 30, 30);
    PowAdd(2, 60, 60);
    PowAdd(2, 120, 120);
    PowAdd(2, 240, 15);
  }

  lemma Power248(e: nat)
    requires e == 31
    ensures Pow(256, e) * 128 == TWO255
  {
    assert Pow(256, 3) == 0x100_0000 && Pow(256, 4) == 0x1_0000_0000;
    hide Pow;
    PowAdd(256, 4, 4);
    PowAdd(256, 8, 8);
    PowAdd(256, 16, 8);
    PowAdd(256, 24, 4);
    PowAdd(256, 28, 3);
  }

  lemma TopByte(c: seq<u8>)
    requires |c| == 32 && c[31] < 128
    ensures LittleEndian(c) < TWO255
  {
    var (a, b) := (c[..31], [c[31]]);
    assert c == a + b;
    LittleEndianConcat(a, b);
    LittleEndianRange(a);
    assert LittleEndian(b) == c[31] as int by {
      assert b[1..] == [];
    }
    Power248(31);
    hide LittleEndian, Pow;
  }

  lemma ScalarRange(k: seq<u8>)
    requires |k| == 32
    ensures Rfc7748.DecodeScalar(k) < TWO255
  {
    TopByte(Rfc7748.Clamp(k));
  }

  lemma DecodeEncoded(u: nat)
    requires u < P
    ensures Rfc7748.DecodeU(ToLittleEndian(u, 32)) == u
  {
    Power248(31);
    assert Pow(256, 32) == 256 * Pow(256, 31);
    hide Pow;
    ToLittleEndianRoundTrip(u, 32);
    ModSmall(u, TWO255);
  }

  lemma NumberOfPoint(k: nat, n: nat, a: Affine)
    requires OnAffine(F25519, a) && k < TWO255 && n == 255
    ensures Rfc7748.X25519Number(k, UOf(F25519, a)) == UOf(F25519, Times(F25519, k, a))
  {
    hide *;
    Power255(n);
    NumberMultiplies(F25519, k, n, a);
    NumberAgrees(k, UOf(F25519, a));
  }

  /** X25519 multiplies, for every scalar and every point of the curve. */
  lemma X25519Multiplies(k: seq<u8>, a: Affine)
    requires |k| == 32 && OnAffine(F25519, a)
    ensures Rfc7748.X25519(k, Encoded(a)) == Encoded(Times(F25519, Rfc7748.DecodeScalar(k), a))
  {
    var (u, j) := (UOf(F25519, a), Rfc7748.DecodeScalar(k));
    hide UOf, Times, Rfc7748.X25519Number, Rfc7748.DecodeScalar, Rfc7748.DecodeU, ToLittleEndian, OnAffine;
    Components();
    UOfRange(F25519, a);
    TimesOn(F25519, j, a);
    UOfRange(F25519, Times(F25519, j, a));
    ScalarRange(k);
    DecodeEncoded(u);
    NumberOfPoint(j, 255, a);
  }

  lemma SecretIs(k: seq<u8>, l: seq<u8>, a: Affine)
    requires |k| == |l| == 32 && OnAffine(F25519, a)
    ensures Rfc7748.X25519(k, Rfc7748.X25519(l, Encoded(a))) ==
            Encoded(Times(F25519, Rfc7748.DecodeScalar(k), Times(F25519, Rfc7748.DecodeScalar(l), a)))
  {
    hide *;
    TimesOn(F25519, Rfc7748.DecodeScalar(l), a);
    X25519Multiplies(l, a);
    X25519Multiplies(k, Times(F25519, Rfc7748.DecodeScalar(l), a));
  }

  /** Two parties that exchange their multiples of any point agree. */
  lemma Agreement(k: seq<u8>, l: seq<u8>, a: Affine)
    requires |k| == |l| == 32 && OnAffine(F25519, a)
    ensures Rfc7748.X25519(k, Rfc7748.X25519(l, Encoded(a))) == Rfc7748.X25519(l, Rfc7748.X25519(k, Encoded(a)))
  {
    hide *;
    SecretIs(k, l, a);
    SecretIs(l, k, a);
    TimesCommute(F25519, Rfc7748.DecodeScalar(k), Rfc7748.DecodeScalar(l), a);
  }

  /* The base point 9 */

  lemma BaseFifths()
    ensures (5 * BASE.y) % P == 4
  {
    Edwards25519.BasePointOnCurve();
  }

  lemma NineFrom(F: Field, y: int)
    requires Same(F, 5 * y, 4)
    ensures Same(F, 9 * (1 - y), 1 + y)
  {
    hide *;
    Itself(F, 2);
    SameMul(F, 2, 2, 5 * y, 4);
    assert 2 * (5 * y) == 10 * y;
    Itself(F, 9 + y);
    SameSum(F, 9 + y, 9 + y, 10 * y, 8);
  }

  lemma NineTimes()
    ensures Same(F25519, 9 * (1 - BASE.y), 1 + BASE.y)
  {
    var y := BASE.y;
    Components();
    BaseFifths();
    ModSmall(4, P);
    hide Same;
    SameIs(F25519, 5 * y, 4);
    NineFrom(F25519, y);
  }

  lemma BaseU()
    ensures UOf(F25519, BASE) == 9
  {
    NineTimes();
    var y := BASE.y;
    assert 0 <= 9 < F25519.p by {
      Components();
    }
    hide Same, Zero, Quot, BASE;
    if Zero(F25519, 1 - y) {
      ZeroProduct(F25519, 9, 1 - y);
      ZeroSame(F25519, 9 * (1 - y), 1 + y);
      TwoFromHalves(F25519, y);
    }
    QuotUnique(F25519, 9, 1 + y, 1 - y);
  }

  lemma {:induction false} ZeroBytes(n: nat)
    ensures ToLittleEndian(0, n) == seq(n, _ => 0)
  {
    if n > 0 {
      ZeroBytes(n - 1);
    }
  }

  lemma BaseEncoded()
    ensures Encoded(BASE) == Scalarmult25519.BASE_U
  {
    BaseU();
    hide UOf;
    ZeroBytes(31);
    assert ToLittleEndian(9, 32) == [9] + ToLittleEndian(0, 31);
  }

  /** Key exchange from the base point: a public key encodes the multiple of the base point that
      the private key says, and two parties compute the same secret. */
  lemma KeyExchange(k: seq<u8>, l: seq<u8>)
    requires |k| == |l| == 32
    ensures Rfc7748.X25519(k, Scalarmult25519.BASE_U) == Encoded(Times(F25519, Rfc7748.DecodeScalar(k), BASE))
    ensures Rfc7748.X25519(k, Rfc7748.X25519(l, Scalarmult25519.BASE_U)) ==
            Rfc7748.X25519(l, Rfc7748.X25519(k, Scalarmult25519.BASE_U))
  {
    hide *;
    BaseOn();
    BaseEncoded();
    X25519Multiplies(k, BASE);
    Agreement(k, l, BASE);
  }
}
