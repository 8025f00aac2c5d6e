/** What the definitions about Curve25519 say in plain integers: the clamped scalar and the decoded
    u-coordinate, the base point, the curve and its law, and the formulas of both ladders. */
module Curve25519Facts {
  import opened Arith
  import opened Bytes
  import opened Prime25519
  import opened PrimeField
  import opened EdwardsFormulas
  import opened EdwardsComplete
  import opened EdwardsAssociative
  import opened EdwardsGroup
  import opened MontgomeryLadder
  import opened CurvePoints
  import opened Curve25519
  import Edwards25519
  import Rfc7748

  /* The scalar */

  lemma OneByte(b: u8)
    ensures LittleEndian([b]) == b as int
  {
    assert [b][1..] == [];
  }

  /** A number by its lowest and its highest byte. */
  lemma Ends(k: seq<u8>, n: nat)
    requires |k| == n + 2
    ensures LittleEndian(k) == k[0] as int + 256 * LittleEndian(k[1..n + 1]) + Pow(256, n + 1) * k[n + 1] as int
    ensures 256 * LittleEndian(k[1..n + 1]) + 256 <= Pow(256, n + 1)
  {
    var m := k[1..n + 1];
    LittleEndianRange(m);
    assert [k[0]] + m == k[..n + 1] && k[..n + 1][1..] == m;
    assert k == k[..n + 1] + [k[n + 1]];
    LittleEndianConcat(k[..n + 1], [k[n + 1]]);
    OneByte(k[n + 1]);
  }

  lemma TopSplits(g: int, top: int)
    requires g > 0 && 0 <= top < 256
    ensures g * top == (top / 64) * (64 * g) + g * (top % 64)
    ensures 0 <= g * (top % 64) <= 63 * g
  {
    assert top == 64 * (top / 64) + top % 64;
    assert g * top == g * (64 * (top / 64)) + g * (top % 64);
    MulMono(top % 64, 63, g);
    MulMono(0, top % 64, g);
  }

  /** Clearing the three lowest bits and the highest, and setting the second highest. */
  lemma ClampedNumber(low: int, m: int, top: int, g: int, n: int)
    requires 0 <= low < 256 && 0 <= m && 32 * m + 32 <= g && 0 <= top < 256
    requires n == low + 256 * m + 8 * (g * top)
    ensures low - low % 8 + 256 * m + 8 * g * (top % 64 + 64) == 64 * (8 * g) + 8 * (n / 8 % (64 * g))
  {
    var q := low / 8 + 32 * m;
    TopSplits(g, top);
    DivModUnique(n, 8, q + g * top, low % 8);
    DivModUnique(q + g * top, 64 * g, top / 64, q + g * (top % 64));
    assert 8 * g * (top % 64 + 64) == 8 * (g * (top % 64)) + 64 * (8 * g);
  }

  lemma ClampedBytes(k: seq<u8>, n: nat)
    requires |k| == 32 && n == 30
    ensures Rfc7748.DecodeScalar(k) == k[0] as int - k[0] as int % 8 + 256 * LittleEndian(k[1..n + 1])
      + Pow(256, n + 1) * (k[31] as int % 64 + 64)
  {
    var c := Rfc7748.Clamp(k);
    Ends(c, n);
    assert c[1..n + 1] == k[1..n + 1];
    hide LittleEndian, Pow;
  }

  lemma ScalarFrom(k: seq<u8>, n: nat, g: int)
    requires |k| == 32 && n == 30 && g > 0 && Pow(256, n + 1) == 8 * g
    ensures Rfc7748.DecodeScalar(k) == 64 * (8 * g) + 8 * (LittleEndian(k) / 8 % (64 * g))
  {
    hide LittleEndian, Pow, Rfc7748.DecodeScalar;
    Ends(k, n);
    ClampedBytes(k, n);
    MulAssoc(8, g, k[31] as int);
    ClampedNumber(k[0] as int, LittleEndian(k[1..n + 1]), k[31] as int, g, LittleEndian(k));
  }

  lemma Eighth(e: nat) returns (g: int)
    requires e == 31
    ensures Pow(256, e) == 8 * g
    ensures g == 0x20000000000000_0000000000000000_0000000000000000_0000000000000000
  {
    hide Pow;
    Power248(e);
    g := 0x20000000000000_0000000000000000_0000000000000000_0000000000000000;
  }

  /** The scalar is 2^254 plus eight times the number that the 251 bits above the lowest three
      form: it is a multiple of 8, and the highest bit does not count. */
  lemma ScalarIs(k: seq<u8>)
    requires |k| == 32
    ensures Rfc7748.DecodeScalar(k) ==
      0x4000000000000000_0000000000000000_0000000000000000_0000000000000000 +
      8 * (LittleEndian(k) / 8 % 0x0800000000000000_0000000000000000_0000000000000000_0000000000000000)
  {
    hide LittleEndian, Pow, Rfc7748.DecodeScalar;
    var g := Eighth(31);
    ScalarFrom(k, 30, g);
  }

  lemma ScalarIsMultiple(k: seq<u8>) returns (m: nat)
    requires |k| == 32
    ensures Rfc7748.DecodeScalar(k) == 8 * m
  {
    hide LittleEndian, Rfc7748.DecodeScalar;
    ScalarIs(k);
    m := Rfc7748.DecodeScalar(k) / 8;
  }

  lemma OriginEncoded()
    ensures Encoded(ORIGIN) == seq(32, _ => 0)
  {
    hide UOf, ToLittleEndian;
    UOfOrigin(F25519);
    ZeroBytes(32);
  }

  /** What the multiple of 8 is for: from a point that eight times is neutral every scalar gives
      32 zero bytes. */
  lemma CofactorCleared(k: seq<u8>, a: Affine)
    requires |k| == 32 && OnAffine(F25519, a) && Times(F25519, 8, a) == ORIGIN
    ensures Rfc7748.X25519(k, Encoded(a)) == seq(32, _ => 0)
  {
    hide *;
    var m := ScalarIsMultiple(k);
    Killed(F25519, 8, m, a);
    X25519Multiplies(k, a);
    OriginEncoded();
  }

  /* The u-coordinate */

  /** The highest bit of a u-coordinate does not count, and neither does a multiple of P. */
  lemma UCoordinateIs(k: seq<u8>, u: seq<u8>, v: seq<u8>)
    requires |k| == |u| == |v| == 32
    requires LittleEndian(u) % 0x8000000000000000_0000000000000000_0000000000000000_0000000000000000 % P ==
             LittleEndian(v) % 0x8000000000000000_0000000000000000_0000000000000000_0000000000000000 % P
    ensures Rfc7748.X25519(k, u) == Rfc7748.X25519(k, v)
  {
    hide LittleEndian, Rfc7748.DecodeScalar, Rfc7748.Ladder, ToLittleEndian;
    assert Rfc7748.X25519Number(Rfc7748.DecodeScalar(k), Rfc7748.DecodeU(u)) ==
           Rfc7748.X25519Number(Rfc7748.DecodeScalar(k), Rfc7748.DecodeU(v));
  }

  /** The numbers P and 2^255. */
  lemma ModulusIs(e: nat)
    requires e == 255
    ensures P == Pow(2, e) - 19
    ensures 0x8000000000000000_0000000000000000_0000000000000000_0000000000000000 == Pow(2, e)
  {
    hide Pow;
    Power255(e);
  }

  /* The base point */

  lemma FifthNotZero()
    ensures !Zero(F25519, 5)
  {
    Components();
    hide Zero, Same;
    ModSmall(5, P);
    ModSmall(0, P);
    SameIs(F25519, 5, 0);
    Unfold(F25519, 5);
  }

  lemma YOfBase(y: int)
    requires 0 <= y < P && (5 * y) % P == 4
    ensures y == BASE.y
  {
    Components();
    BaseFifths();
    BaseRange();
    FifthNotZero();
    hide Zero, Same, BASE;
    SameIs(F25519, y * 5, BASE.y * 5);
    CancelFactor(F25519, y, BASE.y, 5);
    SameResidues(F25519, y, BASE.y);
  }

  lemma BaseEven()
    ensures BASE.x % 2 == 0 && P % 2 == 1
  {
  }

  /** The base point is the one curve point with y = 4/5 whose x is even. */
  lemma BaseIs(a: Affine)
    ensures a == BASE <==> OnAffine(F25519, a) && (5 * a.y) % P == 4 && a.x % 2 == 0
  {
    Components();
    BaseOn();
    BaseFifths();
    BaseEven();
    assert OnAffine(F25519, a) ==> 0 <= a.y < F25519.p;
    hide OnAffine, BASE;
    if OnAffine(F25519, a) && (5 * a.y) % P == 4 && a.x % 2 == 0 {
      YOfBase(a.y);
      SameParity(F25519, a, BASE);
    }
  }

  /* The curve and its law */

  /** Congruent in the field is congruent modulo P. */
  lemma CongruentIs(a: int, b: int)
    ensures Same(F25519, a, b) <==> (a - b) % P == 0
  {
    Components();
    hide Same, Zero;
    DifferenceZero(F25519, a, b);
    Unfold(F25519, a - b);
    SameIs(F25519, a - b, 0);
    ModSmall(0, P);
  }

  /** The points are the pairs of residues with -x^2 + y^2 = 1 + d x^2 y^2. */
  lemma OnCurveIs(a: Affine)
    ensures F25519.p == P && F25519.d == Edwards25519.D
    ensures OnAffine(F25519, a) <==>
      && 0 <= a.x < F25519.p && 0 <= a.y < F25519.p
      && (a.y * a.y - a.x * a.x - (1 + F25519.d * ((a.x * a.y) * (a.x * a.y)))) % F25519.p == 0
  {
    Components();
    hide Same;
    CongruentIs(a.y * a.y - a.x * a.x, 1 + F25519.d * ((a.x * a.y) * (a.x * a.y)));
  }

  /** The sum of two points by the fractions of section 5.1.4 of RFC 8032, whose denominators are
      never 0. */
  lemma SumOfPointsIs(a: Affine, b: Affine)
    requires OnAffine(F25519, a) && OnAffine(F25519, b)
    ensures var (r, k) := (AffineAdd(F25519, a, b), F25519.d * ((a.x * a.y) * (b.x * b.y)));
      && 0 <= r.x < F25519.p && 0 <= r.y < F25519.p
      && !Same(F25519, 1 + k, 0) && !Same(F25519, 1 - k, 0)
      && Same(F25519, r.x * (1 + k), a.x * b.y + b.x * a.y)
      && Same(F25519, r.y * (1 - k), a.y * b.y + a.x * b.x)
  {
    hide *;
    var k := F25519.d * ((a.x * a.y) * (b.x * b.y));
    AffineDenominators(F25519, a, b);
    SumIs(F25519, a, b);
    QuotTimes(F25519, a.x * b.y + b.x * a.y, 1 + k);
    QuotTimes(F25519, a.y * b.y + a.x * b.x, 1 - k);
    Unfold(F25519, 1 + k);
    Unfold(F25519, 1 - k);
  }

  /** Multiples count how often the point is added to (0, 1). */
  lemma MultiplesAre(n: nat, a: Affine)
    requires OnAffine(F25519, a)
    ensures Times(F25519, 0, a) == Affine(0, 1)
    ensures Times(F25519, n + 1, a) == AffineAdd(F25519, Times(F25519, n, a), a)
  {
    hide OnAffine, AffineAdd, Times;
    TimesNext(F25519, n, a);
  }

  lemma NumberEncoded(u: nat)
    requires u < P
    ensures LittleEndian(ToLittleEndian(u, 32)) == u
  {
    Power248(31);
    assert Pow(256, 32) == 256 * Pow(256, 31);
    hide Pow, LittleEndian, ToLittleEndian;
    ToLittleEndianRoundTrip(u, 32);
  }

  lemma PoleIs(y: int)
    requires 0 <= y < P
    ensures Zero(F25519, 1 - y) <==> y == 1
  {
    hide Zero, Same;
    Components();
    DifferenceZero(F25519, 1, y);
    Itself(F25519, 1);
    if Same(F25519, 1, y) {
      SameResidues(F25519, 1, y);
    }
  }

  /** The encoding of a point is u = (1 + y) / (1 - y), and 0 for y = 1, as 32 bytes. */
  lemma EncodedIs(a: Affine)
    requires OnAffine(F25519, a)
    ensures var u := LittleEndian(Encoded(a));
      && |Encoded(a)| == 32 && u < F25519.p && (a.y == 1 ==> u == 0)
      && (a.y != 1 ==> (u * (1 - a.y) - (1 + a.y)) % F25519.p == 0)
  {
    Components();
    assert 0 <= a.y < F25519.p;
    UOfRange(F25519, a);
    var u := UOf(F25519, a);
    NumberEncoded(u);
    PoleIs(a.y);
    hide UOf, Same, Zero, LittleEndian, ToLittleEndian;
    CongruentIs(u * (1 - a.y), 1 + a.y);
  }

  /* The formulas */

  lemma SumRange(F: Field, p: Coords, q: Coords)
    ensures var s := Sum(F, p, q);
      0 <= s.x < F.p && 0 <= s.y < F.p && 0 <= s.z < F.p && 0 <= s.t < F.p
  {
    hide FAdd, FSub;
  }

  lemma PartsAre(p: Coords, q: Coords, d: int)
    ensures var (e, h) := (p.x * q.y + p.y * q.x, p.x * q.x + p.y * q.y);
      var (f, g) := (p.z * q.z - d * (p.t * q.t), p.z * q.z + d * (p.t * q.t));
      && Mixed(p, q, d) == e * f && Straight(p, q, d) == h * g
      && Heights(p, q, d) == f * g && Widths(p, q) == e * h
  {
  }

  /** The point addition computes the residues of these polynomials. */
  lemma PointAddIs(p: Coords, q: Coords)
    ensures var (s, d) := (Edwards25519.PointAdd(p, q), F25519.d);
      var (e, h) := (p.x * q.y + p.y * q.x, p.x * q.x + p.y * q.y);
      var (f, g) := (p.z * q.z - d * (p.t * q.t), p.z * q.z + d * (p.t * q.t));
      && 0 <= s.x < F25519.p && 0 <= s.y < F25519.p && 0 <= s.z < F25519.p && 0 <= s.t < F25519.p
      && Same(F25519, s.x, 4 * (e * f)) && Same(F25519, s.y, 4 * (h * g))
      && Same(F25519, s.z, 4 * (f * g)) && Same(F25519, s.t, 4 * (e * h))
  {
    hide *;
    FormulasAgree(p, q);
    SumRange(F25519, p, q);
    SumParts(F25519, p, q);
    PartsAre(p, q, F25519.d);
  }

  lemma StepRange(F: Field, x1: int, s: Rfc7748.State)
    ensures var r := Differential(F, x1, s);
      0 <= r.x2 < F.p && 0 <= r.z2 < F.p && 0 <= r.x3 < F.p && 0 <= r.z3 < F.p
  {
    hide FAdd, FSub;
  }

  lemma SquareSame(F: Field, a: int, b: int)
    requires Same(F, a, b)
    ensures Same(F, FSq(F, a), b * b)
  {
    hide Same, FMul;
    SameMul(F, a, b, a, b);
  }

  lemma LadderParts(F: Field, x1: int, s: Rfc7748.State)
    ensures var r := Differential(F, x1, s);
      var (a, b, c, d) := (s.x2 + s.z2, s.x2 - s.z2, s.x3 + s.z3, s.x3 - s.z3);
      && Same(F, r.x2, (a * a) * (b * b)) && Same(F, r.z2, (a * a - b * b) * (a * a + F.a24 * (a * a - b * b)))
      && Same(F, r.x3, (d * a + c * b) * (d * a + c * b))
      && Same(F, r.z3, x1 * ((d * a - c * b) * (d * a - c * b)))
  {
    var (a, b, c, d) := (s.x2 + s.z2, s.x2 - s.z2, s.x3 + s.z3, s.x3 - s.z3);
    var (fa, fb, fc, fd) := (FAdd(F, s.x2, s.z2), FSub(F, s.x2, s.z2), FAdd(F, s.x3, s.z3), FSub(F, s.x3, s.z3));
    var (aa, bb, da, cb) := (FSq(F, fa), FSq(F, fb), FMul(F, fd, fa), FMul(F, fc, fb));
    var e := FSub(F, aa, bb);
    hide Same, FMul, FAdd, FSub, FSq;
    Itself(F, s.x2);
    Itself(F, s.z2);
    Itself(F, s.x3);
    Itself(F, s.z3);
    Itself(F, x1);
    Itself(F, F.a24);
    SameSum(F, s.x2, s.x2, s.z2, s.z2);
    SameSum(F, s.x3, s.x3, s.z3, s.z3);
    SquareSame(F, fa, a);
    SquareSame(F, fb, b);
    SameMul(F, aa, a * a, bb, b * b);
    SameSum(F, aa, a * a, bb, b * b);
    SameMul(F, F.a24, F.a24, e, a * a - b * b);
    SameSum(F, aa, a * a, FMul(F, F.a24, e), F.a24 * (a * a - b * b));
    SameMul(F, e, a * a - b * b, FAdd(F, aa, FMul(F, F.a24, e)), a * a + F.a24 * (a * a - b * b));
    SameMul(F, fd, d, fa, a);
    SameMul(F, fc, c, fb, b);
    SameSum(F, da, d * a, cb, c * b);
    SquareSame(F, FAdd(F, da, cb), d * a + c * b);
    SquareSame(F, FSub(F, da, cb), d * a - c * b);
    SameMul(F, x1, x1, FSq(F, FSub(F, da, cb)), (d * a - c * b) * (d * a - c * b));
  }

  lemma SwapKept(x1: int, s: Rfc7748.State)
    ensures Rfc7748.Formulas(x1, s).swap == s.swap
  {
    hide Add, Sub, Mul, Sq;
  }

  lemma StepOfLadder(x1: int, s: Rfc7748.State)
    ensures Rfc7748.Formulas(x1, s) == Differential(F25519, x1, s)
  {
    hide Rfc7748.Formulas, Differential, Mul, Add, Sub, FMul, FAdd, FSub;
    OperationsAgree();
    Components();
    DifferentialAgrees(F25519, x1, s);
  }

  /** The step of the Montgomery ladder computes the residues of these polynomials, whatever the
      four numbers stand for. */
  lemma LadderStepIs(x1: int, s: Rfc7748.State)
    ensures F25519.a24 == 121665
    ensures var (r, k) := (Rfc7748.Formulas(x1, s), F25519.a24);
      var (a, b, c, d) := (s.x2 + s.z2, s.x2 - s.z2, s.x3 + s.z3, s.x3 - s.z3);
      && 0 <= r.x2 < F25519.p && 0 <= r.z2 < F25519.p && 0 <= r.x3 < F25519.p && 0 <= r.z3 < F25519.p
      && r.swap == s.swap
      && Same(F25519, r.x2, (a * a) * (b * b))
      && Same(F25519, r.z2, (a * a - b * b) * (a * a + k * (a * a - b * b)))
      && Same(F25519, r.x3, (d * a + c * b) * (d * a + c * b))
      && Same(F25519, r.z3, x1 * ((d * a - c * b) * (d * a - c * b)))
  {
    assert F25519.a24 == 121665 by {
      Components();
    }
    SwapKept(x1, s);
    hide *;
    StepOfLadder(x1, s);
    StepRange(F25519, x1, s);
    LadderParts(F25519, x1, s);
  }
}
