/** The points of the curve in affine coordinates are a group under the addition law of section
    5.1.4 of RFC 8032, and scalarmult computes the multiples of its elements. */
module EdwardsGroup {
  import opened Arith
  import opened PrimeField
  import opened DoubleAndAdd
  import opened EdwardsFormulas
  import opened EdwardsLaw
  import opened EdwardsCurve
  import opened EdwardsComplete
  import opened EdwardsAssociative

  /* Quotients */

  lemma MulSame(F: Twisted, a: int, b: int)
    ensures 0 <= FMul(F, a, b) < F.p && Same(F, FMul(F, a, b), a * b)
  {
    OnResidue(F, a * b);
  }

  /** x is a / b, if that exists. */
  ghost predicate IsQuot(F: Twisted, x: int, a: int, b: int) {
    0 <= x < F.p && (!Zero(F, b) ==> Same(F, x * b, a))
  }

  lemma FermatQuot(F: Twisted, a: int, b: int, i: int)
    requires !Zero(F, b) && i == FPower(F, b, F.p - 2)
    ensures 0 <= FMul(F, a, i) < F.p && Same(F, FMul(F, a, i) * b, a)
  {
    hide *;
    FermatInverse(F, b);
    MulSame(F, a, i);
    Itself(F, b);
    Itself(F, a);
    SameMul(F, FMul(F, a, i), a * i, b, b);
    SameMul(F, a, a, b * i, 1);
    assert (a * i) * b == a * (b * i) by {
      MulAssoc(a, i, b);
      Swap(i, b);
    }
    Transitive(F, FMul(F, a, i) * b, a * (b * i), a);
  }

  lemma QuotExists(F: Twisted, a: int, b: int)
    ensures exists x :: IsQuot(F, x, a, b)
  {
    if Zero(F, b) {
      assert IsQuot(F, 0, a, b);
    } else {
      var i := FPower(F, b, F.p - 2);
      FermatQuot(F, a, b, i);
      assert IsQuot(F, FMul(F, a, i), a, b);
    }
  }

  /** The quotient in the field. */
  ghost function Quot(F: Twisted, a: int, b: int): int {
    QuotExists(F, a, b);
    var x :| IsQuot(F, x, a, b);
    x
  }

  lemma QuotTimes(F: Twisted, a: int, b: int)
    requires !Zero(F, b)
    ensures 0 <= Quot(F, a, b) < F.p && Same(F, Quot(F, a, b) * b, a)
  {
  }

  lemma QuotUnique(F: Twisted, x: int, a: int, b: int)
    requires 0 <= x < F.p && !Zero(F, b) && Same(F, x * b, a)
    ensures x == Quot(F, a, b)
  {
    QuotTimes(F, a, b);
    hide Same, Quot;
    SameAs(F, x * b, Quot(F, a, b) * b, a);
    CancelFactor(F, x, Quot(F, a, b), b);
    SameResidues(F, x, Quot(F, a, b));
  }

  /** Equal ratios. */
  lemma QuotSame(F: Twisted, a: int, b: int, a': int, b': int)
    requires !Zero(F, b) && !Zero(F, b') && Same(F, a * b', a' * b)
    ensures Quot(F, a, b) == Quot(F, a', b')
  {
    hide *;
    var x := Quot(F, a, b);
    QuotTimes(F, a, b);
    Itself(F, b');
    SameMul(F, x * b, a, b', b');
    Transitive(F, (x * b) * b', a * b', a' * b);
    assert (x * b) * b' == (x * b') * b by {
      Outside(x, b, b');
      Swap(b, x * b');
    }
    CancelFactor(F, x * b', a', b);
    QuotUnique(F, x, a', b');
  }

  /* Affine points */

  datatype Affine = Affine(x: int, y: int)

  /** x = X/Z and y = Y/Z. */
  ghost function ToAffine(F: Twisted, p: Coords): Affine {
    Affine(Quot(F, p.x, p.z), Quot(F, p.y, p.z))
  }

  /** -x^2 + y^2 = 1 + d x^2 y^2, for residues x and y. */
  ghost predicate OnAffine(F: Twisted, a: Affine) {
    && 0 <= a.x < F.p && 0 <= a.y < F.p
    && Same(F, a.y * a.y - a.x * a.x, 1 + F.d * ((a.x * a.y) * (a.x * a.y)))
  }

  /** The addition law of the curve, as section 5.1.4 of RFC 8032 states it. */
  ghost function AffineAdd(F: Twisted, a: Affine, b: Affine): Affine {
    var k := F.d * ((a.x * a.y) * (b.x * b.y));
    Affine(Quot(F, a.x * b.y + b.x * a.y, 1 + k), Quot(F, a.y * b.y + a.x * b.x, 1 - k))
  }

  ghost function Embed(F: Twisted, a: Affine): Coords {
    Coords(a.x, a.y, 1, FMul(F, a.x, a.y))
  }

  lemma EmbedGenuine(F: Twisted, a: Affine)
    requires OnAffine(F, a)
    ensures Genuine(F, Embed(F, a)) && ToAffine(F, Embed(F, a)) == a
  {
    var (x, y, t) := (a.x, a.y, FMul(F, a.x, a.y));
    OnResidue(F, x * y);
    assert Same(F, t, x * y);
    Symmetric(F, t, x * y);
    ConstantsNotZero(F);
    hide Same, FMul, Zero, Quot;
    Itself(F, 1);
    Itself(F, F.d);
    Itself(F, x);
    Itself(F, y);
    SameMul(F, t, x * y, t, x * y);
    SameMul(F, F.d, F.d, t * t, (x * y) * (x * y));
    SameSum(F, 1, 1, F.d * (t * t), F.d * ((x * y) * (x * y)));
    SameAs(F, y * y - x * x, 1 + F.d * (t * t), 1 + F.d * ((x * y) * (x * y)));
    QuotUnique(F, x, x, 1);
    QuotUnique(F, y, y, 1);
  }

  /** What the coordinates are in terms of the affine ones. */
  lemma AffineTimes(F: Twisted, p: Coords)
    requires Genuine(F, p)
    ensures var a := ToAffine(F, p);
      && 0 <= a.x < F.p && 0 <= a.y < F.p
      && Same(F, a.x * p.z, p.x) && Same(F, a.y * p.z, p.y) && Same(F, (a.x * a.y) * p.z, p.t)
  {
    QuotTimes(F, p.x, p.z);
    QuotTimes(F, p.y, p.z);
    var a := ToAffine(F, p);
    hide Same, Zero, Quot;
    var z := p.z;
    SameMul(F, a.x * z, p.x, a.y * z, p.y);
    Interchange(a.x, z, a.y, z);
    Transitive(F, (a.x * a.y) * (z * z), p.x * p.y, z * p.t);
    assert (a.x * a.y) * (z * z) == ((a.x * a.y) * z) * z && z * p.t == p.t * z by {
      MulAssoc(a.x * a.y, z, z);
      Swap(z, p.t);
    }
    CancelFactor(F, (a.x * a.y) * z, p.t, z);
  }

  lemma SquareScaled(F: Twisted, x: int, z: int, u: int)
    requires Same(F, x * z, u)
    ensures Same(F, (x * x) * (z * z), u * u)
  {
    hide *;
    SameMul(F, x * z, u, x * z, u);
    Interchange(x, z, x, z);
  }

  lemma Scaled(F: Twisted, xx: int, yy: int, kk: int, zz: int)
    ensures yy * zz - xx * zz == (yy - xx) * zz && zz + F.d * (kk * zz) == (1 + F.d * kk) * zz
  {
    assert F.d * (kk * zz) == (F.d * kk) * zz;
  }

  /** The curve equation, divided by the square of Z. */
  lemma AffineEquation(F: Twisted, x: int, y: int, k: int, z: int, u: int, v: int, t: int)
    requires Same(F, x * z, u) && Same(F, y * z, v) && Same(F, k * z, t) && !Zero(F, z)
    requires Same(F, v * v - u * u, z * z + F.d * (t * t))
    ensures Same(F, y * y - x * x, 1 + F.d * (k * k))
  {
    var (xx, yy, kk, zz) := (x * x, y * y, k * k, z * z);
    hide *;
    SquareScaled(F, x, z, u);
    SquareScaled(F, y, z, v);
    SquareScaled(F, k, z, t);
    Itself(F, F.d);
    Itself(F, zz);
    SameMul(F, F.d, F.d, kk * zz, t * t);
    SameSum(F, yy * zz, v * v, xx * zz, u * u);
    SameSum(F, zz, zz, F.d * (kk * zz), F.d * (t * t));
    Transitive(F, yy * zz - xx * zz, v * v - u * u, zz + F.d * (t * t));
    SameAs(F, yy * zz - xx * zz, zz + F.d * (kk * zz), zz + F.d * (t * t));
    Scaled(F, xx, yy, kk, zz);
    ZeroProduct(F, z, z);
    CancelFactor(F, yy - xx, 1 + F.d * kk, zz);
  }

  lemma AffineIs(F: Twisted, a: Affine)
    requires 0 <= a.x < F.p && 0 <= a.y < F.p
    requires Same(F, a.y * a.y - a.x * a.x, 1 + F.d * ((a.x * a.y) * (a.x * a.y)))
    ensures OnAffine(F, a)
  {
  }

  lemma ToAffineOn(F: Twisted, p: Coords)
    requires Genuine(F, p)
    ensures OnAffine(F, ToAffine(F, p))
  {
    AffineTimes(F, p);
    var a := ToAffine(F, p);
    assert Same(F, p.y * p.y - p.x * p.x, p.z * p.z + F.d * (p.t * p.t)) && !Zero(F, p.z);
    hide *;
    AffineEquation(F, a.x, a.y, a.x * a.y, p.z, p.x, p.y, p.t);
    AffineIs(F, a);
  }

  /* The sum in affine coordinates */

  /** From s (zz + w) = r (n zz), where w = k zz: the quotient s / r is n / (1 + k). */
  lemma QuotOfSum(F: Twisted, s: int, r: int, n: int, k: int, zz: int, den: int)
    requires !Zero(F, r) && !Zero(F, zz) && !Zero(F, den) && Same(F, den, (1 + k) * zz)
    requires Same(F, s * den, r * (n * zz))
    ensures !Zero(F, 1 + k) && Quot(F, s, r) == Quot(F, n, 1 + k)
  {
    hide *;
    ZeroProduct(F, 1 + k, zz);
    ZeroSame(F, den, (1 + k) * zz);
    Itself(F, s);
    SameMul(F, s, s, den, (1 + k) * zz);
    Symmetric(F, s * den, s * ((1 + k) * zz));
    Transitive(F, s * ((1 + k) * zz), s * den, r * (n * zz));
    MulAssoc(s, 1 + k, zz);
    MulAssoc(r, n, zz);
    CancelFactor(F, s * (1 + k), r * n, zz);
    Swap(r, n);
    QuotSame(F, s, r, n, 1 + k);
  }

  /** Sums of products of coordinates, in terms of affine coordinates. */
  lemma ScaledPair(F: Twisted, a: int, b: int, c: int, d: int, z: int, w: int, u: int, v: int, u': int, v': int)
    requires Same(F, a * z, u) && Same(F, b * w, v) && Same(F, c * w, u') && Same(F, d * z, v')
    ensures Same(F, (a * b + c * d) * (z * w), u * v + u' * v')
  {
    hide *;
    SameMul(F, a * z, u, b * w, v);
    SameMul(F, c * w, u', d * z, v');
    SameSum(F, (a * z) * (b * w), u * v, (c * w) * (d * z), u' * v');
    Interchange(a, z, b, w);
    Interchange(c, w, d, z);
    Swap(w, z);
    Swap(z * w, a * b + c * d);
    Distribute(z * w, a * b, c * d);
    Swap(z * w, a * b);
    Swap(z * w, c * d);
  }

  lemma ScaledProducts(F: Twisted, a: Affine, b: Affine, p: Coords, q: Coords)
    requires Same(F, a.x * p.z, p.x) && Same(F, a.y * p.z, p.y) && Same(F, b.x * q.z, q.x) && Same(F, b.y * q.z, q.y)
    ensures Same(F, F.d * ((p.x * p.y) * (q.x * q.y)),
                 (F.d * ((a.x * a.y) * (b.x * b.y))) * ((p.z * q.z) * (p.z * q.z)))
  {
    var (z, w, m, n) := (p.z, q.z, a.x * a.y, b.x * b.y);
    hide *;
    SameMul(F, a.x * z, p.x, a.y * z, p.y);
    Interchange(a.x, z, a.y, z);
    SameMul(F, b.x * w, q.x, b.y * w, q.y);
    Interchange(b.x, w, b.y, w);
    SameMul(F, m * (z * z), p.x * p.y, n * (w * w), q.x * q.y);
    Interchange(m, z * z, n, w * w);
    Interchange(z, z, w, w);
    Itself(F, F.d);
    SameMul(F, F.d, F.d, (m * n) * ((z * w) * (z * w)), (p.x * p.y) * (q.x * q.y));
    MulAssoc(F.d, m * n, (z * w) * (z * w));
    Symmetric(F, (F.d * (m * n)) * ((z * w) * (z * w)), F.d * ((p.x * p.y) * (q.x * q.y)));
  }

  lemma ScaledDenominators(F: Twisted, w: int, k: int, zz: int)
    requires Same(F, w, k * zz)
    ensures Same(F, zz + w, (1 + k) * zz) && Same(F, zz - w, (1 + -k) * zz)
  {
    hide *;
    Itself(F, zz);
    SameSum(F, zz, zz, w, k * zz);
    Distribute(zz, 1, k);
    Distribute(zz, 1, -k);
    assert zz * k == k * zz && zz * -k == -(k * zz);
    Swap(zz, 1 + k);
    Swap(zz, 1 + -k);
  }

  lemma ScaledNumerator(F: Twisted, r: int, n: int, m: int, z: int)
    requires Same(F, n * z, m)
    ensures Same(F, r * (m * z), r * (n * (z * z)))
  {
    hide *;
    Itself(F, r);
    Itself(F, z);
    Symmetric(F, n * z, m);
    SameMul(F, m, n * z, z, z);
    SameMul(F, r, r, m * z, (n * z) * z);
    MulAssoc(n, z, z);
  }

  /** Each coordinate of the sum: s / r is n / (1 + k). */
  lemma SumCoordinate(F: Twisted, s: int, r: int, n: int, m: int, k: int, z: int, den: int)
    requires !Zero(F, r) && !Zero(F, z) && !Zero(F, den) && Same(F, den, (1 + k) * (z * z)) && Same(F, n * z, m)
    requires Same(F, s * den, r * (m * z))
    ensures !Zero(F, 1 + k) && Quot(F, s, r) == Quot(F, n, 1 + k)
  {
    hide *;
    ScaledNumerator(F, r, n, m, z);
    Transitive(F, s * den, r * (m * z), r * (n * (z * z)));
    ZeroProduct(F, z, z);
    QuotOfSum(F, s, r, n, k, z * z, den);
  }

  lemma SumX(F: Twisted, p: Coords, q: Coords, a: Affine, b: Affine, k: int)
    requires Genuine(F, p) && Genuine(F, q) && a == ToAffine(F, p) && b == ToAffine(F, q)
    requires k == F.d * ((a.x * a.y) * (b.x * b.y))
    ensures !Zero(F, 1 + k) && Quot(F, Sum(F, p, q).x, Sum(F, p, q).z) == Quot(F, a.x * b.y + b.x * a.y, 1 + k)
  {
    var (z, s, w) := (p.z * q.z, Sum(F, p, q), F.d * ((p.x * p.y) * (q.x * q.y)));
    assert !Zero(F, p.z) && !Zero(F, q.z);
    hide *;
    AffineTimes(F, p);
    AffineTimes(F, q);
    CompleteLaw(F, p, q);
    ZeroProduct(F, p.z, q.z);
    ScaledProducts(F, a, b, p, q);
    ScaledDenominators(F, w, k, z * z);
    ScaledPair(F, a.x, b.y, b.x, a.y, p.z, q.z, p.x, q.y, q.x, p.y);
    SumCoordinate(F, s.x, s.z, a.x * b.y + b.x * a.y, p.x * q.y + q.x * p.y, k, z, z * z + w);
  }

  lemma SumY(F: Twisted, p: Coords, q: Coords, a: Affine, b: Affine, k: int)
    requires Genuine(F, p) && Genuine(F, q) && a == ToAffine(F, p) && b == ToAffine(F, q)
    requires k == F.d * ((a.x * a.y) * (b.x * b.y))
    ensures !Zero(F, 1 - k) && Quot(F, Sum(F, p, q).y, Sum(F, p, q).z) == Quot(F, a.y * b.y + a.x * b.x, 1 - k)
  {
    var (z, s, w) := (p.z * q.z, Sum(F, p, q), F.d * ((p.x * p.y) * (q.x * q.y)));
    assert !Zero(F, p.z) && !Zero(F, q.z);
    hide *;
    AffineTimes(F, p);
    AffineTimes(F, q);
    CompleteLaw(F, p, q);
    ZeroProduct(F, p.z, q.z);
    ScaledProducts(F, a, b, p, q);
    ScaledDenominators(F, w, k, z * z);
    Swap(a.x, b.x);
    Swap(p.x, q.x);
    ScaledPair(F, a.y, b.y, b.x, a.x, p.z, q.z, p.y, q.y, q.x, p.x);
    SumCoordinate(F, s.y, s.z, a.y * b.y + b.x * a.x, p.y * q.y + q.x * p.x, -k, z, z * z - w);
    assert 1 + -k == 1 - k;
  }

  /** Adding in extended coordinates is the affine addition law, and the quotients of the law
      exist. */
  lemma SumIsAffineSum(F: Twisted, p: Coords, q: Coords)
    requires Genuine(F, p) && Genuine(F, q)
    ensures var (a, b) := (ToAffine(F, p), ToAffine(F, q));
      var k := F.d * ((a.x * a.y) * (b.x * b.y));
      !Zero(F, 1 + k) && !Zero(F, 1 - k) && ToAffine(F, Sum(F, p, q)) == AffineAdd(F, a, b)
  {
    var (a, b) := (ToAffine(F, p), ToAffine(F, q));
    var k := F.d * ((a.x * a.y) * (b.x * b.y));
    hide Genuine, Zero, Quot, Sum;
    SumX(F, p, q, a, b, k);
    SumY(F, p, q, a, b, k);
  }

  /* Associativity */

  /** The middle point with its first two coordinates exchanged. */
  function Exchanged(q: Coords): Coords {
    Coords(q.y, q.x, q.z, q.t)
  }

  lemma FourTimes(a: int, b: int)
    ensures (2 * a) * (2 * b) == 4 * (a * b)
  {
  }

  /** A coordinate of the sum is four times the product of two of the four factors. */
  lemma SumParts(F: Twisted, p: Coords, q: Coords)
    ensures var s := Sum(F, p, q);
      && Same(F, s.x, 4 * Mixed(p, q, F.d)) && Same(F, s.y, 4 * Straight(p, q, F.d))
      && Same(F, s.z, 4 * Heights(p, q, F.d)) && Same(F, s.t, 4 * Widths(p, q))
  {
    var e, f, g, h := Factors(F, p, q);
    hide Sum, Same, FMul;
    Swap(q.x, p.y);
    var (e', h') := (p.x * q.y + p.y * q.x, p.x * q.x + p.y * q.y);
    var (f', g') := (p.z * q.z - F.d * (p.t * q.t), p.z * q.z + F.d * (p.t * q.t));
    SameMul(F, e, 2 * e', f, 2 * f');
    SameMul(F, g, 2 * g', h, 2 * h');
    SameMul(F, f, 2 * f', g, 2 * g');
    SameMul(F, e, 2 * e', h, 2 * h');
    FourTimes(e', f');
    FourTimes(h', g');
    FourTimes(f', g');
    FourTimes(e', h');
    Swap(2 * g', 2 * h');
  }

  /** x1 y2 + x2 y1 and the like for a point that is four times something. */
  lemma EightTimes(F: Twisted, f: int, a: int, b: int, x: int, y: int, a': int, b': int)
    requires Same(F, f, 2 * (a * x + b * y)) && Same(F, a, 4 * a') && Same(F, b, 4 * b')
    ensures Same(F, f, 8 * (a' * x + b' * y))
  {
    hide *;
    Swap(a, x);
    Swap(b, y);
    PairSame(F, x, y, a, 4 * a', b, 4 * b');
    Itself(F, 2);
    SameMul(F, 2, 2, x * a + y * b, x * (4 * a') + y * (4 * b'));
    assert 2 * (x * (4 * a') + y * (4 * b')) == 8 * (a' * x + b' * y) by {
      assert x * (4 * a') == 4 * (a' * x) && y * (4 * b') == 4 * (b' * y);
    }
    Transitive(F, f, 2 * (a * x + b * y), 8 * (a' * x + b' * y));
  }

  lemma TwistTerm(F: Twisted, s: int, t: int)
    ensures F.d * (s * t) == s * (F.d * t) && -(F.d * (s * t)) == s * -(F.d * t)
  {
  }

  /** The factors of (p + q) + r, and of p + (q + r). */
  lemma LeftFactors(F: Twisted, p: Coords, q: Coords, r: Coords) returns (e: int, f: int, g: int, h: int)
    ensures Sum(F, Sum(F, p, q), r) == Coords(FMul(F, e, f), FMul(F, g, h), FMul(F, f, g), FMul(F, e, h))
    ensures Same(F, e, 8 * (Mixed(p, q, F.d) * r.y + Straight(p, q, F.d) * r.x))
    ensures Same(F, h, 8 * (Straight(p, q, F.d) * r.y + Mixed(p, q, F.d) * r.x))
    ensures Same(F, f, 8 * (Heights(p, q, F.d) * r.z + Widths(p, q) * -(F.d * r.t)))
    ensures Same(F, g, 8 * (Heights(p, q, F.d) * r.z + Widths(p, q) * (F.d * r.t)))
  {
    var s := Sum(F, p, q);
    SumParts(F, p, q);
    e, f, g, h := Factors(F, s, r);
    hide Sum, Same, FMul, Mixed, Straight, Heights, Widths;
    Swap(r.x, s.y);
    TwistTerm(F, s.t, r.t);
    EightTimes(F, e, s.x, s.y, r.y, r.x, Mixed(p, q, F.d), Straight(p, q, F.d));
    EightTimes(F, h, s.y, s.x, r.y, r.x, Straight(p, q, F.d), Mixed(p, q, F.d));
    EightTimes(F, f, s.z, s.t, r.z, -(F.d * r.t), Heights(p, q, F.d), Widths(p, q));
    EightTimes(F, g, s.z, s.t, r.z, F.d * r.t, Heights(p, q, F.d), Widths(p, q));
  }

  lemma MulSwaps(F: Twisted, a: int, b: int)
    ensures FMul(F, a, b) == FMul(F, b, a)
  {
  }

  lemma SumCommutes(F: Twisted, p: Coords, q: Coords)
    ensures Sum(F, p, q) == Sum(F, q, p)
  {
    hide FMul, FAdd, FSub;
    MulSwaps(F, FSub(F, p.y, p.x), FSub(F, q.y, q.x));
    MulSwaps(F, FAdd(F, p.y, p.x), FAdd(F, q.y, q.x));
    MulSwaps(F, p.t, q.t);
    MulSwaps(F, p.z, q.z);
  }

  lemma PartsCommute(p: Coords, q: Coords, d: int)
    ensures Heights(p, q, d) == Heights(q, p, d) && Widths(p, q) == Widths(q, p)
  {
    Swap(p.z, q.z);
    Swap(p.t, q.t);
    Swap(p.x, q.y);
    Swap(p.y, q.x);
    Swap(p.x, q.x);
    Swap(p.y, q.y);
  }

  lemma ExchangedParts(F: Twisted, p: Coords, q: Coords)
    ensures Mixed(p, Exchanged(q), -F.d) == Straight(p, q, F.d) && Straight(p, Exchanged(q), -F.d) == Mixed(p, q, F.d)
    ensures Heights(Exchanged(q), p, -F.d) == Heights(q, p, F.d) && Widths(Exchanged(q), p) == Widths(q, p)
  {
    var (a, b, c, e) := (q.x * p.y + q.y * p.x, q.x * p.x + q.y * p.y, q.z * p.z, F.d * (q.t * p.t));
    assert -F.d * (q.t * p.t) == -e && -F.d * (p.t * q.t) == -(F.d * (p.t * q.t));
    Swap(c - e, c + e);
    Swap(a, b);
    assert q.y * p.y + q.x * p.x == b && q.y * p.x + q.x * p.y == a;
  }

  /** Factors that are eight times those of the cross product. */
  lemma CrossIs(F: Twisted, a: int, b: int, a': int, b': int, c: int)
    requires Same(F, a, 8 * a') && Same(F, b, 8 * b') && a' * b' == c
    ensures Same(F, a * b, 64 * c)
  {
    hide *;
    SameMul(F, a, 8 * a', b, 8 * b');
    assert (8 * a') * (8 * b') == 64 * (a' * b');
  }

  lemma SixtyFour(F: Twisted, a: int, b: int, c: int, c': int)
    requires Same(F, a, 64 * c) && Same(F, b, 64 * c') && Same(F, c, c')
    ensures Same(F, a, b)
  {
    hide *;
    Itself(F, 64);
    SameMul(F, 64, 64, c, c');
    Transitive(F, a, 64 * c, 64 * c');
    SameAs(F, a, b, 64 * c');
  }

  /** The curve equation in the forms that the symmetry of the cross product is stated with. */
  lemma CurveForms(F: Field, x: int, y: int, z: int, t: int, d: int)
    requires Same(F, y * y - x * x, z * z + d * (t * t))
    ensures Same(F, y * y, x * x + z * z + d * (t * t))
    ensures Same(F, (d * d) * (t * t) + d * (z * z), d * (y * y - x * x))
    ensures Same(F, (-d * -d) * (t * t) + d * (z * z), -d * (x * x - y * y))
  {
    hide *;
    Itself(F, x * x);
    Itself(F, d);
    SameSum(F, y * y - x * x, z * z + d * (t * t), x * x, x * x);
    SameMul(F, d, d, y * y - x * x, z * z + d * (t * t));
    Symmetric(F, d * (y * y - x * x), d * (z * z + d * (t * t)));
    Distribute(d, z * z, d * (t * t));
    MulAssoc(d, d, t * t);
    assert -d * (x * x - y * y) == d * (y * y - x * x);
    assert -d * -d == d * d;
  }

  lemma CurveOn(F: Twisted, p: Coords)
    requires OnCurve(F, p)
    ensures On(F, p, F.d) && Middle(F, p, F.d, F.d) && Middle(F, Exchanged(p), -F.d, F.d)
  {
    hide Same;
    CurveForms(F, p.x, p.y, p.z, p.t, F.d);
    Symmetric(F, p.x * p.y, p.z * p.t);
    Swap(p.x, p.y);
  }
  lemma CrossOf(F: Twisted, p: Coords, q: Coords, r: Coords)
    ensures (Mixed(p, q, F.d) * r.y + Straight(p, q, F.d) * r.x) *
            (Heights(r, q, F.d) * p.z + Widths(r, q) * (F.d * p.t))
         == Cross(p, q, r, F.d)
    ensures (Straight(p, q, F.d) * r.y + Mixed(p, q, F.d) * r.x) *
            (Heights(r, q, F.d) * p.z + Widths(r, q) * -(F.d * p.t))
         == Cross(p, Exchanged(q), r, -F.d)
  {
    ExchangedParts(F, p, q);
    ExchangedParts(F, r, q);
    PartsCommute(r, q, F.d);
    Outside(Widths(q, r), F.d, p.t);
    NegativeTerm(F.d, Widths(q, r), p.t);
    hide Mixed, Straight, Heights, Widths;
  }

  /** The cross products of the two sums. */
  lemma CrossEqual(F: Twisted, p: Coords, q: Coords, r: Coords,
                   e: int, f: int, g: int, h: int, e': int, f': int, g': int, h': int)
    requires OnCurve(F, p) && OnCurve(F, q) && OnCurve(F, r)
    requires Same(F, e, 8 * (Mixed(p, q, F.d) * r.y + Straight(p, q, F.d) * r.x))
    requires Same(F, h, 8 * (Straight(p, q, F.d) * r.y + Mixed(p, q, F.d) * r.x))
    requires Same(F, f, 8 * (Heights(p, q, F.d) * r.z + Widths(p, q) * -(F.d * r.t)))
    requires Same(F, g, 8 * (Heights(p, q, F.d) * r.z + Widths(p, q) * (F.d * r.t)))
    requires Same(F, e', 8 * (Mixed(r, q, F.d) * p.y + Straight(r, q, F.d) * p.x))
    requires Same(F, h', 8 * (Straight(r, q, F.d) * p.y + Mixed(r, q, F.d) * p.x))
    requires Same(F, f', 8 * (Heights(r, q, F.d) * p.z + Widths(r, q) * -(F.d * p.t)))
    requires Same(F, g', 8 * (Heights(r, q, F.d) * p.z + Widths(r, q) * (F.d * p.t)))
    ensures Same(F, e * g', e' * g) && Same(F, h * f', h' * f)
  {
    hide *;
    var q' := Exchanged(q);
    CurveOn(F, p);
    CurveOn(F, q);
    CurveOn(F, r);
    CrossSymmetric(F, p, q, r, F.d, F.d);
    CrossSymmetric(F, p, q', r, -F.d, F.d);
    CrossOf(F, p, q, r);
    CrossOf(F, r, q, p);
    CrossIs(F, e, g', Mixed(p, q, F.d) * r.y + Straight(p, q, F.d) * r.x,
            Heights(r, q, F.d) * p.z + Widths(r, q) * (F.d * p.t), Cross(p, q, r, F.d));
    CrossIs(F, e', g, Mixed(r, q, F.d) * p.y + Straight(r, q, F.d) * p.x,
            Heights(p, q, F.d) * r.z + Widths(p, q) * (F.d * r.t), Cross(r, q, p, F.d));
    CrossIs(F, h, f', Straight(p, q, F.d) * r.y + Mixed(p, q, F.d) * r.x,
            Heights(r, q, F.d) * p.z + Widths(r, q) * -(F.d * p.t), Cross(p, q', r, -F.d));
    CrossIs(F, h', f, Straight(r, q, F.d) * p.y + Mixed(r, q, F.d) * p.x,
            Heights(p, q, F.d) * r.z + Widths(p, q) * -(F.d * r.t), Cross(r, q', p, -F.d));
    SixtyFour(F, e * g', e' * g, Cross(p, q, r, F.d), Cross(r, q, p, F.d));
    SixtyFour(F, h * f', h' * f, Cross(p, q', r, -F.d), Cross(r, q', p, -F.d));
  }

  lemma CrossMultiplied(F: Twisted, e: int, f: int, g: int, e': int, f': int, g': int)
    requires Same(F, e * g', e' * g)
    ensures Same(F, FMul(F, e, f) * FMul(F, f', g'), FMul(F, e', f') * FMul(F, f, g))
  {
    hide *;
    MulSame(F, e, f);
    MulSame(F, f', g');
    MulSame(F, e', f');
    MulSame(F, f, g);
    SameMul(F, FMul(F, e, f), e * f, FMul(F, f', g'), f' * g');
    SameMul(F, FMul(F, e', f'), e' * f', FMul(F, f, g), f * g);
    Itself(F, f * f');
    SameMul(F, e * g', e' * g, f * f', f * f');
    Swap(f', g');
    Interchange(e, f, g', f');
    Swap(f, g);
    Interchange(e', f', g, f);
    Swap(f, f');
    Transitive(F, FMul(F, e, f) * FMul(F, f', g'), (e * f) * (f' * g'), (e' * f') * (f * g));
    SameAs(F, FMul(F, e, f) * FMul(F, f', g'), FMul(F, e', f') * FMul(F, f, g), (e' * f') * (f * g));
  }

  /** (p + q) + r and p + (q + r) are the same affine point. */
  lemma SumAssociates(F: Twisted, p: Coords, q: Coords, r: Coords)
    requires Genuine(F, p) && Genuine(F, q) && Genuine(F, r)
    ensures ToAffine(F, Sum(F, Sum(F, p, q), r)) == ToAffine(F, Sum(F, p, Sum(F, q, r)))
  {
    var e, f, g, h := LeftFactors(F, p, q, r);
    var e', f', g', h' := LeftFactors(F, r, q, p);
    SumCommutes(F, r, q);
    SumCommutes(F, Sum(F, q, r), p);
    SumGenuine(F, p, q);
    SumGenuine(F, q, r);
    var s, u := Sum(F, Sum(F, p, q), r), Sum(F, p, Sum(F, q, r));
    SumGenuine(F, Sum(F, p, q), r);
    SumGenuine(F, p, Sum(F, q, r));
    hide Same, OnCurve, FMul, Sum, Zero, Quot;
    CrossEqual(F, p, q, r, e, f, g, h, e', f', g', h');
    CrossMultiplied(F, e, f, g, e', f', g');
    CrossMultiplied(F, h, g, f, h', g', f');
    MulSwaps(F, g, h);
    MulSwaps(F, f, g);
    MulSwaps(F, g', h');
    MulSwaps(F, f', g');
    QuotSame(F, s.x, s.z, u.x, u.z);
    QuotSame(F, s.y, s.z, u.y, u.z);
  }

  /* The group */

  const ORIGIN: Affine := Affine(0, 1)

  lemma AffineSumOn(F: Twisted, a: Affine, b: Affine)
    requires OnAffine(F, a) && OnAffine(F, b)
    ensures OnAffine(F, AffineAdd(F, a, b))
    ensures AffineAdd(F, a, b) == ToAffine(F, Sum(F, Embed(F, a), Embed(F, b)))
  {
    hide *;
    EmbedGenuine(F, a);
    EmbedGenuine(F, b);
    SumGenuine(F, Embed(F, a), Embed(F, b));
    SumIsAffineSum(F, Embed(F, a), Embed(F, b));
    ToAffineOn(F, Sum(F, Embed(F, a), Embed(F, b)));
  }

  lemma AddAssociates(F: Twisted, a: Affine, b: Affine, c: Affine)
    requires OnAffine(F, a) && OnAffine(F, b) && OnAffine(F, c)
    ensures AffineAdd(F, AffineAdd(F, a, b), c) == AffineAdd(F, a, AffineAdd(F, b, c))
  {
    var (p, q, r) := (Embed(F, a), Embed(F, b), Embed(F, c));
    hide *;
    EmbedGenuine(F, a);
    EmbedGenuine(F, b);
    EmbedGenuine(F, c);
    SumGenuine(F, p, q);
    SumGenuine(F, q, r);
    SumIsAffineSum(F, p, q);
    SumIsAffineSum(F, q, r);
    SumIsAffineSum(F, Sum(F, p, q), r);
    SumIsAffineSum(F, p, Sum(F, q, r));
    SumAssociates(F, p, q, r);
  }

  lemma AddCommutes(F: Twisted, a: Affine, b: Affine)
    requires OnAffine(F, a) && OnAffine(F, b)
    ensures AffineAdd(F, a, b) == AffineAdd(F, b, a)
  {
    hide *;
    AffineSumOn(F, a, b);
    AffineSumOn(F, b, a);
    SumCommutes(F, Embed(F, a), Embed(F, b));
  }

  lemma SumIs(F: Twisted, a: Affine, b: Affine)
    ensures var k := F.d * ((a.x * a.y) * (b.x * b.y));
      AffineAdd(F, a, b) == Affine(Quot(F, a.x * b.y + b.x * a.y, 1 + k), Quot(F, a.y * b.y + a.x * b.x, 1 - k))
  {
  }

  lemma AddOrigin(F: Twisted, a: Affine)
    requires OnAffine(F, a)
    ensures AffineAdd(F, ORIGIN, a) == a
  {
    assert 0 <= a.x < F.p && 0 <= a.y < F.p;
    SumIs(F, ORIGIN, a);
    hide *;
    assert 0 * a.y + a.x * 1 == a.x && 1 * a.y + 0 * a.x == a.y && F.d * ((0 * 1) * (a.x * a.y)) == 0;
    ConstantsNotZero(F);
    Itself(F, a.x * 1);
    Itself(F, a.y * 1);
    QuotUnique(F, a.x, a.x, 1);
    QuotUnique(F, a.y, a.y, 1);
  }

  ghost function Negative(F: Twisted, a: Affine): Affine {
    Affine(if a.x == 0 then 0 else F.p - a.x, a.y)
  }

  lemma NegativeSame(F: Twisted, a: Affine)
    requires OnAffine(F, a)
    ensures 0 <= Negative(F, a).x < F.p && Same(F, Negative(F, a).x, -a.x)
  {
    hide Same;
    if a.x == 0 {
      Itself(F, 0);
    } else {
      SameBy(F, F.p - a.x, -a.x, 1);
    }
  }

  /** The products with a negative first coordinate. */
  lemma NegativeProducts(F: Twisted, x: int, y: int, n: int)
    requires Same(F, n, -x)
    ensures Same(F, n * n, x * x) && Same(F, n * x, -(x * x)) && Same(F, n * y, -(x * y))
  {
    hide *;
    Itself(F, x);
    Itself(F, y);
    SameMul(F, n, -x, n, -x);
    SameMul(F, n, -x, x, x);
    SameMul(F, n, -x, y, y);
    assert -x * -x == x * x && -x * x == -(x * x) && -x * y == -(x * y);
  }

  lemma NegativeIs(F: Twisted, a: Affine)
    requires OnAffine(F, a)
    ensures Negative(F, a) == Affine(Negative(F, a).x, a.y) && 0 <= a.y < F.p
  {
  }

  lemma NegativeOn(F: Twisted, a: Affine)
    requires OnAffine(F, a)
    ensures OnAffine(F, Negative(F, a))
  {
    var (x, y, n, m) := (a.x, a.y, Negative(F, a).x, a.x * a.y);
    assert Same(F, y * y - x * x, 1 + F.d * (m * m));
    hide *;
    NegativeSame(F, a);
    NegativeProducts(F, x, y, n);
    NegativeProducts(F, m, 1, n * y);
    Itself(F, y * y);
    Itself(F, 1);
    Itself(F, F.d);
    SameMul(F, F.d, F.d, (n * y) * (n * y), m * m);
    SameSum(F, 1, 1, F.d * ((n * y) * (n * y)), F.d * (m * m));
    SameSum(F, y * y, y * y, n * n, x * x);
    Transitive(F, y * y - n * n, y * y - x * x, 1 + F.d * (m * m));
    SameAs(F, y * y - n * n, 1 + F.d * ((n * y) * (n * y)), 1 + F.d * (m * m));
    NegativeIs(F, a);
    AffineIs(F, Negative(F, a));
  }

  lemma QuotZero(F: Twisted, a: int, b: int)
    requires Same(F, a, 0) && !Zero(F, b)
    ensures Quot(F, a, b) == 0
  {
    hide Quot, Same;
    Symmetric(F, a, 0);
    assert 0 * b == 0;
    QuotUnique(F, 0, a, b);
  }

  lemma QuotOne(F: Twisted, a: int, b: int)
    requires Same(F, b, a) && !Zero(F, b)
    ensures Quot(F, a, b) == 1
  {
    hide Quot, Same;
    assert 1 * b == b;
    QuotUnique(F, 1, a, b);
  }

  lemma NegativeTwist(F: Twisted, m: int, l: int)
    requires Same(F, l, -m)
    ensures Same(F, F.d * (l * m), -(F.d * (m * m)))
  {
    hide *;
    Itself(F, F.d);
    Itself(F, m);
    SameMul(F, l, -m, m, m);
    assert -m * m == -(m * m);
    SameMul(F, F.d, F.d, l * m, -(m * m));
    assert F.d * -(m * m) == -(F.d * (m * m));
  }

  lemma NegativeX(F: Twisted, x: int, y: int, n: int, den: int)
    requires Same(F, n, -x) && !Zero(F, den)
    ensures Quot(F, n * y + x * y, den) == 0
  {
    hide *;
    NegativeProducts(F, x, y, n);
    Itself(F, x * y);
    SameSum(F, n * y, -(x * y), x * y, x * y);
    QuotZero(F, n * y + x * y, den);
  }

  lemma NegativeY(F: Twisted, x: int, y: int, n: int, k: int, c: int)
    requires Same(F, y * y - x * x, 1 + c) && Same(F, n, -x) && Same(F, k, -c) && !Zero(F, 1 - k)
    ensures Quot(F, y * y + n * x, 1 - k) == 1
  {
    hide *;
    NegativeProducts(F, x, y, n);
    Itself(F, 1);
    Itself(F, y * y);
    SameSum(F, 1, 1, k, -c);
    SameSum(F, y * y, y * y, n * x, -(x * x));
    Transitive(F, y * y + n * x, y * y - x * x, 1 + c);
    SameAs(F, 1 - k, y * y + n * x, 1 + c);
    QuotOne(F, y * y + n * x, 1 - k);
  }

  lemma AffineDenominators(F: Twisted, a: Affine, b: Affine)
    requires OnAffine(F, a) && OnAffine(F, b)
    ensures var k := F.d * ((a.x * a.y) * (b.x * b.y)); !Zero(F, 1 + k) && !Zero(F, 1 - k)
  {
    hide *;
    EmbedGenuine(F, a);
    EmbedGenuine(F, b);
    SumIsAffineSum(F, Embed(F, a), Embed(F, b));
  }

  lemma AddNegative(F: Twisted, a: Affine)
    requires OnAffine(F, a)
    ensures OnAffine(F, Negative(F, a)) && AffineAdd(F, Negative(F, a), a) == ORIGIN
  {
    var (x, y, n) := (a.x, a.y, Negative(F, a).x);
    var k := F.d * ((n * y) * (x * y));
    assert Negative(F, a) == Affine(n, y);
    assert Same(F, y * y - x * x, 1 + F.d * ((x * y) * (x * y)));
    hide *;
    NegativeOn(F, a);
    SumIs(F, Negative(F, a), a);
    AffineDenominators(F, Negative(F, a), a);
    NegativeSame(F, a);
    NegativeProducts(F, x, y, n);
    NegativeTwist(F, x * y, n * y);
    NegativeX(F, x, y, n, 1 + k);
    NegativeY(F, x, y, n, k, F.d * ((x * y) * (x * y)));
  }

  lemma OriginOn(F: Twisted)
    ensures OnAffine(F, ORIGIN)
  {
    hide Same;
    assert F.d * ((0 * 1) * (0 * 1)) == 0;
    Itself(F, 1);
  }

  /** The law as an operation, and its points. */
  ghost function Law(F: Twisted): (Affine, Affine) -> Affine {
    (a, b) => AffineAdd(F, a, b)
  }

  ghost function Points(F: Twisted): Affine -> bool {
    a => OnAffine(F, a)
  }

  /** The points of the curve are a commutative group. */
  lemma CurveGroup(F: Twisted)
    ensures Monoid(Points(F), Law(F), ORIGIN)
    ensures forall a, b :: OnAffine(F, a) && OnAffine(F, b) ==> AffineAdd(F, a, b) == AffineAdd(F, b, a)
    ensures forall a :: OnAffine(F, a) ==>
              OnAffine(F, Negative(F, a)) && AffineAdd(F, Negative(F, a), a) == ORIGIN
  {
    hide OnAffine, AffineAdd, Negative;
    OriginOn(F);
    forall a, b | OnAffine(F, a) && OnAffine(F, b)
      ensures OnAffine(F, AffineAdd(F, a, b)) && AffineAdd(F, a, b) == AffineAdd(F, b, a)
    {
      AffineSumOn(F, a, b);
      AddCommutes(F, a, b);
    }
    forall a, b, c | OnAffine(F, a) && OnAffine(F, b) && OnAffine(F, c)
      ensures AffineAdd(F, AffineAdd(F, a, b), c) == AffineAdd(F, a, AffineAdd(F, b, c))
    {
      AddAssociates(F, a, b, c);
    }
    forall a | OnAffine(F, a)
      ensures AffineAdd(F, ORIGIN, a) == a == AffineAdd(F, a, ORIGIN)
      ensures OnAffine(F, Negative(F, a)) && AffineAdd(F, Negative(F, a), a) == ORIGIN
    {
      AddOrigin(F, a);
      AddCommutes(F, ORIGIN, a);
      AddNegative(F, a);
    }
  }

  /* Scalar multiplication */

  lemma IdentityIsOrigin(F: Twisted)
    ensures Genuine(F, IDENTITY) && ToAffine(F, IDENTITY) == ORIGIN
  {
    IdentityGenuine(F);
    hide Genuine, Quot, Same;
    ConstantsNotZero(F);
    Itself(F, 0 * 1);
    Itself(F, 1 * 1);
    QuotUnique(F, 0, 0, 1);
    QuotUnique(F, 1, 1, 1);
  }

  /** The addition formulas represent the group on the genuine points. */
  lemma FormulasRepresent(F: Twisted)
    ensures Represents(Adder(F), IDENTITY, p => Genuine(F, p), p => ToAffine(F, p), Points(F), Law(F), ORIGIN)
  {
    hide Genuine, Sum, ToAffine, AffineAdd, OnAffine;
    IdentityIsOrigin(F);
    forall p | Genuine(F, p)
      ensures OnAffine(F, ToAffine(F, p))
    {
      ToAffineOn(F, p);
    }
    forall p, r | Genuine(F, p) && Genuine(F, r)
      ensures Genuine(F, Sum(F, p, r)) && ToAffine(F, Sum(F, p, r)) == AffineAdd(F, ToAffine(F, p), ToAffine(F, r))
    {
      SumGenuine(F, p, r);
      SumIsAffineSum(F, p, r);
    }
  }

  /** The multiple k a in the group of the curve. */
  ghost function Times(F: Twisted, k: nat, a: Affine): Affine {
    Multiple(Law(F), ORIGIN, k, a)
  }

  /** From any curve point the double-and-add ladder computes the multiple that the scalar says. */
  lemma LadderOnCurve(F: Twisted, q: Coords, s: nat, n: nat)
    requires Genuine(F, q) && s < Pow(2, n)
    ensures var r := Run(Adder(F), IDENTITY, q, s, n, 0).0;
      Genuine(F, r) && ToAffine(F, r) == Times(F, s, ToAffine(F, q))
  {
    hide Genuine, Run, Multiple, Monoid, ToAffine, Represents, Pow, Adder, Law, Points;
    CurveGroup(F);
    FormulasRepresent(F);
    LadderMultiplies(Adder(F), IDENTITY, q, s, n, p => Genuine(F, p), p => ToAffine(F, p), Points(F), Law(F), ORIGIN);
  }
}
