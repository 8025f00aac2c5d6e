/** The ladder of X25519 computes multiples of curve points: u = (1 + y) / (1 - y) takes the
    points of the Edwards curve to the u-coordinates of section 4.1 of RFC 7748. */
module MontgomeryLadder {
  import opened Arith
  import opened PrimeField
  import opened DoubleAndAdd
  import opened EdwardsLaw
  import opened EdwardsCurve
  import opened EdwardsComplete
  import opened EdwardsGroup
  import opened Rfc7748

  /** x : z is 1 + y : 1 - y, written with sum and difference. */
  ghost predicate IsU(F: Twisted, x: int, z: int, y: int) {
    !Zero(F, x + z) && Same(F, x - z, y * (x + z))
  }

  /* Identities in y */

  lemma TwistTimes(F: Twisted)
    ensures Same(F, (1 + F.a24) * F.d, -F.a24) && Same(F, (1 + F.a24) * (1 + F.d), 1)
  {
    var c := 1 + F.a24;
    hide Same;
    Itself(F, c);
    Distribute(c, 1, F.d);
    SameSum(F, c * (1 + F.d), 1, c, c);
  }

  /** The curve equation with squares of its own. */
  ghost predicate Squared(F: Twisted, xx: int, yy: int) {
    Same(F, yy - xx, 1 + F.d * (xx * yy))
  }

  lemma AffineSquared(F: Twisted, a: Affine)
    requires OnAffine(F, a)
    ensures Squared(F, a.x * a.x, a.y * a.y)
  {
    Interchange(a.x, a.y, a.x, a.y);
  }

  /** x^2 (1 + d y^2) = y^2 - 1. */
  lemma XFromY(F: Twisted, xx: int, yy: int)
    requires Squared(F, xx, yy)
    ensures Same(F, xx * (1 + F.d * yy), yy - 1)
  {
    hide Same;
    Itself(F, 1);
    Itself(F, xx);
    Distribute(xx, 1, F.d * yy);
    Outside(xx, F.d, yy);
    SameSum(F, yy - xx, 1 + F.d * (xx * yy), 1, 1);
    SameSum(F, yy - xx - 1, F.d * (xx * yy), xx, xx);
    Symmetric(F, yy - 1, F.d * (xx * yy) + xx);
  }

  /** 1 + d y^2 is never zero. */
  lemma TwistedNotZero(F: Twisted, y: int)
    ensures !Zero(F, 1 + F.d * (y * y))
  {
    if Zero(F, 1 + F.d * (y * y)) {
      hide Same, Zero;
      var c := F.d * (y * y);
      RootSquared(F);
      DifferenceZero(F, 1, -c);
      assert 1 - -c == 1 + c;
      Itself(F, -1);
      SameMul(F, -1, -1, 1, -c);
      assert -1 * 1 == -1 && -1 * -c == c;
      Transitive(F, F.root * F.root, -1, c);
      TwistNoSquare(F, F.root, y);
      ConstantsNotZero(F);
    }
  }

  lemma NegativeFactor(v: int, n: int)
    ensures v * -n == -(v * n)
  {
  }

  lemma LadderConstant(F: Twisted, yy: int)
    ensures Same(F, 1 + F.a24 * (1 - yy), (1 + F.a24) * (1 + F.d * yy))
  {
    var (a, c) := (F.a24, 1 + F.a24);
    TwistTimes(F);
    hide *;
    Itself(F, yy);
    Itself(F, c);
    SameMul(F, c * F.d, -a, yy, yy);
    SameSum(F, c, c, (c * F.d) * yy, -a * yy);
    Distribute(c, 1, F.d * yy);
    MulAssoc(c, F.d, yy);
    Distribute(a, 1, -yy);
    NegativeFactor(a, yy);
    NegativeFactor(yy, a);
    Swap(a, yy);
    Swap(-a, yy);
    Symmetric(F, c + (c * F.d) * yy, c + -a * yy);
  }

  /** y^2 = (1 + a24 (1 - y^2)) (1 + x^2). */
  lemma DoublingIdentity(F: Twisted, xx: int, yy: int)
    requires Squared(F, xx, yy)
    ensures Same(F, (1 + F.a24 * (1 - yy)) * (1 + xx), yy)
  {
    var (c, g) := (1 + F.a24, 1 + F.d * yy);
    hide *;
    XFromY(F, xx, yy);
    LadderConstant(F, yy);
    TwistTimes(F);
    Itself(F, 1 + xx);
    Itself(F, yy);
    Itself(F, c);
    Itself(F, g);
    SameMul(F, 1 + F.a24 * (1 - yy), c * g, 1 + xx, 1 + xx);
    SameSum(F, g, g, xx * g, yy - 1);
    Distribute(g, 1, xx);
    Swap(g, xx);
    SameMul(F, c, c, g * (1 + xx), g + (yy - 1));
    Distribute(yy, 1, F.d);
    Swap(yy, F.d);
    Swap(yy, 1 + F.d);
    MulAssoc(c, 1 + F.d, yy);
    SameMul(F, c * (1 + F.d), 1, yy, yy);
    MulAssoc(c, g, 1 + xx);
    Transitive(F, (1 + F.a24 * (1 - yy)) * (1 + xx), c * (g * (1 + xx)), (c * (1 + F.d)) * yy);
    Transitive(F, (1 + F.a24 * (1 - yy)) * (1 + xx), (c * (1 + F.d)) * yy, yy);
  }

  lemma OneMinusSquared(s: int)
    ensures (1 - s) * (1 - s) == 1 - 2 * s + s * s && (1 + s) * (1 + s) == 1 + 2 * s + s * s
  {
  }

  lemma KeyLinear(s: int, q: int, m: int, mm: int, d: int, n: int)
    requires m == d * s
    ensures (1 - 2 * s + q) * (d * n) + n * (1 + 2 * m + mm) == n * (1 + d + d * q + mm)
  {
    assert (1 - 2 * s + q) * (d * n) == n * (d * (1 - 2 * s + q)) by {
      Outside(1 - 2 * s + q, d, n);
      Outside(n, d, 1 - 2 * s + q);
      Swap(n, 1 - 2 * s + q);
    }
    Distribute(d, 1, -2 * s + q);
    Distribute(d, -2 * s, q);
    Distribute(n, d * (1 - 2 * s + q), 1 + 2 * m + mm);
  }

  lemma KeyRest(s: int, q: int, m: int, mm: int)
    ensures (1 - 2 * s + q) + (1 - 2 * s + q) * mm - (q + 1) * (1 + 2 * m + mm) == -2 * (s + s * mm + q * m + m)
  {
    ProductOfTwoSums(q, 1, 1 + 2 * m, mm);
    Distribute(q, 1, 2 * m);
    Distribute(mm, 1 - 2 * s, q);
    Swap(mm, q);
    Swap(mm, 1 - 2 * s + q);
  }

  lemma KeyLeft(s: int, q: int, m: int, mm: int, d: int, n: int)
    requires m == d * s
    ensures (1 - 2 * s + q) * (1 + d * n + mm) - (q - n + 1) * (1 + 2 * m + mm)
         == n * (1 + d + d * q + mm) - 2 * (s + s * mm + q * m + m)
  {
    var (u, v) := (1 - 2 * s + q, 1 + 2 * m + mm);
    KeyLinear(s, q, m, mm, d, n);
    KeyRest(s, q, m, mm);
    hide *;
    Distribute(u, 1 + d * n, mm);
    Distribute(u, 1, d * n);
    Distribute(v, q + 1, -n);
    Swap(v, q + 1);
    Swap(v, q - n + 1);
    Swap(v, n);
    NegativeFactor(v, n);
  }

  lemma KeyRight(s: int, q: int, m: int, mm: int, d: int, n: int)
    requires m == d * s && q == s * s && mm == (d * d) * q
    ensures ((1 + d) * (1 + d * q)) * (n - 2 * s)
         == n * (1 + d + d * q + mm) - 2 * (s + s * mm + q * m + m)
  {
    var k := 1 + d + d * q + mm;
    assert (1 + d) * (1 + d * q) == k by {
      ProductOfTwoSums(1, d, 1, d * q);
      MulAssoc(d, d, q);
    }
    assert s * k == s + s * mm + q * m + m by {
      Distribute(s, 1 + d, d * q + mm);
      Distribute(s, 1, d);
      Distribute(s, d * q, mm);
      Outside(s, d, q);
      Outside(q, d, s);
      Swap(s, q);
      Swap(s, d);
    }
    Distribute(k, n, -2 * s);
    Swap(k, n);
    Swap(k, s);
    assert k * (-2 * s) == -2 * (k * s);
  }

  /** The identity behind the differential addition, with s = y y' and n = y^2 + y'^2. */
  lemma KeyIdentity(s: int, n: int, d: int)
    ensures ((1 - s) * (1 - s)) * (1 + d * n + (d * d) * (s * s)) - (s * s - n + 1) * ((1 + d * s) * (1 + d * s))
         == ((1 + d) * (1 + d * (s * s))) * (n - 2 * s)
  {
    OneMinusSquared(s);
    OneMinusSquared(d * s);
    Interchange(d, s, d, s);
    KeyLeft(s, s * s, d * s, (d * d) * (s * s), d, n);
    KeyRight(s, s * s, d * s, (d * d) * (s * s), d, n);
  }

  lemma TakeOut(u: int, p: int, v: int, g: int)
    ensures (u - p * v) * g == u * g - (p * g) * v
  {
    Distribute(g, u, -(p * v));
    Swap(g, u);
    Swap(g, u - p * v);
    NegativeFactor(g, p * v);
    assert g * (p * v) == (p * g) * v;
  }

  /** The bracket of the identity, times g. */
  lemma BracketKey(F: Twisted, s: int, n: int, pp: int, g: int)
    requires Same(F, pp * g, s * s - n + 1) && g == 1 + F.d * n + (F.d * F.d) * (s * s)
    ensures Same(F, ((1 - s) * (1 - s) - pp * ((1 + F.d * s) * (1 + F.d * s))) * g,
                 ((1 + F.d) * (1 + F.d * (s * s))) * (n - 2 * s))
  {
    var (u, v) := ((1 - s) * (1 - s), (1 + F.d * s) * (1 + F.d * s));
    KeyIdentity(s, n, F.d);
    hide *;
    Itself(F, u * g);
    Itself(F, v);
    SameMul(F, pp * g, s * s - n + 1, v, v);
    SameSum(F, u * g, u * g, (pp * g) * v, (s * s - n + 1) * v);
    TakeOut(u, pp, v, g);
  }

  /** (y' + y)^2 times one bracket is (y' - y)^2 times the other. */
  lemma DifferenceIdentity(F: Twisted, s: int, n: int, pp: int, g: int)
    requires Same(F, pp * g, s * s - n + 1) && g == 1 + F.d * n + (F.d * F.d) * (s * s) && !Zero(F, g)
    ensures Same(F, (n + 2 * s) * ((1 - s) * (1 - s) - pp * ((1 + F.d * s) * (1 + F.d * s))),
                 (n - 2 * s) * ((1 + s) * (1 + s) - pp * ((1 - F.d * s) * (1 - F.d * s))))
  {
    var (b, b') := ((1 - s) * (1 - s) - pp * ((1 + F.d * s) * (1 + F.d * s)),
                    (1 + s) * (1 + s) - pp * ((1 - F.d * s) * (1 - F.d * s)));
    var k := (1 + F.d) * (1 + F.d * (s * s));
    assert -s * -s == s * s && F.d * -s == -(F.d * s);
    hide *;
    BracketKey(F, s, n, pp, g);
    BracketKey(F, -s, n, pp, g);
    Itself(F, n + 2 * s);
    Itself(F, n - 2 * s);
    SameMul(F, n + 2 * s, n + 2 * s, b * g, k * (n - 2 * s));
    SameMul(F, n - 2 * s, n - 2 * s, b' * g, k * (n + 2 * s));
    assert (n + 2 * s) * (k * (n - 2 * s)) == (n - 2 * s) * (k * (n + 2 * s)) by {
      Outside(n + 2 * s, k, n - 2 * s);
      Outside(n - 2 * s, k, n + 2 * s);
      Swap(n + 2 * s, n - 2 * s);
    }
    SameAs(F, (n + 2 * s) * (b * g), (n - 2 * s) * (b' * g), (n + 2 * s) * (k * (n - 2 * s)));
    MulAssoc(n + 2 * s, b, g);
    MulAssoc(n - 2 * s, b', g);
    CancelFactor(F, (n + 2 * s) * b, (n - 2 * s) * b', g);
  }

  /** The denominators of the curve equation for both points. */
  lemma ProductOfSquares(F: Twisted, xx: int, yy: int, xx': int, yy': int)
    requires Squared(F, xx, yy) && Squared(F, xx', yy')
    ensures var (q, n) := (yy * yy', yy + yy');
      && (1 + F.d * yy) * (1 + F.d * yy') == 1 + F.d * n + (F.d * F.d) * q
      && Same(F, (xx * xx') * (1 + F.d * n + (F.d * F.d) * q), q - n + 1)
  {
    var (g, g') := (1 + F.d * yy, 1 + F.d * yy');
    hide *;
    XFromY(F, xx, yy);
    XFromY(F, xx', yy');
    SameMul(F, xx * g, yy - 1, xx' * g', yy' - 1);
    Interchange(xx, g, xx', g');
    ProductOfTwoSums(1, F.d * yy, 1, F.d * yy');
    Interchange(F.d, yy, F.d, yy');
    Distribute(F.d, yy, yy');
    ProductOfTwoSums(yy, -1, yy', -1);
  }

  /* Ratios */

  lemma RatioShape(x: int, m: int, n: int)
    ensures (x - 1) * m + (m - n * x) == x * (m - n) && n * (x + 1) + (m - n * x) == m + n
  {
  }

  /** From the base's u to the numerator and denominator of the difference's y. */
  lemma RatioOfBase(F: Twisted, x: int, y: int, m: int, n: int)
    requires Same(F, x - 1, y * (x + 1)) && Same(F, y * m, n)
    ensures Same(F, x * (m - n), m + n)
  {
    hide *;
    Itself(F, m);
    Itself(F, x + 1);
    SameMul(F, x - 1, y * (x + 1), m, m);
    SameMul(F, y * m, n, x + 1, x + 1);
    assert (y * (x + 1)) * m == (y * m) * (x + 1) by {
      Swap(x + 1, m);
      MulAssoc(y, x + 1, m);
      MulAssoc(y, m, x + 1);
    }
    Transitive(F, (x - 1) * m, (y * m) * (x + 1), n * (x + 1));
    RatioShape(x, m, n);
    Itself(F, m - n * x);
    SameSum(F, (x - 1) * m, n * (x + 1), m - n * x, m - n * x);
  }

  lemma BackShape(x: int, z: int, m: int, n: int)
    ensures x * (m - n) + (n * x - z * m) == (x - z) * m && z * (m + n) + (n * x - z * m) == n * (x + z)
  {
  }

  /** The other way round, for any pair. */
  lemma RatioBack(F: Twisted, x: int, z: int, y: int, m: int, n: int)
    requires Same(F, y * m, n) && !Zero(F, m) && Same(F, x * (m - n), z * (m + n))
    ensures Same(F, x - z, y * (x + z))
  {
    hide *;
    Itself(F, x + z);
    SameMul(F, y * m, n, x + z, x + z);
    assert (y * m) * (x + z) == (y * (x + z)) * m by {
      Swap(m, x + z);
      MulAssoc(y, m, x + z);
      MulAssoc(y, x + z, m);
    }
    BackShape(x, z, m, n);
    Itself(F, n * x - z * m);
    SameSum(F, x * (m - n), z * (m + n), n * x - z * m, n * x - z * m);
    SameAs(F, (x - z) * m, (y * (x + z)) * m, n * (x + z));
    CancelFactor(F, x - z, y * (x + z), m);
  }

  lemma TwiceZero(F: Twisted, x: int, z: int)
    requires Zero(F, x + z) && Zero(F, x - z)
    ensures Zero(F, x) && Zero(F, z)
  {
    hide Same;
    SameSum(F, x + z, 0, x - z, 0);
    assert Zero(F, 2 * x) && Zero(F, 2 * z);
    NoTwo(F, x);
    NoTwo(F, z);
  }

  /** A pair that is not zero throughout. */
  lemma PairIsU(F: Twisted, x: int, z: int, y: int)
    requires Same(F, x - z, y * (x + z)) && !(Zero(F, x) && Zero(F, z))
    ensures IsU(F, x, z, y)
  {
    if Zero(F, x + z) {
      hide Same, Zero;
      ZeroProduct(F, y, x + z);
      ZeroSame(F, x - z, y * (x + z));
      TwiceZero(F, x, z);
    }
  }

  /* The y-coordinates of sums and differences */

  lemma AddY(F: Twisted, a: Affine, b: Affine)
    requires OnAffine(F, a) && OnAffine(F, b)
    ensures var k := F.d * ((a.x * a.y) * (b.x * b.y));
      && !Zero(F, 1 - k) && !Zero(F, 1 + k) && Same(F, AffineAdd(F, a, b).y * (1 - k), a.y * b.y + a.x * b.x)
  {
    var k := F.d * ((a.x * a.y) * (b.x * b.y));
    hide *;
    AffineDenominators(F, a, b);
    SumIs(F, a, b);
    QuotTimes(F, a.y * b.y + a.x * b.x, 1 - k);
  }

  lemma NegativeAdded(F: Twisted, p: Affine, q: Affine)
    requires OnAffine(F, p) && OnAffine(F, q)
    ensures AffineAdd(F, Negative(F, p), AffineAdd(F, p, q)) == q
  {
    hide *;
    AddNegative(F, p);
    AddAssociates(F, Negative(F, p), p, q);
    AddOrigin(F, q);
  }

  lemma NegativeCoordinates(F: Twisted, a: Affine)
    requires OnAffine(F, a)
    ensures Negative(F, a).y == a.y && Same(F, Negative(F, a).x, -a.x)
  {
    hide Same;
    NegativeSame(F, a);
  }

  /** The y-coordinate of q from those of p and p + q. */
  lemma DifferenceY(F: Twisted, p: Affine, q: Affine)
    requires OnAffine(F, p) && OnAffine(F, q)
    ensures var r := AffineAdd(F, p, q);
      var k := F.d * ((p.x * p.y) * (r.x * r.y));
      !Zero(F, 1 + k) && Same(F, q.y * (1 + k), p.y * r.y - p.x * r.x)
  {
    var (r, n) := (AffineAdd(F, p, q), Negative(F, p));
    var (k, k') := (F.d * ((p.x * p.y) * (r.x * r.y)), F.d * ((n.x * n.y) * (r.x * r.y)));
    hide *;
    AffineSumOn(F, p, q);
    AddNegative(F, p);
    AddY(F, p, r);
    AddY(F, n, r);
    NegativeAdded(F, p, q);
    NegativeCoordinates(F, p);
    Itself(F, p.y);
    Itself(F, r.x);
    Itself(F, r.x * r.y);
    Itself(F, F.d);
    Itself(F, 1);
    Itself(F, q.y);
    Itself(F, p.y * r.y);
    SameMul(F, n.x, -p.x, p.y, p.y);
    SameMul(F, n.x * p.y, -p.x * p.y, r.x * r.y, r.x * r.y);
    SameMul(F, F.d, F.d, (n.x * p.y) * (r.x * r.y), (-p.x * p.y) * (r.x * r.y));
    assert F.d * ((-p.x * p.y) * (r.x * r.y)) == -k by {
      assert (-p.x * p.y) * (r.x * r.y) == -((p.x * p.y) * (r.x * r.y));
      NegativeFactor(F.d, (p.x * p.y) * (r.x * r.y));
    }
    SameSum(F, 1, 1, k', -k);
    SameMul(F, q.y, q.y, 1 - k', 1 + k);
    SameMul(F, n.x, -p.x, r.x, r.x);
    assert -p.x * r.x == -(p.x * r.x);
    SameSum(F, p.y * r.y, p.y * r.y, n.x * r.x, -(p.x * r.x));
    Symmetric(F, q.y * (1 - k'), q.y * (1 + k));
    Transitive(F, q.y * (1 + k), q.y * (1 - k'), p.y * r.y + n.x * r.x);
    Transitive(F, q.y * (1 + k), p.y * r.y + n.x * r.x, p.y * r.y - p.x * r.x);
  }

  /* One step of the ladder */

  /** Numerator and denominator of the double's y. */
  lemma DoubledSums(F: Twisted, xx: int, yy: int, k: int)
    requires Same(F, yy - xx, 1 + k)
    ensures Same(F, (1 - k) - (yy + xx), 2 * (1 - yy)) && Same(F, (1 - k) + (yy + xx), 2 * (1 + xx))
  {
    hide *;
    Itself(F, 2 - (yy + xx));
    Itself(F, 2 + (yy + xx));
    SameSum(F, 2 - (yy + xx), 2 - (yy + xx), yy - xx, 1 + k);
    SameSum(F, 2 + (yy + xx), 2 + (yy + xx), yy - xx, 1 + k);
    Symmetric(F, 2 - (yy + xx) - (yy - xx), 2 - (yy + xx) - (1 + k));
    Symmetric(F, 2 + (yy + xx) - (yy - xx), 2 + (yy + xx) - (1 + k));
  }

  lemma DoublingShape(c: int, v: int, l: int, w: int, yy: int)
    ensures (c * (v * l)) * (2 * w) == (2 * (c * v)) * (l * w) && (c * yy) * (2 * v) == (2 * (c * v)) * yy
  {
    MulAssoc(c, v, l);
    assert ((c * v) * l) * (2 * w) == (2 * (c * v)) * (l * w);
    assert (c * yy) * (2 * v) == (2 * (c * v)) * yy;
  }

  lemma DoublingRatio(F: Twisted, x: int, z: int, c: int, xx: int, yy: int, k: int)
    requires Squared(F, xx, yy) && Same(F, yy - xx, 1 + k)
    requires Same(F, x, c * yy) && Same(F, z, c * ((1 - yy) * (1 + F.a24 * (1 - yy))))
    ensures Same(F, x * ((1 - k) - (yy + xx)), z * ((1 - k) + (yy + xx)))
  {
    var (v, l) := (1 - yy, 1 + F.a24 * (1 - yy));
    hide *;
    DoubledSums(F, xx, yy, k);
    DoublingIdentity(F, xx, yy);
    SameMul(F, x, c * yy, (1 - k) - (yy + xx), 2 * v);
    SameMul(F, z, c * (v * l), (1 - k) + (yy + xx), 2 * (1 + xx));
    Itself(F, 2 * (c * v));
    SameMul(F, 2 * (c * v), 2 * (c * v), l * (1 + xx), yy);
    DoublingShape(c, v, l, 1 + xx, yy);
    Transitive(F, z * ((1 - k) + (yy + xx)), (c * (v * l)) * (2 * (1 + xx)), (c * yy) * (2 * v));
    SameAs(F, x * ((1 - k) - (yy + xx)), z * ((1 - k) + (yy + xx)), (c * yy) * (2 * v));
  }

  lemma OneMinusZero(F: Twisted, a: int)
    requires Zero(F, a)
    ensures !Zero(F, 1 - a)
  {
    hide Same;
    Itself(F, 1);
    ConstantsNotZero(F);
    SameSum(F, 1, 1, a, 0);
    Unfold(F, a);
    ZeroSame(F, 1 - a, 1);
  }

  lemma LadderConstantNotZero(F: Twisted)
    ensures !Zero(F, 1 + F.a24)
  {
    hide Same, Zero;
    TwistTimes(F);
    ConstantsNotZero(F);
    ZeroSame(F, (1 + F.a24) * (1 + F.d), 1);
    ZeroProduct(F, 1 + F.a24, 1 + F.d);
  }

  lemma DoubleNotZero(F: Twisted, x: int, z: int, c: int, y: int)
    requires !Zero(F, c) && Same(F, x, c * (y * y)) && Same(F, z, c * ((1 - y * y) * (1 + F.a24 * (1 - y * y))))
    ensures !(Zero(F, x) && Zero(F, z))
  {
    var (yy, l) := (y * y, 1 + F.a24 * (1 - y * y));
    if Zero(F, x) && Zero(F, z) {
      hide *;
      ZeroSame(F, x, c * yy);
      ZeroProduct(F, c, yy);
      ZeroSame(F, z, c * ((1 - yy) * l));
      ZeroProduct(F, c, (1 - yy) * l);
      ZeroProduct(F, 1 - yy, l);
      OneMinusZero(F, yy);
      LadderConstant(F, yy);
      ZeroSame(F, l, (1 + F.a24) * (1 + F.d * yy));
      ZeroProduct(F, (1 + F.a24), 1 + F.d * yy);
      TwistedNotZero(F, y);
      LadderConstantNotZero(F);
    }
  }

  /** The doubled pair shows the double of the point. */
  lemma DoubleIsU(F: Twisted, x: int, z: int, c: int, p: Affine)
    requires OnAffine(F, p)
    requires !Zero(F, c) && Same(F, x, c * (p.y * p.y))
    requires Same(F, z, c * ((1 - p.y * p.y) * (1 + F.a24 * (1 - p.y * p.y))))
    ensures IsU(F, x, z, AffineAdd(F, p, p).y)
  {
    var (xx, yy, k) := (p.x * p.x, p.y * p.y, F.d * ((p.x * p.y) * (p.x * p.y)));
    assert Same(F, yy - xx, 1 + k);
    AffineSquared(F, p);
    hide *;
    AddY(F, p, p);
    DoublingRatio(F, x, z, c, xx, yy, k);
    RatioBack(F, x, z, AffineAdd(F, p, p).y, 1 - k, yy + xx);
    DoubleNotZero(F, x, z, c, p.y);
    PairIsU(F, x, z, AffineAdd(F, p, p).y);
  }

  lemma SquaresApart(a: int, b: int)
    ensures (a - b) * (a + b) == a * a - b * b && (a + b) * (a - b) == a * a - b * b
  {
  }

  /** The four numerators and denominators multiply to the brackets. */
  lemma BracketsOf(F: Twisted, s: int, p: int, k: int)
    requires k == p * (F.d * s)
    ensures ((1 - k) - (s + p)) * ((1 + k) - (s - p)) == (1 - s) * (1 - s) - (p * p) * ((1 + F.d * s) * (1 + F.d * s))
    ensures ((1 - k) + (s + p)) * ((1 + k) + (s - p)) == (1 + s) * (1 + s) - (p * p) * ((1 - F.d * s) * (1 - F.d * s))
  {
    var (u, v) := (1 + F.d * s, 1 - F.d * s);
    assert p * u == p + k && p * v == p - k by {
      Distribute(p, 1, F.d * s);
      Distribute(p, 1, -(F.d * s));
      NegativeFactor(p, F.d * s);
    }
    Interchange(p, u, p, u);
    Interchange(p, v, p, v);
    hide *;
    SquaresApart(1 - s, p + k);
    SquaresApart(1 + s, p - k);
  }

  /** What the differential addition rests on, for the numerators and denominators of the sum
      and of the difference. */
  lemma SumRatio(F: Twisted, s: int, n: int, p: int, k: int, g: int, x1: int)
    requires Same(F, (p * p) * g, s * s - n + 1) && g == 1 + F.d * n + (F.d * F.d) * (s * s) && !Zero(F, g)
    requires k == p * (F.d * s) && Same(F, x1 * ((1 + k) - (s - p)), (1 + k) + (s - p)) && !Zero(F, (1 + k) - (s - p))
    ensures Same(F, (n + 2 * s) * ((1 - k) - (s + p)), (x1 * (n - 2 * s)) * ((1 - k) + (s + p)))
  {
    var (a, b, u, w) := ((1 - k) - (s + p), (1 - k) + (s + p), (1 + k) - (s - p), (1 + k) + (s - p));
    hide *;
    DifferenceIdentity(F, s, n, p * p, g);
    BracketsOf(F, s, p, k);
    Itself(F, (n - 2 * s) * b);
    SameMul(F, (n - 2 * s) * b, (n - 2 * s) * b, x1 * u, w);
    MulAssoc(n + 2 * s, a, u);
    MulAssoc(n - 2 * s, b, w);
    assert ((n - 2 * s) * b) * (x1 * u) == ((x1 * (n - 2 * s)) * b) * u by {
      MulAssoc((n - 2 * s) * b, x1, u);
      Swap((n - 2 * s) * b, x1);
      MulAssoc(x1, n - 2 * s, b);
    }
    SameAs(F, ((n + 2 * s) * a) * u, ((x1 * (n - 2 * s)) * b) * u, ((n - 2 * s) * b) * w);
    CancelFactor(F, (n + 2 * s) * a, (x1 * (n - 2 * s)) * b, u);
  }

  /** The difference's denominator less its numerator: zero only if its u does not exist. */
  lemma BaseNotZero(F: Twisted, x1: int, m: int, n: int)
    requires Same(F, x1 * (m - n), m + n) && !Zero(F, m)
    ensures !Zero(F, m - n)
  {
    if Zero(F, m - n) {
      hide Same, Zero;
      ZeroProduct(F, x1, m - n);
      ZeroSame(F, x1 * (m - n), m + n);
      TwiceZero(F, m, n);
    }
  }

  lemma SumOfSquares(y: int, y': int)
    ensures (y' + y) * (y' + y) == y * y + y' * y' + 2 * (y * y')
    ensures (y' - y) * (y' - y) == y * y + y' * y' - 2 * (y * y')
  {
    SquareOfSum(y', y);
    Swap(y, y');
  }

  lemma AtZero(F: Twisted, x1: int, p: int, u: int, w: int)
    requires Same(F, p * p, 1) && Same(F, u, 1 + p) && Same(F, w, 1 - p) && Same(F, x1 * u, w)
    ensures Zero(F, x1) || Zero(F, u)
  {
    hide Same, Zero;
    Symmetric(F, p * p, 1);
    Itself(F, 1);
    DifferenceZero(F, 1, p * p);
    SquaresApart(1, p);
    ZeroProduct(F, 1 - p, 1 + p);
    ZeroSame(F, u, 1 + p);
    ZeroSame(F, w, 1 - p);
    ZeroSame(F, x1 * u, w);
    ZeroProduct(F, x1, u);
  }

  /** Two points with y = 0 differ by one whose u is 0 or does not exist. */
  lemma BothAtZero(F: Twisted, x1: int, y: int, y': int, p: int, k: int, g: int)
    requires Zero(F, y) && Zero(F, y')
    requires Same(F, x1 * ((1 + k) - (y * y' - p)), (1 + k) + (y * y' - p)) && k == p * (F.d * (y * y'))
    requires Same(F, (p * p) * g, (y * y') * (y * y') - (y * y + y' * y') + 1)
    requires g == 1 + F.d * (y * y + y' * y') + (F.d * F.d) * ((y * y') * (y * y'))
    ensures Zero(F, x1) || Zero(F, (1 + k) - (y * y' - p))
  {
    var (s, n, q) := (y * y', y * y + y' * y', (y * y') * (y * y'));
    hide Same;
    SameMul(F, y, 0, y', 0);
    SameMul(F, y, 0, y, 0);
    SameMul(F, y', 0, y', 0);
    SameMul(F, s, 0, s, 0);
    SameSum(F, y * y, 0, y' * y', 0);
    hide *;
    Itself(F, F.d);
    Itself(F, F.d * F.d);
    Itself(F, p);
    Itself(F, 1);
    Itself(F, -1);
    Unfold(F, s);
    SameMul(F, F.d, F.d, s, 0);
    SameMul(F, p, p, F.d * s, 0);
    SameMul(F, F.d, F.d, n, 0);
    SameMul(F, F.d * F.d, F.d * F.d, q, 0);
    SameSum(F, 1, 1, F.d * n, 0);
    SameSum(F, 1 + F.d * n, 1, (F.d * F.d) * q, 0);
    assert Same(F, g, 1);
    Itself(F, p * p);
    SameMul(F, p * p, p * p, g, 1);
    SameSum(F, q, 0, n, 0);
    SameSum(F, q - n, 0, 1, 1);
    Symmetric(F, (p * p) * g, p * p);
    Transitive(F, p * p, (p * p) * g, q - n + 1);
    Transitive(F, p * p, q - n + 1, 1);
    SameSum(F, 1, 1, k, 0);
    SameSum(F, s, 0, p, p);
    SameSum(F, 1 + k, 1, s - p, -p);
    AtZero(F, x1, p, (1 + k) - (s - p), (1 + k) + (s - p));
  }

  /** The added pair is not zero throughout. */
  lemma SumNotZero(F: Twisted, x: int, z: int, x1: int, t: int, y: int, y': int, p: int, k: int, g: int)
    requires !Zero(F, t) && !Zero(F, x1) && !Zero(F, (1 + k) - (y * y' - p))
    requires Same(F, x, t * ((y' + y) * (y' + y))) && Same(F, z, x1 * (t * ((y' - y) * (y' - y))))
    requires Same(F, x1 * ((1 + k) - (y * y' - p)), (1 + k) + (y * y' - p)) && k == p * (F.d * (y * y'))
    requires Same(F, (p * p) * g, (y * y') * (y * y') - (y * y + y' * y') + 1)
    requires g == 1 + F.d * (y * y + y' * y') + (F.d * F.d) * ((y * y') * (y * y'))
    ensures !(Zero(F, x) && Zero(F, z))
  {
    if Zero(F, x) && Zero(F, z) {
      hide *;
      ZeroSame(F, x, t * ((y' + y) * (y' + y)));
      ZeroProduct(F, t, (y' + y) * (y' + y));
      ZeroProduct(F, y' + y, y' + y);
      ZeroSame(F, z, x1 * (t * ((y' - y) * (y' - y))));
      ZeroProduct(F, x1, t * ((y' - y) * (y' - y)));
      ZeroProduct(F, t, (y' - y) * (y' - y));
      ZeroProduct(F, y' - y, y' - y);
      TwiceZero(F, y', y);
      BothAtZero(F, x1, y, y', p, k, g);
    }
  }

  lemma AddedRatio(F: Twisted, x: int, z: int, x1: int, t: int, a: int, b: int, u: int, w: int)
    requires Same(F, x, t * a) && Same(F, z, x1 * (t * b)) && Same(F, a * u, (x1 * b) * w)
    ensures Same(F, x * u, z * w)
  {
    hide *;
    Itself(F, u);
    Itself(F, w);
    Itself(F, t);
    SameMul(F, x, t * a, u, u);
    SameMul(F, z, x1 * (t * b), w, w);
    SameMul(F, t, t, a * u, (x1 * b) * w);
    MulAssoc(t, a, u);
    assert (x1 * (t * b)) * w == t * ((x1 * b) * w) by {
      Outside(x1, t, b);
      MulAssoc(t, x1 * b, w);
    }
    Transitive(F, x * u, t * (a * u), t * ((x1 * b) * w));
    SameAs(F, x * u, z * w, t * ((x1 * b) * w));
  }

  /** The added pair shows the sum of two points whose difference has u = x1. */
  lemma SumIsU(F: Twisted, x: int, z: int, x1: int, t: int, p: Affine, r: Affine, yq: int)
    requires OnAffine(F, p) && OnAffine(F, r)
    requires !Zero(F, t) && !Zero(F, x1) && Same(F, x1 - 1, yq * (x1 + 1))
    requires Same(F, x, t * ((r.y + p.y) * (r.y + p.y))) && Same(F, z, x1 * (t * ((r.y - p.y) * (r.y - p.y))))
    requires Same(F, yq * (1 + F.d * ((p.x * p.y) * (r.x * r.y))), p.y * r.y - p.x * r.x)
    ensures IsU(F, x, z, AffineAdd(F, p, r).y)
  {
    var (s, m, n) := (p.y * r.y, p.x * r.x, p.y * p.y + r.y * r.y);
    var (k, g) := (F.d * ((p.x * p.y) * (r.x * r.y)), 1 + F.d * n + (F.d * F.d) * (s * s));
    AffineSquared(F, p);
    AffineSquared(F, r);
    hide *;
    AddY(F, p, r);
    assert k == m * (F.d * s) by {
      Interchange(p.x, p.y, r.x, r.y);
      Outside(m, F.d, s);
    }
    ProductOfSquares(F, p.x * p.x, p.y * p.y, r.x * r.x, r.y * r.y);
    Interchange(p.y, r.y, p.y, r.y);
    Interchange(p.x, r.x, p.x, r.x);
    TwistedNotZero(F, p.y);
    TwistedNotZero(F, r.y);
    ZeroProduct(F, 1 + F.d * (p.y * p.y), 1 + F.d * (r.y * r.y));
    RatioOfBase(F, x1, yq, 1 + k, s - m);
    BaseNotZero(F, x1, 1 + k, s - m);
    SumRatio(F, s, n, m, k, g, x1);
    SumOfSquares(p.y, r.y);
    AddedRatio(F, x, z, x1, t, n + 2 * s, n - 2 * s, (1 - k) - (s + m), (1 - k) + (s + m));
    RatioBack(F, x, z, AffineAdd(F, p, r).y, 1 - k, s + m);
    SumNotZero(F, x, z, x1, t, p.y, r.y, m, k, g);
    PairIsU(F, x, z, AffineAdd(F, p, r).y);
  }

  /* The formulas of the ladder */

  ghost function FSq(F: Field, a: int): int {
    FMul(F, a, a)
  }

  /** The body of the loop in section 5 of RFC 7748, over any field. */
  ghost function Differential(F: Field, x1: int, s: State): State {
    var a := FAdd(F, s.x2, s.z2);
    var aa := FSq(F, a);
    var b := FSub(F, s.x2, s.z2);
    var bb := FSq(F, b);
    var e := FSub(F, aa, bb);
    var c := FAdd(F, s.x3, s.z3);
    var d := FSub(F, s.x3, s.z3);
    var da := FMul(F, d, a);
    var cb := FMul(F, c, b);
    s.(x3 := FSq(F, FAdd(F, da, cb)),
       z3 := FMul(F, x1, FSq(F, FSub(F, da, cb))),
       x2 := FMul(F, aa, bb),
       z2 := FMul(F, e, FAdd(F, aa, FMul(F, F.a24, e))))
  }

  lemma SquareIn(F: Twisted, a: int, b: int)
    requires Same(F, a, b)
    ensures Same(F, FSq(F, a), b * b)
  {
    hide Same, FMul;
    SameMul(F, a, b, a, b);
  }

  lemma DoublingProducts(F: Twisted, c: int, yy: int)
    ensures c - yy * c == c * (1 - yy) && c * (yy * c) == (c * c) * yy
    ensures c + F.a24 * (c * (1 - yy)) == c * (1 + F.a24 * (1 - yy))
  {
    Distribute(c, 1, -yy);
    Outside(c, F.a24, 1 - yy);
    Distribute(c, 1, F.a24 * (1 - yy));
    Outside(c, yy, c);
    Swap(yy, c);
    Swap(yy, c * c);
    NegativeFactor(c, yy);
  }

  lemma DoublingIn(F: Twisted, s: State, y: int)
    requires Same(F, s.x2 - s.z2, y * (s.x2 + s.z2))
    ensures var (r, a) := (Differential(F, 0, s), s.x2 + s.z2);
      && Same(F, r.x2, ((a * a) * (a * a)) * (y * y))
      && Same(F, r.z2, ((a * a) * (a * a)) * ((1 - y * y) * (1 + F.a24 * (1 - y * y))))
  {
    var (a, yy) := (s.x2 + s.z2, y * y);
    var (aa, bb) := (FSq(F, FAdd(F, s.x2, s.z2)), FSq(F, FSub(F, s.x2, s.z2)));
    var e := FSub(F, aa, bb);
    assert Differential(F, 0, s).x2 == FMul(F, aa, bb);
    assert Differential(F, 0, s).z2 == FMul(F, e, FAdd(F, aa, FMul(F, F.a24, e)));
    hide *;
    Itself(F, s.x2);
    Itself(F, s.z2);
    Itself(F, F.a24);
    SameSum(F, s.x2, s.x2, s.z2, s.z2);
    Transitive(F, FSub(F, s.x2, s.z2), s.x2 - s.z2, y * a);
    SquareIn(F, FAdd(F, s.x2, s.z2), a);
    SquareIn(F, FSub(F, s.x2, s.z2), y * a);
    Interchange(y, a, y, a);
    var c := a * a;
    SameSum(F, aa, c, bb, yy * c);
    SameMul(F, aa, c, bb, yy * c);
    DoublingProducts(F, c, yy);
    SameMul(F, F.a24, F.a24, e, c * (1 - yy));
    SameSum(F, aa, c, FMul(F, F.a24, e), F.a24 * (c * (1 - yy)));
    SameMul(F, e, c * (1 - yy), FAdd(F, aa, FMul(F, F.a24, e)), c * (1 + F.a24 * (1 - yy)));
    Interchange(c, 1 - yy, c, 1 + F.a24 * (1 - yy));
  }

  lemma AddingProducts(a: int, c: int, y: int, y': int)
    ensures (y' * c) * a == (c * a) * y' && c * (y * a) == (c * a) * y
    ensures (c * a) * y' + (c * a) * y == (c * a) * (y' + y) && (c * a) * y' - (c * a) * y == (c * a) * (y' - y)
  {
    MulAssoc(y', c, a);
    Swap(y', c * a);
    Outside(c, y, a);
    Swap(y, c * a);
    Distribute(c * a, y', y);
    Distribute(c * a, y', -y);
    NegativeFactor(c * a, y);
  }

  lemma AddingIn(F: Twisted, x1: int, s: State, y: int, y': int)
    requires Same(F, s.x2 - s.z2, y * (s.x2 + s.z2)) && Same(F, s.x3 - s.z3, y' * (s.x3 + s.z3))
    ensures var (r, t) := (Differential(F, x1, s), (s.x3 + s.z3) * (s.x2 + s.z2));
      && Same(F, r.x3, (t * t) * ((y' + y) * (y' + y)))
      && Same(F, r.z3, x1 * ((t * t) * ((y' - y) * (y' - y))))
  {
    var (a, c) := (s.x2 + s.z2, s.x3 + s.z3);
    var t := c * a;
    var da := FMul(F, FSub(F, s.x3, s.z3), FAdd(F, s.x2, s.z2));
    var cb := FMul(F, FAdd(F, s.x3, s.z3), FSub(F, s.x2, s.z2));
    assert Differential(F, x1, s).x3 == FSq(F, FAdd(F, da, cb));
    assert Differential(F, x1, s).z3 == FMul(F, x1, FSq(F, FSub(F, da, cb)));
    hide *;
    Itself(F, s.x2);
    Itself(F, s.z2);
    Itself(F, s.x3);
    Itself(F, s.z3);
    Itself(F, x1);
    SameSum(F, s.x2, s.x2, s.z2, s.z2);
    SameSum(F, s.x3, s.x3, s.z3, s.z3);
    Transitive(F, FSub(F, s.x2, s.z2), s.x2 - s.z2, y * a);
    Transitive(F, FSub(F, s.x3, s.z3), s.x3 - s.z3, y' * c);
    SameMul(F, FSub(F, s.x3, s.z3), y' * c, FAdd(F, s.x2, s.z2), a);
    SameMul(F, FAdd(F, s.x3, s.z3), c, FSub(F, s.x2, s.z2), y * a);
    AddingProducts(a, c, y, y');
    SameSum(F, da, t * y', cb, t * y);
    SquareIn(F, FAdd(F, da, cb), t * (y' + y));
    SquareIn(F, FSub(F, da, cb), t * (y' - y));
    Interchange(t, y' + y, t, y' + y);
    Interchange(t, y' - y, t, y' - y);
    SameMul(F, x1, x1, FSq(F, FSub(F, da, cb)), (t * t) * ((y' - y) * (y' - y)));
  }

  /** Sums and differences of the four coordinates, with x2 - z2 = y (x2 + z2) and the same for
      the other pair. */
  lemma FormulasIn(F: Twisted, x1: int, s: State, y: int, y': int)
    requires Same(F, s.x2 - s.z2, y * (s.x2 + s.z2)) && Same(F, s.x3 - s.z3, y' * (s.x3 + s.z3))
    ensures var (r, a, t) := (Differential(F, x1, s), s.x2 + s.z2, (s.x3 + s.z3) * (s.x2 + s.z2));
      && Same(F, r.x2, ((a * a) * (a * a)) * (y * y))
      && Same(F, r.z2, ((a * a) * (a * a)) * ((1 - y * y) * (1 + F.a24 * (1 - y * y))))
      && Same(F, r.x3, (t * t) * ((y' + y) * (y' + y)))
      && Same(F, r.z3, x1 * ((t * t) * ((y' - y) * (y' - y))))
  {
    DoublingIn(F, s, y);
    AddingIn(F, x1, s, y, y');
  }

  /* The ladder */

  /** One application of the formulas to pairs that show p and r. */
  lemma FormulasShow(F: Twisted, x1: int, s: State, p: Affine, r: Affine, yq: int)
    requires OnAffine(F, p) && OnAffine(F, r)
    requires !Zero(F, x1) && Same(F, x1 - 1, yq * (x1 + 1))
    requires Same(F, yq * (1 + F.d * ((p.x * p.y) * (r.x * r.y))), p.y * r.y - p.x * r.x)
    requires IsU(F, s.x2, s.z2, p.y) && IsU(F, s.x3, s.z3, r.y)
    ensures var f := Differential(F, x1, s);
      IsU(F, f.x2, f.z2, AffineAdd(F, p, p).y) && IsU(F, f.x3, f.z3, AffineAdd(F, p, r).y)
  {
    var (f, a, c) := (Differential(F, x1, s), s.x2 + s.z2, s.x3 + s.z3);
    assert !Zero(F, a) && !Zero(F, c) && Same(F, s.x2 - s.z2, p.y * a) && Same(F, s.x3 - s.z3, r.y * c);
    hide *;
    FormulasIn(F, x1, s, p.y, r.y);
    ZeroProduct(F, a, a);
    ZeroProduct(F, a * a, a * a);
    ZeroProduct(F, c, a);
    ZeroProduct(F, c * a, c * a);
    DoubleIsU(F, f.x2, f.z2, (a * a) * (a * a), p);
    SumIsU(F, f.x3, f.z3, x1, (c * a) * (c * a), p, r, yq);
  }

  lemma TimesOn(F: Twisted, k: nat, q: Affine)
    requires OnAffine(F, q)
    ensures OnAffine(F, Times(F, k, q))
  {
    hide OnAffine, AffineAdd, Multiple, Monoid;
    CurveGroup(F);
    MultipleOn(Points(F), Law(F), ORIGIN, k, q);
  }

  lemma TimesNext(F: Twisted, m: nat, q: Affine)
    requires OnAffine(F, q)
    ensures Times(F, 0, q) == ORIGIN && Times(F, m + 1, q) == AffineAdd(F, Times(F, m, q), q)
  {
    TimesOn(F, m, q);
    hide AffineAdd, OnAffine;
    AddCommutes(F, Times(F, m, q), q);
  }

  lemma TimesAdd(F: Twisted, j: nat, k: nat, q: Affine)
    requires OnAffine(F, q)
    ensures Times(F, j + k, q) == AffineAdd(F, Times(F, j, q), Times(F, k, q))
  {
    hide AffineAdd, OnAffine, Multiple, Monoid;
    CurveGroup(F);
    MultipleAdd(Points(F), Law(F), ORIGIN, j, k, q);
  }

  /** The two pairs show the multiples m and m + 1. */
  ghost predicate Shows(F: Twisted, s: State, m: nat, q: Affine) {
    IsU(F, s.x2, s.z2, Times(F, m, q).y) && IsU(F, s.x3, s.z3, Times(F, m + 1, q).y)
  }

  /** The pairs exchanged. */
  function Exchange(s: State): State {
    State(s.x3, s.z3, s.x2, s.z2, s.swap)
  }

  ghost function StepIn(F: Twisted, x1: int, bit: int, s: State): State {
    Differential(F, x1, Cswap((s.swap + bit) % 2, s)).(swap := bit)
  }

  lemma StepOnClear(F: Twisted, x1: int, s: State)
    requires 0 <= s.swap <= 1
    ensures var (f, g) := (Differential(F, x1, Cswap(s.swap, s)), Cswap(0, StepIn(F, x1, 0, s)));
      g.x2 == f.x2 && g.z2 == f.z2 && g.x3 == f.x3 && g.z3 == f.z3
  {
    hide FMul, FAdd, FSub, FSq;
  }

  lemma StepOnSet(F: Twisted, x1: int, s: State)
    requires 0 <= s.swap <= 1
    ensures var (f, g) := (Differential(F, x1, Exchange(Cswap(s.swap, s))), Cswap(1, StepIn(F, x1, 1, s)));
      g.x2 == f.x3 && g.z2 == f.z3 && g.x3 == f.x2 && g.z3 == f.z2
  {
    hide FMul, FAdd, FSub, FSq;
  }

  lemma DifferenceSwaps(F: Twisted, p: Affine, r: Affine, yq: int)
    requires OnAffine(F, p) && OnAffine(F, r)
    requires Same(F, yq * (1 + F.d * ((p.x * p.y) * (r.x * r.y))), p.y * r.y - p.x * r.x)
    ensures Same(F, yq * (1 + F.d * ((r.x * r.y) * (p.x * p.y))), r.y * p.y - r.x * p.x)
  {
    hide *;
    Swap(p.x * p.y, r.x * r.y);
    Swap(p.y, r.y);
    Swap(p.x, r.x);
  }

  lemma ClearStepShows(F: Twisted, x1: int, s: State, m: nat, q: Affine)
    requires OnAffine(F, q) && 0 <= s.swap <= 1 && !Zero(F, x1) && Same(F, x1 - 1, q.y * (x1 + 1))
    requires Shows(F, Cswap(s.swap, s), m, q)
    ensures Shows(F, Cswap(0, StepIn(F, x1, 0, s)), 2 * m, q)
  {
    var (p, r) := (Times(F, m, q), Times(F, m + 1, q));
    TimesOn(F, m, q);
    TimesOn(F, m + 1, q);
    hide OnAffine, IsU, Same, Zero, AffineAdd, Differential, Times, StepIn, Cswap;
    TimesNext(F, m, q);
    DifferenceY(F, p, q);
    TimesAdd(F, m, m, q);
    TimesAdd(F, m, m + 1, q);
    StepOnClear(F, x1, s);
    FormulasShow(F, x1, Cswap(s.swap, s), p, r, q.y);
  }

  lemma SetStepShows(F: Twisted, x1: int, s: State, m: nat, q: Affine)
    requires OnAffine(F, q) && 0 <= s.swap <= 1 && !Zero(F, x1) && Same(F, x1 - 1, q.y * (x1 + 1))
    requires Shows(F, Cswap(s.swap, s), m, q)
    ensures Shows(F, Cswap(1, StepIn(F, x1, 1, s)), 2 * m + 1, q)
  {
    var (p, r) := (Times(F, m, q), Times(F, m + 1, q));
    TimesOn(F, m, q);
    TimesOn(F, m + 1, q);
    hide OnAffine, IsU, Same, Zero, AffineAdd, Differential, Times, StepIn, Cswap;
    TimesNext(F, m, q);
    DifferenceY(F, p, q);
    TimesAdd(F, m, m + 1, q);
    TimesAdd(F, m + 1, m + 1, q);
    StepOnSet(F, x1, s);
    AddCommutes(F, p, r);
    DifferenceSwaps(F, p, r, q.y);
    FormulasShow(F, x1, Exchange(Cswap(s.swap, s)), r, p, q.y);
  }

  /** One step turns m into 2 m + b. */
  lemma StepShows(F: Twisted, x1: int, b: int, s: State, m: nat, q: Affine)
    requires OnAffine(F, q) && 0 <= b <= 1 && 0 <= s.swap <= 1 && !Zero(F, x1) && Same(F, x1 - 1, q.y * (x1 + 1))
    requires Shows(F, Cswap(s.swap, s), m, q)
    ensures Shows(F, Cswap(b, StepIn(F, x1, b, s)), 2 * m + b, q)
  {
    hide *;
    if b == 0 {
      ClearStepShows(F, x1, s, m, q);
    } else {
      SetStepShows(F, x1, s, m, q);
    }
  }

  /** The ladder after the bits n - 1 down to t of the scalar. */
  ghost function LadderIn(F: Twisted, k: nat, x1: int, n: nat, t: nat): (s: State)
    requires t <= n
    ensures 0 <= s.swap <= 1
    decreases n - t
  {
    if t == n then State(1, 0, x1, 1, 0) else StepIn(F, x1, High(k, t) % 2, LadderIn(F, k, x1, n, t + 1))
  }

  /** The quotient of the first pair. */
  ghost function NumberIn(F: Twisted, k: nat, n: nat, u: int): int {
    var s := LadderIn(F, k, u % F.p, n, 0);
    var r := Cswap(s.swap, s);
    FMul(F, r.x2, FPower(F, r.z2, F.p - 2))
  }

  lemma NothingAbove(k: nat, n: nat)
    requires k < Pow(2, n)
    ensures High(k, n) == 0
  {
    hide Pow;
    DivModUnique(k, Pow(2, n), 0, k);
  }

  lemma LadderStart(F: Twisted, k: nat, x1: int, n: nat)
    ensures LadderIn(F, k, x1, n, n) == State(1, 0, x1, 1, 0) == Cswap(0, State(1, 0, x1, 1, 0))
  {
  }

  lemma LadderStep(F: Twisted, k: nat, x1: int, n: nat, t: nat)
    requires t < n
    ensures LadderIn(F, k, x1, n, t) == StepIn(F, x1, High(k, t) % 2, LadderIn(F, k, x1, n, t + 1))
    ensures LadderIn(F, k, x1, n, t).swap == High(k, t) % 2
  {
    hide Differential, High;
  }

  lemma StartShows(F: Twisted, x1: int, q: Affine)
    requires OnAffine(F, q)
    requires !Zero(F, x1) && Same(F, x1 - 1, q.y * (x1 + 1))
    ensures Shows(F, State(1, 0, x1, 1, 0), 0, q)
  {
    TimesNext(F, 0, q);
    AddOrigin(F, q);
    hide AffineAdd, Times, Same;
    ConstantsNotZero(F);
    Itself(F, 1);
    if Zero(F, x1 + 1) {
      ZeroProduct(F, q.y, x1 + 1);
      ZeroSame(F, x1 - 1, q.y * (x1 + 1));
      TwiceZero(F, x1, 1);
    }
  }

  /** The ladder invariant: the high bits with value m have built m q and (m + 1) q. */
  lemma {:induction false} LadderShows(F: Twisted, k: nat, x1: int, n: nat, t: nat, q: Affine)
    requires OnAffine(F, q)
    requires t <= n && k < Pow(2, n) && !Zero(F, x1) && Same(F, x1 - 1, q.y * (x1 + 1))
    ensures var s := LadderIn(F, k, x1, n, t); Shows(F, Cswap(s.swap, s), High(k, t), q)
    decreases n - t
  {
    hide *;
    if t == n {
      NothingAbove(k, n);
      LadderStart(F, k, x1, n);
      StartShows(F, x1, q);
    } else {
      var (s, m) := (LadderIn(F, k, x1, n, t + 1), High(k, t));
      HighStep(k, t);
      LadderShows(F, k, x1, n, t + 1, q);
      StepShows(F, x1, m % 2, s, m / 2, q);
      LadderStep(F, k, x1, n, t);
    }
  }

  /* What is computed */

  /** u = (1 + y) / (1 - y), and 0 for the neutral element, which has none. */
  ghost function UOf(F: Twisted, a: Affine): int {
    if Zero(F, 1 - a.y) then 0 else Quot(F, 1 + a.y, 1 - a.y)
  }

  lemma {:induction false} ZeroPower(F: Twisted, z: int, e: nat)
    requires Zero(F, z) && e > 0
    ensures Zero(F, Pow(z, e))
  {
    hide Zero;
    assert Pow(z, e) == z * Pow(z, e - 1);
    ZeroProduct(F, z, Pow(z, e - 1));
  }

  lemma TimesZeroPower(F: Twisted, x: int, z: int)
    requires Zero(F, z)
    ensures FMul(F, x, FPower(F, z, F.p - 2)) == 0
  {
    ZeroPower(F, z, F.p - 2);
    ZeroDivides(F, Pow(z, F.p - 2));
    hide Pow;
    assert FPower(F, z, F.p - 2) == 0;
    ModSmall(0, F.p);
  }

  /** Cross multiplied, sum and difference say that x : z is 1 + y : 1 - y. */
  lemma CrossU(F: Twisted, x: int, z: int, y: int)
    ensures Same(F, x - z, y * (x + z)) <==> Same(F, x * (1 - y), z * (1 + y))
  {
    hide Same;
    DifferenceZero(F, x - z, y * (x + z));
    DifferenceZero(F, x * (1 - y), z * (1 + y));
    Distribute(y, x, z);
    Distribute(x, 1, -y);
    Distribute(z, 1, y);
    NegativeFactor(x, y);
    Swap(x, y);
    Swap(z, y);
  }

  lemma TwoFromHalves(F: Twisted, y: int)
    ensures !(Zero(F, 1 - y) && Zero(F, 1 + y))
  {
    if Zero(F, 1 - y) && Zero(F, 1 + y) {
      hide Zero;
      TwiceZero(F, 1, y);
      ConstantsNotZero(F);
    }
  }

  lemma ZeroSum(F: Twisted, x: int, z: int)
    requires Zero(F, x) && Zero(F, z)
    ensures Zero(F, x + z)
  {
    hide Same;
    SameSum(F, x, 0, z, 0);
  }

  lemma UFromQuot(F: Twisted, w: int, x: int, z: int, y: int)
    requires 0 <= w < F.p && Same(F, w * z, x) && Same(F, x * (1 - y), z * (1 + y)) && !Zero(F, z) && !Zero(F, 1 - y)
    ensures w == Quot(F, 1 + y, 1 - y)
  {
    hide *;
    Itself(F, 1 - y);
    SameMul(F, w * z, x, 1 - y, 1 - y);
    Transitive(F, (w * z) * (1 - y), x * (1 - y), z * (1 + y));
    assert (w * z) * (1 - y) == (w * (1 - y)) * z by {
      Swap(z, 1 - y);
      MulAssoc(w, z, 1 - y);
      MulAssoc(w, 1 - y, z);
    }
    Swap(z, 1 + y);
    CancelFactor(F, w * (1 - y), 1 + y, z);
    QuotUnique(F, w, 1 + y, 1 - y);
  }

  lemma NumberIs(F: Twisted, x: int, z: int, a: Affine)
    requires OnAffine(F, a)
    requires IsU(F, x, z, a.y)
    ensures FMul(F, x, FPower(F, z, F.p - 2)) == UOf(F, a)
  {
    var (y, w) := (a.y, FMul(F, x, FPower(F, z, F.p - 2)));
    CrossU(F, x, z, y);
    assert !Zero(F, x + z) && Same(F, x * (1 - y), z * (1 + y));
    hide Same, Zero, Quot, FPower;
    ZeroSame(F, x * (1 - y), z * (1 + y));
    ZeroProduct(F, x, 1 - y);
    ZeroProduct(F, z, 1 + y);
    if Zero(F, 1 - y) {
      if !Zero(F, z) {
        TwoFromHalves(F, y);
      }
      TimesZeroPower(F, x, z);
    } else {
      if Zero(F, z) {
        ZeroSum(F, x, z);
      }
      FermatQuot(F, x, z, FPower(F, z, F.p - 2));
      UFromQuot(F, w, x, z, y);
    }
  }

  /* The points whose u is 0 */

  /** With x1 = 0 both pairs always have a coordinate that is 0. */
  ghost predicate Degenerate(F: Twisted, s: State) {
    Zero(F, s.x2 * s.z2) && Zero(F, s.x3 * s.z3)
  }

  lemma DegenerateIs(F: Twisted, s: State)
    requires Zero(F, s.x2 * s.z2) && Zero(F, s.x3 * s.z3)
    ensures Degenerate(F, s)
  {
  }

  lemma ZeroIsZero(F: Twisted)
    ensures Zero(F, 0)
  {
  }

  lemma ZeroProducts(F: Twisted, x: int, z: int)
    requires Zero(F, z)
    ensures Zero(F, x * z)
  {
    hide Zero;
    ZeroProduct(F, x, z);
  }

  lemma TimesZeroSame(F: Twisted, a: int, b: int)
    requires Zero(F, a)
    ensures Zero(F, FMul(F, a, b))
  {
    hide *;
    MulSame(F, a, b);
    ZeroProduct(F, a, b);
    ZeroSame(F, FMul(F, a, b), a * b);
  }

  /** (x + z)^2 - (x - z)^2 = 4 x z. */
  lemma FourProduct(F: Twisted, x: int, z: int, aa: int, bb: int)
    requires Zero(F, x * z) && aa == FSq(F, FAdd(F, x, z)) && bb == FSq(F, FSub(F, x, z))
    ensures Zero(F, FSub(F, aa, bb))
  {
    hide *;
    Itself(F, x);
    Itself(F, z);
    SameSum(F, x, x, z, z);
    SquareIn(F, FAdd(F, x, z), x + z);
    SquareIn(F, FSub(F, x, z), x - z);
    SameSum(F, aa, (x + z) * (x + z), bb, (x - z) * (x - z));
    SquareOfSum(x, z);
    ZeroProducts(F, 4, x * z);
    ZeroSame(F, FSub(F, aa, bb), 4 * (x * z));
  }

  lemma DifferentialParts(F: Field, x1: int, s: State)
    ensures var (aa, bb, f) := (FSq(F, FAdd(F, s.x2, s.z2)), FSq(F, FSub(F, s.x2, s.z2)), Differential(F, x1, s));
      && f.z2 == FMul(F, FSub(F, aa, bb), FAdd(F, aa, FMul(F, F.a24, FSub(F, aa, bb))))
      && (exists b :: f.z3 == FMul(F, x1, b))
  {
    hide FMul, FAdd, FSub, FSq;
  }

  lemma DegenerateOnly(F: Twisted, s: State)
    requires Degenerate(F, s)
    ensures Zero(F, s.x2 * s.z2)
  {
  }

  lemma FormulasDegenerate(F: Twisted, s: State)
    requires Degenerate(F, s)
    ensures Degenerate(F, Differential(F, 0, s))
  {
    var (aa, bb) := (FSq(F, FAdd(F, s.x2, s.z2)), FSq(F, FSub(F, s.x2, s.z2)));
    var (e, f) := (FSub(F, aa, bb), Differential(F, 0, s));
    hide *;
    DegenerateOnly(F, s);
    DifferentialParts(F, 0, s);
    var b :| f.z3 == FMul(F, 0, b);
    FourProduct(F, s.x2, s.z2, aa, bb);
    TimesZeroSame(F, e, FAdd(F, aa, FMul(F, F.a24, e)));
    ZeroProducts(F, f.x2, f.z2);
    ZeroIsZero(F);
    TimesZeroSame(F, 0, b);
    ZeroProducts(F, f.x3, f.z3);
    DegenerateIs(F, f);
  }

  lemma ZeroResidue(F: Twisted, m: int, a: int, b: int)
    requires m == FMul(F, a, b) && Zero(F, m)
    ensures m == 0
  {
    MulSame(F, a, b);
    hide FMul;
    SameResidues(F, m, 0);
  }

  lemma {:induction false} LadderDegenerate(F: Twisted, k: nat, n: nat, t: nat)
    requires t <= n
    ensures Degenerate(F, LadderIn(F, k, 0, n, t))
    decreases n - t
  {
    if t == n {
      ZeroIsZero(F);
    } else {
      hide Zero, Differential, High;
      var s := LadderIn(F, k, 0, n, t + 1);
      LadderDegenerate(F, k, n, t + 1);
      LadderStep(F, k, 0, n, t);
      FormulasDegenerate(F, Cswap((s.swap + High(k, t) % 2) % 2, s));
    }
  }

  lemma NumberOfZero(F: Twisted, k: nat, n: nat, u: int)
    requires u % F.p == 0
    ensures NumberIn(F, k, n, u) == 0
  {
    hide Zero, LadderIn, FPower, FMul;
    var s := LadderIn(F, k, 0, n, 0);
    LadderDegenerate(F, k, n, 0);
    var r := Cswap(s.swap, s);
    ZeroProduct(F, r.x2, r.z2);
    assert Zero(F, r.x2) || Zero(F, r.z2);
    if Zero(F, r.z2) {
      TimesZeroPower(F, r.x2, r.z2);
    } else {
      TimesZeroSame(F, r.x2, FPower(F, r.z2, F.p - 2));
      ZeroResidue(F, FMul(F, r.x2, FPower(F, r.z2, F.p - 2)), r.x2, FPower(F, r.z2, F.p - 2));
    }
  }

  /* The points with y = 1 and y = -1 */

  lemma OnePlusTwist(F: Twisted)
    ensures !Zero(F, 1 + F.d)
  {
    hide Same, Zero;
    TwistTimes(F);
    ConstantsNotZero(F);
    ZeroSame(F, (1 + F.a24) * (1 + F.d), 1);
    ZeroProduct(F, 1 + F.a24, 1 + F.d);
  }

  /** Where y^2 = 1, x is 0. */
  lemma PoleX(F: Twisted, a: Affine)
    requires OnAffine(F, a)
    requires Same(F, a.y * a.y, 1)
    ensures a.x == 0
  {
    var (xx, yy) := (a.x * a.x, a.y * a.y);
    AffineSquared(F, a);
    XFromY(F, xx, yy);
    assert 0 <= a.x < F.p;
    hide *;
    Itself(F, 1);
    Itself(F, F.d);
    Itself(F, xx);
    SameMul(F, F.d, F.d, yy, 1);
    SameSum(F, 1, 1, F.d * yy, F.d);
    SameMul(F, xx, xx, 1 + F.d * yy, 1 + F.d);
    DifferenceZero(F, yy, 1);
    ZeroSame(F, xx * (1 + F.d * yy), yy - 1);
    ZeroSame(F, xx * (1 + F.d * yy), xx * (1 + F.d));
    OnePlusTwist(F);
    ZeroProduct(F, xx, 1 + F.d);
    ZeroProduct(F, a.x, a.x);
    Unfold(F, a.x);
    SameResidues(F, a.x, 0);
  }

  lemma NegativeIsSame(F: Twisted, a: Affine)
    requires OnAffine(F, a)
    requires a.x == 0
    ensures Negative(F, a) == a
  {
  }

  /** Such a point is its own negative, and its u is 0. */
  lemma PoleDoubles(F: Twisted, a: Affine)
    requires OnAffine(F, a)
    requires Zero(F, 1 - a.y) || Zero(F, 1 + a.y)
    ensures AffineAdd(F, a, a) == ORIGIN && UOf(F, a) == 0
  {
    hide Same, Zero, AffineAdd, Quot;
    SquaresApart(1, a.y);
    ZeroProduct(F, 1 - a.y, 1 + a.y);
    DifferenceZero(F, 1, a.y * a.y);
    Symmetric(F, 1, a.y * a.y);
    PoleX(F, a);
    AddNegative(F, a);
    NegativeIsSame(F, a);
    if !Zero(F, 1 - a.y) {
      Unfold(F, 1 + a.y);
      QuotZero(F, 1 + a.y, 1 - a.y);
    }
  }

  lemma UOfOrigin(F: Twisted)
    ensures UOf(F, ORIGIN) == 0
  {
    ZeroIsZero(F);
  }

  lemma {:induction false} PoleMultiples(F: Twisted, k: nat, a: Affine)
    requires OnAffine(F, a)
    requires Zero(F, 1 - a.y) || Zero(F, 1 + a.y)
    ensures UOf(F, Times(F, k, a)) == 0 && (Times(F, k, a) == ORIGIN || Times(F, k, a) == a)
  {
    hide UOf, AffineAdd;
    if k == 0 {
      TimesNext(F, 0, a);
      UOfOrigin(F);
    } else {
      PoleMultiples(F, k - 1, a);
      TimesNext(F, k - 1, a);
      PoleDoubles(F, a);
      AddOrigin(F, a);
      UOfOrigin(F);
    }
  }

  /* What X25519 computes */

  lemma UOfRange(F: Twisted, a: Affine)
    requires OnAffine(F, a)
    ensures 0 <= UOf(F, a) < F.p
    ensures !Zero(F, 1 - a.y) ==> Same(F, UOf(F, a) * (1 - a.y), 1 + a.y)
  {
    if !Zero(F, 1 - a.y) {
      QuotTimes(F, 1 + a.y, 1 - a.y);
    }
  }

  lemma ShowsFirst(F: Twisted, s: State, m: nat, q: Affine)
    requires OnAffine(F, q)
    requires Shows(F, s, m, q)
    ensures IsU(F, s.x2, s.z2, Times(F, m, q).y)
  {
  }

  /** On the u-coordinate of any curve point the ladder computes that of its multiple. */
  lemma NumberMultiplies(F: Twisted, k: nat, n: nat, q: Affine)
    requires OnAffine(F, q) && k < Pow(2, n)
    ensures NumberIn(F, k, n, UOf(F, q)) == UOf(F, Times(F, k, q))
  {
    var u := UOf(F, q);
    UOfRange(F, q);
    TimesOn(F, k, q);
    hide Same, Zero, UOf, LadderIn, Shows, Times, FMul, FPower, Degenerate, OnAffine, Pow, High;
    ModSmall(u, F.p);
    if Zero(F, 1 - q.y) || Zero(F, 1 + q.y) {
      PoleDoubles(F, q);
      NumberOfZero(F, k, n, u);
      PoleMultiples(F, k, q);
    } else {
      CrossU(F, u, 1, q.y);
      assert 1 * (1 + q.y) == 1 + q.y;
      ZeroSame(F, u * (1 - q.y), 1 + q.y);
      ZeroProduct(F, u, 1 - q.y);
      LadderShows(F, k, u, n, 0, q);
      var s := LadderIn(F, k, u, n, 0);
      HighAll(k);
      ShowsFirst(F, Cswap(s.swap, s), k, q);
      NumberIs(F, Cswap(s.swap, s).x2, Cswap(s.swap, s).z2, Times(F, k, q));
    }
  }

  lemma {:induction false} TimesTimes(F: Twisted, j: nat, k: nat, q: Affine)
    requires OnAffine(F, q)
    ensures j * k >= 0 && Times(F, j, Times(F, k, q)) == Times(F, j * k, q)
  {
    TimesOn(F, k, q);
    hide AffineAdd, OnAffine, Times;
    if j == 0 {
      TimesNext(F, 0, q);
      TimesNext(F, 0, Times(F, k, q));
    } else {
      TimesTimes(F, j - 1, k, q);
      TimesNext(F, j - 1, Times(F, k, q));
      TimesAdd(F, (j - 1) * k, k, q);
      assert (j - 1) * k + k == j * k;
    }
  }

  lemma TimesCommute(F: Twisted, j: nat, k: nat, q: Affine)
    requires OnAffine(F, q)
    ensures Times(F, j, Times(F, k, q)) == Times(F, k, Times(F, j, q))
  {
    hide *;
    TimesTimes(F, j, k, q);
    TimesTimes(F, k, j, q);
    Swap(j, k);
  }
}
