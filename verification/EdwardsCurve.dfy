/** The curve equation in extended coordinates, and that the formulas never leave the curve. */
module EdwardsCurve {
  import opened Arith
  import opened PrimeField
  import opened EdwardsFormulas
  import opened EdwardsLaw

  /** -X^2 + Y^2 = Z^2 + d T^2, the curve equation of section 5.1 of RFC 8032 with x = X/Z and
      y = Y/Z for a point with T Z = X Y. */
  ghost predicate OnCurve(F: Field, p: Coords) {
    && Linked(F, p)
    && Same(F, p.y * p.y - p.x * p.x, p.z * p.z + F.d * (p.t * p.t))
  }

  /* Identities */

  lemma FourTerms(a: int, b: int, c: int, d: int)
    ensures (a + b) * (c - d) == a * c - a * d + b * c - b * d
  {
  }

  /** (x1 y2 + x2 y1)(y1 y2 - x1 x2) in terms of x y and y^2 - x^2 of either point. */
  lemma MixedProduct(x: int, y: int, u: int, v: int)
    ensures (x * v + u * y) * (y * v - x * u) == (x * y) * (v * v - u * u) + (u * v) * (y * y - x * x)
  {
    assert (x * v) * (y * v) == (x * y) * (v * v);
    assert (x * v) * (x * u) == (u * v) * (x * x);
    assert (u * y) * (y * v) == (u * v) * (y * y);
    assert (u * y) * (x * u) == (x * y) * (u * u);
    FourTerms(x * v, u * y, y * v, x * u);
    assert (x * y) * (v * v - u * u) == (x * y) * (v * v) - (x * y) * (u * u);
    assert (u * v) * (y * y - x * x) == (u * v) * (y * y) - (u * v) * (x * x);
  }

  lemma ProductOfTwoSums(a: int, b: int, c: int, d: int)
    ensures (a + b) * (c + d) == a * c + a * d + b * c + b * d
  {
  }

  /** The same for z, t in place of x, y on the other side of the curve equation. */
  lemma MixedDenominators(z: int, t: int, w: int, s: int, d: int)
    ensures (z * t) * (w * w + d * (s * s)) + (w * s) * (z * z + d * (t * t)) ==
            (z * w + d * (t * s)) * (z * s + w * t)
  {
    assert (z * w) * (z * s) == (w * s) * (z * z);
    assert (z * w) * (w * t) == (z * t) * (w * w);
    assert (t * s) * (z * s) == (z * t) * (s * s);
    assert (t * s) * (w * t) == (w * s) * (t * t);
    assert (d * (t * s)) * (z * s) == d * ((t * s) * (z * s));
    assert (d * (t * s)) * (w * t) == d * ((t * s) * (w * t));
    assert (z * t) * (d * (s * s)) == d * ((z * t) * (s * s));
    assert (w * s) * (d * (t * t)) == d * ((w * s) * (t * t));
    ProductOfTwoSums(z * w, d * (t * s), z * s, w * t);
    Distribute(z * t, w * w, d * (s * s));
    Distribute(w * s, z * z, d * (t * t));
  }

  lemma SquareOfSum(a: int, b: int)
    ensures (a + b) * (a + b) == a * a + 2 * (a * b) + b * b
    ensures (a - b) * (a - b) == a * a - 2 * (a * b) + b * b
  {
  }

  /** (y v + x u)^2 against (x v + u y)^2 and (y v - x u)^2. */
  lemma SquaresOfXAndY(x: int, y: int, u: int, v: int)
    ensures var (e, h, k) := (x * v + u * y, y * v + x * u, y * v - x * u);
      && h * h == e * e + (y * y - x * x) * (v * v - u * u)
      && h * h == k * k + 4 * ((x * y) * (u * v))
  {
    SquareOfSum(y * v, x * u);
    SquareOfSum(x * v, u * y);
    Interchange(y, v, x, u);
    Interchange(x, v, u, y);
    assert (y * x) * (v * u) == (x * y) * (u * v);
    assert (x * u) * (v * y) == (x * y) * (u * v);
    Interchange(y, v, y, v);
    Interchange(x, u, x, u);
    Interchange(x, v, x, v);
    Interchange(u, y, u, y);
    FourTerms(y * y, -(x * x), v * v, u * u);
    assert -(x * x) * (v * v) == -((x * x) * (v * v));
    assert -(x * x) * (u * u) == -((x * x) * (u * u));
    assert (u * u) * (y * y) == (y * y) * (u * u);
  }

  lemma Outside(a: int, d: int, b: int)
    ensures a * (d * b) == d * (a * b) && (d * b) * a == d * (a * b)
  {
  }

  /** (z w - d t s)^2 and (z w + d t s)^2. */
  lemma StraightSquares(z: int, t: int, w: int, s: int, d: int)
    ensures var (f, g) := (z * w - d * (t * s), z * w + d * (t * s));
      var (zw, ts, mixed) := ((z * z) * (w * w), (d * d) * ((t * t) * (s * s)), d * ((z * t) * (w * s)));
      f * f == zw - 2 * mixed + ts && g * g == zw + 2 * mixed + ts
  {
    SquareOfSum(z * w, d * (t * s));
    Interchange(z, w, z, w);
    Interchange(d, t * s, d, t * s);
    Interchange(t, s, t, s);
    Interchange(z, w, t, s);
    Outside(z * w, d, t * s);
  }

  lemma DistributeThree(d: int, a: int, b: int, c: int)
    ensures d * (a + 2 * b + c) == d * a + 2 * (d * b) + d * c
  {
  }

  lemma OtherOrder(z: int, s: int, w: int, t: int)
    ensures (z * s) * (w * t) == (z * t) * (w * s)
  {
  }

  /** d (z s + w t)^2. */
  lemma CrossSquare(z: int, t: int, w: int, s: int, d: int)
    ensures var m := z * s + w * t;
      d * (m * m) == d * ((z * z) * (s * s)) + 2 * (d * ((z * t) * (w * s))) + d * ((w * w) * (t * t))
  {
    SquareOfSum(z * s, w * t);
    Interchange(z, s, z, s);
    Interchange(w, t, w, t);
    OtherOrder(z, s, w, t);
    DistributeThree(d, (z * z) * (s * s), (z * t) * (w * s), (w * w) * (t * t));
  }

  /** (z^2 + d t^2)(w^2 + d s^2). */
  lemma DenominatorProduct(z: int, t: int, w: int, s: int, d: int)
    ensures (z * z + d * (t * t)) * (w * w + d * (s * s)) ==
            (z * z) * (w * w) + d * ((z * z) * (s * s)) + d * ((w * w) * (t * t)) + (d * d) * ((t * t) * (s * s))
  {
    ProductOfTwoSums(z * z, d * (t * t), w * w, d * (s * s));
    Outside(z * z, d, s * s);
    Outside(w * w, d, t * t);
    Interchange(d, t * t, d, s * s);
  }

  /** The same for (z w + d t s)^2 and (z w - d t s)^2. */
  lemma SquaresOfZAndT(z: int, t: int, w: int, s: int, d: int)
    ensures var (f, g, m) := (z * w - d * (t * s), z * w + d * (t * s), z * s + w * t);
      && (z * z + d * (t * t)) * (w * w + d * (s * s)) == f * f + d * (m * m)
      && g * g == f * f + 4 * (d * ((z * t) * (w * s)))
  {
    StraightSquares(z, t, w, s, d);
    CrossSquare(z, t, w, s, d);
    DenominatorProduct(z, t, w, s, d);
  }

  /* Closure */

  lemma CrossSame(F: Field, m: int, m': int, b: int, b': int, n: int, n': int, a: int, a': int)
    requires Same(F, m, m') && Same(F, b, b') && Same(F, n, n') && Same(F, a, a')
    ensures Same(F, m * b + n * a, m' * b' + n' * a')
  {
    hide *;
    SameMul(F, m, m', b, b');
    SameMul(F, n, n', a, a');
    SameSum(F, m * b, m' * b', n * a, n' * a');
  }

  /** The products of the two curve equations and of the two equations T Z = X Y. */
  lemma CurveProducts(F: Field, p: Coords, q: Coords)
    requires OnCurve(F, p) && OnCurve(F, q)
    ensures Same(F, (p.y * p.y - p.x * p.x) * (q.y * q.y - q.x * q.x),
                 (p.z * p.z + F.d * (p.t * p.t)) * (q.z * q.z + F.d * (q.t * q.t)))
    ensures Same(F, (p.x * p.y) * (q.x * q.y), (p.z * p.t) * (q.z * q.t))
    ensures Same(F, (p.x * q.y + q.x * p.y) * (p.y * q.y - p.x * q.x),
                 (p.z * q.z + F.d * (p.t * q.t)) * (p.z * q.t + q.z * p.t))
  {
    var (a, b) := (p.y * p.y - p.x * p.x, q.y * q.y - q.x * q.x);
    var (c, e) := (p.z * p.z + F.d * (p.t * p.t), q.z * q.z + F.d * (q.t * q.t));
    assert Same(F, a, c) && Same(F, b, e);
    hide *;
    SameMul(F, a, c, b, e);
    SameMul(F, p.x * p.y, p.z * p.t, q.x * q.y, q.z * q.t);
    CrossSame(F, p.x * p.y, p.z * p.t, b, e, q.x * q.y, q.z * q.t, a, c);
    MixedProduct(p.x, p.y, q.x, q.y);
    MixedDenominators(p.z, p.t, q.z, q.t, F.d);
  }

  lemma Transported(F: Field, e2: int, h2: int, k2: int, r: int, g2: int, m2: int)
    requires Same(F, e2 * h2, e2 * (k2 + 4 * r)) && Same(F, e2 * k2, g2 * m2)
    ensures Same(F, e2 * h2, g2 * m2 + 4 * (e2 * r))
  {
    hide *;
    Itself(F, 4 * (e2 * r));
    SameSum(F, e2 * k2, g2 * m2, 4 * (e2 * r), 4 * (e2 * r));
    assert e2 * (k2 + 4 * r) == e2 * k2 + 4 * (e2 * r);
    Transitive(F, e2 * h2, e2 * k2 + 4 * (e2 * r), g2 * m2 + 4 * (e2 * r));
  }

  lemma Balance(e2: int, f2: int, g2: int, m2: int, r: int, d: int)
    requires g2 == f2 + 4 * (d * r)
    ensures g2 * (e2 + f2 + d * m2) - e2 * f2 == f2 * g2 + d * (g2 * m2 + 4 * (e2 * r))
  {
    assert g2 * (e2 + f2 + d * m2) == g2 * e2 + g2 * f2 + g2 * (d * m2);
    assert g2 * (d * m2) == d * (g2 * m2);
    assert d * (g2 * m2 + 4 * (e2 * r)) == d * (g2 * m2) + 4 * (d * (e2 * r));
    assert (f2 + 4 * (d * r)) * e2 == f2 * e2 + 4 * ((d * r) * e2);
    assert (d * r) * e2 == d * (e2 * r);
  }

  /** The squares of the four factors: from what they are, the curve equation of the sum. */
  lemma SquaresClose(F: Field, e2: int, h2: int, f2: int, g2: int, k2: int, m2: int, r: int, d: int)
    requires Same(F, h2, e2 + f2 + d * m2)
    requires Same(F, h2, k2 + 4 * r) && g2 == f2 + 4 * (d * r)
    requires Same(F, e2 * k2, g2 * m2)
    ensures Same(F, g2 * h2 - e2 * f2, f2 * g2 + d * (e2 * h2))
  {
    hide *;
    Itself(F, g2);
    Itself(F, e2);
    Itself(F, d);
    Itself(F, e2 * f2);
    Itself(F, f2 * g2);
    SameMul(F, g2, g2, h2, e2 + f2 + d * m2);
    SameSum(F, g2 * h2, g2 * (e2 + f2 + d * m2), e2 * f2, e2 * f2);
    SameMul(F, e2, e2, h2, k2 + 4 * r);
    Transported(F, e2, h2, k2, r, g2, m2);
    SameMul(F, d, d, e2 * h2, g2 * m2 + 4 * (e2 * r));
    SameSum(F, f2 * g2, f2 * g2, d * (e2 * h2), d * (g2 * m2 + 4 * (e2 * r)));
    Balance(e2, f2, g2, m2, r, d);
    SameAs(F, g2 * h2 - e2 * f2, f2 * g2 + d * (e2 * h2), g2 * (e2 + f2 + d * m2) - e2 * f2);
  }

  lemma HeightSquare(F: Field, h2: int, e2: int, f2: int, m2: int, k2: int, xy: int, zt: int, u: int, r: int, d: int)
    requires h2 == e2 + xy && h2 == k2 + 4 * u && zt == f2 + d * m2
    requires Same(F, xy, zt) && Same(F, u, r)
    ensures Same(F, h2, e2 + f2 + d * m2) && Same(F, h2, k2 + 4 * r)
  {
    hide *;
    Itself(F, e2);
    Itself(F, k2);
    Itself(F, 4);
    SameSum(F, e2, e2, xy, zt);
    SameMul(F, 4, 4, u, r);
    SameSum(F, k2, k2, 4 * u, 4 * r);
  }

  /** The four factors of a sum of curve points, without their factors of 2. */
  lemma FactorSquares(F: Field, p: Coords, q: Coords)
    requires OnCurve(F, p) && OnCurve(F, q)
    ensures var (e, h) := (p.x * q.y + q.x * p.y, p.y * q.y + p.x * q.x);
      var (f, g) := (p.z * q.z - F.d * (p.t * q.t), p.z * q.z + F.d * (p.t * q.t));
      Same(F, (g * g) * (h * h) - (e * e) * (f * f), (f * f) * (g * g) + F.d * ((e * e) * (h * h)))
  {
    CurveProducts(F, p, q);
    hide *;
    var (e, h, k) := (p.x * q.y + q.x * p.y, p.y * q.y + p.x * q.x, p.y * q.y - p.x * q.x);
    var (f, g, m) := (p.z * q.z - F.d * (p.t * q.t), p.z * q.z + F.d * (p.t * q.t), p.z * q.t + q.z * p.t);
    var r := (p.z * p.t) * (q.z * q.t);
    SquaresOfXAndY(p.x, p.y, q.x, q.y);
    SquaresOfZAndT(p.z, p.t, q.z, q.t, F.d);
    HeightSquare(F, h * h, e * e, f * f, m * m, k * k,
                 (p.y * p.y - p.x * p.x) * (q.y * q.y - q.x * q.x),
                 (p.z * p.z + F.d * (p.t * p.t)) * (q.z * q.z + F.d * (q.t * q.t)),
                 (p.x * p.y) * (q.x * q.y), r, F.d);
    SameMul(F, e * k, g * m, e * k, g * m);
    Interchange(e, k, e, k);
    Interchange(g, m, g, m);
    SquaresClose(F, e * e, h * h, f * f, g * g, k * k, m * m, r, F.d);
  }

  lemma SixteenTimes(e: int, f: int)
    ensures ((2 * e) * (2 * f)) * ((2 * e) * (2 * f)) == 16 * ((e * e) * (f * f))
  {
    assert (2 * e) * (2 * f) == 4 * (e * f);
    assert (4 * (e * f)) * (4 * (e * f)) == 16 * ((e * f) * (e * f));
    Interchange(e, f, e, f);
  }

  /** The square of a product of doubled factors. */
  lemma DoubledSquare(F: Field, v: int, a: int, b: int, e: int, f: int)
    requires Same(F, a, 2 * e) && Same(F, b, 2 * f) && v == FMul(F, a, b)
    ensures Same(F, v * v, 16 * ((e * e) * (f * f)))
  {
    hide *;
    SameMul(F, a, 2 * e, b, 2 * f);
    SameMul(F, v, (2 * e) * (2 * f), v, (2 * e) * (2 * f));
    SixteenTimes(e, f);
  }

  lemma ScaledEquation(F: Field, s: Coords, x2: int, y2: int, z2: int, t2: int)
    requires Same(F, s.x * s.x, 16 * x2) && Same(F, s.y * s.y, 16 * y2)
    requires Same(F, s.z * s.z, 16 * z2) && Same(F, s.t * s.t, 16 * t2)
    requires Same(F, y2 - x2, z2 + F.d * t2)
    ensures Same(F, s.y * s.y - s.x * s.x, s.z * s.z + F.d * (s.t * s.t))
  {
    hide *;
    Itself(F, F.d);
    Itself(F, 16);
    SameSum(F, s.y * s.y, 16 * y2, s.x * s.x, 16 * x2);
    SameMul(F, F.d, F.d, s.t * s.t, 16 * t2);
    SameSum(F, s.z * s.z, 16 * z2, F.d * (s.t * s.t), F.d * (16 * t2));
    SameMul(F, 16, 16, y2 - x2, z2 + F.d * t2);
    assert F.d * (16 * t2) == 16 * (F.d * t2);
    assert 16 * (z2 + F.d * t2) == 16 * z2 + 16 * (F.d * t2);
    assert 16 * (y2 - x2) == 16 * y2 - 16 * x2;
    Transitive(F, s.y * s.y - s.x * s.x, 16 * (y2 - x2), 16 * (z2 + F.d * t2));
    SameAs(F, s.y * s.y - s.x * s.x, s.z * s.z + F.d * (s.t * s.t), 16 * (z2 + F.d * t2));
  }

  lemma OnCurveIs(F: Field, p: Coords)
    requires Same(F, p.x * p.y, p.z * p.t) && Same(F, p.y * p.y - p.x * p.x, p.z * p.z + F.d * (p.t * p.t))
    ensures OnCurve(F, p)
  {
  }

  lemma ProductSame(F: Field, a: int, b: int)
    ensures Same(F, FMul(F, a, b), a * b)
  {
    OnResidue(F, a * b);
  }

  lemma SumLinked(F: Field, s: Coords, e: int, f: int, g: int, h: int)
    requires s == Coords(FMul(F, e, f), FMul(F, g, h), FMul(F, f, g), FMul(F, e, h))
    ensures Same(F, s.x * s.y, s.z * s.t)
  {
    hide Same, FMul;
    ProductSame(F, e, f);
    ProductSame(F, g, h);
    ProductSame(F, f, g);
    ProductSame(F, e, h);
    SameMul(F, s.x, e * f, s.y, g * h);
    SameMul(F, s.z, f * g, s.t, e * h);
    assert (e * f) * (g * h) == (f * g) * (e * h);
    SameAs(F, s.x * s.y, s.z * s.t, (e * f) * (g * h));
  }

  /** The sum of two curve points is a curve point, also the sum of a point with itself. */
  lemma SumOnCurve(F: Field, p: Coords, q: Coords)
    requires OnCurve(F, p) && OnCurve(F, q)
    ensures OnCurve(F, Sum(F, p, q))
  {
    var s := Sum(F, p, q);
    var a, b, c, d := Factors(F, p, q);
    hide *;
    FactorSquares(F, p, q);
    var (e, h) := (p.x * q.y + q.x * p.y, p.y * q.y + p.x * q.x);
    var (f, g) := (p.z * q.z - F.d * (p.t * q.t), p.z * q.z + F.d * (p.t * q.t));
    DoubledSquare(F, s.x, a, b, e, f);
    DoubledSquare(F, s.y, c, d, g, h);
    DoubledSquare(F, s.z, b, c, f, g);
    DoubledSquare(F, s.t, a, d, e, h);
    ScaledEquation(F, s, (e * e) * (f * f), (g * g) * (h * h), (f * f) * (g * g), (e * e) * (h * h));
    SumLinked(F, s, a, b, c, d);
    OnCurveIs(F, s);
  }

  lemma IdentityOnCurve(F: Field)
    ensures OnCurve(F, IDENTITY)
  {
  }
}
