/** The addition formulas in extended coordinates compute the addition law of the twisted
    Edwards curve, which section 5.1.4 of RFC 8032 states in affine coordinates. */
module EdwardsLaw {
  import opened Arith
  import opened PrimeField
  import opened EdwardsFormulas

  lemma CopiesOf(F: Field, p: Coords)
    ensures Same(F, p.x, p.x) && Same(F, p.y, p.y)
  {
    Itself(F, p.x);
    Itself(F, p.y);
  }

  lemma SumAndDifference(F: Field, a: int, b: int, n: int, m: int, x: int, y: int)
    requires Same(F, a, n) && Same(F, b, m) && m - n == x && m + n == y
    ensures Same(F, FSub(F, b, a), x) && Same(F, FAdd(F, b, a), y)
  {
    hide *;
    SameSum(F, b, m, a, n);
  }

  lemma Expand(x: int, y: int, u: int, v: int)
    ensures (y + x) * (v + u) - (y - x) * (v - u) == 2 * (x * v + u * y)
    ensures (y + x) * (v + u) + (y - x) * (v - u) == 2 * (y * v + x * u)
  {
  }

  lemma TwiceProduct(n: int, d: int)
    ensures n * (2 * d) == 2 * (d * n)
  {
  }

  lemma TwiceEach(F: Field, z: int, w: int, t: int, s: int)
    ensures z * w + z * w - (t * s) * (2 * F.d) == 2 * (z * w - F.d * (t * s))
    ensures z * w + z * w + (t * s) * (2 * F.d) == 2 * (z * w + F.d * (t * s))
  {
    TwiceProduct(t * s, F.d);
  }

  /** The four factors of a sum, up to multiples of P. */
  lemma Factors(F: Field, p: Coords, q: Coords) returns (e: int, f: int, g: int, h: int)
    ensures Sum(F, p, q) == Coords(FMul(F, e, f), FMul(F, g, h), FMul(F, f, g), FMul(F, e, h))
    ensures Same(F, e, 2 * (p.x * q.y + q.x * p.y))
    ensures Same(F, h, 2 * (p.y * q.y + p.x * q.x))
    ensures Same(F, f, 2 * (p.z * q.z - F.d * (p.t * q.t)))
    ensures Same(F, g, 2 * (p.z * q.z + F.d * (p.t * q.t)))
  {
    var a := FMul(F, FSub(F, p.y, p.x), FSub(F, q.y, q.x));
    var b := FMul(F, FAdd(F, p.y, p.x), FAdd(F, q.y, q.x));
    var c := FMul(F, FMul(F, p.t, q.t), (2 * F.d) % F.p);
    var d := FAdd(F, FMul(F, p.z, q.z), FMul(F, p.z, q.z));
    e, f, g, h := FSub(F, b, a), FSub(F, d, c), FAdd(F, d, c), FAdd(F, b, a);
    hide Same, FMul, FAdd, FSub;
    CopiesOf(F, p);
    CopiesOf(F, q);
    SameSum(F, p.y, p.y, p.x, p.x);
    SameSum(F, q.y, q.y, q.x, q.x);
    SameMul(F, FSub(F, p.y, p.x), p.y - p.x, FSub(F, q.y, q.x), q.y - q.x);
    SameMul(F, FAdd(F, p.y, p.x), p.y + p.x, FAdd(F, q.y, q.x), q.y + q.x);
    Itself(F, p.t);
    Itself(F, q.t);
    Itself(F, p.z);
    Itself(F, q.z);
    OnResidue(F, 2 * F.d);
    SameMul(F, p.t, p.t, q.t, q.t);
    SameMul(F, FMul(F, p.t, q.t), p.t * q.t, (2 * F.d) % F.p, 2 * F.d);
    SameMul(F, p.z, p.z, q.z, q.z);
    SameSum(F, FMul(F, p.z, q.z), p.z * q.z, FMul(F, p.z, q.z), p.z * q.z);
    Expand(p.x, p.y, q.x, q.y);
    TwiceEach(F, p.z, q.z, p.t, q.t);
    SumAndDifference(F, a, b, (p.y - p.x) * (q.y - q.x), (p.y + p.x) * (q.y + q.x),
                     2 * (p.x * q.y + q.x * p.y), 2 * (p.y * q.y + p.x * q.x));
    SumAndDifference(F, c, d, (p.t * q.t) * (2 * F.d), p.z * q.z + p.z * q.z,
                     2 * (p.z * q.z - F.d * (p.t * q.t)), 2 * (p.z * q.z + F.d * (p.t * q.t)));
  }

  /** T Z = X Y. */
  ghost predicate Linked(F: Field, p: Coords) {
    Same(F, p.x * p.y, p.z * p.t)
  }

  /** With T Z = X Y for both points, the product of the z coordinates turns t into x and y. */
  lemma Homogeneous(F: Field, p: Coords, q: Coords)
    requires Linked(F, p) && Linked(F, q)
    ensures Same(F, (p.x * p.y) * (q.x * q.y), (p.z * q.z) * (p.t * q.t))
  {
    assert Same(F, p.x * p.y, p.z * p.t) && Same(F, q.x * q.y, q.z * q.t);
    hide *;
    SameMul(F, p.x * p.y, p.z * p.t, q.x * q.y, q.z * q.t);
    Interchange(p.z, p.t, q.z, q.t);
  }

  lemma Swap(a: int, b: int)
    ensures a * b == b * a
  {
  }

  lemma FactorOut(z: int, t: int, d: int)
    ensures z * z + d * (z * t) == z * (z + d * t) && z * z - d * (z * t) == z * (z - d * t)
  {
    assert d * (z * t) == z * (d * t);
  }

  lemma Denominators(F: Field, z: int, t: int, xy: int)
    requires Same(F, xy, z * t)
    ensures Same(F, z * z + F.d * xy, z * (z + F.d * t)) && Same(F, z * z - F.d * xy, z * (z - F.d * t))
  {
    hide *;
    Itself(F, F.d);
    Itself(F, z * z);
    SameMul(F, F.d, F.d, xy, z * t);
    SameSum(F, z * z, z * z, F.d * xy, F.d * (z * t));
    FactorOut(z, t, F.d);
  }

  lemma SameProducts(m: int, f: int, z: int, c: int)
    ensures ((2 * m) * f) * (z * c) == (f * (2 * c)) * (m * z)
  {
    assert ((2 * m) * f) * (z * c) == 2 * ((m * f) * (z * c));
    assert (f * (2 * c)) * (m * z) == 2 * ((f * c) * (m * z));
    assert (m * f) * (z * c) == (f * c) * (m * z);
  }

  /** From s = n f and r = f (2 c), with n twice m: s (z c) = r (m z). */
  lemma CrossMultiply(F: Field, s: int, r: int, n: int, f: int, m: int, z: int, c: int, zc: int)
    requires Same(F, s, n * f) && Same(F, r, f * (2 * c)) && n == 2 * m && Same(F, zc, z * c)
    ensures Same(F, s * zc, r * (m * z))
  {
    hide *;
    Itself(F, m * z);
    SameMul(F, s, n * f, zc, z * c);
    SameMul(F, r, f * (2 * c), m * z, m * z);
    SameProducts(m, f, z, c);
    SameAs(F, s * zc, r * (m * z), (n * f) * (z * c));
  }

  /** x = X/Z and y = Y/Z of the sum are
        (x1 y2 + x2 y1) / (1 + d x1 x2 y1 y2)  and  (y1 y2 + x1 x2) / (1 - d x1 x2 y1 y2),
      with every denominator multiplied out. */
  lemma AdditionLaw(F: Field, p: Coords, q: Coords)
    requires Linked(F, p) && Linked(F, q)
    ensures var (s, z, w) := (Sum(F, p, q), p.z * q.z, F.d * ((p.x * p.y) * (q.x * q.y)));
      && Same(F, s.x * (z * z + w), s.z * ((p.x * q.y + q.x * p.y) * z))
      && Same(F, s.y * (z * z - w), s.z * ((p.y * q.y + p.x * q.x) * z))
  {
    var e, f, g, h := Factors(F, p, q);
    var z, t, xy := p.z * q.z, p.t * q.t, (p.x * p.y) * (q.x * q.y);
    var x', y' := p.x * q.y + q.x * p.y, p.y * q.y + p.x * q.x;
    hide *;
    Homogeneous(F, p, q);
    Denominators(F, z, t, xy);
    SameMul(F, e, 2 * x', f, 2 * (z - F.d * t));
    SameMul(F, g, 2 * (z + F.d * t), h, 2 * y');
    SameMul(F, f, 2 * (z - F.d * t), g, 2 * (z + F.d * t));
    CrossMultiply(F, FMul(F, e, f), FMul(F, f, g), 2 * x', 2 * (z - F.d * t), x', z, z + F.d * t, z * z + F.d * xy);
    Swap(2 * (z + F.d * t), 2 * y');
    Swap(2 * (z - F.d * t), 2 * (z + F.d * t));
    CrossMultiply(F, FMul(F, g, h), FMul(F, f, g), 2 * y', 2 * (z + F.d * t), y', z, z - F.d * t, z * z - F.d * xy);
    var s := Sum(F, p, q);
    assert Same(F, s.x * (z * z + F.d * xy), s.z * (x' * z));
    assert Same(F, s.y * (z * z - F.d * xy), s.z * (y' * z));
  }
}
