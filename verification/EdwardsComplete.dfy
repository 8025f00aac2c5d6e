/** The addition formulas are complete: from curve points they never compute Z = 0. */
module EdwardsComplete {
  import opened Arith
  import opened PrimeField
  import opened DoubleAndAdd
  import opened EdwardsFormulas
  import opened EdwardsLaw
  import opened EdwardsCurve

  /** d b^2 is a square only if b is 0. */
  ghost predicate NotSquare(F: Field, a: int, b: int) {
    Same(F, a * a, F.d * (b * b)) ==> Zero(F, a)
  }

  /** The constant d is no square, and a24 belongs to it: (1 + a24)(1 + d) = 1. */
  ghost predicate IsTwisted(F: Field) {
    && (forall a, b :: NotSquare(F, a, b))
    && Same(F, (1 + F.a24) * (1 + F.d), 1)
  }

  lemma TwistedBy(F: Field, k: nat, r: int)
    requires F.p == 8 * k + 5 && Same(F, r * r, F.d * F.root) && Same(F, (1 + F.a24) * (1 + F.d), 1)
    ensures IsTwisted(F)
  {
    hide Same, Zero;
    forall a, b
      ensures NotSquare(F, a, b)
    {
      if Same(F, a * a, F.d * (b * b)) {
        NoSquare(F, k, F.d, r, a, b);
      }
    }
  }

  lemma TwistedOfFive()
    ensures IsField(Parameters(5, 2, 2, 1)) && IsTwisted(Parameters(5, 2, 2, 1))
  {
    FieldOfFive();
    var F: Field := Parameters(5, 2, 2, 1);
    SameBy(F, 6, 1, 1);
    TwistedBy(F, 0, 2);
  }

  type Twisted = F: Field | IsTwisted(F) ghost witness (TwistedOfFive(); Parameters(5, 2, 2, 1))

  /** A curve point: X/Z and Y/Z exist, and satisfy the curve equation. */
  ghost predicate Genuine(F: Field, p: Coords) {
    OnCurve(F, p) && !Zero(F, p.z)
  }

  /** The curve constant is no square. */
  lemma TwistNoSquare(F: Twisted, a: int, b: int)
    requires Same(F, a * a, F.d * (b * b))
    ensures Zero(F, a)
  {
    hide Same, Zero;
    assert NotSquare(F, a, b);
  }

  lemma ComplexSquareIs(i: int, x: int, y: int)
    ensures (y + i * x) * (y + i * x) == y * y + (i * i) * (x * x) + 2 * (i * (x * y))
  {
    SquareOfSum(y, i * x);
    Interchange(i, x, i, x);
    Outside(y, i, x);
    Swap(y, x);
  }

  /** (y + i x)^2 for a root i of -1. */
  lemma ComplexSquare(F: Twisted, i: int, x: int, y: int, s: int, n: int)
    requires Same(F, i * i, -1) && Same(F, y * y - x * x, s) && Same(F, x * y, n)
    ensures Same(F, (y + i * x) * (y + i * x), s + 2 * (i * n))
  {
    hide *;
    ComplexSquareIs(i, x, y);
    Itself(F, i);
    Itself(F, 2);
    Itself(F, y * y);
    Itself(F, x * x);
    SameMul(F, i * i, -1, x * x, x * x);
    assert -1 * (x * x) == -(x * x);
    SameSum(F, y * y, y * y, (i * i) * (x * x), -(x * x));
    Transitive(F, y * y + (i * i) * (x * x), y * y - x * x, s);
    SameMul(F, i, i, x * y, n);
    SameMul(F, 2, 2, i * (x * y), i * n);
    SameSum(F, y * y + (i * i) * (x * x), s, 2 * (i * (x * y)), 2 * (i * n));
  }

  lemma SignSquared(e: int, a: int)
    requires e * e == 1
    ensures (e * a) * (e * a) == a * a
  {
    Interchange(e, a, e, a);
  }

  lemma LeftPole(F: Twisted, z: int, t: int, w: int, i: int)
    ensures (w * w) * (z * z + F.d * (t * t) + 2 * (i * (z * t))) ==
            F.d * ((t * t) * (w * w)) + ((z * w) * (z * w) + 2 * (i * ((t * w) * (z * w))))
  {
    hide *;
    Interchange(z, w, z, w);
    Interchange(t, w, z, w);
    Swap(t, z);
    Outside(w * w, F.d, t * t);
    Outside(w * w, i, z * t);
    Swap(w * w, z * t);
    Swap(w * w, t * t);
    Swap(w * w, z * z);
    Distribute(w * w, z * z + F.d * (t * t), 2 * (i * (z * t)));
    Distribute(w * w, z * z, F.d * (t * t));
  }

  lemma MixedTerm(t: int, w: int, s: int, j: int, d: int)
    ensures d * ((t * t) * (2 * (j * (w * s)))) == 2 * j * ((t * w) * (d * (t * s)))
  {
    Interchange(t, t, w, s);
    Outside(t * t, j, w * s);
    Outside(t * w, d, t * s);
    Outside(d, j, (t * w) * (t * s));
  }

  lemma ThreeTerms(d: int, k: int, a: int, b: int, c: int)
    ensures d * (k * (a + b + c)) == d * (k * a) + d * (k * b) + d * (k * c)
  {
    Distribute(k, a + b, c);
    Distribute(k, a, b);
    Distribute(d, k * a + k * b, k * c);
    Distribute(d, k * a, k * b);
  }

  lemma RightPole(t: int, w: int, s: int, j: int, d: int, m: int)
    requires m == d * (t * s)
    ensures d * ((t * t) * (w * w + d * (s * s) + 2 * (j * (w * s)))) ==
            d * ((t * t) * (w * w)) + (m * m + 2 * j * ((t * w) * m))
  {
    hide *;
    ThreeTerms(d, t * t, w * w, d * (s * s), 2 * (j * (w * s)));
    Interchange(d, t * s, d, t * s);
    Interchange(t, s, t, s);
    Interchange(d, t * t, d, s * s);
    MulAssoc(d, t * t, d * (s * s));
    MixedTerm(t, w, s, j, d);
  }

  lemma PoleTerms(F: Twisted, c: int, m: int, n: int, u: int, j: int)
    requires Same(F, m, n)
    ensures Same(F, c + (n * n + 2 * j * (u * n)), c + (m * m + 2 * j * (u * m)))
  {
    hide *;
    Symmetric(F, m, n);
    SameMul(F, n, m, n, m);
    Itself(F, c);
    Itself(F, u);
    Itself(F, 2 * j);
    SameMul(F, u, u, n, m);
    SameMul(F, 2 * j, 2 * j, u * n, u * m);
    SameSum(F, n * n, m * m, 2 * j * (u * n), 2 * j * (u * m));
    SameSum(F, c, c, n * n + 2 * j * (u * n), m * m + 2 * j * (u * m));
  }

  lemma SignTerms(e: int, i: int, v: int, u: int)
    requires e * e == 1
    ensures (e * v) * (e * v) + 2 * (e * i) * (u * (e * v)) == v * v + 2 * (i * (u * v))
  {
    SignSquared(e, v);
    Outside(u, e, v);
    Interchange(e, i, e, u * v);
  }

  /** With d t s = e z w, what (w (y + i x))^2 and d (t (v + e i u))^2 come to is equal. */
  lemma PolesMeet(F: Twisted, z: int, t: int, w: int, s: int, e: int, i: int, m: int)
    requires e * e == 1 && Same(F, m, e * (z * w)) && m == F.d * (t * s)
    ensures Same(F, (w * w) * (z * z + F.d * (t * t) + 2 * (i * (z * t))),
                 F.d * ((t * t) * (w * w + F.d * (s * s) + 2 * ((e * i) * (w * s)))))
  {
    hide *;
    LeftPole(F, z, t, w, i);
    RightPole(t, w, s, e * i, F.d, m);
    SignTerms(e, i, z * w, t * w);
    PoleTerms(F, F.d * ((t * t) * (w * w)), m, e * (z * w), t * w, e * i);
  }

  /** k a^2 d for a square that is known. */
  lemma SquareTimes(F: Twisted, k: int, a: int, c: int)
    requires Same(F, a * a, c)
    ensures Same(F, (k * a) * (k * a), (k * k) * c)
  {
    hide *;
    Itself(F, k * k);
    SameMul(F, k * k, k * k, a * a, c);
    Interchange(k, k, a, a);
  }

  lemma NotGenuine(F: Twisted, q: Coords, a: int)
    requires Genuine(F, q) && Zero(F, q.z * a)
    ensures Zero(F, a)
  {
    hide Same, Zero;
    ZeroProduct(F, q.z, a);
  }

  /** Where a denominator vanishes, so does w (y + i x), for either root i. */
  lemma PoleVanishes(F: Twisted, p: Coords, q: Coords, e: int, i: int)
    requires Genuine(F, p) && Genuine(F, q) && e * e == 1 && Same(F, i * i, -1)
    requires Same(F, F.d * (p.t * q.t), e * (p.z * q.z))
    ensures Zero(F, p.y + i * p.x)
  {
    var (x, y, z, t) := (p.x, p.y, p.z, p.t);
    var (u, v, w, s) := (q.x, q.y, q.z, q.t);
    assert Same(F, y * y - x * x, z * z + F.d * (t * t)) && Same(F, v * v - u * u, w * w + F.d * (s * s));
    hide *;
    var (a, b) := (y + i * x, v + (e * i) * u);
    var (c, n) := (z * z + F.d * (t * t) + 2 * (i * (z * t)), w * w + F.d * (s * s) + 2 * ((e * i) * (w * s)));
    SignSquared(e, i);
    ComplexSquare(F, i, x, y, z * z + F.d * (t * t), z * t);
    ComplexSquare(F, e * i, u, v, w * w + F.d * (s * s), w * s);
    PolesMeet(F, z, t, w, s, e, i, F.d * (t * s));
    SquareTimes(F, w, a, c);
    SquareTimes(F, t, b, n);
    Itself(F, F.d);
    SameMul(F, F.d, F.d, (t * b) * (t * b), (t * t) * n);
    Transitive(F, (w * a) * (w * a), (w * w) * c, F.d * ((t * t) * n));
    SameAs(F, (w * a) * (w * a), F.d * ((t * b) * (t * b)), F.d * ((t * t) * n));
    TwistNoSquare(F, w * a, t * b);
    NotGenuine(F, q, a);
  }

  lemma ConstantsNotZero(F: Field)
    ensures !Zero(F, 2) && !Zero(F, F.root) && !Zero(F, 1) && !Zero(F, 4)
  {
    ZeroDivides(F, 1);
    ZeroDivides(F, 2);
    ModSmall(1, F.p);
    ModSmall(2, F.p);
    hide Same, Zero;
    ZeroProduct(F, 2, 2);
    RootSquared(F);
    ZeroProduct(F, F.root, F.root);
    ZeroSame(F, F.root * F.root, -1);
    OneNotZero(F);
  }

  /** Twice a number, or twice the root times it. */
  lemma NoTwo(F: Twisted, a: int)
    requires Zero(F, 2 * a) || Zero(F, 2 * (F.root * a))
    ensures Zero(F, a)
  {
    hide Same, Zero;
    ZeroProduct(F, 2, a);
    ZeroProduct(F, 2, F.root * a);
    ZeroProduct(F, F.root, a);
    ConstantsNotZero(F);
  }

  lemma Unfold(F: Twisted, a: int)
    ensures Zero(F, a) <==> Same(F, a, 0)
  {
    hide Same;
  }

  lemma BothVanish(F: Twisted, x: int, y: int)
    requires Zero(F, y + F.root * x) && Zero(F, y + -F.root * x)
    ensures Zero(F, x) && Zero(F, y)
  {
    hide Zero;
    assert Same(F, y + F.root * x, 0) && Same(F, y + -F.root * x, 0) by {
      Unfold(F, y + F.root * x);
      Unfold(F, y + -F.root * x);
    }
    SameSum(F, y + F.root * x, 0, y + -F.root * x, 0);
    assert -F.root * x == -(F.root * x);
    assert Same(F, 2 * y, 0) && Same(F, 2 * (F.root * x), 0);
    Unfold(F, 2 * y);
    Unfold(F, 2 * (F.root * x));
    NoTwo(F, y);
    NoTwo(F, x);
  }

  lemma SquareVanishes(F: Twisted, p: Coords)
    requires Same(F, p.y * p.y - p.x * p.x, p.z * p.z + F.d * (p.t * p.t))
    requires Zero(F, p.x) && Zero(F, p.y) && Zero(F, p.t)
    ensures Zero(F, p.z)
  {
    var (x, y, z, t) := (p.x, p.y, p.z, p.t);
    hide Same;
    SameMul(F, x, 0, x, 0);
    SameMul(F, y, 0, y, 0);
    SameMul(F, t, 0, t, 0);
    Itself(F, F.d);
    Itself(F, z * z);
    SameMul(F, F.d, F.d, t * t, 0);
    SameSum(F, y * y, 0, x * x, 0);
    SameSum(F, z * z, z * z, F.d * (t * t), 0);
    Symmetric(F, y * y - x * x, z * z + F.d * (t * t));
    Symmetric(F, z * z + F.d * (t * t), z * z);
    Transitive(F, z * z, z * z + F.d * (t * t), y * y - x * x);
    Transitive(F, z * z, y * y - x * x, 0);
    ZeroProduct(F, z, z);
  }

  /** No point of the curve has X = Y = 0. */
  lemma NotBothZero(F: Twisted, p: Coords)
    requires Genuine(F, p)
    ensures !(Zero(F, p.x) && Zero(F, p.y))
  {
    if Zero(F, p.x) && Zero(F, p.y) {
      hide Same;
      ZeroProduct(F, p.x, p.y);
      ZeroSame(F, p.x * p.y, p.z * p.t);
      ZeroProduct(F, p.z, p.t);
      SquareVanishes(F, p);
    }
  }

  /** The denominators z1 z2 + d t1 t2 and z1 z2 - d t1 t2 never vanish. */
  lemma NoPole(F: Twisted, p: Coords, q: Coords, e: int)
    requires Genuine(F, p) && Genuine(F, q) && e * e == 1
    ensures !Same(F, F.d * (p.t * q.t), e * (p.z * q.z))
  {
    hide Same, Zero, Genuine;
    if Same(F, F.d * (p.t * q.t), e * (p.z * q.z)) {
      RootSquared(F);
      assert -F.root * -F.root == F.root * F.root;
      PoleVanishes(F, p, q, e, F.root);
      PoleVanishes(F, p, q, e, -F.root);
      BothVanish(F, p.x, p.y);
      NotBothZero(F, p);
    }
  }

  lemma NoPoles(F: Twisted, p: Coords, q: Coords)
    requires Genuine(F, p) && Genuine(F, q)
    ensures !Zero(F, p.z * q.z + F.d * (p.t * q.t)) && !Zero(F, p.z * q.z - F.d * (p.t * q.t))
  {
    var a, b := p.z * q.z, F.d * (p.t * q.t);
    hide Same, Genuine;
    NoPole(F, p, q, 1);
    NoPole(F, p, q, -1);
    DifferenceZero(F, b, a);
    DifferenceZero(F, b, -a);
    OppositeZero(F, a - b);
  }

  /** The sum of two curve points is a curve point, also the sum of a point with itself: its Z
      is not zero. */
  lemma SumGenuine(F: Twisted, p: Coords, q: Coords)
    requires Genuine(F, p) && Genuine(F, q)
    ensures Genuine(F, Sum(F, p, q))
  {
    SumOnCurve(F, p, q);
    var e, f, g, h := Factors(F, p, q);
    NoPoles(F, p, q);
    hide Same, OnCurve, FMul;
    var a, b := p.z * q.z - F.d * (p.t * q.t), p.z * q.z + F.d * (p.t * q.t);
    ConstantsNotZero(F);
    ZeroProduct(F, 2, a);
    ZeroProduct(F, 2, b);
    ZeroProduct(F, 2 * a, 2 * b);
    SameMul(F, f, 2 * a, g, 2 * b);
    ZeroSame(F, FMul(F, f, g), (2 * a) * (2 * b));
  }

  lemma IdentityGenuine(F: Twisted)
    ensures Genuine(F, IDENTITY)
  {
    IdentityOnCurve(F);
    ConstantsNotZero(F);
  }

  /** From a curve point both points of the ladder are curve points, after every number of
      iterations. */
  lemma {:induction false} RunGenuine(F: Twisted, q: Coords, s: nat, n: nat, i: nat)
    requires i <= n && Genuine(F, q)
    ensures Genuine(F, Run(Adder(F), IDENTITY, q, s, n, i).0) && Genuine(F, Run(Adder(F), IDENTITY, q, s, n, i).1)
    decreases n - i
  {
    hide Genuine, Sum;
    if i == n {
      IdentityGenuine(F);
    } else {
      RunGenuine(F, q, s, n, i + 1);
      var (p', q') := Run(Adder(F), IDENTITY, q, s, n, i + 1);
      SumGenuine(F, p', p');
      SumGenuine(F, q', q');
      SumGenuine(F, p', q');
      SumGenuine(F, q', p');
    }
  }

  lemma LawDenominators(F: Twisted, p: Coords, q: Coords)
    requires Genuine(F, p) && Genuine(F, q)
    ensures var (z, w) := (p.z * q.z, F.d * ((p.x * p.y) * (q.x * q.y)));
      !Zero(F, z * z + w) && !Zero(F, z * z - w)
  {
    var (z, t, xy) := (p.z * q.z, p.t * q.t, (p.x * p.y) * (q.x * q.y));
    assert !Zero(F, p.z) && !Zero(F, q.z);
    assert Linked(F, p) && Linked(F, q);
    hide *;
    NoPoles(F, p, q);
    Homogeneous(F, p, q);
    Denominators(F, z, t, xy);
    ZeroProduct(F, p.z, q.z);
    ZeroProduct(F, z, z + F.d * t);
    ZeroProduct(F, z, z - F.d * t);
    ZeroSame(F, z * z + F.d * xy, z * (z + F.d * t));
    ZeroSame(F, z * z - F.d * xy, z * (z - F.d * t));
  }

  /** The addition law on curve points: none of its denominators is zero. */
  lemma CompleteLaw(F: Twisted, p: Coords, q: Coords)
    requires Genuine(F, p) && Genuine(F, q)
    ensures var (s, z, w) := (Sum(F, p, q), p.z * q.z, F.d * ((p.x * p.y) * (q.x * q.y)));
      && !Zero(F, s.z) && !Zero(F, z * z + w) && !Zero(F, z * z - w)
      && Same(F, s.x * (z * z + w), s.z * ((p.x * q.y + q.x * p.y) * z))
      && Same(F, s.y * (z * z - w), s.z * ((p.y * q.y + p.x * q.x) * z))
  {
    assert Linked(F, p) && Linked(F, q);
    assert Genuine(F, Sum(F, p, q)) && !Zero(F, Sum(F, p, q).z) by {
      SumGenuine(F, p, q);
    }
    hide *;
    AdditionLaw(F, p, q);
    LawDenominators(F, p, q);
  }
}
