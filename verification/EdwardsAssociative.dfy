/** Addition in extended coordinates is associative up to a common factor of the coordinates. */
module EdwardsAssociative {
  import opened Arith
  import opened PrimeField
  import opened EdwardsFormulas
  import opened EdwardsLaw
  import opened EdwardsCurve

  /* The cross products of the sums (p + q) + r and p + (q + r) */

  /** (x1 y2 + y1 x2)(z1 z2 - d t1 t2), and (x1 x2 + y1 y2)(z1 z2 + d t1 t2). */
  function Mixed(p: Coords, q: Coords, d: int): int {
    (p.x * q.y + p.y * q.x) * (p.z * q.z - d * (p.t * q.t))
  }

  function Straight(p: Coords, q: Coords, d: int): int {
    (p.x * q.x + p.y * q.y) * (p.z * q.z + d * (p.t * q.t))
  }

  /** (z1 z2)^2 - d^2 (t1 t2)^2. */
  function Heights(p: Coords, q: Coords, d: int): int {
    (p.z * q.z - d * (p.t * q.t)) * (p.z * q.z + d * (p.t * q.t))
  }

  /** (x1 y2 + y1 x2)(x1 x2 + y1 y2). */
  function Widths(p: Coords, q: Coords): int {
    (p.x * q.y + p.y * q.x) * (p.x * q.x + p.y * q.y)
  }

  /** The cross product whose symmetry in p and r is associativity. */
  function Cross(p: Coords, q: Coords, r: Coords, d: int): int {
    (Mixed(p, q, d) * r.y + Straight(p, q, d) * r.x) * (Heights(q, r, d) * p.z + d * (Widths(q, r) * p.t))
  }

  /* Lowering the products with z and t to squares */

  /** k (x a + y b) as x and y times something. */
  lemma Split(k: int, x: int, y: int, a: int, b: int)
    ensures k * (x * a + y * b) == x * (k * a) + y * (k * b)
  {
    Outside(k, x, a);
    Outside(k, y, b);
    Distribute(k, x * a, y * b);
  }

  /** x y k (x a + y b) the same way, with squares. */
  lemma SplitMixed(k: int, x: int, y: int, a: int, b: int)
    ensures (x * y) * (k * (x * a + y * b)) == x * ((y * y) * (k * b)) + y * ((x * x) * (k * a))
  {
    Split(k, x, y, a, b);
    assert (x * y) * (x * (k * a)) == y * ((x * x) * (k * a)) by {
      Interchange(x, y, x, k * a);
      Outside(x * x, y, k * a);
    }
    assert (x * y) * (y * (k * b)) == x * ((y * y) * (k * b)) by {
      Interchange(y, x, y, k * b);
      Outside(y * y, x, k * b);
    }
    Distribute(x * y, x * (k * a), y * (k * b));
  }

  lemma TimesHeight(v: int, n: int, z: int, t: int, c: int, s: int, d: int)
    ensures v * (n * (z * c + d * (t * s))) == (v * z) * (c * n) + (v * t) * ((d * s) * n)
  {
    assert v * (n * (z * c)) == (v * z) * (c * n);
    assert d * (t * s) == t * (d * s);
    assert v * (n * (t * (d * s))) == (v * t) * ((d * s) * n);
    Distribute(n, z * c, d * (t * s));
    Distribute(v, n * (z * c), n * (d * (t * s)));
  }

  /* A bilinear form in the squares of two points. The signs are 1 or -1. */

  function Form(a: int, b: int, k: int, l: int, n: int, o: int, d: int,
                z: int, w: int, t: int, h: int, v: int, s: int): int {
    z * (a * h) + w * (d * (b * h + k * v + l * s)) - t * ((d * d) * (n * v - o * s))
  }

  function Expanded(alpha: int, beta: int, gamma: int, phi: int, psi: int, rho: int,
                    z: int, w: int, t: int, z': int, v: int, t': int): int {
    z * (alpha * z' - beta * t') + w * (gamma * v - phi * t') - t * (psi * v + beta * (z' + rho * t'))
  }

  lemma TwoTerms(k: int, a: int, x: int, b: int, y: int)
    ensures k * (a * x - b * y) == a * (k * x) - b * (k * y)
    ensures k * (a * x + b * y) == a * (k * x) + b * (k * y)
  {
    Outside(k, a, x);
    Outside(k, b, y);
    Distribute(k, a * x, b * y);
    Distribute(k, a * x, -(b * y));
  }

  /** The products of the squares. */
  lemma Monomials(alpha: int, beta: int, gamma: int, phi: int, psi: int, rho: int,
                  z: int, w: int, t: int, z': int, v: int, t': int)
    ensures Expanded(alpha, beta, gamma, phi, psi, rho, z, w, t, z', v, t') ==
            alpha * (z * z') - beta * (z * t') + gamma * (w * v) - phi * (w * t')
            - psi * (t * v) - beta * (t * z') - beta * (rho * (t * t'))
  {
    TwoTerms(z, alpha, z', beta, t');
    TwoTerms(w, gamma, v, phi, t');
    TwoTerms(t, psi, v, beta, z' + rho * t');
    Outside(t, rho, t');
    Distribute(t, z', rho * t');
    Distribute(beta, t * z', rho * (t * t'));
  }

  lemma ExpandedSwaps(alpha: int, beta: int, gamma: int, phi: int, psi: int, rho: int,
                      z: int, w: int, t: int, z': int, v: int, t': int)
    ensures Expanded(alpha, beta, gamma, phi, psi, rho, z, w, t, z', v, t') ==
            Expanded(alpha, beta, gamma, psi, phi, rho, z', v, t', z, w, t)
  {
    hide Expanded;
    Monomials(alpha, beta, gamma, phi, psi, rho, z, w, t, z', v, t');
    Monomials(alpha, beta, gamma, psi, phi, rho, z', v, t', z, w, t);
  }

  lemma FirstRow(a: int, cc: int, dd: int, ss: int, so: int, z: int, t: int)
    requires ss * a == so
    ensures a * (cc * z - dd * (ss * t)) == (cc * a) * z - (dd * so) * t
  {
    assert a * (dd * (ss * t)) == (dd * (ss * a)) * t;
    assert a * (cc * z) == (cc * a) * z;
    Distribute(a, cc * z, -(dd * (ss * t)));
  }

  /** l times what the third and first square leave of a sum. */
  lemma SignedTerm(l: int, sign: int, g: int, rho: int, z: int, v: int, t: int)
    requires g == sign * l
    ensures l * (2 * v - sign * (z + rho * t)) == (2 * l) * v - (g * z + (rho * g) * t)
  {
    Distribute(l, 2 * v, -(sign * (z + rho * t)));
    Outside(l, sign, z + rho * t);
    MulAssoc(sign, l, z + rho * t);
    Distribute(g, z, rho * t);
    Outside(g, rho, t);
    MulAssoc(rho, g, t);
  }

  lemma SecondRow(b: int, k: int, l: int, cc: int, dd: int, ss: int, rho: int, sign: int, z: int, v: int, t: int)
    requires cc * b == sign * l
    ensures b * (cc * z - dd * (ss * t)) + k * v + l * (2 * v - sign * (z + rho * t))
         == (k + 2 * l) * v - (b * (dd * ss + rho * cc)) * t
  {
    FirstRow(b, cc, dd, ss, ss * b, z, t);
    SignedTerm(l, sign, cc * b, rho, z, v, t);
    Distribute(v, k, 2 * l);
    Swap(v, k);
    Swap(v, 2 * l);
    Swap(v, k + 2 * l);
    assert b * (dd * ss + rho * cc) == dd * (ss * b) + rho * (cc * b);
    Distribute(t, dd * (ss * b), rho * (cc * b));
    Swap(t, dd * (ss * b));
    Swap(t, rho * (cc * b));
    Swap(t, dd * (ss * b) + rho * (cc * b));
  }

  lemma ThirdRow(n: int, o: int, sign: int, rho: int, z: int, v: int, t: int)
    ensures n * v - o * (2 * v - sign * (z + rho * t)) == (n - 2 * o) * v + (sign * o) * (z + rho * t)
  {
    assert o * (sign * (z + rho * t)) == (sign * o) * (z + rho * t);
    Distribute(o, 2 * v, -(sign * (z + rho * t)));
  }

  lemma FormIs(a: int, b: int, k: int, l: int, n: int, o: int, d: int,
               z: int, w: int, t: int, h: int, v: int, s: int)
    ensures Form(a, b, k, l, n, o, d, z, w, t, h, v, s) ==
            z * (a * h) + (w * (d * (b * h + k * v + l * s)) - t * ((d * d) * (n * v - o * s)))
  {
  }

  lemma ScaledPairs(d: int, k: int, v: int, c: int, t: int)
    ensures d * (k * v - c * t) == (d * k) * v - (d * c) * t
    ensures d * (k * v + c * t) == (d * k) * v + (d * c) * t
  {
    MulAssoc(d, k, v);
    MulAssoc(d, c, t);
    Distribute(d, k * v, -(c * t));
    Distribute(d, k * v, c * t);
  }

  lemma ExpandedIs(alpha: int, beta: int, gamma: int, phi: int, psi: int, rho: int,
                   z: int, w: int, t: int, z': int, v: int, t': int)
    ensures Expanded(alpha, beta, gamma, phi, psi, rho, z, w, t, z', v, t') ==
            z * (alpha * z' - beta * t') + (w * (gamma * v - phi * t') - t * (psi * v + beta * (z' + rho * t')))
  {
  }

  /** What the form is in the squares themselves. */
  lemma FormExpands(a: int, b: int, k: int, l: int, n: int, o: int, d: int, cc: int, ss: int, rho: int, sign: int,
                    z: int, w: int, t: int, z': int, v: int, t': int)
    requires cc * b == sign * l && ss * a == sign * o
    ensures Form(a, b, k, l, n, o, d, z, w, t,
                 cc * z' - (d * d) * (ss * t'), v, 2 * v - sign * (z' + rho * t'))
         == Expanded(cc * a, (d * d) * (sign * o), d * (k + 2 * l), d * (b * ((d * d) * ss + rho * cc)),
                     (d * d) * (n - 2 * o), rho, z, w, t, z', v, t')
  {
    var (dd, theta) := (d * d, b * ((d * d) * ss + rho * cc));
    var (h, s) := (cc * z' - (d * d) * (ss * t'), 2 * v - sign * (z' + rho * t'));
    FormIs(a, b, k, l, n, o, d, z, w, t, h, v, s);
    ExpandedIs(cc * a, dd * (sign * o), d * (k + 2 * l), d * theta, dd * (n - 2 * o), rho, z, w, t, z', v, t');
    hide *;
    FirstRow(a, cc, dd, ss, sign * o, z', t');
    SecondRow(b, k, l, cc, dd, ss, rho, sign, z', v, t');
    ThirdRow(n, o, sign, rho, z', v, t');
    ScaledPairs(d, k + 2 * l, v, theta, t');
    ScaledPairs(dd, n - 2 * o, v, sign * o, z' + rho * t');
  }

  lemma ExpandedSame(F: Field, alpha: int, beta: int, gamma: int, phi: int, psi: int, phi': int, psi': int, rho: int,
                     z: int, w: int, t: int, z': int, v: int, t': int)
    requires Same(F, phi, phi') && Same(F, psi, psi')
    ensures Same(F, Expanded(alpha, beta, gamma, phi, psi, rho, z, w, t, z', v, t'),
                 Expanded(alpha, beta, gamma, phi', psi', rho, z, w, t, z', v, t'))
  {
    hide *;
    Monomials(alpha, beta, gamma, phi, psi, rho, z, w, t, z', v, t');
    Monomials(alpha, beta, gamma, phi', psi', rho, z, w, t, z', v, t');
    var rest := alpha * (z * z') - beta * (z * t') + gamma * (w * v) - beta * (t * z') - beta * (rho * (t * t'));
    Itself(F, w * t');
    Itself(F, t * v);
    Itself(F, rest);
    SameMul(F, phi, phi', w * t', w * t');
    SameMul(F, psi, psi', t * v, t * v);
    SameSum(F, rest, rest, phi * (w * t'), phi' * (w * t'));
    SameSum(F, rest - phi * (w * t'), rest - phi' * (w * t'), psi * (t * v), psi' * (t * v));
  }

  lemma SignedProducts(e: int, sign: int, cc: int, b: int, l: int, ss: int, a: int, o: int)
    requires cc * b == sign * l && ss * a == sign * o && e * e == 1
    ensures cc * (e * b) == (e * sign) * l && ss * a == (e * sign) * (e * o) && (e * sign) * (e * o) == sign * o
  {
    Outside(cc, e, b);
    MulAssoc(e, sign, l);
    Interchange(e, sign, e, o);
  }

  lemma SignedCoefficients(F: Field, e: int, b: int, theta: int, d: int, n: int, o: int)
    requires e * e == 1 && Same(F, b * theta, e * (d * (n - 2 * o)))
    ensures Same(F, d * (b * theta), (d * d) * (e * n - 2 * (e * o)))
    ensures Same(F, (d * d) * (n - 2 * o), d * ((e * b) * theta))
  {
    var m := n - 2 * o;
    hide *;
    Distribute(e, n, -2 * o);
    assert e * n - 2 * (e * o) == e * m;
    Itself(F, d);
    SameMul(F, d, d, b * theta, e * (d * m));
    assert d * (e * (d * m)) == (d * d) * (e * m);
    Itself(F, d * e);
    SameMul(F, d * e, d * e, b * theta, e * (d * m));
    assert (d * e) * (e * (d * m)) == (d * d) * m by {
      Interchange(d, e, d * m, e);
      MulAssoc(d, d, m);
      assert (d * e) * (d * m * e) == (d * (d * m)) * (e * e);
    }
    assert (d * e) * (b * theta) == d * ((e * b) * theta);
    Symmetric(F, d * ((e * b) * theta), (d * d) * m);
  }

  /** The form is symmetric, up to a sign e of its odd coefficients. */
  lemma FormSwaps(F: Field, a: int, b: int, k: int, l: int, n: int, o: int, d: int, cc: int, ss: int, rho: int,
                  sign: int, e: int, z: int, w: int, t: int, z': int, v: int, t': int)
    requires cc * b == sign * l && ss * a == sign * o && e * e == 1
    requires Same(F, b * ((d * d) * ss + rho * cc), e * (d * (n - 2 * o)))
    ensures Same(F, Form(a, b, k, l, n, o, d, z, w, t,
                         cc * z' - (d * d) * (ss * t'), v, 2 * v - sign * (z' + rho * t')),
                 Form(a, e * b, k, l, e * n, e * o, d, z', v, t',
                      cc * z - (d * d) * (ss * t), w, 2 * w - (e * sign) * (z + rho * t)))
  {
    var dd, theta := d * d, (d * d) * ss + rho * cc;
    hide *;
    SignedProducts(e, sign, cc, b, l, ss, a, o);
    FormExpands(a, b, k, l, n, o, d, cc, ss, rho, sign, z, w, t, z', v, t');
    FormExpands(a, e * b, k, l, e * n, e * o, d, cc, ss, rho, e * sign, z', v, t', z, w, t);
    SignedCoefficients(F, e, b, theta, d, n, o);
    var alpha, beta, gamma := cc * a, dd * (sign * o), d * (k + 2 * l);
    ExpandedSwaps(alpha, beta, gamma, d * ((e * b) * theta), dd * (e * n - 2 * (e * o)), rho, z', v, t', z, w, t);
    ExpandedSame(F, alpha, beta, gamma, d * (b * theta), dd * (n - 2 * o),
                 dd * (e * n - 2 * (e * o)), d * ((e * b) * theta), rho, z, w, t, z', v, t');
  }

  lemma CollectRows(d: int, w: int, t: int, bh: int, u1: int, u2: int, u3: int, u4: int)
    ensures d * (w * bh) + d * (w * u1 - d * (t * u3) + (w * u2 + d * (t * u4)))
         == w * (d * (bh + u1 + u2)) - t * ((d * d) * (u3 - u4))
  {
    var x, y := w * u1 + w * u2, t * u3 - t * u4;
    Distribute(d, t * u3, -(t * u4));
    Distribute(d, x, -(d * y));
    MulAssoc(d, d, y);
    Distribute(t, u3, -u4);
    Outside(t, d * d, u3 - u4);
    Outside(w, d, bh + u1 + u2);
    Distribute(w, bh, u1 + u2);
    Distribute(w, u1, u2);
    Distribute(d, w * bh, x);
  }

  lemma BracketPart(v: int, v': int, w: int, a: int, d: int, t: int, n: int)
    ensures v * (v' * (w * a + d * (t * n))) == w * ((v * a) * v') + d * (t * ((v * n) * v'))
    ensures (v * v') * (w * a + d * (t * n)) == w * ((v * a) * v') + d * (t * ((v * n) * v'))
  {
    assert (v * v') * (w * a) == w * ((v * a) * v');
    assert (v * v') * (d * (t * n)) == d * (t * ((v * n) * v'));
    Distribute(v * v', w * a, d * (t * n));
    MulAssoc(v, v', w * a + d * (t * n));
  }

  /** A bracket of the cross product is a form. */
  lemma BracketIsForm(a: int, b: int, c: int, n: int, o: int, v: int, m: int, d: int,
                      z: int, w: int, t: int, h: int, v': int, s: int)
    ensures h * (z * a + d * (w * b)) + d * (v * (v' * (w * a - d * (t * n))) + (m * s) * (w * c + d * (t * o)))
         == Form(a, b, v * a, m * c, v * n, m * o, d, z, w, t, h, v', s)
  {
    assert h * (z * a) == z * (a * h);
    assert h * (d * (w * b)) == d * (w * (b * h));
    Distribute(h, z * a, d * (w * b));
    BracketPart(v, v', w, a, -d, t, n);
    assert -d * (t * n) == -(d * (t * n)) && -d * (t * ((v * n) * v')) == -(d * (t * ((v * n) * v')));
    BracketPart(m, s, w, c, d, t, o);
    hide *;
    CollectRows(d, w, t, b * h, (v * a) * v', (m * c) * s, (v * n) * v', (m * o) * s);
    FormIs(a, b, v * a, m * c, v * n, m * o, d, z, w, t, h, v', s);
  }

  /* The cross product as four brackets */

  /** x u1 + y u2 and the products with d s, put together. */
  lemma LowerShape(x: int, y: int, u1: int, v1: int, d: int, s: int, b: int, u2: int, v2: int, a: int)
    ensures x * u1 + y * u2 + (x * (v1 * ((d * s) * b)) + y * (v2 * ((d * s) * a)))
         == x * (u1 + d * (v1 * (b * s))) + y * (u2 + d * (v2 * (a * s)))
  {
    assert v1 * ((d * s) * b) == d * (v1 * (b * s));
    assert v2 * ((d * s) * a) == d * (v2 * (a * s));
    Distribute(x, u1, d * (v1 * (b * s)));
    Distribute(y, u2, d * (v2 * (a * s)));
  }

  lemma LowerPlain(zz: int, c: int, x: int, y: int, a: int, b: int)
    ensures zz * (c * (x * a + y * b)) == x * (zz * (c * a)) + y * (zz * (c * b))
  {
    Split(zz * c, x, y, a, b);
    MulAssoc(zz, c, x * a + y * b);
    MulAssoc(zz, c, a);
    MulAssoc(zz, c, b);
  }

  lemma LowerMixed(F: Field, x: int, y: int, z: int, t: int, a: int, b: int, k: int, yy: int)
    requires Same(F, z * t, x * y) && Same(F, y * y, yy)
    ensures Same(F, (z * t) * (k * (x * a + y * b)), x * (yy * (k * b)) + y * ((x * x) * (k * a)))
  {
    var n := x * a + y * b;
    hide *;
    SplitMixed(k, x, y, a, b);
    Itself(F, k * n);
    Itself(F, k * b);
    Itself(F, x);
    Itself(F, y * ((x * x) * (k * a)));
    SameMul(F, z * t, x * y, k * n, k * n);
    SameMul(F, y * y, yy, k * b, k * b);
    SameMul(F, x, x, (y * y) * (k * b), yy * (k * b));
    SameSum(F, x * ((y * y) * (k * b)), x * (yy * (k * b)), y * ((x * x) * (k * a)), y * ((x * x) * (k * a)));
    Transitive(F, (z * t) * (k * n), (x * y) * (k * n), x * (yy * (k * b)) + y * ((x * x) * (k * a)));
  }

  lemma Lower(F: Field, x: int, y: int, z: int, t: int, a: int, b: int, c: int, s: int, d: int, yy: int)
    requires Same(F, z * t, x * y) && Same(F, y * y, yy)
    ensures var n := (x * a + y * b) * (z * c + d * (t * s));
      && Same(F, z * n,
              x * ((z * z) * (a * c) + d * (yy * (b * s))) + y * ((z * z) * (b * c) + d * ((x * x) * (a * s))))
      && Same(F, t * n,
              x * (yy * (b * c) + d * ((t * t) * (a * s))) + y * ((x * x) * (a * c) + d * ((t * t) * (b * s))))
  {
    var n := x * a + y * b;
    hide *;
    TimesHeight(z, n, z, t, c, s, d);
    TimesHeight(t, n, z, t, c, s, d);
    LowerMixed(F, x, y, z, t, a, b, d * s, yy);
    LowerMixed(F, x, y, z, t, a, b, c, yy);
    LowerPlain(z * z, c, x, y, a, b);
    LowerPlain(t * t, d * s, x, y, a, b);
    Itself(F, (z * z) * (c * n));
    Itself(F, (t * t) * ((d * s) * n));
    SameSum(F, (z * z) * (c * n), (z * z) * (c * n), (z * t) * ((d * s) * n),
            x * (yy * ((d * s) * b)) + y * ((x * x) * ((d * s) * a)));
    SameSum(F, (z * t) * (c * n), x * (yy * (c * b)) + y * ((x * x) * (c * a)),
            (t * t) * ((d * s) * n), (t * t) * ((d * s) * n));
    Interchange(t, z, 1, 1);
    LowerShape(x, y, (z * z) * (c * a), yy, d, s, b, (z * z) * (c * b), x * x, a);
    LowerShape(x, y, yy * (c * b), t * t, d, s, a, (x * x) * (c * a), t * t, b);
    Swap(c, a);
    Swap(c, b);
    Swap(t, z);
  }

  lemma FourProducts(h: int, p: int, q: int, x: int, y: int, a1: int, b1: int, a2: int, b2: int)
    ensures h * (p * (x * a1 + y * b1) + q * (x * a2 + y * b2))
         == (x * p) * (h * a1) + (y * p) * (h * b1) + (x * q) * (h * a2) + (y * q) * (h * b2)
  {
    assert (h * p) * (x * a1) == (x * p) * (h * a1) && (h * p) * (y * b1) == (y * p) * (h * b1);
    assert (h * q) * (x * a2) == (x * q) * (h * a2) && (h * q) * (y * b2) == (y * q) * (h * b2);
    Distribute(h * p, x * a1, y * b1);
    Distribute(h * q, x * a2, y * b2);
    MulAssoc(h, p, x * a1 + y * b1);
    MulAssoc(h, q, x * a2 + y * b2);
    Distribute(h, p * (x * a1 + y * b1), q * (x * a2 + y * b2));
  }

  lemma CrossShape(n: int, h: int, z: int, d: int, w: int, t: int)
    ensures n * (h * z + d * (w * t)) == h * (z * n) + d * (w * (t * n))
  {
    Distribute(n, h * z, d * (w * t));
    Outside(n, h, z);
    Outside(n, d, w * t);
    Outside(n, w, t);
  }

  lemma CrossSplits(m: int, s: int, p: int, q: int, h: int, z: int, d: int, w: int, t: int)
    ensures (m * p + s * q) * (h * z + d * (w * t))
         == h * (p * (z * m) + q * (z * s)) + d * (w * (p * (t * m) + q * (t * s)))
  {
    hide *;
    CrossShape(m * p + s * q, h, z, d, w, t);
    Split(z, p, q, m, s);
    Split(t, p, q, m, s);
    Swap(m, p);
    Swap(s, q);
  }

  lemma WidthsSplit(x: int, y: int, u: int, v: int)
    ensures (x * v + y * u) * (x * u + y * v) == (x * y) * (u * u + v * v) + (u * v) * (x * x + y * y)
  {
    ProductOfTwoSums(x * v, y * u, x * u, y * v);
    Interchange(x, v, x, u);
    Interchange(x, v, y, v);
    Interchange(y, u, x, u);
    Interchange(y, u, y, v);
    Distribute(x * y, u * u, v * v);
    Distribute(u * v, x * x, y * y);
  }

  lemma Move(F: Field, x: int, p: int, q: int, v: int, a: int, pp: int)
    requires Same(F, p * p, pp)
    ensures Same(F, (x * p) * (((q * p) * v) * a), (x * q) * (v * (pp * a)))
  {
    hide *;
    assert (x * p) * (((q * p) * v) * a) == ((x * q) * (v * a)) * (p * p) by {
      Interchange(x, p, q, p);
      Interchange(x * p, q * p, v, a);
      MulAssoc(q * p, v, a);
      MulAssoc(x * p, q * p, v * a);
      MulAssoc(x * q, p * p, v * a);
      MulAssoc(x * q, v * a, p * p);
      Swap(p * p, v * a);
    }
    assert (x * q) * (v * (pp * a)) == ((x * q) * (v * a)) * pp by {
      Outside(v, pp, a);
      Outside(x * q, pp, v * a);
      Swap(pp, (x * q) * (v * a));
    }
    Itself(F, (x * q) * (v * a));
    SameMul(F, (x * q) * (v * a), (x * q) * (v * a), p * p, pp);
  }

  /** The third of the products, with the squares of r in place. */
  lemma MixedProducts(F: Field, x: int, y: int, p: int, q: int, v: int,
                      a3: int, b3: int, a4: int, b4: int, pp: int, qq: int)
    requires Same(F, p * p, pp) && Same(F, q * q, qq)
    ensures Same(F, ((q * p) * v) * (p * (x * a3 + y * b3) + q * (x * a4 + y * b4)),
                 (x * q) * (v * (pp * a3)) + (y * q) * (v * (pp * b3))
                 + (x * p) * (v * (qq * a4)) + (y * p) * (v * (qq * b4)))
  {
    hide *;
    FourProducts((q * p) * v, p, q, x, y, a3, b3, a4, b4);
    Move(F, x, p, q, v, a3, pp);
    Move(F, y, p, q, v, b3, pp);
    Swap(q, p);
    Move(F, x, q, p, v, a4, qq);
    Move(F, y, q, p, v, b4, qq);
    SameSum(F, (x * p) * (((q * p) * v) * a3), (x * q) * (v * (pp * a3)),
            (y * p) * (((q * p) * v) * b3), (y * q) * (v * (pp * b3)));
    SameSum(F, (x * p) * (((q * p) * v) * a3) + (y * p) * (((q * p) * v) * b3),
            (x * q) * (v * (pp * a3)) + (y * q) * (v * (pp * b3)),
            (x * q) * (((p * q) * v) * a4), (x * p) * (v * (qq * a4)));
    SameSum(F, (x * p) * (((q * p) * v) * a3) + (y * p) * (((q * p) * v) * b3) + (x * q) * (((p * q) * v) * a4),
            (x * q) * (v * (pp * a3)) + (y * q) * (v * (pp * b3)) + (x * p) * (v * (qq * a4)),
            (y * q) * (((p * q) * v) * b4), (y * p) * (v * (qq * b4)));
  }

  /** The four brackets with their factors. */
  function Brackets(x: int, y: int, p: int, q: int, h: int, u: int, v: int, d: int, pp: int, qq: int,
                    a1: int, b1: int, a2: int, b2: int, a3: int, b3: int, a4: int, b4: int): int {
    (x * q) * (h * a2 + d * (v * (pp * a3) + u * a4)) + (y * p) * (h * b1 + d * (v * (qq * b4) + u * b3))
    + (x * p) * (h * a1 + d * (v * (qq * a4) + u * a3)) + (y * q) * (h * b2 + d * (v * (pp * b3) + u * b4))
  }

  lemma DistributeTwice(k: int, a: int, d: int, b: int, c: int)
    ensures k * (a + d * (b + c)) == k * a + d * (k * b + k * c)
  {
    Distribute(k, a, d * (b + c));
    Outside(k, d, b + c);
    Distribute(k, b, c);
  }

  lemma DistributeSix(d: int, a: int, b: int, c: int, e: int)
    ensures d * (a + b + c + e) == d * a + d * b + d * c + d * e
  {
  }

  lemma BracketsGather(F: Field, x: int, y: int, p: int, q: int, h: int, u: int, v: int, d: int, pp: int, qq: int,
                       a1: int, b1: int, a2: int, b2: int, a3: int, b3: int, a4: int, b4: int)
    requires Same(F, p * p, pp) && Same(F, q * q, qq)
    ensures Same(F, h * (p * (x * a1 + y * b1) + q * (x * a2 + y * b2))
                 + d * ((u + (q * p) * v) * (p * (x * a3 + y * b3) + q * (x * a4 + y * b4))),
                 Brackets(x, y, p, q, h, u, v, d, pp, qq, a1, b1, a2, b2, a3, b3, a4, b4))
  {
    var n := p * (x * a3 + y * b3) + q * (x * a4 + y * b4);
    var third := (x * q) * (v * (pp * a3)) + (y * q) * (v * (pp * b3))
                 + (x * p) * (v * (qq * a4)) + (y * p) * (v * (qq * b4));
    DistributeTwice(x * q, h * a2, d, v * (pp * a3), u * a4);
    DistributeTwice(y * p, h * b1, d, v * (qq * b4), u * b3);
    DistributeTwice(x * p, h * a1, d, v * (qq * a4), u * a3);
    DistributeTwice(y * q, h * b2, d, v * (pp * b3), u * b4);
    FourProducts(h, p, q, x, y, a1, b1, a2, b2);
    FourProducts(u, p, q, x, y, a3, b3, a4, b4);
    hide Same;
    MixedProducts(F, x, y, p, q, v, a3, b3, a4, b4, pp, qq);
    var first := h * (p * (x * a1 + y * b1) + q * (x * a2 + y * b2));
    Distribute(n, u, (q * p) * v);
    Distribute(d, u * n + third, 0);
    Itself(F, d);
    Itself(F, first);
    Itself(F, u * n);
    SameSum(F, u * n, u * n, ((q * p) * v) * n, third);
    SameMul(F, d, d, u * n + ((q * p) * v) * n, u * n + third);
    SameSum(F, first, first, d * (u * n + ((q * p) * v) * n), d * (u * n + third));
    assert first + d * (u * n + third) == Brackets(x, y, p, q, h, u, v, d, pp, qq, a1, b1, a2, b2, a3, b3, a4, b4) by {
      DistributeSix(d, (x * q) * (v * (pp * a3)) + (x * q) * (u * a4), (y * p) * (v * (qq * b4)) + (y * p) * (u * b3),
                    (x * p) * (v * (qq * a4)) + (x * p) * (u * a3), (y * q) * (v * (pp * b3)) + (y * q) * (u * b4));
    }
  }

  /** The squares of a point's coordinates, the second one from the curve equation. */
  datatype Squares = Squares(x: int, y: int, z: int, t: int)

  function SquaresOf(p: Coords, rho: int): Squares {
    var (x, z, t) := (p.x * p.x, p.z * p.z, p.t * p.t);
    Squares(x, x + z + rho * t, z, t)
  }

  /** The curve equations of a point, for any curve constant. */
  ghost predicate On(F: Field, p: Coords, rho: int) {
    Same(F, p.z * p.t, p.x * p.y) && Same(F, p.y * p.y, SquaresOf(p, rho).y)
  }

  function HeightsOf(q: Coords, r: Squares, d: int): int {
    (q.z * q.z) * r.z - (d * d) * ((q.t * q.t) * r.t)
  }

  /** Which of the squares of p and r a bracket has, and with which sign. */
  function Bracket(q: Coords, d: int, b: int, n: int, a: int, c: int, o: int,
                   p: Squares, w: int, r: Squares, v: int): int {
    HeightsOf(q, r, d) * (p.z * a + d * (w * b))
    + d * ((q.x * q.x + q.y * q.y) * (v * (w * a - d * (p.t * n)))
           + ((q.z * q.t) * (r.x + r.y)) * (w * c + d * (p.t * o)))
  }

  function XX(p: Squares, q: Coords, r: Squares, d: int): int {
    var (A, B, C, E) := (q.x * q.z, q.y * q.t, q.y * q.z, q.x * q.t);
    Bracket(q, d, B, B, A, C, E, p, p.y, r, r.y)
  }

  function YY(p: Squares, q: Coords, r: Squares, d: int): int {
    var (A, B, C, E) := (q.x * q.z, q.y * q.t, q.y * q.z, q.x * q.t);
    Bracket(q, d, -B, -B, A, C, -E, p, p.x, r, r.x)
  }

  function XY(p: Squares, q: Coords, r: Squares, d: int): int {
    var (A, B, C, E) := (q.x * q.z, q.y * q.t, q.y * q.z, q.x * q.t);
    Bracket(q, d, -E, -E, C, A, -B, p, p.y, r, r.x)
  }

  function YX(p: Squares, q: Coords, r: Squares, d: int): int {
    var (A, B, C, E) := (q.x * q.z, q.y * q.t, q.y * q.z, q.x * q.t);
    Bracket(q, d, E, E, C, A, B, p, p.x, r, r.y)
  }

  /** The cross product in squares. */
  function Parts(p: Coords, q: Coords, r: Coords, d: int, rho: int): int {
    var (PS, RS) := (SquaresOf(p, rho), SquaresOf(r, rho));
    (p.x * r.x) * XX(PS, q, RS, d) + (p.y * r.y) * YY(PS, q, RS, d)
    + (p.x * r.y) * XY(PS, q, RS, d) + (p.y * r.x) * YX(PS, q, RS, d)
  }

  lemma HeightsInSquares(q: Coords, r: Coords, d: int, rho: int)
    ensures Heights(q, r, d) == HeightsOf(q, SquaresOf(r, rho), d)
  {
    var (u, v) := (q.z * r.z, d * (q.t * r.t));
    assert (u - v) * (u + v) == u * u - v * v;
    Interchange(q.z, r.z, q.z, r.z);
    Interchange(d, q.t * r.t, d, q.t * r.t);
    Interchange(q.t, r.t, q.t, r.t);
  }

  lemma WidthsInSquares(F: Field, q: Coords, r: Coords, rho: int)
    requires On(F, r, rho) && Same(F, q.x * q.y, q.z * q.t)
    ensures var RS := SquaresOf(r, rho);
      Same(F, Widths(q, r), (q.z * q.t) * (RS.x + RS.y) + (r.x * r.y) * (q.x * q.x + q.y * q.y))
  {
    var RS, v := SquaresOf(r, rho), (r.x * r.y) * (q.x * q.x + q.y * q.y);
    hide Same;
    WidthsSplit(q.x, q.y, r.x, r.y);
    Itself(F, r.x * r.x);
    Itself(F, v);
    SameSum(F, r.x * r.x, RS.x, r.y * r.y, RS.y);
    SameMul(F, q.x * q.y, q.z * q.t, r.x * r.x + r.y * r.y, RS.x + RS.y);
    SameSum(F, (q.x * q.y) * (r.x * r.x + r.y * r.y), (q.z * q.t) * (RS.x + RS.y), v, v);
  }

  lemma NegativeTerm(d: int, x: int, y: int)
    ensures -d * (x * y) == d * (x * -y) == -(d * (x * y))
  {
    assert x * -y == -(x * y);
    assert d * -(x * y) == -(d * (x * y));
  }

  lemma MixedLower(F: Field, p: Coords, q: Coords, d: int, rho: int)
    requires On(F, p, rho)
    ensures var (PS, A, B, C, E) := (SquaresOf(p, rho), q.x * q.z, q.y * q.t, q.y * q.z, q.x * q.t);
      && Same(F, p.z * Mixed(p, q, d), p.x * (PS.z * C + d * (PS.y * -E)) + p.y * (PS.z * A + d * (PS.x * -B)))
      && Same(F, p.t * Mixed(p, q, d), p.x * (PS.y * A - d * (PS.t * B)) + p.y * (PS.x * C - d * (PS.t * E)))
  {
    var (PS, B, E) := (SquaresOf(p, rho), q.y * q.t, q.x * q.t);
    hide Same;
    Lower(F, p.x, p.y, p.z, p.t, q.y, q.x, q.z, q.t, -d, PS.y);
    NegativeTerm(d, PS.y, E);
    NegativeTerm(d, PS.x, B);
    NegativeTerm(d, PS.t, B);
    NegativeTerm(d, PS.t, E);
    assert -d * (p.t * q.t) == -(d * (p.t * q.t));
  }

  lemma StraightLower(F: Field, p: Coords, q: Coords, d: int, rho: int)
    requires On(F, p, rho)
    ensures var (PS, A, B, C, E) := (SquaresOf(p, rho), q.x * q.z, q.y * q.t, q.y * q.z, q.x * q.t);
      && Same(F, p.z * Straight(p, q, d), p.x * (PS.z * A + d * (PS.y * B)) + p.y * (PS.z * C + d * (PS.x * E)))
      && Same(F, p.t * Straight(p, q, d), p.x * (PS.y * C + d * (PS.t * E)) + p.y * (PS.x * A + d * (PS.t * B)))
  {
    hide Same;
    Lower(F, p.x, p.y, p.z, p.t, q.x, q.y, q.z, q.t, d, SquaresOf(p, rho).y);
  }

  lemma PairSame(F: Field, p: int, q: int, a: int, a': int, b: int, b': int)
    requires Same(F, a, a') && Same(F, b, b')
    ensures Same(F, p * a + q * b, p * a' + q * b')
  {
    hide *;
    Itself(F, p);
    Itself(F, q);
    SameMul(F, p, p, a, a');
    SameMul(F, q, q, b, b');
    SameSum(F, p * a, p * a', q * b, q * b');
  }

  /** Congruent factors in the split cross product. */
  lemma SplitSame(F: Field, h: int, p: int, q: int, d: int, w: int, w': int, zm: int, zm': int, zs: int, zs': int,
                  tm: int, tm': int, ts: int, ts': int)
    requires Same(F, w, w') && Same(F, zm, zm') && Same(F, zs, zs') && Same(F, tm, tm') && Same(F, ts, ts')
    ensures Same(F, h * (p * zm + q * zs) + d * (w * (p * tm + q * ts)),
                 h * (p * zm' + q * zs') + d * (w' * (p * tm' + q * ts')))
  {
    hide *;
    Itself(F, h);
    Itself(F, d);
    PairSame(F, p, q, zm, zm', zs, zs');
    PairSame(F, p, q, tm, tm', ts, ts');
    SameMul(F, h, h, p * zm + q * zs, p * zm' + q * zs');
    SameMul(F, w, w', p * tm + q * ts, p * tm' + q * ts');
    SameMul(F, d, d, w * (p * tm + q * ts), w' * (p * tm' + q * ts'));
    SameSum(F, h * (p * zm + q * zs), h * (p * zm' + q * zs'),
            d * (w * (p * tm + q * ts)), d * (w' * (p * tm' + q * ts')));
  }

  /** The brackets of the gathered product are the four forms. */
  lemma BracketsAreParts(p: Coords, q: Coords, r: Coords, d: int, rho: int)
    ensures var (PS, RS) := (SquaresOf(p, rho), SquaresOf(r, rho));
      var (A, B, C, E) := (q.x * q.z, q.y * q.t, q.y * q.z, q.x * q.t);
      Parts(p, q, r, d, rho) ==
      Brackets(p.x, p.y, r.y, r.x, HeightsOf(q, RS, d), (q.z * q.t) * (RS.x + RS.y), q.x * q.x + q.y * q.y, d,
               RS.y, RS.x,
               PS.z * C + d * (PS.y * -E), PS.z * A + d * (PS.x * -B),
               PS.z * A + d * (PS.y * B), PS.z * C + d * (PS.x * E),
               PS.y * A - d * (PS.t * B), PS.x * C - d * (PS.t * E),
               PS.y * C + d * (PS.t * E), PS.x * A + d * (PS.t * B))
  {
    var (PS, B, E) := (SquaresOf(p, rho), q.y * q.t, q.x * q.t);
    NegativeTerm(d, PS.t, B);
    NegativeTerm(d, PS.t, E);
    hide SquaresOf, HeightsOf;
  }

  lemma CrossLowered(F: Field, p: Coords, q: Coords, r: Coords, d: int, rho: int)
    requires On(F, p, rho) && On(F, r, rho) && Same(F, q.x * q.y, q.z * q.t)
    ensures Same(F, Cross(p, q, r, d), Parts(p, q, r, d, rho))
  {
    var (PS, RS) := (SquaresOf(p, rho), SquaresOf(r, rho));
    var (A, B, C, E) := (q.x * q.z, q.y * q.t, q.y * q.z, q.x * q.t);
    var (M, S, h, W) := (Mixed(p, q, d), Straight(p, q, d), Heights(q, r, d), Widths(q, r));
    var (u, v) := ((q.z * q.t) * (RS.x + RS.y), q.x * q.x + q.y * q.y);
    var (a1, b1) := (PS.z * C + d * (PS.y * -E), PS.z * A + d * (PS.x * -B));
    var (a2, b2) := (PS.z * A + d * (PS.y * B), PS.z * C + d * (PS.x * E));
    var (a3, b3) := (PS.y * A - d * (PS.t * B), PS.x * C - d * (PS.t * E));
    var (a4, b4) := (PS.y * C + d * (PS.t * E), PS.x * A + d * (PS.t * B));
    assert Cross(p, q, r, d) == (M * r.y + S * r.x) * (h * p.z + d * (W * p.t));
    assert Same(F, r.y * r.y, RS.y) && RS.x == r.x * r.x;
    MixedLower(F, p, q, d, rho);
    StraightLower(F, p, q, d, rho);
    HeightsInSquares(q, r, d, rho);
    WidthsInSquares(F, q, r, rho);
    BracketsAreParts(p, q, r, d, rho);
    hide *;
    Itself(F, r.x * r.x);
    CrossSplits(M, S, r.y, r.x, h, p.z, d, W, p.t);
    Swap(r.x, r.y);
    SplitSame(F, h, r.y, r.x, d, W, u + (r.x * r.y) * v, p.z * M, p.x * a1 + p.y * b1, p.z * S, p.x * a2 + p.y * b2,
              p.t * M, p.x * a3 + p.y * b3, p.t * S, p.x * a4 + p.y * b4);
    BracketsGather(F, p.x, p.y, r.y, r.x, h, u, v, d, RS.y, RS.x, a1, b1, a2, b2, a3, b3, a4, b4);
    Transitive(F, Cross(p, q, r, d),
               h * (r.y * (p.x * a1 + p.y * b1) + r.x * (p.x * a2 + p.y * b2))
               + d * ((u + (r.x * r.y) * v) * (r.y * (p.x * a3 + p.y * b3) + r.x * (p.x * a4 + p.y * b4))),
               Parts(p, q, r, d, rho));
  }

  /* The symmetry */

  /** What the middle point satisfies: its curve equations, with d or -d. */
  ghost predicate Middle(F: Field, q: Coords, d: int, rho: int) {
    && Same(F, q.x * q.y, q.z * q.t)
    && Same(F, (d * d) * (q.t * q.t) + rho * (q.z * q.z), d * (q.y * q.y - q.x * q.x))
  }

  /** b k for b = y t and e = x t. */
  lemma MiddleProduct(x: int, y: int, t: int)
    ensures (x * x + y * y) * (y * t) - 2 * ((x * y) * (x * t)) == (y * t) * (y * y - x * x)
  {
    var b := y * t;
    Interchange(x, y, x, t);
    Distribute(b, x * x, y * y);
    Distribute(b, y * y, -(x * x));
    Swap(b, x * x + y * y);
    Swap(b, x * x);
  }

  /** The condition on one of the products of the middle point; with x and y exchanged the sign
      of d changes. */
  lemma MiddleOnce(F: Field, x: int, y: int, t: int, m: int, theta: int, d: int)
    requires Same(F, x * y, m) && Same(F, theta, d * (y * y - x * x))
    ensures Same(F, (y * t) * theta, d * ((x * x + y * y) * (y * t) - 2 * (m * (x * t))))
  {
    var (b, e, k, n) := (y * t, x * t, y * y - x * x, (x * x + y * y) * (y * t));
    hide *;
    Itself(F, b);
    Itself(F, d);
    Itself(F, e);
    Itself(F, 2);
    Itself(F, n);
    SameMul(F, b, b, theta, d * k);
    Outside(b, d, k);
    SameMul(F, x * y, m, e, e);
    SameMul(F, 2, 2, (x * y) * e, m * e);
    SameSum(F, n, n, 2 * ((x * y) * e), 2 * (m * e));
    SameMul(F, d, d, n - 2 * ((x * y) * e), n - 2 * (m * e));
    MiddleProduct(x, y, t);
    Transitive(F, b * theta, d * (b * k), d * (n - 2 * (m * e)));
  }

  lemma MiddleConditions(F: Field, q: Coords, d: int, rho: int)
    requires Middle(F, q, d, rho)
    ensures var (B, E, m, v) := (q.y * q.t, q.x * q.t, q.z * q.t, q.x * q.x + q.y * q.y);
      var theta := (d * d) * (q.t * q.t) + rho * (q.z * q.z);
      Same(F, B * theta, d * (v * B - 2 * (m * E))) && Same(F, E * theta, -d * (v * E - 2 * (m * B)))
  {
    var (m, k) := (q.z * q.t, q.y * q.y - q.x * q.x);
    var theta := (d * d) * (q.t * q.t) + rho * (q.z * q.z);
    hide Same;
    MiddleOnce(F, q.x, q.y, q.t, m, theta, d);
    Swap(q.x, q.y);
    assert d * k == -d * (q.x * q.x - q.y * q.y);
    MiddleOnce(F, q.y, q.x, q.t, m, theta, -d);
  }

  /** A bracket with the points exchanged. */
  lemma BracketSwaps(F: Field, q: Coords, d: int, rho: int, b: int, n: int, a: int, c: int, o: int, sign: int, e: int,
                     p: Squares, w: int, r: Squares, v: int)
    requires e * e == 1
    requires (q.z * q.z) * b == sign * ((q.z * q.t) * c) && (q.t * q.t) * a == sign * ((q.z * q.t) * o)
    requires Same(F, b * ((d * d) * (q.t * q.t) + rho * (q.z * q.z)),
                  e * (d * ((q.x * q.x + q.y * q.y) * n - 2 * ((q.z * q.t) * o))))
    requires r.x + r.y == 2 * v - sign * (r.z + rho * r.t) && p.x + p.y == 2 * w - (e * sign) * (p.z + rho * p.t)
    ensures Same(F, Bracket(q, d, b, n, a, c, o, p, w, r, v), Bracket(q, d, e * b, e * n, a, c, e * o, r, v, p, w))
  {
    var (cc, ss, m, k) := (q.z * q.z, q.t * q.t, q.z * q.t, q.x * q.x + q.y * q.y);
    BracketIsForm(a, b, c, n, o, k, m, d, p.z, w, p.t, HeightsOf(q, r, d), v, r.x + r.y);
    BracketIsForm(a, e * b, c, e * n, e * o, k, m, d, r.z, v, r.t, HeightsOf(q, p, d), w, p.x + p.y);
    Outside(k, e, n);
    Outside(m, e, o);
    hide Form, Same;
    FormSwaps(F, a, b, k * a, m * c, k * n, m * o, d, cc, ss, rho, sign, e, p.z, w, p.t, r.z, v, r.t);
  }

  lemma MiddleProducts(q: Coords)
    ensures var (A, B, C, E, m) := (q.x * q.z, q.y * q.t, q.y * q.z, q.x * q.t, q.z * q.t);
      && (q.z * q.z) * B == m * C && (q.t * q.t) * A == m * E
      && (q.z * q.z) * E == m * A && (q.t * q.t) * C == m * B
  {
    Interchange(q.z, q.z, q.t, q.y);
    Interchange(q.t, q.t, q.z, q.x);
    Interchange(q.z, q.z, q.t, q.x);
    Interchange(q.t, q.t, q.z, q.y);
  }

  lemma NegativeMiddle(F: Field, b: int, theta: int, d: int, v: int, m: int, o: int)
    requires Same(F, b * theta, d * (v * b - 2 * (m * o)))
    ensures Same(F, -b * theta, d * (v * -b - 2 * (m * -o)))
  {
    hide *;
    Itself(F, -1);
    SameMul(F, -1, -1, b * theta, d * (v * b - 2 * (m * o)));
    assert v * -b == -(v * b) && m * -o == -(m * o) && -b * theta == -(b * theta);
    assert d * -(v * b - 2 * (m * o)) == -(d * (v * b - 2 * (m * o)));
  }

  lemma SquaresFit(p: Coords, rho: int)
    ensures var PS := SquaresOf(p, rho);
      PS.x + PS.y == 2 * PS.y - (PS.z + rho * PS.t) && PS.x + PS.y == 2 * PS.x + (PS.z + rho * PS.t)
  {
  }

  lemma StraightSwaps(F: Field, p: Coords, q: Coords, r: Coords, d: int, rho: int)
    requires Middle(F, q, d, rho)
    ensures var (PS, RS) := (SquaresOf(p, rho), SquaresOf(r, rho));
      Same(F, XX(PS, q, RS, d), XX(RS, q, PS, d)) && Same(F, YY(PS, q, RS, d), YY(RS, q, PS, d))
  {
    var (PS, RS) := (SquaresOf(p, rho), SquaresOf(r, rho));
    var (A, B, C, E, m) := (q.x * q.z, q.y * q.t, q.y * q.z, q.x * q.t, q.z * q.t);
    SquaresFit(p, rho);
    SquaresFit(r, rho);
    hide SquaresOf, Same, Bracket;
    MiddleConditions(F, q, d, rho);
    MiddleProducts(q);
    NegativeMiddle(F, B, (d * d) * (q.t * q.t) + rho * (q.z * q.z), d, q.x * q.x + q.y * q.y, m, E);
    BracketSwaps(F, q, d, rho, B, B, A, C, E, 1, 1, PS, PS.y, RS, RS.y);
    BracketSwaps(F, q, d, rho, -B, -B, A, C, -E, -1, 1, PS, PS.x, RS, RS.x);
  }

  lemma MixedSwaps(F: Field, p: Coords, q: Coords, r: Coords, d: int, rho: int)
    requires Middle(F, q, d, rho)
    ensures var (PS, RS) := (SquaresOf(p, rho), SquaresOf(r, rho));
      Same(F, XY(PS, q, RS, d), YX(RS, q, PS, d))
  {
    var (PS, RS) := (SquaresOf(p, rho), SquaresOf(r, rho));
    var (A, B, C, E, m) := (q.x * q.z, q.y * q.t, q.y * q.z, q.x * q.t, q.z * q.t);
    SquaresFit(p, rho);
    SquaresFit(r, rho);
    hide SquaresOf, Same, Bracket;
    MiddleConditions(F, q, d, rho);
    MiddleProducts(q);
    var (theta, v) := ((d * d) * (q.t * q.t) + rho * (q.z * q.z), q.x * q.x + q.y * q.y);
    NegativeMiddle(F, E, theta, -d, v, m, B);
    assert -d * (v * -E - 2 * (m * -B)) == -1 * (d * (v * -E - 2 * (m * -B)));
    BracketSwaps(F, q, d, rho, -E, -E, C, A, -B, -1, -1, PS, PS.y, RS, RS.x);
  }

  lemma PartsAre(p: Coords, q: Coords, r: Coords, d: int, rho: int)
    ensures var (PS, RS) := (SquaresOf(p, rho), SquaresOf(r, rho));
      Parts(p, q, r, d, rho) == (p.x * r.x) * XX(PS, q, RS, d) + (p.y * r.y) * YY(PS, q, RS, d)
                                + (p.x * r.y) * XY(PS, q, RS, d) + (p.y * r.x) * YX(PS, q, RS, d)
  {
    hide XX, YY, XY, YX, SquaresOf;
  }

  lemma PartsSame(F: Field, p: Coords, r: Coords,
                  xx: int, xx': int, yy: int, yy': int, xy: int, xy': int, yx: int, yx': int)
    requires Same(F, xx, xx') && Same(F, yy, yy') && Same(F, xy, xy') && Same(F, yx, yx')
    ensures Same(F, (p.x * r.x) * xx + (p.y * r.y) * yy + (p.x * r.y) * xy + (p.y * r.x) * yx,
                 (r.x * p.x) * xx' + (r.y * p.y) * yy' + (r.x * p.y) * yx' + (r.y * p.x) * xy')
  {
    hide *;
    PairSame(F, p.x * r.x, p.y * r.y, xx, xx', yy, yy');
    PairSame(F, p.x * r.y, p.y * r.x, xy, xy', yx, yx');
    SameSum(F, (p.x * r.x) * xx + (p.y * r.y) * yy, (p.x * r.x) * xx' + (p.y * r.y) * yy',
            (p.x * r.y) * xy + (p.y * r.x) * yx, (p.x * r.y) * xy' + (p.y * r.x) * yx');
    Swap(p.x, r.x);
    Swap(p.y, r.y);
    Swap(p.x, r.y);
    Swap(p.y, r.x);
  }

  /** Associativity, as the symmetry of the cross product. */
  lemma CrossSymmetric(F: Field, p: Coords, q: Coords, r: Coords, d: int, rho: int)
    requires On(F, p, rho) && On(F, r, rho) && Middle(F, q, d, rho)
    ensures Same(F, Cross(p, q, r, d), Cross(r, q, p, d))
  {
    var (PS, RS) := (SquaresOf(p, rho), SquaresOf(r, rho));
    CrossLowered(F, p, q, r, d, rho);
    CrossLowered(F, r, q, p, d, rho);
    hide *;
    StraightSwaps(F, p, q, r, d, rho);
    MixedSwaps(F, p, q, r, d, rho);
    MixedSwaps(F, r, q, p, d, rho);
    Symmetric(F, XY(RS, q, PS, d), YX(PS, q, RS, d));
    PartsSame(F, p, r, XX(PS, q, RS, d), XX(RS, q, PS, d), YY(PS, q, RS, d), YY(RS, q, PS, d),
              XY(PS, q, RS, d), YX(RS, q, PS, d), YX(PS, q, RS, d), XY(RS, q, PS, d));
    PartsAre(p, q, r, d, rho);
    PartsAre(r, q, p, d, rho);
    Transitive(F, Cross(p, q, r, d), Parts(p, q, r, d, rho), Parts(r, q, p, d, rho));
    SameAs(F, Cross(p, q, r, d), Cross(r, q, p, d), Parts(r, q, p, d, rho));
  }
}
