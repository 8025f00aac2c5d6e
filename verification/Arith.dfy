/** Integer facts shared by the number-theoretic modules: products, powers and
    residues for an arbitrary positive modulus. */
module Arith {

  function Pow(b: int, e: nat): int {
    if e == 0 then 1 else b * Pow(b, e - 1)
  }

  lemma MulAssoc(x: int, y: int, z: int)
    ensures x * (y * z) == (x * y) * z
  {
  }

  lemma {:induction false} PowAdd(b: int, e: nat, f: nat)
    ensures Pow(b, e + f) == Pow(b, e) * Pow(b, f)
  {
    if e == 0 {
    } else {
      PowAdd(b, e - 1, f);
      assert Pow(b, e + f) == b * Pow(b, e - 1 + f);
      MulAssoc(b, Pow(b, e - 1), Pow(b, f));
    }
  }

  lemma MulPositive(x: int, y: int)
    requires x > 0 && y > 0
    ensures x * y > 0
  {
  }

  lemma {:induction false} PowPositive(b: int, e: nat)
    requires b > 0
    ensures Pow(b, e) > 0
  {
    if e == 0 {
    } else {
      PowPositive(b, e - 1);
      MulPositive(b, Pow(b, e - 1));
    }
  }

  lemma Distribute(x: int, y: int, z: int)
    ensures x * (y + z) == x * y + x * z
  {
  }

  lemma MulMono(x: int, y: int, z: int)
    requires x <= y && 0 <= z
    ensures x * z <= y * z
  {
  }

  lemma {:induction false} PowGrows(b: int, e: nat, f: nat)
    requires b > 0 && e <= f
    ensures Pow(b, e) <= Pow(b, f)
    decreases f
  {
    if e < f {
      PowGrows(b, e, f - 1);
      PowPositive(b, f - 1);
      MulMono(1, b, Pow(b, f - 1));
    }
  }

  lemma Interchange(a: int, b: int, c: int, d: int)
    ensures (a * b) * (c * d) == (a * c) * (b * d)
  {
  }

  /** A quotient and remainder that fit are the quotient and remainder. */
  lemma DivModUnique(x: int, m: int, q: int, r: int)
    requires m > 0 && 0 <= r < m && x == q * m + r
    ensures x / m == q && x % m == r
  {
    var q', r' := x / m, x % m;
    assert x == m * q' + r' && 0 <= r' < m;
    assert (q - q') * m == r' - r;
    if q - q' >= 1 {
      MulMono(1, q - q', m);
      assert false;
    }
    if q - q' <= -1 {
      MulMono(q - q', -1, m);
      assert false;
    }
  }

  /** Adding a multiple of the modulus does not change the residue. */
  lemma ModShift(x: int, k: int, m: int)
    requires m > 0
    ensures (x + k * m) % m == x % m
  {
    var q, r := x / m, x % m;
    assert x == m * q + r;
    assert x + k * m == (q + k) * m + r;
    DivModUnique(x + k * m, m, q + k, r);
  }

  lemma ModShiftIs(x: int, y: int, k: int, m: int)
    requires m > 0 && x == y + k * m
    ensures x % m == y % m
  {
    ModShift(y, k, m);
  }

  lemma ModSmall(x: int, m: int)
    requires 0 <= x < m
    ensures x % m == x
  {
    DivModUnique(x, m, 0, x);
  }

  lemma AddMod(x: int, y: int, m: int)
    requires m > 0
    ensures (x + y) % m == (x % m + y % m) % m
  {
    var k := x / m + y / m;
    assert x == m * (x / m) + x % m && y == m * (y / m) + y % m;
    ModShiftIs(x + y, x % m + y % m, k, m);
  }

  lemma SubMod(x: int, y: int, m: int)
    requires m > 0
    ensures (x - y) % m == (x % m - y % m) % m
  {
    var k := x / m - y / m;
    assert x == m * (x / m) + x % m && y == m * (y / m) + y % m;
    ModShiftIs(x - y, x % m - y % m, k, m);
  }

  lemma MulMod(x: int, y: int, m: int)
    requires m > 0
    ensures (x * y) % m == ((x % m) * (y % m)) % m
  {
    var qx, rx, qy, ry := x / m, x % m, y / m, y % m;
    assert x == m * qx + rx && y == m * qy + ry;
    var k := m * qx * qy + qx * ry + rx * qy;
    assert x * y == rx * ry + k * m by {
      assert x * y == m * qx * (m * qy) + m * qx * ry + rx * (m * qy) + rx * ry;
    }
    ModShiftIs(x * y, rx * ry, k, m);
  }

  /** Squaring a residue of a power doubles the exponent; multiplying by the base adds one. */
  lemma PowDouble(b: int, e: nat, m: int)
    requires m > 0
    ensures ((Pow(b, e) % m) * (Pow(b, e) % m)) % m == Pow(b, 2 * e) % m
    ensures ((Pow(b, 2 * e) % m) * (b % m)) % m == Pow(b, 2 * e + 1) % m
  {
    PowAdd(b, e, e);
    MulMod(Pow(b, e), Pow(b, e), m);
    MulMod(Pow(b, 2 * e), b, m);
    assert Pow(b, 2 * e + 1) == b * Pow(b, 2 * e);
  }

  /** Dividing by a product is dividing twice. */
  lemma DivDiv(x: int, m: int, n: int)
    requires m > 0 && n > 0
    ensures m * n > 0
    ensures x / (m * n) == x / m / n
    ensures x % (m * n) == x % m + m * (x / m % n)
  {
    MulPositive(m, n);
    var y, r := x / m, x % m;
    var q, r' := y / n, y % n;
    assert x == m * y + r && y == n * q + r';
    assert x == q * (m * n) + (m * r' + r) by {
      assert m * y == m * (n * q) + m * r';
    }
    MulMono(r', n - 1, m);
    assert 0 <= m * r' by { MulMono(0, r', m); }
    DivModUnique(x, m * n, q, m * r' + r);
  }
}
