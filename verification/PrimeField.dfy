/** Prime fields with a square root of -1: congruence, quotients of numbers, and numbers that are
    no squares. */
module PrimeField {
  import opened Arith
  import opened Primes

  /** The residue of a. */
  ghost function Class(p: int, a: int): int
    requires p > 0
  {
    Remainder(p, p, a)
  }

  /** A modulus and a root of -1, and the constants d and a24 of a curve. */
  datatype Parameters = Parameters(p: int, root: int, d: int, a24: int)

  ghost predicate IsField(F: Parameters) {
    Prime(F.p) && F.p > 2 && Class(F.p, F.root * F.root) == Class(F.p, -1)
  }

  lemma FieldOfFive()
    ensures IsField(Parameters(5, 2, 2, 1))
  {
    assert 5 % 2 == 1 && 5 % 3 == 2 && 5 % 4 == 1;
    RemainderIs(5, 5, 4);
    RemainderIs(5, 5, -1);
  }

  type Field = F: Parameters | IsField(F) ghost witness (FieldOfFive(); Parameters(5, 2, 2, 1))

  /** a and b are congruent modulo p. */
  ghost predicate Same(F: Field, a: int, b: int) {
    Class(F.p, a) == Class(F.p, b)
  }

  ghost predicate Zero(F: Field, a: int) {
    Same(F, a, 0)
  }

  ghost function FMul(F: Field, a: int, b: int): int {
    a * b % F.p
  }

  ghost function FAdd(F: Field, a: int, b: int): int {
    (a + b) % F.p
  }

  ghost function FSub(F: Field, a: int, b: int): int {
    (a - b) % F.p
  }

  ghost function FPower(F: Field, a: int, e: nat): int {
    Pow(a, e) % F.p
  }

  lemma ClassIs(F: Field, a: int)
    ensures Class(F.p, a) == a % F.p
  {
    RemainderIs(F.p, F.p, a);
  }
  lemma SameIs(F: Field, a: int, b: int)
    ensures Same(F, a, b) <==> a % F.p == b % F.p
  {
    ClassIs(F, a);
    ClassIs(F, b);
  }

  lemma SameBy(F: Field, a: int, b: int, k: int)
    requires a == b + k * F.p
    ensures Same(F, a, b)
  {
    hide Same;
    ModShiftIs(a, b, k, F.p);
    SameIs(F, a, b);
  }

  lemma OnResidue(F: Field, a: int)
    ensures Same(F, a % F.p, a)
  {
    hide Same;
    SameBy(F, a % F.p, a, -(a / F.p));
  }

  lemma Itself(F: Field, a: int)
    ensures Same(F, a, a)
  {
  }

  lemma Symmetric(F: Field, a: int, b: int)
    requires Same(F, a, b)
    ensures Same(F, b, a)
  {
  }

  lemma Transitive(F: Field, a: int, b: int, c: int)
    requires Same(F, a, b) && Same(F, b, c)
    ensures Same(F, a, c)
  {
  }

  /** Two numbers congruent to a third. */
  lemma SameAs(F: Field, a: int, b: int, c: int)
    requires Same(F, a, c) && Same(F, b, c)
    ensures Same(F, a, b)
  {
  }

  lemma SameMul(F: Field, a: int, b: int, c: int, d: int)
    requires Same(F, a, b) && Same(F, c, d)
    ensures Same(F, a * c, b * d) && Same(F, FMul(F, a, c), b * d)
  {
    hide Same;
    SameIs(F, a, b);
    SameIs(F, c, d);
    MulMod(a, c, F.p);
    MulMod(b, d, F.p);
    SameIs(F, a * c, b * d);
    OnResidue(F, a * c);
    Transitive(F, FMul(F, a, c), a * c, b * d);
  }

  lemma SameSum(F: Field, a: int, b: int, c: int, d: int)
    requires Same(F, a, b) && Same(F, c, d)
    ensures Same(F, a + c, b + d) && Same(F, FAdd(F, a, c), b + d)
    ensures Same(F, a - c, b - d) && Same(F, FSub(F, a, c), b - d)
  {
    hide Same;
    SameIs(F, a, b);
    SameIs(F, c, d);
    AddMod(a, c, F.p);
    AddMod(b, d, F.p);
    SubMod(a, c, F.p);
    SubMod(b, d, F.p);
    SameIs(F, a + c, b + d);
    SameIs(F, a - c, b - d);
    OnResidue(F, a + c);
    OnResidue(F, a - c);
    Transitive(F, FAdd(F, a, c), a + c, b + d);
    Transitive(F, FSub(F, a, c), a - c, b - d);
  }

  /** Congruent residues are equal. */
  lemma SameResidues(F: Field, a: int, b: int)
    requires 0 <= a < F.p && 0 <= b < F.p && Same(F, a, b)
    ensures a == b
  {
    SameIs(F, a, b);
    ModSmall(a, F.p);
    ModSmall(b, F.p);
  }
  lemma ZeroDivides(F: Field, a: int)
    ensures Zero(F, a) <==> Divides(F.p, a)
  {
    ModSmall(0, F.p);
    SameIs(F, a, 0);
  }

  /** The field has no zero divisors. */
  lemma ZeroProduct(F: Field, a: int, b: int)
    ensures Zero(F, a * b) <==> Zero(F, a) || Zero(F, b)
  {
    hide Prime, Divides, Zero, Same;
    ZeroDivides(F, a * b);
    ZeroDivides(F, a);
    ZeroDivides(F, b);
    if Divides(F.p, a * b) {
      Euclid(F.p, a, b);
    }
    if Divides(F.p, a) {
      DividesTimes(F.p, a, b);
    }
    if Divides(F.p, b) {
      DividesTimes(F.p, b, a);
      assert b * a == a * b;
    }
  }

  lemma ZeroSame(F: Field, a: int, b: int)
    requires Same(F, a, b)
    ensures Zero(F, a) <==> Zero(F, b)
  {
  }

  lemma DividesIs(F: Field, a: int)
    ensures Divides(F.p, a) <==> a % F.p == 0
  {
  }

  lemma DifferenceZero(F: Field, a: int, b: int)
    ensures Zero(F, a - b) <==> Same(F, a, b)
  {
    hide Zero, Same, Divides;
    ZeroDivides(F, a - b);
    SameIs(F, a, b);
    DividesIs(F, a - b);
    SameResidue(a, b, F.p);
  }

  lemma OneNotZero(F: Field)
    ensures !Zero(F, -1)
  {
    ZeroDivides(F, -1);
    ModShiftIs(F.p - 1, -1, 1, F.p);
    ModSmall(F.p - 1, F.p);
  }

  lemma OppositeZero(F: Field, a: int)
    ensures Zero(F, a) <==> Zero(F, -a)
  {
    hide Zero, Same;
    ZeroProduct(F, -1, a);
    assert -1 * a == -a;
    OneNotZero(F);
  }

  /** A factor that is not zero can be cancelled. */
  lemma CancelFactor(F: Field, a: int, b: int, c: int)
    requires Same(F, a * c, b * c) && !Zero(F, c)
    ensures Same(F, a, b)
  {
    hide Zero, Same;
    DifferenceZero(F, a * c, b * c);
    assert a * c - b * c == (a - b) * c;
    ZeroProduct(F, a - b, c);
    DifferenceZero(F, a, b);
  }

  /** The power p - 2 of a number that is not zero is its inverse. */
  lemma FermatInverse(F: Field, a: int)
    requires !Zero(F, a)
    ensures Same(F, a * FPower(F, a, F.p - 2), 1)
  {
    hide Prime, Same;
    ZeroDivides(F, a);
    PowerInverse(a, F.p);
    hide Divides;
    SameIs(F, a * FPower(F, a, F.p - 2), 1);
    ModSmall(1, F.p);
  }

  /* Squares */

  lemma RootSquared(F: Field)
    ensures Same(F, F.root * F.root, -1)
  {
  }

  lemma {:induction false} SamePow(F: Field, a: int, b: int, n: nat)
    requires Same(F, a, b)
    ensures Same(F, Pow(a, n), Pow(b, n))
  {
    hide Same;
    if n == 0 {
      Itself(F, 1);
    } else {
      SamePow(F, a, b, n - 1);
      SameMul(F, a, b, Pow(a, n - 1), Pow(b, n - 1));
    }
  }

  lemma {:induction false} OddPower(b: int, k: nat)
    ensures Pow(-b, 2 * k + 1) == -Pow(b, 2 * k + 1) && Pow(-b, 2 * k) == Pow(b, 2 * k)
  {
    if k == 0 {
    } else {
      OddPower(b, k - 1);
      assert Pow(-b, 2 * k) == -b * Pow(-b, 2 * k - 1) && Pow(b, 2 * k) == b * Pow(b, 2 * k - 1);
      assert -b * -Pow(b, 2 * k - 1) == b * Pow(b, 2 * k - 1);
      assert Pow(-b, 2 * k + 1) == -b * Pow(-b, 2 * k) && Pow(b, 2 * k + 1) == b * Pow(b, 2 * k);
    }
  }

  lemma PowerOfFourth(b: int, n: nat)
    ensures Pow(b, 4 * n) == Pow((b * b) * (b * b), n)
  {
    assert Pow(b, 4) == (b * b) * (b * b) by {
      PowAdd(b, 2, 2);
      assert Pow(b, 1) == b && Pow(b, 2) == b * Pow(b, 1);
    }
    hide Pow;
    PowTimes(b, 4, n);
  }

  lemma FermatSame(F: Field, b: int)
    requires !Zero(F, b)
    ensures Same(F, Pow(b, F.p - 1), 1)
  {
    ZeroDivides(F, b);
    hide Prime, Divides, Pow;
    Fermat(b, F.p);
    OnResidue(F, Pow(b, F.p - 1));
    Symmetric(F, 1, Pow(b, F.p - 1));
  }

  lemma ZeroOpposite(F: Field, u: int, v: int)
    requires Same(F, u, -v) && Zero(F, u)
    ensures Zero(F, v)
  {
    hide Same, Zero;
    ZeroSame(F, u, -v);
    OppositeZero(F, v);
  }

  lemma TwoNotZero(F: Field)
    ensures !Same(F, 1, -1)
  {
    SameIs(F, 1, -1);
    ModSmall(1, F.p);
    ModShiftIs(F.p - 1, -1, 1, F.p);
    ModSmall(F.p - 1, F.p);
  }

  lemma OneNotMinusOne(F: Field, a: int, b: int)
    requires Same(F, a, 1) && Same(F, b, 1)
    ensures !Same(F, a, -b)
  {
    hide Same, Zero;
    Itself(F, 0);
    SameSum(F, 0, 0, b, 1);
    TwoNotZero(F);
    if Same(F, a, -b) {
      Symmetric(F, a, 1);
      Transitive(F, 1, a, -b);
      Transitive(F, 1, -b, -1);
    }
  }

  /** Fourth powers are not opposite, if p is 5 modulo 8. */
  lemma NoOppositeFourths(F: Field, k: nat, x: int, y: int)
    requires F.p == 8 * k + 5
    requires Same(F, (x * x) * (x * x), -((y * y) * (y * y)))
    ensures Zero(F, y)
  {
    var u, v, n := (x * x) * (x * x), (y * y) * (y * y), 2 * k + 1;
    hide Pow, Same;
    if !Zero(F, y) {
      ZeroProduct(F, y, y);
      ZeroProduct(F, y * y, y * y);
      if Zero(F, u) {
        ZeroOpposite(F, u, v);
      }
      ZeroProduct(F, x, x);
      ZeroProduct(F, x * x, x * x);
      FermatSame(F, x);
      FermatSame(F, y);
      PowerOfFourth(x, n);
      PowerOfFourth(y, n);
      SamePow(F, u, -v, n);
      OddPower(v, k);
      OneNotMinusOne(F, Pow(u, n), Pow(v, n));
    }
  }

  /** The root of -1 is no square then. */
  lemma RootNoSquare(F: Field, k: nat, x: int, y: int)
    requires F.p == 8 * k + 5
    requires Same(F, x * x, F.root * (y * y))
    ensures Zero(F, y)
  {
    hide *;
    SameMul(F, x * x, F.root * (y * y), x * x, F.root * (y * y));
    RootSquared(F);
    Itself(F, (y * y) * (y * y));
    SameMul(F, F.root * F.root, -1, (y * y) * (y * y), (y * y) * (y * y));
    Interchange(F.root, y * y, F.root, y * y);
    assert -1 * ((y * y) * (y * y)) == -((y * y) * (y * y));
    Transitive(F, (x * x) * (x * x), (F.root * F.root) * ((y * y) * (y * y)), -((y * y) * (y * y)));
    NoOppositeFourths(F, k, x, y);
  }

  /** A number whose product with the root is a square is no square itself. */
  lemma NoSquare(F: Field, k: nat, d: int, r: int, a: int, b: int)
    requires F.p == 8 * k + 5
    requires Same(F, r * r, d * F.root) && Same(F, a * a, d * (b * b))
    ensures Zero(F, a)
  {
    hide *;
    Itself(F, F.root);
    Itself(F, b * b);
    SameMul(F, r * r, d * F.root, b * b, b * b);
    SameMul(F, F.root, F.root, a * a, d * (b * b));
    assert (d * F.root) * (b * b) == F.root * (d * (b * b));
    Interchange(r, r, b, b);
    SameAs(F, (r * b) * (r * b), F.root * (a * a), F.root * (d * (b * b)));
    RootNoSquare(F, k, r * b, a);
  }
}
