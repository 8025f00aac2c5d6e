/** Certificates for powers modulo a number, and trial division: what the primality of one
    fixed number is computed from. */
module Certificates {
  import opened Arith
  import opened Primes

  /** The base 4 digits of an exponent, from the top, each with the power reached by it. */
  datatype Steps = End | Step(digit: int, power: int, rest: Steps)

  /** A base with the residues of its square and its cube. */
  datatype Base = Base(b: int, square: int, cube: int)

  ghost predicate ValidBase(m: int, g: Base) {
    m > 1 && g.square == g.b * g.b % m && g.cube == g.b * g.square % m
  }

  function Factor(g: Base, digit: int): int {
    if digit == 0 then 1 else if digit == 1 then g.b else if digit == 2 then g.square else g.cube
  }

  /** From the exponent e and its power h the steps lead to f and last; every power is the
      fourth power of the one before it, times the digit's factor. */
  predicate Leads(m: int, g: Base, e: int, h: int, s: Steps, f: int, last: int)
    decreases s
  {
    match s
    case End => e == f && h == last
    case Step(d, v, t) =>
      m > 0 && 0 <= d <= 3 && (h * h) * (h * h) * Factor(g, d) % m == v && Leads(m, g, 4 * e + d, v, t, f, last)
  }

  /** The e-th power of b is h modulo m. */
  ghost predicate Reaches(m: int, b: int, e: int, h: int) {
    m > 0 && e >= 0 && Remainder(e, m, Pow(b, e)) == h
  }

  lemma ReachesIs(m: int, b: int, e: int, h: int)
    ensures Reaches(m, b, e, h) <==> m > 0 && e >= 0 && Pow(b, e) % m == h
  {
    if m > 0 && e >= 0 {
      RemainderIs(e, m, Pow(b, e));
    }
  }

  lemma FactorIsPower(m: int, g: Base, d: int)
    requires ValidBase(m, g) && 0 <= d <= 3
    ensures Factor(g, d) % m == Pow(g.b, d) % m
  {
    assert Pow(g.b, 1) == g.b && Pow(g.b, 2) == g.b * g.b && Pow(g.b, 3) == g.b * (g.b * g.b);
    MulMod(g.b, g.b * g.b, m);
    MulMod(g.b, g.square, m);
    ModSmall(g.square, m);
    ModSmall(g.cube, m);
  }

  lemma FourthPower(b: int, e: nat)
    ensures Pow(b, 4 * e) == (Pow(b, e) * Pow(b, e)) * (Pow(b, e) * Pow(b, e))
  {
    PowAdd(b, e, e);
    PowAdd(b, 2 * e, 2 * e);
  }

  lemma FollowStep(m: int, g: Base, e: int, h: int, d: int)
    requires ValidBase(m, g) && Reaches(m, g.b, e, h) && 0 <= d <= 3
    ensures Reaches(m, g.b, 4 * e + d, (h * h) * (h * h) * Factor(g, d) % m)
  {
    ReachesIs(m, g.b, e, h);
    ReachesIs(m, g.b, 4 * e + d, (h * h) * (h * h) * Factor(g, d) % m);
    var x := Pow(g.b, e);
    FourthPower(g.b, e);
    PowAdd(g.b, 4 * e, d);
    FactorIsPower(m, g, d);
    hide Factor, Pow, Reaches;
    MulMod(x, x, m);
    MulMod(x * x, x * x, m);
    MulMod(h * h, h * h, m);
    MulMod((x * x) * (x * x), Pow(g.b, d), m);
    MulMod((h * h) * (h * h), Factor(g, d), m);
  }

  /** A certificate that checks computes the power it ends with. */
  lemma {:induction false} Follow(m: int, g: Base, e: int, h: int, s: Steps, f: int, last: int)
    requires ValidBase(m, g) && Reaches(m, g.b, e, h) && Leads(m, g, e, h, s, f, last)
    ensures Reaches(m, g.b, f, last)
    decreases s
  {
    hide Factor, Pow, Reaches, ValidBase;
    match s
    case End =>
    case Step(d, v, t) =>
      FollowStep(m, g, e, h, d);
      Follow(m, g, 4 * e + d, v, t, f, last);
  }

  lemma StartOfPowers(m: int, b: int)
    requires m > 1
    ensures Reaches(m, b, 0, 1)
  {
    ModSmall(1, m);
    ReachesIs(m, b, 0, 1);
  }

  lemma WitnessReached(n: int, q: int, b: int, c: int)
    requires n > 1 && Prime(q) && Reaches(n, b, q, 1) && c * (b - 1) % n == 1
    ensures Witness(n, q, b, c)
  {
    ReachesIs(n, b, q, 1);
    hide Reaches, Pow;
  }

  /* Trial division */

  /** No odd number from d up to d + 20 k - 2 divides n. */
  predicate NoDivisors(n: int, d: int, k: nat)
    decreases k
  {
    k == 0 || (
      && !Divides(d, n) && !Divides(d + 2, n) && !Divides(d + 4, n) && !Divides(d + 6, n) && !Divides(d + 8, n)
      && !Divides(d + 10, n) && !Divides(d + 12, n) && !Divides(d + 14, n) && !Divides(d + 16, n)
      && !Divides(d + 18, n)
      && NoDivisors(n, d + 20, k - 1))
  }

  lemma {:induction false} NoDivisorsBoth(n: int, d: int, k: nat, more: nat)
    requires d > 0 && NoDivisors(n, d, k) && NoDivisors(n, d + 20 * k, more)
    ensures NoDivisors(n, d, k + more)
    decreases k
  {
    if k > 0 {
      NoDivisorsBoth(n, d + 20, k - 1, more);
    }
  }

  lemma OneOfTen(d: int, r: int) returns (j: int)
    requires d % 2 == 1 && r % 2 == 1 && d <= r < d + 20
    ensures 0 <= j < 10 && r == d + 2 * j
  {
    j := (r - d) / 2;
  }

  lemma {:induction false} NoneDivides(n: int, d: int, k: nat, r: int)
    requires d > 0 && d % 2 == 1 && NoDivisors(n, d, k) && d <= r < d + 20 * k && r % 2 == 1
    ensures !Divides(r, n)
    decreases k
  {
    hide Divides;
    if r >= d + 20 {
      NoneDivides(n, d + 20, k - 1, r);
    } else {
      var j := OneOfTen(d, r);
    }
  }

  /** An odd number without odd divisors from 3 up to its square root is prime. */
  lemma PrimeByTrial(n: int, k: nat)
    requires n >= 2 && n % 2 == 1 && NoDivisors(n, 3, k) && n < (20 * k + 3) * (20 * k + 3)
    ensures Prime(n)
  {
    if !Prime(n) {
      var r := PrimeOrSmallFactor(n);
      if r % 2 == 0 {
        DividesTransitive(2, r, n);
        assert false;
      }
      if r < 20 * k + 3 {
        NoneDivides(n, 3, k, r);
      }
      SquareMono(20 * k + 3, r);
    }
  }
}
