/** Prime numbers: inverses, Fermat's little theorem, and a primality criterion. */
module Primes {
  import opened Arith

  predicate Divides(d: int, n: int) {
    d != 0 && n % d == 0
  }

  ghost predicate Prime(n: int) {
    n >= 2 && forall d :: 2 <= d < n ==> !Divides(d, n)
  }

  /** The residue of a modulo p, reached by counting down from n. Definitions that use it in place
      of the operator are unfolded only by lemmas, and no proof computes with residues unasked. */
  ghost function Remainder(n: nat, p: int, a: int): int
    requires p > 0
  {
    if n == 0 then a % p else Remainder(n - 1, p, a)
  }

  lemma {:induction false} RemainderIs(n: nat, p: int, a: int)
    requires p > 0
    ensures Remainder(n, p, a) == a % p
  {
    if n > 0 {
      RemainderIs(n - 1, p, a);
    }
  }

  /* Divisors */

  lemma DividesTimes(d: int, n: int, k: int)
    requires d > 0 && Divides(d, n)
    ensures Divides(d, n * k)
  {
    MulMod(n, k, d);
  }

  lemma DividesDifference(d: int, n: int, m: int)
    requires d > 0 && Divides(d, n) && Divides(d, m)
    ensures Divides(d, n - m)
  {
    SubMod(n, m, d);
  }

  lemma SameResidue(a: int, b: int, m: int)
    requires m > 0
    ensures a % m == b % m <==> (a - b) % m == 0
  {
    var k := a / m - b / m;
    assert a - b == m * k + (a % m - b % m);
    if (a - b) % m == 0 {
      ModShift(a - b, 1 - k, m);
      assert (a - b) + (1 - k) * m == m + (a % m - b % m);
      ModShiftIs(m + (a % m - b % m), a % m - b % m, 1, m);
      if a % m >= b % m {
        ModSmall(a % m - b % m, m);
      } else {
        ModSmall(m + (a % m - b % m), m);
      }
    } else if a % m == b % m {
      DivModUnique(a - b, m, k, 0);
    }
  }

  lemma NegativeProduct(a: int, q: int, r: int, y: int)
    ensures (-q * y) * a == y * r + (-y) * (a * q + r)
  {
    assert (-q * y) * a == -((q * y) * a);
    assert (-y) * (a * q + r) == -(y * (a * q)) - y * r;
    assert (q * y) * a == y * (a * q);
  }

  /** From an inverse y of p mod a, the remainder left by p = a q + r. */
  lemma InverseStep(a: int, q: int, r: int, y: int, p: int)
    requires p > 1 && p == a * q + r && y * r % p == 1
    ensures (-q * y) % p * a % p == 1
  {
    var x := -q * y;
    MulMod(x, a, p);
    MulMod(x % p, a, p);
    ModSmall(x % p, p);
    assert x * a == y * r + (-y) * p by {
      NegativeProduct(a, q, r, y);
    }
    ModShiftIs(x * a, y * r, -y, p);
  }

  /** The inverse of a number below a prime, by descent on the remainder of the prime. */
  lemma InverseBelow(a: nat, p: int) returns (x: nat)
    requires Prime(p) && 1 <= a < p
    ensures x * a % p == 1
    decreases a
  {
    if a == 1 {
      x := 1;
    } else {
      var q, r := p / a, p % a;
      assert !Divides(a, p);
      var y := InverseBelow(r, p);
      InverseStep(a, q, r, y, p);
      x := (-q * y) % p;
    }
  }

  lemma InverseModulo(a: int, p: int) returns (x: nat)
    requires Prime(p) && !Divides(p, a)
    ensures x * a % p == 1
  {
    x := InverseBelow(a % p, p);
    MulMod(x, a, p);
    MulMod(x, a % p, p);
    ModSmall(a % p, p);
  }

  /** A prime that divides a product divides a factor. */
  lemma Euclid(p: int, a: int, b: int)
    requires Prime(p) && Divides(p, a * b)
    ensures Divides(p, a) || Divides(p, b)
  {
    if !Divides(p, a) {
      var x := InverseModulo(a, p);
      DividesTimes(p, a * b, x);
      assert a * b * x == x * a * b;
      MulMod(x * a, b, p);
      ModSmall(b % p, p);
    }
  }

  lemma {:induction false} PowModulo(b: int, e: nat, m: int)
    requires m > 0
    ensures Pow(b, e) % m == Pow(b % m, e) % m
  {
    if e == 0 {
    } else {
      PowModulo(b, e - 1, m);
      MulMod(b, Pow(b, e - 1), m);
      MulMod(b % m, Pow(b % m, e - 1), m);
      ModSmall(b % m, m);
    }
  }

  lemma {:induction false} PowOne(e: nat)
    ensures Pow(1, e) == 1
  {
    if e == 0 {
    } else {
      PowOne(e - 1);
    }
  }

  lemma {:induction false} PowTimes(b: int, e: nat, f: nat)
    ensures e * f >= 0 && Pow(b, e * f) == Pow(Pow(b, e), f)
  {
    assert e * f >= 0;
    if f == 0 {
    } else {
      PowTimes(b, e, f - 1);
      assert e * f == e + e * (f - 1) && e * (f - 1) >= 0;
      PowAdd(b, e, e * (f - 1));
    }
  }

  /** A power whose exponent is a multiple of one that gives 1. */
  lemma PowMultiple(b: int, e: nat, f: nat, m: int)
    requires m > 1 && Pow(b, e) % m == 1
    ensures e * f >= 0 && Pow(b, e * f) % m == 1
  {
    PowTimes(b, e, f);
    PowModulo(Pow(b, e), f, m);
    PowOne(f);
    ModSmall(1, m);
  }

  /* Fermat's little theorem */

  function Product(s: seq<int>): int {
    if s == [] then 1 else Product(s[..|s| - 1]) * s[|s| - 1]
  }

  function Factorial(n: nat): int {
    if n == 0 then 1 else Factorial(n - 1) * n
  }

  lemma SwapFactors(a: int, b: int, c: int)
    ensures a * b * c == a * c * b
  {
  }

  lemma {:induction false} ProductWithout(s: seq<int>, i: nat)
    requires i < |s|
    ensures Product(s) == Product(s[..i] + s[i + 1..]) * s[i]
    decreases |s|
  {
    var n := |s| - 1;
    if i == n {
      assert s[..i] + s[i + 1..] == s[..n];
    } else {
      var t, w := s[..n], s[..i] + s[i + 1..];
      ProductWithout(t, i);
      assert w[..|w| - 1] == t[..i] + t[i + 1..] && w[|w| - 1] == s[n];
      SwapFactors(Product(t[..i] + t[i + 1..]), s[i], s[n]);
    }
  }

  /** Different numbers from 1 to n, as many as there are. */
  ghost predicate Permutation(s: seq<int>, n: nat) {
    && |s| == n
    && (forall i :: 0 <= i < n ==> 1 <= s[i] <= n)
    && (forall i, j :: 0 <= i < j < n ==> s[i] != s[j])
  }

  /** There are at most n numbers from 1 to n. */
  lemma {:induction false} SizeUpto(a: set<int>, n: nat)
    requires forall x :: x in a ==> 1 <= x <= n
    ensures |a| <= n
  {
    if n == 0 {
      assert forall x :: x in a ==> false;
      assert a == {};
    } else {
      SizeUpto(a - {n}, n - 1);
    }
  }

  lemma {:induction false} ElementsSize(s: seq<int>)
    requires forall i, j :: 0 <= i < j < |s| ==> s[i] != s[j]
    ensures |set x | x in s| == |s|
  {
    if s == [] {
      assert (set x | x in s) == {};
    } else {
      var t := s[..|s| - 1];
      ElementsSize(t);
      assert (set x | x in s) == (set x | x in t) + {s[|s| - 1]};
    }
  }

  lemma TopOccurs(s: seq<int>, n: nat) returns (i: nat)
    requires n > 0 && Permutation(s, n)
    ensures i < n && s[i] == n
  {
    if forall k :: 0 <= k < n ==> s[k] != n {
      var a := set x | x in s;
      ElementsSize(s);
      forall x | x in a
        ensures 1 <= x <= n - 1
      {
        var k :| 0 <= k < n && s[k] == x;
      }
      SizeUpto(a, n - 1);
      assert false;
    }
    i :| 0 <= i < n && s[i] == n;
  }

  lemma {:induction false} PermutationProduct(s: seq<int>, n: nat)
    requires Permutation(s, n)
    ensures Product(s) == Factorial(n)
    decreases n
  {
    if n == 0 {
    } else {
      var i := TopOccurs(s, n);
      var t := s[..i] + s[i + 1..];
      assert Permutation(t, n - 1) by {
        assert forall k :: 0 <= k < n - 1 ==> t[k] == s[if k < i then k else k + 1];
      }
      ProductWithout(s, i);
      PermutationProduct(t, n - 1);
    }
  }

  /** The residues of a, 2 a, ..., n a. */
  function Multiples(a: int, n: nat, p: int): (s: seq<int>)
    requires p > 0
    ensures |s| == n
  {
    seq(n, i => a * (i + 1) % p)
  }

  lemma FourFactors(u: int, f: int, a: int, n: int)
    ensures u * f * (a * n) == a * u * (f * n)
  {
  }

  lemma {:induction false} MultiplesProduct(a: int, n: nat, p: int)
    requires p > 0
    ensures Product(Multiples(a, n, p)) % p == Pow(a, n) * Factorial(n) % p
  {
    if n == 0 {
    } else {
      MultiplesProduct(a, n - 1, p);
      var s := Multiples(a, n, p);
      assert s[..n - 1] == Multiples(a, n - 1, p);
      var x, y := Product(s[..n - 1]), Pow(a, n - 1) * Factorial(n - 1);
      MulMod(x, a * n % p, p);
      MulMod(y, a * n, p);
      ModSmall(a * n % p, p);
      FourFactors(Pow(a, n - 1), Factorial(n - 1), a, n);
    }
  }

  lemma MultiplesPermute(a: int, p: int)
    requires Prime(p) && !Divides(p, a)
    ensures Permutation(Multiples(a, p - 1, p), p - 1)
  {
    var s := Multiples(a, p - 1, p);
    forall i | 0 <= i < p - 1
      ensures 1 <= s[i] <= p - 1
    {
      if s[i] == 0 {
        Euclid(p, a, i + 1);
        ModSmall(i + 1, p);
      }
    }
    forall i, j | 0 <= i < j < p - 1
      ensures s[i] != s[j]
    {
      if s[i] == s[j] {
        SameResidue(a * (j + 1), a * (i + 1), p);
        assert a * (j + 1) - a * (i + 1) == a * (j - i);
        Euclid(p, a, j - i);
        ModSmall(j - i, p);
      }
    }
  }

  lemma {:induction false} FactorialPrime(n: nat, p: int)
    requires Prime(p) && n < p
    ensures !Divides(p, Factorial(n))
  {
    if n == 0 {
      ModSmall(1, p);
    } else {
      FactorialPrime(n - 1, p);
      ModSmall(n, p);
      if Divides(p, Factorial(n)) {
        Euclid(p, Factorial(n - 1), n);
      }
    }
  }

  /** A factor that p does not divide can be cancelled. */
  lemma Cancel(u: int, f: int, p: int)
    requires Prime(p) && u * f % p == f % p && !Divides(p, f)
    ensures u % p == 1
  {
    SameResidue(u * f, f, p);
    assert u * f - f == (u - 1) * f;
    Euclid(p, u - 1, f);
    SameResidue(u, 1, p);
    ModSmall(1, p);
  }

  lemma Fermat(a: int, p: int)
    requires Prime(p) && !Divides(p, a)
    ensures Pow(a, p - 1) % p == 1
  {
    hide *;
    MultiplesPermute(a, p);
    PermutationProduct(Multiples(a, p - 1, p), p - 1);
    MultiplesProduct(a, p - 1, p);
    FactorialPrime(p - 1, p);
    Cancel(Pow(a, p - 1), Factorial(p - 1), p);
  }

  /** The power p - 2 of a number that p does not divide is its inverse. */
  lemma PowerInverse(a: int, p: int)
    requires Prime(p) && !Divides(p, a)
    ensures a * (Pow(a, p - 2) % p) % p == 1
  {
    Fermat(a, p);
    assert Pow(a, p - 1) == a * Pow(a, p - 2);
    hide Pow, Prime;
    var i := Pow(a, p - 2);
    MulMod(a, i, p);
    MulMod(a, i % p, p);
    ModSmall(i % p, p);
  }

  /** Of any residue the power p - 2 is the inverse, or 0 for 0. */
  lemma InverseOrZero(a: int, p: int)
    requires Prime(p) && p > 2 && 0 <= a < p
    ensures if a == 0 then Pow(a, p - 2) % p == 0 else a * (Pow(a, p - 2) % p) % p == 1
  {
    if a == 0 {
      assert Pow(0, p - 2) == 0 * Pow(0, p - 3);
      ModSmall(0, p);
    } else {
      ModSmall(a, p);
      PowerInverse(a, p);
    }
  }

  /* Primality */

  /** The least divisor from d on. */
  function LeastDivisor(n: int, d: int): (r: int)
    requires 2 <= d <= n
    ensures d <= r <= n && Divides(r, n)
    ensures forall k :: d <= k < r ==> !Divides(k, n)
    decreases n - d
  {
    if Divides(d, n) then d else LeastDivisor(n, d + 1)
  }

  lemma DividesTransitive(a: int, b: int, c: int)
    requires a > 0 && b > 0 && Divides(a, b) && Divides(b, c)
    ensures Divides(a, c)
  {
    DividesTimes(a, b, c / b);
    assert b * (c / b) == c;
  }

  /** A number is prime, or a prime divides it whose square is not above it. */
  lemma PrimeOrSmallFactor(n: int) returns (r: int)
    requires n >= 2 && !Prime(n)
    ensures Prime(r) && Divides(r, n) && r * r <= n
  {
    r := LeastDivisor(n, 2);
    forall d | 2 <= d < r
      ensures !Divides(d, r)
    {
      if Divides(d, r) {
        DividesTransitive(d, r, n);
      }
    }
    var e := n / r;
    assert n == r * e;
    if e < r {
      assert e >= 2 by {
        assert r != n;
        if e <= 1 {
          MulMono(e, 1, r);
          MulMono(e, 0, r);
        }
      }
      DivModUnique(n, e, r, 0);
      assert Divides(e, n);
      assert false;
    }
    MulMono(r, e, r);
  }

  /** Two powers that are 1 and whose exponents differ by one: so is the base. */
  lemma BaseIsOne(b: int, e: nat, m: int)
    requires m > 1 && Pow(b, e) % m == 1 && Pow(b, e + 1) % m == 1
    ensures b % m == 1
  {
    assert Pow(b, e + 1) == b * Pow(b, e);
    MulMod(b, Pow(b, e), m);
    ModSmall(b % m, m);
  }

  lemma PrimePositive(p: int)
    requires Prime(p)
    ensures p > 1
  {
  }

  lemma QuotientBelow(x: nat, a: nat, q: int) returns (y: nat)
    requires q > 1 && x * a % q == 1
    ensures a * x >= 0 && q * y >= 0 && a * x == q * y + 1
  {
    MulMono(0, x, a);
    y := x * a / q;
    MulMono(0, y, q);
  }

  lemma NotZero(b: int, q: int, r: int)
    requires q > 0 && r > 1 && Pow(b, q) % r == 1
    ensures !Divides(r, b)
  {
    assert Pow(b, q) == b * Pow(b, q - 1);
    if Divides(r, b) {
      DividesTimes(r, b, Pow(b, q - 1));
    }
  }

  /** If b is not 1 but its q-th power is, for a prime q, then q divides r - 1. */
  lemma OrderDivides(b: int, q: int, r: int)
    requires Prime(q) && Prime(r)
    requires Pow(b, q) % r == 1 && b % r != 1
    ensures Divides(q, r - 1)
  {
    if !Divides(q, r - 1) {
      hide Pow, Prime;
      assert q > 1 && r > 1 by {
        PrimePositive(q);
        PrimePositive(r);
      }
      NotZero(b, q, r);
      Fermat(b, r);
      var x := InverseModulo(r - 1, q);
      var y := QuotientBelow(x, r - 1, q);
      PowMultiple(b, r - 1, x, r);
      PowMultiple(b, q, y, r);
      BaseIsOne(b, q * y, r);
    }
  }

  /** What shows that q divides r - 1 for every prime r that divides n: a number b whose q-th
      power is 1 modulo n, while b - 1 has the inverse c. */
  ghost predicate Witness(n: int, q: int, b: int, c: int) {
    n > 1 && Prime(q) && Pow(b, q) % n == 1 && c * (b - 1) % n == 1
  }

  lemma ResidueBelow(x: int, n: int, r: int)
    requires n > 1 && r > 1 && Divides(r, n) && x % n == 1
    ensures x % r == 1
  {
    SameResidue(x, 1, n);
    ModSmall(1, n);
    DividesTransitive(r, n, x - 1);
    SameResidue(x, 1, r);
    ModSmall(1, r);
  }

  lemma WitnessDivides(n: int, q: int, b: int, c: int, r: int)
    requires Witness(n, q, b, c) && Prime(r) && Divides(r, n)
    ensures Divides(q, r - 1)
  {
    ResidueBelow(Pow(b, q), n, r);
    ResidueBelow(c * (b - 1), n, r);
    if b % r == 1 {
      ModSmall(1, r);
      SameResidue(b, 1, r);
      DividesTimes(r, b - 1, c);
    }
    OrderDivides(b, q, r);
  }

  /** Two different primes that divide a number: so does their product. */
  lemma BothDivide(q: int, s: int, m: int)
    requires Prime(q) && Prime(s) && q != s && m > 0 && Divides(q, m) && Divides(s, m)
    ensures q * s <= m
  {
    var k := m / q;
    assert m == q * k;
    Euclid(s, q, k);
    if Divides(s, q) {
      if s > q {
        ModSmall(q, s);
      }
    }
    assert k > 0;
    var j := k / s;
    assert k == s * j && j >= 1;
    MulMono(1, j, s);
    MulMono(s, k, q);
    assert q * s <= q * k;
  }

  lemma SquareMono(a: int, b: int)
    requires 0 <= a <= b
    ensures a * a <= b * b
  {
    MulMono(a, b, a);
    MulMono(a, b, b);
  }

  /** A number is prime if witnesses for two primes leave its prime divisors no room up to the
      square root. */
  lemma PrimeByTwo(n: int, q: int, b: int, c: int, s: int, b': int, c': int)
    requires Witness(n, q, b, c) && Witness(n, s, b', c') && q != s
    requires n < (q * s) * (q * s)
    ensures Prime(n)
  {
    if !Prime(n) {
      var r := PrimeOrSmallFactor(n);
      WitnessDivides(n, q, b, c, r);
      WitnessDivides(n, s, b', c', r);
      BothDivide(q, s, r - 1);
      SquareMono(q * s, r);
    }
  }

  lemma PrimeByOne(n: int, q: int, b: int, c: int)
    requires Witness(n, q, b, c) && n < q * q
    ensures Prime(n)
  {
    if !Prime(n) {
      var r := PrimeOrSmallFactor(n);
      WitnessDivides(n, q, b, c, r);
      assert q <= r - 1 by {
        if r - 1 < q {
          ModSmall(r - 1, q);
        }
      }
      SquareMono(q, r);
    }
  }
}
