/** The tweak arithmetic of XTS in the quotient ring GF(2)[x] / (x^128 + x^7 + x^2 + x + 1):
    polynomials are the finite sets of their exponents. */
module Gf128 {
  import opened AesField
  import opened Aes256
  import opened Xts

  type Poly = set<nat>

  const MODULUS: Poly := {128, 7, 2, 1, 0}

  function Add(p: Poly, q: Poly): Poly {
    (p - q) + (q - p)
  }

  /** x^k times p. */
  function Times(p: Poly, k: nat): Poly {
    set e | e in p :: e + k
  }

  /** The sum of x^k times the modulus over the listed k. */
  function ModulusTimes(ks: seq<nat>): Poly {
    if ks == [] then {} else Add(Times(MODULUS, ks[0]), ModulusTimes(ks[1..]))
  }

  ghost predicate Congruent(p: Poly, q: Poly) {
    exists ks :: Add(p, q) == ModulusTimes(ks)
  }

  /** Bit k of a byte. */
  predicate Bit(b: byte, k: nat)
    requires k < 8
  {
    if k == 0 then b & 0x01 != 0
    else if k == 1 then b & 0x02 != 0
    else if k == 2 then b & 0x04 != 0
    else if k == 3 then b & 0x08 != 0
    else if k == 4 then b & 0x10 != 0
    else if k == 5 then b & 0x20 != 0
    else if k == 6 then b & 0x40 != 0
    else b & 0x80 != 0
  }

  /** A block as a little-endian polynomial: exponent e is bit e mod 8 of byte e / 8. */
  function Polynomial(t: Block): Poly {
    set e: nat | 0 <= e < 128 && Bit(t[e / 8], e % 8)
  }

  lemma ShiftUpBits(b: byte, below: byte, k: nat)
    requires k < 8
    ensures Bit(ShiftUp(b, below), k) <==> if k == 0 then Bit(below, 7) else Bit(b, k - 1)
  {
  }

  lemma ReduceBits(b: byte, top: byte, k: nat)
    requires k < 8
    ensures Bit(Reduce(b, top), k) <==>
      ((k > 0 && Bit(b, k - 1)) != (Bit(top, 7) && (k == 0 || k == 1 || k == 2 || k == 7)))
  {
  }

  lemma PolynomialMember(t: Block, e: nat)
    requires e < 128
    ensures e in Polynomial(t) <==> Bit(t[e / 8], e % 8)
  {
    hide Bit;
  }

  lemma MulAlphaByte(t: Block, i: nat)
    requires i < 16
    ensures MulAlpha(t)[i] == if i == 0 then Reduce(t[0], t[15]) else ShiftUp(t[i], t[i - 1])
  {
    hide ShiftUp, Reduce;
  }

  /** The byte-wise doubling takes exponent e - 1 to e and folds x^128 back. */
  lemma MulAlphaCoefficient(t: Block, e: nat)
    requires e < 128
    ensures e in Polynomial(MulAlpha(t)) <==>
      ((e > 0 && e - 1 in Polynomial(t)) != (127 in Polynomial(t) && e in MODULUS))
  {
    hide Bit, Polynomial, MulAlpha, ShiftUp, Reduce;
    var i, k := e / 8, e % 8;
    PolynomialMember(MulAlpha(t), e);
    PolynomialMember(t, 127);
    if e > 0 {
      PolynomialMember(t, e - 1);
    }
    MulAlphaByte(t, i);
    if i == 0 {
      ReduceBits(t[0], t[15], k);
    } else {
      ShiftUpBits(t[i], t[i - 1], k);
    }
  }

  /** The doubled block bit by bit: every bit moves up by one, and the bit that leaves at the top
      comes back at 7, 2, 1 and 0. */
  lemma DoubledBits(t: Block, e: nat)
    requires e < 128
    ensures Bit(MulAlpha(t)[e / 8], e % 8) <==>
      ((e > 0 && Bit(t[(e - 1) / 8], (e - 1) % 8)) != (Bit(t[15], 7) && (e == 0 || e == 1 || e == 2 || e == 7)))
  {
    hide Bit, Polynomial, MulAlpha;
    MulAlphaCoefficient(t, e);
    PolynomialMember(MulAlpha(t), e);
    PolynomialMember(t, 127);
    if e > 0 {
      PolynomialMember(t, e - 1);
    }
  }

  lemma ModulusTimesOne()
    ensures ModulusTimes([0]) == MODULUS
  {
    assert [0][1..] == [];
    assert Times(MODULUS, 0) == MODULUS;
  }

  lemma TimesMember(p: Poly, k: nat, e: nat)
    ensures e in Times(p, k) <==> e >= k && e - k in p
  {
    if e >= k && e - k in p {
      assert (e - k) + k in Times(p, k);
    }
  }

  /** MulAlpha multiplies by x modulo the modulus. */
  lemma MulAlphaCongruent(t: Block)
    ensures Add(Times(Polynomial(t), 1), Polynomial(MulAlpha(t))) ==
            ModulusTimes(if 127 in Polynomial(t) then [0] else [])
  {
    var p, q := Times(Polynomial(t), 1), Polynomial(MulAlpha(t));
    var m := ModulusTimes(if 127 in Polynomial(t) then [0] else []);
    ModulusTimesOne();
    forall e: nat
      ensures e in Add(p, q) <==> e in m
    {
      TimesMember(Polynomial(t), 1, e);
      if e < 128 {
        MulAlphaCoefficient(t, e);
      }
    }
  }

  lemma TimesTimes(p: Poly, j: nat, k: nat)
    ensures Times(Times(p, j), k) == Times(p, j + k)
  {
    forall e: nat
      ensures e in Times(Times(p, j), k) <==> e in Times(p, j + k)
    {
      TimesMember(Times(p, j), k, e);
      TimesMember(p, j + k, e);
      if e >= k {
        TimesMember(p, j, e - k);
      }
    }
  }

  lemma TimesAdd(p: Poly, q: Poly, k: nat)
    ensures Times(Add(p, q), k) == Add(Times(p, k), Times(q, k))
  {
    forall e: nat
      ensures e in Times(Add(p, q), k) <==> e in Add(Times(p, k), Times(q, k))
    {
      TimesMember(Add(p, q), k, e);
      TimesMember(p, k, e);
      TimesMember(q, k, e);
    }
  }

  function Raised(ks: seq<nat>): seq<nat> {
    if ks == [] then [] else [ks[0] + 1] + Raised(ks[1..])
  }

  lemma {:induction false} TimesModulusTimes(ks: seq<nat>)
    ensures Times(ModulusTimes(ks), 1) == ModulusTimes(Raised(ks))
  {
    if ks == [] {
    } else {
      TimesModulusTimes(ks[1..]);
      TimesAdd(Times(MODULUS, ks[0]), ModulusTimes(ks[1..]), 1);
      TimesTimes(MODULUS, ks[0], 1);
    }
  }

  lemma {:induction false} ModulusTimesConcat(ks: seq<nat>, ls: seq<nat>)
    ensures ModulusTimes(ks + ls) == Add(ModulusTimes(ks), ModulusTimes(ls))
  {
    if ks == [] {
      assert ks + ls == ls;
    } else {
      ModulusTimesConcat(ks[1..], ls);
      assert (ks + ls)[1..] == ks[1..] + ls;
    }
  }

  lemma CongruentStep(p: Poly, p': Poly, q: Poly, q': Poly, ks: seq<nat>, ls: seq<nat>)
    requires Add(p, q) == ModulusTimes(ks) && Add(Times(q, 1), q') == ModulusTimes(ls) && p' == Times(p, 1)
    ensures Congruent(p', q')
  {
    TimesModulusTimes(ks);
    TimesAdd(p, q, 1);
    ModulusTimesConcat(Raised(ks), ls);
    assert Add(p', q') == Add(Add(p', Times(q, 1)), Add(Times(q, 1), q'));
    assert Add(p', q') == ModulusTimes(Raised(ks) + ls);
  }

  lemma ZeroPower(p: Poly)
    ensures Congruent(Times(p, 0), p)
  {
    assert Times(p, 0) == p;
    assert Add(p, p) == ModulusTimes([]);
  }

  /** The tweak of block j is x^j times the first tweak, modulo the modulus. */
  lemma {:induction false} TweakIsPower(t0: Block, j: nat)
    ensures Congruent(Times(Polynomial(t0), j), Polynomial(Tweak(t0, j)))
  {
    hide Polynomial, MulAlpha, ModulusTimes, Times;
    var p := Polynomial(t0);
    if j == 0 {
      ZeroPower(p);
    } else {
      TweakIsPower(t0, j - 1);
      var t := Tweak(t0, j - 1);
      var ks :| Add(Times(p, j - 1), Polynomial(t)) == ModulusTimes(ks);
      TimesTimes(p, j - 1, 1);
      MulAlphaCongruent(t);
      CongruentStep(Times(p, j - 1), Times(p, j), Polynomial(t), Polynomial(Tweak(t0, j)), ks,
                    if 127 in Polynomial(t) then [0] else []);
    }
  }

  // ---- remainders are unique ------------------------------------------------

  /** Whether k occurs an odd number of times. */
  predicate Odd(ks: seq<nat>, k: int) {
    ks != [] && ((ks[0] == k) != Odd(ks[1..], k))
  }

  /** The coefficients of a multiple. */
  lemma {:induction false} ModulusTimesMember(ks: seq<nat>, e: nat)
    ensures e in ModulusTimes(ks) <==>
      ((((Odd(ks, e - 128) != Odd(ks, e - 7)) != Odd(ks, e - 2)) != Odd(ks, e - 1)) != Odd(ks, e))
  {
    if ks != [] {
      ModulusTimesMember(ks[1..], e);
      TimesMember(MODULUS, ks[0], e);
    }
  }

  function Top(ks: seq<nat>): nat {
    if ks == [] then 0 else if ks[0] > Top(ks[1..]) then ks[0] else Top(ks[1..])
  }

  lemma {:induction false} NotAboveTop(ks: seq<nat>, k: int)
    requires k > Top(ks)
    ensures !Odd(ks, k)
  {
    if ks != [] {
      NotAboveTop(ks[1..], k);
    }
  }

  /** A multiple without exponents from 128 on has no odd entries from n on. */
  lemma {:induction false} NoneOdd(ks: seq<nat>, n: nat)
    requires forall e :: e in ModulusTimes(ks) ==> e < 128
    ensures forall k: int :: k >= n ==> !Odd(ks, k)
    decreases Top(ks) + 1 - n
  {
    if n > Top(ks) {
      forall k: int | k >= n
        ensures !Odd(ks, k)
      {
        NotAboveTop(ks, k);
      }
    } else {
      NoneOdd(ks, n + 1);
      ModulusTimesMember(ks, n + 128);
      assert n + 128 !in ModulusTimes(ks);
      assert !Odd(ks, n);
    }
  }

  lemma {:induction false} NegativeNeverOdd(ks: seq<nat>, k: int)
    requires k < 0
    ensures !Odd(ks, k)
  {
    if ks != [] {
      NegativeNeverOdd(ks[1..], k);
    }
  }

  lemma SameBits(b: byte, c: byte)
    requires forall k: nat | k < 8 :: Bit(b, k) == Bit(c, k)
    ensures b == c
  {
    assert Bit(b, 0) == Bit(c, 0) && Bit(b, 1) == Bit(c, 1) && Bit(b, 2) == Bit(c, 2) && Bit(b, 3) == Bit(c, 3);
    assert Bit(b, 4) == Bit(c, 4) && Bit(b, 5) == Bit(c, 5) && Bit(b, 6) == Bit(c, 6) && Bit(b, 7) == Bit(c, 7);
  }

  lemma SamePolynomial(s: Block, t: Block)
    requires Add(Polynomial(s), Polynomial(t)) == {}
    ensures s == t
  {
    hide Polynomial, Bit;
    forall i: nat | i < 16
      ensures s[i] == t[i]
    {
      forall k: nat | k < 8
        ensures Bit(s[i], k) == Bit(t[i], k)
      {
        PolynomialMember(s, 8 * i + k);
        PolynomialMember(t, 8 * i + k);
        assert 8 * i + k !in Add(Polynomial(s), Polynomial(t));
      }
      SameBits(s[i], t[i]);
    }
  }

  /** Two blocks that stand for congruent polynomials are equal: the tweak is determined. */
  lemma RemainderUnique(s: Block, t: Block)
    requires Congruent(Polynomial(s), Polynomial(t))
    ensures s == t
  {
    var ks :| Add(Polynomial(s), Polynomial(t)) == ModulusTimes(ks);
    NoneOdd(ks, 0);
    forall e: nat
      ensures e !in ModulusTimes(ks)
    {
      ModulusTimesMember(ks, e);
      if e < 128 {
        NegativeNeverOdd(ks, e - 128);
        if e < 7 { NegativeNeverOdd(ks, e - 7); }
        if e < 2 { NegativeNeverOdd(ks, e - 2); }
        if e < 1 { NegativeNeverOdd(ks, e - 1); }
      }
    }
    assert Add(Polynomial(s), Polynomial(t)) == {};
    hide ModulusTimes;
    SamePolynomial(s, t);
  }
}
