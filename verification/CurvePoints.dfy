/** Points of the curve that share a coordinate, and points whose multiple by a cofactor is
    neutral. */
module CurvePoints {
  import opened Arith
  import opened PrimeField
  import opened EdwardsComplete
  import opened EdwardsGroup
  import opened MontgomeryLadder

  lemma SquareOf(F: Twisted, a: Affine)
    requires OnAffine(F, a)
    ensures Same(F, (a.x * a.x) * (1 + F.d * (a.y * a.y)), a.y * a.y - 1)
  {
    hide Same;
    AffineSquared(F, a);
    XFromY(F, a.x * a.x, a.y * a.y);
  }

  lemma SquaresDiffer(x: int, z: int)
    ensures x * x - z * z == (x - z) * (x + z)
  {
  }

  /** The first coordinate is determined by the second up to its sign. */
  lemma SameY(F: Twisted, a: Affine, b: Affine)
    requires OnAffine(F, a) && OnAffine(F, b) && a.y == b.y
    ensures Zero(F, a.x - b.x) || Zero(F, a.x + b.x)
  {
    hide *;
    SquareOf(F, a);
    SquareOf(F, b);
    var c := 1 + F.d * (a.y * a.y);
    SameAs(F, (a.x * a.x) * c, (b.x * b.x) * c, a.y * a.y - 1);
    TwistedNotZero(F, a.y);
    CancelFactor(F, a.x * a.x, b.x * b.x, c);
    DifferenceZero(F, a.x * a.x, b.x * b.x);
    SquaresDiffer(a.x, b.x);
    ZeroProduct(F, a.x - b.x, a.x + b.x);
  }

  /** Of two opposite residues that are not 0 one is even and one is odd. */
  lemma OppositeParity(F: Field, x: int, z: int)
    requires F.p % 2 == 1 && 0 <= x < F.p && 0 <= z < F.p && x % 2 == z % 2
    requires Zero(F, x + z)
    ensures x == z
  {
    hide Same;
    ModSmall(0, F.p);
    SameIs(F, x + z, 0);
    if x + z < F.p {
      ModSmall(x + z, F.p);
    } else {
      DivModUnique(x + z, F.p, 1, x + z - F.p);
    }
  }

  /** The second coordinate and the parity of the first determine a point. */
  lemma SameParity(F: Twisted, a: Affine, b: Affine)
    requires F.p % 2 == 1 && OnAffine(F, a) && OnAffine(F, b) && a.y == b.y && a.x % 2 == b.x % 2
    ensures a == b
  {
    assert 0 <= a.x < F.p && 0 <= b.x < F.p;
    hide *;
    SameY(F, a, b);
    if Zero(F, a.x - b.x) {
      DifferenceZero(F, a.x, b.x);
      SameResidues(F, a.x, b.x);
    } else {
      OppositeParity(F, a.x, b.x);
    }
  }

  /** Multiples of a factor that kills a point are neutral. */
  lemma {:induction false} Killed(F: Twisted, h: nat, m: nat, a: Affine)
    requires OnAffine(F, a) && Times(F, h, a) == ORIGIN
    ensures h * m >= 0 && Times(F, h * m, a) == ORIGIN
  {
    hide AffineAdd, OnAffine, Times;
    if m == 0 {
      TimesNext(F, 0, a);
    } else {
      Killed(F, h, m - 1, a);
      OriginOn(F);
      AddOrigin(F, ORIGIN);
      TimesAdd(F, h, h * (m - 1), a);
      Distribute(h, 1, m - 1);
    }
  }
}
