/** The twisted Edwards curve in extended coordinates: add, cswap, scalarmult, scalarbase. */
module Edwards25519 {
  import opened Arith
  import opened TwosComplement
  import opened Bytes
  import opened Limbs
  import opened Prime25519
  import opened Field25519
  import opened DoubleAndAdd
  import opened EdwardsFormulas

  /** The curve constant d of section 5.1 of RFC 8032. */
  const D: int := 37095705934669439343138083508754565189542113879843219016388785533085940283555

  /** d is -121665/121666. */
  lemma CurveConstant()
    ensures (121666 * D + 121665) % P == 0
  {
    ModShiftIs(121666 * D + 121665, 0, 77955, P);
  }

  function Combined(a: int, b: int, c: int, d: int): Coords {
    var e, f, g, h := Sub(b, a), Sub(d, c), Add(d, c), Add(b, a);
    Coords(Mul(e, f), Mul(g, h), Mul(f, g), Mul(e, h))
  }

  /** Point addition as section 5.1.4 of RFC 8032 gives it, up to the order of factors. */
  function PointAdd(p: Coords, q: Coords): Coords {
    var a := Mul(Sub(p.y, p.x), Sub(q.y, q.x));
    var b := Mul(Add(p.y, p.x), Add(q.y, q.x));
    var c := Mul(Mul(p.t, q.t), (2 * D) % P);
    var d := Add(Mul(p.z, q.z), Mul(p.z, q.z));
    Combined(a, b, c, d)
  }

  /** What extended coordinates promise of their fourth component: T/Z = (X/Z)(Y/Z). */
  predicate Extended(p: Coords) {
    Mul(p.x, p.y) == Mul(p.z, p.t)
  }

  lemma CrossProduct(e: int, f: int, g: int, h: int)
    ensures Mul(Mul(e, f), Mul(g, h)) == Mul(Mul(f, g), Mul(e, h))
  {
    MulMod(e * f, g * h, P);
    MulMod(f * g, e * h, P);
    assert (e * f) * (g * h) == (f * g) * (e * h);
  }

  /** Every sum is extended, also that of a point with itself. */
  lemma SumExtended(p: Coords, q: Coords)
    ensures Extended(PointAdd(p, q))
  {
    hide Add, Sub;
    var a := Mul(Sub(p.y, p.x), Sub(q.y, q.x));
    var b := Mul(Add(p.y, p.x), Add(q.y, q.x));
    var c := Mul(Mul(p.t, q.t), (2 * D) % P);
    var d := Add(Mul(p.z, q.z), Mul(p.z, q.z));
    CrossProduct(Sub(b, a), Sub(d, c), Add(d, c), Add(b, a));
  }

  /** A curve point held in four limb arrays. */
  datatype Point = Point(x: array<i64>, y: array<i64>, z: array<i64>, t: array<i64>) {

    ghost function Repr(): set<object> {
      {x, y, z, t}
    }

    ghost predicate Valid()
      reads x, y, z, t
    {
      && x != y && x != z && x != t && y != z && y != t && z != t
      && Within(x, TIGHT) && Within(y, TIGHT) && Within(z, TIGHT) && Within(t, TIGHT)
    }

    ghost function View(): Coords
      reads x, y, z, t
    {
      Coords(Residue(x), Residue(y), Residue(z), Residue(t))
    }
  }

  const GF_D2: seq<i64> := [0xf159, 0x26b2, 0x9b94, 0xebd6, 0xb156, 0x8283, 0x149a, 0x00e0,
                            0xd130, 0xeef3, 0x80f2, 0x198e, 0xfce7, 0x56df, 0xd9dc, 0x2406]
  const GF_X: seq<i64> := [0xd51a, 0x8f25, 0x2d60, 0xc956, 0xa7b2, 0x9525, 0xc760, 0x692c,
                           0xdc5c, 0xfdd6, 0xe231, 0xc0a4, 0x53fe, 0xcd6e, 0x36d3, 0x2169]
  const GF_Y: seq<i64> := [0x6658, 0x6666, 0x6666, 0x6666, 0x6666, 0x6666, 0x6666, 0x6666,
                           0x6666, 0x6666, 0x6666, 0x6666, 0x6666, 0x6666, 0x6666, 0x6666]

  /** The limbs of D2 are twice the curve constant. */
  lemma D2IsTwiceD()
    ensures Value(GF_D2) % P == (2 * D) % P
  {
    SixteenLimbs(GF_D2);
    ModShiftIs(2 * D, Value(GF_D2), 1, P);
  }

  /** The coordinates of the base point that section 5.1 of RFC 8032 gives. */
  const BASE_X: int := 15112221349535400772501151409588531511454012693041857206046113283949847762202
  const BASE_Y: int := 46316835694926478169428394003475163141307993866256225615783033603165251855960

  /** What the two sides of the curve equation at the base point differ by, over P. */
  const QUOTIENT: int :=
    -((((0x0072705895b7fd68_a9fa7924f5dbf66a_83342931bfa505f5_c01a65246a2283b5 * TWO256 +
      0xbdefac6a6f236898_302e8ed7c7df6836_05c40a4c5bad89dc_f0c8e913ecc5b282) * TWO256 +
      0xa35cfc55550db4be_5e6bd6246e4a4ea2_054904f5e4438fa4_2b0e56e116ea5951) * TWO256 +
      0xcfeb87ecfc5b5507_44d2c0fca4a89ec7_07de8b3c9a756eb8_0e7ec260dc2fda59))

  /** The limbs of X and Y are the coordinates of the base point. */
  lemma BasePointLimbs()
    ensures Value(GF_X) == BASE_X && Value(GF_Y) == BASE_Y
  {
    SixteenLimbs(GF_X);
    SixteenLimbs(GF_Y);
  }

  /** The base point satisfies the curve equation -x^2 + y^2 = 1 + d x^2 y^2, and its
      second coordinate is 4/5. */
  lemma BasePointOnCurve()
    ensures (-BASE_X * BASE_X + BASE_Y * BASE_Y) % P == (1 + D * (BASE_X * BASE_X) * (BASE_Y * BASE_Y)) % P
    ensures (5 * BASE_Y) % P == 4
  {
    ModShiftIs(-BASE_X * BASE_X + BASE_Y * BASE_Y, 1 + D * (BASE_X * BASE_X) * (BASE_Y * BASE_Y), QUOTIENT, P);
    ModShiftIs(5 * BASE_Y, 4, 4, P);
    ModSmall(4, P);
  }

  /** a = (y1 - x1)(y2 - x2) and b = (x1 + y1)(x2 + y2). */
  method CrossTerms(p: Point, q: Point) returns (a: array<i64>, b: array<i64>)
    requires p.Valid() && q.Valid()
    ensures fresh(a) && fresh(b) && a != b
    ensures Within(a, TIGHT) && Within(b, TIGHT)
    ensures var (v, w) := (p.View(), q.View());
      && Residue(a) == Mul(Sub(v.y, v.x), Sub(w.y, w.x))
      && Residue(b) == Mul(Add(v.x, v.y), Add(w.x, w.y))
  {
    hide Add, Sub, Mul, Residue;
    a, b := new i64[16], new i64[16];
    var t := new i64[16];
    Z(a, p.y, p.x, TIGHT);
    Z(t, q.y, q.x, TIGHT);
    M(a, a, t);
    A(b, p.x, p.y, TIGHT);
    A(t, q.x, q.y, TIGHT);
    M(b, b, t);
  }

  /** c = t1 t2 * 2d and d = 2 z1 z2. */
  method StraightTerms(p: Point, q: Point) returns (c: array<i64>, d: array<i64>)
    requires p.Valid() && q.Valid()
    ensures fresh(c) && fresh(d) && c != d
    ensures Within(c, TIGHT) && Within(d, 2 * TIGHT)
    ensures var (v, w) := (p.View(), q.View());
      && Residue(c) == Mul(Mul(v.t, w.t), Value(GF_D2) % P)
      && Residue(d) == Add(Mul(v.z, w.z), Mul(v.z, w.z))
  {
    hide Add, Sub, Mul, Residue;
    c, d := new i64[16], new i64[16];
    var d2 := NewGf(GF_D2);
    assert Within(d2, TIGHT) && Residue(d2) == Value(GF_D2) % P by { ResidueOf(d2, GF_D2); }
    M(c, p.t, q.t);
    M(c, c, d2);
    M(d, p.z, q.z);
    A(d, d, d, TIGHT);
  }

  /** The sums and differences of the four terms. */
  method Combine(a: array<i64>, b: array<i64>, c: array<i64>, d: array<i64>)
    returns (e: array<i64>, f: array<i64>, g: array<i64>, h: array<i64>)
    requires Within(a, TIGHT) && Within(b, TIGHT) && Within(c, TIGHT) && Within(d, 2 * TIGHT)
    ensures fresh(e) && fresh(f) && fresh(g) && fresh(h)
    ensures Within(e, FACTOR_MAX) && Within(f, FACTOR_MAX) && Within(g, FACTOR_MAX) && Within(h, FACTOR_MAX)
    ensures Residue(e) == Sub(Residue(b), Residue(a)) && Residue(h) == Add(Residue(b), Residue(a))
    ensures Residue(f) == Sub(Residue(d), Residue(c)) && Residue(g) == Add(Residue(d), Residue(c))
  {
    hide Add, Sub, Mul, Residue;
    e, f, g, h := new i64[16], new i64[16], new i64[16], new i64[16];
    Z(e, b, a, TIGHT);
    Z(f, d, c, 2 * TIGHT);
    A(g, d, c, 2 * TIGHT);
    A(h, b, a, TIGHT);
  }

  /** p = p + q; q may be p itself. */
  method AddPoint(p: Point, q: Point)
    requires p.Valid() && q.Valid()
    modifies p.Repr()
    ensures p.Valid()
    ensures p.View() == PointAdd(old(p.View()), old(q.View()))
  {
    hide Add, Sub, Mul, Residue;
    ghost var v, w := p.View(), q.View();
    var a, b := CrossTerms(p, q);
    var c, d := StraightTerms(p, q);
    Commutes(v.x, v.y);
    Commutes(w.x, w.y);
    D2IsTwiceD();
    assert PointAdd(v, w) == Combined(Residue(a), Residue(b), Residue(c), Residue(d));
    var e, f, g, h := Combine(a, b, c, d);
    Commutes(Residue(g), Residue(h));
    Commutes(Residue(g), Residue(f));
    M(p.x, e, f);
    M(p.y, h, g);
    M(p.z, g, f);
    M(p.t, e, h);
  }

  /** Swaps the two points if b is 1; they may be one point. */
  method CswapPoints(p: Point, q: Point, b: i64)
    requires p.Valid() && q.Valid() && (p == q || p.Repr() !! q.Repr()) && 0 <= b <= 1
    modifies p.Repr(), q.Repr()
    ensures p.Valid() && q.Valid()
    ensures p.View() == if b == 1 then old(q.View()) else old(p.View())
    ensures q.View() == if b == 1 then old(p.View()) else old(q.View())
  {
    Sel25519(p.x, q.x, b);
    Sel25519(p.y, q.y, b);
    Sel25519(p.z, q.z, b);
    Sel25519(p.t, q.t, b);
  }

  /** r[i] = a[i]. */
  method SetGf(r: array<i64>, s: seq<i64>)
    requires r.Length == |s| == 16 && Digits(s)
    modifies r
    ensures Within(r, TIGHT) && Residue(r) == Value(s) % P
  {
    var i := 0;
    while i < 16
      invariant 0 <= i <= 16
      invariant forall k :: 0 <= k < i ==> r[k] == s[k]
    {
      r[i] := s[i];
      i := i + 1;
    }
    assert r[..] == s;
  }

  method SetIdentity(p: Point)
    requires p.x.Length == p.y.Length == p.z.Length == p.t.Length == 16
    requires p.x != p.y && p.x != p.z && p.x != p.t && p.y != p.z && p.y != p.t && p.z != p.t
    modifies p.Repr()
    ensures p.Valid() && p.View() == IDENTITY
  {
    hide Value, Digits, Residue;
    ZeroAndOne();
    SetGf(p.x, GF0);
    SetGf(p.y, GF1);
    SetGf(p.z, GF1);
    SetGf(p.t, GF0);
  }

  /** The pair of residue points that the limb arrays hold. */
  ghost function Views(p: Point, q: Point): (Coords, Coords)
    reads p.x, p.y, p.z, p.t, q.x, q.y, q.z, q.t
  {
    (p.View(), q.View())
  }

  /** One iteration: swap, add, double, swap back. One point in both places is doubled twice. */
  method IteratePoints(p: Point, q: Point, b: i64)
    requires p.Valid() && q.Valid() && (p == q || p.Repr() !! q.Repr()) && 0 <= b <= 1
    modifies p.Repr(), q.Repr()
    ensures p.Valid() && q.Valid()
    ensures p != q ==> Views(p, q) == Step(PointAdd, b as int, old(Views(p, q)))
    ensures p == q ==> var double := PointAdd(old(p.View()), old(p.View())); p.View() == PointAdd(double, double)
  {
    hide PointAdd, Residue;
    CswapPoints(p, q, b);
    AddPoint(q, p);
    AddPoint(p, p);
    CswapPoints(p, q, b);
  }

  /** p = s q for the 32-byte scalar s, by 256 iterations from the top bit down. */
  method ScalarmultPoint(p: Point, q: Point, s: array<u8>)
    requires p.x.Length == p.y.Length == p.z.Length == p.t.Length == 16
    requires p.x != p.y && p.x != p.z && p.x != p.t && p.y != p.z && p.y != p.t && p.z != p.t
    requires q.Valid() && p.Repr() !! q.Repr() && s.Length == 32
    modifies p.Repr(), q.Repr()
    ensures p.Valid() && q.Valid()
    ensures Views(p, q) == Run(PointAdd, IDENTITY, old(q.View()), LittleEndian(s[..]), 256, 0)
  {
    hide PointAdd, Residue, Step;
    ghost var q0, k := q.View(), LittleEndian(s[..]);
    SetIdentity(p);
    var i := 255;
    while i >= 0
      invariant -1 <= i <= 255 && p.Valid() && q.Valid() && LittleEndian(s[..]) == k
      invariant Views(p, q) == Run(PointAdd, IDENTITY, q0, k, 256, i + 1)
    {
      var b := ByteBit(s[i / 8], i % 8) as i64;
      BitOfBytes(s[..], i);
      IteratePoints(p, q, b);
      i := i - 1;
    }
  }

  /** The pair stays extended throughout the run. */
  lemma {:induction false} RunExtended(q: Coords, s: nat, i: nat)
    requires i <= 256 && Extended(q)
    ensures Extended(Run(PointAdd, IDENTITY, q, s, 256, i).0) && Extended(Run(PointAdd, IDENTITY, q, s, 256, i).1)
    decreases 256 - i
  {
    if i == 256 {
    } else {
      RunExtended(q, s, i + 1);
      var (p', q') := Run(PointAdd, IDENTITY, q, s, 256, i + 1);
      SumExtended(p', p');
      SumExtended(q', q');
      SumExtended(p', q');
      SumExtended(q', p');
    }
  }

  /** The base point in extended coordinates. */
  ghost function BasePoint(): Coords {
    Coords(Value(GF_X) % P, Value(GF_Y) % P, 1, Mul(Value(GF_X) % P, Value(GF_Y) % P))
  }

  lemma ConstantsAreDigits()
    ensures Digits(GF_X) && Digits(GF_Y)
  {
  }

  method NewBasePoint() returns (q: Point)
    ensures fresh(q.Repr()) && q.Valid() && q.View() == BasePoint()
  {
    hide Mul, Value, Digits, Residue;
    ConstantsAreDigits();
    ZeroAndOne();
    var x := NewGf(GF_X);
    var y := NewGf(GF_Y);
    var z := NewGf(GF1);
    var t := new i64[16];
    ResidueOf(x, GF_X);
    ResidueOf(y, GF_Y);
    ResidueOf(z, GF1);
    M(t, x, y);
    q := Point(x, y, z, t);
  }

  /** p = s B for the base point B. */
  method ScalarBase(p: Point, s: array<u8>)
    requires p.x.Length == p.y.Length == p.z.Length == p.t.Length == 16
    requires p.x != p.y && p.x != p.z && p.x != p.t && p.y != p.z && p.y != p.t && p.z != p.t
    requires s.Length == 32
    modifies p.Repr()
    ensures p.Valid()
    ensures p.View() == Run(PointAdd, IDENTITY, BasePoint(), LittleEndian(old(s[..])), 256, 0).0
  {
    hide PointAdd, Run, BasePoint;
    var q := NewBasePoint();
    ScalarmultPoint(p, q, s);
  }

  lemma {:induction false} Pow256Of2(n: nat)
    ensures Pow(256, n) == Pow(2, 8 * n)
  {
    if n == 0 {
    } else {
      Pow256Of2(n - 1);
      assert Pow(2, 4) == 16;
      PowAdd(2, 4, 4);
      PowAdd(2, 8, 8 * (n - 1));
    }
  }

  /** Whatever group the curve points form, scalarmult computes the scalar multiple: for
      every operation that the addition formulas represent on a set of coordinates. */
  lemma ScalarmultMultiplies<G(!new)>(
    q: Coords, s: seq<u8>, dom: Coords -> bool, h: Coords -> G, on: G -> bool, op: (G, G) -> G, e: G)
    requires |s| == 32
    requires Monoid(on, op, e) && Represents(PointAdd, IDENTITY, dom, h, on, op, e) && dom(q)
    ensures h(Run(PointAdd, IDENTITY, q, LittleEndian(s), 256, 0).0) == Multiple(op, e, LittleEndian(s), h(q))
  {
    LittleEndianRange(s);
    Pow256Of2(|s|);
    LadderMultiplies(PointAdd, IDENTITY, q, LittleEndian(s), 8 * |s|, dom, h, on, op, e);
  }
}
