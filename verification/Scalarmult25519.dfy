/** crypto_scalarmult: the Montgomery ladder on limb arrays computes X25519. */
module Scalarmult25519 {
  import opened TwosComplement
  import opened Bytes
  import opened Limbs
  import opened Prime25519
  import opened Field25519
  import Rfc7748

  /** The residues of the four ladder coordinates, with no swap pending. */
  ghost function View(a: array<i64>, b: array<i64>, c: array<i64>, d: array<i64>): Rfc7748.State
    reads a, b, c, d
  {
    Rfc7748.State(Residue(a), Residue(c), Residue(b), Residue(d), 0)
  }

  ghost predicate AllTight(a: array<i64>, b: array<i64>, c: array<i64>, d: array<i64>)
    reads a, b, c, d
  {
    Within(a, TIGHT) && Within(b, TIGHT) && Within(c, TIGHT) && Within(d, TIGHT)
  }

  ghost predicate Distinct(a: object, b: object, c: object, d: object, e: object, f: object) {
    && a !in {b, c, d, e, f}
    && b !in {c, d, e, f}
    && c !in {d, e, f}
    && d !in {e, f}
    && e != f
  }

  /** The first half of a ladder iteration: the two cross products and the two squares. */
  method CrossProducts(a: array<i64>, b: array<i64>, c: array<i64>, d: array<i64>, e: array<i64>, f: array<i64>)
    requires Distinct(a, b, c, d, e, f)
    requires AllTight(a, b, c, d) && e.Length == f.Length == 16
    modifies a, b, c, d, e, f
    ensures AllTight(a, c, d, f)
    ensures Residue(d) == Sq(Add(old(Residue(a)), old(Residue(c))))
    ensures Residue(f) == Sq(Sub(old(Residue(a)), old(Residue(c))))
    ensures Residue(a) == Mul(Add(old(Residue(b)), old(Residue(d))), Sub(old(Residue(a)), old(Residue(c))))
    ensures Residue(c) == Mul(Sub(old(Residue(b)), old(Residue(d))), Add(old(Residue(a)), old(Residue(c))))
  {
    hide Add, Sub, Mul, Residue;
    A(e, a, c, TIGHT);
    Z(a, a, c, TIGHT);
    A(c, b, d, TIGHT);
    Z(b, b, d, TIGHT);
    S(d, e);
    S(f, a);
    M(a, c, a);
    M(c, b, e);
  }

  /** The second half: from the cross products a, c and the squares d, f. */
  method Recombine(a: array<i64>, b: array<i64>, c: array<i64>, d: array<i64>,
                   e: array<i64>, f: array<i64>, x: array<i64>, k121665: array<i64>)
    requires Distinct(a, b, c, d, e, f) && x !in {a, b, c, d, e, f} && k121665 !in {a, b, c, d, e, f}
    requires AllTight(a, c, d, f) && b.Length == e.Length == 16 && Within(x, TIGHT) && Within(k121665, TIGHT)
    modifies a, b, c, d, e
    ensures AllTight(a, b, c, d)
    ensures Residue(a) == Mul(old(Residue(d)), old(Residue(f)))
    ensures Residue(b) == Sq(Add(old(Residue(a)), old(Residue(c))))
    ensures var ee := Sub(old(Residue(d)), old(Residue(f)));
            Residue(c) == Mul(ee, Add(Mul(ee, Residue(k121665)), old(Residue(d))))
    ensures Residue(d) == Mul(Sq(Sub(old(Residue(a)), old(Residue(c)))), Residue(x))
  {
    hide Add, Sub, Mul, Residue;
    A(e, a, c, TIGHT);
    Z(a, a, c, TIGHT);
    S(b, a);
    Z(c, d, f, TIGHT);
    M(a, c, k121665);
    A(a, a, d, TIGHT);
    M(c, c, a);
    M(a, d, f);
    M(d, b, x);
    S(b, e);
  }

  /** The eighteen field operations of one ladder iteration are the formulas of the RFC. */
  method LadderFormulas(a: array<i64>, b: array<i64>, c: array<i64>, d: array<i64>,
                        e: array<i64>, f: array<i64>, x: array<i64>, k121665: array<i64>)
    requires Distinct(a, b, c, d, e, f) && x !in {a, b, c, d, e, f} && k121665 !in {a, b, c, d, e, f}
    requires AllTight(a, b, c, d) && e.Length == f.Length == 16 && Within(x, TIGHT) && Within(k121665, TIGHT)
    requires Residue(k121665) == Rfc7748.A24
    modifies a, b, c, d, e, f
    ensures AllTight(a, b, c, d)
    ensures View(a, b, c, d) == Rfc7748.Formulas(Residue(x), old(View(a, b, c, d)))
  {
    hide Add, Sub, Mul, Residue;
    CrossProducts(a, b, c, d, e, f);
    ghost var cb, da, ee := Residue(a), Residue(c), Sub(Residue(d), Residue(f));
    Commutes(cb, da);
    SquareOfDifference(cb, da);
    Commutes(ee, Rfc7748.A24);
    Commutes(Mul(ee, Rfc7748.A24), Residue(d));
    Commutes(Sq(Sub(cb, da)), Residue(x));
    Recombine(a, b, c, d, e, f, x, k121665);
  }

  /** The RFC state with its pending swap carried out. */
  ghost function Undone(s: Rfc7748.State): Rfc7748.State {
    Rfc7748.Cswap(s.swap, s).(swap := 0)
  }

  /** Swapping before and after every iteration is the deferred swap of the RFC. */
  lemma DeferredSwap(x1: int, kt: int, s: Rfc7748.State)
    requires 0 <= kt <= 1 && 0 <= s.swap <= 1
    ensures Undone(Rfc7748.Step(x1, kt, s))
         == Rfc7748.Cswap(kt, Rfc7748.Formulas(x1, Rfc7748.Cswap(kt, Undone(s))))
  {
    hide Add, Sub, Mul;
  }

  /** One iteration on the limb arrays: swap, formulas, swap back. */
  method Iterate(a: array<i64>, b: array<i64>, c: array<i64>, d: array<i64>,
                 e: array<i64>, f: array<i64>, x: array<i64>, k121665: array<i64>, r: i64)
    requires Distinct(a, b, c, d, e, f) && x !in {a, b, c, d, e, f} && k121665 !in {a, b, c, d, e, f}
    requires AllTight(a, b, c, d) && e.Length == f.Length == 16 && Within(x, TIGHT) && Within(k121665, TIGHT)
    requires Residue(k121665) == Rfc7748.A24 && 0 <= r <= 1
    modifies a, b, c, d, e, f
    ensures AllTight(a, b, c, d)
    ensures View(a, b, c, d) ==
      Rfc7748.Cswap(r as int, Rfc7748.Formulas(Residue(x), Rfc7748.Cswap(r as int, old(View(a, b, c, d)))))
  {
    Sel25519(a, b, r);
    Sel25519(c, d, r);
    LadderFormulas(a, b, c, d, e, f, x, k121665);
    Sel25519(a, b, r);
    Sel25519(c, d, r);
  }

  /** The constant 121665 as limbs. */
  const GF_121665: seq<i64> := [0xDB41, 1, 0, 0, 0, 0, 0, 0, 0, 0, 0, 0, 0, 0, 0, 0]

  /** Bit i of the clamped scalar, as the ladder reads it. */
  method ScalarBit(z: array<u8>, i: nat) returns (r: i64)
    requires z.Length == 32 && i < 255
    ensures r as int == Rfc7748.Bit(LittleEndian(z[..]), i)
  {
    r := ByteBit(z[i / 8], i % 8) as i64;
    BitOfBytes(z[..], i);
  }

  /** Copies the scalar and clamps it. */
  method ClampScalar(n: array<u8>) returns (z: array<u8>)
    requires n.Length == 32
    ensures fresh(z) && z.Length == 32 && z[..] == Rfc7748.Clamp(n[..])
  {
    hide AndInt, OrInt;
    z := new u8[32];
    var i := 0;
    while i < 31
      invariant 0 <= i <= 31
      invariant forall k :: 0 <= k < i ==> z[k] == n[k]
    {
      z[i] := n[i];
      i := i + 1;
    }
    ClampMasks(n[31] as int);
    ClampMasks(z[0] as int);
    z[31] := OrInt(AndInt(n[31] as int, 127), 64) as u8;
    z[0] := AndInt(z[0] as int, 248) as u8;
    assert z[..] == Rfc7748.Clamp(n[..]);
  }

  lemma Small121665(a: array<i64>)
    requires a[..] == GF_121665
    ensures Within(a, TIGHT) && Residue(a) == Rfc7748.A24
  {
    TwoLimbs(GF_121665);
  }

  /** The 255 ladder iterations. */
  method RunLadder(a: array<i64>, b: array<i64>, c: array<i64>, d: array<i64>, z: array<u8>, x: array<i64>)
    requires a != b && a != c && a != d && b != c && b != d && c != d && x !in {a, b, c, d}
    requires AllTight(a, b, c, d) && Within(x, TIGHT) && z.Length == 32
    requires View(a, b, c, d) == Rfc7748.State(1, 0, Residue(x), 1, 0)
    modifies a, b, c, d
    ensures AllTight(a, b, c, d)
    ensures View(a, b, c, d) == Undone(Rfc7748.Ladder(LittleEndian(z[..]), Residue(x), 0))
  {
    hide Add, Sub, Mul, Rfc7748.Formulas, Residue, Within, LittleEndian;
    ghost var k, x1 := LittleEndian(z[..]), Residue(x);
    var e, f := new i64[16], new i64[16];
    var k121665 := NewGf(GF_121665);
    assert Within(k121665, TIGHT) && Residue(k121665) == Rfc7748.A24 by { Small121665(k121665); }
    var i := 254;
    while i >= 0
      invariant -1 <= i <= 254
      invariant LittleEndian(z[..]) == k && Within(x, TIGHT) && Residue(x) == x1
      invariant Within(k121665, TIGHT) && Residue(k121665) == Rfc7748.A24
      invariant AllTight(a, b, c, d)
      invariant View(a, b, c, d) == Undone(Rfc7748.Ladder(k, x1, i + 1))
    {
      var r := ScalarBit(z, i);
      DeferredSwap(x1, r as int, Rfc7748.Ladder(k, x1, i + 1));
      Iterate(a, b, c, d, e, f, x, k121665, r);
      i := i - 1;
    }
  }

  /** The start of the ladder: the neutral point and the input point. */
  method InitLadder(x: array<i64>)
    returns (a: array<i64>, b: array<i64>, c: array<i64>, d: array<i64>)
    requires Within(x, TIGHT)
    ensures fresh(a) && fresh(b) && fresh(c) && fresh(d)
    ensures a != b && a != c && a != d && b != c && b != d && c != d
    ensures AllTight(a, b, c, d)
    ensures View(a, b, c, d) == Rfc7748.State(1, 0, Residue(x), 1, 0)
  {
    hide Value, Digits, Residue;
    ZeroAndOne();
    a := NewGf(GF1);
    b := NewGf(x[..]);
    c := NewGf(GF0);
    d := NewGf(GF1);
    ResidueOf(a, GF1);
    CopyOf(b, x, TIGHT);
    ResidueOf(c, GF0);
    ResidueOf(d, GF1);
  }

  /** The quotient a / c of the ladder's result, packed. */
  method Finish(q: array<u8>, a: array<i64>, c: array<i64>)
    requires q.Length == 32 && Within(a, TIGHT) && Within(c, TIGHT)
    modifies q
    ensures q[..] == ToLittleEndian(Mul(Residue(a), Power(Residue(c), P - 2)), 32)
  {
    hide Mul, Power;
    var num := NewGf(a[..]);
    var den := NewGf(c[..]);
    Inv25519(den, den);
    M(num, num, den);
    Pack25519(q, num);
  }

  /** q = X25519(n, p), for every scalar and every point encoding. */
  method CryptoScalarmult(q: array<u8>, n: array<u8>, p: array<u8>)
    requires q.Length == n.Length == p.Length == 32
    modifies q
    ensures q[..] == Rfc7748.X25519(old(n[..]), old(p[..]))
  {
    hide Mul, Power, Rfc7748.Ladder;
    var z := ClampScalar(n);
    var x := new i64[16];
    Unpack25519(x, p);
    var a, b, c, d := InitLadder(x);
    RunLadder(a, b, c, d, z, x);
    Finish(q, a, c);
  }

  const BASE_U: seq<u8> := [9] + seq(31, _ => 0)

  /** q = X25519(n, 9). */
  method CryptoScalarmultBase(q: array<u8>, n: array<u8>)
    requires q.Length == n.Length == 32
    modifies q
    ensures q[..] == Rfc7748.X25519(old(n[..]), BASE_U)
  {
    var p := new u8[32](i => if i == 0 then 9 else 0);
    assert p[..] == BASE_U;
    CryptoScalarmult(q, n, p);
  }
}
