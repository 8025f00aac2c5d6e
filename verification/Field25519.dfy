/** The field of 2^255 - 19 elements on sixteen signed 64-bit limbs, updated in place
    as tests/tweetnacl_excerpt.c does. Outputs may alias inputs throughout. */
module Field25519 {
  import opened Arith
  import opened TwosComplement
  import opened Limbs
  import opened Bytes
  import opened Prime25519
  import Primes
  import PrimeCertificate

  const TWO256: int := 0x1_0000000000000000_0000000000000000_0000000000000000_0000000000000000
  const LIMB_MAX: int := 0x4000_0000_0000_0000

  /** The limbs a carry pass leaves behind: 38 is the slack of the folded top carry. */
  ghost predicate Reduced(s: seq<i64>) {
    |s| == 16 && -38 <= s[0] as int < RADIX + 38 && forall i :: 1 <= i < 16 ==> 0 <= s[i] as int < RADIX
  }

  /** The residue class an array of limbs stands for. */
  ghost function Residue(a: array<i64>): int
    reads a
  {
    Value(a[..]) % P
  }

  /** Sixteen limbs of magnitude at most bound. */
  ghost predicate Within(a: array<i64>, bound: int)
    reads a
  {
    a.Length == 16 && Bounded(a[..], bound)
  }

  /** The magnitude of the limbs that M leaves. */
  const TIGHT: int := RADIX + 38

  /** t holds the digits of s, with the carry out of the top limb folded into limb 0. */
  ghost predicate Carried(s: seq<i64>, t: seq<i64>) {
    && |s| == |t| == 16
    && t[0] as int == Digit(s, 0) + 38 * Carry(s, 16)
    && forall k :: 1 <= k < 16 ==> t[k] as int == Digit(s, k)
  }

  /** A carry pass takes the multiple of 2^256 off the value and folds it back as 38:
      the value changes by exactly -2P times the carry out of the top limb. */
  lemma CarriedValue(s: seq<i64>, t: seq<i64>) returns (low: int)
    requires Carried(s, t)
    ensures 0 <= low < TWO256
    ensures Value(s) == low + Carry(s, 16) * TWO256
    ensures Value(t) == low + Carry(s, 16) * 38
    ensures Value(t) == Value(s) - 2 * P * Carry(s, 16)
  {
    Weight16();
    var first := t[0] as int - 38 * Carry(s, 16);
    var d := t[0 := first as i64];
    CarrySplits(s, d, 16);
    DigitsRange(d, 16);
    ValueUpdate(t, 0, first as i64, 16);
    low := Value(d);
  }

  lemma FirstPassBound(s: seq<i64>, t: seq<i64>)
    requires |s| == 16 && Bounded(s, LIMB_MAX) && Carried(s, t)
    ensures Bounded(t, LIMB_MAX)
  {
    CarryBound(s, 16);
  }

  /** Two carry passes leave reduced limbs and a value below 2^256 in the same residue class. */
  lemma TwoPasses(s: seq<i64>, t: seq<i64>, u: seq<i64>)
    requires |s| == 16 && Bounded(s, LIMB_MAX) && Carried(s, t) && Carried(t, u)
    ensures Reduced(u)
    ensures 0 <= Value(u) < TWO256
    ensures exists k :: Value(u) == Value(s) - 2 * P * k
    ensures Value(u) % P == Value(s) % P
  {
    CarryBound(s, 16);
    var low := CarriedValue(s, t);
    var low' := CarriedValue(t, u);
    var k := Carry(s, 16) + Carry(t, 16);
    assert -1 <= Carry(t, 16) <= 1;
    assert Value(u) == Value(s) - 2 * P * k;
    ModShiftIs(Value(s), Value(u), 2 * k, P);
  }

  /** Once the value lies in [0, 2^256), a carry pass leaves its digits. */
  lemma LastPass(u: seq<i64>, v: seq<i64>)
    requires Carried(u, v) && 0 <= Value(u) < TWO256
    ensures Digits(v) && Value(v) == Value(u)
  {
    var low := CarriedValue(u, v);
    assert Carry(u, 16) == 0;
  }

  lemma CarryStep(s: seq<i64>, i: nat)
    requires i < |s|
    ensures Carry(s, i + 1) == (s[i] as int + Carry(s, i)) / RADIX
    ensures Digit(s, i) == s[i] as int + Carry(s, i) - Carry(s, i + 1) * RADIX
    ensures Carry(s, 0) == 0
  {
  }

  method Car25519(o: array<i64>)
    requires o.Length == 16 && Bounded(o[..], LIMB_MAX)
    modifies o
    ensures Carried(old(o[..]), o[..])
  {
    hide Carry, Digit;
    ghost var s := o[..];
    var i := 0;
    CarryStep(s, 0);
    while i < 16
      invariant 0 <= i <= 16
      invariant forall k :: i < k < 16 ==> o[k] == s[k]
      invariant i < 16 ==> o[i] as int == s[i] as int + Carry(s, i)
      invariant forall k :: 1 <= k < i ==> o[k] as int == Digit(s, k)
      invariant i > 0 ==> o[0] as int == Digit(s, 0) + if i == 16 then 38 * Carry(s, 16) else 0
    {
      CarryBound(s, i);
      CarryBound(s, i + 1);
      CarryStep(s, i);
      var last: i64 := if i == 15 then 1 else 0;
      o[i] := o[i] + 65536;
      var c := Shr16(o[i]);
      assert c as int - 1 == Carry(s, i + 1);
      var next := if i < 15 then i + 1 else 0;
      o[next] := o[next] + (c - 1 + 37 * (c - 1) * last);
      o[i] := o[i] - c * 65536;
      i := i + 1;
    }
  }

  lemma MaskedSwap(x: int, y: int)
    ensures XorInt(x, AndInt(-1, XorInt(x, y))) == y
    ensures XorInt(y, AndInt(-1, XorInt(x, y))) == x
    ensures XorInt(x, AndInt(0, XorInt(x, y))) == x
    ensures XorInt(y, AndInt(0, XorInt(x, y))) == y
    ensures XorInt(x, x) == 0
  {
    AndMask(XorInt(x, y));
    XorCancels(x, y);
    XorCommutes(x, y);
    XorCancels(y, x);
    XorZero(x);
    XorZero(y);
    XorSelf(x);
  }

  /** Swaps p and q if b is 1 and leaves them alone if b is 0. */
  method Sel25519(p: array<i64>, q: array<i64>, b: i64)
    requires p.Length == q.Length == 16 && 0 <= b <= 1
    modifies p, q
    ensures p[..] == if b == 1 then old(q[..]) else old(p[..])
    ensures q[..] == if b == 1 then old(p[..]) else old(q[..])
  {
    hide Xor, And, XorInt, AndInt;
    ghost var sp, sq := p[..], q[..];
    var c := Not(b - 1);
    var i := 0;
    while i < 16
      invariant 0 <= i <= 16
      invariant forall k :: i <= k < 16 ==> p[k] == sp[k] && q[k] == sq[k]
      invariant forall k :: 0 <= k < i ==> p[k] == if b == 1 then sq[k] else sp[k]
      invariant forall k :: 0 <= k < i ==> q[k] == if b == 1 then sp[k] else sq[k]
    {
      MaskedSwap(p[i] as int, q[i] as int);
      var t := And(c, Xor(p[i], q[i]));
      p[i] := Xor(p[i], t);
      q[i] := Xor(q[i], t);
      i := i + 1;
    }
  }

  /** o = a + b, limb by limb. */
  method A(o: array<i64>, a: array<i64>, b: array<i64>, ghost m: int)
    requires o.Length == 16 && Within(a, m) && Within(b, m) && 0 <= 2 * m <= LIMB_MAX
    modifies o
    ensures forall k :: 0 <= k < 16 ==> o[k] as int == old(a[k]) as int + old(b[k]) as int
    ensures Within(o, 2 * m)
    ensures Residue(o) == Add(old(Residue(a)), old(Residue(b)))
    ensures Value(o[..]) == Value(old(a[..])) + Value(old(b[..]))
  {
    ghost var sa, sb := a[..], b[..];
    var i := 0;
    while i < 16
      invariant 0 <= i <= 16
      invariant forall k :: i <= k < 16 ==> a[k] == sa[k] && b[k] == sb[k]
      invariant forall k :: 0 <= k < i ==> o[k] as int == sa[k] as int + sb[k] as int
    {
      o[i] := a[i] + b[i];
      i := i + 1;
    }
    AddMod(Value(sa), Value(sb), P);
    ValueLinear(o[..], sa, sb, 1, 16);
  }

  /** o = a - b, limb by limb. */
  method Z(o: array<i64>, a: array<i64>, b: array<i64>, ghost m: int)
    requires o.Length == 16 && Within(a, m) && Within(b, m) && 0 <= 2 * m <= LIMB_MAX
    modifies o
    ensures forall k :: 0 <= k < 16 ==> o[k] as int == old(a[k]) as int - old(b[k]) as int
    ensures Within(o, 2 * m)
    ensures Residue(o) == Sub(old(Residue(a)), old(Residue(b)))
    ensures Value(o[..]) == Value(old(a[..])) - Value(old(b[..]))
  {
    ghost var sa, sb := a[..], b[..];
    var i := 0;
    while i < 16
      invariant 0 <= i <= 16
      invariant forall k :: i <= k < 16 ==> a[k] == sa[k] && b[k] == sb[k]
      invariant forall k :: 0 <= k < i ==> o[k] as int == sa[k] as int - sb[k] as int
    {
      o[i] := a[i] - b[i];
      i := i + 1;
    }
    SubMod(Value(sa), Value(sb), P);
    ValueLinear(o[..], sa, sb, -1, 16);
  }

  /** Bytes 2i and 2i+1 make up limb i. */
  ghost predicate Paired(b: seq<u8>, t: seq<i64>) {
    |b| == 32 && |t| == 16 && forall i :: 0 <= i < 16 ==> t[i] as int == b[2 * i] as int + 256 * b[2 * i + 1] as int
  }

  lemma PairValue(x: u8, y: u8)
    ensures LittleEndian([x, y]) == x as int + 256 * y as int
  {
    assert [x, y][1..] == [y];
    assert LittleEndian([y]) == y as int + 256 * LittleEndian([y][1..]);
  }

  lemma {:induction false} Pow256(n: nat)
    ensures Pow(256, 2 * n) == Weight(n)
  {
    if n == 0 {
    } else {
      Pow256(n - 1);
      assert Pow(256, 2 * n) == 256 * (256 * Pow(256, 2 * n - 2));
    }
  }

  lemma AppendPair(low: seq<u8>, x: u8, y: u8, n: nat)
    requires |low| == 2 * n
    ensures LittleEndian(low + [x, y]) == LittleEndian(low) + (x as int + 256 * y as int) * Weight(n)
  {
    LittleEndianConcat(low, [x, y]);
    PairValue(x, y);
    Pow256(n);
  }

  lemma {:induction false} PairedValue(b: seq<u8>, t: seq<i64>, n: nat)
    requires Paired(b, t) && n <= 16
    ensures LittleEndian(b[..2 * n]) == ValueTo(t, n)
  {
    if n == 0 {
    } else {
      var x, y := b[2 * (n - 1)], b[2 * (n - 1) + 1];
      PairedValue(b, t, n - 1);
      assert b[..2 * n] == b[..2 * (n - 1)] + [x, y];
      AppendPair(b[..2 * (n - 1)], x, y, n - 1);
    }
  }

  lemma TopBit(s: seq<i64>, t: seq<i64>)
    requires |s| == |t| == 16 && Digits(s) && t == s[15 := t[15]] && t[15] as int == s[15] as int % 32768
    ensures Digits(t) && Value(t) == Value(s) % TWO255
  {
    ValueUpdate(s, 15, t[15], 16);
    ValueToSame(s, t, 15);
    DigitsRange(t, 15);
    Weight16();
    WeightStep(15);
    var q := s[15] as int / 32768;
    assert s[15] as int == q * 32768 + t[15] as int;
    assert Value(s) == q * TWO255 + Value(t);
    DivModUnique(Value(s), TWO255, q, Value(t));
  }

  /** Reads 32 little-endian bytes, ignoring the top bit. */
  method Unpack25519(o: array<i64>, n: array<u8>)
    requires o.Length == 16 && n.Length == 32
    modifies o
    ensures Within(o, TIGHT)
    ensures Value(o[..]) == LittleEndian(n[..]) % TWO255
  {
    var i := 0;
    while i < 16
      invariant 0 <= i <= 16
      invariant forall k :: 0 <= k < i ==> o[k] as int == n[2 * k] as int + 256 * n[2 * k + 1] as int
    {
      o[i] := n[2 * i] as i64 + n[2 * i + 1] as i64 * 256;
      i := i + 1;
    }
    ghost var s := o[..];
    PairedValue(n[..], s, 16);
    assert n[..][..32] == n[..];
    MasksAreResidues(o[15]);
    o[15] := And(o[15], 0x7fff);
    TopBit(s, o[..]);
  }

  /** Limb i of the prime itself. */
  function PrimeLimb(i: nat): int {
    if i == 0 then 0xffed else if i < 15 then 0xffff else 0x7fff
  }

  ghost function PrimeTo(n: nat): int {
    if n == 0 then 0 else PrimeTo(n - 1) + PrimeLimb(n - 1) * Weight(n - 1)
  }

  lemma {:induction false} PrimeLimbsBelow(n: nat)
    requires 1 <= n <= 15
    ensures PrimeTo(n) == Weight(n) - 19
  {
    if n == 1 {
      assert PrimeTo(1) == PrimeTo(0) + 0xffed * Weight(0);
      assert Weight(1) == RADIX * Weight(0);
    } else {
      PrimeLimbsBelow(n - 1);
      WeightStep(n - 1);
    }
  }

  lemma PrimeLimbs()
    ensures PrimeTo(16) == P
  {
    PrimeLimbsBelow(15);
    Weight16();
    WeightStep(15);
  }

  /** Limbs 0..i of m hold t minus the prime; all but the last are already digits. */
  ghost predicate Borrowed(m: seq<i64>, t: seq<i64>, i: nat) {
    && |m| == |t| == 16 && i < 16
    && (forall k :: 0 <= k < i ==> 0 <= m[k] as int < RADIX)
    && -RADIX <= m[i] as int < RADIX
    && ValueTo(m, i + 1) == ValueTo(t, i + 1) - PrimeTo(i + 1)
  }

  /** Moving a borrow from limb i-1 to limb i keeps the value. */
  lemma BorrowMoves(m: seq<i64>, i: nat, x: i64, y: i64, borrow: int)
    requires 0 < i < |m| && y as int == m[i - 1] as int + RADIX * borrow
    ensures ValueTo(m[i := x][i - 1 := y], i + 1) == ValueTo(m, i) + (x as int + borrow) * Weight(i)
  {
    var mid := m[i := x];
    ValueToSame(mid, m, i);
    ValueUpdate(mid, i - 1, y, i + 1);
    WeightStep(i - 1);
    var w := Weight(i - 1);
    assert (y as int - mid[i - 1] as int) * w == borrow * (RADIX * w);
  }

  lemma DistributeSub(x: int, y: int, z: int)
    ensures (x - y) * z == x * z - y * z
  {
  }

  lemma BorrowValue(m: seq<i64>, t: seq<i64>, i: nat, x: i64, y: i64, borrow: int)
    requires 0 < i < 16 && |m| == |t| == 16
    requires ValueTo(m, i) == ValueTo(t, i) - PrimeTo(i)
    requires y as int == m[i - 1] as int + RADIX * borrow
    requires x as int + borrow == t[i] as int - PrimeLimb(i)
    ensures ValueTo(m[i := x][i - 1 := y], i + 1) == ValueTo(t, i + 1) - PrimeTo(i + 1)
  {
    BorrowMoves(m, i, x, y, borrow);
    DistributeSub(t[i] as int, PrimeLimb(i), Weight(i));
  }

  lemma BorrowBit(z: int)
    requires -RADIX <= z < RADIX
    ensures z % RADIX == z + RADIX * (z / RADIX % 2)
  {
  }

  /** Limb i pays for the borrow of limb i-1, which keeps its digit. */
  lemma BorrowStep(m: seq<i64>, t: seq<i64>, i: nat, x: i64, y: i64)
    requires 0 < i < 16 && Digits(t) && Borrowed(m, t, i - 1)
    requires x as int == t[i] as int - PrimeLimb(i) - m[i - 1] as int / RADIX % 2
    requires y as int == m[i - 1] as int % RADIX
    ensures Borrowed(m[i := x][i - 1 := y], t, i)
  {
    var borrow := m[i - 1] as int / RADIX % 2;
    BorrowBit(m[i - 1] as int);
    BorrowValue(m, t, i, x, y, borrow);
  }

  /** With a low part below its weight the top limb decides the sign. */
  lemma SignOfTop(low: int, top: int, w: int)
    requires 0 <= low < w
    ensures low + top * w >= 0 <==> top >= 0
  {
    if top < 0 {
      MulMono(top, -1, w);
    } else {
      MulMono(0, top, w);
    }
  }

  /** The sign of the last limb tells whether the prime could be taken off. */
  lemma BorrowSign(m: seq<i64>, t: seq<i64>)
    requires Digits(t) && Borrowed(m, t, 15)
    ensures Value(m) == Value(t) - P
    ensures m[15] >= 0 <==> Value(t) >= P
    ensures m[15] >= 0 ==> Digits(m)
  {
    hide Weight, PrimeTo;
    PrimeLimbs();
    DigitsRange(m, 15);
    assert Value(m) == ValueTo(m, 15) + m[15] as int * Weight(15);
    hide ValueTo;
    SignOfTop(ValueTo(m, 15), m[15] as int, Weight(15));
  }

  lemma TopBorrowBit(m: seq<i64>, t: seq<i64>)
    requires Borrowed(m, t, 15)
    ensures m[15] as int / RADIX % 2 == if m[15] < 0 then 1 else 0
  {
    hide ValueTo, PrimeTo;
  }

  lemma FirstLimb(m: seq<i64>, t: seq<i64>)
    requires |m| == |t| == 16 && Digits(t) && m[0] as int == t[0] as int - 0xffed
    ensures Borrowed(m, t, 0)
  {
    assert ValueTo(m, 1) == ValueTo(m, 0) + m[0] as int * Weight(0);
    assert ValueTo(t, 1) == ValueTo(t, 0) + t[0] as int * Weight(0);
    assert PrimeTo(1) == PrimeTo(0) + 0xffed * Weight(0);
  }

  /** m = t - P, and b = 1 iff that is negative. */
  method SubtractPrime(m: array<i64>, t: array<i64>) returns (b: i64)
    requires m.Length == t.Length == 16 && m != t && Digits(t[..])
    modifies m
    ensures Value(m[..]) == Value(t[..]) - P
    ensures b == if Value(t[..]) >= P then 0 else 1
    ensures b == 0 ==> Digits(m[..])
  {
    hide And, Borrowed, Value;
    ghost var s := t[..];
    m[0] := t[0] - 0xffed;
    FirstLimb(m[..], s);
    var i := 1;
    while i < 15
      invariant 1 <= i <= 15 && t[..] == s
      invariant Borrowed(m[..], s, i - 1)
    {
      ghost var was := m[..];
      MasksAreResidues(Shr16(m[i - 1]));
      MasksAreResidues(m[i - 1]);
      m[i] := t[i] - 0xffff - And(Shr16(m[i - 1]), 1);
      m[i - 1] := And(m[i - 1], 0xffff);
      assert m[..] == was[i := m[i]][i - 1 := m[i - 1]];
      BorrowStep(was, s, i, m[i], m[i - 1]);
      i := i + 1;
    }
    ghost var was := m[..];
    MasksAreResidues(Shr16(m[14]));
    MasksAreResidues(m[14]);
    m[15] := t[15] - 0x7fff - And(Shr16(m[14]), 1);
    b := And(Shr16(m[15]), 1);
    MasksAreResidues(Shr16(m[15]));
    m[14] := And(m[14], 0xffff);
    assert m[..] == was[15 := m[15]][14 := m[14]];
    BorrowStep(was, s, 15, m[15], m[14]);
    TopBorrowBit(m[..], s);
    BorrowSign(m[..], s);
  }

  /** The three carry passes of pack25519 leave the digits of a representative below 2^256. */
  method CarryThrice(t: array<i64>)
    requires t.Length == 16 && Bounded(t[..], LIMB_MAX)
    modifies t
    ensures Digits(t[..]) && 0 <= Value(t[..]) < TWO256
    ensures Value(t[..]) % P == Value(old(t[..])) % P
  {
    hide Carried, Value;
    ghost var t0 := t[..];
    Car25519(t);
    ghost var t1 := t[..];
    FirstPassBound(t0, t1);
    Car25519(t);
    ghost var t2 := t[..];
    TwoPasses(t0, t1, t2);
    assert Bounded(t2, LIMB_MAX);
    Car25519(t);
    LastPass(t2, t[..]);
  }

  /** The two conditional subtractions of pack25519. */
  method SubtractTwice(t: array<i64>)
    requires t.Length == 16 && Digits(t[..]) && 0 <= Value(t[..]) < TWO256
    modifies t
    ensures Digits(t[..]) && Value(t[..]) == Value(old(t[..])) % P
  {
    ghost var v := Value(t[..]);
    var m := new i64[16];
    var j := 0;
    while j < 2
      invariant 0 <= j <= 2 && Digits(t[..])
      invariant Value(t[..]) % P == v % P
      invariant 0 <= Value(t[..]) < TWO256 - j * P || 0 <= Value(t[..]) < P
    {
      ghost var was := t[..];
      var b := SubtractPrime(m, t);
      ModShiftIs(Value(was), Value(m[..]), 1, P);
      Sel25519(t, m, 1 - b);
      j := j + 1;
    }
    ModSmall(Value(t[..]), P);
  }

  /** Writes the unique representative in [0, P) of the residue class of n, for any limbs
      that leave room for the carries. */
  method Pack25519(o: array<u8>, n: array<i64>)
    requires o.Length == 32 && Within(n, LIMB_MAX)
    modifies o
    ensures o[..] == ToLittleEndian(Residue(n), 32)
  {
    var t := new i64[16];
    var i := 0;
    while i < 16
      invariant 0 <= i <= 16
      invariant forall k :: 0 <= k < i ==> t[k] == n[k]
    {
      t[i] := n[i];
      i := i + 1;
    }
    assert t[..] == n[..];
    CarryThrice(t);
    SubtractTwice(t);
    ghost var r := t[..];
    i := 0;
    while i < 16
      invariant 0 <= i <= 16 && t[..] == r
      invariant forall k :: 0 <= k < i ==> t[k] as int == o[2 * k] as int + 256 * o[2 * k + 1] as int
    {
      MasksAreResidues(t[i]);
      o[2 * i] := And(t[i], 0xff) as u8;
      o[2 * i + 1] := (t[i] / 256) as u8;
      i := i + 1;
    }
    PairedValue(o[..], t[..], 16);
    assert o[..][..32] == o[..];
    LittleEndianRoundTrip(o[..]);
  }

  /** Unpacking an encoding and packing the result reduces it: the top bit is ignored and
      the rest taken modulo P. */
  method Canonicalize(o: array<u8>, n: array<u8>)
    requires o.Length == n.Length == 32
    modifies o
    ensures o[..] == ToLittleEndian(LittleEndian(old(n[..])) % TWO255 % P, 32)
  {
    var t := new i64[16];
    Unpack25519(t, n);
    Pack25519(o, t);
  }

  /** Packing after unpacking gives an encoding back exactly when it is the number of a
      residue below P. */
  lemma CanonicalIff(n: seq<u8>)
    requires |n| == 32
    ensures ToLittleEndian(LittleEndian(n) % TWO255 % P, 32) == n <==> LittleEndian(n) < P
  {
    var v := LittleEndian(n);
    var r := v % TWO255 % P;
    Pow256(16);
    Weight16();
    hide LittleEndian, ToLittleEndian;
    if v < P {
      ModSmall(v, TWO255);
      ModSmall(v, P);
      LittleEndianRoundTrip(n);
    } else {
      ToLittleEndianRoundTrip(r, 32);
    }
  }

  /** The largest limb a factor may have: sixteen products of two such limbs, and 38 times
      as much again, still leave room for the carries. */
  const FACTOR_MAX: int := 0x400_0000
  const PRODUCT_MAX: int := 0x10_0000_0000_0000

  /** Column i+j of the schoolbook product grows by one partial product. */
  lemma ProductStep(t: seq<i64>, i: nat, j: nat, x: i64, a: int, b: int)
    requires i + j < |t| && x as int == t[i + j] as int + a * b
    ensures Value(t[i + j := x]) == Value(t) + (a * Weight(i)) * (b * Weight(j))
  {
    ValueUpdate(t, i + j, x, |t|);
    PowAdd(RADIX, i, j);
    assert Weight(i + j) == Weight(i) * Weight(j);
    hide Weight;
    Interchange(a, b, Weight(i), Weight(j));
  }

  lemma ProductBound(x: int, y: int)
    requires -FACTOR_MAX <= x <= FACTOR_MAX && -FACTOR_MAX <= y <= FACTOR_MAX
    ensures -PRODUCT_MAX <= x * y <= PRODUCT_MAX
  {
    var m, n := if x < 0 then -x else x, if y < 0 then -y else y;
    MulMono(m, FACTOR_MAX, n);
    MulMono(n, FACTOR_MAX, FACTOR_MAX);
    assert x * y == m * n || x * y == -(m * n);
  }

  /** Row i of the schoolbook product: t += x * 2^(16 i) * b. */
  method AddRow(t: array<i64>, i: nat, x: i64, b: array<i64>)
    requires t.Length == 31 && b.Length == 16 && t != b && i < 16
    requires -FACTOR_MAX <= x as int <= FACTOR_MAX && Bounded(b[..], FACTOR_MAX)
    requires Bounded(t[..], i * PRODUCT_MAX)
    modifies t
    ensures Value(t[..]) == Value(old(t[..])) + (x as int * Weight(i)) * Value(b[..])
    ensures Bounded(t[..], (i + 1) * PRODUCT_MAX)
  {
    ghost var s, sb, row := t[..], b[..], x as int * Weight(i);
    var j := 0;
    while j < 16
      invariant 0 <= j <= 16 && b[..] == sb
      invariant Value(t[..]) == Value(s) + row * ValueTo(sb, j)
      invariant forall k :: i + j <= k < 31 ==> t[k] == s[k]
      invariant Bounded(t[..], (i + 1) * PRODUCT_MAX)
    {
      ProductBound(x as int, b[j] as int);
      ghost var was := t[..];
      t[i + j] := t[i + j] + x * b[j];
      assert t[..] == was[i + j := t[i + j]];
      ProductStep(was, i, j, t[i + j], x as int, b[j] as int);
      Distribute(row, ValueTo(sb, j), b[j] as int * Weight(j));
      j := j + 1;
    }
  }

  lemma NoRows(a: seq<i64>)
    requires |a| == 16
    ensures ValueTo(a, 0) == 0 && ValueTo(a, 16) == Value(a)
  {
  }

  lemma NextRow(a: seq<i64>, i: nat, vb: int)
    requires i < |a|
    ensures ValueTo(a, i + 1) * vb == ValueTo(a, i) * vb + (a[i] as int * Weight(i)) * vb
  {
    hide Weight;
    assert ValueTo(a, i + 1) == ValueTo(a, i) + a[i] as int * Weight(i);
    hide ValueTo;
    Distribute(vb, ValueTo(a, i), a[i] as int * Weight(i));
  }

  lemma {:induction false} ZeroValue(t: seq<i64>, n: nat)
    requires n <= |t| && forall k :: 0 <= k < n ==> t[k] == 0
    ensures ValueTo(t, n) == 0
  {
    if n == 0 {
    } else {
      ZeroValue(t, n - 1);
    }
  }

  lemma ZeroColumns(t: seq<i64>)
    requires |t| == 31 && forall k :: 0 <= k < 31 ==> t[k] == 0
    ensures Value(t) == 0
  {
    ZeroValue(t, 31);
  }

  /** t[0..31) = a * b as polynomials in 2^16: the double loop of M. */
  method Schoolbook(t: array<i64>, a: array<i64>, b: array<i64>)
    requires t.Length == 31 && a.Length == b.Length == 16 && t != a && t != b
    requires Bounded(a[..], FACTOR_MAX) && Bounded(b[..], FACTOR_MAX)
    modifies t
    ensures Value(t[..]) == Value(a[..]) * Value(b[..])
    ensures Bounded(t[..], 16 * PRODUCT_MAX)
  {
    ghost var sa, sb := a[..], b[..];
    NoRows(sa);
    hide Value, ValueTo, Weight;
    var i := 0;
    while i < 31
      invariant 0 <= i <= 31
      invariant forall k :: 0 <= k < i ==> t[k] == 0
    {
      t[i] := 0;
      i := i + 1;
    }
    ZeroColumns(t[..]);
    i := 0;
    while i < 16
      invariant 0 <= i <= 16 && a[..] == sa && b[..] == sb
      invariant Value(t[..]) == ValueTo(sa, i) * Value(sb)
      invariant Bounded(t[..], i * PRODUCT_MAX)
    {
      AddRow(t, i, a[i], b);
      NextRow(sa, i, Value(sb));
      i := i + 1;
    }
  }

  lemma Swap3(x: int, y: int, z: int)
    ensures x * (y * z) == y * (x * z)
  {
  }

  /** Limbs 16 to 30 are worth 2^256 times their own value. */
  lemma {:induction false} HighHalf(t: seq<i64>, n: nat)
    requires |t| == 31 && n <= 15
    ensures ValueTo(t, 16 + n) == ValueTo(t, 16) + Weight(16) * ValueTo(t[16..], n)
  {
    if n == 0 {
    } else {
      HighHalf(t, n - 1);
      PowAdd(RADIX, 16, n - 1);
      Distribute(Weight(16), ValueTo(t[16..], n - 1), t[15 + n] as int * Weight(n - 1));
      Swap3(t[15 + n] as int, Weight(16), Weight(n - 1));
    }
  }

  /** Folding the high half back as 38 changes the value by a multiple of P. */
  lemma FoldValue(t: seq<i64>, o: seq<i64>) returns (high: int)
    requires |t| == 31 && |o| == 16 && o[15] == t[15]
    requires forall k :: 0 <= k < 15 ==> o[k] as int == t[k] as int + 38 * t[k + 16] as int
    ensures Value(o) == Value(t) - 2 * P * high
  {
    high := ValueTo(t[16..], 15);
    HighHalf(t, 15);
    Weight16();
    ValueLinear(o, t, t[16..], 38, 15);
    assert ValueTo(o, 16) == ValueTo(o, 15) + o[15] as int * Weight(15);
    assert ValueTo(t, 16) == ValueTo(t, 15) + t[15] as int * Weight(15);
  }

  lemma FoldBound(t: seq<i64>, o: seq<i64>)
    requires |t| == 31 && |o| == 16 && o[15] == t[15] && Bounded(t, 16 * PRODUCT_MAX)
    requires forall k :: 0 <= k < 15 ==> o[k] as int == t[k] as int + 38 * t[k + 16] as int
    ensures Bounded(o, LIMB_MAX)
  {
    forall k | 0 <= k < 15
      ensures -LIMB_MAX <= o[k] as int <= LIMB_MAX
    {
      assert -16 * PRODUCT_MAX <= t[k + 16] as int <= 16 * PRODUCT_MAX;
    }
  }

  /** The last two loops of M before its carries: folds columns 16 to 30 back into the lower
      ones and copies those out. */
  method FoldColumns(o: array<i64>, t: array<i64>)
    requires o.Length == 16 && t.Length == 31 && o != t && Bounded(t[..], 16 * PRODUCT_MAX)
    modifies o, t
    ensures Bounded(o[..], LIMB_MAX)
    ensures Value(o[..]) % P == Value(old(t[..])) % P
  {
    ghost var t0 := t[..];
    var i := 0;
    while i < 15
      invariant 0 <= i <= 15
      invariant forall k :: i <= k < 31 ==> t[k] == t0[k]
      invariant forall k :: 0 <= k < i ==> t[k] as int == t0[k] as int + 38 * t0[k + 16] as int
    {
      t[i] := t[i] + 38 * t[i + 16];
      i := i + 1;
    }
    ghost var t1 := t[..];
    i := 0;
    while i < 16
      invariant 0 <= i <= 16 && t[..] == t1
      invariant forall k :: 0 <= k < i ==> o[k] == t1[k]
    {
      o[i] := t[i];
      i := i + 1;
    }
    hide Value;
    FoldBound(t0, o[..]);
    ghost var high := FoldValue(t0, o[..]);
    ModShiftIs(Value(t0), Value(o[..]), 2 * high, P);
  }

  /** The two carry passes of M. */
  method CarryTwice(o: array<i64>)
    requires o.Length == 16 && Bounded(o[..], LIMB_MAX)
    modifies o
    ensures Reduced(o[..])
    ensures Value(o[..]) % P == Value(old(o[..])) % P
    ensures 0 <= Value(o[..]) < TWO256
  {
    ghost var s := o[..];
    Car25519(o);
    ghost var t := o[..];
    FirstPassBound(s, t);
    Car25519(o);
    TwoPasses(s, t, o[..]);
  }

  /** o = a * b in the field, for factors of magnitude up to 2^26, whatever array o is. */
  method M(o: array<i64>, a: array<i64>, b: array<i64>)
    requires o.Length == 16 && Within(a, FACTOR_MAX) && Within(b, FACTOR_MAX)
    modifies o
    ensures Reduced(o[..]) && Within(o, TIGHT)
    ensures Residue(o) == Mul(old(Residue(a)), old(Residue(b)))
  {
    hide Value;
    MulMod(Value(a[..]), Value(b[..]), P);
    var t := new i64[31];
    Schoolbook(t, a, b);
    FoldColumns(o, t);
    CarryTwice(o);
  }

  method S(o: array<i64>, a: array<i64>)
    requires o.Length == 16 && Within(a, FACTOR_MAX)
    modifies o
    ensures Reduced(o[..]) && Within(o, TIGHT)
    ensures Residue(o) == Sq(old(Residue(a)))
  {
    M(o, a, a);
  }

  /** The residue of limbs that are digits. */
  lemma ResidueOf(a: array<i64>, s: seq<i64>)
    requires a[..] == s && |s| == 16 && Digits(s)
    ensures Within(a, TIGHT) && Residue(a) == Value(s) % P
  {
  }

  lemma CopyOf(a: array<i64>, b: array<i64>, bound: int)
    requires a[..] == b[..] && Within(b, bound)
    ensures Within(a, bound) && Residue(a) == Residue(b)
  {
  }

  /** The exponent collected by the square-and-multiply loop when step a is next:
      binary ones, except that steps 4 and 2 only square. */
  function InvExponent(a: int): int
    requires -1 <= a <= 253
  {
    if a >= 4 then Pow(2, 254 - a) - 1
    else if a == 3 then Pow(2, 251) - 2
    else if a == 2 then Pow(2, 252) - 3
    else if a == 1 then Pow(2, 253) - 6
    else if a == 0 then Pow(2, 254) - 11
    else Pow(2, 255) - 21
  }

  lemma InvExponentStep(a: int)
    requires 0 <= a <= 253
    ensures InvExponent(a) >= 1
    ensures InvExponent(a - 1) == 2 * InvExponent(a) + if a != 2 && a != 4 then 1 else 0
  {
    assert Pow(2, 5) == 32;
    PowAdd(2, 5, 246);
    PowPositive(2, 246);
    PowPositive(2, 253 - a);
    assert Pow(2, 254 - a) == 2 * Pow(2, 253 - a);
    assert Pow(2, 255 - a) == 2 * Pow(2, 254 - a);
  }

  lemma TwoTo60()
    ensures Pow(2, 15) == 0x8000
    ensures Pow(2, 60) == 0x1000_0000_0000_0000
  {
    assert Pow(2, 3) == 8;
    PowAdd(2, 3, 3);
    PowAdd(2, 6, 6);
    PowAdd(2, 12, 3);
    PowAdd(2, 15, 15);
    PowAdd(2, 30, 30);
  }

  lemma InvExponentEnd()
    ensures InvExponent(-1) == P - 2
  {
    TwoTo60();
    PowAdd(2, 60, 60);
    PowAdd(2, 120, 120);
    PowAdd(2, 240, 15);
  }

  lemma ResidueOfResidue(i: array<i64>)
    ensures Residue(i) % P == Residue(i)
  {
    hide Value;
    ModSmall(Residue(i), P);
  }

  lemma FirstPower(i: array<i64>)
    ensures Power(Residue(i), 1) == Residue(i)
  {
    assert Pow(Residue(i), 1) == Residue(i);
    ResidueOfResidue(i);
  }

  lemma TightFits(c: array<i64>)
    ensures Within(c, TIGHT) ==> Within(c, FACTOR_MAX)
  {
  }

  lemma ResidueRange(a: array<i64>)
    requires a.Length == 16
    ensures 0 <= Residue(a) < P
  {
  }

  lemma InverseOfResidue(a: int)
    requires 0 <= a < P
    ensures if a == 0 then Power(a, P - 2) == 0 else Mul(a, Power(a, P - 2)) == 1
  {
    PrimeCertificate.PIsPrime();
    hide Primes.Prime, Pow;
    Primes.InverseOrZero(a, P);
  }

  /** o = i^(P-2) in the field: the inverse of i, by Fermat's theorem, and 0 for 0. */
  method Inv25519(o: array<i64>, i: array<i64>)
    requires o.Length == 16 && Within(i, FACTOR_MAX)
    modifies o
    ensures Reduced(o[..]) && Within(o, TIGHT)
    ensures Residue(o) == Power(old(Residue(i)), P - 2)
    ensures if old(Residue(i)) == 0 then Residue(o) == 0 else Mul(old(Residue(i)), Residue(o)) == 1
  {
    assert i.Length == 16;
    ResidueRange(i);
    InverseOfResidue(Residue(i));
    hide Value, Within, Reduced, Residue, Mul, Power;
    ghost var s, v := i[..], Residue(i);
    var c := new i64[16];
    var a := 0;
    while a < 16
      invariant 0 <= a <= 16 && i[..] == s
      invariant forall k :: 0 <= k < a ==> c[k] == s[k]
    {
      c[a] := i[a];
      a := a + 1;
    }
    assert c[..] == s;
    CopyOf(c, i, FACTOR_MAX);
    FirstPower(i);
    a := 253;
    while a >= 0
      invariant -1 <= a <= 253 && i[..] == s && Residue(i) == v && Within(i, FACTOR_MAX)
      invariant Within(c, if a < 253 then TIGHT else FACTOR_MAX)
      invariant a < 253 ==> Reduced(c[..])
      invariant InvExponent(a) >= 1
      invariant Residue(c) == Power(v, InvExponent(a))
    {
      InvExponentStep(a);
      PowDouble(v, InvExponent(a), P);
      TightFits(c);
      S(c, c);
      TightFits(c);
      if a != 2 && a != 4 {
        ResidueOfResidue(i);
        M(c, c, i);
      }
      a := a - 1;
    }
    InvExponentEnd();
    ghost var r := c[..];
    a := 0;
    while a < 16
      invariant 0 <= a <= 16 && c[..] == r
      invariant forall k :: 0 <= k < a ==> o[k] == r[k]
    {
      o[a] := c[a];
      a := a + 1;
    }
    assert o[..] == r;
    CopyOf(o, c, TIGHT);
  }

  const GF0: seq<i64> := [0, 0, 0, 0, 0, 0, 0, 0, 0, 0, 0, 0, 0, 0, 0, 0]
  const GF1: seq<i64> := [1, 0, 0, 0, 0, 0, 0, 0, 0, 0, 0, 0, 0, 0, 0, 0]

  lemma {:induction false} ZeroTail(s: seq<i64>, n: nat)
    requires 2 <= n <= |s| && forall k :: 2 <= k < n ==> s[k] == 0
    ensures ValueTo(s, n) == ValueTo(s, 2)
  {
    if n == 2 {
    } else {
      ZeroTail(s, n - 1);
    }
  }

  /** A number below 2^32 has two limbs. */
  lemma TwoLimbs(s: seq<i64>)
    requires |s| == 16 && Digits(s) && forall k :: 2 <= k < 16 ==> s[k] == 0
    ensures Value(s) == s[0] as int + 65536 * s[1] as int
    ensures Value(s) % P == Value(s)
  {
    ZeroTail(s, 16);
    assert ValueTo(s, 2) == ValueTo(s, 1) + s[1] as int * Weight(1);
    assert ValueTo(s, 1) == ValueTo(s, 0) + s[0] as int * Weight(0);
    assert Weight(1) == RADIX * Weight(0);
    ModSmall(Value(s), P);
  }

  /** The constants zero and one. */
  lemma ZeroAndOne()
    ensures Digits(GF0) && Value(GF0) % P == 0
    ensures Digits(GF1) && Value(GF1) % P == 1
  {
    hide Value;
    TwoLimbs(GF0);
    TwoLimbs(GF1);
  }

  /** A fresh limb array with the given contents, for the constants and local variables. */
  method NewGf(s: seq<i64>) returns (a: array<i64>)
    requires |s| == 16
    ensures fresh(a) && a.Length == 16 && a[..] == s
  {
    a := new i64[16];
    var i := 0;
    while i < 16
      invariant 0 <= i <= 16
      invariant forall k :: 0 <= k < i ==> a[k] == s[k]
    {
      a[i] := s[i];
      i := i + 1;
    }
    assert a[..] == s;
  }
}
