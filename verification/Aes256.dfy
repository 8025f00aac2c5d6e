/** AES-256 as FIPS 197 describes it: the cipher, its inverse, the equivalent inverse
    cipher and the key schedule, on states of sixteen bytes. */
module Aes256 {
  import opened AesField

  type Block = s: seq<byte> | |s| == 16 witness seq(16, _ => 0)
  type Schedule = w: seq<byte> | |w| == 240 witness seq(240, _ => 0)

  function Xor(s: Block, t: Block): Block {
    seq(16, i requires 0 <= i < 16 => s[i] ^ t[i])
  }

  function RoundKey(w: Schedule, r: nat): Block
    requires r <= 14
  {
    w[16 * r..16 * r + 16]
  }

  function SubBytes(s: Block): Block {
    seq(16, i requires 0 <= i < 16 => Sbox(s[i]))
  }

  function InvSubBytes(s: Block): Block {
    seq(16, i requires 0 <= i < 16 => InvSbox(s[i]))
  }

  /** Row r of the column-major state shifts left by r columns. */
  function ShiftRows(t: Block): Block {
    [t[0], t[5], t[10], t[15], t[4], t[9], t[14], t[3],
     t[8], t[13], t[2], t[7], t[12], t[1], t[6], t[11]]
  }

  function InvShiftRows(s: Block): Block {
    [s[0], s[13], s[10], s[7], s[4], s[1], s[14], s[11],
     s[8], s[5], s[2], s[15], s[12], s[9], s[6], s[3]]
  }

  /** The entries of a mixed column. */
  function Mix0(a: byte, b: byte, c: byte, d: byte): byte {
    Xtime(a) ^ Xtime(b) ^ b ^ c ^ d
  }

  function Mix1(a: byte, b: byte, c: byte, d: byte): byte {
    a ^ Xtime(b) ^ Xtime(c) ^ c ^ d
  }

  function Mix2(a: byte, b: byte, c: byte, d: byte): byte {
    a ^ b ^ Xtime(c) ^ Xtime(d) ^ d
  }

  function Mix3(a: byte, b: byte, c: byte, d: byte): byte {
    Xtime(a) ^ a ^ b ^ c ^ Xtime(d)
  }

  function Mix(j: nat, a: byte, b: byte, c: byte, d: byte): byte {
    if j == 0 then Mix0(a, b, c, d) else if j == 1 then Mix1(a, b, c, d)
    else if j == 2 then Mix2(a, b, c, d) else Mix3(a, b, c, d)
  }

  /** The first entry of an unmixed column; the others are the same with the column rotated. */
  function InvMix0(a: byte, b: byte, c: byte, d: byte): byte {
    GfMul(0x0e, a) ^ GfMul(0x0b, b) ^ GfMul(0x0d, c) ^ GfMul(0x09, d)
  }

  function InvMix1(a: byte, b: byte, c: byte, d: byte): byte {
    GfMul(0x09, a) ^ GfMul(0x0e, b) ^ GfMul(0x0b, c) ^ GfMul(0x0d, d)
  }

  function InvMix2(a: byte, b: byte, c: byte, d: byte): byte {
    GfMul(0x0d, a) ^ GfMul(0x09, b) ^ GfMul(0x0e, c) ^ GfMul(0x0b, d)
  }

  function InvMix3(a: byte, b: byte, c: byte, d: byte): byte {
    GfMul(0x0b, a) ^ GfMul(0x0d, b) ^ GfMul(0x09, c) ^ GfMul(0x0e, d)
  }

  function InvMix(j: nat, a: byte, b: byte, c: byte, d: byte): byte {
    if j == 0 then InvMix0(a, b, c, d) else if j == 1 then InvMix1(a, b, c, d)
    else if j == 2 then InvMix2(a, b, c, d) else InvMix3(a, b, c, d)
  }

  function MixColumns(s: Block): Block {
    seq(16, i requires 0 <= i < 16 =>
      var k := i / 4 * 4;
      Mix(i % 4, s[k], s[k + 1], s[k + 2], s[k + 3]))
  }

  function InvMixColumns(s: Block): Block {
    seq(16, i requires 0 <= i < 16 =>
      var k := i / 4 * 4;
      InvMix(i % 4, s[k], s[k + 1], s[k + 2], s[k + 3]))
  }

  // ---- MixColumns is undone ------------------------------------------------

  function Sum(p: byte, q: byte, r: byte, s: byte): byte {
    Plus(Plus(p, q), Plus(r, s))
  }

  lemma SumIsXor(p: byte, q: byte, r: byte, s: byte)
    ensures Sum(p, q, r, s) == p ^ q ^ r ^ s
  {
  }

  lemma AddRows(p: byte, q: byte, r: byte, s: byte, t: byte, u: byte, v: byte, w: byte)
    ensures Plus(Sum(p, q, r, s), Sum(t, u, v, w)) == Sum(Plus(p, t), Plus(q, u), Plus(r, v), Plus(s, w))
  {
    hide Plus;
    Exchange(Plus(p, q), Plus(r, s), Plus(t, u), Plus(v, w));
    Exchange(p, q, t, u);
    Exchange(r, s, v, w);
  }

  /** Sixteen summands, added row by row or column by column. */
  lemma Regroup(a0: byte, a1: byte, a2: byte, a3: byte, b0: byte, b1: byte, b2: byte, b3: byte,
                c0: byte, c1: byte, c2: byte, c3: byte, d0: byte, d1: byte, d2: byte, d3: byte)
    ensures Sum(Sum(a0, b0, c0, d0), Sum(a1, b1, c1, d1), Sum(a2, b2, c2, d2), Sum(a3, b3, c3, d3))
         == Sum(Sum(a0, a1, a2, a3), Sum(b0, b1, b2, b3), Sum(c0, c1, c2, c3), Sum(d0, d1, d2, d3))
  {
    hide Plus;
    AddRows(a0, b0, c0, d0, a1, b1, c1, d1);
    AddRows(a2, b2, c2, d2, a3, b3, c3, d3);
    AddRows(Plus(a0, a1), Plus(b0, b1), Plus(c0, c1), Plus(d0, d1),
            Plus(a2, a3), Plus(b2, b3), Plus(c2, c3), Plus(d2, d3));
  }

  lemma SumZeros(x: byte)
    ensures Sum(x, 0, 0, 0) == x
  {
  }

  lemma Spread(k: byte, p: byte, q: byte, r: byte, s: byte)
    ensures GfMul(k, Sum(p, q, r, s)) == Sum(GfMul(k, p), GfMul(k, q), GfMul(k, r), GfMul(k, s))
  {
    hide GfMul, Plus;
    GfMulAdditive(k, Plus(p, q), Plus(r, s));
    GfMulAdditive(k, p, q);
    GfMulAdditive(k, r, s);
  }

  function Triple(x: byte): byte {
    Xtime(x) ^ x
  }

  /** What the four rows make of the images of one byte: all but one column cancel. */
  lemma Unit0(x: byte)
    ensures Sum(TimesE(Xtime(x)), TimesB(x), TimesD(x), Times9(Triple(x))) == x
  {
  }

  lemma Unit1High(x: byte)
    ensures Plus(TimesE(Triple(x)), TimesB(Xtime(x))) == Xtime(Xtime(x))
  {
  }

  lemma Unit1Low(x: byte)
    ensures Plus(TimesD(x), Times9(x)) == Xtime(Xtime(x))
  {
  }

  lemma SelfCancel(x: byte)
    ensures Plus(x, x) == 0
  {
  }

  lemma Unit1(x: byte)
    ensures Sum(TimesE(Triple(x)), TimesB(Xtime(x)), TimesD(x), Times9(x)) == 0
  {
    Unit1High(x);
    Unit1Low(x);
    SelfCancel(Xtime(Xtime(x)));
    hide Plus, TimesE, TimesB, TimesD, Times9, Xtime;
  }

  lemma Unit2High(x: byte)
    ensures Plus(TimesE(x), TimesB(Triple(x))) == Xtime(Xtime(Xtime(Xtime(x)))) ^ Xtime(x) ^ x
  {
  }

  lemma Unit2Low(x: byte)
    ensures Plus(TimesD(Xtime(x)), Times9(x)) == Xtime(Xtime(Xtime(Xtime(x)))) ^ Xtime(x) ^ x
  {
  }

  lemma Unit2(x: byte)
    ensures Sum(TimesE(x), TimesB(Triple(x)), TimesD(Xtime(x)), Times9(x)) == 0
  {
    Unit2High(x);
    Unit2Low(x);
    SelfCancel(Xtime(Xtime(Xtime(Xtime(x)))) ^ Xtime(x) ^ x);
    hide Plus, TimesE, TimesB, TimesD, Times9, Xtime;
  }

  lemma Unit3High(x: byte)
    ensures Plus(TimesE(x), TimesB(x)) == Xtime(Xtime(x)) ^ x
  {
  }

  lemma Unit3Low(x: byte)
    ensures Plus(TimesD(Triple(x)), Times9(Xtime(x))) == Xtime(Xtime(x)) ^ x
  {
  }

  lemma Unit3(x: byte)
    ensures Sum(TimesE(x), TimesB(x), TimesD(Triple(x)), Times9(Xtime(x))) == 0
  {
    Unit3High(x);
    Unit3Low(x);
    SelfCancel(Xtime(Xtime(x)) ^ x);
    hide Plus, TimesE, TimesB, TimesD, Times9, Xtime;
  }

  /** The first row of MixColumns and InvMixColumns as folded sums. */
  lemma Mix0Sum(a: byte, b: byte, c: byte, d: byte)
    ensures Mix0(a, b, c, d) == Sum(Xtime(a), Triple(b), c, d)
  {
    hide Xtime;
    SumIsXor(Xtime(a), Triple(b), c, d);
  }

  lemma InvMix0Sum(a: byte, b: byte, c: byte, d: byte)
    ensures InvMix0(a, b, c, d) == Sum(GfMul(0x0e, a), GfMul(0x0b, b), GfMul(0x0d, c), GfMul(0x09, d))
  {
    hide GfMul;
    SumIsXor(GfMul(0x0e, a), GfMul(0x0b, b), GfMul(0x0d, c), GfMul(0x09, d));
  }

  /** Every row is the first one on the rotated column. */
  lemma MixRotates(a: byte, b: byte, c: byte, d: byte)
    ensures Mix1(a, b, c, d) == Mix0(b, c, d, a)
    ensures Mix2(a, b, c, d) == Mix0(c, d, a, b)
    ensures Mix3(a, b, c, d) == Mix0(d, a, b, c)
  {
    hide Xtime;
  }

  lemma InvMixRotates(a: byte, b: byte, c: byte, d: byte)
    ensures InvMix1(a, b, c, d) == InvMix0(b, c, d, a)
    ensures InvMix2(a, b, c, d) == InvMix0(c, d, a, b)
    ensures InvMix3(a, b, c, d) == InvMix0(d, a, b, c)
  {
    hide GfMul;
  }

  lemma RowE(a: byte, b: byte, c: byte, d: byte)
    ensures GfMul(0x0e, Mix0(a, b, c, d)) == Sum(TimesE(Xtime(a)), TimesE(Triple(b)), TimesE(c), TimesE(d))
  {
    hide Plus, Sum, GfMul, Xtime, TimesE, Triple, Mix0;
    Mix0Sum(a, b, c, d);
    Spread(0x0e, Xtime(a), Triple(b), c, d);
    ProductE(Xtime(a));
    ProductE(Triple(b));
    ProductE(c);
    ProductE(d);
  }

  lemma Rotate(p: byte, q: byte, r: byte, s: byte)
    ensures Sum(p, q, r, s) == Sum(s, p, q, r)
  {
    hide Plus;
    PlusCommutes(Plus(p, q), Plus(r, s));
    PlusCommutes(r, s);
    Exchange(s, r, p, q);
    PlusCommutes(r, q);
  }

  lemma RowB(a: byte, b: byte, c: byte, d: byte)
    ensures GfMul(0x0b, Mix0(b, c, d, a)) == Sum(TimesB(a), TimesB(Xtime(b)), TimesB(Triple(c)), TimesB(d))
  {
    hide Plus, Sum, GfMul, Xtime, TimesB, Triple, Mix0;
    Mix0Sum(b, c, d, a);
    Rotate(Xtime(b), Triple(c), d, a);
    Spread(0x0b, a, Xtime(b), Triple(c), d);
    ProductB(a);
    ProductB(Xtime(b));
    ProductB(Triple(c));
    ProductB(d);
  }

  lemma RowD(a: byte, b: byte, c: byte, d: byte)
    ensures GfMul(0x0d, Mix0(c, d, a, b)) == Sum(TimesD(a), TimesD(b), TimesD(Xtime(c)), TimesD(Triple(d)))
  {
    hide Plus, Sum, GfMul, Xtime, TimesD, Triple, Mix0;
    Mix0Sum(c, d, a, b);
    Rotate(Xtime(c), Triple(d), a, b);
    Rotate(b, Xtime(c), Triple(d), a);
    Spread(0x0d, a, b, Xtime(c), Triple(d));
    ProductD(a);
    ProductD(b);
    ProductD(Xtime(c));
    ProductD(Triple(d));
  }

  lemma Row9(a: byte, b: byte, c: byte, d: byte)
    ensures GfMul(0x09, Mix0(d, a, b, c)) == Sum(Times9(Triple(a)), Times9(b), Times9(c), Times9(Xtime(d)))
  {
    hide Plus, Sum, GfMul, Xtime, Times9, Triple, Mix0;
    Mix0Sum(d, a, b, c);
    Rotate(Triple(a), b, c, Xtime(d));
    Spread(0x09, Triple(a), b, c, Xtime(d));
    Product9(Triple(a));
    Product9(b);
    Product9(c);
    Product9(Xtime(d));
  }

  /** InvMixColumns takes a mixed column back to its first entry. */
  lemma FirstEntryBack(a: byte, b: byte, c: byte, d: byte)
    ensures InvMix0(Mix0(a, b, c, d), Mix0(b, c, d, a), Mix0(c, d, a, b), Mix0(d, a, b, c)) == a
  {
    hide Plus, Sum, GfMul, Xtime, TimesE, TimesB, TimesD, Times9;
    RowE(a, b, c, d);
    RowB(a, b, c, d);
    RowD(a, b, c, d);
    Row9(a, b, c, d);
    hide Mix0;
    InvMix0Sum(Mix0(a, b, c, d), Mix0(b, c, d, a), Mix0(c, d, a, b), Mix0(d, a, b, c));
    hide InvMix0;
    Regroup(TimesE(Xtime(a)), TimesB(a), TimesD(a), Times9(Triple(a)),
            TimesE(Triple(b)), TimesB(Xtime(b)), TimesD(b), Times9(b),
            TimesE(c), TimesB(Triple(c)), TimesD(Xtime(c)), Times9(c),
            TimesE(d), TimesB(d), TimesD(Triple(d)), Times9(Xtime(d)));
    Unit0(a);
    Unit1(b);
    Unit2(c);
    Unit3(d);
    SumZeros(a);
  }

  /** The same cancellation for MixColumns after InvMixColumns. */
  lemma InvUnit0(x: byte)
    ensures Sum(Xtime(TimesE(x)), Triple(Times9(x)), TimesD(x), TimesB(x)) == x
  {
  }

  lemma InvUnit1High(x: byte)
    ensures Plus(Xtime(TimesB(x)), Triple(TimesE(x))) == Xtime(Xtime(x))
  {
  }

  lemma InvUnit1Low(x: byte)
    ensures Plus(Times9(x), TimesD(x)) == Xtime(Xtime(x))
  {
  }

  lemma InvUnit1(x: byte)
    ensures Sum(Xtime(TimesB(x)), Triple(TimesE(x)), Times9(x), TimesD(x)) == 0
  {
    InvUnit1High(x);
    InvUnit1Low(x);
    SelfCancel(Xtime(Xtime(x)));
    hide Plus, TimesE, TimesB, TimesD, Times9, Xtime;
  }

  lemma InvUnit2High(x: byte)
    ensures Plus(Xtime(TimesD(x)), Triple(TimesB(x))) == Xtime(Xtime(x)) ^ Xtime(x) ^ x
  {
  }

  lemma InvUnit2Low(x: byte)
    ensures Plus(TimesE(x), Times9(x)) == Xtime(Xtime(x)) ^ Xtime(x) ^ x
  {
  }

  lemma InvUnit2(x: byte)
    ensures Sum(Xtime(TimesD(x)), Triple(TimesB(x)), TimesE(x), Times9(x)) == 0
  {
    InvUnit2High(x);
    InvUnit2Low(x);
    SelfCancel(Xtime(Xtime(x)) ^ Xtime(x) ^ x);
    hide Plus, TimesE, TimesB, TimesD, Times9, Xtime;
  }

  lemma InvUnit3High(x: byte)
    ensures Plus(Xtime(Times9(x)), Triple(TimesD(x))) == Xtime(Xtime(x)) ^ x
  {
  }

  lemma InvUnit3Low(x: byte)
    ensures Plus(TimesB(x), TimesE(x)) == Xtime(Xtime(x)) ^ x
  {
  }

  lemma InvUnit3(x: byte)
    ensures Sum(Xtime(Times9(x)), Triple(TimesD(x)), TimesB(x), TimesE(x)) == 0
  {
    InvUnit3High(x);
    InvUnit3Low(x);
    SelfCancel(Xtime(Xtime(x)) ^ x);
    hide Plus, TimesE, TimesB, TimesD, Times9, Xtime;
  }

  lemma XtimeSpread(p: byte, q: byte, r: byte, s: byte)
    ensures Xtime(Sum(p, q, r, s)) == Sum(Xtime(p), Xtime(q), Xtime(r), Xtime(s))
  {
    hide Plus, Xtime;
    XtimeAdditive(Plus(p, q), Plus(r, s));
    XtimeAdditive(p, q);
    XtimeAdditive(r, s);
  }

  lemma TripleIsPlus(p: byte)
    ensures Triple(p) == Plus(Xtime(p), p)
  {
    hide Xtime;
  }

  lemma TriplePlus(p: byte, q: byte)
    ensures Triple(Plus(p, q)) == Plus(Triple(p), Triple(q))
  {
    hide Plus, Xtime;
    XtimeAdditive(p, q);
    TripleIsPlus(p);
    TripleIsPlus(q);
    TripleIsPlus(Plus(p, q));
    hide Triple;
    Exchange(Xtime(p), Xtime(q), p, q);
  }

  lemma TripleSpread(p: byte, q: byte, r: byte, s: byte)
    ensures Triple(Sum(p, q, r, s)) == Sum(Triple(p), Triple(q), Triple(r), Triple(s))
  {
    hide Plus, Triple;
    TriplePlus(Plus(p, q), Plus(r, s));
    TriplePlus(p, q);
    TriplePlus(r, s);
  }

  lemma InvMix0Times(a: byte, b: byte, c: byte, d: byte)
    ensures InvMix0(a, b, c, d) == Sum(TimesE(a), TimesB(b), TimesD(c), Times9(d))
  {
    hide Sum, GfMul, TimesE, TimesB, TimesD, Times9;
    InvMix0Sum(a, b, c, d);
    hide InvMix0;
    ProductE(a);
    ProductB(b);
    ProductD(c);
    Product9(d);
  }

  /** MixColumns takes an unmixed column back to its first entry. */
  lemma FirstEntryForth(a: byte, b: byte, c: byte, d: byte)
    ensures Mix0(InvMix0(a, b, c, d), InvMix0(b, c, d, a), InvMix0(c, d, a, b), InvMix0(d, a, b, c)) == a
  {
    hide Plus, Sum, Xtime, Triple, TimesE, TimesB, TimesD, Times9, InvMix0;
    Mix0Sum(InvMix0(a, b, c, d), InvMix0(b, c, d, a), InvMix0(c, d, a, b), InvMix0(d, a, b, c));
    hide Mix0;
    InvMix0Times(a, b, c, d);
    XtimeSpread(TimesE(a), TimesB(b), TimesD(c), Times9(d));
    InvMix0Times(b, c, d, a);
    Rotate(TimesE(b), TimesB(c), TimesD(d), Times9(a));
    TripleSpread(Times9(a), TimesE(b), TimesB(c), TimesD(d));
    InvMix0Times(c, d, a, b);
    Rotate(TimesE(c), TimesB(d), TimesD(a), Times9(b));
    Rotate(Times9(b), TimesE(c), TimesB(d), TimesD(a));
    InvMix0Times(d, a, b, c);
    Rotate(TimesB(a), TimesD(b), Times9(c), TimesE(d));
    Regroup(Xtime(TimesE(a)), Triple(Times9(a)), TimesD(a), TimesB(a),
            Xtime(TimesB(b)), Triple(TimesE(b)), Times9(b), TimesD(b),
            Xtime(TimesD(c)), Triple(TimesB(c)), TimesE(c), Times9(c),
            Xtime(Times9(d)), Triple(TimesD(d)), TimesB(d), TimesE(d));
    InvUnit0(a);
    InvUnit1(b);
    InvUnit2(c);
    InvUnit3(d);
    SumZeros(a);
  }

  /** Column by column, InvMixColumns and MixColumns undo each other. */
  lemma ColumnBack(a: byte, b: byte, c: byte, d: byte)
    ensures var (p, q, r, s) := (Mix0(a, b, c, d), Mix1(a, b, c, d), Mix2(a, b, c, d), Mix3(a, b, c, d));
      InvMix0(p, q, r, s) == a && InvMix1(p, q, r, s) == b && InvMix2(p, q, r, s) == c && InvMix3(p, q, r, s) == d
  {
    MixRotates(a, b, c, d);
    hide Mix0, Mix1, Mix2, Mix3;
    var (p, q, r, s) := (Mix0(a, b, c, d), Mix1(a, b, c, d), Mix2(a, b, c, d), Mix3(a, b, c, d));
    InvMixRotates(p, q, r, s);
    hide InvMix0, InvMix1, InvMix2, InvMix3;
    FirstEntryBack(a, b, c, d);
    FirstEntryBack(b, c, d, a);
    FirstEntryBack(c, d, a, b);
    FirstEntryBack(d, a, b, c);
  }

  lemma ColumnForth(a: byte, b: byte, c: byte, d: byte)
    ensures var (p, q, r, s) := (InvMix0(a, b, c, d), InvMix1(a, b, c, d), InvMix2(a, b, c, d), InvMix3(a, b, c, d));
      Mix0(p, q, r, s) == a && Mix1(p, q, r, s) == b && Mix2(p, q, r, s) == c && Mix3(p, q, r, s) == d
  {
    InvMixRotates(a, b, c, d);
    hide InvMix0, InvMix1, InvMix2, InvMix3;
    var (p, q, r, s) := (InvMix0(a, b, c, d), InvMix1(a, b, c, d), InvMix2(a, b, c, d), InvMix3(a, b, c, d));
    MixRotates(p, q, r, s);
    hide Mix0, Mix1, Mix2, Mix3;
    FirstEntryForth(a, b, c, d);
    FirstEntryForth(b, c, d, a);
    FirstEntryForth(c, d, a, b);
    FirstEntryForth(d, a, b, c);
  }

  /** Column c of the mixed state, entry by entry. */
  lemma MixedColumn(s: Block, c: nat)
    requires c < 4
    ensures var (p, q, r, t) := (s[4 * c], s[4 * c + 1], s[4 * c + 2], s[4 * c + 3]);
      var m := MixColumns(s);
      && m[4 * c] == Mix0(p, q, r, t) && m[4 * c + 1] == Mix1(p, q, r, t)
      && m[4 * c + 2] == Mix2(p, q, r, t) && m[4 * c + 3] == Mix3(p, q, r, t)
  {
    hide Mix0, Mix1, Mix2, Mix3;
    assert c == 0 || c == 1 || c == 2 || c == 3;
  }

  lemma UnmixedColumn(s: Block, c: nat)
    requires c < 4
    ensures var (p, q, r, t) := (s[4 * c], s[4 * c + 1], s[4 * c + 2], s[4 * c + 3]);
      var m := InvMixColumns(s);
      && m[4 * c] == InvMix0(p, q, r, t) && m[4 * c + 1] == InvMix1(p, q, r, t)
      && m[4 * c + 2] == InvMix2(p, q, r, t) && m[4 * c + 3] == InvMix3(p, q, r, t)
  {
    hide InvMix0, InvMix1, InvMix2, InvMix3;
    assert c == 0 || c == 1 || c == 2 || c == 3;
  }

  predicate SameColumn(s: Block, t: Block, c: nat)
    requires c < 4
  {
    s[4 * c] == t[4 * c] && s[4 * c + 1] == t[4 * c + 1] && s[4 * c + 2] == t[4 * c + 2] && s[4 * c + 3] == t[4 * c + 3]
  }

  lemma ColumnsEqual(s: Block, t: Block)
    requires forall c :: 0 <= c < 4 ==> SameColumn(s, t, c)
    ensures s == t
  {
    forall i | 0 <= i < 16
      ensures s[i] == t[i]
    {
      var c := i / 4;
      assert SameColumn(s, t, c);
      assert i == 4 * c || i == 4 * c + 1 || i == 4 * c + 2 || i == 4 * c + 3;
    }
  }

  lemma MixColumnsInverse(s: Block)
    ensures InvMixColumns(MixColumns(s)) == s
    ensures MixColumns(InvMixColumns(s)) == s
  {
    hide Mix0, Mix1, Mix2, Mix3, InvMix0, InvMix1, InvMix2, InvMix3;
    var m, n := MixColumns(s), InvMixColumns(s);
    var m', n' := InvMixColumns(m), MixColumns(n);
    forall c | 0 <= c < 4
      ensures SameColumn(s, m', c) && SameColumn(s, n', c)
    {
      MixedColumn(s, c);
      UnmixedColumn(m, c);
      UnmixedColumn(s, c);
      MixedColumn(n, c);
      hide MixColumns, InvMixColumns;
      ColumnBack(s[4 * c], s[4 * c + 1], s[4 * c + 2], s[4 * c + 3]);
      ColumnForth(s[4 * c], s[4 * c + 1], s[4 * c + 2], s[4 * c + 3]);
    }
    hide MixColumns, InvMixColumns;
    ColumnsEqual(s, m');
    ColumnsEqual(s, n');
  }

  lemma ShiftRowsInverse(s: Block)
    ensures InvShiftRows(ShiftRows(s)) == s
    ensures ShiftRows(InvShiftRows(s)) == s
  {
  }

  lemma SubBytesInverse(s: Block)
    ensures InvSubBytes(SubBytes(s)) == s
    ensures SubBytes(InvSubBytes(s)) == s
  {
    hide Sbox, InvSbox;
    forall i | 0 <= i < 16
      ensures InvSubBytes(SubBytes(s))[i] == s[i] && SubBytes(InvSubBytes(s))[i] == s[i]
    {
      SboxInverse(s[i]);
      InvSboxInverse(s[i]);
    }
  }

  lemma XorInverse(s: Block, t: Block)
    ensures Xor(Xor(s, t), t) == s
  {
  }
}
