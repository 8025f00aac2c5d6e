/** Sequences of signed limbs of weight 2^16 and the integer they stand for. */
module Limbs {
  import opened Arith
  import opened TwosComplement

  const RADIX: int := 65536

  /** The weight 2^(16 i) of limb i. */
  function Weight(i: nat): int {
    Pow(RADIX, i)
  }

  /** The value of the lowest n limbs. */
  ghost function ValueTo(s: seq<i64>, n: nat): int
    requires n <= |s|
  {
    if n == 0 then 0 else ValueTo(s, n - 1) + s[n - 1] as int * Weight(n - 1)
  }

  ghost function Value(s: seq<i64>): int {
    ValueTo(s, |s|)
  }

  /** Every limb has magnitude at most bound. */
  ghost predicate Bounded(s: seq<i64>, bound: int) {
    forall i :: 0 <= i < |s| ==> -bound <= s[i] as int <= bound
  }

  /** Every limb is a digit to the base 2^16. */
  ghost predicate Digits(s: seq<i64>) {
    forall i :: 0 <= i < |s| ==> 0 <= s[i] as int < RADIX
  }

  /** The carry into limb n when every lower limb is replaced by its digit. */
  ghost function Carry(s: seq<i64>, n: nat): int
    requires n <= |s|
  {
    if n == 0 then 0 else (s[n - 1] as int + Carry(s, n - 1)) / RADIX
  }

  /** Limb n after its incoming carry has been added and the outgoing one removed. */
  ghost function Digit(s: seq<i64>, n: nat): int
    requires n < |s|
  {
    (s[n] as int + Carry(s, n)) % RADIX
  }

  lemma WeightStep(i: nat)
    ensures Weight(i + 1) == RADIX * Weight(i)
    ensures Weight(i) > 0
  {
    PowPositive(RADIX, i);
  }

  lemma Weight16()
    ensures Weight(16) == 0x1_0000000000000000_0000000000000000_0000000000000000_0000000000000000
  {
    assert Weight(3) == 0x1_0000_0000_0000;
    WeightStep(3);
    PowAdd(RADIX, 3, 3);
    PowAdd(RADIX, 6, 6);
    PowAdd(RADIX, 12, 4);
  }

  lemma {:induction false} ValueToSame(s: seq<i64>, t: seq<i64>, n: nat)
    requires n <= |s| && n <= |t| && s[..n] == t[..n]
    ensures ValueTo(s, n) == ValueTo(t, n)
  {
    if n == 0 {
    } else {
      assert s[n - 1] == s[..n][n - 1] && t[n - 1] == t[..n][n - 1];
      assert s[..n - 1] == s[..n][..n - 1] && t[..n - 1] == t[..n][..n - 1];
      ValueToSame(s, t, n - 1);
    }
  }

  /** Changing one limb changes the value by the difference times the limb's weight. */
  lemma {:induction false} ValueUpdate(s: seq<i64>, k: nat, x: i64, n: nat)
    requires k < n <= |s|
    ensures ValueTo(s[k := x], n) == ValueTo(s, n) + (x as int - s[k] as int) * Weight(k)
  {
    if n == k + 1 {
      ValueToSame(s, s[k := x], k);
    } else {
      ValueUpdate(s, k, x, n - 1);
    }
  }

  lemma CarryOut(x: int, c: int, w: int)
    ensures x * w + c * w == ((x + c) % RADIX) * w + ((x + c) / RADIX) * (RADIX * w)
  {
    var q, r := (x + c) / RADIX, (x + c) % RADIX;
    assert x + c == q * RADIX + r;
    assert (x + c) * w == (q * RADIX + r) * w == q * (RADIX * w) + r * w;
  }

  /** Splitting off the carry loses nothing: the digits and the carry make up the value. */
  lemma {:induction false} CarrySplits(s: seq<i64>, t: seq<i64>, n: nat)
    requires n <= |s| && n <= |t|
    requires forall i :: 0 <= i < n ==> t[i] as int == Digit(s, i)
    ensures ValueTo(s, n) == ValueTo(t, n) + Carry(s, n) * Weight(n)
  {
    if n == 0 {
    } else {
      CarrySplits(s, t, n - 1);
      WeightStep(n - 1);
      var w := Weight(n - 1);
      CarryOut(s[n - 1] as int, Carry(s, n - 1), w);
    }
  }

  lemma {:induction false} DigitsRange(t: seq<i64>, n: nat)
    requires n <= |t|
    requires forall i :: 0 <= i < n ==> 0 <= t[i] as int < RADIX
    ensures 0 <= ValueTo(t, n) < Weight(n)
  {
    if n == 0 {
    } else {
      DigitsRange(t, n - 1);
      WeightStep(n - 1);
      var d, w := t[n - 1] as int, Weight(n - 1);
      MulMono(0, d, w);
      MulMono(d, RADIX - 1, w);
    }
  }

  /** Limbs of magnitude at most 2^62 never carry more than 2^47. */
  lemma {:induction false} CarryBound(s: seq<i64>, n: nat)
    requires n <= |s| && Bounded(s, 0x4000_0000_0000_0000)
    ensures -0x8000_0000_0000 <= Carry(s, n) <= 0x8000_0000_0000
  {
    if n == 0 {
    } else {
      CarryBound(s, n - 1);
    }
  }

  /** The value is linear in the limbs. */
  lemma {:induction false} ValueLinear(o: seq<i64>, s: seq<i64>, t: seq<i64>, c: int, n: nat)
    requires n <= |o| && n <= |s| && n <= |t|
    requires forall k :: 0 <= k < n ==> o[k] as int == s[k] as int + c * t[k] as int
    ensures ValueTo(o, n) == ValueTo(s, n) + c * ValueTo(t, n)
  {
    if n == 0 {
    } else {
      ValueLinear(o, s, t, c, n - 1);
      var w := Weight(n - 1);
      MulAssoc(c, t[n - 1] as int, w);
    }
  }

  lemma WeightTable()
    ensures Weight(0) == 0x1
    ensures Weight(1) == 0x10000
    ensures Weight(2) == 0x100000000
    ensures Weight(3) == 0x1000000000000
    ensures Weight(4) == 0x10000000000000000
    ensures Weight(5) == 0x100000000000000000000
    ensures Weight(6) == 0x1000000000000000000000000
    ensures Weight(7) == 0x10000000000000000000000000000
    ensures Weight(8) == 0x100000000000000000000000000000000
    ensures Weight(9) == 0x1000000000000000000000000000000000000
    ensures Weight(10) == 0x10000000000000000000000000000000000000000
    ensures Weight(11) == 0x100000000000000000000000000000000000000000000
    ensures Weight(12) == 0x1000000000000000000000000000000000000000000000000
    ensures Weight(13) == 0x10000000000000000000000000000000000000000000000000000
    ensures Weight(14) == 0x100000000000000000000000000000000000000000000000000000000
    ensures Weight(15) == 0x1000000000000000000000000000000000000000000000000000000000000
  {
    assert Weight(1) == RADIX * Weight(0);
  }

  lemma LimbsUpTo8(s: seq<i64>)
    requires |s| == 16
    ensures ValueTo(s, 8) == s[0] as int * 0x1 + s[1] as int * 0x10000 + s[2] as int * 0x100000000
         + s[3] as int * 0x1000000000000 + s[4] as int * 0x10000000000000000
         + s[5] as int * 0x100000000000000000000 + s[6] as int * 0x1000000000000000000000000
         + s[7] as int * 0x10000000000000000000000000000
  {
    WeightTable();
    assert ValueTo(s, 1) == ValueTo(s, 0) + s[0] as int * Weight(0);
    assert ValueTo(s, 2) == ValueTo(s, 1) + s[1] as int * Weight(1);
    assert ValueTo(s, 3) == ValueTo(s, 2) + s[2] as int * Weight(2);
    assert ValueTo(s, 4) == ValueTo(s, 3) + s[3] as int * Weight(3);
    assert ValueTo(s, 5) == ValueTo(s, 4) + s[4] as int * Weight(4);
    assert ValueTo(s, 6) == ValueTo(s, 5) + s[5] as int * Weight(5);
    assert ValueTo(s, 7) == ValueTo(s, 6) + s[6] as int * Weight(6);
  }

  /** The value of sixteen limbs, written out. */
  lemma SixteenLimbs(s: seq<i64>)
    requires |s| == 16
    ensures Value(s) == s[0] as int * 0x1 + s[1] as int * 0x10000 + s[2] as int * 0x100000000
         + s[3] as int * 0x1000000000000 + s[4] as int * 0x10000000000000000
         + s[5] as int * 0x100000000000000000000 + s[6] as int * 0x1000000000000000000000000
         + s[7] as int * 0x10000000000000000000000000000 + s[8] as int * 0x100000000000000000000000000000000
         + s[9] as int * 0x1000000000000000000000000000000000000
         + s[10] as int * 0x10000000000000000000000000000000000000000
         + s[11] as int * 0x100000000000000000000000000000000000000000000
         + s[12] as int * 0x1000000000000000000000000000000000000000000000000
         + s[13] as int * 0x10000000000000000000000000000000000000000000000000000
         + s[14] as int * 0x100000000000000000000000000000000000000000000000000000000
         + s[15] as int * 0x1000000000000000000000000000000000000000000000000000000000000
  {
    WeightTable();
    LimbsUpTo8(s);
    assert ValueTo(s, 9) == ValueTo(s, 8) + s[8] as int * Weight(8);
    assert ValueTo(s, 10) == ValueTo(s, 9) + s[9] as int * Weight(9);
    assert ValueTo(s, 11) == ValueTo(s, 10) + s[10] as int * Weight(10);
    assert ValueTo(s, 12) == ValueTo(s, 11) + s[11] as int * Weight(11);
    assert ValueTo(s, 13) == ValueTo(s, 12) + s[12] as int * Weight(12);
    assert ValueTo(s, 14) == ValueTo(s, 13) + s[13] as int * Weight(13);
    assert ValueTo(s, 15) == ValueTo(s, 14) + s[14] as int * Weight(14);
  }
}
