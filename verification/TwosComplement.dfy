/** C's `long long`: a 64-bit two's complement integer whose arithmetic may not
    overflow, with the bitwise operators of C. */
module TwosComplement {
  import opened Arith

  newtype i64 = x: int | -0x8000_0000_0000_0000 <= x < 0x8000_0000_0000_0000

  /** Whether x is representable in k+1 bits, sign included. */
  predicate Fits(x: int, k: nat) {
    -Pow(2, k) <= x < Pow(2, k)
  }

  function Magnitude(x: int): nat {
    if x < 0 then -x else x
  }

  /** Bitwise exclusive or: the lowest bits differ, then all higher ones. The
      numbers without a lower bit left, 0 and -1, are the two constant bit strings. */
  function XorInt(x: int, y: int): int
    decreases Magnitude(x) + Magnitude(y)
  {
    if -1 <= x <= 0 && -1 <= y <= 0 then
      if x == y then 0 else -1
    else
      (if x % 2 == y % 2 then 0 else 1) + 2 * XorInt(x / 2, y / 2)
  }

  function AndInt(x: int, y: int): int
    decreases Magnitude(x) + Magnitude(y)
  {
    if -1 <= x <= 0 && -1 <= y <= 0 then
      if x == -1 && y == -1 then -1 else 0
    else
      (if x % 2 == 1 && y % 2 == 1 then 1 else 0) + 2 * AndInt(x / 2, y / 2)
  }

  lemma {:induction false} XorFits(x: int, y: int, k: nat)
    requires Fits(x, k) && Fits(y, k)
    ensures Fits(XorInt(x, y), k)
    decreases k
  {
    if k == 0 {
    } else if -1 <= x <= 0 && -1 <= y <= 0 {
      XorFits(x, y, k - 1);
    } else {
      XorFits(x / 2, y / 2, k - 1);
    }
  }

  lemma {:induction false} AndFits(x: int, y: int, k: nat)
    requires Fits(x, k) && Fits(y, k)
    ensures Fits(AndInt(x, y), k)
    decreases k
  {
    if k == 0 {
    } else if -1 <= x <= 0 && -1 <= y <= 0 {
      AndFits(x, y, k - 1);
    } else {
      AndFits(x / 2, y / 2, k - 1);
    }
  }

  lemma {:induction false} XorZero(x: int)
    ensures XorInt(x, 0) == x
    decreases Magnitude(x)
  {
    if -1 <= x <= 0 {
    } else {
      XorZero(x / 2);
    }
  }

  lemma {:induction false} XorSelf(x: int)
    ensures XorInt(x, x) == 0
    decreases Magnitude(x)
  {
    if -1 <= x <= 0 {
    } else {
      XorSelf(x / 2);
    }
  }

  /** The recursive equation of exclusive or holds for constant bit strings too. */
  lemma XorUnfold(x: int, y: int)
    ensures XorInt(x, y) == (if x % 2 == y % 2 then 0 else 1) + 2 * XorInt(x / 2, y / 2)
  {
    if -1 <= x <= 0 && -1 <= y <= 0 {
      assert x / 2 == x && y / 2 == y;
    }
  }

  lemma HalfOf(bit: int, rest: int)
    requires 0 <= bit < 2
    ensures (bit + 2 * rest) / 2 == rest && (bit + 2 * rest) % 2 == bit
  {
  }

  lemma XorOfConstants(x: int, y: int)
    requires -1 <= x <= 0 && -1 <= y <= 0
    ensures XorInt(x, y) == if x == y then 0 else -1
  {
  }

  /** Exclusive or undoes itself: this is what makes the masked swap a swap. */
  lemma {:induction false} XorCancels(x: int, y: int)
    ensures XorInt(x, XorInt(x, y)) == y
    decreases Magnitude(x) + Magnitude(y)
  {
    hide XorInt;
    if -1 <= x <= 0 && -1 <= y <= 0 {
      XorOfConstants(x, y);
      XorOfConstants(x, if x == y then 0 else -1);
    } else {
      XorCancels(x / 2, y / 2);
      XorUnfold(x, y);
      XorUnfold(x, XorInt(x, y));
      HalfOf(if x % 2 == y % 2 then 0 else 1, XorInt(x / 2, y / 2));
    }
  }

  lemma {:induction false} XorCommutes(x: int, y: int)
    ensures XorInt(x, y) == XorInt(y, x)
    decreases Magnitude(x) + Magnitude(y)
  {
    if -1 <= x <= 0 && -1 <= y <= 0 {
    } else {
      XorCommutes(x / 2, y / 2);
    }
  }

  lemma {:induction false} AndMask(x: int)
    ensures AndInt(-1, x) == x
    ensures AndInt(0, x) == 0
    decreases Magnitude(x)
  {
    if -1 <= x <= 0 {
    } else {
      AndMask(x / 2);
      assert -1 / 2 == -1 && (-1) % 2 == 1;
    }
  }

  lemma LowBit(x: int, m: int)
    requires m > 0
    ensures x % (2 * m) == x % 2 + 2 * (x / 2 % m)
  {
    var q, r := x / 2 / m, x / 2 % m;
    assert x / 2 == m * q + r;
    assert x == q * (2 * m) + (x % 2 + 2 * r);
    DivModUnique(x, 2 * m, q, x % 2 + 2 * r);
  }

  lemma {:induction false} AndNone(x: int)
    ensures AndInt(x, 0) == 0
    decreases Magnitude(x)
  {
    if -1 <= x <= 0 {
    } else {
      AndNone(x / 2);
    }
  }

  lemma AndUnfold(x: int, y: int)
    ensures AndInt(x, y) == (if x % 2 == 1 && y % 2 == 1 then 1 else 0) + 2 * AndInt(x / 2, y / 2)
  {
    if -1 <= x <= 0 && -1 <= y <= 0 {
      assert x / 2 == x && y / 2 == y;
    }
  }

  /** Masking with 2^k - 1 keeps the residue modulo 2^k, also of negative numbers. */
  lemma {:induction false} AndLow(x: int, k: nat)
    ensures Pow(2, k) > 0
    ensures AndInt(x, Pow(2, k) - 1) == x % Pow(2, k)
    decreases k
  {
    PowPositive(2, k);
    if k == 0 {
      AndNone(x);
    } else {
      AndLow(x / 2, k - 1);
      var m := Pow(2, k - 1);
      assert Pow(2, k) == 2 * m;
      assert (2 * m - 1) / 2 == m - 1 && (2 * m - 1) % 2 == 1;
      AndUnfold(x, 2 * m - 1);
      LowBit(x, m);
    }
  }

  lemma Fits64(x: int)
    ensures Fits(x, 63) <==> -0x8000_0000_0000_0000 <= x < 0x8000_0000_0000_0000
  {
    assert Pow(2, 7) == 128;
    PowAdd(2, 7, 7);
    PowAdd(2, 7, 14);
    PowAdd(2, 21, 21);
    PowAdd(2, 21, 42);
  }

  /** C's `x ^ y`. */
  function Xor(x: i64, y: i64): (r: i64)
    ensures r as int == XorInt(x as int, y as int)
  {
    Fits64(x as int);
    Fits64(y as int);
    XorFits(x as int, y as int, 63);
    Fits64(XorInt(x as int, y as int));
    XorInt(x as int, y as int) as i64
  }

  /** C's `x & y`. */
  function And(x: i64, y: i64): (r: i64)
    ensures r as int == AndInt(x as int, y as int)
  {
    Fits64(x as int);
    Fits64(y as int);
    AndFits(x as int, y as int, 63);
    Fits64(AndInt(x as int, y as int));
    AndInt(x as int, y as int) as i64
  }

  /** C's `~x`. */
  function Not(x: i64): i64 {
    -1 - x
  }

  /** C's arithmetic right shift `x >> 16`: rounds towards minus infinity. */
  function Shr16(x: i64): (r: i64)
    ensures r as int == x as int / 65536
  {
    x / 65536
  }

  /** Bitwise inclusive or, by De Morgan. */
  function OrInt(x: int, y: int): int {
    -1 - AndInt(-1 - x, -1 - y)
  }

  lemma KeepLow7(x: int)
    ensures AndInt(x, 127) == x % 128
  {
    hide AndInt;
    assert Pow(2, 3) == 8;
    PowAdd(2, 3, 3);
    AndLow(x, 7);
  }

  lemma HighBits(x: int, m: int)
    requires m > 0
    ensures x / (2 * m) == x / 2 / m
  {
    var q, r := x / 2 / m, x / 2 % m;
    assert x / 2 == m * q + r;
    assert x == q * (2 * m) + (x % 2 + 2 * r);
    DivModUnique(x, 2 * m, q, x % 2 + 2 * r);
  }

  /** The bitwise and splits at bit k. */
  lemma {:induction false} AndSplit(x: int, y: int, k: nat)
    ensures Pow(2, k) > 0
    ensures AndInt(x, y) == AndInt(x % Pow(2, k), y % Pow(2, k)) + Pow(2, k) * AndInt(x / Pow(2, k), y / Pow(2, k))
    decreases k
  {
    PowPositive(2, k);
    if k == 0 {
    } else {
      var m := Pow(2, k - 1);
      AndSplit(x / 2, y / 2, k - 1);
      AndUnfold(x, y);
      LowBit(x, m);
      LowBit(y, m);
      HighBits(x, m);
      HighBits(y, m);
      AndUnfold(x % (2 * m), y % (2 * m));
      HalfOf(x % 2, x / 2 % m);
      HalfOf(y % 2, y / 2 % m);
      MulAssoc(2, m, AndInt(x / 2 / m, y / 2 / m));
    }
  }

  lemma ClearLow3(x: int)
    requires 0 <= x < 256
    ensures AndInt(x, 248) == x - x % 8
  {
    hide AndInt;
    assert Pow(2, 3) == 8 && Pow(2, 5) == 32;
    AndSplit(x, 248, 3);
    AndNone(x % 8);
    AndLow(x / 8, 5);
  }

  lemma {:induction false} AndSelf(x: int)
    ensures AndInt(x, x) == x
    decreases Magnitude(x)
  {
    if -1 <= x <= 0 {
    } else {
      AndSelf(x / 2);
    }
  }

  lemma SetBit6(v: int)
    requires 0 <= v < 128
    ensures OrInt(v, 64) == v % 64 + 64
  {
    hide AndInt;
    var y := -1 - v;
    assert Pow(2, 3) == 8;
    PowAdd(2, 3, 3);
    AndSplit(y, -65, 6);
    assert y % 64 == 63 - v % 64 && y / 64 == -1 - v / 64;
    AndLow(y % 64, 6);
    AndMask(-2);
    AndSelf(-2);
  }

  /** The masks that clamp a scalar, as arithmetic on its first and last byte. */
  lemma ClampMasks(x: int)
    requires 0 <= x < 256
    ensures AndInt(x, 248) == x - x % 8
    ensures OrInt(AndInt(x, 127), 64) == x % 64 + 64
  {
    hide *;
    ClearLow3(x);
    KeepLow7(x);
    SetBit6(x % 128);
    assert x % 128 % 64 == x % 64;
  }

  lemma MasksAreResidues(x: i64)
    ensures And(x, 0xffff) as int == x as int % 65536
    ensures And(x, 1) as int == x as int % 2
    ensures And(x, 0xff) as int == x as int % 256
    ensures And(x, 0x7fff) as int == x as int % 32768
  {
    assert Pow(2, 1) == 2 && Pow(2, 5) == 32;
    PowAdd(2, 4, 4);
    PowAdd(2, 8, 8);
    PowAdd(2, 5, 5);
    PowAdd(2, 10, 5);
    AndLow(x as int, 16);
    AndLow(x as int, 1);
    AndLow(x as int, 8);
    AndLow(x as int, 15);
  }
}
