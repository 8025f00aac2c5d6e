/** Byte strings read as little-endian numbers. */
module Bytes {
  import opened Arith

  newtype u8 = x: int | 0 <= x < 256

  /** The number a little-endian byte string stands for. */
  function LittleEndian(b: seq<u8>): nat
  {
    if b == [] then 0 else b[0] as int + 256 * LittleEndian(b[1..])
  }

  /** The little-endian byte string of length n for x modulo 256^n. */
  function ToLittleEndian(x: nat, n: nat): (b: seq<u8>)
    ensures |b| == n
  {
    if n == 0 then [] else [(x % 256) as u8] + ToLittleEndian(x / 256, n - 1)
  }

  lemma {:induction false} LittleEndianRange(b: seq<u8>)
    ensures LittleEndian(b) < Pow(256, |b|)
  {
    if b == [] {
    } else {
      LittleEndianRange(b[1..]);
    }
  }

  /** Writing out the number a byte string stands for gives the byte string back. */
  lemma {:induction false} LittleEndianRoundTrip(b: seq<u8>)
    ensures ToLittleEndian(LittleEndian(b), |b|) == b
  {
    if b == [] {
    } else {
      LittleEndianRoundTrip(b[1..]);
    }
  }

  /** Reading back what was written out gives the number, if it fits. */
  lemma {:induction false} ToLittleEndianRoundTrip(x: nat, n: nat)
    requires x < Pow(256, n)
    ensures LittleEndian(ToLittleEndian(x, n)) == x
  {
    if n == 0 {
    } else {
      ToLittleEndianRoundTrip(x / 256, n - 1);
    }
  }

  lemma {:induction false} LittleEndianConcat(a: seq<u8>, b: seq<u8>)
    ensures LittleEndian(a + b) == LittleEndian(a) + Pow(256, |a|) * LittleEndian(b)
  {
    if a == [] {
      assert a + b == b;
    } else {
      LittleEndianConcat(a[1..], b);
      assert (a + b)[1..] == a[1..] + b;
      MulAssoc(256, Pow(256, |a| - 1), LittleEndian(b));
    }
  }

  /** Bit k of a byte, k < 8. */
  function ByteBit(b: u8, k: nat): (r: int)
    ensures 0 <= r <= 1
  {
    PowPositive(2, k);
    b as int / Pow(2, k) % 2
  }

  lemma LowerBit(b: int, rest: int, m: int, h: int)
    requires 0 <= b < 256 && m > 0 && h > 0 && m * (2 * h) == 256
    ensures (b + 256 * rest) / m % 2 == b / m % 2
  {
    var q, r := b / m, b % m;
    assert b == m * q + r;
    assert b + 256 * rest == (q + (2 * h) * rest) * m + r by {
      assert 256 * rest == (m * (2 * h)) * rest == ((2 * h) * rest) * m;
    }
    DivModUnique(b + 256 * rest, m, q + (2 * h) * rest, r);
    assert (2 * h) * rest == (h * rest) * 2;
    ModShift(q, h * rest, 2);
  }

  /** Bit t of the number is bit t mod 8 of byte t / 8. */
  lemma {:induction false} BitOfBytes(z: seq<u8>, t: nat)
    requires t < 8 * |z|
    ensures Pow(2, t) > 0
    ensures LittleEndian(z) / Pow(2, t) % 2 == ByteBit(z[t / 8], t % 8)
    decreases |z|
  {
    PowPositive(2, t);
    var rest := LittleEndian(z[1..]);
    if t < 8 {
      PowPositive(2, t);
      assert Pow(2, 4) == 16;
      PowAdd(2, 4, 4);
      PowAdd(2, t, 8 - t);
      PowPositive(2, 7 - t);
      LowerBit(z[0] as int, rest, Pow(2, t), Pow(2, 7 - t));
    } else {
      BitOfBytes(z[1..], t - 8);
      assert z[1..][(t - 8) / 8] == z[t / 8];
      assert Pow(2, 4) == 16;
      PowAdd(2, 4, 4);
      PowAdd(2, 8, t - 8);
      DivDiv(LittleEndian(z), 256, Pow(2, t - 8));
    }
  }
}
