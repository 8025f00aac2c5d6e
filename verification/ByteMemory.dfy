/** Byte-addressed memory with wrapping addresses: reading and writing a run of
    bytes as one little-endian number. */
module ByteMemory {
  import opened Arith
  import opened Bytes

  /** A memory: one byte for every address below its size. */
  type Memory = s: seq<u8> | |s| > 0 witness [0]

  /** Digit i of n to the base 256. */
  function Limb(n: nat, i: nat): u8 {
    PowPositive(256, i);
    (n / Pow(256, i) % 256) as u8
  }

  /** The address i bytes above a, in a memory of size m. */
  function Address(m: nat, a: nat, i: nat): (r: nat)
    requires m > 0
    ensures r < m
  {
    (a + i) % m
  }

  /** The byte at offset i from address a. */
  function At(s: Memory, a: nat, i: nat): u8 {
    s[Address(|s|, a, i)]
  }

  /** How far address b lies above address a, going round if need be. */
  function Offset(m: nat, a: nat, b: nat): nat
    requires m > 0
  {
    (b - a) % m
  }

  /** The k bytes from address a on, as a little-endian number. */
  function ReadBytes(s: Memory, a: nat, k: nat): nat {
    if k == 0 then 0
    else PowPositive(256, k - 1);
         MulMono(0, At(s, a, k - 1) as int, Pow(256, k - 1));
         ReadBytes(s, a, k - 1) + Pow(256, k - 1) * At(s, a, k - 1) as int
  }

  /** Stores the lowest k digits of n at the k bytes from address a on. */
  function WriteBytes(s: Memory, a: nat, k: nat, n: nat): (t: Memory)
    ensures |t| == |s|
    decreases k
  {
    if k == 0 then s
    else WriteBytes(s[Address(|s|, a, k - 1) := Limb(n, k - 1)], a, k - 1, n)
  }

  /** No byte of one region has the same address as a byte of the other. */
  ghost predicate Nonoverlapping(m: nat, a: nat, k: nat, b: nat, l: nat)
    requires m > 0
  {
    forall i: nat, j: nat | i < k && j < l :: Address(m, a, i) != Address(m, b, j)
  }

  /** In a memory s, storing y in one region and z in the other does not depend on
      the order, and neither region's number changes when the other is stored. */
  ghost predicate Independent(s: Memory, a: nat, k: nat, b: nat, l: nat, y: nat, z: nat) {
    && WriteBytes(WriteBytes(s, b, l, z), a, k, y) == WriteBytes(WriteBytes(s, a, k, y), b, l, z)
    && ReadBytes(WriteBytes(s, b, l, z), a, k) == ReadBytes(s, a, k)
    && ReadBytes(WriteBytes(s, a, k, y), b, l) == ReadBytes(s, b, l)
  }

  ghost predicate Orthogonal(m: nat, a: nat, k: nat, b: nat, l: nat) {
    forall s: Memory, y: nat, z: nat | |s| == m :: Independent(s, a, k, b, l, y, z)
  }

  /* Addresses */

  /** Address b is a + x, wrapped, exactly when its offset from a is x, wrapped. */
  lemma OffsetIs(m: nat, a: nat, b: nat, x: nat)
    requires b < m
    ensures b == Address(m, a, x) <==> Offset(m, a, b) == x % m
  {
    if b == Address(m, a, x) {
      SubMod(a + x, a, m);
      SubMod(b, a, m);
      ModSmall(b, m);
    }
    if Offset(m, a, b) == x % m {
      AddMod(a, x, m);
      AddMod(a, b - a, m);
      ModSmall(b, m);
    }
  }

  /** The byte at offset x of a region lies at offset x modulo the memory's size. */
  lemma OffsetOfAddress(m: nat, a: nat, x: nat)
    requires m > 0
    ensures Offset(m, a, Address(m, a, x)) == x % m
  {
    OffsetIs(m, a, Address(m, a, x), x);
  }

  lemma ModAtMost(x: nat, m: nat)
    requires m > 0
    ensures x % m <= x
    ensures x < m ==> x % m == x
  {
    if x < m {
      ModSmall(x, m);
    }
  }

  /* Digits */

  /** The lowest k digits of n make up n modulo 256^k. */
  lemma ModStep(n: nat, k: nat)
    ensures Pow(256, k) > 0 && Pow(256, k + 1) > 0
    ensures n % Pow(256, k + 1) == n % Pow(256, k) + Pow(256, k) * Limb(n, k) as int
  {
    PowPositive(256, k);
    PowPositive(256, k + 1);
    DivDiv(n, Pow(256, k), 256);
  }

  lemma QuotientOfSum(x: nat, p: nat, y: nat, q: nat)
    requires x < p && q > 0
    ensures p * q > 0 && (x + p * y) / (p * q) == y / q
  {
    assert p * y == y * p;
    DivModUnique(x + p * y, p, y, x);
    DivDiv(x + p * y, p, q);
  }

  lemma LimbAbove(x: nat, y: nat, m: nat, i: nat)
    requires x < Pow(256, m) && Pow(256, m) * y >= 0 && m <= i
    ensures Limb(x + Pow(256, m) * y, i) == Limb(y, i - m)
  {
    PowPositive(256, i - m);
    PowAdd(256, m, i - m);
    hide Pow;
    QuotientOfSum(x, Pow(256, m), y, Pow(256, i - m));
  }

  lemma ReplaceHighPart(x: nat, p: nat, y: nat)
    requires p > 0
    ensures x % p + p * y - x == (y - x / p) * p
  {
    assert x == p * (x / p) + x % p;
  }

  /** A multiple d = q p h of p h, with h divisible by 256, leaves the digit above p alone. */
  lemma LimbModulo(x: nat, p: nat, h: nat, d: int, q: int, w: nat)
    requires p > 0 && h == 256 * w && d == q * (p * h) && x + d >= 0
    ensures (x + d) / p % 256 == x / p % 256
  {
    var u, r := x / p, x % p;
    assert x == p * u + r;
    assert q * (p * h) == (q * h) * p;
    DivModUnique(x + d, p, u + q * h, r);
    assert q * h == (q * w) * 256;
    ModShift(u, q * w, 256);
  }

  lemma LimbBelow(x: nat, y: nat, m: nat, i: nat)
    requires Pow(256, m) > 0 && Pow(256, m) * y >= 0 && i < m
    ensures Limb(x % Pow(256, m) + Pow(256, m) * y, i) == Limb(x, i)
  {
    var h := Pow(256, m - i - 1);
    PowPositive(256, i);
    PowPositive(256, m - i - 1);
    PowAdd(256, i, m - i);
    assert Pow(256, m - i) == 256 * h;
    hide Pow;
    ReplaceHighPart(x, Pow(256, m), y);
    LimbModulo(x, Pow(256, i), 256 * h, x % Pow(256, m) + Pow(256, m) * y - x, y - x / Pow(256, m), h);
  }

  /** The digits of x mod 256^m + 256^m y are the lowest m digits of x, then those of y. */
  lemma LimbOfSum(x: nat, y: nat, m: nat, i: nat)
    requires Pow(256, m) > 0 && Pow(256, m) * y >= 0
    ensures Limb(x % Pow(256, m) + Pow(256, m) * y, i) == if i < m then Limb(x, i) else Limb(y, i - m)
  {
    if i < m {
      LimbBelow(x, y, m, i);
    } else {
      LimbAbove(x % Pow(256, m), y, m, i);
    }
  }

  lemma LimbOfByte(c: u8)
    ensures Limb(c as int, 0) == c
  {
    assert Pow(256, 0) == 1;
  }

  lemma {:induction false} ReadBytesBound(s: Memory, a: nat, k: nat)
    ensures ReadBytes(s, a, k) < Pow(256, k)
  {
    if k == 0 {
    } else {
      ReadBytesBound(s, a, k - 1);
      PowPositive(256, k - 1);
      MulMono(At(s, a, k - 1) as int, 255, Pow(256, k - 1));
    }
  }

  lemma ReadStep(s: Memory, a: nat, k: nat)
    ensures ReadBytes(s, a, k + 1) == ReadBytes(s, a, k) + Pow(256, k) * At(s, a, k) as int
  {
  }

  /** Digit i of the number read is the byte at offset i. */
  lemma {:induction false} LimbOfRead(s: Memory, a: nat, k: nat, i: nat)
    requires i < k
    ensures Limb(ReadBytes(s, a, k), i) == At(s, a, i)
  {
    hide *;
    var p, n, c := Pow(256, k - 1), ReadBytes(s, a, k - 1), At(s, a, k - 1);
    PowPositive(256, k - 1);
    ReadBytesBound(s, a, k - 1);
    ReadStep(s, a, k - 1);
    LimbOfByte(c);
    ModSmall(n, p);
    MulMono(0, c as int, p);
    LimbOfSum(n, c as int, k - 1, i);
    if i < k - 1 {
      LimbOfRead(s, a, k - 1, i);
    }
  }

  /** Two memories give the same number exactly when they agree on the region. */
  lemma {:induction false} ReadBytesEq(s: Memory, t: Memory, a: nat, k: nat)
    ensures ReadBytes(s, a, k) == ReadBytes(t, a, k) <==> forall i: nat | i < k :: At(s, a, i) == At(t, a, i)
  {
    if ReadBytes(s, a, k) == ReadBytes(t, a, k) {
      forall i: nat | i < k
        ensures At(s, a, i) == At(t, a, i)
      {
        LimbOfRead(s, a, k, i);
        LimbOfRead(t, a, k, i);
      }
    } else if k > 0 {
      ReadBytesEq(s, t, a, k - 1);
      assert ReadBytes(s, a, k - 1) != ReadBytes(t, a, k - 1) || At(s, a, k - 1) != At(t, a, k - 1);
    }
  }

  /* Reading after writing */

  /** What a byte holds after a write: digit o of the number when its offset o lies
      in the region, its old value otherwise. */
  lemma {:induction false} ReadElementWriteBytes(s: Memory, a: nat, k: nat, n: nat, b: nat)
    requires b < |s|
    ensures WriteBytes(s, a, k, n)[b] ==
            if Offset(|s|, a, b) < k then Limb(n, Offset(|s|, a, b)) else s[b]
    decreases k
  {
    if k == 0 {
    } else {
      var s' := s[Address(|s|, a, k - 1) := Limb(n, k - 1)];
      ReadElementWriteBytes(s', a, k - 1, n, b);
      OffsetIs(|s|, a, b, k - 1);
      ModAtMost(k - 1, |s|);
    }
  }

  /** Storing back what a region holds changes nothing. */
  lemma WriteBytesRead(s: Memory, a: nat, k: nat)
    ensures WriteBytes(s, a, k, ReadBytes(s, a, k)) == s
  {
    var n := ReadBytes(s, a, k);
    forall b | 0 <= b < |s|
      ensures WriteBytes(s, a, k, n)[b] == s[b]
    {
      var o := Offset(|s|, a, b);
      ReadElementWriteBytes(s, a, k, n, b);
      if o < k {
        LimbOfRead(s, a, k, o);
        ModSmall(o, |s|);
        OffsetIs(|s|, a, b, o);
      }
    }
  }

  /** The later of two writes to a region wins. */
  lemma WriteBytesTwice(s: Memory, a: nat, k: nat, y: nat, z: nat)
    ensures WriteBytes(WriteBytes(s, a, k, y), a, k, z) == WriteBytes(s, a, k, z)
  {
    forall b | 0 <= b < |s|
      ensures WriteBytes(WriteBytes(s, a, k, y), a, k, z)[b] == WriteBytes(s, a, k, z)[b]
    {
      ReadElementWriteBytes(s, a, k, y, b);
      ReadElementWriteBytes(s, a, k, z, b);
      ReadElementWriteBytes(WriteBytes(s, a, k, y), a, k, z, b);
    }
  }

  lemma AtAfterWrite(s: Memory, a: nat, k: nat, n: nat, i: nat)
    requires i < k && i < |s|
    ensures At(WriteBytes(s, a, k, n), a, i) == Limb(n, i)
  {
    OffsetOfAddress(|s|, a, i);
    ModSmall(i, |s|);
    ReadElementWriteBytes(s, a, k, n, Address(|s|, a, i));
  }

  /** Reading j bytes back from a region written with at least as many. */
  lemma {:induction false} ReadPrefixAfterWrite(s: Memory, a: nat, k: nat, n: nat, j: nat)
    requires j <= k && j <= |s|
    ensures Pow(256, j) > 0
    ensures ReadBytes(WriteBytes(s, a, k, n), a, j) == n % Pow(256, j)
  {
    if j == 0 {
      assert ReadBytes(WriteBytes(s, a, k, n), a, j) == 0 && Pow(256, j) == 1;
    } else {
      hide *;
      ReadPrefixAfterWrite(s, a, k, n, j - 1);
      ModStep(n, j - 1);
      AtAfterWrite(s, a, k, n, j - 1);
      ReadStep(WriteBytes(s, a, k, n), a, j - 1);
    }
  }

  /** A region no longer than the memory gives back what was stored in it. */
  lemma ReadWriteBytes(s: Memory, a: nat, k: nat, n: nat)
    requires k <= |s|
    ensures Pow(256, k) > 0
    ensures ReadBytes(WriteBytes(s, a, k, n), a, k) == n % Pow(256, k)
  {
    ReadPrefixAfterWrite(s, a, k, n, k);
  }

  /** A region longer than the memory does not: 1 comes back with a second digit 1. */
  lemma ReadWriteFails(s: Memory, a: nat, k: nat)
    requires k > |s|
    ensures Pow(256, k) > 0
    ensures ReadBytes(WriteBytes(s, a, k, 1), a, k) != 1 % Pow(256, k)
  {
    var t, m := WriteBytes(s, a, k, 1), |s|;
    PowPositive(256, k);
    PowPositive(256, k - 1);
    ModSmall(1, Pow(256, k));
    LimbOfRead(t, a, k, m);
    OffsetOfAddress(m, a, m);
    assert m % m == 0 by { DivModUnique(m, m, 1, 0); }
    ReadElementWriteBytes(s, a, k, 1, Address(m, a, m));
    assert Pow(256, 0) == 1;
    assert Limb(1, 0) == 1;
    PowPositive(256, m - 1);
    assert Pow(256, m) == 256 * Pow(256, m - 1);
    DivModUnique(1, Pow(256, m), 0, 1);
    assert Limb(1, m) == 0;
  }

  /** Every number comes back modulo 256^k exactly when the region is no longer
      than the memory. */
  lemma ReadWriteIff(s: Memory, a: nat, k: nat)
    ensures Pow(256, k) > 0
    ensures (forall n: nat :: ReadBytes(WriteBytes(s, a, k, n), a, k) == n % Pow(256, k)) <==> k <= |s|
  {
    PowPositive(256, k);
    if k <= |s| {
      forall n: nat
        ensures ReadBytes(WriteBytes(s, a, k, n), a, k) == n % Pow(256, k)
      {
        ReadWriteBytes(s, a, k, n);
      }
    } else {
      ReadWriteFails(s, a, k);
    }
  }

  /* Regions side by side */

  lemma NestedProduct(p: nat, q: nat, r: nat, c: nat)
    ensures p * (r + q * c) == p * r + (p * q) * c
  {
  }

  lemma {:induction false} ReadBytesCombine(s: Memory, a: nat, m: nat, n: nat)
    ensures ReadBytes(s, a, m + n) == ReadBytes(s, a, m) + Pow(256, m) * ReadBytes(s, a + m, n)
  {
    if n == 0 {
    } else {
      ReadBytesCombine(s, a, m, n - 1);
      ReadStep(s, a, m + n - 1);
      ReadStep(s, a + m, n - 1);
      PowAdd(256, m, n - 1);
      PowPositive(256, m);
      PowPositive(256, n - 1);
      assert At(s, a, m + n - 1) == At(s, a + m, n - 1);
      hide *;
      NestedProduct(Pow(256, m), Pow(256, n - 1), ReadBytes(s, a + m, n - 1), At(s, a + m, n - 1) as int);
    }
  }

  /** Storing x below y as one number is storing y above, then x below. */
  lemma WriteBytesCombine(s: Memory, a: nat, m: nat, n: nat, x: nat, y: nat)
    ensures Pow(256, m) > 0 && Pow(256, m) * y >= 0
    ensures WriteBytes(s, a, m + n, x % Pow(256, m) + Pow(256, m) * y) ==
            WriteBytes(WriteBytes(s, a + m, n, y), a, m, x)
  {
    PowPositive(256, m);
    MulMono(0, y, Pow(256, m));
    var v, t := x % Pow(256, m) + Pow(256, m) * y, WriteBytes(s, a + m, n, y);
    forall b | 0 <= b < |s|
      ensures WriteBytes(s, a, m + n, v)[b] == WriteBytes(t, a, m, x)[b]
    {
      var o := Offset(|s|, a, b);
      ReadElementWriteBytes(s, a, m + n, v, b);
      ReadElementWriteBytes(t, a, m, x, b);
      ReadElementWriteBytes(s, a + m, n, y, b);
      LimbOfSum(x, y, m, o);
      if o >= m {
        ModSmall(o, |s|);
        OffsetIs(|s|, a, b, o);
        ModSmall(o - m, |s|);
        OffsetIs(|s|, a + m, b, o - m);
      }
    }
  }

  /** The lowest n bytes of a region, as a remainder. */
  lemma ReadBytesMod(s: Memory, a: nat, k: nat, n: nat)
    ensures Pow(256, n) > 0
    ensures ReadBytes(s, a, k) % Pow(256, n) == ReadBytes(s, a, if k < n then k else n)
    ensures ReadBytes(s, a, k) / Pow(256, n) == ReadBytes(s, a + n, if k < n then 0 else k - n)
  {
    PowPositive(256, n);
    hide *;
    if k < n {
      ReadBytesBound(s, a, k);
      PowGrows(256, k, n);
      DivModUnique(ReadBytes(s, a, k), Pow(256, n), 0, ReadBytes(s, a, k));
    } else {
      ReadBytesBound(s, a, n);
      ReadBytesCombine(s, a, n, k - n);
      DivModUnique(ReadBytes(s, a, k), Pow(256, n), ReadBytes(s, a + n, k - n), ReadBytes(s, a, n));
    }
  }

  /* Regions apart */

  lemma ReadUnaffected(s: Memory, a: nat, k: nat, b: nat, l: nat, z: nat)
    requires Nonoverlapping(|s|, a, k, b, l)
    ensures ReadBytes(WriteBytes(s, b, l, z), a, k) == ReadBytes(s, a, k)
  {
    var t := WriteBytes(s, b, l, z);
    forall i: nat | i < k
      ensures At(t, a, i) == At(s, a, i)
    {
      var c := Address(|s|, a, i);
      var o := Offset(|s|, b, c);
      ReadElementWriteBytes(s, b, l, z, c);
      ModSmall(o, |s|);
      OffsetIs(|s|, b, c, o);
    }
    ReadBytesEq(s, t, a, k);
  }

  lemma WritesCommute(s: Memory, a: nat, k: nat, b: nat, l: nat, y: nat, z: nat)
    requires Nonoverlapping(|s|, a, k, b, l)
    ensures WriteBytes(WriteBytes(s, b, l, z), a, k, y) == WriteBytes(WriteBytes(s, a, k, y), b, l, z)
  {
    var t, u := WriteBytes(s, b, l, z), WriteBytes(s, a, k, y);
    forall c | 0 <= c < |s|
      ensures WriteBytes(t, a, k, y)[c] == WriteBytes(u, b, l, z)[c]
    {
      ReadElementWriteBytes(s, b, l, z, c);
      ReadElementWriteBytes(t, a, k, y, c);
      ReadElementWriteBytes(s, a, k, y, c);
      ReadElementWriteBytes(u, b, l, z, c);
      var o, w := Offset(|s|, a, c), Offset(|s|, b, c);
      ModSmall(o, |s|);
      ModSmall(w, |s|);
      OffsetIs(|s|, a, c, o);
      OffsetIs(|s|, b, c, w);
    }
  }

  /** Where regions share a byte, storing zero in one and a number with a digit 1
      at that byte in the other depends on the order. */
  lemma SharedByteInterferes(m: nat, a: nat, k: nat, b: nat, l: nat, i: nat, j: nat)
    requires m > 0 && i < k && j < l && Address(m, a, i) == Address(m, b, j)
    ensures !Orthogonal(m, a, k, b, l)
  {
    var s: Memory := seq(m, _ => 0);
    var c := Address(m, a, i);
    var o, w := Offset(m, a, c), Offset(m, b, c);
    OffsetOfAddress(m, a, i);
    OffsetOfAddress(m, b, j);
    ModAtMost(i, m);
    ModAtMost(j, m);
    PowPositive(256, o);
    var y := Pow(256, o);
    DivModUnique(y, y, 1, 0);
    assert Limb(y, o) == 1;
    PowPositive(256, w);
    DivModUnique(0, Pow(256, w), 0, 0);
    assert Limb(0, w) == 0;
    ReadElementWriteBytes(WriteBytes(s, b, l, 0), a, k, y, c);
    ReadElementWriteBytes(WriteBytes(s, a, k, y), b, l, 0, c);
    assert !Independent(s, a, k, b, l, y, 0);
  }

  /** Two regions are independent in every memory of the size exactly when no two of
      their bytes share an address. */
  lemma OrthogonalIff(m: nat, a: nat, k: nat, b: nat, l: nat)
    requires m > 0
    ensures Orthogonal(m, a, k, b, l) <==> Nonoverlapping(m, a, k, b, l)
  {
    if Nonoverlapping(m, a, k, b, l) {
      assert Nonoverlapping(m, b, l, a, k);
      forall s: Memory, y: nat, z: nat | |s| == m
        ensures Independent(s, a, k, b, l, y, z)
      {
        WritesCommute(s, a, k, b, l, y, z);
        ReadUnaffected(s, a, k, b, l, z);
        ReadUnaffected(s, b, l, a, k, y);
      }
    } else {
      var i: nat, j: nat :| i < k && j < l && Address(m, a, i) == Address(m, b, j);
      SharedByteInterferes(m, a, k, b, l, i, j);
    }
  }
}
