/** Where the bytes of numbers lie in a memory: address a + i, going round at the memory's size,
    holds digit i to the base 256. */
module MemoryLayout {
  import opened Arith
  import opened Bytes
  import opened ByteMemory
  import opened Bignum

  /** The k bytes from address a on. */
  function Region(s: Memory, a: nat, k: nat): (r: seq<u8>)
    ensures |r| == k
    ensures forall i :: 0 <= i < k ==> r[i] == s[(a + i) % |s|]
  {
    seq(k, i requires 0 <= i < k => s[(a + i) % |s|])
  }

  lemma {:induction false} ReadIsRegion(s: Memory, a: nat, k: nat)
    ensures ReadBytes(s, a, k) == LittleEndian(Region(s, a, k))
  {
    if k > 0 {
      var (r, c) := (Region(s, a, k - 1), s[(a + (k - 1)) % |s|]);
      ReadIsRegion(s, a, k - 1);
      assert Region(s, a, k) == r + [c];
      assert [c][1..] == [] && LittleEndian([c]) == c as int;
      LittleEndianConcat(r, [c]);
      hide LittleEndian, Pow;
    }
  }

  /** A number is read from a region's bytes lowest first. */
  lemma ReadIsLittleEndian(s: Memory, a: nat, k: nat)
    ensures ReadBytes(s, a, k) == LittleEndian(seq(k, i requires 0 <= i < k => s[(a + i) % |s|]))
  {
    ReadIsRegion(s, a, k);
    assert Region(s, a, k) == seq(k, i requires 0 <= i < k => s[(a + i) % |s|]);
  }

  /** A write puts digit o of the number, to the base 256, at the address o above a, and leaves
      every address from k above a on as it was. */
  lemma StoredByte(s: Memory, a: nat, k: nat, n: nat, b: nat, o: nat)
    requires b < |s| && o == (b - a) % |s|
    ensures Pow(256, o) > 0
    ensures WriteBytes(s, a, k, n)[b] == if o < k then (n / Pow(256, o) % 256) as u8 else s[b]
  {
    PowPositive(256, o);
    ReadElementWriteBytes(s, a, k, n, b);
  }

  /** The byte at which region b starts lies (b - a) % m above a. */
  lemma StartsInside(m: nat, a: nat, k: nat, b: nat, l: nat)
    requires m > 0 && l > 0 && (b - a) % m < k
    ensures !Nonoverlapping(m, a, k, b, l)
  {
    var d := (b - a) % m;
    ModShiftIs(a + d, b + 0, -((b - a) / m), m);
    assert Address(m, a, d) == Address(m, b, 0);
  }

  /** Of two numbers with the same residue the difference of two others is a residue. */
  lemma SharedResidue(m: nat, a: nat, b: nat, i: nat, j: nat)
    requires j <= i < m && (a + i) % m == (b + j) % m
    ensures (b - a) % m == i - j
  {
    var (q, q') := ((a + i) / m, (b + j) / m);
    assert a + i - (b + j) == (q - q') * m by {
      assert a + i == m * q + (a + i) % m && b + j == m * q' + (b + j) % m;
      assert (q - q') * m == m * q - m * q';
    }
    assert b - a == (q' - q) * m + (i - j) by {
      assert (q' - q) * m == -((q - q') * m);
    }
    DivModUnique(b - a, m, q' - q, i - j);
  }

  lemma SharedOffset(m: nat, a: nat, b: nat, i: nat, j: nat)
    requires i < m && j < m && (a + i) % m == (b + j) % m
    ensures i - j == (b - a) % m || j - i == (a - b) % m
  {
    if j <= i {
      SharedResidue(m, a, b, i, j);
    } else {
      SharedResidue(m, b, a, j, i);
    }
  }

  /** Two regions have no byte in common if and only if one is empty or each starts behind the end
      of the other, going round. */
  lemma ApartIff(m: nat, a: nat, k: nat, b: nat, l: nat)
    requires m > 0
    ensures Nonoverlapping(m, a, k, b, l) <==> k == 0 || l == 0 || ((b - a) % m >= k && (a - b) % m >= l)
  {
    if k > 0 && l > 0 {
      if (b - a) % m < k {
        StartsInside(m, a, k, b, l);
      } else if (a - b) % m < l {
        StartsInside(m, b, l, a, k);
        assert !Nonoverlapping(m, a, k, b, l) by {
          var i: nat, j: nat :| i < l && j < k && Address(m, b, i) == Address(m, a, j);
        }
      } else {
        forall i: nat, j: nat | i < k && j < l
          ensures Address(m, a, i) != Address(m, b, j)
        {
          if Address(m, a, i) == Address(m, b, j) {
            SharedOffset(m, a, b, i, j);
          }
        }
      }
    }
  }

  /** Such regions can be written in either order, and neither write changes the number read from
      the other region. */
  lemma RegionsApart(s: Memory, a: nat, k: nat, b: nat, l: nat, y: nat, z: nat)
    requires (b - a) % |s| >= k && (a - b) % |s| >= l
    ensures WriteBytes(WriteBytes(s, b, l, z), a, k, y) == WriteBytes(WriteBytes(s, a, k, y), b, l, z)
    ensures ReadBytes(WriteBytes(s, b, l, z), a, k) == ReadBytes(s, a, k)
    ensures ReadBytes(WriteBytes(s, a, k, y), b, l) == ReadBytes(s, b, l)
  {
    ApartIff(|s|, a, k, b, l);
    ApartIff(|s|, b, l, a, k);
    WritesCommute(s, a, k, b, l, y, z);
    ReadUnaffected(s, a, k, b, l, z);
    ReadUnaffected(s, b, l, a, k, y);
  }

  /* Words */

  /** An array of words is read as the number of all its bytes. */
  lemma BignumIsLittleEndian(s: Memory, a: nat, k: nat)
    ensures BignumFromMemory(s, a, k) == LittleEndian(seq(8 * k, i requires 0 <= i < 8 * k => s[(a + i) % |s|]))
  {
    BignumIsBytes(s, a, k);
    ReadIsLittleEndian(s, a, 8 * k);
  }

  lemma {:induction false} WordPower(i: nat)
    ensures Pow(WORD, i) == Pow(2, 64 * i) > 0
  {
    PowPositive(2, 64 * i);
    if i > 0 {
      WordPower(i - 1);
      assert Pow(2, 8) == 256;
      assert Pow(2, 64) == WORD by {
        hide Pow;
        PowAdd(2, 8, 8);
        PowAdd(2, 16, 16);
        PowAdd(2, 32, 32);
      }
      PowAdd(2, 64, 64 * (i - 1));
    }
  }

  /** Digits have 64 bits: digit i, the digits below it and those from it on. */
  lemma DigitsAre(n: nat, i: nat)
    ensures Pow(2, 64 * i) > 0
    ensures BigDigit(n, i) as int == n / Pow(2, 64 * i) % 0x1_0000_0000_0000_0000
    ensures LowDigits(n, i) == n % Pow(2, 64 * i) && HighDigits(n, i) == n / Pow(2, 64 * i)
  {
    WordPower(i);
  }

  /** The number of a word list is the one number below 2^(64 |l|) that has these words as its
      digits. */
  lemma WordlistIs(l: seq<u64>, i: nat)
    ensures BignumOfWordlist(l) < Pow(2, 64 * |l|) && Pow(2, 64 * i) > 0
    ensures i < |l| ==> BignumOfWordlist(l) / Pow(2, 64 * i) % 0x1_0000_0000_0000_0000 == l[i] as int
  {
    WordPower(|l|);
    WordlistBound(l);
    DigitsAre(BignumOfWordlist(l), i);
    BigDigitOfWordlist(l, i);
  }

  /** Storing words one at a time: the address o above a gets byte o of the number of the list. */
  lemma StoredWordByte(s: Memory, a: nat, l: seq<u64>, b: nat, o: nat)
    requires b < |s| && o == (b - a) % |s|
    ensures Pow(256, o) > 0
    ensures StoreWords(s, a, l)[b] ==
      if o < 8 * |l| then (BignumOfWordlist(l) / Pow(256, o) % 256) as u8 else s[b]
  {
    StoreWordsIsWriteBytes(s, a, l);
    StoredByte(s, a, 8 * |l|, BignumOfWordlist(l), b, o);
  }
}
