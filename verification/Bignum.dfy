/** Multi-word numbers: 64-bit digits, lists of words, and arrays of words in
    byte-addressed memory. */
module Bignum {
  import opened Arith
  import opened ByteMemory

  const WORD: int := 0x1_0000_0000_0000_0000

  newtype u64 = x: int | 0 <= x < 0x1_0000_0000_0000_0000

  /** Digit i of n to the base 2^64. */
  function BigDigit(n: nat, i: nat): (d: u64) {
    PowPositive(WORD, i);
    (n / Pow(WORD, i) % WORD) as u64
  }

  /** The number made of all digits below digit i. */
  function LowDigits(n: nat, i: nat): nat {
    PowPositive(WORD, i);
    n % Pow(WORD, i)
  }

  /** The number made of digit i and all digits above it. */
  function HighDigits(n: nat, i: nat): nat {
    PowPositive(WORD, i);
    n / Pow(WORD, i)
  }

  /** The number a little-endian list of words stands for. */
  function BignumOfWordlist(l: seq<u64>): nat {
    if l == [] then 0 else l[0] as int + WORD * BignumOfWordlist(l[1..])
  }

  /** The sum of the k words from address a on, word i with weight 2^(64 i). */
  function BignumFromMemory(s: Memory, a: nat, k: nat): nat {
    if k == 0 then 0
    else PowPositive(WORD, k - 1);
         MulMono(0, ReadBytes(s, a + 8 * (k - 1), 8), Pow(WORD, k - 1));
         BignumFromMemory(s, a, k - 1) + Pow(WORD, k - 1) * ReadBytes(s, a + 8 * (k - 1), 8)
  }

  /** Stores a list of words at address a, one word at a time. */
  function StoreWords(s: Memory, a: nat, l: seq<u64>): (t: Memory)
    ensures |t| == |s|
    decreases |l|
  {
    if l == [] then s
    else WriteBytes(StoreWords(s, a + 8, l[1..]), a, 8, l[0] as int)
  }

  lemma WordIsEightBytes()
    ensures Pow(256, 8) == WORD
  {
    assert Pow(256, 4) == 0x1_0000_0000;
    PowAdd(256, 4, 4);
  }

  lemma {:induction false} WordWeight(k: nat)
    ensures Pow(WORD, k) == Pow(256, 8 * k) > 0
  {
    PowPositive(WORD, k);
    if k == 0 {
    } else {
      WordWeight(k - 1);
      WordIsEightBytes();
      PowAdd(256, 8, 8 * (k - 1));
    }
  }

  /** A digit sum cut off after k digits. */
  lemma LowDigitsStep(n: nat, i: nat)
    ensures LowDigits(n, i + 1) == LowDigits(n, i) + Pow(WORD, i) * BigDigit(n, i) as int
  {
    PowPositive(WORD, i);
    PowPositive(WORD, i + 1);
    DivDiv(n, Pow(WORD, i), WORD);
  }

  /** The digits of a list's number are its words; above the list they are zero. */
  lemma {:induction false} BigDigitOfWordlist(l: seq<u64>, i: nat)
    ensures BigDigit(BignumOfWordlist(l), i) == if i < |l| then l[i] else 0
  {
    PowPositive(WORD, i);
    if l == [] {
      DivModUnique(0, Pow(WORD, i), 0, 0);
    } else if i == 0 {
      var n, r := BignumOfWordlist(l), BignumOfWordlist(l[1..]);
      assert n / Pow(WORD, 0) == n;
      DivModUnique(n, WORD, r, l[0] as int);
    } else {
      PowPositive(WORD, i - 1);
      var r := BignumOfWordlist(l[1..]);
      BigDigitOfWordlist(l[1..], i - 1);
      DivModUnique(l[0] as int + WORD * r, WORD, r, l[0] as int);
      DivDiv(BignumOfWordlist(l), WORD, Pow(WORD, i - 1));
    }
  }

  /** Word by word or byte by byte, the same number is read. */
  lemma {:induction false} BignumIsBytes(s: Memory, a: nat, k: nat)
    ensures BignumFromMemory(s, a, k) == ReadBytes(s, a, 8 * k)
  {
    if k == 0 {
    } else {
      BignumIsBytes(s, a, k - 1);
      WordWeight(k - 1);
      ReadBytesCombine(s, a, 8 * (k - 1), 8);
    }
  }

  /** Cutting the number of k words at digit n: below lies the number of the first
      min(k, n) words, above it the number of the words from address a + 8 n on. */
  lemma CutBignum(s: Memory, a: nat, k: nat, n: nat)
    ensures LowDigits(BignumFromMemory(s, a, k), n) == BignumFromMemory(s, a, if k < n then k else n)
    ensures HighDigits(BignumFromMemory(s, a, k), n) == BignumFromMemory(s, a + 8 * n, if k < n then 0 else k - n)
  {
    BignumIsBytes(s, a, k);
    BignumIsBytes(s, a, if k < n then k else n);
    BignumIsBytes(s, a + 8 * n, if k < n then 0 else k - n);
    WordWeight(n);
    ReadBytesMod(s, a, 8 * k, 8 * n);
  }

  /** Digit i is the word at address a + 8 i, and zero beyond the k words. */
  lemma BigDigitFromMemory(s: Memory, a: nat, k: nat, i: nat)
    ensures BigDigit(BignumFromMemory(s, a, k), i) as int == if i < k then ReadBytes(s, a + 8 * i, 8) else 0
  {
    CutBignum(s, a, k, i);
    var r := if k < i then 0 else k - i;
    BignumIsBytes(s, a + 8 * i, r);
    WordIsEightBytes();
    ReadBytesMod(s, a + 8 * i, 8 * r, 8);
  }

  /** Storing words one at a time is storing their number as one run of bytes. */
  lemma {:induction false} StoreWordsIsWriteBytes(s: Memory, a: nat, l: seq<u64>)
    ensures StoreWords(s, a, l) == WriteBytes(s, a, 8 * |l|, BignumOfWordlist(l))
    decreases |l|
  {
    if l == [] {
    } else {
      StoreWordsIsWriteBytes(s, a + 8, l[1..]);
      WordIsEightBytes();
      ModSmall(l[0] as int, WORD);
      WriteBytesCombine(s, a, 8, 8 * |l[1..]|, l[0] as int, BignumOfWordlist(l[1..]));
    }
  }

  lemma {:induction false} WordlistBound(l: seq<u64>)
    ensures BignumOfWordlist(l) < Pow(WORD, |l|)
  {
    if l == [] {
    } else {
      WordlistBound(l[1..]);
    }
  }

  /** Words stored in a memory large enough for them are read back as their number. */
  lemma StoreWordsRoundTrip(s: Memory, a: nat, l: seq<u64>)
    requires 8 * |l| <= |s|
    ensures BignumFromMemory(StoreWords(s, a, l), a, |l|) == BignumOfWordlist(l)
  {
    StoreWordsIsWriteBytes(s, a, l);
    BignumIsBytes(StoreWords(s, a, l), a, |l|);
    ReadWriteBytes(s, a, 8 * |l|, BignumOfWordlist(l));
    WordlistBound(l);
    WordWeight(|l|);
    ModSmall(BignumOfWordlist(l), Pow(WORD, |l|));
  }

  /** Two different words of an array that fits in the memory share no byte. */
  lemma WordsApart(m: nat, a: nat, k: nat, i: nat, j: nat)
    requires i < k && j < k && i != j && 0 < 8 * k <= m
    ensures Nonoverlapping(m, a + 8 * i, 8, a + 8 * j, 8)
  {
    var b, c := a + 8 * i, a + 8 * j;
    forall u: nat, v: nat | u < 8 && v < 8
      ensures Address(m, b, u) != Address(m, c, v)
    {
      OffsetOfAddress(m, a, 8 * i + u);
      OffsetOfAddress(m, a, 8 * j + v);
      ModSmall(8 * i + u, m);
      ModSmall(8 * j + v, m);
      assert Address(m, b, u) == Address(m, a, 8 * i + u);
      assert Address(m, c, v) == Address(m, a, 8 * j + v);
    }
  }

  /** Storing word w over digit i changes that digit and no other. */
  lemma StoreDigit(s: Memory, a: nat, k: nat, i: nat, w: u64, j: nat)
    requires i < k && 8 * k <= |s|
    ensures BigDigit(BignumFromMemory(WriteBytes(s, a + 8 * i, 8, w as int), a, k), j) ==
            if j == i then w else BigDigit(BignumFromMemory(s, a, k), j)
  {
    var t := WriteBytes(s, a + 8 * i, 8, w as int);
    BigDigitFromMemory(t, a, k, j);
    BigDigitFromMemory(s, a, k, j);
    if j == i {
      ReadWriteBytes(s, a + 8 * i, 8, w as int);
      WordIsEightBytes();
      ModSmall(w as int, WORD);
    } else if j < k {
      WordsApart(|s|, a, k, j, i);
      ReadUnaffected(s, a + 8 * j, 8, a + 8 * i, 8, w as int);
    }
  }
}
