/** XTS-AES-256 block by block, as sections 5.3 and 5.4 of IEEE Std 1619-2007 state it: the mask of
    block j is alpha^j times the encrypted data unit number, whatever way it is computed. */
module XtsStandard {
  import opened AesField
  import opened Aes256
  import opened Aes256Cipher
  import opened Xts
  import opened Gf128

  /* The masks are determined */

  lemma AddTransitive(p: Poly, q: Poly, r: Poly)
    ensures Add(p, r) == Add(Add(q, p), Add(q, r))
  {
  }

  lemma CongruentToBoth(p: Poly, q: Poly, r: Poly)
    requires Congruent(q, p) && Congruent(q, r)
    ensures Congruent(p, r)
  {
    var ks :| Add(q, p) == ModulusTimes(ks);
    var ls :| Add(q, r) == ModulusTimes(ls);
    ModulusTimesConcat(ks, ls);
    AddTransitive(p, q, r);
    hide ModulusTimes, Add;
    assert Add(p, r) == ModulusTimes(ks + ls);
  }

  /** The one block that stands for x^j times the polynomial of t0 is the tweak of block j. */
  lemma MaskIsTweak(t0: Block, j: nat, c: Block)
    requires Congruent(Times(Polynomial(t0), j), Polynomial(c))
    ensures c == Tweak(t0, j)
  {
    hide Congruent, Times, Polynomial, Tweak;
    TweakIsPower(t0, j);
    CongruentToBoth(Polynomial(c), Times(Polynomial(t0), j), Polynomial(Tweak(t0, j)));
    RemainderUnique(c, Tweak(t0, j));
  }

  /** For every block number there is a mask. */
  lemma MaskExists(t0: Block, j: nat)
    ensures exists c: Block :: Congruent(Times(Polynomial(t0), j), Polynomial(c))
  {
    hide Congruent, Times, Polynomial, Tweak;
    TweakIsPower(t0, j);
  }

  /* Data units */

  lemma {:induction false} FullBlockAt(f: Block -> Block, d: seq<byte>, t0: Block, n: nat, j: nat)
    requires 16 * n <= |d| && j < n
    ensures FullBlocks(f, d, t0, n)[16 * j..16 * j + 16] == XtsBlock(f, BlockAt(d, j), Tweak(t0, j))
  {
    hide XtsBlock, Tweak;
    if j < n - 1 {
      FullBlockAt(f, d, t0, n - 1, j);
    }
  }

  /** A block before the last pair, with c the mask of its number. */
  lemma LeadingBlock(f: Block -> Block, r: seq<byte>, d: seq<byte>, t0: Block, n: nat, j: nat, c: Block)
    requires 16 * n <= |d| && FullBlocks(f, d, t0, n) <= r && j < n
    requires Congruent(Times(Polynomial(t0), j), Polynomial(c))
    ensures r[16 * j..16 * j + 16] == Xor(f(Xor(d[16 * j..16 * j + 16], c)), c)
  {
    hide Congruent, Times, Polynomial, Tweak, Xor;
    MaskIsTweak(t0, j, c);
    FullBlockAt(f, d, t0, n, j);
    assert r[16 * j..16 * j + 16] == FullBlocks(f, d, t0, n)[16 * j..16 * j + 16];
  }

  lemma UnitLeadingBlock(mode: Mode, f: Block -> Block, d: seq<byte>, t0: Block, j: nat, c: Block)
    requires 16 * j + 16 <= |d| && (|d| % 16 != 0 ==> 16 * j + 32 <= |d|)
    requires Congruent(Times(Polynomial(t0), j), Polynomial(c))
    ensures var e := Xor(f(Xor(d[16 * j..16 * j + 16], c)), c);
      && DataUnit(mode, f, d, t0)[16 * j..16 * j + 16] == e
      && DataUnitInPlace(mode, f, d, t0)[16 * j..16 * j + 16] == e
  {
    hide Congruent, Times, Polynomial, LastPair, LastPairInPlace, FullBlocks, Xor;
    var n := Leading(|d|);
    LeadingBlock(f, DataUnit(mode, f, d, t0), d, t0, n, j, c);
    LeadingBlock(f, DataUnitInPlace(mode, f, d, t0), d, t0, n, j, c);
  }

  lemma MasksAreTweaks(mode: Mode, t0: Block, n: nat, a: Block, b: Block)
    requires Congruent(Times(Polynomial(t0), if mode == Encrypt then n else n + 1), Polynomial(a))
    requires Congruent(Times(Polynomial(t0), if mode == Encrypt then n + 1 else n), Polynomial(b))
    ensures a == FirstTweak(mode, t0, n) && b == SecondTweak(mode, t0, n)
  {
    hide Congruent, Times, Polynomial, Tweak;
    MaskIsTweak(t0, if mode == Encrypt then n else n + 1, a);
    MaskIsTweak(t0, if mode == Encrypt then n + 1 else n, b);
  }

  /** The last full block x and the partial block p, under the masks a and b. */
  lemma UnitLastBlocks(mode: Mode, f: Block -> Block, d: seq<byte>, t0: Block, n: nat, a: Block, b: Block,
                       x: Block, p: seq<byte>, y: Block)
    requires 0 < |p| < 16 && |d| == 16 * n + 16 + |p| && d[16 * n..] == x + p
    requires Congruent(Times(Polynomial(t0), if mode == Encrypt then n else n + 1), Polynomial(a))
    requires Congruent(Times(Polynomial(t0), if mode == Encrypt then n + 1 else n), Polynomial(b))
    requires y == Xor(f(Xor(x, a)), a)
    ensures DataUnit(mode, f, d, t0)[16 * n..] == Xor(f(Xor(p + y[|p|..], b)), b) + y[..|p|]
    ensures DataUnitInPlace(mode, f, d, t0)[16 * n..] == Xor(f(Xor(y, b)), b) + y[..|p|]
  {
    hide Congruent, Times, Polynomial, FullBlocks, FirstTweak, SecondTweak, Xor;
    MasksAreTweaks(mode, t0, n, a, b);
    assert n == Leading(|d|) && |d| % 16 == |p|;
    assert BlockAt(d, n) == d[16 * n..][..16] == x;
    assert d[16 * n + 16..] == d[16 * n..][16..] == p;
  }

  /* XTS-AES-256 */

  /** f is the block cipher under the first key, forwards to encrypt and backwards to decrypt, and
      t0 the data unit number encrypted under the second key. */
  ghost predicate Keyed(f: Block -> Block, t0: Block, mode: Mode, key1: Key, key2: Key, iv: Block) {
    && t0 == Cipher(iv, ExpandedKey(key2))
    && forall x :: f(x) == if mode == Encrypt then Cipher(x, ExpandedKey(key1)) else InvCipher(x, ExpandedKey(key1))
  }

  lemma CryptIs(f: Block -> Block, t0: Block, mode: Mode, key1: Key, key2: Key, iv: Block, x: Block)
    requires Keyed(f, t0, mode, key1, key2, iv)
    ensures Crypt(mode, ExpandedKey(key1))(x) == f(x)
  {
    hide Cipher, InvCipher, ExpandedKey;
  }

  lemma XtsIs(f: Block -> Block, t0: Block, mode: Mode, d: seq<byte>, key1: Key, key2: Key, iv: Block)
    requires |d| >= 16 && Keyed(f, t0, mode, key1, key2, iv)
    ensures var g := Crypt(mode, ExpandedKey(key1));
      && XtsAes256(mode, d, key1, key2, iv) == DataUnit(mode, g, d, t0)
      && XtsAes256InPlace(mode, d, key1, key2, iv) == DataUnitInPlace(mode, g, d, t0)
  {
    hide Crypt, ExpandedKey, Cipher, DataUnit, DataUnitInPlace;
  }

  /** Every block before the last pair, and with a length that is a multiple of 16 every block, is
      masked with alpha^j times the encrypted data unit number before and after the cipher; in
      place as well. */
  lemma XtsLeadingBlock(mode: Mode, f: Block -> Block, d: seq<byte>, key1: Key, key2: Key, iv: Block,
                        t0: Block, j: nat, c: Block, x: Block)
    requires Keyed(f, t0, mode, key1, key2, iv)
    requires 16 * j + 16 <= |d| && (|d| % 16 != 0 ==> 16 * j + 32 <= |d|) && x == d[16 * j..16 * j + 16]
    requires Congruent(Times(Polynomial(t0), j), Polynomial(c))
    ensures XtsAes256(mode, d, key1, key2, iv)[16 * j..16 * j + 16] == Xor(f(Xor(x, c)), c)
    ensures XtsAes256InPlace(mode, d, key1, key2, iv)[16 * j..16 * j + 16] == Xor(f(Xor(x, c)), c)
  {
    hide *;
    XtsIs(f, t0, mode, d, key1, key2, iv);
    UnitLeadingBlock(mode, Crypt(mode, ExpandedKey(key1)), d, t0, j, c);
    CryptIs(f, t0, mode, key1, key2, iv, Xor(x, c));
  }

  /** The last full block x, number n, and the partial block p after it. With masks a and b of
      numbers n and n + 1, exchanged for decryption, x becomes y under a; the head of y ends the
      result, and z, which is p filled up from y, becomes the last full block under b. */
  lemma XtsLastBlocks(mode: Mode, f: Block -> Block, d: seq<byte>, key1: Key, key2: Key, iv: Block,
                      t0: Block, n: nat, a: Block, b: Block, x: Block, p: seq<byte>, y: Block, z: Block)
    requires Keyed(f, t0, mode, key1, key2, iv)
    requires 0 < |p| < 16 && |d| == 16 * n + 16 + |p| && d[16 * n..] == x + p
    requires Congruent(Times(Polynomial(t0), if mode == Encrypt then n else n + 1), Polynomial(a))
    requires Congruent(Times(Polynomial(t0), if mode == Encrypt then n + 1 else n), Polynomial(b))
    ensures y == Xor(f(Xor(x, a)), a) && z == p + y[|p|..] ==>
      XtsAes256(mode, d, key1, key2, iv)[16 * n..] == Xor(f(Xor(z, b)), b) + y[..|p|]
  {
    hide *;
    XtsIs(f, t0, mode, d, key1, key2, iv);
    CryptIs(f, t0, mode, key1, key2, iv, Xor(x, a));
    CryptIs(f, t0, mode, key1, key2, iv, Xor(z, b));
    if y == Xor(f(Xor(x, a)), a) {
      UnitLastBlocks(mode, Crypt(mode, ExpandedKey(key1)), d, t0, n, a, b, x, p, y);
    }
  }

  /** In place the filled block is y itself. */
  lemma XtsLastBlocksInPlace(mode: Mode, f: Block -> Block, d: seq<byte>, key1: Key, key2: Key, iv: Block,
                             t0: Block, n: nat, a: Block, b: Block, x: Block, p: seq<byte>, y: Block)
    requires Keyed(f, t0, mode, key1, key2, iv)
    requires 0 < |p| < 16 && |d| == 16 * n + 16 + |p| && d[16 * n..] == x + p
    requires Congruent(Times(Polynomial(t0), if mode == Encrypt then n else n + 1), Polynomial(a))
    requires Congruent(Times(Polynomial(t0), if mode == Encrypt then n + 1 else n), Polynomial(b))
    ensures y == Xor(f(Xor(x, a)), a) ==>
      XtsAes256InPlace(mode, d, key1, key2, iv)[16 * n..] == Xor(f(Xor(y, b)), b) + y[..|p|]
  {
    hide *;
    XtsIs(f, t0, mode, d, key1, key2, iv);
    CryptIs(f, t0, mode, key1, key2, iv, Xor(x, a));
    CryptIs(f, t0, mode, key1, key2, iv, Xor(y, b));
    if y == Xor(f(Xor(x, a)), a) {
      UnitLastBlocks(mode, Crypt(mode, ExpandedKey(key1)), d, t0, n, a, b, x, p, y);
    }
  }
}
