/** XTS-AES-256 data units of at least one block, as IEEE Std 1619-2007 sections 5.2 to 5.4
    describe them, with ciphertext stealing for a partial last block. */
module Xts {
  import opened AesField
  import opened Aes256
  import opened Aes256Cipher

  // ---- the tweak -----------------------------------------------------------

  /** A byte shifted up by one bit, with the top bit of the byte below it coming in. */
  function ShiftUp(b: byte, below: byte): byte {
    (b << 1) | (below >> 7)
  }

  /** The lowest byte, which takes up the reduction constant if a bit was shifted out on top. */
  function Reduce(b: byte, top: byte): byte {
    (b << 1) ^ ((top >> 7) * 0x87)
  }

  /** Multiplying the tweak by the primitive element alpha, byte by byte. */
  function MulAlpha(t: Block): Block {
    seq(16, i requires 0 <= i < 16 => if i == 0 then Reduce(t[0], t[15]) else ShiftUp(t[i], t[i - 1]))
  }

  /** The tweak of block j: alpha^j times the encrypted data unit number. */
  function Tweak(t0: Block, j: nat): Block {
    if j == 0 then t0 else MulAlpha(Tweak(t0, j - 1))
  }

  // ---- data units ----------------------------------------------------------

  datatype Mode = Encrypt | Decrypt

  function Opposite(mode: Mode): Mode {
    if mode.Encrypt? then Decrypt else Encrypt
  }

  /** The block cipher in the given direction. */
  function Crypt(mode: Mode, w: Schedule): Block -> Block {
    (x: Block) => if mode.Encrypt? then Cipher(x, w) else InvCipher(x, w)
  }

  /** One block under a tweak: section 5.3.1, and its inverse. */
  function XtsBlock(f: Block -> Block, x: Block, tweak: Block): Block {
    Xor(f(Xor(x, tweak)), tweak)
  }

  function BlockAt(d: seq<byte>, j: nat): Block
    requires 16 * j + 16 <= |d|
  {
    d[16 * j..16 * j + 16]
  }

  /** The first n blocks of d, each under its own tweak. */
  function FullBlocks(f: Block -> Block, d: seq<byte>, t0: Block, n: nat): (r: seq<byte>)
    requires 16 * n <= |d|
    ensures |r| == 16 * n
  {
    if n == 0 then []
    else FullBlocks(f, d, t0, n - 1) + XtsBlock(f, BlockAt(d, n - 1), Tweak(t0, n - 1))
  }

  /** The number of blocks before the pair that ciphertext stealing treats together. */
  function Leading(len: nat): nat
    requires len >= 16
  {
    if len % 16 == 0 then len / 16 else len / 16 - 1
  }

  /** The partial block p, filled up with the tail of xx. */
  function FillUp(p: seq<byte>, xx: Block): Block
    requires |p| < 16
  {
    p + xx[|p|..]
  }

  /** The last full block x and the partial block p behind it: x is processed under the first
      tweak, its result lends its tail to fill up p, and the filled block, processed under the
      second tweak, takes x's place. */
  function Steal(f: Block -> Block, x: Block, p: seq<byte>, first: Block, second: Block): (r: seq<byte>)
    requires |p| < 16
    ensures |r| == 16 + |p|
  {
    var xx := XtsBlock(f, x, first);
    XtsBlock(f, FillUp(p, xx), second) + xx[..|p|]
  }

  /** What stealing comes to when the partial block has been overwritten with the head of the
      processed block x before it is read: the filled block is the processed block itself. */
  function StealInPlace(f: Block -> Block, x: Block, tail: nat, first: Block, second: Block): (r: seq<byte>)
    requires tail < 16
    ensures |r| == 16 + tail
  {
    var xx := XtsBlock(f, x, first);
    XtsBlock(f, xx, second) + xx[..tail]
  }

  /** The tweaks of the last full block and of the filled block: encryption uses the last two
      tweaks in order, decryption in swapped order. */
  function FirstTweak(mode: Mode, t0: Block, n: nat): Block {
    Tweak(t0, if mode.Encrypt? then n else n + 1)
  }

  function SecondTweak(mode: Mode, t0: Block, n: nat): Block {
    Tweak(t0, if mode.Encrypt? then n + 1 else n)
  }

  /** The result for the last full block and the partial block of a data unit that has one. */
  function LastPair(mode: Mode, f: Block -> Block, d: seq<byte>, t0: Block): seq<byte>
    requires |d| >= 16
  {
    var n := Leading(|d|);
    if |d| % 16 == 0 then []
    else Steal(f, BlockAt(d, n), d[16 * n + 16..], FirstTweak(mode, t0, n), SecondTweak(mode, t0, n))
  }

  function LastPairInPlace(mode: Mode, f: Block -> Block, d: seq<byte>, t0: Block): seq<byte>
    requires |d| >= 16
  {
    var n := Leading(|d|);
    if |d| % 16 == 0 then []
    else StealInPlace(f, BlockAt(d, n), |d| % 16, FirstTweak(mode, t0, n), SecondTweak(mode, t0, n))
  }

  /** A whole data unit. */
  function DataUnit(mode: Mode, f: Block -> Block, d: seq<byte>, t0: Block): (r: seq<byte>)
    requires |d| >= 16
    ensures |r| == |d|
  {
    FullBlocks(f, d, t0, Leading(|d|)) + LastPair(mode, f, d, t0)
  }

  /** What a call gives whose output array is its input array. */
  function DataUnitInPlace(mode: Mode, f: Block -> Block, d: seq<byte>, t0: Block): (r: seq<byte>)
    requires |d| >= 16
    ensures |r| == |d|
  {
    FullBlocks(f, d, t0, Leading(|d|)) + LastPairInPlace(mode, f, d, t0)
  }

  // ---- decryption undoes encryption ----------------------------------------

  ghost predicate Undoes(g: Block -> Block, f: Block -> Block) {
    forall x :: g(f(x)) == x
  }

  lemma CryptInverse(mode: Mode, w: Schedule)
    ensures Undoes(Crypt(Opposite(mode), w), Crypt(mode, w))
  {
    hide Cipher, InvCipher;
    forall x: Block
      ensures Crypt(Opposite(mode), w)(Crypt(mode, w)(x)) == x
    {
      InvCipherUndoesCipher(x, w);
      CipherUndoesInvCipher(x, w);
    }
  }

  lemma XtsBlockInverse(g: Block -> Block, f: Block -> Block, x: Block, tweak: Block)
    requires Undoes(g, f)
    ensures XtsBlock(g, XtsBlock(f, x, tweak), tweak) == x
  {
    hide Xor;
    var y := Xor(x, tweak);
    XorInverse(f(y), tweak);
    XorInverse(x, tweak);
  }

  /** Later blocks do not influence earlier ones. */
  lemma {:induction false} FullBlocksPrefix(f: Block -> Block, d: seq<byte>, e: seq<byte>, t0: Block, n: nat)
    requires 16 * n <= |d| && 16 * n <= |e| && d[..16 * n] == e[..16 * n]
    ensures FullBlocks(f, d, t0, n) == FullBlocks(f, e, t0, n)
  {
    hide XtsBlock, Tweak;
    if n == 0 {
    } else {
      assert d[..16 * (n - 1)] == d[..16 * n][..16 * (n - 1)] == e[..16 * (n - 1)];
      FullBlocksPrefix(f, d, e, t0, n - 1);
      assert BlockAt(d, n - 1) == d[..16 * n][16 * (n - 1)..] == BlockAt(e, n - 1);
    }
  }

  lemma {:induction false} FullBlocksInverse(g: Block -> Block, f: Block -> Block, d: seq<byte>, t0: Block, n: nat)
    requires 16 * n <= |d| && Undoes(g, f)
    ensures FullBlocks(g, FullBlocks(f, d, t0, n), t0, n) == d[..16 * n]
  {
    hide XtsBlock, Tweak;
    if n == 0 {
    } else {
      var r, r' := FullBlocks(f, d, t0, n), FullBlocks(f, d, t0, n - 1);
      var last := XtsBlock(f, BlockAt(d, n - 1), Tweak(t0, n - 1));
      assert r[..16 * (n - 1)] == r'[..16 * (n - 1)] && BlockAt(r, n - 1) == last;
      FullBlocksPrefix(g, r, r', t0, n - 1);
      FullBlocksInverse(g, f, d, t0, n - 1);
      XtsBlockInverse(g, f, BlockAt(d, n - 1), Tweak(t0, n - 1));
      assert d[..16 * n] == d[..16 * (n - 1)] + BlockAt(d, n - 1);
    }
  }

  /** Stealing back: the tweaks come in swapped order, which is what makes it work. */
  lemma StealInverse(g: Block -> Block, f: Block -> Block, x: Block, p: seq<byte>, first: Block, second: Block)
    requires |p| < 16 && Undoes(g, f)
    ensures var r := Steal(f, x, p, first, second);
      Steal(g, r[..16], r[16..], second, first) == x + p
  {
    hide XtsBlock;
    var xx := XtsBlock(f, x, first);
    var filled := FillUp(p, xx);
    var yy := XtsBlock(f, filled, second);
    assert (yy + xx[..|p|])[..16] == yy && (yy + xx[..|p|])[16..] == xx[..|p|];
    XtsBlockInverse(g, f, filled, second);
    assert FillUp(xx[..|p|], filled) == xx && filled[..|p|] == p;
    XtsBlockInverse(g, f, x, first);
  }

  /** Stealing back from the last blocks of a result, whatever stands before them. */
  lemma LastPairInverse(mode: Mode, g: Block -> Block, f: Block -> Block, d: seq<byte>, head: seq<byte>, t0: Block)
    requires |d| >= 16 && Undoes(g, f) && |head| == 16 * Leading(|d|)
    ensures |head + LastPair(mode, f, d, t0)| == |d|
    ensures LastPair(Opposite(mode), g, head + LastPair(mode, f, d, t0), t0) == d[16 * Leading(|d|)..]
  {
    hide XtsBlock, Steal, Tweak;
    var n := Leading(|d|);
    if |d| % 16 != 0 {
      var (x, p) := (BlockAt(d, n), d[16 * n + 16..]);
      var s := Steal(f, x, p, FirstTweak(mode, t0, n), SecondTweak(mode, t0, n));
      assert BlockAt(head + s, n) == s[..16] && (head + s)[16 * n + 16..] == s[16..];
      StealInverse(g, f, x, p, FirstTweak(mode, t0, n), SecondTweak(mode, t0, n));
      assert d[16 * n..] == x + p;
    }
  }

  /** Processing a data unit in one direction and then in the other gives it back, for every
      length from one block on and every block permutation with its inverse. */
  lemma DataUnitInverse(mode: Mode, g: Block -> Block, f: Block -> Block, d: seq<byte>, t0: Block)
    requires |d| >= 16 && Undoes(g, f)
    ensures DataUnit(Opposite(mode), g, DataUnit(mode, f, d, t0), t0) == d
  {
    hide LastPair, FullBlocks;
    var n := Leading(|d|);
    var head, r := FullBlocks(f, d, t0, n), DataUnit(mode, f, d, t0);
    LastPairInverse(mode, g, f, d, head, t0);
    assert r[..16 * n] == head == head[..16 * n];
    FullBlocksPrefix(g, r, head, t0, n);
    FullBlocksInverse(g, f, d, t0, n);
    assert d == d[..16 * n] + d[16 * n..];
  }

  // ---- output over input -----------------------------------------------------

  /** An invertible function sends different blocks to different blocks under a tweak. */
  lemma XtsBlockInjective(g: Block -> Block, f: Block -> Block, x: Block, y: Block, tweak: Block)
    requires Undoes(g, f) && XtsBlock(f, x, tweak) == XtsBlock(f, y, tweak)
    ensures x == y
  {
    hide XtsBlock;
    XtsBlockInverse(g, f, x, tweak);
    XtsBlockInverse(g, f, y, tweak);
  }

  /** Stealing in place is right exactly if the partial block already is the head of the
      processed block. */
  lemma StealInPlaceIff(g: Block -> Block, f: Block -> Block, x: Block, p: seq<byte>, first: Block, second: Block)
    requires |p| < 16 && Undoes(g, f)
    ensures StealInPlace(f, x, |p|, first, second) == Steal(f, x, p, first, second)
      <==> p == XtsBlock(f, x, first)[..|p|]
  {
    hide XtsBlock;
    var xx := XtsBlock(f, x, first);
    var filled := FillUp(p, xx);
    assert StealInPlace(f, x, |p|, first, second)[..16] == XtsBlock(f, xx, second);
    assert Steal(f, x, p, first, second)[..16] == XtsBlock(f, filled, second);
    if XtsBlock(f, xx, second) == XtsBlock(f, filled, second) {
      XtsBlockInjective(g, f, xx, filled, second);
      assert filled[..|p|] == p;
    }
    if p == xx[..|p|] {
      assert filled == xx;
    }
  }

  /** In place the partial block is lost: two data units that differ in it only give the
      same result. */
  lemma InPlaceForgets(mode: Mode, f: Block -> Block, d: seq<byte>, e: seq<byte>, t0: Block)
    requires |d| == |e| >= 16 && |d| % 16 != 0
    requires d[..16 * Leading(|d|) + 16] == e[..16 * Leading(|d|) + 16]
    ensures DataUnitInPlace(mode, f, d, t0) == DataUnitInPlace(mode, f, e, t0)
  {
    hide FullBlocks, StealInPlace, Tweak;
    var n := Leading(|d|);
    assert d[..16 * n] == d[..16 * n + 16][..16 * n] == e[..16 * n];
    FullBlocksPrefix(f, d, e, t0, n);
    assert BlockAt(d, n) == d[..16 * n + 16][16 * n..] == BlockAt(e, n);
  }

  /** h gets every data unit of the length back from its result in place. */
  ghost predicate Recovers(h: seq<byte> -> seq<byte>, mode: Mode, f: Block -> Block, t0: Block, len: nat)
    requires len >= 16
  {
    forall d: seq<byte> | |d| == len :: h(DataUnitInPlace(mode, f, d, t0)) == d
  }

  /** Two data units of a length with a partial block that differ in their last byte only. */
  lemma TwoUnits(len: nat) returns (d: seq<byte>, e: seq<byte>)
    requires len >= 16 && len % 16 != 0
    ensures |d| == |e| == len && d != e
    ensures d[..16 * Leading(len) + 16] == e[..16 * Leading(len) + 16]
  {
    d := seq(len, _ => 0);
    e := d[len - 1 := 1];
    assert d[len - 1] != e[len - 1];
  }

  /** Whole blocks may be processed in place. */
  lemma InPlaceWhole(mode: Mode, f: Block -> Block, d: seq<byte>, t0: Block)
    requires |d| >= 16 && |d| % 16 == 0
    ensures DataUnitInPlace(mode, f, d, t0) == DataUnit(mode, f, d, t0)
  {
    hide FullBlocks;
  }

  /** A data unit processed in place can be recovered, by whatever means, if and only if its
      length is a multiple of the block size. */
  lemma InPlaceRecoverableIff(mode: Mode, g: Block -> Block, f: Block -> Block, t0: Block, len: nat)
    requires Undoes(g, f) && len >= 16
    ensures (exists h :: Recovers(h, mode, f, t0, len)) <==> len % 16 == 0
  {
    hide FullBlocks, DataUnitInPlace, DataUnit;
    if len % 16 == 0 {
      var h := (r: seq<byte>) => if |r| >= 16 then DataUnit(Opposite(mode), g, r, t0) else r;
      forall d: seq<byte> | |d| == len
        ensures h(DataUnitInPlace(mode, f, d, t0)) == d
      {
        InPlaceWhole(mode, f, d, t0);
        DataUnitInverse(mode, g, f, d, t0);
      }
      assert Recovers(h, mode, f, t0, len);
    } else {
      var d, e := TwoUnits(len);
      InPlaceForgets(mode, f, d, e, t0);
      forall h
        ensures !Recovers(h, mode, f, t0, len)
      {
        assert h(DataUnitInPlace(mode, f, d, t0)) == h(DataUnitInPlace(mode, f, e, t0));
      }
    }
  }

  /** Processing in place is right for all data units of a length if and only if the length is
      a multiple of the block size. */
  lemma InPlaceIff(mode: Mode, g: Block -> Block, f: Block -> Block, t0: Block, len: nat)
    requires Undoes(g, f) && len >= 16
    ensures (forall d: seq<byte> | |d| == len :: DataUnitInPlace(mode, f, d, t0) == DataUnit(mode, f, d, t0))
      <==> len % 16 == 0
  {
    hide FullBlocks, DataUnitInPlace, DataUnit;
    if len % 16 == 0 {
      forall d: seq<byte> | |d| == len
        ensures DataUnitInPlace(mode, f, d, t0) == DataUnit(mode, f, d, t0)
      {
        InPlaceWhole(mode, f, d, t0);
      }
    } else {
      var d, e := TwoUnits(len);
      InPlaceForgets(mode, f, d, e, t0);
      DataUnitInverse(mode, g, f, d, t0);
      DataUnitInverse(mode, g, f, e, t0);
    }
  }

  /** XTS-AES-256 with keys key1 and key2 and data unit number iv. */
  function XtsAes256(mode: Mode, d: seq<byte>, key1: Key, key2: Key, iv: Block): (r: seq<byte>)
    requires |d| >= 16
    ensures |r| == |d|
  {
    DataUnit(mode, Crypt(mode, ExpandedKey(key1)), d, Cipher(iv, ExpandedKey(key2)))
  }

  /** What the two procedures compute when the output array is the input array. */
  function XtsAes256InPlace(mode: Mode, d: seq<byte>, key1: Key, key2: Key, iv: Block): (r: seq<byte>)
    requires |d| >= 16
    ensures |r| == |d|
  {
    DataUnitInPlace(mode, Crypt(mode, ExpandedKey(key1)), d, Cipher(iv, ExpandedKey(key2)))
  }

  /** Decrypting what was encrypted gives the data unit back, and the other way round. */
  lemma RoundTrip(mode: Mode, d: seq<byte>, key1: Key, key2: Key, iv: Block)
    requires |d| >= 16
    ensures XtsAes256(Opposite(mode), XtsAes256(mode, d, key1, key2, iv), key1, key2, iv) == d
  {
    hide Cipher, DataUnit, ExpandedKey, Crypt;
    var w := ExpandedKey(key1);
    CryptInverse(mode, w);
    DataUnitInverse(mode, Crypt(Opposite(mode), w), Crypt(mode, w), d, Cipher(iv, ExpandedKey(key2)));
  }

  /** With the output over the input, the data units of a length are processed as they should
      be if and only if the length is a multiple of the block size. */
  lemma XtsInPlaceIff(mode: Mode, key1: Key, key2: Key, iv: Block, len: nat)
    requires len >= 16
    ensures (forall d: seq<byte> | |d| == len ::
        XtsAes256InPlace(mode, d, key1, key2, iv) == XtsAes256(mode, d, key1, key2, iv))
      <==> len % 16 == 0
  {
    hide Cipher, DataUnit, DataUnitInPlace, ExpandedKey, Crypt;
    var w := ExpandedKey(key1);
    var f, t0 := Crypt(mode, w), Cipher(iv, ExpandedKey(key2));
    CryptInverse(mode, w);
    InPlaceIff(mode, Crypt(Opposite(mode), w), f, t0, len);
    if forall d: seq<byte> | |d| == len ::
        XtsAes256InPlace(mode, d, key1, key2, iv) == XtsAes256(mode, d, key1, key2, iv) {
      forall d: seq<byte> | |d| == len
        ensures DataUnitInPlace(mode, f, d, t0) == DataUnit(mode, f, d, t0)
      {
        assert XtsAes256InPlace(mode, d, key1, key2, iv) == XtsAes256(mode, d, key1, key2, iv);
      }
    }
  }
}
