/** The byte-array implementation of AES-256-XTS in tests/ref_aes_xts.c. */
module XtsRef {
  import opened AesField
  import opened Aes256
  import opened Aes256Cipher
  import opened AesRef
  import opened Xts

  lemma OrZero(b: byte)
    ensures b | 0 == b
  {
  }

  lemma CarryIn(b: byte, below: byte)
    ensures (b << 1) | (below >> 7) == ShiftUp(b, below)
  {
  }

  lemma LastCarry(b: byte, top: byte)
    ensures (b << 1) ^ ((top >> 7) * 0x87) == Reduce(b, top)
  {
  }

  lemma Doubled(t: Block, s: Block)
    requires t[0] == Reduce(s[0], s[15]) && forall k :: 1 <= k < 16 ==> t[k] == ShiftUp(s[k], s[k - 1])
    ensures t == MulAlpha(s)
  {
    hide ShiftUp, Reduce;
  }

  /** Doubles the tweak in place, byte by byte with a carry. */
  method RefMulX(t: array<byte>)
    requires t.Length == 16
    modifies t
    ensures View(t) == MulAlpha(old(View(t)))
  {
    hide ShiftUp, Reduce, MulAlpha;
    ghost var s := t[..];
    var carry: byte := 0;
    var i := 0;
    while i < 16
      invariant 0 <= i <= 16
      invariant carry == if i == 0 then 0 else s[i - 1] >> 7
      invariant forall k :: i <= k < 16 ==> t[k] == s[k]
      invariant forall k :: 1 <= k < i ==> t[k] == ShiftUp(s[k], s[k - 1])
      invariant i > 0 ==> t[0] == s[0] << 1
    {
      var next := t[i] >> 7;
      if i == 0 {
        OrZero(t[i] << 1);
      } else {
        CarryIn(s[i], s[i - 1]);
      }
      t[i] := (t[i] << 1) | carry;
      carry := next;
      i := i + 1;
    }
    LastCarry(s[0], s[15]);
    t[0] := t[0] ^ (carry * 0x87);
    Doubled(View(t), s);
  }

  lemma XorEntries(z: Block, x: Block, y: Block)
    requires forall k :: 0 <= k < 16 ==> z[k] == Plus(x[k], y[k])
    ensures z == Xor(x, y)
  {
  }

  /** block = src[n..n+16) xor tweak. */
  method MaskIn(block: array<byte>, src: array<byte>, n: nat, tweak: array<byte>)
    requires block.Length == tweak.Length == 16 && n + 16 <= src.Length && block != tweak && block != src
    modifies block
    ensures View(block) == Xor(src[n..n + 16], View(tweak))
  {
    hide Xor, Plus;
    var j := 0;
    while j < 16
      invariant 0 <= j <= 16
      invariant forall k :: 0 <= k < j ==> block[k] == Plus(src[n + k], tweak[k])
    {
      block[j] := Plus(src[n + j], tweak[j]);
      j := j + 1;
    }
    XorEntries(View(block), src[n..n + 16], View(tweak));
  }

  /** dst[n..n+16) = block xor tweak. */
  method MaskOut(dst: array<byte>, n: nat, block: array<byte>, tweak: array<byte>)
    requires block.Length == tweak.Length == 16 && n + 16 <= dst.Length && dst != block && dst != tweak
    modifies dst
    ensures dst[n..n + 16] == Xor(View(block), View(tweak))
    ensures forall k :: 0 <= k < dst.Length && !(n <= k < n + 16) ==> dst[k] == old(dst[k])
  {
    hide Xor, Plus;
    var j := 0;
    while j < 16
      invariant 0 <= j <= 16
      invariant forall k :: 0 <= k < j ==> dst[n + k] == Plus(block[k], tweak[k])
      invariant forall k :: 0 <= k < dst.Length && !(n <= k < n + 16) ==> dst[k] == old(dst[k])
    {
      dst[n + j] := Plus(block[j], tweak[j]);
      j := j + 1;
    }
    ghost var z: Block := dst[n..n + 16];
    assert forall k :: 0 <= k < 16 ==> z[k] == dst[n + k];
    XorEntries(z, View(block), View(tweak));
  }

  method CryptInto(mode: Mode, inp: array<byte>, out: array<byte>, ek: array<byte>)
    requires inp.Length == out.Length == 16 && ek.Length == 240
    modifies out
    ensures View(out) == Crypt(mode, old(ek[..]))(old(View(inp)))
  {
    hide Cipher, InvCipher;
    if mode.Encrypt? {
      EncryptBlock(inp, out, ek);
    } else {
      DecryptBlock(inp, out, ek);
    }
  }

  /** One block from inp[m..] to out[n..] under the tweak. */
  method CryptMasked(mode: Mode, inp: array<byte>, m: nat, out: array<byte>, n: nat,
                     tweak: array<byte>, ek: array<byte>)
    requires m + 16 <= inp.Length && n + 16 <= out.Length && tweak.Length == 16 && ek.Length == 240
    requires out != tweak
    modifies out
    ensures out[n..n + 16] == XtsBlock(Crypt(mode, old(ek[..])), old(inp[m..m + 16]), View(tweak))
    ensures forall k :: 0 <= k < out.Length && !(n <= k < n + 16) ==> out[k] == old(out[k])
  {
    hide Xor, Crypt;
    var block := new byte[16];
    MaskIn(block, inp, m, tweak);
    CryptInto(mode, block, block, ek);
    MaskOut(out, n, block, tweak);
  }

  /** The full blocks, in order, with the tweak doubled after each. The output may be the
      input array: every block is read before it is written. */
  method CryptBlocks(mode: Mode, inp: array<byte>, out: array<byte>, tweak: array<byte>, ek: array<byte>, n: nat)
    requires 16 * n <= inp.Length && 16 * n <= out.Length && tweak.Length == 16 && ek.Length == 240
    requires tweak != out && tweak != inp && ek != out && ek != tweak
    modifies out, tweak
    ensures out[..16 * n] == FullBlocks(Crypt(mode, ek[..]), old(inp[..]), old(View(tweak)), n)
    ensures forall k :: 16 * n <= k < out.Length ==> out[k] == old(out[k])
    ensures View(tweak) == Tweak(old(View(tweak)), n)
  {
    hide XtsBlock, Crypt, MulAlpha;
    ghost var d, t0, o, f := inp[..], View(tweak), out[..], Crypt(mode, ek[..]);
    var i := 0;
    while i < n
      invariant 0 <= i <= n && ek[..] == old(ek[..])
      invariant View(tweak) == Tweak(t0, i)
      invariant out[..16 * i] == FullBlocks(f, d, t0, i)
      invariant forall k :: 16 * i <= k < out.Length ==> out[k] == o[k]
      invariant forall k :: 16 * i <= k < inp.Length ==> inp[k] == d[k]
    {
      ghost var was := out[..];
      assert inp[16 * i..16 * i + 16] == BlockAt(d, i);
      CryptMasked(mode, inp, 16 * i, out, 16 * i, tweak, ek);
      assert out[..16 * (i + 1)] == was[..16 * i] + out[16 * i..16 * i + 16];
      RefMulX(tweak);
      i := i + 1;
    }
  }

  /** Fills block with the partial input behind position n and the tail of cc, and hands the
      head of cc out as the partial output. Each output byte is written before the input byte
      at the same place is read, so in place the block is filled with the whole of cc. */
  method StealTail(cc: array<byte>, block: array<byte>, inp: array<byte>, out: array<byte>, n: nat, tail: nat)
    requires cc.Length == block.Length == 16 && tail < 16 && n + tail <= inp.Length && n + tail <= out.Length
    requires block != cc && block != out && block != inp && cc != out
    modifies block, out
    ensures View(block) == if inp == out then View(cc) else FillUp(old(inp[n..n + tail]), View(cc))
    ensures out[n..n + tail] == cc[..tail]
    ensures forall k :: 0 <= k < out.Length && !(n <= k < n + tail) ==> out[k] == old(out[k])
  {
    StoreBlock(cc, block);
    var j := 0;
    while j < tail
      invariant 0 <= j <= tail
      invariant forall k :: 0 <= k < j ==> out[n + k] == cc[k] && block[k] == inp[n + k]
      invariant forall k :: j <= k < 16 ==> block[k] == cc[k]
      invariant forall k :: 0 <= k < out.Length && !(n <= k < n + tail) ==> out[k] == old(out[k])
    {
      out[n + j] := cc[j];
      block[j] := inp[n + j];
      j := j + 1;
    }
    if inp != out {
      assert View(block) == inp[n..n + tail] + View(cc)[tail..];
    } else {
      assert forall k :: 0 <= k < 16 ==> block[k] == cc[k];
    }
  }

  /** The outcome of stealing, in place or not. */
  function Stolen(same: bool, f: Block -> Block, x: Block, p: seq<byte>, first: Block, second: Block): seq<byte>
    requires |p| < 16
  {
    if same then StealInPlace(f, x, |p|, first, second) else Steal(f, x, p, first, second)
  }

  lemma StolenFrom(same: bool, f: Block -> Block, x: Block, p: seq<byte>, first: Block, second: Block)
    requires |p| < 16
    ensures var xx := XtsBlock(f, x, first);
      Stolen(same, f, x, p, first, second) == XtsBlock(f, if same then xx else FillUp(p, xx), second) + xx[..|p|]
  {
    hide XtsBlock, FillUp;
  }

  lemma SplitSlice(s: seq<byte>, a: nat, b: nat, c: nat)
    requires a <= b <= c <= |s|
    ensures s[a..c] == s[a..b] + s[b..c]
  {
  }

  /** Ciphertext stealing from position n on. */
  method StealInto(mode: Mode, inp: array<byte>, out: array<byte>, n: nat, tail: nat,
                   first: array<byte>, second: array<byte>, ek: array<byte>)
    requires tail < 16 && n + 16 + tail <= inp.Length && n + 16 + tail <= out.Length
    requires first.Length == second.Length == 16 && ek.Length == 240
    requires out !in {first, second, ek}
    modifies out
    ensures out[n..n + 16 + tail] == Stolen(inp == out, Crypt(mode, ek[..]), old(inp[n..n + 16]),
                                            old(inp[n + 16..n + 16 + tail]), View(first), View(second))
    ensures forall k :: 0 <= k < out.Length && !(n <= k < n + 16 + tail) ==> out[k] == old(out[k])
  {
    hide XtsBlock, Crypt, Stolen, FillUp;
    StolenFrom(inp == out, Crypt(mode, ek[..]), inp[n..n + 16], inp[n + 16..n + 16 + tail], View(first), View(second));
    var cc, block := new byte[16], new byte[16];
    CryptMasked(mode, inp, n, cc, 0, first, ek);
    assert View(cc) == cc[0..16];
    StealTail(cc, block, inp, out, n + 16, tail);
    ghost var was := out[..];
    assert View(block) == block[0..16];
    CryptMasked(mode, block, 0, out, n, second, ek);
    assert out[n + 16..n + 16 + tail] == was[n + 16..n + 16 + tail];
    SplitSlice(out[..], n, n + 16, n + 16 + tail);
  }

  lemma TweakStep(t0: Block, n: nat)
    ensures Tweak(t0, n + 1) == MulAlpha(Tweak(t0, n))
  {
  }

  /** A data unit, in place or not. */
  function Unit(same: bool, mode: Mode, f: Block -> Block, d: seq<byte>, t0: Block): seq<byte>
    requires |d| >= 16
  {
    if same then DataUnitInPlace(mode, f, d, t0) else DataUnit(mode, f, d, t0)
  }

  /** A result whose first blocks and last block pair are right is the whole data unit. */
  lemma Assemble(same: bool, mode: Mode, f: Block -> Block, d: seq<byte>, t0: Block, r: seq<byte>, all: seq<byte>)
    requires |d| >= 16 && |r| == |d| && d <= all
    requires var n := Leading(|d|);
      && r[..16 * n] == FullBlocks(f, all, t0, n)
      && r[16 * n..] == if |d| % 16 == 0 then [] else
           Stolen(same, f, BlockAt(d, n), d[16 * n + 16..], FirstTweak(mode, t0, n), SecondTweak(mode, t0, n))
    ensures r == Unit(same, mode, f, d, t0)
  {
    hide FullBlocks, Steal, StealInPlace, FirstTweak, SecondTweak;
    var n := Leading(|d|);
    assert d[..16 * n] == all[..16 * n];
    FullBlocksPrefix(f, all, d, t0, n);
    assert r == r[..16 * n] + r[16 * n..];
  }

  /** The last block pair; decryption swaps the two tweaks. */
  method CryptTail(mode: Mode, inp: array<byte>, out: array<byte>, n: nat, tail: nat,
                   tweak: array<byte>, ek: array<byte>, ghost t0: Block)
    requires 0 < tail < 16 && 16 * n + 16 + tail <= inp.Length && 16 * n + 16 + tail <= out.Length
    requires tweak.Length == 16 && ek.Length == 240 && out != tweak && out != ek
    requires View(tweak) == Tweak(t0, n)
    modifies out
    ensures out[..16 * n] == old(out[..16 * n])
    ensures forall k :: 16 * n + 16 + tail <= k < out.Length ==> out[k] == old(out[k])
    ensures out[16 * n..16 * n + 16 + tail] ==
      Stolen(inp == out, Crypt(mode, ek[..]), old(inp[16 * n..16 * n + 16]),
             old(inp[16 * n + 16..16 * n + 16 + tail]), FirstTweak(mode, t0, n), SecondTweak(mode, t0, n))
  {
    hide Crypt, Stolen, MulAlpha, XtsBlock, Tweak;
    var next := CopyBlock(tweak);
    RefMulX(next);
    TweakStep(t0, n);
    if mode.Encrypt? {
      StealInto(mode, inp, out, 16 * n, tail, tweak, next, ek);
    } else {
      StealInto(mode, inp, out, 16 * n, tail, next, tweak, ek);
    }
  }

  lemma LaterSlice(now: seq<byte>, before: seq<byte>, len: nat, lo: nat, hi: nat)
    requires lo <= hi <= len <= |now| == |before| && forall k :: lo <= k < len ==> now[k] == before[k]
    ensures now[lo..hi] == before[..len][lo..hi]
  {
  }

  /** The part of the two entry points after the keys have been expanded and the first tweak
      has been computed. */
  method CryptUnit(mode: Mode, inp: array<byte>, out: array<byte>, len: nat, tweak: array<byte>, ek: array<byte>)
    requires 16 <= len <= inp.Length && len <= out.Length && tweak.Length == 16 && ek.Length == 240
    requires tweak != out && tweak != inp && ek != out && ek != tweak
    modifies out, tweak
    ensures out[..len] == Unit(inp == out, mode, Crypt(mode, ek[..]), old(inp[..len]), old(View(tweak)))
    ensures forall k :: len <= k < out.Length ==> out[k] == old(out[k])
  {
    hide Crypt, FullBlocks, Stolen, MulAlpha, XtsBlock, Unit, Tweak, FirstTweak, SecondTweak;
    ghost var d, all, t0, f := inp[..len], inp[..], View(tweak), Crypt(mode, ek[..]);
    var tail, nblocks := len % 16, len / 16;
    if tail != 0 {
      nblocks := nblocks - 1;
    }
    CryptBlocks(mode, inp, out, tweak, ek, nblocks);
    if tail != 0 {
      LaterSlice(inp[..], all, len, 16 * nblocks, 16 * nblocks + 16);
      LaterSlice(inp[..], all, len, 16 * nblocks + 16, len);
      assert inp[..][16 * nblocks..16 * nblocks + 16] == BlockAt(d, nblocks);
      assert inp[..][16 * nblocks + 16..len] == d[16 * nblocks + 16..];
      CryptTail(mode, inp, out, nblocks, tail, tweak, ek, t0);
    }
    assert out[..len][..16 * nblocks] == out[..16 * nblocks];
    assert out[..len][16 * nblocks..] == out[16 * nblocks..len];
    Assemble(inp == out, mode, f, d, t0, out[..len], all);
  }

  /** The expanded first key and the first tweak, which is encrypted in both directions. */
  method Prepare(key1: array<byte>, key2: array<byte>, iv: array<byte>) returns (ek1: array<byte>, tweak: array<byte>)
    requires key1.Length == key2.Length == 32 && iv.Length == 16
    ensures fresh(ek1) && fresh(tweak) && ek1 != tweak && ek1.Length == 240 && tweak.Length == 16
    ensures ek1[..] == ExpandedKey(key1[..])
    ensures View(tweak) == Cipher(View(iv), ExpandedKey(key2[..]))
  {
    hide Cipher, ExpandedKey;
    var ek2, rounds;
    ek1, rounds := ExpandKey(key1);
    ek2, rounds := ExpandKey(key2);
    tweak := new byte[16];
    EncryptBlock(iv, tweak, ek2);
  }

  /** Encrypts a data unit of len bytes; one shorter than a block is left alone. */
  method XtsEncrypt(inp: array<byte>, out: array<byte>, len: nat, key1: array<byte>, key2: array<byte>, iv: array<byte>)
    requires len <= inp.Length && len <= out.Length && key1.Length == key2.Length == 32 && iv.Length == 16
    modifies out
    ensures len < 16 ==> out[..] == old(out[..])
    ensures inp != out && len >= 16 ==>
              out[..len] == XtsAes256(Encrypt, old(inp[..len]), old(key1[..]), old(key2[..]), old(View(iv)))
    ensures inp == out && len >= 16 ==>
              out[..len] == XtsAes256InPlace(Encrypt, old(inp[..len]), old(key1[..]), old(key2[..]), old(View(iv)))
    ensures forall k :: len <= k < out.Length ==> out[k] == old(out[k])
  {
    hide Crypt, Cipher, ExpandedKey, DataUnit, DataUnitInPlace;
    if len < 16 {
      return;
    }
    var ek1, tweak := Prepare(key1, key2, iv);
    CryptUnit(Encrypt, inp, out, len, tweak, ek1);
  }

  /** Decrypts a data unit of len bytes; one shorter than a block is left alone. */
  method XtsDecrypt(inp: array<byte>, out: array<byte>, len: nat, key1: array<byte>, key2: array<byte>, iv: array<byte>)
    requires len <= inp.Length && len <= out.Length && key1.Length == key2.Length == 32 && iv.Length == 16
    modifies out
    ensures len < 16 ==> out[..] == old(out[..])
    ensures inp != out && len >= 16 ==>
              out[..len] == XtsAes256(Decrypt, old(inp[..len]), old(key1[..]), old(key2[..]), old(View(iv)))
    ensures inp == out && len >= 16 ==>
              out[..len] == XtsAes256InPlace(Decrypt, old(inp[..len]), old(key1[..]), old(key2[..]), old(View(iv)))
    ensures forall k :: len <= k < out.Length ==> out[k] == old(out[k])
  {
    hide Crypt, Cipher, ExpandedKey, DataUnit, DataUnitInPlace;
    if len < 16 {
      return;
    }
    var ek1, tweak := Prepare(key1, key2, iv);
    CryptUnit(Decrypt, inp, out, len, tweak, ek1);
  }

  lemma WholeBlocksInPlace(mode: Mode, d: seq<byte>, key1: Key, key2: Key, iv: Block)
    requires |d| >= 16 && |d| % 16 == 0
    ensures XtsAes256InPlace(mode, d, key1, key2, iv) == XtsAes256(mode, d, key1, key2, iv)
  {
    hide DataUnit, DataUnitInPlace, Crypt, Cipher, ExpandedKey;
    InPlaceWhole(mode, Crypt(mode, ExpandedKey(key1)), d, Cipher(iv, ExpandedKey(key2)));
  }

  /** Decrypting in a second call what a first call encrypted restores the data unit; whole
      blocks also in one and the same array. */
  method RoundTripOnArrays(inp: array<byte>, mid: array<byte>, out: array<byte>, len: nat,
                           key1: array<byte>, key2: array<byte>, iv: array<byte>)
    requires 16 <= len && len <= inp.Length && len <= mid.Length && len <= out.Length
    requires key1.Length == key2.Length == 32 && iv.Length == 16
    requires mid !in {key1, key2, iv}
    requires mid == inp || mid == out ==> len % 16 == 0
    modifies mid, out
    ensures out[..len] == old(inp[..len])
  {
    hide XtsAes256, XtsAes256InPlace;
    ghost var d, k1, k2, n := inp[..len], key1[..], key2[..], View(iv);
    XtsEncrypt(inp, mid, len, key1, key2, iv);
    assert key1[..] == k1 && key2[..] == k2 && View(iv) == n;
    XtsDecrypt(mid, out, len, key1, key2, iv);
    if len % 16 == 0 {
      WholeBlocksInPlace(Encrypt, d, k1, k2, n);
      WholeBlocksInPlace(Decrypt, XtsAes256(Encrypt, d, k1, k2, n), k1, k2, n);
    }
    RoundTrip(Encrypt, d, k1, k2, n);
  }
}
