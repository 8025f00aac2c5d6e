/** The byte-array implementation of AES-256 in tests/ref_aes_xts.c, step by step in place. */
module AesRef {
  import opened AesField
  import opened Aes256
  import opened Aes256Cipher

  lemma LoopStart(a: byte, b: byte)
    ensures Raise(a, 0) == a && Drop(b, 0) == b && PartialProduct(a, b, 0) == 0
  {
  }

  lemma PlusZero(p: byte)
    ensures Plus(p, 0) == p
  {
  }

  lemma LoopStep(a: byte, b: byte, i: nat)
    ensures Raise(a, i + 1) == Xtime(Raise(a, i)) && Drop(b, i + 1) == Drop(b, i) >> 1
    ensures PartialProduct(a, b, i + 1)
         == if Drop(b, i) & 1 == 1 then PartialProduct(a, b, i) ^ Raise(a, i) else PartialProduct(a, b, i)
  {
    hide Xtime;
    PartialStep(a, b, i);
    hide PartialProduct;
    PlusZero(PartialProduct(a, b, i));
  }

  /** The shift-and-add loop multiplies in GF(2^8). */
  method RefGfMul(a0: byte, b0: byte) returns (r: byte)
    ensures r == GfMul(a0, b0)
  {
    hide Xtime, Plus, Raise, Drop, PartialProduct, Term;
    var a, b := a0, b0;
    r := 0;
    LoopStart(a0, b0);
    var i := 0;
    while i < 8
      invariant 0 <= i <= 8
      invariant a == Raise(a0, i) && b == Drop(b0, i)
      invariant r == PartialProduct(a0, b0, i)
    {
      LoopStep(a0, b0, i);
      if b & 1 == 1 {
        r := r ^ a;
      }
      a := Xtime(a);
      b := b >> 1;
      i := i + 1;
    }
  }

  /** A sixteen-byte array as a block. */
  ghost function View(s: array<byte>): Block
    requires s.Length == 16
    reads s
  {
    s[..]
  }

  method SubstituteInto(t: array<byte>, s: array<byte>)
    requires s.Length == t.Length == 16 && s != t
    modifies t
    ensures View(t) == SubBytes(View(s))
  {
    hide Sbox;
    var i := 0;
    while i < 16
      invariant 0 <= i <= 16
      invariant forall k :: 0 <= k < i ==> t[k] == Sbox(s[k])
    {
      t[i] := Sbox(s[i]);
      i := i + 1;
    }
  }

  /** Overwrites four bytes. */
  method SetFour(s: array<byte>, n: nat, a: byte, b: byte, c: byte, d: byte)
    requires n + 4 <= s.Length
    modifies s
    ensures s[n] == a && s[n + 1] == b && s[n + 2] == c && s[n + 3] == d
    ensures forall k :: 0 <= k < s.Length && !(n <= k < n + 4) ==> s[k] == old(s[k])
  {
    s[n] := a;
    s[n + 1] := b;
    s[n + 2] := c;
    s[n + 3] := d;
  }

  /** Two blocks with the same sixteen entries are the same block. */
  lemma SameEntries(s: Block, t: Block)
    requires s[0] == t[0] && s[1] == t[1] && s[2] == t[2] && s[3] == t[3]
    requires s[4] == t[4] && s[5] == t[5] && s[6] == t[6] && s[7] == t[7]
    requires s[8] == t[8] && s[9] == t[9] && s[10] == t[10] && s[11] == t[11]
    requires s[12] == t[12] && s[13] == t[13] && s[14] == t[14] && s[15] == t[15]
    ensures s == t
  {
    assert forall k :: 0 <= k < 16 ==> s[k] == t[k];
  }

  lemma ShiftRowsLow(t: Block)
    ensures ShiftRows(t)[0] == t[0] && ShiftRows(t)[1] == t[5] && ShiftRows(t)[2] == t[10] && ShiftRows(t)[3] == t[15]
    ensures ShiftRows(t)[4] == t[4] && ShiftRows(t)[5] == t[9] && ShiftRows(t)[6] == t[14] && ShiftRows(t)[7] == t[3]
  {
  }

  lemma ShiftRowsHigh(t: Block)
    ensures ShiftRows(t)[8] == t[8] && ShiftRows(t)[9] == t[13] && ShiftRows(t)[10] == t[2] && ShiftRows(t)[11] == t[7]
    ensures ShiftRows(t)[12] == t[12] && ShiftRows(t)[13] == t[1]
    ensures ShiftRows(t)[14] == t[6] && ShiftRows(t)[15] == t[11]
  {
  }

  lemma ShiftedEntries(s: Block, t: Block)
    requires s[0] == t[0] && s[1] == t[5] && s[2] == t[10] && s[3] == t[15]
    requires s[4] == t[4] && s[5] == t[9] && s[6] == t[14] && s[7] == t[3]
    requires s[8] == t[8] && s[9] == t[13] && s[10] == t[2] && s[11] == t[7]
    requires s[12] == t[12] && s[13] == t[1] && s[14] == t[6] && s[15] == t[11]
    ensures s == ShiftRows(t)
  {
    hide ShiftRows;
    ShiftRowsLow(t);
    ShiftRowsHigh(t);
    SameEntries(s, ShiftRows(t));
  }

  method ShiftInto(s: array<byte>, t: array<byte>)
    requires s.Length == t.Length == 16 && s != t
    modifies s
    ensures View(s) == ShiftRows(View(t))
  {
    hide ShiftRows;
    SetFour(s, 0, t[0], t[5], t[10], t[15]);
    SetFour(s, 4, t[4], t[9], t[14], t[3]);
    SetFour(s, 8, t[8], t[13], t[2], t[7]);
    SetFour(s, 12, t[12], t[1], t[6], t[11]);
    ShiftedEntries(View(s), View(t));
  }

  method MixInPlace(s: array<byte>)
    requires s.Length == 16
    modifies s
    ensures View(s) == MixColumns(old(View(s)))
  {
    hide Mix0, Mix1, Mix2, Mix3, MixColumns;
    ghost var s0 := View(s);
    ghost var m := MixColumns(s0);
    var i := 0;
    while i < 4
      invariant 0 <= i <= 4
      invariant forall k :: 4 * i <= k < 16 ==> s[k] == s0[k]
      invariant forall k :: 0 <= k < 4 * i ==> s[k] == m[k]
    {
      MixedColumn(s0, i);
      var a, b, c, d := s[4 * i], s[4 * i + 1], s[4 * i + 2], s[4 * i + 3];
      SetFour(s, 4 * i, Mix0(a, b, c, d), Mix1(a, b, c, d), Mix2(a, b, c, d), Mix3(a, b, c, d));
      i := i + 1;
    }
  }

  method AddRoundKey(s: array<byte>, rk: array<byte>, r: nat)
    requires s.Length == 16 && rk.Length == 240 && r <= 14
    modifies s
    ensures View(s) == Xor(old(View(s)), RoundKey(old(rk[..]), r))
  {
    ghost var s0 := View(s);
    var i := 0;
    while i < 16
      invariant 0 <= i <= 16
      invariant forall k :: i <= k < 16 ==> s[k] == s0[k]
      invariant forall k :: 0 <= k < i ==> s[k] == s0[k] ^ rk[16 * r + k]
    {
      s[i] := s[i] ^ rk[16 * r + i];
      i := i + 1;
    }
  }

  method StoreBlock(s: array<byte>, out: array<byte>)
    requires s.Length == out.Length == 16
    modifies out
    ensures View(out) == old(View(s))
  {
    var i := 0;
    while i < 16
      invariant 0 <= i <= 16
      invariant forall k :: i <= k < 16 ==> s[k] == old(s[k])
      invariant forall k :: 0 <= k < i ==> out[k] == old(s[k])
    {
      out[i] := s[i];
      i := i + 1;
    }
    assert out[..] == old(s[..]);
  }

  method CopyBlock(a: array<byte>) returns (s: array<byte>)
    requires a.Length == 16
    ensures fresh(s) && s.Length == 16 && View(s) == View(a)
  {
    s := new byte[16];
    StoreBlock(a, s);
  }

  /** Encrypts one block in place of out, which may be the input array. */
  method EncryptBlock(inp: array<byte>, out: array<byte>, rk: array<byte>)
    requires inp.Length == out.Length == 16 && rk.Length == 240
    modifies out
    ensures View(out) == Cipher(old(View(inp)), old(rk[..]))
  {
    hide Xor, SubBytes, ShiftRows, MixColumns, RoundKey;
    ghost var x, w := View(inp), rk[..];
    var s := CopyBlock(inp);
    AddRoundKey(s, rk, 0);
    var r := 1;
    while r <= 14
      invariant 1 <= r <= 15 && rk[..] == w
      invariant View(s) == CipherRounds(x, w, r - 1)
    {
      var t := new byte[16];
      SubstituteInto(t, s);
      ShiftInto(s, t);
      if r < 14 {
        MixInPlace(s);
      }
      AddRoundKey(s, rk, r);
      r := r + 1;
    }
    StoreBlock(s, out);
  }

  lemma InvShiftRowsLow(s: Block)
    ensures InvShiftRows(s)[0] == s[0] && InvShiftRows(s)[1] == s[13]
    ensures InvShiftRows(s)[2] == s[10] && InvShiftRows(s)[3] == s[7]
    ensures InvShiftRows(s)[4] == s[4] && InvShiftRows(s)[5] == s[1]
    ensures InvShiftRows(s)[6] == s[14] && InvShiftRows(s)[7] == s[11]
  {
  }

  lemma InvShiftRowsHigh(s: Block)
    ensures InvShiftRows(s)[8] == s[8] && InvShiftRows(s)[9] == s[5]
    ensures InvShiftRows(s)[10] == s[2] && InvShiftRows(s)[11] == s[15]
    ensures InvShiftRows(s)[12] == s[12] && InvShiftRows(s)[13] == s[9]
    ensures InvShiftRows(s)[14] == s[6] && InvShiftRows(s)[15] == s[3]
  {
  }

  lemma UnshiftedEntries(t: Block, s: Block)
    requires t[0] == s[0] && t[1] == s[13] && t[2] == s[10] && t[3] == s[7]
    requires t[4] == s[4] && t[5] == s[1] && t[6] == s[14] && t[7] == s[11]
    requires t[8] == s[8] && t[9] == s[5] && t[10] == s[2] && t[11] == s[15]
    requires t[12] == s[12] && t[13] == s[9] && t[14] == s[6] && t[15] == s[3]
    ensures t == InvShiftRows(s)
  {
    hide InvShiftRows;
    InvShiftRowsLow(s);
    InvShiftRowsHigh(s);
    SameEntries(t, InvShiftRows(s));
  }

  method UnshiftInto(t: array<byte>, s: array<byte>)
    requires s.Length == t.Length == 16 && s != t
    modifies t
    ensures View(t) == InvShiftRows(View(s))
  {
    hide InvShiftRows;
    SetFour(t, 0, s[0], s[13], s[10], s[7]);
    SetFour(t, 4, s[4], s[1], s[14], s[11]);
    SetFour(t, 8, s[8], s[5], s[2], s[15]);
    SetFour(t, 12, s[12], s[9], s[6], s[3]);
    UnshiftedEntries(View(t), View(s));
  }

  method UnsubstituteInto(s: array<byte>, t: array<byte>)
    requires s.Length == t.Length == 16 && s != t
    modifies s
    ensures View(s) == InvSubBytes(View(t))
  {
    hide InvSbox;
    var i := 0;
    while i < 16
      invariant 0 <= i <= 16
      invariant forall k :: 0 <= k < i ==> s[k] == InvSbox(t[k])
    {
      s[i] := InvSbox(t[i]);
      i := i + 1;
    }
  }

  /** The first entry of an unmixed column, by four calls of the multiplication loop. The
      other entries have the same factors, rotated, and the order of the summands is immaterial. */
  method UnmixFirst(a: byte, b: byte, c: byte, d: byte) returns (r: byte)
    ensures r == InvMix0(a, b, c, d)
  {
    hide GfMul;
    var p := RefGfMul(0x0e, a);
    var q := RefGfMul(0x0b, b);
    var u := RefGfMul(0x0d, c);
    var v := RefGfMul(0x09, d);
    r := p ^ q ^ u ^ v;
  }

  method UnmixColumn(s: array<byte>, n: nat, a: byte, b: byte, c: byte, d: byte)
    requires n + 4 <= s.Length
    modifies s
    ensures s[n] == InvMix0(a, b, c, d) && s[n + 1] == InvMix1(a, b, c, d)
    ensures s[n + 2] == InvMix2(a, b, c, d) && s[n + 3] == InvMix3(a, b, c, d)
    ensures forall k :: 0 <= k < s.Length && !(n <= k < n + 4) ==> s[k] == old(s[k])
  {
    hide InvMix0, InvMix1, InvMix2, InvMix3;
    InvMixRotates(a, b, c, d);
    var p := UnmixFirst(a, b, c, d);
    var q := UnmixFirst(b, c, d, a);
    var r := UnmixFirst(c, d, a, b);
    var t := UnmixFirst(d, a, b, c);
    SetFour(s, n, p, q, r, t);
  }

  /** InvMixColumns on the sixteen bytes from base on. */
  method UnmixInPlace(s: array<byte>, base: nat)
    requires base + 16 <= s.Length
    modifies s
    ensures s[base..base + 16] == InvMixColumns(old(s[base..base + 16]))
    ensures forall k :: 0 <= k < s.Length && !(base <= k < base + 16) ==> s[k] == old(s[k])
  {
    hide InvMix0, InvMix1, InvMix2, InvMix3, GfMul, InvMixColumns;
    ghost var s0: Block := s[base..base + 16];
    ghost var m := InvMixColumns(s0);
    var i := 0;
    while i < 4
      invariant 0 <= i <= 4
      invariant forall k :: 4 * i <= k < 16 ==> s[base + k] == s0[k]
      invariant forall k :: 0 <= k < 4 * i ==> s[base + k] == m[k]
      invariant forall k :: 0 <= k < s.Length && !(base <= k < base + 16) ==> s[k] == old(s[k])
    {
      UnmixedColumn(s0, i);
      var n := base + 4 * i;
      var a, b, c, d := s[n], s[n + 1], s[n + 2], s[n + 3];
      assert a == s0[4 * i] && b == s0[4 * i + 1] && c == s0[4 * i + 2] && d == s0[4 * i + 3];
      UnmixColumn(s, n, a, b, c, d);
      i := i + 1;
    }
    assert s[base..base + 16] == m;
  }

  /** Decrypts one block with the encryption schedule, applying the round keys in reverse order. */
  method DecryptBlock(inp: array<byte>, out: array<byte>, rk: array<byte>)
    requires inp.Length == out.Length == 16 && rk.Length == 240
    modifies out
    ensures View(out) == InvCipher(old(View(inp)), old(rk[..]))
  {
    hide Xor, InvSubBytes, InvShiftRows, InvMixColumns, RoundKey;
    ghost var y, w := View(inp), rk[..];
    var s := CopyBlock(inp);
    AddRoundKey(s, rk, 14);
    var r := 13;
    while r >= 0
      invariant -1 <= r <= 13 && rk[..] == w
      invariant View(s) == InvRounds(y, w, r + 1)
    {
      var t := new byte[16];
      UnshiftInto(t, s);
      UnsubstituteInto(s, t);
      AddRoundKey(s, rk, r);
      if r > 0 {
        assert s[0..16] == View(s);
        UnmixInPlace(s, 0);
        assert s[0..16] == View(s);
      }
      r := r - 1;
    }
    StoreBlock(s, out);
  }

  /** The first i words of the array are the first i words of the expanded key. */
  ghost predicate WordsDone(w: seq<byte>, key: Key, i: nat) {
    && |w| == 240 && i <= 60
    && forall j {:trigger KeyWord(key, j)} :: 0 <= j < i ==> w[4 * j..4 * j + 4] == KeyWord(key, j)
  }

  /** Four bytes of an array are a word exactly when they agree one by one. */
  lemma FourBytesAre(v: seq<byte>, n: nat, t: Word)
    requires n + 4 <= |v|
    ensures v[n..n + 4] == t <==> v[n] == t[0] && v[n + 1] == t[1] && v[n + 2] == t[2] && v[n + 3] == t[3]
  {
    var u := v[n..n + 4];
    assert u[0] == v[n] && u[1] == v[n + 1] && u[2] == v[n + 2] && u[3] == v[n + 3];
    if u[0] == t[0] && u[1] == t[1] && u[2] == t[2] && u[3] == t[3] {
      assert forall k :: 0 <= k < 4 ==> u[k] == t[k];
    }
  }

  lemma WordsGrow(w: seq<byte>, v: seq<byte>, key: Key, i: nat)
    requires WordsDone(w, key, i) && i < 60 && |v| == 240
    requires forall k :: 0 <= k < 240 && !(4 * i <= k < 4 * i + 4) ==> v[k] == w[k]
    requires v[4 * i..4 * i + 4] == KeyWord(key, i)
    ensures WordsDone(v, key, i + 1)
  {
    hide KeyWord;
    forall j | 0 <= j < i
      ensures v[4 * j..4 * j + 4] == KeyWord(key, j)
    {
      assert v[4 * j..4 * j + 4] == w[4 * j..4 * j + 4];
    }
  }

  /** The bytes of a word that is done. */
  lemma WordDone(w: seq<byte>, key: Key, i: nat, j: nat)
    requires WordsDone(w, key, i) && j < i
    ensures var (t, n) := (KeyWord(key, j), 4 * j);
      w[n] == t[0] && w[n + 1] == t[1] && w[n + 2] == t[2] && w[n + 3] == t[3]
  {
    hide KeyWord;
    FourBytesAre(w, 4 * j, KeyWord(key, j));
  }

  lemma WordsComplete(w: seq<byte>, key: Key)
    requires WordsDone(w, key, 60)
    ensures w == ExpandedKey(key)
  {
    hide KeyWord;
    forall n | 0 <= n < 240
      ensures w[n] == ExpandedKey(key)[n]
    {
      var j := n / 4;
      assert w[4 * j..4 * j + 4] == KeyWord(key, j);
      assert w[n] == w[4 * j..4 * j + 4][n % 4];
    }
  }

  lemma KeyIsFirstWords(w: seq<byte>, key: Key)
    requires |w| == 240 && w[..32] == key
    ensures WordsDone(w, key, 8)
  {
    forall j | 0 <= j < 8
      ensures w[4 * j..4 * j + 4] == KeyWord(key, j)
    {
      assert w[4 * j..4 * j + 4] == w[..32][4 * j..4 * j + 4];
    }
  }

  /** The word to be added to word i-8, from word i-1. */
  method NextWord(t0: byte, t1: byte, t2: byte, t3: byte, i: nat)
    returns (u0: byte, u1: byte, u2: byte, u3: byte)
    requires 8 <= i < 60
    ensures var t: Word := [t0, t1, t2, t3];
      [u0, u1, u2, u3] == if i % 8 == 0 then AddRcon(SubWord(RotWord(t)), Rcon(i / 8))
                          else if i % 8 == 4 then SubWord(t) else t
  {
    hide Sbox, Rcon, Plus;
    u0, u1, u2, u3 := t0, t1, t2, t3;
    if i % 8 == 0 {
      var u := u0;
      u0 := Plus(Sbox(u1), Rcon(i / 8));
      u1 := Sbox(u2);
      u2 := Sbox(u3);
      u3 := Sbox(u);
    } else if i % 8 == 4 {
      u0, u1, u2, u3 := Sbox(u0), Sbox(u1), Sbox(u2), Sbox(u3);
    }
  }

  /** Word i of the expanded key from words i-8 and i-1. */
  lemma KeyWordStep(key: Key, i: nat, t: Word)
    requires 8 <= i < 60
    requires t == if i % 8 == 0 then AddRcon(SubWord(RotWord(KeyWord(key, i - 1))), Rcon(i / 8))
                  else if i % 8 == 4 then SubWord(KeyWord(key, i - 1)) else KeyWord(key, i - 1)
    ensures KeyWord(key, i) == XorWord(KeyWord(key, i - 8), t)
  {
    hide Sbox, Rcon, Plus, SubWord, RotWord, AddRcon, XorWord;
  }

  /** Word i-8 plus t becomes word i. */
  method StoreWord(w: array<byte>, ghost key: Key, i: nat, t0: byte, t1: byte, t2: byte, t3: byte)
    requires w.Length == 240 && 8 <= i < 60 && WordsDone(w[..], key, i)
    requires KeyWord(key, i) == XorWord(KeyWord(key, i - 8), [t0, t1, t2, t3])
    modifies w
    ensures WordsDone(w[..], key, i + 1)
  {
    hide Plus, KeyWord, WordsDone;
    ghost var was := w[..];
    WordDone(was, key, i, i - 8);
    var b := 4 * (i - 8);
    SetFour(w, 4 * i, Plus(w[b], t0), Plus(w[b + 1], t1), Plus(w[b + 2], t2), Plus(w[b + 3], t3));
    FourBytesAre(w[..], 4 * i, KeyWord(key, i));
    WordsGrow(was, w[..], key, i);
  }

  method AddWord(w: array<byte>, ghost key: Key, i: nat)
    requires w.Length == 240 && 8 <= i < 60 && WordsDone(w[..], key, i)
    modifies w
    ensures WordsDone(w[..], key, i + 1)
  {
    hide Sbox, Rcon, Plus, SubWord, RotWord, AddRcon, KeyWord, WordsDone, XorWord;
    WordDone(w[..], key, i, i - 1);
    var t0, t1, t2, t3 := w[4 * (i - 1)], w[4 * (i - 1) + 1], w[4 * (i - 1) + 2], w[4 * (i - 1) + 3];
    assert [t0, t1, t2, t3] == KeyWord(key, i - 1);
    t0, t1, t2, t3 := NextWord(t0, t1, t2, t3, i);
    KeyWordStep(key, i, [t0, t1, t2, t3]);
    StoreWord(w, key, i, t0, t1, t2, t3);
  }

  /** Writes the fifteen round keys; rounds is Nr - 1, as the assembly expects. */
  method ExpandKey(key: array<byte>) returns (w: array<byte>, rounds: nat)
    requires key.Length == 32
    ensures fresh(w) && w.Length == 240 && w[..] == ExpandedKey(key[..])
    ensures rounds == 13
  {
    hide KeyWord, Xor;
    ghost var k := key[..];
    w := new byte[240];
    rounds := 13;
    var i := 0;
    while i < 32
      invariant 0 <= i <= 32
      invariant forall n :: 0 <= n < i ==> w[n] == key[n]
    {
      w[i] := key[i];
      i := i + 1;
    }
    assert w[..][..32] == k;
    KeyIsFirstWords(w[..], k);
    i := 8;
    while i < 60
      invariant 8 <= i <= 60 && key[..] == k
      invariant WordsDone(w[..], k, i)
    {
      ghost var was := w[..];
      AddWord(w, k, i);
      i := i + 1;
    }
    WordsComplete(w[..], k);
  }

  /** The round keys are in reverse order and those from 1 to r-1 are unmixed. */
  ghost predicate KeysDone(d: seq<byte>, w: Schedule, r: nat) {
    |d| == 240 && forall q {:trigger RoundKey(d, q)} :: 0 <= q <= 14 ==>
      RoundKey(d, q) == if q < r then DecryptionKey(w, q) else RoundKey(w, 14 - q)
  }

  lemma KeysGrow(d: seq<byte>, d': seq<byte>, w: Schedule, r: nat)
    requires KeysDone(d, w, r) && 1 <= r <= 13 && |d'| == 240
    requires d'[16 * r..16 * r + 16] == InvMixColumns(d[16 * r..16 * r + 16])
    requires forall k :: 0 <= k < 240 && !(16 * r <= k < 16 * r + 16) ==> d'[k] == d[k]
    ensures KeysDone(d', w, r + 1)
  {
    hide InvMixColumns;
    forall q | 0 <= q <= 14
      ensures RoundKey(d', q) == if q < r + 1 then DecryptionKey(w, q) else RoundKey(w, 14 - q)
    {
      assert RoundKey(d, q) == if q < r then DecryptionKey(w, q) else RoundKey(w, 14 - q);
      if q != r {
        assert RoundKey(d', q) == RoundKey(d, q);
      }
    }
  }

  lemma KeysComplete(d: seq<byte>, w: Schedule)
    requires KeysDone(d, w, 14)
    ensures d == DecryptionSchedule(w)
  {
    hide InvMixColumns;
    forall n | 0 <= n < 240
      ensures d[n] == DecryptionSchedule(w)[n]
    {
      assert RoundKey(d, n / 16) == DecryptionKey(w, n / 16);
      assert d[n] == RoundKey(d, n / 16)[n % 16];
    }
  }

  /** memcpy of sixteen bytes between different arrays. */
  method CopySixteen(dst: array<byte>, n: nat, src: array<byte>, m: nat)
    requires n + 16 <= dst.Length && m + 16 <= src.Length && dst != src
    modifies dst
    ensures dst[n..n + 16] == src[m..m + 16]
    ensures forall k :: 0 <= k < dst.Length && !(n <= k < n + 16) ==> dst[k] == old(dst[k])
  {
    var i := 0;
    while i < 16
      invariant 0 <= i <= 16
      invariant dst[n..n + i] == src[m..m + i]
      invariant forall k :: 0 <= k < dst.Length && !(n <= k < n + 16) ==> dst[k] == old(dst[k])
    {
      dst[n + i] := src[m + i];
      i := i + 1;
    }
  }

  method ReverseRoundKeys(ek: array<byte>) returns (dk: array<byte>)
    requires ek.Length == 240
    ensures fresh(dk) && dk.Length == 240 && KeysDone(dk[..], ek[..], 1)
  {
    dk := new byte[240];
    var r := 0;
    while r <= 14
      invariant 0 <= r <= 15
      invariant forall q {:trigger RoundKey(dk[..], q)} :: 0 <= q < r ==>
                  RoundKey(dk[..], q) == RoundKey(ek[..], 14 - q)
    {
      ghost var was := dk[..];
      CopySixteen(dk, 16 * r, ek, 16 * (14 - r));
      forall q | 0 <= q < r + 1
        ensures RoundKey(dk[..], q) == RoundKey(ek[..], 14 - q)
      {
        if q < r {
          assert RoundKey(was, q) == RoundKey(ek[..], 14 - q);
          assert RoundKey(dk[..], q) == RoundKey(was, q);
        }
      }
      r := r + 1;
    }
  }

  /** The schedule for the equivalent inverse cipher: the encryption schedule with the round
      keys reversed and InvMixColumns applied to the middle ones. */
  method ExpandDecryptKey(key: array<byte>) returns (dk: array<byte>, rounds: nat)
    requires key.Length == 32
    ensures fresh(dk) && dk.Length == 240 && dk[..] == DecryptionSchedule(ExpandedKey(key[..]))
    ensures rounds == 13
  {
    hide KeyWord, ExpandedKey, InvMixColumns, DecryptionSchedule, KeysDone;
    var ek;
    ek, rounds := ExpandKey(key);
    ghost var w: Schedule := ek[..];
    dk := ReverseRoundKeys(ek);
    var r := 1;
    while r <= 13
      invariant 1 <= r <= 14
      invariant KeysDone(dk[..], w, r)
    {
      ghost var was := dk[..];
      UnmixInPlace(dk, 16 * r);
      KeysGrow(was, dk[..], w, r);
      r := r + 1;
    }
    KeysComplete(dk[..], w);
  }
}
