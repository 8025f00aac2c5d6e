/** The AES-256 cipher, its inverse, the equivalent inverse cipher and the key schedules
    (FIPS 197 sections 5.1 to 5.3). */
module Aes256Cipher {
  import opened AesField
  import opened Aes256

  // ---- the cipher and its inverse -----------------------------------------

  /** Round r of the cipher before its key is added; the last round does not mix columns. */
  function Layer(s: Block, r: nat): Block {
    var t := ShiftRows(SubBytes(s));
    if r < 14 then MixColumns(t) else t
  }

  /** The state after round r. */
  function CipherRounds(x: Block, w: Schedule, r: nat): Block
    requires r <= 14
  {
    if r == 0 then Xor(x, RoundKey(w, 0))
    else Xor(Layer(CipherRounds(x, w, r - 1), r), RoundKey(w, r))
  }

  function Cipher(x: Block, w: Schedule): Block {
    CipherRounds(x, w, 14)
  }

  /** The state of the inverse cipher after round key r has been handled. */
  function InvRounds(y: Block, w: Schedule, r: nat): Block
    requires r <= 14
    decreases 14 - r
  {
    if r == 14 then Xor(y, RoundKey(w, 14))
    else
      var s := Xor(InvSubBytes(InvShiftRows(InvRounds(y, w, r + 1))), RoundKey(w, r));
      if r > 0 then InvMixColumns(s) else s
  }

  function InvCipher(y: Block, w: Schedule): Block {
    InvRounds(y, w, 0)
  }

  lemma LayerInverse(s: Block)
    ensures InvSubBytes(InvShiftRows(ShiftRows(SubBytes(s)))) == s
    ensures ShiftRows(SubBytes(InvSubBytes(InvShiftRows(s)))) == s
  {
    hide ShiftRows, SubBytes, InvShiftRows, InvSubBytes;
    ShiftRowsInverse(SubBytes(s));
    SubBytesInverse(s);
    SubBytesInverse(InvShiftRows(s));
    ShiftRowsInverse(s);
  }

  /** While the ciphertext is taken apart, the inverse state trails the cipher by one layer. */
  lemma {:induction false} InvRoundsTrail(x: Block, w: Schedule, r: nat)
    requires 1 <= r <= 14
    ensures InvRounds(Cipher(x, w), w, r) == ShiftRows(SubBytes(CipherRounds(x, w, r - 1)))
    decreases 14 - r
  {
    hide ShiftRows, SubBytes, InvShiftRows, InvSubBytes, MixColumns, InvMixColumns, Xor, RoundKey;
    if r == 14 {
      XorInverse(Layer(CipherRounds(x, w, 13), 14), RoundKey(w, 14));
    } else {
      InvRoundsTrail(x, w, r + 1);
      LayerInverse(CipherRounds(x, w, r));
      XorInverse(Layer(CipherRounds(x, w, r - 1), r), RoundKey(w, r));
      MixColumnsInverse(ShiftRows(SubBytes(CipherRounds(x, w, r - 1))));
    }
  }

  /** Decrypting undoes encrypting, for every block and every schedule of 240 bytes. */
  lemma InvCipherUndoesCipher(x: Block, w: Schedule)
    ensures InvCipher(Cipher(x, w), w) == x
  {
    hide ShiftRows, SubBytes, InvShiftRows, InvSubBytes, MixColumns, InvMixColumns, Xor, RoundKey, Cipher;
    InvRoundsTrail(x, w, 1);
    LayerInverse(CipherRounds(x, w, 0));
    XorInverse(x, RoundKey(w, 0));
  }

  lemma {:induction false} CipherRoundsTrail(y: Block, w: Schedule, r: nat)
    requires r <= 13
    ensures CipherRounds(InvCipher(y, w), w, r) == InvSubBytes(InvShiftRows(InvRounds(y, w, r + 1)))
  {
    hide ShiftRows, SubBytes, InvShiftRows, InvSubBytes, MixColumns, InvMixColumns, Xor, RoundKey;
    var s := InvSubBytes(InvShiftRows(InvRounds(y, w, r + 1)));
    XorInverse(s, RoundKey(w, r));
    if r == 0 {
    } else {
      CipherRoundsTrail(y, w, r - 1);
      LayerInverse(InvRounds(y, w, r));
      MixColumnsInverse(Xor(s, RoundKey(w, r)));
    }
  }

  /** Encrypting undoes decrypting. */
  lemma CipherUndoesInvCipher(y: Block, w: Schedule)
    ensures Cipher(InvCipher(y, w), w) == y
  {
    hide ShiftRows, SubBytes, InvShiftRows, InvSubBytes, MixColumns, InvMixColumns, Xor, RoundKey, InvCipher;
    CipherRoundsTrail(y, w, 13);
    LayerInverse(InvRounds(y, w, 14));
    XorInverse(y, RoundKey(w, 14));
  }

  // ---- the equivalent inverse cipher --------------------------------------

  /** The schedule of the equivalent inverse cipher: round keys in reverse order, with
      InvMixColumns applied to all but the first and the last. */
  function DecryptionKey(w: Schedule, r: nat): Block
    requires r <= 14
  {
    if 1 <= r <= 13 then InvMixColumns(RoundKey(w, 14 - r)) else RoundKey(w, 14 - r)
  }

  function DecryptionSchedule(w: Schedule): Schedule {
    seq(240, n requires 0 <= n < 240 => DecryptionKey(w, n / 16)[n % 16])
  }

  /** The equivalent inverse cipher keeps the order of steps of the cipher. */
  function EqInvRounds(y: Block, dw: Schedule, r: nat): Block
    requires r <= 14
  {
    if r == 0 then Xor(y, RoundKey(dw, 0))
    else
      var t := InvShiftRows(InvSubBytes(EqInvRounds(y, dw, r - 1)));
      Xor(if r < 14 then InvMixColumns(t) else t, RoundKey(dw, r))
  }

  function EqInvCipher(y: Block, dw: Schedule): Block {
    EqInvRounds(y, dw, 14)
  }

  lemma DecryptionRoundKey(w: Schedule, r: nat)
    requires r <= 14
    ensures RoundKey(DecryptionSchedule(w), r) == DecryptionKey(w, r)
  {
    hide InvMixColumns;
    forall i | 0 <= i < 16
      ensures RoundKey(DecryptionSchedule(w), r)[i] == DecryptionKey(w, r)[i]
    {
      assert (16 * r + i) / 16 == r && (16 * r + i) % 16 == i;
    }
  }

  /** Substitution works byte by byte, so it commutes with moving bytes. */
  lemma SubstituteThenShift(s: Block)
    ensures InvShiftRows(InvSubBytes(s)) == InvSubBytes(InvShiftRows(s))
  {
    hide InvSbox;
  }

  lemma InvMix0Additive(a: byte, b: byte, c: byte, d: byte, p: byte, q: byte, r: byte, s: byte)
    ensures InvMix0(Plus(a, p), Plus(b, q), Plus(c, r), Plus(d, s)) == Plus(InvMix0(a, b, c, d), InvMix0(p, q, r, s))
  {
    hide GfMul, Sum, Plus;
    InvMix0Sum(Plus(a, p), Plus(b, q), Plus(c, r), Plus(d, s));
    InvMix0Sum(a, b, c, d);
    InvMix0Sum(p, q, r, s);
    hide InvMix0;
    GfMulAdditive(0x0e, a, p);
    GfMulAdditive(0x0b, b, q);
    GfMulAdditive(0x0d, c, r);
    GfMulAdditive(0x09, d, s);
    AddRows(GfMul(0x0e, a), GfMul(0x0b, b), GfMul(0x0d, c), GfMul(0x09, d),
            GfMul(0x0e, p), GfMul(0x0b, q), GfMul(0x0d, r), GfMul(0x09, s));
  }

  lemma XorAt(s: Block, t: Block, i: nat)
    requires i < 16
    ensures Xor(s, t)[i] == Plus(s[i], t[i])
  {
  }

  lemma ColumnAdditive(a: byte, b: byte, c: byte, d: byte, p: byte, q: byte, r: byte, s: byte)
    ensures InvMix0(Plus(a, p), Plus(b, q), Plus(c, r), Plus(d, s)) == Plus(InvMix0(a, b, c, d), InvMix0(p, q, r, s))
    ensures InvMix1(Plus(a, p), Plus(b, q), Plus(c, r), Plus(d, s)) == Plus(InvMix1(a, b, c, d), InvMix1(p, q, r, s))
    ensures InvMix2(Plus(a, p), Plus(b, q), Plus(c, r), Plus(d, s)) == Plus(InvMix2(a, b, c, d), InvMix2(p, q, r, s))
    ensures InvMix3(Plus(a, p), Plus(b, q), Plus(c, r), Plus(d, s)) == Plus(InvMix3(a, b, c, d), InvMix3(p, q, r, s))
  {
    hide InvMix0, InvMix1, InvMix2, InvMix3, Plus;
    InvMixRotates(a, b, c, d);
    InvMixRotates(p, q, r, s);
    InvMixRotates(Plus(a, p), Plus(b, q), Plus(c, r), Plus(d, s));
    InvMix0Additive(a, b, c, d, p, q, r, s);
    InvMix0Additive(b, c, d, a, q, r, s, p);
    InvMix0Additive(c, d, a, b, r, s, p, q);
    InvMix0Additive(d, a, b, c, s, p, q, r);
  }

  lemma AddColumn(s: Block, t: Block, c: nat)
    requires c < 4
    ensures SameColumn(InvMixColumns(Xor(s, t)), Xor(InvMixColumns(s), InvMixColumns(t)), c)
  {
    hide InvMix0, InvMix1, InvMix2, InvMix3, InvMixColumns, Xor, Plus;
    UnmixedColumn(s, c);
    UnmixedColumn(t, c);
    UnmixedColumn(Xor(s, t), c);
    ColumnAdditive(s[4 * c], s[4 * c + 1], s[4 * c + 2], s[4 * c + 3],
                   t[4 * c], t[4 * c + 1], t[4 * c + 2], t[4 * c + 3]);
    XorAt(s, t, 4 * c);
    XorAt(s, t, 4 * c + 1);
    XorAt(s, t, 4 * c + 2);
    XorAt(s, t, 4 * c + 3);
    XorAt(InvMixColumns(s), InvMixColumns(t), 4 * c);
    XorAt(InvMixColumns(s), InvMixColumns(t), 4 * c + 1);
    XorAt(InvMixColumns(s), InvMixColumns(t), 4 * c + 2);
    XorAt(InvMixColumns(s), InvMixColumns(t), 4 * c + 3);
  }

  /** InvMixColumns distributes over adding a round key. */
  lemma InvMixColumnsAdditive(s: Block, t: Block)
    ensures InvMixColumns(Xor(s, t)) == Xor(InvMixColumns(s), InvMixColumns(t))
  {
    hide *;
    var m, n := InvMixColumns(Xor(s, t)), Xor(InvMixColumns(s), InvMixColumns(t));
    forall c | 0 <= c < 4
      ensures SameColumn(m, n, c)
    {
      AddColumn(s, t, c);
    }
    ColumnsEqual(m, n);
  }

  lemma {:induction false} EqInvRoundsAgree(y: Block, w: Schedule, r: nat)
    requires r <= 14
    ensures EqInvRounds(y, DecryptionSchedule(w), r) == InvRounds(y, w, 14 - r)
  {
    hide ShiftRows, SubBytes, InvShiftRows, InvSubBytes, MixColumns, InvMixColumns, Xor, RoundKey, DecryptionSchedule;
    DecryptionRoundKey(w, r);
    if r == 0 {
    } else {
      EqInvRoundsAgree(y, w, r - 1);
      var s := InvRounds(y, w, 15 - r);
      SubstituteThenShift(s);
      InvMixColumnsAdditive(InvSubBytes(InvShiftRows(s)), RoundKey(w, 14 - r));
    }
  }

  /** The equivalent inverse cipher under the transformed schedule is the inverse cipher
      under the encryption schedule. */
  lemma EqInvCipherAgrees(y: Block, w: Schedule)
    ensures EqInvCipher(y, DecryptionSchedule(w)) == InvCipher(y, w)
  {
    EqInvRoundsAgree(y, w, 14);
  }

  // ---- key expansion ------------------------------------------------------

  type Word = w: seq<byte> | |w| == 4 witness [0, 0, 0, 0]
  type Key = k: seq<byte> | |k| == 32 witness seq(32, _ => 0)

  function Rcon(i: nat): byte
    requires i < 11
  {
    [0x00, 0x01, 0x02, 0x04, 0x08, 0x10, 0x20, 0x40, 0x80, 0x1b, 0x36][i]
  }

  /** The round constants are the powers of {02}. */
  lemma RconPowers(i: nat)
    requires 1 <= i < 11
    ensures Rcon(1) == 1
    ensures i < 10 ==> Rcon(i + 1) == Xtime(Rcon(i))
  {
  }

  function SubWord(t: Word): Word {
    [Sbox(t[0]), Sbox(t[1]), Sbox(t[2]), Sbox(t[3])]
  }

  function RotWord(t: Word): Word {
    [t[1], t[2], t[3], t[0]]
  }

  function XorWord(s: Word, t: Word): Word {
    [Plus(s[0], t[0]), Plus(s[1], t[1]), Plus(s[2], t[2]), Plus(s[3], t[3])]
  }

  /** Adds the round constant word, whose other three bytes are 0. */
  function AddRcon(s: Word, c: byte): Word {
    [Plus(s[0], c), s[1], s[2], s[3]]
  }

  /** Word i of the expanded key, for Nk = 8. */
  function KeyWord(key: Key, i: nat): Word
    requires i < 60
  {
    if i < 8 then key[4 * i..4 * i + 4]
    else
      var t := KeyWord(key, i - 1);
      var t' := if i % 8 == 0 then AddRcon(SubWord(RotWord(t)), Rcon(i / 8))
                else if i % 8 == 4 then SubWord(t)
                else t;
      XorWord(KeyWord(key, i - 8), t')
  }

  function ExpandedKey(key: Key): Schedule {
    seq(240, n requires 0 <= n < 240 => KeyWord(key, n / 4)[n % 4])
  }
}
