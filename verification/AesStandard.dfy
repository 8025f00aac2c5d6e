/** AES-256 byte by byte: what FIPS 197 says of every byte of the expanded key, of the state after
    every round and of the decryption keys, without the functions that put them together. */
module AesStandard {
  import opened AesField
  import opened Aes256
  import opened Aes256Cipher

  /* The key expansion */

  /** Byte n of the expanded key is byte n % 4 of word n / 4. */
  lemma ExpandedByte(key: Key, n: nat, i: nat, b: nat)
    requires i < 60 && b < 4 && n == 4 * i + b
    ensures ExpandedKey(key)[n] == KeyWord(key, i)[b]
  {
    hide KeyWord;
  }

  /** The key comes first. */
  lemma KeyComesFirst(key: Key)
    ensures ExpandedKey(key)[..32] == key
  {
    forall n | 0 <= n < 32
      ensures ExpandedKey(key)[n] == key[n]
    {
      ExpandedByte(key, n, n / 4, n % 4);
    }
  }

  /** Word 8 r of the expanded key. */
  lemma RotatedWord(key: Key, i: nat)
    requires 8 <= i < 60 && i % 8 == 0
    ensures var (s, t, u) := (KeyWord(key, i - 8), KeyWord(key, i - 1), KeyWord(key, i));
      && u[0] == Plus(s[0], Plus(Sbox(t[1]), Rcon(i / 8))) && u[1] == Plus(s[1], Sbox(t[2]))
      && u[2] == Plus(s[2], Sbox(t[3])) && u[3] == Plus(s[3], Sbox(t[0]))
  {
    hide Sbox, Rcon, Plus;
  }

  lemma OtherWord(key: Key, i: nat)
    requires 8 <= i < 60 && i % 8 != 0
    ensures var (s, t, u) := (KeyWord(key, i - 8), KeyWord(key, i - 1), KeyWord(key, i));
      u == XorWord(s, if i % 8 == 4 then SubWord(t) else t)
  {
    hide SubWord, XorWord;
  }

  lemma WordBytes(s: Word, t: Word, b: nat)
    requires b < 4
    ensures XorWord(s, t)[b] == Plus(s[b], t[b])
    ensures SubWord(t)[b] == Sbox(t[b])
  {
    hide Sbox, Plus;
    assert b == 0 || b == 1 || b == 2 || b == 3;
  }

  lemma OtherWordByte(key: Key, i: nat, b: nat)
    requires 8 <= i < 60 && i % 8 != 0 && b < 4
    ensures var t := KeyWord(key, i - 1)[b];
      KeyWord(key, i)[b] == Plus(KeyWord(key, i - 8)[b], if i % 8 == 4 then Sbox(t) else t)
  {
    hide Sbox, Plus, KeyWord, SubWord, XorWord;
    OtherWord(key, i);
    var t := KeyWord(key, i - 1);
    WordBytes(KeyWord(key, i - 8), if i % 8 == 4 then SubWord(t) else t, b);
    WordBytes(t, t, b);
  }

  lemma RconIs(r: nat)
    requires 1 <= r <= 7
    ensures Rcon(r) == [0x01, 0x02, 0x04, 0x08, 0x10, 0x20, 0x40][r - 1]
  {
  }

  lemma BytesOfWord(key: Key, n: nat, i: nat)
    requires i < 60 && n == 4 * i
    ensures var (w, t) := (ExpandedKey(key), KeyWord(key, i));
      w[n] == t[0] && w[n + 1] == t[1] && w[n + 2] == t[2] && w[n + 3] == t[3]
  {
    hide KeyWord, ExpandedKey;
    ExpandedByte(key, n, i, 0);
    ExpandedByte(key, n + 1, i, 1);
    ExpandedByte(key, n + 2, i, 2);
    ExpandedByte(key, n + 3, i, 3);
  }

  lemma RotatedWordBytes(key: Key, r: nat)
    requires 1 <= r <= 7
    ensures var (w, n) := (ExpandedKey(key), 32 * r);
      && w[n] == Plus(w[n - 32], Plus(Sbox(w[n - 3]), Rcon(r))) && w[n + 1] == Plus(w[n - 31], Sbox(w[n - 2]))
      && w[n + 2] == Plus(w[n - 30], Sbox(w[n - 1])) && w[n + 3] == Plus(w[n - 29], Sbox(w[n - 4]))
  {
    hide Sbox, KeyWord, ExpandedKey, Rcon, Plus;
    var i := 8 * r;
    RotatedWord(key, i);
    BytesOfWord(key, 32 * r, i);
    BytesOfWord(key, 32 * r - 4, i - 1);
    BytesOfWord(key, 32 * r - 32, i - 8);
  }

  /** The words 8 r take the word before them, rotated and substituted, and {02}^(r-1) in their
      first byte. */
  lemma RotatedBytes(key: Key, r: nat)
    requires 1 <= r <= 7
    ensures var (w, n) := (ExpandedKey(key), 32 * r);
      var powers: seq<byte> := [0x01, 0x02, 0x04, 0x08, 0x10, 0x20, 0x40];
      && w[n] == w[n - 32] ^ (Sbox(w[n - 3]) ^ powers[r - 1]) && w[n + 1] == w[n - 31] ^ Sbox(w[n - 2])
      && w[n + 2] == w[n - 30] ^ Sbox(w[n - 1]) && w[n + 3] == w[n - 29] ^ Sbox(w[n - 4])
  {
    hide Sbox, KeyWord, ExpandedKey, Rcon;
    RotatedWordBytes(key, r);
    RconIs(r);
  }

  lemma OtherByteAt(key: Key, i: nat, b: nat)
    requires 8 <= i < 60 && i % 8 != 0 && b < 4
    ensures var (w, n) := (ExpandedKey(key), 4 * i + b);
      w[n] == Plus(w[n - 32], if i % 8 == 4 then Sbox(w[n - 4]) else w[n - 4])
  {
    hide Sbox, KeyWord, ExpandedKey, Plus;
    ExpandedByte(key, 4 * i + b, i, b);
    ExpandedByte(key, 4 * (i - 8) + b, i - 8, b);
    ExpandedByte(key, 4 * (i - 1) + b, i - 1, b);
    OtherWordByte(key, i, b);
  }

  /** Every other byte from the ninth word on is the byte eight words before plus the byte one
      word before, which is substituted in the words 8 r + 4. */
  lemma OtherBytes(key: Key, n: nat)
    requires 32 <= n < 240 && n % 32 >= 4
    ensures var w := ExpandedKey(key);
      w[n] == w[n - 32] ^ (if 16 <= n % 32 < 20 then Sbox(w[n - 4]) else w[n - 4])
  {
    hide Sbox, KeyWord, ExpandedKey;
    OtherByteAt(key, n / 4, n % 4);
  }

  /* The rounds */

  /** A row of the matrix of section 5.1.3; the other rows are the same with the column rotated. */
  function MatrixRow(p: byte, q: byte, u: byte, v: byte): byte {
    GfMul(2, p) ^ GfMul(3, q) ^ u ^ v
  }

  lemma MixIsRow(p: byte, q: byte, u: byte, v: byte)
    ensures Mix0(p, q, u, v) == MatrixRow(p, q, u, v)
  {
    hide GfMul, Xtime;
    Product2(p);
    Product3(q);
  }

  /** What a round makes of column c: the bytes that the row shifts bring there are substituted,
      multiplied by the matrix, and the key bytes from n on are added. */
  ghost predicate MixingColumn(s: Block, t: Block, w: Schedule, n: nat, c: nat)
    requires n + 16 <= 240 && c < 4
  {
    var (p, q) := (Sbox(s[4 * c]), Sbox(s[(4 * c + 5) % 16]));
    var (u, v) := (Sbox(s[(4 * c + 10) % 16]), Sbox(s[(4 * c + 15) % 16]));
    && t[4 * c] == MatrixRow(p, q, u, v) ^ w[n + 4 * c]
    && t[4 * c + 1] == MatrixRow(q, u, v, p) ^ w[n + 4 * c + 1]
    && t[4 * c + 2] == MatrixRow(u, v, p, q) ^ w[n + 4 * c + 2]
    && t[4 * c + 3] == MatrixRow(v, p, q, u) ^ w[n + 4 * c + 3]
  }

  /** What the last round makes of it, which does not mix. */
  ghost predicate LastColumn(s: Block, t: Block, w: Schedule, n: nat, c: nat)
    requires n + 16 <= 240 && c < 4
  {
    && t[4 * c] == Sbox(s[4 * c]) ^ w[n + 4 * c]
    && t[4 * c + 1] == Sbox(s[(4 * c + 5) % 16]) ^ w[n + 4 * c + 1]
    && t[4 * c + 2] == Sbox(s[(4 * c + 10) % 16]) ^ w[n + 4 * c + 2]
    && t[4 * c + 3] == Sbox(s[(4 * c + 15) % 16]) ^ w[n + 4 * c + 3]
  }

  ghost predicate MixingRound(s: Block, t: Block, w: Schedule, n: nat)
    requires n + 16 <= 240
  {
    forall c :: 0 <= c < 4 ==> MixingColumn(s, t, w, n, c)
  }

  ghost predicate LastRound(s: Block, t: Block, w: Schedule, n: nat)
    requires n + 16 <= 240
  {
    forall c :: 0 <= c < 4 ==> LastColumn(s, t, w, n, c)
  }

  lemma SubstitutedByte(s: Block, i: nat)
    requires i < 16
    ensures SubBytes(s)[i] == Sbox(s[i])
  {
    hide Sbox;
  }

  lemma ShiftedColumn(s: Block, c: nat)
    requires c < 4
    ensures var t := ShiftRows(SubBytes(s));
      && t[4 * c] == Sbox(s[4 * c]) && t[4 * c + 1] == Sbox(s[(4 * c + 5) % 16])
      && t[4 * c + 2] == Sbox(s[(4 * c + 10) % 16]) && t[4 * c + 3] == Sbox(s[(4 * c + 15) % 16])
  {
    hide Sbox, SubBytes;
    SubstitutedByte(s, 4 * c);
    SubstitutedByte(s, (4 * c + 5) % 16);
    SubstitutedByte(s, (4 * c + 10) % 16);
    SubstitutedByte(s, (4 * c + 15) % 16);
    assert c == 0 || c == 1 || c == 2 || c == 3;
  }

  lemma MixedRows(s: Block, c: nat)
    requires c < 4
    ensures var (p, q, u, v) := (s[4 * c], s[4 * c + 1], s[4 * c + 2], s[4 * c + 3]);
      var m := MixColumns(s);
      && m[4 * c] == MatrixRow(p, q, u, v) && m[4 * c + 1] == MatrixRow(q, u, v, p)
      && m[4 * c + 2] == MatrixRow(u, v, p, q) && m[4 * c + 3] == MatrixRow(v, p, q, u)
  {
    hide MatrixRow, Mix0, Mix1, Mix2, Mix3, MixColumns;
    var (p, q, u, v) := (s[4 * c], s[4 * c + 1], s[4 * c + 2], s[4 * c + 3]);
    MixedColumn(s, c);
    MixRotates(p, q, u, v);
    MixIsRow(p, q, u, v);
    MixIsRow(q, u, v, p);
    MixIsRow(u, v, p, q);
    MixIsRow(v, p, q, u);
  }

  lemma KeyAdded(s: Block, w: Schedule, r: nat, i: nat)
    requires r <= 14 && i < 16
    ensures Xor(s, RoundKey(w, r))[i] == s[i] ^ w[16 * r + i]
  {
  }

  lemma KeyColumn(s: Block, w: Schedule, r: nat, c: nat)
    requires r <= 14 && c < 4
    ensures var (t, n) := (Xor(s, RoundKey(w, r)), 16 * r + 4 * c);
      && t[4 * c] == s[4 * c] ^ w[n] && t[4 * c + 1] == s[4 * c + 1] ^ w[n + 1]
      && t[4 * c + 2] == s[4 * c + 2] ^ w[n + 2] && t[4 * c + 3] == s[4 * c + 3] ^ w[n + 3]
  {
    hide Xor, RoundKey;
    KeyAdded(s, w, r, 4 * c);
    KeyAdded(s, w, r, 4 * c + 1);
    KeyAdded(s, w, r, 4 * c + 2);
    KeyAdded(s, w, r, 4 * c + 3);
  }

  lemma LayerMixes(s: Block, w: Schedule, r: nat)
    requires r < 14
    ensures MixingRound(s, Xor(Layer(s, r), RoundKey(w, r)), w, 16 * r)
  {
    hide Sbox, MatrixRow, ShiftRows, SubBytes, MixColumns, Xor, RoundKey;
    forall c | 0 <= c < 4
      ensures MixingColumn(s, Xor(Layer(s, r), RoundKey(w, r)), w, 16 * r, c)
    {
      ShiftedColumn(s, c);
      MixedRows(ShiftRows(SubBytes(s)), c);
      KeyColumn(Layer(s, r), w, r, c);
    }
  }

  lemma LayerEnds(s: Block, w: Schedule)
    ensures LastRound(s, Xor(Layer(s, 14), RoundKey(w, 14)), w, 224)
  {
    hide Sbox, ShiftRows, SubBytes, MixColumns, Xor, RoundKey;
    forall c | 0 <= c < 4
      ensures LastColumn(s, Xor(Layer(s, 14), RoundKey(w, 14)), w, 224, c)
    {
      ShiftedColumn(s, c);
      KeyColumn(Layer(s, 14), w, 14, c);
    }
  }

  lemma FirstState(x: Block, w: Schedule, n: nat)
    requires n < 16
    ensures CipherRounds(x, w, 0)[n] == x[n] ^ w[n]
  {
  }

  lemma Rounds(x: Block, w: Schedule, r: nat)
    requires 1 <= r <= 14
    ensures var (s, t) := (CipherRounds(x, w, r - 1), CipherRounds(x, w, r));
      if r < 14 then MixingRound(s, t, w, 16 * r) else LastRound(s, t, w, 16 * r)
  {
    hide MixingRound, LastRound, Layer, Xor;
    if r < 14 {
      LayerMixes(CipherRounds(x, w, r - 1), w, r);
    } else {
      LayerEnds(CipherRounds(x, w, r - 1), w);
    }
  }

  lemma CipherIsLast(x: Block, w: Schedule)
    ensures Cipher(x, w) == CipherRounds(x, w, 14)
  {
  }

  /** The cipher is fourteen rounds on bytes: the states begin with the block plus the first
      round key, thirteen rounds mix, the last one does not. */
  lemma CipherIsRounds(x: Block, w: Schedule) returns (st: seq<Block>)
    ensures |st| == 15 && Cipher(x, w) == st[14]
    ensures forall n :: 0 <= n < 16 ==> st[0][n] == x[n] ^ w[n]
    ensures forall r :: 1 <= r <= 13 ==> MixingRound(st[r - 1], st[r], w, 16 * r)
    ensures LastRound(st[13], st[14], w, 224)
  {
    hide *;
    st := seq(15, r requires 0 <= r < 15 => CipherRounds(x, w, r));
    forall n | 0 <= n < 16
      ensures st[0][n] == x[n] ^ w[n]
    {
      FirstState(x, w, n);
    }
    forall r | 1 <= r <= 13
      ensures MixingRound(st[r - 1], st[r], w, 16 * r)
    {
      Rounds(x, w, r);
    }
    Rounds(x, w, 14);
    CipherIsLast(x, w);
  }

  /* The decryption keys */

  /** A row of the matrix of section 5.3.3. */
  function InvMatrixRow(p: byte, q: byte, u: byte, v: byte): byte {
    GfMul(0x0e, p) ^ GfMul(0x0b, q) ^ GfMul(0x0d, u) ^ GfMul(0x09, v)
  }

  lemma InvMixIsRow(p: byte, q: byte, u: byte, v: byte)
    ensures InvMix0(p, q, u, v) == InvMatrixRow(p, q, u, v)
  {
    hide GfMul;
  }

  lemma UnmixedRows(s: Block, c: nat)
    requires c < 4
    ensures var (p, q, u, v) := (s[4 * c], s[4 * c + 1], s[4 * c + 2], s[4 * c + 3]);
      var m := InvMixColumns(s);
      && m[4 * c] == InvMatrixRow(p, q, u, v) && m[4 * c + 1] == InvMatrixRow(q, u, v, p)
      && m[4 * c + 2] == InvMatrixRow(u, v, p, q) && m[4 * c + 3] == InvMatrixRow(v, p, q, u)
  {
    hide InvMatrixRow, InvMix0, InvMix1, InvMix2, InvMix3, InvMixColumns;
    var (p, q, u, v) := (s[4 * c], s[4 * c + 1], s[4 * c + 2], s[4 * c + 3]);
    UnmixedColumn(s, c);
    InvMixRotates(p, q, u, v);
    InvMixIsRow(p, q, u, v);
    InvMixIsRow(q, u, v, p);
    InvMixIsRow(u, v, p, q);
    InvMixIsRow(v, p, q, u);
  }

  lemma SlotOf(w: Schedule, r: nat, i: nat)
    requires r <= 14 && i < 16
    ensures w[16 * r + i] == RoundKey(w, r)[i]
  {
  }

  lemma ReversedKey(w: Schedule, r: nat, i: nat)
    requires r <= 14 && i < 16
    ensures DecryptionSchedule(w)[16 * r + i] ==
      if 1 <= r <= 13 then InvMixColumns(RoundKey(w, 14 - r))[i] else w[16 * (14 - r) + i]
  {
    hide RoundKey, InvMixColumns, DecryptionSchedule;
    SlotOf(DecryptionSchedule(w), r, i);
    SlotOf(w, 14 - r, i);
    DecryptionRoundKey(w, r);
  }

  /** The decryption keys are the round keys in reverse order; all but the first and the last
      are multiplied by the inverse matrix, column by column. */
  lemma DecryptionKeyBytes(w: Schedule, r: nat, c: nat)
    requires r <= 14 && c < 4
    ensures var (d, m, n) := (DecryptionSchedule(w), 16 * (14 - r) + 4 * c, 16 * r + 4 * c);
      var (p, q, u, v) := (w[m], w[m + 1], w[m + 2], w[m + 3]);
      if 1 <= r <= 13 then
        && d[n] == InvMatrixRow(p, q, u, v) && d[n + 1] == InvMatrixRow(q, u, v, p)
        && d[n + 2] == InvMatrixRow(u, v, p, q) && d[n + 3] == InvMatrixRow(v, p, q, u)
      else d[n] == p && d[n + 1] == q && d[n + 2] == u && d[n + 3] == v
  {
    hide RoundKey, InvMixColumns, DecryptionSchedule, InvMatrixRow;
    var k := RoundKey(w, 14 - r);
    UnmixedRows(k, c);
    ReversedKey(w, r, 4 * c);
    ReversedKey(w, r, 4 * c + 1);
    ReversedKey(w, r, 4 * c + 2);
    ReversedKey(w, r, 4 * c + 3);
    SlotOf(w, 14 - r, 4 * c);
    SlotOf(w, 14 - r, 4 * c + 1);
    SlotOf(w, 14 - r, 4 * c + 2);
    SlotOf(w, 14 - r, 4 * c + 3);
  }
}
