# Curve25519, AES-XTS, script merging, memory and cosimulation in s2n-bignum

This project models five components of s2n-bignum and proves what each is for: the Curve25519
reference arithmetic, the AES-256 and XTS reference with its word-level twin, the merger of
edit scripts, the little-endian memory with its bignums, and the monitor of the cosimulation
protocol.

1. **Curve25519 arithmetic** (`tests/tweetnacl_excerpt.c`). Field elements are arrays of sixteen
   signed 64-bit limbs of weight 2^16, updated in place; outputs may alias inputs wherever the C
   code lets them. Limbs have type `i64`, a newtype whose every operation carries the obligation
   not to leave the 64-bit range, so a method that verifies cannot overflow. `&`, `^`, `~` are
   defined on infinite two's complement integers, `>> 16` is floor division. The Montgomery ladder
   is proved equal to the pseudocode of section 5 of RFC 7748 (module `Rfc7748`), the point
   addition equal to section 5.1.4 of RFC 8032 (module `Edwards25519`). What these compute is then
   proved without further hypotheses: 2^255 - 19 is prime (`Primes`, `Certificates`,
   `PrimeCertificate`), the addition formulas are complete on the curve (`EdwardsComplete`) and
   associative (`EdwardsAssociative`), the points are a commutative group under the affine law
   (`EdwardsGroup`), `scalarbase` computes multiples of the base point in it, and X25519 computes
   multiples of every curve point, so that the key exchange agrees (`MontgomeryLadder`,
   `Curve25519`). The curve modules are about any prime field with a root of -1 and any d that is
   no square; `Curve25519` is the instance, and `Curve25519Facts` says in plain integers what its
   definitions come to.
2. **AES-256 and XTS** (`tests/ref_aes_xts.c`, `common/aes.ml`). Array methods with the C loops
   are proved against FIPS 197 and IEEE Std 1619-2007 written as functions on blocks (modules
   `Aes256`, `Aes256Cipher`, `Xts`); the laws of the cipher (both inverse directions, the
   equivalent inverse cipher, ciphertext stealing undone, tweaks as powers of x) are proved about
   those functions, and GF(2^8) is proved to be a field whose inverses, under the affine map, are
   the S-box table (`AesFieldLaws`). The output may be the input array; what then comes out is a function of its
   own. `AesStandard` and `XtsStandard` state key expansion, rounds, masks and stealing byte by
   byte and block by block. `AesWords` is the same round as packed-table lookups on 128-bit words.
3. **Edit-script composition** (`common/actions_merger.ml`). Assertions and failing matches are
   the value `Failed`; the merger is proved to succeed exactly on scripts that waste no action on
   the middle file, and then to match exactly the composed pairs of lines. On scripts without empty
   actions its result is proved to be the only coalesced script that does line by line what the two
   scripts do one after the other and deletes what they delete, action by action
   (`MergeNormalForm.MergeDetermined`).
4. **Little-endian memory with wrapping addresses** (`common/components.ml`, `common/overlap.ml`,
   `common/bignum.ml`). A memory is a byte per address for any positive number of addresses;
   addresses are natural numbers taken modulo that number. `MemoryLayout` says which byte lies at
   which address.
5. **The cosimulation protocol** (`riscv/proofs/cosim_runner.c`, `common/cosim.ml`). `Monitor` is a
   class with the C program's static buffers as arrays, the tokenizer writes NULs in place, and
   whole sessions are proved equal to a function of the input stream. `rv32_run` is a parameter:
   an arbitrary function of the whole code slot, the state and the scratch memory. `CosimCases`
   spells out, line by line and in the characters sent, what every input is answered with.

Three places where the code does less than its shape suggests are stated as exact conditions:

- the merger fails on an empty `equal` action at the end of a script, which
  `tools/gen-actions.py` prints whenever two files differ at their ends
  (`ActionsMergerProofs.TrailingEmptyEqualFails`); it succeeds if and only if every action that
  reaches into the middle file covers a line of it (`MergeSucceedsIff`);
- the monitor's code buffer and its code slot both have 512 bytes (`riscv/proofs/cosim_start.S:327`),
  but installing code needs four more for the breakpoint, so a valid request is answered with
  `unsupported-code` if and only if its code and four bytes exceed the slot
  (`CosimProtocol.RefusedIff`), which in the slot of 512 bytes are the requests with exactly 512
  bytes of code (`CosimProtocol.FullSizeRefused`);
- both XTS procedures work in place, with the output over the input, if and only if the length
  is a multiple of 16 (`Xts.XtsInPlaceIff`): the stealing loop writes the partial block before it
  reads it, so the result does not depend on it (`Xts.InPlaceForgets`) and nothing can recover it
  (`Xts.InPlaceRecoverableIff`).

Conventions: a member named like the C or OCaml function it models has that function's loops or
recursion; `Valid`, `Within`, `Digits`, `Script` and the like are state predicates. `hide`
statements only keep definitions from being unfolded during a proof.

## Model

| member | source | states |
|---|---|---|
| Field25519.Car25519 | tests/tweetnacl_excerpt.c:36-46 | for limbs up to 2^62 in magnitude, one pass leaves in every limb the base-2^16 digit of the carried value and adds 38 times the carry out of limb 15 to limb 0; no intermediate overflows |
| Field25519.CarriedValue | tests/tweetnacl_excerpt.c:36-46 | a carry pass changes the value by exactly -2P times the carry out of the top limb |
| Field25519.TwoPasses | tests/tweetnacl_excerpt.c:109-111 | two passes from any limbs up to 2^62 leave limb 0 in [-38, 2^16+38), the others in [0, 2^16), a value in [0, 2^256), and the residue unchanged |
| Field25519.LastPass | tests/tweetnacl_excerpt.c:63-65 | a pass over limbs whose value is already in [0, 2^256) yields its base-2^16 digits |
| Limbs.CarrySplits | tests/tweetnacl_excerpt.c:40-45 | the digits and the outgoing carry of the lowest n limbs together have the value of those limbs |
| Limbs.CarryBound | tests/tweetnacl_excerpt.c:40-45 | every carry out of limbs of magnitude up to 2^62 is at most 2^47 in magnitude |
| Field25519.Sel25519 | tests/tweetnacl_excerpt.c:48-56 | swaps the two arrays if b is 1, leaves both alone if b is 0 |
| Field25519.MaskedSwap | tests/tweetnacl_excerpt.c:50-54 | the xor masks with all ones swap two integers, with all zeros keep them, also when both are the same limb |
| TwosComplement.XorCancels | tests/tweetnacl_excerpt.c:52-54 | x ^ (x ^ y) = y on two's complement integers of any size |
| TwosComplement.MasksAreResidues | tests/tweetnacl_excerpt.c:69-74 | masking a 64-bit limb, of either sign, with 0xffff, 1, 0xff or 0x7fff is taking a residue |
| TwosComplement.ClampMasks | tests/tweetnacl_excerpt.c:137-138 | masking a byte with 127 and setting bit 6, and masking it with 248, are the arithmetic the scalar clamping uses |
| Field25519.SubtractPrime | tests/tweetnacl_excerpt.c:67-74 | m = t - P limb by limb with borrows, and b is 1 iff that is negative |
| Field25519.BorrowSign | tests/tweetnacl_excerpt.c:72-74 | the sign of the last limb tells whether the value is at least P, and if so all limbs are digits |
| Field25519.CarryThrice | tests/tweetnacl_excerpt.c:63-65 | three passes leave the digits of a number below 2^256 in the same residue class |
| Field25519.SubtractTwice | tests/tweetnacl_excerpt.c:66-76 | two conditional subtractions reach the unique representative in [0, P) |
| Field25519.Pack25519 | tests/tweetnacl_excerpt.c:58-81 | for every gf with limbs up to 2^62 the 32 bytes written are the little-endian residue in [0, P) |
| Field25519.Unpack25519 | tests/tweetnacl_excerpt.c:84-89 | the value read is the little-endian number modulo 2^255 |
| Field25519.Canonicalize | tests/tweetnacl_excerpt.c:58-89 | packing after unpacking yields (LE(n) mod 2^255) mod P |
| Field25519.CanonicalIff | tests/tweetnacl_excerpt.c:58-89 | packing after unpacking returns an encoding unchanged if and only if it is the number of a residue below P |
| Field25519.A | tests/tweetnacl_excerpt.c:91-95 | limb-wise sum, also when the output aliases an input: residues add, bounds at most double, no overflow |
| Field25519.Z | tests/tweetnacl_excerpt.c:97-101 | the same for differences |
| Field25519.Schoolbook | tests/tweetnacl_excerpt.c:105-107 | the 31 columns have the value of the product of the factors, and stay below 16 * 2^52 |
| Field25519.FoldValue | tests/tweetnacl_excerpt.c:108-109 | folding columns 16 to 30 back as 38 subtracts an exact multiple of 2P |
| Field25519.M | tests/tweetnacl_excerpt.c:103-112 | for factors with limbs up to 2^26 and any aliasing the residue is the product, and the result is reduced (limb 0 in [-38, 2^16+38), others in [0, 2^16)) |
| Field25519.S | tests/tweetnacl_excerpt.c:114-117 | the same for squares |
| Field25519.InvExponentEnd | tests/tweetnacl_excerpt.c:124-127 | the pattern that skips the multiplication at a = 2 and a = 4 collects exactly the exponent P - 2 |
| Field25519.Inv25519 | tests/tweetnacl_excerpt.c:119-129 | the result has residue i^(P-2), which is the inverse of i, and 0 for 0; also when output and input are one array |
| PrimeCertificate.PIsPrime | tests/tweetnacl_excerpt.c:119-129 | the modulus 2^255 - 19 of the inversion is prime |
| Primes.Fermat | tests/tweetnacl_excerpt.c:124-127 | the theorem the exponent P - 2 relies on, for every prime |
| Field25519.TwoLimbs | tests/tweetnacl_excerpt.c:23-25 | the value of the constants gf0, gf1 and 121665 |
| Scalarmult25519.LadderFormulas | tests/tweetnacl_excerpt.c:149-166 | the eighteen field operations of an iteration compute the formulas of RFC 7748 section 5 and keep all limbs within the bounds of M |
| Scalarmult25519.DeferredSwap | tests/tweetnacl_excerpt.c:147-168 | swapping before and after every iteration equals the RFC's deferred swap |
| Scalarmult25519.Iterate | tests/tweetnacl_excerpt.c:145-169 | one whole iteration on the limb arrays |
| Scalarmult25519.ScalarBit | tests/tweetnacl_excerpt.c:146 | the bit read at step i is bit i of the little-endian scalar |
| Scalarmult25519.ClampScalar | tests/tweetnacl_excerpt.c:136-138 | the copied scalar is the RFC's clamped scalar |
| Curve25519Facts.ScalarIs | tests/tweetnacl_excerpt.c:136-138 | the clamped scalar is 2^254 plus eight times the number formed by bits 3 to 253 of n: the three lowest bits and the highest do not count |
| Curve25519Facts.CofactorCleared | tests/tweetnacl_excerpt.c:131-180 | from every curve point whose multiple by 8 is neutral every scalar gives 32 zero bytes |
| Scalarmult25519.RunLadder | tests/tweetnacl_excerpt.c:140-169 | after 255 iterations the arrays hold the RFC's final state with its pending swap carried out |
| Scalarmult25519.CryptoScalarmult | tests/tweetnacl_excerpt.c:131-180 | for all scalars and all point encodings the 32 bytes written are X25519(n, p), even if q is n or p |
| Scalarmult25519.CryptoScalarmultBase | tests/tweetnacl_excerpt.c:182-185 | the same for the base point 9 |
| Curve25519Facts.UCoordinateIs | tests/tweetnacl_excerpt.c:139-180 | the highest bit of a u-coordinate and multiples of P in it do not change the result |
| Curve25519Facts.CongruentIs | tests/tweetnacl_excerpt.c:66-74 | congruent in the field of the curve modules is congruent modulo P |
| Curve25519Facts.ModulusIs | tests/tweetnacl_excerpt.c:66-74 | P is 2^255 - 19 |
| Curve25519Facts.LadderStepIs | tests/tweetnacl_excerpt.c:149-166 | the four results of an iteration are the residues of the polynomials of RFC 7748 section 5 in its four inputs and x1, for all integers |
| MontgomeryLadder.DoubleIsU | tests/tweetnacl_excerpt.c:149-166 | the doubled pair of an iteration stands for the double of the point that the pair stood for |
| MontgomeryLadder.SumIsU | tests/tweetnacl_excerpt.c:149-166 | the added pair stands for the sum of two points whose difference has the u-coordinate x1, and is never 0 : 0 |
| MontgomeryLadder.LadderShows | tests/tweetnacl_excerpt.c:145-169 | after the high bits with value m the pairs stand for m Q and (m + 1) Q |
| MontgomeryLadder.NumberMultiplies | tests/tweetnacl_excerpt.c:140-180 | from the u-coordinate of any curve point, including those with u = 0, the ladder and the inversion compute that of its multiple |
| Curve25519.X25519Multiplies | tests/tweetnacl_excerpt.c:131-180 | for every scalar and every curve point the bytes are the encoded u-coordinate of the multiple by the clamped scalar |
| Curve25519.Agreement | tests/tweetnacl_excerpt.c:131-180 | two parties that exchange their multiples of any curve point compute the same bytes |
| Curve25519.KeyExchange | tests/tweetnacl_excerpt.c:182-185 | the bytes computed from the base point 9 encode the multiple of the base point of RFC 8032, and the key exchange from 9 agrees |
| Curve25519Facts.EncodedIs | tests/tweetnacl_excerpt.c:131-180 | the 32 bytes of a point are the little-endian residue u with u (1 - y) = 1 + y, and 0 for y = 1 |
| Bytes.BitOfBytes | tests/tweetnacl_excerpt.c:146 | bit t of a little-endian number is bit t mod 8 of byte t / 8 |
| Edwards25519.D2IsTwiceD | tests/tweetnacl_excerpt.c:26 | the limbs of D2 are twice the curve constant -121665/121666 |
| Edwards25519.CurveConstant | tests/tweetnacl_excerpt.c:26 | 121666 d = -121665 modulo P |
| Edwards25519.BasePointLimbs | tests/tweetnacl_excerpt.c:27-28 | the limbs of X and Y are the coordinates of the base point of RFC 8032 section 5.1 |
| Edwards25519.BasePointOnCurve | tests/tweetnacl_excerpt.c:27-28 | the base point satisfies the curve equation, and 5 Y = 4 modulo P |
| CurvePoints.SameParity | tests/tweetnacl_excerpt.c:27-28 | y and the parity of x determine a point of the curve |
| Curve25519Facts.BaseIs | tests/tweetnacl_excerpt.c:27-28 | a point is the base point iff it is on the curve, 5 y = 4 modulo P, and x is even |
| Edwards25519.AddPoint | tests/tweetnacl_excerpt.c:187-210 | p becomes the sum by the formulas of RFC 8032 section 5.1.4, also for add(p, p), with all limbs within bounds |
| Curve25519Facts.PointAddIs | tests/tweetnacl_excerpt.c:187-210 | the four coordinates of a sum are the residues of these polynomials in the eight coordinates, for all integers |
| Edwards25519.SumExtended | tests/tweetnacl_excerpt.c:201-209 | every sum satisfies X Y = Z T |
| EdwardsLaw.Factors | tests/tweetnacl_excerpt.c:191-204 | what the four factors e, f, g, h are in terms of the coordinates |
| EdwardsCurve.SumOnCurve | tests/tweetnacl_excerpt.c:187-210 | the sum of two points that satisfy the curve equation and T Z = X Y in extended coordinates satisfies both again, also for a point added to itself |
| EdwardsCurve.FactorSquares | tests/tweetnacl_excerpt.c:191-204 | the four factors of a sum satisfy g^2 h^2 - e^2 f^2 = f^2 g^2 + d e^2 h^2 in the field |
| EdwardsComplete.NoPole | tests/tweetnacl_excerpt.c:191-204 | on curve points with Z nonzero d t1 t2 is never z1 z2 or its opposite, so no denominator vanishes |
| EdwardsComplete.SumGenuine | tests/tweetnacl_excerpt.c:187-210 | the sum of curve points with Z nonzero is a curve point with Z nonzero, also for a point added to itself |
| EdwardsComplete.CompleteLaw | tests/tweetnacl_excerpt.c:187-210 | X/Z and Y/Z of the sum are the Edwards addition law, cross multiplied, and neither Z nor a denominator of the law is zero |
| EdwardsComplete.RunGenuine | tests/tweetnacl_excerpt.c:226-232 | both points of the ladder stay curve points with Z nonzero after every number of iterations |
| EdwardsGroup.SumIsAffineSum | tests/tweetnacl_excerpt.c:187-210 | the affine point of the sum is the sum of the affine points by the law of RFC 8032 section 5.1.4, whose quotients exist |
| EdwardsAssociative.CrossSymmetric | tests/tweetnacl_excerpt.c:187-210 | the polynomial identity behind associativity: the cross product of (p + q) + r and p + (q + r) is symmetric in p and r |
| EdwardsGroup.SumAssociates | tests/tweetnacl_excerpt.c:187-210 | (p + q) + r and p + (q + r) computed by the formulas are the same affine point |
| EdwardsGroup.CurveGroup | tests/tweetnacl_excerpt.c:187-210 | the points of the curve are a commutative group under the affine law, with (0, 1) neutral and (-x, y) inverse |
| Curve25519Facts.OnCurveIs | tests/tweetnacl_excerpt.c:26-28 | the points of the group are the pairs of residues with -x^2 + y^2 = 1 + d x^2 y^2 modulo P |
| Curve25519Facts.SumOfPointsIs | tests/tweetnacl_excerpt.c:187-210 | the group law is the pair of fractions of RFC 8032 section 5.1.4, cross multiplied, and no denominator is 0 modulo P |
| Curve25519Facts.MultiplesAre | tests/tweetnacl_excerpt.c:219-233 | multiples count how often the point is added to (0, 1) |
| Edwards25519.CswapPoints | tests/tweetnacl_excerpt.c:212-217 | swaps all four coordinates or none; a point swapped with itself stays |
| Edwards25519.IteratePoints | tests/tweetnacl_excerpt.c:226-232 | one iteration is one double-and-add step on the pair; on one point in both places it doubles twice |
| Edwards25519.ScalarmultPoint | tests/tweetnacl_excerpt.c:219-233 | 256 iterations from (identity, q) run the double-and-add ladder over the bits of LE(s) |
| Edwards25519.RunExtended | tests/tweetnacl_excerpt.c:226-232 | both points stay extended (X Y = Z T) after every number of iterations |
| DoubleAndAdd.StepStands | tests/tweetnacl_excerpt.c:228-231 | a step turns (k Q, (k+1) Q) into (k' Q, (k'+1) Q) with k' = 2k + bit |
| DoubleAndAdd.LadderInvariant | tests/tweetnacl_excerpt.c:226-232 | after the high bits with value k the pair stands for (k Q, (k+1) Q) |
| Edwards25519.ScalarmultMultiplies | tests/tweetnacl_excerpt.c:219-233 | the final p stands for LE(s) times Q in any monoid that the addition formulas represent |
| EdwardsGroup.LadderOnCurve | tests/tweetnacl_excerpt.c:226-232 | from any curve point the double-and-add ladder computes the multiple that the scalar says, in the group of the curve |
| Curve25519.ScalarmultOnCurve | tests/tweetnacl_excerpt.c:219-233 | scalarmult computes LE(s) times Q for every point Q of the curve |
| Edwards25519.ScalarBase | tests/tweetnacl_excerpt.c:235-243 | the ladder from the base point |
| Curve25519.ScalarBaseMultiplies | tests/tweetnacl_excerpt.c:235-243 | scalarbase computes LE(s) times the base point of RFC 8032, for every scalar |
| AesField.SboxInverse | tests/ref_aes_xts.c:12-83 | the inverse table undoes the S-box |
| AesField.InvSboxInverse | tests/ref_aes_xts.c:12-83 | the S-box undoes the inverse table |
| AesRef.RefGfMul | tests/ref_aes_xts.c:103-112 | the in-place shift-and-add loop computes the GF(2^8) product |
| AesField.GfMulAdditive | tests/ref_aes_xts.c:103-112 | multiplication distributes over xor |
| AesField.GfMulBits | tests/ref_aes_xts.c:103-112 | the product is the xor of the doublings that the bits of the second factor select |
| AesFieldLaws.GfMulCommutes | tests/ref_aes_xts.c:103-112 | multiplication commutes |
| AesFieldLaws.GfMulAssociates | tests/ref_aes_xts.c:103-112 | multiplication associates |
| AesFieldLaws.InverseUnique | tests/ref_aes_xts.c:103-112 | a byte has at most one inverse |
| AesFieldLaws.SboxIsAffine | tests/ref_aes_xts.c:12-45 | every byte but 0 has an inverse, and the S-box holds its image under the affine map of FIPS 197 section 5.1.1, and {63} for 0 |
| Aes256Cipher.RconPowers | tests/ref_aes_xts.c:86-89 | the round constants are the successive powers of {02} |
| AesRef.NextWord | tests/ref_aes_xts.c:132-148 | RotWord, SubWord and Rcon at multiples of eight, SubWord alone four words later |
| AesRef.AddWord | tests/ref_aes_xts.c:131-154 | one loop iteration extends the expanded key by its next word |
| AesRef.ExpandKey | tests/ref_aes_xts.c:122-159 | the 240 bytes are the FIPS 197 key expansion; rounds is 13 |
| AesStandard.KeyComesFirst | tests/ref_aes_xts.c:127-128 | the first 32 bytes of the expanded key are the key |
| AesStandard.RotatedBytes | tests/ref_aes_xts.c:131-154 | the four bytes of word 8 r, for r from 1 to 7, are those of word 8 r - 8 plus the rotated and substituted bytes of word 8 r - 1, with the r-th round constant added to the first byte only |
| AesStandard.OtherBytes | tests/ref_aes_xts.c:131-154 | every other byte is the one 32 places before plus the one 4 places before, which is substituted in the words 8 r + 4 and nowhere else |
| AesRef.ExpandDecryptKey | tests/ref_aes_xts.c:165-197 | the 240 bytes are the reversed round keys with InvMixColumns on the middle thirteen |
| AesStandard.DecryptionKeyBytes | tests/ref_aes_xts.c:175-193 | the bytes of every decryption key: those of the round keys in reverse order, multiplied by the matrix of FIPS 197 section 5.3.3 for all but the first and the last |
| AesRef.MixInPlace | tests/ref_aes_xts.c:226-232 | the in-place column loop is MixColumns |
| AesStandard.MixedRows | tests/ref_aes_xts.c:226-232 | every byte of a mixed column as the sum of products that section 5.1.3 gives |
| AesRef.UnmixInPlace | tests/ref_aes_xts.c:180-192 | the in-place column loop is InvMixColumns on the sixteen bytes at base, and touches nothing else |
| AesRef.EncryptBlock | tests/ref_aes_xts.c:203-240 | out receives the cipher of in, also when they are one array |
| AesStandard.CipherIsRounds | tests/ref_aes_xts.c:209-237 | the cipher is fourteen rounds on bytes: the block plus the first key, thirteen rounds whose columns are the matrix of section 5.1.3 times the substituted bytes from shifted rows plus key bytes, and a last round without the matrix |
| AesRef.DecryptBlock | tests/ref_aes_xts.c:247-288 | out receives the inverse cipher of in, also when they are one array |
| Aes256.MixColumnsInverse | tests/ref_aes_xts.c:226-232 | InvMixColumns and MixColumns undo each other in both orders |
| Aes256.ShiftRowsInverse | tests/ref_aes_xts.c:219-222 | the same for the row shifts |
| Aes256.SubBytesInverse | tests/ref_aes_xts.c:216 | the same for the substitutions |
| Aes256Cipher.InvCipherUndoesCipher | tests/ref_aes_xts.c:203-288 | decrypting undoes encrypting for every block and every 240-byte schedule |
| Aes256Cipher.CipherUndoesInvCipher | tests/ref_aes_xts.c:203-288 | encrypting undoes decrypting for every block and every 240-byte schedule |
| Aes256Cipher.InvMixColumnsAdditive | tests/ref_aes_xts.c:179-193 | InvMixColumns distributes over xor of blocks |
| Aes256Cipher.EqInvCipherAgrees | tests/ref_aes_xts.c:165-197 | the equivalent inverse cipher of FIPS 197 section 5.3.5 under the decryption schedule is the inverse cipher under the encryption schedule |
| XtsRef.RefMulX | tests/ref_aes_xts.c:298-309 | the byte-carry loop with its final reduction is the spec's doubling |
| Gf128.MulAlphaCongruent | tests/ref_aes_xts.c:294-309 | the doubling is multiplication by x modulo x^128 + x^7 + x^2 + x + 1 |
| Gf128.DoubledBits | tests/ref_aes_xts.c:298-309 | bit by bit: every bit moves up by one, and the one that leaves at the top comes back at 7, 2, 1 and 0 |
| Gf128.TweakIsPower | tests/ref_aes_xts.c:339-344 | the tweak of block j is x^j times the first tweak modulo the polynomial, for every j |
| Gf128.RemainderUnique | tests/ref_aes_xts.c:294-309 | two blocks that stand for congruent polynomials are the same block |
| XtsStandard.MaskIsTweak | tests/ref_aes_xts.c:338-344 | the one block that stands for x^j times the first tweak is the tweak of block j |
| XtsRef.CryptBlocks | tests/ref_aes_xts.c:338-344 | n blocks, each masked before and after with its own tweak, in either direction and also in place; the tweak ends n doublings on; nothing else is written |
| XtsRef.StealInto | tests/ref_aes_xts.c:346-371 | the last full block and the partial block: both outputs for different arrays, and in place the one where the processed block takes the place of the filled one; nothing else is written |
| XtsRef.CryptTail | tests/ref_aes_xts.c:409-438 | encryption uses the last two tweaks in order, decryption in swapped order; also in place |
| XtsRef.XtsEncrypt | tests/ref_aes_xts.c:318-372 | out[0..len) is the XTS-AES-256 encryption of in[0..len), in place what the in-place function says; bytes behind it keep their values, and len < 16 changes nothing |
| XtsRef.XtsDecrypt | tests/ref_aes_xts.c:381-439 | the same for decryption |
| XtsStandard.XtsLeadingBlock | tests/ref_aes_xts.c:338-344 | every block before the last pair is the cipher of the block plus its mask, plus the mask, where the mask of block j stands for x^j times the iv encrypted under key2 and the cipher runs under key1 in the direction of the call; in place as well |
| XtsStandard.XtsLastBlocks | tests/ref_aes_xts.c:346-371 | the last full block, processed under the first of the last two masks, ends the result with its head; the partial block, filled up with its tail and processed under the second, takes its place; decryption exchanges the two masks |
| XtsStandard.XtsLastBlocksInPlace | tests/ref_aes_xts.c:346-371 | in place the processed block takes the place of the filled one |
| Xts.StealInverse | tests/ref_aes_xts.c:346-371 | stealing with the tweaks swapped and the inverse block function undoes stealing |
| Xts.DataUnitInverse | tests/ref_aes_xts.c:318-439 | for every length from 16 on, every first tweak and every invertible block function, one direction undoes the other |
| Xts.RoundTrip | tests/ref_aes_xts.c:318-439 | decrypting an encrypted data unit, and encrypting a decrypted one, returns it, for all keys, ivs and lengths from 16 on |
| Xts.StealInPlaceIff | tests/ref_aes_xts.c:361-371 | stealing in place is right iff the partial block already is the head of the processed block |
| Xts.InPlaceForgets | tests/ref_aes_xts.c:361-371 | in place, data units that differ in their partial block only give the same result |
| Xts.InPlaceRecoverableIff | tests/ref_aes_xts.c:318-439 | the data units of a length can be recovered from their results in place, by any function, iff the length is a multiple of 16 |
| Xts.XtsInPlaceIff | tests/ref_aes_xts.c:318-439 | in place all data units of a length are processed as they should be iff the length is a multiple of 16, for all keys and ivs |
| XtsRef.RoundTripOnArrays | tests/ref_aes_xts.c:318-439 | the two array procedures in sequence restore the plaintext; with two of the arrays the same for lengths that are multiples of 16 |
| AesWords.SubBytesRefines | common/aes.ml:233-262 | substitution on a 128-bit word is the byte-wise substitution of its sixteen bytes |
| AesWords.InvSubBytesRefines | common/aes.ml:233-262 | the same for the inverse table |
| AesWords.ShiftRowsRefines | common/aes.ml:264-300 | both row shifts on words are those on bytes |
| AesWords.MixColumnsRefines | common/aes.ml:311-337 | column mixing on words is the byte-array loop body |
| AesWords.InvMixColumnsRefines | common/aes.ml:339-365 | the same for its inverse |
| AesWords.TablesAreProducts | common/aes.ml:102-226 | the six FFmul tables hold the products by 02, 03, 09, 0B, 0D, 0E that the shift-and-add loop computes |
| AesWords.WordStepsInverse | common/aes.ml:233-365 | all three steps on words and their inverses undo each other in both orders |
| AesWords.KeyWordStepsRefine | common/aes.ml:367-378 | rotation and substitution of a 32-bit key word are those on its four bytes |
| AesWords.JoinBytes | common/aes.ml:31-49 | joining sixteen bytes into a word and taking the word apart returns them |
| ActionsMergerProofs.RangesComplete | common/actions_merger.ml:6-19 | every end of an action of either script in the middle file is among the ranges |
| ActionsMergerProofs.RangesSound | common/actions_merger.ml:6-19 | every range is such an end |
| ActionsMergerProofs.RangesOrdered | common/actions_merger.ml:6-19 | for two scripts that meet in the middle file the ranges are in ascending order |
| ActionsMergerProofs.DedupeMembers | common/actions_merger.ml:21-31 | dropping zeros and repetitions from an ascending list leaves a strictly increasing list of its positive members |
| ActionsMergerProofs.SplitActions1Works | common/actions_merger.ml:42-64 | splitting a covering script at lines that include its own ends succeeds, keeps its corners, and the parts end exactly at those lines |
| ActionsMergerProofs.SplitActions1Matches | common/actions_merger.ml:42-64 | splitting changes no matched pair |
| ActionsMergerProofs.SplitActions1Fails | common/actions_merger.ml:42-64 | with an action that covers nothing of the middle file the splitter fails |
| ActionsMergerProofs.SplitActions2Mirrors | common/actions_merger.ml:75-98 | the second splitter is the first one on the script of the opposite direction, failures included, after skipping a breakpoint at the start of the script |
| ActionsMergerProofs.BreakpointAtStart | common/actions_merger.ml:82-84 | a breakpoint at the start of a script is skipped, or left over and the splitter fails if the script only inserts |
| ActionsMergerProofs.SplitActions2Works | common/actions_merger.ml:75-98 | success, corners, ends and matches of the second splitter, with or without a breakpoint at the start |
| ActionsMergerProofs.MergeBaseWorks | common/actions_merger.ml:110-149 | zipping two scripts split at the same lines fails no assertion and no match and yields a script from the first to the third file |
| ActionsMergerProofs.MergeBaseMatches | common/actions_merger.ml:110-149 | the zipped script matches exactly the composed pairs |
| ActionsMergerProofs.MergeCombineWorks | common/actions_merger.ml:152-164 | coalescing a script fails no assertion, keeps its corners, and leaves no two adjacent equal and no two adjacent insert actions |
| ActionsMergerProofs.MergeCombineKeeps | common/actions_merger.ml:152-164 | coalescing changes no matched pair and creates no empty action |
| ActionsMergerProofs.PreprocKeeps | common/actions_merger.ml:168-174 | rewriting replacements keeps corners, matches and covering |
| ActionsMergerProofs.MergeSucceedsIff | common/actions_merger.ml:167-179 | on contiguous scripts A to B and B to C the merger succeeds if and only if every action that reaches into B covers at least one line of it |
| ActionsMergerProofs.MergeCorrect | common/actions_merger.ml:167-179 | the result is a contiguous, coalesced script from all of A to all of C that matches line i with line k iff some line of B is matched with both |
| ActionsMergerProofs.MergeAssociative | common/actions_merger.ml:167-179 | merging three scripts without empty actions succeeds in both orders and matches the same pairs |
| MergeLinewise.SplitSteps1 | common/actions_merger.ml:42-64 | splitting changes no step of a script, where the steps of an action keep, drop or add one line each |
| MergeLinewise.SplitSteps2 | common/actions_merger.ml:75-98 | the same for the second splitter |
| MergeLinewise.CombineSteps | common/actions_merger.ml:152-164 | coalescing changes no step and joins no deletions |
| MergeLinewise.MergeIsLinewise | common/actions_merger.ml:167-179 | the steps of the merged script are the two lists of steps composed one line at a time, lines that the first script drops before lines that the second adds |
| MergeDeletions.MergeDeletes | common/actions_merger.ml:167-179 | one action of the result deletes just the lines [p, q) iff an action of the first script does, or they are matched with what a matching action of the first and a deleting action of the second have in common |
| MergeNormalForm.NormalForm | common/actions_merger.ml:152-164 | a coalesced script without empty actions is determined by its steps and its deletions |
| MergeNormalForm.MergeDetermined | common/actions_merger.ml:167-179 | for scripts without empty actions the result is u if and only if u is the coalesced script without empty actions and replacements that has the composed steps and just these deletions |
| MergeDemands.Split1Demands | common/actions_merger.ml:42-64 | on arbitrary lists of actions: a split that succeeds ends its parts exactly at the given lines, and the deletions cover no line of the middle file |
| MergeDemands.Split2Demands | common/actions_merger.ml:75-98 | the same for the second splitter, with insertions, except that lines may be skipped |
| MergeDemands.ZipDemands | common/actions_merger.ml:110-149 | on arbitrary lists: zipping succeeds only on known operations whose lines of the middle file agree piece by piece |
| MergeDemands.CombineDemands | common/actions_merger.ml:152-164 | on arbitrary lists: coalescing succeeds only if what it joins is adjacent |
| MergeDemands.MergeAccepts | common/actions_merger.ml:167-179 | on arbitrary lists the merger fails on an unknown operation, on a deletion of the first list that covers lines of the middle file, and on such an insertion of the second |
| ActionsMergerProofs.TrailingEmptyEqualFails | tools/gen-actions.py:46-51 | a script with the empty equal action that the generator appends is a correct script on which the merger fails |
| ByteMemory.ReadElementWriteBytes | common/components.ml:1477-1495 | after a write each byte whose wrapped offset is below k holds that digit of the number, every other byte its old value |
| ByteMemory.ReadBytesEq | common/components.ml:1669-1683 | two memories give the same number iff they agree on the region |
| ByteMemory.ReadBytesBound | common/components.ml:1593-1598 | k bytes read as a number below 256^k |
| ByteMemory.LimbOfRead | common/components.ml:1497-1505 | digit i of the number read is the byte at offset i |
| ByteMemory.WriteBytesRead | common/components.ml:1507-1529 | storing back what was read changes nothing |
| ByteMemory.WriteBytesTwice | common/components.ml:1507-1529 | the later of two writes to a region wins |
| ByteMemory.ReadWriteBytes | common/components.ml:1566-1581 | for k up to the memory size a read returns what was written modulo 256^k |
| ByteMemory.ReadWriteIff | common/components.ml:1566-1581 | that holds for all numbers if and only if k is at most the memory size |
| ByteMemory.ReadBytesCombine | common/components.ml:1643-1654 | the number of m + n bytes from its two parts |
| ByteMemory.WriteBytesCombine | common/components.ml:1656-1667 | writing two numbers side by side is writing their combination, wrap-around included |
| ByteMemory.ReadBytesMod | common/components.ml:1685-1704 | remainder and quotient by 256^n are the first min(k, n) bytes and the bytes from offset n on |
| ByteMemory.OrthogonalIff | common/components.ml:1534-1564 | writes to two regions commute and leave each other's number alone, for all memories and numbers, iff no two of their bytes share an address |
| ByteMemory.SharedByteInterferes | common/components.ml:1543-1559 | the converse: regions that share a byte interfere |
| MemoryLayout.ReadIsLittleEndian | common/components.ml:1458-1470 | k bytes from a on are read as the little-endian number of the bytes at a, a + 1, ..., addresses taken modulo the size |
| MemoryLayout.StoredByte | common/components.ml:1477-1495 | after a write the address o above a holds n / 256^o mod 256 for o below k, every other address its old byte |
| MemoryLayout.ApartIff | common/overlap.ml:25-29 | two regions share no byte iff one is empty or each starts behind the end of the other, going round |
| MemoryLayout.RegionsApart | common/components.ml:1534-1564 | such regions are written in either order with the same result, and a write to one leaves the number of the other |
| Bignum.BigDigitOfWordlist | common/bignum.ml:362-385 | the digits of a word list's number are its words, and zero above |
| Bignum.LowDigitsStep | common/bignum.ml:100-105 | one more digit of the low part |
| Bignum.BignumIsBytes | common/bignum.ml:642-661 | the sum of k words equals the little-endian read of 8 k bytes, wrap-around included |
| Bignum.CutBignum | common/bignum.ml:452-481 | remainder and quotient by 2^(64 n) are the first min(k, n) words and the words from address a + 8 n on |
| Bignum.BigDigitFromMemory | common/bignum.ml:494-506 | digit i is the word at a + 8 i below k and zero above |
| Bignum.StoreWordsIsWriteBytes | common/bignum.ml:228-230 | storing a word list word by word is one write of its number |
| Bignum.StoreWordsRoundTrip | common/bignum.ml:391-395 | words stored in a memory large enough are read back as their number |
| Bignum.StoreDigit | common/bignum.ml:494-506 | storing one word into an array that fits changes that digit of its number and no other |
| MemoryLayout.BignumIsLittleEndian | common/bignum.ml:642-661 | k words from a on are the little-endian number of the 8 k bytes there |
| MemoryLayout.DigitsAre | common/bignum.ml:13-14 | digit i is n / 2^(64 i) mod 2^64; the low and the high part are remainder and quotient by 2^(64 i) |
| MemoryLayout.WordlistIs | common/bignum.ml:228-231 | the number of a list of n words is below 2^(64 n) and has the words as its base-2^64 digits |
| MemoryLayout.StoredWordByte | common/bignum.ml:228-230 | storing a word list puts byte o of its number at the address o above a and changes no other address |
| CosimText.TokensOfJoin | riscv/proofs/cosim_runner.c:190-210 | words joined by spaces come apart into the same words |
| CosimText.CosimWordsAreTokens | common/cosim.ml:78-79 | on lines without tabs the client's splitting finds exactly the monitor's tokens |
| CosimCases.TokensAre | riscv/proofs/cosim_runner.c:190-210 | spaces and tabs separate words, any number of them, and nothing else does |
| CosimText.DecimalRoundTrip | riscv/proofs/cosim_runner.c:283-296 | printing a number in decimal and reading it gives the number |
| CosimCases.DecimalNotation | riscv/proofs/cosim_runner.c:283-296 | decimal text has the highest digit first, no leading zeros, and the digits 0 to 9 |
| CosimText.DecodeIff | common/cosim.ml:260-266 | the client's hexadecimal text decodes to the same bytes iff there are 1 to 512 of them and whole words, and is refused otherwise |
| CosimCases.CodeIs | riscv/proofs/cosim_runner.c:236-259 | a text is taken as code iff it spells 1 to 512 bytes of whole words, two hexadecimal digits of either case for each |
| CosimCases.WordsAre | riscv/proofs/cosim_runner.c:393-399 | texts are parsed as a state iff there are enough and each is the decimal numeral of the word in its place |
| CosimRunner.NextToken | riscv/proofs/cosim_runner.c:190-210 | the token found and the string left behind the cursor, the in-place NUL included; nothing before the cursor changes |
| CosimRunner.ParseU32 | riscv/proofs/cosim_runner.c:212-234 | accepts exactly the non-empty decimal strings below 2^32, with their value; the bound check never lets the 32-bit value wrap |
| CosimRunner.StringEqual | riscv/proofs/cosim_runner.c:140-148 | true iff the C string is the text |
| CosimRunner.DecimalDigits | riscv/proofs/cosim_runner.c:283-292 | at most ten digits are stored, lowest first, and they are the decimal text reversed |
| CosimRunner.Monitor.ReadLine | riscv/proofs/cosim_runner.c:165-188 | succeeds iff a newline comes before the end and the line without carriage returns fits; then the buffer holds that line |
| CosimRunner.Monitor.DecodeCode | riscv/proofs/cosim_runner.c:236-259 | accepts exactly the code texts of the specification and fills the buffer with their bytes |
| CosimRunner.Monitor.ResponseCharacter | riscv/proofs/cosim_runner.c:267-273 | appends, or drops the character when only the NUL's place is left |
| CosimRunner.Monitor.ResponseString | riscv/proofs/cosim_runner.c:275-281 | appends a string up to the capacity |
| CosimRunner.Monitor.ResponseU32 | riscv/proofs/cosim_runner.c:283-296 | appends the decimal text |
| CosimRunner.Monitor.ResponseSend | riscv/proofs/cosim_runner.c:298-304 | the C string sent is the text with its newline |
| CosimRunner.Monitor.SendState | riscv/proofs/cosim_runner.c:357-369 | the OK line of all 95 words is sent, never truncated |
| CosimRunner.Monitor.SendTrap | riscv/proofs/cosim_runner.c:371-380 | the TRAP line is sent, never truncated |
| CosimRunner.Monitor.InstallCode | riscv/proofs/cosim_runner.c:324-347 | succeeds iff code and breakpoint fit the slot, which then holds the code, the little-endian breakpoint and behind it what it held before |
| CosimRunner.Monitor.Execute | riscv/proofs/cosim_runner.c:413-420 | the backend runs on the whole slot, the state and its scratch words, and the state becomes its registers and scratch memory |
| CosimRunner.Monitor.ParseState | riscv/proofs/cosim_runner.c:393-399 | 95 tokens are parsed into the state in order, or one is missing or malformed |
| CosimRunner.Monitor.ExecuteRequest | riscv/proofs/cosim_runner.c:382-427 | for every argument string the answer sent is the specified one, with each error in its order of precedence |
| CosimRunner.Monitor.Answer | riscv/proofs/cosim_runner.c:440-450 | dispatch on the first token: RUN, QUIT, empty and unknown commands |
| CosimRunner.Monitor.Serve | riscv/proofs/cosim_runner.c:429-452 | for every input stream everything sent is the greeting and then the specified answers in order, the code slot carried from request to request |
| CosimProtocol.RequestUnderstood | common/cosim.ml:268-277 | the monitor understands the client's RUN line for a valid request as exactly that code and those words |
| CosimCases.RequestSpelled | common/cosim.ml:260-277 | the client sends RUN, two lower-case digits for every byte, and the words in decimal, separated by single spaces |
| CosimProtocol.AnswerUnderstood | common/cosim.ml:278-280 | the client reads an OK line as the decimal texts of the words sent, which mean those words |
| CosimProtocol.TrapUnderstood | common/cosim.ml:285 | the client reads a TRAP line as the two details mcause and mtval, in this order |
| CosimCases.GreetingWords | riscv/proofs/cosim_runner.c:349-355 | the greeting is the words READY, 1, rv32im and 95 |
| CosimCases.GreetingAccepted | common/cosim.ml:238-258 | a client accepts the greeting iff it expects rv32im and 95 state words |
| CosimProtocol.OutcomeFits | riscv/proofs/cosim_runner.c:267-273 | every answer to an execution leaves room for its newline and NUL in 4096 bytes |
| CosimProtocol.ExecutedIff | riscv/proofs/cosim_runner.c:404-426 | the client sees a failure for a valid request whose code does not fit; for every other, which runs its code with the breakpoint behind it, OK with 31 registers and 64 words of scratch memory iff the run ends at the breakpoint, and otherwise TRAP with cause and value |
| CosimProtocol.RefusedIff | riscv/proofs/cosim_runner.c:330-333 | a valid request is answered with unsupported-code iff its code and four bytes exceed the slot, whatever the backend does |
| CosimProtocol.FullSizeRefused | riscv/proofs/cosim_start.S:326-328 | in the slot of 512 bytes exactly the valid requests with 512 bytes of code are answered with unsupported-code |
| CosimProtocol.SessionAnswered | riscv/proofs/cosim_runner.c:429-452 | every session of valid requests is answered, in order, with the outcome of running each request's code, installed over what the earlier ones left in the slot, on its state |
| CosimProtocol.RequestsIndependent | riscv/proofs/cosim_runner.c:340-342 | if the runs of a session's own requests do not depend on what lies behind their breakpoints, what is sent does not depend on what the slot held before |
| CosimCases.LinesAre | riscv/proofs/cosim_runner.c:165-188 | a line ends at the first newline and counts if it has less than 4096 characters without its carriage returns; without a newline there is none |
| CosimCases.ReturnsDropped | riscv/proofs/cosim_runner.c:175-177 | a carriage return is dropped wherever it is, and nothing else |
| CosimCases.StringsEnd | riscv/proofs/cosim_runner.c:190-210 | a line counts up to its first NUL |
| CosimCases.LineCounts | riscv/proofs/cosim_runner.c:429-452 | any line that fits is answered like what is left of it before its first NUL without carriage returns |
| CosimCases.Silence | riscv/proofs/cosim_runner.c:437-439 | nothing is sent after the last newline or after a line that is too long |
| CosimCases.CommandsAnswered | riscv/proofs/cosim_runner.c:440-450 | the answers to a line without words, to QUIT, to an unknown command and to RUN without well-formed code; the code slot stays as it was |
| CosimCases.MalformedStateAnswered | riscv/proofs/cosim_runner.c:393-399 | RUN with well-formed code and fewer than 95 words, or one of the first 95 that is no numeral below 2^32, is answered with malformed-input-state |
| CosimCases.RunRefused | riscv/proofs/cosim_runner.c:400-411 | then, in this order: more than 95 words, a first word that is not zero, code that exceeds the slot with its breakpoint |
| CosimCases.RunAnswered | riscv/proofs/cosim_runner.c:408-426 | every other RUN runs the slot filled with the code, 73 00 10 00 and what was behind, on the state and its words 31 to 94; the answer is OK with 31 registers and 64 scratch words, or TRAP with cause and value; the next line finds the slot so filled |

## Left out

- The assembly kernels and the functions declared in include/s2n-bignum.h: the repository proves the object code itself, in HOL Light.
- X25519 on u-coordinates of the quadratic twist: `Scalarmult25519.CryptoScalarmult` holds for them, the group of the twist is not modelled.
- `crypto_scalarmult`'s array `x[80]`: its parts at 0, 16 and 32 are separate arrays of sixteen limbs; the copies of b and d to 48 and 64 are never read and are not made.
- Field25519.A: the ghost parameter `m` is the bound the caller knows for the inputs; the code has no such parameter.
- Field25519.Z: the ghost parameter `m` as for A.
- Edwards25519.CswapPoints: as for IteratePoints.
- Edwards25519.IteratePoints: two points that share some but not all of their arrays are not modelled; p and q are one point or disjoint.
- Edwards25519.ScalarmultPoint: p and q must be disjoint arrays, as the ladder needs to multiply; q is overwritten as in the code.
- The C functions `add`, `pack25519`, `M`, the two key expansions, both XTS functions and `execute_request` are split into several methods; the order of their steps is kept.
- `s2n_bignum_AES_KEY` is an array of 240 bytes and the number of rounds; its view as 64-bit words is not modelled.
- Arrays that overlap partly: C lets `in` and `out` of the XTS procedures point into one buffer at different places; here they are one array or two.
- The 2048-bit constants of common/aes.ml are kept as the sixteen 128-bit words they are joined from; a lookup selects a word and then a byte.
- OCaml's 63-bit integers are unbounded in the merger; line numbers do not reach that range.
- tools/gen-actions.py: only the shape of the scripts it prints is used.
- ByteMemory.OrthogonalIff: stated for byte regions; the general theory of state components and the register components of common/components.ml are not modelled.
- HOL's byte-list component, its conversions and the tactics of common/: proof automation.
- CosimRunner.Monitor.Execute: code that writes into its own slot is not modelled; the slot leaves a run as it entered it.
- CosimCases.GreetingAccepted: the client reads the number of state words with `int_of_string`, which takes other notations too; decimal texts only are modelled.
- The trap handler, semihosting, `fence.i`, processes, pipes and time-outs of the cosimulation programs; characters outside the protocol's ASCII text are ordinary characters, and a read error is the end of the stream.
- Constant-time claims, benchmarks, simulators and the decoder.
