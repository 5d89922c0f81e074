# bebop2 core: a verified model

This project models the cryptographic and log-keeping core of bebop2 in Dafny and proves what that core is
for.  To verify it, use `dafny verify dfyconfig.toml`.  The code computes short mathematical statements by
long routes: limbs, in-place butterflies, branch-free masks, streaming buffers.  The proofs connect the two.
Code that updates arrays or objects is modelled by methods with loops and by classes, each proved against a
specification function; code made of expressions is modelled by functions; what the system promises is then
proved about those functions, for all inputs and all runs.

- **ML-DSA-65** (FIPS 204).  `DsaField`, `DsaNtt` and `DsaProduct`: Montgomery reduction, the in-place
  transforms without `i32` overflow, and that they multiply polynomials.  `DsaRounding`: exact division,
  hints.  `DsaPacking`, `DsaSignature`, `DsaKeys`: the codecs, a bijection for signatures.  `DsaAlgebra` to
  `DsaCompleteness`: a signature that the rejection loop returns always verifies.  `DsaIntegers`,
  `DsaSoundness`, `DsaSigning`: exactly what is accepted and what is published, as equations between integer
  polynomials, and that a signature binds its message.  `DsaLoops`: key generation, signing and verification
  as the loops they are.
- **ML-KEM-768** (FIPS 203 building blocks).  `KemNtt` and `KemSchoolbook`: both products are the product in
  Z_3329[x]/(x^256 + 1), so they agree on all inputs.  `KemCompress`, `KemCodec`: rounding bounds and codecs.
  `InnerProducts`, `KemRing`, `KemScheme`, `KemCorrectness`, `KemLoops`: decapsulation returns the
  encapsulated secret when the noise fits, with the exact bound, and rejects implicitly otherwise.
  `KemEquations`: the key and ciphertext equations written out.
- **Keccak** (FIPS 202).  `Keccak`: two implementations of the permutation agree.  `KeccakFips`: their tables
  are those that the standard defines.  `Sponge`, `SpongePadding`: the incremental sponge does not depend on
  how input and output are cut, equals the one-shot sponge, and pads every message differently.
- **Argon2id** (RFC 9106).  `Argon2Layout`, `Argon2Fill`, `Argon2Loops`: every reference is to a block that
  was filled before and that no other lane is writing, so lanes may run in any interleaving.
  `Argon2Reference`: which block is referenced.  `Argon2Recurrence`: the array holds the recurrence of the
  standard.  `Blake2b`: the streaming hash, and on which messages it makes the calls of RFC 7693.
- **Ed25519** and **X25519** (RFC 8032, RFC 7748).  `Ed25519Field`, `Ed25519Scalars`, `Ed25519`,
  `Clamping`, `Prime25519`, `X25519Field`, `MontgomeryCurve`, `X25519`: exact limb arithmetic, reduction modulo p and L, double-and-add and
  the deferred-swap ladder with the formulas of the curve, exactly which signatures verify, and that shared
  secrets agree.
- **Event log and anti-entropy.**  `EventLogs`, `AntiEntropy`: the hash chain, first divergence, pull, and
  convergence over every run of authors and followers.
- **FFT and vector binding.**  `Fourier`, `FftLoops`, `Vsa`: the in-place transform equals the direct one,
  its inverse undoes it, and exactly when binding is circular convolution.
- **Globs.**  `Globs`: a glob compiled to a regular expression and matched by the backtracker means what the
  glob means, and exactly which targets the guard passes.

The remaining modules are shared mathematics: `Rings`, `Vectors`, `QuotientRing`, `Transform`, `RootTables`
and `Homomorphisms` (one development of transforms over any commutative ring, used by ML-DSA, ML-KEM and the
FFT), `ModArith`, `Radix`, `ByteNumbers`, `BitOps`, `MachineInts`, `Groups`, `Buffers`.

Parameters stand for what is not modelled: hash functions, the extendable-output functions, the samplers of
ML-DSA and ML-KEM (with the ranges of their results), Argon2's block function, BLAKE2b's compression
function, and the curves.  The laws that are taken as hypotheses are predicates: `Oracles.Valid` of
`DsaScheme` and `KemScheme`, `IsHash` of `EventLogs` and `Ed25519`, `Ed25519.IsCurve`, `X25519.Laws`,
`Argon2Recurrence.XorLaws`, `Vsa.Setting`.

## Where the code and its comments differ

- `montgomery_reduce` documents the closed input range up to 2^31 Q and the open result range.  At
  a = 2^31 Q the result is Q; this is the only exception (`DsaField.MontgomeryBound`).  No caller reaches it.
- `verify` of the event log does not check the numbering.  A log with arbitrary numbers that are chained
  consistently verifies (`EventLogs.NumberingUnchecked`); what appending builds is exactly what verifies and is
  numbered by position (`EventLogs.VerifyExact`).
- `bind` documents scratch buffers of at least the padded length and vectors of any length.  It is circular
  convolution exactly if the buffers have the length of the vectors, which must be a power of two
  (`Vsa.BindExact`, over all scratch lengths that are powers of two).
- The streaming BLAKE2b compresses a full block as soon as it has one.  On non-empty messages whose length is
  a multiple of 128 it makes one more compression call than RFC 7693 (`Blake2b.RfcExact`).

## Model

| member | source | states |
|---|---|---|
| `DsaField.MontgomeryExact` | bebop2/core/src/pq_dsa.rs:73-77 | 2^32 times the result is a minus a multiple of Q, so the result is a / 2^32 modulo Q |
| `DsaField.MontgomeryBound` | bebop2/core/src/pq_dsa.rs:73-77 | on the documented input range the result lies strictly between -Q and Q, except at a = 2^31 Q exactly, where it is Q |
| `DsaField.MontIsRing` | bebop2/core/src/pq_dsa.rs:73-77 | the integers modulo Q with x y / 2^32 as product form a commutative ring, whose one is 2^32 mod Q |
| `DsaField.ResidueHom` | bebop2/core/src/pq_dsa.rs:73-77 | taking residues turns +, -, and montgomery_reduce of a product into the operations of that ring |
| `DsaField.TableEntry` | bebop2/core/src/pq_dsa.rs:163-196 | every entry k of the zeta table is 1753 to the power of the 8-bit reversal of k, in Montgomery form |
| `DsaField.ZetaTable` | bebop2/core/src/pq_dsa.rs:163-196 | every entry is a square root of the root of its block, and entries read from opposite ends of a layer multiply to -1 |
| `DsaNtt.NttInPlace` | bebop2/core/src/pq_dsa.rs:198-217 | the in-place butterflies compute the 8-layer transform; no i32 operation overflows, every reduction is called in range, and coefficients grow by at most 8 Q |
| `DsaNtt.InvNttToMont` | bebop2/core/src/pq_dsa.rs:219-243 | the in-place inverse computes the 8 inverse layers and the scaling without overflow from inputs below Q, and every output is below 4211179 in size, hence in (-Q, Q) |
| `DsaNtt.ForwardLayer` | bebop2/core/src/pq_dsa.rs:202-216 | one pass over all blocks of a layer, with the zeta index counted upwards, is the layer of the specification |
| `DsaNtt.InverseLayer` | bebop2/core/src/pq_dsa.rs:223-239 | one inverse pass, with the zeta index counted downwards, is the inverse layer of the specification |
| `DsaNtt.NttOfBound` | bebop2/core/src/pq_dsa.rs:198-217 | growth of at most Q in each of the 8 layers |
| `DsaNtt.InttOfBound` | bebop2/core/src/pq_dsa.rs:219-243 | doubling in each inverse layer, 256 (Q - 1) before scaling, and the bound after it |
| `DsaProduct.TransformInverse` | bebop2/core/src/pq_dsa.rs:198-243 | each transform undoes the other up to the Montgomery factor |
| `DsaProduct.TransformMultiplies` | bebop2/core/src/pq_dsa.rs:136-243 | inverse transform of the pointwise Montgomery product of two transforms is congruent to the negacyclic product of the two polynomials over the integers |
| `DsaRounding.Reduce32` | bebop2/core/src/pq_dsa.rs:80-83 | a representative of the same residue between -6283009 and 6283008 |
| `DsaRounding.CAddQ` | bebop2/core/src/pq_dsa.rs:86-88 | the canonical residue of any value in (-Q, Q) |
| `DsaRounding.CheckNorm` | bebop2/core/src/pq_dsa.rs:145-157 | reports exactly the polynomials with a coefficient of at least the bound, or a bound that is too large |
| `DsaRounding.Power2Round` | bebop2/core/src/pq_dsa.rs:249-253 | splits a into r1 2^13 + r0 with r0 in (-2^12, 2^12] |
| `DsaRounding.DecomposeExact` | bebop2/core/src/pq_dsa.rs:256-263 | the shift-and-multiply division by 2 gamma2 is exact on all of [0, Q), with the wrap of the top interval to high part 0 |
| `DsaRounding.HintRecovers` | bebop2/core/src/pq_dsa.rs:256-283 | UseHint on w - cs2 + ct0 with the hint made from the low parts gives back the high part of w, with both wraparounds and both edges |
| `DsaPacking.T1RoundTrip` | bebop2/core/src/pq_dsa.rs:484-503 | unpacking undoes packing of 10-bit coefficients |
| `DsaPacking.T0RoundTrip` | bebop2/core/src/pq_dsa.rs:505-552 | unpacking undoes packing of 13-bit coefficients |
| `DsaPacking.EtaRoundTrip` | bebop2/core/src/pq_dsa.rs:554-569 | unpacking undoes packing of 4-bit coefficients |
| `DsaPacking.ZRoundTrip` | bebop2/core/src/pq_dsa.rs:571-595 | unpacking undoes packing of 20-bit coefficients |
| `DsaPacking.ZBijection` | bebop2/core/src/pq_dsa.rs:571-595 | every string of 640 bytes is the packing of what it unpacks to |
| `DsaSignature.PackHints` | bebop2/core/src/pq_dsa.rs:706-726 | the loop writes the positions of all hints and the running counts, and nothing else |
| `DsaSignature.UnpackHints` | bebop2/core/src/pq_dsa.rs:741-760 | the loop accepts and returns exactly what the recursive decoder does: counts in order, positions increasing, unused positions zero |
| `DsaSignature.ReadRun` | bebop2/core/src/pq_dsa.rs:747-754 | the positions of one polynomial are accepted exactly if they increase, and give its hints |
| `DsaSignature.PackSigBytes` | bebop2/core/src/pq_dsa.rs:706-726 | the bytes of a signature |
| `DsaSignature.UnpackSigBytes` | bebop2/core/src/pq_dsa.rs:729-762 | the parsed signature, or nothing for a wrong length or a malformed hint |
| `DsaSignature.SignatureRoundTrip` | bebop2/core/src/pq_dsa.rs:706-762 | unpacking a packed signature gives it back, for z in range and at most OMEGA hints |
| `DsaSignature.SignatureCanonical` | bebop2/core/src/pq_dsa.rs:706-762 | an accepted string is the packing of what it unpacks to, so no signature has two encodings |
| `DsaKeys.PublicKeyRoundTrip` | bebop2/core/src/pq_dsa.rs:617-637 | unpacking undoes packing of public keys |
| `DsaKeys.SecretKeyRoundTrip` | bebop2/core/src/pq_dsa.rs:639-704 | unpacking undoes packing of secret keys |
| `DsaAlgebra.RowLinear` | bebop2/core/src/pq_dsa.rs:767-777 | a matrix row applied to transforms of c s + y splits into its c s part and its y part |
| `DsaEquation.VerifierValue` | bebop2/core/src/pq_dsa.rs:1021-1036 | over the ring, A z - c t1 2^13 is A y - c s2 + c t0 when t1 2^13 + t0 = A s1 + s2 and z = c s1 + y |
| `DsaCompleteness.VerifierEquation` | bebop2/core/src/pq_dsa.rs:885-1036 | the same equation holds coefficient by coefficient modulo Q for the polynomials that signer and verifier compute |
| `DsaCompleteness.HintsRecover` | bebop2/core/src/pq_dsa.rs:932-971 | the verifier recovers the high bits of w for every coefficient of a polynomial that passed the norm checks |
| `DsaCompleteness.RoundRecovers` | bebop2/core/src/pq_dsa.rs:881-975 | in a round that passes all checks, the verifier recomputes the commitment of that round |
| `DsaCompleteness.SignedVerifies` | bebop2/core/src/pq_dsa.rs:783-1055 | for every key generation seed, message and randomness: if the signing loop returns a signature, verification accepts it |
| `DsaIntegers.SampleRepresented` | bebop2/core/src/pq_dsa.rs:401-425 | every sampled matrix entry is the transform of a polynomial |
| `DsaIntegers.RowIs` | bebop2/core/src/pq_dsa.rs:767-777 | multiplying a matrix row with transforms and transforming back is the sum of the products of the polynomials modulo x^256 + 1, modulo Q |
| `DsaIntegers.VerifierPolyIs` | bebop2/core/src/pq_dsa.rs:1021-1036 | for every response, challenge and key: what the verifier computes for a row is A z - c t1 2^13 over the integers, reduced modulo Q |
| `DsaSoundness.HighPacked` | bebop2/core/src/pq_dsa.rs:603-615 | the encoded high parts: byte k of a polynomial is coefficient 2 k plus 16 times coefficient 2 k + 1 |
| `DsaSoundness.VerifyExact` | bebop2/core/src/pq_dsa.rs:988-1055 | verification accepts if and only if the key has its length, the signature parses, every coefficient of z is below the bound, and the challenge is the hash of the message digest and the encoded hint-adjusted high parts of A z - c t1 2^13 |
| `DsaSoundness.SignatureBindsMessage` | bebop2/core/src/pq_dsa.rs:1002-1055 | a signature that is accepted for two messages exhibits two strings with the same hash |
| `DsaSigning.KeyExact` | bebop2/core/src/pq_dsa.rs:783-833 | t1 2^13 + t0 is A s1 + s2 modulo Q, with rho, the secrets and the signing key taken from their parts of the expanded seed |
| `DsaSigning.SignExact` | bebop2/core/src/pq_dsa.rs:836-977 | the signature comes from the first round that is not rejected; its masks come from the key, the randomizer and the message; the challenge is the hash of the digest and the high parts of A y; z is y + c s1 modulo Q and below the bound |
| `DsaSigning.MasksFresh` | bebop2/core/src/pq_dsa.rs:364-377 | no two masks of the first 13107 rounds are expanded from the same string |
| `DsaLoops.KeyGenBytes` | bebop2/core/src/pq_dsa.rs:783-833 | the key pair of the specification |
| `DsaLoops.SignRound` | bebop2/core/src/pq_dsa.rs:882-975 | one round of the rejection loop: the attempt of the specification, accepted or rejected for the same reasons in the same order |
| `DsaLoops.SignInternal` | bebop2/core/src/pq_dsa.rs:836-977 | the loop returns the signature of the first accepted round within any given number of rounds |
| `DsaLoops.VerifyInternal` | bebop2/core/src/pq_dsa.rs:988-1055 | accepts exactly the signatures that the specification of verification accepts, which VerifyExact states in full: wrong lengths, malformed encodings, large responses and wrong challenges are rejected |
| `DsaLoops.HintLoop` | bebop2/core/src/pq_dsa.rs:960-974 | the hint loop computes the hint vector and counts its ones |
| `KemField.FieldIsRing` | bebop2/core/src/pq_kem.rs:275-278 | the residues modulo 3329, reduced by one conditional addition, form a commutative ring |
| `KemField.ZetaTable` | bebop2/core/src/pq_kem.rs:365-396 | the table 17^brv7(i) has square roots of the block roots, and entries from opposite ends of a layer multiply to -1 |
| `KemNtt.NttFwdKem` | bebop2/core/src/pq_kem.rs:400-419 | the in-place loop computes the 7-layer transform |
| `KemNtt.NttInvKem` | bebop2/core/src/pq_kem.rs:424-449 | the in-place loop computes the inverse layers and the scaling by 3303 |
| `KemNtt.BaseMul` | bebop2/core/src/pq_kem.rs:453-458 | the product of two linear polynomials modulo x^2 - zeta |
| `KemNtt.BaseMulAll` | bebop2/core/src/pq_kem.rs:468-484 | the 128 base multiplications, in pairs with zeta and -zeta |
| `KemNtt.RoundTrip` | bebop2/core/src/pq_kem.rs:400-449 | the inverse transform undoes the transform |
| `KemNtt.NttProduct` | bebop2/core/src/pq_kem.rs:463-488 | transforming, base-multiplying and transforming back is the product in Z_3329[x]/(x^256 + 1) |
| `KemNtt.PolyMulNtt` | bebop2/core/src/pq_kem.rs:463-488 | the fast product is the ring product, for all operands |
| `KemSchoolbook.PolyMul` | bebop2/core/src/pq_kem.rs:303-334 | the schoolbook loop with its skipped zeros is the same ring product, so the two always agree |
| `KemRing.PolyRingIsRing` | bebop2/core/src/pq_kem.rs:280-334 | polynomials modulo x^256 + 1 form a commutative ring |
| `InnerProducts.Adjoint` | bebop2/core/src/pq_kem.rs:647-720 | the inner product of A s with y is the inner product of s with the transposed matrix applied to y |
| `InnerProducts.DecryptionEquation` | bebop2/core/src/pq_kem.rs:647-755 | what decryption subtracts leaves the message plus e y + e2 + cv - s (e1 + cu) |
| `KemCompress.CompressDecompress` | bebop2/core/src/pq_kem.rs:563-571 | compressing a decompressed value gives it back, for every width |
| `KemCompress.DecompressCompress` | bebop2/core/src/pq_kem.rs:563-571 | decompressing a compressed value moves it by at most the rounded q / 2^(d+1) in centred distance |
| `KemCompress.BitRecovered` | bebop2/core/src/pq_kem.rs:563-571 | a message bit survives a noise if and only if the centred noise is in [-832, 832 - bit] |
| `KemCodec.ByteEncode` | bebop2/core/src/pq_kem.rs:513-534 | the bit loop writes the bits of all coefficients, lowest first |
| `KemCodec.ByteDecode` | bebop2/core/src/pq_kem.rs:535-554 | the bit loop reads them back, reducing 12-bit fields modulo q |
| `KemCodec.DecodeEncode` | bebop2/core/src/pq_kem.rs:513-554 | decoding undoes encoding of values in range, for every width from 1 to 12 |
| `KemScheme.DecryptLength` | bebop2/core/src/pq_kem.rs:723-755 | decryption yields 32 bytes for every ciphertext |
| `KemCorrectness.DecryptExact` | bebop2/core/src/pq_kem.rs:647-755 | decryption returns the encrypted message if and only if every coefficient of the noise is in the range of its bit |
| `KemCorrectness.DecapsCorrect` | bebop2/core/src/pq_kem.rs:778-927 | if the noise fits, decapsulation returns the encapsulated secret; decryption inside it recovers the message if and only if it fits |
| `KemCorrectness.DecapsRejects` | bebop2/core/src/pq_kem.rs:883-927 | on every ciphertext: the secret that re-encapsulation gives if it reproduces the ciphertext, else the hash of z and the ciphertext |
| `KemCorrectness.KeyParts` | bebop2/core/src/pq_kem.rs:778-829 | the decapsulation key splits into the secret vector, the encapsulation key, its hash, and z |
| `KemCorrectness.CiphertextRoundTrip` | bebop2/core/src/pq_kem.rs:706-736 | unpacking a ciphertext gives the compressed vectors |
| `KemEquations.KeyEquation` | bebop2/core/src/pq_kem.rs:778-829 | t = A s + e in the ring, with every matrix entry, secret and error named by its seed and its indices, and the four parts of the secret key |
| `KemEquations.CiphertextEquation` | bebop2/core/src/pq_kem.rs:647-720 | the ciphertext is u = A^T y + e1 and v = t y + e2 + mu up to compression, with the seven samples of the coins named |
| `KemEquations.EncapsExact` | bebop2/core/src/pq_kem.rs:854-868 | the secret and the coins together are the hash of the message and the hashed key, and the ciphertext is the encryption under those coins |
| `KemEquations.SecretHidden` | bebop2/core/src/pq_kem.rs:854-868 | the ciphertext does not change when the secret half of that hash does |
| `KemLoops.KpkeEncrypt` | bebop2/core/src/pq_kem.rs:647-720 | the loops compute the encryption of the specification |
| `KemLoops.KpkeDecrypt` | bebop2/core/src/pq_kem.rs:723-755 | the loops compute the decryption of the specification |
| `KemLoops.EqualMask` | bebop2/core/src/pq_kem.rs:916-925 | the or-accumulated comparison gives a full mask exactly for equal ciphertexts |
| `KemLoops.DecapsBytes` | bebop2/core/src/pq_kem.rs:883-927 | the branch-free selection returns what the specification of decapsulation does |
| `KemLoops.EncapsBytes` | bebop2/core/src/pq_kem.rs:854-868 | the shared secret and ciphertext of the specification |
| `KemLoops.KeyGenBytes` | bebop2/core/src/pq_kem.rs:778-829 | the key pair of the specification |
| `Keccak.KemKeccakF` | bebop2/core/src/pq_kem.rs:89-129 | the lane walk in place computes the permutation |
| `Keccak.HashKeccakF` | bebop2/core/src/hash.rs:258-300 | the array form computes the same permutation, so the two agree on every state |
| `Keccak.RhoPiInPlace` | bebop2/core/src/pq_kem.rs:104-117 | carrying one lane round the cycle of 24 lanes is rotation followed by permutation |
| `Keccak.WalkBack` | bebop2/core/src/pq_kem.rs:104-117 | the step of the walk inverts the source index that the other module reads |
| `Keccak.WalkTurn` | bebop2/core/src/pq_kem.rs:79-82 | the rotation amounts along the walk are the entries of the other table |
| `Keccak.StopOnce` | bebop2/core/src/pq_kem.rs:104-117 | the 24 stops of the walk are different lanes |
| `KeccakFips.OffsetsExact` | bebop2/core/src/pq_kem.rs:79-82 | the t-th lane of the walk of FIPS 202 is rotated by the t-th triangular number modulo 64, and lane (0, 0) not at all |
| `KeccakFips.PlacesCover` | bebop2/core/src/pq_kem.rs:83-87 | that walk meets every other lane |
| `KeccakFips.RhoPiIs` | bebop2/core/src/hash.rs:276-290 | the lane at (x, y) goes, rotated, to (y, 2 x + 3 y) |
| `KeccakFips.ThetaIs` | bebop2/core/src/hash.rs:262-274 | each lane gets the sum of the column before it and the rotated sum of the column after it |
| `KeccakFips.ChiIs` | bebop2/core/src/hash.rs:291-296 | each lane is combined with the next two of its row |
| `KeccakFips.ChiPolynomial` | bebop2/core/src/pq_kem.rs:118-127 | that combination is a + c + b c over the field of two elements |
| `KeccakFips.ConstantsExact` | bebop2/core/src/pq_kem.rs:53-78 | all 24 round constants are the outputs of the shift register of FIPS 202 |
| `Sponge.Hasher.constructor` | bebop2/core/src/pq_kem.rs:141-149 | a sponge that has absorbed nothing |
| `Sponge.Hasher.Absorb` | bebop2/core/src/pq_kem.rs:150-162 | the state after a call depends only on the concatenation of everything absorbed |
| `Sponge.Hasher.Pad` | bebop2/core/src/pq_kem.rs:164-174 | the state after the padded last block |
| `Sponge.Hasher.PermuteBlock` | bebop2/core/src/pq_kem.rs:175-189 | the buffered block is added lane by lane, permuted, and cleared |
| `Sponge.Hasher.Squeeze` | bebop2/core/src/pq_kem.rs:190-207 | the bytes of the output stream that follow those already drawn |
| `Sponge.HashPieces` | bebop2/core/src/pq_kem.rs:133-207 | for every way of cutting the input into absorb calls and the output into squeeze calls, the concatenated output is the hash of the concatenated input |
| `Sponge.KeccakHash` | bebop2/core/src/pq_kem.rs:211-216 | the fixed-output hashes are that hash |
| `Sponge.Sha3Sponge` | bebop2/core/src/hash.rs:304-341 | the one-shot sponge is the same function, for every message, rate and length |
| `Sponge.StreamConcat` | bebop2/core/src/pq_kem.rs:190-207 | the output stream can be cut anywhere |
| `SpongePadding.PaddingExact` | bebop2/core/src/pq_kem.rs:164-174 | each byte of the last block: the rest of the message, the domain bits, zeros, and the final bit |
| `SpongePadding.FinishedIsPadded` | bebop2/core/src/pq_kem.rs:133-189 | the state before squeezing is that after absorbing the padded message |
| `SpongePadding.PaddingUnique` | bebop2/core/src/pq_kem.rs:164-174 | no two messages are padded to the same blocks, for any domain byte from 1 to 0x7f |
| `Argon2Layout.MakeShape` | bebop2/core/src/kdf.rs:507-509 | m is rounded down to a multiple of 4p; four segments of at least two blocks make a lane |
| `Argon2Layout.AreaExact` | bebop2/core/src/kdf.rs:325-361 | the reference area counts exactly the blocks that may be referenced, and is never empty |
| `Argon2Layout.PreviousIs` | bebop2/core/src/kdf.rs:399-411 | the previous offset is the cyclic predecessor in the lane |
| `Argon2Layout.ReferenceSafe` | bebop2/core/src/kdf.rs:325-447 | despite wrapping arithmetic, the reference is inside the lane, already filled, neither the current nor the previous block, and in another lane never in the segment being filled |
| `Argon2Reference.PositionExact` | bebop2/core/src/kdf.rs:354-359 | position p is chosen if and only if p is area - 1 - floor(area x / 2^32) with x the floor of the square over 2^32, stated with inequalities |
| `Argon2Reference.PositionFalls` | bebop2/core/src/kdf.rs:354-359 | the larger the number, the older the block |
| `Argon2Reference.RecentFavoured` | bebop2/core/src/kdf.rs:354-359 | numbers below 2^31 choose from the newest quarter of the window |
| `Argon2Reference.AreaIsWindow` | bebop2/core/src/kdf.rs:325-353 | the reference area is the number of blocks that are filled, may be read and are older than the block before the current one |
| `Argon2Reference.ReferenceIsNthOldest` | bebop2/core/src/kdf.rs:354-372 | the reference is the block of that window with exactly as many older ones in it as the position says |
| `Argon2Fill.SoloFrame` | bebop2/core/src/kdf.rs:375-447 | filling a segment changes no block outside it |
| `Argon2Fill.NewBlockAgrees` | bebop2/core/src/kdf.rs:375-447 | a new block depends only on blocks that no other lane writes in this slice |
| `Argon2Fill.ReachedStep` | bebop2/core/src/kdf.rs:455-469 | one more block of any lane keeps the invariant that every lane stands where it would stand alone |
| `Argon2Fill.AnyInterleaving` | bebop2/core/src/kdf.rs:455-469 | every interleaving of the lanes of a slice, block by block, ends in the memory of the lane loop |
| `Argon2Fill.ScheduleIrrelevant` | bebop2/core/src/kdf.rs:455-469 | over all passes and slices, any schedule of the lanes gives the memory of the nested loops |
| `Argon2Loops.NextAddresses` | bebop2/core/src/kdf.rs:449-453 | the next block of pseudo-random addresses |
| `Argon2Loops.NextRandom` | bebop2/core/src/kdf.rs:412-419 | the pseudo-random word of the data-independent and data-dependent modes |
| `Argon2Loops.FillSegment` | bebop2/core/src/kdf.rs:375-447 | the loop fills its segment as specified, that is by the recurrence of NewBlockIs, and reads only blocks written before |
| `Argon2Loops.FillSlice` | bebop2/core/src/kdf.rs:455-469 | the lane loop fills the slice, and leaves all of it written |
| `Argon2Loops.FillMemoryBlocks` | bebop2/core/src/kdf.rs:455-469 | the nested loops fill all slices of all passes, in order |
| `Argon2Loops.Derive` | bebop2/core/src/kdf.rs:476-545 | from the two initial blocks of every lane: the xor of the last blocks of all lanes after filling, which DeriveIsRecurrence gives in terms of the recurrence |
| `Argon2Recurrence.NewBlockIs` | bebop2/core/src/kdf.rs:375-447 | each block that the loop stores is the block of the recurrence of RFC 9106: G of the block before it and the referenced one, xored with its old value from the second pass on |
| `Argon2Recurrence.MemoryIsRecurrence` | bebop2/core/src/kdf.rs:455-469 | after t passes the array, which is overwritten in place, holds the last pass of that recurrence |
| `Argon2Recurrence.DeriveIsRecurrence` | bebop2/core/src/kdf.rs:476-545 | the result is the xor of the last column of the recurrence |
| `Blake2b.Hasher.Update` | bebop2/core/src/kdf.rs:149-169 | after any call the state depends only on the concatenation of everything fed |
| `Blake2b.Hasher.Step` | bebop2/core/src/kdf.rs:149-169 | one round takes a whole block straight from the input or tops up the buffer, with the same effect on the chain |
| `Blake2b.Hasher.Finalize` | bebop2/core/src/kdf.rs:170-181 | the digest: the last call gets the buffered rest, padded with zeros |
| `Blake2b.HashPieces` | bebop2/core/src/kdf.rs:149-181 | the digest does not depend on how the input is cut into update calls |
| `Blake2b.RfcExact` | bebop2/core/src/kdf.rs:149-181 | the sequence of compression calls is that of section 3.3 of RFC 7693 if and only if the message is empty or ends in a partial block |
| `Blake2b.RfcAgrees` | bebop2/core/src/kdf.rs:149-181 | on those messages the digest is that of RFC 7693 for every compression function |
| `Ed25519Field.LimbsMul` | bebop2/core/src/sign.rs:102-123 | the exact product of two 256-bit numbers, with every carry in range |
| `Ed25519Field.FoldVal` | bebop2/core/src/sign.rs:129-166 | the low 255 bits plus 19 times the rest |
| `Ed25519Field.ReduceP` | bebop2/core/src/sign.rs:171-186 | the canonical residue of every 512-bit number, after at most three folds, so that the guard of the loop is never reached |
| `Ed25519Field.LimbsGeP` | bebop2/core/src/sign.rs:189-204 | true exactly for values of at least p |
| `Ed25519Field.FeAdd` | bebop2/core/src/sign.rs:234-249 | the canonical residue of the sum |
| `Ed25519Field.FeSub` | bebop2/core/src/sign.rs:252-280 | the canonical residue of the difference of canonical operands; the dropped top borrow is 0 |
| `Ed25519Field.FeMul` | bebop2/core/src/sign.rs:288-291 | the canonical residue of the product |
| `Ed25519Field.FeInvert` | bebop2/core/src/sign.rs:309-322 | the power p - 2, modulo p |
| `Ed25519Scalars.CtGe` | bebop2/core/src/sign.rs:557-577 | a full mask exactly if the first number is at least the second |
| `Ed25519Scalars.CtSub` | bebop2/core/src/sign.rs:582-596 | the difference, or the difference plus 256^n when it is negative |
| `Ed25519Scalars.CtAdd` | bebop2/core/src/sign.rs:601-610 | the sum when it fits |
| `Ed25519Scalars.CtSelect` | bebop2/core/src/sign.rs:614-621 | the chosen operand |
| `Ed25519Scalars.NextBit` | bebop2/core/src/sign.rs:715-739 | one step keeps the remainder equal to the prefix modulo L and below L |
| `Ed25519Scalars.ModL` | bebop2/core/src/sign.rs:692-753 | the value modulo L of the first 64 bytes of any input, below L |
| `Ed25519Scalars.MulBe` | bebop2/core/src/sign.rs:639-657 | the exact product of byte strings |
| `Ed25519Scalars.AddBe` | bebop2/core/src/sign.rs:623-637 | the exact sum of byte strings |
| `Ed25519Scalars.CmpBe` | bebop2/core/src/sign.rs:536-551 | the order of two byte strings as numbers, for any two lengths |
| `Ed25519Scalars.ScalarMulModL` | bebop2/core/src/sign.rs:766-769 | the product modulo L |
| `Ed25519Scalars.ValueOfL` | bebop2/core/src/sign.rs:662-666 | the byte string of L denotes the group order |
| `Ed25519.LadderValue` | bebop2/core/src/sign.rs:821-834 | after i bits the accumulator is the multiple of the base by the low i bits, and the addend the multiple by 2^i |
| `Ed25519.ScalarMulValue` | bebop2/core/src/sign.rs:821-834 | the constant-trace double-and-add returns the integer multiple for every 256-bit scalar |
| `Ed25519.ScalarMulLoop` | bebop2/core/src/sign.rs:821-834 | the loop with its selections is that double-and-add |
| `Ed25519.TimesMod` | bebop2/core/src/sign.rs:892-967 | multiples of a point of order L depend only on the scalar modulo L |
| `Ed25519.SignedVerifies` | bebop2/core/src/sign.rs:892-967 | for every seed and message the signature verifies and its scalar is below L |
| `Ed25519.VerifyExact` | bebop2/core/src/sign.rs:929-967 | verification accepts if and only if the signature has 64 bytes, S is below L, key and R decode, and S times the base is R plus the hash modulo L times the key, as an equation of multiples in the group |
| `Ed25519.SignatureUnique` | bebop2/core/src/sign.rs:929-967 | two accepted signatures of a message with the same R have the same multiple of the base; if L is the exact order, they are equal |
| `Ed25519.SignExact` | bebop2/core/src/sign.rs:892-926 | the key is the multiple by the clamped first half of the hashed seed, R the multiple by the hash of its second half and the message, and S is r + k a modulo L |
| `Clamping.ClampBits` | bebop2/core/src/sign.rs:894-898 | clamping fixes bits 0, 1, 2, 254 and 255, and keeps all others |
| `Ed25519.SignBytes` | bebop2/core/src/sign.rs:892-926 | the signature of the specification |
| `Ed25519.VerifyBytes` | bebop2/core/src/sign.rs:929-967 | accepts exactly what the specification of verification accepts, which VerifyExact states as the group equation, including undecodable points and scalars that are not below L |
| `X25519Field.CtGeMask` | bebop2/core/src/x25519.rs:91-104 | a full mask exactly if the first number is at least the second |
| `X25519Field.CtSubIfGe` | bebop2/core/src/x25519.rs:77-85 | subtracts p exactly from values of at least p |
| `X25519Field.MulWide` | bebop2/core/src/x25519.rs:183-198 | the exact product of two 256-bit numbers, through columns that fit their words |
| `X25519Field.ModP` | bebop2/core/src/x25519.rs:268-281 | the canonical residue of every 512-bit number |
| `X25519Field.FeAdd` | bebop2/core/src/x25519.rs:121-133 | the canonical residue of the sum |
| `X25519Field.FeSub` | bebop2/core/src/x25519.rs:137-161 | the canonical residue of the difference |
| `X25519Field.FeMul` | bebop2/core/src/x25519.rs:285-287 | the canonical residue of the product |
| `X25519Field.FeInvert` | bebop2/core/src/x25519.rs:318-330 | the power p - 2, modulo p |
| `X25519Field.FeFromBytes` | bebop2/core/src/x25519.rs:298-305 | the low 255 bits of the string, modulo p |
| `X25519Field.FeToBytes` | bebop2/core/src/x25519.rs:309-315 | the little-endian bytes of the number |
| `X25519.CswapFe` | bebop2/core/src/x25519.rs:339-350 | the masked exclusive-or swaps exactly when asked to |
| `X25519.RoundKeeps` | bebop2/core/src/x25519.rs:371-403 | one round with its deferred swap keeps the two points at n P and (n + 1) P, and appends the bit to n |
| `X25519.RoundsHold` | bebop2/core/src/x25519.rs:371-403 | after any number of rounds the points are at n P and (n + 1) P for the prefix n of the scalar |
| `X25519.LadderStep` | bebop2/core/src/x25519.rs:383-402 | the field operations of a round compute the doubling and the differential addition formulas, which DoubledIs and AddedIs give in terms of the curve constant |
| `X25519.DoubledIs` | bebop2/core/src/x25519.rs:383-402 | for all x and z: doubling is ((x^2 - z^2)^2 : 4 x z (x^2 + 486662 x z + z^2)) modulo p |
| `X25519.AddedIs` | bebop2/core/src/x25519.rs:383-402 | differential addition is (4 (xp xq - zp zq)^2 : 4 u (xp zq - zp xq)^2) modulo p |
| `MontgomeryCurve.TangentLaw` | bebop2/core/src/x25519.rs:383-402 | on the curve y^2 = x^3 + a x^2 + x, the first of these quotients is the coordinate that the tangent gives for the double |
| `MontgomeryCurve.ChordLaw` | bebop2/core/src/x25519.rs:383-402 | the coordinates that the chord gives for the sum and the difference of two points multiply to the square of their product minus one, over the square of their difference |
| `MontgomeryCurve.SumLaw` | bebop2/core/src/x25519.rs:383-402 | so the second quotient is the coordinate of the sum, if u is that of the difference |
| `X25519.ScalarValue` | bebop2/core/src/x25519.rs:357-360 | the bits that the rounds use denote the clamped scalar |
| `X25519.XIsMultiple` | bebop2/core/src/x25519.rs:356-417 | the result is the u-coordinate of the multiple by the clamped scalar |
| `X25519.XBytes` | bebop2/core/src/x25519.rs:356-417 | the byte function computes it with the formulas of the code, those of DoubledIs and AddedIs, inverting by the power p - 2 |
| `X25519.SecretsAgree` | bebop2/core/src/x25519.rs:439-455 | for every pair of seeds, decapsulation returns the encapsulated secret, for all ladder steps that obey the laws |
| `X25519.CodeSecretsAgree` | bebop2/core/src/x25519.rs:439-455 | the same for the formulas of the code, where inversion is a power |
| `EventLogs.BufferInjective` | bebop2/core/src/event_log.rs:53-63 | what is hashed for an entry determines the previous hash, the number and the payload |
| `EventLogs.EventLog.constructor` | bebop2/core/src/event_log.rs:74-79 | an empty log |
| `EventLogs.EventLog.Append` | bebop2/core/src/event_log.rs:83-88 | one entry that is chained to the last one and numbered by its place |
| `EventLogs.EventLog.RebuildFromPayloads` | bebop2/core/src/event_log.rs:123-134 | the log that appending the payloads gives |
| `EventLogs.EventLog.Verify` | bebop2/core/src/event_log.rs:139-156 | the recomputed chain check, with the number of the first broken entry |
| `EventLogs.ReplayIter.Next` | bebop2/core/src/event_log.rs:190-197 | the next entry from the given place on, and nothing at the end |
| `EventLogs.VerifyExact` | bebop2/core/src/event_log.rs:139-156 | a log is what appending its payloads builds if and only if it verifies and is numbered by position |
| `EventLogs.NumberingUnchecked` | bebop2/core/src/event_log.rs:139-156 | without numbering it is not: a log whose only entry has number 5 verifies |
| `EventLogs.RootDetermines` | bebop2/core/src/event_log.rs:101-103 | two different built logs with the same root hash exhibit a hash collision, or a preimage of the genesis value |
| `EventLogs.RootIdentifies` | bebop2/core/src/event_log.rs:101-156 | any two logs that verify, numbered or not and with any stored hashes, are the same log if they have the same root hash, or a collision or a preimage of the genesis value is exhibited |
| `EventLogs.EventLog.PayloadAt` | bebop2/core/src/event_log.rs:109-111 | the payload at an index, or nothing beyond the end |
| `EventLogs.EventLog.SnapshotPayloads` | bebop2/core/src/event_log.rs:115-117 | all payloads in order |
| `EventLogs.TamperingDetected` | bebop2/core/src/event_log.rs:139-156 | altering payloads or numbers of a built log while its stored hashes are kept makes verification name the first altered entry, or exhibits a collision |
| `AntiEntropy.Digest` | bebop2/core/src/anti_entropy.rs:35-48 | the recomputed hashes of all entries with their numbers |
| `AntiEntropy.DigestOfPayloads` | bebop2/core/src/anti_entropy.rs:35-48 | the digest of a numbered log, whatever hashes it stores, is that of the log its payloads build |
| `AntiEntropy.Diff` | bebop2/core/src/anti_entropy.rs:75-107 | the plan of the specification |
| `AntiEntropy.DiffExact` | bebop2/core/src/anti_entropy.rs:75-107 | between built logs the divergence is the length of the longest common prefix, and none exactly if the remote log is a prefix of the local one, or a collision is exhibited |
| `AntiEntropy.ApplyPull` | bebop2/core/src/anti_entropy.rs:121-132 | appends pulled payloads up to the first one that does not fit, and reports that one |
| `AntiEntropy.PullExact` | bebop2/core/src/anti_entropy.rs:121-132 | on any pulled items: the aligned prefix is appended, the first misaligned item is refused |
| `AntiEntropy.PullReportsDamage` | bebop2/core/src/anti_entropy.rs:121-132 | a pull ends with a verification: damage in the log is reported, at the same entry, however many entries are appended |
| `AntiEntropy.PullConverges` | bebop2/core/src/anti_entropy.rs:121-132 | a log that is behind becomes equal to the remote log |
| `AntiEntropy.ForkRefused` | bebop2/core/src/anti_entropy.rs:121-132 | after a fork the pull is refused and the log unchanged |
| `AntiEntropy.SyncExact` | bebop2/core/src/anti_entropy.rs:75-132 | digest, diff and pull together: unchanged if ahead, equal to the remote if behind, refused and unchanged after a fork |
| `AntiEntropy.SyncFrom` | bebop2/core/src/anti_entropy.rs:35-132 | the methods called one after another do what the specification of synchronisation says |
| `AntiEntropy.RunKeepsPrefixes` | bebop2/core/src/anti_entropy.rs:75-132 | over every interleaving of author appends and pulls between any nodes, every node is a verified prefix of what was published |
| `AntiEntropy.RunConverges` | bebop2/core/src/anti_entropy.rs:75-132 | after every such run from empty logs, one more pull from the author makes any node equal to the author |
| `FftLoops.NextReversed` | bebop2/core/src/fft.rs:95-101 | the reversed carry turns the reversal of i - 1 into that of i |
| `FftLoops.BitReverse` | bebop2/core/src/fft.rs:92-105 | the swap loop permutes by bit reversal |
| `FftLoops.RevRev` | bebop2/core/src/fft.rs:92-105 | bit reversal is an involution |
| `FftLoops.WingsInPlace` | bebop2/core/src/fft.rs:116-128 | the butterflies of a block with a twiddle factor carried from step to step |
| `FftLoops.StageStep` | bebop2/core/src/fft.rs:109-131 | a pass over all blocks takes the buffer from one stage of the recursion to the next |
| `FftLoops.FftInPlace` | bebop2/core/src/fft.rs:87-139 | the in-place transform is the recursive one, scaled if inverse, for every power-of-two length |
| `FftLoops.DftOracle` | bebop2/core/src/fft.rs:155-175 | the double loop is evaluation at the powers of the root |
| `FftLoops.FastMatchesOracle` | bebop2/core/src/fft.rs:87-175 | the fast transform equals the oracle in both directions |
| `FftLoops.RoundTrip` | bebop2/core/src/fft.rs:87-151 | inverse after forward, and forward after inverse, is the identity |
| `Fourier.FftIsDft` | bebop2/core/src/fft.rs:87-139 | the even-odd recursion computes the evaluations of the polynomial |
| `Fourier.FftInverts` | bebop2/core/src/fft.rs:87-139 | the transform with inverse roots undoes the transform up to n |
| `Fourier.Convolution` | bebop2/core/src/vsa.rs:49-55 | the transform turns products modulo x^n - 1 into pointwise products |
| `Fourier.ActIsCircular` | bebop2/core/src/vsa.rs:25 | multiplication modulo x^n - 1 is the circular convolution sum |
| `Vsa.Bind` | bebop2/core/src/vsa.rs:30-60 | what the call leaves in the output: clearing, loading, two transforms, product of the first padded-length coefficients, inverse |
| `Vsa.PaddedLeast` | bebop2/core/src/vsa.rs:21-23 | the padded length is the least power of two that is large enough |
| `Vsa.BindExact` | bebop2/core/src/vsa.rs:25-60 | for scratch buffers of any power-of-two lengths, bind is circular convolution for all vectors of length n if and only if the scratch buffers are exactly n long (the second may be longer when n is 1), so n is a power of two; counterexamples otherwise |
| `Vsa.FirstTooLong` | bebop2/core/src/vsa.rs:25-60 | a first buffer that is longer than the padding makes binding with zero non-zero |
| `Vsa.SecondTooLong` | bebop2/core/src/vsa.rs:25-60 | a second buffer that is longer than the first breaks binding of unit vectors |
| `Vsa.NotPowerOfTwo` | bebop2/core/src/vsa.rs:25-60 | padding loses the wrap-around: the last and the second unit vector no longer bind to the first |
| `Vsa.CirculantEigenvalues` | bebop2/core/src/fft.rs:180-188 | the transform of the zero-padded first row |
| `Vsa.CirculantIsDiagonal` | bebop2/core/src/fft.rs:180-188 | the transform diagonalises circular convolution with those values |
| `Globs.GlobToRegex` | attic/core-legacy/src/lib.rs:13-40 | the loop renders the tokens of the glob between the anchors |
| `Globs.CompileAt` | attic/core-legacy/src/lib.rs:17-37 | one token of the glob becomes its text, and a double star swallows the slash after it |
| `Globs.Backtrack` | attic/core-legacy/src/lib.rs:73-152 | the matcher accepts exactly what its recursive specification does, and terminates |
| `Globs.Greedy` | attic/core-legacy/src/lib.rs:96-133 | the star of a character class tries exactly the lengths up to the first excluded character |
| `Globs.RegexTest` | attic/core-legacy/src/lib.rs:67-71 | the anchors are trimmed and the rest is matched |
| `Globs.TrimsExactly` | attic/core-legacy/src/lib.rs:67-71 | trimming removes exactly the anchors that the compiler added, whatever the glob |
| `Globs.AcceptsReads` | attic/core-legacy/src/lib.rs:73-152 | matching the rendered pattern is matching the token list |
| `Globs.CompilationPreservesMeaning` | attic/core-legacy/src/lib.rs:13-152 | for every glob and path the compiled expression matches if and only if the path is in the language of the glob |
| `Globs.Matches` | attic/core-legacy/src/lib.rs:56-62 | compiling and matching decides that language |
| `Globs.Decide` | attic/core-legacy/src/lib.rs:193-246 | the decision of the specification: red lines first, then extra denials, then scope; PassExact and DenialExact say when each answer is given |
| `Globs.DenyIsMonotone` | attic/core-legacy/src/lib.rs:193-246 | more denial globs never turn a denial into an allow |
| `Globs.PassExact` | attic/core-legacy/src/lib.rs:193-246 | a target passes if and only if no red line and no extra denial denotes it and, for a file operation under a non-empty scope, some scope glob denotes it or its relative path |
| `Globs.DenialExact` | attic/core-legacy/src/lib.rs:193-246 | a path that a red line denotes is a red-line denial for every operation, denial list and scope, and only such a path is |
| `Globs.ScopeIsMonotone` | attic/core-legacy/src/lib.rs:193-246 | a wider non-empty scope never turns a pass into a denial |
| `Globs.RelativeExact` | attic/core-legacy/src/lib.rs:248-254 | the relative path: an absolute target under the directory is the directory, slashes and that path, which starts with none; other targets stay as they are |

## Left out

- Floating point: `fft.rs` and `vsa.rs` compute in `f64` pairs.  The model uses any commutative ring with a tower of roots of unity and an exact 1/n, so rounding and the final projection to real parts are not modelled.
- `unbind`, `bipolarize`, `bundle` and `similarity` of `vsa.rs`: the division by the squared magnitude and the threshold for small magnitudes rest on floating point.
- Contents of SHAKE, SHA-512 and ChaCha20, Argon2's block function and H', BLAKE2b's rounds: parameters.  For Keccak the permutation and the sponge are modelled, but ML-DSA and ML-KEM take the resulting hashes as parameters.
- Samplers (`poly_uniform`, `poly_uniform_eta`, `poly_challenge`, `sample_ntt`, `sample_poly_cbd`): parameters with the ranges of their results.
- Edwards point formulas, square roots, compression and decompression of points: an abstract group with an abstract encoding; the group laws and the order L of the base point are hypotheses.  For X25519 the two formulas are derived from the curve for affine points with different coordinates; that they hold for all multiples, including the point at infinity, is the hypothesis `X25519.Laws`.  Primality of p, Q and L is nowhere used except inside those hypotheses.
- `DsaLoops.SignInternal`: the signing loop has no bound in the source; the model takes any number of rounds as `limit` and returns nothing when they are used up.  The 16-bit nonce wraps in the model, where a debug build would stop.
- `DsaLoops.KeyGenBytes`: pointwise sums, reductions and shifts of polynomials are sequence expressions there, not loops; the transforms, products and norm checks are loops.
- `Ed25519Field.FeSub`: operands must be canonical; for larger operands the dropped borrow can be 1 in the source as well.
- `DsaSigning.MasksFresh`: after 13107 rounds the 16-bit nonce wraps and masks repeat, in the source too.
- `KemCorrectness.DecapsCorrect`: the noise bound is a hypothesis on the concrete key and message; how likely it holds is not modelled.  Byte-level agreement with FIPS 203 is not claimed, because the code keeps keys and the matrix in the coefficient domain.
- `EventLogs.RootDetermines`: a collision-free hash cannot exist for all inputs, so the lemma returns the colliding inputs instead of assuming that there are none.  `EventLogs.TamperingDetected`, `AntiEntropy.DiffExact`, `AntiEntropy.SyncExact` and `DsaSoundness.SignatureBindsMessage` do the same.
- `EventLogs.EventLog.Append`: logs of 2^64 entries or more, where the 64-bit number would wrap, are outside the lemmas about hashes.
- `Sponge.Hasher.Pad`: calls out of order, such as absorbing after squeezing has begun, are not checked by the source and not allowed by the model.
- `Globs.Decide`: the reasons attached to decisions and the cache of compiled globs.  The red-line globs are a constant of the model; the default scope list is a parameter.
- `Keccak.HashKeccakF`: the two round-constant tables have the same 24 entries, and the model holds them once.
- `Argon2Loops.Derive`: the prehash H0, the hash H' of the initial blocks and the final hash to the tag are not modelled; the initial blocks are a parameter, and the result is the block that would be hashed.
- `Blake2b.Hasher.Finalize`: returns the last chain value; cutting `outlen` little-endian bytes from it is not modelled.
- `Vsa.Bind`: scratch buffers of a length that is not a power of two, which the transform does not support, are not modelled.
- Batch verification, the AVX2 paths, Poly1305, file persistence, entropy, the C interface, and the floating-point analytics.
- Constant-time behaviour: the branch-free code is modelled for what it computes, not for its timing.
