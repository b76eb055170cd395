# The lattice cryptography of macula, modelled and proved in Dafny

This project models the arithmetic, the codecs and the protocols of macula's post-quantum crates and proves
what they promise: ML-DSA (FIPS 204, `macula-mldsa`), ML-KEM (FIPS 203, `macula-mlkem`), the Keccak sponge they
are built on (FIPS 202, `macula-keccak`), and the DER reader and writer of ML-DSA-87 keys (`macula-pqc`).

The modules are stacked, so that what one layer assumes the layer below proves.

| layer | modules |
|---|---|
| arithmetic modulo q, machine integers, digits and bits | `Modular`, `Machine`, `Digits`, `Chunks`, `Bits`, `Packing`, `Layout` |
| polynomials, the ring Z_q[X]/(X^n - c), the transform, norms | `Polynomials`, `Transform`, `Rings`, `Evaluation`, `Norms` |
| output streams and rejection sampling | `Streams` |
| ML-DSA | `MlDsaArith`, `MlDsaNtt`, `MlDsaParams`, `MlDsaPack`, `MlDsaHint`, `MlDsaCodec`, `MlDsaSample`, `MlDsaScheme`, `MlDsaCompleteness`, `MlDsaSigning`, `MlDsaInternal`, `MlDsaSign`, `MlDsa`, `MlDsaLayout`, `MlDsaInputs`, `MlDsaAcceptance`, `MlDsaWitness` |
| ML-KEM | `MlKemArith`, `MlKemNtt`, `MlKemEncode`, `MlKemCompress`, `MlKemParams`, `MlKemSample`, `MlKemScheme`, `MlKemDecryption`, `MlKemCorrectness`, `MlKemPke`, `MlKem`, `MlKemLayout`, `MlKemInputs`, `MlKemWitness` |
| Keccak | `Keccak`, `RoundConstants`, `KeccakBits`, `Sponge`, `SpongeBits`, `KeccakHashes` |
| key files | `Der`, `Pkcs8` |

## How the code is modelled

- A loop of the source is a method with a loop and invariants, over an array where the source changes a
  polynomial or a buffer in place, and over a sequence that is rebuilt entry by entry where it fills a vector of
  polynomials. Each method is proved equal to a function (`Forward`, `Packed`, `AttemptOf`, `Encrypted`, ...), and
  the theorems are about these functions. The two sponge halves are classes.
- What these functions mean is stated apart from them: on the bits of FIPS 202 (`KeccakBits`, `SpongeBits`), bit by
  bit for every encoding (`Layout`, `MlDsaLayout`, `MlKemLayout`), and byte by byte for every string that is hashed
  (`MlDsaInputs`, `MlKemInputs`).
- Rust's integer widths are explicit: `Machine.I32`, `Machine.U64` and their like return their argument and
  demand that it fits, so a formula that passes through them has been proved free of overflow. A sign mask
  `v & (x >> 31)` is `WhenNegative(x, v)`; `|` and `<<` into bits known to be clear are a sum and a product.
- A hash or an extendable-output function is a parameter: a function from the absorbed bytes to an infinite
  stream of bytes. Every theorem holds for all of them; `KeccakHashes` gives the ones the sponge computes.
- The rejection loops have no bound of their own. Each sampler method asks of the one stream it reads that it
  holds enough acceptable candidates. `SamplersEnd` asks this of every seed of the right length, which is more than
  one key or one call reads; `SigningEnds` asks that some attempt of the signing loop is released. Under these
  hypotheses the methods terminate and return exactly the first acceptable values.
  `EndsSoon` shows that signing returns within 2^16 attempts or never. `MlDsaWitness` and `MlKemWitness` give hash
  functions for which all the hypotheses of the main results hold, so none of these is vacuous.

## The main results

1. **ML-DSA completeness.** Whatever the message, context and randomness, a signature that the loop releases
   under a key from key generation is accepted under its public key (`MlDsa.SignedWithSeed`). Under any imported
   key whose parts agree, verification recovers the high bits of w - c s2, so the signature is accepted if and only
   if these hash to the commitment that the high bits of w gave (`MlDsa.SignedIsAccepted`). An `s2` in range, which
   the decoder does not check, is enough (`MlDsa.SmallSecretIsAccepted`). An attempt released with a looser bound on
   its response is refused when the response is too large (`MlDsaSigning.ReleasedRunVerifies`), as is every string
   whose response bytes hold such a coefficient (`MlDsaAcceptance.AcceptedResponse`).
2. **The transforms.** Both crates' transforms are the residues modulo the factors of X^256 + 1; they undo each
   other in both orders, are linear, and turn products in the ring into products of transforms. ML-DSA's is
   evaluation at the odd powers of zeta.
3. **K-PKE decryption** is correct if and only if each noise coefficient lies in the range its message bit
   survives: [-832, 831] for a 1 and [-832, 832] for a 0 (`MlKemCorrectness.DecryptionCorrect`).
4. **Decapsulation** never fails on checked inputs, accepts exactly the ciphertexts of messages whose noise is in
   bound, and otherwise returns the implicit-rejection secret.
5. **The sponge** computes the same bytes for every way of cutting its input and its output into pieces. Bit for bit
   it is SPONGE[KECCAK-f[1600], pad10*1, r] with the five step mappings written on booleans, so the four functions are
   SHAKE128, SHAKE256, SHA3-256 and SHA3-512 (`SpongeBits.FunctionsAreStandard`).
6. **The codecs** are bijections on the strings they accept, the hint code and the 12-bit key check included.
7. **Key files.** The loader accepts exactly the files that hold a key, in any of the lengths' forms and with
   anything after the private key, and refuses a file whose seed and expanded key differ (`Pkcs8.LoadedExactly`).
8. **What is hashed.** Every string either scheme hashes is given byte by byte with the bytes of output that are read,
   and different uses (nonces, counters, matrix entries, keys, messages, randomness, parameter sets) hash different
   strings.

## Model

| member | source | states |
|---|---|---|
| `MlDsaArith.Reduce` | macula-mldsa/src/poly.rs:25-30 | Barrett reduction is the remainder modulo q for every a < 2^48, without overflow |
| `MlDsaArith.MulQ` | macula-mldsa/src/poly.rs:34-36 | the product of two coefficients modulo q |
| `MlDsaArith.AddQ` | macula-mldsa/src/poly.rs:41-44 | the masked subtraction gives the sum modulo q |
| `MlDsaArith.SubQ` | macula-mldsa/src/poly.rs:49-52 | the masked addition gives the difference modulo q |
| `MlDsaArith.FromSigned` | macula-mldsa/src/poly.rs:56-58 | a signed value between -q and q, folded into [0, q) |
| `MlDsaArith.Power2Round` | macula-mldsa/src/poly.rs:154-160 | r = r1 2^13 + r0 with r0 in (-2^12, 2^12] and r1 of ten bits |
| `MlDsaArith.DivFloor` | macula-mldsa/src/poly.rs:172-175 | multiplication by a rounded-up reciprocal is exact division for all x < 2^24 and 2^17 < alpha < 2^24 |
| `MlDsaArith.Decompose` | macula-mldsa/src/poly.rs:181-192 | the branch-free form equals the standard's definition by / and %, the wrap at q - 1 included |
| `MlDsaArith.CenteredAbs` | macula-mldsa/src/poly.rs:231-234 | the distance of a coefficient from 0 modulo q |
| `MlDsaArith.MakeHint` | macula-mldsa/src/poly.rs:210-213 | the branch-free bit is 1 exactly when adding z changes the high bits |
| `MlDsaArith.HintRecoversHighBits` | macula-mldsa/src/poly.rs:210-225 | for all r and all z of size at most gamma2, use_hint of make_hint gives the high bits of r + z |
| `MlDsaArith.SmallChangeKeepsHighBits` | macula-mldsa/src/poly.rs:181-204 | if the low bits of r stay below gamma2 - beta, adding anything of size at most beta keeps the high bits |
| `Machine.CeilingMagic` | macula-mlkem/src/encode.rs:64-69 | the general error bound under which multiplying by a ceiling and shifting is division |
| `MlDsaNtt.BuildZetas` | macula-mldsa/src/poly.rs:70-94 | the table holds zeta to the power of the reversed index, computed by square and multiply |
| `MlDsaNtt.Ntt` | macula-mldsa/src/poly.rs:97-114 | the in-place loops leave the residues modulo the 256 linear factors |
| `MlDsaNtt.NttInverse` | macula-mldsa/src/poly.rs:117-140 | the in-place loops compute the inverse transform |
| `MlDsaNtt.MultiplyAddNtt` | macula-mldsa/src/poly.rs:145-149 | the accumulator grows by the pointwise product |
| `MlDsaNtt.NttLaws` | macula-mldsa/src/poly.rs:97-140 | the two transforms undo each other in both orders on every polynomial |
| `MlDsaNtt.NttMultiplies` | macula-mldsa/src/poly.rs:97-149 | transform, multiply pointwise, transform back: every coefficient is the schoolbook sum modulo X^256 + 1 |
| `Evaluation.ForwardEvaluates` | macula-mldsa/src/poly.rs:88-114 | entry i of the transform is the value at zeta^(2 BitRev8(i) + 1) |
| `Transform.ForwardAdd` | macula-mldsa/src/poly.rs:97-114 | the transform is additive |
| `Transform.ForwardScale` | macula-mldsa/src/poly.rs:97-114 | and commutes with scaling |
| `Transform.InverseAdd` | macula-mldsa/src/poly.rs:117-140 | the inverse transform is additive |
| `Transform.ZetaInverseCorrect` | macula-mldsa/src/poly.rs:117-140 | the table entry at the mirrored index, negated, inverts the forward zeta |
| `Packing.UnpackOfPack` | macula-mldsa/src/encode.rs:16-31 | unpacking gives back every polynomial that was packed |
| `Packing.PackOfUnpack` | macula-mldsa/src/encode.rs:94-109 | packing gives back every byte string that was unpacked |
| `Layout.PackedHolds` | macula-mldsa/src/encode.rs:16-31 | bit t of the packed bytes is bit t mod d of value t div d |
| `Layout.UnpackedHolds` | macula-mldsa/src/encode.rs:94-109 | and so it is of the values unpacked from any bytes |
| `MlDsaPack.Pack` | macula-mldsa/src/encode.rs:16-31 | the accumulator loop writes the packed bytes and nothing else |
| `MlDsaPack.Unpack` | macula-mldsa/src/encode.rs:94-109 | the accumulator loop reads the packed values |
| `MlDsaHint.HintBitPack` | macula-mldsa/src/encode.rs:249-263 | the branch-free loop writes the positions of the ones, the padding and the counts |
| `MlDsaHint.HintBitUnpack` | macula-mldsa/src/encode.rs:142-164 | on every string of omega + k bytes: Some exactly when the string is well formed, and then the hint it encodes |
| `MlDsaHint.UnpackOfPack` | macula-mldsa/src/encode.rs:249-263 | what is packed is accepted and decodes to the same hint |
| `MlDsaHint.PackOfUnpack` | macula-mldsa/src/encode.rs:142-164 | every accepted string is the one packing its hint writes |
| `MlDsaLayout.HintLayout` | macula-mldsa/src/encode.rs:249-263 | byte omega + i counts the ones up to polynomial i; between two counts stand the positions of the ones of one polynomial, increasing |
| `MlDsaLayout.HintPadding` | macula-mldsa/src/encode.rs:249-263 | the bytes after the last position are 0 |
| `MlDsaCodec.PkRoundTrip` | macula-mldsa/src/encode.rs:49-60 | pk_decode undoes pk_encode |
| `MlDsaCodec.PkDecodeEncode` | macula-mldsa/src/encode.rs:123-136 | and the converse on every string of the right length |
| `MlDsaCodec.SkRoundTrip` | macula-mldsa/src/encode.rs:65-90 | sk_decode undoes sk_encode |
| `MlDsaCodec.SkDecodeEncode` | macula-mldsa/src/encode.rs:212-236 | and the converse on every string of the right length |
| `MlDsaCodec.SigRoundTrip` | macula-mldsa/src/encode.rs:267-283 | an encoded signature is accepted and decodes to its parts |
| `MlDsaCodec.SigDecodeEncode` | macula-mldsa/src/encode.rs:179-193 | every accepted signature is the encoding of its parts: no two accepted strings decode alike |
| `MlDsaCodec.PkEncode` | macula-mldsa/src/encode.rs:49-60 | the loop fills the caller's buffer with rho and the packed t1 |
| `MlDsaCodec.SkEncode` | macula-mldsa/src/encode.rs:65-90 | the loops fill the caller's buffer with the private key's parts |
| `MlDsaCodec.SkDecode` | macula-mldsa/src/encode.rs:212-236 | the parts of any string of the right length |
| `MlDsaCodec.SigEncode` | macula-mldsa/src/encode.rs:267-283 | the commitment hash, the packed response and the packed hint |
| `MlDsaCodec.SigDecode` | macula-mldsa/src/encode.rs:179-193 | None exactly when the hint is malformed |
| `MlDsaCodec.W1Encode` | macula-mldsa/src/encode.rs:197-204 | the pieces absorbed one by one are the packed w1 |
| `MlDsaLayout.StandardLengths` | macula-mldsa/src/lib.rs:287-310 | the lengths and the bounds beta that FIPS 204 lists for the three sets |
| `MlDsaLayout.PublicKeyLayout` | macula-mldsa/src/encode.rs:49-60 | rho, then every bit of t1 in its place |
| `MlDsaLayout.SecretLayout` | macula-mldsa/src/encode.rs:65-90 | rho, K, tr, then every bit of eta - s1 and eta - s2 |
| `MlDsaLayout.LowPartLayout` | macula-mldsa/src/encode.rs:65-90 | then every bit of 2^12 - t0 |
| `MlDsaLayout.SignatureLayout` | macula-mldsa/src/encode.rs:267-283 | the commitment hash, then every bit of gamma1 - z, then the hint |
| `MlDsaLayout.CommitmentLayout` | macula-mldsa/src/encode.rs:197-204 | every bit of w1 in its place |
| `MlDsaSample.ThreeBytes` | macula-mldsa/src/sample.rs:40-50 | three bytes are accepted exactly when their low 23 bits are below q, and then give them |
| `MlDsaSample.HalvesOfByte` | macula-mldsa/src/sample.rs:82-95 | a byte low + 16 high gives the candidate low, then the candidate high |
| `Streams.FirstAcceptedInOrder` | macula-mldsa/src/sample.rs:34-54 | rejection sampling takes its values in order and skips exactly the refused ones |
| `MlDsaSample.RejNttPoly` | macula-mldsa/src/sample.rs:34-54 | block by block, exactly the first 256 acceptable three-byte candidates in stream order |
| `MlDsaSample.CoeffFromHalfByte` | macula-mldsa/src/sample.rs:57-63 | exactly the half-bytes below 15 (eta 2) or below 9 (eta 4) are accepted, each for the value in [-eta, eta] that is eta - b modulo 2 eta + 1 |
| `MlDsaSample.RejBoundedPoly` | macula-mldsa/src/sample.rs:73-97 | exactly the first 256 acceptable half-bytes, the low half of a byte first |
| `MlDsaSample.NttPolyInRange` | macula-mldsa/src/sample.rs:34-54 | every sampled coefficient is in [0, q) |
| `MlDsaSample.BoundedPolyInRange` | macula-mldsa/src/sample.rs:73-97 | every sampled coefficient has size at most eta |
| `MlDsaSample.SampleInBall` | macula-mldsa/src/sample.rs:134-159 | the in-place shuffle, proved against its recursive form |
| `MlDsaSample.BallWeight` | macula-mldsa/src/sample.rs:134-159 | for every stream exactly tau coefficients are 1 or q - 1 and the rest are 0 |
| `MlDsaSample.BallPlaces` | macula-mldsa/src/sample.rs:134-159 | which bit of the first eight bytes is the sign of which coefficient |
| `MlDsaSample.ChallengeProduct` | macula-mldsa/src/lib.rs:287-289 | the ring product of a challenge with a polynomial of norm eta has norm at most beta = tau eta |
| `MlDsaInternal.SampleA` | macula-mldsa/src/sample.rs:100-112 | the matrix, with the column before the row in each seed |
| `MlDsaInternal.SampleS` | macula-mldsa/src/sample.rs:117-129 | the secret vectors from consecutive nonces |
| `MlDsaInternal.SampleMask` | macula-mldsa/src/sample.rs:165-176 | the masking vector, with the counter modulo 2^16 |
| `MlDsaInternal.PublicKeyOfParts` | macula-mldsa/src/internal.rs:67-96 | t = A s1 + s2, its two parts, and the encoded public key |
| `MlDsaInternal.KeyGen` | macula-mldsa/src/internal.rs:37-61 | the public key and the encoded private key that the seed determines |
| `MlDsaInternal.PublicKeyOfExpanded` | macula-mldsa/src/internal.rs:110-124 | Ok exactly when the length is right and the stored t0 and tr are the recomputed ones |
| `MlDsaInternal.KeyFormsAgree` | macula-mldsa/src/internal.rs:37-124 | a generated private key decodes to its parts, which agree, and gives the seed's public key |
| `MlDsaInternal.Norm` | macula-mldsa/src/internal.rs:325-334 | the masked maximum is below a bound exactly when every coefficient is |
| `MlDsaSign.Attempted` | macula-mldsa/src/internal.rs:404-473 | one pass: a signature exactly when all four release conditions hold, and then the encoding of this attempt |
| `MlDsaSign.SignGivenMu` | macula-mldsa/src/internal.rs:364-474 | the first releasable attempt's signature and the number of attempts made |
| `MlDsaSign.VerifyGivenMu` | macula-mldsa/src/internal.rs:172-224 | true exactly when the signature decodes, its response is in bound and the recovered commitment hashes to it |
| `MlDsaSigning.FirstReleased` | macula-mldsa/src/internal.rs:402-473 | the released attempt, with every earlier one rejected |
| `MlDsaSigning.ReleasedSignature` | macula-mldsa/src/internal.rs:336-351 | every released signature has the set's length, decodes, and keeps the bounds on z, c t0 and the hint |
| `MlDsaSigning.ReleasedRunVerifies` | macula-mldsa/src/internal.rs:353-474 | the same of what a whole run releases, whatever bound it signs with |
| `MlDsaAcceptance.VerifiesExactly` | macula-mldsa/src/internal.rs:172-224 | a string that decodes is accepted exactly when its response is in bound and its first bytes are SHAKE256 of mu and the recovered commitment |
| `MlDsaAcceptance.AcceptedDecodes` | macula-mldsa/src/internal.rs:172-176 | a string that does not decode is refused |
| `MlDsaAcceptance.AcceptedResponse` | macula-mldsa/src/internal.rs:177-186 | every number in the response bytes of an accepted string stands for a coefficient below gamma1 - tau eta |
| `MlDsaSigning.CounterIs` | macula-mldsa/src/sample.rs:165-176 | attempt n uses the counters n l, ..., n l + l - 1 modulo 2^16 |
| `MlDsaSigning.MasksAreFresh` | macula-mldsa/src/internal.rs:402-407 | no two masks of the first floor(65536 / l) attempts come from the same input |
| `MlDsaSigning.MasksRepeat` | macula-mldsa/src/internal.rs:402-407 | the very next attempt reuses a counter, so that number is exact |
| `MlDsaSigning.EndsSoon` | macula-mldsa/src/internal.rs:402-405 | a loop that returns does so within 2^16 attempts, so the attempt counter cannot overflow |
| `MlDsaCompleteness.RowIdentity` | macula-mldsa/src/internal.rs:193-218 | A z - c t1 2^d = w - c s2 + c t0, through the transforms as computed |
| `MlDsaCompleteness.ChallengeTimesSecret` | macula-mldsa/src/internal.rs:444-451 | c s2, as computed, has norm at most beta |
| `MlDsaCompleteness.CommitmentCoefficient` | macula-mldsa/src/poly.rs:210-225 | the hint and w - c s2 + c t0 give back the high bits of w - c s2, whatever s2 is |
| `MlDsaCompleteness.HighBitsKept` | macula-mldsa/src/internal.rs:444-451 | these are the high bits of w when c s2 is small and the low bits keep their bound |
| `MlDsaCompleteness.RecoveredRowIs` | macula-mldsa/src/internal.rs:193-218 | row by row, verification recovers the high bits of w - c s2, for every key whose parts agree |
| `MlDsaCompleteness.GeneratedSecrets` | macula-mldsa/src/internal.rs:37-61 | a generated key's secrets are in range, fit their encoding, and its parts agree |
| `MlDsaCompleteness.ReleasedVerifies` | macula-mldsa/src/internal.rs:172-224 | for every key whose parts agree and every bound up to gamma1, a released attempt verifies if and only if every coefficient of z is below gamma1 - tau eta and the high bits of w - c s2 and of w hash to the same commitment |
| `MlDsaCompleteness.SmallSecretKeeps` | macula-mldsa/src/internal.rs:444-456 | an s2 in range is enough for that |
| `MlDsaCompleteness.Completeness` | macula-mldsa/src/internal.rs:364-474 | for every set, seed, mu and rnd, a released attempt under the generated key verifies under its public key |
| `MlDsa.FormattedInjective` | macula-mldsa/src/internal.rs:270-283 | no two pairs of context and message are formatted alike |
| `MlDsa.WithExpanded` | macula-mldsa/src/internal.rs:288-301 | either form of private key gives the same parts; a wrong length is refused |
| `MlDsa.SignMessage` | macula-mldsa/src/internal.rs:270-319 | the context error, then the length error, else the released signature on the formatted message |
| `MlDsa.Verify` | macula-mldsa/src/lib.rs:160-173 | an error only for a long context; otherwise the verdict, false for wrong lengths |
| `MlDsa.PublicKey` | macula-mldsa/src/lib.rs:84-89 | the public key of either form |
| `MlDsa.SignedIsAccepted` | macula-mldsa/src/lib.rs:110-173 | for every consistent key, verify accepts what sign returns if and only if its commitment is kept |
| `MlDsa.SmallSecretIsAccepted` | macula-mldsa/src/lib.rs:110-173 | and so for every consistent key with s2 in range |
| `MlDsa.SignedWithSeed` | macula-mldsa/src/lib.rs:103-173 | and for every seed with no condition on the key |
| `MlDsaInputs.SeedsRead` | macula-mldsa/src/internal.rs:37-50 | rho and K are bytes 0 to 31 and 96 to 127 of SHAKE256(xi, k, l) |
| `MlDsaInputs.SetsDiffer` | macula-mldsa/src/internal.rs:38-43 | no two parameter sets expand the same string |
| `MlDsaInputs.SecretsRead` | macula-mldsa/src/sample.rs:117-129 | s1 and s2 come from rho', bytes 32 to 95, and the nonces 0 to l + k - 1 |
| `MlDsaInputs.KeyHashRead` | macula-mldsa/src/internal.rs:99-104 | tr is SHAKE256 of the public key |
| `MlDsaInputs.MatrixReads` | macula-mldsa/src/sample.rs:100-112 | entry (r, s) comes from SHAKE128(rho, s, r) |
| `MlDsaInputs.PrivateSeedReads` | macula-mldsa/src/internal.rs:384-390 | rho'' is the first 64 bytes of SHAKE256 of the string of K, rnd and mu |
| `MlDsaInputs.PrivateSeedsDiffer` | macula-mldsa/src/internal.rs:384-390 | runs that differ in K, rnd or mu hash different strings there |
| `MlDsaInputs.MaskReads` | macula-mldsa/src/sample.rs:165-176 | mask r is held, as gamma1 - y, in SHAKE256(rho'', counter) |
| `MlDsaInputs.MessageReads` | macula-mldsa/src/internal.rs:270-319 | mu is SHAKE256 of tr, 0, the context's length, the context and the message |
| `MlDsaInputs.MessagesDiffer` | macula-mldsa/src/internal.rs:270-319 | keys, contexts or messages that differ hash different strings there |
| `MlDsaInputs.CommitmentReads` | macula-mldsa/src/internal.rs:404-430 | c~ is the first lambda / 4 bytes of SHAKE256(mu, w1), and c is sampled from SHAKE256(c~) |
| `MlDsaInputs.CommitmentsDiffer` | macula-mldsa/src/internal.rs:404-430 | messages or commitments that differ hash different strings there |
| `MlDsaWitness.HypothesesHold` | macula-mldsa/src/internal.rs:402-473 | there are hash functions for which every sampler ends and every run of the loop releases its first attempt |
| `MlKemArith.Reduce` | macula-mlkem/src/poly.rs:23-31 | rounded Barrett reduction is the remainder for every product of two coefficients and its negation |
| `MlKemNtt.BuildZetas` | macula-mlkem/src/poly.rs:64-90 | the table of zetas |
| `MlKemNtt.Ntt` | macula-mlkem/src/poly.rs:93-110 | the in-place loops leave the residues modulo the 128 quadratic factors |
| `MlKemNtt.Intt` | macula-mlkem/src/poly.rs:114-134 | the in-place loops compute the inverse transform |
| `MlKemNtt.BaseCaseMultiply` | macula-mlkem/src/poly.rs:138-142 | the product modulo X^2 - gamma |
| `MlKemNtt.MultiplyNtts` | macula-mlkem/src/poly.rs:145-157 | the products of all 128 residues, gamma computed from the table |
| `Rings.PointwiseIs` | macula-mlkem/src/poly.rs:145-157 | the product of any two transforms is the transform of the ring product of what they came from |
| `MlKemNtt.NttLaws` | macula-mlkem/src/poly.rs:93-134 | the two transforms undo each other in both orders |
| `MlKemNtt.NttMultiplies` | macula-mlkem/src/poly.rs:93-157 | transform, multiply_ntts, transform back: every coefficient is the schoolbook sum modulo X^256 + 1 |
| `MlKemEncode.ByteEncode` | macula-mlkem/src/encode.rs:17-29 | the bit loop fills the buffer with the packed values whatever it held before |
| `MlKemEncode.ByteDecode` | macula-mlkem/src/encode.rs:36-50 | the bit loop reads the packed values, reduced at 12 bits |
| `MlKemEncode.Reduce12Bit` | macula-mlkem/src/encode.rs:74-77 | one masked subtraction reduces any 12-bit value |
| `MlKemEncode.DecodeOfEncode` | macula-mlkem/src/encode.rs:17-50 | byte_decode undoes byte_encode at every width from 1 to 12 |
| `MlKemEncode.EncodeOfDecode` | macula-mlkem/src/encode.rs:36-50 | below 12 bits the converse holds for every byte string |
| `MlKemEncode.EncodeOfDecode12` | macula-mlkem/src/encode.rs:31-50 | at 12 bits it holds exactly when every window is below q |
| `MlKemCompress.DivQ` | macula-mlkem/src/encode.rs:64-69 | exact division by q for all n < 2^23 |
| `MlKemCompress.Nearest` | macula-mlkem/src/encode.rs:82-86 | the quotient is the integer nearest to 2^d x / q |
| `MlKemCompress.Decompress` | macula-mlkem/src/encode.rs:89-92 | the integer nearest to q y / 2^d, in [0, q) |
| `MlKemCompress.CompressOfDecompress` | macula-mlkem/src/encode.rs:82-92 | compressing what was decompressed gives it back |
| `MlKemCompress.DecompressOfCompress` | macula-mlkem/src/encode.rs:82-92 | compression moves a coefficient by at most q / 2^(d + 1), rounded |
| `MlKemCompress.BitSurvives` | macula-mlkem/src/kpke.rs:170-176 | a message bit is read back exactly when its noise is in the asymmetric range |
| `MlKemSample.LowTwelve` | macula-mlkem/src/sample.rs:34-53 | the low twelve bits of two bytes, accepted exactly below q |
| `MlKemSample.HighTwelve` | macula-mlkem/src/sample.rs:34-53 | the high twelve bits of two bytes, accepted exactly below q |
| `MlKemSample.SampleNtt` | macula-mlkem/src/sample.rs:34-53 | exactly the first 256 acceptable candidates, two from every three bytes |
| `MlKemSample.SamplePolyCbd` | macula-mlkem/src/sample.rs:62-84 | each coefficient is a difference of two bit counts, of size at most eta |
| `MlKemPke.SampleMatrix` | macula-mlkem/src/kpke.rs:23-37 | the matrix, with the column before the row in each seed |
| `MlKemPke.Noise` | macula-mlkem/src/kpke.rs:42-52 | k polynomials from consecutive counters, and where the counter ends |
| `MlKemPke.InnerProduct` | macula-mlkem/src/kpke.rs:55-59 | the sum of the products of the transforms |
| `MlKemPke.KeyGenPke` | macula-mlkem/src/kpke.rs:62-95 | the encoded keys the seed determines |
| `MlKemPke.Encrypt` | macula-mlkem/src/kpke.rs:101-145 | the ciphertext: the transposed product and the masked message, compressed |
| `MlKemPke.Decrypt` | macula-mlkem/src/kpke.rs:152-176 | the message bits nearest to v' - s u' |
| `MlKemDecryption.Adjoint` | macula-mlkem/src/kpke.rs:118-137 | (A s) . y = s . (A^T y): the row of key generation meets the column of encryption |
| `MlKemDecryption.WIsMessagePlusNoise` | macula-mlkem/src/kpke.rs:152-176 | w = mu + (e.y + e2 + c_v - s.e1 - s.c_u), through the transforms as computed |
| `MlKemCorrectness.DecryptionCorrect` | macula-mlkem/src/kpke.rs:62-176 | for every set, seed, message and r: decryption undoes encryption if and only if every bit survives its noise |
| `MlKemCorrectness.UniformBound` | macula-mlkem/src/kpke.rs:62-176 | noise of at most 831 everywhere is enough for every message |
| `MlKem.CtEq` | macula-mlkem/src/lib.rs:290-299 | 255 exactly for equal strings, 0 otherwise |
| `MlKem.CtSelect` | macula-mlkem/src/lib.rs:303-310 | the first string on 255, the second on 0 |
| `MlKem.CheckEncapsKey` | macula-mlkem/src/lib.rs:318-325 | true exactly when the length is right and every 12-bit window is below q |
| `MlKem.KeyGen` | macula-mlkem/src/internal.rs:24-35 | both keys the seeds determine |
| `MlKem.Encaps` | macula-mlkem/src/internal.rs:41-58 | the two input errors, else the ciphertext and the secret of m |
| `MlKem.Decaps` | macula-mlkem/src/lib.rs:233-272 | the two input errors, else G's key half exactly when the ciphertext re-encrypts, else J(z, c) |
| `MlKem.GeneratedKeyIsValid` | macula-mlkem/src/lib.rs:312-325 | every generated encapsulation key passes the check |
| `MlKem.DecapsOfEncaps` | macula-mlkem/src/lib.rs:225-272 | for every generated pair and message in bound, decapsulation gives the secret of encapsulation |
| `MlKem.AcceptedExactly` | macula-mlkem/src/lib.rs:258-272 | under a generated key the ciphertexts not rejected are exactly those of messages whose noise is in bound |
| `MlKemLayout.StandardLengths` | macula-mlkem/src/lib.rs:221-283 | the lengths that FIPS 203 lists for the three sets |
| `MlKemLayout.EncapsKeyLayout` | macula-mlkem/src/kpke.rs:62-95 | every bit of t in its place, then rho |
| `MlKemLayout.DecapsKeyLayout` | macula-mlkem/src/internal.rs:24-35 | every bit of the transform of s, then ek, SHA3-256(ek) and z |
| `MlKemLayout.MessageLayout` | macula-mlkem/src/kpke.rs:118-145 | one bit of the message for each coefficient |
| `MlKemLayout.CiphertextLayout` | macula-mlkem/src/kpke.rs:118-145 | every bit of the compressed u, then of the compressed v |
| `MlKemInputs.SeedsRead` | macula-mlkem/src/kpke.rs:62-70 | rho and sigma are the halves of SHA3-512(d, k) |
| `MlKemInputs.SetsDiffer` | macula-mlkem/src/kpke.rs:62-70 | no two parameter sets expand the same string |
| `MlKemInputs.MatrixReads` | macula-mlkem/src/kpke.rs:23-37 | entry (i, j) comes from SHAKE128(rho, j, i) |
| `MlKemInputs.CbdReads` | macula-mlkem/src/sample.rs:62-84 | coefficient j is the ones of eta bits of the stream less the ones of the next eta |
| `MlKemInputs.KeyNoiseReads` | macula-mlkem/src/kpke.rs:72-80 | s_i and e_i come from SHAKE256(sigma, counter) at the counters i and k + i |
| `MlKemInputs.KeyNoiseIsFresh` | macula-mlkem/src/kpke.rs:72-80 | these are 2k different strings |
| `MlKemInputs.EncryptionNoiseReads` | macula-mlkem/src/kpke.rs:113-116 | y_i, e1_i and e2 come from SHAKE256(r, counter) at the counters i, k + i and 2k |
| `MlKemInputs.EncryptionNoiseIsFresh` | macula-mlkem/src/kpke.rs:113-116 | these are 2k + 1 different strings |
| `MlKemInputs.SecretReads` | macula-mlkem/src/internal.rs:52-57 | K and r are the halves of SHA3-512 of the 64 bytes of m and SHA3-256(ek) |
| `MlKemInputs.CiphertextReads` | macula-mlkem/src/internal.rs:52-57 | the second half is the randomness of the encryption |
| `MlKemInputs.SecretsDiffer` | macula-mlkem/src/internal.rs:52-57 | two messages, or keys with different hashes, never share that string |
| `MlKemInputs.RejectionReads` | macula-mlkem/src/lib.rs:233-272 | a rejected ciphertext gets the first 32 bytes of SHAKE256(z, c) |
| `MlKemInputs.DecapsKeyExactly` | macula-mlkem/src/lib.rs:327-337 | a key passes the check exactly when it has the right length and its stored hash is SHA3-256 of its ek |
| `MlKemWitness.HypothesesHold` | macula-mlkem/src/kpke.rs:62-176 | there are hash functions for which the sampler ends and every message's noise is in bound |
| `KeccakBits.RotBit` | macula-keccak/src/lib.rs:349-361 | bit z of a lane turned by n is bit z - n modulo 64 |
| `KeccakBits.ThetaBitIs` | macula-keccak/src/lib.rs:344-354 | theta's bit is the exclusive or of eleven bits |
| `KeccakBits.RhoBitIs` | macula-keccak/src/lib.rs:355-362 | rho's bit is the bit of the same lane at z less the offset |
| `KeccakBits.PiBitIs` | macula-keccak/src/lib.rs:355-362 | pi's bit at (x, y) is the one at (x + 3y, x) |
| `KeccakBits.ChiBitIs` | macula-keccak/src/lib.rs:363-375 | chi's bit is A[x] + (A[x + 1] + 1) A[x + 2] along the row |
| `KeccakBits.ConstantBitIs` | macula-keccak/src/lib.rs:304-329 | bit 2^j - 1 of round constant ir is rc(j + 7 ir) of the shift register on booleans, every other bit is 0 |
| `KeccakBits.PermutedIsKeccakF` | macula-keccak/src/lib.rs:342-379 | the permutation is 24 rounds of theta, rho, pi, chi and iota on the 1600 bits |
| `Keccak.ThetaInPlace` | macula-keccak/src/lib.rs:344-354 | the loops compute the standard's theta |
| `Keccak.RhoPiInPlace` | macula-keccak/src/lib.rs:355-362 | the walk with one carried lane computes rho and pi |
| `Keccak.WalkedIsStandard` | macula-keccak/src/lib.rs:333-362 | the tables' walk leaves each lane what rho's triangular offsets and pi put there |
| `Keccak.ChiInPlace` | macula-keccak/src/lib.rs:363-375 | the loops compute chi, row by row |
| `Keccak.KeccakF1600` | macula-keccak/src/lib.rs:342-379 | 24 rounds of the five step mappings |
| `RoundConstants.ConstantsAreStandard` | macula-keccak/src/lib.rs:304-329 | the table is what the standard's shift register gives |
| `Sponge.Absorb.Update` | macula-keccak/src/lib.rs:205-217 | any piece is appended to the message absorbed |
| `Sponge.Absorb.Finish` | macula-keccak/src/lib.rs:222-232 | the state after the padded message, at every length |
| `Sponge.Squeeze.Read` | macula-keccak/src/lib.rs:267-281 | the next bytes of the output, wherever the last read stopped |
| `Sponge.PaddingIsStandard` | macula-keccak/src/lib.rs:219-226 | bit by bit, the bytes appended are the suffix 1111 or 01 followed by pad10*1, at every length |
| `Sponge.OneShot` | macula-keccak/src/lib.rs:171-176 | the sponge of one message |
| `Sponge.Incremental` | macula-keccak/src/lib.rs:128-159 | for every split of the input and of the output, the reads together are the sponge of the pieces together |
| `SpongeBits.SpongeIsStandard` | macula-keccak/src/lib.rs:171-176 | the bits of the output are SPONGE[KECCAK-f[1600], pad10*1, r] of the message's bits and the suffix |
| `SpongeBits.FunctionsAreStandard` | macula-keccak/src/lib.rs:61-83 | the capacities and suffixes of SHA3-256, SHA3-512, SHAKE128 and SHAKE256 |
| `KeccakHashes.HashPieces` | macula-mldsa/src/internal.rs:384-390 | pieces absorbed one after the other hash as their concatenation |
| `KeccakHashes.KemReads` | macula-mlkem/src/hash.rs:8-31 | H, G and J, and the PRF beside them, read SHA3-256, SHA3-512 and SHAKE256 from the sponge, at their lengths |
| `KeccakHashes.HashesAreStandard` | macula-mlkem/src/hash.rs:8-31 | the hash functions of both schemes are those four, bit for bit |
| `Der.TlvExactly` | macula-pqc/src/signatures.rs:237-256 | an element is found if and only if the input is its tag, one of the lengths' forms, its contents and the rest |
| `Der.TlvExtends` | macula-pqc/src/signatures.rs:237-256 | bytes added to the input go to the rest |
| `Der.Der` | macula-pqc/src/signatures.rs:262-272 | tag, length in one of three forms, contents; parsing gives them back exactly up to 65535 bytes |
| `Der.TlvOfDer` | macula-pqc/src/signatures.rs:237-272 | parsing undoes printing exactly when the contents are at most 65535 bytes |
| `Der.DerIsShortest` | macula-pqc/src/signatures.rs:262-272 | no shorter string parses to the same element, for contents of at most 65535 bytes |
| `Pkcs8.IdIsMlDsa87` | macula-pqc/src/signatures.rs:25-28 | the identifier's arcs are 2.16.840.1.101.3.4.3.19, with no parameters |
| `Pkcs8.LoadedExactly` | macula-pqc/src/signatures.rs:183-234 | a string loads as a key if and only if it is a key file that holds the key, in any layout |
| `Pkcs8.LoadsSeed` | macula-pqc/src/signatures.rs:183-214 | the seed form loads as its seed, at either version, with any lengths, whatever follows it |
| `Pkcs8.LoadsBoth` | macula-pqc/src/signatures.rs:217-234 | the seed is taken exactly when the expanded key is consistent and has the seed's public key; each failure has its error |
| `Pkcs8.LoadsGenerated` | macula-pqc/src/signatures.rs:217-234 | a generated key's two forms load together |
| `Pkcs8.TrailingBytesRefused` | macula-pqc/src/signatures.rs:183-187 | anything after the outer element, whatever it is, is refused |
| `Pkcs8.PrintSeed` | macula-pqc/src/signatures.rs:290-297 | the file printed for a seed loads as that seed |
| `Pkcs8.SubjectPublicKeyInfo` | macula-pqc/src/signatures.rs:276-280 | the encoding of a public key, which ends with the key |
| `Pkcs8.SpkiIs` | macula-pqc/src/signatures.rs:274-280 | a sequence of the identifier and a bit string of the key with no unused bits |
| `Pkcs8.IsMlDsa87Key` | macula-pqc/src/signatures.rs:284-287 | true exactly on the encodings of 2592-byte keys |

## Left out

- MlDsaSign.SignGivenMu: requires that some attempt is released, because the source's loop has no bound; without
  that hypothesis it says nothing.
- MlDsaCompleteness.ReleasedVerifies: says when an imported key whose `s2` is out of range signs what is refused,
  and exhibits no such key.
- MlDsaScheme.SamplersEnd: is one hypothesis on all seeds of the right length, not on the ones a key or a call reads.
- Sponge.Absorb.Finish: leaves the absorbing object behind, where the source consumes it.
- The rejection loops' termination is a hypothesis (`SamplersEnd`, `SigningEnds`): how likely it is for the real
  functions is a matter of probability, which is not part of this model.
- Drawing seeds from the operating system: `d`, `z`, `m`, `xi` and `rnd` are arguments.
- Wiping of secrets, and constant or variable time: masks are modelled by their arithmetic value.
- The decryption failure rate, the expected number of signing attempts, and unforgeability.
- SHAKE128, SHAKE256, SHA3-256 and SHA3-512 inside ML-DSA and ML-KEM are parameters; only `KeccakHashes` says
  which functions they are.
- A vector of polynomials is a sequence that is rebuilt, not an array of arrays: that the source overwrites `y`,
  `w`, `z` and the rest in place between attempts is not captured, single polynomials and buffers are.
- HashML-DSA, the `internal` entry points that take M' or mu directly, and the generic `*_drawing_from` wrappers.
- The rustls, quinn, rcgen and aws-lc-rs integration, certificates, and the hybrid key exchange's `concat` and
  `split`, which would only add easy members.
