/** Every string that ML-DSA hashes, byte by byte: what stands where, which bytes of the output are read, and that
    different uses hash different strings. Nothing is assumed of the hash functions. */
module MlDsaInputs {
  import opened Machine
  import opened Modular
  import opened Polynomials
  import opened Chunks
  import opened Packing
  import opened Streams
  import opened Layout
  import opened MlDsaLayout
  import opened MlDsaArith
  import opened MlDsaParams
  import opened MlDsaSample
  import opened MlDsaCodec
  import opened MlDsaScheme
  import opened MlDsa
  import P = MlDsaPack

  // ----- key generation: Algorithm 6 -----

  /** xi || k || l */
  predicate IsSeedInput(s: seq<Byte>, xi: seq<Byte>, p: ParameterSet) {
    |s| == 34 && s[..32] == xi && s[32] == p.k && s[33] == p.l
  }

  lemma SeedInput(s: seq<Byte>, xi: seq<Byte>, p: ParameterSet)
    requires IsParameterSet(p) && IsSeedInput(s, xi, p)
    ensures p.k < 256 && p.l < 256 && s == xi + [p.k, p.l]
  {
    var k, l := s[32], s[33];
    assert s == s[..32] + [k, l];
  }

  /** rho, rho' and K are bytes 0 to 31, 32 to 95 and 96 to 127 of SHAKE256(xi || k || l). */
  lemma SeedsRead(h: Hashes, p: ParameterSet, xi: seq<Byte>, s: seq<Byte>)
    requires IsParameterSet(p) && SamplersEnd(h, p) && IsSeedInput(s, xi, p)
    ensures var e := SecretOf(h, p, xi);
      Reads(e.rho, h.shake256(s), 0) && Reads(e.key, h.shake256(s), 96)
  {
    hide SamplersEnd, ExpandS, PublicOf;
    SeedInput(s, xi, p);
  }

  /** No two parameter sets expand the same string, so no seed gives related keys under two of them. */
  lemma SetsDiffer(s: seq<Byte>, xi: seq<Byte>, p: ParameterSet, xi': seq<Byte>, p': ParameterSet)
    requires IsParameterSet(p) && IsParameterSet(p') && IsSeedInput(s, xi, p) && IsSeedInput(s, xi', p')
    ensures p == p' && xi == xi'
  {
  }

  /** rho' and the nonce i in two bytes, the lower first. */
  predicate IsNonceInput(n: seq<Byte>, rhoPrime: seq<Byte>, i: nat) {
    |n| == 66 && n[..64] == rhoPrime && n[64] as int + 256 * (n[65] as int) == i
  }

  lemma NonceInput(n: seq<Byte>, rhoPrime: seq<Byte>, i: nat)
    requires IsNonceInput(n, rhoPrime, i)
    ensures i < 0x1_0000 && n == rhoPrime + LittleEndian2(i)
  {
    var b0, b1 := n[64], n[65];
    assert i % 256 == b0 && i / 256 == b1;
    assert n == n[..64] + [b0, b1];
  }

  lemma SecretVectors(h: Hashes, p: ParameterSet, xi: seq<Byte>, s: seq<Byte>)
    requires IsParameterSet(p) && SamplersEnd(h, p) && IsSeedInput(s, xi, p)
    ensures var e, rhoPrime := SecretOf(h, p, xi), Take(h.shake256(s), 32, 64);
      e.s1 == ExpandS(h, rhoPrime, p, 0, p.l) && e.s2 == ExpandS(h, rhoPrime, p, p.l, p.k)
  {
    hide SamplersEnd, PublicOf, ExpandS, IsVec;
    SeedInput(s, xi, p);
    assert H(h, s, 128)[32..96] == Take(h.shake256(s), 32, 64);
  }

  lemma SecretPolyReads(h: Hashes, rhoPrime: seq<Byte>, p: ParameterSet, first: nat, i: nat, n: seq<Byte>)
    requires IsParameterSet(p) && SamplersEnd(h, p) && first + i < 256 && IsNonceInput(n, rhoPrime, first + i)
    ensures Yields(HalfCandidates(h.shake256(n), p.eta), N)
    ensures SecretPoly(h, rhoPrime, p, first, i) == BoundedPoly(h.shake256(n), p.eta)
  {
    hide IsPoly, BoundedPoly, HalfCandidates, LittleEndian2;
    NonceInput(n, rhoPrime, first + i);
  }

  /** The l + k secret polynomials come from the nonces 0, ..., l + k - 1: those of s1, then those of s2. */
  lemma SecretsRead(h: Hashes, p: ParameterSet, xi: seq<Byte>, s: seq<Byte>, n: seq<Byte>, i: nat)
    requires IsParameterSet(p) && SamplersEnd(h, p) && IsSeedInput(s, xi, p) && i < p.l + p.k
    requires IsNonceInput(n, Take(h.shake256(s), 32, 64), i)
    ensures var e := SecretOf(h, p, xi);
      && |e.s1| == p.l && |e.s2| == p.k && Yields(HalfCandidates(h.shake256(n), p.eta), N)
      && (if i < p.l then e.s1[i] else e.s2[i - p.l]) == BoundedPoly(h.shake256(n), p.eta)
  {
    hide SecretOf, Take, IsPoly, BoundedPoly, HalfCandidates, LittleEndian2, SecretPoly, IsSeedInput;
    SecretVectors(h, p, xi, s);
    var rhoPrime := Take(h.shake256(s), 32, 64);
    if i < p.l { SecretPolyReads(h, rhoPrime, p, 0, i, n); } else { SecretPolyReads(h, rhoPrime, p, p.l, i - p.l, n); }
  }

  /** tr = H(pk, 64) */
  lemma KeyHashRead(h: Hashes, p: ParameterSet, xi: seq<Byte>)
    requires IsParameterSet(p) && SamplersEnd(h, p)
    ensures |SecretOf(h, p, xi).tr| == 64 && Reads(SecretOf(h, p, xi).tr, h.shake256(PublicKeyOf(h, p, xi)), 0)
  {
    hide SamplersEnd, PublicOf, ExpandS;
  }

  // ----- the matrix: Algorithm 32 -----

  /** rho || s || r: the column, then the row. */
  predicate IsEntryInput(x: seq<Byte>, rho: seq<Byte>, r: nat, s: nat) {
    |x| == 34 && x[..32] == rho && x[32] == s && x[33] == r
  }

  lemma MatrixReads(h: Hashes, rho: seq<Byte>, p: ParameterSet, r: nat, s: nat, x: seq<Byte>)
    requires IsParameterSet(p) && SamplersEnd(h, p) && r < p.k && s < p.l && IsEntryInput(x, rho, r, s)
    ensures Yields(NttCandidates(h.shake128(x)), N)
    ensures var a := ExpandA(h, rho, p);
      |a| == p.k && |a[r]| == p.l && a[r][s] == NttPoly(h.shake128(x))
  {
    hide NttCandidates, NttPoly, IsPoly;
    assert x == rho + [s, r];
  }

  // ----- the masks: Algorithms 7 and 34 -----

  /** K || rnd || mu */
  predicate IsPrivateInput(s: seq<Byte>, key: seq<Byte>, rnd: seq<Byte>, mu: seq<Byte>) {
    |key| == |rnd| == 32 && |s| == 64 + |mu| && s[..32] == key && s[32..64] == rnd && s[64..] == mu
  }

  /** rho'' is the first 64 bytes of SHAKE256(K || rnd || mu). */
  lemma PrivateSeedReads(h: Hashes, e: SecretKey, rnd: seq<Byte>, mu: seq<Byte>, s: seq<Byte>)
    requires IsPrivateInput(s, e.key, rnd, mu)
    ensures |RhoPP(h, e, rnd, mu)| == 64 && Reads(RhoPP(h, e, rnd, mu), h.shake256(s), 0)
  {
    assert s == s[..32] + s[32..64] + s[64..];
  }

  /** Calls that differ in the key's K, in the randomness or in the message hash different strings. */
  lemma PrivateSeedsDiffer(key: seq<Byte>, rnd: seq<Byte>, mu: seq<Byte>, s: seq<Byte>, key': seq<Byte>,
                           rnd': seq<Byte>, mu': seq<Byte>, s': seq<Byte>)
    requires IsPrivateInput(s, key, rnd, mu) && IsPrivateInput(s', key', rnd', mu')
    ensures s == s' <==> key == key' && rnd == rnd' && mu == mu'
  {
    assert s == s[..32] + s[32..64] + s[64..];
    assert s' == s'[..32] + s'[32..64] + s'[64..];
  }

  lemma BytesHold(bytes: seq<Byte>, b: int, bits: nat)
    requires 0 <= b < Q && 0 < bits <= 20 && |bytes| == 32 * bits
    ensures Holds(bytes, Stored(b, P.BitUnpacked(bytes, b, bits)), bits)
  {
    hide Packed, P.BitUnpacked, Holds, Stored, IsPoly;
    var w := P.BitUnpacked(bytes, b, bits);
    P.BitPackOfUnpack(bytes, b, bits);
    StoredIs(b, w);
    PackedHolds(P.Below(b, w), bits);
  }

  /** Mask r of an attempt: the bytes of SHAKE256(rho'' || counter) hold gamma1 - y. */
  lemma MaskReads(h: Hashes, p: ParameterSet, rhoPP: seq<Byte>, kappa: nat, r: nat, n: seq<Byte>)
    requires IsParameterSet(p) && r < p.l && IsNonceInput(n, rhoPP, (kappa + r) % 0x1_0000)
    ensures var y := ExpandMask(h, rhoPP, kappa, p);
      |y| == p.l && Holds(Take(h.shake256(n), 0, 32 * ZBits(p)), Stored(p.gamma1, y[r]), ZBits(p))
  {
    NonceInput(n, rhoPP, (kappa + r) % 0x1_0000);
    hide LittleEndian2, Holds, Stored, IsPoly;
    var bytes, b := Take(h.shake256(n), 0, 32 * ZBits(p)), ZBits(p);
    BytesHold(bytes, p.gamma1, b);
  }

  // ----- the message: Algorithms 2 and 3 -----

  /** tr || 0 || |ctx| || ctx || M */
  predicate IsMessageInput(s: seq<Byte>, tr: seq<Byte>, context: seq<Byte>, message: seq<Byte>) {
    && |tr| == 64 && |context| <= 255 && |s| == 66 + |context| + |message|
    && s[..64] == tr && s[64] == 0 && s[65] == |context|
    && s[66..66 + |context|] == context && s[66 + |context|..] == message
  }

  lemma MessageReads(h: Hashes, tr: seq<Byte>, context: seq<Byte>, message: seq<Byte>, s: seq<Byte>)
    requires IsMessageInput(s, tr, context, message)
    ensures Reads(MuOf(h, tr, context, message), h.shake256(s), 0)
  {
    var f := Formatted(context, message);
    assert s == s[..64] + [s[64], s[65]] + s[66..66 + |context|] + s[66 + |context|..];
    assert s == tr + f;
  }

  /** Keys, contexts and messages that differ hash different strings. */
  lemma MessagesDiffer(tr: seq<Byte>, context: seq<Byte>, message: seq<Byte>, s: seq<Byte>, tr': seq<Byte>,
                       context': seq<Byte>, message': seq<Byte>, s': seq<Byte>)
    requires IsMessageInput(s, tr, context, message) && IsMessageInput(s', tr', context', message')
    ensures s == s' ==> tr == tr' && context == context' && message == message'
  {
  }

  // ----- the commitment: Algorithms 7 and 8 -----

  /** mu || w1 */
  predicate IsCommitmentInput(s: seq<Byte>, mu: seq<Byte>, w1: seq<seq<int>>, p: ParameterSet)
    requires IsW1(w1, p)
  {
    |mu| == 64 && |s| == 64 + |W1Bytes(w1, p)| && s[..64] == mu && s[64..] == W1Bytes(w1, p)
  }

  /** c~ of an attempt is the first lambda / 4 bytes of SHAKE256(mu || w1), and c is sampled from SHAKE256(c~). */
  lemma CommitmentReads(h: Hashes, p: ParameterSet, e: SecretKey, mu: seq<Byte>, rhoPP: seq<Byte>, kappa: nat,
                        s: seq<Byte>)
    requires IsParameterSet(p) && SamplersEnd(h, p) && IsSecretKey(e, p)
    requires IsCommitmentInput(s, mu, HighVec(AttemptOf(h, p, e, mu, rhoPP, kappa).w, p), p)
    ensures var t := AttemptOf(h, p, e, mu, rhoPP, kappa);
      && |t.cTilde| == p.lambda / 4 && Reads(t.cTilde, h.shake256(s), 0)
      && BallEnds(h.shake256(t.cTilde), 8, N - p.tau) && t.c == Ball(h.shake256(t.cTilde), p.tau)
  {
    hide IsPoly, ExpandMask, MatrixTimes, ExpandA, TimesVec, AddVec, LowVec, HintVec, HighVec, W1Bytes, BallEnds, Ball,
         IsSecretKey;
    assert s == s[..64] + s[64..];
  }

  lemma SamePieces(a: seq<seq<int>>, b: seq<seq<int>>, p: ParameterSet)
    requires IsParameterSet(p) && IsW1(a, p) && IsW1(b, p) && W1Bytes(a, p) == W1Bytes(b, p)
    ensures a == b
  {
    hide Packed, Concat, Split, Pow2;
    SplitConcat(W1Pieces(a, p), 32 * W1Bits(p));
    SplitConcat(W1Pieces(b, p), 32 * W1Bits(p));
    forall i | 0 <= i < p.k
      ensures a[i] == b[i]
    {
      assert W1Pieces(a, p)[i] == W1Pieces(b, p)[i];
      UnpackOfPack(a[i], W1Bits(p));
      UnpackOfPack(b[i], W1Bits(p));
    }
  }

  /** Messages or commitments that differ hash different strings. */
  lemma CommitmentsDiffer(p: ParameterSet, s: seq<Byte>, mu: seq<Byte>, w1: seq<seq<int>>, mu': seq<Byte>,
                          w1': seq<seq<int>>)
    requires IsParameterSet(p) && IsW1(w1, p) && IsW1(w1', p)
    requires IsCommitmentInput(s, mu, w1, p) && IsCommitmentInput(s, mu', w1', p)
    ensures mu == mu' && w1 == w1'
  {
    hide W1Bytes, IsW1;
    SamePieces(w1, w1', p);
  }
}
