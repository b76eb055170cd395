/** What ML-DSA computes, as functions: key generation, one signing attempt and verification
    (FIPS 204 Algorithms 6, 7 and 8) in terms of the transform, the rounding, the samplers and the codec.
    The methods of MlDsaInternal compute exactly these, and MlDsaCompleteness proves what they promise. */
module MlDsaScheme {
  import opened Machine
  import opened Modular
  import opened Polynomials
  import opened Transform
  import opened Streams
  import opened MlDsaArith
  import opened MlDsaParams
  import opened MlDsaNtt
  import opened MlDsaSample
  import opened MlDsaCodec
  import opened Norms
  import P = MlDsaPack
  import Hint = MlDsaHint

  /** SHAKE128 and SHAKE256 as functions from the absorbed bytes to the output stream. Nothing is assumed
      of them but what each statement says. */
  datatype Hashes = Hashes(shake128: seq<Byte> -> Stream, shake256: seq<Byte> -> Stream)

  /** H(s, n): n bytes of SHAKE256. */
  function H(h: Hashes, s: seq<Byte>, n: nat): (r: seq<Byte>)
    ensures |r| == n
  {
    Take(h.shake256(s), 0, n)
  }

  function LittleEndian2(x: nat): (r: seq<Byte>)
    requires x < 0x1_0000
    ensures |r| == 2
  {
    [x % 256, x / 256]
  }

  // ----- when the rejection loops end -----

  /** Every seed's stream yields a whole polynomial, and every commitment's stream a whole challenge:
      otherwise the code would read for ever. */
  ghost predicate SamplersEnd(h: Hashes, p: ParameterSet)
    requires IsParameterSet(p)
  {
    && (forall seed: seq<Byte> :: |seed| == 34 ==> Yields(NttCandidates(h.shake128(seed)), N))
    && (forall seed: seq<Byte> :: |seed| == 66 ==> Yields(HalfCandidates(h.shake256(seed), p.eta), N))
    && (forall c: seq<Byte> :: |c| == CommitmentLen(p) ==> BallEnds(h.shake256(c), 8, N - p.tau))
  }

  /** It can be met: a stream of zeros is never refused. */
  lemma ZerosYield(p: ParameterSet)
    requires IsParameterSet(p)
    ensures Yields(NttCandidates(Zeros()), N) && Yields(HalfCandidates(Zeros(), p.eta), N)
  {
    hide Accepted;
    assert p.eta == 2 || p.eta == 4;
    assert HalfByte(0, p.eta).Some? && ThreeBytes(0, 0, 0).Some?;
    hide IsParameterSet, HalfByte, ThreeBytes;
    forall i: nat
      ensures NttCandidates(Zeros())(i).Some? && HalfCandidates(Zeros(), p.eta)(i).Some?
    {
      assert Zeros()(i / 2) == 0;
      assert Zeros()(3 * i) == Zeros()(3 * i + 1) == Zeros()(3 * i + 2) == 0;
    }
    NothingRefused(NttCandidates(Zeros()), N);
    NothingRefused(HalfCandidates(Zeros(), p.eta), N);
  }

  // ----- vectors -----

  function NttVec(v: seq<seq<int>>): (r: seq<seq<int>>)
    requires IsVec(v, |v|)
    ensures IsVec(r, |v|)
  {
    seq(|v|, i requires 0 <= i < |v| => Forward(DSA, v[i]))
  }

  function AddVec(u: seq<seq<int>>, v: seq<seq<int>>): (r: seq<seq<int>>)
    requires IsVec(u, |u|) && IsVec(v, |u|)
    ensures IsVec(r, |u|)
  {
    seq(|u|, i requires 0 <= i < |u| => PAdd(Q, u[i], v[i]))
  }

  /** sum over s below n of row[s] v[s], leaf by leaf. */
  function RowTimes(row: seq<seq<int>>, v: seq<seq<int>>, n: nat): (r: seq<int>)
    requires IsVec(row, |row|) && IsVec(v, |v|) && n <= |row| && n <= |v|
    ensures IsPoly(r)
  {
    if n == 0 then Zero(N) else PAdd(Q, RowTimes(row, v, n - 1), Pointwise(DSA, row[n - 1], v[n - 1]))
  }

  predicate IsMatrix(a: seq<seq<seq<int>>>, p: ParameterSet) {
    |a| == p.k && forall r :: 0 <= r < p.k ==> IsVec(a[r], p.l)
  }

  /** NTT^-1(row NTT(v)), one row of a matrix product. */
  function RowProduct(row: seq<seq<int>>, v: seq<seq<int>>, p: ParameterSet): (r: seq<int>)
    requires IsVec(row, p.l) && IsVec(v, p.l)
    ensures IsPoly(r)
  {
    Inverse(DSA, RowTimes(row, NttVec(v), p.l))
  }

  /** The product of two polynomials through the transform. */
  function RingProduct(c: seq<int>, f: seq<int>): (r: seq<int>)
    requires IsPoly(c) && IsPoly(f)
    ensures IsPoly(r)
  {
    Inverse(DSA, Pointwise(DSA, Forward(DSA, c), Forward(DSA, f)))
  }

  /** NTT^-1(A NTT(v)), a vector of k polynomials. */
  function MatrixTimes(a: seq<seq<seq<int>>>, v: seq<seq<int>>, p: ParameterSet): (r: seq<seq<int>>)
    requires IsMatrix(a, p) && IsVec(v, p.l)
    ensures IsVec(r, p.k)
  {
    seq(p.k, r requires 0 <= r < p.k => RowProduct(a[r], v, p))
  }

  /** The product of one polynomial with a vector. */
  function TimesVec(c: seq<int>, v: seq<seq<int>>): (r: seq<seq<int>>)
    requires IsPoly(c) && IsVec(v, |v|)
    ensures IsVec(r, |v|)
  {
    seq(|v|, i requires 0 <= i < |v| => RingProduct(c, v[i]))
  }

  /** ||v|| < bound */
  ghost predicate VecBelow(v: seq<seq<int>>, bound: int)
    requires IsVec(v, |v|)
  {
    forall i, j :: 0 <= i < |v| && 0 <= j < N ==> CenteredAbs(v[i][j]) < bound
  }

  // ----- sampling of vectors -----

  function SeedA(rho: seq<Byte>, r: nat, s: nat): (seed: seq<Byte>)
    requires |rho| == 32 && r < 256 && s < 256
    ensures |seed| == 34
  {
    rho + [s, r]
  }

  ghost function EntryOfA(h: Hashes, rho: seq<Byte>, p: ParameterSet, r: nat, s: nat): (f: seq<int>)
    requires IsParameterSet(p) && SamplersEnd(h, p) && |rho| == 32 && r < p.k && s < p.l
    ensures IsPoly(f)
  {
    NttPolyInRange(h.shake128(SeedA(rho, r, s)));
    NttPoly(h.shake128(SeedA(rho, r, s)))
  }

  ghost function RowOfA(h: Hashes, rho: seq<Byte>, p: ParameterSet, r: nat): (row: seq<seq<int>>)
    requires IsParameterSet(p) && SamplersEnd(h, p) && |rho| == 32 && r < p.k
    ensures IsVec(row, p.l)
  {
    hide SamplersEnd, IsPoly;
    seq(p.l, s requires 0 <= s < p.l => EntryOfA(h, rho, p, r, s))
  }

  /** FIPS 204 Algorithm 32: the column index comes first in the seed. */
  ghost function ExpandA(h: Hashes, rho: seq<Byte>, p: ParameterSet): (a: seq<seq<seq<int>>>)
    requires IsParameterSet(p) && SamplersEnd(h, p) && |rho| == 32
    ensures IsMatrix(a, p)
  {
    seq(p.k, r requires 0 <= r < p.k => RowOfA(h, rho, p, r))
  }

  ghost function SecretPoly(h: Hashes, rhoPrime: seq<Byte>, p: ParameterSet, first: nat, i: nat): (f: seq<int>)
    requires IsParameterSet(p) && SamplersEnd(h, p) && |rhoPrime| == 64 && first + i < 256
    ensures IsPoly(f) && Bounded(Q, f, p.eta)
  {
    var seed := rhoPrime + LittleEndian2(first + i);
    assert |seed| == 66;
    BoundedPolyInRange(h.shake256(seed), p.eta);
    BoundedPoly(h.shake256(seed), p.eta)
  }

  /** FIPS 204 Algorithm 33: n polynomials from consecutive nonces. */
  ghost function ExpandS(h: Hashes, rhoPrime: seq<Byte>, p: ParameterSet, first: nat, n: nat): (v: seq<seq<int>>)
    requires IsParameterSet(p) && SamplersEnd(h, p) && |rhoPrime| == 64 && first + n <= 256
    ensures IsVec(v, n)
  {
    hide SamplersEnd, IsPoly;
    seq(n, i requires 0 <= i < n => SecretPoly(h, rhoPrime, p, first, i))
  }

  function MaskPoly(h: Hashes, rhoPP: seq<Byte>, kappa: nat, r: nat, p: ParameterSet): (y: seq<int>)
    requires IsParameterSet(p)
    ensures IsPoly(y)
  {
    P.BitUnpacked(H(h, rhoPP + LittleEndian2((kappa + r) % 0x1_0000), 32 * ZBits(p)), p.gamma1, ZBits(p))
  }

  /** FIPS 204 Algorithm 34: the counter runs mod 2^16. */
  function ExpandMask(h: Hashes, rhoPP: seq<Byte>, kappa: nat, p: ParameterSet): (y: seq<seq<int>>)
    requires IsParameterSet(p)
    ensures IsVec(y, p.l)
  {
    hide IsPoly, MaskPoly;
    seq(p.l, r requires 0 <= r < p.l => MaskPoly(h, rhoPP, kappa, r, p))
  }

  // ----- key generation -----

  /** t = NTT^-1(A NTT(s1)) + s2 */
  function T(a: seq<seq<seq<int>>>, s1: seq<seq<int>>, s2: seq<seq<int>>, p: ParameterSet): (t: seq<seq<int>>)
    requires IsMatrix(a, p) && IsVec(s1, p.l) && IsVec(s2, p.k)
    ensures IsVec(t, p.k)
  {
    AddVec(MatrixTimes(a, s1, p), s2)
  }

  function HighPart(f: seq<int>): (r: seq<int>)
    requires IsPoly(f)
    ensures |r| == N
  {
    seq(N, i requires 0 <= i < N => Power2Round(f[i]).0)
  }

  function LowPart(f: seq<int>): (r: seq<int>)
    requires IsPoly(f)
    ensures IsPoly(r)
  {
    seq(N, i requires 0 <= i < N => FromSigned(Power2Round(f[i]).1))
  }

  function T1Of(t: seq<seq<int>>): (r: seq<seq<int>>)
    requires IsVec(t, |t|)
    ensures IsT1(r, |t|)
  {
    seq(|t|, i requires 0 <= i < |t| => HighPart(t[i]))
  }

  function T0Of(t: seq<seq<int>>): (r: seq<seq<int>>)
    requires IsVec(t, |t|)
    ensures IsVec(r, |t|)
  {
    seq(|t|, i requires 0 <= i < |t| => LowPart(t[i]))
  }

  /** The public key that rho, s1 and s2 determine, and the t0 that goes with it. */
  ghost function PublicOf(h: Hashes, p: ParameterSet, rho: seq<Byte>, s1: seq<seq<int>>,
                          s2: seq<seq<int>>): (r: (seq<Byte>, seq<seq<int>>))
    requires IsParameterSet(p) && SamplersEnd(h, p) && |rho| == 32 && IsVec(s1, p.l) && IsVec(s2, p.k)
    ensures |r.0| == PublicKeyLen(p) && IsVec(r.1, p.k)
  {
    var t := T(ExpandA(h, rho, p), s1, s2, p);
    (PkBytes(rho, T1Of(t), p.k), T0Of(t))
  }

  /** The parts of the private key that xi determines. */
  ghost function SecretOf(h: Hashes, p: ParameterSet, xi: seq<Byte>): (e: SecretKey)
    requires IsParameterSet(p) && SamplersEnd(h, p)
    ensures IsSecretKey(e, p)
  {
    var seeds := H(h, xi + [p.k, p.l], 128);
    var rho, rhoPrime, key := seeds[..32], seeds[32..96], seeds[96..];
    var s1, s2 := ExpandS(h, rhoPrime, p, 0, p.l), ExpandS(h, rhoPrime, p, p.l, p.k);
    var (pk, t0) := PublicOf(h, p, rho, s1, s2);
    SecretKey(rho, key, H(h, pk, 64), s1, s2, t0)
  }

  /** A key's t0 and tr are what its rho, s1 and s2 determine. */
  ghost predicate Consistent(h: Hashes, p: ParameterSet, e: SecretKey)
    requires IsParameterSet(p) && SamplersEnd(h, p) && IsSecretKey(e, p)
  {
    var (pk, t0) := PublicOf(h, p, e.rho, e.s1, e.s2);
    e.t0 == t0 && e.tr == H(h, pk, 64)
  }

  /** The public key that belongs to a private key. */
  ghost function OwnPublicKey(h: Hashes, p: ParameterSet, e: SecretKey): (pk: seq<Byte>)
    requires IsParameterSet(p) && SamplersEnd(h, p) && IsSecretKey(e, p)
    ensures |pk| == PublicKeyLen(p)
  {
    PublicOf(h, p, e.rho, e.s1, e.s2).0
  }

  /** s2 is in the range key generation draws it from. Decoding does not check this. */
  ghost predicate SmallS2(e: SecretKey, p: ParameterSet)
    requires IsSecretKey(e, p)
  {
    forall r :: 0 <= r < p.k ==> Bounded(Q, e.s2[r], p.eta)
  }

  /** The public key that xi determines. */
  ghost function PublicKeyOf(h: Hashes, p: ParameterSet, xi: seq<Byte>): (pk: seq<Byte>)
    requires IsParameterSet(p) && SamplersEnd(h, p)
    ensures |pk| == PublicKeyLen(p)
  {
    OwnPublicKey(h, p, SecretOf(h, p, xi))
  }

  // ----- one attempt at signing -----

  function HighPoly(f: seq<int>, gamma2: int): (r: seq<int>)
    requires IsPoly(f) && IsGamma2(gamma2)
    ensures |r| == N
  {
    seq(N, i requires 0 <= i < N => HighBits(f[i], gamma2))
  }

  /** The high bits fit the width they are packed in. */
  lemma HighFits(p: ParameterSet)
    requires IsParameterSet(p)
    ensures HighCount(p.gamma2) <= Pow2(W1Bits(p))
  {
    assert Pow2(2) == 4;
    assert Pow2(4) == 16;
    assert Pow2(6) == 64;
  }

  function HighVec(w: seq<seq<int>>, p: ParameterSet): (w1: seq<seq<int>>)
    requires IsParameterSet(p) && IsVec(w, p.k)
    ensures IsW1(w1, p)
  {
    HighFits(p);
    seq(p.k, r requires 0 <= r < p.k => HighPoly(w[r], p.gamma2))
  }

  lemma HighRowsFit(w1: seq<seq<int>>, p: ParameterSet)
    requires IsParameterSet(p) && |w1| == p.k
    requires forall r :: 0 <= r < p.k ==> |w1[r]| == N && forall i :: 0 <= i < N ==> 0 <= w1[r][i] < HighCount(p.gamma2)
    ensures IsW1(w1, p)
  {
    hide HighCount;
    HighFits(p);
  }

  /** Low bits of w - cs2, held mod q. */
  function LowPoly(w: seq<int>, cs2: seq<int>, gamma2: int): (r: seq<int>)
    requires IsPoly(w) && IsPoly(cs2) && IsGamma2(gamma2)
    ensures IsPoly(r)
  {
    seq(N, i requires 0 <= i < N => FromSigned(LowBits(SubQ(w[i], cs2[i]), gamma2)))
  }

  /** MakeHint(-c t0, w - c s2 + c t0) */
  function HintPoly(w: seq<int>, cs2: seq<int>, ct0: seq<int>, gamma2: int): (r: seq<int>)
    requires IsPoly(w) && IsPoly(cs2) && IsPoly(ct0) && IsGamma2(gamma2)
    ensures Hint.IsBits(r)
  {
    seq(N, i requires 0 <= i < N => MakeHint(SubQ(0, ct0[i]), AddQ(SubQ(w[i], cs2[i]), ct0[i]), gamma2))
  }

  function LowVec(w: seq<seq<int>>, cs2: seq<seq<int>>, p: ParameterSet): (r: seq<seq<int>>)
    requires IsParameterSet(p) && IsVec(w, p.k) && IsVec(cs2, p.k)
    ensures IsVec(r, p.k)
  {
    hide IsPoly, LowPoly;
    seq(p.k, r requires 0 <= r < p.k => LowPoly(w[r], cs2[r], p.gamma2))
  }

  function HintVec(w: seq<seq<int>>, cs2: seq<seq<int>>, ct0: seq<seq<int>>, p: ParameterSet): (r: seq<seq<int>>)
    requires IsParameterSet(p) && IsVec(w, p.k) && IsVec(cs2, p.k) && IsVec(ct0, p.k)
    ensures |r| == p.k && Hint.IsHint(r)
  {
    hide IsPoly, HintPoly;
    seq(p.k, r requires 0 <= r < p.k => HintPoly(w[r], cs2[r], ct0[r], p.gamma2))
  }

  /** Everything one attempt computes. */
  datatype Attempt = Attempt(y: seq<seq<int>>, w: seq<seq<int>>, cTilde: seq<Byte>, c: seq<int>, z: seq<seq<int>>,
                             cs2: seq<seq<int>>, r0: seq<seq<int>>, ct0: seq<seq<int>>, hint: seq<seq<int>>)

  predicate IsAttempt(t: Attempt, p: ParameterSet)
    requires IsParameterSet(p)
  {
    && IsVec(t.y, p.l) && IsVec(t.w, p.k) && |t.cTilde| == CommitmentLen(p) && IsPoly(t.c) && IsVec(t.z, p.l)
    && IsVec(t.cs2, p.k) && IsVec(t.r0, p.k) && IsVec(t.ct0, p.k) && |t.hint| == p.k && Hint.IsHint(t.hint)
  }

  ghost function Challenge(h: Hashes, p: ParameterSet, cTilde: seq<Byte>): (c: seq<int>)
    requires IsParameterSet(p) && SamplersEnd(h, p) && |cTilde| == CommitmentLen(p)
    ensures IsPoly(c)
  {
    BallWeight(h.shake256(cTilde), p.tau);
    Ball(h.shake256(cTilde), p.tau)
  }

  /** The commitment hash of w1. */
  function Commitment(h: Hashes, p: ParameterSet, mu: seq<Byte>, w1: seq<seq<int>>): (c: seq<Byte>)
    requires IsW1(w1, p)
    ensures |c| == CommitmentLen(p)
  {
    H(h, mu + W1Bytes(w1, p), CommitmentLen(p))
  }

  lemma VecSize(v: seq<seq<int>>, n: nat)
    requires IsVec(v, n)
    ensures |v| == n
  {
  }

  lemma VecSizes(e: SecretKey, p: ParameterSet)
    requires IsSecretKey(e, p)
    ensures |e.s1| == p.l && |e.s2| == |e.t0| == p.k
  {
  }

  ghost function AttemptOf(h: Hashes, p: ParameterSet, e: SecretKey, mu: seq<Byte>, rhoPP: seq<Byte>,
                           kappa: nat): (t: Attempt)
    requires IsParameterSet(p) && SamplersEnd(h, p) && IsSecretKey(e, p)
    ensures IsAttempt(t, p)
  {
    hide SamplersEnd, IsPoly, IsVec, IsMatrix, ExpandMask, MatrixTimes, ExpandA, HighVec, TimesVec, AddVec, LowVec,
         HintVec, Hint.IsHint;
    var y := ExpandMask(h, rhoPP, kappa, p);
    var w := MatrixTimes(ExpandA(h, e.rho, p), y, p);
    var cTilde := Commitment(h, p, mu, HighVec(w, p));
    var c := Challenge(h, p, cTilde);
    VecSizes(e, p);
    VecSize(y, p.l);
    var cs2, ct0 := TimesVec(c, e.s2), TimesVec(c, e.t0);
    Attempt(y, w, cTilde, c, AddVec(y, TimesVec(c, e.s1)), cs2, LowVec(w, cs2, p), ct0, HintVec(w, cs2, ct0, p))
  }

  /** The two release conditions of Algorithm 7, lines 23 and 28. */
  ghost predicate Releasable(t: Attempt, p: ParameterSet, zBound: int)
    requires IsParameterSet(p) && IsAttempt(t, p)
  {
    && VecBelow(t.z, zBound) && VecBelow(t.r0, p.gamma2 - Beta(p))
    && VecBelow(t.ct0, p.gamma2) && |Hint.AllOnes(t.hint)| <= p.omega
  }

  function SignatureOf(t: Attempt): Signature {
    Signature(t.cTilde, t.z, t.hint)
  }

  /** rho'' = H(K || rnd || mu, 64) */
  function RhoPP(h: Hashes, e: SecretKey, rnd: seq<Byte>, mu: seq<Byte>): (r: seq<Byte>) {
    H(h, e.key + rnd + mu, 64)
  }

  // ----- verification -----

  /** t1 2^d */
  function Shifted(t1: seq<int>): (r: seq<int>)
    requires |t1| == N
    ensures |r| == N
  {
    seq(N, i requires 0 <= i < N => t1[i] * 8192)
  }

  /** NTT^-1(A NTT(z) - NTT(c) NTT(t1 2^d)), row r. */
  function ApproxRow(row: seq<seq<int>>, z: seq<seq<int>>, c: seq<int>, t1: seq<int>, p: ParameterSet): (w: seq<int>)
    requires IsVec(row, p.l) && IsVec(z, p.l) && IsPoly(c) && |t1| == N && IsPoly(Shifted(t1))
    ensures IsPoly(w)
  {
    Inverse(DSA, PSub(Q, RowTimes(row, NttVec(z), p.l), Pointwise(DSA, Forward(DSA, c), Forward(DSA, Shifted(t1)))))
  }

  function UseHintPoly(hint: seq<int>, w: seq<int>, gamma2: int): (r: seq<int>)
    requires |hint| == N && IsPoly(w) && IsGamma2(gamma2)
    ensures |r| == N && forall i :: 0 <= i < N ==> 0 <= r[i] < HighCount(gamma2)
  {
    seq(N, i requires 0 <= i < N => UseHint(hint[i], w[i], gamma2))
  }

  /** Ten-bit values shifted by d are still coefficients. */
  lemma ShiftedInRange(t1: seq<int>)
    requires |t1| == N && forall i :: 0 <= i < N ==> 0 <= t1[i] < 0x400
    ensures IsPoly(Shifted(t1))
  {
  }

  ghost function RecoveredRow(h: Hashes, p: ParameterSet, pk: seq<Byte>, s: Signature, r: nat): (w1: seq<int>)
    requires IsParameterSet(p) && SamplersEnd(h, p) && |pk| == PublicKeyLen(p) && r < p.k
    requires |s.cTilde| == CommitmentLen(p) && IsVec(s.z, p.l) && |s.h| == p.k && Hint.IsHint(s.h)
    ensures |w1| == N && forall i :: 0 <= i < N ==> 0 <= w1[i] < HighCount(p.gamma2)
  {
    hide SamplersEnd, IsPoly, ApproxRow, Shifted;
    var t1 := PkT1(pk, p.k)[r];
    Pow2Ten();
    ShiftedInRange(t1);
    UseHintPoly(s.h[r], ApproxRow(RowOfA(h, PkRho(pk), p, r), s.z, Challenge(h, p, s.cTilde), t1, p), p.gamma2)
  }

  /** w'_1 of Algorithm 8, line 10, row by row. */
  ghost function RecoveredW1(h: Hashes, p: ParameterSet, pk: seq<Byte>, s: Signature): (w1: seq<seq<int>>)
    requires IsParameterSet(p) && SamplersEnd(h, p) && |pk| == PublicKeyLen(p)
    requires |s.cTilde| == CommitmentLen(p) && IsVec(s.z, p.l) && |s.h| == p.k && Hint.IsHint(s.h)
    ensures IsW1(w1, p)
  {
    hide SamplersEnd, RecoveredRow, Hint.IsHint, IsPoly, IsVec, HighCount, IsW1;
    var w1 := seq(p.k, r requires 0 <= r < p.k => RecoveredRow(h, p, pk, s, r));
    HighRowsFit(w1, p);
    w1
  }

  /** What verification of a signature of the right length, given mu, decides. */
  ghost predicate Verifies(h: Hashes, p: ParameterSet, pk: seq<Byte>, mu: seq<Byte>, sig: seq<Byte>)
    requires IsParameterSet(p) && SamplersEnd(h, p) && |pk| == PublicKeyLen(p) && |sig| == SignatureLen(p)
  {
    && SigAccepted(sig, p)
    && var s := SigParts(sig, p);
    && VecBelow(s.z, p.gamma1 - Beta(p))
    && Commitment(h, p, mu, RecoveredW1(h, p, pk, s)) == s.cTilde
  }
}
