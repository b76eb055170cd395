/** K-PKE as functions: what macula-mlkem/src/kpke.rs computes (FIPS 203 Algorithms 13 to 15), in terms of the
    transform, the samplers, the compression and the codec. The methods of MlKemPke compute exactly these. */
module MlKemScheme {
  import opened Machine
  import opened Modular
  import opened Polynomials
  import opened Transform
  import opened Streams
  import opened Chunks
  import opened Packing
  import opened Digits
  import opened Norms
  import opened MlKemArith
  import opened MlKemNtt
  import opened MlKemEncode
  import opened MlKemCompress
  import opened MlKemParams
  import opened MlKemSample

  /** The hash functions as functions from the absorbed bytes to the output. */
  datatype Hashes = Hashes(shake128: seq<Byte> -> Stream, shake256: seq<Byte> -> Stream,
                           sha3_256: seq<Byte> -> Stream, sha3_512: seq<Byte> -> Stream)

  /** H(s) = SHA3-256(s) */
  function H(h: Hashes, s: seq<Byte>): (r: seq<Byte>)
    ensures |r| == 32
  {
    Take(h.sha3_256(s), 0, 32)
  }

  /** J(s) = SHAKE256(s, 32) */
  function J(h: Hashes, s: seq<Byte>): (r: seq<Byte>)
    ensures |r| == 32
  {
    Take(h.shake256(s), 0, 32)
  }

  /** G(s): the two halves of SHA3-512(s). */
  function G(h: Hashes, s: seq<Byte>): (r: (seq<Byte>, seq<Byte>))
    ensures |r.0| == |r.1| == 32
  {
    (Take(h.sha3_512(s), 0, 32), Take(h.sha3_512(s), 32, 32))
  }

  /** PRF_eta(s, b) = SHAKE256(s || b, 64 eta) */
  function Prf(h: Hashes, eta: nat, s: seq<Byte>, b: Byte): (r: seq<Byte>)
    ensures |r| == 64 * eta
  {
    Take(h.shake256(s + [b]), 0, 64 * eta)
  }

  /** Every seed's stream yields a whole polynomial: otherwise SampleNTT would read for ever. */
  ghost predicate SamplersEnd(h: Hashes) {
    forall seed: seq<Byte> :: |seed| == 34 ==> Yields(NttCandidates(h.shake128(seed)), N)
  }

  /** It can be met: a stream of zeros is never refused. */
  lemma ZerosYield()
    ensures Yields(NttCandidates(Zeros()), N)
  {
    forall i: nat
      ensures NttCandidates(Zeros())(i).Some?
    {
      assert Zeros()(i / 2 * 3) == Zeros()(i / 2 * 3 + 1) == Zeros()(i / 2 * 3 + 2) == 0;
      assert LowTwelve(0, 0).Some? && HighTwelve(0, 0).Some?;
    }
    NothingRefused(NttCandidates(Zeros()), N);
  }

  // ----- vectors -----

  predicate IsVec(v: seq<seq<int>>, n: nat) {
    |v| == n && forall i :: 0 <= i < n ==> IsPoly(v[i])
  }

  predicate IsMatrix(a: seq<seq<seq<int>>>, k: nat) {
    |a| == k && forall i :: 0 <= i < k ==> IsVec(a[i], k)
  }

  function NttVec(v: seq<seq<int>>): (r: seq<seq<int>>)
    requires IsVec(v, |v|)
    ensures IsVec(r, |v|)
  {
    seq(|v|, i requires 0 <= i < |v| => Forward(KEM, v[i]))
  }

  /** sum over j below n of a[j] b[j] in the transform domain. */
  function Inner(a: seq<seq<int>>, b: seq<seq<int>>, n: nat): (r: seq<int>)
    requires IsVec(a, |a|) && IsVec(b, |b|) && n <= |a| && n <= |b|
    ensures IsPoly(r)
  {
    if n == 0 then Zero(N) else PAdd(Q, Inner(a, b, n - 1), Pointwise(KEM, a[n - 1], b[n - 1]))
  }

  function Column(a: seq<seq<seq<int>>>, k: nat, i: nat): (c: seq<seq<int>>)
    requires IsMatrix(a, k) && i < k
    ensures IsVec(c, k)
  {
    seq(k, j requires 0 <= j < k => a[j][i])
  }

  // ----- bytes of vectors -----

  function Pieces(v: seq<seq<int>>, d: nat): (r: seq<seq<Byte>>)
    requires forall i :: 0 <= i < |v| ==> |v[i]| == N
    ensures |r| == |v| && forall i :: 0 <= i < |r| ==> |r[i]| == 32 * d
  {
    hide Encoded;
    seq(|v|, i requires 0 <= i < |v| => Encoded(v[i], d))
  }

  function VecBytes(v: seq<seq<int>>, d: nat): (r: seq<Byte>)
    requires forall i :: 0 <= i < |v| ==> |v[i]| == N
    ensures |r| == 32 * d * |v|
  {
    ConcatLength(Pieces(v, d), 32 * d);
    Concat(Pieces(v, d))
  }

  function BytesVec(s: seq<Byte>, d: nat, n: nat): (v: seq<seq<int>>)
    requires |s| == 32 * d * n
    ensures |v| == n && forall i :: 0 <= i < n ==> |v[i]| == N
  {
    hide Decoded;
    var pieces := Split(s, 32 * d, n);
    seq(n, i requires 0 <= i < n => Decoded(pieces[i], d))
  }

  lemma VecRoundTrip(v: seq<seq<int>>, d: nat)
    requires 1 <= d <= 12 && forall i :: 0 <= i < |v| ==> |v[i]| == N && Encodable(v[i], d)
    ensures BytesVec(VecBytes(v, d), d, |v|) == v
  {
    hide Encoded, Decoded, Encodable, Concat, Split;
    SplitConcat(Pieces(v, d), 32 * d);
    forall i | 0 <= i < |v|
      ensures Decoded(Pieces(v, d)[i], d) == v[i]
    {
      DecodeOfEncode(v[i], d);
    }
    var r := BytesVec(VecBytes(v, d), d, |v|);
    assert forall i :: 0 <= i < |v| ==> r[i] == v[i];
  }

  /** k polynomials at 12 bits: every coefficient is reduced. */
  function KeyVec(s: seq<Byte>, k: nat): (v: seq<seq<int>>)
    requires |s| == 384 * k
    ensures IsVec(v, k)
  {
    hide Unpacked;
    BytesVec(s, 12, k)
  }

  lemma KeyVecRoundTrip(v: seq<seq<int>>)
    requires IsVec(v, |v|)
    ensures |VecBytes(v, 12)| == 384 * |v| && KeyVec(VecBytes(v, 12), |v|) == v
  {
    hide VecBytes, BytesVec;
    VecRoundTrip(v, 12);
  }

  // ----- sampling -----

  function SeedA(rho: seq<Byte>, i: nat, j: nat): (seed: seq<Byte>)
    requires |rho| == 32 && i < 256 && j < 256
    ensures |seed| == 34
  {
    rho + [j, i]
  }

  ghost function EntryOfA(h: Hashes, rho: seq<Byte>, k: nat, i: nat, j: nat): (f: seq<int>)
    requires SamplersEnd(h) && |rho| == 32 && k <= 4 && i < k && j < k
    ensures IsPoly(f)
  {
    NttPoly(h.shake128(SeedA(rho, i, j)))
  }

  ghost function RowOfA(h: Hashes, rho: seq<Byte>, k: nat, i: nat): (row: seq<seq<int>>)
    requires SamplersEnd(h) && |rho| == 32 && k <= 4 && i < k
    ensures IsVec(row, k)
  {
    hide SamplersEnd, IsPoly, EntryOfA;
    seq(k, j requires 0 <= j < k => EntryOfA(h, rho, k, i, j))
  }

  /** A, in the transform domain: the column index comes first in the seed. */
  ghost function Matrix(h: Hashes, rho: seq<Byte>, k: nat): (a: seq<seq<seq<int>>>)
    requires SamplersEnd(h) && |rho| == 32 && k <= 4
    ensures IsMatrix(a, k)
  {
    hide SamplersEnd, IsVec, RowOfA;
    seq(k, i requires 0 <= i < k => RowOfA(h, rho, k, i))
  }

  ghost function NoisePoly(h: Hashes, eta: nat, sigma: seq<Byte>, b: nat): (f: seq<int>)
    requires eta <= 3 && b < 256
    ensures IsPoly(f) && Bounded(Q, f, eta)
  {
    Cbd(eta, Prf(h, eta, sigma, b))
  }

  ghost function NoiseAt(h: Hashes, eta: nat, sigma: seq<Byte>, first: nat, i: nat): (f: seq<int>)
    requires eta <= 3 && first + i < 256
    ensures IsPoly(f) && Bounded(Q, f, eta)
  {
    NoisePoly(h, eta, sigma, first + i)
  }

  /** k noise polynomials from consecutive counters. */
  ghost function NoiseVec(h: Hashes, eta: nat, k: nat, sigma: seq<Byte>, first: nat): (v: seq<seq<int>>)
    requires eta <= 3 && first + k <= 256
    ensures IsVec(v, k)
  {
    hide IsPoly, NoisePoly;
    seq(k, i requires 0 <= i < k => NoiseAt(h, eta, sigma, first, i))
  }

  // ----- key generation -----

  /** (rho, sigma) = G(d || k) */
  function SeedsOf(h: Hashes, p: ParameterSet, d: seq<Byte>): (r: (seq<Byte>, seq<Byte>))
    requires IsParameterSet(p)
    ensures |r.0| == |r.1| == 32
  {
    G(h, d + [p.k])
  }

  ghost function SOf(h: Hashes, p: ParameterSet, d: seq<Byte>): (s: seq<seq<int>>)
    requires IsParameterSet(p)
    ensures IsVec(s, p.k)
  {
    NoiseVec(h, p.eta1, p.k, SeedsOf(h, p, d).1, 0)
  }

  ghost function EOf(h: Hashes, p: ParameterSet, d: seq<Byte>): (e: seq<seq<int>>)
    requires IsParameterSet(p)
    ensures IsVec(e, p.k)
  {
    NoiseVec(h, p.eta1, p.k, SeedsOf(h, p, d).1, p.k)
  }

  /** A s + e, in the transform domain. */
  function THat(a: seq<seq<seq<int>>>, s: seq<seq<int>>, e: seq<seq<int>>, k: nat): (t: seq<seq<int>>)
    requires IsMatrix(a, k) && IsVec(s, k) && IsVec(e, k)
    ensures IsVec(t, k)
  {
    hide Valid;
    seq(k, i requires 0 <= i < k => PAdd(Q, Inner(a[i], NttVec(s), k), Forward(KEM, e[i])))
  }

  ghost function TOf(h: Hashes, p: ParameterSet, d: seq<Byte>): (t: seq<seq<int>>)
    requires IsParameterSet(p) && SamplersEnd(h)
    ensures IsVec(t, p.k)
  {
    hide IsVec, IsMatrix, Matrix, SOf, EOf;
    THat(Matrix(h, SeedsOf(h, p, d).0, p.k), SOf(h, p, d), EOf(h, p, d), p.k)
  }

  ghost function EkOf(h: Hashes, p: ParameterSet, d: seq<Byte>): (ek: seq<Byte>)
    requires IsParameterSet(p) && SamplersEnd(h)
    ensures |ek| == EncapsKeyLen(p)
  {
    hide TOf, VecBytes;
    VecBytes(TOf(h, p, d), 12) + SeedsOf(h, p, d).0
  }

  ghost function DkPkeOf(h: Hashes, p: ParameterSet, d: seq<Byte>): (dk: seq<Byte>)
    requires IsParameterSet(p)
    ensures |dk| == 384 * p.k
  {
    hide SOf, VecBytes;
    VecBytes(NttVec(SOf(h, p, d)), 12)
  }

  // ----- encryption -----

  /** The vector part of an encapsulation key. */
  function EkT(p: ParameterSet, ek: seq<Byte>): (t: seq<seq<int>>)
    requires |ek| == EncapsKeyLen(p)
    ensures IsVec(t, p.k)
  {
    KeyVec(ek[..384 * p.k], p.k)
  }

  function EkRho(p: ParameterSet, ek: seq<Byte>): (rho: seq<Byte>)
    requires |ek| == EncapsKeyLen(p)
    ensures |rho| == 32
  {
    ek[384 * p.k..]
  }

  ghost function YOf(h: Hashes, p: ParameterSet, r: seq<Byte>): (y: seq<seq<int>>)
    requires IsParameterSet(p)
    ensures IsVec(y, p.k)
  {
    NoiseVec(h, p.eta1, p.k, r, 0)
  }

  ghost function E1Of(h: Hashes, p: ParameterSet, r: seq<Byte>): (e1: seq<seq<int>>)
    requires IsParameterSet(p)
    ensures IsVec(e1, p.k)
  {
    NoiseVec(h, p.eta2, p.k, r, p.k)
  }

  ghost function E2Of(h: Hashes, p: ParameterSet, r: seq<Byte>): (e2: seq<int>)
    requires IsParameterSet(p)
    ensures IsPoly(e2)
  {
    NoisePoly(h, p.eta2, r, 2 * p.k)
  }

  /** The bits of a message. */
  function MessageBits(m: seq<Byte>): (b: seq<int>)
    requires |m| == 32
    ensures |b| == N && AreDigits(b, Pow2(1))
  {
    Decoded(m, 1)
  }

  function Mu(m: seq<Byte>): (mu: seq<int>)
    requires |m| == 32
    ensures IsPoly(mu)
  {
    DecompressPoly(1, MessageBits(m))
  }

  /** NTT^-1(A^T y) + e1: column i of A where key generation uses row i. */
  function UVec(a: seq<seq<seq<int>>>, y: seq<seq<int>>, e1: seq<seq<int>>, k: nat): (u: seq<seq<int>>)
    requires IsMatrix(a, k) && IsVec(y, k) && IsVec(e1, k)
    ensures IsVec(u, k)
  {
    hide Valid;
    seq(k, i requires 0 <= i < k => PAdd(Q, Inverse(KEM, Inner(Column(a, k, i), NttVec(y), k)), e1[i]))
  }

  function VPoly(t: seq<seq<int>>, y: seq<seq<int>>, e2: seq<int>, mu: seq<int>, k: nat): (v: seq<int>)
    requires IsVec(t, k) && IsVec(y, k) && IsPoly(e2) && IsPoly(mu)
    ensures IsPoly(v)
  {
    PAdd(Q, PAdd(Q, Inverse(KEM, Inner(t, NttVec(y), k)), e2), mu)
  }

  ghost function UOf(h: Hashes, p: ParameterSet, rho: seq<Byte>, r: seq<Byte>): (u: seq<seq<int>>)
    requires IsParameterSet(p) && SamplersEnd(h) && |rho| == 32
    ensures IsVec(u, p.k)
  {
    hide IsVec, IsMatrix, Matrix, YOf, E1Of, UVec;
    UVec(Matrix(h, rho, p.k), YOf(h, p, r), E1Of(h, p, r), p.k)
  }

  ghost function VOf(h: Hashes, p: ParameterSet, t: seq<seq<int>>, m: seq<Byte>, r: seq<Byte>): (v: seq<int>)
    requires IsParameterSet(p) && IsVec(t, p.k) && |m| == 32
    ensures IsPoly(v)
  {
    hide IsVec, IsPoly, YOf, E2Of, VPoly, Mu;
    VPoly(t, YOf(h, p, r), E2Of(h, p, r), Mu(m), p.k)
  }

  function CompressVec(d: nat, u: seq<seq<int>>): (r: seq<seq<int>>)
    requires 1 <= d <= 11 && IsVec(u, |u|)
    ensures |r| == |u| && forall i :: 0 <= i < |u| ==> |r[i]| == N && AreDigits(r[i], Pow2(d))
  {
    hide Valid, CompressPoly;
    seq(|u|, i requires 0 <= i < |u| => CompressPoly(d, u[i]))
  }

  function DecompressVec(d: nat, u: seq<seq<int>>): (r: seq<seq<int>>)
    requires 1 <= d <= 11 && forall i :: 0 <= i < |u| ==> |u[i]| == N && AreDigits(u[i], Pow2(d))
    ensures IsVec(r, |u|)
  {
    hide Valid, DecompressPoly;
    seq(|u|, i requires 0 <= i < |u| => DecompressPoly(d, u[i]))
  }

  lemma VecSize(v: seq<seq<int>>, n: nat)
    requires IsVec(v, n)
    ensures |v| == n
  {
  }

  function CiphertextBytes(p: ParameterSet, u: seq<seq<int>>, v: seq<int>): (c: seq<Byte>)
    requires IsParameterSet(p) && IsVec(u, p.k) && IsPoly(v)
    ensures |c| == CiphertextLen(p)
  {
    hide VecBytes, Encoded, CompressVec, CompressPoly;
    Sizes(p);
    VecSize(u, p.k);
    VecBytes(CompressVec(p.du, u), p.du) + Encoded(CompressPoly(p.dv, v), p.dv)
  }

  /** FIPS 203 Algorithm 14. */
  ghost function Encrypted(h: Hashes, p: ParameterSet, ek: seq<Byte>, m: seq<Byte>, r: seq<Byte>): (c: seq<Byte>)
    requires IsParameterSet(p) && SamplersEnd(h) && |ek| == EncapsKeyLen(p) && |m| == 32
    ensures |c| == CiphertextLen(p)
  {
    hide IsVec, IsPoly, UOf, VOf, CiphertextBytes;
    CiphertextBytes(p, UOf(h, p, EkRho(p, ek), r), VOf(h, p, EkT(p, ek), m, r))
  }

  // ----- decryption -----

  /** The two parts of a ciphertext, decompressed. */
  function CtU(p: ParameterSet, c: seq<Byte>): (u: seq<seq<int>>)
    requires IsParameterSet(p) && |c| == CiphertextLen(p)
    ensures IsVec(u, p.k)
  {
    hide Unpacked;
    Sizes(p);
    DecompressVec(p.du, BytesVec(c[..32 * p.du * p.k], p.du, p.k))
  }

  function CtV(p: ParameterSet, c: seq<Byte>): (v: seq<int>)
    requires IsParameterSet(p) && |c| == CiphertextLen(p)
    ensures IsPoly(v)
  {
    Sizes(p);
    DecompressPoly(p.dv, Decoded(c[32 * p.du * p.k..], p.dv))
  }

  /** w = v' - NTT^-1(s NTT(u')) */
  function WPoly(sHat: seq<seq<int>>, u: seq<seq<int>>, v: seq<int>, k: nat): (w: seq<int>)
    requires IsVec(sHat, k) && IsVec(u, k) && IsPoly(v)
    ensures IsPoly(w)
  {
    PSub(Q, v, Inverse(KEM, Inner(sHat, NttVec(u), k)))
  }

  /** FIPS 203 Algorithm 15. */
  function Decrypted(p: ParameterSet, dkPke: seq<Byte>, c: seq<Byte>): (m: seq<Byte>)
    requires IsParameterSet(p) && |dkPke| == 384 * p.k && |c| == CiphertextLen(p)
    ensures |m| == 32
  {
    hide IsVec, IsPoly, KeyVec, CtU, CtV, WPoly;
    Encoded(CompressPoly(1, WPoly(KeyVec(dkPke, p.k), CtU(p, c), CtV(p, c), p.k)), 1)
  }
}
