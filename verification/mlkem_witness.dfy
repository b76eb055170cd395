/** The hypotheses of ML-KEM's correctness can be met together, for every parameter set: with hash functions
    that output zeros there is no noise but what compression adds, and every message survives it. */
module MlKemWitness {
  import opened Machine
  import opened Modular
  import opened Polynomials
  import opened Transform
  import opened Rings
  import opened Streams
  import opened Bits
  import opened MlKemArith
  import opened MlKemNtt
  import opened MlKemEncode
  import opened MlKemCompress
  import opened MlKemParams
  import opened MlKemSample
  import opened MlKemScheme
  import opened MlKemDecryption
  import opened MlKemCorrectness

  function Hash(): (h: Hashes) {
    Hashes(_ => Zeros(), _ => Zeros(), _ => Zeros(), _ => Zeros())
  }

  lemma SamplersDoEnd()
    ensures SamplersEnd(Hash())
  {
    hide Yields;
    ZerosYield();
  }

  // ----- all noise is zero -----

  lemma NoBit(p: nat)
    requires p > 0
    ensures 0 / p == 0
  {
    QuotientRange(0, p);
  }

  lemma {:induction false} NoOnes(from: nat, n: nat)
    ensures CountOnes(0, from, n) == 0
  {
    if n == 0 {
    } else {
      NoOnes(from, n - 1);
      NoBit(Pow2(from + n - 1));
    }
  }

  lemma NoiseIsZero(eta: nat, sigma: seq<Byte>, b: nat)
    requires eta <= 3 && b < 256
    ensures NoisePoly(Hash(), eta, sigma, b) == Zero(N)
  {
    var bytes := Prf(Hash(), eta, sigma, b);
    ZeroNumber(bytes);
    var f := NoisePoly(Hash(), eta, sigma, b);
    forall i | 0 <= i < N
      ensures f[i] == 0
    {
      hide CountOnes;
      NoOnes(2 * i * eta, eta);
      NoOnes(2 * i * eta + eta, eta);
      assert f[i] == CbdAt(0, eta, i);
    }
    assert f == Zero(N);
  }

  predicate AllZero(v: seq<seq<int>>) {
    forall i :: 0 <= i < |v| ==> v[i] == Zero(N)
  }

  lemma NoiseVecIsZero(eta: nat, k: nat, sigma: seq<Byte>, first: nat)
    requires eta <= 3 && first + k <= 256
    ensures AllZero(NoiseVec(Hash(), eta, k, sigma, first))
  {
    hide NoisePoly, IsPoly;
    forall i | 0 <= i < k
      ensures NoiseVec(Hash(), eta, k, sigma, first)[i] == Zero(N)
    {
      NoiseIsZero(eta, sigma, first + i);
    }
  }

  lemma {:induction false} DotZero(a: seq<seq<int>>, z: seq<seq<int>>, n: nat)
    requires IsVec(a, |a|) && IsVec(z, |z|) && AllZero(z) && n <= |a| && n <= |z|
    ensures Dot(a, z, n) == Zero(N)
  {
    hide RingTimes, PAdd;
    if n == 0 {
    } else {
      DotZero(a, z, n - 1);
      RingZero(a[n - 1]);
      AddZeros(Q, N);
    }
  }

  /** u is zero: all of it comes from y and e1. */
  lemma UIsZero(a: seq<seq<seq<int>>>, y: seq<seq<int>>, e1: seq<seq<int>>, k: nat)
    requires IsMatrix(a, k) && IsVec(y, k) && IsVec(e1, k) && AllZero(y) && AllZero(e1)
    ensures AllZero(UVec(a, y, e1, k))
  {
    hide Inverse, Inner, Dot, Valid, UVec, InverseMatrix;
    UVecIs(a, y, e1, k);
    AddZeros(Q, N);
    var c := InverseMatrix(a, k);
    forall i | 0 <= i < k
      ensures UVec(a, y, e1, k)[i] == Zero(N)
    {
      DotZero(Column(c, k, i), y, k);
    }
  }

  /** v is the encoded message. */
  lemma VIsMessage(t: seq<seq<int>>, y: seq<seq<int>>, e2: seq<int>, mu: seq<int>, k: nat)
    requires IsVec(t, k) && IsVec(y, k) && AllZero(y) && e2 == Zero(N) && IsPoly(e2) && IsPoly(mu)
    ensures VPoly(t, y, e2, mu, k) == mu
  {
    hide Inverse, Inner, Dot, Valid, Forward, NttVec, InverseVec;
    VecSize(t, k);
    VecSize(y, k);
    var c := InverseVec(t);
    NttOfInverse(t);
    InverseOfInner(c, y, k);
    DotZero(c, y, k);
    AddZeros(Q, N);
    PAddZero(Q, mu);
  }

  // ----- compression loses nothing of 0 and of an encoded bit -----

  lemma HalfIsSmall(p: int, r: int)
    requires 0 < p && 0 <= r && 2 * (r * p) <= p
    ensures r == 0
  {
    if r >= 1 { Scaled(1, r, p); }
  }

  lemma ZeroKept(d: nat)
    requires 1 <= d <= 11
    ensures Pow2(d) > 0 && Decompress(d, 0) == 0 && Compress(d, 0) == 0
  {
    Widths(d);
    hide Pow2, Compress, Decompress;
    CompressOfDecompress(d, 0);
    HalfIsSmall(Pow2(d), Decompress(d, 0));
  }

  /** 1665 is a multiple of the step of 4 and of 5 bits. */
  lemma HalfKept(d: nat)
    requires d == 4 || d == 5
    ensures 0 <= Pow2(d - 1) < Pow2(d) && Decompress(d, Pow2(d - 1)) == 1665 && Compress(d, 1665) == Pow2(d - 1)
  {
    Widths(d);
    assert Pow2(3) == 8 && Pow2(4) == 16;
    hide Pow2, Compress;
    CompressOfDecompress(d, Pow2(d - 1));
  }

  /** What becomes of a polynomial under compression and decompression. */
  lemma ZeroPolyKept(d: nat)
    requires 1 <= d <= 11
    ensures IsPoly(Zero(N)) && DecompressPoly(d, CompressPoly(d, Zero(N))) == Zero(N)
  {
    hide Compress, Decompress;
    ZeroKept(d);
    var l := DecompressPoly(d, CompressPoly(d, Zero(N)));
    assert forall i :: 0 <= i < N ==> l[i] == 0;
  }

  lemma OneIsHalf()
    ensures Pow2(1) == 2 && Decompress(1, 1) == 1665
  {
    assert Pow2(0) == 1;
  }

  lemma MessageKept(m: seq<Byte>, d: nat)
    requires |m| == 32 && (d == 4 || d == 5)
    ensures DecompressPoly(d, CompressPoly(d, Mu(m))) == Mu(m)
  {
    hide Compress, Decompress, Decoded;
    Widths(1);
    ZeroKept(d);
    HalfKept(d);
    ZeroKept(1);
    OneIsHalf();
    var mu := Mu(m);
    var l := DecompressPoly(d, CompressPoly(d, mu));
    forall i | 0 <= i < N
      ensures l[i] == mu[i]
    {
      var b := MessageBits(m)[i];
      assert b == 0 || b == 1;
      assert mu[i] == Decompress(1, b);
    }
    assert l == mu;
  }

  // ----- so there is no noise -----

  lemma SelfDifference(f: seq<int>)
    ensures PSub(Q, f, f) == Zero(|f|)
  {
    var l := PSub(Q, f, f);
    assert forall i :: 0 <= i < |f| ==> l[i] == 0;
  }

  lemma CuIsZero(p: ParameterSet, u: seq<seq<int>>)
    requires IsParameterSet(p) && IsVec(u, p.k) && AllZero(u)
    ensures AllZero(CuOf(p, u))
  {
    hide CompressPoly, DecompressPoly, Valid;
    Sizes(p);
    ZeroPolyKept(p.du);
    SelfDifference(Zero(N));
  }

  lemma NoNoise(h: Hashes, p: ParameterSet, d: seq<Byte>, m: seq<Byte>, r: seq<Byte>)
    requires IsParameterSet(p) && h == Hash() && SamplersEnd(h) && |m| == 32
    ensures NoiseOf(h, p, d, m, r) == Zero(N)
  {
    hide SamplersEnd, TOf, Matrix, NoiseVec, NoisePoly, UVec, VPoly, Mu, Dot, CuOf, CompressPoly, DecompressPoly,
         SubVec, Valid, SeedsOf;
    Sizes(p);
    var s, e, y := SOf(h, p, d), EOf(h, p, d), YOf(h, p, r);
    var e1, e2 := E1Of(h, p, r), E2Of(h, p, r);
    var sigma := SeedsOf(h, p, d).1;
    NoiseVecIsZero(p.eta1, p.k, sigma, 0);
    NoiseVecIsZero(p.eta1, p.k, sigma, p.k);
    NoiseVecIsZero(p.eta1, p.k, r, 0);
    NoiseVecIsZero(p.eta2, p.k, r, p.k);
    NoiseIsZero(p.eta2, r, 2 * p.k);
    var u, v := UFor(h, p, d, r), VFor(h, p, d, m, r);
    UIsZero(Matrix(h, SeedsOf(h, p, d).0, p.k), y, e1, p.k);
    VIsMessage(TOf(h, p, d), y, e2, Mu(m), p.k);
    CuIsZero(p, u);
    MessageKept(m, p.dv);
    SelfDifference(Mu(m));
    DotZero(e, y, p.k);
    DotZero(s, e1, p.k);
    DotZero(s, CuOf(p, u), p.k);
    AddZeros(Q, N);
    SelfDifference(Zero(N));
  }

  /** For these hash functions the samplers end and every message is decrypted correctly. */
  lemma HypothesesHold(p: ParameterSet, d: seq<Byte>, m: seq<Byte>, r: seq<Byte>)
    requires IsParameterSet(p) && |m| == 32
    ensures SamplersEnd(Hash()) && NoiseInBound(Hash(), p, d, m, r)
  {
    hide SamplersEnd, NoiseOf, MessageBits;
    SamplersDoEnd();
    NoNoise(Hash(), p, d, m, r);
  }
}
