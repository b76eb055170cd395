/** Where every bit of ML-DSA's keys, signatures, hints and commitments stands, and the lengths that FIPS 204
    section 4 lists. */
module MlDsaLayout {
  import opened Modular
  import opened Machine
  import opened Polynomials
  import opened Chunks
  import opened Packing
  import opened Layout
  import opened MlDsaArith
  import opened MlDsaParams
  import P = MlDsaPack
  import opened MlDsaCodec
  import Hint = MlDsaHint

  /** The lengths in bytes and the bounds beta of FIPS 204 tables 1 and 2. */
  lemma StandardLengths()
    ensures PublicKeyLen(ML_DSA_44) == 1312 && PrivateKeyLen(ML_DSA_44) == 2560 && SignatureLen(ML_DSA_44) == 2420
    ensures PublicKeyLen(ML_DSA_65) == 1952 && PrivateKeyLen(ML_DSA_65) == 4032 && SignatureLen(ML_DSA_65) == 3309
    ensures PublicKeyLen(ML_DSA_87) == 2592 && PrivateKeyLen(ML_DSA_87) == 4896 && SignatureLen(ML_DSA_87) == 4627
    ensures Beta(ML_DSA_44) == 78 && Beta(ML_DSA_65) == 196 && Beta(ML_DSA_87) == 120
  {
  }

  // ----- vectors of signed values -----

  /** b - w modulo q: how values w of at most b are stored. */
  function Stored(b: int, w: seq<int>): (r: seq<int>)
    ensures |r| == |w|
  {
    seq(|w|, i requires 0 <= i < |w| => (b - w[i]) % Q)
  }

  lemma StoredIs(b: int, w: seq<int>)
    requires IsPoly(w) && 0 <= b < Q
    ensures P.Below(b, w) == Stored(b, w)
  {
    hide SubQ;
    forall i | 0 <= i < N
      ensures P.Below(b, w)[i] == Stored(b, w)[i]
    {
      assert SubQ(b, w[i]) == Sub(Q, b, w[i]);
    }
  }

  /** Polynomial i of a packed vector begins at byte lo. */
  lemma VecPiece(v: seq<seq<int>>, b: int, bits: nat, i: nat, lo: int)
    requires 0 <= b < Q && 0 < bits && VecFits(v, b, bits) && i < |v| && lo == 32 * bits * i
    ensures 0 <= lo <= lo + 32 * bits <= |VecBytes(v, b, bits)|
    ensures Holds(VecBytes(v, b, bits)[lo..lo + 32 * bits], Stored(b, v[i]), bits)
  {
    hide Packed, Concat, Holds, Pow2;
    PieceAt(Pieces(v, b, bits), 32 * bits, i);
    StoredIs(b, v[i]);
    PackedHolds(P.Below(b, v[i]), bits);
  }

  /** A piece of the middle of a string. */
  lemma Inside(a: seq<Byte>, m: seq<Byte>, z: seq<Byte>, lo: nat, hi: nat)
    requires lo <= hi <= |m|
    ensures (a + m + z)[|a| + lo..|a| + hi] == m[lo..hi]
  {
  }

  lemma AtTheEnd(a: seq<Byte>, m: seq<Byte>, lo: nat, hi: nat)
    requires lo <= hi <= |m|
    ensures (a + m)[|a| + lo..|a| + hi] == m[lo..hi]
  {
  }

  // ----- public keys -----

  /** rho, then ten bits of each coefficient of t1. */
  lemma PublicKeyLayout(rho: seq<Byte>, t1: seq<seq<int>>, k: nat, i: nat)
    requires |rho| == 32 && IsT1(t1, k) && i < k
    ensures PkBytes(rho, t1, k)[..32] == rho
    ensures Holds(PkBytes(rho, t1, k)[32 + 320 * i..32 + 320 * i + 320], t1[i], 10)
  {
    hide Packed, Concat, Holds, Pow2;
    var pieces := T1Pieces(t1, k);
    PieceAt(pieces, 320, i);
    Pow2Ten();
    PackedHolds(t1[i], 10);
    AtTheEnd(rho, Concat(pieces), 320 * i, 320 * i + 320);
  }

  // ----- private keys -----

  lemma SecretParts(e: SecretKey, p: ParameterSet)
    requires IsParameterSet(p) && SecretFits(e, p)
    ensures |SkBytes(e, p)| >= 128 && |e.s1| == p.l && |e.s2| == |e.t0| == p.k && 0 < EtaBits(p) && 0 <= p.eta < Q
    ensures var sk, head := SkBytes(e, p), e.rho + e.key + e.tr;
      && |head| == 128 && sk[..32] == e.rho && sk[32..64] == e.key && sk[64..128] == e.tr
      && sk == head + VecBytes(e.s1 + e.s2, p.eta, EtaBits(p)) + VecBytes(e.t0, 4096, D)
  {
    hide VecBytes, VecFits, IsVec;
    VecLength(e, p);
  }

  /** rho, K, tr, then eta - s1 and eta - s2 in three or four bits each: polynomial i begins at byte at. */
  lemma SecretLayout(e: SecretKey, p: ParameterSet, i: nat, at: int)
    requires IsParameterSet(p) && SecretFits(e, p) && i < p.l + p.k && at == 128 + 32 * EtaBits(p) * i
    ensures |e.s1| == p.l && |e.s2| == p.k && 128 <= at && at + 32 * EtaBits(p) <= |SkBytes(e, p)|
    ensures var sk := SkBytes(e, p);
      && sk[..32] == e.rho && sk[32..64] == e.key && sk[64..128] == e.tr
      && Holds(sk[at..at + 32 * EtaBits(p)], Stored(p.eta, if i < p.l then e.s1[i] else e.s2[i - p.l]), EtaBits(p))
  {
    SecretParts(e, p);
    hide VecBytes, VecFits, IsVec, Holds, Stored, SkBytes, EtaBits, SecretFits;
    var v, b := e.s1 + e.s2, EtaBits(p);
    VecPiece(v, p.eta, b, i, at - 128);
    Inside(e.rho + e.key + e.tr, VecBytes(v, p.eta, b), VecBytes(e.t0, 4096, D), at - 128, at - 128 + 32 * b);
  }

  lemma SecretSplit(e: SecretKey, p: ParameterSet)
    requires IsParameterSet(p) && SecretFits(e, p)
    ensures |e.t0| == p.k && VecFits(e.t0, 4096, 13) && |SkBytes(e, p)| == 128 + SecretsLen(p) + 416 * p.k
    ensures SkBytes(e, p)[128 + SecretsLen(p)..] == VecBytes(e.t0, 4096, 13)
  {
    SecretParts(e, p);
    hide VecBytes, VecFits, IsVec, SkBytes, EtaBits;
  }

  lemma HeldInTail(s: seq<Byte>, start: nat, at: int, w: seq<int>)
    requires 0 <= start <= at && at + 416 <= |s| && Holds(s[start..][at - start..at - start + 416], w, 13)
    ensures Holds(s[at..at + 416], w, 13)
  {
    hide Holds;
    assert s[at..at + 416] == s[start..][at - start..at - start + 416];
  }

  /** Then 2^12 - t0 in thirteen bits each. */
  lemma LowPartLayout(e: SecretKey, p: ParameterSet, r: nat, at: int)
    requires IsParameterSet(p) && SecretFits(e, p) && r < p.k && at == 128 + SecretsLen(p) + 416 * r
    ensures |e.t0| == p.k && 128 <= at && at + 416 <= |SkBytes(e, p)|
    ensures Holds(SkBytes(e, p)[at..at + 416], Stored(4096, e.t0[r]), 13)
  {
    hide VecBytes, VecFits, IsVec, Holds, Stored, SkBytes, EtaBits, SecretsLen, SecretFits, IsParameterSet,
         IsSecretKey;
    SecretSplit(e, p);
    var start := 128 + SecretsLen(p);
    VecPiece(e.t0, 4096, 13, r, at - start);
    HeldInTail(SkBytes(e, p), start, at, Stored(4096, e.t0[r]));
  }

  // ----- hints -----

  /** The number of ones among the first n coefficients. */
  function Total(f: seq<int>, n: nat): (c: int)
    requires n <= |f|
  {
    if n == 0 then 0 else Total(f, n - 1) + f[n - 1]
  }

  /** And in the first i polynomials. */
  function TotalOf(h: seq<seq<int>>, i: nat): (c: int)
    requires i <= |h| && forall j :: 0 <= j < |h| ==> |h[j]| == N
  {
    if i == 0 then 0 else TotalOf(h, i - 1) + Total(h[i - 1], N)
  }

  lemma {:induction false} TotalIs(f: seq<int>, n: nat)
    requires Hint.IsBits(f) && n <= N
    ensures Total(f, n) == |Hint.Ones(f, n)|
  {
    if n == 0 {
    } else {
      TotalIs(f, n - 1);
    }
  }

  lemma {:induction false} TotalOfIs(h: seq<seq<int>>, i: nat)
    requires Hint.IsHint(h) && i <= |h|
    ensures TotalOf(h, i) == Hint.OnesUpTo(h, i)
  {
    hide Hint.AllOnes, Hint.Ones, Total;
    if i == 0 {
      assert h[..0] == [];
      Hint.NoHint();
    } else {
      TotalOfIs(h, i - 1);
      Hint.AllOnesNext(h, i - 1);
      TotalIs(h[i - 1], N);
    }
  }

  lemma CountsHold(h: seq<seq<int>>, omega: nat, i: nat)
    requires Hint.IsHint(h) && |Hint.AllOnes(h)| <= omega < 256 && i < |h|
    ensures Hint.HintBytes(h, omega)[omega + i] == TotalOf(h, i + 1)
  {
    hide Hint.Positions, Hint.Count, Hint.AllOnes;
    TotalOfIs(h, i + 1);
    Hint.CountsAt(h, omega, i);
  }

  /** Byte omega + i counts the ones of the polynomials up to i; the bytes between two counts are the positions of the
      ones of one polynomial in increasing order; the bytes after the last count are 0. */
  lemma HintLayout(h: seq<seq<int>>, omega: nat, i: nat)
    requires Hint.IsHint(h) && |Hint.AllOnes(h)| <= omega < 256 && i < |h|
    ensures var y, a, b := Hint.HintBytes(h, omega), TotalOf(h, i), TotalOf(h, i + 1);
      && y[omega + i] == b && 0 <= a <= b <= omega && Hint.Increasing(y[a..b])
      && forall j :: j in y[a..b] <==> 0 <= j < N && h[i][j] == 1
  {
    hide Hint.HintBytes, Hint.AllOnes, Hint.Ones, Hint.Increasing, Hint.IsHint, TotalOf, Hint.OnesUpTo;
    CountsHold(h, omega, i);
    TotalOfIs(h, i);
    TotalOfIs(h, i + 1);
    Hint.SegmentOfOnes(h, omega, i);
    Hint.HintAt(h, i);
    Hint.OnesAre(h[i], N);
  }

  lemma HintPadding(h: seq<seq<int>>, omega: nat, s: nat)
    requires Hint.IsHint(h) && |Hint.AllOnes(h)| <= omega < 256 && TotalOf(h, |h|) <= s < omega
    ensures Hint.HintBytes(h, omega)[s] == 0
  {
    hide Hint.AllOnes, Hint.Counts, TotalOf;
    TotalOfIs(h, |h|);
    assert h[..|h|] == h;
  }

  // ----- signatures -----

  lemma SignatureParts(s: Signature, p: ParameterSet)
    requires IsParameterSet(p) && SignatureFits(s, p)
    ensures |s.z| == p.l && |s.h| == p.k && 0 < ZBits(p) && 0 <= p.gamma1 < Q && p.omega < 256
    ensures VecFits(s.z, p.gamma1, ZBits(p)) && SigBytes(s, p)[..CommitmentLen(p)] == s.cTilde
    ensures SigBytes(s, p) == s.cTilde + VecBytes(s.z, p.gamma1, ZBits(p)) + Hint.HintBytes(s.h, p.omega)
    ensures HintPart(SigBytes(s, p), p) == Hint.HintBytes(s.h, p.omega)
  {
    hide VecBytes, VecFits, IsVec, Hint.HintBytes, Hint.AllOnes, Hint.IsHint;
    ResponseSize(s, p);
  }

  /** c~, then gamma1 - z in eighteen or twenty bits each, polynomial i from byte at on, then the hint. */
  lemma SignatureLayout(s: Signature, p: ParameterSet, i: nat, at: int)
    requires IsParameterSet(p) && SignatureFits(s, p) && i < p.l && at == CommitmentLen(p) + 32 * ZBits(p) * i
    ensures |s.z| == p.l && CommitmentLen(p) <= at && at + 32 * ZBits(p) <= |SigBytes(s, p)|
    ensures var sig := SigBytes(s, p);
      && sig[..CommitmentLen(p)] == s.cTilde
      && Holds(sig[at..at + 32 * ZBits(p)], Stored(p.gamma1, s.z[i]), ZBits(p))
      && HintPart(sig, p) == Hint.HintBytes(s.h, p.omega)
  {
    SignatureParts(s, p);
    hide VecBytes, VecFits, IsVec, Hint.HintBytes, Hint.AllOnes, Hint.IsHint, Holds, Stored, SigBytes, ZBits,
         SignatureFits;
    var b, lo := ZBits(p), at - CommitmentLen(p);
    VecPiece(s.z, p.gamma1, b, i, lo);
    Inside(s.cTilde, VecBytes(s.z, p.gamma1, b), Hint.HintBytes(s.h, p.omega), lo, lo + 32 * b);
  }

  // ----- commitments -----

  /** Six or four bits of each coefficient of w1. */
  lemma CommitmentLayout(w1: seq<seq<int>>, p: ParameterSet, i: nat, at: int)
    requires IsParameterSet(p) && IsW1(w1, p) && i < p.k && at == 32 * W1Bits(p) * i
    ensures |W1Bytes(w1, p)| == 32 * W1Bits(p) * p.k && 0 <= at <= at + 32 * W1Bits(p) <= |W1Bytes(w1, p)|
    ensures Holds(W1Bytes(w1, p)[at..at + 32 * W1Bits(p)], w1[i], W1Bits(p))
  {
    hide Packed, Concat, Holds, Pow2;
    PieceAt(W1Pieces(w1, p), 32 * W1Bits(p), i);
    PackedHolds(w1[i], W1Bits(p));
  }
}
