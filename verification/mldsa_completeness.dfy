/** Completeness of ML-DSA: every signature the rejection loop releases under a generated key is
    accepted by verification under the matching public key. */
module MlDsaCompleteness {
  import opened Machine
  import opened Modular
  import opened Polynomials
  import opened Norms
  import opened Transform
  import opened MlDsaArith
  import opened MlDsaParams
  import opened MlDsaNtt
  import opened MlDsaSample
  import opened MlDsaCodec
  import opened MlDsaScheme
  import P = MlDsaPack
  import Hint = MlDsaHint
  import opened Digits

  // ----- products of transforms are products of coefficients -----

  lemma PointwiseValid(a: seq<int>, b: seq<int>)
    requires IsPoly(a) && IsPoly(b)
    ensures IsPoly(Pointwise(DSA, a, b))
  {
  }

  lemma PointwiseAdd(a: seq<int>, u: seq<int>, v: seq<int>)
    requires IsPoly(a) && IsPoly(u) && IsPoly(v)
    ensures Pointwise(DSA, a, PAdd(Q, u, v)) == PAdd(Q, Pointwise(DSA, a, u), Pointwise(DSA, a, v))
  {
    hide Pointwise, Add, Mul;
    PointwiseAt(a, PAdd(Q, u, v));
    PointwiseAt(a, u);
    PointwiseAt(a, v);
    var l, r := Pointwise(DSA, a, PAdd(Q, u, v)), PAdd(Q, Pointwise(DSA, a, u), Pointwise(DSA, a, v));
    forall i | 0 <= i < N
      ensures l[i] == r[i]
    {
      MulAdd(Q, a[i], u[i], v[i]);
    }
    assert l == r;
  }

  lemma PointwiseSub(a: seq<int>, u: seq<int>, v: seq<int>)
    requires IsPoly(a) && IsPoly(u) && IsPoly(v)
    ensures Pointwise(DSA, a, PSub(Q, u, v)) == PSub(Q, Pointwise(DSA, a, u), Pointwise(DSA, a, v))
  {
    hide Pointwise, Sub, Mul;
    PointwiseAt(a, PSub(Q, u, v));
    PointwiseAt(a, u);
    PointwiseAt(a, v);
    var l, r := Pointwise(DSA, a, PSub(Q, u, v)), PSub(Q, Pointwise(DSA, a, u), Pointwise(DSA, a, v));
    forall i | 0 <= i < N
      ensures l[i] == r[i]
    {
      MulSub(Q, a[i], u[i], v[i]);
    }
    assert l == r;
  }

  /** a (c v) = c (a v) */
  lemma PointwiseSwap(a: seq<int>, c: seq<int>, v: seq<int>)
    requires IsPoly(a) && IsPoly(c) && IsPoly(v)
    ensures Pointwise(DSA, a, Pointwise(DSA, c, v)) == Pointwise(DSA, c, Pointwise(DSA, a, v))
  {
    hide Pointwise, Mul;
    PointwiseAt(a, Pointwise(DSA, c, v));
    PointwiseAt(c, Pointwise(DSA, a, v));
    PointwiseAt(a, v);
    PointwiseAt(c, v);
    var l, r := Pointwise(DSA, a, Pointwise(DSA, c, v)), Pointwise(DSA, c, Pointwise(DSA, a, v));
    forall i | 0 <= i < N
      ensures l[i] == r[i]
    {
      MulAssoc(Q, a[i], c[i], v[i]);
      MulComm(Q, a[i], c[i]);
      MulAssoc(Q, c[i], a[i], v[i]);
    }
    assert l == r;
  }

  lemma PointwiseZero(c: seq<int>)
    requires IsPoly(c)
    ensures IsPoly(Zero(N)) && Pointwise(DSA, c, Zero(N)) == Zero(N)
  {
    hide Pointwise, Mul;
    PointwiseAt(c, Zero(N));
    var l := Pointwise(DSA, c, Zero(N));
    forall i | 0 <= i < N
      ensures l[i] == 0
    {
      MulZero(Q, c[i]);
    }
    assert l == Zero(N);
  }

  // ----- matrix rows -----

  lemma {:induction false} RowAdd(row: seq<seq<int>>, u: seq<seq<int>>, v: seq<seq<int>>, n: nat)
    requires IsVec(row, |row|) && IsVec(u, |u|) && IsVec(v, |u|) && n <= |row| && n <= |u|
    ensures RowTimes(row, AddVec(u, v), n) == PAdd(Q, RowTimes(row, u, n), RowTimes(row, v, n))
  {
    hide Pointwise, Add, Valid;
    if n == 0 {
      AddZeros(Q, N);
    } else {
      RowAdd(row, u, v, n - 1);
      PointwiseAdd(row[n - 1], u[n - 1], v[n - 1]);
      PAddSwap(Q, RowTimes(row, u, n - 1), RowTimes(row, v, n - 1),
               Pointwise(DSA, row[n - 1], u[n - 1]), Pointwise(DSA, row[n - 1], v[n - 1]));
    }
  }

  /** c v, entry by entry, on transforms. */
  function ScaleVec(c: seq<int>, v: seq<seq<int>>): (r: seq<seq<int>>)
    requires IsPoly(c) && IsVec(v, |v|)
    ensures IsVec(r, |v|)
  {
    hide Pointwise;
    seq(|v|, i requires 0 <= i < |v| => Pointwise(DSA, c, v[i]))
  }

  lemma {:induction false} RowScaled(row: seq<seq<int>>, c: seq<int>, v: seq<seq<int>>, n: nat)
    requires IsVec(row, |row|) && IsPoly(c) && IsVec(v, |v|) && n <= |row| && n <= |v|
    ensures RowTimes(row, ScaleVec(c, v), n) == Pointwise(DSA, c, RowTimes(row, v, n))
  {
    hide Pointwise, PAdd, Valid;
    if n == 0 {
      PointwiseZero(c);
    } else {
      RowScaled(row, c, v, n - 1);
      PointwiseSwap(row[n - 1], c, v[n - 1]);
      PointwiseValid(row[n - 1], v[n - 1]);
      PointwiseAdd(c, RowTimes(row, v, n - 1), Pointwise(DSA, row[n - 1], v[n - 1]));
    }
  }

  // ----- the ring identity -----

  lemma TransformOfSum(y: seq<int>, c: seq<int>, s: seq<int>)
    requires IsPoly(y) && IsPoly(c) && IsPoly(s)
    ensures Forward(DSA, PAdd(Q, y, RingProduct(c, s)))
      == PAdd(Q, Forward(DSA, y), Pointwise(DSA, Forward(DSA, c), Forward(DSA, s)))
  {
    hide Pointwise, Forward, Inverse, PAdd;
    IsDsaDomain();
    var u := Pointwise(DSA, Forward(DSA, c), Forward(DSA, s));
    ForwardAdd(DSA, y, Inverse(DSA, u));
    ForwardOfInverse(DSA, u);
  }

  /** The transform of z = y + c s1. */
  lemma TransformOfResponse(y: seq<seq<int>>, c: seq<int>, s1: seq<seq<int>>)
    requires IsVec(y, |y|) && IsVec(s1, |y|) && IsPoly(c)
    ensures NttVec(AddVec(y, TimesVec(c, s1))) == AddVec(NttVec(y), ScaleVec(Forward(DSA, c), NttVec(s1)))
  {
    hide Pointwise, Forward, RingProduct, PAdd, Valid;
    IsDsaDomain();
    var l, r := NttVec(AddVec(y, TimesVec(c, s1))), AddVec(NttVec(y), ScaleVec(Forward(DSA, c), NttVec(s1)));
    forall i | 0 <= i < |y|
      ensures l[i] == r[i]
    {
      TransformOfSum(y[i], c, s1[i]);
    }
    assert l == r;
  }

  lemma SplitCoefficient(r: int)
    requires 0 <= r < Q
    ensures var p := Power2Round(r); 0 <= p.0 * 8192 < Q && p.0 * 8192 == Sub(Q, r, FromSigned(p.1))
  {
    var p := Power2Round(r);
    var x := p.0 * 8192;
    ModOf(Q, if p.1 < 0 then -1 else 0, x);
  }

  /** t1 2^d = t - t0 */
  lemma ShiftedHighPart(t: seq<int>)
    requires IsPoly(t)
    ensures IsPoly(Shifted(HighPart(t))) && Shifted(HighPart(t)) == PSub(Q, t, LowPart(t))
  {
    forall i | 0 <= i < N
      ensures 0 <= HighPart(t)[i] * 8192 < Q && HighPart(t)[i] * 8192 == Sub(Q, t[i], LowPart(t)[i])
    {
      SplitCoefficient(t[i]);
    }
  }

  /** (x + a) - ((a + b) - c) = (x - b) + c */
  lemma Cancel(x: int, a: int, b: int, c: int)
    ensures Sub(Q, Add(Q, x, a), Sub(Q, Add(Q, a, b), c)) == Add(Q, Sub(Q, x, b), c)
  {
    SubMod(Q, a + b, c);
    SubMod(Q, x + a, a + b - c);
    AddMod(Q, x - b, c);
    SameSum(Q, (x + a) - (a + b - c), (x - b) + c);
  }

  lemma CancelPoly(x: seq<int>, a: seq<int>, b: seq<int>, c: seq<int>)
    requires |x| == |a| == |b| == |c| == N
    ensures PSub(Q, PAdd(Q, x, a), PSub(Q, PAdd(Q, a, b), c)) == PAdd(Q, PSub(Q, x, b), c)
  {
    hide Add, Sub;
    var l, r := PSub(Q, PAdd(Q, x, a), PSub(Q, PAdd(Q, a, b), c)), PAdd(Q, PSub(Q, x, b), c);
    forall i | 0 <= i < N
      ensures l[i] == r[i]
    {
      Cancel(x[i], a[i], b[i], c[i]);
    }
    assert l == r;
  }

  /** One row of t. */
  function TRow(row: seq<seq<int>>, s1: seq<seq<int>>, s2: seq<int>, p: ParameterSet): (t: seq<int>)
    requires IsVec(row, p.l) && IsVec(s1, p.l) && IsPoly(s2)
    ensures IsPoly(t)
  {
    PAdd(Q, RowProduct(row, s1, p), s2)
  }

  /** On transforms: A z - c (t - t0) = A y - c s2 + c t0, when z = y + c s1 and t = A s1 + s2. */
  lemma RowIdentity(row: seq<seq<int>>, y: seq<seq<int>>, c: seq<int>, s1: seq<seq<int>>, s2: seq<int>, p: ParameterSet)
    requires IsVec(row, p.l) && IsVec(y, p.l) && IsPoly(c) && IsVec(s1, p.l) && IsPoly(s2)
    ensures var t := TRow(row, s1, s2, p);
      IsPoly(Shifted(HighPart(t))) &&
      ApproxRow(row, AddVec(y, TimesVec(c, s1)), c, HighPart(t), p)
         == PAdd(Q, PSub(Q, RowProduct(row, y, p), RingProduct(c, s2)), RingProduct(c, LowPart(t)))
  {
    var t := TRow(row, s1, s2, p);
    ShiftedHighPart(t);
    hide Pointwise, Forward, Inverse, PAdd, PSub, RowTimes, HighPart, LowPart, Shifted;
    IsDsaDomain();
    var cHat, t0 := Forward(DSA, c), LowPart(t);
    var ry, rs := RowTimes(row, NttVec(y), p.l), RowTimes(row, NttVec(s1), p.l);
    TransformOfResponse(y, c, s1);
    RowAdd(row, NttVec(y), ScaleVec(cHat, NttVec(s1)), p.l);
    RowScaled(row, cHat, NttVec(s1), p.l);
    ForwardSub(DSA, t, t0);
    ForwardAdd(DSA, Inverse(DSA, rs), s2);
    ForwardOfInverse(DSA, rs);
    var a, b, d := Pointwise(DSA, cHat, rs), Pointwise(DSA, cHat, Forward(DSA, s2)),
      Pointwise(DSA, cHat, Forward(DSA, t0));
    PointwiseSub(cHat, PAdd(Q, rs, Forward(DSA, s2)), Forward(DSA, t0));
    PointwiseAdd(cHat, rs, Forward(DSA, s2));
    CancelPoly(ry, a, b, d);
    InverseAdd(DSA, PSub(Q, ry, b), d);
    InverseSub(DSA, ry, b);
  }

  // ----- one coefficient of the commitment -----

  lemma SubThenAdd(w: int, x: int)
    requires 0 <= w < Q && 0 <= x < Q
    ensures AddQ(SubQ(w, x), x) == w
  {
    hide AddQ, SubQ;
    AddMod(Q, w - x, x);
    ModCanon(Q, w);
  }

  lemma AddThenSub(u: int, x: int)
    requires 0 <= u < Q && 0 <= x < Q
    ensures AddQ(AddQ(u, x), SubQ(0, x)) == u
    ensures CenteredAbs(SubQ(0, x)) == CenteredAbs(x)
  {
    AddMod(Q, u + x, 0 - x);
    ModCanon(Q, u);
    ModOf(Q, if x == 0 then 0 else -1, if x == 0 then 0 else Q - x);
    hide AddQ;
  }

  lemma SizeIsCenteredAbs(a: int)
    requires 0 <= a < Q
    ensures Size(Q, a) == CenteredAbs(a)
  {
  }

  lemma CenteredOfSigned(v: int, gamma2: int)
    requires IsGamma2(gamma2) && -gamma2 <= v <= gamma2
    ensures CenteredAbs(FromSigned(v)) == if v < 0 then -v else v
  {
  }

  /** From u + c t0 and the hint, verification recovers the high bits of u = w - c s2. */
  lemma CommitmentCoefficient(u: int, ct0: int, gamma2: int)
    requires 0 <= u < Q && 0 <= ct0 < Q && IsGamma2(gamma2) && CenteredAbs(ct0) <= gamma2
    ensures UseHint(MakeHint(SubQ(0, ct0), AddQ(u, ct0), gamma2), AddQ(u, ct0), gamma2) == HighBits(u, gamma2)
  {
    hide AddQ, SubQ, CenteredAbs, HighBits, UseHint, MakeHint;
    AddThenSub(u, ct0);
    HintRecoversHighBits(SubQ(0, ct0), AddQ(u, ct0), gamma2);
  }

  /** If c s2 is small and the low bits of w - c s2 are in bound, those are the high bits of w. */
  lemma HighBitsKept(w: int, cs2: int, beta: int, gamma2: int)
    requires 0 <= w < Q && 0 <= cs2 < Q && IsGamma2(gamma2) && 0 <= beta && CenteredAbs(cs2) <= beta
    requires CenteredAbs(FromSigned(LowBits(SubQ(w, cs2), gamma2))) < gamma2 - beta
    ensures HighBits(SubQ(w, cs2), gamma2) == HighBits(w, gamma2)
  {
    hide AddQ, SubQ, CenteredAbs, LowBits, HighBits, FromSigned;
    var u := SubQ(w, cs2);
    CenteredOfSigned(LowBits(u, gamma2), gamma2);
    SubThenAdd(w, cs2);
    SmallChangeKeepsHighBits(u, cs2, beta, gamma2);
  }

  // ----- the whole signature -----

  /** c s2 is small: at most beta = tau eta. */
  lemma ChallengeTimesSecret(h: Hashes, p: ParameterSet, cTilde: seq<Byte>, s2: seq<int>)
    requires IsParameterSet(p) && SamplersEnd(h, p) && |cTilde| == CommitmentLen(p)
    requires IsPoly(s2) && Bounded(Q, s2, p.eta)
    ensures var x := RingProduct(Challenge(h, p, cTilde), s2);
      forall i :: 0 <= i < N ==> CenteredAbs(x[i]) <= Beta(p)
  {
    IsDsaDomain();
    var s := h.shake256(cTilde);
    var c := Challenge(h, p, cTilde);
    Convolution(DSA, c, s2);
    MinusOne(Q);
    ChallengeProduct(s, p.tau, s2, p.eta);
    var x := Times(Q, Q - 1, c, s2);
    hide Times, Pointwise, Forward, Inverse;
    forall i | 0 <= i < N
      ensures CenteredAbs(x[i]) <= Beta(p)
    {
      CanonAt(Q, x, i);
      SizeIsCenteredAbs(x[i]);
    }
  }

  lemma SmallDifference(b: int, a: int)
    requires 0 <= b < 10 && Canon(Q, a) && Size(Q, a) <= b
    ensures 0 <= SubQ(b, a) <= 2 * b
  {
  }

  lemma SmallFits(f: seq<int>, p: ParameterSet)
    requires IsParameterSet(p) && IsPoly(f) && Bounded(Q, f, p.eta)
    ensures P.FitsBelow(p.eta, f, EtaBits(p))
  {
    assert Pow2(2) == 4;
    assert Pow2(3) == 8 && Pow2(4) == 16;
    forall i | 0 <= i < N
      ensures 0 <= P.Below(p.eta, f)[i] <= 2 * p.eta
    {
      SmallDifference(p.eta, f[i]);
    }
  }

  lemma Pow2Thirteen()
    ensures Pow2(13) == 8192
  {
    Pow2Byte();
    Pow2Add(8, 5);
    assert Pow2(3) == 8 && Pow2(5) == 32;
  }

  lemma LowDifference(r: int)
    requires 0 <= r < Q
    ensures 0 <= SubQ(4096, FromSigned(Power2Round(r).1)) < 8192
  {
  }

  lemma LowPartsFit(h: Hashes, p: ParameterSet, xi: seq<Byte>)
    requires IsParameterSet(p) && SamplersEnd(h, p)
    ensures var e := SecretOf(h, p, xi);
      VecFits(e.t0, 4096, D) && e.t0 == PublicOf(h, p, e.rho, e.s1, e.s2).1
  {
    hide SamplersEnd;
    var e := SecretOf(h, p, xi);
    var t := T(ExpandA(h, e.rho, p), e.s1, e.s2, p);
    assert e.t0 == T0Of(t);
    hide SecretOf, PublicOf, T;
    Pow2Thirteen();
    forall r | 0 <= r < p.k
      ensures P.FitsBelow(4096, e.t0[r], D)
    {
      forall i | 0 <= i < N
        ensures 0 <= P.Below(4096, LowPart(t[r]))[i] < 8192
      {
        LowDifference(t[r][i]);
      }
    }
  }

  /** The secrets of a generated key are small, so they survive encoding, and its parts agree. */
  lemma GeneratedSecrets(h: Hashes, p: ParameterSet, xi: seq<Byte>)
    requires IsParameterSet(p) && SamplersEnd(h, p)
    ensures var e := SecretOf(h, p, xi);
      SmallS2(e, p) && SecretFits(e, p) && Consistent(h, p, e)
  {
    hide SamplersEnd, PublicOf;
    var e := SecretOf(h, p, xi);
    var rhoPrime := H(h, xi + [p.k, p.l], 128)[32..96];
    assert e.s1 == ExpandS(h, rhoPrime, p, 0, p.l) && e.s2 == ExpandS(h, rhoPrime, p, p.l, p.k);
    hide SecretOf, SecretPoly;
    var s := e.s1 + e.s2;
    forall i | 0 <= i < |s|
      ensures P.FitsBelow(p.eta, s[i], EtaBits(p))
    {
      if i < p.l {
        SmallFits(s[i], p);
      } else {
        assert s[i] == e.s2[i - p.l];
        SmallFits(s[i], p);
      }
    }
    LowPartsFit(h, p, xi);
  }

  lemma ResponseDifference(a: int, gamma1: int)
    requires 0 <= a < Q && 0 < gamma1 <= 0x8_0000 && CenteredAbs(a) < gamma1
    ensures 0 <= SubQ(gamma1, a) < 2 * gamma1
  {
  }

  lemma ZRange(p: ParameterSet)
    requires IsParameterSet(p)
    ensures Pow2(ZBits(p)) == 2 * p.gamma1
  {
    Pow2Byte();
    Pow2Add(8, 8);
    Pow2Add(16, 2);
    Pow2Add(16, 4);
    assert Pow2(2) == 4 && Pow2(4) == 16;
  }

  /** A response within its bound fits its encoding. */
  lemma ResponseFits(z: seq<seq<int>>, zBound: int, p: ParameterSet)
    requires IsParameterSet(p) && IsVec(z, p.l) && zBound <= p.gamma1 && VecBelow(z, zBound)
    ensures VecFits(z, p.gamma1, ZBits(p))
  {
    ZRange(p);
    forall s | 0 <= s < p.l
      ensures P.FitsBelow(p.gamma1, z[s], ZBits(p))
    {
      forall i | 0 <= i < N
        ensures 0 <= P.Below(p.gamma1, z[s])[i] < 2 * p.gamma1
      {
        ResponseDifference(z[s][i], p.gamma1);
      }
    }
  }

  lemma ReleasedFits(t: Attempt, p: ParameterSet, zBound: int)
    requires IsParameterSet(p) && IsAttempt(t, p) && zBound <= p.gamma1 && Releasable(t, p, zBound)
    ensures SignatureFits(SignatureOf(t), p)
  {
    ResponseFits(t.z, zBound, p);
  }

  /** What one attempt computes for row r. */
  lemma AttemptRow(h: Hashes, p: ParameterSet, e: SecretKey, mu: seq<Byte>, rhoPP: seq<Byte>, kappa: nat, r: nat)
    requires IsParameterSet(p) && SamplersEnd(h, p) && IsSecretKey(e, p) && r < p.k
    ensures var t := AttemptOf(h, p, e, mu, rhoPP, kappa);
      var row := RowOfA(h, e.rho, p, r);
      && t.c == Challenge(h, p, t.cTilde) && t.z == AddVec(t.y, TimesVec(t.c, e.s1))
      && t.w[r] == RowProduct(row, t.y, p)
      && t.cs2[r] == RingProduct(t.c, e.s2[r])
      && t.ct0[r] == RingProduct(t.c, e.t0[r])
      && t.r0[r] == LowPoly(t.w[r], t.cs2[r], p.gamma2)
      && t.hint[r] == HintPoly(t.w[r], t.cs2[r], t.ct0[r], p.gamma2)
  {
    hide SamplersEnd, IsPoly, RowOfA, LowPoly, HintPoly, Challenge, Commitment, HighVec, ExpandMask, AddVec,
         RowProduct, RingProduct;
  }

  /** What the public key of a consistent private key holds for row r. */
  lemma KeyRow(h: Hashes, p: ParameterSet, e: SecretKey, r: nat)
    requires IsParameterSet(p) && SamplersEnd(h, p) && IsSecretKey(e, p) && Consistent(h, p, e) && r < p.k
    ensures var pk := OwnPublicKey(h, p, e);
      var t := TRow(RowOfA(h, e.rho, p, r), e.s1, e.s2[r], p);
      && PkRho(pk) == e.rho && PkT1(pk, p.k)[r] == HighPart(t) && e.t0[r] == LowPart(t)
  {
    hide SamplersEnd, IsPoly, RowOfA, PkBytes, PkT1, PkRho, HighPart, LowPart, RowProduct;
    var t := T(ExpandA(h, e.rho, p), e.s1, e.s2, p);
    PkRoundTrip(e.rho, T1Of(t), p.k);
  }

  /** w - c s2 */
  function SubVec(w: seq<seq<int>>, cs2: seq<seq<int>>): (u: seq<seq<int>>)
    requires IsVec(w, |w|) && IsVec(cs2, |w|)
    ensures IsVec(u, |w|)
  {
    seq(|w|, r requires 0 <= r < |w| => PSub(Q, w[r], cs2[r]))
  }

  /** The vector whose high bits verification recovers from an attempt. */
  function Recoverable(t: Attempt, p: ParameterSet): (u: seq<seq<int>>)
    requires IsParameterSet(p) && IsAttempt(t, p)
    ensures IsVec(u, p.k)
  {
    hide IsPoly, Hint.IsHint;
    VecSize(t.w, p.k);
    SubVec(t.w, t.cs2)
  }

  /** CommitmentCoefficient for a whole polynomial. */
  lemma CommitmentRow(w: seq<int>, cs2: seq<int>, ct0: seq<int>, p: ParameterSet)
    requires IsParameterSet(p) && IsPoly(w) && IsPoly(cs2) && IsPoly(ct0)
    requires forall i :: 0 <= i < N ==> CenteredAbs(ct0[i]) < p.gamma2
    ensures UseHintPoly(HintPoly(w, cs2, ct0, p.gamma2), PAdd(Q, PSub(Q, w, cs2), ct0), p.gamma2)
         == HighPoly(PSub(Q, w, cs2), p.gamma2)
  {
    hide CenteredAbs, HighBits, UseHint, MakeHint;
    var u := PSub(Q, w, cs2);
    var a := PAdd(Q, u, ct0);
    var l := UseHintPoly(HintPoly(w, cs2, ct0, p.gamma2), a, p.gamma2);
    forall i | 0 <= i < N
      ensures l[i] == HighPoly(u, p.gamma2)[i]
    {
      assert u[i] == SubQ(w[i], cs2[i]) && a[i] == AddQ(u[i], ct0[i]);
      CommitmentCoefficient(u[i], ct0[i], p.gamma2);
    }
    assert l == HighPoly(u, p.gamma2);
  }

  /** Row r of what verification recovers: the high bits of w - c s2, for every key whose parts agree. */
  lemma RecoveredRowIs(h: Hashes, p: ParameterSet, e: SecretKey, mu: seq<Byte>, rhoPP: seq<Byte>, kappa: nat, r: nat)
    requires IsParameterSet(p) && SamplersEnd(h, p) && IsSecretKey(e, p) && Consistent(h, p, e) && r < p.k
    requires VecBelow(AttemptOf(h, p, e, mu, rhoPP, kappa).ct0, p.gamma2)
    ensures var t := AttemptOf(h, p, e, mu, rhoPP, kappa);
      RecoveredRow(h, p, OwnPublicKey(h, p, e), SignatureOf(t), r) == HighPoly(PSub(Q, t.w[r], t.cs2[r]), p.gamma2)
  {
    hide SamplersEnd, IsPoly, RowOfA, OwnPublicKey, Consistent, AttemptOf, LowPoly, HintPoly, HighPart, LowPart,
         RowProduct, RingProduct, Shifted, Challenge, ApproxRow, UseHintPoly, HighPoly, PkT1, PkRho, TimesVec, AddVec,
         TRow;
    var t := AttemptOf(h, p, e, mu, rhoPP, kappa);
    var row := RowOfA(h, e.rho, p, r);
    AttemptRow(h, p, e, mu, rhoPP, kappa, r);
    KeyRow(h, p, e, r);
    RowIdentity(row, t.y, t.c, e.s1, e.s2[r], p);
    CommitmentRow(t.w[r], t.cs2[r], t.ct0[r], p);
  }

  /** The whole of it: w'_1 = HighBits(w - c s2). */
  lemma RecoveredIs(h: Hashes, p: ParameterSet, e: SecretKey, mu: seq<Byte>, rhoPP: seq<Byte>, kappa: nat)
    requires IsParameterSet(p) && SamplersEnd(h, p) && IsSecretKey(e, p) && Consistent(h, p, e)
    requires VecBelow(AttemptOf(h, p, e, mu, rhoPP, kappa).ct0, p.gamma2)
    ensures var t := AttemptOf(h, p, e, mu, rhoPP, kappa);
      RecoveredW1(h, p, OwnPublicKey(h, p, e), SignatureOf(t)) == HighVec(Recoverable(t, p), p)
  {
    hide SamplersEnd, IsPoly, Consistent, OwnPublicKey, AttemptOf, RecoveredRow, HighPoly, VecBelow, PSub;
    var t := AttemptOf(h, p, e, mu, rhoPP, kappa);
    var l := RecoveredW1(h, p, OwnPublicKey(h, p, e), SignatureOf(t));
    forall r | 0 <= r < p.k
      ensures l[r] == HighVec(Recoverable(t, p), p)[r]
    {
      RecoveredRowIs(h, p, e, mu, rhoPP, kappa, r);
    }
    assert l == HighVec(Recoverable(t, p), p);
  }

  /** The commitments to the high bits of w and of w - c s2 are the same. */
  ghost predicate CommitmentKept(h: Hashes, p: ParameterSet, mu: seq<Byte>, t: Attempt)
    requires IsParameterSet(p) && IsAttempt(t, p)
  {
    Commitment(h, p, mu, HighVec(Recoverable(t, p), p)) == Commitment(h, p, mu, HighVec(t.w, p))
  }

  lemma CommitmentOfAttempt(h: Hashes, p: ParameterSet, e: SecretKey, mu: seq<Byte>, rhoPP: seq<Byte>, kappa: nat)
    requires IsParameterSet(p) && SamplersEnd(h, p) && IsSecretKey(e, p)
    ensures var t := AttemptOf(h, p, e, mu, rhoPP, kappa); t.cTilde == Commitment(h, p, mu, HighVec(t.w, p))
  {
    hide SamplersEnd, IsPoly, Challenge, Commitment, HighVec, ExpandMask, AddVec, TimesVec, MatrixTimes, ExpandA,
         LowVec, HintVec;
  }

  lemma AttemptResponse(h: Hashes, p: ParameterSet, e: SecretKey, mu: seq<Byte>, rhoPP: seq<Byte>, kappa: nat)
    requires IsParameterSet(p) && SamplersEnd(h, p) && IsSecretKey(e, p)
    ensures IsVec(AttemptOf(h, p, e, mu, rhoPP, kappa).z, p.l)
  {
    hide SamplersEnd, AttemptOf;
  }

  /** ||z|| < gamma1 - tau eta, the bound that verification puts on every coefficient of the response. */
  ghost predicate ResponseInBound(z: seq<seq<int>>, p: ParameterSet)
    requires IsVec(z, p.l)
  {
    forall i, j :: 0 <= i < p.l && 0 <= j < N ==> CenteredAbs(z[i][j]) < p.gamma1 - p.tau * p.eta
  }

  lemma InBoundIs(z: seq<seq<int>>, p: ParameterSet)
    requires IsVec(z, p.l)
    ensures ResponseInBound(z, p) <==> VecBelow(z, p.gamma1 - Beta(p))
  {
    hide CenteredAbs;
    VecSize(z, p.l);
  }

  /** An attempt released with any bound on its response verifies, under the public key of any key whose parts
      agree, if and only if its response keeps the bound of verification and its commitment is kept. */
  lemma ReleasedVerifies(h: Hashes, p: ParameterSet, e: SecretKey, mu: seq<Byte>, rhoPP: seq<Byte>, kappa: nat,
                         zBound: int)
    requires IsParameterSet(p) && SamplersEnd(h, p) && IsSecretKey(e, p) && Consistent(h, p, e) && zBound <= p.gamma1
    requires Releasable(AttemptOf(h, p, e, mu, rhoPP, kappa), p, zBound)
    ensures var t := AttemptOf(h, p, e, mu, rhoPP, kappa);
      && SignatureFits(SignatureOf(t), p)
      && (Verifies(h, p, OwnPublicKey(h, p, e), mu, SigBytes(SignatureOf(t), p))
          <==> ResponseInBound(t.z, p) && CommitmentKept(h, p, mu, t))
  {
    hide SamplersEnd, Consistent, OwnPublicKey, AttemptOf, RecoveredW1, HighVec, SigBytes, SigParts, SigAccepted,
         Commitment, VecBelow, ResponseInBound, Beta, Recoverable, IsAttempt;
    var t := AttemptOf(h, p, e, mu, rhoPP, kappa);
    Sizes(p);
    ReleasedFits(t, p, zBound);
    SigRoundTrip(SignatureOf(t), p);
    RecoveredIs(h, p, e, mu, rhoPP, kappa);
    CommitmentOfAttempt(h, p, e, mu, rhoPP, kappa);
    AttemptResponse(h, p, e, mu, rhoPP, kappa);
    InBoundIs(t.z, p);
  }

  /** What the code releases keeps that bound: it signs with gamma1 - beta. */
  lemma ReleasedInBound(t: Attempt, p: ParameterSet)
    requires IsParameterSet(p) && IsAttempt(t, p) && Releasable(t, p, p.gamma1 - Beta(p))
    ensures ResponseInBound(t.z, p)
  {
    hide VecBelow, ResponseInBound, CenteredAbs;
    InBoundIs(t.z, p);
  }

  /** HighBitsKept for a whole polynomial. */
  lemma HighRowKept(w: seq<int>, cs2: seq<int>, p: ParameterSet)
    requires IsParameterSet(p) && IsPoly(w) && IsPoly(cs2)
    requires forall i :: 0 <= i < N ==> CenteredAbs(cs2[i]) <= Beta(p)
    requires forall i :: 0 <= i < N ==> CenteredAbs(LowPoly(w, cs2, p.gamma2)[i]) < p.gamma2 - Beta(p)
    ensures HighPoly(PSub(Q, w, cs2), p.gamma2) == HighPoly(w, p.gamma2)
  {
    hide CenteredAbs, LowBits, HighBits, FromSigned;
    var u := PSub(Q, w, cs2);
    forall i | 0 <= i < N
      ensures HighPoly(u, p.gamma2)[i] == HighPoly(w, p.gamma2)[i]
    {
      assert u[i] == SubQ(w[i], cs2[i]);
      assert LowPoly(w, cs2, p.gamma2)[i] == FromSigned(LowBits(SubQ(w[i], cs2[i]), p.gamma2));
      HighBitsKept(w[i], cs2[i], Beta(p), p.gamma2);
    }
    assert HighPoly(u, p.gamma2) == HighPoly(w, p.gamma2);
  }

  /** It is kept when s2 is in the range key generation draws it from. */
  lemma SmallSecretKeeps(h: Hashes, p: ParameterSet, e: SecretKey, mu: seq<Byte>, rhoPP: seq<Byte>, kappa: nat,
                         zBound: int)
    requires IsParameterSet(p) && SamplersEnd(h, p) && IsSecretKey(e, p) && SmallS2(e, p)
    requires Releasable(AttemptOf(h, p, e, mu, rhoPP, kappa), p, zBound)
    ensures CommitmentKept(h, p, mu, AttemptOf(h, p, e, mu, rhoPP, kappa))
  {
    hide SamplersEnd, Valid, AttemptOf, HighPoly, Commitment, RingProduct, RowProduct, RowOfA, LowPoly, HintPoly,
         Challenge, AddVec, TimesVec, PSub, CenteredAbs, Bounded, Beta;
    var t := AttemptOf(h, p, e, mu, rhoPP, kappa);
    forall r | 0 <= r < p.k
      ensures HighPoly(PSub(Q, t.w[r], t.cs2[r]), p.gamma2) == HighPoly(t.w[r], p.gamma2)
    {
      AttemptRow(h, p, e, mu, rhoPP, kappa, r);
      ChallengeTimesSecret(h, p, t.cTilde, e.s2[r]);
      HighRowKept(t.w[r], t.cs2[r], p);
    }
    assert HighVec(Recoverable(t, p), p) == HighVec(t.w, p);
  }

  /** FIPS 204 sections 6.1 to 6.3: for every parameter set, seed, mu and rnd, an attempt that is
      released under the generated private key verifies under the generated public key. */
  lemma Completeness(h: Hashes, p: ParameterSet, xi: seq<Byte>, mu: seq<Byte>, rnd: seq<Byte>, kappa: nat)
    requires IsParameterSet(p) && SamplersEnd(h, p)
    requires var e := SecretOf(h, p, xi);
      Releasable(AttemptOf(h, p, e, mu, RhoPP(h, e, rnd, mu), kappa), p, p.gamma1 - Beta(p))
    ensures var e := SecretOf(h, p, xi);
      var t := AttemptOf(h, p, e, mu, RhoPP(h, e, rnd, mu), kappa);
      SignatureFits(SignatureOf(t), p) && Verifies(h, p, PublicKeyOf(h, p, xi), mu, SigBytes(SignatureOf(t), p))
  {
    hide SamplersEnd, SecretOf, AttemptOf, RhoPP, Verifies, Releasable, Consistent, SmallS2, OwnPublicKey, SigBytes,
         SignatureFits, CommitmentKept, ResponseInBound, Beta;
    GeneratedSecrets(h, p, xi);
    var e := SecretOf(h, p, xi);
    Sizes(p);
    ReleasedVerifies(h, p, e, mu, RhoPP(h, e, rnd, mu), kappa, p.gamma1 - Beta(p));
    ReleasedInBound(AttemptOf(h, p, e, mu, RhoPP(h, e, rnd, mu), kappa), p);
    SmallSecretKeeps(h, p, e, mu, RhoPP(h, e, rnd, mu), kappa, p.gamma1 - Beta(p));
  }
}
