/** Signing and verification: sign_given_mu and verify_given_mu of macula-mldsa/src/internal.rs. */
module MlDsaSign {
  import opened Machine
  import opened Modular
  import opened Polynomials
  import opened Transform
  import opened MlDsaArith
  import opened MlDsaParams
  import opened MlDsaNtt
  import opened MlDsaCodec
  import opened MlDsaScheme
  import opened MlDsaCompleteness
  import opened MlDsaSigning
  import opened MlDsaInternal
  import Hint = MlDsaHint

  // ----- the loops over coefficients -----

  method HighRow(w: seq<int>, gamma2: int) returns (r: seq<int>)
    requires IsPoly(w) && IsGamma2(gamma2)
    ensures r == HighPoly(w, gamma2)
  {
    hide HighBits;
    r := [];
    for i := 0 to N
      invariant |r| == i && forall j :: 0 <= j < i ==> r[j] == HighBits(w[j], gamma2)
    {
      r := r + [HighBits(w[i], gamma2)];
    }
  }

  method AddRow(y: seq<int>, cs1: seq<int>) returns (z: seq<int>)
    requires IsPoly(y) && IsPoly(cs1)
    ensures z == PAdd(Q, y, cs1)
  {
    hide AddQ, Add;
    z := [];
    for i := 0 to N
      invariant |z| == i && forall j :: 0 <= j < i ==> z[j] == AddQ(y[j], cs1[j])
    {
      z := z + [AddQ(y[i], cs1[i])];
    }
  }

  method LowRow(w: seq<int>, cs2: seq<int>, gamma2: int) returns (r: seq<int>)
    requires IsPoly(w) && IsPoly(cs2) && IsGamma2(gamma2)
    ensures r == LowPoly(w, cs2, gamma2)
  {
    hide FromSigned, LowBits, SubQ;
    r := [];
    for i := 0 to N
      invariant |r| == i && forall j :: 0 <= j < i ==> r[j] == FromSigned(LowBits(SubQ(w[j], cs2[j]), gamma2))
    {
      r := r + [FromSigned(LowBits(SubQ(w[i], cs2[i]), gamma2))];
    }
  }

  /** One row of the hint and its number of ones. */
  method HintRow(w: seq<int>, cs2: seq<int>, ct0: seq<int>, gamma2: int) returns (hint: seq<int>, ones: nat)
    requires IsPoly(w) && IsPoly(cs2) && IsPoly(ct0) && IsGamma2(gamma2)
    ensures hint == HintPoly(w, cs2, ct0, gamma2) && ones == |Hint.Ones(hint, N)|
  {
    hide MakeHint, SubQ, AddQ, Hint.Ones;
    hint, ones := [], 0;
    ghost var all := HintPoly(w, cs2, ct0, gamma2);
    Hint.OnesNone(all);
    for i := 0 to N
      invariant hint == all[..i] && ones == |Hint.Ones(all, i)|
    {
      var minusCt0 := SubQ(0, ct0[i]);
      var base := AddQ(SubQ(w[i], cs2[i]), ct0[i]);
      var bit := MakeHint(minusCt0, base, gamma2);
      assert bit == all[i];
      hint := hint + [bit];
      Hint.OnesNext(all, i);
      ones := ones + bit;
    }
    assert hint == all;
  }

  // ----- the parts of one attempt -----

  /** w = NTT^-1(A NTT(y)) and its high bits. */
  method Commit(aHat: seq<seq<seq<int>>>, y: seq<seq<int>>, p: ParameterSet)
    returns (w: seq<seq<int>>, w1: seq<seq<int>>)
    requires IsParameterSet(p) && IsMatrix(aHat, p) && IsVec(y, p.l)
    ensures w == MatrixTimes(aHat, y, p) && w1 == HighVec(w, p)
  {
    hide Valid, NttVec, RowTimes, Inverse, HighPoly;
    Sizes(p);
    VecSize(y, p.l);
    var yHat := NttAll(y);
    w, w1 := [], [];
    for r := 0 to p.k
      invariant |w| == |w1| == r
      invariant forall t :: 0 <= t < r ==>
        IsPoly(w[t]) && w[t] == RowProduct(aHat[t], y, p) && w1[t] == HighPoly(w[t], p.gamma2)
    {
      var u := RowOf(aHat[r], yHat, p.l);
      var high := HighRow(u, p.gamma2);
      w := w + [u];
      w1 := w1 + [high];
    }
  }

  /** z = y + c s1 */
  method Respond(y: seq<seq<int>>, ghost c: seq<int>, cHat: seq<int>, ghost s1: seq<seq<int>>, s1Hat: seq<seq<int>>,
                 l: nat)
    returns (z: seq<seq<int>>)
    requires IsVec(y, l) && IsPoly(c) && cHat == Forward(DSA, c) && IsVec(s1, l) && |s1| == l && s1Hat == NttVec(s1)
    ensures z == AddVec(y, TimesVec(c, s1))
  {
    hide Valid, Forward, Inverse, Pointwise, PAdd;
    z := [];
    for s := 0 to l
      invariant |z| == s
      invariant forall t :: 0 <= t < s ==> z[t] == PAdd(Q, y[t], RingProduct(c, s1[t]))
    {
      var cs1 := ProductOf(cHat, s1Hat[s]);
      var sum := AddRow(y[s], cs1);
      z := z + [sum];
    }
  }

  /** c s2 and the low bits of w - c s2. */
  method Reduced(w: seq<seq<int>>, ghost c: seq<int>, cHat: seq<int>, ghost s2: seq<seq<int>>, s2Hat: seq<seq<int>>,
                 p: ParameterSet)
    returns (cs2: seq<seq<int>>, r0: seq<seq<int>>)
    requires IsParameterSet(p) && IsVec(w, p.k) && IsPoly(c) && cHat == Forward(DSA, c)
    requires IsVec(s2, p.k) && |s2| == p.k && s2Hat == NttVec(s2)
    ensures cs2 == TimesVec(c, s2) && IsVec(cs2, p.k) && r0 == LowVec(w, cs2, p)
  {
    hide Valid, Forward, Inverse, Pointwise, LowPoly;
    Sizes(p);
    cs2, r0 := [], [];
    for r := 0 to p.k
      invariant |cs2| == |r0| == r
      invariant forall t :: 0 <= t < r ==>
        IsPoly(cs2[t]) && cs2[t] == RingProduct(c, s2[t]) && r0[t] == LowPoly(w[t], cs2[t], p.gamma2)
    {
      var product := ProductOf(cHat, s2Hat[r]);
      var low := LowRow(w[r], product, p.gamma2);
      cs2 := cs2 + [product];
      r0 := r0 + [low];
    }
  }

  /** c t0, the hint, and its number of ones. */
  method Hints(w: seq<seq<int>>, cs2: seq<seq<int>>, ghost c: seq<int>, cHat: seq<int>, ghost t0: seq<seq<int>>,
               t0Hat: seq<seq<int>>,
               p: ParameterSet)
    returns (ct0: seq<seq<int>>, hint: seq<seq<int>>, ones: nat)
    requires IsParameterSet(p) && IsVec(w, p.k) && IsVec(cs2, p.k) && IsPoly(c) && cHat == Forward(DSA, c)
    requires IsVec(t0, p.k) && |t0| == p.k && t0Hat == NttVec(t0)
    ensures ct0 == TimesVec(c, t0) && IsVec(ct0, p.k) && hint == HintVec(w, cs2, ct0, p)
    ensures ones == |Hint.AllOnes(hint)|
  {
    hide Valid, Forward, Inverse, Pointwise, HintPoly, Hint.IsHint, Hint.IsBits, Hint.AllOnes, Hint.Ones;
    Sizes(p);
    Hint.NoHint();
    ct0, hint, ones := [], [], 0;
    for r := 0 to p.k
      invariant |ct0| == |hint| == r && Hint.IsHint(hint) && ones == |Hint.AllOnes(hint)|
      invariant forall t :: 0 <= t < r ==> IsPoly(ct0[t]) && ct0[t] == RingProduct(c, t0[t])
      invariant forall t :: 0 <= t < r ==> hint[t] == HintPoly(w[t], cs2[t], ct0[t], p.gamma2)
    {
      var product := ProductOf(cHat, t0Hat[r]);
      var row, count := HintRow(w[r], cs2[r], product, p.gamma2);
      ct0 := ct0 + [product];
      Hint.AllOnesSnoc(hint, row);
      hint := hint + [row];
      ones := ones + count;
    }
  }

  // ----- Algorithm 7 -----

  /** One pass of the loop: None where the code goes on to the next attempt. */
  method Attempted(h: Hashes, p: ParameterSet, ghost e: SecretKey, mu: seq<Byte>, rhoPP: seq<Byte>, kappa: nat,
                   zBound: int,
                   aHat: seq<seq<seq<int>>>, s1Hat: seq<seq<int>>, s2Hat: seq<seq<int>>, t0Hat: seq<seq<int>>)
    returns (sig: Option<seq<Byte>>)
    requires IsParameterSet(p) && SamplersEnd(h, p) && IsSecretKey(e, p) && zBound <= p.gamma1
    requires |e.s1| == p.l && |e.s2| == |e.t0| == p.k
    requires aHat == ExpandA(h, e.rho, p) && s1Hat == NttVec(e.s1) && s2Hat == NttVec(e.s2) && t0Hat == NttVec(e.t0)
    ensures var t := AttemptOf(h, p, e, mu, rhoPP, kappa);
      && (sig.Some? <==> Releasable(t, p, zBound))
      && (sig.Some? ==> SignatureFits(SignatureOf(t), p) && sig.value == SigBytes(SignatureOf(t), p))
  {
    hide SamplersEnd, IsPoly, ExpandA, ExpandMask, MatrixTimes, TimesVec, AddVec, LowVec, HintVec, HighVec, NttVec,
         Forward, H, Challenge, VecBelow, SigBytes, SignatureFits, Hint.AllOnes, Hint.IsHint;
    ghost var t := AttemptOf(h, p, e, mu, rhoPP, kappa);
    var y := SampleMask(h, rhoPP, kappa, p);
    var w, w1 := Commit(aHat, y, p);
    var absorbed := W1Encode(w1, p);
    var cTilde := H(h, mu + absorbed, CommitmentLen(p));
    var c := SampleChallenge(h, p, cTilde);
    var cHat := NttOf(c);
    var z := Respond(y, c, cHat, e.s1, s1Hat, p.l);
    var cs2, r0 := Reduced(w, c, cHat, e.s2, s2Hat, p);
    assert t.z == z && t.r0 == r0 && t.cs2 == cs2 && t.c == c && t.cTilde == cTilde && t.w == w;
    var zNorm := Norm(z);
    var r0Norm := Norm(r0);
    if !ZAndR0Releasable(zNorm, r0Norm, zBound, p) {
      return None;
    }
    var ct0, hint, ones := Hints(w, cs2, c, cHat, e.t0, t0Hat, p);
    assert t.ct0 == ct0 && t.hint == hint;
    var ct0Norm := Norm(ct0);
    if !HintReleasable(ct0Norm, ones, p) {
      return None;
    }
    ReleasedFits(t, p, zBound);
    var s := Signature(cTilde, z, hint);
    var bytes := SigEncode(s, p);
    return Some(bytes);
  }

  lemma KappaNext(p: ParameterSet, n: nat)
    ensures Kappa(p, 0) == 0
    ensures (Kappa(p, n) + p.l) % 0x1_0000 == Kappa(p, n + 1)
  {
    CounterIs(p, n, p.l);
    assert (n + 1) * p.l == n * p.l + p.l;
  }

  /** FIPS 204 Algorithm 7 once mu is known. The loop has no bound of its own: it returns exactly when some
      attempt is released, and then it returns the first one that is. */
  method SignGivenMu(h: Hashes, p: ParameterSet, sk: seq<Byte>, mu: seq<Byte>, rnd: seq<Byte>, zBound: int)
    returns (sig: seq<Byte>, attempts: nat)
    requires IsParameterSet(p) && SamplersEnd(h, p) && |sk| == PrivateKeyLen(p) && zBound <= p.gamma1
    requires SigningEnds(Run(h, p, SkParts(sk, p), mu, rnd, zBound))
    ensures var x := Run(h, p, SkParts(sk, p), mu, rnd, zBound);
      sig == Released(x) && attempts == FirstReleased(x) + 1
  {
    hide SamplersEnd, IsPoly, Releasable, SigningEnds, AttemptOf, SkParts, ExpandA, NttVec, H, Kappa, SigBytes;
    var e := SkDecode(sk, p);
    ghost var x := Run(h, p, e, mu, rnd, zBound);
    ghost var last := FirstReleased(x);
    EndsSoon(x);
    VecSizes(e, p);
    var s1Hat := NttAll(e.s1);
    var s2Hat := NttAll(e.s2);
    var t0Hat := NttAll(e.t0);
    var aHat := SampleA(h, e.rho, p);
    var rhoPP := H(h, e.key + rnd + mu, 64);
    var kappa := 0;
    attempts := 0;
    KappaNext(p, 0);
    while true
      invariant attempts <= last && kappa == Kappa(p, attempts)
      decreases last - attempts
    {
      var out := Attempted(h, p, e, mu, rhoPP, kappa, zBound, aHat, s1Hat, s2Hat, t0Hat);
      assert out.Some? <==> ReleasedAt(x, attempts);
      KappaNext(p, attempts);
      kappa := (kappa + p.l) % 0x1_0000;
      attempts := U32(attempts + 1);
      if out.Some? {
        return out.value, attempts;
      }
    }
  }

  // ----- Algorithm 8 -----

  /** Whether some coefficient is as large as bound. */
  method AnyAtLeast(v: seq<seq<int>>, bound: int) returns (found: bool)
    requires IsVec(v, |v|)
    ensures found <==> !VecBelow(v, bound)
  {
    hide CenteredAbs;
    for i := 0 to |v|
      invariant forall k, j :: 0 <= k < i && 0 <= j < N ==> CenteredAbs(v[k][j]) < bound
    {
      for j := 0 to N
        invariant forall t :: 0 <= t < j ==> CenteredAbs(v[i][t]) < bound
      {
        if CenteredAbs(v[i][j]) >= bound {
          return true;
        }
      }
    }
    return false;
  }

  /** t1 2^d, in an i32. */
  method ShiftRow(t1: seq<int>) returns (r: seq<int>)
    requires |t1| == N && forall i :: 0 <= i < N ==> 0 <= t1[i] < 0x400
    ensures r == Shifted(t1) && IsPoly(r)
  {
    r := [];
    for i := 0 to N
      invariant |r| == i && forall j :: 0 <= j < i ==> r[j] == t1[j] * 8192
    {
      r := r + [I32(t1[i] * 8192)];
    }
  }

  method SubtractInPlace(w: array<int>, c: seq<int>)
    requires w.Length == N && IsPoly(w[..]) && IsPoly(c)
    modifies w
    ensures w[..] == PSub(Q, old(w[..]), c) && IsPoly(w[..])
  {
    hide SubQ, Sub;
    for i := 0 to N
      invariant IsPoly(w[..])
      invariant forall j :: 0 <= j < i ==> w[j] == SubQ(old(w[j]), c[j])
      invariant forall j :: i <= j < N ==> w[j] == old(w[j])
    {
      w[i] := SubQ(w[i], c[i]);
    }
  }

  /** One row of w'_Approx. */
  method Approx(row: seq<seq<int>>, ghost z: seq<seq<int>>, zHat: seq<seq<int>>, ghost c: seq<int>, cHat: seq<int>,
                t1: seq<int>, p: ParameterSet)
    returns (w: seq<int>)
    requires IsVec(row, p.l) && IsVec(z, p.l) && |z| == p.l && zHat == NttVec(z) && IsPoly(c) && cHat == Forward(DSA, c)
    requires |t1| == N && (forall i :: 0 <= i < N ==> 0 <= t1[i] < 0x400) && IsPoly(Shifted(t1))
    ensures w == ApproxRow(row, z, c, t1, p)
  {
    hide Valid, Inverse, RowTimes, Pointwise, Forward, Shifted, NttVec, PAdd, SubQ, Sub;
    var a := new int[N];
    AccumulateRow(a, row, zHat, p.l);
    var shifted := ShiftRow(t1);
    var t1Hat := NttOf(shifted);
    var ct1 := new int[N];
    Clear(ct1);
    PointwiseValid(cHat, t1Hat);
    PAddZero(Q, Pointwise(DSA, cHat, t1Hat));
    assert IsPoly(Zero(N)) by { PointwiseZero(cHat); }
    MultiplyAddNtt(ct1, cHat, t1Hat);
    SubtractInPlace(a, ct1[..]);
    NttInverse(a);
    w := a[..];
  }

  method UseHintRow(hint: seq<int>, w: seq<int>, gamma2: int) returns (r: seq<int>)
    requires |hint| == N && IsPoly(w) && IsGamma2(gamma2)
    ensures r == UseHintPoly(hint, w, gamma2)
  {
    hide UseHint;
    r := [];
    for i := 0 to N
      invariant |r| == i && forall j :: 0 <= j < i ==> r[j] == UseHint(hint[j], w[j], gamma2)
    {
      r := r + [UseHint(hint[i], w[i], gamma2)];
    }
  }

  /** The loop over the rows: w'_Approx and the hint give w'_1. */
  method RecoverW1(h: Hashes, p: ParameterSet, pk: seq<Byte>, t1: seq<seq<int>>, s: Signature,
                   aHat: seq<seq<seq<int>>>, cHat: seq<int>)
    returns (w1: seq<seq<int>>)
    requires IsParameterSet(p) && SamplersEnd(h, p) && |pk| == PublicKeyLen(p) && t1 == PkT1(pk, p.k)
    requires |s.cTilde| == CommitmentLen(p) && IsVec(s.z, p.l) && |s.h| == p.k && Hint.IsHint(s.h)
    requires aHat == ExpandA(h, PkRho(pk), p) && cHat == Forward(DSA, Challenge(h, p, s.cTilde))
    ensures w1 == RecoveredW1(h, p, pk, s)
  {
    hide SamplersEnd, IsPoly, RowOfA, Challenge, NttVec, Forward, UseHintPoly, ApproxRow, Shifted, Hint.IsBits, PkT1,
         PkRho;
    Sizes(p);
    VecSize(s.z, p.l);
    var zHat := NttAll(s.z);
    ghost var recovered := RecoveredW1(h, p, pk, s);
    w1 := [];
    Pow2Ten();
    for r := 0 to p.k
      invariant w1 == recovered[..r]
    {
      ShiftedInRange(t1[r]);
      Hint.HintAt(s.h, r);
      var w := Approx(aHat[r], s.z, zHat, Challenge(h, p, s.cTilde), cHat, t1[r], p);
      var row := UseHintRow(s.h[r], w, p.gamma2);
      assert row == recovered[r];
      w1 := w1 + [row];
    }
    assert w1 == recovered;
  }

  /** FIPS 204 Algorithm 8, lines 1 to 13. */
  method VerifyGivenMu(h: Hashes, p: ParameterSet, pk: seq<Byte>, mu: seq<Byte>, sig: seq<Byte>) returns (ok: bool)
    requires IsParameterSet(p) && SamplersEnd(h, p) && |pk| == PublicKeyLen(p) && |sig| == SignatureLen(p)
    ensures ok <==> Verifies(h, p, pk, mu, sig)
  {
    hide SamplersEnd, IsPoly, VecBelow, ExpandA, Challenge, Forward, RecoveredRow, H, SigParts, SigAccepted, PkT1,
         PkRho, Hint.IsHint;
    var rho, t1 := PkDecode(pk, p.k);
    var decoded := SigDecode(sig, p);
    if decoded == None {
      return false;
    }
    var s := decoded.value;
    VecSize(s.z, p.l);
    var tooLarge := AnyAtLeast(s.z, p.gamma1 - Beta(p));
    if tooLarge {
      return false;
    }
    var aHat := SampleA(h, rho, p);
    var c := SampleChallenge(h, p, s.cTilde);
    var cHat := NttOf(c);
    var w1 := RecoverW1(h, p, pk, t1, s, aHat, cHat);
    var absorbed := W1Encode(w1, p);
    ok := H(h, mu + absorbed, CommitmentLen(p)) == s.cTilde;
  }
}
