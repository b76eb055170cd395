/** The hypotheses of completeness can be met together, for every parameter set: there are hash functions for
    which every sampler ends and every run of the signing loop releases its first attempt. */
module MlDsaWitness {
  import opened Machine
  import opened Modular
  import opened Polynomials
  import opened Norms
  import opened Transform
  import opened Streams
  import opened Digits
  import opened Packing
  import opened MlDsaArith
  import opened MlDsaNtt
  import opened MlDsaParams
  import opened MlDsaSample
  import opened MlDsaCodec
  import opened MlDsaScheme
  import opened MlDsaCompleteness
  import opened MlDsaSigning
  import Hint = MlDsaHint

  /** The byte 01010101 for ever. */
  function Fives(): (s: Stream) {
    (i: nat) => 0x55
  }

  function Hash(): (h: Hashes) {
    Hashes(_ => Zeros(), _ => Fives())
  }

  /** What a half-byte 0101 stands for. */
  function Secret(eta: int): (v: int) {
    if eta == 2 then 2 else Q - 1
  }

  lemma HalfIs(p: ParameterSet, i: nat)
    requires IsParameterSet(p)
    ensures HalfCandidates(Fives(), p.eta)(i) == Some(Secret(p.eta))
  {
    assert Fives()(i / 2) == 0x55;
    assert 0x55 % 16 == 5 && 0x55 / 16 == 5;
    assert HalfByte(5, p.eta) == Some(Secret(p.eta));
  }

  lemma FivesYield(p: ParameterSet)
    requires IsParameterSet(p)
    ensures Yields(HalfCandidates(Fives(), p.eta), N)
  {
    forall i: nat
      ensures HalfCandidates(Fives(), p.eta)(i).Some?
    {
      HalfIs(p, i);
    }
    NothingRefused(HalfCandidates(Fives(), p.eta), N);
  }

  lemma {:induction false} FivesEnd(pos: nat, i: nat)
    requires i >= 0x55
    ensures BallEnds(Fives(), pos, i)
    decreases N - i
  {
    if i >= N {
    } else {
      assert Fives()(pos) <= i;
      FivesEnd(Next(Fives(), pos, i) + 1, i + 1);
    }
  }

  lemma SamplersDoEnd(p: ParameterSet)
    requires IsParameterSet(p)
    ensures SamplersEnd(Hash(), p)
  {
    hide Yields, BallEnds;
    ZerosYield(p);
    FivesYield(p);
    FivesEnd(8, N - p.tau);
  }

  // ----- the key -----

  lemma MatrixIsZero(p: ParameterSet, rho: seq<Byte>, r: nat, s: nat)
    requires IsParameterSet(p) && SamplersEnd(Hash(), p) && |rho| == 32 && r < p.k && s < p.l
    ensures EntryOfA(Hash(), rho, p, r, s) == Zero(N)
  {
    var f := EntryOfA(Hash(), rho, p, r, s);
    ZerosYield(p);
    forall i | 0 <= i < N
      ensures f[i] == 0
    {
      var t := FirstAcceptedIn(NttCandidates(Zeros()), N, i);
      assert Zeros()(3 * t) == Zeros()(3 * t + 1) == Zeros()(3 * t + 2) == 0;
    }
    assert f == Zero(N);
  }

  lemma ZeroPointwise(v: seq<int>)
    requires IsPoly(v)
    ensures IsPoly(Zero(N)) && Pointwise(DSA, Zero(N), v) == Zero(N)
  {
    hide Pointwise, Mul;
    PointwiseAt(Zero(N), v);
    var l := Pointwise(DSA, Zero(N), v);
    forall i | 0 <= i < N
      ensures l[i] == 0
    {
      MulComm(Q, 0, v[i]);
      MulZero(Q, v[i]);
    }
    assert l == Zero(N);
  }

  lemma {:induction false} ZeroRow(row: seq<seq<int>>, v: seq<seq<int>>, n: nat)
    requires IsVec(row, |row|) && IsVec(v, |v|) && n <= |row| && n <= |v|
    requires forall s :: 0 <= s < |row| ==> row[s] == Zero(N)
    ensures RowTimes(row, v, n) == Zero(N)
  {
    hide Pointwise, PAdd;
    if n == 0 {
    } else {
      ZeroRow(row, v, n - 1);
      ZeroPointwise(v[n - 1]);
      AddZeros(Q, N);
    }
  }

  lemma InverseZero()
    ensures Inverse(DSA, Zero(N)) == Zero(N)
  {
    hide Inverse;
    IsDsaDomain();
    var z := Inverse(DSA, Zero(N));
    AddZeros(Q, N);
    InverseAdd(DSA, Zero(N), Zero(N));
    forall i | 0 <= i < N
      ensures z[i] == 0
    {
      assert z[i] == Add(Q, z[i], z[i]) && Canon(Q, z[i]);
    }
    assert z == Zero(N);
  }

  /** Every row of A v is zero. */
  lemma RowIsZero(p: ParameterSet, rho: seq<Byte>, r: nat, v: seq<seq<int>>)
    requires IsParameterSet(p) && SamplersEnd(Hash(), p) && |rho| == 32 && r < p.k && IsVec(v, p.l)
    ensures RowProduct(RowOfA(Hash(), rho, p, r), v, p) == Zero(N)
  {
    hide SamplersEnd, EntryOfA, NttVec, Inverse, RowTimes;
    var row := RowOfA(Hash(), rho, p, r);
    forall s | 0 <= s < p.l
      ensures row[s] == Zero(N)
    {
      MatrixIsZero(p, rho, r, s);
    }
    VecSize(v, p.l);
    ZeroRow(row, NttVec(v), p.l);
    InverseZero();
  }

  lemma SecretIs(p: ParameterSet, rhoPrime: seq<Byte>, first: nat, i: nat)
    requires IsParameterSet(p) && SamplersEnd(Hash(), p) && |rhoPrime| == 64 && first + i < 256
    ensures forall j :: 0 <= j < N ==> SecretPoly(Hash(), rhoPrime, p, first, i)[j] == Secret(p.eta)
  {
    hide SamplersEnd;
    FivesYield(p);
    var f := SecretPoly(Hash(), rhoPrime, p, first, i);
    forall j | 0 <= j < N
      ensures f[j] == Secret(p.eta)
    {
      var t := FirstAcceptedIn(HalfCandidates(Fives(), p.eta), N, j);
      HalfIs(p, t);
    }
  }

  lemma LowOfSecret(p: ParameterSet)
    requires IsParameterSet(p)
    ensures var v := FromSigned(Power2Round(Secret(p.eta)).1); Canon(Q, v) && Size(Q, v) <= p.eta
  {
  }

  lemma LowIsSmall(p: ParameterSet, e: SecretKey, r: nat)
    requires IsParameterSet(p) && SamplersEnd(Hash(), p) && IsSecretKey(e, p) && r < p.k
    requires e.t0 == PublicOf(Hash(), p, e.rho, e.s1, e.s2).1
    requires forall j :: 0 <= j < N ==> e.s2[r][j] == Secret(p.eta)
    ensures Bounded(Q, e.t0[r], p.eta)
  {
    hide SamplersEnd, RowOfA, RowProduct, PkBytes, HighPart, Power2Round, FromSigned;
    RowIsZero(p, e.rho, r, e.s1);
    PAddZero(Q, e.s2[r]);
    assert T(ExpandA(Hash(), e.rho, p), e.s1, e.s2, p)[r] == e.s2[r];
    assert e.t0[r] == LowPart(e.s2[r]);
    LowOfSecret(p);
  }

  /** The key: s1 and s2 small, and t0 too because t = s2. */
  lemma KeyIsSmall(p: ParameterSet, xi: seq<Byte>)
    requires IsParameterSet(p) && SamplersEnd(Hash(), p)
    ensures var e := SecretOf(Hash(), p, xi);
      && (forall s :: 0 <= s < p.l ==> Bounded(Q, e.s1[s], p.eta))
      && (forall r :: 0 <= r < p.k ==> Bounded(Q, e.s2[r], p.eta) && Bounded(Q, e.t0[r], p.eta))
  {
    hide SamplersEnd, SecretPoly, T, PublicOf, LowPart, HighPart;
    var h := Hash();
    var e := SecretOf(h, p, xi);
    var rhoPrime := H(h, xi + [p.k, p.l], 128)[32..96];
    assert e.s1 == ExpandS(h, rhoPrime, p, 0, p.l) && e.s2 == ExpandS(h, rhoPrime, p, p.l, p.k);
    forall s | 0 <= s < p.l
      ensures Bounded(Q, e.s1[s], p.eta)
    {
      assert e.s1[s] == SecretPoly(h, rhoPrime, p, 0, s);
    }
    forall r | 0 <= r < p.k
      ensures Bounded(Q, e.s2[r], p.eta) && Bounded(Q, e.t0[r], p.eta)
    {
      assert e.s2[r] == SecretPoly(h, rhoPrime, p, p.l, r);
      SecretIs(p, rhoPrime, p.l, r);
      LowIsSmall(p, e, r);
    }
  }

  // ----- the mask -----

  /** A number written 0101...01 in binary: three times it is one less than a power of two. */
  lemma {:induction false} Alternating(s: seq<int>, d: int, base: int)
    requires base > 0 && 3 * d == base - 1 && forall i :: 0 <= i < |s| ==> s[i] == d
    ensures 3 * ToNat(s, base) == Pow(base, |s|) - 1
  {
    if s == [] {
    } else {
      Alternating(s[1..], d, base);
      var t, q := ToNat(s[1..], base), Pow(base, |s| - 1);
      assert 3 * (base * t) == base * (3 * t) == base * (q - 1) == base * q - base;
    }
  }

  /** The value of every group of bits. */
  function Third(bits: nat): (d: int) {
    (Pow2(bits) - 1) / 3
  }

  lemma MaskDigits(bits: nat, j: nat)
    requires 3 * Third(bits) == Pow2(bits) - 1 && j < N
    ensures Unpacked(Take(Fives(), 0, 32 * bits), bits)[j] == Third(bits)
  {
    hide Pow2, ToNat, FromNat, Pow;
    var b := Take(Fives(), 0, 32 * bits);
    var c: seq<int> := b;
    var d := seq(N, _ => Third(bits));
    Alternating(c, 0x55, 256);
    Alternating(d, Third(bits), Pow2(bits));
    SameRange(bits);
    FromToNat(d, Pow2(bits));
  }

  lemma ThirdIs(p: ParameterSet)
    requires IsParameterSet(p)
    ensures 3 * Third(ZBits(p)) == Pow2(ZBits(p)) - 1 && 0 <= p.gamma1 - Third(ZBits(p)) <= 174763
    ensures 0 <= p.gamma1 - Third(ZBits(p)) < p.gamma1 - 2 * Beta(p)
  {
    ZRange(p);
  }

  /** Every coefficient of the mask is gamma1 - 0101...01. */
  lemma MaskIs(p: ParameterSet, rhoPP: seq<Byte>, kappa: nat, r: nat, j: nat)
    requires IsParameterSet(p) && r < p.l && j < N
    ensures MaskPoly(Hash(), rhoPP, kappa, r, p)[j] == p.gamma1 - Third(ZBits(p))
  {
    hide Unpacked, Take, Pow2;
    ThirdIs(p);
    MaskDigits(ZBits(p), j);
  }

  // ----- the attempt -----

  lemma SumBelow(y: int, x: int, p: ParameterSet)
    requires IsParameterSet(p) && 0 <= y <= 174763 && y < p.gamma1 - 2 * Beta(p) && 0 <= x < Q
      && CenteredAbs(x) <= Beta(p)
    ensures CenteredAbs(AddQ(y, x)) < p.gamma1 - Beta(p)
  {
  }

  /** Small residues lie in the window around 0, on either side of the wrap. */
  lemma SmallWindow(r: int, gamma2: int)
    requires 0 <= r < Q && IsGamma2(gamma2) && CenteredAbs(r) <= 500
    ensures HighBits(r, gamma2) == 0 && LowBits(r, gamma2) == if r <= 500 then r else r - Q
  {
    hide Decompose, DecomposeStandard;
    if gamma2 == 95232 { Window44(r); } else { Window16(r); }
  }

  lemma NearSum(a: int, b: int)
    requires 0 <= a < Q && 0 <= b < Q
    ensures CenteredAbs(AddQ(a, b)) <= CenteredAbs(a) + CenteredAbs(b)
  {
    SumIsNear(a, b);
    hide AddQ;
  }

  lemma SmallSum(a: int, b: int, p: ParameterSet)
    requires IsParameterSet(p) && 0 <= a < Q && 0 <= b < Q && CenteredAbs(a) <= Beta(p) && CenteredAbs(b) <= Beta(p)
    ensures var r := AddQ(SubQ(0, a), b); CenteredAbs(r) <= 500 && CenteredAbs(AddQ(r, SubQ(0, b))) <= 500
  {
    assert Beta(p) <= 196;
    hide Beta, CenteredAbs, AddQ, SubQ;
    AddThenSub(0, a);
    AddThenSub(SubQ(0, a), b);
    NearSum(SubQ(0, a), b);
  }

  lemma LowBelow(x: int, p: ParameterSet)
    requires IsParameterSet(p) && 0 <= x < Q && CenteredAbs(x) <= Beta(p)
    ensures CenteredAbs(FromSigned(LowBits(SubQ(0, x), p.gamma2))) < p.gamma2 - Beta(p)
  {
    hide LowBits, HighBits;
    Sizes(p);
    SmallSum(x, 0, p);
    SmallWindow(SubQ(0, x), p.gamma2);
  }

  lemma NoHintNeeded(cs2: int, ct0: int, p: ParameterSet)
    requires IsParameterSet(p) && 0 <= cs2 < Q && 0 <= ct0 < Q && CenteredAbs(cs2) <= Beta(p)
      && CenteredAbs(ct0) <= Beta(p)
    ensures MakeHint(SubQ(0, ct0), AddQ(SubQ(0, cs2), ct0), p.gamma2) == 0
  {
    hide HighBits, LowBits, MakeHint;
    var r := AddQ(SubQ(0, cs2), ct0);
    SmallSum(cs2, ct0, p);
    SmallWindow(r, p.gamma2);
    SmallWindow(AddQ(r, SubQ(0, ct0)), p.gamma2);
  }

  lemma ResponseIsSmall(p: ParameterSet, e: SecretKey, mu: seq<Byte>, rhoPP: seq<Byte>, kappa: nat, s: nat, j: nat)
    requires IsParameterSet(p) && SamplersEnd(Hash(), p) && IsSecretKey(e, p) && s < p.l && j < N
      && Bounded(Q, e.s1[s], p.eta)
    ensures CenteredAbs(AttemptOf(Hash(), p, e, mu, rhoPP, kappa).z[s][j]) < p.gamma1 - Beta(p)
  {
    hide SamplersEnd, Challenge, Commitment, HighVec, MatrixTimes, ExpandA, LowVec, HintVec, RingProduct, MaskPoly,
         Bounded, Beta, CenteredAbs, Hint.IsHint;
    var t := AttemptOf(Hash(), p, e, mu, rhoPP, kappa);
    var x := RingProduct(t.c, e.s1[s]);
    ChallengeTimesSecret(Hash(), p, t.cTilde, e.s1[s]);
    MaskIs(p, rhoPP, kappa, s, j);
    ThirdIs(p);
    assert t.z[s] == PAdd(Q, t.y[s], x);
    SumBelow(t.y[s][j], x[j], p);
  }

  lemma RowIsSmall(p: ParameterSet, e: SecretKey, mu: seq<Byte>, rhoPP: seq<Byte>, kappa: nat, r: nat)
    requires IsParameterSet(p) && SamplersEnd(Hash(), p) && IsSecretKey(e, p) && r < p.k
    requires Bounded(Q, e.s2[r], p.eta) && Bounded(Q, e.t0[r], p.eta)
    ensures var t := AttemptOf(Hash(), p, e, mu, rhoPP, kappa);
      forall j :: 0 <= j < N ==>
        && CenteredAbs(t.r0[r][j]) < p.gamma2 - Beta(p) && CenteredAbs(t.ct0[r][j]) < p.gamma2 && t.hint[r][j] == 0
  {
    AttemptRow(Hash(), p, e, mu, rhoPP, kappa, r);
    hide SamplersEnd, AttemptOf, Challenge, RowOfA, RowProduct, RingProduct, Bounded, Beta, CenteredAbs, LowBits, SubQ,
         AddQ, MakeHint, FromSigned, Hint.IsHint;
    var t := AttemptOf(Hash(), p, e, mu, rhoPP, kappa);
    RowIsZero(p, e.rho, r, t.y);
    ChallengeTimesSecret(Hash(), p, t.cTilde, e.s2[r]);
    ChallengeTimesSecret(Hash(), p, t.cTilde, e.t0[r]);
    Sizes(p);
    forall j | 0 <= j < N
      ensures CenteredAbs(t.r0[r][j]) < p.gamma2 - Beta(p) && CenteredAbs(t.ct0[r][j]) < p.gamma2 && t.hint[r][j] == 0
    {
      LowBelow(t.cs2[r][j], p);
      NoHintNeeded(t.cs2[r][j], t.ct0[r][j], p);
    }
  }

  lemma {:induction false} NoOnes(h: seq<seq<int>>)
    requires Hint.IsHint(h) && forall r, j :: 0 <= r < |h| && 0 <= j < N ==> h[r][j] == 0
    ensures Hint.AllOnes(h) == []
  {
    if h == [] {
    } else {
      NoOnes(h[..|h| - 1]);
      Hint.OnesAre(h[|h| - 1], N);
      var ones := Hint.Ones(h[|h| - 1], N);
      if ones != [] {
        Hint.HasElement(ones);
      }
    }
  }

  /** The first attempt of every run is released. */
  lemma FirstIsReleased(p: ParameterSet, xi: seq<Byte>, mu: seq<Byte>, rhoPP: seq<Byte>, kappa: nat)
    requires IsParameterSet(p) && SamplersEnd(Hash(), p)
    ensures Releasable(AttemptOf(Hash(), p, SecretOf(Hash(), p, xi), mu, rhoPP, kappa), p, p.gamma1 - Beta(p))
  {
    hide SamplersEnd, RowOfA, SecretOf, AttemptOf, LowPoly, HintPoly, RowProduct, RingProduct, Challenge, ExpandMask,
         AddVec, TimesVec, CenteredAbs, Hint.AllOnes, Bounded, Beta;
    var h := Hash();
    var e := SecretOf(h, p, xi);
    var t := AttemptOf(h, p, e, mu, rhoPP, kappa);
    KeyIsSmall(p, xi);
    forall s, j | 0 <= s < p.l && 0 <= j < N
      ensures CenteredAbs(t.z[s][j]) < p.gamma1 - Beta(p)
    {
      ResponseIsSmall(p, e, mu, rhoPP, kappa, s, j);
    }
    forall r | 0 <= r < p.k
      ensures forall j :: 0 <= j < N ==> CenteredAbs(t.r0[r][j]) < p.gamma2 - Beta(p)
      ensures forall j :: 0 <= j < N ==> CenteredAbs(t.ct0[r][j]) < p.gamma2
      ensures forall j :: 0 <= j < N ==> t.hint[r][j] == 0
    {
      RowIsSmall(p, e, mu, rhoPP, kappa, r);
    }
    NoOnes(t.hint);
  }

  /** So the hypotheses of completeness, of the whole signing loop and of the samplers hold together. */
  lemma HypothesesHold(p: ParameterSet, xi: seq<Byte>, mu: seq<Byte>, rnd: seq<Byte>)
    requires IsParameterSet(p)
    ensures SamplersEnd(Hash(), p)
    ensures SigningEnds(Run(Hash(), p, SecretOf(Hash(), p, xi), mu, rnd, p.gamma1 - Beta(p)))
  {
    hide SamplersEnd, SecretOf, AttemptOf, Releasable, RhoPP;
    SamplersDoEnd(p);
    Sizes(p);
    var e := SecretOf(Hash(), p, xi);
    var x := Run(Hash(), p, e, mu, rnd, p.gamma1 - Beta(p));
    FirstIsReleased(p, xi, mu, RhoPP(Hash(), e, rnd, mu), Kappa(p, 0));
    assert ReleasedAt(x, 0);
  }
}
