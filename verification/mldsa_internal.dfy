/** The loops of macula-mldsa/src/internal.rs and the vector samplers of sample.rs, each proved to compute
    the function of MlDsaScheme that says what it is for. A vector is a sequence that is rebuilt entry by
    entry, a polynomial being worked on is an array changed in place. */
module MlDsaInternal {
  import opened Machine
  import opened Polynomials
  import opened Transform
  import opened MlDsaArith
  import opened MlDsaParams
  import opened MlDsaNtt
  import opened MlDsaSample
  import opened MlDsaCodec
  import opened MlDsaScheme
  import opened MlDsaCompleteness
  import P = MlDsaPack

  datatype Result<+T> = Ok(value: T) | Err(error: Error)
  datatype Error = ContextTooLong | WrongLength | InconsistentPrivateKey

  // ----- transforms of whole vectors -----

  method NttOf(f: seq<int>) returns (r: seq<int>)
    requires IsPoly(f)
    ensures r == Forward(DSA, f)
  {
    hide Forward, Valid;
    var w := new int[N](i requires 0 <= i < N => f[i]);
    assert w[..] == f;
    Ntt(w);
    r := w[..];
  }

  method NttAll(v: seq<seq<int>>) returns (r: seq<seq<int>>)
    requires IsVec(v, |v|)
    ensures r == NttVec(v)
  {
    hide Forward, Valid;
    r := [];
    for i := 0 to |v|
      invariant |r| == i && forall t :: 0 <= t < i ==> r[t] == Forward(DSA, v[t])
    {
      var f := NttOf(v[i]);
      r := r + [f];
    }
  }

  method Clear(w: array<int>)
    requires w.Length == N
    modifies w
    ensures w[..] == Zero(N)
  {
    for i := 0 to N
      invariant forall t :: 0 <= t < i ==> w[t] == 0
    {
      w[i] := 0;
    }
  }

  /** A fresh accumulator takes the products of a row with a vector, one after the other. */
  method AccumulateRow(w: array<int>, row: seq<seq<int>>, vHat: seq<seq<int>>, n: nat)
    requires w.Length == N && IsVec(row, |row|) && IsVec(vHat, |vHat|) && n <= |row| && n <= |vHat|
    modifies w
    ensures w[..] == RowTimes(row, vHat, n)
  {
    hide Pointwise, PAdd;
    Clear(w);
    assert w[..] == RowTimes(row, vHat, 0);
    hide Valid;
    for s := 0 to n
      invariant w[..] == RowTimes(row, vHat, s)
    {
      MultiplyAddNtt(w, row[s], vHat[s]);
    }
  }

  /** NTT^-1(row vHat). */
  method RowOf(row: seq<seq<int>>, vHat: seq<seq<int>>, n: nat) returns (r: seq<int>)
    requires IsVec(row, |row|) && IsVec(vHat, |vHat|) && n <= |row| && n <= |vHat|
    ensures r == Inverse(DSA, RowTimes(row, vHat, n))
  {
    hide Inverse, RowTimes;
    var w := new int[N];
    AccumulateRow(w, row, vHat, n);
    NttInverse(w);
    r := w[..];
  }

  /** The inverse transform of one product. */
  method ProductOf(cHat: seq<int>, fHat: seq<int>) returns (r: seq<int>)
    requires IsPoly(cHat) && IsPoly(fHat)
    ensures r == Inverse(DSA, Pointwise(DSA, cHat, fHat))
  {
    hide Inverse, Pointwise, PAdd;
    var w := new int[N];
    Clear(w);
    PointwiseValid(cHat, fHat);
    PAddZero(Q, Pointwise(DSA, cHat, fHat));
    assert IsPoly(Zero(N)) by { PointwiseZero(cHat); }
    MultiplyAddNtt(w, cHat, fHat);
    NttInverse(w);
    r := w[..];
  }

  // ----- sampling of vectors -----

  method SampleEntry(h: Hashes, rho: seq<Byte>, p: ParameterSet, r: nat, s: nat) returns (f: seq<int>)
    requires IsParameterSet(p) && SamplersEnd(h, p) && |rho| == 32 && r < p.k && s < p.l
    ensures f == EntryOfA(h, rho, p, r, s)
  {
    hide NttPoly;
    var seed := rho + [s, r];
    f := RejNttPoly(h.shake128(seed));
  }

  method SampleRow(h: Hashes, rho: seq<Byte>, p: ParameterSet, r: nat) returns (row: seq<seq<int>>)
    requires IsParameterSet(p) && SamplersEnd(h, p) && |rho| == 32 && r < p.k
    ensures row == RowOfA(h, rho, p, r)
  {
    hide IsPoly, EntryOfA;
    row := [];
    for s := 0 to p.l
      invariant |row| == s && forall t :: 0 <= t < s ==> row[t] == EntryOfA(h, rho, p, r, t)
    {
      var f := SampleEntry(h, rho, p, r, s);
      row := row + [f];
    }
  }

  /** FIPS 204 Algorithm 32: both loops; the seed's last two bytes are the column, then the row. */
  method SampleA(h: Hashes, rho: seq<Byte>, p: ParameterSet) returns (a: seq<seq<seq<int>>>)
    requires IsParameterSet(p) && SamplersEnd(h, p) && |rho| == 32
    ensures a == ExpandA(h, rho, p)
  {
    hide SamplersEnd, RowOfA;
    a := [];
    for r := 0 to p.k
      invariant |a| == r && forall t :: 0 <= t < r ==> a[t] == RowOfA(h, rho, p, t)
    {
      var row := SampleRow(h, rho, p, r);
      a := a + [row];
    }
  }

  method SampleSecret(h: Hashes, rhoPrime: seq<Byte>, p: ParameterSet, first: nat, i: nat) returns (f: seq<int>)
    requires IsParameterSet(p) && SamplersEnd(h, p) && |rhoPrime| == 64 && first + i < 256
    ensures f == SecretPoly(h, rhoPrime, p, first, i)
  {
    hide BoundedPoly;
    var seed := rhoPrime + LittleEndian2(first + i);
    assert |seed| == 66;
    f := RejBoundedPoly(h.shake256(seed), p.eta);
  }

  /** One loop of FIPS 204 Algorithm 33. */
  method SampleS(h: Hashes, rhoPrime: seq<Byte>, p: ParameterSet, first: nat, n: nat) returns (v: seq<seq<int>>)
    requires IsParameterSet(p) && SamplersEnd(h, p) && |rhoPrime| == 64 && first + n <= 256
    ensures v == ExpandS(h, rhoPrime, p, first, n)
  {
    hide IsPoly, SecretPoly;
    v := [];
    for i := 0 to n
      invariant |v| == i && forall t :: 0 <= t < i ==> v[t] == SecretPoly(h, rhoPrime, p, first, t)
    {
      var f := SampleSecret(h, rhoPrime, p, first, i);
      v := v + [f];
    }
  }

  /** FIPS 204 Algorithm 34. */
  method SampleMask(h: Hashes, rhoPP: seq<Byte>, kappa: nat, p: ParameterSet) returns (y: seq<seq<int>>)
    requires IsParameterSet(p)
    ensures y == ExpandMask(h, rhoPP, kappa, p)
  {
    hide IsPoly, P.BitUnpacked, H;
    y := [];
    for r := 0 to p.l
      invariant |y| == r && forall t :: 0 <= t < r ==> y[t] == MaskPoly(h, rhoPP, kappa, t, p)
    {
      var v := H(h, rhoPP + LittleEndian2((kappa + r) % 0x1_0000), 32 * ZBits(p));
      var f := P.BitUnpack(v, p.gamma1, ZBits(p));
      y := y + [f];
    }
  }

  method SampleChallenge(h: Hashes, p: ParameterSet, cTilde: seq<Byte>) returns (c: seq<int>)
    requires IsParameterSet(p) && SamplersEnd(h, p) && |cTilde| == CommitmentLen(p)
    ensures c == Challenge(h, p, cTilde)
  {
    hide Ball, BallEnds;
    c := SampleInBall(h.shake256(cTilde), p.tau);
  }

  // ----- keys -----

  /** The loop over the coefficients of one row of t. */
  method SplitRow(u: seq<int>, s2: seq<int>) returns (high: seq<int>, low: seq<int>)
    requires IsPoly(u) && IsPoly(s2)
    ensures high == HighPart(PAdd(Q, u, s2)) && low == LowPart(PAdd(Q, u, s2))
  {
    hide Power2Round, FromSigned;
    high, low := [], [];
    for i := 0 to N
      invariant |high| == |low| == i
      invariant forall j :: 0 <= j < i ==> high[j] == Power2Round(AddQ(u[j], s2[j])).0
      invariant forall j :: 0 <= j < i ==> low[j] == FromSigned(Power2Round(AddQ(u[j], s2[j])).1)
    {
      var (x, y) := Power2Round(AddQ(u[i], s2[i]));
      high := high + [x];
      low := low + [FromSigned(y)];
    }
  }

  /** t, its high and its low part, row by row, and the encoding of rho and the high parts. */
  method PublicKeyOfParts(h: Hashes, p: ParameterSet, rho: seq<Byte>, s1: seq<seq<int>>, s2: seq<seq<int>>)
    returns (pk: seq<Byte>, t0: seq<seq<int>>)
    requires IsParameterSet(p) && SamplersEnd(h, p) && |rho| == 32 && IsVec(s1, p.l) && IsVec(s2, p.k)
    ensures (pk, t0) == PublicOf(h, p, rho, s1, s2)
  {
    hide SamplersEnd, Valid, ExpandA, HighPart, LowPart, PkBytes, NttVec, RowTimes, Inverse;
    var aHat := SampleA(h, rho, p);
    VecSize(s1, p.l);
    var s1Hat := NttAll(s1);
    ghost var t := T(aHat, s1, s2, p);
    var t1: seq<seq<int>> := [];
    t0 := [];
    for r := 0 to p.k
      invariant |t1| == |t0| == r
      invariant forall i :: 0 <= i < r ==> t1[i] == HighPart(t[i]) && t0[i] == LowPart(t[i])
    {
      var u := RowOf(aHat[r], s1Hat, p.l);
      var high, low := SplitRow(u, s2[r]);
      assert t[r] == PAdd(Q, u, s2[r]);
      t1 := t1 + [high];
      t0 := t0 + [low];
    }
    assert t1 == T1Of(t) && t0 == T0Of(t);
    var buffer := new Byte[PublicKeyLen(p)];
    PkEncode(buffer, rho, t1, p.k);
    pk := buffer[..];
  }

  /** FIPS 204 Algorithm 6. */
  method KeyGen(h: Hashes, p: ParameterSet, xi: seq<Byte>) returns (pk: seq<Byte>, sk: seq<Byte>)
    requires IsParameterSet(p) && SamplersEnd(h, p) && |xi| == 32
    ensures pk == PublicKeyOf(h, p, xi)
    ensures SecretFits(SecretOf(h, p, xi), p) && sk == SkBytes(SecretOf(h, p, xi), p)
  {
    hide SamplersEnd, ExpandS, PublicOf, SecretFits, SkBytes;
    var seeds := H(h, xi + [p.k, p.l], 128);
    var rho, rhoPrime, key := seeds[..32], seeds[32..96], seeds[96..];
    var s1 := SampleS(h, rhoPrime, p, 0, p.l);
    var s2 := SampleS(h, rhoPrime, p, p.l, p.k);
    var t0;
    pk, t0 := PublicKeyOfParts(h, p, rho, s1, s2);
    var tr := H(h, pk, 64);
    var e := SecretKey(rho, key, tr, s1, s2, t0);
    assert e == SecretOf(h, p, xi);
    GeneratedSecrets(h, p, xi);
    var buffer := new Byte[PrivateKeyLen(p)];
    SkEncode(buffer, e, p);
    sk := buffer[..];
  }

  /** The key is refused unless its length is right and its t0 and tr are what its other parts determine. */
  method PublicKeyOfExpanded(h: Hashes, p: ParameterSet, sk: seq<Byte>) returns (r: Result<seq<Byte>>)
    requires IsParameterSet(p) && SamplersEnd(h, p)
    ensures r == Err(WrongLength) <==> |sk| != PrivateKeyLen(p)
    ensures |sk| == PrivateKeyLen(p) ==>
      var e := SkParts(sk, p);
      r == if Consistent(h, p, e) then Ok(OwnPublicKey(h, p, e)) else Err(InconsistentPrivateKey)
  {
    hide SamplersEnd, SkParts, PublicOf, H;
    if |sk| != PrivateKeyLen(p) {
      return Err(WrongLength);
    }
    var e := SkDecode(sk, p);
    var pk, t0 := PublicKeyOfParts(h, p, e.rho, e.s1, e.s2);
    if t0 != e.t0 || H(h, pk, 64) != e.tr {
      return Err(InconsistentPrivateKey);
    }
    return Ok(pk);
  }

  /** A generated private key decodes to the parts it was made of, so the expanded form and the seed give
      the same public key. */
  lemma KeyFormsAgree(h: Hashes, p: ParameterSet, xi: seq<Byte>)
    requires IsParameterSet(p) && SamplersEnd(h, p)
    ensures var e := SecretOf(h, p, xi);
      SecretFits(e, p) && SkParts(SkBytes(e, p), p) == e && Consistent(h, p, e)
        && OwnPublicKey(h, p, e) == PublicKeyOf(h, p, xi)
  {
    hide SamplersEnd, SecretOf, SkParts, SkBytes, Consistent, OwnPublicKey, SecretFits;
    GeneratedSecrets(h, p, xi);
    SkRoundTrip(SecretOf(h, p, xi), p);
  }

  // ----- norms -----

  method AbsOf(v: seq<seq<int>>, i: nat, j: nat) returns (a: int)
    requires IsVec(v, |v|) && i < |v| && j < N
    ensures a == CenteredAbs(v[i][j]) && 0 <= a < Q
  {
    a := CenteredAbs(v[i][j]);
  }

  /** The greatest centered absolute value, kept with a mask instead of a branch: max ^ ((max ^ a) & m) is a
      when the mask m is all ones and max when it is 0. */
  method Norm(v: seq<seq<int>>) returns (max: int)
    requires IsVec(v, |v|) && |v| > 0
    ensures forall b :: VecBelow(v, b) <==> max < b
  {
    hide CenteredAbs;
    max := 0;
    ghost var at, where := 0, 0;
    for i := 0 to |v|
      invariant 0 <= max && (forall k, j :: 0 <= k < i && 0 <= j < N ==> CenteredAbs(v[k][j]) <= max)
      invariant 0 <= at < |v| && 0 <= where < N && (i > 0 ==> CenteredAbs(v[at][where]) == max)
      invariant i == 0 ==> max == 0
    {
      ghost var j0 := 0;
      for j := 0 to N
        invariant 0 <= max && (forall k, t :: 0 <= k < i && 0 <= t < N ==> CenteredAbs(v[k][t]) <= max)
        invariant forall t :: 0 <= t < j ==> CenteredAbs(v[i][t]) <= max
        invariant 0 <= at < |v| && 0 <= where < N && (i > 0 || j > 0 ==> CenteredAbs(v[at][where]) == max)
        invariant i == 0 && j == 0 ==> max == 0
      {
        var a := AbsOf(v, i, j);
        if (i == 0 && j == 0) || a > max {
          at, where := i, j;
        }
        max := if I32(max - a) < 0 then a else max;
      }
    }
  }

  predicate ZAndR0Releasable(zNorm: int, r0Norm: int, zBound: int, p: ParameterSet) {
    zNorm < zBound && r0Norm < p.gamma2 - Beta(p)
  }

  predicate HintReleasable(ct0Norm: int, ones: nat, p: ParameterSet) {
    ct0Norm < p.gamma2 && ones <= p.omega
  }
}
