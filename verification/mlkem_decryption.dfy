/** K-PKE decryption is correct exactly as long as the noise is small: FIPS 203 sections 5.1 to 5.3. */
module MlKemDecryption {
  import opened Modular
  import opened Polynomials
  import opened Transform
  import opened Rings
  import opened MlKemArith
  import opened MlKemNtt
  import opened MlKemScheme

  // ----- vectors over Z_q[X]/(X^256 + 1) -----

  /** sum over i below n of a[i] b[i] */
  function Dot(a: seq<seq<int>>, b: seq<seq<int>>, n: nat): (r: seq<int>)
    requires IsVec(a, |a|) && IsVec(b, |b|) && n <= |a| && n <= |b|
    ensures IsPoly(r)
  {
    if n == 0 then Zero(N) else PAdd(Q, Dot(a, b, n - 1), RingTimes(Q, a[n - 1], b[n - 1]))
  }

  function AddVec(u: seq<seq<int>>, v: seq<seq<int>>): (r: seq<seq<int>>)
    requires IsVec(u, |u|) && IsVec(v, |u|)
    ensures IsVec(r, |u|)
  {
    seq(|u|, i requires 0 <= i < |u| => PAdd(Q, u[i], v[i]))
  }

  function SubVec(u: seq<seq<int>>, v: seq<seq<int>>): (r: seq<seq<int>>)
    requires IsVec(u, |u|) && IsVec(v, |u|)
    ensures IsVec(r, |u|)
  {
    seq(|u|, i requires 0 <= i < |u| => PSub(Q, u[i], v[i]))
  }

  lemma RingAddRight(a: seq<int>, u: seq<int>, v: seq<int>)
    requires |u| == |v|
    ensures RingTimes(Q, a, PAdd(Q, u, v)) == PAdd(Q, RingTimes(Q, a, u), RingTimes(Q, a, v))
  {
    hide PAdd, Times;
    TimesAddRight(Q, Sub(Q, 0, 1), a, u, v);
  }

  lemma {:induction false} DotAddRight(a: seq<seq<int>>, u: seq<seq<int>>, v: seq<seq<int>>, n: nat)
    requires IsVec(a, |a|) && IsVec(u, |u|) && IsVec(v, |u|) && n <= |a| && n <= |u|
    ensures Dot(a, AddVec(u, v), n) == PAdd(Q, Dot(a, u, n), Dot(a, v, n))
  {
    hide RingTimes, PAdd, Valid;
    if n == 0 {
      AddZeros(Q, N);
    } else {
      DotAddRight(a, u, v, n - 1);
      RingAddRight(a[n - 1], u[n - 1], v[n - 1]);
      PAddSwap(Q, Dot(a, u, n - 1), Dot(a, v, n - 1), RingTimes(Q, a[n - 1], u[n - 1]),
        RingTimes(Q, a[n - 1], v[n - 1]));
    }
  }

  lemma RingAddLeft(a: seq<int>, b: seq<int>, u: seq<int>)
    requires |a| == |b|
    ensures RingTimes(Q, PAdd(Q, a, b), u) == PAdd(Q, RingTimes(Q, a, u), RingTimes(Q, b, u))
  {
    hide PAdd, Times;
    TimesAddLeft(Q, Sub(Q, 0, 1), a, b, u);
  }

  lemma {:induction false} DotAddLeft(a: seq<seq<int>>, b: seq<seq<int>>, u: seq<seq<int>>, n: nat)
    requires IsVec(a, |a|) && IsVec(b, |a|) && IsVec(u, |u|) && n <= |a| && n <= |u|
    ensures Dot(AddVec(a, b), u, n) == PAdd(Q, Dot(a, u, n), Dot(b, u, n))
  {
    hide RingTimes, PAdd, Valid;
    if n == 0 {
      AddZeros(Q, N);
    } else {
      DotAddLeft(a, b, u, n - 1);
      RingAddLeft(a[n - 1], b[n - 1], u[n - 1]);
      PAddSwap(Q, Dot(a, u, n - 1), Dot(b, u, n - 1), RingTimes(Q, a[n - 1], u[n - 1]),
        RingTimes(Q, b[n - 1], u[n - 1]));
    }
  }

  lemma RingZero(a: seq<int>)
    requires IsPoly(a)
    ensures RingTimes(Q, a, Zero(N)) == Zero(N)
  {
    hide Times, Zero;
    TimesZeroRight(Q, Sub(Q, 0, 1), a, N);
  }

  /** (a x) y = x (a y) */
  lemma RingRotate(a: seq<int>, x: seq<int>, y: seq<int>)
    requires IsPoly(a) && IsPoly(x) && IsPoly(y)
    ensures RingTimes(Q, RingTimes(Q, a, x), y) == RingTimes(Q, x, RingTimes(Q, a, y))
  {
    hide Times;
    var c := Sub(Q, 0, 1);
    TimesComm(Q, c, a, x);
    TimesAssoc(Q, c, x, a, y);
  }

  /** Every entry times x. */
  function VecTimes(a: seq<seq<int>>, x: seq<int>): (r: seq<seq<int>>)
    requires IsVec(a, |a|) && IsPoly(x)
    ensures IsVec(r, |a|)
  {
    hide RingTimes;
    seq(|a|, i requires 0 <= i < |a| => RingTimes(Q, a[i], x))
  }

  /** sum of (a[i] x) y[i] = x times the sum of a[i] y[i] */
  lemma {:induction false} DotScaled(a: seq<seq<int>>, x: seq<int>, y: seq<seq<int>>, n: nat)
    requires IsVec(a, |a|) && IsPoly(x) && IsVec(y, |y|) && n <= |a| && n <= |y|
    ensures Dot(VecTimes(a, x), y, n) == RingTimes(Q, x, Dot(a, y, n))
  {
    hide RingTimes, PAdd, Valid;
    if n == 0 {
      RingZero(x);
    } else {
      DotScaled(a, x, y, n - 1);
      RingRotate(a[n - 1], x, y[n - 1]);
      RingAddRight(x, Dot(a, y, n - 1), RingTimes(Q, a[n - 1], y[n - 1]));
    }
  }

  // ----- (A s) . y = s . (A^T y) -----

  /** A s, taking the first n columns of A only. */
  function RowDots(a: seq<seq<seq<int>>>, s: seq<seq<int>>, k: nat, n: nat): (r: seq<seq<int>>)
    requires IsMatrix(a, k) && IsVec(s, k) && n <= k
    ensures IsVec(r, k)
  {
    hide Valid;
    seq(k, i requires 0 <= i < k => Dot(a[i], s, n))
  }

  /** A^T y */
  function ColumnDots(a: seq<seq<seq<int>>>, y: seq<seq<int>>, k: nat): (r: seq<seq<int>>)
    requires IsMatrix(a, k) && IsVec(y, k)
    ensures IsVec(r, k)
  {
    hide Valid;
    seq(k, i requires 0 <= i < k => Dot(Column(a, k, i), y, k))
  }

  lemma ZeroTimes(y: seq<int>)
    requires IsPoly(y)
    ensures IsPoly(Zero(N)) && RingTimes(Q, Zero(N), y) == Zero(N)
  {
    hide Times;
    TimesComm(Q, Sub(Q, 0, 1), Zero(N), y);
    TimesZeroRight(Q, Sub(Q, 0, 1), y, N);
  }

  lemma {:induction false} ZeroRows(a: seq<seq<seq<int>>>, s: seq<seq<int>>, y: seq<seq<int>>, k: nat, m: nat)
    requires IsMatrix(a, k) && IsVec(s, k) && IsVec(y, k) && m <= k
    ensures Dot(RowDots(a, s, k, 0), y, m) == Zero(N)
  {
    hide RingTimes, PAdd, Valid;
    if m == 0 {
    } else {
      ZeroRows(a, s, y, k, m - 1);
      ZeroTimes(y[m - 1]);
      AddZeros(Q, N);
    }
  }

  lemma {:induction false} Adjoint(a: seq<seq<seq<int>>>, s: seq<seq<int>>, y: seq<seq<int>>, k: nat, n: nat)
    requires IsMatrix(a, k) && IsVec(s, k) && IsVec(y, k) && n <= k
    ensures Dot(RowDots(a, s, k, n), y, k) == Dot(s, ColumnDots(a, y, k), n)
  {
    hide RingTimes, PAdd, Valid;
    if n == 0 {
      ZeroRows(a, s, y, k, k);
    } else {
      var x, c := s[n - 1], Column(a, k, n - 1);
      Adjoint(a, s, y, k, n - 1);
      assert RowDots(a, s, k, n) == AddVec(RowDots(a, s, k, n - 1), VecTimes(c, x));
      DotAddLeft(RowDots(a, s, k, n - 1), VecTimes(c, x), y, k);
      DotScaled(c, x, y, k);
    }
  }

  // ----- out of the transform domain -----

  lemma ForwardZero()
    ensures Forward(KEM, Zero(N)) == Zero(N)
  {
    hide Forward;
    IsKemDomain();
    var z := Forward(KEM, Zero(N));
    AddZeros(Q, N);
    ForwardAdd(KEM, Zero(N), Zero(N));
    forall i | 0 <= i < N
      ensures z[i] == 0
    {
      assert z[i] == Add(Q, z[i], z[i]);
      assert Canon(Q, z[i]);
    }
    assert z == Zero(N);
  }

  lemma {:induction false} InnerIs(a: seq<seq<int>>, b: seq<seq<int>>, n: nat)
    requires IsVec(a, |a|) && IsVec(b, |b|) && n <= |a| && n <= |b|
    ensures Inner(NttVec(a), NttVec(b), n) == Forward(KEM, Dot(a, b, n))
  {
    hide Forward, Pointwise, PAdd, Valid, Times;
    if n == 0 {
      ForwardZero();
    } else {
      InnerIs(a, b, n - 1);
      IsKemDomain();
      ForwardTimes(KEM, a[n - 1], b[n - 1]);
      ForwardAdd(KEM, Dot(a, b, n - 1), RingTimes(Q, a[n - 1], b[n - 1]));
    }
  }

  /** NTT^-1 of an inner product of transforms is the inner product. */
  lemma InverseOfInner(a: seq<seq<int>>, b: seq<seq<int>>, n: nat)
    requires IsVec(a, |a|) && IsVec(b, |b|) && n <= |a| && n <= |b|
    ensures Inverse(KEM, Inner(NttVec(a), NttVec(b), n)) == Dot(a, b, n)
  {
    hide Forward, Inverse, Inner;
    IsKemDomain();
    InnerIs(a, b, n);
    InverseOfForward(KEM, Dot(a, b, n));
  }

  /** The vector a transform came from. */
  function InverseVec(v: seq<seq<int>>): (r: seq<seq<int>>)
    requires IsVec(v, |v|)
    ensures IsVec(r, |v|)
  {
    hide Inverse;
    seq(|v|, i requires 0 <= i < |v| => Inverse(KEM, v[i]))
  }

  lemma NttOfInverse(v: seq<seq<int>>)
    requires IsVec(v, |v|)
    ensures NttVec(InverseVec(v)) == v
  {
    hide Forward, Inverse;
    IsKemDomain();
    var r := NttVec(InverseVec(v));
    forall i | 0 <= i < |v|
      ensures r[i] == v[i]
    {
      ForwardOfInverse(KEM, v[i]);
    }
    assert r == v;
  }

  function InverseMatrix(a: seq<seq<seq<int>>>, k: nat): (r: seq<seq<seq<int>>>)
    requires IsMatrix(a, k)
    ensures IsMatrix(r, k)
  {
    hide Valid;
    seq(k, i requires 0 <= i < k => InverseVec(a[i]))
  }

  /** t of key generation, out of the transform domain: A s + e. */
  function TVec(a: seq<seq<seq<int>>>, s: seq<seq<int>>, e: seq<seq<int>>, k: nat): (t: seq<seq<int>>)
    requires IsMatrix(a, k) && IsVec(s, k) && IsVec(e, k)
    ensures IsVec(t, k)
  {
    VecSize(RowDots(a, s, k, k), k);
    AddVec(RowDots(a, s, k, k), e)
  }

  lemma THatIs(a: seq<seq<seq<int>>>, s: seq<seq<int>>, e: seq<seq<int>>, k: nat)
    requires IsMatrix(a, k) && IsVec(s, k) && IsVec(e, k)
    ensures THat(a, s, e, k) == NttVec(TVec(InverseMatrix(a, k), s, e, k))
  {
    hide Forward, Inner, Dot, PAdd, InverseVec, Valid;
    IsKemDomain();
    var c := InverseMatrix(a, k);
    var l, r := THat(a, s, e, k), NttVec(TVec(c, s, e, k));
    forall i | 0 <= i < k
      ensures l[i] == r[i]
    {
      NttOfInverse(a[i]);
      InnerIs(c[i], s, k);
      ForwardAdd(KEM, Dot(c[i], s, k), e[i]);
    }
    assert l == r;
  }

  lemma ColumnOfInverse(a: seq<seq<seq<int>>>, k: nat, i: nat)
    requires IsMatrix(a, k) && i < k
    ensures Column(InverseMatrix(a, k), k, i) == InverseVec(Column(a, k, i))
  {
    hide Inverse, Valid;
  }

  lemma UVecIs(a: seq<seq<seq<int>>>, y: seq<seq<int>>, e1: seq<seq<int>>, k: nat)
    requires IsMatrix(a, k) && IsVec(y, k) && IsVec(e1, k)
    ensures |ColumnDots(InverseMatrix(a, k), y, k)| == k
    ensures UVec(a, y, e1, k) == AddVec(ColumnDots(InverseMatrix(a, k), y, k), e1)
  {
    hide Inverse, Inner, Dot, PAdd, Valid;
    var c := InverseMatrix(a, k);
    var l, r := UVec(a, y, e1, k), AddVec(ColumnDots(c, y, k), e1);
    forall i | 0 <= i < k
      ensures l[i] == r[i]
    {
      ColumnOfInverse(a, k, i);
      NttOfInverse(Column(a, k, i));
      InverseOfInner(InverseVec(Column(a, k, i)), y, k);
    }
    assert l == r;
  }

  // ----- the noise -----

  /** e . y + e2 + cv - s . e1 - s . cu */
  function NoiseSum(ey: seq<int>, e2: seq<int>, cv: seq<int>, se1: seq<int>, scu: seq<int>): (r: seq<int>)
    requires IsPoly(ey) && IsPoly(e2) && IsPoly(cv) && IsPoly(se1) && IsPoly(scu)
    ensures IsPoly(r)
  {
    PSub(Q, PSub(Q, PAdd(Q, PAdd(Q, ey, e2), cv), se1), scu)
  }

  lemma NoiseAtCoefficient(x: int, ey: int, e2: int, mu: int, cv: int, se1: int, scu: int)
    ensures Sub(Q, Add(Q, Add(Q, Add(Q, Add(Q, x, ey), e2), mu), cv), Add(Q, Add(Q, x, se1), scu))
         == Add(Q, mu, Sub(Q, Sub(Q, Add(Q, Add(Q, ey, e2), cv), se1), scu))
  {
    AddMod(Q, x + ey, e2);
    AddMod(Q, x + ey + e2, mu);
    AddMod(Q, x + ey + e2 + mu, cv);
    AddMod(Q, x + se1, scu);
    SubMod(Q, x + ey + e2 + mu + cv, x + se1 + scu);
    AddMod(Q, ey + e2, cv);
    SubMod(Q, ey + e2 + cv, se1);
    SubMod(Q, ey + e2 + cv - se1, scu);
    AddMod(Q, mu, ey + e2 + cv - se1 - scu);
    SameSum(Q, (x + ey + e2 + mu + cv) - (x + se1 + scu), mu + (ey + e2 + cv - se1 - scu));
  }

  lemma NoiseIsLeft(x: seq<int>, ey: seq<int>, e2: seq<int>, mu: seq<int>, cv: seq<int>, se1: seq<int>, scu: seq<int>)
    requires IsPoly(x) && IsPoly(ey) && IsPoly(e2) && IsPoly(mu) && IsPoly(cv) && IsPoly(se1) && IsPoly(scu)
    ensures PSub(Q, PAdd(Q, PAdd(Q, PAdd(Q, PAdd(Q, x, ey), e2), mu), cv), PAdd(Q, PAdd(Q, x, se1), scu))
         == PAdd(Q, mu, NoiseSum(ey, e2, cv, se1, scu))
  {
    hide Add, Sub, Valid;
    var l := PSub(Q, PAdd(Q, PAdd(Q, PAdd(Q, PAdd(Q, x, ey), e2), mu), cv), PAdd(Q, PAdd(Q, x, se1), scu));
    var r := PAdd(Q, mu, NoiseSum(ey, e2, cv, se1, scu));
    forall i | 0 <= i < N
      ensures l[i] == r[i]
    {
      NoiseAtCoefficient(x[i], ey[i], e2[i], mu[i], cv[i], se1[i], scu[i]);
    }
    assert l == r;
  }

  /** v + (v' - v) = v' */
  lemma Back(v: seq<int>, v': seq<int>)
    requires IsPoly(v) && IsPoly(v')
    ensures PAdd(Q, v, PSub(Q, v', v)) == v'
  {
    var l := PAdd(Q, v, PSub(Q, v', v));
    forall i | 0 <= i < N
      ensures l[i] == v'[i]
    {
      AddMod(Q, v[i], v'[i] - v[i]);
      ModCanon(Q, v'[i]);
    }
    assert l == v';
  }

  lemma BackVec(u: seq<seq<int>>, u': seq<seq<int>>)
    requires IsVec(u, |u|) && IsVec(u', |u|)
    ensures AddVec(u, SubVec(u', u)) == u'
  {
    hide PAdd, PSub, Valid;
    var l := AddVec(u, SubVec(u', u));
    forall i | 0 <= i < |u|
      ensures l[i] == u'[i]
    {
      Back(u[i], u'[i]);
    }
    assert l == u';
  }

  /** The two matrix products agree, and what is left of w is the message and the noise. Here u' and v' are
      any two values near u and v. */
  lemma WIsMessagePlusNoise(a: seq<seq<seq<int>>>, s: seq<seq<int>>, e: seq<seq<int>>, y: seq<seq<int>>,
                            e1: seq<seq<int>>,
                            e2: seq<int>, mu: seq<int>, u': seq<seq<int>>, v': seq<int>, k: nat)
    requires IsMatrix(a, k) && IsVec(s, k) && IsVec(e, k) && IsVec(y, k) && IsVec(e1, k) && IsPoly(e2) && IsPoly(mu)
    requires IsVec(u', k) && IsPoly(v')
    ensures |s| == |e| == |y| == |e1| == |u'| == k && |UVec(a, y, e1, k)| == k
    ensures var u, v := UVec(a, y, e1, k), VPoly(THat(a, s, e, k), y, e2, mu, k);
      WPoly(NttVec(s), u', v', k)
      == PAdd(Q, mu, NoiseSum(Dot(e, y, k), e2, PSub(Q, v', v), Dot(s, e1, k), Dot(s, SubVec(u', u), k)))
  {
    hide Inverse, Inner, Forward, Dot, PAdd, PSub, Valid, THat, UVec, NttVec, InverseMatrix, ColumnDots, RowDots,
         AddVec, SubVec, NoiseSum;
    VecSize(s, k); VecSize(e, k); VecSize(y, k); VecSize(e1, k); VecSize(u', k);
    var c := InverseMatrix(a, k);
    var u, v := UVec(a, y, e1, k), VPoly(THat(a, s, e, k), y, e2, mu, k);
    var cu, cv := SubVec(u', u), PSub(Q, v', v);
    var rows, columns := RowDots(c, s, k, k), ColumnDots(c, y, k);
    THatIs(a, s, e, k);
    UVecIs(a, y, e1, k);
    InverseOfInner(TVec(c, s, e, k), y, k);
    InverseOfInner(s, u', k);
    BackVec(u, u');
    Back(v, v');
    DotAddRight(s, u, cu, k);
    DotAddRight(s, columns, e1, k);
    DotAddLeft(rows, e, y, k);
    Adjoint(c, s, y, k, k);
    NoiseIsLeft(Dot(rows, y, k), Dot(e, y, k), e2, mu, cv, Dot(s, e1, k), Dot(s, cu, k));
  }
}
