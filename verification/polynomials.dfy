/** The rings Z_q[X]/(X^n - c) and the laws the two transforms rest on.

    A polynomial of degree below n is the sequence of its n coefficients, constant term first. */
module Polynomials {
  import opened Modular

  /** The degree of both crates' rings. */
  const N := 256

  predicate Valid(q: int, f: seq<int>) {
    forall i :: 0 <= i < |f| ==> Canon(q, f[i])
  }

  function Zero(n: nat): (r: seq<int>) {
    seq(n, _ => 0)
  }

  function PAdd(q: int, f: seq<int>, g: seq<int>): (r: seq<int>)
    requires q > 0 && |f| == |g|
    ensures |r| == |f| && Valid(q, r)
  {
    seq(|f|, i requires 0 <= i < |f| => Add(q, f[i], g[i]))
  }

  function PSub(q: int, f: seq<int>, g: seq<int>): (r: seq<int>)
    requires q > 0 && |f| == |g|
    ensures |r| == |f| && Valid(q, r)
  {
    seq(|f|, i requires 0 <= i < |f| => Sub(q, f[i], g[i]))
  }

  function Scale(q: int, z: int, f: seq<int>): (r: seq<int>)
    requires q > 0
    ensures |r| == |f| && Valid(q, r)
  {
    seq(|f|, i requires 0 <= i < |f| => Mul(q, z, f[i]))
  }

  /** Multiplication by X in Z_q[X]/(X^n - c): the top coefficient wraps around, times c. */
  function TimesX(q: int, c: int, f: seq<int>): (r: seq<int>)
    requires q > 0
    ensures |r| == |f|
    ensures Valid(q, f) ==> Valid(q, r)
  {
    if |f| == 0 then f else [Mul(q, c, f[|f| - 1])] + f[..|f| - 1]
  }

  /** The action of f(X) on g in Z_q[X]/(X^n - c), n = |g|, by Horner's rule: f_0 g + X (f_1 g + ...).
      When f has n coefficients too this is the product of two ring elements (see ProductCoefficient). */
  function Times(q: int, c: int, f: seq<int>, g: seq<int>): (r: seq<int>)
    requires q > 0
    ensures |r| == |g| && Valid(q, r)
  {
    if f == [] then Zero(|g|)
    else PAdd(q, Scale(q, f[0], g), TimesX(q, c, Times(q, c, f[1..], g)))
  }

  // ----- Times agrees with the schoolbook sum -----

  lemma TimesXAt(q: int, c: int, f: seq<int>, i: int)
    requires q > 0 && 0 <= i < |f|
    ensures TimesX(q, c, f)[i] == if i == 0 then Mul(q, c, f[|f| - 1]) else f[i - 1]
  {
    hide Mul;
  }

  /** g_j for j in 0 .. n - 1, and c g_(j + n) for j in -n .. -1: coefficient j of g, read cyclically. */
  function Wrapped(q: int, c: int, g: seq<int>, j: int): (r: int)
    requires q > 0 && -|g| <= j < |g|
  {
    if j >= 0 then g[j] else Mul(q, c, g[j + |g|])
  }

  /** sum over i of f_i g_(k - i), where X^n = c supplies the terms of index below 0. */
  function Schoolbook(q: int, c: int, f: seq<int>, g: seq<int>, k: int): (r: int)
    requires q > 0 && k < |g| && |f| <= k + 1 + |g|
  {
    if f == [] then 0
    else Add(q, Mul(q, f[0], Wrapped(q, c, g, k)), Schoolbook(q, c, f[1..], g, k - 1))
  }

  lemma {:induction false} SchoolbookWraps(q: int, c: int, f: seq<int>, g: seq<int>, k: int)
    requires q > 0 && Valid(q, g) && 0 <= k < |g| && |f| <= k + 1
    ensures Schoolbook(q, c, f, g, k - |g|) == Mul(q, c, Schoolbook(q, c, f, g, k))
    decreases |f|
  {
    if f == [] {
      MulZero(q, c);
    } else {
      SchoolbookWrapsTail(q, c, f, g, k);
      var a, rest := Mul(q, f[0], g[k]), Schoolbook(q, c, f[1..], g, k - 1);
      MulAdd(q, c, a, rest);
      MulAssoc(q, f[0], c, g[k]);
      MulComm(q, f[0], c);
      MulAssoc(q, c, f[0], g[k]);
    }
  }

  lemma {:induction false} SchoolbookWrapsTail(q: int, c: int, f: seq<int>, g: seq<int>, k: int)
    requires q > 0 && Valid(q, g) && 0 <= k < |g| && 0 < |f| <= k + 1
    ensures Schoolbook(q, c, f[1..], g, k - 1 - |g|) == Mul(q, c, Schoolbook(q, c, f[1..], g, k - 1))
    decreases |f|, 0
  {
    if |f| == 1 {
      MulZero(q, c);
    } else {
      SchoolbookWraps(q, c, f[1..], g, k - 1);
    }
  }

  /** Coefficient k of the product is the schoolbook sum of f_i g_(k - i), wrapped by X^n = c. */
  lemma {:induction false} ProductCoefficient(q: int, c: int, f: seq<int>, g: seq<int>, k: int)
    requires q > 0 && Valid(q, g) && 0 <= k < |g| && |f| <= |g|
    ensures Times(q, c, f, g)[k] == Schoolbook(q, c, f, g, k)
    decreases |f|
  {
    hide Mul, Add, TimesX, Valid;
    if f == [] {
    } else {
      var h := Times(q, c, f[1..], g);
      TimesXAt(q, c, h, k);
      if k > 0 {
        ProductCoefficient(q, c, f[1..], g, k - 1);
      } else {
        ProductCoefficient(q, c, f[1..], g, |g| - 1);
        SchoolbookWraps(q, c, f[1..], g, |g| - 1);
      }
    }
  }

  // ----- linearity -----

  lemma PAddAssoc(q: int, a: seq<int>, b: seq<int>, c: seq<int>)
    requires q > 0 && |a| == |b| == |c|
    ensures PAdd(q, PAdd(q, a, b), c) == PAdd(q, a, PAdd(q, b, c))
  {
    hide Add;
    forall i | 0 <= i < |a| {
      AddAssoc(q, a[i], b[i], c[i]);
    }
  }

  lemma PAddZero(q: int, a: seq<int>)
    requires q > 0 && Valid(q, a)
    ensures PAdd(q, Zero(|a|), a) == a
  {
    forall i | 0 <= i < |a| {
      AddZero(q, a[i]);
    }
  }

  lemma PAddSwap(q: int, a: seq<int>, b: seq<int>, c: seq<int>, d: seq<int>)
    requires q > 0 && |a| == |b| == |c| == |d|
    ensures PAdd(q, PAdd(q, a, b), PAdd(q, c, d)) == PAdd(q, PAdd(q, a, c), PAdd(q, b, d))
  {
    forall i | 0 <= i < |a| {
      AddSwap(q, a[i], b[i], c[i], d[i]);
    }
  }

  lemma PSubSwap(q: int, a: seq<int>, b: seq<int>, c: seq<int>, d: seq<int>)
    requires q > 0 && |a| == |b| == |c| == |d|
    ensures PSub(q, PAdd(q, a, b), PAdd(q, c, d)) == PAdd(q, PSub(q, a, c), PSub(q, b, d))
  {
    forall i | 0 <= i < |a| {
      SubSwap(q, a[i], b[i], c[i], d[i]);
    }
  }

  lemma ScaleAdd(q: int, z: int, f: seq<int>, g: seq<int>)
    requires q > 0 && |f| == |g|
    ensures Scale(q, z, PAdd(q, f, g)) == PAdd(q, Scale(q, z, f), Scale(q, z, g))
  {
    forall i | 0 <= i < |f| {
      MulAdd(q, z, f[i], g[i]);
    }
  }

  lemma ScaleSub(q: int, z: int, f: seq<int>, g: seq<int>)
    requires q > 0 && |f| == |g|
    ensures Scale(q, z, PSub(q, f, g)) == PSub(q, Scale(q, z, f), Scale(q, z, g))
  {
    forall i | 0 <= i < |f| {
      MulSub(q, z, f[i], g[i]);
    }
  }

  lemma ScaleScale(q: int, y: int, z: int, f: seq<int>)
    requires q > 0
    ensures Scale(q, y, Scale(q, z, f)) == Scale(q, Mul(q, y, z), f)
  {
    forall i | 0 <= i < |f| {
      MulAssoc(q, y, z, f[i]);
    }
  }

  lemma ScaleOne(q: int, f: seq<int>)
    requires q > 0 && Valid(q, f)
    ensures Scale(q, 1, f) == f
  {
    forall i | 0 <= i < |f| {
      MulOne(q, f[i]);
    }
  }

  lemma SumDistributes(q: int, y: int, z: int, f: seq<int>)
    requires q > 0
    ensures PAdd(q, Scale(q, y, f), Scale(q, z, f)) == Scale(q, Add(q, y, z), f)
  {
    forall i | 0 <= i < |f|
      ensures Add(q, Mul(q, y, f[i]), Mul(q, z, f[i])) == Mul(q, Add(q, y, z), f[i])
    {
      MulAdd(q, f[i], y, z);
      MulComm(q, f[i], y);
      MulComm(q, f[i], z);
      MulComm(q, f[i], Add(q, y, z));
    }
  }

  lemma TimesXAdd(q: int, c: int, f: seq<int>, g: seq<int>)
    requires q > 0 && |f| == |g|
    ensures TimesX(q, c, PAdd(q, f, g)) == PAdd(q, TimesX(q, c, f), TimesX(q, c, g))
  {
    hide Add, Mul, Sub, TimesX, Valid;
    var l, r := TimesX(q, c, PAdd(q, f, g)), PAdd(q, TimesX(q, c, f), TimesX(q, c, g));
    forall i | 0 <= i < |f|
      ensures l[i] == r[i]
    {
      TimesXAt(q, c, f, i);
      TimesXAt(q, c, g, i);
      TimesXAt(q, c, PAdd(q, f, g), i);
      MulAdd(q, c, f[|f| - 1], g[|f| - 1]);
    }
    assert l == r;
  }

  lemma TimesXScale(q: int, c: int, z: int, f: seq<int>)
    requires q > 0
    ensures TimesX(q, c, Scale(q, z, f)) == Scale(q, z, TimesX(q, c, f))
  {
    if f != [] {
      var t := f[|f| - 1];
      MulAssoc(q, c, z, t);
      MulComm(q, c, z);
      MulAssoc(q, z, c, t);
    }
  }

  lemma AddZeros(q: int, n: nat)
    requires q > 0
    ensures PAdd(q, Zero(n), Zero(n)) == Zero(n)
  {
    ModCanon(q, 0);
  }

  /** (f + f') g = f g + f' g */
  lemma {:induction false} TimesAddLeft(q: int, c: int, f: seq<int>, f': seq<int>, g: seq<int>)
    requires q > 0 && |f| == |f'|
    ensures Times(q, c, PAdd(q, f, f'), g) == PAdd(q, Times(q, c, f, g), Times(q, c, f', g))
    decreases |f|
  {
    if f == [] {
      assert PAdd(q, Zero(|g|), Zero(|g|)) == Zero(|g|) by { AddZeros(q, |g|); }
    } else {
      var h, h' := Times(q, c, f[1..], g), Times(q, c, f'[1..], g);
      assert PAdd(q, f, f')[1..] == PAdd(q, f[1..], f'[1..]);
      TimesAddLeft(q, c, f[1..], f'[1..], g);
      TimesXAdd(q, c, h, h');
      SumDistributes(q, f[0], f'[0], g);
      PAddSwap(q, Scale(q, f[0], g), Scale(q, f'[0], g), TimesX(q, c, h), TimesX(q, c, h'));
    }
  }

  lemma ScaleZeros(q: int, z: int, n: nat)
    requires q > 0
    ensures Scale(q, z, Zero(n)) == Zero(n)
  {
    MulZero(q, z);
  }

  /** (z f) g = z (f g) */
  lemma {:induction false} TimesScaleLeft(q: int, c: int, z: int, f: seq<int>, g: seq<int>)
    requires q > 0
    ensures Times(q, c, Scale(q, z, f), g) == Scale(q, z, Times(q, c, f, g))
    decreases |f|
  {
    if f == [] {
      ScaleZeros(q, z, |g|);
    } else {
      var h := Times(q, c, f[1..], g);
      assert Scale(q, z, f)[1..] == Scale(q, z, f[1..]);
      TimesScaleLeft(q, c, z, f[1..], g);
      TimesXScale(q, c, z, h);
      ScaleScale(q, z, f[0], g);
      ScaleAdd(q, z, Scale(q, f[0], g), TimesX(q, c, h));
    }
  }

  // ----- X^n acts as c -----

  function TimesXn(q: int, c: int, k: nat, f: seq<int>): (r: seq<int>)
    requires q > 0
    ensures |r| == |f|
    ensures Valid(q, f) ==> Valid(q, r)
  {
    if k == 0 then f else TimesX(q, c, TimesXn(q, c, k - 1, f))
  }

  lemma {:induction false} TimesXnAt(q: int, c: int, k: nat, f: seq<int>, i: int)
    requires q > 0 && k <= |f| && 0 <= i < |f|
    ensures TimesXn(q, c, k, f)[i] == if i < k then Mul(q, c, f[|f| - k + i]) else f[i - k]
  {
    hide Mul, TimesX, Valid;
    if k == 0 {
    } else {
      TimesXAt(q, c, TimesXn(q, c, k - 1, f), i);
      TimesXnAt(q, c, k - 1, f, if i == 0 then |f| - 1 else i - 1);
    }
  }

  lemma XnIsC(q: int, c: int, f: seq<int>)
    requires q > 0 && Valid(q, f)
    ensures TimesXn(q, c, |f|, f) == Scale(q, c, f)
  {
    forall i | 0 <= i < |f| {
      TimesXnAt(q, c, |f|, f, i);
    }
  }

  lemma TimesUnfold(q: int, c: int, f: seq<int>, g: seq<int>)
    requires q > 0 && f != []
    ensures Times(q, c, f, g) == PAdd(q, Scale(q, f[0], g), TimesX(q, c, Times(q, c, f[1..], g)))
  {
  }

  /** (lo + X^k hi) g = lo g + X^k (hi g) */
  lemma {:induction false} TimesSplit(q: int, c: int, lo: seq<int>, hi: seq<int>, g: seq<int>)
    requires q > 0 && Valid(q, g)
    ensures Times(q, c, lo + hi, g)
         == PAdd(q, Times(q, c, lo, g), TimesXn(q, c, |lo|, Times(q, c, hi, g)))
    decreases |lo|
  {
    hide PAdd, Scale, TimesX, Valid;
    var b := Times(q, c, hi, g);
    if lo == [] {
      assert lo + hi == hi;
      PAddZero(q, b);
    } else {
      var a := Times(q, c, lo[1..], g);
      var bn := TimesXn(q, c, |lo| - 1, b);
      assert (lo + hi)[1..] == lo[1..] + hi;
      TimesSplit(q, c, lo[1..], hi, g);
      TimesUnfold(q, c, lo + hi, g);
      TimesUnfold(q, c, lo, g);
      TimesXAdd(q, c, a, bn);
      PAddAssoc(q, Scale(q, lo[0], g), TimesX(q, c, a), TimesX(q, c, bn));
    }
  }

  // ----- the residue modulo a factor: X^2n - z^2 = (X^n - z)(X^n + z) -----

  /** The residue of f, of even length 2n, modulo X^n - z: its low half plus z times its high half. */
  function Fold(q: int, z: int, f: seq<int>): (r: seq<int>)
    requires q > 0 && |f| % 2 == 0
    ensures |r| == |f| / 2 && Valid(q, r)
  {
    PAdd(q, f[..|f| / 2], Scale(q, z, f[|f| / 2..]))
  }

  lemma FoldAt(q: int, z: int, f: seq<int>, i: int)
    requires q > 0 && |f| % 2 == 0 && 0 <= i < |f| / 2
    ensures Fold(q, z, f)[i] == Add(q, f[i], Mul(q, z, f[|f| / 2 + i]))
  {
  }

  lemma FoldAdd(q: int, z: int, f: seq<int>, g: seq<int>)
    requires q > 0 && |f| == |g| && |f| % 2 == 0
    ensures Fold(q, z, PAdd(q, f, g)) == PAdd(q, Fold(q, z, f), Fold(q, z, g))
  {
    var n := |f| / 2;
    ScaleAdd(q, z, f[n..], g[n..]);
    assert PAdd(q, f, g)[..n] == PAdd(q, f[..n], g[..n]);
    assert PAdd(q, f, g)[n..] == PAdd(q, f[n..], g[n..]);
    PAddSwap(q, f[..n], g[..n], Scale(q, z, f[n..]), Scale(q, z, g[n..]));
  }

  lemma FoldSub(q: int, z: int, f: seq<int>, g: seq<int>)
    requires q > 0 && |f| == |g| && |f| % 2 == 0
    ensures Fold(q, z, PSub(q, f, g)) == PSub(q, Fold(q, z, f), Fold(q, z, g))
  {
    var n := |f| / 2;
    ScaleSub(q, z, f[n..], g[n..]);
    assert PSub(q, f, g)[..n] == PSub(q, f[..n], g[..n]);
    assert PSub(q, f, g)[n..] == PSub(q, f[n..], g[n..]);
    PSubSwap(q, f[..n], Scale(q, z, f[n..]), g[..n], Scale(q, z, g[n..]));
  }

  lemma FoldScale(q: int, y: int, z: int, f: seq<int>)
    requires q > 0 && |f| % 2 == 0
    ensures Fold(q, z, Scale(q, y, f)) == Scale(q, y, Fold(q, z, f))
  {
    var n := |f| / 2;
    var hi := f[n..];
    assert Scale(q, y, f)[..n] == Scale(q, y, f[..n]);
    assert Scale(q, y, f)[n..] == Scale(q, y, hi);
    ScaleScale(q, z, y, hi);
    ScaleScale(q, y, z, hi);
    MulComm(q, y, z);
    ScaleAdd(q, y, f[..n], Scale(q, z, hi));
  }

  /** The wrapped terms agree: z^2 t + z s = z (s + z t). */
  lemma FoldedTop(q: int, z: int, s: int, t: int)
    requires q > 0
    ensures Add(q, Mul(q, Mul(q, z, z), t), Mul(q, z, s)) == Mul(q, z, Add(q, s, Mul(q, z, t)))
  {
    MulAdd(q, z, s, Mul(q, z, t));
    MulAssoc(q, z, z, t);
    AddComm(q, Mul(q, Mul(q, z, z), t), Mul(q, z, s));
  }

  /** Multiplication by X commutes with taking residues. */
  lemma FoldTimesX(q: int, z: int, f: seq<int>)
    requires q > 0 && |f| % 2 == 0 && Valid(q, f)
    ensures Fold(q, z, TimesX(q, Mul(q, z, z), f)) == TimesX(q, z, Fold(q, z, f))
  {
    hide Add, Mul, TimesX, Fold, Valid;
    var n, c := |f| / 2, Mul(q, z, z);
    var g, h := TimesX(q, c, f), Fold(q, z, f);
    var l, r := Fold(q, z, g), TimesX(q, z, h);
    forall i | 0 <= i < n
      ensures l[i] == r[i]
    {
      FoldAt(q, z, g, i);
      TimesXAt(q, c, f, i);
      TimesXAt(q, c, f, n + i);
      TimesXAt(q, z, h, i);
      FoldAt(q, z, f, if i == 0 then n - 1 else i - 1);
      FoldedTop(q, z, f[n - 1], f[2 * n - 1]);
    }
    assert l == r;
  }

  /** f g modulo X^n - z, as the action of all of f on the residue of g. */
  lemma {:induction false} FoldTimesRight(q: int, z: int, f: seq<int>, g: seq<int>)
    requires q > 0 && |g| % 2 == 0
    ensures Fold(q, z, Times(q, Mul(q, z, z), f, g)) == Times(q, z, f, Fold(q, z, g))
    decreases |f|
  {
    var c := Mul(q, z, z);
    var n := |g| / 2;
    if f == [] {
      ScaleZeros(q, z, n);
      AddZeros(q, n);
      assert Zero(2 * n)[..n] == Zero(n) && Zero(2 * n)[n..] == Zero(n);
    } else {
      var h := Times(q, c, f[1..], g);
      FoldTimesRight(q, z, f[1..], g);
      FoldTimesX(q, z, h);
      FoldScale(q, f[0], z, g);
      FoldAdd(q, z, Scale(q, f[0], g), TimesX(q, c, h));
    }
  }

  /** In Z_q[X]/(X^n - z), f acts as its own residue does. */
  lemma FoldTimesLeft(q: int, z: int, f: seq<int>, h: seq<int>)
    requires q > 0 && |f| == 2 * |h| && Valid(q, h)
    ensures Times(q, z, f, h) == Times(q, z, Fold(q, z, f), h)
  {
    var n := |h|;
    var lo, hi := f[..n], f[n..];
    assert f == lo + hi;
    TimesSplit(q, z, lo, hi, h);
    XnIsC(q, z, Times(q, z, hi, h));
    TimesScaleLeft(q, z, z, hi, h);
    TimesAddLeft(q, z, lo, Scale(q, z, hi), h);
  }

  /** Taking the residue modulo X^n - z is a ring homomorphism from Z_q[X]/(X^2n - z^2). */
  lemma FoldIsHomomorphism(q: int, z: int, f: seq<int>, g: seq<int>)
    requires q > 0 && |f| == |g| && |f| % 2 == 0
    ensures Fold(q, z, Times(q, Mul(q, z, z), f, g)) == Times(q, z, Fold(q, z, f), Fold(q, z, g))
  {
    FoldTimesRight(q, z, f, g);
    FoldTimesLeft(q, z, f, Fold(q, z, g));
  }
}
