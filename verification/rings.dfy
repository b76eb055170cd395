/** Z_q[X]/(X^n - c) is a commutative ring under Times, and so is the transform domain under Pointwise. */
module Rings {
  import opened Modular
  import opened Polynomials
  import opened Transform

  // ----- f acts linearly on the right operand -----

  lemma {:induction false} TimesAddRight(q: int, c: int, f: seq<int>, g: seq<int>, g': seq<int>)
    requires q > 0 && |g| == |g'|
    ensures Times(q, c, f, PAdd(q, g, g')) == PAdd(q, Times(q, c, f, g), Times(q, c, f, g'))
    decreases |f|
  {
    hide PAdd, Scale, TimesX, Valid;
    if f == [] {
      AddZeros(q, |g|);
    } else {
      var h, h' := Times(q, c, f[1..], g), Times(q, c, f[1..], g');
      TimesAddRight(q, c, f[1..], g, g');
      TimesXAdd(q, c, h, h');
      ScaleAdd(q, f[0], g, g');
      PAddSwap(q, Scale(q, f[0], g), Scale(q, f[0], g'), TimesX(q, c, h), TimesX(q, c, h'));
    }
  }

  lemma ScaleSwap(q: int, y: int, z: int, g: seq<int>)
    requires q > 0
    ensures Scale(q, y, Scale(q, z, g)) == Scale(q, z, Scale(q, y, g))
  {
    ScaleScale(q, y, z, g);
    ScaleScale(q, z, y, g);
    MulComm(q, y, z);
  }

  lemma {:induction false} TimesScaleRight(q: int, c: int, f: seq<int>, z: int, g: seq<int>)
    requires q > 0
    ensures Times(q, c, f, Scale(q, z, g)) == Scale(q, z, Times(q, c, f, g))
    decreases |f|
  {
    hide PAdd, Scale, TimesX, Valid;
    if f == [] {
      ScaleZeros(q, z, |g|);
    } else {
      var h := Times(q, c, f[1..], g);
      TimesScaleRight(q, c, f[1..], z, g);
      TimesXScale(q, c, z, h);
      ScaleSwap(q, f[0], z, g);
      ScaleAdd(q, z, Scale(q, f[0], g), TimesX(q, c, h));
    }
  }

  /** f (X g) = X (f g) */
  lemma {:induction false} TimesShiftRight(q: int, c: int, f: seq<int>, g: seq<int>)
    requires q > 0
    ensures Times(q, c, f, TimesX(q, c, g)) == TimesX(q, c, Times(q, c, f, g))
    decreases |f|
  {
    if f == [] {
      MulZero(q, c);
    } else {
      hide PAdd, Scale, TimesX, Valid;
      var h := Times(q, c, f[1..], g);
      TimesShiftRight(q, c, f[1..], g);
      TimesXScale(q, c, f[0], g);
      TimesXAdd(q, c, Scale(q, f[0], g), TimesX(q, c, h));
    }
  }

  lemma {:induction false} TimesZeroRight(q: int, c: int, f: seq<int>, n: nat)
    requires q > 0
    ensures Times(q, c, f, Zero(n)) == Zero(n)
    decreases |f|
  {
    if f == [] {
    } else {
      TimesZeroRight(q, c, f[1..], n);
      ScaleZeros(q, f[0], n);
      MulZero(q, c);
      assert TimesX(q, c, Zero(n)) == Zero(n);
      AddZeros(q, n);
    }
  }

  /** Any two polynomials act one after the other in either order. */
  lemma {:induction false} TimesSwap(q: int, c: int, f: seq<int>, g: seq<int>, h: seq<int>)
    requires q > 0
    ensures Times(q, c, f, Times(q, c, g, h)) == Times(q, c, g, Times(q, c, f, h))
    decreases |g|
  {
    hide PAdd, Scale, TimesX, Valid;
    if g == [] {
      TimesZeroRight(q, c, f, |h|);
    } else {
      var k := Times(q, c, g[1..], h);
      TimesAddRight(q, c, f, Scale(q, g[0], h), TimesX(q, c, k));
      TimesScaleRight(q, c, f, g[0], h);
      TimesShiftRight(q, c, f, k);
      TimesSwap(q, c, f, g[1..], h);
    }
  }

  // ----- the unit -----

  function One(n: nat): (r: seq<int>)
    requires n > 0
    ensures |r| == n
  {
    [1] + Zero(n - 1)
  }

  lemma TailValid(q: int, f: seq<int>)
    requires Valid(q, f) && f != []
    ensures Valid(q, f[1..]) && Canon(q, f[0])
    ensures forall m: nat :: q > 0 ==> Valid(q, f[1..] + Zero(m)) && |Zero(m)| == m
  {
  }

  /** X (g + 0 ... 0) moves g up by one place. */
  lemma ShiftPadded(q: int, c: int, g: seq<int>, m: nat)
    requires q > 0
    ensures TimesX(q, c, g + Zero(m + 1)) == [0] + (g + Zero(m))
  {
    MulZero(q, c);
  }

  lemma ScaledOne(q: int, z: int, n: nat)
    requires q > 1 && Canon(q, z) && n > 0
    ensures Scale(q, z, One(n)) == [z] + Zero(n - 1)
  {
    MulOne(q, z);
    MulComm(q, z, 1);
    MulZero(q, z);
  }

  lemma AddFront(q: int, z: int, g: seq<int>)
    requires q > 0 && Canon(q, z) && Valid(q, g)
    ensures PAdd(q, [z] + Zero(|g|), [0] + g) == [z] + g
  {
    var l, r := PAdd(q, [z] + Zero(|g|), [0] + g), [z] + g;
    forall i | 0 <= i < |r|
      ensures l[i] == r[i]
    {
      ModCanon(q, r[i]);
    }
  }

  /** The action of f on 1 is f itself. */
  lemma {:induction false} TimesOne(q: int, c: int, f: seq<int>, n: nat)
    requires q > 1 && Valid(q, f) && |f| <= n && n > 0
    ensures Times(q, c, f, One(n)) == f + Zero(n - |f|)
    decreases |f|
  {
    hide Scale, PAdd, TimesX, Valid, Zero;
    if f == [] {
      assert [] + Zero(n) == Zero(n);
    } else {
      TailValid(q, f);
      TimesOne(q, c, f[1..], n);
      ShiftPadded(q, c, f[1..], n - |f|);
      ScaledOne(q, f[0], n);
      AddFront(q, f[0], f[1..] + Zero(n - |f|));
      assert f + Zero(n - |f|) == [f[0]] + (f[1..] + Zero(n - |f|));
    }
  }

  // ----- the ring laws -----

  lemma TimesComm(q: int, c: int, f: seq<int>, g: seq<int>)
    requires q > 1 && |f| == |g| && Valid(q, f) && Valid(q, g)
    ensures Times(q, c, f, g) == Times(q, c, g, f)
  {
    if |f| > 0 {
      TimesOne(q, c, f, |f|);
      TimesOne(q, c, g, |f|);
      assert f + Zero(0) == f && g + Zero(0) == g;
      TimesSwap(q, c, f, g, One(|f|));
    }
  }

  lemma TimesAssoc(q: int, c: int, f: seq<int>, g: seq<int>, h: seq<int>)
    requires q > 1 && |f| == |g| == |h| && Valid(q, f) && Valid(q, g) && Valid(q, h)
    ensures Times(q, c, Times(q, c, f, g), h) == Times(q, c, f, Times(q, c, g, h))
  {
    TimesComm(q, c, Times(q, c, f, g), h);
    TimesSwap(q, c, h, f, g);
    TimesComm(q, c, g, h);
  }

  // ----- the transform carries them over -----

  /** The product in Z_q[X]/(X^256 + 1). */
  function RingTimes(q: int, f: seq<int>, g: seq<int>): (r: seq<int>)
    requires q > 0
    ensures |r| == |g| && Valid(q, r)
  {
    Times(q, Sub(q, 0, 1), f, g)
  }

  /** A product of transforms is the transform of the product. */
  lemma PointwiseIs(d: Domain, u: seq<int>, v: seq<int>)
    requires IsDomain(d) && |u| == |v| == N && Valid(d.q, u) && Valid(d.q, v)
    ensures Pointwise(d, u, v) == Forward(d, RingTimes(d.q, Inverse(d, u), Inverse(d, v)))
  {
    hide Forward, Inverse, Pointwise;
    ForwardTimes(d, Inverse(d, u), Inverse(d, v));
    ForwardOfInverse(d, u);
    ForwardOfInverse(d, v);
  }
}
