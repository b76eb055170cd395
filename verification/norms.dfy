/** The size of a residue, its distance from 0 modulo q, and how it grows under ring operations. */
module Norms {
  import opened Modular
  import opened Polynomials

  /** The distance of a, in [0, q), from 0 modulo q: the absolute value of its centered representative. */
  function Size(q: int, a: int): (s: int)
    requires Canon(q, a)
    ensures 0 <= s <= a && s <= q - a
  {
    if a <= q - a then a else q - a
  }

  ghost predicate Bounded(q: int, f: seq<int>, bound: int)
    requires Valid(q, f)
  {
    forall i :: 0 <= i < |f| ==> Size(q, f[i]) <= bound
  }

  lemma SizeAdd(q: int, a: int, b: int)
    requires Canon(q, a) && Canon(q, b)
    ensures Size(q, Add(q, a, b)) <= Size(q, a) + Size(q, b)
  {
    ModOf(q, if a + b < q then 0 else 1, if a + b < q then a + b else a + b - q);
  }

  /** Negation keeps the size. */
  lemma SizeNegated(q: int, a: int)
    requires Canon(q, a)
    ensures Size(q, Mul(q, q - 1, a)) == Size(q, a)
  {
    assert (q - 1) * a == -a + a * q;
    ModShift(q, -a, a);
    if a == 0 { ModCanon(q, 0); } else { ModOf(q, -1, q - a); }
  }

  /** A coefficient of a challenge polynomial: -1, 0 or 1. */
  predicate IsSign(q: int, a: int) {
    a == 0 || a == 1 || a == q - 1
  }

  predicate AllSigns(q: int, f: seq<int>) {
    forall i :: 0 <= i < |f| ==> IsSign(q, f[i])
  }

  /** The number of nonzero coefficients. */
  function Weight(f: seq<int>): (n: nat) {
    if f == [] then 0 else (if f[0] == 0 then 0 else 1) + Weight(f[1..])
  }

  lemma SizeTimesSign(q: int, c: int, a: int)
    requires q > 2 && IsSign(q, c) && Canon(q, a)
    ensures Size(q, Mul(q, c, a)) <= if c == 0 then 0 else Size(q, a)
  {
    if c == 0 { MulZero(q, a); } else if c == 1 { MulOne(q, a); } else { SizeNegated(q, a); }
  }

  lemma ShiftBounded(q: int, f: seq<int>, bound: int)
    requires q > 2 && Valid(q, f) && Bounded(q, f, bound)
    ensures Bounded(q, TimesX(q, q - 1, f), bound)
  {
    if f != [] {
      SizeNegated(q, f[|f| - 1]);
    }
  }

  /** In Z_q[X]/(X^n + 1) a polynomial with w coefficients -1 or 1 and the rest 0 multiplies the norm by
      at most w. */
  lemma {:induction false} ChallengeProductBound(q: int, f: seq<int>, g: seq<int>, bound: int)
    requires q > 2 && AllSigns(q, f) && Valid(q, g) && Bounded(q, g, bound) && 0 <= bound
    ensures Bounded(q, Times(q, q - 1, f, g), Weight(f) * bound)
    decreases |f|
  {
    hide Add, Mul, TimesX;
    if f == [] {
      assert Weight(f) * bound == 0;
    } else {
      var h := Times(q, q - 1, f[1..], g);
      var w := Weight(f[1..]);
      var t := TimesX(q, q - 1, h);
      ChallengeProductBound(q, f[1..], g, bound);
      ShiftBounded(q, h, w * bound);
      var r := Times(q, q - 1, f, g);
      var own := if f[0] == 0 then 0 else bound;
      assert Weight(f) * bound == own + w * bound;
      forall i | 0 <= i < |r|
        ensures Size(q, r[i]) <= own + w * bound
      {
        SizeTimesSign(q, f[0], g[i]);
        SizeAdd(q, Mul(q, f[0], g[i]), t[i]);
      }
    }
  }

  // ----- the weight of a sequence under updates -----

  lemma {:induction false} WeightUpdate(f: seq<int>, i: int, v: int)
    requires 0 <= i < |f|
    ensures Weight(f[i := v]) == Weight(f) - (if f[i] == 0 then 0 else 1) + (if v == 0 then 0 else 1)
  {
    if i == 0 {
      assert f[i := v][1..] == f[1..];
    } else {
      WeightUpdate(f[1..], i - 1, v);
      assert f[i := v][1..] == f[1..][i - 1 := v];
    }
  }

  lemma {:induction false} WeightZero(n: nat)
    ensures Weight(Zero(n)) == 0
  {
    if n == 0 {
    } else {
      WeightZero(n - 1);
      assert Zero(n)[1..] == Zero(n - 1);
    }
  }
}
