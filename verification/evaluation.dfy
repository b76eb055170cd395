/** The transform as evaluation: a factor of degree 1 leaves of a polynomial its value at the factor's root,
    which is how FIPS 204 section 7.5 defines the transform. */
module Evaluation {
  import opened Modular
  import opened Polynomials
  import opened Transform

  /** f(x), by Horner's rule. */
  function Eval(q: int, f: seq<int>, x: int): (v: int)
    requires q > 0
    ensures 0 <= v < q
  {
    if f == [] then 0 else Add(q, f[0], Mul(q, x, Eval(q, f[1..], x)))
  }

  lemma EvalUnfold(q: int, f: seq<int>, x: int)
    requires q > 0 && f != []
    ensures Eval(q, f, x) == Add(q, f[0], Mul(q, x, Eval(q, f[1..], x)))
  {
  }

  /** x (p b) = (x p) b */
  lemma PowTimes(q: int, x: int, p: int, b: int)
    requires q > 0
    ensures Mul(q, x, Mul(q, p, b)) == Mul(q, x * p, b)
  {
    MulMod(q, x, p * b);
    assert x * (p * b) == x * p * b;
  }

  /** (lo + X^k hi)(x) = lo(x) + x^k hi(x) */
  lemma {:induction false} EvalAppend(q: int, lo: seq<int>, hi: seq<int>, x: int)
    requires q > 0
    ensures Eval(q, lo + hi, x) == Add(q, Eval(q, lo, x), Mul(q, Pow(x, |lo|), Eval(q, hi, x)))
  {
    hide Add, Mul;
    var b := Eval(q, hi, x);
    if lo == [] {
      assert lo + hi == hi;
      assert Pow(x, 0) == 1;
      MulOne(q, b);
      AddZero(q, b);
      AddComm(q, 0, b);
    } else {
      var a, p := Eval(q, lo[1..], x), Pow(x, |lo| - 1);
      assert (lo + hi)[1..] == lo[1..] + hi;
      EvalAppend(q, lo[1..], hi, x);
      EvalUnfold(q, lo, x);
      EvalUnfold(q, lo + hi, x);
      MulAdd(q, x, a, Mul(q, p, b));
      AddAssoc(q, lo[0], Mul(q, x, a), Mul(q, x, Mul(q, p, b)));
      PowTimes(q, x, p, b);
    }
  }

  lemma HornerStep(q: int, u: int, v: int, z: int, x: int, a: int, b: int)
    requires q > 0
    ensures Add(q, Add(q, u, Mul(q, z, v)), Mul(q, x, Add(q, a, Mul(q, z, b))))
         == Add(q, Add(q, u, Mul(q, x, a)), Mul(q, z, Add(q, v, Mul(q, x, b))))
  {
    hide Add, Mul;
    MulAdd(q, x, a, Mul(q, z, b));
    MulAdd(q, z, v, Mul(q, x, b));
    MulAssoc(q, x, z, b);
    MulComm(q, x, z);
    MulAssoc(q, z, x, b);
    AddSwap(q, u, Mul(q, z, v), Mul(q, x, a), Mul(q, x, Mul(q, z, b)));
  }

  /** f + z g takes the value f(x) + z g(x). */
  lemma {:induction false} EvalCombination(q: int, f: seq<int>, z: int, g: seq<int>, x: int)
    requires q > 0 && |f| == |g|
    ensures Eval(q, PAdd(q, f, Scale(q, z, g)), x) == Add(q, Eval(q, f, x), Mul(q, z, Eval(q, g, x)))
  {
    if f == [] {
      MulZero(q, z);
      ModCanon(q, 0);
    } else {
      var s := PAdd(q, f, Scale(q, z, g));
      assert s[1..] == PAdd(q, f[1..], Scale(q, z, g[1..]));
      EvalCombination(q, f[1..], z, g[1..], x);
      hide Add, Mul, Scale, PAdd;
      var a, b := Eval(q, f[1..], x), Eval(q, g[1..], x);
      HornerStep(q, f[0], g[0], z, x, a, b);
    }
  }

  /** Modulo X^n - z nothing changes at a point whose n-th power is z. */
  lemma EvalFold(q: int, z: int, f: seq<int>, x: int)
    requires q > 0 && |f| % 2 == 0 && Pow(x, |f| / 2) % q == z
    ensures Eval(q, Fold(q, z, f), x) == Eval(q, f, x)
  {
    var n := |f| / 2;
    var lo, hi := f[..n], f[n..];
    assert f == lo + hi && |hi| == n;
    EvalAppend(q, lo, hi, x);
    MulMod(q, Pow(x, n), Eval(q, hi, x));
    EvalCombination(q, lo, z, hi, x);
    assert Fold(q, z, f) == PAdd(q, lo, Scale(q, z, hi));
  }

  /** x is a root of the factor at node m. */
  ghost predicate IsRoot(d: Domain, x: int, m: nat)
    requires d.q > 0
  {
    Pow(x, Degree(m)) % d.q == Factor(d, m)
  }

  /** A root of a factor is a root of its parent. */
  lemma RootOfParent(d: Domain, x: int, m: nat)
    requires IsDomain(d) && 2 <= m < 2 * Leaves(d) <= 512 && IsRoot(d, x, m)
    ensures IsRoot(d, x, m / 2)
  {
    Children(m / 2);
    FactorSquare(d, m);
    hide Degree, Factor, Mul;
    PowModAdd(d.q, x, Degree(m), Degree(m));
  }

  lemma {:induction false} ResidueKeepsValue(d: Domain, f: seq<int>, x: int, m: nat)
    requires IsDomain(d) && |f| == N && 1 <= m < 2 * Leaves(d) <= 512 && IsRoot(d, x, m)
    ensures Eval(d.q, Residue(d, f, m), x) == Eval(d.q, f, x)
  {
    if m == 1 {
    } else {
      RootOfParent(d, x, m);
      ResidueKeepsValue(d, f, x, m / 2);
      Children(m / 2);
      hide Degree, Factor, Fold, Eval;
      EvalFold(d.q, Factor(d, m), Residue(d, f, m / 2), x);
    }
  }

  lemma FactorCanon(d: Domain, m: nat)
    requires IsDomain(d)
    ensures Canon(d.q, Factor(d, m))
  {
  }

  /** The root of a factor of degree 1 is its constant; its residue is the entry of the transform. */
  lemma LeafRoot(d: Domain, f: seq<int>, i: nat)
    requires IsDomain(d) && d.bits == 8 && |f| == N && Valid(d.q, f) && i < N
    ensures Leaves(d) == 256 && IsRoot(d, Factor(d, 256 + i), 256 + i)
    ensures |Residue(d, f, 256 + i)| == 1 && Canon(d.q, Residue(d, f, 256 + i)[0])
      && Forward(d, f)[i] == Residue(d, f, 256 + i)[0]
  {
    hide Residue, Factor;
    var x := Factor(d, 256 + i);
    FactorCanon(d, 256 + i);
    ModCanon(d.q, x);
    assert Pow(x, 1) == x * Pow(x, 0) == x;
  }

  lemma ValueOfConstant(q: int, r: seq<int>, x: int)
    requires q > 0 && |r| == 1 && Canon(q, r[0])
    ensures Eval(q, r, x) == r[0]
  {
    assert r[1..] == [];
    MulZero(q, x);
    AddZero(q, r[0]);
  }

  /** FIPS 204 section 7.5: entry i of the transform is f(zeta^(2 BitRev8(i) + 1)). */
  lemma ForwardEvaluates(d: Domain, f: seq<int>, i: nat)
    requires IsDomain(d) && d.bits == 8 && |f| == N && Valid(d.q, f) && i < N
    ensures Forward(d, f)[i] == Eval(d.q, f, Pow(d.root, 2 * BitRev(i, 8) + 1) % d.q)
  {
    hide Forward, Residue, Eval, Factor, BitRev, Pow, RootOfMinusOne, ScaleInverts;
    LeafFactor(d, i);
    var m := 256 + i;
    var x := Factor(d, m);
    LeafRoot(d, f, i);
    ResidueKeepsValue(d, f, x, m);
    ValueOfConstant(d.q, Residue(d, f, m), x);
  }
}
