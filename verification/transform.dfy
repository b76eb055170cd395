/** The number-theoretic transform as a tree of residues, for both crates.

    X^256 + 1 factors into a binary tree: node 1 is X^256 + 1 itself, and the node holding
    X^2n - z^2 splits into X^n - z (node 2m) and X^n + z (node 2m + 1). The transform of f lists the
    residues of f modulo the factors of the last level: 256 of degree 1 in ML-DSA, 128 of degree 2 in
    ML-KEM. This module is the mathematics; the in-place loops of the crates are proved to compute it. */
module Transform {
  import opened Modular
  import opened Polynomials
  import opened Machine

  /** A modulus, a root of unity of order 2^(bits + 1), the number of splitting levels, and the inverse
      of 2^bits that ends the inverse transform. */
  datatype Domain = Domain(q: int, root: int, bits: nat, scale: int)

  ghost predicate RootOfMinusOne(d: Domain)
    requires d.q > 0
  {
    PowPositive(2, d.bits);
    Pow(d.root, Pow(2, d.bits)) % d.q == d.q - 1
  }

  ghost predicate ScaleInverts(d: Domain)
    requires d.q > 0
  {
    Mul(d.q, d.scale, Pow(2, d.bits) % d.q) == 1
  }

  ghost predicate IsDomain(d: Domain) {
    && d.q > 2
    && (d.bits == 7 || d.bits == 8)
    && RootOfMinusOne(d)
    && ScaleInverts(d)
  }

  // ----- the tree -----

  /** The depth of a node, and the degree of its factor: node m is at the depth of its leading bit. */
  function Depth(m: int): nat {
    if m < 2 then 0 else if m < 4 then 1 else if m < 8 then 2 else if m < 16 then 3 else if m < 32 then 4
    else if m < 64 then 5 else if m < 128 then 6 else if m < 256 then 7 else 8
  }

  function Degree(m: int): nat {
    if m < 2 then 256 else if m < 4 then 128 else if m < 8 then 64 else if m < 16 then 32 else if m < 32 then 16
    else if m < 64 then 8 else if m < 128 then 4 else if m < 256 then 2 else 1
  }

  /** The first node of node m's level. */
  function First(m: int): nat {
    if m < 2 then 1 else if m < 4 then 2 else if m < 8 then 4 else if m < 16 then 8 else if m < 32 then 16
    else if m < 64 then 32 else if m < 128 then 64 else if m < 256 then 128 else 256
  }

  /** The node opposite m in its level: first becomes last. */
  function Mirror(m: int): int {
    3 * First(m) - 1 - m
  }

  lemma Children(m: int)
    requires 1 <= m < 256
    ensures Degree(m) % 2 == 0 && Degree(2 * m) == Degree(2 * m + 1) == Degree(m) / 2
    ensures Depth(2 * m) == Depth(2 * m + 1) == Depth(m) + 1 <= 8
    ensures First(2 * m) == First(2 * m + 1) == 2 * First(m)
    ensures Mirror(2 * m) == 2 * Mirror(m) + 1 && Mirror(2 * m + 1) == 2 * Mirror(m)
    ensures First(m) <= Mirror(m) < 2 * First(m)
  {
  }

  /** The w low bits of k in reverse order. */
  function BitRev(k: nat, w: nat): (r: nat) {
    if w == 0 then 0 else PowPositive(2, w - 1); (k % 2) * Pow(2, w - 1) + BitRev(k / 2, w - 1)
  }

  function Zeta(d: Domain, m: nat): (r: int)
    requires d.q > 0
  {
    Pow(d.root, BitRev(m, d.bits)) % d.q
  }

  /** Node m holds the factor X^Degree(m) - Factor(m). */
  function Factor(d: Domain, m: nat): (r: int)
    requires d.q > 0
  {
    if m < 2 then Sub(d.q, 0, 1)
    else if m % 2 == 0 then Zeta(d, m / 2)
    else Sub(d.q, 0, Zeta(d, m / 2))
  }

  /** The residue of f modulo the factor at node m. */
  function Residue(d: Domain, f: seq<int>, m: nat): (r: seq<int>)
    requires d.q > 0 && |f| == N && 1 <= m < 512
    ensures |r| == Degree(m)
    ensures Valid(d.q, f) ==> Valid(d.q, r)
  {
    if m == 1 then f else Children(m / 2); Fold(d.q, Factor(d, m), Residue(d, f, m / 2))
  }

  /** All the residues of one level side by side; b is the number of nodes at the level. */
  predicate IsLevel(b: int, n: int) {
    || (b == 1 && n == 256) || (b == 2 && n == 128) || (b == 4 && n == 64) || (b == 8 && n == 32)
    || (b == 16 && n == 16) || (b == 32 && n == 8) || (b == 64 && n == 4) || (b == 128 && n == 2)
    || (b == 256 && n == 1)
  }

  lemma NextLevel(b: int, n: int)
    requires IsLevel(b, n)
    ensures 1 <= b <= 256 && 1 <= n <= 256
    ensures n / 2 >= 1 ==> n == 2 * (n / 2) && IsLevel(2 * b, n / 2) && 2 * b <= 256
    ensures n / 2 < 1 ==> b == 256 && n == 1
  {
  }

  lemma LevelBounds()
    ensures IsLevel(1, 256) && IsLevel(256, 1) && IsLevel(128, 2)
  {
  }

  lemma EvenLevel(b: int, n: int)
    requires IsLevel(b, n) && n < N
    ensures b == 2 * (b / 2) && b / 2 >= 1 && 1 <= n && IsLevel(b / 2, 2 * n)
  {
  }

  lemma OneBlock(b: int, n: int)
    requires IsLevel(b, n) && n >= N
    ensures b == 1 && n == N
  {
  }

  lemma PreviousLevel(b: int, n: int)
    requires IsLevel(2 * b, n) && n < N
    ensures IsLevel(b, 2 * n) && 1 <= b && 2 * b <= 256
  {
  }

  /** Coefficient j of level (b, n) is coefficient j mod n of node b + j / n. */
  lemma Place(b: int, n: int, j: int)
    requires IsLevel(b, n) && 0 <= j < N
    ensures b <= b + j / n < 2 * b && Degree(b + j / n) == n && 0 <= j % n < n
  {
  }

  function Level(d: Domain, f: seq<int>, b: int, n: int): (r: seq<int>)
    requires d.q > 0 && |f| == N && IsLevel(b, n)
    ensures |r| == N
  {
    seq(N, j requires 0 <= j < N => Place(b, n, j); Residue(d, f, b + j / n)[j % n])
  }

  /** The number of nodes at the last level. */
  function Leaves(d: Domain): (r: nat) {
    if d.bits == 8 then 256 else 128
  }

  /** Coefficient j of a transform belongs to this leaf, as this coefficient of the leaf's residue. */
  function Leaf(d: Domain, j: int): (r: int) {
    if d.bits == 8 then 256 + j else 128 + j / 2
  }

  function Spot(d: Domain, j: int): (r: int) {
    if d.bits == 8 then 0 else j % 2
  }

  lemma LeafDegree(d: Domain, j: int)
    requires 0 <= j < N
    ensures Leaves(d) <= Leaf(d, j) < 2 * Leaves(d) <= 512 && 0 <= Spot(d, j) < Degree(Leaf(d, j))
  {
  }

  /** The transform: the residues at the last level. */
  function Forward(d: Domain, f: seq<int>): (r: seq<int>)
    requires d.q > 0 && |f| == N
    ensures |r| == N
    ensures Valid(d.q, f) ==> Valid(d.q, r)
  {
    seq(N, j requires 0 <= j < N => LeafDegree(d, j); Residue(d, f, Leaf(d, j))[Spot(d, j)])
  }

  /** The coefficients of a transform that belong to one leaf. */
  function Block(d: Domain, v: seq<int>, m: nat): (r: seq<int>)
    requires |v| == N && Leaves(d) <= m < 2 * Leaves(d) <= 512
    ensures |r| == Degree(m)
    ensures Valid(d.q, v) ==> Valid(d.q, r)
  {
    if d.bits == 8 then [v[m - 256]] else [v[2 * (m - 128)], v[2 * (m - 128) + 1]]
  }

  /** The inverse of Zeta(m), as the code finds it in its table: the mirrored entry, negated. */
  function ZetaInverse(d: Domain, m: nat): (r: int)
    requires d.q > 0 && Mirror(m) >= 0
  {
    Sub(d.q, 0, Zeta(d, Mirror(m)))
  }

  /** The polynomial at node m recovered, up to a power of 2, from the residues at the last level. */
  function Combine(d: Domain, v: seq<int>, m: nat): (r: seq<int>)
    requires d.q > 0 && |v| == N && 1 <= m < 2 * Leaves(d) <= 512
    ensures |r| == Degree(m)
    ensures Valid(d.q, v) ==> Valid(d.q, r)
    decreases 512 - m, v
  {
    if m >= Leaves(d) then Block(d, v, m)
    else
      Children(m);
      hide Degree, Depth, First, Mirror;
      var lo, hi := Combine(d, v, 2 * m), Combine(d, v, 2 * m + 1);
      PAdd(d.q, lo, hi) + Scale(d.q, ZetaInverse(d, m), PSub(d.q, lo, hi))
  }

  /** 2^bits times the polynomial whose transform is v. */
  function Joined(d: Domain, v: seq<int>): (r: seq<int>)
    requires d.q > 0 && |v| == N
    ensures |r| == N
    ensures Valid(d.q, v) ==> Valid(d.q, r)
  {
    Combine(d, v, 1)
  }

  function CombineLevel(d: Domain, v: seq<int>, b: int, n: int): (r: seq<int>)
    requires d.q > 0 && |v| == N && IsLevel(b, n) && b <= Leaves(d)
    ensures |r| == N
  {
    seq(N, j requires 0 <= j < N => Place(b, n, j); Combine(d, v, b + j / n)[j % n])
  }

  function Inverse(d: Domain, v: seq<int>): (r: seq<int>)
    requires d.q > 0 && |v| == N
    ensures |r| == N && Valid(d.q, r)
  {
    Scale(d.q, d.scale, Joined(d, v))
  }

  /** The product of two transforms, leaf by leaf: at node m, modulo X^Degree(m) - Factor(m). */
  function Pointwise(d: Domain, u: seq<int>, v: seq<int>): (r: seq<int>)
    requires d.q > 0 && |u| == |v| == N
    ensures |r| == N && Valid(d.q, r)
  {
    seq(N, j requires 0 <= j < N =>
      LeafDegree(d, j);
      var m := Leaf(d, j);
      Times(d.q, Factor(d, m), Block(d, u, m), Block(d, v, m))[Spot(d, j)])
  }

  // ----- bit reversal and the zetas -----

  lemma Doubled(b: int, p: int, x: int)
    ensures b * (2 * p) + 2 * x == 2 * (b * p + x)
  {
  }

  lemma {:induction false} BitRevShift(k: nat, w: nat)
    requires k < Pow(2, w)
    ensures BitRev(k, w + 1) == 2 * BitRev(k, w)
  {
    if w == 0 {
    } else {
      assert Pow(2, w) == 2 * Pow(2, w - 1);
      hide Pow;
      BitRevShift(k / 2, w - 1);
      Doubled(k % 2, Pow(2, w - 1), BitRev(k / 2, w - 1));
    }
  }

  /** Reversing the children of node m: 2m has half the exponent, 2m + 1 the half turn more. */
  lemma BitRevChildren(k: nat, w: nat)
    requires w > 0 && k < Pow(2, w - 1)
    ensures 2 * BitRev(2 * k, w) == BitRev(k, w)
    ensures 2 * BitRev(2 * k + 1, w) == Pow(2, w) + BitRev(k, w)
  {
    BitRevShift(k, w - 1);
    assert (2 * k) / 2 == k && (2 * k + 1) / 2 == k;
    assert (2 * k) % 2 == 0 && (2 * k + 1) % 2 == 1;
    assert Pow(2, w) == 2 * Pow(2, w - 1);
  }

  lemma Pow2Values()
    ensures Pow(2, 6) == 64 && Pow(2, 7) == 128 && Pow(2, 8) == 256
  {
    assert Pow(2, 2) == 4;
    assert Pow(2, 4) == 16;
    assert Pow(2, 6) == 64;
  }

  lemma {:induction false} BitRevZero(w: nat)
    ensures BitRev(0, w) == 0
  {
    if w > 0 { BitRevZero(w - 1); }
  }

  lemma {:induction false} BitRevOne(w: nat)
    requires w > 0
    ensures BitRev(1, w) == Pow(2, w - 1)
  {
    BitRevZero(w - 1);
    assert 1 / 2 == 0;
  }

  lemma MirrorBelow(k: int, w: nat)
    requires (w == 6 || w == 7 || w == 8) && 1 <= k < Pow(2, w)
    ensures 0 <= Mirror(k) < Pow(2, w)
  {
    Pow2Values();
  }

  lemma BitRevMirrorRoot(w: nat)
    requires w > 0
    ensures Mirror(1) == 1 && 2 * BitRev(1, w) == Pow(2, w)
  {
    BitRevOne(w);
  }

  /** The exponents of a node and of its mirror image add up to a half turn, zeta^(2^bits) = -1. */
  lemma {:induction false} BitRevMirror(m: nat, w: nat)
    requires (w == 7 || w == 8) && 1 <= m < Pow(2, w)
    ensures 0 <= Mirror(m) && BitRev(m, w) + BitRev(Mirror(m), w) == Pow(2, w)
  {
    hide *;
    Pow2Values();
    if m == 1 {
      BitRevMirrorRoot(w);
    } else {
      var k := m / 2;
      BitRevMirror(k, w);
      MirrorBelow(k, w - 1);
      BitRevChildren(k, w);
      BitRevChildren(Mirror(k), w);
      Children(k);
      if m == 2 * k {
        assert BitRev(Mirror(m), w) == BitRev(2 * Mirror(k) + 1, w);
      } else {
        assert m == 2 * k + 1;
        assert BitRev(Mirror(m), w) == BitRev(2 * Mirror(k), w);
      }
    }
  }

  lemma MinusOne(q: int)
    requires q > 1
    ensures Sub(q, 0, 1) == q - 1
  {
    ModOf(q, -1, q - 1);
  }

  /** root^(2^bits + e) = -root^e */
  lemma HalfTurn(d: Domain, e: nat)
    requires IsDomain(d)
    ensures Pow(2, d.bits) > 0
    ensures Pow(d.root, Pow(2, d.bits) + e) % d.q == Sub(d.q, 0, Pow(d.root, e) % d.q)
  {
    PowPositive(2, d.bits);
    PowModAdd(d.q, d.root, Pow(2, d.bits), e);
    var x := Pow(d.root, e) % d.q;
    assert (d.q - 1) * x == -x + x * d.q;
    ModShift(d.q, -x, x);
  }

  /** The square of a node's zeta is the constant of the factor it splits. */
  lemma {:induction false} ZetaSquare(d: Domain, m: nat)
    requires IsDomain(d) && 1 <= m < Leaves(d)
    ensures Mul(d.q, Zeta(d, m), Zeta(d, m)) == Factor(d, m)
  {
    hide Pow, BitRev, Mul, Sub;
    Pow2Values();
    var e := BitRev(m, d.bits);
    PowModAdd(d.q, d.root, e, e);
    if m == 1 {
      BitRevMirrorRoot(d.bits);
      MinusOne(d.q);
    } else {
      var k := m / 2;
      BitRevChildren(k, d.bits);
      if m == 2 * k + 1 {
        HalfTurn(d, BitRev(k, d.bits));
      } else {
        assert m == 2 * k;
      }
    }
  }

  lemma MulNegNeg(q: int, a: int)
    requires q > 0
    ensures Mul(q, Sub(q, 0, a), Sub(q, 0, a)) == Mul(q, a, a)
  {
    ModMul(q, -a, Sub(q, 0, a));
    ModMul(q, -a, -a);
    assert (-a) * Sub(q, 0, a) == Sub(q, 0, a) * (-a);
    assert (-a) * (-a) == a * a;
  }

  lemma FactorSquare(d: Domain, m: nat)
    requires IsDomain(d) && 2 <= m < 2 * Leaves(d) <= 512
    ensures Mul(d.q, Factor(d, m), Factor(d, m)) == Factor(d, m / 2)
  {
    ZetaSquare(d, m / 2);
    MulNegNeg(d.q, Zeta(d, m / 2));
  }

  lemma NegInverse(q: int, z: int, y: int)
    requires q > 1 && Mul(q, z, y) == q - 1
    ensures Mul(q, z, Sub(q, 0, y)) == 1
  {
    ModMul(q, -y, z);
    assert Sub(q, 0, y) * z == z * Sub(q, 0, y);
    assert (-y) * z == -(z * y);
    ModSub(q, 0, z * y);
    ModOf(q, -1, 1);
  }

  lemma ZetaInverseCorrect(d: Domain, m: nat)
    requires IsDomain(d) && 1 <= m < Leaves(d)
    ensures 0 <= Mirror(m) && Mul(d.q, Zeta(d, m), ZetaInverse(d, m)) == 1
  {
    Pow2Values();
    BitRevMirror(m, d.bits);
    PowModAdd(d.q, d.root, BitRev(m, d.bits), BitRev(Mirror(m), d.bits));
    NegInverse(d.q, Zeta(d, m), Zeta(d, Mirror(m)));
  }

  lemma DepthBelow(d: Domain, m: nat)
    requires (d.bits == 7 || d.bits == 8) && 1 <= m < Leaves(d)
    ensures Depth(m) < d.bits
  {
  }

  lemma ResidueChildren(d: Domain, f: seq<int>, m: nat)
    requires d.q > 0 && |f| == N && 1 <= m < 256
    ensures |Residue(d, f, m)| % 2 == 0
    ensures Residue(d, f, 2 * m) == Fold(d.q, Zeta(d, m), Residue(d, f, m))
    ensures Residue(d, f, 2 * m + 1) == Fold(d.q, Sub(d.q, 0, Zeta(d, m)), Residue(d, f, m))
  {
    assert (2 * m) / 2 == m && (2 * m + 1) / 2 == m;
    Children(m);
    hide Fold, Zeta, Degree;
  }

  // ----- linearity and products -----

  lemma {:induction false} ResidueAdd(d: Domain, f: seq<int>, g: seq<int>, m: nat)
    requires d.q > 0 && |f| == |g| == N && 1 <= m < 512
    ensures Residue(d, PAdd(d.q, f, g), m) == PAdd(d.q, Residue(d, f, m), Residue(d, g, m))
  {
    if m == 1 {
    } else {
      Children(m / 2);
      hide Degree, Fold, Factor, PAdd, PSub, Scale, Valid;
      ResidueAdd(d, f, g, m / 2);
      FoldAdd(d.q, Factor(d, m), Residue(d, f, m / 2), Residue(d, g, m / 2));
    }
  }

  lemma {:induction false} ResidueSub(d: Domain, f: seq<int>, g: seq<int>, m: nat)
    requires d.q > 0 && |f| == |g| == N && 1 <= m < 512
    ensures Residue(d, PSub(d.q, f, g), m) == PSub(d.q, Residue(d, f, m), Residue(d, g, m))
  {
    if m == 1 {
    } else {
      Children(m / 2);
      hide Degree, Fold, Factor, PAdd, PSub, Scale, Valid;
      ResidueSub(d, f, g, m / 2);
      FoldSub(d.q, Factor(d, m), Residue(d, f, m / 2), Residue(d, g, m / 2));
    }
  }

  lemma {:induction false} ResidueScale(d: Domain, z: int, f: seq<int>, m: nat)
    requires d.q > 0 && |f| == N && 1 <= m < 512
    ensures Residue(d, Scale(d.q, z, f), m) == Scale(d.q, z, Residue(d, f, m))
  {
    if m == 1 {
    } else {
      Children(m / 2);
      hide Degree, Fold, Factor, PAdd, PSub, Scale, Valid;
      ResidueScale(d, z, f, m / 2);
      FoldScale(d.q, z, Factor(d, m), Residue(d, f, m / 2));
    }
  }

  /** Residues of a product are products of residues, at every node. */
  lemma {:induction false} ResidueTimes(d: Domain, f: seq<int>, g: seq<int>, m: nat)
    requires IsDomain(d) && |f| == |g| == N && 1 <= m < 2 * Leaves(d) <= 512
    ensures Residue(d, Times(d.q, Sub(d.q, 0, 1), f, g), m)
         == Times(d.q, Factor(d, m), Residue(d, f, m), Residue(d, g, m))
  {
    if m == 1 {
    } else {
      Children(m / 2);
      hide Degree, Depth, First, Mirror, Sub, Zeta;
      ResidueTimes(d, f, g, m / 2);
      FactorSquare(d, m);
      FoldIsHomomorphism(d.q, Factor(d, m), Residue(d, f, m / 2), Residue(d, g, m / 2));
    }
  }

  lemma ForwardAdd(d: Domain, f: seq<int>, g: seq<int>)
    requires IsDomain(d) && |f| == |g| == N
    ensures Forward(d, PAdd(d.q, f, g)) == PAdd(d.q, Forward(d, f), Forward(d, g))
  {
    hide Degree, Depth, Residue, Add, Sub, Mul;
    var l, r := Forward(d, PAdd(d.q, f, g)), PAdd(d.q, Forward(d, f), Forward(d, g));
    forall j | 0 <= j < N
      ensures l[j] == r[j]
    {
      LeafDegree(d, j);
      ResidueAdd(d, f, g, Leaf(d, j));
    }
    assert l == r;
  }

  lemma ForwardSub(d: Domain, f: seq<int>, g: seq<int>)
    requires IsDomain(d) && |f| == |g| == N
    ensures Forward(d, PSub(d.q, f, g)) == PSub(d.q, Forward(d, f), Forward(d, g))
  {
    hide Degree, Depth, Residue, Add, Sub, Mul;
    var l, r := Forward(d, PSub(d.q, f, g)), PSub(d.q, Forward(d, f), Forward(d, g));
    forall j | 0 <= j < N
      ensures l[j] == r[j]
    {
      LeafDegree(d, j);
      ResidueSub(d, f, g, Leaf(d, j));
    }
    assert l == r;
  }

  lemma ForwardScale(d: Domain, z: int, f: seq<int>)
    requires IsDomain(d) && |f| == N
    ensures Forward(d, Scale(d.q, z, f)) == Scale(d.q, z, Forward(d, f))
  {
    hide Degree, Depth, Residue, Add, Sub, Mul;
    var l, r := Forward(d, Scale(d.q, z, f)), Scale(d.q, z, Forward(d, f));
    forall j | 0 <= j < N
      ensures l[j] == r[j]
    {
      LeafDegree(d, j);
      ResidueScale(d, z, f, Leaf(d, j));
    }
    assert l == r;
  }

  /** The block of the transform that belongs to a leaf is the residue there. */
  lemma ForwardBlock(d: Domain, f: seq<int>, m: int)
    requires d.q > 0 && |f| == N && Leaves(d) <= m < 2 * Leaves(d) <= 512
    ensures Block(d, Forward(d, f), m) == Residue(d, f, m)
  {
    if d.bits != 8 {
      var j := 2 * (m - 128);
      assert Leaf(d, j) == Leaf(d, j + 1) == m && Spot(d, j) == 0 && Spot(d, j + 1) == 1;
    }
  }

  /** The transform turns multiplication in Z_q[X]/(X^256 + 1) into the product leaf by leaf. */
  lemma ForwardTimes(d: Domain, f: seq<int>, g: seq<int>)
    requires IsDomain(d) && |f| == |g| == N
    ensures Forward(d, Times(d.q, Sub(d.q, 0, 1), f, g)) == Pointwise(d, Forward(d, f), Forward(d, g))
  {
    hide Residue, Times, Degree, Leaf, Block, Spot, Sub, Factor;
    var l, r := Forward(d, Times(d.q, Sub(d.q, 0, 1), f, g)), Pointwise(d, Forward(d, f), Forward(d, g));
    forall j | 0 <= j < N
      ensures l[j] == r[j]
    {
      LeafDegree(d, j);
      ResidueTimes(d, f, g, Leaf(d, j));
      ForwardBlock(d, f, Leaf(d, j));
      ForwardBlock(d, g, Leaf(d, j));
    }
    assert l == r;
  }

  // ----- the two transforms undo each other -----

  lemma CanonAt(q: int, p: seq<int>, i: int)
    requires Valid(q, p) && 0 <= i < |p|
    ensures Canon(q, p[i])
  {
  }

  /** One butterfly and its inverse: x and y come back doubled. */
  lemma SplitJoin(q: int, z: int, zi: int, k: int, x: int, y: int)
    requires q > 0 && Mul(q, z, zi) == 1 && Canon(q, y)
    ensures var u, v := Add(q, x, Mul(q, z, y)), Add(q, x, Mul(q, Sub(q, 0, z), y));
      && Add(q, Mul(q, k, u), Mul(q, k, v)) == Mul(q, Mul(q, 2, k), x)
      && Mul(q, zi, Sub(q, Mul(q, k, u), Mul(q, k, v))) == Mul(q, Mul(q, 2, k), y)
  {
    hide Mul, Add, Sub;
    var t := Mul(q, z, y);
    var u, v := Add(q, x, t), Add(q, x, Mul(q, Sub(q, 0, z), y));
    SubIsAddNeg(q, x, z, y);
    SumDiff(q, x, t);
    MulAdd(q, k, u, v);
    MulAssoc(q, k, 2, x);
    MulComm(q, k, 2);
    MulSub(q, k, u, v);
    MulAssoc(q, k, 2, t);
    MulAssoc(q, zi, Mul(q, 2, k), t);
    MulComm(q, zi, Mul(q, 2, k));
    MulAssoc(q, Mul(q, 2, k), zi, t);
    MulAssoc(q, zi, z, y);
    MulComm(q, zi, z);
    MulOne(q, y);
  }

  lemma Doubling(q: int, e: nat)
    requires q > 0
    ensures Mul(q, 2, Pow(2, e) % q) == Pow(2, e + 1) % q
  {
    ModMul(q, Pow(2, e), 2);
    assert 2 * (Pow(2, e) % q) == (Pow(2, e) % q) * 2;
  }

  lemma CombineOfForwardLeaf(d: Domain, f: seq<int>, m: nat)
    requires IsDomain(d) && |f| == N && Valid(d.q, f) && Leaves(d) <= m < 2 * Leaves(d) <= 512
    ensures d.bits == Depth(m)
    ensures Combine(d, Forward(d, f), m) == Scale(d.q, Pow(2, 0) % d.q, Residue(d, f, m))
  {
    hide Residue, Forward, Block;
    ForwardBlock(d, f, m);
    ModCanon(d.q, 1);
    ScaleOne(d.q, Residue(d, f, m));
  }

  lemma CombineUnfold(d: Domain, v: seq<int>, m: nat)
    requires d.q > 0 && |v| == N && 1 <= m < Leaves(d)
    ensures 0 <= Mirror(m)
    ensures var lo, hi := Combine(d, v, 2 * m), Combine(d, v, 2 * m + 1);
      && |lo| == |hi| == Degree(m) / 2 && Degree(m) % 2 == 0
      && Combine(d, v, m) == PAdd(d.q, lo, hi) + Scale(d.q, ZetaInverse(d, m), PSub(d.q, lo, hi))
  {
    Children(m);
    hide PAdd, PSub, Scale, ZetaInverse, Degree, Mirror, Depth;
  }

  /** One coefficient of each half. */
  lemma JoinedAt(q: int, z: int, zi: int, k: int, p: seq<int>, i: int)
    requires q > 0 && Mul(q, z, zi) == 1 && |p| % 2 == 0 && Valid(q, p) && 0 <= i < |p| / 2
    ensures var lo, hi := Scale(q, k, Fold(q, z, p)), Scale(q, k, Fold(q, Sub(q, 0, z), p));
      && PAdd(q, lo, hi)[i] == Mul(q, Mul(q, 2, k), p[i])
      && Scale(q, zi, PSub(q, lo, hi))[i] == Mul(q, Mul(q, 2, k), p[|p| / 2 + i])
  {
    CanonAt(q, p, |p| / 2 + i);
    hide Mul, Add, Sub, Fold, Valid;
    FoldAt(q, z, p, i);
    FoldAt(q, Sub(q, 0, z), p, i);
    SplitJoin(q, z, zi, k, p[i], p[|p| / 2 + i]);
  }

  /** Joining k times the two residues of p gives 2 k p. */
  lemma CombineStep(d: Domain, v: seq<int>, m: nat, p: seq<int>, k: int)
    requires IsDomain(d) && |v| == N && 1 <= m < Leaves(d) && |p| == Degree(m) && |p| % 2 == 0 && Valid(d.q, p)
    requires Combine(d, v, 2 * m) == Scale(d.q, k, Fold(d.q, Zeta(d, m), p))
    requires Combine(d, v, 2 * m + 1) == Scale(d.q, k, Fold(d.q, Sub(d.q, 0, Zeta(d, m)), p))
    ensures Combine(d, v, m) == Scale(d.q, Mul(d.q, 2, k), p)
  {
    CombineUnfold(d, v, m);
    ZetaInverseCorrect(d, m);
    hide IsDomain, Mul, Sub, Zeta, ZetaInverse, Combine, Degree, Mirror, Fold, PAdd, PSub, Valid;
    var n, y, zi := |p| / 2, Mul(d.q, 2, k), ZetaInverse(d, m);
    var lo, hi := Combine(d, v, 2 * m), Combine(d, v, 2 * m + 1);
    var sum, rest := PAdd(d.q, lo, hi), Scale(d.q, zi, PSub(d.q, lo, hi));
    forall i | 0 <= i < n
      ensures sum[i] == Mul(d.q, y, p[i]) && rest[i] == Mul(d.q, y, p[n + i])
    {
      JoinedAt(d.q, Zeta(d, m), zi, k, p, i);
    }
    assert sum + rest == Scale(d.q, y, p);
  }

  lemma {:induction false} CombineOfForward(d: Domain, f: seq<int>, m: nat)
    requires IsDomain(d) && |f| == N && Valid(d.q, f) && 1 <= m < 2 * Leaves(d) <= 512
    ensures Combine(d, Forward(d, f), m) == Scale(d.q, Pow(2, d.bits - Depth(m)) % d.q, Residue(d, f, m))
    decreases 512 - m
  {
    hide RootOfMinusOne, ScaleInverts, Degree, Depth, First, Mirror, Residue, Combine, Forward, Pow, Scale, Mul, Fold,
         Zeta, Sub;
    if m >= Leaves(d) {
      CombineOfForwardLeaf(d, f, m);
    } else {
      Children(m);
      DepthBelow(d, m);
      CombineOfForward(d, f, 2 * m);
      CombineOfForward(d, f, 2 * m + 1);
      ResidueChildren(d, f, m);
      Doubling(d.q, d.bits - Depth(m) - 1);
      CombineStep(d, Forward(d, f), m, Residue(d, f, m), Pow(2, d.bits - Depth(m) - 1) % d.q);
    }
  }

  /** Inverse undoes Forward. */
  lemma InverseOfForward(d: Domain, f: seq<int>)
    requires IsDomain(d) && |f| == N && Valid(d.q, f)
    ensures Inverse(d, Forward(d, f)) == f
  {
    assert Residue(d, f, 1) == f;
    CombineOfForward(d, f, 1);
    hide Mul, Residue, Combine, Forward, Pow;
    ScaleScale(d.q, d.scale, Pow(2, d.bits) % d.q, f);
    ScaleOne(d.q, f);
  }

  /** One inverse butterfly and the butterfly after it: the two halves come back doubled. */
  lemma JoinSplit(q: int, z: int, zi: int, s: int, x: int, y: int)
    requires q > 0 && Mul(q, z, zi) == 1
    ensures var u, v := Mul(q, s, Add(q, x, y)), Mul(q, s, Mul(q, zi, Sub(q, x, y)));
      && Add(q, u, Mul(q, z, v)) == Mul(q, Mul(q, 2, s), x)
      && Add(q, u, Mul(q, Sub(q, 0, z), v)) == Mul(q, Mul(q, 2, s), y)
  {
    InRange(q, x, y);
    hide Mul, Add, Sub;
    var a, b := Add(q, x, y), Sub(q, x, y);
    var u, v := Mul(q, s, a), Mul(q, s, Mul(q, zi, b));
    MulAssoc(q, z, s, Mul(q, zi, b));
    MulComm(q, z, s);
    MulAssoc(q, s, z, Mul(q, zi, b));
    MulAssoc(q, z, zi, b);
    MulOne(q, b);
    assert Mul(q, z, v) == Mul(q, s, b);
    MulAdd(q, s, a, b);
    MulSub(q, s, a, b);
    SumDiff(q, x, y);
    SubIsAddNeg(q, u, z, v);
    MulAssoc(q, s, 2, x);
    MulAssoc(q, s, 2, y);
    MulComm(q, s, 2);
  }

  lemma ResidueOfCombineRoot(d: Domain, v: seq<int>)
    requires d.q > 1 && |v| == N && Valid(d.q, v)
    ensures Residue(d, Joined(d, v), 1) == Scale(d.q, Pow(2, Depth(1)) % d.q, Combine(d, v, 1))
  {
    var p := Combine(d, v, 1);
    hide Combine;
    assert Residue(d, p, 1) == p;
    ModCanon(d.q, 1);
    ScaleOne(d.q, p);
  }

  /** One coefficient of each half, before any tree is in sight. */
  lemma StepAt(q: int, z: int, zi: int, s: int, lo: seq<int>, hi: seq<int>, p: seq<int>, i: int)
    requires q > 0 && Mul(q, z, zi) == 1 && |lo| == |hi| && 0 <= i < |lo|
    requires p == Scale(q, s, PAdd(q, lo, hi) + Scale(q, zi, PSub(q, lo, hi)))
    ensures Fold(q, z, p)[i] == Mul(q, Mul(q, 2, s), lo[i])
    ensures Fold(q, Sub(q, 0, z), p)[i] == Mul(q, Mul(q, 2, s), hi[i])
  {
    hide Mul, Add, Sub, Fold, Valid;
    FoldAt(q, z, p, i);
    FoldAt(q, Sub(q, 0, z), p, i);
    JoinSplit(q, z, zi, s, lo[i], hi[i]);
    assert p[i] == Mul(q, s, Add(q, lo[i], hi[i]));
    assert p[|lo| + i] == Mul(q, s, Mul(q, zi, Sub(q, lo[i], hi[i])));
  }

  /** The two residues of s times the joined polynomial are 2 s times the parts that were joined. */
  lemma ResidueStep(d: Domain, v: seq<int>, m: nat, p: seq<int>, s: int)
    requires IsDomain(d) && |v| == N && 1 <= m < Leaves(d) && |p| % 2 == 0
    requires p == Scale(d.q, s, Combine(d, v, m))
    ensures Fold(d.q, Zeta(d, m), p) == Scale(d.q, Mul(d.q, 2, s), Combine(d, v, 2 * m))
    ensures Fold(d.q, Sub(d.q, 0, Zeta(d, m)), p) == Scale(d.q, Mul(d.q, 2, s), Combine(d, v, 2 * m + 1))
  {
    CombineUnfold(d, v, m);
    ZetaInverseCorrect(d, m);
    hide IsDomain, Mul, Add, Sub, Zeta, ZetaInverse, Combine, Degree, Mirror, Fold, PAdd, PSub, Valid;
    var lo, hi := Combine(d, v, 2 * m), Combine(d, v, 2 * m + 1);
    var z, zi, y := Zeta(d, m), ZetaInverse(d, m), Mul(d.q, 2, s);
    forall i | 0 <= i < |lo|
      ensures Fold(d.q, z, p)[i] == Scale(d.q, y, lo)[i]
      ensures Fold(d.q, Sub(d.q, 0, z), p)[i] == Scale(d.q, y, hi)[i]
    {
      StepAt(d.q, z, zi, s, lo, hi, p, i);
    }
    assert Fold(d.q, z, p) == Scale(d.q, y, lo);
    assert Fold(d.q, Sub(d.q, 0, z), p) == Scale(d.q, y, hi);
  }

  lemma {:induction false} ResidueOfCombine(d: Domain, v: seq<int>, m: nat)
    requires IsDomain(d) && |v| == N && Valid(d.q, v) && 1 <= m < 2 * Leaves(d) <= 512
    ensures Residue(d, Joined(d, v), m) == Scale(d.q, Pow(2, Depth(m)) % d.q, Combine(d, v, m))
  {
    hide RootOfMinusOne, ScaleInverts, Degree, Depth, First, Mirror, Residue, Combine, Joined, Pow, Scale, Mul, Fold,
         Zeta, Sub;
    if m == 1 {
      ResidueOfCombineRoot(d, v);
    } else {
      var h := m / 2;
      var p := Joined(d, v);
      assert m == 2 * h || m == 2 * h + 1;
      Children(h);
      ResidueOfCombine(d, v, h);
      ResidueChildren(d, p, h);
      Doubling(d.q, Depth(h));
      ResidueStep(d, v, h, Residue(d, p, h), Pow(2, Depth(h)) % d.q);
    }
  }

  lemma ForwardAt(d: Domain, f: seq<int>, j: int)
    requires d.q > 0 && |f| == N && 0 <= j < N
    ensures 1 <= Leaf(d, j) < 512 && 0 <= Spot(d, j) < Degree(Leaf(d, j))
    ensures Forward(d, f)[j] == Residue(d, f, Leaf(d, j))[Spot(d, j)]
  {
    LeafDegree(d, j);
    hide Residue;
  }

  lemma CombineLeaf(d: Domain, v: seq<int>, m: nat)
    requires d.q > 0 && |v| == N && Leaves(d) <= m < 2 * Leaves(d) <= 512
    ensures Combine(d, v, m) == Block(d, v, m)
  {
  }

  lemma LastDepth(d: Domain, m: nat)
    requires (d.bits == 7 || d.bits == 8) && Leaves(d) <= m < 2 * Leaves(d) <= 512
    ensures Depth(m) == d.bits
  {
  }

  lemma BlockAt(d: Domain, v: seq<int>, j: int)
    requires |v| == N && 0 <= j < N
    ensures Leaves(d) <= Leaf(d, j) < 2 * Leaves(d) && 0 <= Spot(d, j) < Degree(Leaf(d, j))
    ensures Block(d, v, Leaf(d, j))[Spot(d, j)] == v[j]
  {
  }

  lemma ForwardOfInverseAt(d: Domain, v: seq<int>, j: int)
    requires IsDomain(d) && |v| == N && Valid(d.q, v) && 0 <= j < N
    ensures Forward(d, Inverse(d, v))[j] == v[j]
  {
    hide Forward, Residue, Combine, Joined, Leaf, Spot, Block, Scale, Mul, Pow, Degree, Depth;
    var p := Joined(d, v);
    var m := Leaf(d, j);
    LeafDegree(d, j);
    LastDepth(d, m);
    ForwardAt(d, Inverse(d, v), j);
    ResidueScale(d, d.scale, p, m);
    ResidueOfCombine(d, v, m);
    ScaleScale(d.q, d.scale, Pow(2, d.bits) % d.q, Combine(d, v, m));
    ScaleOne(d.q, Combine(d, v, m));
    CombineLeaf(d, v, m);
    BlockAt(d, v, j);
  }

  /** Forward undoes Inverse. */
  lemma ForwardOfInverse(d: Domain, v: seq<int>)
    requires IsDomain(d) && |v| == N && Valid(d.q, v)
    ensures Forward(d, Inverse(d, v)) == v
  {
    hide Forward, Inverse;
    var w := Forward(d, Inverse(d, v));
    forall j | 0 <= j < N
      ensures w[j] == v[j]
    {
      ForwardOfInverseAt(d, v, j);
    }
    assert w == v;
  }

  /** Inverse is additive, because Forward is and the two undo each other. */
  lemma InverseAdd(d: Domain, u: seq<int>, v: seq<int>)
    requires IsDomain(d) && |u| == |v| == N && Valid(d.q, u) && Valid(d.q, v)
    ensures Inverse(d, PAdd(d.q, u, v)) == PAdd(d.q, Inverse(d, u), Inverse(d, v))
  {
    ForwardAdd(d, Inverse(d, u), Inverse(d, v));
    ForwardOfInverse(d, u);
    ForwardOfInverse(d, v);
    InverseOfForward(d, PAdd(d.q, Inverse(d, u), Inverse(d, v)));
  }

  lemma InverseSub(d: Domain, u: seq<int>, v: seq<int>)
    requires IsDomain(d) && |u| == |v| == N && Valid(d.q, u) && Valid(d.q, v)
    ensures Inverse(d, PSub(d.q, u, v)) == PSub(d.q, Inverse(d, u), Inverse(d, v))
  {
    ForwardSub(d, Inverse(d, u), Inverse(d, v));
    ForwardOfInverse(d, u);
    ForwardOfInverse(d, v);
    InverseOfForward(d, PSub(d.q, Inverse(d, u), Inverse(d, v)));
  }

  /** Transform, multiply leaf by leaf, transform back: the product in Z_q[X]/(X^256 + 1). */
  lemma Convolution(d: Domain, f: seq<int>, g: seq<int>)
    requires IsDomain(d) && |f| == |g| == N
    ensures Inverse(d, Pointwise(d, Forward(d, f), Forward(d, g))) == Times(d.q, Sub(d.q, 0, 1), f, g)
  {
    ForwardTimes(d, f, g);
    InverseOfForward(d, Times(d.q, Sub(d.q, 0, 1), f, g));
  }

  // ----- one level of the in-place loops -----

  /** Where block t of a level of blocks of n coefficients starts. */
  function BlockStart(t: int, n: int): int {
    t * n
  }

  /** The blocks of a level follow one another and fill the polynomial. */
  lemma BlockFits(b: int, n: int, t: int)
    requires IsLevel(b, n) && 0 <= t <= b
    ensures 0 <= BlockStart(t, n) <= N && (BlockStart(t, n) == N <==> t == b)
    ensures t < b ==> BlockStart(t + 1, n) == BlockStart(t, n) + n <= N
    ensures BlockStart(0, n) == 0
  {
  }

  lemma Halves(t: int, n: int, h: int)
    requires n == 2 * h
    ensures (2 * t) * h == t * n && (2 * t + 1) * h == t * n + h
  {
  }

  lemma BlockIndex(b: int, n: int, t: int, i: int)
    requires IsLevel(b, n) && 0 <= t < b && 0 <= i < n
    ensures 0 <= t * n + i < N && (t * n + i) / n == t && (t * n + i) % n == i
    ensures n >= 2 ==> IsLevel(2 * b, n / 2)
    ensures n >= 2 ==> (2 * t) * (n / 2) == t * n && (2 * t + 1) * (n / 2) == t * n + n / 2
  {
    NextLevel(b, n);
    BlockFits(b, n, t);
    hide IsLevel;
    ModOf(n, t, i);
    if n >= 2 {
      Halves(t, n, n / 2);
    }
  }

  lemma LevelEntry(d: Domain, f: seq<int>, b: int, n: int, j: int)
    requires d.q > 0 && |f| == N && IsLevel(b, n) && 0 <= j < N
    ensures b <= b + j / n < 2 * b && Degree(b + j / n) == n && 0 <= j % n < n
    ensures Level(d, f, b, n)[j] == Residue(d, f, b + j / n)[j % n]
  {
    Place(b, n, j);
    hide Residue, Degree, IsLevel;
  }

  lemma LevelAt(d: Domain, f: seq<int>, b: int, n: int, t: int, i: int)
    requires d.q > 0 && |f| == N && IsLevel(b, n) && 0 <= t < b && 0 <= i < n
    ensures 0 <= t * n + i < N && Degree(b + t) == n
    ensures Level(d, f, b, n)[t * n + i] == Residue(d, f, b + t)[i]
  {
    hide Residue, Level, Degree, IsLevel;
    BlockIndex(b, n, t, i);
    Place(b, n, t * n + i);
    LevelEntry(d, f, b, n, t * n + i);
  }

  /** Where the two halves of a block stand, as places of its level and as places of the next. */
  lemma PairIndex(b: int, h: int, t: int, i: int)
    requires IsLevel(b, 2 * h) && h >= 1 && 0 <= t < b && 0 <= i < h
    ensures IsLevel(2 * b, h) && 1 <= b <= 128 && 0 <= 2 * t + 1 < 2 * b && h + i < 2 * h
    ensures var j := BlockStart(t, 2 * h) + i;
      && 0 <= j < j + h < N
      && j == t * (2 * h) + i == (2 * t) * h + i
      && j + h == t * (2 * h) + (h + i) == (2 * t + 1) * h + i
  {
    BlockIndex(b, 2 * h, t, i);
    BlockIndex(b, 2 * h, t, h + i);
    hide IsLevel;
    assert 2 * h / 2 == h;
  }

  /** Block t of level (b, 2h), split in place: what the butterflies of the forward loops compute. */
  lemma LevelStep(d: Domain, f: seq<int>, b: int, h: int, t: int, i: int)
    requires d.q > 0 && |f| == N && IsLevel(b, 2 * h) && h >= 1 && 0 <= t < b && 0 <= i < h
    ensures IsLevel(2 * b, h) && 0 <= BlockStart(t, 2 * h) + i < BlockStart(t, 2 * h) + i + h < N
    ensures var j := BlockStart(t, 2 * h) + i;
      var s, s', z := Level(d, f, b, 2 * h), Level(d, f, 2 * b, h), Zeta(d, b + t);
      && s'[j] == Add(d.q, s[j], Mul(d.q, z, s[j + h]))
      && s'[j + h] == Sub(d.q, s[j], Mul(d.q, z, s[j + h]))
  {
    hide Level, Residue, Degree, Zeta, Fold, Add, Sub, Mul, IsLevel, BlockStart;
    PairIndex(b, h, t, i);
    LevelAt(d, f, b, 2 * h, t, i);
    LevelAt(d, f, b, 2 * h, t, h + i);
    LevelAt(d, f, 2 * b, h, 2 * t, i);
    LevelAt(d, f, 2 * b, h, 2 * t + 1, i);
    hide *;
    var m := b + t;
    var p := Residue(d, f, m);
    ResidueChildren(d, f, m);
    assert 2 * b + 2 * t == 2 * m && 2 * b + (2 * t + 1) == 2 * m + 1;
    FoldAt(d.q, Zeta(d, m), p, i);
    FoldAt(d.q, Sub(d.q, 0, Zeta(d, m)), p, i);
    SubIsAddNeg(d.q, p[i], Zeta(d, m), p[h + i]);
  }

  /** The butterflies of one block: the inner loop of the forward transforms. */
  function SplitAt(q: int, z: int, w: seq<int>, start: int, len: int): (r: seq<int>)
    requires q > 0 && 0 <= start && 0 <= len && start + 2 * len <= |w|
    ensures |r| == |w| && (Valid(q, w) ==> Valid(q, r))
  {
    hide Add, Sub, Mul;
    seq(|w|, j requires 0 <= j < |w| =>
      if start <= j < start + len then Add(q, w[j], Mul(q, z, w[j + len]))
      else if start + len <= j < start + 2 * len then Sub(q, w[j - len], Mul(q, z, w[j]))
      else w[j])
  }

  lemma SplitAtPair(q: int, z: int, w: seq<int>, start: int, len: int, j: int)
    requires q > 0 && 0 <= start <= j < start + len && start + 2 * len <= |w|
    ensures SplitAt(q, z, w, start, len)[j] == Add(q, w[j], Mul(q, z, w[j + len]))
    ensures SplitAt(q, z, w, start, len)[j + len] == Sub(q, w[j], Mul(q, z, w[j + len]))
  {
    hide Add, Sub, Mul;
  }

  lemma SplitAtElsewhere(q: int, z: int, w: seq<int>, start: int, len: int)
    requires q > 0 && 0 <= start && 0 <= len && start + 2 * len <= |w|
    ensures forall j :: 0 <= j < start || start + 2 * len <= j < |w| ==> SplitAt(q, z, w, start, len)[j] == w[j]
  {
    hide Add, Sub, Mul;
  }

  /** The butterflies of one block: the inner loop of the inverse transforms. */
  function JoinAt(q: int, z: int, w: seq<int>, start: int, len: int): (r: seq<int>)
    requires q > 0 && 0 <= start && 0 <= len && start + 2 * len <= |w|
    ensures |r| == |w| && (Valid(q, w) ==> Valid(q, r))
  {
    hide Add, Sub, Mul;
    seq(|w|, j requires 0 <= j < |w| =>
      if start <= j < start + len then Add(q, w[j], w[j + len])
      else if start + len <= j < start + 2 * len then Mul(q, z, Sub(q, w[j - len], w[j]))
      else w[j])
  }

  lemma JoinAtPair(q: int, z: int, w: seq<int>, start: int, len: int, j: int)
    requires q > 0 && 0 <= start <= j < start + len && start + 2 * len <= |w|
    ensures JoinAt(q, z, w, start, len)[j] == Add(q, w[j], w[j + len])
    ensures JoinAt(q, z, w, start, len)[j + len] == Mul(q, z, Sub(q, w[j], w[j + len]))
  {
    hide Add, Sub, Mul;
  }

  lemma JoinAtElsewhere(q: int, z: int, w: seq<int>, start: int, len: int)
    requires q > 0 && 0 <= start && 0 <= len && start + 2 * len <= |w|
    ensures forall j :: 0 <= j < start || start + 2 * len <= j < |w| ==> JoinAt(q, z, w, start, len)[j] == w[j]
  {
    hide Add, Sub, Mul;
  }

  /** The first k entries of one sequence, the rest of another. */
  function Mixed(done: seq<int>, todo: seq<int>, k: int): (r: seq<int>)
    requires |done| == |todo| && 0 <= k <= |done|
    ensures |r| == |done|
    ensures k == 0 ==> r == todo
    ensures k == |done| ==> r == done
  {
    done[..k] + todo[k..]
  }

  /** Splitting block t carries the level forward by one block. */
  lemma SplitAdvances(d: Domain, f: seq<int>, b: int, h: int, t: int)
    requires d.q > 0 && |f| == N && IsLevel(b, 2 * h) && h >= 1 && 0 <= t < b
    ensures IsLevel(2 * b, h) && 0 <= BlockStart(t, 2 * h) <= BlockStart(t, 2 * h) + 2 * h <= N
    ensures var start, s, s' := BlockStart(t, 2 * h), Level(d, f, b, 2 * h), Level(d, f, 2 * b, h);
      SplitAt(d.q, Zeta(d, b + t), Mixed(s', s, start), start, h) == Mixed(s', s, start + 2 * h)
  {
    hide Level, BlockStart, Zeta, Add, Sub, Mul, IsLevel;
    BlockFits(b, 2 * h, t);
    LevelStep(d, f, b, h, t, 0);
    var start, s, s' := BlockStart(t, 2 * h), Level(d, f, b, 2 * h), Level(d, f, 2 * b, h);
    var l, r := SplitAt(d.q, Zeta(d, b + t), Mixed(s', s, start), start, h), Mixed(s', s, start + 2 * h);
    forall j | 0 <= j < N
      ensures l[j] == r[j]
    {
      if start <= j < start + h {
        LevelStep(d, f, b, h, t, j - start);
      } else if start + h <= j < start + 2 * h {
        LevelStep(d, f, b, h, t, j - start - h);
      }
    }
    assert l == r;
  }

  lemma MirrorAt(b: int, n: int, t: int)
    requires IsLevel(b, n) && 0 <= t < b
    ensures Mirror(b + t) == 2 * b - 1 - t
  {
  }

  lemma CombineLevelEntry(d: Domain, v: seq<int>, b: int, n: int, j: int)
    requires d.q > 0 && |v| == N && IsLevel(b, n) && b <= Leaves(d) && 0 <= j < N
    ensures b <= b + j / n < 2 * b && Degree(b + j / n) == n && 0 <= j % n < n
    ensures CombineLevel(d, v, b, n)[j] == Combine(d, v, b + j / n)[j % n]
  {
    Place(b, n, j);
    hide Combine, Degree, IsLevel;
  }

  lemma CombineLevelAt(d: Domain, v: seq<int>, b: int, n: int, t: int, i: int)
    requires d.q > 0 && |v| == N && IsLevel(b, n) && b <= Leaves(d) && 0 <= t < b && 0 <= i < n
    ensures 0 <= t * n + i < N && Degree(b + t) == n
    ensures CombineLevel(d, v, b, n)[t * n + i] == Combine(d, v, b + t)[i]
  {
    hide Combine, CombineLevel, Degree, IsLevel;
    BlockIndex(b, n, t, i);
    Place(b, n, t * n + i);
    CombineLevelEntry(d, v, b, n, t * n + i);
  }

  /** Blocks 2t and 2t + 1 joined in place: what the butterflies of the inverse loops compute. */
  lemma CombineLevelStep(d: Domain, v: seq<int>, b: int, h: int, t: int, i: int)
    requires d.q > 0 && |v| == N && IsLevel(b, 2 * h) && 2 * b <= Leaves(d) && h >= 1 && 0 <= t < b && 0 <= i < h
    ensures IsLevel(2 * b, h) && 0 <= BlockStart(t, 2 * h) + i < BlockStart(t, 2 * h) + i + h < N
    ensures Mirror(b + t) == 2 * b - 1 - t
    ensures var j := BlockStart(t, 2 * h) + i;
      var s, s', z := CombineLevel(d, v, 2 * b, h), CombineLevel(d, v, b, 2 * h), ZetaInverse(d, b + t);
      && s'[j] == Add(d.q, s[j], s[j + h])
      && s'[j + h] == Mul(d.q, z, Sub(d.q, s[j], s[j + h]))
  {
    hide CombineLevel, Combine, Degree, Zeta, ZetaInverse, Add, Sub, Mul, IsLevel, BlockStart, Mirror;
    PairIndex(b, h, t, i);
    MirrorAt(b, 2 * h, t);
    CombineLevelAt(d, v, b, 2 * h, t, i);
    CombineLevelAt(d, v, b, 2 * h, t, h + i);
    CombineLevelAt(d, v, 2 * b, h, 2 * t, i);
    CombineLevelAt(d, v, 2 * b, h, 2 * t + 1, i);
    CombineUnfold(d, v, b + t);
    hide Leaves;
    assert 2 * b + 2 * t == 2 * (b + t) && 2 * b + (2 * t + 1) == 2 * (b + t) + 1;
  }

  /** Joining block t carries the level back by one block. */
  lemma JoinAdvances(d: Domain, v: seq<int>, b: int, h: int, t: int)
    requires d.q > 0 && |v| == N && IsLevel(b, 2 * h) && 2 * b <= Leaves(d) && h >= 1 && 0 <= t < b
    ensures IsLevel(2 * b, h) && 0 <= BlockStart(t, 2 * h) <= BlockStart(t, 2 * h) + 2 * h <= N
    ensures Mirror(b + t) == 2 * b - 1 - t
    ensures var start, s, s' := BlockStart(t, 2 * h), CombineLevel(d, v, 2 * b, h), CombineLevel(d, v, b, 2 * h);
      JoinAt(d.q, ZetaInverse(d, b + t), Mixed(s', s, start), start, h) == Mixed(s', s, start + 2 * h)
  {
    hide CombineLevel, BlockStart, Zeta, ZetaInverse, Mirror, Add, Sub, Mul, IsLevel, Leaves;
    BlockFits(b, 2 * h, t);
    CombineLevelStep(d, v, b, h, t, 0);
    var start, s, s' := BlockStart(t, 2 * h), CombineLevel(d, v, 2 * b, h), CombineLevel(d, v, b, 2 * h);
    var l, r := JoinAt(d.q, ZetaInverse(d, b + t), Mixed(s', s, start), start, h), Mixed(s', s, start + 2 * h);
    forall j | 0 <= j < N
      ensures l[j] == r[j]
    {
      if start <= j < start + h {
        CombineLevelStep(d, v, b, h, t, j - start);
      } else if start + h <= j < start + 2 * h {
        CombineLevelStep(d, v, b, h, t, j - start - h);
      }
    }
    assert l == r;
  }

  lemma ResidueRoot(d: Domain, f: seq<int>)
    requires d.q > 0 && |f| == N
    ensures Residue(d, f, 1) == f
  {
  }

  /** The first and last levels are the polynomial and its transform. */
  lemma LevelEnds(d: Domain, f: seq<int>)
    requires d.q > 0 && |f| == N && (d.bits == 7 || d.bits == 8)
    ensures Level(d, f, 1, 256) == f
    ensures Level(d, f, Leaves(d), N / Leaves(d)) == Forward(d, f)
  {
    hide Level, Forward, Residue, Degree;
    var n := N / Leaves(d);
    var a, b, c := Level(d, f, 1, 256), Level(d, f, Leaves(d), n), Forward(d, f);
    forall j | 0 <= j < N
      ensures a[j] == f[j] && b[j] == c[j]
    {
      LevelAt(d, f, 1, 256, 0, j);
      ResidueRoot(d, f);
      LevelAt(d, f, Leaves(d), n, j / n, j % n);
      ForwardAt(d, f, j);
    }
    assert a == f && b == c;
  }

  lemma CombineLevelEnds(d: Domain, v: seq<int>)
    requires d.q > 0 && |v| == N && (d.bits == 7 || d.bits == 8)
    ensures CombineLevel(d, v, Leaves(d), N / Leaves(d)) == v
    ensures CombineLevel(d, v, 1, 256) == Joined(d, v)
  {
    hide CombineLevel, Combine, Degree, Block;
    var n := N / Leaves(d);
    var a, b, c := CombineLevel(d, v, 1, 256), CombineLevel(d, v, Leaves(d), n), Joined(d, v);
    forall j | 0 <= j < N
      ensures a[j] == c[j] && b[j] == v[j]
    {
      CombineLevelAt(d, v, 1, 256, 0, j);
      CombineLevelAt(d, v, Leaves(d), n, j / n, j % n);
      CombineLeaf(d, v, Leaves(d) + j / n);
      BlockAt(d, v, j);
    }
    assert a == c && b == v;
  }

  // ----- the constants of the last level -----

  /** The leading bit of k + 2^w becomes the lowest. */
  lemma {:induction false} BitRevTop(k: nat, w: nat)
    requires k < Pow(2, w)
    ensures Pow(2, w) > 0 && BitRev(Pow(2, w) + k, w + 1) == 1 + BitRev(k, w + 1)
  {
    PowPositive(2, w);
    if w == 0 {
      assert BitRev(1 + k, 1) == 1 && BitRev(k, 1) == 0;
    } else {
      BitRevTop(k / 2, w - 1);
      var m := Pow(2, w) + k;
      assert Pow(2, w) == 2 * Pow(2, w - 1);
      assert m / 2 == Pow(2, w - 1) + k / 2 && m % 2 == k % 2;
      assert BitRev(m, w + 1) == (m % 2) * Pow(2, w) + BitRev(m / 2, w);
    }
  }

  /** Leaf i holds X^n - root^(2 BitRev(i) + 1), as section 7.5 of FIPS 204 and section 4.3 of FIPS 203
      index their transforms. */
  lemma LeafFactor(d: Domain, i: nat)
    requires IsDomain(d) && i < Leaves(d)
    ensures Factor(d, Leaves(d) + i) == Pow(d.root, 2 * BitRev(i, d.bits) + 1) % d.q
  {
    hide BitRev, Pow, RootOfMinusOne, ScaleInverts, Mul, Sub;
    Pow2Values();
    var k, w := i / 2, d.bits;
    var node := Leaves(d) + i;
    BitRevTop(k, w - 1);
    BitRevChildren(k, w);
    assert Zeta(d, node / 2) == Pow(d.root, 1 + BitRev(k, w)) % d.q;
    if i == 2 * k + 1 {
      assert node % 2 == 1 && node >= 2;
      assert 2 * BitRev(i, w) + 1 == Pow(2, w) + (1 + BitRev(k, w));
      HalfTurn(d, 1 + BitRev(k, w));
    } else {
      assert i == 2 * k && node % 2 == 0;
      assert 2 * BitRev(i, w) + 1 == 1 + BitRev(k, w);
    }
  }

  // ----- for the loops that build the tables -----

  lemma BitRevNone(k: nat)
    ensures BitRev(k, 0) == 0
  {
  }

  /** k >> b */
  function Shr(k: nat, b: nat): (r: nat)
    ensures b == 0 ==> r == k
  {
    QuotientRange(k, Pow2(b));
    k / Pow2(b)
  }

  lemma Pow2Next(b: nat)
    ensures Pow2(b + 1) == 2 * Pow2(b)
  {
  }

  lemma HalveAgain(k: nat, p: int)
    requires p > 0
    ensures k / p / 2 == k / (2 * p)
  {
    var a, r := k / p, k % p;
    var h, l := a / 2, a % 2;
    assert k == a * p + r;
    assert a * p == (2 * h + l) * p == h * (2 * p) + l * p;
    assert 0 <= l * p <= p;
    QuotientIs(h, 2 * p, l * p + r);
  }

  lemma ShrHalves(k: nat, b: nat)
    ensures Shr(k, b + 1) == Shr(k, b) / 2
  {
    HalveAgain(k, Pow2(b));
    Pow2Next(b);
  }

  /** Bit b of k goes to the front of what is left to reverse. */
  lemma NextBit(k: nat, b: nat, w: nat)
    requires b < w
    ensures BitRev(Shr(k, b), w - b) == Shr(k, b) % 2 * Pow2(w - 1 - b) + BitRev(Shr(k, b + 1), w - 1 - b)
  {
    ShrHalves(k, b);
    hide Shr;
  }

  lemma LevelValid(d: Domain, f: seq<int>, b: int, n: int)
    requires d.q > 0 && |f| == N && Valid(d.q, f) && IsLevel(b, n)
    ensures Valid(d.q, Level(d, f, b, n))
  {
    hide Residue, Level, Degree, Canon;
    forall j | 0 <= j < N
      ensures Canon(d.q, Level(d, f, b, n)[j])
    {
      LevelEntry(d, f, b, n, j);
      CanonAt(d.q, Residue(d, f, b + j / n), j % n);
    }
  }

  lemma CombineLevelValid(d: Domain, v: seq<int>, b: int, n: int)
    requires d.q > 0 && |v| == N && Valid(d.q, v) && IsLevel(b, n) && b <= Leaves(d)
    ensures Valid(d.q, CombineLevel(d, v, b, n))
  {
    hide Combine, CombineLevel, Degree, Canon;
    forall j | 0 <= j < N
      ensures Canon(d.q, CombineLevel(d, v, b, n)[j])
    {
      CombineLevelEntry(d, v, b, n, j);
      CanonAt(d.q, Combine(d, v, b + j / n), j % n);
    }
  }
}
