/** The transform of ML-KEM: the loops of macula-mlkem/src/poly.rs, proved to compute Transform's
    Forward, Inverse and Pointwise. It stops at factors of degree 2. */
module MlKemNtt {
  import opened Modular
  import opened Polynomials
  import opened Transform
  import opened MlKemArith
  import opened Machine

  /** zeta = 17 has order 256 and 3303 is the inverse of 128. */
  const KEM: Domain := Domain(Q, 17, 7, 3303)

  lemma IsKemDomain()
    ensures IsDomain(KEM)
  {
    hide Squared, Pow;
    Base(Q, 17);
    SquaredIsPow(Q, 17, 7);
    Square(Q, 17, 0, 17, 289);
    Square(Q, 17, 1, 289, 296);
    Square(Q, 17, 2, 296, 1062);
    Square(Q, 17, 3, 1062, 2642);
    Square(Q, 17, 4, 2642, 2580);
    Square(Q, 17, 5, 2580, 1729);
    Square(Q, 17, 6, 1729, Q - 1);
    Pow2Values();
  }

  /** A polynomial of ML-KEM: 256 coefficients in [0, q). */
  predicate IsPoly(f: seq<int>) {
    |f| == N && Valid(Q, f)
  }

  /** The table ZETAS. */
  function Zetas(): (r: seq<int>)
    ensures |r| == 128 && Valid(Q, r)
  {
    seq(128, i requires 0 <= i < 128 => Zeta(KEM, i))
  }

  lemma ZetasAt(m: int)
    requires 0 <= m < 128
    ensures Zetas()[m] == Zeta(KEM, m) == Pow(17, BitRev(m, 7)) % Q
  {
  }

  /** The loop over the bits of i: bit b of i becomes bit 6 - b. */
  method ReverseBits(i: nat) returns (r: nat)
    ensures r == BitRev(i, 7)
  {
    hide BitRev, Shr;
    r := 0;
    var b := 0;
    while b < 7
      invariant 0 <= b <= 7
      invariant r + BitRev(Shr(i, b), 7 - b) == BitRev(i, 7)
    {
      NextBit(i, b, 7);
      // the bits set so far are above bit 6 - b, so | is +
      r := r + Shr(i, b) % 2 * Pow2(6 - b);
      b := b + 1;
    }
    assert BitRev(Shr(i, 7), 0) == 0 by { BitRevNone(Shr(i, 7)); }
  }

  /** The square-and-multiply loop. */
  method RootPower(r: nat) returns (acc: int)
    ensures acc == Pow(17, r) % Q
  {
    hide Pow;
    acc := 1;
    var base := 17;
    var e := r;
    assert 1 * Pow(base, e) == Pow(base, e);
    while e > 0
      invariant 0 <= e && 0 <= acc < Q && 0 <= base < Q
      invariant (acc * Pow(base, e)) % Q == Pow(17, r) % Q
      decreases e
    {
      PowStep(Q, acc, base, e);
      Scaled(acc, Q, base);
      Scaled(0, acc, base);
      Scaled(base, Q, base);
      Scaled(0, base, base);
      if e % 2 == 1 {
        acc := I32(acc * base) % Q;
      }
      base := I32(base * base) % Q;
      e := e / 2;
    }
    PowZero(base);
    ModCanon(Q, acc);
  }

  /** The loop over the table's entries. */
  method BuildZetas() returns (out: array<int>)
    ensures fresh(out) && out[..] == Zetas()
  {
    hide Zetas, Pow, BitRev;
    out := new int[128](_ => 0);
    var i := 0;
    while i < 128
      invariant 0 <= i <= 128
      invariant forall j :: 0 <= j < i ==> out[j] == Zetas()[j]
    {
      var r := ReverseBits(i);
      var acc := RootPower(r);
      ZetasAt(i);
      out[i] := I16(acc);
      i := i + 1;
    }
  }

  lemma PairLevel(b: int, n: int)
    requires IsLevel(b, n) && n >= 2
    ensures n / 2 >= 1 && (n / 2 < 2 ==> b == 128 && n == 2)
  {
  }

  lemma LongBlocks(b: int, n: int)
    requires IsLevel(b, n) && n >= 4
    ensures 2 * b <= 128
  {
  }

  /** One butterfly. */
  method SplitPair(f: array<int>, j: int, len: int, zeta: int)
    requires f.Length == N && Valid(Q, f[..]) && Canon(Q, zeta) && len >= 1 && 0 <= j && j + len < N
    modifies f
    ensures Valid(Q, f[..])
    ensures f[j] == Add(Q, old(f[j]), Mul(Q, zeta, old(f[j + len])))
      && f[j + len] == Sub(Q, old(f[j]), Mul(Q, zeta, old(f[j + len])))
    ensures forall i :: 0 <= i < N && i != j && i != j + len ==> f[i] == old(f[i])
  {
    hide MulQ, AddQ, SubQ, Add, Sub, Mul;
    var t := MulQ(zeta, f[j + len]);
    f[j + len] := SubQ(f[j], t);
    f[j] := AddQ(f[j], t);
  }

  /** The inner loop of the transform: the butterflies of one block. */
  method SplitBlock(f: array<int>, start: int, len: int, zeta: int)
    requires f.Length == N && Valid(Q, f[..]) && Canon(Q, zeta) && len >= 1 && 0 <= start && start + 2 * len <= N
    modifies f
    ensures f[..] == SplitAt(Q, zeta, old(f[..]), start, len)
  {
    hide Add, Sub, Mul, Valid, SplitAt;
    ghost var s := f[..];
    ghost var s' := SplitAt(Q, zeta, s, start, len);
    SplitAtElsewhere(Q, zeta, s, start, len);
    for j := start to start + len
      invariant Valid(Q, f[..])
      invariant forall i :: j <= i < start + len || j + len <= i < start + 2 * len ==> f[i] == s[i]
      invariant forall i :: 0 <= i < j || start + len <= i < j + len || start + 2 * len <= i < N ==> f[i] == s'[i]
    {
      SplitAtPair(Q, zeta, s, start, len, j);
      SplitPair(f, j, len, zeta);
    }
    assert f[..] == s';
  }

  /** The middle loop: all blocks of one level. */
  method SplitLevel(f: array<int>, i0: int, len: int, ghost f0: seq<int>, ghost b: int) returns (i: int)
    requires f.Length == N && IsPoly(f0) && len >= 2 && IsLevel(b, 2 * len) && i0 == b
    requires f[..] == Level(KEM, f0, b, 2 * len)
    modifies f
    ensures IsLevel(2 * b, len) && f[..] == Level(KEM, f0, 2 * b, len)
    ensures i == 2 * b
  {
    hide Level, Zeta, Zetas, BlockStart, SplitAt, Mixed, IsLevel, Pow, BitRev;
    var zetas := Zetas();
    LevelValid(KEM, f0, b, 2 * len);
    NextLevel(b, 2 * len);
    LongBlocks(b, 2 * len);
    BlockFits(b, 2 * len, 0);
    ghost var s, s' := Level(KEM, f0, b, 2 * len), Level(KEM, f0, 2 * b, len);
    i := i0;
    var start := 0;
    ghost var t := 0;
    while start < N
      invariant 0 <= t <= b && i == b + t
      invariant start <= N && (start == N <==> t == b) && start == BlockStart(t, 2 * len)
      invariant Valid(Q, f[..]) && f[..] == Mixed(s', s, start)
    {
      BlockFits(b, 2 * len, t);
      ZetasAt(i);
      SplitAdvances(KEM, f0, b, len, t);
      var zeta := zetas[i];
      i := i + 1;
      SplitBlock(f, start, len, zeta);
      start := start + 2 * len;
      t := t + 1;
      BlockFits(b, 2 * len, t);
    }
  }

  /** FIPS 203 Algorithm 9, in place. */
  method Ntt(f: array<int>)
    requires f.Length == N && IsPoly(f[..])
    modifies f
    ensures f[..] == Forward(KEM, old(f[..]))
  {
    hide Level, Forward, IsLevel;
    ghost var f0 := f[..];
    LevelEnds(KEM, f0);
    LevelBounds();
    var i := 1;
    var len := 128;
    ghost var b, n := 1, 256;
    while len >= 2
      invariant IsLevel(b, n) && len == n / 2 && len >= 1 && i == b
      invariant f[..] == Level(KEM, f0, b, n)
      decreases len
    {
      NextLevel(b, n);
      i := SplitLevel(f, i, len, f0, b);
      b, n := 2 * b, len;
      len := len / 2;
      PairLevel(b, n);
    }
    PairLevel(b, n);
  }

  lemma LastLevel(b: int, n: int)
    requires IsLevel(b, n) && n > 128
    ensures b == 1 && n == N
  {
  }

  /** What the inner loop of the inverse computes: the difference is taken the other way around, which
      makes up for the table entry not being negated. */
  function JoinFlippedAt(z: int, w: seq<int>, start: int, len: int): (r: seq<int>)
    requires 0 <= start && 0 <= len && start + 2 * len <= |w|
    ensures |r| == |w|
  {
    seq(|w|, j requires 0 <= j < |w| =>
      if start <= j < start + len then Add(Q, w[j], w[j + len])
      else if start + len <= j < start + 2 * len then Mul(Q, z, Sub(Q, w[j], w[j - len]))
      else w[j])
  }

  lemma JoinFlippedPair(z: int, w: seq<int>, start: int, len: int, j: int)
    requires 0 <= start <= j < start + len && start + 2 * len <= |w|
    ensures JoinFlippedAt(z, w, start, len)[j] == Add(Q, w[j], w[j + len])
    ensures JoinFlippedAt(z, w, start, len)[j + len] == Mul(Q, z, Sub(Q, w[j + len], w[j]))
  {
    hide Add, Sub, Mul;
  }

  lemma JoinFlippedElsewhere(z: int, w: seq<int>, start: int, len: int)
    requires 0 <= start && 0 <= len && start + 2 * len <= |w|
    ensures forall j :: 0 <= j < start || start + 2 * len <= j < |w| ==> JoinFlippedAt(z, w, start, len)[j] == w[j]
  {
    hide Add, Sub, Mul;
  }

  /** y (b - a) = (-y) (a - b) */
  lemma NegatedProduct(q: int, y: int, a: int, b: int)
    requires q > 0
    ensures Mul(q, y, Sub(q, b, a)) == Mul(q, Sub(q, 0, y), Sub(q, a, b))
  {
    ModMul(q, b - a, y);
    ModMul(q, -y, Sub(q, a, b));
    ModMul(q, a - b, -y);
    assert Sub(q, b, a) * y == y * Sub(q, b, a);
    assert Sub(q, a, b) * (-y) == (-y) * Sub(q, a, b);
    assert (a - b) * (-y) == (b - a) * y;
  }

  lemma JoinFlipped(node: int, m: int, w: seq<int>, start: int, len: int)
    requires 1 <= node < 128 && m == Mirror(node) && 0 <= m < 128
    requires 0 <= start && 0 <= len && start + 2 * len <= |w|
    ensures JoinFlippedAt(Zetas()[m], w, start, len) == JoinAt(Q, ZetaInverse(KEM, node), w, start, len)
  {
    hide Add, Sub, Mul, Zeta, Mirror;
    ZetasAt(m);
    forall j | start + len <= j < start + 2 * len
      ensures Mul(Q, Zetas()[m], Sub(Q, w[j], w[j - len])) == Mul(Q, ZetaInverse(KEM, node), Sub(Q, w[j - len], w[j]))
    {
      NegatedProduct(Q, Zetas()[m], w[j - len], w[j]);
    }
  }

  /** One butterfly. */
  method JoinPair(f: array<int>, j: int, len: int, zeta: int)
    requires f.Length == N && Valid(Q, f[..]) && Canon(Q, zeta) && len >= 1 && 0 <= j && j + len < N
    modifies f
    ensures Valid(Q, f[..])
    ensures f[j] == Add(Q, old(f[j]), old(f[j + len])) && f[j + len] == Mul(Q, zeta, Sub(Q, old(f[j + len]), old(f[j])))
    ensures forall i :: 0 <= i < N && i != j && i != j + len ==> f[i] == old(f[i])
  {
    hide MulQ, AddQ, SubQ, Add, Sub, Mul;
    var t := f[j];
    f[j] := AddQ(t, f[j + len]);
    f[j + len] := MulQ(zeta, SubQ(f[j + len], t));
  }

  /** The inner loop of the inverse transform: the butterflies of one block. */
  method JoinBlock(f: array<int>, start: int, len: int, zeta: int)
    requires f.Length == N && Valid(Q, f[..]) && Canon(Q, zeta) && len >= 1 && 0 <= start && start + 2 * len <= N
    modifies f
    ensures f[..] == JoinFlippedAt(zeta, old(f[..]), start, len)
  {
    hide Add, Sub, Mul, Valid, JoinFlippedAt;
    ghost var s := f[..];
    ghost var s' := JoinFlippedAt(zeta, s, start, len);
    JoinFlippedElsewhere(zeta, s, start, len);
    for j := start to start + len
      invariant Valid(Q, f[..])
      invariant forall i :: j <= i < start + len || j + len <= i < start + 2 * len ==> f[i] == s[i]
      invariant forall i :: 0 <= i < j || start + len <= i < j + len || start + 2 * len <= i < N ==> f[i] == s'[i]
    {
      JoinFlippedPair(zeta, s, start, len, j);
      JoinPair(f, j, len, zeta);
    }
    assert f[..] == s';
  }

  /** The middle loop: the blocks of one level joined in pairs. */
  method JoinLevel(f: array<int>, i0: int, len: int, ghost v: seq<int>, ghost b: int) returns (i: int)
    requires f.Length == N && IsPoly(v) && 1 <= len < N && 1 <= b <= 64 && IsLevel(2 * b, len) && i0 == 2 * b - 1
    requires f[..] == CombineLevel(KEM, v, 2 * b, len)
    modifies f
    ensures IsLevel(b, 2 * len) && f[..] == CombineLevel(KEM, v, b, 2 * len)
    ensures i == b - 1
  {
    hide CombineLevel, Zeta, Zetas, ZetaInverse, BlockStart, JoinAt, JoinFlippedAt, Mixed, IsLevel, Mirror, Pow,
         BitRev;
    var zetas := Zetas();
    PreviousLevel(b, len);
    CombineLevelValid(KEM, v, 2 * b, len);
    BlockFits(b, 2 * len, 0);
    ghost var s, s' := CombineLevel(KEM, v, 2 * b, len), CombineLevel(KEM, v, b, 2 * len);
    i := i0;
    var start := 0;
    ghost var t := 0;
    while start < N
      invariant 0 <= t <= b && i == 2 * b - 1 - t
      invariant start <= N && (start == N <==> t == b) && start == BlockStart(t, 2 * len)
      invariant Valid(Q, f[..]) && f[..] == Mixed(s', s, start)
    {
      BlockFits(b, 2 * len, t);
      JoinAdvances(KEM, v, b, len, t);
      JoinFlipped(b + t, i, f[..], start, len);
      var zeta := zetas[i];
      i := i - 1;
      JoinBlock(f, start, len, zeta);
      start := start + 2 * len;
      t := t + 1;
      BlockFits(b, 2 * len, t);
    }
  }

  method ScaleAll(f: array<int>, c: int)
    requires f.Length == N && IsPoly(f[..]) && Canon(Q, c)
    modifies f
    ensures f[..] == Scale(Q, c, old(f[..]))
  {
    hide MulQ, Mul;
    for i := 0 to N
      invariant IsPoly(f[..])
      invariant forall j :: 0 <= j < i ==> f[j] == Mul(Q, c, old(f[j]))
      invariant forall j :: i <= j < N ==> f[j] == old(f[j])
    {
      MulComm(Q, f[i], c);
      f[i] := MulQ(f[i], c);
    }
  }

  /** FIPS 203 Algorithm 10, in place. */
  method Intt(f: array<int>)
    requires f.Length == N && IsPoly(f[..])
    modifies f
    ensures f[..] == Inverse(KEM, old(f[..]))
  {
    hide CombineLevel, Joined, IsLevel, Scale;
    ghost var v := f[..];
    CombineLevelEnds(KEM, v);
    LevelBounds();
    var i := 127;
    var len := 2;
    ghost var b := 128;
    while len <= 128
      invariant IsLevel(b, len) && b <= 128 && i == b - 1
      invariant f[..] == CombineLevel(KEM, v, b, len)
      decreases N - len
    {
      EvenLevel(b, len);
      i := JoinLevel(f, i, len, v, b / 2);
      b := b / 2;
      len := 2 * len;
    }
    LastLevel(b, len);
    ScaleAll(f, 3303);
  }

  // ----- products of transforms -----

  lemma TimesLast(q: int, gamma: int, a1: int, b0: int, b1: int)
    requires q > 0
    ensures Times(q, gamma, [a1], [b0, b1]) == [Mul(q, a1, b0), Mul(q, a1, b1)]
  {
    assert [a1][1..] == [];
    assert Times(q, gamma, [], [b0, b1]) == [0, 0];
    MulZero(q, gamma);
    InRange(q, a1, b0);
    InRange(q, a1, b1);
    AddZero(q, Mul(q, a1, b0));
    AddZero(q, Mul(q, a1, b1));
  }

  /** (a0 + a1 X)(b0 + b1 X) modulo X^2 - gamma. */
  lemma TimesPairs(q: int, gamma: int, a0: int, a1: int, b0: int, b1: int)
    requires q > 0
    ensures Times(q, gamma, [a0, a1], [b0, b1])
         == [Add(q, Mul(q, a0, b0), Mul(q, Mul(q, a1, b1), gamma)), Add(q, Mul(q, a0, b1), Mul(q, a1, b0))]
  {
    var g := [b0, b1];
    assert [a0, a1][1..] == [a1] && [a1][1..] == [];
    TimesLast(q, gamma, a1, b0, b1);
    hide Mul, Add;
    var h := Times(q, gamma, [a1], g);
    assert TimesX(q, gamma, h) == [Mul(q, gamma, Mul(q, a1, b1)), Mul(q, a1, b0)];
    MulComm(q, gamma, Mul(q, a1, b1));
  }

  /** FIPS 203 Algorithm 12. */
  function BaseCaseMultiply(a0: int, a1: int, b0: int, b1: int, gamma: int): (c: (int, int))
    requires Canon(Q, a0) && Canon(Q, a1) && Canon(Q, b0) && Canon(Q, b1) && Canon(Q, gamma)
    ensures [c.0, c.1] == Times(Q, gamma, [a0, a1], [b0, b1])
  {
    TimesPairs(Q, gamma, a0, a1, b0, b1);
    var c0 := AddQ(MulQ(a0, b0), MulQ(MulQ(a1, b1), gamma));
    var c1 := AddQ(MulQ(a0, b1), MulQ(a1, b0));
    (c0, c1)
  }

  /** gamma = zeta^(2 BitRev7(i) + 1) is the constant of leaf i. */
  lemma GammaIsFactor(i: int, gamma: int)
    requires 0 <= i < 128 && gamma == Mul(Q, Mul(Q, Zetas()[i], Zetas()[i]), 17)
    ensures gamma == Factor(KEM, 128 + i)
  {
    IsKemDomain();
    LeafFactor(KEM, i);
    ZetasAt(i);
    var e := BitRev(i, 7);
    PowModAdd(Q, 17, e, e);
    PowModAdd(Q, 17, 2 * e, 1);
    ModCanon(Q, 17);
    assert Pow(17, 1) == 17;
  }

  lemma PointwisePair(a: seq<int>, b: seq<int>, i: int)
    requires IsPoly(a) && IsPoly(b) && 0 <= i < 128
    ensures [Pointwise(KEM, a, b)[2 * i], Pointwise(KEM, a, b)[2 * i + 1]]
         == Times(Q, Factor(KEM, 128 + i), [a[2 * i], a[2 * i + 1]], [b[2 * i], b[2 * i + 1]])
  {
    hide Times, Factor;
    var m := 128 + i;
    assert Leaf(KEM, 2 * i) == m && Leaf(KEM, 2 * i + 1) == m && Spot(KEM, 2 * i) == 0 && Spot(KEM, 2 * i + 1) == 1;
    assert Block(KEM, a, m) == [a[2 * i], a[2 * i + 1]] && Block(KEM, b, m) == [b[2 * i], b[2 * i + 1]];
  }

  /** FIPS 203 Algorithm 11. */
  method MultiplyNtts(a: seq<int>, b: seq<int>) returns (out: seq<int>)
    requires IsPoly(a) && IsPoly(b)
    ensures out == Pointwise(KEM, a, b)
  {
    hide MulQ, Pointwise, Times, BaseCaseMultiply;
    var o := new int[N](_ => 0);
    var zetas := Zetas();
    for i := 0 to 128
      invariant forall j :: 0 <= j < 2 * i ==> o[j] == Pointwise(KEM, a, b)[j]
    {
      var gamma := MulQ(MulQ(zetas[i], zetas[i]), 17);
      GammaIsFactor(i, gamma);
      PointwisePair(a, b, i);
      var (c0, c1) := BaseCaseMultiply(a[2 * i], a[2 * i + 1], b[2 * i], b[2 * i + 1], gamma);
      o[2 * i] := c0;
      o[2 * i + 1] := c1;
    }
    out := o[..];
    assert out == Pointwise(KEM, a, b);
  }

  method PolyAdd(a: seq<int>, b: seq<int>) returns (out: seq<int>)
    requires IsPoly(a) && IsPoly(b)
    ensures out == PAdd(Q, a, b)
  {
    hide AddQ, Add;
    var o := new int[N](_ => 0);
    for i := 0 to N
      invariant forall j :: 0 <= j < i ==> o[j] == Add(Q, a[j], b[j])
    {
      o[i] := AddQ(a[i], b[i]);
    }
    out := o[..];
    assert out == PAdd(Q, a, b);
  }

  method PolySub(a: seq<int>, b: seq<int>) returns (out: seq<int>)
    requires IsPoly(a) && IsPoly(b)
    ensures out == PSub(Q, a, b)
  {
    hide SubQ, Sub;
    var o := new int[N](_ => 0);
    for i := 0 to N
      invariant forall j :: 0 <= j < i ==> o[j] == Sub(Q, a[j], b[j])
    {
      o[i] := SubQ(a[i], b[i]);
    }
    out := o[..];
    assert out == PSub(Q, a, b);
  }

  // ----- what the transforms are for -----

  /** The two transforms undo each other in both orders. */
  lemma NttLaws(f: seq<int>)
    requires IsPoly(f)
    ensures Inverse(KEM, Forward(KEM, f)) == f && Forward(KEM, Inverse(KEM, f)) == f
  {
    hide Forward, Inverse;
    IsKemDomain();
    InverseOfForward(KEM, f);
    ForwardOfInverse(KEM, f);
  }

  /** Transforming, multiplying residue by residue and transforming back multiplies in Z_q[X]/(X^256 + 1):
      coefficient k is the schoolbook sum, in which X^256 counts as -1. */
  lemma NttMultiplies(f: seq<int>, g: seq<int>, k: nat)
    requires IsPoly(f) && IsPoly(g) && k < N
    ensures Inverse(KEM, Pointwise(KEM, Forward(KEM, f), Forward(KEM, g)))[k] == Schoolbook(Q, Q - 1, f, g, k)
  {
    hide Forward, Inverse, Pointwise, Schoolbook, Times;
    IsKemDomain();
    Convolution(KEM, f, g);
    MinusOne(Q);
    ProductCoefficient(Q, Q - 1, f, g, k);
  }
}
