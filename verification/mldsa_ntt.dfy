/** The transform of ML-DSA: the loops of macula-mldsa/src/poly.rs, proved to compute Transform's
    Forward and Inverse in place. */
module MlDsaNtt {
  import opened Modular
  import opened Polynomials
  import opened Transform
  import opened MlDsaArith
  import opened Machine

  /** zeta = 1753 has order 512 and 8347681 is the inverse of 256. */
  const DSA: Domain := Domain(Q, 1753, 8, 8_347_681)

  lemma IsDsaDomain()
    ensures IsDomain(DSA)
  {
    hide Squared, Pow;
    Base(Q, 1753);
    SquaredIsPow(Q, 1753, 8);
    Square(Q, 1753, 0, 1753, 3073009);
    Square(Q, 1753, 1, 3073009, 3602218);
    Square(Q, 1753, 2, 3602218, 5010068);
    Square(Q, 1753, 3, 5010068, 7778734);
    Square(Q, 1753, 4, 7778734, 5178923);
    Square(Q, 1753, 5, 5178923, 3765607);
    Square(Q, 1753, 6, 3765607, 4808194);
    Square(Q, 1753, 7, 4808194, Q - 1);
    Pow2Values();
  }

  /** The table ZETAS; entry 0 is unused and 0. */
  function Zetas(): (r: seq<int>)
    ensures |r| == N && Valid(Q, r)
  {
    seq(N, k requires 0 <= k < N => if k == 0 then 0 else Zeta(DSA, k))
  }

  lemma ZetasAt(m: int)
    requires 1 <= m < N
    ensures Zetas()[m] == Zeta(DSA, m) == Pow(1753, BitRev(m, 8)) % Q
  {
  }

  lemma ZetasZero()
    ensures Zetas()[0] == 0
  {
  }

  /** The loop over the bits of k: bit b of k becomes bit 7 - b. */
  method ReverseBits(k: nat) returns (r: nat)
    ensures r == BitRev(k, 8)
  {
    hide BitRev, Shr;
    r := 0;
    var b := 0;
    while b < 8
      invariant 0 <= b <= 8
      invariant r + BitRev(Shr(k, b), 8 - b) == BitRev(k, 8)
    {
      NextBit(k, b, 8);
      // the bits set so far are above bit 7 - b, so | is +
      r := r + Shr(k, b) % 2 * Pow2(7 - b);
      b := b + 1;
    }
    assert BitRev(Shr(k, 8), 0) == 0 by { BitRevNone(Shr(k, 8)); }
  }

  /** The square-and-multiply loop. */
  method RootPower(r: nat) returns (acc: int)
    ensures acc == Pow(1753, r) % Q
  {
    hide Pow;
    acc := 1;
    var base := 1753;
    var e := r;
    assert 1 * Pow(base, e) == Pow(base, e);
    while e > 0
      invariant 0 <= e && 0 <= acc < Q && 0 <= base < Q
      invariant (acc * Pow(base, e)) % Q == Pow(1753, r) % Q
      decreases e
    {
      PowStep(Q, acc, base, e);
      Scaled(acc, Q, base);
      Scaled(0, acc, base);
      Scaled(base, Q, base);
      Scaled(0, base, base);
      if e % 2 == 1 {
        acc := U64(acc * base) % Q;
      }
      base := U64(base * base) % Q;
      e := e / 2;
    }
    PowZero(base);
    ModCanon(Q, acc);
  }

  /** The loop over the table's entries. */
  method BuildZetas() returns (out: array<int>)
    ensures fresh(out) && out[..] == Zetas()
  {
    hide Zetas, Pow, BitRev;
    out := new int[N](_ => 0);
    var k := 1;
    assert Zetas()[0] == 0 by { ZetasZero(); }
    while k < N
      invariant 1 <= k <= N
      invariant forall i :: 0 <= i < k ==> out[i] == Zetas()[i]
    {
      var r := ReverseBits(k);
      var acc := RootPower(r);
      ZetasAt(k);
      out[k] := I32(acc);
      k := k + 1;
    }
  }

  /** One butterfly. */
  method SplitPair(w: array<int>, j: int, len: int, z: int)
    requires w.Length == N && Valid(Q, w[..]) && Canon(Q, z) && len >= 1 && 0 <= j && j + len < N
    modifies w
    ensures Valid(Q, w[..])
    ensures w[j] == Add(Q, old(w[j]), Mul(Q, z, old(w[j + len])))
      && w[j + len] == Sub(Q, old(w[j]), Mul(Q, z, old(w[j + len])))
    ensures forall i :: 0 <= i < N && i != j && i != j + len ==> w[i] == old(w[i])
  {
    hide MulQ, AddQ, SubQ, Add, Sub, Mul;
    var x := MulQ(z, w[j + len]);
    w[j + len] := SubQ(w[j], x);
    w[j] := AddQ(w[j], x);
  }

  /** The inner loop of the transform: the butterflies of one block. */
  method SplitBlock(w: array<int>, start: int, len: int, z: int)
    requires w.Length == N && Valid(Q, w[..]) && Canon(Q, z) && len >= 1 && 0 <= start && start + 2 * len <= N
    modifies w
    ensures w[..] == SplitAt(Q, z, old(w[..]), start, len)
  {
    hide Add, Sub, Mul, Valid, SplitAt;
    ghost var s := w[..];
    ghost var s' := SplitAt(Q, z, s, start, len);
    SplitAtElsewhere(Q, z, s, start, len);
    for j := start to start + len
      invariant Valid(Q, w[..])
      invariant forall i :: j <= i < start + len || j + len <= i < start + 2 * len ==> w[i] == s[i]
      invariant forall i :: 0 <= i < j || start + len <= i < j + len || start + 2 * len <= i < N ==> w[i] == s'[i]
    {
      SplitAtPair(Q, z, s, start, len, j);
      SplitPair(w, j, len, z);
    }
    assert w[..] == s';
  }

  /** The middle loop: all blocks of one level. */
  method SplitLevel(w: array<int>, m0: int, len: int, ghost f: seq<int>, ghost b: int) returns (m: int)
    requires w.Length == N && IsPoly(f) && len >= 1 && IsLevel(b, 2 * len) && m0 == b - 1
    requires w[..] == Level(DSA, f, b, 2 * len)
    modifies w
    ensures IsLevel(2 * b, len) && w[..] == Level(DSA, f, 2 * b, len)
    ensures m == 2 * b - 1
  {
    hide Level, Zeta, Zetas, BlockStart, SplitAt, Mixed, IsLevel, Pow, BitRev;
    var zetas := Zetas();
    LevelValid(DSA, f, b, 2 * len);
    NextLevel(b, 2 * len);
    BlockFits(b, 2 * len, 0);
    ghost var s, s' := Level(DSA, f, b, 2 * len), Level(DSA, f, 2 * b, len);
    m := m0;
    var start := 0;
    ghost var t := 0;
    while start < N
      invariant 0 <= t <= b && m == b - 1 + t
      invariant start <= N && (start == N <==> t == b) && start == BlockStart(t, 2 * len)
      invariant Valid(Q, w[..]) && w[..] == Mixed(s', s, start)
    {
      BlockFits(b, 2 * len, t);
      m := m + 1;
      ZetasAt(m);
      SplitAdvances(DSA, f, b, len, t);
      SplitBlock(w, start, len, zetas[m]);
      start := start + 2 * len;
      t := t + 1;
      BlockFits(b, 2 * len, t);
    }
  }

  /** FIPS 204 Algorithm 41, in place. */
  method Ntt(w: array<int>)
    requires w.Length == N && IsPoly(w[..])
    modifies w
    ensures w[..] == Forward(DSA, old(w[..]))
  {
    ghost var f := w[..];
    hide Level, Forward, IsLevel;
    LevelEnds(DSA, f);
    LevelBounds();
    var m := 0;
    var len := 128;
    ghost var b, n := 1, 256;
    while len >= 1
      invariant IsLevel(b, n) && len == n / 2 && m == b - 1
      invariant w[..] == Level(DSA, f, b, n)
      decreases len
    {
      NextLevel(b, n);
      m := SplitLevel(w, m, len, f, b);
      b, n := 2 * b, len;
      len := len / 2;
    }
    NextLevel(b, n);
  }

  /** One butterfly. */
  method JoinPair(w: array<int>, j: int, len: int, z: int)
    requires w.Length == N && Valid(Q, w[..]) && Canon(Q, z) && len >= 1 && 0 <= j && j + len < N
    modifies w
    ensures Valid(Q, w[..])
    ensures w[j] == Add(Q, old(w[j]), old(w[j + len])) && w[j + len] == Mul(Q, z, Sub(Q, old(w[j]), old(w[j + len])))
    ensures forall i :: 0 <= i < N && i != j && i != j + len ==> w[i] == old(w[i])
  {
    hide MulQ, AddQ, SubQ, Add, Sub, Mul;
    var t := w[j];
    w[j] := AddQ(t, w[j + len]);
    w[j + len] := SubQ(t, w[j + len]);
    w[j + len] := MulQ(z, w[j + len]);
  }

  /** The inner loop of the inverse transform: the butterflies of one block. */
  method JoinBlock(w: array<int>, start: int, len: int, z: int)
    requires w.Length == N && Valid(Q, w[..]) && Canon(Q, z) && len >= 1 && 0 <= start && start + 2 * len <= N
    modifies w
    ensures w[..] == JoinAt(Q, z, old(w[..]), start, len)
  {
    hide Add, Sub, Mul, Valid, JoinAt;
    ghost var s := w[..];
    ghost var s' := JoinAt(Q, z, s, start, len);
    JoinAtElsewhere(Q, z, s, start, len);
    for j := start to start + len
      invariant Valid(Q, w[..])
      invariant forall i :: j <= i < start + len || j + len <= i < start + 2 * len ==> w[i] == s[i]
      invariant forall i :: 0 <= i < j || start + len <= i < j + len || start + 2 * len <= i < N ==> w[i] == s'[i]
    {
      JoinAtPair(Q, z, s, start, len, j);
      JoinPair(w, j, len, z);
    }
    assert w[..] == s';
  }

  /** Q - zeta, as the code negates a table entry, is in range because no entry but the unused one is 0. */
  lemma NegatedZeta(node: int, m: int)
    requires 1 <= node < 256 && m == Mirror(node) && 1 <= m < 256
    ensures Canon(Q, Q - Zetas()[m]) && Q - Zetas()[m] == ZetaInverse(DSA, node)
  {
    hide Pow, BitRev, RootOfMinusOne, ScaleInverts;
    IsDsaDomain();
    ZetaInverseCorrect(DSA, node);
    ZetasAt(m);
    MulZero(Q, Zeta(DSA, node));
    if Zetas()[m] != 0 {
      ModOf(Q, -1, Q - Zetas()[m]);
    }
  }

  /** The middle loop: the blocks of one level joined in pairs. */
  method JoinLevel(w: array<int>, m0: int, len: int, ghost v: seq<int>, ghost b: int) returns (m: int)
    requires w.Length == N && IsPoly(v) && 1 <= len < N && b >= 1 && IsLevel(2 * b, len) && m0 == 2 * b
    requires w[..] == CombineLevel(DSA, v, 2 * b, len)
    modifies w
    ensures IsLevel(b, 2 * len) && w[..] == CombineLevel(DSA, v, b, 2 * len)
    ensures m == b
  {
    hide CombineLevel, Zeta, Zetas, ZetaInverse, BlockStart, JoinAt, Mixed, IsLevel, Mirror, Pow, BitRev;
    var zetas := Zetas();
    PreviousLevel(b, len);
    CombineLevelValid(DSA, v, 2 * b, len);
    BlockFits(b, 2 * len, 0);
    ghost var s, s' := CombineLevel(DSA, v, 2 * b, len), CombineLevel(DSA, v, b, 2 * len);
    m := m0;
    var start := 0;
    ghost var t := 0;
    while start < N
      invariant 0 <= t <= b && m == 2 * b - t
      invariant start <= N && (start == N <==> t == b) && start == BlockStart(t, 2 * len)
      invariant Valid(Q, w[..]) && w[..] == Mixed(s', s, start)
    {
      BlockFits(b, 2 * len, t);
      m := m - 1;
      JoinAdvances(DSA, v, b, len, t);
      NegatedZeta(b + t, m);
      JoinBlock(w, start, len, I32(Q - zetas[m]));
      start := start + 2 * len;
      t := t + 1;
      BlockFits(b, 2 * len, t);
    }
  }

  method ScaleAll(w: array<int>, c: int)
    requires w.Length == N && IsPoly(w[..]) && Canon(Q, c)
    modifies w
    ensures w[..] == Scale(Q, c, old(w[..]))
  {
    hide MulQ, Mul;
    for i := 0 to N
      invariant IsPoly(w[..])
      invariant forall j :: 0 <= j < i ==> w[j] == Mul(Q, c, old(w[j]))
      invariant forall j :: i <= j < N ==> w[j] == old(w[j])
    {
      w[i] := MulQ(c, w[i]);
    }
  }

  /** FIPS 204 Algorithm 42, in place: the levels in the opposite order, then 256^-1 on every coefficient. */
  method NttInverse(w: array<int>)
    requires w.Length == N && IsPoly(w[..])
    modifies w
    ensures w[..] == Inverse(DSA, old(w[..]))
  {
    hide CombineLevel, Joined, IsLevel, Scale;
    ghost var v := w[..];
    CombineLevelEnds(DSA, v);
    LevelBounds();
    var m := N;
    var len := 1;
    ghost var b := 256;
    while len < N
      invariant IsLevel(b, len) && m == b && b <= 256
      invariant w[..] == CombineLevel(DSA, v, b, len)
      decreases N - len
    {
      EvenLevel(b, len);
      m := JoinLevel(w, m, len, v, b / 2);
      b := b / 2;
      len := 2 * len;
    }
    OneBlock(b, len);
    ScaleAll(w, 8_347_681);
  }

  lemma TimesScalars(q: int, c: int, a: int, b: int)
    requires q > 0
    ensures Times(q, c, [a], [b]) == [Mul(q, a, b)]
  {
    var h := Times(q, c, [a][1..], [b]);
    assert h == [0];
    MulZero(q, c);
    InRange(q, a, b);
    AddZero(q, Mul(q, a, b));
  }

  /** Modulo a factor of degree 1 the product of two residues is the product of two numbers. */
  lemma PointwiseAt(a: seq<int>, b: seq<int>)
    requires IsPoly(a) && IsPoly(b)
    ensures forall j :: 0 <= j < N ==> Pointwise(DSA, a, b)[j] == Mul(Q, a[j], b[j])
  {
    forall j | 0 <= j < N
      ensures Pointwise(DSA, a, b)[j] == Mul(Q, a[j], b[j])
    {
      TimesScalars(Q, Factor(DSA, 256 + j), a[j], b[j]);
    }
  }

  /** The product of two transforms, coefficient by coefficient, added to acc: FIPS 204 Algorithm 45. */
  method MultiplyAddNtt(acc: array<int>, a: seq<int>, b: seq<int>)
    requires acc.Length == N && IsPoly(acc[..]) && IsPoly(a) && IsPoly(b)
    modifies acc
    ensures acc[..] == PAdd(Q, old(acc[..]), Pointwise(DSA, a, b))
  {
    PointwiseAt(a, b);
    hide MulQ, AddQ, Mul, Add, Pointwise;
    for i := 0 to N
      invariant IsPoly(acc[..])
      invariant forall j :: 0 <= j < i ==> acc[j] == Add(Q, old(acc[j]), Mul(Q, a[j], b[j]))
      invariant forall j :: i <= j < N ==> acc[j] == old(acc[j])
    {
      acc[i] := AddQ(acc[i], MulQ(a[i], b[i]));
    }
  }

  // ----- what the transforms are for -----

  /** The two transforms undo each other in both orders. */
  lemma NttLaws(f: seq<int>)
    requires IsPoly(f)
    ensures Inverse(DSA, Forward(DSA, f)) == f && Forward(DSA, Inverse(DSA, f)) == f
  {
    hide Forward, Inverse;
    IsDsaDomain();
    InverseOfForward(DSA, f);
    ForwardOfInverse(DSA, f);
  }

  /** Transforming, multiplying and transforming back multiplies in Z_q[X]/(X^256 + 1): coefficient k is the
      schoolbook sum, in which X^256 counts as -1. */
  lemma NttMultiplies(f: seq<int>, g: seq<int>, k: nat)
    requires IsPoly(f) && IsPoly(g) && k < N
    ensures Inverse(DSA, Pointwise(DSA, Forward(DSA, f), Forward(DSA, g)))[k] == Schoolbook(Q, Q - 1, f, g, k)
  {
    hide Forward, Inverse, Pointwise, Schoolbook, Times;
    IsDsaDomain();
    Convolution(DSA, f, g);
    MinusOne(Q);
    ProductCoefficient(Q, Q - 1, f, g, k);
  }
}
