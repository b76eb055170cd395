/** The scalar arithmetic of ML-DSA: macula-mldsa/src/poly.rs, q = 8380417. */
module MlDsaArith {
  import opened Machine
  import opened Polynomials
  import opened Bits
  import M = Modular

  const Q := 8_380_417
  const D := 13

  /** A polynomial of ML-DSA: 256 coefficients in [0, q). */
  predicate IsPoly(f: seq<int>) {
    |f| == N && Valid(Q, f)
  }

  /** The quotient estimate is the true quotient or one below it. */
  lemma BarrettRemainder(a: int, t: int, v: int)
    requires 0 <= a < 0x1_0000_0000_0000
    requires v == 0x40_0000_0000_0000_0000 / Q && t == a * v / 0x40_0000_0000_0000_0000
    ensures 0 <= a - t * Q < 2 * Q
  {
    var k := 0x40_0000_0000_0000_0000;
    var e := k - v * Q;
    assert 0 <= e < Q;
    assert a * v * Q == a * k - a * e by {
      assert a * v * Q == a * (v * Q);
    }
    assert t * k <= a * v < t * k + k;
    assert 0 <= a * e <= a * Q;
  }

  /** Barrett reduction: the remainder modulo q of any a below 2^48. */
  function Reduce(a: int): (r: int)
    requires 0 <= a < 0x1_0000_0000_0000
    ensures r == a % Q && 0 <= r < Q
  {
    var v := 0x40_0000_0000_0000_0000 / Q;
    var t := U64(U128(a * v) / 0x40_0000_0000_0000_0000);
    BarrettRemainder(a, t, v);
    var r := I64(U64(a - U64(t * Q)) - Q);
    I32(I64(r + WhenNegative(r, Q)))
  }

  function MulQ(a: int, b: int): (r: int)
    requires 0 <= a < Q && 0 <= b < Q
    ensures r == M.Mul(Q, a, b) && 0 <= r < Q
  {
    Scaled(a, Q, b);
    Scaled(0, a, b);
    Reduce(U64(a * b))
  }

  function AddQ(a: int, b: int): (r: int)
    requires 0 <= a < Q && 0 <= b < Q
    ensures r == M.Add(Q, a, b) && 0 <= r < Q
  {
    var s := I32(I32(a + b) - Q);
    I32(s + WhenNegative(s, Q))
  }

  function SubQ(a: int, b: int): (r: int)
    requires 0 <= a < Q && 0 <= b < Q
    ensures r == M.Sub(Q, a, b) && 0 <= r < Q
  {
    var d := I32(a - b);
    I32(d + WhenNegative(d, Q))
  }

  function FromSigned(v: int): (r: int)
    requires -Q < v < Q
    ensures r == v % Q && 0 <= r < Q
  {
    I32(v + WhenNegative(v, Q))
  }

  // ----- rounding -----

  /** The two values gamma2 takes. */
  predicate IsGamma2(gamma2: int) {
    gamma2 == (Q - 1) / 88 || gamma2 == (Q - 1) / 32
  }

  /** r = r1 2^13 + r0 with r0 in (-2^12, 2^12]. */
  function Power2Round(r: int): (p: (int, int))
    requires 0 <= r < Q
    ensures r == p.0 * 8192 + p.1 && -4096 < p.1 <= 4096 && 0 <= p.0 < 1024
  {
    var low := r % 8192;
    var r0 := I32(low - WhenNegative(I32(4096 - low), 8192));
    (I32(r - r0) / 8192, r0)
  }

  lemma MagicRange(alpha: int, m: int)
    requires 0x2_0000 < alpha < 0x100_0000 && m == (0x1_0000_0000_0000 + alpha - 1) / alpha
    ensures 0 <= m * alpha - 0x1_0000_0000_0000 < alpha
    ensures 0 <= m <= 0x8000_0000
  {
    var y := 0x1_0000_0000_0000 + alpha - 1;
    assert y == m * alpha + y % alpha;
    if m <= -1 { Scaled(m, -1, alpha); }
    if m > 0x8000_0000 {
      Scaled(0x8000_0001, m, alpha);
    }
  }

  lemma DivFloorExact(x: int, alpha: int, m: int)
    requires 0 <= x < 0x100_0000 && 0x2_0000 < alpha < 0x100_0000
    requires m == (0x1_0000_0000_0000 + alpha - 1) / alpha
    ensures 0 <= m <= 0x8000_0000 && 0 <= x * m <= 0x100_0000 * 0x8000_0000
    ensures x * m / 0x1_0000_0000_0000 == x / alpha
    ensures 0 <= x / alpha <= x
  {
    var k := 0x1_0000_0000_0000;
    var e := m * alpha - k;
    MagicRange(alpha, m);
    Scaled(x, 0xFF_FFFF, e);
    CeilingMagic(x, alpha, m, k, e);
    Scaled(x, 0x100_0000, m);
    QuotientRange(x, alpha);
  }

  /** x / alpha by a multiplication and a shift. */
  function DivFloor(x: int, alpha: int): (r: int)
    requires 0 <= x < 0x100_0000 && 0x2_0000 < alpha < 0x100_0000
    ensures r == x / alpha
  {
    var k := 0x1_0000_0000_0000;
    var m := U64((k + alpha - 1) / alpha);
    DivFloorExact(x, alpha, m);
    I32(U64(x * m) / k)
  }

  /** The number of values HighBits takes. */
  function HighCount(gamma2: int): (m: int)
    requires gamma2 > 0
  {
    (Q - 1) / (2 * gamma2)
  }

  /** FIPS 204 Algorithm 36 as the standard writes it, with division and remainder. */
  function DecomposeStandard(r: int, gamma2: int): (p: (int, int))
    requires gamma2 > 0
  {
    var alpha := 2 * gamma2;
    var low := r % alpha;
    var r0 := if low > gamma2 then low - alpha else low;
    if r - r0 == Q - 1 then (0, r0 - 1) else ((r - r0) / alpha, r0)
  }

  lemma Window44(r: int)
    requires 0 <= r < Q
    ensures var k := (r + 95231) / 190464;
      && 0 <= k <= 44 && HighCount(95232) == 44
      && -95232 < r - k * 190464 <= 95232
      && DecomposeStandard(r, 95232) == if k == 44 then (0, r - k * 190464 - 1) else (k, r - k * 190464)
  {
  }

  lemma Window16(r: int)
    requires 0 <= r < Q
    ensures var k := (r + 261887) / 523776;
      && 0 <= k <= 16 && HighCount(261888) == 16
      && -261888 < r - k * 523776 <= 261888
      && DecomposeStandard(r, 261888) == if k == 16 then (0, r - k * 523776 - 1) else (k, r - k * 523776)
  {
  }

  /** r lies in the window of width 2 gamma2 centered on r1 * 2 gamma2, r1 = (r + gamma2 - 1) / 2 gamma2. */
  lemma WindowOf(r: int, gamma2: int)
    requires 0 <= r < Q && IsGamma2(gamma2)
    ensures var k := (r + gamma2 - 1) / (2 * gamma2);
      && 0 <= k <= HighCount(gamma2)
      && -gamma2 < r - k * (2 * gamma2) <= gamma2
      && DecomposeStandard(r, gamma2) == if k == HighCount(gamma2) then (0, r - k * (2 * gamma2) - 1)
        else (k, r - k * (2 * gamma2))
  {
    if gamma2 == 95232 { Window44(r); } else { Window16(r); }
  }

  /** The branch-free decomposition is the standard's. */
  function Decompose(r: int, gamma2: int): (p: (int, int))
    requires 0 <= r < Q && IsGamma2(gamma2)
    ensures p == DecomposeStandard(r, gamma2)
  {
    var alpha := I32(2 * gamma2);
    var r1 := DivFloor(I32(r + gamma2 - 1), alpha);
    WindowOf(r, gamma2);
    var r0 := I32(r - I32(r1 * alpha));
    var m := (Q - 1) / alpha;
    // edge is all ones when r1 >= m and zero below: it clears r1 and takes 1 from r0
    (WhenNegative(I32(r1 - m), r1), r0 - 1 + WhenNegative(I32(r1 - m), 1))
  }

  function HighBits(r: int, gamma2: int): (r1: int)
    requires 0 <= r < Q && IsGamma2(gamma2)
    ensures 0 <= r1 < HighCount(gamma2)
  {
    WindowOf(r, gamma2);
    Decompose(r, gamma2).0
  }

  function LowBits(r: int, gamma2: int): (r0: int)
    requires 0 <= r < Q && IsGamma2(gamma2)
    ensures -gamma2 <= r0 <= gamma2
  {
    WindowOf(r, gamma2);
    Decompose(r, gamma2).1
  }

  lemma SixBits(gamma2: int)
    requires IsGamma2(gamma2)
    ensures HighCount(gamma2) <= 44 && M.Pow2(6) == 64
  {
  }

  /** 1 when adding z to r changes the high bits, else 0. The XOR d of the two high parts, both below 2^6, is
      never negative, so (d | -d) has the sign bit of -d. */
  function MakeHint(z: int, r: int, gamma2: int): (h: int)
    requires 0 <= z < Q && 0 <= r < Q && IsGamma2(gamma2)
    ensures h == if HighBits(r, gamma2) == HighBits(AddQ(r, z), gamma2) then 0 else 1
  {
    hide HighBits, AddQ, Xor, M.Pow2;
    var a, b := HighBits(r, gamma2), HighBits(AddQ(r, z), gamma2);
    SixBits(gamma2);
    XorIs(a, b, 6);
    var d: int := Xor(a, b, 6);
    WhenNegative(I32(-d), 1)
  }

  function UseHint(h: int, r: int, gamma2: int): (r1: int)
    requires 0 <= r < Q && IsGamma2(gamma2)
    ensures 0 <= r1 < HighCount(gamma2)
  {
    var m := HighCount(gamma2);
    var (r1, r0) := Decompose(r, gamma2);
    WindowOf(r, gamma2);
    if h == 1 then
      if r0 > 0 then (r1 + 1) % m else (r1 + m - 1) % m
    else r1
  }

  /** The distance of c from 0 modulo q. */
  function CenteredAbs(c: int): (a: int)
    requires 0 <= c < Q
    ensures a == if c <= Q / 2 then c else Q - c
  {
    var v := I32(c - WhenNegative(I32((Q - 1) / 2 - c), Q));
    if v < 0 then -v else v
  }

  // ----- the hint algebra of section 7.4 of FIPS 204 -----

  lemma HighLow44(r: int)
    requires 0 <= r < Q
    ensures var k := (r + 95231) / 190464;
      && 0 <= k <= 44 && HighCount(95232) == 44 && -95232 < r - k * 190464 <= 95232
      && HighBits(r, 95232) == (if k == 44 then 0 else k)
      && LowBits(r, 95232) == if k == 44 then r - k * 190464 - 1 else r - k * 190464
  {
    WindowOf(r, 95232);
    hide DecomposeStandard, DivFloor;
  }

  lemma HighLow16(r: int)
    requires 0 <= r < Q
    ensures var k := (r + 261887) / 523776;
      && 0 <= k <= 16 && HighCount(261888) == 16 && -261888 < r - k * 523776 <= 261888
      && HighBits(r, 261888) == (if k == 16 then 0 else k)
      && LowBits(r, 261888) == if k == 16 then r - k * 523776 - 1 else r - k * 523776
  {
    WindowOf(r, 261888);
    hide DecomposeStandard, DivFloor;
  }

  /** r and r + z, reduced, are |z| apart on the circle of length q. */
  lemma SumIsNear(r: int, z: int)
    requires 0 <= r < Q && 0 <= z < Q
    ensures var s, a := AddQ(r, z), CenteredAbs(z);
      && 0 <= s < Q
      && (s - r == a || s - r == a - Q || s - r == -a || s - r == Q - a)
  {
    M.ModOf(Q, if r + z < Q then 0 else 1, if r + z < Q then r + z else r + z - Q);
  }

  lemma Neighbours44(r: int, s: int, a: int, k: int, j: int)
    requires 0 <= r < Q && 0 <= s < Q && 0 <= a <= 95232 && 0 <= k <= 44 && 0 <= j <= 44
    requires s - r == a || s - r == a - Q || s - r == -a || s - r == Q - a
    requires -95232 < r - k * 190464 <= 95232 && -95232 < s - j * 190464 <= 95232
    ensures var r1, r0, s1 := if k == 44 then 0 else k, if k == 44 then r - k * 190464 - 1 else r - k * 190464,
                              if j == 44 then 0 else j;
      s1 == r1 || s1 == if r0 > 0 then (r1 + 1) % 44 else (r1 + 43) % 44
  {
  }

  lemma Neighbours16(r: int, s: int, a: int, k: int, j: int)
    requires 0 <= r < Q && 0 <= s < Q && 0 <= a <= 261888 && 0 <= k <= 16 && 0 <= j <= 16
    requires s - r == a || s - r == a - Q || s - r == -a || s - r == Q - a
    requires -261888 < r - k * 523776 <= 261888 && -261888 < s - j * 523776 <= 261888
    ensures var r1, r0, s1 := if k == 16 then 0 else k, if k == 16 then r - k * 523776 - 1 else r - k * 523776,
                              if j == 16 then 0 else j;
      s1 == r1 || s1 == if r0 > 0 then (r1 + 1) % 16 else (r1 + 15) % 16
  {
  }

  /** Walking at most gamma2 from r, on the circle, leads to the window of r or to the next one in the
      direction of the low bits of r; the windows go around at HighCount. */
  lemma Neighbours(r: int, s: int, a: int, gamma2: int)
    requires 0 <= r < Q && 0 <= s < Q && IsGamma2(gamma2) && 0 <= a <= gamma2
    requires s - r == a || s - r == a - Q || s - r == -a || s - r == Q - a
    ensures var m, r1, s1 := HighCount(gamma2), HighBits(r, gamma2), HighBits(s, gamma2);
      s1 == r1 || s1 == if LowBits(r, gamma2) > 0 then (r1 + 1) % m else (r1 + m - 1) % m
  {
    hide HighBits, LowBits, HighCount;
    if gamma2 == 95232 {
      HighLow44(r);
      HighLow44(s);
      Neighbours44(r, s, a, (r + 95231) / 190464, (s + 95231) / 190464);
    } else {
      HighLow16(r);
      HighLow16(s);
      Neighbours16(r, s, a, (r + 261887) / 523776, (s + 261887) / 523776);
    }
  }

  /** The hint recovers the high bits of r + z from r alone, for every z within gamma2 of 0. */
  lemma HintRecoversHighBits(z: int, r: int, gamma2: int)
    requires 0 <= z < Q && 0 <= r < Q && IsGamma2(gamma2) && CenteredAbs(z) <= gamma2
    ensures UseHint(MakeHint(z, r, gamma2), r, gamma2) == HighBits(AddQ(r, z), gamma2)
  {
    SumIsNear(r, z);
    hide Decompose, AddQ, CenteredAbs;
    Neighbours(r, AddQ(r, z), CenteredAbs(z), gamma2);
  }

  lemma SameWindow44(r: int, s: int, a: int, beta: int, k: int, j: int)
    requires 0 <= r < Q && 0 <= s < Q && 0 <= a <= beta && 0 <= k <= 44 && 0 <= j <= 44
    requires s - r == a || s - r == a - Q || s - r == -a || s - r == Q - a
    requires -95232 < r - k * 190464 <= 95232 && -95232 < s - j * 190464 <= 95232
    requires var r0 := if k == 44 then r - k * 190464 - 1 else r - k * 190464; -(95232 - beta) < r0 < 95232 - beta
    ensures (if k == 44 then 0 else k) == if j == 44 then 0 else j
  {
  }

  lemma SameWindow16(r: int, s: int, a: int, beta: int, k: int, j: int)
    requires 0 <= r < Q && 0 <= s < Q && 0 <= a <= beta && 0 <= k <= 16 && 0 <= j <= 16
    requires s - r == a || s - r == a - Q || s - r == -a || s - r == Q - a
    requires -261888 < r - k * 523776 <= 261888 && -261888 < s - j * 523776 <= 261888
    requires var r0 := if k == 16 then r - k * 523776 - 1 else r - k * 523776; -(261888 - beta) < r0 < 261888 - beta
    ensures (if k == 16 then 0 else k) == if j == 16 then 0 else j
  {
  }

  lemma SmallChange44(r: int, s: int, beta: int)
    requires 0 <= r < Q && 0 <= s < Q && 0 <= beta && CenteredAbs(s) <= beta
    requires -(95232 - beta) < LowBits(r, 95232) < 95232 - beta
    ensures HighBits(AddQ(r, s), 95232) == HighBits(r, 95232)
  {
    hide HighBits, LowBits, HighCount, AddQ, CenteredAbs;
    var t, a := AddQ(r, s), CenteredAbs(s);
    SumIsNear(r, s);
    HighLow44(r);
    HighLow44(t);
    SameWindow44(r, t, a, beta, (r + 95231) / 190464, (t + 95231) / 190464);
  }

  lemma SmallChange16(r: int, s: int, beta: int)
    requires 0 <= r < Q && 0 <= s < Q && 0 <= beta && CenteredAbs(s) <= beta
    requires -(261888 - beta) < LowBits(r, 261888) < 261888 - beta
    ensures HighBits(AddQ(r, s), 261888) == HighBits(r, 261888)
  {
    hide HighBits, LowBits, HighCount, AddQ, CenteredAbs;
    var t, a := AddQ(r, s), CenteredAbs(s);
    SumIsNear(r, s);
    HighLow16(r);
    HighLow16(t);
    SameWindow16(r, t, a, beta, (r + 261887) / 523776, (t + 261887) / 523776);
  }

  /** A perturbation s of at most beta leaves the high bits of r + s alone when the low bits of r are
      further than beta from the edge of their range. */
  lemma SmallChangeKeepsHighBits(r: int, s: int, beta: int, gamma2: int)
    requires 0 <= r < Q && 0 <= s < Q && IsGamma2(gamma2)
    requires 0 <= beta && CenteredAbs(s) <= beta
    requires -(gamma2 - beta) < LowBits(r, gamma2) < gamma2 - beta
    ensures HighBits(AddQ(r, s), gamma2) == HighBits(r, gamma2)
  {
    hide HighBits, LowBits, AddQ, CenteredAbs;
    if gamma2 == 95232 {
      SmallChange44(r, s, beta);
    } else {
      SmallChange16(r, s, beta);
    }
  }
}
