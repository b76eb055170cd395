/** The step mappings of FIPS 202 section 3.2 on bits, with booleans only, and the proof that the lane-by-lane
    permutation computes them. */
module KeccakBits {
  import opened Keccak
  import opened RoundConstants
  import Sponge

  // ----- the bits of a lane -----

  function Low(v: bv64): (b: bool) {
    v & 1 == 1
  }

  function Half(v: bv64): (w: bv64) {
    v >> 1
  }

  /** Bit z of a lane, the lowest bit first. */
  function LaneBit(v: bv64, z: nat): (b: bool)
    decreases z
  {
    if z == 0 then Low(v) else LaneBit(Half(v), z - 1)
  }

  function And(v: bv64, w: bv64): (r: bv64) {
    v & w
  }

  lemma HalfOfXor(v: bv64, w: bv64)
    ensures Half(Xor(v, w)) == Xor(Half(v), Half(w))
  {
  }

  lemma LowOfXor(v: bv64, w: bv64)
    ensures Low(Xor(v, w)) == (Low(v) != Low(w))
  {
  }

  lemma HalfOfAnd(v: bv64, w: bv64)
    ensures Half(And(v, w)) == And(Half(v), Half(w))
  {
  }

  lemma LowOfAnd(v: bv64, w: bv64)
    ensures Low(And(v, w)) == (Low(v) && Low(w))
  {
  }

  lemma HalfOfAndNot(v: bv64, w: bv64)
    ensures Half(AndNot(v, w)) == AndNot(Half(v), Half(w))
  {
  }

  lemma LowOfAndNot(v: bv64, w: bv64)
    ensures Low(AndNot(v, w)) == (!Low(v) && Low(w))
  {
  }

  lemma {:induction false} XorBit(v: bv64, w: bv64, z: nat)
    ensures LaneBit(Xor(v, w), z) == (LaneBit(v, z) != LaneBit(w, z))
    decreases z
  {
    hide Xor, Half, Low;
    HalfOfXor(v, w);
    LowOfXor(v, w);
    if z == 0 {
    } else {
      XorBit(Half(v), Half(w), z - 1);
    }
  }

  lemma {:induction false} AndBit(v: bv64, w: bv64, z: nat)
    ensures LaneBit(And(v, w), z) == (LaneBit(v, z) && LaneBit(w, z))
    decreases z
  {
    hide And, Half, Low;
    HalfOfAnd(v, w);
    LowOfAnd(v, w);
    if z == 0 {
    } else {
      AndBit(Half(v), Half(w), z - 1);
    }
  }

  lemma {:induction false} AndNotBit(v: bv64, w: bv64, z: nat)
    ensures LaneBit(AndNot(v, w), z) == (!LaneBit(v, z) && LaneBit(w, z))
    decreases z
  {
    hide AndNot, Half, Low;
    HalfOfAndNot(v, w);
    LowOfAndNot(v, w);
    if z == 0 {
    } else {
      AndNotBit(Half(v), Half(w), z - 1);
    }
  }

  // ----- shifts by more than one -----

  /** n single shifts to the right. */
  function Down(v: bv64, n: nat): (w: bv64)
    decreases n
  {
    if n == 0 then v else Down(Half(v), n - 1)
  }

  lemma {:induction false} DownAdd(v: bv64, m: nat, n: nat)
    ensures Down(v, m + n) == Down(Down(v, m), n)
    decreases m
  {
    hide Half;
    if m == 0 {
    } else {
      DownAdd(Half(v), m - 1, n);
    }
  }

  lemma {:induction false} BitsAbove(v: bv64, m: nat, n: nat)
    ensures LaneBit(v, m + n) == LaneBit(Down(v, m), n)
    decreases m
  {
    hide Half, Low;
    if m == 0 {
    } else {
      BitsAbove(Half(v), m - 1, n);
    }
  }

  function Eighth(v: bv64): (w: bv64) {
    v >> 8
  }

  lemma EightHalves(v: bv64)
    ensures Half(Half(Half(Half(Half(Half(Half(Half(v)))))))) == Eighth(v)
  {
  }

  lemma DownEight(v: bv64)
    ensures Down(v, 8) == Eighth(v)
  {
    hide Half, Eighth;
    var w := Half(Half(Half(Half(v))));
    assert Down(v, 4) == w by { assert Down(v, 2) == Half(Half(v)); DownAdd(v, 2, 2); }
    assert Down(w, 4) == Half(Half(Half(Half(w)))) by { assert Down(w, 2) == Half(Half(w)); DownAdd(w, 2, 2); }
    DownAdd(v, 4, 4);
    EightHalves(v);
  }

  // ----- rotation -----

  /** The low 63 bits. */
  const BELOW_TOP: bv64 := 0x7fff_ffff_ffff_ffff

  function Top(v: bv64): (b: bool) {
    v >> 63 == 1
  }

  lemma Turned1(v: bv64)
    ensures Half(RotOne(v)) == And(v, BELOW_TOP) && Low(RotOne(v)) == Top(v)
  {
  }

  /** 2^j - 1 for some j. */
  predicate AllOnes(m: bv64) {
    m & (m + 1) == 0
  }

  lemma HalfOfOnes(m: bv64)
    requires AllOnes(m)
    ensures AllOnes(Half(m)) && (!Low(m) ==> m == 0)
  {
  }

  lemma Nothing()
    ensures Half(0) == 0 && !Low(0)
  {
  }

  lemma {:induction false} ZeroBit(z: nat)
    ensures !LaneBit(0, z)
  {
    hide Half, Low;
    Nothing();
    if z == 0 {
    } else {
      ZeroBit(z - 1);
    }
  }

  /** Below a one, a number 2^j - 1 has only ones. */
  lemma {:induction false} OnesBelow(m: bv64, k: nat, n: nat)
    requires AllOnes(m) && k <= n && LaneBit(m, n)
    ensures LaneBit(m, k)
    decreases k
  {
    hide AllOnes, Half, Low;
    HalfOfOnes(m);
    ZeroBit(n);
    if k == 0 {
    } else {
      OnesBelow(Half(m), k - 1, n - 1);
    }
  }

  lemma SevenEighths(v: bv64)
    ensures Down(v, 56) == Eighth(Eighth(Eighth(Eighth(Eighth(Eighth(Eighth(v)))))))
  {
    hide Down, Eighth;
    DownAdd(v, 8, 48);
    DownEight(v);
    var v1 := Eighth(v);
    DownAdd(v1, 8, 40);
    DownEight(v1);
    var v2 := Eighth(v1);
    DownAdd(v2, 8, 32);
    DownEight(v2);
    var v3 := Eighth(v2);
    DownAdd(v3, 8, 24);
    DownEight(v3);
    var v4 := Eighth(v3);
    DownAdd(v4, 8, 16);
    DownEight(v4);
    var v5 := Eighth(v4);
    DownAdd(v5, 8, 8);
    DownEight(v5);
    DownEight(Eighth(v5));
  }

  lemma SixthAndSeventh(w: bv64)
    ensures LaneBit(w, 6) == Low(Half(Half(Half(Half(Half(Half(w)))))))
    ensures LaneBit(w, 7) == Low(Half(Half(Half(Half(Half(Half(Half(w))))))))
  {
    hide Half, Low;
    var w4 := Half(Half(Half(Half(w))));
    assert LaneBit(w, 6) == LaneBit(Half(Half(w)), 4) == LaneBit(w4, 2) == Low(Half(Half(w4)));
    assert LaneBit(w, 7) == LaneBit(Half(Half(w)), 5) == LaneBit(w4, 3) == LaneBit(Half(Half(w4)), 1)
      == Low(Half(Half(Half(w4))));
  }

  lemma TopIs(v: bv64)
    ensures var w := Eighth(Eighth(Eighth(Eighth(Eighth(Eighth(Eighth(v)))))));
      Low(Half(Half(Half(Half(Half(Half(Half(w)))))))) == Top(v)
  {
  }

  lemma BelowTopIs()
    ensures AllOnes(BELOW_TOP)
    ensures var w := Eighth(Eighth(Eighth(Eighth(Eighth(Eighth(Eighth(BELOW_TOP)))))));
      Low(Half(Half(Half(Half(Half(Half(w)))))))
  {
  }

  lemma TopBit(v: bv64)
    ensures LaneBit(v, 63) == Top(v)
  {
    hide LaneBit, Half, Low, Eighth, Top, Down;
    BitsAbove(v, 56, 7);
    SevenEighths(v);
    SixthAndSeventh(Down(v, 56));
    TopIs(v);
  }

  lemma BelowTopBit(z: nat)
    requires z < 63
    ensures LaneBit(BELOW_TOP, z)
  {
    hide LaneBit, Half, Low, Eighth, AllOnes, Down;
    BelowTopIs();
    BitsAbove(BELOW_TOP, 56, 6);
    SevenEighths(BELOW_TOP);
    SixthAndSeventh(Down(BELOW_TOP, 56));
    OnesBelow(BELOW_TOP, z, 62);
  }

  lemma RotOneAbove(v: bv64, z: nat)
    requires z < 63
    ensures LaneBit(Half(RotOne(v)), z) == LaneBit(v, z)
  {
    hide RotOne, Half, Low, Top, And, LaneBit;
    Turned1(v);
    AndBit(v, BELOW_TOP, z);
    BelowTopBit(z);
  }

  /** Turning by one moves bit z - 1 to place z, and the top bit to place 0. */
  lemma RotOneBit(v: bv64, z: nat)
    requires z < 64
    ensures LaneBit(RotOne(v), z) == LaneBit(v, (z + 63) % 64)
  {
    hide RotOne, Half, Low, Top, And;
    if z == 0 {
      Turned1(v);
      TopBit(v);
      assert LaneBit(RotOne(v), 0) == Low(RotOne(v));
    } else {
      assert (z + 63) % 64 == z - 1;
      RotOneAbove(v, z - 1);
    }
  }

  /** Bit z of a lane turned by n is bit z - n modulo 64 of the lane. */
  lemma {:induction false} RotBit(v: bv64, n: nat, z: nat)
    requires n < 64 && z < 64
    ensures LaneBit(Rot(v, n), z) == LaneBit(v, (z + 64 - n) % 64)
  {
    hide LaneBit, RotOne;
    if n == 0 {
    } else {
      RotOneBit(Rot(v, n - 1), z);
      RotBit(v, n - 1, (z + 63) % 64);
    }
  }

  /** Bit z of chi's lane: x + (y + 1) w over the two-element field. */
  lemma ChiLaneBit(x: bv64, y: bv64, w: bv64, z: nat)
    ensures LaneBit(ChiLane(x, y, w), z) == (LaneBit(x, z) != (!LaneBit(y, z) && LaneBit(w, z)))
  {
    hide LaneBit, AndNot, Xor;
    AndNotBit(y, w, z);
    XorBit(x, AndNot(y, w), z);
  }

  // ----- the state as a string of 1600 bits: FIPS 202 section 3.1 -----

  const WIDTH := 1600

  /** A[x, y, z] is bit 64 (5 y + x) + z. */
  function At(s: seq<bool>, x: nat, y: nat, z: nat): (b: bool)
    requires |s| == WIDTH && x < 5 && y < 5 && z < 64
  {
    s[64 * (5 * y + x) + z]
  }

  /** The bits of all the lanes. */
  function StateBits(a: seq<bv64>): (s: seq<bool>)
    requires |a| == LANES
    ensures |s| == WIDTH
  {
    hide LaneBit;
    seq(WIDTH, i requires 0 <= i < WIDTH => LaneBit(a[i / 64], i % 64))
  }

  lemma AtIsBit(a: seq<bv64>, x: nat, y: nat, z: nat)
    requires |a| == LANES && x < 5 && y < 5 && z < 64
    ensures At(StateBits(a), x, y, z) == LaneBit(a[5 * y + x], z)
  {
    hide LaneBit;
    var i := 64 * (5 * y + x) + z;
    assert i / 64 == 5 * y + x && i % 64 == z;
  }

  /** The exclusive or of a column's five bits. */
  function Column(s: seq<bool>, x: nat, z: nat): (b: bool)
    requires |s| == WIDTH && x < 5 && z < 64
  {
    (((At(s, x, 0, z) != At(s, x, 1, z)) != At(s, x, 2, z)) != At(s, x, 3, z)) != At(s, x, 4, z)
  }

  /** Section 3.2.1: a bit and the columns at x - 1 and, one place lower, at x + 1. */
  function ThetaBit(s: seq<bool>, x: nat, y: nat, z: nat): (b: bool)
    requires |s| == WIDTH && x < 5 && y < 5 && z < 64
  {
    At(s, x, y, z) != (Column(s, (x + 4) % 5, z) != Column(s, (x + 1) % 5, (z + 63) % 64))
  }

  /** Section 3.2.2, with the offsets that the walk of that section assigns. */
  function RhoBit(s: seq<bool>, x: nat, y: nat, z: nat): (b: bool)
    requires |s| == WIDTH && x < 5 && y < 5 && z < 64
  {
    At(s, x, y, (z + 64 - Offset(5 * y + x)) % 64)
  }

  /** Section 3.2.3 */
  function PiBit(s: seq<bool>, x: nat, y: nat, z: nat): (b: bool)
    requires |s| == WIDTH && x < 5 && y < 5 && z < 64
  {
    At(s, (x + 3 * y) % 5, x, z)
  }

  /** Section 3.2.4 */
  function ChiBit(s: seq<bool>, x: nat, y: nat, z: nat): (b: bool)
    requires |s| == WIDTH && x < 5 && y < 5 && z < 64
  {
    At(s, x, y, z) != (!At(s, (x + 1) % 5, y, z) && At(s, (x + 2) % 5, y, z))
  }

  /** One step of Algorithm 5: a zero in front, and what leaves at the end added to bits 0, 4, 5 and 6. */
  function LfsrNext(r: seq<bool>): (s: seq<bool>)
    requires |r| == 8
    ensures |s| == 8
  {
    [r[7], r[0], r[1], r[2], r[3] != r[7], r[4] != r[7], r[5] != r[7], r[6]]
  }

  /** The register after t steps; rc(t) is its first bit. */
  function Lfsr(t: nat): (r: seq<bool>)
    ensures |r| == 8
  {
    if t == 0 then [true, false, false, false, false, false, false, false] else LfsrNext(Lfsr(t - 1))
  }

  /** rc(j + 7 ir) at place 2^j - 1 of round constant ir, nothing elsewhere. */
  function ConstantBit(ir: nat, z: nat): (b: bool) {
    if z == 0 then Lfsr(7 * ir)[0]
    else if z == 1 then Lfsr(7 * ir + 1)[0]
    else if z == 3 then Lfsr(7 * ir + 2)[0]
    else if z == 7 then Lfsr(7 * ir + 3)[0]
    else if z == 15 then Lfsr(7 * ir + 4)[0]
    else if z == 31 then Lfsr(7 * ir + 5)[0]
    else if z == 63 then Lfsr(7 * ir + 6)[0]
    else false
  }

  /** Section 3.2.5 */
  function IotaBit(s: seq<bool>, ir: nat, x: nat, y: nat, z: nat): (b: bool)
    requires |s| == WIDTH && x < 5 && y < 5 && z < 64
  {
    if x == 0 && y == 0 then At(s, x, y, z) != ConstantBit(ir, z) else At(s, x, y, z)
  }

  // ----- each mapping on the whole string -----

  function StepTheta(s: seq<bool>): (r: seq<bool>)
    requires |s| == WIDTH
    ensures |r| == WIDTH
  {
    hide ThetaBit;
    seq(WIDTH, i requires 0 <= i < WIDTH => ThetaBit(s, i / 64 % 5, i / 64 / 5, i % 64))
  }

  function StepRho(s: seq<bool>): (r: seq<bool>)
    requires |s| == WIDTH
    ensures |r| == WIDTH
  {
    hide RhoBit;
    seq(WIDTH, i requires 0 <= i < WIDTH => RhoBit(s, i / 64 % 5, i / 64 / 5, i % 64))
  }

  function StepPi(s: seq<bool>): (r: seq<bool>)
    requires |s| == WIDTH
    ensures |r| == WIDTH
  {
    hide PiBit;
    seq(WIDTH, i requires 0 <= i < WIDTH => PiBit(s, i / 64 % 5, i / 64 / 5, i % 64))
  }

  function StepChi(s: seq<bool>): (r: seq<bool>)
    requires |s| == WIDTH
    ensures |r| == WIDTH
  {
    hide ChiBit;
    seq(WIDTH, i requires 0 <= i < WIDTH => ChiBit(s, i / 64 % 5, i / 64 / 5, i % 64))
  }

  function StepIota(s: seq<bool>, ir: nat): (r: seq<bool>)
    requires |s| == WIDTH
    ensures |r| == WIDTH
  {
    hide IotaBit;
    seq(WIDTH, i requires 0 <= i < WIDTH => IotaBit(s, ir, i / 64 % 5, i / 64 / 5, i % 64))
  }

  /** Rnd of section 3.3: theta, rho, pi, chi, iota. */
  function BitRound(s: seq<bool>, ir: nat): (r: seq<bool>)
    requires |s| == WIDTH
    ensures |r| == WIDTH
  {
    StepIota(StepChi(StepPi(StepRho(StepTheta(s)))), ir)
  }

  function BitRounds(s: seq<bool>, n: nat): (r: seq<bool>)
    requires |s| == WIDTH
    ensures |r| == WIDTH
  {
    if n == 0 then s else BitRound(BitRounds(s, n - 1), n - 1)
  }

  /** KECCAK-f[1600] of section 3.4: 24 rounds. */
  function KeccakF(s: seq<bool>): (r: seq<bool>)
    requires |s| == WIDTH
    ensures |r| == WIDTH
  {
    BitRounds(s, 24)
  }

  // ----- the lanes compute the bits -----

  lemma ParityBit(a: seq<bv64>, x: nat, z: nat)
    requires |a| == LANES && x < 5 && z < 64
    ensures LaneBit(Parity(a, x), z) == Column(StateBits(a), x, z)
  {
    hide LaneBit, Xor, At, StateBits;
    AtIsBit(a, x, 0, z);
    AtIsBit(a, x, 1, z);
    AtIsBit(a, x, 2, z);
    AtIsBit(a, x, 3, z);
    AtIsBit(a, x, 4, z);
    var s2 := Xor(a[x], a[x + 5]);
    var s3 := Xor(s2, a[x + 10]);
    var s4 := Xor(s3, a[x + 15]);
    XorBit(a[x], a[x + 5], z);
    XorBit(s2, a[x + 10], z);
    XorBit(s3, a[x + 15], z);
    XorBit(s4, a[x + 20], z);
  }

  lemma EffectBit(a: seq<bv64>, x: nat, z: nat)
    requires |a| == LANES && x < 5 && z < 64
    ensures LaneBit(ThetaEffect(a, x), z)
         == (Column(StateBits(a), (x + 4) % 5, z) != Column(StateBits(a), (x + 1) % 5, (z + 63) % 64))
  {
    hide LaneBit, Xor, StateBits, Rot, Parity, Column;
    var c, d := Parity(a, (x + 4) % 5), Parity(a, (x + 1) % 5);
    ParityBit(a, (x + 4) % 5, z);
    ParityBit(a, (x + 1) % 5, (z + 63) % 64);
    RotBit(d, 1, z);
    XorBit(c, Rot(d, 1), z);
  }

  /** Theta's bit is the exclusive or of eleven bits. */
  lemma ThetaBitIs(a: seq<bv64>, x: nat, y: nat, z: nat)
    requires |a| == LANES && x < 5 && y < 5 && z < 64
    ensures LaneBit(Theta(a)[5 * y + x], z) == ThetaBit(StateBits(a), x, y, z)
  {
    hide LaneBit, Xor, At, StateBits, ThetaEffect, Column;
    var i := 5 * y + x;
    assert i % 5 == x;
    AtIsBit(a, x, y, z);
    EffectBit(a, x, z);
    assert Theta(a)[i] == Xor(a[i], ThetaEffect(a, x));
    XorBit(a[i], ThetaEffect(a, x), z);
  }

  lemma RhoBitIs(a: seq<bv64>, x: nat, y: nat, z: nat)
    requires |a| == LANES && x < 5 && y < 5 && z < 64
    ensures LaneBit(Rho(a)[5 * y + x], z) == RhoBit(StateBits(a), x, y, z)
  {
    hide LaneBit, At, StateBits, Rot, Offset;
    var n := Offset(5 * y + x);
    RotBit(a[5 * y + x], n, z);
    AtIsBit(a, x, y, (z + 64 - n) % 64);
  }

  lemma PiBitIs(a: seq<bv64>, x: nat, y: nat, z: nat)
    requires |a| == LANES && x < 5 && y < 5 && z < 64
    ensures LaneBit(Pi(a)[5 * y + x], z) == PiBit(StateBits(a), x, y, z)
  {
    hide LaneBit, At, StateBits;
    assert (5 * y + x) % 5 == x && (5 * y + x) / 5 == y;
    AtIsBit(a, (x + 3 * y) % 5, x, z);
  }

  lemma ChiBitIs(a: seq<bv64>, x: nat, y: nat, z: nat)
    requires |a| == LANES && x < 5 && y < 5 && z < 64
    ensures LaneBit(Chi(a)[5 * y + x], z) == ChiBit(StateBits(a), x, y, z)
  {
    hide LaneBit, At, StateBits, ChiLane, ChiAt;
    var i, j := (x + 1) % 5, (x + 2) % 5;
    ChiAtRow(a, x, y);
    AtIsBit(a, x, y, z);
    AtIsBit(a, i, y, z);
    AtIsBit(a, j, y, z);
    ChiLaneBit(a[5 * y + x], a[5 * y + i], a[5 * y + j], z);
  }

  // ----- the round constants -----

  lemma ShiftBits(r: bv8)
    ensures Sponge.ByteBits(Shift(r)) == LfsrNext(Sponge.ByteBits(r))
  {
  }

  lemma OneBits()
    ensures Sponge.ByteBits(1) == [true, false, false, false, false, false, false, false]
  {
  }

  lemma {:induction false} RegisterBits(t: nat)
    ensures Sponge.ByteBits(Register(t)) == Lfsr(t)
  {
    hide Shift, LfsrNext, Sponge.ByteBits;
    if t == 0 {
      OneBits();
    } else {
      RegisterBits(t - 1);
      ShiftBits(Register(t - 1));
    }
  }

  lemma HalfOfOr(v: bv64, w: bv64)
    ensures Half(Or(v, w)) == Or(Half(v), Half(w))
  {
  }

  lemma LowOfOr(v: bv64, w: bv64)
    ensures Low(Or(v, w)) == (Low(v) || Low(w))
  {
  }

  lemma {:induction false} OrBit(v: bv64, w: bv64, z: nat)
    ensures LaneBit(Or(v, w), z) == (LaneBit(v, z) || LaneBit(w, z))
    decreases z
  {
    hide Or, Half, Low;
    HalfOfOr(v, w);
    LowOfOr(v, w);
    if z == 0 {
    } else {
      OrBit(Half(v), Half(w), z - 1);
    }
  }

  lemma {:induction false} RotAdd(v: bv64, m: nat, n: nat)
    ensures Rot(v, m + n) == Rot(Rot(v, m), n)
  {
    hide RotOne;
    if n == 0 {
    } else {
      RotAdd(v, m, n - 1);
    }
  }

  function RotEight(v: bv64): (w: bv64) {
    v.RotateLeft(8)
  }

  lemma EightTurns(v: bv64)
    ensures RotOne(RotOne(RotOne(RotOne(RotOne(RotOne(RotOne(RotOne(v)))))))) == RotEight(v)
  {
  }

  lemma RotByFour(v: bv64)
    ensures Rot(v, 4) == RotOne(RotOne(RotOne(RotOne(v))))
  {
    hide RotOne;
    assert Rot(v, 1) == RotOne(v);
    assert Rot(v, 2) == RotOne(RotOne(v));
    assert Rot(v, 3) == RotOne(RotOne(RotOne(v)));
  }

  lemma RotByEight(v: bv64)
    ensures Rot(v, 8) == RotEight(v)
  {
    hide RotOne, RotEight;
    var w := RotOne(RotOne(RotOne(RotOne(v))));
    RotByFour(v);
    RotByFour(w);
    RotAdd(v, 4, 4);
    EightTurns(v);
  }

  lemma Powers()
    ensures RotOne(0x1) == 0x2 && RotOne(0x2) == 0x4 && RotOne(0x4) == 0x8 && RotOne(0x8) == 0x10
    ensures RotOne(0x10) == 0x20 && RotOne(0x20) == 0x40 && RotOne(0x40) == 0x80
    ensures RotEight(0x80) == 0x8000 && RotEight(0x8000) == 0x80_0000 && RotEight(0x80_0000) == 0x8000_0000
    ensures RotEight(0x8000_0000) == 0x80_0000_0000 && RotEight(0x80_0000_0000) == 0x8000_0000_0000
    ensures RotEight(0x8000_0000_0000) == 0x80_0000_0000_0000
    ensures RotEight(0x80_0000_0000_0000) == 0x8000_0000_0000_0000
  {
  }

  /** The weights of a round constant are 2^(2^j - 1). */
  lemma Weights()
    ensures Rot(1, 0) == 0x1 && Rot(1, 1) == 0x2 && Rot(1, 3) == 0x8 && Rot(1, 7) == 0x80
    ensures Rot(1, 15) == 0x8000 && Rot(1, 31) == 0x8000_0000 && Rot(1, 63) == 0x8000_0000_0000_0000
  {
    hide RotOne, RotEight;
    Powers();
    assert Rot(1, 1) == 0x2;
    assert Rot(1, 2) == 0x4;
    assert Rot(1, 3) == 0x8;
    RotByFour(0x8);
    RotAdd(1, 3, 4);
    RotAdd(1, 7, 8);
    RotByEight(0x80);
    RotAdd(1, 15, 8);
    RotByEight(0x8000);
    RotAdd(1, 23, 8);
    RotByEight(0x80_0000);
    RotAdd(1, 31, 8);
    RotByEight(0x8000_0000);
    RotAdd(1, 39, 8);
    RotByEight(0x80_0000_0000);
    RotAdd(1, 47, 8);
    RotByEight(0x8000_0000_0000);
    RotAdd(1, 55, 8);
    RotByEight(0x80_0000_0000_0000);
  }

  lemma OneIsLow()
    ensures Low(1) && Half(1) == 0
  {
  }

  lemma SingleBit(k: nat, z: nat)
    requires k < 64 && z < 64
    ensures LaneBit(Rot(1, k), z) <==> z == k
  {
    hide Rot, Half, Low;
    RotBit(1, k, z);
    OneIsLow();
    var m := (z + 64 - k) % 64;
    if m > 0 { ZeroBit(m - 1); }
  }

  lemma WeightedBit(r: bv8, k: nat, z: nat)
    requires k < 64 && z < 64
    ensures LaneBit(Weighted(r, Rot(1, k)), z) <==> Sponge.ByteBits(r)[0] && z == k
  {
    hide Rot, LaneBit;
    SingleBit(k, z);
    ZeroBit(z);
  }

  lemma OrThreeBit(v0: bv64, v1: bv64, v2: bv64, z: nat)
    ensures LaneBit(Or(Or(v0, v1), v2), z) == (LaneBit(v0, z) || LaneBit(v1, z) || LaneBit(v2, z))
  {
    hide Or, LaneBit;
    OrBit(v0, v1, z);
    OrBit(Or(v0, v1), v2, z);
  }

  lemma OrSevenBit(v0: bv64, v1: bv64, v2: bv64, v3: bv64, v4: bv64, v5: bv64, v6: bv64, z: nat)
    ensures LaneBit(Or(Or(Or(Or(Or(Or(v0, v1), v2), v3), v4), v5), v6), z)
         == (LaneBit(v0, z) || LaneBit(v1, z) || LaneBit(v2, z) || LaneBit(v3, z) || LaneBit(v4, z) || LaneBit(v5, z)
             || LaneBit(v6, z))
  {
    hide Or, LaneBit;
    var w2 := Or(Or(v0, v1), v2);
    OrThreeBit(v0, v1, v2, z);
    OrThreeBit(w2, v3, v4, z);
    OrThreeBit(Or(Or(w2, v3), v4), v5, v6, z);
  }

  /** The part of a round constant that step t of the register decides. */
  function PartOf(t: nat, k: nat): (v: bv64) {
    Weighted(Register(t), Rot(1, k))
  }

  lemma PartBit(t: nat, k: nat, z: nat)
    requires k < 64 && z < 64
    ensures LaneBit(PartOf(t, k), z) <==> Lfsr(t)[0] && z == k
  {
    hide LaneBit, Lfsr, Register, Weighted, Rot, Sponge.ByteBits;
    WeightedBit(Register(t), k, z);
    RegisterBits(t);
  }

  lemma ConstantIs(ir: nat)
    ensures var t := 7 * ir;
      Constant(ir) == Or(Or(Or(Or(Or(Or(PartOf(t, 0), PartOf(t + 1, 1)), PartOf(t + 2, 3)), PartOf(t + 3, 7)),
        PartOf(t + 4, 15)), PartOf(t + 5, 31)), PartOf(t + 6, 63))
  {
    hide Or, Weighted, Register, Rot;
    Weights();
  }

  lemma ConstantBitOf(ir: nat, z: nat)
    ensures var t := 7 * ir;
      ConstantBit(ir, z)
      == ((Lfsr(t)[0] && z == 0) || (Lfsr(t + 1)[0] && z == 1) || (Lfsr(t + 2)[0] && z == 3)
          || (Lfsr(t + 3)[0] && z == 7) || (Lfsr(t + 4)[0] && z == 15) || (Lfsr(t + 5)[0] && z == 31)
          || (Lfsr(t + 6)[0] && z == 63))
  {
    hide Lfsr;
  }

  lemma PartsBit(ir: nat, z: nat)
    requires z < 64
    ensures LaneBit(Constant(ir), z) == ConstantBit(ir, z)
  {
    hide Or, PartOf, LaneBit, Constant, Lfsr, ConstantBit, Register, Weighted, Rot, RC;
    var t := 7 * ir;
    ConstantIs(ir);
    ConstantBitOf(ir, z);
    OrSevenBit(PartOf(t, 0), PartOf(t + 1, 1), PartOf(t + 2, 3), PartOf(t + 3, 7), PartOf(t + 4, 15), PartOf(t + 5, 31),
      PartOf(t + 6, 63), z);
    PartBit(t, 0, z);
    PartBit(t + 1, 1, z);
    PartBit(t + 2, 3, z);
    PartBit(t + 3, 7, z);
    PartBit(t + 4, 15, z);
    PartBit(t + 5, 31, z);
    PartBit(t + 6, 63, z);
  }

  /** Bit z of round constant ir. */
  lemma ConstantBitIs(ir: nat, z: nat)
    requires ir < 24 && z < 64
    ensures LaneBit(RC[ir], z) == ConstantBit(ir, z)
  {
    hide LaneBit, Constant, ConstantBit;
    ConstantsAreStandard(ir);
    PartsBit(ir, z);
  }

  lemma IotaBitIs(a: seq<bv64>, ir: nat, x: nat, y: nat, z: nat)
    requires |a| == LANES && ir < 24 && x < 5 && y < 5 && z < 64
    ensures LaneBit(Iota(a, RC[ir])[5 * y + x], z) == IotaBit(StateBits(a), ir, x, y, z)
  {
    hide LaneBit, At, StateBits, Xor, ConstantBit;
    AtIsBit(a, x, y, z);
    if x == 0 && y == 0 {
      XorBit(a[0], RC[ir], z);
      ConstantBitIs(ir, z);
    }
  }

  // ----- the permutation -----

  /** Place i of the string is bit i % 64 of lane i / 64. */
  lemma PlaceIs(i: nat)
    requires i < WIDTH
    ensures i / 64 < LANES && i / 64 % 5 < 5 && i / 64 / 5 < 5 && 5 * (i / 64 / 5) + i / 64 % 5 == i / 64
  {
  }

  lemma ThetaBits(a: seq<bv64>)
    requires |a| == LANES
    ensures StateBits(Theta(a)) == StepTheta(StateBits(a))
  {
    hide LaneBit, ThetaBit, Theta;
    forall i | 0 <= i < WIDTH
      ensures StateBits(Theta(a))[i] == StepTheta(StateBits(a))[i]
    {
      PlaceIs(i);
      ThetaBitIs(a, i / 64 % 5, i / 64 / 5, i % 64);
    }
  }

  lemma RhoBits(a: seq<bv64>)
    requires |a| == LANES
    ensures StateBits(Rho(a)) == StepRho(StateBits(a))
  {
    hide LaneBit, RhoBit, Rho;
    forall i | 0 <= i < WIDTH
      ensures StateBits(Rho(a))[i] == StepRho(StateBits(a))[i]
    {
      PlaceIs(i);
      RhoBitIs(a, i / 64 % 5, i / 64 / 5, i % 64);
    }
  }

  lemma PiBits(a: seq<bv64>)
    requires |a| == LANES
    ensures StateBits(Pi(a)) == StepPi(StateBits(a))
  {
    hide LaneBit, PiBit, Pi;
    forall i | 0 <= i < WIDTH
      ensures StateBits(Pi(a))[i] == StepPi(StateBits(a))[i]
    {
      PlaceIs(i);
      PiBitIs(a, i / 64 % 5, i / 64 / 5, i % 64);
    }
  }

  lemma ChiBits(a: seq<bv64>)
    requires |a| == LANES
    ensures StateBits(Chi(a)) == StepChi(StateBits(a))
  {
    hide LaneBit, ChiBit, Chi;
    forall i | 0 <= i < WIDTH
      ensures StateBits(Chi(a))[i] == StepChi(StateBits(a))[i]
    {
      PlaceIs(i);
      ChiBitIs(a, i / 64 % 5, i / 64 / 5, i % 64);
    }
  }

  lemma IotaBits(a: seq<bv64>, ir: nat)
    requires |a| == LANES && ir < 24
    ensures StateBits(Iota(a, RC[ir])) == StepIota(StateBits(a), ir)
  {
    hide LaneBit, IotaBit, Iota;
    var r := Iota(a, RC[ir]);
    forall i | 0 <= i < WIDTH
      ensures StateBits(r)[i] == StepIota(StateBits(a), ir)[i]
    {
      PlaceIs(i);
      IotaBitIs(a, ir, i / 64 % 5, i / 64 / 5, i % 64);
    }
  }

  lemma RoundBits(a: seq<bv64>, ir: nat)
    requires |a| == LANES && ir < 24
    ensures StateBits(Round(a, ir)) == BitRound(StateBits(a), ir)
  {
    hide StateBits, Theta, Rho, Pi, Chi, Iota, StepTheta, StepRho, StepPi, StepChi, StepIota;
    ThetaBits(a);
    RhoBits(Theta(a));
    PiBits(Rho(Theta(a)));
    ChiBits(Pi(Rho(Theta(a))));
    IotaBits(Chi(Pi(Rho(Theta(a)))), ir);
  }

  lemma {:induction false} RoundsBits(a: seq<bv64>, n: nat)
    requires |a| == LANES && n <= 24
    ensures StateBits(Rounds(a, n)) == BitRounds(StateBits(a), n)
  {
    hide StateBits, Round, BitRound;
    if n == 0 {
    } else {
      RoundsBits(a, n - 1);
      RoundBits(Rounds(a, n - 1), n - 1);
    }
  }

  /** What the code computes lane by lane is KECCAK-f[1600] on the 1600 bits of the state. */
  lemma PermutedIsKeccakF(a: seq<bv64>)
    requires |a| == LANES
    ensures StateBits(Permuted(a)) == KeccakF(StateBits(a))
  {
    hide StateBits, Rounds, BitRounds;
    RoundsBits(a, 24);
  }
}
