/** The sponge of FIPS 202 sections 4 and 5 on strings of bits, and the proof that the byte-wise sponge computes it:
    SHAKE128, SHAKE256, SHA3-256 and SHA3-512 of section 6. */
module SpongeBits {
  import opened Keccak
  import opened KeccakBits
  import opened Sponge
  import Modular

  // ----- the bits of a lane's bytes -----

  function LowByte(v: bv64): (b: bv8) {
    (v & 0xFF) as bv8
  }

  lemma LowByteBit0(v: bv64)
    ensures Low(v) == ((LowByte(v) & 0x01) != 0)
  {
  }

  lemma LowByteBit1(v: bv64)
    ensures Low(Half(v)) == ((LowByte(v) & 0x02) != 0)
  {
  }

  lemma LowByteBit2(v: bv64)
    ensures Low(Half(Half(v))) == ((LowByte(v) & 0x04) != 0)
  {
  }

  lemma LowByteBit3(v: bv64)
    ensures Low(Half(Half(Half(v)))) == ((LowByte(v) & 0x08) != 0)
  {
  }

  lemma LowByteBit4(v: bv64)
    ensures Low(Half(Half(Half(Half(v))))) == ((LowByte(v) & 0x10) != 0)
  {
  }

  lemma LowByteBit5(v: bv64)
    ensures Low(Half(Half(Half(Half(Half(v)))))) == ((LowByte(v) & 0x20) != 0)
  {
  }

  lemma LowByteBit6(v: bv64)
    ensures Low(Half(Half(Half(Half(Half(Half(v))))))) == ((LowByte(v) & 0x40) != 0)
  {
  }

  lemma LowByteBit7(v: bv64)
    ensures Low(Half(Half(Half(Half(Half(Half(Half(v)))))))) == ((LowByte(v) & 0x80) != 0)
  {
  }

  lemma LowBit0(v: bv64)
    ensures LaneBit(v, 0) == ByteBits(LowByte(v))[0]
  {
    hide Half, Low, LowByte;
    LowByteBit0(v);
  }

  lemma LowBit1(v: bv64)
    ensures LaneBit(v, 1) == ByteBits(LowByte(v))[1]
  {
    hide Half, Low, LowByte;
    LowByteBit1(v);
  }

  lemma LowBit2(v: bv64)
    ensures LaneBit(v, 2) == ByteBits(LowByte(v))[2]
  {
    hide Half, Low, LowByte;
    LowByteBit2(v);
    assert LaneBit(v, 2) == LaneBit(Half(Half(v)), 0);
  }

  lemma LowBit3(v: bv64)
    ensures LaneBit(v, 3) == ByteBits(LowByte(v))[3]
  {
    hide Half, Low, LowByte;
    LowByteBit3(v);
    assert LaneBit(v, 3) == LaneBit(Half(Half(v)), 1);
  }

  lemma LowBit4(v: bv64)
    ensures LaneBit(v, 4) == ByteBits(LowByte(v))[4]
  {
    hide Half, Low, LowByte;
    LowByteBit4(v);
    assert LaneBit(v, 4) == LaneBit(Half(Half(v)), 2) == LaneBit(Half(Half(Half(Half(v)))), 0);
  }

  lemma LowBit5(v: bv64)
    ensures LaneBit(v, 5) == ByteBits(LowByte(v))[5]
  {
    hide Half, Low, LowByte;
    LowByteBit5(v);
    assert LaneBit(v, 5) == LaneBit(Half(Half(v)), 3) == LaneBit(Half(Half(Half(Half(v)))), 1);
  }

  lemma LowBit6(v: bv64)
    ensures LaneBit(v, 6) == ByteBits(LowByte(v))[6]
  {
    hide Half, Low, LowByte;
    LowByteBit6(v);
    SixthAndSeventh(v);
  }

  lemma LowBit7(v: bv64)
    ensures LaneBit(v, 7) == ByteBits(LowByte(v))[7]
  {
    hide Half, Low, LowByte;
    LowByteBit7(v);
    SixthAndSeventh(v);
  }

  /** The low eight bits of a lane are the bits of its low byte. */
  lemma LowByteBits(v: bv64, r: nat)
    requires r < 8
    ensures LaneBit(v, r) == ByteBits(LowByte(v))[r]
  {
    hide LaneBit, LowByte, ByteBits;
    if r < 4 {
      if r == 0 { LowBit0(v); } else if r == 1 { LowBit1(v); } else if r == 2 { LowBit2(v); } else { LowBit3(v); }
    } else {
      if r == 4 { LowBit4(v); } else if r == 5 { LowBit5(v); } else if r == 6 { LowBit6(v); } else { LowBit7(v); }
    }
  }

  lemma NextByte(v: bv64, j: nat)
    requires j < 8
    ensures ByteOf(v, j) == if j == 0 then LowByte(v) else ByteOf(Eighth(v), j - 1)
  {
  }

  /** Bit 8 j + r of a lane is bit r of its byte j. */
  lemma {:induction false} ByteBit(v: bv64, j: nat, r: nat)
    requires j < 8 && r < 8
    ensures LaneBit(v, 8 * j + r) == ByteBits(ByteOf(v, j))[r]
  {
    hide LaneBit, ByteOf, ByteBits, LowByte, Eighth;
    NextByte(v, j);
    if j == 0 {
      LowByteBits(v, r);
    } else {
      BitsAbove(v, 8, 8 * (j - 1) + r);
      DownEight(v);
      ByteBit(Eighth(v), j - 1, r);
    }
  }

  lemma LaneByte0(b0: bv8, b1: bv8, b2: bv8, b3: bv8, b4: bv8, b5: bv8, b6: bv8, b7: bv8)
    ensures LowByte(LaneOf(b0, b1, b2, b3, b4, b5, b6, b7)) == b0
  {
  }

  lemma LaneByte1(b0: bv8, b1: bv8, b2: bv8, b3: bv8, b4: bv8, b5: bv8, b6: bv8, b7: bv8)
    ensures LowByte(Eighth(LaneOf(b0, b1, b2, b3, b4, b5, b6, b7))) == b1
  {
  }

  lemma LaneByte2(b0: bv8, b1: bv8, b2: bv8, b3: bv8, b4: bv8, b5: bv8, b6: bv8, b7: bv8)
    ensures LowByte(Eighth(Eighth(LaneOf(b0, b1, b2, b3, b4, b5, b6, b7)))) == b2
  {
  }

  lemma LaneByte3(b0: bv8, b1: bv8, b2: bv8, b3: bv8, b4: bv8, b5: bv8, b6: bv8, b7: bv8)
    ensures LowByte(Eighth(Eighth(Eighth(LaneOf(b0, b1, b2, b3, b4, b5, b6, b7))))) == b3
  {
  }

  lemma LaneByte4(b0: bv8, b1: bv8, b2: bv8, b3: bv8, b4: bv8, b5: bv8, b6: bv8, b7: bv8)
    ensures LowByte(Eighth(Eighth(Eighth(Eighth(LaneOf(b0, b1, b2, b3, b4, b5, b6, b7)))))) == b4
  {
  }

  lemma LaneByte5(b0: bv8, b1: bv8, b2: bv8, b3: bv8, b4: bv8, b5: bv8, b6: bv8, b7: bv8)
    ensures LowByte(Eighth(Eighth(Eighth(Eighth(Eighth(LaneOf(b0, b1, b2, b3, b4, b5, b6, b7))))))) == b5
  {
  }

  lemma LaneByte6(b0: bv8, b1: bv8, b2: bv8, b3: bv8, b4: bv8, b5: bv8, b6: bv8, b7: bv8)
    ensures LowByte(Eighth(Eighth(Eighth(Eighth(Eighth(Eighth(LaneOf(b0, b1, b2, b3, b4, b5, b6, b7)))))))) == b6
  {
  }

  lemma LaneByte7(b0: bv8, b1: bv8, b2: bv8, b3: bv8, b4: bv8, b5: bv8, b6: bv8, b7: bv8)
    ensures var v := LaneOf(b0, b1, b2, b3, b4, b5, b6, b7);
      LowByte(Eighth(Eighth(Eighth(Eighth(Eighth(Eighth(Eighth(v)))))))) == b7
  {
  }

  lemma BytesFrom(v: bv64)
    ensures ByteOf(v, 0) == LowByte(v) && ByteOf(v, 1) == LowByte(Eighth(v))
    ensures ByteOf(v, 2) == LowByte(Eighth(Eighth(v))) && ByteOf(v, 3) == LowByte(Eighth(Eighth(Eighth(v))))
    ensures ByteOf(v, 4) == LowByte(Eighth(Eighth(Eighth(Eighth(v)))))
    ensures ByteOf(v, 5) == LowByte(Eighth(Eighth(Eighth(Eighth(Eighth(v))))))
    ensures ByteOf(v, 6) == LowByte(Eighth(Eighth(Eighth(Eighth(Eighth(Eighth(v)))))))
    ensures ByteOf(v, 7) == LowByte(Eighth(Eighth(Eighth(Eighth(Eighth(Eighth(Eighth(v))))))))
  {
    hide ByteOf, LowByte, Eighth;
    var v1 := Eighth(v);
    var v2 := Eighth(v1);
    var v3 := Eighth(v2);
    var v4 := Eighth(v3);
    var v5 := Eighth(v4);
    var v6 := Eighth(v5);
    var v7 := Eighth(v6);
    forall j: nat | j < 8 { NextByte(v, j); }
    forall j: nat | j < 7 { NextByte(v1, j); }
    forall j: nat | j < 6 { NextByte(v2, j); }
    forall j: nat | j < 5 { NextByte(v3, j); }
    forall j: nat | j < 4 { NextByte(v4, j); }
    forall j: nat | j < 3 { NextByte(v5, j); }
    forall j: nat | j < 2 { NextByte(v6, j); }
    NextByte(v7, 0);
  }

  /** Byte j of a lane made of eight bytes is the j-th. */
  lemma LaneBytes(b: seq<bv8>, j: nat)
    requires |b| == 8 && j < 8
    ensures ByteOf(Lane(b), j) == b[j]
  {
    hide ByteOf, LowByte, Eighth, LaneOf;
    BytesFrom(Lane(b));
    LaneByte0(b[0], b[1], b[2], b[3], b[4], b[5], b[6], b[7]);
    LaneByte1(b[0], b[1], b[2], b[3], b[4], b[5], b[6], b[7]);
    LaneByte2(b[0], b[1], b[2], b[3], b[4], b[5], b[6], b[7]);
    LaneByte3(b[0], b[1], b[2], b[3], b[4], b[5], b[6], b[7]);
    LaneByte4(b[0], b[1], b[2], b[3], b[4], b[5], b[6], b[7]);
    LaneByte5(b[0], b[1], b[2], b[3], b[4], b[5], b[6], b[7]);
    LaneByte6(b[0], b[1], b[2], b[3], b[4], b[5], b[6], b[7]);
    LaneByte7(b[0], b[1], b[2], b[3], b[4], b[5], b[6], b[7]);
  }

  // ----- strings of bits -----

  /** Bit t of a byte string is bit t % 8 of byte t / 8. */
  lemma {:induction false} BitsOfAt(s: seq<bv8>, t: nat)
    requires t < 8 * |s|
    ensures BitsOf(s)[t] == ByteBits(s[t / 8])[t % 8]
  {
    hide ByteBits;
    if t < 8 {
    } else {
      BitsOfAt(s[1..], t - 8);
      assert (t - 8) / 8 == t / 8 - 1 && (t - 8) % 8 == t % 8;
    }
  }

  function XorAll(s: seq<bool>, t: seq<bool>): (r: seq<bool>)
    requires |s| == |t|
    ensures |r| == |s|
  {
    seq(|s|, i requires 0 <= i < |s| => s[i] != t[i])
  }

  lemma OneBlock(n: nat, r: nat)
    requires n > 0 && r > 0 && n % r == 0
    ensures n >= r && (n - r) % r == 0
  {
    var d := n / r;
    assert n == d * r;
    assert (d - 1) * r == d * r - r;
    Modular.ModOf(r, d - 1, 0);
  }

  /** S xor (P_i || 0^c), then f: Algorithm 8, steps 5 and 6, for the blocks of r bits of p. */
  function AbsorbBits(p: seq<bool>, r: nat): (s: seq<bool>)
    requires 0 < r <= WIDTH && |p| % r == 0
    ensures |s| == WIDTH
  {
    if p == [] then Falses(WIDTH)
    else
      OneBlock(|p|, r);
      var last := |p| - r;
      KeccakF(XorAll(AbsorbBits(p[..last], r), p[last..] + Falses(WIDTH - r)))
  }

  /** Truncating to r bits and permuting until there are d bits: Algorithm 8, steps 7 to 10. */
  function SqueezeBits(s: seq<bool>, r: nat, d: nat): (z: seq<bool>)
    requires |s| == WIDTH && 0 < r <= WIDTH
    ensures |z| == d
    decreases d
  {
    if d <= r then s[..d] else s[..r] + SqueezeBits(KeccakF(s), r, d - r)
  }

  lemma PadFits(r: nat, m: nat)
    requires r > 0
    ensures (m + |Pad101(r, m)|) % r == 0
  {
    var k := -(m as int) - 2;
    var d := k / r;
    assert k == d * r + k % r;
    assert m + |Pad101(r, m)| == (-d) * r;
    Modular.ModOf(r, -d, 0);
  }

  /** SPONGE[KECCAK-f[1600], pad10*1, r](n, d). */
  function SpongeFunction(n: seq<bool>, r: nat, d: nat): (z: seq<bool>)
    requires 0 < r <= WIDTH
    ensures |z| == d
  {
    PadFits(r, |n|);
    SqueezeBits(AbsorbBits(n + Pad101(r, |n|), r), r, d)
  }

  // ----- the bytes compute the bits -----

  lemma ZeroState()
    ensures StateBits(seq(LANES, _ => 0)) == Falses(WIDTH)
  {
    hide LaneBit;
    var a: seq<bv64> := seq(LANES, _ => 0);
    forall i | 0 <= i < WIDTH
      ensures StateBits(a)[i] == Falses(WIDTH)[i]
    {
      ZeroBit(i % 64);
    }
  }

  /** Bit z of the lane read from a block. */
  lemma BlockBit(block: seq<bv8>, k: nat, z: nat)
    requires 8 * k + 8 <= |block| && z < 64
    ensures LaneBit(Lane(block[8 * k..8 * k + 8]), z) == BitsOf(block)[64 * k + z]
  {
    hide LaneBit, Lane, ByteOf, ByteBits, BitsOf;
    var b, j, r := block[8 * k..8 * k + 8], z / 8, z % 8;
    LaneBytes(b, j);
    ByteBit(Lane(b), j, r);
    BitsOfAt(block, 64 * k + z);
    assert (64 * k + z) / 8 == 8 * k + j && (64 * k + z) % 8 == r;
  }

  lemma MixedBit(state: seq<bv64>, block: seq<bv8>, i: nat)
    requires |state| == LANES && IsRate(|block|) && i < WIDTH
    ensures LaneBit(Mixed(state, block)[i / 64], i % 64)
         == (StateBits(state)[i] != (BitsOf(block) + Falses(WIDTH - 8 * |block|))[i])
  {
    hide LaneBit, Lane, Xor, BitsOf;
    var k, z := i / 64, i % 64;
    if 8 * k + 8 <= |block| {
      BlockBit(block, k, z);
      XorBit(state[k], Lane(block[8 * k..8 * k + 8]), z);
    } else {
      assert i >= 8 * |block|;
    }
  }

  /** XORing a block into the first lanes is XORing its bits, followed by zeros, into the state's. */
  lemma MixedBits(state: seq<bv64>, block: seq<bv8>)
    requires |state| == LANES && IsRate(|block|)
    ensures StateBits(Mixed(state, block)) == XorAll(StateBits(state), BitsOf(block) + Falses(WIDTH - 8 * |block|))
  {
    hide LaneBit, Mixed, BitsOf, Falses;
    var l, r := StateBits(Mixed(state, block)), XorAll(StateBits(state), BitsOf(block) + Falses(WIDTH - 8 * |block|));
    forall i | 0 <= i < WIDTH
      ensures l[i] == r[i]
    {
      MixedBit(state, block, i);
    }
    assert l == r;
  }

  /** The first bytes of the state are its first bits. */
  lemma FrontBits(state: seq<bv64>, rate: nat)
    requires |state| == LANES && rate <= 200
    ensures BitsOf(Front(state, rate)) == StateBits(state)[..8 * rate]
  {
    hide LaneBit, ByteOf, ByteBits, BitsOf;
    var l, r := BitsOf(Front(state, rate)), StateBits(state)[..8 * rate];
    forall t | 0 <= t < 8 * rate
      ensures l[t] == r[t]
    {
      BitsOfAt(Front(state, rate), t);
      ByteBit(state[t / 64], t / 8 % 8, t % 8);
      assert t / 8 / 8 == t / 64 && 8 * (t / 8 % 8) + t % 8 == t % 64;
    }
    assert l == r;
  }

  lemma EightTimes(n: nat, rate: nat)
    requires rate > 0 && n % rate == 0
    ensures (8 * n) % (8 * rate) == 0
  {
    var d := n / rate;
    assert n == d * rate;
    assert 8 * n == d * (8 * rate);
    Modular.ModOf(8 * rate, d, 0);
  }

  /** Absorbing whole blocks of bytes absorbs their bits. */
  lemma {:induction false} AbsorbedBits(s: seq<bv8>, rate: nat)
    requires IsRate(rate) && |s| % rate == 0
    ensures |BitsOf(s)| % (8 * rate) == 0
    ensures StateBits(AbsorbedWhole(s, rate)) == AbsorbBits(BitsOf(s), 8 * rate)
    decreases |s|
  {
    hide BitsOf, Mixed, Permuted, KeccakF, StateBits, Falses, XorAll;
    EightTimes(|s|, rate);
    if s == [] {
      ZeroState();
    } else {
      OneBlock(|s|, rate);
      var front, last := s[..|s| - rate], s[|s| - rate..];
      assert s == front + last;
      BitsOfSum(front, last);
      AbsorbNext(front, last, rate);
      AbsorbedBits(front, rate);
      hide AbsorbedWhole;
      var state := AbsorbedWhole(front, rate);
      PermutedIsKeccakF(Mixed(state, last));
      MixedBits(state, last);
      var p := BitsOf(s);
      assert p[..|p| - 8 * rate] == BitsOf(front) && p[|p| - 8 * rate..] == BitsOf(last);
    }
  }

  /** The state after the padded message. */
  lemma PaddedBits(msg: seq<bv8>, rate: nat, pad: bv8)
    requires IsRate(rate) && (pad == SHAKE_PAD || pad == SHA3_PAD)
    ensures var n := BitsOf(msg) + Suffix(pad);
      && |n + Pad101(8 * rate, |n|)| % (8 * rate) == 0
      && StateBits(Absorbed(msg, rate, pad)) == AbsorbBits(n + Pad101(8 * rate, |n|), 8 * rate)
  {
    hide BitsOf, Padding, Suffix, Pad101, AbsorbedWhole, AbsorbBits, StateBits;
    var padding := Padding(|msg|, rate, pad);
    PaddedWhole(|msg|, rate);
    AbsorbedBits(msg + padding, rate);
    BitsOfSum(msg, padding);
    PaddingIsStandard(|msg|, rate, pad);
    assert BitsOf(msg) + Suffix(pad) + Pad101(8 * rate, 8 * |msg| + |Suffix(pad)|) == BitsOf(msg + padding);
  }

  // ----- squeezing -----

  lemma {:induction false} TurnsShift(state: seq<bv64>, k: nat)
    requires |state| == LANES
    ensures Turns(state, k + 1) == Turns(Permuted(state), k)
  {
    hide Permuted;
    if k == 0 {
      assert Turns(state, 1) == Permuted(Turns(state, 0));
    } else {
      TurnsShift(state, k - 1);
    }
  }

  lemma NextBlockIndex(i: nat, rate: nat)
    requires rate > 0
    ensures (rate + i) / rate == i / rate + 1 && (rate + i) % rate == i % rate
  {
    var k := i / rate;
    assert i == k * rate + i % rate;
    assert (k + 1) * rate == k * rate + rate;
    Modular.ModOf(rate, k + 1, i % rate);
  }

  /** The output after the first block is the output of the permuted state. */
  lemma LaterBlocks(state: seq<bv64>, rate: nat, n: nat)
    requires |state| == LANES && IsRate(rate)
    ensures OutputBytes(state, rate, rate, n) == OutputBytes(Permuted(state), rate, 0, n)
  {
    hide Permuted, Front, Turns;
    var l, r := OutputBytes(state, rate, rate, n), OutputBytes(Permuted(state), rate, 0, n);
    forall i | 0 <= i < n
      ensures l[i] == r[i]
    {
      var k := i / rate;
      NextBlockIndex(i, rate);
      TurnsShift(state, k);
      assert l[i] == Output(state, rate, rate + i);
      assert r[i] == Output(Permuted(state), rate, i);
    }
    assert l == r;
  }

  lemma FirstBlock(state: seq<bv64>, rate: nat, n: nat)
    requires |state| == LANES && IsRate(rate) && n <= rate
    ensures OutputBytes(state, rate, 0, n) == Front(state, rate)[..n]
  {
    hide Front;
    Modular.ModOf(rate, 0, 0);
    PartOfBlock(state, rate, 0, 0, n);
    assert Turns(state, 0) == state;
  }

  lemma {:induction false} PrefixBits(s: seq<bv8>, n: nat)
    requires n <= |s|
    ensures BitsOf(s[..n]) == BitsOf(s)[..8 * n]
  {
    hide BitsOf;
    BitsOfSum(s[..n], s[n..]);
    assert s == s[..n] + s[n..];
  }

  /** The bytes squeezed are the bits squeezed. */
  lemma {:induction false} SqueezedBits(state: seq<bv64>, rate: nat, n: nat)
    requires |state| == LANES && IsRate(rate)
    ensures BitsOf(OutputBytes(state, rate, 0, n)) == SqueezeBits(StateBits(state), 8 * rate, 8 * n)
    decreases n
  {
    hide BitsOf, OutputBytes, Permuted, KeccakF, StateBits, Front;
    FrontBits(state, rate);
    if n <= rate {
      FirstBlock(state, rate, n);
      PrefixBits(Front(state, rate), n);
      assert StateBits(state)[..8 * rate][..8 * n] == StateBits(state)[..8 * n];
    } else {
      FirstBlock(state, rate, rate);
      assert Front(state, rate)[..rate] == Front(state, rate);
      MoreOutput(state, rate, 0, rate, n - rate);
      LaterBlocks(state, rate, n - rate);
      BitsOfSum(OutputBytes(state, rate, 0, rate), OutputBytes(state, rate, rate, n - rate));
      SqueezedBits(Permuted(state), rate, n - rate);
      PermutedIsKeccakF(state);
    }
  }

  /** The sponge on bytes is SPONGE[KECCAK-f[1600], pad10*1, r] of the message's bits and the suffix. */
  lemma SpongeIsStandard(msg: seq<bv8>, rate: nat, pad: bv8, n: nat)
    requires IsRate(rate) && (pad == SHAKE_PAD || pad == SHA3_PAD)
    ensures BitsOf(SpongeBytes(msg, rate, pad, 0, n)) == SpongeFunction(BitsOf(msg) + Suffix(pad), 8 * rate, 8 * n)
  {
    hide BitsOf, OutputBytes, Absorbed, AbsorbBits, SqueezeBits, StateBits, Suffix, Pad101;
    PaddedBits(msg, rate, pad);
    SqueezedBits(Absorbed(msg, rate, pad), rate, n);
  }

  // ----- the functions of section 6 -----

  /** KECCAK[c](n, d) */
  function KeccakC(c: nat, n: seq<bool>, d: nat): (z: seq<bool>)
    requires c < WIDTH
    ensures |z| == d
  {
    SpongeFunction(n, WIDTH - c, d)
  }

  /** The capacities and suffixes of FIPS 202 sections 6.1 and 6.2. */
  lemma FunctionsAreStandard(msg: seq<bv8>, n: nat)
    ensures var m := BitsOf(msg);
      && BitsOf(SpongeBytes(msg, 168, SHAKE_PAD, 0, n)) == KeccakC(256, m + [true, true, true, true], 8 * n)
      && BitsOf(SpongeBytes(msg, 136, SHAKE_PAD, 0, n)) == KeccakC(512, m + [true, true, true, true], 8 * n)
      && BitsOf(SpongeBytes(msg, 136, SHA3_PAD, 0, 32)) == KeccakC(512, m + [false, true], 256)
      && BitsOf(SpongeBytes(msg, 72, SHA3_PAD, 0, 64)) == KeccakC(1024, m + [false, true], 512)
  {
    hide BitsOf, SpongeBytes, SpongeFunction;
    SpongeIsStandard(msg, 168, SHAKE_PAD, n);
    SpongeIsStandard(msg, 136, SHAKE_PAD, n);
    SpongeIsStandard(msg, 136, SHA3_PAD, 32);
    SpongeIsStandard(msg, 72, SHA3_PAD, 64);
  }
}
