/** The sponge of macula-keccak/src/lib.rs: the absorbing and squeezing objects agree with the padded sponge of
    FIPS 202 sections 4 and 5.1, however the input and the output are cut into pieces. */
module Sponge {
  import opened Keccak
  import opened Chunks
  import Modular

  /** A rate in bytes: whole lanes, at least one, less than the state. */
  predicate IsRate(rate: nat) {
    0 < rate <= 200 && rate % 8 == 0
  }

  /** Domain separation suffixes, each with the first bit of the padding. */
  const SHAKE_PAD: bv8 := 0x1f
  const SHA3_PAD: bv8 := 0x06

  // ----- bytes and lanes -----

  function LaneOf(b0: bv8, b1: bv8, b2: bv8, b3: bv8, b4: bv8, b5: bv8, b6: bv8, b7: bv8): (r: bv64) {
    (b0 as bv64) | ((b1 as bv64) << 8) | ((b2 as bv64) << 16) | ((b3 as bv64) << 24)
    | ((b4 as bv64) << 32) | ((b5 as bv64) << 40) | ((b6 as bv64) << 48) | ((b7 as bv64) << 56)
  }

  /** u64::from_le_bytes */
  function Lane(b: seq<bv8>): (r: bv64)
    requires |b| == 8
  {
    LaneOf(b[0], b[1], b[2], b[3], b[4], b[5], b[6], b[7])
  }

  /** Byte j of u64::to_le_bytes. */
  function ByteOf(lane: bv64, j: nat): (b: bv8)
    requires j < 8
    decreases j
  {
    if j == 0 then (lane & 0xFF) as bv8 else ByteOf(lane >> 8, j - 1)
  }

  function MixedLane(state: seq<bv64>, block: seq<bv8>, i: nat): (v: bv64)
    requires |state| == LANES && i < LANES
  {
    if 8 * i + 8 <= |block| then Xor(state[i], Lane(block[8 * i..8 * i + 8])) else state[i]
  }

  /** The block XORed into the first lanes of the state. */
  function Mixed(state: seq<bv64>, block: seq<bv8>): (r: seq<bv64>)
    requires |state| == LANES && IsRate(|block|)
    ensures |r| == LANES
  {
    seq(LANES, i requires 0 <= i < LANES => MixedLane(state, block, i))
  }

  /** The first rate bytes of the state. */
  function Front(state: seq<bv64>, rate: nat): (r: seq<bv8>)
    requires |state| == LANES && rate <= 200
    ensures |r| == rate
  {
    seq(rate, i requires 0 <= i < rate => ByteOf(state[i / 8], i % 8))
  }

  method XorBlock(state: array<bv64>, block: seq<bv8>)
    requires state.Length == LANES && IsRate(|block|)
    modifies state
    ensures state[..] == Mixed(old(state[..]), block)
  {
    hide Xor, Lane;
    ghost var s := state[..];
    for i := 0 to |block| / 8
      invariant forall j :: 0 <= j < LANES ==> state[j] == if j < i then MixedLane(s, block, j) else s[j]
    {
      state[i] := Xor(state[i], Lane(block[8 * i..8 * i + 8]));
    }
    assert state[..] == Mixed(s, block);
  }

  method SqueezeBlock(state: array<bv64>, out: array<bv8>)
    requires state.Length == LANES && IsRate(out.Length)
    modifies out
    ensures out[..] == Front(state[..], out.Length)
  {
    hide ByteOf;
    for i := 0 to out.Length / 8
      invariant forall t :: 0 <= t < 8 * i ==> out[t] == ByteOf(state[t / 8], t % 8)
    {
      for j := 0 to 8
        invariant forall t :: 0 <= t < 8 * i + j ==> out[t] == ByteOf(state[t / 8], t % 8)
      {
        assert (8 * i + j) / 8 == i && (8 * i + j) % 8 == j;
        out[8 * i + j] := ByteOf(state[i], j);
      }
    }
  }

  // ----- the sponge of the standard -----

  function Zeros(n: nat): (r: seq<bv8>)
    ensures |r| == n
  {
    seq(n, _ => 0)
  }

  /** The bytes that complete a message of n bytes: the domain suffix and the first bit of pad10*1 in one byte,
      the last bit in the last byte of the block, both in the same byte if only one is left. */
  function Padding(n: nat, rate: nat, pad: bv8): (r: seq<bv8>)
    requires IsRate(rate)
    ensures |r| == rate - n % rate
  {
    var q := rate - n % rate;
    if q == 1 then [pad ^ 0x80] else [pad] + Zeros(q - 2) + [0x80]
  }

  // ----- the padding, bit by bit -----

  /** The bits of a byte, least significant first, as FIPS 202 appendix B.1 orders them. */
  function ByteBits(b: bv8): (r: seq<bool>)
    ensures |r| == 8
  {
    [b & 0x01 != 0, b & 0x02 != 0, b & 0x04 != 0, b & 0x08 != 0, b & 0x10 != 0, b & 0x20 != 0, b & 0x40 != 0,
      b & 0x80 != 0]
  }

  function BitsOf(s: seq<bv8>): (r: seq<bool>)
    ensures |r| == 8 * |s|
  {
    if s == [] then [] else ByteBits(s[0]) + BitsOf(s[1..])
  }

  function Falses(n: nat): (r: seq<bool>)
    ensures |r| == n
  {
    seq(n, _ => false)
  }

  /** pad10*1 for blocks of x bits after m bits: FIPS 202 section 5.1. */
  function Pad101(x: nat, m: nat): (r: seq<bool>)
    requires x > 0
  {
    [true] + Falses((-(m as int) - 2) % x) + [true]
  }

  /** The bits appended to the message to tell the functions apart: FIPS 202 sections 6.1 and 6.2. */
  function Suffix(pad: bv8): (r: seq<bool>) {
    if pad == SHAKE_PAD then [true, true, true, true] else [false, true]
  }

  lemma {:induction false} BitsOfZeros(n: nat)
    ensures BitsOf(Zeros(n)) == Falses(8 * n)
  {
    if n == 0 {
    } else {
      assert Zeros(n)[1..] == Zeros(n - 1);
      BitsOfZeros(n - 1);
      assert ByteBits(0) == Falses(8);
    }
  }

  lemma {:induction false} BitsOfSum(a: seq<bv8>, b: seq<bv8>)
    ensures BitsOf(a + b) == BitsOf(a) + BitsOf(b)
  {
    if a == [] {
      assert a + b == b;
    } else {
      assert (a + b)[1..] == a[1..] + b;
      BitsOfSum(a[1..], b);
    }
  }

  lemma BitsOfOne(b: bv8)
    ensures BitsOf([b]) == ByteBits(b)
  {
    assert [b][1..] == [];
  }

  /** The zeros fill what is left of the block. */
  lemma ZerosLeft(n: nat, rate: nat, suffix: nat)
    requires IsRate(rate) && suffix <= 4
    ensures var q := rate - n % rate; (-(8 * n + suffix) - 2) % (8 * rate) == 8 * q - suffix - 2
  {
    var d := n / rate;
    assert n == d * rate + n % rate;
    assert -(8 * n + suffix) - 2 == (-(d + 1)) * (8 * rate) + (8 * (rate - n % rate) - suffix - 2);
    Modular.ModOf(8 * rate, -(d + 1), 8 * (rate - n % rate) - suffix - 2);
  }

  lemma PadBytes()
    ensures ByteBits(SHAKE_PAD ^ 0x80) == [true, true, true, true, true, false, false, true]
    ensures ByteBits(SHA3_PAD ^ 0x80) == [false, true, true, false, false, false, false, true]
    ensures ByteBits(SHAKE_PAD) == [true, true, true, true, true, false, false, false]
    ensures ByteBits(SHA3_PAD) == [false, true, true, false, false, false, false, false]
    ensures ByteBits(0x80) == [false, false, false, false, false, false, false, true]
  {
  }

  /** The suffix, a one, the zeros and a one, cut into bytes. */
  lemma SuffixAndPad(pad: bv8, q: nat)
    requires q >= 1 && (pad == SHAKE_PAD || pad == SHA3_PAD)
    ensures 2 <= |Suffix(pad)| <= 4
    ensures Suffix(pad) + ([true] + Falses(8 * q - |Suffix(pad)| - 2) + [true])
         == if q == 1 then ByteBits(pad ^ 0x80) else ByteBits(pad) + Falses(8 * (q - 2)) + ByteBits(0x80)
  {
    PadBytes();
    hide ByteBits;
  }

  lemma PaddingBits(n: nat, rate: nat, pad: bv8)
    requires IsRate(rate)
    ensures var q := rate - n % rate;
      BitsOf(Padding(n, rate, pad)) == if q == 1 then ByteBits(pad ^ 0x80)
        else ByteBits(pad) + Falses(8 * (q - 2)) + ByteBits(0x80)
  {
    hide ByteBits, BitsOf, Zeros, Falses;
    var q := rate - n % rate;
    if q == 1 {
      BitsOfOne(pad ^ 0x80);
    } else {
      BitsOfOne(pad);
      BitsOfOne(0x80);
      BitsOfSum([pad] + Zeros(q - 2), [0x80]);
      BitsOfSum([pad], Zeros(q - 2));
      BitsOfZeros(q - 2);
    }
  }

  /** The bytes the code appends are the suffix followed by pad10*1, at every length of the message. */
  lemma PaddingIsStandard(n: nat, rate: nat, pad: bv8)
    requires IsRate(rate) && (pad == SHAKE_PAD || pad == SHA3_PAD)
    ensures BitsOf(Padding(n, rate, pad)) == Suffix(pad) + Pad101(8 * rate, 8 * n + |Suffix(pad)|)
  {
    hide ByteBits, BitsOf, Falses, Suffix, Padding;
    SuffixAndPad(pad, rate - n % rate);
    ZerosLeft(n, rate, |Suffix(pad)|);
    PaddingBits(n, rate, pad);
  }

  // ----- absorbing and squeezing -----

  /** Block by block: XOR, then permute. */
  function AbsorbedBlocks(blocks: seq<seq<bv8>>, rate: nat): (state: seq<bv64>)
    requires IsRate(rate) && forall i :: 0 <= i < |blocks| ==> |blocks[i]| == rate
    ensures |state| == LANES
  {
    if blocks == [] then seq(LANES, _ => 0)
    else
      var last := |blocks| - 1;
      Permuted(Mixed(AbsorbedBlocks(blocks[..last], rate), blocks[last]))
  }

  lemma WholeBlocks(n: nat, rate: nat)
    requires rate > 0 && n % rate == 0
    ensures 0 <= n / rate && n == rate * (n / rate)
  {
  }

  /** The state after a string of whole blocks. */
  function AbsorbedWhole(s: seq<bv8>, rate: nat): (state: seq<bv64>)
    requires IsRate(rate) && |s| % rate == 0
    ensures |state| == LANES
  {
    WholeBlocks(|s|, rate);
    AbsorbedBlocks(Split(s, rate, |s| / rate), rate)
  }

  lemma PaddedWhole(n: nat, rate: nat)
    requires rate > 0
    ensures (n + (rate - n % rate)) % rate == 0 && n - n % rate >= 0 && (n - n % rate) % rate == 0
  {
    var d := n / rate;
    assert n == d * rate + n % rate;
    Modular.ModOf(rate, d, 0);
    Modular.ModOf(rate, d + 1, 0);
    assert (d + 1) * rate == d * rate + rate;
  }

  /** The state after the padded message. */
  function Absorbed(msg: seq<bv8>, rate: nat, pad: bv8): (state: seq<bv64>)
    requires IsRate(rate)
    ensures |state| == LANES
  {
    PaddedWhole(|msg|, rate);
    AbsorbedWhole(msg + Padding(|msg|, rate, pad), rate)
  }

  /** n permutations. */
  function Turns(state: seq<bv64>, n: nat): (r: seq<bv64>)
    requires |state| == LANES
    ensures |r| == LANES
  {
    if n == 0 then state else Permuted(Turns(state, n - 1))
  }

  /** Byte i of the output: the state is permuted once every rate bytes. */
  function Output(state: seq<bv64>, rate: nat, i: nat): (b: bv8)
    requires |state| == LANES && IsRate(rate)
  {
    Front(Turns(state, i / rate), rate)[i % rate]
  }

  /** Bytes from, ..., from + n - 1 of the output. */
  function OutputBytes(state: seq<bv64>, rate: nat, from: nat, n: nat): (r: seq<bv8>)
    requires |state| == LANES && IsRate(rate)
    ensures |r| == n
  {
    seq(n, i requires 0 <= i < n => Output(state, rate, from + i))
  }

  /** The sponge as one function of the message. */
  function SpongeBytes(msg: seq<bv8>, rate: nat, pad: bv8, from: nat, n: nat): (r: seq<bv8>)
    requires IsRate(rate)
    ensures |r| == n
  {
    OutputBytes(Absorbed(msg, rate, pad), rate, from, n)
  }

  // ----- one more block -----

  lemma NextWhole(n: nat, rate: nat)
    requires rate > 0 && n % rate == 0
    ensures (n + rate) % rate == 0 && (n + rate) / rate == n / rate + 1
  {
    var d := n / rate;
    assert (d + 1) * rate == d * rate + rate;
    Modular.ModOf(rate, d + 1, 0);
  }

  lemma AbsorbNext(s: seq<bv8>, block: seq<bv8>, rate: nat)
    requires IsRate(rate) && |s| % rate == 0 && |block| == rate
    ensures |s + block| % rate == 0
    ensures AbsorbedWhole(s + block, rate) == Permuted(Mixed(AbsorbedWhole(s, rate), block))
  {
    hide Permuted, Mixed, Split;
    var count := |s| / rate;
    WholeBlocks(|s|, rate);
    NextWhole(|s|, rate);
    SplitSnoc(s, block, rate, count);
    var blocks := Split(s, rate, count);
    assert (blocks + [block])[..count] == blocks;
  }

  // ----- the absorbing half -----

  lemma XorZero(x: bv8)
    ensures 0 ^ x == x
    ensures x ^ 0 == x
  {
  }

  /** Both ends of the padding XORed into a cleared block. */
  lemma PaddingAt(n: nat, rate: nat, pad: bv8, t: nat)
    requires IsRate(rate) && t < rate - n % rate
    ensures var first, last := if t == 0 then 0 ^ pad else 0, rate - n % rate - 1;
      Padding(n, rate, pad)[t] == if t == last then first ^ 0x80 else first
  {
    XorZero(pad);
    XorZero(0x80);
  }

  method Copy(out: array<bv8>, at: nat, s: seq<bv8>)
    requires at + |s| <= out.Length
    modifies out
    ensures out[..at + |s|] == old(out[..at]) + s && out[at + |s|..] == old(out[at + |s|..])
  {
    for i := 0 to |s|
      invariant out[..at] == old(out[..at]) && out[at..at + i] == s[..i] && out[at + |s|..] == old(out[at + |s|..])
    {
      out[at + i] := s[i];
    }
    assert out[..at + |s|] == out[..at] + out[at..at + |s|];
  }

  /** The number of bytes waiting is the length modulo the rate. */
  lemma FilledAfter(message: seq<bv8>, part: seq<bv8>, rate: nat, filled: nat)
    requires rate > 0 && filled == |message| % rate && filled <= |message| && filled + |part| <= rate
    requires (|message| - filled) % rate == 0
    ensures |message + part| % rate == if filled + |part| == rate then 0 else filled + |part|
    ensures filled + |part| == rate ==> |message + part| % rate == 0
  {
    var d := (|message| - filled) / rate;
    assert |message| - filled == d * rate;
    if filled + |part| == rate {
      Modular.ModOf(rate, d + 1, 0);
      assert (d + 1) * rate == d * rate + rate;
    } else {
      Modular.ModOf(rate, d, filled + |part|);
    }
  }

  /** What was absorbed, what the block held and what came in make up the new message. */
  lemma Extended(message: seq<bv8>, part: seq<bv8>, filled: nat)
    requires filled <= |message|
    ensures var whole, held := message[..|message| - filled], message[|message| - filled..];
      && message + part == whole + (held + part)
      && (message + part)[..|message| - filled] == whole
      && (message + part)[|message| - filled..] == held + part
  {
  }

  class Absorb {
    const rate: nat
    const state: array<bv64>
    const block: array<bv8>
    var filled: nat
    /** Everything absorbed so far. */
    ghost var message: seq<bv8>

    ghost predicate Valid()
      reads this, state, block
    {
      && IsRate(rate) && state.Length == LANES && block.Length == rate && filled < rate
      && filled == |message| % rate && filled <= |message|
      && block[..filled] == message[|message| - filled..]
      && (|message| - filled) % rate == 0
      && state[..] == AbsorbedWhole(message[..|message| - filled], rate)
    }

    constructor (r: nat)
      requires IsRate(r)
      ensures Valid() && fresh(state) && fresh(block) && rate == r && message == []
    {
      rate := r;
      state := new bv64[LANES](_ => 0);
      block := new bv8[r](_ => 0);
      filled := 0;
      message := [];
      new;
      assert state[..] == AbsorbedBlocks([], rate);
      assert Split<bv8>([], rate, 0) == [];
    }

    /** One pass of the loop: bytes that fit into the block, which is absorbed at once when it is full. */
    method Take(part: seq<bv8>)
      requires Valid() && filled + |part| <= rate
      modifies this, state, block
      ensures Valid() && message == old(message) + part
    {
      hide AbsorbedWhole, Permuted, Mixed;
      ghost var whole, held := message[..|message| - filled], block[..filled] + part;
      Extended(message, part, filled);
      FilledAfter(message, part, rate, filled);
      Copy(block, filled, part);
      filled := filled + |part|;
      message := message + part;
      assert block[..filled] == held;
      if filled == rate {
        assert block[..] == held;
        AbsorbNext(whole, held, rate);
        XorBlock(state, block[..]);
        KeccakF1600(state);
        filled := 0;
        assert message[..|message|] == message;
      }
    }

    /** Any piece, empty ones included, is appended to the message. */
    method Update(piece: seq<bv8>)
      requires Valid()
      modifies this, state, block
      ensures Valid() && message == old(message) + piece
    {
      hide AbsorbedWhole, Permuted, Mixed;
      var rest := piece;
      assert message + rest == old(message) + piece;
      while rest != []
        invariant Valid() && message + rest == old(message) + piece
        decreases |rest|
      {
        var take := if rate - filled < |rest| then rate - filled else |rest|;
        ghost var whole := message + rest;
        Take(rest[..take]);
        rest := rest[take..];
        assert message + rest == whole;
      }
      assert message == message + rest;
    }

    /** The rest of the block cleared, then both ends of the padding XORed in. */
    method PadBlock(pad: bv8)
      requires IsRate(rate) && block.Length == rate && filled < rate && filled == |message| % rate
      modifies block
      ensures block[..] == old(block[..filled]) + Padding(|message|, rate, pad)
    {
      hide Padding;
      ghost var held, p := block[..filled], Padding(|message|, rate, pad);
      for i := filled to rate
        invariant block[..filled] == held
        invariant forall t :: filled <= t < i ==> block[t] == 0
      {
        block[i] := 0;
      }
      block[filled] := block[filled] ^ pad;
      block[rate - 1] := block[rate - 1] ^ 0x80;
      forall t | 0 <= t < rate - filled
        ensures block[filled + t] == p[t]
      {
        PaddingAt(|message|, rate, pad, t);
      }
      assert block[filled..] == p;
      assert block[..] == block[..filled] + block[filled..];
    }

    /** FIPS 202 section 5.1: the padding completes the block in the buffer. */
    method Finish(pad: bv8) returns (r: array<bv64>)
      requires Valid()
      modifies block
      ensures fresh(r) && r[..] == Absorbed(message, rate, pad)
    {
      hide AbsorbedWhole, Permuted, Mixed, Padding;
      ghost var whole, padding := message[..|message| - filled], Padding(|message|, rate, pad);
      ghost var last := block[..filled] + padding;
      Extended(message, padding, filled);
      PadBlock(pad);
      AbsorbNext(whole, last, rate);
      r := new bv64[LANES](i requires 0 <= i < LANES reads this, state => state[i]);
      assert r[..] == state[..];
      XorBlock(r, block[..]);
      KeccakF1600(r);
    }
  }

  // ----- the squeezing half -----

  lemma NextMultiple(given: nat, rate: nat)
    requires 0 < rate <= given && (given - rate) % rate == 0
    ensures given % rate == 0 && given / rate == (given - rate) / rate + 1
  {
    var n := (given - rate) / rate;
    assert given - rate == n * rate;
    assert (n + 1) * rate == n * rate + rate;
    Modular.ModOf(rate, n + 1, 0);
  }

  /** As long as a read stays within the buffer it reads the output. */
  lemma PartOfBlock(start: seq<bv64>, rate: nat, given: nat, used: nat, take: nat)
    requires |start| == LANES && IsRate(rate) && used <= given && used + take <= rate && (given - used) % rate == 0
    ensures OutputBytes(start, rate, given, take) == Front(Turns(start, (given - used) / rate), rate)[used..used + take]
  {
    hide Turns, Front;
    var n := (given - used) / rate;
    assert given - used == n * rate;
    var l, r := OutputBytes(start, rate, given, take), Front(Turns(start, n), rate)[used..used + take];
    forall i | 0 <= i < take
      ensures l[i] == r[i]
    {
      Modular.ModOf(rate, n, used + i);
      assert given + i == n * rate + (used + i);
      assert l[i] == Output(start, rate, given + i);
    }
    assert l == r;
  }

  lemma MoreOutput(start: seq<bv64>, rate: nat, from: nat, n: nat, m: nat)
    requires |start| == LANES && IsRate(rate)
    ensures OutputBytes(start, rate, from, n + m)
      == OutputBytes(start, rate, from, n) + OutputBytes(start, rate, from + n, m)
  {
    hide Output;
    var l, r := OutputBytes(start, rate, from, n + m),
      OutputBytes(start, rate, from, n) + OutputBytes(start, rate, from + n, m);
    forall i | 0 <= i < n + m
      ensures l[i] == r[i]
    {
      if i >= n {
        assert from + n + (i - n) == from + i;
      }
    }
    assert l == r;
  }

  lemma NothingRead(start: seq<bv64>, rate: nat, from: nat)
    requires |start| == LANES && IsRate(rate)
    ensures OutputBytes(start, rate, from, 0) == []
  {
  }

  class Squeeze {
    const rate: nat
    const state: array<bv64>
    const buf: array<bv8>
    var used: nat
    /** The state the output begins with, and how many bytes of it were handed out. */
    ghost const start: seq<bv64>
    ghost var given: nat

    ghost predicate Valid()
      reads this, state, buf
    {
      && IsRate(rate) && state.Length == LANES && buf.Length == rate && |start| == LANES && used <= rate
        && used <= given
      && (given - used) % rate == 0
      && state[..] == Turns(start, (given - used) / rate)
      && buf[..] == Front(state[..], rate)
    }

    /** Absorbing ends with a permutation, so the first output block is the state as it stands. */
    constructor (s: array<bv64>, r: nat)
      requires IsRate(r) && s.Length == LANES
      ensures Valid() && fresh(state) && fresh(buf) && rate == r && start == s[..] && given == 0
    {
      var copy := new bv64[LANES](i requires 0 <= i < LANES reads s => s[i]);
      var out := new bv8[r];
      assert copy[..] == s[..];
      SqueezeBlock(copy, out);
      rate := r;
      state := copy;
      buf := out;
      used := 0;
      start := s[..];
      given := 0;
    }

    /** The buffer is used up: the state is permuted and its front copied. */
    method NextBlock()
      requires Valid() && used == rate
      modifies this`used, state, buf
      ensures Valid() && used == 0
    {
      hide Permuted, Front;
      ghost var n := (given - used) / rate;
      NextMultiple(given, rate);
      KeccakF1600(state);
      SqueezeBlock(state, buf);
      used := 0;
    }

    /** Bytes still in the buffer go to position done of the caller's. */
    method Give(out: array<bv8>, done: nat, take: nat)
      requires Valid() && out != buf && used + take <= rate && done + take <= out.Length
      modifies this`used, this`given, out
      ensures Valid() && used == old(used) + take && given == old(given) + take
      ensures out[..done + take] == old(out[..done]) + OutputBytes(start, rate, old(given), take)
    {
      hide Permuted, Front, Turns, OutputBytes;
      PartOfBlock(start, rate, given, used, take);
      Copy(out, done, buf[used..used + take]);
      used := used + take;
      given := given + take;
    }

    /** The next bytes of the output, wherever the last call stopped. */
    method Read(out: array<bv8>)
      requires Valid() && out != buf
      modifies this, state, buf, out
      ensures Valid() && given == old(given) + out.Length
      ensures out[..] == OutputBytes(start, rate, old(given), out.Length)
    {
      hide Permuted, Front, Turns, OutputBytes;
      NothingRead(start, rate, given);
      var done := 0;
      while done < out.Length
        invariant Valid() && done <= out.Length && given == old(given) + done
        invariant out[..done] == OutputBytes(start, rate, old(given), done)
        decreases out.Length - done
      {
        if used == rate {
          NextBlock();
        }
        var take := if rate - used < out.Length - done then rate - used else out.Length - done;
        MoreOutput(start, rate, old(given), done, take);
        Give(out, done, take);
        done := done + take;
      }
    }
  }

  // ----- the functions -----

  /** The one-shot sponge. */
  method OneShot(msg: seq<bv8>, rate: nat, pad: bv8, out: array<bv8>)
    requires IsRate(rate)
    modifies out
    ensures out[..] == SpongeBytes(msg, rate, pad, 0, out.Length)
  {
    hide Absorbed, OutputBytes;
    var a := new Absorb(rate);
    hide a.Valid;
    a.Update(msg);
    assert a.message == msg;
    var state := a.Finish(pad);
    var s := new Squeeze(state, rate);
    hide s.Valid;
    s.Read(out);
  }

  method AbsorbAll(a: Absorb, pieces: seq<seq<bv8>>)
    requires a.Valid()
    modifies a, a.state, a.block
    ensures a.Valid() && a.message == old(a.message) + Concat(pieces)
  {
    hide Concat, a.Valid;
    NothingConcat(pieces);
    for i := 0 to |pieces|
      invariant a.Valid() && a.message == old(a.message) + Concat(pieces[..i])
    {
      a.Update(pieces[i]);
      assert pieces[..i + 1] == pieces[..i] + [pieces[i]];
      ConcatSnoc(pieces[..i], pieces[i]);
    }
    assert pieces[..|pieces|] == pieces;
  }

  method ReadAll(s: Squeeze, lengths: seq<nat>) returns (outs: seq<seq<bv8>>)
    requires s.Valid() && s.given == 0
    modifies s, s.state, s.buf
    ensures |outs| == |lengths| && forall i :: 0 <= i < |outs| ==> |outs[i]| == lengths[i]
    ensures Concat(outs) == OutputBytes(s.start, s.rate, 0, |Concat(outs)|)
  {
    hide OutputBytes, Concat;
    outs := [];
    NothingRead(s.start, s.rate, 0);
    NothingConcat(outs);
    for i := 0 to |lengths|
      invariant s.Valid() && s.given == |Concat(outs)|
      invariant |outs| == i && forall j :: 0 <= j < i ==> |outs[j]| == lengths[j]
      invariant Concat(outs) == OutputBytes(s.start, s.rate, 0, s.given)
    {
      var out := new bv8[lengths[i]];
      ghost var before := s.given;
      s.Read(out);
      MoreOutput(s.start, s.rate, 0, before, out.Length);
      ConcatSnoc(outs, out[..]);
      outs := outs + [out[..]];
    }
  }

  /** Any number of pieces in, any number of reads out: the reads together are the sponge of the pieces
      together. */
  method Incremental(pieces: seq<seq<bv8>>, lengths: seq<nat>, rate: nat, pad: bv8) returns (outs: seq<seq<bv8>>)
    requires IsRate(rate)
    ensures |outs| == |lengths| && forall i :: 0 <= i < |outs| ==> |outs[i]| == lengths[i]
    ensures Concat(outs) == SpongeBytes(Concat(pieces), rate, pad, 0, |Concat(outs)|)
  {
    hide Absorbed, OutputBytes, Concat;
    var a := new Absorb(rate);
    AbsorbAll(a, pieces);
    assert a.message == Concat(pieces);
    var state := a.Finish(pad);
    var s := new Squeeze(state, rate);
    outs := ReadAll(s, lengths);
  }
}
