/** Sampling: macula-mldsa/src/sample.rs over arbitrary output streams. */
module MlDsaSample {
  import opened Machine
  import opened Modular
  import opened Polynomials
  import opened Norms
  import opened Digits
  import opened Bits
  import opened Streams
  import opened MlDsaArith

  // ----- RejNTTPoly -----

  /** FIPS 204 Algorithm 14: the low 23 bits of three bytes, unless they are q or more. */
  function ThreeBytes(b0: Byte, b1: Byte, b2: Byte): (z: Option<int>)
    ensures z.Some? <==> (b0 + 0x100 * b1 + 0x1_0000 * b2) % 0x80_0000 < Q
    ensures z.Some? ==> z.value == (b0 + 0x100 * b1 + 0x1_0000 * b2) % 0x80_0000
  {
    var z := b0 + b1 * 0x100 + b2 % 0x80 * 0x1_0000;
    if z < Q then Some(z) else None
  }

  function NttCandidates(s: Stream): Candidates {
    (i: nat) => ThreeBytes(s(3 * i), s(3 * i + 1), s(3 * i + 2))
  }

  /** The polynomial a seed's stream stands for: the first 256 acceptable triples, in order. */
  ghost function NttPoly(s: Stream): (r: seq<int>)
    requires Yields(NttCandidates(s), N)
  {
    FirstAccepted(NttCandidates(s), N)
  }

  lemma NttPolyInRange(s: Stream)
    requires Yields(NttCandidates(s), N)
    ensures IsPoly(NttPoly(s))
  {
    forall i | 0 <= i < N
      ensures Canon(Q, NttPoly(s)[i])
    {
      var t := FirstAcceptedIn(NttCandidates(s), N, i);
      assert NttCandidates(s)(t) == ThreeBytes(s(3 * t), s(3 * t + 1), s(3 * t + 2));
    }
  }

  /** Squeezes blocks of 168 bytes, 56 candidates each, and discards what is left of the last. */
  method RejNttPoly(s: Stream) returns (a: seq<int>)
    requires Yields(NttCandidates(s), N)
    ensures a == NttPoly(s)
  {
    hide ThreeBytes, Accepted;
    ghost var c := NttCandidates(s);
    assert |Accepted(c, 0)| == 0 by { NoneAccepted(c); }
    ghost var k: nat :| |Accepted(c, k)| >= N;
    var out := new int[N](_ => 0);
    var j := 0;
    var blocks := 0;
    ghost var seen := 0;
    while j < N
      invariant 0 <= j <= N && (j < N ==> seen == 56 * blocks)
      invariant j == |Accepted(c, seen)| && out[..j] == Accepted(c, seen)
      decreases N - j > 0, k - seen
    {
      StillAhead(c, N, seen, k);
      var block := Take(s, 168 * blocks, 168);
      ghost var was := seen;
      for t := 0 to 56
        invariant 0 <= j <= N && was <= seen && (j < N ==> seen == 56 * blocks + t)
        invariant j == |Accepted(c, seen)| && out[..j] == Accepted(c, seen)
      {
        if j == N {
          break;
        }
        var z := ThreeBytes(block[3 * t], block[3 * t + 1], block[3 * t + 2]);
        assert z == c(seen);
        j := Keep(out, j, z, c, seen);
        seen := seen + 1;
      }
      blocks := blocks + 1;
    }
    a := out[..];
    FirstAcceptedAt(c, N, seen);
  }

  // ----- RejBoundedPoly -----

  /** FIPS 204 Algorithm 15. */
  function CoeffFromHalfByte(b: Byte, eta: int): (v: Option<int>)
    ensures v.Some? <==> (eta == 2 && b < 15) || (eta == 4 && b < 9)
    ensures v.Some? ==> -eta <= v.value <= eta && (b + v.value) % (2 * eta + 1) == eta
  {
    if eta == 2 && b < 15 then Some(2 - b % 5)
    else if eta == 4 && b < 9 then Some(4 - b)
    else None
  }

  /** A half-byte's value, held mod q. */
  function HalfByte(b: Byte, eta: int): (v: Option<int>) {
    match CoeffFromHalfByte(b, eta)
    case Some(x) => Some(FromSigned(x))
    case None => None
  }

  /** Half-byte i: the low half of a byte before its high half. */
  function HalfCandidates(s: Stream, eta: int): Candidates {
    (i: nat) => HalfByte(if i % 2 == 0 then s(i / 2) % 16 else s(i / 2) / 16, eta)
  }

  ghost function BoundedPoly(s: Stream, eta: int): (r: seq<int>)
    requires Yields(HalfCandidates(s, eta), N)
  {
    FirstAccepted(HalfCandidates(s, eta), N)
  }

  lemma SmallValue(b: Byte, eta: int)
    requires HalfByte(b, eta).Some?
    ensures Canon(Q, HalfByte(b, eta).value) && Size(Q, HalfByte(b, eta).value) <= eta
  {
  }

  lemma BoundedPolyInRange(s: Stream, eta: int)
    requires Yields(HalfCandidates(s, eta), N) && (eta == 2 || eta == 4)
    ensures IsPoly(BoundedPoly(s, eta)) && Bounded(Q, BoundedPoly(s, eta), eta)
  {
    var f := BoundedPoly(s, eta);
    forall i | 0 <= i < N
      ensures Canon(Q, f[i]) && Size(Q, f[i]) <= eta
    {
      var t := FirstAcceptedIn(HalfCandidates(s, eta), N, i);
      var b := if t % 2 == 0 then s(t / 2) % 16 else s(t / 2) / 16;
      assert HalfCandidates(s, eta)(t) == HalfByte(b, eta);
      SmallValue(b, eta);
    }
  }

  lemma HalfAt(s: Stream, eta: int, i: nat)
    ensures HalfCandidates(s, eta)(2 * i) == HalfByte(s(i) % 16, eta)
    ensures HalfCandidates(s, eta)(2 * i + 1) == HalfByte(s(i) / 16, eta)
  {
    assert (2 * i) / 2 == i && (2 * i + 1) / 2 == i && (2 * i) % 2 == 0 && (2 * i + 1) % 2 == 1;
  }

  /** A byte gives its lower half as the even candidate and its upper half as the odd one after it. */
  lemma HalvesOfByte(s: Stream, eta: int, i: nat, low: Byte, high: Byte)
    requires low < 16 && high < 16 && s(i) == low + 16 * high
    ensures HalfCandidates(s, eta)(2 * i) == HalfByte(low, eta)
    ensures HalfCandidates(s, eta)(2 * i + 1) == HalfByte(high, eta)
  {
    HalfAt(s, eta, i);
  }

  /** Squeezes blocks of 136 bytes, two candidates a byte, and stops in the middle of a byte if need be. */
  method RejBoundedPoly(s: Stream, eta: int) returns (a: seq<int>)
    requires Yields(HalfCandidates(s, eta), N)
    ensures a == BoundedPoly(s, eta)
  {
    hide HalfByte, Accepted, HalfCandidates;
    ghost var c := HalfCandidates(s, eta);
    assert |Accepted(c, 0)| == 0 by { NoneAccepted(c); }
    ghost var k: nat :| |Accepted(c, k)| >= N;
    var out := new int[N](_ => 0);
    var j := 0;
    var blocks := 0;
    ghost var seen := 0;
    while j < N
      invariant 0 <= j <= N && (j < N ==> seen == 272 * blocks)
      invariant j == |Accepted(c, seen)| && out[..j] == Accepted(c, seen)
      decreases N - j > 0, k - seen
    {
      StillAhead(c, N, seen, k);
      var block := Take(s, 136 * blocks, 136);
      ghost var was := seen;
      for t := 0 to 136
        invariant 0 <= j < N && was <= seen == 272 * blocks + 2 * t
        invariant j == |Accepted(c, seen)| && out[..j] == Accepted(c, seen)
      {
        var z := block[t];
        HalfAt(s, eta, 136 * blocks + t);
        j := Keep(out, j, HalfByte(z % 16, eta), c, seen);
        seen := seen + 1;
        if j < N {
          j := Keep(out, j, HalfByte(z / 16, eta), c, seen);
          seen := seen + 1;
        }
        if j == N {
          break;
        }
      }
      blocks := blocks + 1;
    }
    a := out[..];
    FirstAcceptedAt(c, N, seen);
  }

  // ----- SampleInBall -----

  /** Bit b of the first eight bytes, little-endian: the sign of the b-th nonzero coefficient. */
  function SignBit(s: Stream, b: nat): int {
    ToNat(Take(s, 0, 8), 256) / Pow2(b) % 2
  }

  function SignOf(s: Stream, b: nat): (v: int)
    ensures v == 1 || v == Q - 1
  {
    if SignBit(s, b) == 1 then Q - 1 else 1
  }

  /** The loops from coefficient i on, reading from pos, come to an end. */
  ghost predicate BallEnds(s: Stream, pos: nat, i: nat)
    decreases N - i
  {
    i < N ==> Reaches(s, pos, i) && BallEnds(s, Next(s, pos, i) + 1, i + 1)
  }

  /** What the loop does to c from coefficient i on. */
  ghost function BallFrom(s: Stream, tau: nat, c: seq<int>, pos: nat, i: nat): (r: seq<int>)
    requires |c| == N && N - tau <= i <= N && BallEnds(s, pos, i)
    ensures |r| == N
    decreases N - i
  {
    if i == N then c
    else
      var p := Next(s, pos, i);
      BallFrom(s, tau, c[i := c[s(p)]][s(p) := SignOf(s, i + tau - N)], p + 1, i + 1)
  }

  ghost function Ball(s: Stream, tau: nat): (r: seq<int>)
    requires tau <= N && BallEnds(s, 8, N - tau)
  {
    BallFrom(s, tau, Zero(N), 8, N - tau)
  }

  lemma BallStep(s: Stream, tau: nat, c: seq<int>, pos: nat, i: nat)
    requires |c| == N && N - tau <= i < N && BallEnds(s, pos, i)
    ensures Reaches(s, pos, i) && BallEnds(s, Next(s, pos, i) + 1, i + 1)
    ensures var p := Next(s, pos, i);
      BallFrom(s, tau, c, pos, i) == BallFrom(s, tau, c[i := c[s(p)]][s(p) := SignOf(s, i + tau - N)], p + 1, i + 1)
  {
  }

  lemma SignOfBit(s: Stream, b: nat)
    ensures SignOf(s, b) == if ToNat(Take(s, 0, 8), 256) / Pow2(b) % 2 == 1 then Q - 1 else 1
  {
  }

  lemma BallDone(s: Stream, tau: nat, c: seq<int>, pos: nat)
    requires |c| == N && BallEnds(s, pos, N)
    ensures BallFrom(s, tau, c, pos, N) == c
  {
  }

  /** The inner loop: one byte at a time until one is at most i. Returns it and the position after it. */
  method NextAtMost(s: Stream, pos: nat, i: nat) returns (j: Byte, at: nat)
    requires Reaches(s, pos, i)
    ensures j == s(Next(s, pos, i)) && at == Next(s, pos, i) + 1
  {
    ghost var p := Next(s, pos, i);
    j := s(pos);
    at := pos + 1;
    while j > i
      invariant pos < at <= p + 1 && j == s(at - 1)
      decreases p + 1 - at
    {
      j := s(at);
      at := at + 1;
    }
  }

  /** FIPS 204 Algorithm 29: the in-place shuffle. */
  method SampleInBall(s: Stream, tau: nat) returns (c: seq<int>)
    requires tau <= N && BallEnds(s, 8, N - tau)
    ensures c == Ball(s, tau)
  {
    hide ToNat, Pow2, SignOf, BallFrom, BallEnds;
    var signs := ToNat(Take(s, 0, 8), 256);
    var pos := 8;
    var a := new int[N](_ => 0);
    assert a[..] == Zero(N);
    for i := N - tau to N
      invariant 8 <= pos && BallEnds(s, pos, i)
      invariant Ball(s, tau) == BallFrom(s, tau, a[..], pos, i)
    {
      BallStep(s, tau, a[..], pos, i);
      SignOfBit(s, i + tau - N);
      var j, next := NextAtMost(s, pos, i);
      ghost var before := a[..];
      a[i] := a[j];
      a[j] := if signs / Pow2(i + tau - N) % 2 == 1 then Q - 1 else 1;
      assert a[..] == before[i := before[j]][j := SignOf(s, i + tau - N)];
      pos := next;
    }
    assert Ball(s, tau) == a[..] by { BallDone(s, tau, a[..], pos); }
    c := a[..];
  }

  /** The shuffle's invariant: coefficients from i on are still 0, and i - (N - tau) below are not. */
  lemma {:induction false} BallFromWeight(s: Stream, tau: nat, c: seq<int>, pos: nat, i: nat)
    requires |c| == N && N - tau <= i <= N && BallEnds(s, pos, i)
    requires AllSigns(Q, c) && (forall t :: i <= t < N ==> c[t] == 0) && Weight(c) == i - (N - tau)
    ensures AllSigns(Q, BallFrom(s, tau, c, pos, i)) && Weight(BallFrom(s, tau, c, pos, i)) == tau
    decreases N - i
  {
    hide Weight, SignOf, BallFrom, BallEnds;
    if i == N {
      BallDone(s, tau, c, pos);
    } else {
      BallStep(s, tau, c, pos, i);
      var p := Next(s, pos, i);
      var j := s(p);
      var c1 := c[i := c[j]];
      var c2 := c1[j := SignOf(s, i + tau - N)];
      WeightUpdate(c, i, c[j]);
      WeightUpdate(c1, j, SignOf(s, i + tau - N));
      BallFromWeight(s, tau, c2, p + 1, i + 1);
    }
  }

  /** Exactly tau coefficients are 1 or -1 and the rest are 0, whatever the stream. */
  lemma BallWeight(s: Stream, tau: nat)
    requires tau <= N && BallEnds(s, 8, N - tau)
    ensures IsPoly(Ball(s, tau)) && AllSigns(Q, Ball(s, tau)) && Weight(Ball(s, tau)) == tau
  {
    WeightZero(N);
    BallFromWeight(s, tau, Zero(N), 8, N - tau);
  }

  // ----- which sign ends up where -----

  lemma SignIsStreamBit(s: Stream, b: nat)
    requires b < 64
    ensures SignOf(s, b) == if StreamBit(s, b) == 1 then Q - 1 else 1
  {
    hide ToNat, Pow2;
    BitOfByte(Take(s, 0, 8), b);
  }

  /** The positions that hold signs, each with the number of its sign, from coefficient i on: the next byte j of at most
      i names the new sign's place, and the sign that stood there moves to i. */
  ghost function PlacesFrom(s: Stream, tau: nat, m: map<int, nat>, pos: nat, i: nat): (r: map<int, nat>)
    requires N - tau <= i <= N && BallEnds(s, pos, i)
    decreases N - i
  {
    if i == N then m
    else
      var p := Next(s, pos, i);
      var j, b := s(p), i + tau - N;
      PlacesFrom(s, tau, if j in m then m[i := m[j]][j := b] else m[j := b], p + 1, i + 1)
  }

  ghost function Places(s: Stream, tau: nat): (r: map<int, nat>)
    requires tau <= N && BallEnds(s, 8, N - tau)
  {
    PlacesFrom(s, tau, map[], 8, N - tau)
  }

  /** c holds the signs that m places. */
  ghost predicate Placed(s: Stream, c: seq<int>, m: map<int, nat>, i: nat) {
    && |c| == N && (forall t :: t in m ==> 0 <= t < i && m[t] < 64)
    && forall t :: 0 <= t < N ==> c[t] == if t in m then SignOf(s, m[t]) else 0
  }

  lemma PlacedNext(s: Stream, c: seq<int>, m: map<int, nat>, i: nat, j: nat, b: nat)
    requires Placed(s, c, m, i) && j <= i < N && b < 64
    ensures Placed(s, c[i := c[j]][j := SignOf(s, b)], if j in m then m[i := m[j]][j := b] else m[j := b], i + 1)
  {
    hide SignOf;
  }

  lemma PlacedIs(s: Stream, c: seq<int>, m: map<int, nat>, i: nat)
    requires Placed(s, c, m, i)
    ensures |c| == N
  {
  }

  lemma {:induction false} BallFromPlaces(s: Stream, tau: nat, c: seq<int>, m: map<int, nat>, pos: nat, i: nat)
    requires tau <= 64 && N - tau <= i <= N && Placed(s, c, m, i) && BallEnds(s, pos, i)
    ensures Placed(s, BallFrom(s, tau, c, pos, i), PlacesFrom(s, tau, m, pos, i), N)
    decreases N - i
  {
    hide SignOf, Placed, BallEnds;
    if i == N {
    } else {
      PlacedIs(s, c, m, i);
      BallStep(s, tau, c, pos, i);
      var p := Next(s, pos, i);
      var j, b := s(p), i + tau - N;
      PlacedNext(s, c, m, i, j, b);
      BallFromPlaces(s, tau, c[i := c[j]][j := SignOf(s, b)], if j in m then m[i := m[j]][j := b] else m[j := b], p + 1,
        i + 1);
    }
  }

  /** Every coefficient of the challenge: 0, or 1 or -1 by one bit of the first eight bytes. */
  lemma BallPlaces(s: Stream, tau: nat, t: int)
    requires tau <= 64 && BallEnds(s, 8, N - tau) && 0 <= t < N
    ensures var m := Places(s, tau);
      && |Ball(s, tau)| == N && (t in m ==> m[t] < 64)
      && Ball(s, tau)[t] == if t in m then (if StreamBit(s, m[t]) == 1 then Q - 1 else 1) else 0
  {
    hide BallFrom, BallEnds, SignOf, PlacesFrom;
    assert Placed(s, Zero(N), map[], N - tau);
    BallFromPlaces(s, tau, Zero(N), map[], 8, N - tau);
    var m := Places(s, tau);
    if t in m {
      SignIsStreamBit(s, m[t]);
    }
  }

  /** The product of a challenge with a polynomial of norm eta has norm at most tau eta. */
  lemma ChallengeProduct(s: Stream, tau: nat, f: seq<int>, eta: int)
    requires tau <= N && BallEnds(s, 8, N - tau)
    requires IsPoly(f) && 0 <= eta && Bounded(Q, f, eta)
    ensures Bounded(Q, Times(Q, Q - 1, Ball(s, tau), f), tau * eta)
  {
    BallWeight(s, tau);
    ChallengeProductBound(Q, Ball(s, tau), f, eta);
  }
}
