/** Sampling of ML-KEM: macula-mlkem/src/sample.rs over arbitrary streams and byte strings. */
module MlKemSample {
  import opened Machine
  import opened Modular
  import opened Polynomials
  import opened Norms
  import opened Digits
  import opened Bits
  import opened Streams
  import opened MlKemArith
  import opened MlKemNtt

  // ----- SampleNTT -----

  lemma Twelve(b0: Byte, b1: Byte)
    ensures (b0 + 0x100 * b1) % 0x1000 == b0 + 256 * (b1 % 16)
  {
    ModOf(0x1000, b1 / 16, b0 + 256 * (b1 % 16));
  }

  /** The first candidate of three bytes: the low twelve bits of the first two. */
  function LowTwelve(b0: Byte, b1: Byte): (v: Option<int>)
    ensures v.Some? <==> (b0 + 0x100 * b1) % 0x1000 < Q
    ensures v.Some? ==> v.value == (b0 + 0x100 * b1) % 0x1000
  {
    Twelve(b0, b1);
    var d1 := b0 + 256 * (b1 % 16);
    if d1 < Q then Some(d1) else None
  }

  /** The second: the high twelve bits of the last two. */
  function HighTwelve(b1: Byte, b2: Byte): (v: Option<int>)
    ensures v.Some? <==> (b1 + 0x100 * b2) / 16 < Q
    ensures v.Some? ==> v.value == (b1 + 0x100 * b2) / 16
  {
    var d2 := b1 / 16 + 16 * b2;
    if d2 < Q then Some(d2) else None
  }

  function NttCandidates(s: Stream): Candidates {
    (i: nat) => if i % 2 == 0 then LowTwelve(s(i / 2 * 3), s(i / 2 * 3 + 1))
      else HighTwelve(s(i / 2 * 3 + 1), s(i / 2 * 3 + 2))
  }

  lemma CandidatesAt(s: Stream, i: nat)
    ensures NttCandidates(s)(2 * i) == LowTwelve(s(3 * i), s(3 * i + 1))
    ensures NttCandidates(s)(2 * i + 1) == HighTwelve(s(3 * i + 1), s(3 * i + 2))
  {
    assert (2 * i) / 2 == i && (2 * i + 1) / 2 == i && (2 * i) % 2 == 0 && (2 * i + 1) % 2 == 1;
  }

  lemma NttPolyInRange(s: Stream)
    requires Yields(NttCandidates(s), N)
    ensures IsPoly(FirstAccepted(NttCandidates(s), N))
  {
    var f := FirstAccepted(NttCandidates(s), N);
    forall i | 0 <= i < N
      ensures Canon(Q, f[i])
    {
      var t := FirstAcceptedIn(NttCandidates(s), N, i);
      CandidatesAt(s, t / 2);
    }
  }

  /** The polynomial a seed's stream stands for: the first 256 acceptable candidates, in order. */
  ghost function NttPoly(s: Stream): (r: seq<int>)
    requires Yields(NttCandidates(s), N)
    ensures IsPoly(r)
  {
    NttPolyInRange(s);
    FirstAccepted(NttCandidates(s), N)
  }

  /** FIPS 203 Algorithm 7: three bytes at a time, two candidates each; the second is not looked at once
      the polynomial is full. */
  method SampleNtt(s: Stream) returns (f: seq<int>)
    requires Yields(NttCandidates(s), N)
    ensures f == NttPoly(s)
  {
    hide LowTwelve, HighTwelve, Accepted, NttCandidates;
    ghost var c := NttCandidates(s);
    assert |Accepted(c, 0)| == 0 by { NoneAccepted(c); }
    ghost var k: nat :| |Accepted(c, k)| >= N;
    var out := new int[N](_ => 0);
    var j := 0;
    var groups := 0;
    ghost var seen := 0;
    while j < N
      invariant 0 <= j <= N && (j < N ==> seen == 2 * groups)
      invariant j == |Accepted(c, seen)| && out[..j] == Accepted(c, seen)
      decreases N - j > 0, k - seen
    {
      StillAhead(c, N, seen, k);
      var buf := Take(s, 3 * groups, 3);
      CandidatesAt(s, groups);
      j := Keep(out, j, LowTwelve(buf[0], buf[1]), c, seen);
      seen := seen + 1;
      if j < N {
        j := Keep(out, j, HighTwelve(buf[1], buf[2]), c, seen);
        seen := seen + 1;
      }
      groups := groups + 1;
    }
    f := out[..];
    FirstAcceptedAt(c, N, seen);
  }

  // ----- SamplePolyCBD -----

  /** The number of ones among bits from, ..., from + n - 1 of x. */
  function CountOnes(x: nat, from: nat, n: nat): (c: int)
    ensures 0 <= c <= n
  {
    if n == 0 then 0 else CountOnes(x, from, n - 1) + Bit(x, from + n - 1)
  }

  /** The difference between the ones of two neighbouring windows of eta bits. */
  function Difference(x: nat, eta: nat, i: nat): (v: int)
    ensures 0 - eta <= v <= eta
  {
    CountOnes(x, 2 * i * eta, eta) - CountOnes(x, 2 * i * eta + eta, eta)
  }

  /** A small signed value, held mod q. */
  function Folded(v: int): (r: int)
    requires -Q < v < Q
    ensures r == v % Q && 0 <= r < Q
  {
    I16(v + WhenNegative(v, Q))
  }

  function CbdAt(x: nat, eta: nat, i: nat): (v: int)
    requires eta <= 3
    ensures Canon(Q, v) && Size(Q, v) <= eta
  {
    hide Difference;
    Folded(Difference(x, eta, i))
  }

  ghost function ByteNumber(bytes: seq<Byte>): (x: nat)
    ensures x == ToNat(bytes, 256)
  {
    ToNatBound(bytes, 256);
    ToNat(bytes, 256)
  }

  ghost function Cbd(eta: nat, bytes: seq<Byte>): (f: seq<int>)
    requires eta <= 3
    ensures IsPoly(f) && Bounded(Q, f, eta)
  {
    hide Difference;
    var x := ByteNumber(bytes);
    seq(N, i requires 0 <= i < N => CbdAt(x, eta, i))
  }

  lemma WindowFits(eta: nat, i: nat)
    requires i < N
    ensures 0 <= 2 * i * eta && 2 * i * eta + 2 * eta <= 8 * (64 * eta)
  {
    Scaled(2 * i, 2 * N - 2, eta);
  }

  lemma DifferenceIs(n: nat, eta: nat, i: nat, x: int, y: int)
    requires eta <= 3 && x == CountOnes(n, 2 * i * eta, eta) && y == CountOnes(n, 2 * i * eta + eta, eta)
    ensures 0 - eta <= x - y <= eta && Folded(x - y) == CbdAt(n, eta, i)
  {
  }

  /** Half of the inner loop: the ones of one window. */
  method CountWindow(bytes: seq<Byte>, from: nat, eta: nat) returns (x: int)
    requires from + eta <= 8 * |bytes|
    ensures x == CountOnes(ByteNumber(bytes), from, eta)
  {
    hide ToNat, Bit;
    x := 0;
    ghost var n := ByteNumber(bytes);
    for k := 0 to eta
      invariant x == CountOnes(n, from, k)
    {
      BitOfByte(bytes, from + k);
      x := x + bytes[(from + k) / 8] / Pow2((from + k) % 8) % 2;
    }
  }

  /** FIPS 203 Algorithm 8. */
  method SamplePolyCbd(eta: nat, bytes: seq<Byte>) returns (f: seq<int>)
    requires 1 <= eta <= 3 && |bytes| == 64 * eta
    ensures f == Cbd(eta, bytes)
  {
    hide CbdAt, Difference, CountOnes, ToNat;
    ghost var n := ByteNumber(bytes);
    var out := new int[N];
    for i := 0 to N
      invariant forall j :: 0 <= j < i ==> out[j] == CbdAt(n, eta, j)
    {
      var base := 2 * i * eta;
      WindowFits(eta, i);
      var x := CountWindow(bytes, base, eta);
      var y := CountWindow(bytes, base + eta, eta);
      DifferenceIs(n, eta, i, x, y);
      out[i] := Folded(x - y);
    }
    f := out[..];
  }
}
