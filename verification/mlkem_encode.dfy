/** Byte encoding and compression of ML-KEM: macula-mlkem/src/encode.rs. */
module MlKemEncode {
  import opened Modular
  import opened Machine
  import opened Polynomials
  import opened Digits
  import opened Packing
  import opened Bits
  import opened MlKemArith
  import opened MlKemNtt

  /** The lowest d bits of every coefficient: all that is encoded. */
  function Lows(f: seq<int>, d: nat): (r: seq<int>)
    requires |f| == N
    ensures |r| == N && AreDigits(r, Pow2(d))
  {
    seq(N, i requires 0 <= i < N => f[i] % Pow2(d))
  }

  lemma LowsOfDigits(f: seq<int>, d: nat)
    requires |f| == N && AreDigits(f, Pow2(d))
    ensures Lows(f, d) == f
  {
    hide Pow2;
    forall i | 0 <= i < N
      ensures Lows(f, d)[i] == f[i]
    {
      ModCanon(Pow2(d), f[i]);
    }
  }

  function Encoded(f: seq<int>, d: nat): (r: seq<Byte>)
    requires |f| == N
    ensures |r| == 32 * d
  {
    Packed(Lows(f, d), d)
  }

  function Reduced(u: seq<int>): (f: seq<int>)
    requires |u| == N
    ensures IsPoly(f)
  {
    seq(N, i requires 0 <= i < N => u[i] % Q)
  }

  /** At 12 bits a value may exceed q, and is reduced. */
  function Decoded(b: seq<Byte>, d: nat): (f: seq<int>)
    ensures |f| == N
  {
    if d == 12 then Reduced(Unpacked(b, 12)) else Unpacked(b, d)
  }

  // ----- FIPS 203 Algorithm 5 -----

  lemma NoBits(v: int)
    ensures v % Pow2(0) == 0
  {
  }

  lemma BitIs(v: int, i: nat)
    ensures v / Pow2(i) % 2 == Bit(v, i)
  {
  }

  lemma ScaledSum(a: int, b: int, p: int, q: int)
    ensures (a + b * p) * q == a * q + b * (q * p)
  {
    assert (b * p) * q == b * (q * p);
  }

  lemma NextPart(v: int, i: nat, first: nat)
    requires 0 <= v
    ensures v % Pow2(i + 1) * Pow2(first) == v % Pow2(i) * Pow2(first) + Bit(v, i) * Pow2(first + i)
  {
    LowBitsNext(v, i);
    Pow2Add(first, i);
    hide Pow2, Bit;
    ScaledSum(v % Pow2(i), Bit(v, i), Pow2(i), Pow2(first));
  }

  /** The inner loop: d bits of one coefficient from bit position first on. */
  method PutBits(out: array<Byte>, d: nat, v: int, first: nat) returns (bit: nat)
    requires 0 <= v && first + d <= 8 * out.Length && ClearFrom(out[..], first)
    modifies out
    ensures bit == first + d && ClearFrom(out[..], bit)
    ensures ToNat(out[..], 256) == ToNat(old(out[..]), 256) + v % Pow2(d) * Pow2(first)
  {
    hide Pow2, ClearFrom, ToNat, Bit;
    bit := first;
    NoBits(v);
    for i := 0 to d
      invariant bit == first + i && ClearFrom(out[..], bit)
      invariant ToNat(out[..], 256) == ToNat(old(out[..]), 256) + v % Pow2(i) * Pow2(first)
    {
      ghost var before := out[..];
      var b := v / Pow2(i) % 2;
      assert b == Bit(v, i) by { BitIs(v, i); }
      SetBit(before, bit, b);
      // the bits of this byte set so far are below bit % 8, so | is +
      out[bit / 8] := out[bit / 8] + b * Pow2(bit % 8);
      assert out[..] == before[bit / 8 := before[bit / 8] + b * Pow2(bit % 8)];
      NextPart(v, i, first);
      bit := bit + 1;
    }
  }

  method Fill(out: array<Byte>)
    modifies out
    ensures forall i :: 0 <= i < out.Length ==> out[i] == 0
  {
    for i := 0 to out.Length
      invariant forall j :: 0 <= j < i ==> out[j] == 0
    {
      out[i] := 0;
    }
  }

  lemma NothingYet(g: seq<int>, d: nat)
    ensures ToNat(g[..0], Pow2(d)) == 0
  {
  }

  lemma Room(d: nat, i: nat)
    requires i < N
    ensures d * i + d <= 8 * (32 * d) && d * (i + 1) == d * i + d
  {
    Scaled(i + 1, N, d);
  }

  lemma NextDigit(f: seq<int>, d: nat, i: nat)
    requires |f| == N && i < N
    ensures var g := Lows(f, d);
      ToNat(g[..i + 1], Pow2(d)) == ToNat(g[..i], Pow2(d)) + f[i] % Pow2(d) * Pow2(d * i)
  {
    var g := Lows(f, d);
    assert g[..i + 1] == g[..i] + [g[i]];
    ToNatAppend(g[..i], [g[i]], Pow2(d));
    ToNatOne(g[i], Pow2(d));
    PowOfPow2(d, i);
    ProductIs(d, i);
    assert Pow2(d * i) * g[i] == g[i] * Pow2(d * i);
  }

  lemma NumberIsPacked(s: seq<Byte>, g: seq<int>, d: nat)
    requires |s| == 32 * d && ToNat(s, 256) == ToNat(g, Pow2(d))
    ensures s == Packed(g, d)
  {
    var c: seq<int> := s;
    assert AreDigits(c, 256);
    FromToNat(c, 256);
  }

  /** The outer loop. What the buffer held before does not matter. */
  method ByteEncode(d: nat, f: seq<int>, out: array<Byte>)
    requires 1 <= d <= 12 && |f| == N && (forall i :: 0 <= i < N ==> 0 <= f[i] < 0x8000) && out.Length == 32 * d
    modifies out
    ensures out[..] == Encoded(f, d)
  {
    hide Pow2, ClearFrom, ToNat, Packed, Lows, AreDigits;
    Fill(out);
    ClearNumber(out[..]);
    var bit := 0;
    ghost var g := Lows(f, d);
    NothingYet(g, d);
    for i := 0 to N
      invariant bit == d * i && ClearFrom(out[..], bit)
      invariant ToNat(out[..], 256) == ToNat(g[..i], Pow2(d))
    {
      Room(d, i);
      bit := PutBits(out, d, f[i], bit);
      NextDigit(f, d, i);
    }
    assert g[..N] == g;
    NumberIsPacked(out[..], g, d);
  }

  // ----- FIPS 203 Algorithm 6 -----

  ghost function NumberOf(bytes: seq<Byte>): (x: nat)
    ensures x == ToNat(bytes, 256)
  {
    ToNatBound(bytes, 256);
    ToNat(bytes, 256)
  }

  lemma NextBitOf(x: nat, first: nat, i: nat)
    ensures var y := x / Pow2(first);
      0 <= y && y % Pow2(i + 1) == y % Pow2(i) + Bit(x, first + i) * Pow2(i)
  {
    ShiftShift(x, first, i);
    LowBitsNext(x / Pow2(first), i);
  }

  /** The inner loop: d bits from bit position first on, as a number. */
  method TakeBits(bytes: seq<Byte>, d: nat, first: nat) returns (v: nat, bit: nat)
    requires d <= 12 && first + d <= 8 * |bytes|
    ensures bit == first + d && 0 <= ToNat(bytes, 256) / Pow2(first) && v == ToNat(bytes, 256) / Pow2(first) % Pow2(d)
  {
    hide Pow2, ToNat, Bit;
    ghost var x := NumberOf(bytes);
    ShiftShift(x, first, 0);
    ghost var y := x / Pow2(first);
    NoBits(y);
    v := 0;
    bit := first;
    for i := 0 to d
      invariant bit == first + i && v == y % Pow2(i)
    {
      BitOfByte(bytes, bit);
      var b := bytes[bit / 8] / Pow2(bit % 8) % 2;
      NextBitOf(x, first, i);
      // v is below 2^i, so | is +
      v := v + b * Pow2(i);
      bit := bit + 1;
    }
  }

  /** One conditional subtraction under a mask. */
  function Reduce12Bit(v: int): (r: int)
    requires 0 <= v < 0x1000
    ensures r == v % Q && 0 <= r < Q
  {
    var r := I32(v - Q);
    I16(r + WhenNegative(r, Q))
  }

  lemma Pow2Twelve()
    ensures Pow2(12) == 0x1000
  {
    Pow2Byte();
    Pow2Add(8, 4);
    assert Pow2(4) == 16;
  }

  lemma ValueAt(bytes: seq<Byte>, d: nat, i: nat, first: nat)
    requires 1 <= d <= 12 && |bytes| == 32 * d && i < N && first == d * i
    ensures Unpacked(bytes, d)[i] == ToNat(bytes, 256) / Pow2(first) % Pow2(d)
    ensures 0 <= Unpacked(bytes, d)[i] < Pow2(d) <= 0x1000
  {
    hide ToNat, FromNat, Pow2, Pow;
    ToNatBound(bytes, 256);
    FromNatAt(ToNat(bytes, 256), Pow2(d), N, i);
    PowOfPow2(d, i);
    ProductIs(d, i);
    Pow2Monotone(d, 12);
    Pow2Twelve();
  }

  /** The outer loop. */
  method ByteDecode(d: nat, bytes: seq<Byte>) returns (f: seq<int>)
    requires 1 <= d <= 12 && |bytes| == 32 * d
    ensures f == Decoded(bytes, d)
  {
    hide Pow2, ToNat, Unpacked;
    var out := new int[N];
    ghost var u := Unpacked(bytes, d);
    var bit := 0;
    for i := 0 to N
      invariant bit == d * i
      invariant forall j :: 0 <= j < i ==> out[j] == if d == 12 then u[j] % Q else u[j]
    {
      Room(d, i);
      ValueAt(bytes, d, i, bit);
      var v;
      v, bit := TakeBits(bytes, d, bit);
      out[i] := if d == 12 then Reduce12Bit(v) else I16(v);
    }
    f := out[..];
  }

  // ----- the two undo each other -----

  /** A polynomial that d bits can hold; at 12 bits, one in [0, q). */
  predicate Encodable(f: seq<int>, d: nat) {
    |f| == N && if d == 12 then Valid(Q, f) else AreDigits(f, Pow2(d))
  }

  lemma FitsBits(f: seq<int>, d: nat)
    requires d <= 12 && Encodable(f, d)
    ensures AreDigits(f, Pow2(d))
  {
    hide Pow2;
    Pow2Twelve();
  }

  lemma ReducedIs(f: seq<int>)
    requires |f| == N
    ensures Reduced(f) == f <==> Valid(Q, f)
  {
    if Valid(Q, f) {
      assert Reduced(f) == f;
    }
  }

  lemma DecodeOfEncode(f: seq<int>, d: nat)
    requires 1 <= d <= 12 && Encodable(f, d)
    ensures Decoded(Encoded(f, d), d) == f
  {
    hide Pow2, Packed, Unpacked;
    Pow2Twelve();
    FitsBits(f, d);
    LowsOfDigits(f, d);
    UnpackOfPack(f, d);
    if d == 12 {
      ReducedIs(f);
    }
  }

  /** Below 12 bits every byte string is the encoding of what it decodes to. */
  lemma EncodeOfDecode(b: seq<Byte>, d: nat)
    requires 1 <= d < 12 && |b| == 32 * d
    ensures Encoded(Decoded(b, d), d) == b
  {
    LowsOfDigits(Unpacked(b, d), d);
    PackOfUnpack(b, d);
  }

  lemma BelowQ(b: seq<Byte>)
    ensures Valid(Q, Unpacked(b, 12)) <==> forall i :: 0 <= i < N ==> Unpacked(b, 12)[i] < Q
  {
    hide Pow2;
    Pow2Twelve();
  }

  /** At 12 bits a string is the encoding of what it decodes to exactly when every window is below q. */
  lemma EncodeOfDecode12(b: seq<Byte>)
    requires |b| == 384
    ensures Encoded(Decoded(b, 12), 12) == b <==> forall i :: 0 <= i < N ==> Unpacked(b, 12)[i] < Q
  {
    hide Pow2, Packed, Unpacked, Reduced, Valid, AreDigits;
    var u := Unpacked(b, 12);
    var f := Reduced(u);
    Pow2Twelve();
    PackOfUnpack(b, 12);
    LowsOfDigits(u, 12);
    DecodeOfEncode(f, 12);
    FitsBits(f, 12);
    LowsOfDigits(f, 12);
    UnpackOfPack(f, 12);
    ReducedIs(u);
    BelowQ(b);
  }
}
